/** Helpers shared by the whole model: an Option type, first-match search over a
    sequence, and the handful of JavaScript string operations the core relies on
    (startsWith, endsWith, indexOf/includes, replace, slice, toLowerCase, trim). */
module Common {

  datatype Option<T> = None | Some(value: T)

  /** What `fs.existsSync` and `fs.readFileSync` see at a path that exists: a
      regular file and its contents, or a directory (reading one throws). A
      file system is a map from absolute paths to these. */
  datatype FsNode<T> = RegularFile(data: T) | Directory

  // ---------------------------------------------------------------------------
  // First match in a sequence

  /** The index of the first element of `s` satisfying `p`, if any. */
  function FirstIndex<T>(s: seq<T>, p: T -> bool): (r: Option<nat>)
    ensures r.Some? ==> r.value < |s| && p(s[r.value])
    ensures forall k :: 0 <= k < |s| && (r.None? || k < r.value) ==> !p(s[k])
  {
    if s == [] then None
    else if p(s[0]) then Some(0)
    else match FirstIndex(s[1..], p)
      case None => None
      case Some(k) => Some(k + 1)
  }

  /** The two clauses of FirstIndex's contract determine its result. */
  lemma FirstIndexUnique<T>(s: seq<T>, p: T -> bool, r: Option<nat>)
    requires r.Some? ==> r.value < |s| && p(s[r.value])
    requires forall k :: 0 <= k < |s| && (r.None? || k < r.value) ==> !p(s[k])
    ensures r == FirstIndex(s, p)
  {
  }

  /** Searching a concatenation searches the left part first. */
  lemma FirstIndexAppend<T>(a: seq<T>, b: seq<T>, p: T -> bool)
    ensures FirstIndex(a + b, p) ==
            match FirstIndex(a, p)
            case Some(k) => Some(k)
            case None =>
              match FirstIndex(b, p)
              case None => None
              case Some(k) => Some(|a| + k)
  {
    var r :=
      match FirstIndex(a, p)
      case Some(k) => Some(k)
      case None =>
        match FirstIndex(b, p)
        case None => None
        case Some(k) => Some(|a| + k);
    forall k | 0 <= k < |a + b| && (r.None? || k < r.value)
      ensures !p((a + b)[k])
    {
      if k >= |a| { assert (a + b)[k] == b[k - |a|]; }
    }
    FirstIndexUnique(a + b, p, r);
  }

  // ---------------------------------------------------------------------------
  // JavaScript string operations

  /** `s.startsWith(prefix)` */
  predicate StartsWith(s: string, prefix: string) {
    |prefix| <= |s| && s[..|prefix|] == prefix
  }

  /** `s.endsWith(suffix)` */
  predicate EndsWith(s: string, suffix: string) {
    |suffix| <= |s| && s[|s| - |suffix|..] == suffix
  }

  /** `t` occurs in `s` starting at index `k`. */
  predicate OccursAt(s: string, t: string, k: nat) {
    k + |t| <= |s| && s[k..k + |t|] == t
  }

  /** `s.indexOf(t, from)`: the first index at or after `from` where `t` occurs. */
  function IndexOf(s: string, t: string, from: nat): (r: Option<nat>)
    ensures r.Some? ==> from <= r.value && OccursAt(s, t, r.value)
    ensures forall k: nat :: from <= k && (r.None? || k < r.value) ==> !OccursAt(s, t, k)
    decreases |s| - from
  {
    if |s| < from + |t| then None
    else if s[from..from + |t|] == t then Some(from)
    else IndexOf(s, t, from + 1)
  }

  /** `s.includes(t)` */
  predicate Includes(s: string, t: string) {
    IndexOf(s, t, 0).Some?
  }

  /** `indexOf` finds the first occurrence. */
  lemma {:induction false} IndexOfFirstOccurrence(s: string, t: string, from: nat, k: nat)
    requires from <= k && OccursAt(s, t, k)
    requires forall m :: from <= m < k ==> !OccursAt(s, t, m)
    ensures IndexOf(s, t, from) == Some(k)
    decreases k - from
  {
    if from < k {
      assert !OccursAt(s, t, from);
      IndexOfFirstOccurrence(s, t, from + 1, k);
    }
  }

  /** Every character of an occurring string is a character of the string it occurs in. */
  lemma IncludesChars(s: string, t: string)
    ensures Includes(s, t) ==> forall c :: c in t ==> c in s
  {
    if Includes(s, t) {
      var k := IndexOf(s, t, 0).value;
      forall c | c in t
        ensures c in s
      {
        var m :| 0 <= m < |t| && t[m] == c;
        assert s[k + m] == s[k..k + |t|][m];
      }
    }
  }

  /** The first index at or after `from` holding the character `c`. */
  function IndexOfChar(s: string, c: char, from: nat): (r: Option<nat>)
    ensures r.Some? ==> from <= r.value < |s| && s[r.value] == c
    ensures forall k :: from <= k < |s| && (r.None? || k < r.value) ==> s[k] != c
    decreases |s| - from
  {
    if |s| <= from then None
    else if s[from] == c then Some(from)
    else IndexOfChar(s, c, from + 1)
  }

  /** The last index below `hi` holding the character `c`. */
  function LastIndexOfChar(s: string, c: char, hi: nat): (r: Option<nat>)
    requires hi <= |s|
    ensures r.Some? ==> r.value < hi && s[r.value] == c
    ensures forall k :: 0 <= k < hi && (r.None? || r.value < k) ==> s[k] != c
  {
    if hi == 0 then None
    else if s[hi - 1] == c then Some(hi - 1)
    else LastIndexOfChar(s, c, hi - 1)
  }

  /** `s.replace(pat, '')` with a string pattern: removes the FIRST occurrence only. */
  function RemoveFirst(s: string, pat: string): (r: string)
    ensures !Includes(s, pat) ==> r == s
    ensures Includes(s, pat) ==>
              exists k: nat :: OccursAt(s, pat, k) && (forall m: nat :: m < k ==> !OccursAt(s, pat, m))
                               && r == s[..k] + s[k + |pat|..]
  {
    match IndexOf(s, pat, 0)
    case None => s
    case Some(k) => s[..k] + s[k + |pat|..]
  }

  /** A pattern whose first character does not occur in `s` is found first
      where it is appended to `s`, so `replace` takes that suffix off again. */
  lemma RemoveFirstSuffix(s: string, pat: string)
    requires |pat| > 0 && pat[0] !in s
    ensures EndsWith(s + pat, pat)
    ensures RemoveFirst(s + pat, pat) == s
  {
    var name := s + pat;
    assert name[|s|..|s| + |pat|] == pat;
    forall m | 0 <= m < |s|
      ensures !OccursAt(name, pat, m)
    {
      assert name[m] == s[m];
      if m + |pat| <= |name| {
        assert name[m..m + |pat|][0] == name[m];
      }
    }
    IndexOfFirstOccurrence(name, pat, 0, |s|);
    assert name[..|s|] == s;
    assert name[|s| + |pat|..] == [];
    assert name[|name| - |pat|..] == pat;
  }

  /** `s.replace(/c/g, '')`: removes every occurrence of the character `c`. */
  function RemoveAll(s: string, c: char): (r: string)
    ensures c !in r
    ensures forall x :: x != c ==> multiset(r)[x] == multiset(s)[x]
    ensures c !in s ==> r == s
  {
    if s == [] then []
    else
      assert s == [s[0]] + s[1..];
      (if s[0] == c then [] else [s[0]]) + RemoveAll(s[1..], c)
  }

  /** The kept characters stay in their order: removal works piece by piece. */
  lemma {:induction false} RemoveAllAppend(a: string, b: string, c: char)
    ensures RemoveAll(a + b, c) == RemoveAll(a, c) + RemoveAll(b, c)
  {
    if a == [] {
      assert a + b == b;
    } else {
      assert (a + b)[1..] == a[1..] + b;
      RemoveAllAppend(a[1..], b, c);
    }
  }

  /** `s.slice(0, n)` */
  function Take(s: string, n: nat): (r: string)
    ensures |r| == if n <= |s| then n else |s|
    ensures StartsWith(s, r)
  {
    if n <= |s| then s[..n] else s
  }

  function LowerChar(c: char): char {
    if 'A' <= c <= 'Z' then (c as int + 32) as char else c
  }

  /** `s.toLowerCase()`, restricted to the ASCII letters. */
  function ToLower(s: string): (r: string)
    ensures |r| == |s|
    ensures forall k :: 0 <= k < |s| ==> r[k] == LowerChar(s[k])
  {
    if s == [] then [] else [LowerChar(s[0])] + ToLower(s[1..])
  }

  /** The ECMAScript LineTerminator characters. */
  predicate IsLineTerminator(c: char) {
    c == '\n' || c == '\r' || c == '\U{2028}' || c == '\U{2029}'
  }

  /** The characters `\s` matches and `trim` removes: WhiteSpace and LineTerminator. */
  predicate IsWhite(c: char) {
    || IsLineTerminator(c)
    || c == '\t' || c == '\U{000B}' || c == '\U{000C}' || c == ' '
    || c == '\U{00A0}' || c == '\U{FEFF}' || c == '\U{1680}'
    || ('\U{2000}' <= c <= '\U{200A}')
    || c == '\U{202F}' || c == '\U{205F}' || c == '\U{3000}'
  }

  /** The end of the run of white characters starting at `i`. */
  function SkipWhite(s: string, i: nat): (k: nat)
    requires i <= |s|
    ensures i <= k <= |s|
    ensures forall m :: i <= m < k ==> IsWhite(s[m])
    ensures k < |s| ==> !IsWhite(s[k])
    decreases |s| - i
  {
    if i < |s| && IsWhite(s[i]) then SkipWhite(s, i + 1) else i
  }

  /** The start of the run of white characters ending at `j`, not going below `lo`. */
  function SkipWhiteBack(s: string, lo: nat, j: nat): (k: nat)
    requires lo <= j <= |s|
    ensures lo <= k <= j
    ensures forall m :: k <= m < j ==> IsWhite(s[m])
    ensures lo < k ==> !IsWhite(s[k - 1])
    decreases j
  {
    if lo < j && IsWhite(s[j - 1]) then SkipWhiteBack(s, lo, j - 1) else j
  }

  /** `s.trim()`: the slice left after removing leading and trailing white characters. */
  function Trim(s: string): (r: string)
    ensures exists a: nat, b: nat ::
              && a <= b <= |s| && r == s[a..b]
              && (forall m :: 0 <= m < a ==> IsWhite(s[m]))
              && (forall m :: b <= m < |s| ==> IsWhite(s[m]))
    ensures r != [] ==> !IsWhite(r[0]) && !IsWhite(r[|r| - 1])
  {
    var a := SkipWhite(s, 0);
    var b := SkipWhiteBack(s, a, |s|);
    assert a < b ==> b - 1 >= a && !IsWhite(s[b - 1]);
    s[a..b]
  }
}
