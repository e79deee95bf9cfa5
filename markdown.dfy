/** The markdown reader of src/lib/parser/markdown.ts: the title of a page
    (the pattern `/^#\s+(.+)$/m`), the local image references (the global
    pattern `/!\[([^\]]*)\]\(([^)]+)\)/g`), reading a page below the data
    root, and the search of the data root for a page whose file name contains
    a fragment of its id.

    The two patterns are matched by hand-written scanners; each scanner is
    proved against a declarative statement of what the pattern matches. */
module Markdown {
  import opened Common
  import opened PosixPath

  // ---------------------------------------------------------------------------
  // Title: /^#\s+(.+)$/m

  /** `^` in multiline mode: the start of the input or just after a line terminator. */
  predicate LineStart(s: string, p: nat) {
    p <= |s| && (p == 0 || IsLineTerminator(s[p - 1]))
  }

  /** The pattern matches at `p` with the capture group `s[i..j]`: `#`, then at
      least one white character (line breaks included), then a non-empty run
      without line terminators that ends at a line end. */
  predicate IsTitleMatch(s: string, p: nat, i: nat, j: nat) {
    && p < |s| && LineStart(s, p) && s[p] == '#'
    && p + 1 < i < j <= |s|
    && (forall m :: p < m < i ==> IsWhite(s[m]))
    && (forall m :: i <= m < j ==> !IsLineTerminator(s[m]))
    && (j == |s| || IsLineTerminator(s[j]))
  }

  /** The match `String.prototype.match` reports: the leftmost start, and at that
      start the longest `\s+` (the greedy quantifier gives characters back only
      when it has to). */
  ghost predicate IsReportedMatch(s: string, p: nat, i: nat, j: nat) {
    && IsTitleMatch(s, p, i, j)
    && (forall p': nat, i': nat, j': nat :: p' < p ==> !IsTitleMatch(s, p', i', j'))
    && (forall i': nat, j': nat :: IsTitleMatch(s, p, i', j') ==> i' <= i)
  }

  /** The end of the line that contains index `i`. */
  function LineEnd(s: string, i: nat): (k: nat)
    requires i <= |s|
    ensures i <= k <= |s|
    ensures forall m :: i <= m < k ==> !IsLineTerminator(s[m])
    ensures k == |s| || IsLineTerminator(s[k])
    decreases |s| - i
  {
    if i < |s| && !IsLineTerminator(s[i]) then LineEnd(s, i + 1) else i
  }

  /** `.+$` from `i`: the only place the run can stop is the line end. */
  lemma LineEndUnique(s: string, i: nat, j: nat)
    requires i <= j <= |s|
    requires forall m :: i <= m < j ==> !IsLineTerminator(s[m])
    requires j == |s| || IsLineTerminator(s[j])
    ensures j == LineEnd(s, i)
  {
  }

  /** The last index in `[lo, hi)` that does not hold a line terminator. */
  function LastNonTerminator(s: string, lo: nat, hi: nat): (r: Option<nat>)
    requires lo <= hi <= |s|
    ensures r.Some? ==> lo <= r.value < hi && !IsLineTerminator(s[r.value])
    ensures forall m :: lo <= m < hi && (r.None? || r.value < m) ==> IsLineTerminator(s[m])
    decreases hi
  {
    if hi <= lo then None
    else if !IsLineTerminator(s[hi - 1]) then Some(hi - 1)
    else LastNonTerminator(s, lo, hi - 1)
  }

  /** Any match at `p` has its capture start inside the white run after `#`, on
      a character that is not a line terminator, and stops at the line end. */
  lemma TitleMatchShape(s: string, p: nat)
    requires p < |s|
    ensures forall i: nat, j: nat :: IsTitleMatch(s, p, i, j) ==>
              && i <= SkipWhite(s, p + 1)
              && !IsLineTerminator(s[i])
              && j == LineEnd(s, i)
  {
    forall i: nat, j: nat | IsTitleMatch(s, p, i, j)
      ensures i <= SkipWhite(s, p + 1) && !IsLineTerminator(s[i]) && j == LineEnd(s, i)
    {
      LineEndUnique(s, i, j);
    }
  }

  /** The capture the pattern yields when the match is attempted at `p`. */
  function TitleMatchAt(s: string, p: nat): (r: Option<(nat, nat)>)
    ensures r.Some? ==> IsTitleMatch(s, p, r.value.0, r.value.1)
    ensures r.Some? ==> forall i': nat, j': nat :: IsTitleMatch(s, p, i', j') ==> i' <= r.value.0
    ensures r.Some? ==> forall j': nat :: IsTitleMatch(s, p, r.value.0, j') ==> j' == r.value.1
    ensures r.None? ==> forall i': nat, j': nat :: !IsTitleMatch(s, p, i', j')
  {
    if !(p < |s| && LineStart(s, p) && s[p] == '#') then None
    else
      TitleMatchShape(s, p);
      var e := SkipWhite(s, p + 1);
      if e == p + 1 then None
      else if e < |s| then
        assert !IsLineTerminator(s[e]);
        Some((e, LineEnd(s, e)))
      else
        // the white run reaches the end: `\s+` must give back characters
        match LastNonTerminator(s, p + 2, e)
        case None => None
        case Some(i) => Some((i, LineEnd(s, i)))
  }

  /** The leftmost match starting at or after `from`. */
  function FirstTitleMatch(s: string, from: nat): (r: Option<(nat, nat, nat)>)
    ensures r.Some? ==> from <= r.value.0 && TitleMatchAt(s, r.value.0) == Some((r.value.1, r.value.2))
    ensures forall p': nat, i': nat, j': nat :: from <= p' && (r.None? || p' < r.value.0) ==> !IsTitleMatch(s, p', i', j')
    decreases |s| - from
  {
    if |s| <= from then None
    else match TitleMatchAt(s, from)
      case Some((i, j)) => Some((from, i, j))
      case None => FirstTitleMatch(s, from + 1)
  }

  /** The reported match is the one the scan finds first; in particular there
      is at most one. */
  lemma ReportedMatchIsFirst(s: string, p: nat, i: nat, j: nat)
    requires IsReportedMatch(s, p, i, j)
    ensures FirstTitleMatch(s, 0) == Some((p, i, j))
  {
    var r := FirstTitleMatch(s, 0);
    assert r.Some?;
    var (p0, i0, j0) := r.value;
    assert IsTitleMatch(s, p0, i0, j0);
    assert p0 == p;
  }

  /** Whenever the pattern matches somewhere, the scan finds the reported match. */
  lemma ReportedMatchExists(s: string, p: nat, i: nat, j: nat)
    requires IsTitleMatch(s, p, i, j)
    ensures FirstTitleMatch(s, 0).Some?
    ensures var m := FirstTitleMatch(s, 0).value; IsReportedMatch(s, m.0, m.1, m.2)
  {
  }

  /** extractTitleFromContent: the trimmed capture of the reported match, or
      `Untitled` when the pattern matches nowhere. */
  function ExtractTitle(content: string): (title: string)
    ensures (forall p: nat, i: nat, j: nat :: !IsTitleMatch(content, p, i, j)) ==> title == "Untitled"
  {
    match FirstTitleMatch(content, 0)
    case None => "Untitled"
    case Some((_, i, j)) => Trim(content[i..j])
  }

  /** The title when the pattern matches: the trimmed capture of the reported match. */
  lemma ExtractTitleOfReported(content: string, p: nat, i: nat, j: nat)
    requires IsReportedMatch(content, p, i, j)
    ensures ExtractTitle(content) == Trim(content[i..j])
  {
    ReportedMatchIsFirst(content, p, i, j);
  }

  /** A line that starts `##` is never where the title comes from. */
  lemma SubheadingsGiveUntitled(s: string)
    requires forall p :: 0 <= p < |s| && LineStart(s, p) && s[p] == '#' ==> p + 1 < |s| && s[p + 1] == '#'
    ensures ExtractTitle(s) == "Untitled"
  {
    forall p: nat, i: nat, j: nat
      ensures !IsTitleMatch(s, p, i, j)
    {
      if p < |s| && LineStart(s, p) && s[p] == '#' && p + 1 < i {
        assert !IsWhite(s[p + 1]);
      }
    }
  }

  /** `\s` also matches a line break, so the heading text may start on the next line. */
  lemma HeadingTextOnNextLine()
    ensures ExtractTitle("#\nFoo") == "Foo"
  {
    var s := "#\nFoo";
    assert SkipWhite(s, 1) == 2;
    assert LineEnd(s, 2) == 5;
    assert TitleMatchAt(s, 0) == Some((2, 5));
    assert s[2..5] == "Foo";
    assert SkipWhite("Foo", 0) == 0;
    assert SkipWhiteBack("Foo", 0, 3) == 3;
  }

  /** A heading made of white space only gives the empty title, not `Untitled`. */
  lemma BlankHeadingGivesEmptyTitle()
    ensures ExtractTitle("#  ") == ""
  {
    var s := "#  ";
    assert SkipWhite(s, 1) == 3;
    assert LastNonTerminator(s, 2, 3) == Some(2);
    assert LineEnd(s, 2) == 3;
    assert TitleMatchAt(s, 0) == Some((2, 3));
    assert s[2..3] == " ";
  }

  // ---------------------------------------------------------------------------
  // Images: /!\[([^\]]*)\]\(([^)]+)\)/g

  /** `![alt](target)` at `p`, its `]` at `a` and its closing `)` at `b`: the alt
      text has no `]` (it may span lines), the target `s[a+2..b]` is non-empty
      and has no `)`. */
  predicate IsImageMatch(s: string, p: nat, a: nat, b: nat) {
    && p + 2 <= a && a + 2 < b < |s|
    && s[p] == '!' && s[p + 1] == '[' && s[a] == ']' && s[a + 1] == '(' && s[b] == ')'
    && (forall m :: p + 2 <= m < a ==> s[m] != ']')
    && (forall m :: a + 2 <= m < b ==> s[m] != ')')
  }

  /** `IndexOfChar` with only its bounds in the contract, so that unfolding a
      match attempt inside a larger proof stays cheap. */
  function FindChar(s: string, c: char, from: nat): (r: Option<nat>)
    ensures r.Some? ==> from <= r.value < |s|
    decreases |s| - from
  {
    if |s| <= from then None
    else if s[from] == c then Some(from)
    else FindChar(s, c, from + 1)
  }

  lemma {:induction false} FindCharIsIndexOfChar(s: string, c: char, from: nat)
    ensures FindChar(s, c, from) == IndexOfChar(s, c, from)
    decreases |s| - from
  {
    if from < |s| && s[from] != c {
      FindCharIsIndexOfChar(s, c, from + 1);
    }
  }

  /** The match attempted at `p`. */
  function ImageMatchAt(s: string, p: nat): (r: Option<(nat, nat)>)
    ensures r.Some? ==> p + 2 <= r.value.0 && r.value.0 + 2 < r.value.1 < |s|
  {
    if p + 1 < |s| && s[p] == '!' && s[p + 1] == '[' then
      match FindChar(s, ']', p + 2)
      case None => None
      case Some(a) =>
        if a + 1 < |s| && s[a + 1] == '(' then
          match FindChar(s, ')', a + 2)
          case None => None
          case Some(b) => if a + 2 < b then Some((a, b)) else None
        else None
    else None
  }

  /** The scan finds a match exactly where the pattern matches, and there is
      at most one match at each start. */
  lemma ImageMatchAtCorrect(s: string, p: nat)
    ensures ImageMatchAt(s, p).Some? ==> IsImageMatch(s, p, ImageMatchAt(s, p).value.0, ImageMatchAt(s, p).value.1)
    ensures forall a, b :: IsImageMatch(s, p, a, b) ==> ImageMatchAt(s, p) == Some((a, b))
  {
    FindCharIsIndexOfChar(s, ']', p + 2);
    match IndexOfChar(s, ']', p + 2)
    case None =>
    case Some(a) => FindCharIsIndexOfChar(s, ')', a + 2);
  }

  /** The leftmost match starting at or after `from`, as (start, `]` index,
      `)` index): what one `exec` call finds when `lastIndex == from`. */
  function NextMatch(s: string, from: nat): (r: Option<(nat, nat, nat)>)
    ensures r.Some? ==> from <= r.value.0 && r.value.0 + 2 <= r.value.1 && r.value.1 + 2 < r.value.2 < |s|
    decreases |s| - from
  {
    if |s| <= from then None
    else match ImageMatchAt(s, from)
      case Some((a, b)) => Some((from, a, b))
      case None => NextMatch(s, from + 1)
  }

  /** NextMatch is the leftmost match: it is a match, and no match starts
      between `from` and it. */
  lemma {:induction false} NextMatchLeftmost(s: string, from: nat)
    ensures var r := NextMatch(s, from);
            && (r.Some? ==> ImageMatchAt(s, r.value.0) == Some((r.value.1, r.value.2)))
            && (forall q :: from <= q && (r.None? || q < r.value.0) ==> ImageMatchAt(s, q).None?)
    decreases |s| - from
  {
    if from < |s| && ImageMatchAt(s, from).None? {
      NextMatchLeftmost(s, from + 1);
    }
  }

  /** The targets that repeated `exec` calls return when `lastIndex` starts at
      `from`: each call takes the leftmost match at or after `lastIndex` and
      moves `lastIndex` past its `)`, so matches never overlap. */
  function Targets(s: string, from: nat): seq<string>
    decreases |s| - from
  {
    match NextMatch(s, from)
    case None => []
    case Some((_, a, b)) => [s[a + 2..b]] + Targets(s, b + 1)
  }

  /** The filter extractImages applies: absolute http and https URLs are dropped. */
  predicate IsLocal(t: string) {
    !StartsWith(t, "http://") && !StartsWith(t, "https://")
  }

  function KeepLocal(ts: seq<string>): (r: seq<string>)
    ensures |r| <= |ts|
  {
    if ts == [] then []
    else (if IsLocal(ts[0]) then [ts[0]] else []) + KeepLocal(ts[1..])
  }

  /** The local image targets of a document, in document order. */
  function LocalTargets(s: string): seq<string> {
    KeepLocal(Targets(s, 0))
  }

  /** One `imgRegex.exec(content)` with `lastIndex == from`. */
  method Exec(s: string, from: nat) returns (m: Option<(nat, nat, nat)>)
    ensures m == NextMatch(s, from)
  {
    var p := from;
    while p < |s|
      invariant from <= p
      invariant NextMatch(s, from) == NextMatch(s, p)
      decreases |s| - p
    {
      var hit := ImageMatchAt(s, p);
      if hit.Some? {
        return Some((p, hit.value.0, hit.value.1));
      }
      p := p + 1;
    }
    m := None;
  }

  /** The local targets from `from` on, one match at a time: the filter
      applied as the scan goes, as the source's loop does. */
  function LocalFrom(s: string, from: nat): seq<string>
    decreases |s| - from
  {
    match NextMatch(s, from)
    case None => []
    case Some((_, a, b)) =>
      (if IsLocal(s[a + 2..b]) then [s[a + 2..b]] else []) + LocalFrom(s, b + 1)
  }

  lemma LocalFromUnfold(s: string, from: nat, p: nat, a: nat, b: nat)
    requires NextMatch(s, from) == Some((p, a, b))
    ensures LocalFrom(s, from) == (if IsLocal(s[a + 2..b]) then [s[a + 2..b]] else []) + LocalFrom(s, b + 1)
  {
  }

  /** One round of the extraction loop, with `found` the targets kept so far. */
  lemma LocalFromStep(found: seq<string>, s: string, from: nat, p: nat, a: nat, b: nat)
    requires NextMatch(s, from) == Some((p, a, b))
    ensures a + 2 < b < |s| && from < b + 1
    ensures found + LocalFrom(s, from) ==
            (if IsLocal(s[a + 2..b]) then found + [s[a + 2..b]] else found) + LocalFrom(s, b + 1)
  {
    var t := s[a + 2..b];
    var rest := LocalFrom(s, b + 1);
    LocalFromUnfold(s, from, p, a, b);
    if IsLocal(t) {
      assert found + ([t] + rest) == (found + [t]) + rest;
    } else {
      assert [] + rest == rest;
    }
  }

  /** Filtering as the scan goes is filtering the list of all targets. */
  lemma {:induction false} LocalFromIsKeepLocal(s: string, from: nat)
    ensures LocalFrom(s, from) == KeepLocal(Targets(s, from))
    decreases |s| - from
  {
    match NextMatch(s, from)
    case None =>
    case Some((_, a, b)) =>
      LocalFromIsKeepLocal(s, b + 1);
      var t := s[a + 2..b];
      assert Targets(s, from) == [t] + Targets(s, b + 1);
      assert ([t] + Targets(s, b + 1))[1..] == Targets(s, b + 1);
  }

  /** extractImages: the local targets in document order, duplicates kept; the
      result does not depend on `basePath`. */
  method ExtractImages(content: string, basePath: string) returns (images: seq<string>)
    ensures images == LocalTargets(content)
  {
    images := [];
    var lastIndex: nat := 0;
    ghost var all := LocalFrom(content, 0);
    ghost var rest := all;
    var m := Exec(content, lastIndex);
    while m.Some?
      invariant lastIndex <= |content|
      invariant m == NextMatch(content, lastIndex)
      invariant rest == LocalFrom(content, lastIndex)
      invariant images + rest == all
      decreases |content| - lastIndex
    {
      var start, close, end := m.value.0, m.value.1, m.value.2;
      LocalFromStep(images, content, lastIndex, start, close, end);
      var imgPath := content[close + 2..end];
      ghost var kept := if IsLocal(imgPath) then images + [imgPath] else images;
      if IsLocal(imgPath) {
        images := images + [imgPath];
      }
      assert images == kept;
      lastIndex := end + 1;
      rest := LocalFrom(content, lastIndex);
      assert images + rest == all;
      m := Exec(content, lastIndex);
    }
    assert images + [] == images;
    LocalFromIsKeepLocal(content, 0);
  }

  /** Every target is non-empty and contains no `)`. */
  lemma {:induction false} TargetsWellFormed(s: string, from: nat)
    ensures forall k :: 0 <= k < |Targets(s, from)| ==>
              |Targets(s, from)[k]| > 0 && ')' !in Targets(s, from)[k]
    decreases |s| - from
  {
    match NextMatch(s, from)
    case None =>
    case Some((p, a, b)) =>
      MatchedTargetWellFormed(s, from, p, a, b);
      TargetsWellFormed(s, b + 1);
      var ts, rest := Targets(s, from), Targets(s, b + 1);
      assert ts == [s[a + 2..b]] + rest;
      forall k | 0 <= k < |ts|
        ensures |ts[k]| > 0 && ')' !in ts[k]
      {
        if k > 0 {
          assert ts[k] == rest[k - 1];
        }
      }
  }

  /** The target of one match is non-empty and contains no `)`. */
  lemma MatchedTargetWellFormed(s: string, from: nat, p: nat, a: nat, b: nat)
    requires NextMatch(s, from) == Some((p, a, b))
    ensures |s[a + 2..b]| > 0 && ')' !in s[a + 2..b]
  {
    NextMatchLeftmost(s, from);
    ImageMatchAtCorrect(s, p);
    var t := s[a + 2..b];
    assert forall m :: 0 <= m < |t| ==> t[m] == s[a + 2 + m];
  }

  lemma {:induction false} KeepLocalSound(ts: seq<string>)
    ensures forall k :: 0 <= k < |KeepLocal(ts)| ==> IsLocal(KeepLocal(ts)[k]) && KeepLocal(ts)[k] in ts
  {
    if ts != [] {
      KeepLocalSound(ts[1..]);
    }
  }

  /** Every local target is kept: a target is dropped only if it starts with
      exactly `http://` or `https://`. */
  lemma {:induction false} KeepLocalComplete(ts: seq<string>, k: nat)
    requires k < |ts| && IsLocal(ts[k])
    ensures ts[k] in KeepLocal(ts)
  {
    if k > 0 {
      KeepLocalComplete(ts[1..], k - 1);
    }
  }

  /** A sequence of local targets passes the filter whole: order and
      duplicates are preserved. */
  lemma {:induction false} KeepLocalIdentity(ts: seq<string>)
    requires forall k :: 0 <= k < |ts| ==> IsLocal(ts[k])
    ensures KeepLocal(ts) == ts
  {
    if ts != [] {
      KeepLocalIdentity(ts[1..]);
    }
  }

  /** What extractImages returns: non-empty local targets without `)`, each
      taken from the document. */
  lemma LocalTargetsWellFormed(s: string)
    ensures forall k :: 0 <= k < |LocalTargets(s)| ==>
              var t := LocalTargets(s)[k];
              |t| > 0 && ')' !in t && IsLocal(t) && t in Targets(s, 0)
  {
    TargetsWellFormed(s, 0);
    KeepLocalSound(Targets(s, 0));
  }

  /** Only the exact lower-case schemes are filtered out. */
  lemma LocalityExamples()
    ensures IsLocal("/x") && IsLocal("HTTP://x") && IsLocal("ftp://x")
    ensures !IsLocal("http://x") && !IsLocal("https://x")
  {
    assert "HTTP://x"[..7][0] != "http://"[0];
    assert "HTTP://x"[..8][0] != "https://"[0];
    assert "ftp://x"[..7][0] != "http://"[0];
    assert "http://x"[..7] == "http://";
    assert "https://x"[..8] == "https://";
  }

  // ---------------------------------------------------------------------------
  // Reading a page

  datatype PageContent = PageContent(title: string, content: string, images: seq<string>)

  /** readMarkdownFile returns null, a page, or throws (readFileSync on a directory). */
  datatype ReadResult = NotFound | Read(page: PageContent) | ReadThrows

  /** resolveFilePath: `path.join(dataPath, relativePath)` when something exists
      there. There is no containment check. */
  function ResolveFilePath(dataPath: string, files: map<string, FsNode<string>>, relativePath: string): (r: Option<string>)
    ensures r.Some? <==> Join(dataPath, relativePath) in files
    ensures r.Some? ==> r.value == Join(dataPath, relativePath) && r.value != ""
  {
    var fullPath := Join(dataPath, relativePath);
    if fullPath in files then Some(fullPath) else None
  }

  /** readMarkdownFile: null exactly when nothing exists at the joined path;
      otherwise the file text unchanged, with its title and local images. */
  method ReadMarkdownFile(dataPath: string, files: map<string, FsNode<string>>, filePath: string)
    returns (r: ReadResult)
    ensures r.NotFound? <==> Join(dataPath, filePath) !in files
    ensures r.ReadThrows? <==> Join(dataPath, filePath) in files && files[Join(dataPath, filePath)].Directory?
    ensures r.Read? ==>
              && files[Join(dataPath, filePath)] == RegularFile(r.page.content)
              && r.page.title == ExtractTitle(r.page.content)
              && r.page.images == LocalTargets(r.page.content)
  {
    var fullPath := ResolveFilePath(dataPath, files, filePath);
    if fullPath.None? {
      return NotFound;
    }
    match files[fullPath.value]
    case Directory =>
      r := ReadThrows;
    case RegularFile(content) =>
      var title := ExtractTitle(content);
      var basePath := Dirname(filePath);
      var images := ExtractImages(content, basePath);
      r := Read(PageContent(title, content, images));
  }

  lemma EscapeSplit()
    ensures Split("../etc/passwd") == ["..", "etc", "passwd"]
  {
    var segs := ["..", "etc", "passwd"];
    assert JoinSep(segs) == "../etc/passwd" by {
      assert JoinSep(segs[2..]) == "passwd";
      assert JoinSep(segs[1..]) == "etc/passwd";
    }
    assert forall k :: 0 <= k < |segs| ==> '/' !in segs[k];
    JoinThenSplit(segs);
  }

  lemma DataSplit()
    ensures Split("/data") == ["", "data"]
  {
    assert JoinSep(["", "data"]) == "/data";
    JoinThenSplit(["", "data"]);
  }

  /** The segments of `/data/../etc/passwd`. */
  lemma EscapeSegments()
    ensures Split("/data" + "/" + "../etc/passwd") == ["", "data", "..", "etc", "passwd"]
  {
    SplitAppend("/data", "../etc/passwd");
    DataSplit();
    EscapeSplit();
  }

  /** ... and what normalisation keeps of them. */
  lemma EscapeFold()
    ensures Fold([], ["", "data", "..", "etc", "passwd"], false) == ["etc", "passwd"]
  {
    assert ["", "data", "..", "etc", "passwd"] == ["", "data", ".."] + ["etc", "passwd"];
    assert Fold([], ["", "data", ".."], false) == [] by {
      assert Step([], "", false) == [];
      assert ["", "data", ".."][1..] == ["data", ".."];
      assert Step([], "data", false) == ["data"];
      assert ["data", ".."][1..] == [".."];
      assert Step(["data"], "..", false) == [];
      assert [".."][1..] == [];
    }
    FoldAppend([], ["", "data", ".."], ["etc", "passwd"], false);
    FoldNames([], ["etc", "passwd"], false);
  }

  /** `path.join("/data", "../etc/passwd")` is `/etc/passwd`. */
  lemma EscapeNormalize()
    ensures Normalize("/data" + "/" + "../etc/passwd") == "/etc/passwd"
  {
    var p := "/data" + "/" + "../etc/passwd";
    assert Fold([], Split(p), false) == ["etc", "passwd"] by {
      EscapeSegments();
      EscapeFold();
    }
    assert JoinSep(["etc", "passwd"]) == "etc/passwd";
    assert p[0] == '/' && p[|p| - 1] != '/';
    NormalizeAbsolute(p);
  }

  lemma EscapeJoin()
    ensures Join("/data", "../etc/passwd") == "/etc/passwd"
  {
    EscapeNormalize();
  }

  /** A relative path may climb out of the data root: `../etc/passwd` under
      `/data` is `/etc/passwd`. */
  lemma ResolveFilePathEscapes(files: map<string, FsNode<string>>)
    requires "/etc/passwd" in files
    ensures ResolveFilePath("/data", files, "../etc/passwd") == Some("/etc/passwd")
  {
    EscapeJoin();
  }

  // ---------------------------------------------------------------------------
  // Finding a page by a fragment of its id

  /** One entry of a `readdirSync(dir, { withFileTypes: true })` listing. */
  datatype DirEntry = File(name: string) | Dir(name: string, entries: seq<DirEntry>)

  /** The two fragments findFileByUuid derives from the id it is given. */
  datatype Query = Query(fullUuid: string, shortUuid: string)

  function QueryOf(uuid: string): Query {
    Query(RemoveAll(uuid, '-'), Take(uuid, 8))
  }

  /** The test searchDir applies to a file name: a `.md` name whose stem (the
      name with its first `.md` removed) contains the hyphen-free id, or whose
      lower-cased stem contains the first eight characters of the id as given. */
  predicate NameMatches(name: string, q: Query) {
    && EndsWith(name, ".md")
    && var stem := RemoveFirst(name, ".md");
       Includes(stem, q.fullUuid) || Includes(ToLower(stem), q.shortUuid)
  }

  predicate PathMatches(q: Query, path: seq<string>) {
    |path| > 0 && NameMatches(path[|path| - 1], q)
  }

  function Matcher(q: Query): seq<string> -> bool {
    path => PathMatches(q, path)
  }

  /** The paths of the files below `entries` (directories excluded), relative to
      the data root, in the order a depth-first walk of the listings meets them;
      `dir` is the path of the directory listed. */
  function Files(entries: seq<DirEntry>, dir: seq<string>): seq<seq<string>>
    decreases entries
  {
    if entries == [] then []
    else
      (match entries[0]
       case File(n) => [dir + [n]]
       case Dir(n, es) => Files(es, dir + [n]))
      + Files(entries[1..], dir)
  }

  /** The first file of the walk that matches. */
  function FirstMatchingFile(entries: seq<DirEntry>, dir: seq<string>, q: Query): Option<seq<string>> {
    var files := Files(entries, dir);
    match FirstIndex(files, Matcher(q))
    case None => None
    case Some(k) => Some(files[k])
  }

  /** `path` names a file (not a directory) below `entries`. */
  predicate FileIn(entries: seq<DirEntry>, path: seq<string>)
    decreases entries
  {
    exists k :: 0 <= k < |entries| &&
      match entries[k]
      case File(n) => path == [n]
      case Dir(n, es) => |path| > 1 && path[0] == n && FileIn(es, path[1..])
  }

  lemma {:induction false} FilesAppend(a: seq<DirEntry>, b: seq<DirEntry>, dir: seq<string>)
    ensures Files(a + b, dir) == Files(a, dir) + Files(b, dir)
  {
    if a == [] {
      assert a + b == b;
    } else {
      assert (a + b)[0] == a[0];
      assert (a + b)[1..] == a[1..] + b;
      FilesAppend(a[1..], b, dir);
    }
  }

  lemma FirstMatchAppend(a: seq<DirEntry>, b: seq<DirEntry>, dir: seq<string>, q: Query)
    ensures FirstMatchingFile(a + b, dir, q) ==
            if FirstMatchingFile(a, dir, q).Some? then FirstMatchingFile(a, dir, q)
            else FirstMatchingFile(b, dir, q)
  {
    FilesAppend(a, b, dir);
    FirstIndexAppend(Files(a, dir), Files(b, dir), Matcher(q));
  }

  /** What a single listing entry contributes to the search. */
  lemma FirstMatchOfEntry(e: DirEntry, dir: seq<string>, q: Query)
    ensures FirstMatchingFile([e], dir, q) ==
            match e
            case Dir(n, es) => FirstMatchingFile(es, dir + [n], q)
            case File(n) => if NameMatches(n, q) then Some(dir + [n]) else None
  {
    match e
    case Dir(n, es) =>
      assert Files([e], dir) == Files(es, dir + [n]) + Files([], dir);
      assert Files([e], dir) == Files(es, dir + [n]);
    case File(n) =>
      assert Files([e], dir) == [dir + [n]] + Files([], dir);
      assert Files([e], dir) == [dir + [n]];
      assert Matcher(q)(dir + [n]) == NameMatches(n, q);
  }

  /** One round of the search loop: with no hit before entry `i`, the search
      up to and including `i` finds what entry `i` alone finds, and a hit in
      entry `i` is the hit of the whole listing. */
  lemma SearchStep(entries: seq<DirEntry>, i: nat, dir: seq<string>, q: Query)
    requires i < |entries|
    requires FirstMatchingFile(entries[..i], dir, q) == None
    ensures FirstMatchingFile(entries[..i + 1], dir, q) == FirstMatchingFile([entries[i]], dir, q)
    ensures FirstMatchingFile([entries[i]], dir, q).Some? ==>
              FirstMatchingFile(entries, dir, q) == FirstMatchingFile([entries[i]], dir, q)
  {
    var e := entries[i];
    assert entries[..i + 1] == entries[..i] + [e];
    assert entries == entries[..i] + ([e] + entries[i + 1..]);
    FirstMatchAppend(entries[..i], [e], dir, q);
    FirstMatchAppend(entries[..i], [e] + entries[i + 1..], dir, q);
    FirstMatchAppend([e], entries[i + 1..], dir, q);
  }

  /** searchDir: the entries are tried in listing order; a directory is searched
      where it stands in the listing and its first hit is returned at once. */
  method SearchDir(entries: seq<DirEntry>, dir: seq<string>, q: Query) returns (found: Option<seq<string>>)
    ensures found == FirstMatchingFile(entries, dir, q)
    decreases entries
  {
    for i := 0 to |entries|
      invariant FirstMatchingFile(entries[..i], dir, q) == None
    {
      var entry := entries[i];
      SearchStep(entries, i, dir, q);
      FirstMatchOfEntry(entry, dir, q);
      match entry
      case Dir(n, es) =>
        var sub := SearchDir(es, dir + [n], q);
        if sub.Some? {
          return sub;
        }
      case File(n) =>
        if EndsWith(n, ".md") {
          var nameWithoutExt := RemoveFirst(n, ".md");
          if Includes(nameWithoutExt, q.fullUuid) || Includes(ToLower(nameWithoutExt), q.shortUuid) {
            return Some(dir + [n]);
          }
        }
    }
    assert entries[..|entries|] == entries;
    found := None;
  }

  /** findFileByUuid: the data-root-relative path (`path.relative`) of the first
      matching `.md` file, or null. */
  method FindFileByUuid(root: seq<DirEntry>, uuid: string) returns (r: Option<string>)
    ensures r == match FirstMatchingFile(root, [], QueryOf(uuid))
                 case None => None
                 case Some(path) => Some(JoinSep(path))
  {
    var shortUuid := Take(uuid, 8);
    var fullUuid := RemoveAll(uuid, '-');
    var found := SearchDir(root, [], Query(fullUuid, shortUuid));
    r := match found case None => None case Some(path) => Some(JoinSep(path));
  }

  /** `f` is `dir` followed by the path of a file below `entries`. */
  predicate WalkedFile(entries: seq<DirEntry>, dir: seq<string>, f: seq<string>) {
    |dir| < |f| && f[..|dir|] == dir && FileIn(entries, f[|dir|..])
  }

  lemma FileInLater(entries: seq<DirEntry>, path: seq<string>)
    requires entries != [] && FileIn(entries[1..], path)
    ensures FileIn(entries, path)
  {
    var w :| 0 <= w < |entries[1..]| &&
      match entries[1..][w]
      case File(n) => path == [n]
      case Dir(n, es) => |path| > 1 && path[0] == n && FileIn(es, path[1..]);
    assert entries[w + 1] == entries[1..][w];
  }

  lemma WalkedFileInDir(entries: seq<DirEntry>, dir: seq<string>, n: string, es: seq<DirEntry>, f: seq<string>)
    requires entries != [] && entries[0] == Dir(n, es)
    requires WalkedFile(es, dir + [n], f)
    ensures WalkedFile(entries, dir, f)
  {
    assert f[..|dir| + 1] == dir + [n];
    assert f[..|dir|] == (dir + [n])[..|dir|];
    assert f[|dir|..][1..] == f[|dir| + 1..];
    assert f[|dir|..][0] == n;
  }

  /** Every path of the walk names a file below the listed directory. */
  lemma {:induction false} FilesSound(entries: seq<DirEntry>, dir: seq<string>)
    ensures forall k :: 0 <= k < |Files(entries, dir)| ==> WalkedFile(entries, dir, Files(entries, dir)[k])
    decreases entries
  {
    if entries != [] {
      var e := entries[0];
      var head := match e case File(n) => [dir + [n]] case Dir(n, es) => Files(es, dir + [n]);
      var tail := Files(entries[1..], dir);
      assert Files(entries, dir) == head + tail;
      match e {
        case File(n) =>
          assert FileIn(entries, [n]);
          assert WalkedFile(entries, dir, dir + [n]) by {
            assert (dir + [n])[|dir|..] == [n];
          }
        case Dir(n, es) =>
          FilesSound(es, dir + [n]);
          forall k | 0 <= k < |head|
            ensures WalkedFile(entries, dir, head[k])
          {
            WalkedFileInDir(entries, dir, n, es, head[k]);
          }
      }
      FilesSound(entries[1..], dir);
      forall k | 0 <= k < |tail|
        ensures WalkedFile(entries, dir, tail[k])
      {
        FileInLater(entries, tail[k][|dir|..]);
      }
    }
  }

  /** The walk of one entry is part of the walk of the listing. */
  lemma FilesOfEntry(entries: seq<DirEntry>, k: nat, dir: seq<string>)
    requires k < |entries|
    ensures forall f :: f in Files([entries[k]], dir) ==> f in Files(entries, dir)
  {
    var e := entries[k];
    assert entries == entries[..k] + ([e] + entries[k + 1..]);
    FilesAppend(entries[..k], [e] + entries[k + 1..], dir);
    FilesAppend([e], entries[k + 1..], dir);
  }

  /** A listed file is met by the walk. */
  lemma FilesHasFile(entries: seq<DirEntry>, k: nat, dir: seq<string>, n: string)
    requires k < |entries| && entries[k] == File(n)
    ensures dir + [n] in Files(entries, dir)
  {
    FilesOfEntry(entries, k, dir);
    assert Files([entries[k]], dir) == [dir + [n]];
  }

  /** What the walk meets below a listed directory, it meets in the listing. */
  lemma FilesHasDirFile(entries: seq<DirEntry>, k: nat, dir: seq<string>, n: string, es: seq<DirEntry>, f: seq<string>)
    requires k < |entries| && entries[k] == Dir(n, es)
    requires f in Files(es, dir + [n])
    ensures f in Files(entries, dir)
  {
    FilesOfEntry(entries, k, dir);
    assert Files([entries[k]], dir) == Files(es, dir + [n]);
  }

  /** Every file below the listed directory is met by the walk. */
  lemma {:induction false} FilesComplete(entries: seq<DirEntry>, dir: seq<string>, path: seq<string>)
    requires FileIn(entries, path)
    ensures dir + path in Files(entries, dir)
    decreases entries
  {
    var k :| 0 <= k < |entries| &&
      match entries[k]
      case File(n) => path == [n]
      case Dir(n, es) => |path| > 1 && path[0] == n && FileIn(es, path[1..]);
    match entries[k]
    case File(n) =>
      FilesHasFile(entries, k, dir, n);
    case Dir(n, es) =>
      FilesComplete(es, dir + [n], path[1..]);
      assert dir + [n] + path[1..] == dir + path;
      FilesHasDirFile(entries, k, dir, n, es, dir + path);
  }

  /** What findFileByUuid promises: a hit names a `.md` file below the data
      root whose stem contains the hyphen-free id or whose lower-cased stem
      contains the id's first eight characters, and no file the walk meets
      earlier matches; there is no hit exactly when no file below the root
      matches. */
  lemma FindFileByUuidCorrect(root: seq<DirEntry>, uuid: string)
    ensures match FirstMatchingFile(root, [], QueryOf(uuid))
            case Some(path) =>
              && FileIn(root, path)
              && (var name := path[|path| - 1];
                  var stem := RemoveFirst(name, ".md");
                  && EndsWith(name, ".md")
                  && (Includes(stem, RemoveAll(uuid, '-')) || Includes(ToLower(stem), Take(uuid, 8))))
              && exists k :: 0 <= k < |Files(root, [])| && Files(root, [])[k] == path &&
                   forall m :: 0 <= m < k ==> !PathMatches(QueryOf(uuid), Files(root, [])[m])
            case None => true
    ensures FirstMatchingFile(root, [], QueryOf(uuid)).None? <==>
            forall path :: FileIn(root, path) ==> !PathMatches(QueryOf(uuid), path)
  {
    var q := QueryOf(uuid);
    var files := Files(root, []);
    FilesSound(root, []);
    assert forall k :: 0 <= k < |files| ==> files[k][0..] == files[k];
    forall path | FileIn(root, path) && PathMatches(q, path)
      ensures FirstMatchingFile(root, [], q).Some?
    {
      FilesComplete(root, [], path);
      assert [] + path == path;
      var k :| 0 <= k < |files| && files[k] == path;
      assert Matcher(q)(files[k]);
    }
  }

  /** For a name `stem.md` whose stem has no other dot, the stem searched is
      exactly `stem`. */
  lemma PlainNameMatches(stem: string, q: Query)
    requires '.' !in stem
    ensures NameMatches(stem + ".md", q) <==> Includes(stem, q.fullUuid) || Includes(ToLower(stem), q.shortUuid)
  {
    RemoveFirstSuffix(stem, ".md");
  }

  /** The stem is lower-cased before the eight-character fragment is looked
      for, the fragment is not: a fragment holding an upper-case letter never
      matches that way. */
  lemma UpperCaseShortFragment(stem: string, uuid: string, k: nat)
    requires k < |uuid| && k < 8 && 'A' <= uuid[k] <= 'Z'
    ensures !Includes(ToLower(stem), Take(uuid, 8))
  {
    var t := Take(uuid, 8);
    assert t[k] == uuid[k];
    IncludesChars(ToLower(stem), t);
    assert uuid[k] !in ToLower(stem);
  }
}
