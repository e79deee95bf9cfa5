/** The parts of Node's POSIX `path` module the core calls: `join` and
    `normalize`, `resolve` (for absolute arguments), `extname` and `dirname`.
    Paths are strings and `/` is the only separator. Normalisation follows
    Node's `normalizeString`: empty and `.` segments are dropped, `..` removes
    the segment before it, and a `..` with nothing left to remove is kept in a
    relative path and dropped in an absolute one. */
module PosixPath {
  import opened Common

  predicate IsAbsolute(p: string) {
    |p| > 0 && p[0] == '/'
  }

  // ---------------------------------------------------------------------------
  // Segments

  /** `p.split('/')`: the segments between separators, empty ones included. */
  function Split(p: string): (r: seq<string>)
    ensures |r| >= 1
    ensures forall k :: 0 <= k < |r| ==> '/' !in r[k]
    decreases |p|
  {
    match IndexOfChar(p, '/', 0)
    case None => [p]
    case Some(k) => [p[..k]] + Split(p[k + 1..])
  }

  /** `segs.join('/')` */
  function JoinSep(segs: seq<string>): string {
    if |segs| == 0 then ""
    else if |segs| == 1 then segs[0]
    else segs[0] + "/" + JoinSep(segs[1..])
  }

  /** One step of the induction below: the text before the first `/`, the
      `/`, then the rest joined back. */
  lemma SplitThenJoinStep(p: string, k: nat)
    requires IndexOfChar(p, '/', 0) == Some(k)
    requires JoinSep(Split(p[k + 1..])) == p[k + 1..]
    ensures JoinSep(Split(p)) == p
  {
    var rest := Split(p[k + 1..]);
    assert Split(p) == [p[..k]] + rest;
    assert ([p[..k]] + rest)[1..] == rest;
    assert JoinSep(Split(p)) == p[..k] + "/" + p[k + 1..];
    assert p == p[..k] + "/" + p[k + 1..];
  }

  lemma {:induction false} SplitThenJoin(p: string)
    ensures JoinSep(Split(p)) == p
    decreases |p|
  {
    match IndexOfChar(p, '/', 0)
    case None =>
    case Some(k) =>
      SplitThenJoin(p[k + 1..]);
      SplitThenJoinStep(p, k);
  }

  /** The first `/` of a joined list is the one after its first segment. */
  lemma JoinFirstSlash(s0: string, rest: string)
    requires '/' !in s0
    ensures IndexOfChar(s0 + "/" + rest, '/', 0) == Some(|s0|)
  {
    var p := s0 + "/" + rest;
    assert p[|s0|] == '/';
    assert forall m :: 0 <= m < |s0| ==> p[m] == s0[m];
  }

  /** One step of the induction below: the first segment, then the rest. */
  lemma JoinThenSplitStep(segs: seq<string>)
    requires |segs| >= 2 && '/' !in segs[0]
    requires Split(JoinSep(segs[1..])) == segs[1..]
    ensures Split(JoinSep(segs)) == segs
  {
    var s0, rest := segs[0], JoinSep(segs[1..]);
    var p := s0 + "/" + rest;
    assert JoinSep(segs) == p;
    JoinFirstSlash(s0, rest);
    assert p[..|s0|] == s0;
    assert p[|s0| + 1..] == rest;
    assert Split(p) == [s0] + segs[1..];
  }

  lemma {:induction false} JoinThenSplit(segs: seq<string>)
    requires |segs| >= 1
    requires forall k :: 0 <= k < |segs| ==> '/' !in segs[k]
    ensures Split(JoinSep(segs)) == segs
  {
    if |segs| == 1 {
      assert forall m :: 0 <= m < |segs[0]| ==> segs[0][m] != '/';
    } else {
      JoinThenSplit(segs[1..]);
      JoinThenSplitStep(segs);
    }
  }

  lemma {:induction false} JoinSepAppend(x: seq<string>, y: seq<string>)
    requires |x| >= 1 && |y| >= 1
    ensures JoinSep(x + y) == JoinSep(x) + "/" + JoinSep(y)
    decreases |x|
  {
    if |x| == 1 {
      assert (x + y)[1..] == y;
    } else {
      JoinSepAppend(x[1..], y);
      assert (x + y)[1..] == x[1..] + y;
    }
  }

  /** Splitting at a separator splits each side. */
  lemma SplitAppend(a: string, b: string)
    ensures Split(a + "/" + b) == Split(a) + Split(b)
  {
    SplitThenJoin(a);
    SplitThenJoin(b);
    JoinSepAppend(Split(a), Split(b));
    JoinThenSplit(Split(a) + Split(b));
  }

  // ---------------------------------------------------------------------------
  // Normalisation

  /** What normalizeString does with one segment, given the segments kept so far. */
  function Step(stack: seq<string>, seg: string, allowAboveRoot: bool): seq<string> {
    if seg == "" || seg == "." then stack
    else if seg == ".." then
      if |stack| > 0 && stack[|stack| - 1] != ".." then stack[..|stack| - 1]
      else if allowAboveRoot then stack + [".."]
      else stack
    else stack + [seg]
  }

  /** normalizeString over a list of raw segments, left to right. */
  function Fold(stack: seq<string>, segs: seq<string>, allowAboveRoot: bool): seq<string>
    decreases |segs|
  {
    if segs == [] then stack
    else Fold(Step(stack, segs[0], allowAboveRoot), segs[1..], allowAboveRoot)
  }

  lemma {:induction false} FoldAppend(stack: seq<string>, a: seq<string>, b: seq<string>, allow: bool)
    ensures Fold(stack, a + b, allow) == Fold(Fold(stack, a, allow), b, allow)
    decreases |a|
  {
    if a == [] {
      assert a + b == b;
    } else {
      assert (a + b)[0] == a[0];
      assert (a + b)[1..] == a[1..] + b;
      FoldAppend(Step(stack, a[0], allow), a[1..], b, allow);
    }
  }

  /** A segment that survives normalisation unchanged. */
  predicate IsName(seg: string) {
    seg != "" && seg != "." && seg != ".." && '/' !in seg
  }

  predicate AllNames(segs: seq<string>) {
    forall k :: 0 <= k < |segs| ==> IsName(segs[k])
  }

  /** Segments that are plain names are simply appended. */
  lemma {:induction false} FoldNames(stack: seq<string>, segs: seq<string>, allow: bool)
    requires AllNames(segs)
    ensures Fold(stack, segs, allow) == stack + segs
    decreases |segs|
  {
    if segs != [] {
      FoldNames(stack + [segs[0]], segs[1..], allow);
      assert stack + [segs[0]] + segs[1..] == stack + segs;
    }
  }

  /** Empty segments (from doubled or trailing separators) change nothing. */
  lemma FoldEmpty(stack: seq<string>, allow: bool)
    ensures Fold(stack, [""], allow) == stack
    ensures Fold(stack, ["", ""], allow) == stack
  {
    assert ["", ""][1..] == [""];
  }

  /** Normalising without leave to climb above the root keeps only plain names. */
  lemma {:induction false} FoldKeepsNames(stack: seq<string>, segs: seq<string>)
    requires AllNames(stack)
    requires forall k :: 0 <= k < |segs| ==> '/' !in segs[k]
    ensures AllNames(Fold(stack, segs, false))
    decreases |segs|
  {
    if segs != [] {
      FoldKeepsNames(Step(stack, segs[0], false), segs[1..]);
    }
  }

  /** The segments of `segs` that are neither empty nor `.`. */
  function Clean(segs: seq<string>): (r: seq<string>)
    ensures |r| <= |segs|
  {
    if segs == [] then []
    else if segs[0] == "" || segs[0] == "." then Clean(segs[1..])
    else [segs[0]] + Clean(segs[1..])
  }

  /** What a segment other than `..` keeps: nothing for an empty or `.` segment,
      itself otherwise. */
  function Kept(seg: string): seq<string> {
    if seg == "" || seg == "." then [] else [seg]
  }

  lemma StepWithoutParent(stack: seq<string>, seg: string, allow: bool)
    requires seg != ".."
    ensures Step(stack, seg, allow) == stack + Kept(seg)
  {
    if seg == "" || seg == "." {
      assert stack + [] == stack;
    }
  }

  lemma CleanCons(segs: seq<string>)
    requires segs != []
    ensures Clean(segs) == Kept(segs[0]) + Clean(segs[1..])
  {
    if segs[0] == "" || segs[0] == "." {
      assert [] + Clean(segs[1..]) == Clean(segs[1..]);
    }
  }

  /** One step of the induction below: the first segment is kept or dropped. */
  lemma FoldWithoutParentStep(stack: seq<string>, segs: seq<string>, allow: bool)
    requires segs != [] && segs[0] != ".."
    requires Fold(stack + Kept(segs[0]), segs[1..], allow) == stack + Kept(segs[0]) + Clean(segs[1..])
    ensures Fold(stack, segs, allow) == stack + Clean(segs)
  {
    StepWithoutParent(stack, segs[0], allow);
    CleanCons(segs);
    assert stack + Kept(segs[0]) + Clean(segs[1..]) == stack + (Kept(segs[0]) + Clean(segs[1..]));
  }

  /** Without `..` segments normalisation only drops empty and `.` segments. */
  lemma {:induction false} FoldWithoutParent(stack: seq<string>, segs: seq<string>, allow: bool)
    requires ".." !in segs
    ensures Fold(stack, segs, allow) == stack + Clean(segs)
    decreases |segs|
  {
    if segs != [] {
      assert segs == [segs[0]] + segs[1..];
      FoldWithoutParent(stack + Kept(segs[0]), segs[1..], allow);
      FoldWithoutParentStep(stack, segs, allow);
    }
  }

  /** `path.normalize(p)` */
  function Normalize(p: string): (r: string)
    ensures IsAbsolute(p) ==> IsAbsolute(r)
  {
    if p == "" then "."
    else
      var absolute := p[0] == '/';
      var trailing := p[|p| - 1] == '/';
      var body := JoinSep(Fold([], Split(p), !absolute));
      if body == "" then (if absolute then "/" else if trailing then "./" else ".")
      else (if absolute then "/" else "") + body + (if trailing then "/" else "")
  }

  /** An absolute path without a trailing `/` whose segments fold to something
      non-empty normalises to `/` and the folded segments. */
  lemma NormalizeAbsolute(p: string)
    requires p != "" && p[0] == '/' && p[|p| - 1] != '/'
    requires JoinSep(Fold([], Split(p), false)) != ""
    ensures Normalize(p) == "/" + JoinSep(Fold([], Split(p), false))
  {
  }

  /** `path.join(a, b)` */
  function Join(a: string, b: string): (r: string)
    ensures IsAbsolute(a) ==> IsAbsolute(r)
  {
    if a == "" && b == "" then "."
    else if a == "" then Normalize(b)
    else if b == "" then Normalize(a)
    else Normalize(a + "/" + b)
  }

  /** The segments `path.resolve(p)` keeps for an absolute `p`. */
  function ResolvedSegments(p: string): seq<string>
    requires IsAbsolute(p)
  {
    Fold([], Split(p + "/"), false)
  }

  /** `path.resolve(p)` for an absolute `p`: never relative, never ends in `/`
      unless it is the root. */
  function Resolve(p: string): (r: string)
    requires IsAbsolute(p)
    ensures IsAbsolute(r)
  {
    "/" + JoinSep(ResolvedSegments(p))
  }

  lemma JoinSepOfNames(segs: seq<string>)
    requires AllNames(segs)
    ensures JoinSep(segs) == "" <==> segs == []
  {
    if segs != [] {
      assert |segs[0]| > 0;
      if |segs| > 1 {
        assert JoinSep(segs) == segs[0] + "/" + JoinSep(segs[1..]);
      }
    }
  }

  /** A resolved path consists of plain names only. */
  lemma ResolvedAreNames(p: string)
    requires IsAbsolute(p)
    ensures AllNames(ResolvedSegments(p))
    ensures ResolvedSegments(p) == Fold([], Split(p), false)
  {
    assert p + "/" == p + "/" + "";
    SplitAppend(p, "");
    FoldAppend([], Split(p), [""], false);
    FoldEmpty(Fold([], Split(p), false), false);
    FoldKeepsNames([], Split(p + "/"));
  }

  /** Resolving the root. */
  lemma ResolveRoot()
    ensures ResolvedSegments("/") == []
  {
    assert "/" + "/" == "" + "/" + ("" + "/" + "");
    SplitAppend("", "");
    SplitAppend("", "" + "/" + "");
    assert Split("/" + "/") == [""] + ["", ""];
    FoldAppend([], [""], ["", ""], false);
    FoldEmpty([], false);
  }

  /** A trailing separator adds an empty last segment. */
  lemma SplitTrailing(p: string)
    ensures Split(p + "/") == Split(p) + [""]
  {
    assert p + "/" == p + "/" + "";
    SplitAppend(p, "");
    assert Split("") == [""];
  }

  /** The segments of `/` + names + `/`. */
  lemma SplitOfNames(n: seq<string>)
    requires n != [] && AllNames(n)
    ensures Split("/" + JoinSep(n) + "/") == [""] + n + [""]
  {
    var body := JoinSep(n);
    JoinThenSplit(n);
    assert "/" + body == "" + "/" + body;
    SplitAppend("", body);
    assert Split("") == [""];
    SplitTrailing("/" + body);
  }

  /** The segments of `/` + names + `//`. */
  lemma SplitOfNamesSlash(n: seq<string>)
    requires n != [] && AllNames(n)
    ensures Split("/" + JoinSep(n) + "/" + "/") == [""] + n + ["", ""]
  {
    SplitOfNames(n);
    SplitTrailing("/" + JoinSep(n) + "/");
  }

  /** Resolving `/` + names, with or without one trailing separator. */
  lemma ResolveNames(n: seq<string>, trailing: bool)
    requires n != [] && AllNames(n)
    ensures ResolvedSegments("/" + JoinSep(n) + (if trailing then "/" else "")) == n
  {
    var r := "/" + JoinSep(n) + (if trailing then "/" else "");
    var tail: seq<string> := if trailing then ["", ""] else [""];
    if trailing {
      SplitOfNamesSlash(n);
      assert r + "/" == "/" + JoinSep(n) + "/" + "/";
    } else {
      SplitOfNames(n);
      assert r + "/" == "/" + JoinSep(n) + "/";
    }
    assert Split(r + "/") == [""] + (n + tail);
    FoldAppend([], [""], n + tail, false);
    FoldAppend([], n, tail, false);
    FoldNames([], n, false);
    FoldEmpty([], false);
    FoldEmpty(n, false);
  }

  /** Resolving a normalised absolute path keeps exactly the names normalisation kept. */
  lemma ResolveNormalized(q: string)
    requires IsAbsolute(q)
    ensures AllNames(Fold([], Split(q), false))
    ensures ResolvedSegments(Normalize(q)) == Fold([], Split(q), false)
  {
    var n := Fold([], Split(q), false);
    FoldKeepsNames([], Split(q));
    JoinSepOfNames(n);
    if n == [] {
      assert Normalize(q) == "/";
      ResolveRoot();
    } else {
      var trailing := q[|q| - 1] == '/';
      assert Normalize(q) == "/" + JoinSep(n) + (if trailing then "/" else "");
      ResolveNames(n, trailing);
    }
  }

  /** `resolve(join(d, x))` for an absolute `d`: the segments of `x` are applied
      on top of the resolved segments of `d`. */
  lemma ResolveJoin(d: string, x: string)
    requires IsAbsolute(d) && x != ""
    ensures ResolvedSegments(Join(d, x)) == Fold(ResolvedSegments(d), Split(x), false)
  {
    var q := d + "/" + x;
    assert Join(d, x) == Normalize(q);
    assert IsAbsolute(q);
    ResolveNormalized(q);
    SplitAppend(d, x);
    FoldAppend([], Split(d), Split(x), false);
    ResolvedAreNames(d);
  }

  // ---------------------------------------------------------------------------
  // Last component, extension, parent directory

  /** The start of the run of `/` characters that ends at `j`. */
  function SkipSlashesBack(p: string, j: nat): (k: nat)
    requires j <= |p|
    ensures k <= j
    ensures forall m :: k <= m < j ==> p[m] == '/'
    ensures 0 < k ==> p[k - 1] != '/'
  {
    if 0 < j && p[j - 1] == '/' then SkipSlashesBack(p, j - 1) else j
  }

  /** The last component of `p`, ignoring trailing separators (what `extname` inspects). */
  function LastComponent(p: string): (r: string)
    ensures '/' !in r
  {
    var e := SkipSlashesBack(p, |p|);
    var start := match LastIndexOfChar(p, '/', e) case None => 0 case Some(k) => k + 1;
    p[start..e]
  }

  /** `path.extname` of one component: from its last `.` on, unless that dot is
      its first character or the component is `..`. */
  function ComponentExtension(b: string): (r: string)
    ensures r == "" || (r[0] == '.' && EndsWith(b, r) && '.' !in r[1..])
    ensures r != "" <==> b != ".." && exists d :: 0 < d < |b| && b[d] == '.'
  {
    match LastIndexOfChar(b, '.', |b|)
    case None => ""
    case Some(d) =>
      if d == 0 || b == ".." then ""
      else
        assert b[d..][1..] == b[d + 1..];
        b[d..]
  }

  /** `path.extname(p)` */
  function ExtName(p: string): string {
    ComponentExtension(LastComponent(p))
  }

  /** `path.dirname(p)`, with Node's quirks: trailing separators of the
      result are kept (`a//b` gives `a/`) and `//x` gives `//`. */
  function Dirname(p: string): (r: string)
    ensures p == "" ==> r == "."
    ensures r == "." || r == "/" || r == "//" || (0 < |r| < |p| && r == p[..|r|] && p[|r|] == '/')
  {
    if p == "" then "."
    else
      var hasRoot := p[0] == '/';
      var e := SkipSlashesBack(p, |p|);
      var end :=
        if e <= 1 then None
        else match LastIndexOfChar(p, '/', e - 1)
          case None => None
          case Some(k) => if k == 0 then None else Some(k);
      match end
      case None => if hasRoot then "/" else "."
      case Some(k) => if hasRoot && k == 1 then "//" else p[..k]
  }

  /** The directory of a name joined under a directory is that directory. */
  lemma DirnameOfChild(d: string, name: string)
    requires |d| >= 1 && d[|d| - 1] != '/'
    requires |name| >= 1 && '/' !in name
    ensures Dirname(d + "/" + name) == d
  {
    var p := d + "/" + name;
    assert p[|p| - 1] == name[|name| - 1] != '/';
    assert SkipSlashesBack(p, |p|) == |p|;
    assert p[|d|] == '/';
    assert forall m :: |d| < m < |p| ==> p[m] == name[m - |d| - 1] && p[m] != '/';
    assert LastIndexOfChar(p, '/', |p| - 1) == Some(|d|);
    assert p[..|d|] == d;
  }

  /** A name directly under the root has the root as its directory. */
  lemma DirnameOfRootName(name: string)
    requires |name| >= 1 && '/' !in name
    ensures Dirname("/" + name) == "/"
  {
    var p := "/" + name;
    assert p[|p| - 1] == name[|name| - 1] != '/';
    assert SkipSlashesBack(p, |p|) == |p|;
    assert p[0] == '/';
    assert forall m :: 0 < m < |p| ==> p[m] == name[m - 1] && p[m] != '/';
    assert LastIndexOfChar(p, '/', |p| - 1) == Some(0);
  }
}
