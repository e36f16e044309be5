/** POSIX path handling as Node's `path.posix` does it, on `/`-separated strings:
    `basename`, `dirname`, `normalize`, `join` and `resolve`, plus the lemmas the
    cache model needs about paths built from plain segments. */
module Paths {

  /** The path separator; Windows separators are not modelled. */
  const SEP: char := '/'

  /** The pieces of `s` between separators, empty pieces included: `Split("/a/") == ["", "a", ""]`. */
  function Split(s: string): (r: seq<string>)
    ensures |r| >= 1
    decreases |s|
  {
    if |s| == 0 then [""]
    else
      var rest := Split(s[1..]);
      if s[0] == SEP then [""] + rest else [[s[0]] + rest[0]] + rest[1..]
  }

  /** The pieces separated by single separators, as JavaScript's `parts.join("/")`. */
  function Glue(parts: seq<string>): string
    decreases |parts|
  {
    if |parts| == 0 then ""
    else if |parts| == 1 then parts[0]
    else parts[0] + [SEP] + Glue(parts[1..])
  }

  /** A segment that every path operation keeps as it is. */
  predicate Plain(seg: string)
  {
    seg != "" && seg != "." && seg != ".." && SEP !in seg
  }

  predicate AllPlain(segs: seq<string>)
  {
    forall i :: 0 <= i < |segs| ==> Plain(segs[i])
  }

  /** The absolute path naming `segs` below the root; `AbsPath([]) == "/"`. */
  function AbsPath(segs: seq<string>): string
  {
    [SEP] + Glue(segs)
  }

  /** One segment of Node's `normalizeString`: empty and `.` segments vanish, `..` drops the
      segment before it, or is kept (only when the path may climb above its start) when there
      is none to drop. */
  function NormStep(acc: seq<string>, seg: string, aboveRoot: bool): seq<string>
  {
    if seg == "" || seg == "." then acc
    else if seg == ".." then
      if |acc| > 0 && acc[|acc| - 1] != ".." then acc[..|acc| - 1]
      else if aboveRoot then acc + [".."]
      else acc
    else acc + [seg]
  }

  /** Node's `normalizeString` on the segments of a path, left to right, starting from `acc`. */
  function NormFrom(acc: seq<string>, segs: seq<string>, aboveRoot: bool): seq<string>
    decreases |segs|
  {
    if |segs| == 0 then acc else NormFrom(NormStep(acc, segs[0], aboveRoot), segs[1..], aboveRoot)
  }

  /** `path.posix.normalize`. */
  function Normalize(p: string): (r: string)
    ensures r != ""
    ensures p != "" && p[0] == SEP ==> r[0] == SEP
  {
    if |p| == 0 then "."
    else
      var isAbsolute := p[0] == SEP;
      var trailing := p[|p| - 1] == SEP;
      var body := Glue(NormFrom([], Split(p), !isAbsolute));
      if body == "" then
        if isAbsolute then "/" else if trailing then "./" else "."
      else
        var withTrailing := if trailing then body + [SEP] else body;
        if isAbsolute then [SEP] + withTrailing else withTrailing
  }

  /** The non-empty strings of `parts`, in order. */
  function NonEmpty(parts: seq<string>): seq<string>
    decreases |parts|
  {
    if |parts| == 0 then []
    else if parts[0] == "" then NonEmpty(parts[1..])
    else [parts[0]] + NonEmpty(parts[1..])
  }

  /** `path.posix.join(...parts)`: the non-empty parts glued by separators, then normalised. */
  function PathJoin(parts: seq<string>): (r: string)
    ensures r != ""
  {
    var given := NonEmpty(parts);
    if |given| == 0 then "." else Normalize(Glue(given))
  }

  /** The right-to-left scan of `path.posix.resolve`: prefixes each non-empty argument to
      `acc` and stops at the first absolute one; the flag says whether one was found. */
  function Gather(args: seq<string>, acc: string): (string, bool)
    decreases |args|
  {
    if |args| == 0 then (acc, false)
    else
      var p := args[|args| - 1];
      if p == "" then Gather(args[..|args| - 1], acc)
      else if p[0] == SEP then (p + [SEP] + acc, true)
      else Gather(args[..|args| - 1], p + [SEP] + acc)
  }

  /** `path.posix.resolve(...args)`, with the process's working directory `cwd` as the
      argument tried last. */
  function Resolve(cwd: string, args: seq<string>): (r: string)
    ensures r != ""
  {
    var gathered := Gather([cwd] + args, "");
    var body := Glue(NormFrom([], Split(gathered.0), !gathered.1));
    if gathered.1 then [SEP] + body
    else if body == "" then "."
    else body
  }

  /** The end of `p[..k]` once its trailing separators are dropped, never below `lo`. */
  function TrimSlashes(p: string, lo: nat, k: nat): (e: nat)
    requires lo <= k <= |p|
    ensures lo <= e <= k
    ensures forall j :: e <= j < k ==> p[j] == SEP
    ensures e == lo || p[e - 1] != SEP
    decreases k
  {
    if k > lo && p[k - 1] == SEP then TrimSlashes(p, lo, k - 1) else k
  }

  /** The largest index in `[lo, k)` holding a separator, or -1 when there is none. */
  function LastSlash(p: string, lo: nat, k: nat): (i: int)
    requires k <= |p|
    ensures i == -1 || (lo <= i < k && p[i] == SEP)
    ensures i == -1 ==> forall j :: lo <= j < k ==> p[j] != SEP
    ensures i >= 0 ==> forall j :: i < j < k ==> p[j] != SEP
    decreases k
  {
    if k <= lo then -1
    else if p[k - 1] == SEP then k - 1
    else LastSlash(p, lo, k - 1)
  }

  /** `path.posix.basename(p)`: the last segment, trailing separators ignored. */
  function Basename(p: string): (r: string)
    ensures SEP !in r
    ensures |r| <= |p|
  {
    var e := TrimSlashes(p, 0, |p|);
    if e == 0 then "" else p[LastSlash(p, 0, e) + 1..e]
  }

  /** `path.posix.dirname(p)`: everything before the last segment, trailing separators ignored;
      `"/"` for a segment right below the root, `"."` for a relative path with no separator,
      and Node's `"//"` when the only separator left is the second character of an absolute path. */
  function Dirname(p: string): (r: string)
    ensures r == "." || r <= p
    ensures p != "" && p[0] == SEP ==> r != "" && r[0] == SEP
  {
    if |p| == 0 then "."
    else
      var hasRoot := p[0] == SEP;
      var e := LastSlash(p, 1, TrimSlashes(p, 1, |p|));
      if e == -1 then (if hasRoot then "/" else ".")
      else if hasRoot && e == 1 then "//"
      else p[..e]
  }

  // ---------------------------------------------------------------------------
  // Splitting and gluing

  lemma {:induction false} SplitSegment(s: string)
    requires SEP !in s
    ensures Split(s) == [s]
    decreases |s|
  {
    if |s| > 0 {
      SplitSegment(s[1..]);
      assert [s[0]] + s[1..] == s;
    }
  }

  lemma {:induction false} SplitConcat(a: string, b: string)
    ensures Split(a + [SEP] + b) == Split(a) + Split(b)
    decreases |a|
  {
    if |a| == 0 {
      assert (a + [SEP] + b)[1..] == b;
    } else {
      assert (a + [SEP] + b)[1..] == a[1..] + [SEP] + b;
      SplitConcat(a[1..], b);
    }
  }

  lemma {:induction false} SplitGlue(segs: seq<string>)
    requires |segs| >= 1
    requires forall i :: 0 <= i < |segs| ==> SEP !in segs[i]
    ensures Split(Glue(segs)) == segs
    decreases |segs|
  {
    SplitSegment(segs[0]);
    if |segs| > 1 {
      SplitConcat(segs[0], Glue(segs[1..]));
      SplitGlue(segs[1..]);
    }
  }

  lemma {:induction false} GlueConcat(xs: seq<string>, ys: seq<string>)
    requires |xs| >= 1 && |ys| >= 1
    ensures Glue(xs + ys) == Glue(xs) + [SEP] + Glue(ys)
    decreases |xs|
  {
    if |xs| == 1 {
      assert (xs + ys)[1..] == ys;
    } else {
      assert (xs + ys)[1..] == xs[1..] + ys;
      GlueConcat(xs[1..], ys);
    }
  }

  /** A plain last segment splits off a path built from plain segments. */
  lemma AbsPathSnoc(segs: seq<string>, last: string)
    ensures AbsPath(segs + [last]) == (if |segs| == 0 then "" else AbsPath(segs)) + [SEP] + last
  {
    if |segs| == 0 {
      assert segs + [last] == [last];
    } else {
      GlueConcat(segs, [last]);
    }
  }

  lemma GlueStartsWithFirst(segs: seq<string>)
    requires |segs| >= 1
    ensures segs[0] <= Glue(segs)
  {
  }

  lemma GlueEndsWithLast(segs: seq<string>)
    requires |segs| >= 1
    ensures |segs[|segs| - 1]| <= |Glue(segs)|
    ensures Glue(segs)[|Glue(segs)| - |segs[|segs| - 1]|..] == segs[|segs| - 1]
  {
    if |segs| > 1 {
      var init := segs[..|segs| - 1];
      assert segs == init + [segs[|segs| - 1]];
      GlueConcat(init, [segs[|segs| - 1]]);
    }
  }

  // ---------------------------------------------------------------------------
  // Normalisation

  lemma {:induction false} NormFromConcat(acc: seq<string>, a: seq<string>, b: seq<string>, aboveRoot: bool)
    ensures NormFrom(acc, a + b, aboveRoot) == NormFrom(NormFrom(acc, a, aboveRoot), b, aboveRoot)
    decreases |a|
  {
    if |a| == 0 {
      assert a + b == b;
    } else {
      assert (a + b)[0] == a[0];
      assert (a + b)[1..] == a[1..] + b;
      NormFromConcat(NormStep(acc, a[0], aboveRoot), a[1..], b, aboveRoot);
    }
  }

  /** Plain segments are appended as they are. */
  lemma {:induction false} NormFromPlain(acc: seq<string>, segs: seq<string>, aboveRoot: bool)
    requires AllPlain(segs)
    ensures NormFrom(acc, segs, aboveRoot) == acc + segs
    decreases |segs|
  {
    if |segs| > 0 {
      assert segs == [segs[0]] + segs[1..];
      NormFromPlain(acc + [segs[0]], segs[1..], aboveRoot);
    }
  }

  lemma SplitAbsPath(segs: seq<string>)
    requires AllPlain(segs)
    ensures Split(AbsPath(segs)) == [""] + (if |segs| == 0 then [""] else segs)
  {
    var p := AbsPath(segs);
    assert p[1..] == Glue(segs);
    if |segs| > 0 {
      SplitGlue(segs);
    }
  }

  /** Normalising the segments of an absolute path built from plain segments yields those segments. */
  lemma NormFromAbsPath(acc: seq<string>, segs: seq<string>, aboveRoot: bool)
    requires AllPlain(segs)
    ensures NormFrom(acc, Split(AbsPath(segs)), aboveRoot) == acc + segs
  {
    SplitAbsPath(segs);
    if |segs| == 0 {
      assert [""] + [""] == ["", ""] && ["", ""][1..] == [""] && [""][1..] == [];
      assert NormFrom(acc, [""], aboveRoot) == acc;
    } else {
      NormFromConcat(acc, [""], segs, aboveRoot);
      NormFromPlain(acc, segs, aboveRoot);
    }
  }

  /** An absolute path built from plain segments is already normal. */
  lemma NormalizeAbsPath(segs: seq<string>)
    requires AllPlain(segs)
    ensures Normalize(AbsPath(segs)) == AbsPath(segs)
  {
    var p := AbsPath(segs);
    NormFromAbsPath([], segs, false);
    if |segs| == 0 {
      assert p == "/";
      assert Glue(NormFrom([], Split(p), false)) == "";
    } else {
      GlueEndsWithLast(segs);
      var last := segs[|segs| - 1];
      assert Plain(last);
      assert p[|p| - 1] == last[|last| - 1];
      GlueStartsWithFirst(segs);
      assert Glue(segs) != "";
      assert [] + segs == segs;
      assert Glue(NormFrom([], Split(p), false)) == Glue(segs);
    }
  }

  lemma {:induction false} NonEmptyKeeps(parts: seq<string>)
    requires forall i :: 0 <= i < |parts| ==> parts[i] != ""
    ensures NonEmpty(parts) == parts
    decreases |parts|
  {
    if |parts| > 0 {
      NonEmptyKeeps(parts[1..]);
    }
  }

  /** Joining plain segments onto a directory built from plain segments appends them. */
  lemma JoinUnder(dir: seq<string>, segs: seq<string>)
    requires |dir| >= 1 && AllPlain(dir)
    requires |segs| >= 1 && AllPlain(segs)
    ensures PathJoin([AbsPath(dir)] + segs) == AbsPath(dir + segs)
  {
    var parts := [AbsPath(dir)] + segs;
    NonEmptyKeeps(parts);
    assert parts[1..] == segs;
    GlueConcat(dir, segs);
    assert Glue(parts) == AbsPath(dir + segs);
    assert AllPlain(dir + segs);
    NormalizeAbsPath(dir + segs);
  }

  // ---------------------------------------------------------------------------
  // basename and dirname

  /** The last separator of `a + "/" + last` is the one before `last`. */
  lemma LastSlashBeforeLast(a: string, last: string, lo: nat)
    requires SEP !in last
    requires lo <= |a|
    ensures LastSlash(a + [SEP] + last, lo, |a + [SEP] + last|) == |a|
  {
    var p := a + [SEP] + last;
    var i := LastSlash(p, lo, |p|);
    assert p[|a|] == SEP;
    assert forall j :: |a| < j < |p| ==> p[j] == last[j - |a| - 1];
  }

  lemma TrimNothing(p: string, lo: nat)
    requires lo <= |p| && |p| > 0 && p[|p| - 1] != SEP
    ensures TrimSlashes(p, lo, |p|) == |p|
  {
  }

  lemma BasenameChild(a: string, last: string)
    requires last != "" && SEP !in last
    ensures Basename(a + [SEP] + last) == last
  {
    var p := a + [SEP] + last;
    assert p[|p| - 1] == last[|last| - 1];
    TrimNothing(p, 0);
    LastSlashBeforeLast(a, last, 0);
    assert p[|a| + 1..] == last;
  }

  lemma DirnameChild(a: string, last: string)
    requires last != "" && SEP !in last
    requires |a| >= 1 && a != "/"
    ensures Dirname(a + [SEP] + last) == a
  {
    var p := a + [SEP] + last;
    assert p[|p| - 1] == last[|last| - 1];
    TrimNothing(p, 1);
    LastSlashBeforeLast(a, last, 1);
    assert p[..|a|] == a;
  }

  lemma BasenameAbsPath(dir: seq<string>, last: string)
    requires Plain(last)
    ensures Basename(AbsPath(dir + [last])) == last
  {
    AbsPathSnoc(dir, last);
    BasenameChild(if |dir| == 0 then "" else AbsPath(dir), last);
  }

  lemma DirnameAbsPath(dir: seq<string>, last: string)
    requires AllPlain(dir) && Plain(last)
    ensures Dirname(AbsPath(dir + [last])) == AbsPath(dir)
  {
    AbsPathSnoc(dir, last);
    var p := AbsPath(dir + [last]);
    if |dir| == 0 {
      assert p == [SEP] + last;
      assert p[|p| - 1] == last[|last| - 1];
      TrimNothing(p, 1);
      assert forall j :: 1 <= j < |p| ==> p[j] == last[j - 1];
    } else {
      GlueStartsWithFirst(dir);
      assert Plain(dir[0]);
      DirnameChild(AbsPath(dir), last);
    }
  }

  // ---------------------------------------------------------------------------
  // resolve

  lemma {:induction false} GatherStopsAtAbsolute(args: seq<string>, acc: string)
    requires |args| >= 1 && args[0] != "" && args[0][0] == SEP
    ensures Gather(args, acc).1
    decreases |args|
  {
    var p := args[|args| - 1];
    if |args| > 1 && !(p != "" && p[0] == SEP) {
      var next := if p == "" then acc else p + [SEP] + acc;
      GatherStopsAtAbsolute(args[..|args| - 1], next);
    }
  }

  /** With an absolute working directory, `resolve` always yields an absolute path. */
  lemma ResolveIsAbsolute(cwd: string, args: seq<string>)
    requires cwd != "" && cwd[0] == SEP
    ensures var r := Resolve(cwd, args); r != "" && r[0] == SEP
  {
    GatherStopsAtAbsolute([cwd] + args, "");
  }

  /** No piece of a split contains a separator. */
  lemma {:induction false} SplitNoSep(s: string)
    ensures forall i :: 0 <= i < |Split(s)| ==> SEP !in Split(s)[i]
    decreases |s|
  {
    if |s| > 0 {
      SplitNoSep(s[1..]);
      var rest := Split(s[1..]);
      if s[0] != SEP {
        assert SEP !in [s[0]] + rest[0];
        assert Split(s) == [[s[0]] + rest[0]] + rest[1..];
      }
    }
  }

  /** Normalising below the root keeps only plain segments: `.` and empty segments vanish and
      `..` either removes a plain segment or is dropped. */
  lemma {:induction false} NormFromStaysPlain(acc: seq<string>, segs: seq<string>)
    requires AllPlain(acc)
    requires forall i :: 0 <= i < |segs| ==> SEP !in segs[i]
    ensures AllPlain(NormFrom(acc, segs, false))
    decreases |segs|
  {
    if |segs| > 0 {
      var next := NormStep(acc, segs[0], false);
      assert AllPlain(next);
      NormFromStaysPlain(next, segs[1..]);
    }
  }

  /** With an absolute working directory, `resolve` gives an absolute path whose segments are
      all plain: every `.`, `..` and empty segment is collapsed. */
  lemma ResolveCollapsed(cwd: string, args: seq<string>)
    requires cwd != "" && cwd[0] == SEP
    ensures exists segs :: AllPlain(segs) && Resolve(cwd, args) == AbsPath(segs)
  {
    GatherStopsAtAbsolute([cwd] + args, "");
    var gathered := Gather([cwd] + args, "");
    SplitNoSep(gathered.0);
    NormFromStaysPlain([], Split(gathered.0));
    var segs := NormFrom([], Split(gathered.0), false);
    assert Resolve(cwd, args) == AbsPath(segs);
  }

  /** The scan of `resolve(dir, spec)` for an absolute `dir` and a relative `spec`. */
  lemma GatherDirSpec(cwd: string, d: string, spec: string)
    requires d != "" && d[0] == SEP
    requires spec != "" && spec[0] != SEP
    ensures Gather([cwd] + [d, spec], "") == (d + [SEP] + (spec + [SEP] + ""), true)
  {
    var args := [cwd] + [d, spec];
    assert args[..2] == [cwd, d];
    assert args[..2][1] == d;
  }

  lemma SplitDirSpec(d: string, spec: string)
    ensures Split(d + [SEP] + (spec + [SEP] + "")) == Split(d) + Split(spec) + [""]
  {
    SplitConcat(d, spec + [SEP] + "");
    SplitConcat(spec, "");
  }

  /** `resolve(d, spec)` for an absolute `d` normalises the segments of `d` followed by those of `spec`. */
  lemma ResolveDirSpec(cwd: string, d: string, spec: string)
    requires d != "" && d[0] == SEP
    requires spec != "" && spec[0] != SEP
    ensures Resolve(cwd, [d, spec]) == [SEP] + Glue(NormFrom(NormFrom([], Split(d), false), Split(spec), false))
  {
    GatherDirSpec(cwd, d, spec);
    SplitDirSpec(d, spec);
    var sd, ss := Split(d), Split(spec);
    NormFromConcat([], sd + ss, [""], false);
    NormFromConcat([], sd, ss, false);
  }

  /** `resolve(d, spec)` where `spec`'s segments are `.` and plain `rel`: the segments of
      `rel` are appended to those of the absolute directory `d`. */
  lemma ResolveDot(cwd: string, d: string, dir: seq<string>, spec: string, rel: seq<string>)
    requires d != "" && d[0] == SEP && NormFrom([], Split(d), false) == dir
    requires spec != "" && spec[0] != SEP && Split(spec) == ["."] + rel && AllPlain(rel)
    ensures Resolve(cwd, [d, spec]) == AbsPath(dir + rel)
  {
    ResolveDirSpec(cwd, d, spec);
    NormFromConcat(dir, ["."], rel, false);
    assert NormFrom(dir, ["."], false) == NormFrom(dir, [], false);
    NormFromPlain(dir, rel, false);
  }

  /** `resolve(d, spec)` where `spec`'s segments are `..` and plain `rel`: the last segment of
      the absolute directory `d` is replaced by the segments of `rel`. */
  lemma ResolveDotDot(cwd: string, d: string, dir: seq<string>, up: string, spec: string, rel: seq<string>)
    requires d != "" && d[0] == SEP && NormFrom([], Split(d), false) == dir + [up] && Plain(up)
    requires spec != "" && spec[0] != SEP && Split(spec) == [".."] + rel && AllPlain(rel)
    ensures Resolve(cwd, [d, spec]) == AbsPath(dir + rel)
  {
    ResolveDirSpec(cwd, d, spec);
    var acc := dir + [up];
    NormFromConcat(acc, [".."], rel, false);
    assert acc[..|acc| - 1] == dir;
    assert NormFrom(acc, [".."], false) == NormFrom(dir, [], false);
    NormFromPlain(dir, rel, false);
  }
}
