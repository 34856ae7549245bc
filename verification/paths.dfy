/**
 * POSIX path strings as Node's `path` module treats them, with `/` as the only
 * separator: `split`, `join`, `normalize`, `resolve`, `relative`, `basename`
 * and `extname`, together with the facts about them the output manager relies on.
 *
 * `resolve` has no access to a working directory here: a relative path is
 * resolved as if the working directory were `/`.
 */
module Paths {

  const Sep: char := '/'

  /** JavaScript's `s.startsWith(prefix)`: a character prefix, not a component test. */
  predicate StartsWith(s: string, prefix: string) {
    prefix <= s
  }

  /** JavaScript's `s.endsWith(suffix)`. */
  predicate EndsWith(s: string, suffix: string) {
    |suffix| <= |s| && s[|s| - |suffix|..] == suffix
  }

  /** A segment that names a directory entry: not empty, not `.` or `..`, no separator. */
  predicate IsPlain(seg: string) {
    seg != "" && seg != "." && seg != ".." && Sep !in seg
  }

  // ---------------------------------------------------------------------------
  // Splitting and joining on the separator
  // ---------------------------------------------------------------------------

  /** `p.split('/')`: the pieces between separators, empty pieces included. */
  function Split(p: string): (r: seq<string>)
    ensures |r| >= 1
    ensures forall i :: 0 <= i < |r| ==> Sep !in r[i]
    decreases |p|
  {
    if p == "" then [""]
    else
      var rest := Split(p[1..]);
      if p[0] == Sep then [""] + rest
      else [[p[0]] + rest[0]] + rest[1..]
  }

  /** `segments.join('/')`. */
  function JoinSegs(s: seq<string>): string
    decreases |s|
  {
    if s == [] then ""
    else if |s| == 1 then s[0]
    else s[0] + [Sep] + JoinSegs(s[1..])
  }

  lemma {:induction false} SplitNoSep(p: string)
    requires Sep !in p
    ensures Split(p) == [p]
    decreases |p|
  {
    if p != "" {
      SplitNoSep(p[1..]);
      assert [p[0]] + p[1..] == p;
    }
  }

  /** One step of `Split` at a leading separator. */
  lemma SplitSepHead(x: string)
    requires x != "" && x[0] == Sep
    ensures Split(x) == [""] + Split(x[1..])
  {
  }

  /** One step of `Split` at a leading ordinary character. */
  lemma SplitCharHead(x: string)
    requires x != "" && x[0] != Sep
    ensures Split(x) == [[x[0]] + Split(x[1..])[0]] + Split(x[1..])[1..]
  {
  }

  /** Regrouping after a leading empty piece. */
  lemma GlueEmpty(ra: seq<string>, rb: seq<string>)
    ensures [""] + (ra + rb) == ([""] + ra) + rb
  {
  }

  /** Regrouping after a first piece that was extended by one character. */
  lemma GlueFirst(c: char, ra: seq<string>, rb: seq<string>)
    requires |ra| >= 1
    ensures [[c] + (ra + rb)[0]] + (ra + rb)[1..] == ([[c] + ra[0]] + ra[1..]) + rb
  {
    assert (ra + rb)[0] == ra[0] && (ra + rb)[1..] == ra[1..] + rb;
  }

  /** One step of `SplitConcat` when the left side starts with a separator. */
  lemma SplitConcatSepStep(ab: string, t: string, a: string, ra: seq<string>, rb: seq<string>)
    requires ab != "" && ab[0] == Sep && ab[1..] == t && Split(t) == ra + rb
    requires a != "" && a[0] == Sep && Split(a[1..]) == ra
    ensures Split(ab) == Split(a) + rb
  {
    SplitSepHead(ab);
    SplitSepHead(a);
    GlueEmpty(ra, rb);
  }

  /** One step of `SplitConcat` when the left side starts with an ordinary character. */
  lemma SplitConcatCharStep(ab: string, t: string, a: string, ra: seq<string>, rb: seq<string>)
    requires ab != "" && ab[0] != Sep && ab[1..] == t && Split(t) == ra + rb
    requires a != "" && a[0] == ab[0] && Split(a[1..]) == ra
    ensures Split(ab) == Split(a) + rb
  {
    SplitCharHead(ab);
    SplitCharHead(a);
    GlueFirst(a[0], ra, rb);
  }

  /** Splitting at a separator splits the two sides independently. */
  lemma {:induction false} SplitConcat(a: string, b: string)
    ensures Split(a + [Sep] + b) == Split(a) + Split(b)
    decreases |a|
  {
    var ab := a + [Sep] + b;
    if a == "" {
      assert ab[0] == Sep && ab[1..] == b;
      SplitSepHead(ab);
    } else {
      var t := a[1..] + [Sep] + b;
      assert ab[0] == a[0] && ab[1..] == t;
      SplitConcat(a[1..], b);
      if a[0] == Sep {
        SplitConcatSepStep(ab, t, a, Split(a[1..]), Split(b));
      } else {
        SplitConcatCharStep(ab, t, a, Split(a[1..]), Split(b));
      }
    }
  }

  /** `p.split('/').join('/')` gives `p` back. */
  lemma {:induction false} JoinSplit(p: string)
    ensures JoinSegs(Split(p)) == p
    decreases |p|
  {
    if p != "" {
      JoinSplit(p[1..]);
      var rest := Split(p[1..]);
      if p[0] == Sep {
        assert Split(p) == [""] + rest;
        assert ([""] + rest)[1..] == rest;
        assert JoinSegs([""] + rest) == "" + [Sep] + JoinSegs(rest);
        assert p == [p[0]] + p[1..];
      } else {
        var first := [p[0]] + rest[0];
        assert Split(p) == [first] + rest[1..];
        if |rest| == 1 {
          assert JoinSegs(rest) == rest[0];
        } else {
          assert ([first] + rest[1..])[1..] == rest[1..];
          assert JoinSegs(rest) == rest[0] + [Sep] + JoinSegs(rest[1..]);
        }
        assert p == [p[0]] + p[1..];
      }
    }
  }

  /** `s.join('/').split('/')` gives `s` back when no segment holds a separator. */
  lemma {:induction false} SplitJoin(s: seq<string>)
    requires |s| >= 1
    requires forall i :: 0 <= i < |s| ==> Sep !in s[i]
    ensures Split(JoinSegs(s)) == s
    decreases |s|
  {
    if |s| == 1 {
      SplitNoSep(s[0]);
    } else {
      SplitJoin(s[1..]);
      SplitNoSep(s[0]);
      SplitConcat(s[0], JoinSegs(s[1..]));
      assert [s[0]] + s[1..] == s;
    }
  }

  lemma {:induction false} JoinSegsSnoc(s: seq<string>, x: string)
    requires |s| >= 1
    ensures JoinSegs(s + [x]) == JoinSegs(s) + [Sep] + x
    decreases |s|
  {
    if |s| == 1 {
      assert s + [x] == [s[0], x];
      assert [s[0], x][1..] == [x];
    } else {
      assert (s + [x])[1..] == s[1..] + [x];
      JoinSegsSnoc(s[1..], x);
    }
  }

  lemma {:induction false} SplitFirst(p: string)
    requires p != ""
    ensures Split(p)[0] == "" <==> p[0] == Sep
  {
  }

  /** Putting a piece in front, or replacing the first piece, keeps the last piece. */
  lemma LastAfterCons(x: string, r: seq<string>)
    requires |r| >= 1
    ensures ([x] + r)[|r|] == r[|r| - 1]
    ensures |r| >= 2 ==> ([x] + r[1..])[|r| - 1] == r[|r| - 1]
  {
  }

  /** Dropping the first character of `p` does not change whether its last piece is empty. */
  lemma SplitLastStep(p: string)
    requires |p| >= 2
    ensures Split(p)[|Split(p)| - 1] == "" <==> Split(p[1..])[|Split(p[1..])| - 1] == ""
  {
    var rest := Split(p[1..]);
    LastAfterCons([p[0]] + rest[0], rest);
    LastAfterCons("", rest);
    if p[0] == Sep {
      SplitSepHead(p);
    } else {
      SplitCharHead(p);
      if |rest| == 1 {
        assert rest[0] != "" by {
          JoinSplit(p[1..]);
          assert JoinSegs(rest) == rest[0];
        }
      }
    }
  }

  lemma {:induction false} SplitLast(p: string)
    requires p != ""
    ensures Split(p)[|Split(p)| - 1] == "" <==> p[|p| - 1] == Sep
    decreases |p|
  {
    if |p| == 1 {
      assert p[1..] == "";
    } else {
      SplitLastStep(p);
      SplitLast(p[1..]);
      assert p[|p| - 1] == p[1..][|p[1..]| - 1];
    }
  }

  // ---------------------------------------------------------------------------
  // Normalisation
  // ---------------------------------------------------------------------------

  /**
   * One segment of Node's `normalizeString`: empty and `.` segments vanish, `..`
   * removes the last kept segment, and a `..` with nothing left to remove is
   * kept for a relative path and dropped for an absolute one.
   */
  function Step(stack: seq<string>, seg: string, absolute: bool): seq<string> {
    if seg == "" || seg == "." then stack
    else if seg == ".." then
      if |stack| > 0 && stack[|stack| - 1] != ".." then stack[..|stack| - 1]
      else if absolute then stack
      else stack + [".."]
    else stack + [seg]
  }

  /** `normalizeString` over a whole list of segments, continuing from `stack`. */
  function Resolve(stack: seq<string>, segs: seq<string>, absolute: bool): seq<string>
    decreases |segs|
  {
    if segs == [] then stack
    else Resolve(Step(stack, segs[0], absolute), segs[1..], absolute)
  }

  /**
   * The shape `normalizeString` produces: every segment plain, except a leading
   * run of `..` that only a relative path may keep.
   */
  predicate Clean(s: seq<string>, absolute: bool) {
    && (forall i :: 0 <= i < |s| ==> IsPlain(s[i]) || (!absolute && s[i] == ".."))
    && (forall i, j :: 0 <= i < j < |s| && s[j] == ".." ==> s[i] == "..")
  }

  lemma {:induction false} ResolveAppend(stack: seq<string>, a: seq<string>, b: seq<string>, absolute: bool)
    ensures Resolve(stack, a + b, absolute) == Resolve(Resolve(stack, a, absolute), b, absolute)
    decreases |a|
  {
    if a != [] {
      assert (a + b)[0] == a[0] && (a + b)[1..] == a[1..] + b;
      ResolveAppend(Step(stack, a[0], absolute), a[1..], b, absolute);
    } else {
      assert a + b == b;
    }
  }

  lemma {:induction false} StepClean(stack: seq<string>, seg: string, absolute: bool)
    requires Clean(stack, absolute) && Sep !in seg
    ensures Clean(Step(stack, seg, absolute), absolute)
  {
    if seg == ".." && !(|stack| > 0 && stack[|stack| - 1] != "..") && !absolute {
      var s' := stack + [".."];
      forall i | 0 <= i < |s'| ensures s'[i] == ".." {
        if i < |stack| {
          assert stack[i] == "..";
        }
      }
    }
  }

  /** Normalising never leaves anything but plain segments and leading `..`s. */
  lemma {:induction false} ResolveClean(stack: seq<string>, segs: seq<string>, absolute: bool)
    requires Clean(stack, absolute)
    requires forall i :: 0 <= i < |segs| ==> Sep !in segs[i]
    ensures Clean(Resolve(stack, segs, absolute), absolute)
    decreases |segs|
  {
    if segs != [] {
      StepClean(stack, segs[0], absolute);
      ResolveClean(Step(stack, segs[0], absolute), segs[1..], absolute);
    }
  }

  /** Normalising segments that are already in normal form changes nothing. */
  lemma {:induction false} ResolveOfClean(stack: seq<string>, s: seq<string>, absolute: bool)
    requires Clean(stack + s, absolute)
    ensures Resolve(stack, s, absolute) == stack + s
    decreases |s|
  {
    if s == [] {
      assert stack + s == stack;
    } else {
      var all := stack + s;
      assert all[|stack|] == s[0];
      if s[0] == ".." {
        if |stack| > 0 {
          assert all[|stack| - 1] == stack[|stack| - 1];
        }
      }
      assert Step(stack, s[0], absolute) == stack + [s[0]];
      assert (stack + [s[0]]) + s[1..] == all;
      ResolveOfClean(stack + [s[0]], s[1..], absolute);
    }
  }

  /** Writes a normal-form segment list back as a path string, as `normalize` does. */
  function Render(s: seq<string>, absolute: bool, trailing: bool): string {
    if s == [] then (if absolute then "/" else if trailing then "./" else ".")
    else (if absolute then "/" else "") + JoinSegs(s) + (if trailing then "/" else "")
  }

  /**
   * Node's `path.posix.normalize`: collapse separators, drop `.`, resolve `..`,
   * keep a leading and a trailing separator, and turn an empty result into `.`.
   */
  function Normalize(p: string): string {
    if p == "" then "."
    else
      var absolute := p[0] == Sep;
      Render(Resolve([], Split(p), absolute), absolute, p[|p| - 1] == Sep)
  }

  /** Node's two-argument `path.posix.join`: empty arguments are skipped, the rest normalised. */
  function Join(a: string, b: string): string {
    if a == "" && b == "" then "."
    else if a == "" then Normalize(b)
    else if b == "" then Normalize(a)
    else Normalize(a + [Sep] + b)
  }

  /** Joined segments, with or without a trailing separator, split back into the segments. */
  lemma {:induction false} SplitTrailed(s: seq<string>, trailing: bool)
    requires s != [] && forall i :: 0 <= i < |s| ==> Sep !in s[i]
    ensures Split(JoinSegs(s) + (if trailing then "/" else "")) == s + (if trailing then [""] else [])
  {
    SplitJoin(s);
    if trailing {
      SplitConcat(JoinSegs(s), "");
      assert JoinSegs(s) + [Sep] + "" == JoinSegs(s) + "/";
      SplitNoSep("");
    } else {
      assert JoinSegs(s) + "" == JoinSegs(s);
      assert s + [] == s;
    }
  }

  /** A leading separator contributes one empty piece. */
  lemma SplitAfterSep(w: string)
    ensures Split([Sep] + w) == [""] + Split(w)
  {
    assert ([Sep] + w)[1..] == w;
    SplitSepHead([Sep] + w);
  }

  /** The segments of a rendered path are the rendered segments, framed by the separators. */
  lemma {:induction false} SplitRender(s: seq<string>, absolute: bool, trailing: bool)
    requires s != [] && Clean(s, absolute)
    ensures Split(Render(s, absolute, trailing))
         == (if absolute then [""] else []) + s + (if trailing then [""] else [])
  {
    var w := JoinSegs(s) + (if trailing then "/" else "");
    var post: seq<string> := if trailing then [""] else [];
    assert Split(w) == s + post by {
      assert forall i :: 0 <= i < |s| ==> Sep !in s[i];
      SplitTrailed(s, trailing);
    }
    if absolute {
      assert Render(s, absolute, trailing) == [Sep] + w;
      SplitAfterSep(w);
      assert [""] + (s + post) == [""] + s + post;
    } else {
      assert Render(s, absolute, trailing) == w;
      assert [] + s + post == s + post;
    }
  }

  lemma {:induction false} SplitDot()
    ensures Split(".") == ["."]
  {
    assert Sep !in ".";
    SplitNoSep(".");
  }

  lemma {:induction false} SplitDotSlash()
    ensures Split("./") == [".", ""]
  {
    SplitDot();
    SplitConcat(".", "");
    assert "." + [Sep] + "" == "./";
  }

  /** The renderings of no segments are their own normalisations. */
  lemma {:induction false} RenderEmptyIsNormal(absolute: bool, trailing: bool)
    ensures Normalize(Render([], absolute, trailing)) == Render([], absolute, trailing)
  {
    if absolute {
      assert Split("/") == ["", ""] by {
        SplitConcat("", "");
      }
    } else if trailing {
      SplitDotSlash();
    } else {
      SplitDot();
    }
  }

  /** A rendering of some segments is not empty and starts with a separator exactly when absolute. */
  lemma {:induction false} RenderStart(s: seq<string>, absolute: bool, trailing: bool)
    requires s != [] && Clean(s, absolute)
    ensures var q := Render(s, absolute, trailing); q != "" && (q[0] == Sep <==> absolute)
  {
    var q := Render(s, absolute, trailing);
    var pre: seq<string> := if absolute then [""] else [];
    var post: seq<string> := if trailing then [""] else [];
    var segs := pre + s + post;
    SplitRender(s, absolute, trailing);
    assert s[0] != "";
    assert segs[|pre|] == s[0];
    assert Split(q) != [""];
    SplitFirst(q);
    assert segs[0] == (if absolute then "" else s[0]);
  }

  /** A rendering of some segments ends with a separator exactly when trailing. */
  lemma {:induction false} RenderEnd(s: seq<string>, absolute: bool, trailing: bool)
    requires s != [] && Clean(s, absolute)
    requires Render(s, absolute, trailing) != ""
    ensures var q := Render(s, absolute, trailing); q[|q| - 1] == Sep <==> trailing
  {
    var q := Render(s, absolute, trailing);
    var pre: seq<string> := if absolute then [""] else [];
    var post: seq<string> := if trailing then [""] else [];
    var segs := pre + s + post;
    SplitRender(s, absolute, trailing);
    SplitLast(q);
    assert segs[|segs| - 1] == (if trailing then "" else s[|s| - 1]);
  }

  /** A rendering starts with a separator exactly when absolute and ends with one exactly when trailing. */
  lemma {:induction false} RenderEnds(s: seq<string>, absolute: bool, trailing: bool)
    requires s != [] && Clean(s, absolute)
    ensures var q := Render(s, absolute, trailing);
      && q != ""
      && (q[0] == Sep <==> absolute)
      && (q[|q| - 1] == Sep <==> trailing)
  {
    RenderStart(s, absolute, trailing);
    RenderEnd(s, absolute, trailing);
  }

  /** The framing empty pieces resolve away. */
  lemma {:induction false} ResolveFramed(s: seq<string>, absolute: bool, trailing: bool)
    requires Clean(s, absolute)
    ensures var pre: seq<string> := if absolute then [""] else [];
      var post: seq<string> := if trailing then [""] else [];
      Resolve([], pre + s + post, absolute) == s
  {
    var pre: seq<string> := if absolute then [""] else [];
    var post: seq<string> := if trailing then [""] else [];
    ResolveAppend([], pre + s, post, absolute);
    ResolveAppend([], pre, s, absolute);
    assert Resolve([], pre, absolute) == [];
    ResolveOfClean([], s, absolute);
    assert [] + s == s;
    assert Resolve(s, post, absolute) == s;
  }

  /** A rendered normal form is its own normalisation. */
  lemma {:induction false} RenderIsNormal(s: seq<string>, absolute: bool, trailing: bool)
    requires Clean(s, absolute)
    ensures Normalize(Render(s, absolute, trailing)) == Render(s, absolute, trailing)
  {
    if s == [] {
      RenderEmptyIsNormal(absolute, trailing);
    } else {
      SplitRender(s, absolute, trailing);
      RenderEnds(s, absolute, trailing);
      ResolveFramed(s, absolute, trailing);
    }
  }

  /** Joining a plain name onto a rendered normal form is plain concatenation. */
  lemma {:induction false} JoinPlainRendered(s: seq<string>, absolute: bool, name: string)
    requires s != [] && Clean(s, absolute) && IsPlain(name)
    ensures Join(Render(s, absolute, false), name) == Render(s, absolute, false) + [Sep] + name
    ensures Render(s, absolute, false) + [Sep] + name == Render(s + [name], absolute, false)
  {
    var q := Render(s, absolute, false);
    var s' := s + [name];
    assert q + [Sep] + name == Render(s', absolute, false) by {
      JoinSegsSnoc(s, name);
    }
    assert Clean(s', absolute) by {
      forall i, j | 0 <= i < j < |s'| && s'[j] == ".." ensures s'[i] == ".." {
        assert j < |s|;
      }
    }
    assert q != "" by {
      SplitRender(s, absolute, false);
    }
    assert Normalize(Render(s', absolute, false)) == Render(s', absolute, false) by {
      RenderIsNormal(s', absolute, false);
    }
  }

  /** Normalising twice is normalising once. */
  lemma {:induction false} NormalizeIdempotent(p: string)
    ensures Normalize(Normalize(p)) == Normalize(p)
  {
    if p == "" {
      SplitDot();
    } else {
      var absolute := p[0] == Sep;
      ResolveClean([], Split(p), absolute);
      RenderIsNormal(Resolve([], Split(p), absolute), absolute, p[|p| - 1] == Sep);
    }
  }

  // ---------------------------------------------------------------------------
  // Resolution against the filesystem root
  // ---------------------------------------------------------------------------

  /** The entry names along `path.resolve(p)`, read from the filesystem root. */
  function Components(p: string): (r: seq<string>)
    ensures forall i :: 0 <= i < |r| ==> IsPlain(r[i])
  {
    ResolveClean([], Split(p), true);
    Resolve([], Split(p), true)
  }

  /** Node's `path.resolve(p)`: absolute, normalised, without a trailing separator. */
  function ResolvedPath(p: string): string {
    "/" + JoinSegs(Components(p))
  }

  /** The segments of `s` other than `..`. */
  function NoDots(s: seq<string>): seq<string>
    decreases |s|
  {
    if s == [] then []
    else if s[|s| - 1] == ".." then NoDots(s[..|s| - 1])
    else NoDots(s[..|s| - 1]) + [s[|s| - 1]]
  }

  lemma {:induction false} NoDotsAllDots(s: seq<string>)
    requires forall i :: 0 <= i < |s| ==> s[i] == ".."
    ensures NoDots(s) == []
    decreases |s|
  {
    if s != [] {
      NoDotsAllDots(s[..|s| - 1]);
    }
  }

  lemma {:induction false} NoDotsPlain(s: seq<string>)
    requires forall i :: 0 <= i < |s| ==> IsPlain(s[i])
    ensures NoDots(s) == s
    decreases |s|
  {
    if s != [] {
      NoDotsPlain(s[..|s| - 1]);
      assert s[..|s| - 1] + [s[|s| - 1]] == s;
    }
  }

  /** Resolving as an absolute path is resolving as a relative one and dropping the `..`s. */
  lemma {:induction false} ResolveAbsoluteDropsDots(st: seq<string>, rel: seq<string>, segs: seq<string>)
    requires Clean(rel, false) && st == NoDots(rel)
    requires forall i :: 0 <= i < |segs| ==> Sep !in segs[i]
    ensures Resolve(st, segs, true) == NoDots(Resolve(rel, segs, false))
    decreases |segs|
  {
    if segs != [] {
      var seg := segs[0];
      var rel' := Step(rel, seg, false);
      var st' := Step(st, seg, true);
      if seg == ".." {
        if |rel| > 0 && rel[|rel| - 1] != ".." {
          assert NoDots(rel) == NoDots(rel[..|rel| - 1]) + [rel[|rel| - 1]];
        } else {
          forall i | 0 <= i < |rel| ensures rel[i] == ".." {
            if i < |rel| - 1 {
              assert rel[|rel| - 1] == "..";
            }
          }
          NoDotsAllDots(rel);
          NoDotsAllDots(rel + [".."]);
        }
      } else if seg != "" && seg != "." {
        assert (rel + [seg])[..|rel + [seg]| - 1] == rel;
      }
      StepClean(rel, seg, false);
      ResolveAbsoluteDropsDots(st', rel', segs[1..]);
    }
  }

  /** Every rendering of no segments resolves to the root. */
  lemma {:induction false} ComponentsOfEmptyRender(absolute: bool, trailing: bool)
    ensures Components(Render([], absolute, trailing)) == []
  {
    var q := Render([], absolute, trailing);
    if absolute {
      assert q == [Sep] + "";
      SplitAfterSep("");
      assert Split(q) == ["", ""];
    } else if trailing {
      SplitDotSlash();
    } else {
      SplitDot();
    }
  }

  /** A non-empty rendering resolves to its segments with the `..`s dropped. */
  lemma {:induction false} ComponentsOfRender(s: seq<string>, absolute: bool, trailing: bool)
    requires s != [] && Clean(s, absolute)
    ensures Components(Render(s, absolute, trailing)) == NoDots(s)
  {
    SplitRender(s, absolute, trailing);
    EmptyFrame(s, absolute, trailing);
    ResolveAsAbsolute(s, absolute);
  }

  /** Resolving normal-form segments as an absolute path drops their leading `..`s. */
  lemma {:induction false} ResolveAsAbsolute(s: seq<string>, absolute: bool)
    requires Clean(s, absolute)
    ensures Resolve([], s, true) == NoDots(s)
  {
    assert [] + s == s;
    assert Clean([] + s, false);
    ResolveOfClean([], s, false);
    ResolveAbsoluteDropsDots([], [], s);
  }

  /** The empty pieces a leading and a trailing separator add do not change an absolute resolution. */
  lemma {:induction false} EmptyFrame(s: seq<string>, absolute: bool, trailing: bool)
    ensures var pre: seq<string> := if absolute then [""] else [];
      var post: seq<string> := if trailing then [""] else [];
      Resolve([], pre + s + post, true) == Resolve([], s, true)
  {
    var pre: seq<string> := if absolute then [""] else [];
    var post: seq<string> := if trailing then [""] else [];
    var r := Resolve([], s, true);
    ResolveAppend([], pre + s, post, true);
    ResolveAppend([], pre, s, true);
    assert Resolve([], pre, true) == [];
    assert Resolve(r, post, true) == r;
  }

  /** The components of a non-empty path are its normal-form segments with the `..`s dropped. */
  lemma {:induction false} ComponentsByNoDots(p: string)
    requires p != ""
    ensures Components(p) == NoDots(Resolve([], Split(p), p[0] == Sep))
  {
    var s := Resolve([], Split(p), true);
    if p[0] == Sep {
      ResolveClean([], Split(p), true);
      NoDotsPlain(s);
    } else {
      ResolveAbsoluteDropsDots([], [], Split(p));
    }
  }

  /** Normalising a path does not move the directory it resolves to. */
  lemma {:induction false} ComponentsOfNormalize(p: string)
    ensures Components(Normalize(p)) == Components(p)
  {
    if p == "" {
      SplitDot();
      assert Split("") == [""];
    } else {
      var absolute := p[0] == Sep;
      var trailing := p[|p| - 1] == Sep;
      var s := Resolve([], Split(p), absolute);
      ResolveClean([], Split(p), absolute);
      ComponentsByNoDots(p);
      if s == [] {
        ComponentsOfEmptyRender(absolute, trailing);
      } else {
        ComponentsOfRender(s, absolute, trailing);
      }
    }
  }

  /** Joining appends the second path's segments to the first path's directory. */
  lemma {:induction false} JoinComponents(a: string, b: string)
    ensures Components(Join(a, b)) == Resolve(Components(a), Split(b), true)
  {
    if a == "" && b == "" {
      SplitDot();
    } else if a == "" {
      ComponentsOfNormalize(b);
    } else if b == "" {
      ComponentsOfNormalize(a);
    } else {
      ComponentsOfNormalize(a + [Sep] + b);
      SplitConcat(a, b);
      ResolveAppend([], Split(a), Split(b), true);
    }
  }

  /** Joining a plain entry name descends into that entry. */
  lemma {:induction false} JoinPlainComponents(a: string, name: string)
    requires IsPlain(name)
    ensures Components(Join(a, name)) == Components(a) + [name]
  {
    JoinComponents(a, name);
    SplitNoSep(name);
  }

  // ---------------------------------------------------------------------------
  // Relative paths, base names and extensions
  // ---------------------------------------------------------------------------

  function CommonPrefixLength(a: seq<string>, b: seq<string>): (k: nat)
    ensures k <= |a| && k <= |b|
    ensures a[..k] == b[..k]
    ensures k == |a| || k == |b| || a[k] != b[k]
    decreases |a|
  {
    if a == [] || b == [] || a[0] != b[0] then 0
    else
      var k := 1 + CommonPrefixLength(a[1..], b[1..]);
      assert a[..k] == [a[0]] + a[1..][..k - 1];
      assert b[..k] == [b[0]] + b[1..][..k - 1];
      k
  }

  function Repeat(x: string, n: nat): (r: seq<string>)
    ensures |r| == n
    ensures forall i :: 0 <= i < n ==> r[i] == x
  {
    if n == 0 then [] else [x] + Repeat(x, n - 1)
  }

  /**
   * Node's `path.relative(from, to)`: one `..` for every directory of `from`
   * below the common ancestor, then the rest of `to`; empty when both resolve
   * to the same directory.
   */
  function Relative(from: string, to: string): string {
    var f := Components(from);
    var t := Components(to);
    var k := CommonPrefixLength(f, t);
    JoinSegs(Repeat("..", |f| - k) + t[k..])
  }

  lemma {:induction false} PopMany(f: seq<string>, m: nat)
    requires m <= |f|
    requires forall i :: 0 <= i < |f| ==> IsPlain(f[i])
    ensures Resolve(f, Repeat("..", m), true) == f[..|f| - m]
    decreases m
  {
    if m > 0 {
      var f' := f[..|f| - 1];
      assert Step(f, "..", true) == f';
      assert Repeat("..", m)[1..] == Repeat("..", m - 1);
      PopMany(f', m - 1);
      assert f'[..|f'| - (m - 1)] == f[..|f| - m];
    }
  }

  /** Climbing out of `f` to the common prefix and descending into the rest of `t` reaches `t`. */
  lemma {:induction false} ClimbThenDescend(f: seq<string>, t: seq<string>, k: nat)
    requires k <= |f| && k <= |t| && f[..k] == t[..k]
    requires forall i :: 0 <= i < |f| ==> IsPlain(f[i])
    requires forall i :: 0 <= i < |t| ==> IsPlain(t[i])
    ensures Resolve(f, Repeat("..", |f| - k) + t[k..], true) == t
  {
    var up := Repeat("..", |f| - k);
    var down := t[k..];
    assert Resolve(f, up, true) == t[..k] by {
      PopMany(f, |f| - k);
      assert f[..|f| - (|f| - k)] == f[..k];
    }
    assert Resolve(t[..k], down, true) == t by {
      assert t[..k] + down == t;
      assert Clean(t, true);
      ResolveOfClean(t[..k], down, true);
    }
    ResolveAppend(f, up, down, true);
  }

  /** Every segment of a relative route is `..` or a plain name. */
  lemma {:induction false} RelativeSegsPlain(f: seq<string>, t: seq<string>, k: nat)
    requires k <= |f| && k <= |t|
    requires forall i :: 0 <= i < |t| ==> IsPlain(t[i])
    ensures var r := Repeat("..", |f| - k) + t[k..];
      forall i :: 0 <= i < |r| ==> r[i] != "" && Sep !in r[i]
  {
    var m := |f| - k;
    var up := Repeat("..", m);
    var down := t[k..];
    forall i | 0 <= i < |up + down| ensures (up + down)[i] != "" && Sep !in (up + down)[i] {
      if i < m {
        assert (up + down)[i] == "..";
      } else {
        assert (up + down)[i] == t[k + (i - m)];
      }
    }
  }

  /** Joining segments without separators and splitting again gives them back; no segments give `[""]`. */
  lemma {:induction false} SplitJoinSegs(r: seq<string>)
    requires forall i :: 0 <= i < |r| ==> Sep !in r[i]
    ensures Split(JoinSegs(r)) == (if r == [] then [""] else r)
  {
    if r != [] {
      SplitJoin(r);
    }
  }

  /** The segments of a relative route split back into themselves. */
  lemma {:induction false} RelativeSegs(f: seq<string>, t: seq<string>, k: nat)
    requires k <= |f| && k <= |t|
    requires forall i :: 0 <= i < |t| ==> IsPlain(t[i])
    ensures var r := Repeat("..", |f| - k) + t[k..];
      Split(JoinSegs(r)) == (if r == [] then [""] else r)
  {
    RelativeSegsPlain(f, t, k);
    SplitJoinSegs(Repeat("..", |f| - k) + t[k..]);
  }

  /** Resolving the split route from `f` reaches `t`. */
  lemma {:induction false} RouteResolves(f: seq<string>, t: seq<string>, k: nat)
    requires k <= |f| && k <= |t| && f[..k] == t[..k]
    requires forall i :: 0 <= i < |f| ==> IsPlain(f[i])
    requires forall i :: 0 <= i < |t| ==> IsPlain(t[i])
    ensures var r := Repeat("..", |f| - k) + t[k..];
      Resolve(f, Split(JoinSegs(r)), true) == t
  {
    var r := Repeat("..", |f| - k) + t[k..];
    RelativeSegs(f, t, k);
    if r == [] {
      assert f == f[..k] && t == t[..k];
      assert Resolve(f, [""], true) == f;
    } else {
      ClimbThenDescend(f, t, k);
    }
  }

  /** Joining `from` with `relative(from, to)` arrives at the directory of `to`. */
  lemma {:induction false} RelativeRejoins(from: string, to: string)
    ensures Components(Join(from, Relative(from, to))) == Components(to)
  {
    var f := Components(from);
    var t := Components(to);
    RouteResolves(f, t, CommonPrefixLength(f, t));
    JoinComponents(from, Relative(from, to));
  }

  /** The last non-empty piece, as `basename` reads past trailing separators. */
  function LastNonEmpty(s: seq<string>): string
    decreases |s|
  {
    if s == [] then ""
    else if s[|s| - 1] != "" then s[|s| - 1]
    else LastNonEmpty(s[..|s| - 1])
  }

  /** Node's `path.basename(p)`. */
  function Basename(p: string): string {
    LastNonEmpty(Split(p))
  }

  /** Index of the last `c` in `s`, or -1. */
  function LastIndexOf(s: string, c: char): (i: int)
    ensures -1 <= i < |s|
    ensures i >= 0 ==> s[i] == c
    ensures forall j :: i < j < |s| ==> s[j] != c
    decreases |s|
  {
    if s == [] then -1
    else if s[|s| - 1] == c then |s| - 1
    else LastIndexOf(s[..|s| - 1], c)
  }

  /**
   * Node's `path.extname(p)` on the last component: from the last `.` on, or
   * empty when there is no dot, when the only dot starts the name, or for `..`.
   */
  function Extname(p: string): (r: string)
    ensures |r| <= |Basename(p)|
  {
    var name := Basename(p);
    var d := LastIndexOf(name, '.');
    if d <= 0 || name == ".." then "" else name[d..]
  }

  /** A name without separators is its own base name. */
  lemma {:induction false} BasenameOfName(name: string)
    requires Sep !in name
    ensures Basename(name) == name
  {
    SplitNoSep(name);
  }

  /** A file name has the extension `.ts` exactly when it ends in `.ts` after at least one character. */
  lemma {:induction false} TsExtension(name: string)
    requires Sep !in name
    ensures Extname(name) == ".ts" <==> EndsWith(name, ".ts") && |name| > 3
  {
    BasenameOfName(name);
    var d := LastIndexOf(name, '.');
    if EndsWith(name, ".ts") && |name| > 3 {
      assert name[|name| - 3] == '.' && name[|name| - 2] == 't' && name[|name| - 1] == 's';
      assert d == |name| - 3;
    }
    if Extname(name) == ".ts" {
      assert d > 0 && name[d..] == ".ts";
      assert |name| - d == 3;
    }
  }
}
