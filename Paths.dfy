/** Lexical model of the pathlib operations the tools rely on: parsing a path string,
    `base / path`, `Path.resolve()` (without symlinks), `is_relative_to`, `str(path)`,
    `.name` and `.suffix`.  A resolved path is the sequence of its segments below `/`. */
module Paths {
  import opened Text

  type Segments = seq<string>

  /** A component that can appear in a resolved path. */
  predicate IsSegment(s: string) {
    s != "" && s != "." && s != ".." && '/' !in s
  }

  /** A resolved, absolute path: no empty, `.` or `..` component. */
  predicate IsNormal(p: Segments) {
    forall i :: 0 <= i < |p| ==> IsSegment(p[i])
  }

  predicate NoSlash(p: Segments) {
    forall i :: 0 <= i < |p| ==> '/' !in p[i]
  }

  /** `PurePosixPath(s)`: whether it is anchored at `/` and its parts; pathlib drops empty
      and `.` parts when it parses, and keeps `..` for `resolve()` to deal with. */
  datatype PurePath = PurePath(absolute: bool, parts: Segments)

  function Clean(pieces: Segments): (r: Segments)
    ensures forall x :: x in r <==> x in pieces && x != "" && x != "."
    ensures |r| <= |pieces|
  {
    if pieces == [] then []
    else (if pieces[0] == "" || pieces[0] == "." then [] else [pieces[0]]) + Clean(pieces[1..])
  }

  function Parse(s: string): (p: PurePath)
    ensures NoSlash(p.parts)
    ensures forall i :: 0 <= i < |p.parts| ==> p.parts[i] != "" && p.parts[i] != "."
    ensures p.absolute <==> StartsWith(s, "/")
  {
    SplitOnPieces(s, '/');
    var r := PurePath(|s| > 0 && s[0] == '/', Clean(SplitOn(s, '/')));
    assert forall i :: 0 <= i < |r.parts| ==> r.parts[i] in SplitOn(s, '/');
    r
  }

  /** `base / p`: an absolute right operand replaces the base. */
  function Combine(base: Segments, p: PurePath): Segments {
    if p.absolute then p.parts else base + p.parts
  }

  /** One component of the lexical walk done by `realpath`: empty and `.` are skipped,
      `..` drops the last segment (and stays at `/` when there is none). */
  function Step(acc: Segments, seg: string): Segments {
    if seg == "" || seg == "." then acc
    else if seg == ".." then (if acc == [] then [] else acc[..|acc| - 1])
    else acc + [seg]
  }

  function Collapse(acc: Segments, segs: Segments): Segments
    decreases |segs|
  {
    if segs == [] then acc else Collapse(Step(acc, segs[0]), segs[1..])
  }

  /** `(base / s).resolve()`, with `base` itself already resolved. */
  function Resolve(base: Segments, s: string): (r: Segments)
    requires IsNormal(base)
    ensures IsNormal(r)
  {
    var p := Parse(s);
    CollapseNormal([], Combine(base, p));
    Collapse([], Combine(base, p))
  }

  /** `resolve()` stats every ordinary component, and the stat rejects a NUL character with
      this `ValueError` (the text of `str(e)`), so a path containing one never resolves. */
  const NulByteText := "embedded null byte"

  /** `p.is_relative_to(base)`: component-wise containment. */
  predicate IsRelativeTo(p: Segments, base: Segments) {
    |base| <= |p| && p[..|base|] == base
  }

  /** `str(p)` of an absolute path. */
  function Render(p: Segments): string {
    "/" + Join(p, "/")
  }

  /** `p.name`: the last component, empty for `/`. */
  function Name(p: Segments): string {
    if p == [] then "" else p[|p| - 1]
  }

  /** `Path("./" + name).resolve()` run from `cwd`: the directory `name` directly below it. */
  function DirBelow(cwd: Segments, name: string): (r: Segments)
    requires IsNormal(cwd) && IsSegment(name)
    ensures IsNormal(r) && |r| == |cwd| + 1 && IsRelativeTo(r, cwd) && Name(r) == name
  {
    cwd + [name]
  }

  /** `./name` resolves from `cwd` to `DirBelow(cwd, name)`. */
  lemma DirBelowResolved(cwd: Segments, rel: string, name: string)
    requires IsNormal(cwd) && IsSegment(name) && rel == "./" + name
    ensures Resolve(cwd, rel) == DirBelow(cwd, name)
  {
    var pieces := [".", name];
    assert Join(pieces[1..], "/") == name;
    assert rel == Join(pieces, "/");
    ParseJoined(rel, pieces);
    assert Clean(pieces[1..]) == [name];
    assert Clean(pieces) == [name];
    ResolveRelative(cwd, rel);
    CollapseOfNormal(cwd, [name]);
  }

  /** `s.rfind('.')`. */
  function LastDot(s: string): (i: int)
    ensures -1 <= i < |s|
    ensures i >= 0 ==> s[i] == '.'
    ensures forall j :: i < j < |s| ==> s[j] != '.'
  {
    if s == [] then -1
    else if s[|s| - 1] == '.' then |s| - 1
    else LastDot(s[..|s| - 1])
  }

  /** `PurePath.suffix` of a name: from its last dot on, unless that dot is the first or the
      last character (so `.bashrc` and `notes.` have none). */
  function Suffix(name: string): (r: string)
    ensures r != "" ==>
      2 <= |r| < |name| && r == name[|name| - |r|..] && r[0] == '.' &&
      forall j :: 1 <= j < |r| ==> r[j] != '.'
    ensures r == "" ==>
      forall j :: 0 < j < |name| - 1 && name[j] == '.' ==> exists k :: j < k < |name| && name[k] == '.'
  {
    var i := LastDot(name);
    if 0 < i < |name| - 1 then name[i..] else ""
  }

  // ---- The lexical walk ----------------------------------------------------------------

  lemma {:induction false} CollapseNormal(acc: Segments, segs: Segments)
    requires IsNormal(acc) && NoSlash(segs)
    ensures IsNormal(Collapse(acc, segs))
    decreases |segs|
  {
    if segs != [] {
      CollapseNormal(Step(acc, segs[0]), segs[1..]);
    }
  }

  /** The walk over `a + b` is the walk over `a` continued over `b`. */
  lemma {:induction false} CollapseAppend(acc: Segments, a: Segments, b: Segments)
    ensures Collapse(acc, a + b) == Collapse(Collapse(acc, a), b)
    decreases |a|
  {
    if a == [] {
      assert a + b == b;
    } else {
      assert (a + b)[1..] == a[1..] + b;
      CollapseAppend(Step(acc, a[0]), a[1..], b);
    }
  }

  /** Walking components that are already normal appends them. */
  lemma {:induction false} CollapseOfNormal(acc: Segments, segs: Segments)
    requires IsNormal(segs)
    ensures Collapse(acc, segs) == acc + segs
    decreases |segs|
  {
    if segs != [] {
      CollapseOfNormal(acc + [segs[0]], segs[1..]);
      assert acc + [segs[0]] + segs[1..] == acc + segs;
    }
  }

  /** A relative path is walked starting from the (resolved) base. */
  lemma ResolveRelative(base: Segments, s: string)
    requires IsNormal(base) && !StartsWith(s, "/")
    ensures Resolve(base, s) == Collapse(base, Parse(s).parts)
  {
    var p := Parse(s);
    assert Combine(base, p) == base + p.parts;
    assert Collapse([], base + p.parts) == Collapse(Collapse([], base), p.parts) by {
      CollapseAppend([], base, p.parts);
    }
    assert Collapse([], base) == base by {
      CollapseOfNormal([], base);
      assert [] + base == base;
    }
  }

  /** An absolute path ignores the base altogether. */
  lemma ResolveAbsolute(base: Segments, other: Segments, s: string)
    requires IsNormal(base) && IsNormal(other) && StartsWith(s, "/")
    ensures Resolve(base, s) == Resolve(other, s)
  {
  }

  /** `Stays(segs, h)`: walking `segs` from `h` levels below some directory never climbs above
      that directory. */
  predicate Stays(segs: Segments, h: nat)
    decreases |segs|
  {
    if segs == [] then true
    else if segs[0] == "" || segs[0] == "." then Stays(segs[1..], h)
    else if segs[0] == ".." then h > 0 && Stays(segs[1..], h - 1)
    else Stays(segs[1..], h + 1)
  }

  /** A walk that never climbs above `acc` leaves `acc` in place as a prefix. */
  lemma {:induction false} CollapseStays(acc: Segments, ext: Segments, segs: Segments)
    requires Stays(segs, |ext|)
    ensures Collapse(acc + ext, segs) == acc + Collapse(ext, segs)
    decreases |segs|
  {
    if segs != [] {
      var s := segs[0];
      if s == "" || s == "." {
        CollapseStays(acc, ext, segs[1..]);
      } else if s == ".." {
        assert Step(acc + ext, s) == acc + ext[..|ext| - 1];
        CollapseStays(acc, ext[..|ext| - 1], segs[1..]);
      } else {
        assert Step(acc + ext, s) == acc + (ext + [s]);
        CollapseStays(acc, ext + [s], segs[1..]);
      }
    }
  }

  /** Without any `..`, nothing is ever climbed. */
  lemma {:induction false} NoParentStays(segs: Segments, h: nat)
    requires ".." !in segs
    ensures Stays(segs, h)
    decreases |segs|
  {
    if segs != [] {
      assert segs[0] != "..";
      assert forall x :: x in segs[1..] ==> x in segs;
      NoParentStays(segs[1..], (if segs[0] == "" || segs[0] == "." then h else h + 1));
    }
  }

  /** Parsing a string given as its `/`-separated pieces. */
  lemma ParseJoined(s: string, pieces: Segments)
    requires |pieces| >= 1 && NoSlash(pieces) && s == Join(pieces, "/")
    ensures Parse(s).parts == Clean(pieces)
    ensures Parse(s).absolute <==> pieces[0] == "" && |pieces| >= 2
  {
    SplitOnJoin(pieces, '/');
    if |pieces| >= 2 {
      assert s == pieces[0] + "/" + Join(pieces[1..], "/");
    }
  }

  // ---- The string form -------------------------------------------------------------------

  /** Parsing the string form of a resolved path gives back the same absolute path. */
  lemma RenderParse(p: Segments)
    requires IsNormal(p)
    ensures Parse(Render(p)) == PurePath(true, p)
  {
    var pieces := [""] + p;
    if p == [] {
      assert Render(p) == Join(["", ""], "/");
      SplitOnJoin(["", ""], '/');
      assert Clean(["", ""]) == [];
    } else {
      assert Join(pieces, "/") == "" + "/" + Join(pieces[1..], "/");
      assert pieces[1..] == p;
      assert Render(p) == Join(pieces, "/");
      SplitOnJoin(pieces, '/');
      CleanKeeps(p);
      assert Clean(pieces) == Clean(p);
    }
  }

  lemma {:induction false} CleanKeeps(p: Segments)
    requires forall i :: 0 <= i < |p| ==> p[i] != "" && p[i] != "."
    ensures Clean(p) == p
    decreases |p|
  {
    if p != [] {
      CleanKeeps(p[1..]);
    }
  }

  lemma {:induction false} JoinAppend(a: Segments, b: Segments)
    requires |a| >= 1 && |b| >= 1
    ensures Join(a + b, "/") == Join(a, "/") + "/" + Join(b, "/")
    decreases |a|
  {
    var ab := a + b;
    assert |ab| >= 2 && ab[0] == a[0];
    assert Join(ab, "/") == a[0] + "/" + Join(ab[1..], "/");
    if |a| == 1 {
      assert ab[1..] == b;
    } else {
      assert ab[1..] == a[1..] + b;
      JoinAppend(a[1..], b);
      assert Join(a, "/") == a[0] + "/" + Join(a[1..], "/");
      assert Join(ab, "/") == a[0] + "/" + (Join(a[1..], "/") + "/" + Join(b, "/"));
    }
  }

  /** Component-wise containment implies containment of the string forms. */
  lemma RenderPrefix(p: Segments, base: Segments)
    requires IsRelativeTo(p, base)
    ensures StartsWith(Render(p), Render(base))
  {
    if base != [] && |p| > |base| {
      assert p == base + p[|base|..];
      JoinAppend(base, p[|base|..]);
    } else if base != [] {
      assert p == base;
    }
  }

  lemma StartsWithAfter(x: string, y: string, z: string)
    ensures StartsWith(x + y, x + z) <==> StartsWith(y, z)
  {
    if StartsWith(x + y, x + z) {
      assert (x + y)[|x|..|x| + |z|] == y[..|z|];
      assert (x + z)[|x|..] == z;
    }
    if StartsWith(y, z) {
      assert (x + y)[..|x + z|] == x + y[..|z|];
    }
  }

  /** Two components that contain no `/`, each followed by a `/`, prefix-match only if equal. */
  lemma SlashSeparated(a: string, x: string, b: string, y: string)
    requires '/' !in a && '/' !in b
    requires StartsWith(a + "/" + x, b + "/" + y)
    ensures a == b && StartsWith(x, y)
  {
    var l := a + "/" + x;
    var r := b + "/" + y;
    assert l[|a|] == '/' && r[|b|] == '/';
    assert forall i :: 0 <= i < |r| ==> l[i] == r[i];
    assert forall i :: 0 <= i < |a| ==> l[i] == a[i] && l[i] != '/';
    assert forall i :: 0 <= i < |b| ==> r[i] == b[i] && r[i] != '/';
    assert |a| == |b|;
    assert a == l[..|a|] == r[..|b|] == b;
    StartsWithAfter(a + "/", x, y);
  }

  /** The exact meaning of a string-prefix test between joined component lists: all but the
      last component of `base` match, and the last one is a character prefix of the
      corresponding component of `p`. */
  lemma {:induction false} JoinPrefix(p: Segments, base: Segments)
    requires NoSlash(p) && IsNormal(base) && |base| >= 1
    ensures StartsWith(Join(p, "/"), Join(base, "/")) <==>
      |p| >= |base| && p[..|base| - 1] == base[..|base| - 1] &&
      StartsWith(p[|base| - 1], base[|base| - 1])
    decreases |base|
  {
    var n := |base|;
    var jp, jb := Join(p, "/"), Join(base, "/");
    if n == 1 {
      if |p| >= 2 {
        assert jp == p[0] + ("/" + Join(p[1..], "/"));
        assert jp[|p[0]|] == '/';
        assert forall i :: 0 <= i < |p[0]| ==> jp[i] == p[0][i];
        assert forall i :: 0 <= i < |base[0]| ==> jb[i] == base[0][i] && jb[i] != '/';
        assert StartsWith(jp, jb) ==> |base[0]| <= |p[0]|;
        assert StartsWith(jp, jb) ==> jb == jp[..|base[0]|] == p[0][..|base[0]|];
      }
    } else {
      assert jb == base[0] + "/" + Join(base[1..], "/");
      assert base[1..][..n - 2] == base[1..n - 1];
      assert base[..n - 1] == [base[0]] + base[1..n - 1];
      assert jb[|base[0]|] == '/';
      if |p| == 1 {
        assert jp == p[0];
        assert forall i :: 0 <= i < |jp| ==> jp[i] != '/';
        assert !StartsWith(jp, jb);
      } else if |p| == 0 {
      } else {
        assert jp == p[0] + "/" + Join(p[1..], "/");
        if |p| >= n {
          assert p[1..][..n - 2] == p[1..n - 1];
          assert p[..n - 1] == [p[0]] + p[1..n - 1];
        }
        JoinPrefix(p[1..], base[1..]);
        if StartsWith(jp, jb) {
          SlashSeparated(p[0], Join(p[1..], "/"), base[0], Join(base[1..], "/"));
        }
        if |p| >= n && p[..n - 1] == base[..n - 1] && StartsWith(p[n - 1], base[n - 1]) {
          assert p[0] == base[0];
          StartsWithAfter(p[0] + "/", Join(p[1..], "/"), Join(base[1..], "/"));
        }
      }
    }
  }
}
