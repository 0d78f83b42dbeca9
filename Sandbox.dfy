/** The `write_local_file` tool: the sandbox that confines the agent's writes and the
    guard-then-write sequence that enforces it. */
module Sandbox {
  import opened Text
  import opened Paths
  import opened Repr

  /** `SANDBOX_DIR`: the directory `agent_workspace` below the working directory `cwd`. */
  function SandboxDir(cwd: Segments): Segments
    requires IsNormal(cwd)
  {
    DirBelow(cwd, "agent_workspace")
  }

  /** `./agent_workspace` resolves to `SandboxDir(cwd)`. */
  lemma SandboxDirResolved(cwd: Segments, workspace: string)
    requires IsNormal(cwd) && workspace == "./agent_workspace"
    ensures Resolve(cwd, workspace) == SandboxDir(cwd)
  {
    DirBelowResolved(cwd, workspace, "agent_workspace");
  }

  const RefusalText := "❌ 安全拦截：探测到越权操作！你试图将文件写入沙箱外部，已被系统拒绝。"

  datatype WriteDecision = Refused | Accepted(target: Segments) | Raised(error: string)

  /** Steps 1 and 2 of `write_local_file`: resolve `SANDBOX_DIR / file_path` and refuse any
      result that is not component-wise inside the sandbox. */
  function GuardWrite(sandbox: Segments, filePath: string): (d: WriteDecision)
    requires IsNormal(sandbox)
    ensures d.Raised? <==> '\0' in filePath
    ensures d.Accepted? ==> IsNormal(d.target) && IsRelativeTo(d.target, sandbox)
    ensures d.Accepted? ==> d.target == Resolve(sandbox, filePath)
    ensures d.Refused? ==> !IsRelativeTo(Resolve(sandbox, filePath), sandbox)
  {
    if '\0' in filePath then Raised(NulByteText)
    else
      var target := Resolve(sandbox, filePath);
      if IsRelativeTo(target, sandbox) then Accepted(target) else Refused
  }

  // ---- What the guard lets through and what it stops -------------------------------------

  /** A relative path that never climbs above its starting directory is written below the
      sandbox, at the sandbox followed by the walk of the path on its own. */
  lemma WriteStaysAccepted(sandbox: Segments, filePath: string)
    requires IsNormal(sandbox) && '\0' !in filePath
    requires !StartsWith(filePath, "/") && Stays(Parse(filePath).parts, 0)
    ensures GuardWrite(sandbox, filePath) == Accepted(sandbox + Collapse([], Parse(filePath).parts))
  {
    ResolveRelative(sandbox, filePath);
    CollapseStays(sandbox, [], Parse(filePath).parts);
    assert sandbox + [] == sandbox;
  }

  /** A relative path without `..` names exactly its own components below the sandbox. */
  lemma PlainPathAccepted(sandbox: Segments, filePath: string)
    requires IsNormal(sandbox) && '\0' !in filePath
    requires !StartsWith(filePath, "/") && ".." !in Parse(filePath).parts
    ensures GuardWrite(sandbox, filePath) == Accepted(sandbox + Parse(filePath).parts)
  {
    var parts := Parse(filePath).parts;
    assert IsNormal(parts) by {
      forall i | 0 <= i < |parts| ensures IsSegment(parts[i]) {
        assert parts[i] in parts;
      }
    }
    ResolveRelative(sandbox, filePath);
    CollapseOfNormal(sandbox, parts);
  }

  /** Climbing out of the sandbox with a leading `..` is refused unless the path walks straight
      back into the sandbox's own directory. */
  lemma ParentEscapeRefused(sandbox: Segments, filePath: string, rest: Segments)
    requires IsNormal(sandbox) && |sandbox| >= 1 && '\0' !in filePath
    requires !StartsWith(filePath, "/") && Parse(filePath).parts == [".."] + rest && IsNormal(rest)
    requires rest == [] || rest[0] != Name(sandbox)
    ensures GuardWrite(sandbox, filePath) == Refused
  {
    ResolveRelative(sandbox, filePath);
    var up := sandbox[..|sandbox| - 1];
    assert ([".."] + rest)[1..] == rest;
    CollapseOfNormal(up, rest);
    var t := up + rest;
    assert Resolve(sandbox, filePath) == t;
    if |t| >= |sandbox| {
      assert t[|sandbox| - 1] == rest[0];
    }
  }

  /** The guard's decision once the resolved target is known. */
  lemma GuardWriteOf(sandbox: Segments, filePath: string, t: Segments)
    requires IsNormal(sandbox) && '\0' !in filePath && Resolve(sandbox, filePath) == t
    ensures GuardWrite(sandbox, filePath) == if IsRelativeTo(t, sandbox) then Accepted(t) else Refused
  {
  }

  /** Climbing `m` levels out of the sandbox and then descending along `rest` is accepted
      exactly when `rest` walks back down through the `m` directories just left. */
  lemma ClimbRefused(sandbox: Segments, filePath: string, m: nat, rest: Segments)
    requires IsNormal(sandbox) && 1 <= m <= |sandbox| && '\0' !in filePath
    requires !StartsWith(filePath, "/") && Parse(filePath).parts == Ups(m) + rest
    requires IsNormal(rest)
    ensures GuardWrite(sandbox, filePath).Accepted? <==>
      |rest| >= m && rest[..m] == sandbox[|sandbox| - m..]
  {
    var t := sandbox[..|sandbox| - m] + rest;
    ClimbResolves(sandbox, filePath, m, rest);
    GuardWriteOf(sandbox, filePath, t);
    ClimbInside(sandbox, m, rest);
  }

  lemma ClimbResolves(sandbox: Segments, filePath: string, m: nat, rest: Segments)
    requires IsNormal(sandbox) && m <= |sandbox|
    requires !StartsWith(filePath, "/") && Parse(filePath).parts == Ups(m) + rest
    requires IsNormal(rest)
    ensures Resolve(sandbox, filePath) == sandbox[..|sandbox| - m] + rest
  {
    ResolveRelative(sandbox, filePath);
    CollapseAppend(sandbox, Ups(m), rest);
    ClimbUp(sandbox, m);
    CollapseOfNormal(sandbox[..|sandbox| - m], rest);
  }

  lemma ClimbInside(sandbox: Segments, m: nat, rest: Segments)
    requires 1 <= m <= |sandbox|
    ensures IsRelativeTo(sandbox[..|sandbox| - m] + rest, sandbox) <==>
      |rest| >= m && rest[..m] == sandbox[|sandbox| - m..]
  {
    var n := |sandbox|;
    var t := sandbox[..n - m] + rest;
    if |rest| >= m && rest[..m] == sandbox[n - m..] {
      assert t[..n] == sandbox[..n - m] + rest[..m];
      assert sandbox == sandbox[..n - m] + sandbox[n - m..];
    }
    if IsRelativeTo(t, sandbox) {
      assert t[..n] == sandbox;
      assert rest[..m] == t[n - m..n] == sandbox[n - m..];
    }
  }

  /** `m` consecutive `..` components. */
  function Ups(m: nat): Segments {
    if m == 0 then [] else [".."] + Ups(m - 1)
  }

  lemma {:induction false} ClimbUp(acc: Segments, m: nat)
    requires m <= |acc|
    ensures Collapse(acc, Ups(m)) == acc[..|acc| - m]
    decreases m
  {
    if m > 0 {
      ClimbUp(acc[..|acc| - 1], m - 1);
      assert acc[..|acc| - 1][..|acc| - m] == acc[..|acc| - m];
    }
  }

  /** An absolute path replaces the sandbox: it is refused as soon as its first component
      differs from the sandbox's. */
  lemma AbsoluteRefused(sandbox: Segments, filePath: string)
    requires IsNormal(sandbox) && |sandbox| >= 1 && '\0' !in filePath
    requires StartsWith(filePath, "/") && ".." !in Parse(filePath).parts
    requires Parse(filePath).parts == [] || Parse(filePath).parts[0] != sandbox[0]
    ensures GuardWrite(sandbox, filePath) == Refused
  {
    var parts := Parse(filePath).parts;
    assert IsNormal(parts) by {
      forall i | 0 <= i < |parts| ensures IsSegment(parts[i]) {
        assert parts[i] in parts;
      }
    }
    CollapseOfNormal([], parts);
    assert Resolve(sandbox, filePath) == parts;
  }

  lemma ParseDoubleParent(filePath: string)
    requires filePath == "../../etc/passwd"
    ensures Parse(filePath).parts == Ups(2) + ["etc", "passwd"]
    ensures !Parse(filePath).absolute
  {
    var pieces := ["..", "..", "etc", "passwd"];
    DoubleParentJoined(filePath);
    DoubleParentPieces(pieces);
    DoubleParentClean(pieces);
    ParseJoined(filePath, pieces);
  }

  lemma DoubleParentPieces(pieces: Segments)
    requires pieces == ["..", "..", "etc", "passwd"]
    ensures |pieces| >= 2 && NoSlash(pieces) && pieces[0] != ""
  {
  }

  lemma DoubleParentClean(pieces: Segments)
    requires pieces == ["..", "..", "etc", "passwd"]
    ensures Clean(pieces) == Ups(2) + ["etc", "passwd"]
  {
    CleanKeeps(pieces);
    assert Ups(2) == ["..", ".."];
  }

  lemma DoubleParentJoined(filePath: string)
    requires filePath == "../../etc/passwd"
    ensures filePath == Join(["..", "..", "etc", "passwd"], "/")
  {
    JoinFour("..", "..", "etc", "passwd", "/");
  }

  /** The classic `../../etc/passwd` never lands in the sandbox, whatever the working
      directory, including `/` itself, where both `..` stop at the root. */
  lemma DoubleParentRefused(cwd: Segments, filePath: string)
    requires IsNormal(cwd) && filePath == "../../etc/passwd"
    ensures GuardWrite(SandboxDir(cwd), filePath) == Refused
  {
    ParseDoubleParent(filePath);
    assert '\0' !in filePath;
    var sandbox := SandboxDir(cwd);
    var rest := ["etc", "passwd"];
    assert IsNormal(rest);
    if cwd == [] {
      assert Resolve(sandbox, filePath) == rest by {
        ClimbResolvesAtRoot(sandbox, filePath, rest);
      }
      GuardWriteOf(sandbox, filePath, rest);
    } else {
      ClimbRefused(sandbox, filePath, 2, rest);
      assert rest[1] != sandbox[|sandbox| - 2..][1];
    }
  }

  /** From a directory one level below `/`, two `..` both end at the root. */
  lemma ClimbResolvesAtRoot(sandbox: Segments, filePath: string, rest: Segments)
    requires IsNormal(sandbox) && |sandbox| == 1
    requires !StartsWith(filePath, "/") && Parse(filePath).parts == Ups(2) + rest
    requires IsNormal(rest)
    ensures Resolve(sandbox, filePath) == rest
  {
    ResolveRelative(sandbox, filePath);
    CollapseAppend(sandbox, Ups(2), rest);
    assert Ups(2) == ["..", ".."];
    assert Collapse(sandbox, Ups(2)) == [];
    CollapseOfNormal([], rest);
    assert [] + rest == rest;
  }

  // ---- The write itself ------------------------------------------------------------------

  /** The operating-system errors the mkdir and the open can raise, with CPython's `str(e)`
      on Linux. */
  datatype OsError = FileExists(path: Segments) | NotADirectory(path: Segments) | IsADirectory(path: Segments)

  /** `"[Errno %d] %s: %r"`: the file name is shown by its `repr`. */
  function OsErrorText(e: OsError): string {
    match e
    case FileExists(p) => "[Errno 17] File exists: " + PyRepr(Render(p))
    case NotADirectory(p) => "[Errno 20] Not a directory: " + PyRepr(Render(p))
    case IsADirectory(p) => "[Errno 21] Is a directory: " + PyRepr(Render(p))
  }

  function FailureText(error: string): string {
    "写入文件出错: " + error
  }

  function SuccessText(target: Segments): string {
    "✅ 成功！报告已安全写入沙箱: " + Render(target)
  }

  /** `p.parent`; the parent of `/` is `/`. */
  function Parent(p: Segments): Segments {
    if p == [] then [] else p[..|p| - 1]
  }

  /** The directories `mkdir(parents=True)` makes sure exist for `p`: `p` and its ancestors. */
  function Ancestors(p: Segments): set<Segments> {
    set k | 1 <= k <= |p| :: p[..k]
  }

  /** A tree: nothing is both a file and a directory, `/` is not a file, and everything sits
      in existing directories. */
  ghost predicate Tree(files: map<Segments, string>, dirs: set<Segments>) {
    [] !in files &&
    (forall p :: p in files ==> p !in dirs) &&
    (forall p, k :: p in files && 0 < k < |p| ==> p[..k] in dirs) &&
    (forall p, k :: p in dirs && 0 < k < |p| ==> p[..k] in dirs)
  }

  /** The file-system state the write tool sees: regular files with their text and the
      directories, `/` being a directory implicitly. */
  class Disk {
    var files: map<Segments, string>
    var dirs: set<Segments>

    ghost predicate Valid()
      reads this
    {
      Tree(files, dirs)
    }

    /** A disk holding the given tree. */
    constructor (files0: map<Segments, string>, dirs0: set<Segments>)
      requires Tree(files0, dirs0)
      ensures Valid() && files == files0 && dirs == dirs0
    {
      files := files0;
      dirs := dirs0;
    }

    predicate IsDir(p: Segments)
      reads this
    {
      p == [] || p in dirs
    }

    /** `mkdir(parents=True, exist_ok=True)` on `p` fails when `p` or one of its ancestors is
        a regular file. */
    predicate MkdirBlocked(p: Segments)
      reads this
    {
      exists k :: 1 <= k <= |p| && p[..k] in files
    }

    /** The whole of `write_local_file`: the guard, then the mkdir of the parent, then the
        write. Refused and failing calls return their message; only an accepted target is
        ever created or overwritten, and nothing outside the sandbox changes. */
    method WriteLocalFile(sandbox: Segments, filePath: string, content: string) returns (reply: string)
      requires Valid() && IsNormal(sandbox)
      modifies this
      ensures Valid()
      ensures GuardWrite(sandbox, filePath).Raised? ==>
        reply == FailureText(NulByteText) && files == old(files) && dirs == old(dirs)
      ensures GuardWrite(sandbox, filePath).Refused? ==>
        reply == RefusalText && files == old(files) && dirs == old(dirs)
      ensures GuardWrite(sandbox, filePath).Accepted? ==>
        var t := GuardWrite(sandbox, filePath).target;
        if old(MkdirBlocked(Parent(t))) then
          files == old(files) && dirs == old(dirs) &&
          reply == FailureText(OsErrorText(
            if Parent(t) in old(files) then FileExists(Parent(t)) else NotADirectory(Parent(t))))
        else
          dirs == old(dirs) + Ancestors(Parent(t)) &&
          if old(IsDir(t)) then
            files == old(files) && reply == FailureText(OsErrorText(IsADirectory(t)))
          else
            files == old(files)[t := content] && reply == SuccessText(t)
      ensures forall p :: p in files && (p !in old(files) || files[p] != old(files)[p]) ==>
        IsRelativeTo(p, sandbox)
    {
      var d := GuardWrite(sandbox, filePath);
      if d.Raised? {
        return FailureText(d.error);
      }
      if d.Refused? {
        return RefusalText;
      }
      var t := d.target;
      var parent := Parent(t);
      if MkdirBlocked(parent) {
        var e := if parent in files then FileExists(parent) else NotADirectory(parent);
        return FailureText(OsErrorText(e));
      }
      AncestorsClosed(parent);
      dirs := dirs + Ancestors(parent);
      if IsDir(t) {
        return FailureText(OsErrorText(IsADirectory(t)));
      }
      assert forall k :: 0 < k < |t| ==> t[..k] == parent[..k];
      files := files[t := content];
      reply := SuccessText(t);
    }
  }

  lemma AncestorsClosed(p: Segments)
    ensures forall q, k :: q in Ancestors(p) && 0 < k < |q| ==> q[..k] in Ancestors(p)
  {
    forall q, k | q in Ancestors(p) && 0 < k < |q| ensures q[..k] in Ancestors(p) {
      var j :| 1 <= j <= |p| && q == p[..j];
      assert q[..k] == p[..k];
    }
  }
}
