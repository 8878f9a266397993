/** The virtual-path sandbox shared by the two filesystem servers: each allowed real
    directory is published as a virtual root `/data/a`, `/data/b`, ..., and every path a
    tool receives is mapped back to a real path and confined to the allowed directories.
    The operating system's path primitives are parameters (`PathOps`). */
module Sandbox {
  import opened Common
  import opened Errors

  /** `os.path.expanduser`, `abspath`, `normpath`, `realpath` (`None` when it raises
      `FileNotFoundError`), `dirname` and `exists`, as the host answers them. */
  datatype PathOps = PathOps(
    expandUser: string -> string,
    absPath: string -> string,
    normPath: string -> string,
    realPath: string -> Option<string>,
    dirName: string -> string,
    pathExists: string -> bool)

  const DataPrefix: string := "/data/"

  /** `chr(97 + i)` must stay below the surrogate code points to be a character. */
  const MaxDirs: nat := 0xD800 - 97

  const NotValidPathText: string := "Not a valid path (List allowed directories for valid paths): "
  const AccessDenied: string := "Access denied"
  const ParentNotFound: string := "Parent directory not found"

  /** The virtual root of the i-th allowed directory: `f"/data/{chr(97 + i)}"`. */
  function VirtualRoot(i: nat): string
    requires i < MaxDirs
  {
    DataPrefix + [(97 + i) as char]
  }

  /** `p.startswith(d + "/") or p == d`: the test used both for a virtual root and for an
      allowed real directory (`os.sep` is `/`). */
  predicate AtOrBelow(p: string, d: string)
  {
    d + "/" <= p || p == d
  }

  /** `any(p.startswith(d + os.sep) or p == d for d in dirs)`. */
  predicate UnderAny(p: string, dirs: seq<string>)
  {
    exists k :: 0 <= k < |dirs| && AtOrBelow(p, dirs[k])
  }

  /** `s.lstrip("/")`: the longest suffix of `s` that does not start with `/`. */
  function StripSlashes(s: string): (r: string)
    ensures |r| <= |s| && r == s[|s| - |r|..]
    ensures r == [] || r[0] != '/'
    ensures forall k :: 0 <= k < |s| - |r| ==> s[k] == '/'
    decreases |s|
  {
    if s != [] && s[0] == '/' then StripSlashes(s[1..]) else s
  }

  /** `os.path.join(a, b)` on POSIX for one further component. */
  function JoinPath(a: string, b: string): string
  {
    if b != [] && b[0] == '/' then b
    else if a == [] || a[|a| - 1] == '/' then a + b
    else a + "/" + b
  }

  /** `os.path.join(real_dir, relative) if relative else real_dir`. */
  function MappedPath(realDir: string, relative: string): string
  {
    if relative != "" then JoinPath(realDir, relative) else realDir
  }

  /** The index of the first virtual root that `vp` is at or below, searching from `from`. */
  function FindRoot(table: seq<(string, string)>, vp: string, from: nat): (r: Option<nat>)
    requires from <= |table|
    ensures r.Some? ==> from <= r.value < |table| && AtOrBelow(vp, table[r.value].0)
    ensures r.Some? ==> forall k :: from <= k < r.value ==> !AtOrBelow(vp, table[k].0)
    ensures r.None? <==> forall k :: from <= k < |table| ==> !AtOrBelow(vp, table[k].0)
    decreases |table| - from
  {
    if from == |table| then None
    else if AtOrBelow(vp, table[from].0) then Some(from)
    else FindRoot(table, vp, from + 1)
  }

  /** The second half of `validate_virtual_path`: resolve symbolic links and keep the result
      inside an allowed directory; for a target that does not exist, check its parent. */
  function Confine(os: PathOps, allowed: seq<string>, realPath: string): Result<string, Exc>
  {
    match os.realPath(realPath)
    case Some(resolved) =>
      if UnderAny(resolved, allowed) then Ok(resolved) else Err(PermissionDenied(AccessDenied))
    case None =>
      match os.realPath(os.dirName(realPath))
      case None => Err(FileNotFound(NoSuchFile))
      case Some(parent) =>
        if !os.pathExists(parent) then Err(FileNotFound(ParentNotFound))
        else if UnderAny(parent, allowed) then Ok(realPath)
        else Err(PermissionDenied(AccessDenied))
  }

  /** `validate_virtual_path(virtual_path)` against the directory tables. */
  function Resolve(os: PathOps, allowed: seq<string>, table: seq<(string, string)>, vp: string): Result<string, Exc>
  {
    match FindRoot(table, vp, 0)
    case None => Err(Custom(NotValidPathText + vp))
    case Some(k) =>
      var relative := StripSlashes(vp[|table[k].0|..]);
      Confine(os, allowed, os.normPath(os.absPath(MappedPath(table[k].1, relative))))
  }

  /** `[os.path.abspath(os.path.expanduser(d)) for d in real_dirs]`. */
  function AbsoluteDirs(os: PathOps, realDirs: seq<string>): (dirs: seq<string>)
    ensures |dirs| == |realDirs|
  {
    seq(|realDirs|, k requires 0 <= k < |realDirs| => os.absPath(os.expandUser(realDirs[k])))
  }

  /** `_virtual_to_real`, a dictionary in insertion order: the i-th directory under the i-th root. */
  function RootTable(dirs: seq<string>): (table: seq<(string, string)>)
    requires |dirs| <= MaxDirs
    ensures |table| == |dirs|
  {
    seq(|dirs|, i requires 0 <= i < |dirs| => (VirtualRoot(i), dirs[i]))
  }

  /** `{real: virtual for virtual, real in table.items()}`: a later entry overwrites an
      earlier one with the same real directory. */
  function Inverse(table: seq<(string, string)>): map<string, string>
    decreases |table|
  {
    if table == [] then map[]
    else Inverse(table[..|table| - 1])[table[|table| - 1].1 := table[|table| - 1].0]
  }

  /** The configured directories: the module-level globals of a server. */
  class Sandbox {
    var allowedRealDirs: seq<string>
    var virtualToReal: seq<(string, string)>
    var realToVirtual: map<string, string>

    ghost predicate Valid()
      reads this
    {
      |allowedRealDirs| <= MaxDirs
      && virtualToReal == RootTable(allowedRealDirs)
      && realToVirtual == Inverse(virtualToReal)
    }

    /** The globals before `set_allowed_dirs` runs: no directory is allowed. */
    constructor ()
      ensures Valid()
      ensures allowedRealDirs == [] && virtualToReal == [] && realToVirtual == map[]
    {
      allowedRealDirs := [];
      virtualToReal := [];
      realToVirtual := map[];
    }

    /** `set_allowed_dirs(real_dirs)`: rebinds all three tables. */
    method SetAllowedDirs(os: PathOps, realDirs: seq<string>)
      requires |realDirs| <= MaxDirs
      modifies this
      ensures Valid()
      ensures allowedRealDirs == AbsoluteDirs(os, realDirs)
      ensures forall i :: 0 <= i < |realDirs| ==> virtualToReal[i] == (VirtualRoot(i), allowedRealDirs[i])
    {
      allowedRealDirs := AbsoluteDirs(os, realDirs);
      virtualToReal := RootTable(allowedRealDirs);
      realToVirtual := Inverse(virtualToReal);
    }

    /** `validate_virtual_path(virtual_path)`: the first root the path is at or below
        selects the real directory; the rest of the path, without leading slashes, is
        joined beneath it, and the result must stay in an allowed directory. */
    method ValidateVirtualPath(os: PathOps, vp: string) returns (r: Result<string, Exc>)
      ensures r == Resolve(os, allowedRealDirs, virtualToReal, vp)
    {
      var table := virtualToReal;
      var i := 0;
      while i < |table|
        invariant 0 <= i <= |table|
        invariant forall k :: 0 <= k < i ==> !AtOrBelow(vp, table[k].0)
      {
        if AtOrBelow(vp, table[i].0) {
          break;
        }
        i := i + 1;
      }
      if i == |table| {
        assert FindRoot(table, vp, 0).None?;
        return Err(Custom(NotValidPathText + vp));
      }
      assert FindRoot(table, vp, 0) == Some(i);
      var virtualDir, realDir := table[i].0, table[i].1;
      var relative := StripSlashes(vp[|virtualDir|..]);
      var realPath := if relative != "" then JoinPath(realDir, relative) else realDir;
      realPath := os.normPath(os.absPath(realPath));
      assert Resolve(os, allowedRealDirs, table, vp) == Confine(os, allowedRealDirs, realPath);
      var resolved := os.realPath(realPath);
      if resolved.Some? {
        if UnderAny(resolved.value, allowedRealDirs) {
          return Ok(resolved.value);
        }
        return Err(PermissionDenied(AccessDenied));
      }
      var realParent := os.realPath(os.dirName(realPath));
      if realParent.None? {
        return Err(FileNotFound(NoSuchFile));
      }
      if !os.pathExists(realParent.value) {
        return Err(FileNotFound(ParentNotFound));
      }
      if UnderAny(realParent.value, allowedRealDirs) {
        return Ok(realPath);
      }
      return Err(PermissionDenied(AccessDenied));
    }
  }

  /** Distinct directories get distinct roots, each `/data/` followed by one character. */
  lemma RootsDistinct(dirs: seq<string>)
    requires |dirs| <= MaxDirs
    ensures forall i :: 0 <= i < |dirs| ==> |RootTable(dirs)[i].0| == 7 && DataPrefix <= RootTable(dirs)[i].0
    ensures forall i, j :: 0 <= i < j < |dirs| ==> RootTable(dirs)[i].0 != RootTable(dirs)[j].0
  {
    var t := RootTable(dirs);
    forall i, j | 0 <= i < j < |dirs|
      ensures t[i].0 != t[j].0
    {
      assert t[i].0[6] != t[j].0[6];
    }
  }

  /** A path is at or below at most one of the generated roots, so the first match is the
      only one; `/data/ab` is at or below no root `/data/a`. */
  lemma AtMostOneRootMatches(dirs: seq<string>, vp: string)
    requires |dirs| <= MaxDirs
    ensures forall i, j ::
              (0 <= i < |dirs| && 0 <= j < |dirs| && AtOrBelow(vp, RootTable(dirs)[i].0) && AtOrBelow(vp, RootTable(dirs)[j].0))
              ==> i == j
    ensures !AtOrBelow("/data/ab", "/data/a")
  {
    var t := RootTable(dirs);
    RootsDistinct(dirs);
    forall i, j | 0 <= i < |dirs| && 0 <= j < |dirs| && AtOrBelow(vp, t[i].0) && AtOrBelow(vp, t[j].0)
      ensures i == j
    {
      assert vp[..7] == t[i].0 by {
        assert t[i].0 == (t[i].0 + "/")[..7];
      }
      assert vp[..7] == t[j].0 by {
        assert t[j].0 == (t[j].0 + "/")[..7];
      }
    }
    assert ("/data/a" + "/")[7] == '/';
    assert "/data/ab"[7] == 'b';
  }

  /** A path at or below the i-th virtual root is mapped beneath the i-th allowed
      directory: the remainder after the root, stripped of leading slashes, is joined onto
      it, made absolute and normalized, and then confined. */
  lemma ResolveUsesItsRoot(os: PathOps, dirs: seq<string>, vp: string, i: nat)
    requires |dirs| <= MaxDirs && i < |dirs|
    requires AtOrBelow(vp, VirtualRoot(i))
    ensures Resolve(os, dirs, RootTable(dirs), vp)
      == Confine(os, dirs, os.normPath(os.absPath(MappedPath(dirs[i], StripSlashes(vp[|VirtualRoot(i)|..])))))
  {
    var t := RootTable(dirs);
    AtMostOneRootMatches(dirs, vp);
    assert t[i] == (VirtualRoot(i), dirs[i]);
    var found := FindRoot(t, vp, 0);
    assert found.Some?;
    assert found.value == i;
  }

  /** The keys of the reverse map are the real directories of the table. */
  lemma {:induction false} InverseKeys(table: seq<(string, string)>)
    ensures forall r :: r in Inverse(table) <==> exists k :: 0 <= k < |table| && table[k].1 == r
    decreases |table|
  {
    if table != [] {
      var front := table[..|table| - 1];
      InverseKeys(front);
      forall r | r in Inverse(table)
        ensures exists k :: 0 <= k < |table| && table[k].1 == r
      {
        if r != table[|table| - 1].1 {
          assert r in Inverse(front);
          var k :| 0 <= k < |front| && front[k].1 == r;
          assert table[k].1 == r;
        }
      }
      forall r | exists k :: 0 <= k < |table| && table[k].1 == r
        ensures r in Inverse(table)
      {
        var k :| 0 <= k < |table| && table[k].1 == r;
        if k < |front| {
          assert front[k].1 == r;
        }
      }
    }
  }

  /** The reverse map inverts the forward one: every real directory it maps to a virtual
      root is the directory the table gives for that root. */
  lemma {:induction false} InverseSound(table: seq<(string, string)>)
    ensures forall r :: r in Inverse(table) ==>
              exists k :: 0 <= k < |table| && table[k] == (Inverse(table)[r], r)
    decreases |table|
  {
    if table != [] {
      var front := table[..|table| - 1];
      var last := table[|table| - 1];
      InverseSound(front);
      forall r | r in Inverse(table)
        ensures exists k :: 0 <= k < |table| && table[k] == (Inverse(table)[r], r)
      {
        if r == last.1 {
          assert table[|table| - 1] == (Inverse(table)[r], r);
        } else {
          var k :| 0 <= k < |front| && front[k] == (Inverse(front)[r], r);
          assert table[k] == (Inverse(table)[r], r);
        }
      }
    }
  }

  /** With distinct real directories the reverse map sends each directory back to its own
      virtual root. */
  lemma {:induction false} InverseComplete(table: seq<(string, string)>)
    requires forall i, j :: 0 <= i < j < |table| ==> table[i].1 != table[j].1
    ensures forall k :: 0 <= k < |table| ==> table[k].1 in Inverse(table) && Inverse(table)[table[k].1] == table[k].0
    decreases |table|
  {
    if table != [] {
      var front := table[..|table| - 1];
      InverseComplete(front);
      forall k | 0 <= k < |table|
        ensures table[k].1 in Inverse(table) && Inverse(table)[table[k].1] == table[k].0
      {
        if k < |front| {
          assert front[k] == table[k];
        }
      }
    }
  }

  /** `validate_virtual_path` raises `CustomFileSystemError` exactly when the path is at
      or below no virtual root. */
  lemma ResolveRejectsUnrooted(os: PathOps, allowed: seq<string>, table: seq<(string, string)>, vp: string)
    ensures Resolve(os, allowed, table, vp) == Err(Custom(NotValidPathText + vp))
            <==> forall k :: 0 <= k < |table| ==> !AtOrBelow(vp, table[k].0)
    ensures Resolve(os, allowed, table, vp).Err? && Resolve(os, allowed, table, vp).error.Custom?
            ==> forall k :: 0 <= k < |table| ==> !AtOrBelow(vp, table[k].0)
  {
    var found := FindRoot(table, vp, 0);
    if found.Some? {
      var k := found.value;
      var relative := StripSlashes(vp[|table[k].0|..]);
      var realPath := os.normPath(os.absPath(MappedPath(table[k].1, relative)));
      assert Resolve(os, allowed, table, vp) == Confine(os, allowed, realPath);
      ConfineErrors(os, allowed, realPath);
    }
  }

  /** What the second half of `validate_virtual_path` lets through: the path's own resolution,
      lying in an allowed directory, or the path itself when it does not resolve and has an
      existing parent that resolves into one. */
  lemma ConfineConfined(os: PathOps, allowed: seq<string>, realPath: string)
    ensures Confine(os, allowed, realPath).Ok? ==>
      var p := Confine(os, allowed, realPath).value;
      (os.realPath(realPath) == Some(p) && UnderAny(p, allowed))
      || (p == realPath && os.realPath(p).None? && os.realPath(os.dirName(p)).Some?
          && os.pathExists(os.realPath(os.dirName(p)).value)
          && UnderAny(os.realPath(os.dirName(p)).value, allowed))
  {
    match os.realPath(realPath)
    case Some(resolved) =>
    case None =>
  }

  /** The accepting side of the second half of `validate_virtual_path`: a target that resolves
      is accepted exactly when it resolves into an allowed directory (and refused with "Access
      denied" otherwise); a target that does not resolve is accepted as it is when its parent
      resolves, exists and lies in an allowed directory. */
  lemma ConfineAccepts(os: PathOps, allowed: seq<string>, realPath: string)
    ensures os.realPath(realPath).Some? ==>
      Confine(os, allowed, realPath)
        == if UnderAny(os.realPath(realPath).value, allowed) then Ok(os.realPath(realPath).value)
           else Err(PermissionDenied(AccessDenied))
    ensures os.realPath(realPath).None? && os.realPath(os.dirName(realPath)).Some?
            && os.pathExists(os.realPath(os.dirName(realPath)).value)
            && UnderAny(os.realPath(os.dirName(realPath)).value, allowed) ==>
      Confine(os, allowed, realPath) == Ok(realPath)
  {
  }

  /** The accepting side of `validate_virtual_path`: a path under the i-th root whose mapped
      target resolves into an allowed directory is accepted as that resolved path; one whose
      target does not resolve, but whose parent resolves into an allowed directory and exists,
      is accepted as the mapped target itself. */
  lemma ResolveAccepts(os: PathOps, dirs: seq<string>, vp: string, i: nat)
    requires |dirs| <= MaxDirs && i < |dirs|
    requires AtOrBelow(vp, VirtualRoot(i))
    ensures var target := os.normPath(os.absPath(MappedPath(dirs[i], StripSlashes(vp[|VirtualRoot(i)|..]))));
      os.realPath(target).Some? ==>
        Resolve(os, dirs, RootTable(dirs), vp)
          == if UnderAny(os.realPath(target).value, dirs) then Ok(os.realPath(target).value)
             else Err(PermissionDenied(AccessDenied))
    ensures var target := os.normPath(os.absPath(MappedPath(dirs[i], StripSlashes(vp[|VirtualRoot(i)|..]))));
      os.realPath(target).None? && os.realPath(os.dirName(target)).Some?
      && os.pathExists(os.realPath(os.dirName(target)).value)
      && UnderAny(os.realPath(os.dirName(target)).value, dirs) ==>
        Resolve(os, dirs, RootTable(dirs), vp) == Ok(target)
  {
    var target := os.normPath(os.absPath(MappedPath(dirs[i], StripSlashes(vp[|VirtualRoot(i)|..]))));
    var resolved := Resolve(os, dirs, RootTable(dirs), vp);
    ResolveUsesItsRoot(os, dirs, vp, i);
    assert resolved == Confine(os, dirs, target);
    ConfineAccepts(os, dirs, target);
  }

  /** The rejecting side of the fallback in `validate_virtual_path`: a target that does not
      resolve fails with `realpath`'s own "No such file or directory" when its parent does not
      resolve either, and with "Parent directory not found" when the parent resolves but does
      not exist. */
  lemma ConfineRejects(os: PathOps, allowed: seq<string>, realPath: string)
    ensures os.realPath(realPath).None? && os.realPath(os.dirName(realPath)).None? ==>
      Confine(os, allowed, realPath) == Err(FileNotFound(NoSuchFile))
    ensures os.realPath(realPath).None? && os.realPath(os.dirName(realPath)).Some?
            && !os.pathExists(os.realPath(os.dirName(realPath)).value) ==>
      Confine(os, allowed, realPath) == Err(FileNotFound(ParentNotFound))
    ensures os.realPath(realPath).None? && os.realPath(os.dirName(realPath)).Some?
            && os.pathExists(os.realPath(os.dirName(realPath)).value)
            && !UnderAny(os.realPath(os.dirName(realPath)).value, allowed) ==>
      Confine(os, allowed, realPath) == Err(PermissionDenied(AccessDenied))
  {
  }

  /** The rejecting side of `validate_virtual_path` for a path under the i-th root whose mapped
      target does not resolve: the parent decides, as in `Sandbox.ConfineRejects`. */
  lemma ResolveRejects(os: PathOps, dirs: seq<string>, vp: string, i: nat)
    requires |dirs| <= MaxDirs && i < |dirs|
    requires AtOrBelow(vp, VirtualRoot(i))
    ensures var target := os.normPath(os.absPath(MappedPath(dirs[i], StripSlashes(vp[|VirtualRoot(i)|..]))));
      os.realPath(target).None? && os.realPath(os.dirName(target)).None? ==>
        Resolve(os, dirs, RootTable(dirs), vp) == Err(FileNotFound(NoSuchFile))
    ensures var target := os.normPath(os.absPath(MappedPath(dirs[i], StripSlashes(vp[|VirtualRoot(i)|..]))));
      os.realPath(target).None? && os.realPath(os.dirName(target)).Some?
      && !os.pathExists(os.realPath(os.dirName(target)).value) ==>
        Resolve(os, dirs, RootTable(dirs), vp) == Err(FileNotFound(ParentNotFound))
    ensures var target := os.normPath(os.absPath(MappedPath(dirs[i], StripSlashes(vp[|VirtualRoot(i)|..]))));
      os.realPath(target).None? && os.realPath(os.dirName(target)).Some?
      && os.pathExists(os.realPath(os.dirName(target)).value)
      && !UnderAny(os.realPath(os.dirName(target)).value, dirs) ==>
        Resolve(os, dirs, RootTable(dirs), vp) == Err(PermissionDenied(AccessDenied))
  {
    var target := os.normPath(os.absPath(MappedPath(dirs[i], StripSlashes(vp[|VirtualRoot(i)|..]))));
    var resolved := Resolve(os, dirs, RootTable(dirs), vp);
    ResolveUsesItsRoot(os, dirs, vp, i);
    assert resolved == Confine(os, dirs, target);
    ConfineRejects(os, dirs, target);
  }

  /** Every path `validate_virtual_path` returns either resolves into an allowed directory,
      or does not resolve at all and has an existing parent that resolves into one. */
  lemma ResolveConfined(os: PathOps, allowed: seq<string>, table: seq<(string, string)>, vp: string)
    ensures Resolve(os, allowed, table, vp).Ok? ==>
      var p := Resolve(os, allowed, table, vp).value;
      UnderAny(p, allowed)
      || (os.realPath(p).None? && os.realPath(os.dirName(p)).Some?
          && os.pathExists(os.realPath(os.dirName(p)).value)
          && UnderAny(os.realPath(os.dirName(p)).value, allowed))
  {
    var found := FindRoot(table, vp, 0);
    if found.Some? {
      var k := found.value;
      var realPath := os.normPath(os.absPath(MappedPath(table[k].1, StripSlashes(vp[|table[k].0|..]))));
      assert Resolve(os, allowed, table, vp) == Confine(os, allowed, realPath);
      ConfineConfined(os, allowed, realPath);
    }
  }

  /** The failures of the second half of `validate_virtual_path`: a resolved path or parent
      outside every allowed directory, or a parent that is missing. */
  lemma ConfineErrors(os: PathOps, allowed: seq<string>, realPath: string)
    ensures Confine(os, allowed, realPath).Err? ==>
      var e := Confine(os, allowed, realPath).error;
      e == PermissionDenied(AccessDenied) || e == FileNotFound(ParentNotFound) || e == FileNotFound(NoSuchFile)
  {
    match os.realPath(realPath)
    case Some(resolved) =>
    case None =>
  }

  /** The failures of `validate_virtual_path`: an unrooted path, a resolved path or parent
      outside every allowed directory, or a parent that is missing. */
  lemma ResolveErrors(os: PathOps, allowed: seq<string>, table: seq<(string, string)>, vp: string)
    ensures Resolve(os, allowed, table, vp).Err? ==>
      var e := Resolve(os, allowed, table, vp).error;
      e == Custom(NotValidPathText + vp) || e == PermissionDenied(AccessDenied)
      || e == FileNotFound(ParentNotFound) || e == FileNotFound(NoSuchFile)
  {
    var found := FindRoot(table, vp, 0);
    if found.Some? {
      var k := found.value;
      var realPath := os.normPath(os.absPath(MappedPath(table[k].1, StripSlashes(vp[|table[k].0|..]))));
      assert Resolve(os, allowed, table, vp) == Confine(os, allowed, realPath);
      ConfineErrors(os, allowed, realPath);
    }
  }

  /** The remainder after a root, with its leading slashes removed, is joined beneath the
      real directory; an empty remainder maps to the directory itself. */
  lemma MappedPathBelow(realDir: string, rest: string)
    requires realDir != "" && realDir[|realDir| - 1] != '/'
    ensures AtOrBelow(MappedPath(realDir, StripSlashes(rest)), realDir)
    ensures StripSlashes(rest) == "" ==> MappedPath(realDir, StripSlashes(rest)) == realDir
    ensures StripSlashes(rest) != "" ==> MappedPath(realDir, StripSlashes(rest)) == realDir + "/" + StripSlashes(rest)
  {
    var relative := StripSlashes(rest);
    if relative != "" {
      assert MappedPath(realDir, relative) == (realDir + "/") + relative;
    }
  }

  /** The containment test with `/` itself as an allowed directory admits only `/` and
      paths that start with `//`: `/etc` is not inside `/` by this test. */
  lemma RootDirectoryContainsOnlyItself(p: string)
    ensures AtOrBelow(p, "/") <==> p == "/" || "//" <= p
    ensures !AtOrBelow("/etc", "/")
  {
    assert "/" + "/" == "//";
    assert "/etc"[1] == 'e';
  }
}
