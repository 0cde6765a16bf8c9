/** Name resolution with mounts, and the operations that change the name space. */
module Vfs {
  import opened VfsPath
  import opened Wrappers

  /** A file node: a virtual directory, or any other node with its own lookup. */
  datatype Node = VirtDir(files: map<string, nat>) | Foreign(isDir: bool, find: string -> Option<nat>)

  /** All nodes, and the root node of the partition mounted at each path. */
  datatype Fs = Fs(nodes: map<nat, Node>, parts: map<string, nat>)

  predicate IsDir(fs: Fs, n: nat) {
    n in fs.nodes && (fs.nodes[n].VirtDir? || fs.nodes[n].isDir)
  }

  /** `node.walk(name)`. */
  function WalkNode(fs: Fs, n: nat, name: string): Option<nat> {
    if n !in fs.nodes then None
    else match fs.nodes[n]
      case VirtDir(files) => if name in files then Some(files[name]) else None
      case Foreign(_, find) => find(name)
  }

  datatype Cursor = Cursor(stack: seq<nat>, pathNow: string)

  function Top(fs: Fs, c: Cursor): nat
    requires "/" in fs.parts
  {
    if c.stack == [] then fs.parts["/"] else c.stack[|c.stack| - 1]
  }

  /** One part of the path; `None` is an error. */
  function WalkStep(fs: Fs, c: Cursor, part: string): Option<Cursor>
    requires "/" in fs.parts
  {
    if !IsDir(fs, Top(fs, c)) then None
    else if Normal(part) then
      var path := PushPart(c.pathNow, part);
      if path in fs.parts then Some(Cursor(c.stack + [fs.parts[path]], path))
      else
        var n := WalkNode(fs, Top(fs, c), part);
        if n.None? then None else Some(Cursor(c.stack + [n.value], path))
    else if part == ".." && c.stack != [] then
      Some(Cursor(c.stack[..|c.stack| - 1], PopPart(c.pathNow)))
    else Some(c)
  }

  function WalkParts(fs: Fs, parts: seq<string>): Option<Cursor>
    requires "/" in fs.parts
  {
    if parts == [] then Some(Cursor([], ""))
    else
      var c := WalkParts(fs, parts[..|parts| - 1]);
      if c.None? then None else WalkStep(fs, c.value, parts[|parts| - 1])
  }

  /** `walk`: the node at `path`. */
  function Walk(fs: Fs, path: string): Option<nat> {
    if "/" !in fs.parts then None
    else
      var c := WalkParts(fs, Split(path));
      if c.None? then None else Some(Top(fs, c.value))
  }

  function Last<T>(xs: seq<T>): T
    requires xs != []
  {
    xs[|xs| - 1]
  }

  function Init<T>(xs: seq<T>): seq<T>
    requires xs != []
  {
    xs[..|xs| - 1]
  }

  /** `walk_parent`: stops before the last part if that part is a name. */
  function WalkParent(fs: Fs, path: string): Option<nat> {
    var parts := Split(path);
    if "/" !in fs.parts then None
    else if !Normal(Last(parts)) then Walk(fs, path)
    else
      var c := WalkParts(fs, Init(parts));
      if c.None? || !IsDir(fs, Top(fs, c.value)) then None else Some(Top(fs, c.value))
  }

  function GetFileName(path: string): Option<string> {
    if Normal(Last(Split(path))) then Some(Last(Split(path))) else None
  }

  // ---- Resolution of names ----

  /** Resolving a list of names from the root, mounts first. */
  function Resolve(fs: Fs, names: seq<string>): Option<nat>
    requires "/" in fs.parts
  {
    if names == [] then Some(fs.parts["/"])
    else
      var d := Resolve(fs, names[..|names| - 1]);
      if d.None? || !IsDir(fs, d.value) then None
      else if Join(names) in fs.parts then Some(fs.parts[Join(names)])
      else WalkNode(fs, d.value, names[|names| - 1])
  }

  ghost predicate Follows(fs: Fs, c: Cursor, names: seq<string>)
    requires "/" in fs.parts
  {
    && Names(names) && Tracks(c.pathNow, names) && |c.stack| == |names|
    && forall i {:trigger c.stack[i]} :: 0 <= i < |names| ==> Resolve(fs, names[..i + 1]) == Some(c.stack[i])
  }

  lemma FollowsTop(fs: Fs, c: Cursor, names: seq<string>)
    requires "/" in fs.parts && Follows(fs, c, names)
    ensures Resolve(fs, names) == Some(Top(fs, c))
  {
    if names != [] {
      var i := |names| - 1;
      assert c.stack[i] == Top(fs, c);
      assert names[..i + 1] == names;
    }
  }

  /** One step of the walk follows one step of the normalisation. */
  lemma StepFollows(fs: Fs, c: Cursor, names: seq<string>, part: string)
    requires "/" in fs.parts && Follows(fs, c, names) && NoSlash(part)
    ensures WalkStep(fs, c, part).Some? <==>
              IsDir(fs, Top(fs, c)) && Resolve(fs, NormStep(names, part)).Some?
    ensures WalkStep(fs, c, part).Some? ==> Follows(fs, WalkStep(fs, c, part).value, NormStep(names, part))
  {
    FollowsTop(fs, c, names);
    if Normal(part) {
      PushFollows(fs, c, names, part);
    } else if part == ".." && names != [] {
      PopFollows(fs, c, names);
      assert WalkStep(fs, c, part).Some? ==>
          WalkStep(fs, c, part).value == Cursor(c.stack[..|c.stack| - 1], PopPart(c.pathNow));
    }
  }

  lemma PushFollows(fs: Fs, c: Cursor, names: seq<string>, part: string)
    requires "/" in fs.parts && Follows(fs, c, names) && NoSlash(part) && Normal(part)
    ensures WalkStep(fs, c, part).Some? <==>
              IsDir(fs, Top(fs, c)) && Resolve(fs, NormStep(names, part)).Some?
    ensures WalkStep(fs, c, part).Some? ==> Follows(fs, WalkStep(fs, c, part).value, NormStep(names, part))
  {
    hide PushPart, PopPart, Join, Tracks;
    FollowsTop(fs, c, names);
    var names' := NormStep(names, part);
    PushTracks(c.pathNow, names, part);
    assert names'[..|names'| - 1] == names;
    if WalkStep(fs, c, part).Some? {
      var c' := WalkStep(fs, c, part).value;
      forall i | 0 <= i < |names'| ensures Resolve(fs, names'[..i + 1]) == Some(c'.stack[i]) {
        if i < |names| {
          assert names'[..i + 1] == names[..i + 1];
          assert c'.stack[i] == c.stack[i];
        } else {
          assert names'[..i + 1] == names';
        }
      }
    }
  }

  lemma PopFollows(fs: Fs, c: Cursor, names: seq<string>)
    requires "/" in fs.parts && Follows(fs, c, names) && names != []
    ensures Follows(fs, Cursor(c.stack[..|c.stack| - 1], PopPart(c.pathNow)), names[..|names| - 1])
    ensures Resolve(fs, names[..|names| - 1]).Some?
  {
    hide PushPart, PopPart, Join, Tracks, Resolve;
    PopTracks(c.pathNow, names);
    var names' := names[..|names| - 1];
    var c' := Cursor(c.stack[..|c.stack| - 1], PopPart(c.pathNow));
    forall i | 0 <= i < |names'| ensures Resolve(fs, names'[..i + 1]) == Some(c'.stack[i]) {
      assert names'[..i + 1] == names[..i + 1];
      assert c'.stack[i] == c.stack[i];
    }
    FollowsTop(fs, c', names');
  }

  /** The walk keeps the join of its names, and every node on its stack is what these
      names resolve to, also after ".." out of a mounted partition. */
  lemma {:induction false} WalkFollows(fs: Fs, parts: seq<string>)
    requires "/" in fs.parts && WalkParts(fs, parts).Some?
    requires forall i :: 0 <= i < |parts| ==> NoSlash(parts[i])
    ensures Follows(fs, WalkParts(fs, parts).value, Normalize(parts))
  {
    hide WalkStep, Follows;
    if parts == [] {
      assert Follows(fs, Cursor([], ""), []) by { StartFollows(fs); }
    } else {
      var init := parts[..|parts| - 1];
      WalkFollows(fs, init);
      StepFollows(fs, WalkParts(fs, init).value, Normalize(init), parts[|parts| - 1]);
    }
  }

  lemma StartFollows(fs: Fs)
    requires "/" in fs.parts
    ensures Follows(fs, Cursor([], ""), [])
  {}

  /** The location before part `k` is a directory, and the final location exists. */
  ghost predicate Passable(fs: Fs, parts: seq<string>)
    requires "/" in fs.parts
  {
    && (forall k {:trigger parts[..k]} :: 0 <= k < |parts| ==>
          Resolve(fs, Normalize(parts[..k])).Some? && IsDir(fs, Resolve(fs, Normalize(parts[..k])).value))
    && Resolve(fs, Normalize(parts)).Some?
  }

  lemma {:induction false} WalkPassable(fs: Fs, parts: seq<string>)
    requires "/" in fs.parts
    requires forall i :: 0 <= i < |parts| ==> NoSlash(parts[i])
    ensures WalkParts(fs, parts).Some? <==> Passable(fs, parts)
  {
    hide WalkStep, Follows, Resolve, Normalize;
    if parts == [] {
      assert Normalize([]) == [] by { NormalizeNothing(); }
      assert Resolve(fs, []).Some? by { ResolveRoot(fs); }
    } else {
      var n := |parts| - 1;
      var init := parts[..n];
      WalkPassable(fs, init);
      NormalizeLast(parts);
      assert forall k :: 0 <= k <= n ==> parts[..k] == init[..k];
      assert init[..n] == init;
      if WalkParts(fs, init).Some? {
        WalkFollows(fs, init);
        var c := WalkParts(fs, init).value;
        FollowsTop(fs, c, Normalize(init));
        StepFollows(fs, c, Normalize(init), parts[n]);
        assert Passable(fs, parts) ==> IsDir(fs, Top(fs, c)) by {
          if Passable(fs, parts) { assert parts[..n] == init; }
        }
        if WalkStep(fs, c, parts[n]).Some? {
          forall k | 0 <= k < |parts|
            ensures Resolve(fs, Normalize(parts[..k])).Some? && IsDir(fs, Resolve(fs, Normalize(parts[..k])).value)
          {
            if k < n { assert parts[..k] == init[..k]; } else { assert parts[..k] == init; }
          }
        }
      } else if Passable(fs, parts) {
        PassablePrefix(fs, parts);
      }
    }
  }

  lemma PassablePrefix(fs: Fs, parts: seq<string>)
    requires "/" in fs.parts && parts != [] && Passable(fs, parts)
    ensures Passable(fs, parts[..|parts| - 1])
  {
    hide Resolve, Normalize;
    var init := parts[..|parts| - 1];
    forall k | 0 <= k < |init|
      ensures Resolve(fs, Normalize(init[..k])).Some? && IsDir(fs, Resolve(fs, Normalize(init[..k])).value)
    {
      assert init[..k] == parts[..k];
    }
  }

  lemma NormalizeNothing()
    ensures Normalize([]) == []
  {}

  lemma ResolveRoot(fs: Fs)
    requires "/" in fs.parts
    ensures Resolve(fs, []) == Some(fs.parts["/"])
  {}

  lemma NormalizeLast(parts: seq<string>)
    requires parts != []
    ensures Normalize(parts) == NormStep(Normalize(parts[..|parts| - 1]), parts[|parts| - 1])
  {}

  /** A walk succeeds exactly when every location it passes is a directory, and then it
      yields what the normalised names resolve to. */
  lemma WalkResolves(fs: Fs, path: string)
    requires "/" in fs.parts
    ensures Walk(fs, path).Some? <==> Passable(fs, Split(path))
    ensures Walk(fs, path).Some? ==> Walk(fs, path) == Resolve(fs, Normalize(Split(path)))
  {
    hide Passable, Follows, Resolve, Normalize;
    SplitParts(path);
    WalkPassable(fs, Split(path));
    if Walk(fs, path).Some? {
      WalkFollows(fs, Split(path));
      FollowsTop(fs, WalkParts(fs, Split(path)).value, Normalize(Split(path)));
    }
  }

  lemma {:induction false} ResolvePrefix(fs: Fs, names: seq<string>, k: nat)
    requires "/" in fs.parts && Resolve(fs, names).Some? && k < |names|
    ensures Resolve(fs, names[..k]).Some? && IsDir(fs, Resolve(fs, names[..k]).value)
    decreases |names|
  {
    var init := names[..|names| - 1];
    if k < |init| {
      ResolvePrefix(fs, init, k);
      assert init[..k] == names[..k];
    }
  }

  /** On a canonical path the walk is plain resolution. */
  lemma WalkCanon(fs: Fs, names: seq<string>)
    requires "/" in fs.parts && Names(names) && IsDir(fs, fs.parts["/"])
    ensures Walk(fs, Canon(names)) == Resolve(fs, names)
  {
    hide Resolve, Normalize, WalkParts;
    SplitCanon(names);
    WalkResolves(fs, Canon(names));
    var parts := Split(Canon(names));
    assert Normalize(parts) == names by { NormalizeCanon(names); }
    if Resolve(fs, names).Some? {
      forall k | 0 <= k < |parts|
        ensures Resolve(fs, Normalize(parts[..k])).Some? && IsDir(fs, Resolve(fs, Normalize(parts[..k])).value)
      {
        ResolveRoot(fs);
        if k == 0 || names == [] {
          assert Normalize(parts[..k]) == [] by { NormalizeEmpties(parts[..k]); }
        } else {
          assert parts[..k] == [""] + names[..k - 1];
          NormalizeFixed(names[..k - 1]);
          ResolvePrefix(fs, names, k - 1);
        }
      }
    }
  }

  lemma NormalizeEmpties(parts: seq<string>)
    requires |parts| <= 2 && forall i :: 0 <= i < |parts| ==> parts[i] == ""
    ensures Normalize(parts) == []
  {
    if parts != [] { assert parts[..|parts| - 1] == [] || parts[..|parts| - 1] == [""]; assert [""][..0] == []; }
  }

  lemma NormalizeCanon(names: seq<string>)
    requires Names(names)
    ensures Normalize(Split(Canon(names))) == names
  {
    SplitCanon(names);
    if names == [] { NormalizeEmpties(["", ""]); } else { NormalizeFixed(names); }
  }

  lemma WalkedRootIsDir(fs: Fs, path: string)
    requires Walk(fs, path).Some?
    ensures IsDir(fs, fs.parts["/"])
  {
    hide Resolve, Normalize, WalkParts;
    WalkResolves(fs, path);
    var parts := Split(path);
    assert parts[..0] == [];
    NormalizeNothing();
    ResolveRoot(fs);
  }

  /** Whatever a path finds, its lexically normalised form finds too, for every tree and
      every set of mounts. */
  lemma WalkNormalised(fs: Fs, path: string)
    requires Walk(fs, path).Some?
    ensures Walk(fs, Canonical(path)) == Walk(fs, path)
  {
    hide Resolve, Normalize, WalkParts;
    SplitParts(path);
    NormalizeNames(Split(path));
    WalkedRootIsDir(fs, path);
    WalkResolves(fs, path);
    WalkCanon(fs, Normalize(Split(path)));
  }

  // ---- Mounting ----

  function MountF(fs: Fs, path: string, root: nat): Option<Fs> {
    if path in fs.parts then None
    else
      var dir := Walk(fs, path);
      if dir.None? || !IsDir(fs, dir.value) then None
      else Some(fs.(parts := fs.parts[path := root]))
  }

  function UnmountF(fs: Fs, path: string): Option<Fs> {
    if path == "/" || path !in fs.parts then None else Some(fs.(parts := fs.parts - {path}))
  }

  /** A mount key that no prefix of `names` spells does not affect their resolution. */
  lemma {:induction false} ResolveAvoids(fs: Fs, path: string, root: nat, names: seq<string>)
    requires "/" in fs.parts && path != "/"
    requires forall k :: 1 <= k <= |names| ==> Join(names[..k]) != path
    ensures Resolve(fs.(parts := fs.parts[path := root]), names) == Resolve(fs, names)
  {
    if names != [] {
      var init := names[..|names| - 1];
      assert forall k :: 1 <= k <= |init| ==> init[..k] == names[..k];
      ResolveAvoids(fs, path, root, init);
      assert names[..|names|] == names;
    }
  }

  lemma {:induction false} JoinLonger(names: seq<string>, k: nat)
    requires Names(names) && k < |names|
    ensures |Join(names[..k])| < |Join(names)|
    decreases |names|
  {
    var init := names[..|names| - 1];
    if k < |init| {
      JoinLonger(init, k);
      assert init[..k] == names[..k];
    }
  }

  /** After a mount at a canonical path, that path leads to the mounted root. */
  lemma MountFound(fs: Fs, path: string, root: nat)
    requires MountF(fs, path, root).Some? && path == Canonical(path)
    ensures Walk(MountF(fs, path, root).value, path) == Some(root)
  {
    hide Normalize, WalkParts, Walk;
    var fs' := MountF(fs, path, root).value;
    var names := Normalize(Split(path));
    SplitParts(path);
    NormalizeNames(Split(path));
    assert "/" in fs.parts && path != "/" by { WalkRooted(fs, path); }
    WalkedRootIsDir(fs, path);
    WalkResolves(fs, path);
    WalkCanon(fs', names);
    var init := names[..|names| - 1];
    forall k | 1 <= k <= |init| ensures Join(init[..k]) != path {
      JoinLonger(names, k);
      assert init[..k] == names[..k];
    }
    ResolveAvoids(fs, path, root, init);
  }

  lemma WalkRooted(fs: Fs, path: string)
    requires Walk(fs, path).Some?
    ensures "/" in fs.parts
  {}

  /** The walk passes the location `names`. */
  ghost predicate Passes(parts: seq<string>, names: seq<string>) {
    exists k :: 0 <= k <= |parts| && Normalize(parts[..k]) == names
  }

  lemma StepAvoids(fs: Fs, path: string, root: nat, c: Cursor, names: seq<string>, part: string)
    requires "/" in fs.parts && path != "/" && Follows(fs, c, names) && NoSlash(part)
    requires NormStep(names, part) != [] ==> Join(NormStep(names, part)) != path
    ensures WalkStep(fs.(parts := fs.parts[path := root]), c, part) == WalkStep(fs, c, part)
  {
    hide Resolve, Join, Tracks, PopPart, PushPart;
    if Normal(part) { PushTracks(c.pathNow, names, part); }
  }

  lemma {:induction false} PartsAvoid(fs: Fs, path: string, root: nat, parts: seq<string>)
    requires "/" in fs.parts && path != "/"
    requires forall i :: 0 <= i < |parts| ==> NoSlash(parts[i])
    requires forall k {:trigger parts[..k]} :: 0 <= k <= |parts| && Normalize(parts[..k]) != [] ==>
               Join(Normalize(parts[..k])) != path
    ensures WalkParts(fs.(parts := fs.parts[path := root]), parts) == WalkParts(fs, parts)
    decreases |parts|
  {
    hide Normalize, Join, WalkStep, Follows;
    if parts != [] {
      var n := |parts| - 1;
      var init := parts[..n];
      forall k | 0 <= k <= |init| && Normalize(init[..k]) != [] ensures Join(Normalize(init[..k])) != path {
        assert init[..k] == parts[..k];
      }
      PartsAvoid(fs, path, root, init);
      if WalkParts(fs, init).Some? {
        WalkFollows(fs, init);
        NormalizeLast(parts);
        assert parts[..|parts|] == parts;
        StepAvoids(fs, path, root, WalkParts(fs, init).value, Normalize(init), parts[n]);
      }
    }
  }

  /** A mount key other than the root affects no walk that never passes it, and none at all
      if it is not canonical. */
  lemma KeyElsewhere(fs: Fs, path: string, root: nat, q: string)
    requires "/" in fs.parts && path != "/"
    requires path != Canonical(path) || !Passes(Split(q), Normalize(Split(path)))
    ensures Walk(fs.(parts := fs.parts[path := root]), q) == Walk(fs, q)
  {
    hide Normalize, WalkParts, Join;
    SplitParts(q);
    SplitParts(path);
    NormalizeNames(Split(path));
    var parts := Split(q);
    forall k | 0 <= k <= |parts| && Normalize(parts[..k]) != [] ensures Join(Normalize(parts[..k])) != path {
      NormalizeNames(parts[..k]);
      var names := Normalize(parts[..k]);
      if Join(names) == path {
        NormalizeCanon(names);
      }
    }
    PartsAvoid(fs, path, root, parts);
    assert Walk(fs, q) == (if WalkParts(fs, parts).None? then None else Some(Top(fs, WalkParts(fs, parts).value)));
  }

  /** A mount does not affect walks that never pass its path; under a path that is not
      canonical it affects no walk at all. */
  lemma MountElsewhere(fs: Fs, path: string, root: nat, q: string)
    requires MountF(fs, path, root).Some?
    requires path != Canonical(path) || !Passes(Split(q), Normalize(Split(path)))
    ensures Walk(MountF(fs, path, root).value, q) == Walk(fs, q)
  {
    hide Normalize, WalkParts, Join, Passes, Canonical;
    WalkRooted(fs, path);
    KeyElsewhere(fs, path, root, q);
  }

  /** A mount at a directory's path with a slash appended is accepted, and the directory
      stays what it was. */
  lemma MountTrailingSlash(fs: Fs, names: seq<string>, root: nat)
    requires "/" in fs.parts && Names(names) && names != [] && Join(names) + "/" !in fs.parts
    requires Walk(fs, Join(names)).Some? && IsDir(fs, Walk(fs, Join(names)).value)
    ensures MountF(fs, Join(names) + "/", root).Some?
    ensures Walk(MountF(fs, Join(names) + "/", root).value, Join(names)) == Walk(fs, Join(names))
  {
    hide Join, WalkNode;
    var p := Join(names);
    SplitSlash(p, "");
    assert p + "/" + "" == p + "/";
    SplitJoin(names);
    var parts := Split(p);
    assert (parts + [""])[..|parts|] == parts;
    NormalizeCanon(names);
    assert Normalize(parts + [""]) == Normalize(parts);
    hide Normalize, WalkParts;
    MountElsewhere(fs, p + "/", root, p);
  }

  /** Unmounting restores the former file system. */
  lemma MountUnmount(fs: Fs, path: string, root: nat)
    requires MountF(fs, path, root).Some?
    ensures UnmountF(MountF(fs, path, root).value, path) == Some(fs)
  {
    WalkRooted(fs, path);
    assert fs.parts[path := root] - {path} == fs.parts;
  }
}
