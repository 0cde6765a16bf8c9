/** When namespace changes succeed, what kind of node a creation makes, and what the parts
    of a path that are no names do. */
module VfsLaws {
  import opened VfsPath
  import opened Vfs
  import opened VfsChange
  import opened Wrappers

  // ---- One part further ----

  lemma SplitBelow(path: string, part: string)
    requires NoSlash(part)
    ensures Last(Split(path + "/" + part)) == part && Init(Split(path + "/" + part)) == Split(path)
  {
    SplitSlash(path, part);
  }

  /** A walk one name further: mounts first, then the directory the path leads to. */
  lemma WalkBelow(fs: Fs, path: string, name: string)
    requires NoSlash(name) && Normal(name) && Walk(fs, path).Some?
    ensures var d, below := Walk(fs, path).value, path + "/" + name;
            Walk(fs, below) ==
              if !IsDir(fs, d) then None
              else if Canonical(below) in fs.parts then Some(fs.parts[Canonical(below)])
              else WalkNode(fs, d, name)
  {
    SplitBelow(path, name);
    WalkRooted(fs, path);
    hide Split, Canonical, WalkParts, IsDir, WalkNode;
    WalkLast(fs, path + "/" + name);
  }

  /** A part "" or "." at the end asks for a directory and changes nothing else. */
  lemma WalkDot(fs: Fs, path: string, part: string)
    requires part == "" || part == "."
    ensures Walk(fs, path + "/" + part) ==
              if Walk(fs, path).Some? && IsDir(fs, Walk(fs, path).value) then Walk(fs, path) else None
  {
    SplitBelow(path, part);
    hide Split, IsDir, PushPart, PopPart;
  }

  lemma WalkFurther(fs: Fs, path: string, part: string)
    requires NoSlash(part) && "/" in fs.parts
    ensures var c := WalkParts(fs, Split(path));
            Walk(fs, path + "/" + part) ==
              if c.None? || WalkStep(fs, c.value, part).None? then None
              else Some(Top(fs, WalkStep(fs, c.value, part).value))
  {
    SplitBelow(path, part);
    hide Split, WalkStep;
  }

  /** Where ".." leads from the directory the walk has reached. */
  lemma StepUp(fs: Fs, c: Cursor, names: seq<string>)
    requires "/" in fs.parts && Follows(fs, c, names) && IsDir(fs, Top(fs, c))
    ensures WalkStep(fs, c, "..").Some?
    ensures Resolve(fs, Up(names)) == Some(Top(fs, WalkStep(fs, c, "..").value))
  {
    hide IsDir, PushPart, PopPart, Resolve;
    if names == [] {
      FollowsTop(fs, c, names);
    } else {
      PopFollows(fs, c, names);
      FollowsTop(fs, Cursor(c.stack[..|c.stack| - 1], PopPart(c.pathNow)), Up(names));
    }
  }

  /** The names of the directory above. */
  function Up(names: seq<string>): seq<string> { if names == [] then [] else names[..|names| - 1] }

  /** A part ".." at the end leads from a directory to the one whose path is shorter by a
      name, also out of a mounted partition; the root is its own parent. */
  lemma WalkDotDot(fs: Fs, names: seq<string>)
    requires Names(names)
    ensures Walk(fs, Canon(names) + "/..") ==
              if Walk(fs, Canon(names)).None? || !IsDir(fs, Walk(fs, Canon(names)).value) then None
              else Walk(fs, Canon(Up(names)))
  {
    var path := Canon(names);
    assert path + "/" + ".." == path + "/..";
    if "/" in fs.parts {
      WalkFurther(fs, path, "..");
      SplitParts(path);
      NormalizeCanon(names);
      hide Split, IsDir, Resolve, Normalize, Canon, Follows, WalkParts;
      if Walk(fs, path).Some? && IsDir(fs, Walk(fs, path).value) {
        WalkFollows(fs, Split(path));
        WalkedRootIsDir(fs, path);
        StepUp(fs, WalkParts(fs, Split(path)).value, names);
        WalkCanon(fs, Up(names));
      }
    }
  }

  // ---- When a change succeeds ----

  /** The directory that holds the last part of a path, where its parts in front lead. */
  ghost predicate Parent(fs: Fs, path: string, d: nat) {
    && "/" in fs.parts && Passable(fs, Init(Split(path)))
    && Resolve(fs, Normalize(Init(Split(path)))) == Some(d)
  }

  /** The last part of a path is a name. */
  predicate EndsInName(path: string) {
    var last := Last(Split(path));
    last != "" && last != "." && last != ".."
  }

  /** `d` is a directory that the file system keeps itself. */
  predicate Keeps(fs: Fs, d: nat) { d in fs.nodes && fs.nodes[d].VirtDir? }

  lemma ParentFound(fs: Fs, path: string)
    requires EndsInName(path)
    ensures WalkParent(fs, path).Some? ==> Parent(fs, path, WalkParent(fs, path).value)
    ensures forall d: nat :: Parent(fs, path, d) && IsDir(fs, d) ==> WalkParent(fs, path) == Some(d)
  {
    SplitParts(path);
    var init := Init(Split(path));
    hide Split, Resolve, Normalize, Passable, Follows, WalkParts;
    if "/" in fs.parts {
      WalkPassable(fs, init);
      if WalkParts(fs, init).Some? {
        WalkFollows(fs, init);
        FollowsTop(fs, WalkParts(fs, init).value, Normalize(init));
      }
    }
  }

  /** `link` succeeds exactly when the path ends in a name and the parts in front of it lead,
      over directories, to a kept directory that does not have the name yet. */
  lemma LinkSucceedsIff(fs: Fs, path: string, node: nat)
    ensures LinkF(fs, path, node).Some? <==>
              EndsInName(path) &&
              exists d: nat :: Parent(fs, path, d) && Keeps(fs, d) && Last(Split(path)) !in fs.nodes[d].files
  {
    hide Split, WalkParent, Parent;
    if EndsInName(path) { ParentFound(fs, path); }
  }

  /** `unlink` succeeds exactly when that directory has the name. */
  lemma UnlinkSucceedsIff(fs: Fs, path: string)
    ensures UnlinkF(fs, path).Some? <==>
              EndsInName(path) &&
              exists d: nat :: Parent(fs, path, d) && Keeps(fs, d) && Last(Split(path)) in fs.nodes[d].files
  {
    hide Split, WalkParent, Parent;
    if EndsInName(path) { ParentFound(fs, path); }
  }

  /** `create` succeeds exactly for regular files and directories where `link` does. */
  lemma CreateSucceedsIff(fs: Fs, path: string, ftype: FType, id: nat)
    ensures CreateF(fs, path, ftype, id).Some? <==>
              (ftype == Regular || ftype == Directory) && EndsInName(path) &&
              exists d: nat :: Parent(fs, path, d) && Keeps(fs, d) && Last(Split(path)) !in fs.nodes[d].files
  {
    hide Split, LinkF, Parent;
    LinkSucceedsIff(fs, path, id);
  }

  /** `mount` succeeds exactly when nothing is mounted under the same string and the path
      leads, over directories, to a directory. */
  lemma MountSucceedsIff(fs: Fs, path: string, root: nat)
    ensures MountF(fs, path, root).Some? <==>
              && path !in fs.parts && "/" in fs.parts && Passable(fs, Split(path))
              && IsDir(fs, Resolve(fs, Normalize(Split(path))).value)
  {
    hide Split, Resolve, Normalize, WalkParts;
    if "/" in fs.parts { WalkResolves(fs, path); }
  }

  /** Only the mount is gone: mounting again would restore the file system. */
  lemma Remounted(fs: Fs, path: string)
    requires UnmountF(fs, path).Some?
    ensures var fs' := UnmountF(fs, path).value;
            && path in fs.parts && path !in fs'.parts && path != "/"
            && fs'.(parts := fs'.parts[path := fs.parts[path]]) == fs
            && ("/" in fs.parts ==> "/" in fs'.parts && fs'.parts["/"] == fs.parts["/"])
            && (forall n: nat {:trigger IsDir(fs', n)} :: IsDir(fs', n) == IsDir(fs, n))
            && (forall n: nat, name: string {:trigger WalkNode(fs', n, name)} ::
                  WalkNode(fs', n, name) == WalkNode(fs, n, name))
  {
    var fs' := UnmountF(fs, path).value;
    assert fs'.parts[path := fs.parts[path]] == fs.parts;
  }

  /** Unmounting keeps the root, and affects no walk that never passes the path. */
  lemma UnmountElsewhere(fs: Fs, path: string, q: string)
    requires "/" in fs.parts && UnmountF(fs, path).Some?
    requires path != Canonical(path) || !Passes(Split(q), Normalize(Split(path)))
    ensures var fs' := UnmountF(fs, path).value;
            && fs'.nodes == fs.nodes && "/" in fs'.parts && fs'.parts["/"] == fs.parts["/"]
            && Walk(fs', q) == Walk(fs, q)
  {
    hide Normalize, WalkParts, Passes, Canonical, Walk;
    var fs' := UnmountF(fs, path).value;
    Remounted(fs, path);
    KeyElsewhere(fs', path, fs.parts[path], q);
  }

  /** The names above a mount resolve as without it. */
  lemma ResolveAbove(fs: Fs, names: seq<string>, root: nat)
    requires "/" in fs.parts && Names(names) && names != [] && Join(names) != "/"
    ensures Resolve(fs.(parts := fs.parts[Join(names) := root]), Up(names)) == Resolve(fs, Up(names))
  {
    var up := Up(names);
    forall k | 1 <= k <= |up| ensures Join(up[..k]) != Join(names) {
      JoinLonger(names, k);
      assert up[..k] == names[..k];
    }
    hide Join, Resolve;
    ResolveAvoids(fs, Join(names), root, up);
  }

  lemma ResolveLast(fs: Fs, names: seq<string>)
    requires "/" in fs.parts && names != [] && Join(names) !in fs.parts
    ensures var d := Resolve(fs, Up(names));
            Resolve(fs, names) ==
              if d.None? || !IsDir(fs, d.value) then None else WalkNode(fs, d.value, names[|names| - 1])
  {
    hide Join, IsDir, WalkNode;
  }

  lemma CanonIs(names: seq<string>)
    requires names != []
    ensures Canon(names) == Join(names)
  {}

  lemma NamesUp(names: seq<string>)
    requires Names(names)
    ensures Names(Up(names))
  {}

  /** Unmounting a canonical path uncovers what the directory above it has under the name. */
  lemma UnmountUncovers(fs: Fs, names: seq<string>)
    requires "/" in fs.parts && Names(names) && names != [] && UnmountF(fs, Join(names)).Some?
    ensures var fs', d := UnmountF(fs, Join(names)).value, Walk(fs, Canon(Up(names)));
            Walk(fs', Join(names)) ==
              if d.None? || !IsDir(fs, d.value) then None else WalkNode(fs, d.value, names[|names| - 1])
  {
    var path, up := Join(names), Up(names);
    var fs' := UnmountF(fs, path).value;
    Remounted(fs, path);
    CanonIs(names);
    NamesUp(names);
    hide *;
    ResolveAbove(fs', names, fs.parts[path]);
    ResolveLast(fs', names);
    if IsDir(fs, fs.parts["/"]) {
      WalkCanon(fs, up);
      WalkCanon(fs', names);
    } else {
      NoWalk(fs', path);
      NoWalk(fs, Canon(up));
    }
  }

  /** Nothing is found when the root is no directory. */
  lemma NoWalk(fs: Fs, path: string)
    requires "/" in fs.parts && !IsDir(fs, fs.parts["/"])
    ensures Walk(fs, path).None?
  {
    if Walk(fs, path).Some? { WalkedRootIsDir(fs, path); }
  }

  // ---- What a creation makes ----

  /** A created directory is empty: it is found, nothing is found below it, and a name can
      be linked into it, which is then found. */
  lemma CreatedDirectory(fs: Fs, path: string, id: nat, name: string, node: nat)
    requires id !in fs.nodes && CreateF(fs, path, Directory, id).Some? && Canonical(path) !in fs.parts
    requires NoSlash(name) && Normal(name) && Canonical(path + "/" + name) !in fs.parts
    ensures var fs', below := CreateF(fs, path, Directory, id).value, path + "/" + name;
            && Walk(fs', path) == Some(id) && IsDir(fs', id)
            && Walk(fs', below) == None
            && LinkF(fs', below, node).Some?
            && Walk(LinkF(fs', below, node).value, below) == Some(node)
  {
    var fs', below := CreateF(fs, path, Directory, id).value, path + "/" + name;
    assert fs'.nodes[id] == VirtDir(map[]);
    assert fs'.parts == fs.parts by { CreateExtends(fs, path, Directory, id); }
    hide Walk, LinkF, Canonical;
    CreateFound(fs, path, Directory, id);
    WalkBelow(fs', path, name);
    LinkBelow(fs', path, name, node);
    LinkFound(fs', below, node);
  }

  /** `link` one name below a path that leads to a kept directory. */
  lemma LinkBelow(fs: Fs, path: string, name: string, node: nat)
    requires NoSlash(name) && Normal(name) && Walk(fs, path).Some?
    ensures LinkF(fs, path + "/" + name, node).Some? <==>
              Keeps(fs, Walk(fs, path).value) && name !in fs.nodes[Walk(fs, path).value].files
  {
    SplitBelow(path, name);
    WalkRooted(fs, path);
    hide Split, WalkParts;
  }

  /** A created regular file is no directory: it is found, nothing is found below it, no
      name can be linked below it, and nothing can be mounted on it. */
  lemma CreatedFile(fs: Fs, path: string, id: nat, name: string, node: nat)
    requires id !in fs.nodes && CreateF(fs, path, Regular, id).Some? && Canonical(path) !in fs.parts
    requires NoSlash(name) && Normal(name)
    ensures var fs', below := CreateF(fs, path, Regular, id).value, path + "/" + name;
            && Walk(fs', path) == Some(id) && !IsDir(fs', id)
            && Walk(fs', below) == None
            && LinkF(fs', below, node) == None
            && MountF(fs', path, node) == None
  {
    var fs' := CreateF(fs, path, Regular, id).value;
    assert fs'.nodes[id].Foreign? && !fs'.nodes[id].isDir;
    hide Walk, LinkF, Canonical;
    CreateFound(fs, path, Regular, id);
    WalkBelow(fs', path, name);
    LinkBelow(fs', path, name, node);
  }
}
