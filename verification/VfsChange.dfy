/** Creating, linking and removing names, and the file system object itself. */
module VfsChange {
  import opened VfsPath
  import opened Vfs
  import opened Wrappers

  datatype FType = Fifo | CharDev | Directory | BlockDev | Regular | SymLink | Socket

  function LinkF(fs: Fs, path: string, node: nat): Option<Fs> {
    var d, f := WalkParent(fs, path), GetFileName(path);
    if d.None? || f.None? || d.value !in fs.nodes then None
    else match fs.nodes[d.value]
      case VirtDir(files) =>
        if f.value in files then None
        else Some(fs.(nodes := fs.nodes[d.value := VirtDir(files[f.value := node])]))
      case Foreign(_, _) => None
  }

  /** The node `create` makes; only regular files and directories can be created. */
  function NewNode(ftype: FType): Option<Node> {
    match ftype
    case Regular => Some(Foreign(false, (name: string) => None))
    case Directory => Some(VirtDir(map[]))
    case _ => None
  }

  /** `create` under a node number that is not in use. */
  function CreateF(fs: Fs, path: string, ftype: FType, id: nat): Option<Fs> {
    var node, linked := NewNode(ftype), LinkF(fs, path, id);
    if node.None? || linked.None? then None
    else Some(linked.value.(nodes := linked.value.nodes[id := node.value]))
  }

  function UnlinkF(fs: Fs, path: string): Option<Fs> {
    var d, f := WalkParent(fs, path), GetFileName(path);
    if d.None? || f.None? || d.value !in fs.nodes then None
    else match fs.nodes[d.value]
      case VirtDir(files) =>
        if f.value !in files then None
        else Some(fs.(nodes := fs.nodes[d.value := VirtDir(files - {f.value})]))
      case Foreign(_, _) => None
  }

  // ---- What a change preserves ----

  /** Everything that can be found in `fs` is found in `fs'`. */
  ghost predicate Extends(fs: Fs, fs': Fs) {
    && fs'.parts == fs.parts
    && (forall n: nat :: IsDir(fs, n) ==> IsDir(fs', n))
    && (forall n: nat, name: string :: WalkNode(fs, n, name).Some? ==> WalkNode(fs', n, name) == WalkNode(fs, n, name))
  }

  lemma {:induction false} ExtendsParts(fs: Fs, fs': Fs, parts: seq<string>)
    requires "/" in fs.parts && Extends(fs, fs') && WalkParts(fs, parts).Some?
    ensures WalkParts(fs', parts) == WalkParts(fs, parts)
  {
    hide PushPart, PopPart;
    if parts != [] { ExtendsParts(fs, fs', parts[..|parts| - 1]); }
  }

  /** No successful walk is disturbed by an addition. */
  lemma ExtendsWalk(fs: Fs, fs': Fs, path: string)
    requires Extends(fs, fs') && Walk(fs, path).Some?
    ensures Walk(fs', path) == Walk(fs, path)
  {
    ExtendsParts(fs, fs', Split(path));
  }

  lemma LinkExtends(fs: Fs, path: string, node: nat)
    requires LinkF(fs, path, node).Some?
    ensures Extends(fs, LinkF(fs, path, node).value)
  {
    hide WalkParent, GetFileName;
  }

  lemma CreateExtends(fs: Fs, path: string, ftype: FType, id: nat)
    requires id !in fs.nodes && CreateF(fs, path, ftype, id).Some?
    ensures Extends(fs, CreateF(fs, path, ftype, id).value)
  {
    LinkExtends(fs, path, id);
    CreateLinks(fs, path, ftype, id);
  }

  /** The new node disturbs nothing that the link left. */
  lemma CreateLinks(fs: Fs, path: string, ftype: FType, id: nat)
    requires id !in fs.nodes && CreateF(fs, path, ftype, id).Some?
    ensures LinkF(fs, path, id).Some? && Extends(LinkF(fs, path, id).value, CreateF(fs, path, ftype, id).value)
  {
    hide WalkParent, GetFileName;
  }

  /** How a walk to a name ends, given the directory its parent leads to. */
  lemma WalkLast(fs: Fs, path: string)
    requires "/" in fs.parts && Normal(Last(Split(path))) && WalkParts(fs, Init(Split(path))).Some?
    ensures var d := Top(fs, WalkParts(fs, Init(Split(path))).value);
            Walk(fs, path) ==
              if !IsDir(fs, d) then None
              else if Canonical(path) in fs.parts then Some(fs.parts[Canonical(path)])
              else WalkNode(fs, d, Last(Split(path)))
  {
    hide Normalize, Join, Tracks, PushPart, PopPart, Resolve;
    var parts := Split(path);
    var init, part := Init(parts), Last(parts);
    SplitParts(path);
    WalkFollows(fs, init);
    NormalizeNames(init);
    var c := WalkParts(fs, init).value;
    PushTracks(c.pathNow, Normalize(init), part);
    NormalizeLast(parts);
    assert Canonical(path) == Join(Normalize(init) + [part]);
  }

  lemma ParentIsTop(fs: Fs, path: string)
    requires WalkParent(fs, path).Some? && GetFileName(path).Some?
    ensures "/" in fs.parts && WalkParts(fs, Init(Split(path))).Some?
    ensures WalkParent(fs, path) == Some(Top(fs, WalkParts(fs, Init(Split(path))).value))
    ensures IsDir(fs, WalkParent(fs, path).value)
  {}

  /** After linking, the path leads to the linked node, unless a mount shadows it. */
  lemma LinkFound(fs: Fs, path: string, node: nat)
    requires LinkF(fs, path, node).Some?
    ensures Walk(LinkF(fs, path, node).value, path) ==
              Some(if Canonical(path) in fs.parts then fs.parts[Canonical(path)] else node)
  {
    hide Walk, WalkParts, WalkParent, GetFileName;
    var fs' := LinkF(fs, path, node).value;
    LinkExtends(fs, path, node);
    ParentIsTop(fs, path);
    ExtendsParts(fs, fs', Init(Split(path)));
    NameIsLast(path);
    WalkLast(fs', path);
  }

  lemma NameIsLast(path: string)
    requires GetFileName(path).Some?
    ensures Normal(Last(Split(path))) && GetFileName(path).value == Last(Split(path))
  {}

  lemma CreateFound(fs: Fs, path: string, ftype: FType, id: nat)
    requires id !in fs.nodes && CreateF(fs, path, ftype, id).Some?
    ensures Walk(CreateF(fs, path, ftype, id).value, path) ==
              Some(if Canonical(path) in fs.parts then fs.parts[Canonical(path)] else id)
  {
    hide Walk, LinkF, Extends;
    LinkFound(fs, path, id);
    CreateLinks(fs, path, ftype, id);
    ExtendsWalk(LinkF(fs, path, id).value, CreateF(fs, path, ftype, id).value, path);
  }

  lemma UnlinkShrinks(fs: Fs, path: string)
    requires UnlinkF(fs, path).Some?
    ensures Extends(UnlinkF(fs, path).value, fs)
  {
    hide WalkParent, GetFileName;
  }

  /** After unlinking, the path leads nowhere, unless a mount shadows it. */
  lemma UnlinkGone(fs: Fs, path: string)
    requires UnlinkF(fs, path).Some? && Canonical(path) !in fs.parts
    ensures Walk(UnlinkF(fs, path).value, path) == None
  {
    hide Normalize, WalkParent, GetFileName;
    var fs' := UnlinkF(fs, path).value;
    UnlinkShrinks(fs, path);
    ParentIsTop(fs, path);
    NameIsLast(path);
    var init := Init(Split(path));
    if WalkParts(fs', init).Some? {
      ExtendsParts(fs', fs, init);
      WalkLast(fs', path);
    }
  }

  /** Unlinking what was just linked restores the file system. */
  lemma LinkUnlink(fs: Fs, path: string, node: nat)
    requires LinkF(fs, path, node).Some?
    ensures UnlinkF(LinkF(fs, path, node).value, path) == Some(fs)
  {
    hide Normalize, WalkParts;
    var fs' := LinkF(fs, path, node).value;
    LinkExtends(fs, path, node);
    ParentIsTop(fs, path);
    ExtendsParts(fs, fs', Init(Split(path)));
    var d, f := WalkParent(fs, path).value, GetFileName(path).value;
    assert WalkParent(fs', path) == Some(d);
    var files := fs.nodes[d].files;
    assert files[f := node] - {f} == files;
    assert fs'.nodes[d := VirtDir(files)] == fs.nodes;
  }

  // ---- The file system object ----

  class VirtualFileSystem {
    var nodes: map<nat, Node>
    var parts: map<string, nat>

    constructor (nodes: map<nat, Node>, parts: map<string, nat>)
      ensures State() == Fs(nodes, parts)
    {
      this.nodes, this.parts := nodes, parts;
    }

    function State(): Fs
      reads this
    {
      Fs(nodes, parts)
    }

    method WalkInner(path: string, isParent: bool) returns (r: Option<nat>)
      ensures r == if isParent then WalkParent(State(), path) else Vfs.Walk(State(), path)
    {
      hide Normal, PushPart, PopPart, WalkNode, IsDir, Split;
      if "/" !in parts { return None; }
      var root := parts["/"];
      var split := Split(path);
      var stack: seq<nat> := [];
      var pathNow := "";
      var i := 0;
      while i < |split|
        invariant 0 <= i <= |split|
        invariant WalkParts(State(), split[..i]) == Some(Cursor(stack, pathNow))
        invariant isParent && i == |split| ==> !Normal(Last(split))
      {
        var part := split[i];
        var last := if stack == [] then root else stack[|stack| - 1];
        assert split[..i + 1][..i] == split[..i] && split[..i + 1][i] == part;
        if !IsDir(State(), last) {
          WalkFails(State(), split, i + 1);
          FailsBefore(State(), path, i);
          return None;
        }
        if Normal(part) {
          if isParent && i >= |split| - 1 {
            assert split[..i] == Init(split);
            return Some(last);
          }
          pathNow := PushPart(pathNow, part);
          if pathNow in parts {
            stack := stack + [parts[pathNow]];
          } else {
            var n := WalkNode(State(), last, part);
            if n.None? {
              WalkFails(State(), split, i + 1);
              return None;
            }
            stack := stack + [n.value];
          }
        } else if part == ".." && stack != [] {
          stack := stack[..|stack| - 1];
          pathNow := PopPart(pathNow);
        }
        i := i + 1;
      }
      assert split[..|split|] == split;
      r := Some(if stack == [] then root else stack[|stack| - 1]);
    }

    method Link(path: string, node: nat) returns (ok: bool)
      modifies this
      ensures ok <==> LinkF(old(State()), path, node).Some?
      ensures State() == if ok then LinkF(old(State()), path, node).value else old(State())
    {
      hide WalkParent, Split;
      var dir := WalkInner(path, true);
      var name := GetFileName(path);
      if dir.None? || name.None? || dir.value !in nodes { return false; }
      match nodes[dir.value]
      case VirtDir(files) =>
        if name.value in files { return false; }
        nodes := nodes[dir.value := VirtDir(files[name.value := node])];
        ok := true;
      case Foreign(_, _) =>
        ok := false;
    }

    method Create(path: string, ftype: FType, id: nat) returns (ok: bool)
      requires id !in nodes
      modifies this
      ensures ok <==> CreateF(old(State()), path, ftype, id).Some?
      ensures ok ==> State() == CreateF(old(State()), path, ftype, id).value
      ensures !ok ==> State() == old(State())
    {
      var node := NewNode(ftype);
      if node.None? { return false; }
      ok := Link(path, id);
      if ok { nodes := nodes[id := node.value]; }
    }

    method Unlink(path: string) returns (ok: bool)
      modifies this
      ensures ok <==> UnlinkF(old(State()), path).Some?
      ensures State() == if ok then UnlinkF(old(State()), path).value else old(State())
    {
      hide WalkParent, Split;
      var dir := WalkInner(path, true);
      var name := GetFileName(path);
      if dir.None? || name.None? || dir.value !in nodes { return false; }
      match nodes[dir.value]
      case VirtDir(files) =>
        if name.value !in files { return false; }
        nodes := nodes[dir.value := VirtDir(files - {name.value})];
        ok := true;
      case Foreign(_, _) =>
        ok := false;
    }

    method Mount(path: string, root: nat) returns (ok: bool)
      modifies this
      ensures ok <==> MountF(old(State()), path, root).Some?
      ensures State() == if ok then MountF(old(State()), path, root).value else old(State())
    {
      if path in parts { return false; }
      var dir := WalkInner(path, false);
      if dir.None? || !IsDir(State(), dir.value) { return false; }
      parts := parts[path := root];
      ok := true;
    }

    method Unmount(path: string) returns (ok: bool)
      modifies this
      ensures ok <==> UnmountF(old(State()), path).Some?
      ensures State() == if ok then UnmountF(old(State()), path).value else old(State())
    {
      if path == "/" || path !in parts { return false; }
      parts := parts - {path};
      ok := true;
    }
  }

  /** An error is final. */
  lemma {:induction false} WalkFails(fs: Fs, parts: seq<string>, k: nat)
    requires "/" in fs.parts && k <= |parts| && WalkParts(fs, parts[..k]).None?
    ensures WalkParts(fs, parts).None?
    ensures k < |parts| ==> WalkParts(fs, parts[..|parts| - 1]).None?
    decreases |parts|
  {
    if k < |parts| {
      var init := parts[..|parts| - 1];
      assert init[..k] == parts[..k];
      WalkFails(fs, init, k);
    } else {
      assert parts[..k] == parts;
    }
  }

  lemma FailsBefore(fs: Fs, path: string, i: nat)
    requires "/" in fs.parts && i < |Split(path)|
    requires WalkParts(fs, Split(path)[..i]).Some? && !IsDir(fs, Top(fs, WalkParts(fs, Split(path)[..i]).value))
    ensures WalkParent(fs, path).None?
  {
    var split := Split(path);
    assert split[..i + 1][..i] == split[..i];
    WalkFails(fs, split, i + 1);
  }
}
