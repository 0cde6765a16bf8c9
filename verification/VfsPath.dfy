/** Paths as strings: splitting at slashes, joining, and lexical normalisation. */
module VfsPath {
  import opened Wrappers

  /** The parts of `path` between slashes; always at least one. */
  function Split(path: string): (parts: seq<string>)
    ensures |parts| >= 1
  {
    if path == "" then [""]
    else
      var rest := Split(path[1..]);
      if path[0] == '/' then [""] + rest
      else [[path[0]] + rest[0]] + rest[1..]
  }

  predicate NoSlash(s: string) { '/' !in s }

  /** A part that names something. */
  predicate Normal(part: string) {
    part != "" && part != "." && part != ".."
  }

  predicate Names(names: seq<string>) {
    forall i :: 0 <= i < |names| ==> Normal(names[i]) && NoSlash(names[i])
  }

  /** The string the walk keeps for the names it has passed. */
  function Join(names: seq<string>): string {
    if names == [] then "" else Join(names[..|names| - 1]) + "/" + names[|names| - 1]
  }

  /** The canonical path of a list of names. */
  function Canon(names: seq<string>): string {
    if names == [] then "/" else Join(names)
  }

  lemma {:induction false} SplitParts(path: string)
    ensures forall i :: 0 <= i < |Split(path)| ==> NoSlash(Split(path)[i])
  {
    if path != "" { SplitParts(path[1..]); }
  }

  lemma {:induction false} SplitNoSlash(s: string)
    requires NoSlash(s)
    ensures Split(s) == [s]
  {
    if s != "" {
      SplitNoSlash(s[1..]);
      assert s[0] in s && s == [s[0]] + s[1..];
    }
  }

  lemma {:induction false} SplitSlash(p: string, name: string)
    requires NoSlash(name)
    ensures Split(p + "/" + name) == Split(p) + [name]
    decreases |p|
  {
    if p == "" {
      assert "" + "/" + name == "/" + name;
      assert ("/" + name)[1..] == name;
      SplitNoSlash(name);
    } else {
      var q := p[1..];
      assert (p + "/" + name)[1..] == q + "/" + name;
      SplitSlash(q, name);
      var rest := Split(q);
      assert (rest + [name])[0] == rest[0] && (rest + [name])[1..] == rest[1..] + [name];
    }
  }

  lemma {:induction false} SplitJoin(names: seq<string>)
    requires Names(names)
    ensures Split(Join(names)) == [""] + names
    decreases |names|
  {
    if names != [] {
      var n := |names| - 1;
      SplitJoin(names[..n]);
      SplitSlash(Join(names[..n]), names[n]);
      assert names == names[..n] + [names[n]];
    }
  }

  /** Splitting a canonical path yields an empty part and then its names. */
  lemma SplitCanon(names: seq<string>)
    requires Names(names)
    ensures Split(Canon(names)) == if names == [] then ["", ""] else [""] + names
  {
    if names == [] {
      assert "/"[1..] == "";
    } else {
      SplitJoin(names);
    }
  }

  /** Drops "" and ".", lets ".." remove the name before it, and stops at the root. */
  function Normalize(parts: seq<string>): (names: seq<string>) {
    if parts == [] then []
    else
      var names := Normalize(parts[..|parts| - 1]);
      NormStep(names, parts[|parts| - 1])
  }

  function NormStep(names: seq<string>, part: string): seq<string> {
    if Normal(part) then names + [part]
    else if part == ".." && names != [] then names[..|names| - 1]
    else names
  }

  lemma {:induction false} NormalizeNames(parts: seq<string>)
    requires forall i :: 0 <= i < |parts| ==> NoSlash(parts[i])
    ensures Names(Normalize(parts))
  {
    if parts != [] { NormalizeNames(parts[..|parts| - 1]); }
  }

  /** Normalising a list of names changes nothing. */
  lemma {:induction false} NormalizeFixed(names: seq<string>)
    requires Names(names)
    ensures Normalize([""] + names) == names
    decreases |names|
  {
    var parts := [""] + names;
    if names == [] {
      assert parts[..0] == [];
    } else {
      var n := |names| - 1;
      assert parts[..|parts| - 1] == [""] + names[..n];
      NormalizeFixed(names[..n]);
      assert names[..n] + [names[n]] == names;
    }
  }

  function Canonical(path: string): string { Canon(Normalize(Split(path))) }

  /** Normalising a path twice is normalising it once. */
  lemma CanonicalIdempotent(path: string)
    ensures Canonical(Canonical(path)) == Canonical(path)
  {
    SplitParts(path);
    var names := Normalize(Split(path));
    NormalizeNames(Split(path));
    SplitCanon(names);
    NormalizeFixed(names);
    if names == [] {
      assert ["", ""][..1] == [""] && [""][..0] == [];
    }
  }

  // ---- The string kept by the walk ----

  function RFind(s: string, c: char): (pos: int)
    ensures -1 <= pos < |s|
    ensures pos >= 0 ==> s[pos] == c
    ensures forall k :: pos < k < |s| ==> s[k] != c
  {
    if s == "" then -1
    else if s[|s| - 1] == c then |s| - 1
    else RFind(s[..|s| - 1], c)
  }

  function PushPart(pathNow: string, part: string): string {
    (if pathNow != "" && pathNow[|pathNow| - 1] == '/' then pathNow else pathNow + "/") + part
  }

  function PopPart(pathNow: string): string {
    var pos := RFind(pathNow, '/');
    if pos < 0 then pathNow else pathNow[..if pos > 1 then pos else 1]
  }

  /** What the kept string must be while the names are `names`. */
  predicate Tracks(pathNow: string, names: seq<string>) {
    if names == [] then pathNow == "" || pathNow == "/" else pathNow == Join(names)
  }

  lemma PushTracks(pathNow: string, names: seq<string>, part: string)
    requires Tracks(pathNow, names) && Names(names) && Normal(part) && NoSlash(part)
    ensures PushPart(pathNow, part) == Join(names + [part]) && Tracks(PushPart(pathNow, part), names + [part])
  {
    var n := names + [part];
    assert n[..|n| - 1] == names;
    if names != [] {
      var last := names[|names| - 1];
      assert Normal(last) && NoSlash(last);
      assert pathNow[|pathNow| - 1] == last[|last| - 1];
    } else {
      assert Join(names) == "";
    }
  }

  lemma PopTracks(pathNow: string, names: seq<string>)
    requires Tracks(pathNow, names) && Names(names) && names != []
    ensures Tracks(PopPart(pathNow), names[..|names| - 1])
  {
    var init, last := names[..|names| - 1], names[|names| - 1];
    assert Normal(last) && NoSlash(last);
    var j := Join(init);
    assert pathNow == j + "/" + last;
    var pos := RFind(pathNow, '/');
    assert pathNow[|j|] == '/';
    assert forall k :: |j| < k < |pathNow| ==> pathNow[k] == last[k - |j| - 1];
    assert pos == |j|;
    if init == [] {
      assert j == "" && pathNow[..1] == "/";
    } else {
      assert |j| > 1 by { assert Normal(init[|init| - 1]); }
      assert pathNow[..pos] == j;
    }
  }
}
