/** The virtual file system on nodes in memory: lookup across mounts, making files and
    directories of temporary file systems, and mounting. */
module Vfs {
  import opened Paths
  import opened FileTree

  /** A node together with its inode. Its number tells nodes apart in specifications. */
  class Vnode {
    const kind: Kind
    const mode: Type
    var name: string
    var entry: seq<Vnode?>
    /** The root of what is mounted here. */
    var mount: Vnode?
    ghost const id: nat

    constructor (kind: Kind, mode: Type, ghost id: nat)
      ensures this.kind == kind && this.mode == mode && this.id == id
      ensures name == "" && mount == null && entry == seq(MaxEntries(kind), i => null)
    {
      this.kind, this.mode, this.id := kind, mode, id;
      name, mount, entry := "", null, seq(MaxEntries(kind), i => null);
    }
  }

  ghost function Number(v: Vnode?): int {
    if v == null then NIL else v.id
  }

  ghost function Numbers(entry: seq<Vnode?>): (r: seq<int>)
    ensures |r| == |entry| && forall i :: 0 <= i < |r| ==> r[i] == Number(entry[i])
  {
    seq(|entry|, i requires 0 <= i < |entry| => Number(entry[i]))
  }

  ghost function Value(v: Vnode): Inode
    reads v
  {
    Inode(v.kind, v.mode, v.name, Numbers(v.entry), Number(v.mount))
  }

  ghost function Values(nodes: seq<Vnode>): (s: Store)
    reads nodes
    ensures |s| == |nodes| && forall v :: 0 <= v < |s| ==> s[v] == Value(nodes[v])
  {
    if nodes == [] then []
    else
      var n := |nodes| - 1;
      Values(nodes[..n]) + [Value(nodes[n])]
  }

  /** A pointer to one of the nodes, or null. */
  ghost predicate Known(nodes: seq<Vnode>, v: Vnode?) {
    v == null || (v.id < |nodes| && nodes[v.id] == v)
  }

  /** What a node points to are nodes, or null. */
  ghost predicate PointsTo(v: Vnode, nodes: seq<Vnode>)
    reads v
  {
    Known(nodes, v.mount) && forall i :: 0 <= i < |v.entry| ==> Known(nodes, v.entry[i])
  }

  class FileSystem {
    const root: Vnode
    /** All nodes, in the order of their creation. */
    ghost var nodes: seq<Vnode>

    ghost predicate Numbered()
      reads this
    {
      |nodes| > 0 && nodes[0] == root && forall v :: 0 <= v < |nodes| ==> nodes[v].id == v
    }

    ghost predicate PointersKnown()
      reads this, nodes
    {
      forall v :: 0 <= v < |nodes| ==> PointsTo(nodes[v], nodes)
    }

    ghost predicate Valid()
      reads this, nodes
    {
      Numbered() && PointersKnown() && Sound(Store())
    }

    ghost function Store(): (s: Store)
      reads this, nodes
    {
      Values(nodes)
    }

    /** The root of a temporary file system is the root of all. */
    constructor ()
      ensures Valid() && fresh(nodes) && Store() == NewRoot(Tmpfs, [], 0)
    {
      root := new Vnode(Tmpfs, Dir, 0);
      nodes := [root];
      new;
      var none: Store := [];
      FirstStore();
      assert Value(root) == NewRoot(Tmpfs, [], 0)[0];
      assert Store() == NewRoot(Tmpfs, [], 0);
    }

    /** The entry of that name in a directory, if there is one. */
    method LookupIn(dir: Vnode, name: string) returns (target: Vnode?)
      requires Valid() && Known(nodes, dir)
      ensures Known(nodes, target) && Number(target) == Child(Store(), dir.id, name)
    {
      hide Orderly, Values, ChildFrom;
      ghost var s := Store();
      var i := 0;
      while i < |dir.entry|
        invariant 0 <= i <= |dir.entry| && |dir.entry| == |s[dir.id].entry|
        invariant ChildFrom(s, dir.id, name, i) == Child(s, dir.id, name)
      {
        var vnode := dir.entry[i];
        SearchFrom(s, dir.id, name, i);
        assert s[dir.id].entry[i] == Number(vnode);
        if vnode == null {
          break;
        }
        if vnode.name == name {
          return vnode;
        }
        i := i + 1;
      }
      SearchFrom(s, dir.id, name, i);
      return null;
    }

    /** On to what is mounted, and what is mounted on that. */
    method Redirected(v: Vnode) returns (r: Vnode)
      requires Valid() && Known(nodes, v)
      ensures Known(nodes, r) && r.id == Redirect(Store(), v.id)
    {
      hide Orderly, Values;
      r := v;
      while r.mount != null
        invariant Known(nodes, r) && Redirect(Store(), r.id) == Redirect(Store(), v.id)
        decreases |nodes| - r.id
      {
        r := r.mount;
      }
    }

    /** The entry of that name, and on to what is mounted there. */
    method Step(dir: Vnode, name: string) returns (r: Vnode?)
      requires Valid() && Known(nodes, dir)
      ensures Known(nodes, r) && Number(r) == Walk(Store(), dir.id, [name])
    {
      hide Orderly, Values;
      WalkStep(Store(), dir.id, name, []);
      assert [name] + [] == [name];
      r := LookupIn(dir, name);
      if r != null {
        r := Redirected(r);
      }
    }

    /** The node that a path names. */
    method Lookup(path: string) returns (target: Vnode?)
      requires Valid() && (path != "" ==> ComponentsFit(path[1..]))
      ensures Known(nodes, target) && Number(target) == Named(Store(), path)
    {
      hide Orderly, Linked, Values, Split, Walk, PointsTo, ComponentsFit;
      if |path| == 0 {
        return root;
      }
      ghost var s := Store();
      var dirnode: Vnode := root;
      var component_name := new char[MAX_FILE_NAME + 1];
      var c_idx := 0;
      assert component_name[..0] + path[1..] == path[1..];
      for i := 1 to |path|
        invariant Valid() && Store() == s && Known(nodes, dirnode) && 0 <= c_idx <= MAX_FILE_NAME
        invariant '/' !in component_name[..c_idx] && ComponentsFit(component_name[..c_idx] + path[i..])
        invariant Walk(s, dirnode.id, Split(component_name[..c_idx] + path[i..])) == Named(s, path)
      {
        ghost var name, rest := component_name[..c_idx], path[i + 1..];
        assert path[i..] == [path[i]] + rest;
        if path[i] == '/' {
          ComponentEnds(name, rest);
          WalkFirst(s, dirnode.id, name, Split(rest));
          var next := Step(dirnode, component_name[..c_idx]);
          if next == null {
            return null;
          }
          dirnode := next;
          c_idx := 0;
          assert component_name[..0] + rest == rest;
        } else {
          ComponentGrows(name, path[i], rest);
          component_name[c_idx] := path[i];
          c_idx := c_idx + 1;
          assert component_name[..c_idx] == name + [path[i]];
        }
      }
      assert component_name[..c_idx] + path[|path|..] == component_name[..c_idx];
      SplitPlain(component_name[..c_idx]);
      target := Step(dirnode, component_name[..c_idx]);
    }

    /** Whether a directory has an entry of that name, and if not its first free one. */
    method Search(dir: Vnode, name: string) returns (found: bool, free: nat)
      requires Valid() && Known(nodes, dir) && dir.kind == Tmpfs
      ensures found <==> Child(Store(), dir.id, name) != NIL
      ensures !found ==> free == FirstFree(Store()[dir.id].entry)
    {
      hide Orderly, Values, ChildFrom, FirstFree;
      ghost var s, d := Store(), dir.id;
      found, free := false, 0;
      while free < MaxEntries(Tmpfs)
        invariant 0 <= free <= |s[d].entry| == |dir.entry| == MaxEntries(Tmpfs)
        invariant ChildFrom(s, d, name, free) == Child(s, d, name)
        invariant forall i :: 0 <= i < free ==> s[d].entry[i] != NIL
      {
        var child := dir.entry[free];
        SearchFrom(s, d, name, free);
        assert s[d].entry[free] == Number(child);
        if child == null {
          break;
        }
        if child.name == name {
          found := true;
          return;
        }
        free := free + 1;
      }
      SearchFrom(s, d, name, free);
      FirstFreeIs(s[d].entry, free);
    }

    /** A new file or directory in a directory of a temporary file system. */
    method Make(dir: Vnode, mode: Type, name: string) returns (target: Vnode?)
      requires Valid() && Known(nodes, dir)
      modifies this, nodes
      ensures Valid() && Store() == Made(old(Store()), dir.id, mode, name)
      ensures target != null <==> Takes(old(Store()), dir.id, name)
      ensures target != null <==> Accepts(old(Store()), dir.id, name)
      ensures nodes == if target == null then old(nodes) else old(nodes) + [target]
      ensures target != null ==> fresh(target)
    {
      hide Orderly, Values, Walk, NamedAfter, FirstFree, PointsTo, Accepts;
      ghost var s, d := Store(), dir.id;
      TakesIff(s, d, name);
      if dir.kind == Initramfs {
        return null;
      }
      if dir.mode != Dir {
        return null;
      }
      var found, child_idx := Search(dir, name);
      if found {
        return null;
      }
      if child_idx == MaxEntries(Tmpfs) {
        return null;
      }
      if |name| > MAX_FILE_NAME {
        return null;
      }
      MadeKeeps(s, d, mode, name, ROOT, []);
      GrownSteps(s, d, child_idx, mode, name);
      target := CreateVnode(Tmpfs, mode);
      SetEntry(dir, child_idx, target);
      SetName(target, name);
    }

    method FindLastSlash(pathname: string) returns (last_slash_idx: nat)
      requires pathname != ""
      ensures last_slash_idx == LastSlash(pathname)
    {
      last_slash_idx := 0;
      for i := 0 to |pathname|
        invariant last_slash_idx < |pathname| && last_slash_idx <= i
        invariant last_slash_idx == 0 || pathname[last_slash_idx] == '/'
        invariant forall j :: last_slash_idx < j < i ==> pathname[j] != '/'
      {
        if pathname[i] == '/' {
          last_slash_idx := i;
        }
      }
      LastSlashAt(pathname, last_slash_idx);
    }

    /** A new directory by its path. */
    method Mkdir(pathname: string) returns (ok: bool)
      requires Valid() && pathname != "" && (DirName(pathname) != "" ==> ComponentsFit(DirName(pathname)[1..]))
      modifies this, nodes
      ensures Valid() && (ok <==> old(Named(Store(), DirName(pathname))) != NIL)
      ensures Store()
        == old(if ok then Made(Store(), Named(Store(), DirName(pathname)), Dir, BaseName(pathname)) else Store())
      ensures |nodes| >= old(|nodes|) && nodes[..old(|nodes|)] == old(nodes) && fresh(nodes[old(|nodes|)..])
      ensures ok ==> NamesNew(old(Store()), Store(), pathname)
    {
      hide Sound, Orderly, Linked, Values, Named, Made, PointsTo, Accepts, Takes, Split, ComponentsFit, NamesNew,
           DirName, BaseName, LastSlash;
      ghost var s := Store();
      SoundIsLinked(s);
      var last_slash_idx := FindLastSlash(pathname);
      CutAtSlash(pathname);
      var node := Lookup(pathname[..last_slash_idx]);
      if node == null {
        return false;
      }
      var made := Make(node, Dir, pathname[last_slash_idx + 1..]);
      MadeIsAccepted(s, pathname);
      return true;
    }

    /** One more file of a new file system. */
    method AddFile(r: Vnode, i: nat, kind: Kind, names: seq<string>, ghost s: Store) returns (file: Vnode)
      requires Numbered() && PointersKnown() && Known(nodes, r) && r.id == |s| && i < |r.entry|
      requires i < |names| <= MaxEntries(kind) && Store() == WithNew(s, kind, names[..i])
      modifies this, r
      ensures Numbered() && PointersKnown() && nodes == old(nodes) + [file] && fresh(file)
      ensures |r.entry| == old(|r.entry|) && Store() == WithNew(s, kind, names[..i + 1])
    {
      hide Values, PointsTo, WithNew;
      OneMoreFile(s, kind, names, i);
      file := CreateVnode(kind, File);
      SetName(file, names[i]);
      SetEntry(r, i, file);
    }

    /** The files of a new file system, one by one. */
    method AddFiles(r: Vnode, kind: Kind, names: seq<string>, ghost s: Store)
      requires Numbered() && PointersKnown() && Known(nodes, r) && r.id == |s| && |r.entry| == MaxEntries(kind)
      requires |names| <= MaxEntries(kind) && Store() == WithNew(s, kind, [])
      modifies this, r
      ensures Numbered() && PointersKnown() && Store() == WithNew(s, kind, names)
      ensures |nodes| >= old(|nodes|) && nodes[..old(|nodes|)] == old(nodes) && fresh(nodes[old(|nodes|)..])
    {
      hide Values, PointsTo, WithNew;
      ghost var n := |nodes|;
      assert names[..0] == [];
      for i := 0 to |names|
        invariant Numbered() && PointersKnown() && |r.entry| == MaxEntries(kind) && Known(nodes, r)
        invariant |names[..i]| == i && Store() == WithNew(s, kind, names[..i])
        invariant |nodes| >= n && nodes[..n] == old(nodes) && fresh(nodes[n..])
      {
        ghost var before := nodes;
        var file := AddFile(r, i, kind, names, s);
        assert nodes[..n] == before[..n] && nodes[n..] == before[n..] + [file];
      }
      assert names[..|names|] == names;
    }

    /** A new file system: its root, and the files it starts with. */
    method SetupMount(kind: Kind, names: seq<string>) returns (r: Vnode, ghost added: seq<Vnode>)
      requires Valid() && |names| <= MaxEntries(kind) && (kind == Tmpfs ==> names == [])
      modifies this, nodes
      ensures Valid() && Store() == WithNew(old(Store()), kind, names)
      ensures nodes == old(nodes) + added && fresh(added) && |added| > 0 && r == added[0]
    {
      hide Orderly, Linked, Values, PointsTo, WithNew;
      ghost var s, first := Store(), nodes;
      r := CreateVnode(kind, Dir);
      NoFiles(s, kind, names);
      assert names[..0] == [];
      AddFiles(r, kind, names, s);
      ghost var more := nodes[|first| + 1..];
      added := [r] + more;
      assert nodes == first + added by { Rejoined(first, r, nodes); }
      WithNewSound(s, kind, names);
    }

    /** A new file system on what a path names. */
    method Mount(target: string, kind: Kind, names: seq<string>) returns (ok: bool)
      requires Valid() && (target != "" ==> ComponentsFit(target[1..]))
      requires |names| <= MaxEntries(kind) && (kind == Tmpfs ==> names == [])
      modifies this, nodes
      ensures Valid() && (ok <==> Named(old(Store()), target) != NIL)
      ensures Store() == MountedNew(old(Store()), target, kind, names)
    {
      hide Orderly, Values, PointsTo, NewRoot, Walk;
      ghost var s := Store();
      var dirnode := Lookup(target);
      if dirnode == null {
        return false;
      }
      var r, added := SetupMount(kind, names);
      assert r == nodes[|s|];
      MountedSound(Store(), dirnode.id, r.id);
      SetMount(dirnode, r);
      return true;
    }

    // The single assignments, each with what it does to the table.

    method CreateVnode(kind: Kind, mode: Type) returns (v: Vnode)
      requires Numbered() && PointersKnown()
      modifies this
      ensures Numbered() && PointersKnown() && nodes == old(nodes) + [v] && fresh(v)
      ensures Store() == old(Store()) + [Inode(kind, mode, "", NoEntries(kind), NIL)]
      ensures |v.entry| == MaxEntries(kind) && Known(nodes, v) && v.id == old(|nodes|)
    {
      hide Values;
      v := new Vnode(kind, mode, |nodes|);
      nodes := nodes + [v];
      assert Numbers(v.entry) == NoEntries(kind);
    }

    method SetEntry(dir: Vnode, i: nat, v: Vnode)
      requires Numbered() && PointersKnown() && Known(nodes, dir) && Known(nodes, v) && i < |dir.entry|
      modifies dir
      ensures Numbered() && PointersKnown()
      ensures var s := old(Store()); Store() == s[dir.id := s[dir.id].(entry := s[dir.id].entry[i := v.id])]
      ensures |dir.entry| == old(|dir.entry|)
    {
      hide Values;
      dir.entry := dir.entry[i := v];
      assert Numbers(dir.entry) == old(Numbers(dir.entry))[i := v.id];
    }

    method SetName(v: Vnode, name: string)
      requires Numbered() && PointersKnown() && Known(nodes, v)
      modifies v
      ensures Numbered() && PointersKnown() && v.entry == old(v.entry)
      ensures Store() == old(Store())[v.id := old(Store())[v.id].(name := name)]
    {
      hide Values;
      v.name := name;
    }

    method SetMount(v: Vnode, r: Vnode)
      requires Numbered() && PointersKnown() && Known(nodes, v) && Known(nodes, r)
      modifies v
      ensures Numbered() && PointersKnown()
      ensures Store() == Mounted(old(Store()), v.id, r.id)
    {
      hide Values;
      v.mount := r;
    }
  }

  lemma CutAtSlash(path: string)
    requires path != ""
    ensures path[..LastSlash(path)] == DirName(path) && path[LastSlash(path) + 1..] == BaseName(path)
  {
  }

  lemma SoundIsLinked(s: Store)
    requires Sound(s)
    ensures Linked(s)
  {
  }

  /** The path names the new node exactly if its directory accepted it. */
  predicate NamesNew(s: Store, t: Store, path: string)
    requires Linked(s) && Linked(t) && path != "" && Named(s, DirName(path)) != NIL
  {
    Named(t, path) == |s| <==> Accepts(s, Named(s, DirName(path)), BaseName(path))
  }

  lemma MadeIsAccepted(s: Store, path: string)
    requires Sound(s) && path != "" && Named(s, DirName(path)) != NIL
    ensures var d := Named(s, DirName(path)); var t := Made(s, d, Dir, BaseName(path));
      Sound(t) && NamesNew(s, t, path)
  {
    hide Orderly, Named, Made, Accepts, Takes, DirName, BaseName;
    MadeIsNamed(s, Dir, path, "");
    TakesIff(s, Named(s, DirName(path)), BaseName(path));
  }

  /** Making a directory a second time reports what it did the first time, and does nothing. */
  method MkdirTwice(fs: FileSystem, pathname: string) returns (first: bool, second: bool)
    requires fs.Valid() && pathname != "" && (DirName(pathname) != "" ==> ComponentsFit(DirName(pathname)[1..]))
    modifies fs, fs.nodes
    ensures fs.Valid() && second == first && (first <==> old(Named(fs.Store(), DirName(pathname))) != NIL)
    ensures fs.Store() == old(if first then
      Made(fs.Store(), Named(fs.Store(), DirName(pathname)), Dir, BaseName(pathname)) else fs.Store())
  {
    hide Orderly, Linked, Values, Named, Made, PointsTo, DirName, BaseName, Takes;
    ghost var s, d, name := fs.Store(), Named(fs.Store(), DirName(pathname)), BaseName(pathname);
    first := fs.Mkdir(pathname);
    if first {
      MadeIsNamed(s, Dir, pathname, DirName(pathname));
      MadeOnce(s, d, Dir, name);
      NotTaken(fs.Store(), d, Dir, name);
    }
    ghost var n := old(|fs.nodes|);
    assert fs.nodes == fs.nodes[..n] + fs.nodes[n..];
    assert forall v :: v in fs.nodes ==> v in old(fs.nodes) || v in fs.nodes[n..];
    second := fs.Mkdir(pathname);
  }

  lemma NotTaken(s: Store, d: int, mode: Type, name: string)
    requires Linked(s) && IsNode(s, d) && !Takes(s, d, name)
    ensures Made(s, d, mode, name) == s
  {
  }

  /** In a new file system: the directory is refused, and success is reported. */
  method MkdirRefused() returns (fs: FileSystem, second: bool)
    ensures fs.Valid() && !Takes(fs.Store(), ROOT, "a") && second
    ensures Named(fs.Store(), "/a") == 1 && |fs.Store()| == 2
  {
    hide Orderly, Linked, Values, Named, Made, PointsTo, DirName, BaseName, Takes, NewRoot;
    fs := new FileSystem();
    ghost var s := fs.Store();
    PartsOfExample();
    FreshRoot(s);
    var first;
    first, second := MkdirTwice(fs, "/a");
    MadeIsNamed(s, Dir, "/a", "");
    MadeOnce(s, ROOT, Dir, "a");
  }

  /** An empty directory of a temporary file system is offered different names of at most 15
      characters: it takes the first 16, each then names its node, and refuses the others. */
  method MakeAll(fs: FileSystem, dir: Vnode, names: seq<string>) returns (made: seq<Vnode?>)
    requires fs.Valid() && Known(fs.nodes, dir) && dir.kind == Tmpfs && dir.mode == Dir
    requires forall i :: 0 <= i < |dir.entry| ==> dir.entry[i] == null
    requires forall i :: 0 <= i < |names| ==> |names[i]| <= 15
    requires forall i, j :: 0 <= i < j < |names| ==> names[i] != names[j]
    modifies fs, fs.nodes
    ensures fs.Valid() && Known(fs.nodes, dir) && |made| == |names|
    ensures forall i :: 0 <= i < |made| ==> (made[i] != null <==> i < 16)
    ensures forall i :: 0 <= i < |made| && i < 16 ==> Number(made[i]) == Child(fs.Store(), dir.id, names[i])
  {
    hide Orderly, Linked, Values, PointsTo, Made, Takes, Accepts, Lists, ChildFrom;
    made := [];
    ghost var ids: seq<int>, n := [], |fs.nodes|;
    EmptyLists(fs, dir, names);
    for i := 0 to |names|
      invariant fs.Valid() && Known(fs.nodes, dir) && |made| == |ids| == i && Lists(fs.Store(), dir.id, names, ids)
      invariant |fs.nodes| >= n && fs.nodes[..n] == old(fs.nodes) && fresh(fs.nodes[n..])
      invariant forall k :: 0 <= k < i ==> Number(made[k]) == ids[k] && (made[k] != null <==> k < 16)
    {
      ghost var before := fs.nodes;
      assert before == before[..n] + before[n..];
      assert forall v :: v in before ==> v in old(fs.nodes) || v in before[n..];
      var target := MakeNext(fs, dir, names, ids, i, old(fs.nodes));
      made, ids := made + [target], ids + [Number(target)];
    }
    forall i | 0 <= i < |made| && i < 16
      ensures Number(made[i]) == Child(fs.Store(), dir.id, names[i])
    {
      Listed(fs.Store(), dir.id, names, ids, i);
    }
  }

  lemma OneMoreNode(nodes: seq<Vnode>, first: seq<Vnode>, target: Vnode)
    requires |first| <= |nodes| && nodes[..|first|] == first
    ensures (nodes + [target])[..|first|] == first
    ensures (nodes + [target])[|first|..] == nodes[|first|..] + [target]
  {
  }

  /** One more of them. */
  method MakeNext(fs: FileSystem, dir: Vnode, names: seq<string>, ghost ids: seq<int>, i: nat, ghost first: seq<Vnode>)
      returns (target: Vnode?)
    requires fs.Valid() && Known(fs.nodes, dir) && Lists(fs.Store(), dir.id, names, ids) && |ids| == i < |names|
    requires |names[i]| <= 15 && forall j, k :: 0 <= j < k < |names| ==> names[j] != names[k]
    requires |first| <= |fs.nodes| && fs.nodes[..|first|] == first
    modifies fs, fs.nodes
    ensures fs.Valid() && Known(fs.nodes, dir) && Lists(fs.Store(), dir.id, names, ids + [Number(target)])
    ensures (target != null <==> i < 16) && (target != null ==> fresh(target))
    ensures |first| <= |fs.nodes| && fs.nodes[..|first|] == first
    ensures fs.nodes[|first|..] == old(fs.nodes[|first|..]) + if target == null then [] else [target]
  {
    hide Orderly, Linked, Values, PointsTo, Made, Takes, Accepts, Lists, ChildFrom;
    ghost var s := fs.Store();
    ListsNext(s, dir.id, File, names, ids);
    ghost var before := fs.nodes;
    target := fs.Make(dir, File, names[i]);
    if target != null {
      OneMoreNode(before, first, target);
      assert target == fs.nodes[|s|];
    }
  }

  lemma EmptyLists(fs: FileSystem, dir: Vnode, names: seq<string>)
    requires fs.Valid() && Known(fs.nodes, dir) && dir.kind == Tmpfs && dir.mode == Dir
    requires forall i :: 0 <= i < |dir.entry| ==> dir.entry[i] == null
    ensures Lists(fs.Store(), dir.id, names, [])
  {
    hide Orderly, PointsTo;
  }

  /** What a boot makes first. */
  method MkdirAtBoot() returns (fs: FileSystem, first: bool, second: bool)
    ensures fs.Valid() && first && second
    ensures Named(fs.Store(), "/initramfs") == 1 && Named(fs.Store(), "/dev") == 2
  {
    hide Orderly, Linked, Values, Named, Made, PointsTo, DirName, BaseName, Takes, NewRoot, Accepts;
    fs := new FileSystem();
    BootParts();
    ghost var s := fs.Store();
    FreshAccepts(s);
    first := fs.Mkdir("/initramfs");
    ghost var t, nodes := fs.Store(), fs.nodes;
    MadeIsNamed(s, Dir, "/initramfs", "");
    SecondAccepts(s, "initramfs", "dev");
    assert nodes == nodes[..1] + nodes[1..];
    assert forall v :: v in nodes ==> fresh(v);
    second := fs.Mkdir("/dev");
    MadeIsNamed(t, Dir, "/dev", "/initramfs");
  }

  lemma BootParts()
    ensures DirName("/initramfs") == "" && BaseName("/initramfs") == "initramfs"
    ensures DirName("/dev") == "" && BaseName("/dev") == "dev"
  {
    LastSlashAt("/initramfs", 0);
    LastSlashAt("/dev", 0);
  }

  lemma FreshAccepts(s: Store)
    requires s == NewRoot(Tmpfs, [], 0) && Sound(s)
    ensures |s| == 1 && Lists(s, ROOT, ["initramfs", "dev"], []) && Named(s, "") == ROOT
  {
    assert s[0].entry == FirstEntries(Tmpfs, 0, 1);
  }

  lemma SecondAccepts(s: Store, a: string, b: string)
    requires Sound(s) && Lists(s, ROOT, [a, b], []) && |a| <= 15 && |b| <= 15 && a != b
    ensures Accepts(s, ROOT, a)
    ensures var t := Made(s, ROOT, Dir, a); Sound(t) ==> Accepts(t, ROOT, b) && |t| == |s| + 1 && Named(t, "") == ROOT
  {
    var names := [a, b];
    ListsNext(s, ROOT, Dir, names, []);
    var t := Made(s, ROOT, Dir, a);
    TakesIff(s, ROOT, a);
    if Sound(t) {
      ListsNext(t, ROOT, Dir, names, [] + [|s|]);
    }
  }

  lemma PartsOfExample()
    ensures DirName("/a") == "" && BaseName("/a") == "a"
  {
    LastSlashAt("/a", 0);
  }

  lemma FreshRoot(s: Store)
    requires s == NewRoot(Tmpfs, [], 0) && Sound(s)
    ensures Takes(s, ROOT, "a") && Named(s, "") == ROOT
    ensures |s| == 1 && |Made(s, ROOT, Dir, "a")| == 2
  {
    assert s[0].entry == FirstEntries(Tmpfs, 0, 1);
    FirstFreeIs(s[0].entry, 0);
  }

  lemma Rejoined(first: seq<Vnode>, r: Vnode, nodes: seq<Vnode>)
    requires |nodes| > |first| && nodes[..|first| + 1] == first + [r]
    ensures nodes == first + ([r] + nodes[|first| + 1..])
  {
    assert nodes == nodes[..|first| + 1] + nodes[|first| + 1..];
  }

  lemma NoFiles(s: Store, kind: Kind, names: seq<string>)
    ensures s + [Inode(kind, Dir, "", NoEntries(kind), NIL)] == WithNew(s, kind, names[..0])
  {
    assert NoEntries(kind) == FirstEntries(kind, 0, |s| + 1);
  }

  lemma OneMoreFile(s: Store, kind: Kind, names: seq<string>, i: nat)
    requires |names| <= MaxEntries(kind) && i < |names|
    ensures var t := WithNew(s, kind, names[..i]) + [Inode(kind, File, "", NoEntries(kind), NIL)];
      var f := |s| + 1 + i;
      |t| == f + 1
      && var u := t[f := t[f].(name := names[i])];
        i < |u[|s|].entry|
        && u[|s| := u[|s|].(entry := u[|s|].entry[i := f])] == WithNew(s, kind, names[..i + 1])
  {
    assert FirstEntries(kind, i, |s| + 1)[i := |s| + 1 + i] == FirstEntries(kind, i + 1, |s| + 1);
  }

  lemma SearchFrom(s: Store, d: int, name: string, i: nat)
    requires Linked(s) && IsNode(s, d) && i <= |s[d].entry|
    ensures i == |s[d].entry| || s[d].entry[i] == NIL ==> ChildFrom(s, d, name, i) == NIL
    ensures i < |s[d].entry| && s[d].entry[i] != NIL ==>
      IsNode(s, s[d].entry[i])
      && ChildFrom(s, d, name, i)
        == (if s[s[d].entry[i]].name == name then s[d].entry[i] else ChildFrom(s, d, name, i + 1))
  {
  }

  /** A node that is created, linked and then named. */
  lemma GrownSteps(s: Store, d: int, i: nat, mode: Type, name: string)
    requires IsNode(s, d) && i < |s[d].entry|
    ensures var t := s + [Inode(Tmpfs, mode, "", NoEntries(Tmpfs), NIL)];
      var u := t[d := t[d].(entry := t[d].entry[i := |s|])];
      u[|s| := u[|s|].(name := name)] == Grown(s, d, i, NewNode(mode, name))
  {
  }

  /** All components of a path fit into the buffer for one. */
  predicate ComponentsFit(path: string) {
    forall i :: 0 <= i < |Split(path)| ==> |Split(path)[i]| <= 15
  }

  lemma ComponentEnds(name: string, rest: string)
    requires '/' !in name
    ensures Split(name + (['/'] + rest)) == [name] + Split(rest)
    ensures ComponentsFit(name + (['/'] + rest)) ==> ComponentsFit(rest)
  {
    hide Split;
    assert name + (['/'] + rest) == name + "/" + rest;
    SplitSlash(name, rest);
    SplitPlain(name);
    assert forall i :: 0 <= i < |Split(rest)| ==> ([name] + Split(rest))[i + 1] == Split(rest)[i];
  }

  lemma ComponentGrows(name: string, c: char, rest: string)
    requires '/' !in name && c != '/' && ComponentsFit(name + ([c] + rest))
    ensures name + ([c] + rest) == (name + [c]) + rest && |name| < MAX_FILE_NAME
  {
    assert name + ([c] + rest) == (name + [c]) + rest;
    FirstIsLong(name + [c], rest);
    assert |Split((name + [c]) + rest)[0]| <= MAX_FILE_NAME;
  }

  lemma {:induction false} FirstIsLong(name: string, rest: string)
    requires '/' !in name
    ensures |Split(name + rest)[0]| >= |name|
  {
    if name != [] {
      assert (name + rest)[1..] == name[1..] + rest;
      FirstIsLong(name[1..], rest);
    }
  }

  lemma WalkFirst(s: Store, v: int, name: string, rest: seq<string>)
    requires Linked(s) && IsNode(s, v)
    ensures var c := Walk(s, v, [name]);
      Walk(s, v, [name] + rest) == if c == NIL then NIL else Walk(s, c, rest)
  {
    WalkStep(s, v, name, []);
    WalkStep(s, v, name, rest);
    assert [name] + [] == [name];
  }

  lemma WalkStep(s: Store, v: int, name: string, rest: seq<string>)
    requires Linked(s) && IsNode(s, v)
    ensures var c := Child(s, v, name);
      if c == NIL then Walk(s, v, [name] + rest) == NIL
      else IsNode(s, c) && Walk(s, v, [name] + rest) == Walk(s, Redirect(s, c), rest)
  {
    ChildIsNode(s, v, name, 0);
    assert ([name] + rest)[1..] == rest;
  }

  lemma FirstStore()
    ensures Sound(NewRoot(Tmpfs, [], 0))
  {
    var s := NewRoot(Tmpfs, [], 0);
    assert Filled(s, 0, 0) && NamesDiffer(s, 0);
    assert OrderlyAt(s, 0);
  }
}
