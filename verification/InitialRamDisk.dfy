/** The initial ram disk among the mounted file systems: its files, read from an archive,
    become the entries of a new root, and paths lead to them. */
module InitialRamDisk {
  import opened Slices
  import opened Paths
  import opened FileTree
  import opened Vfs
  import Cpio

  /** The position of the first name that is the given one, or NIL. */
  function FirstOf(names: seq<string>, name: string): (k: int)
    ensures k == NIL ==> name !in names
    ensures k != NIL ==> 0 <= k < |names| && names[k] == name && name !in names[..k]
  {
    if names == [] then NIL
    else if names[0] == name then 0
    else
      var k := FirstOf(names[1..], name);
      assert k != NIL ==> names[..k + 1] == [names[0]] + names[1..][..k];
      if k == NIL then NIL else k + 1
  }

  function Names(files: seq<Cpio.File>): (r: seq<string>)
    ensures |r| == |files| && forall i :: 0 <= i < |r| ==> r[i] == files[i].name
  {
    seq(|files|, i requires 0 <= i < |files| => files[i].name)
  }

  /** The node that a path below a new root leads to when the root is number r: the first
      file of that name, and none if it has a slash. */
  function FileBelow(r: nat, names: seq<string>, q: string): int {
    var k := FirstOf(names, q);
    if '/' in q || k == NIL then NIL else r + 1 + k
  }

  /** A search among the entries of a new root. */
  lemma {:induction false} NewChild(s: Store, kind: Kind, names: seq<string>, name: string, i: nat)
    requires Linked(s) && |names| <= MaxEntries(kind) && i <= |names|
    ensures Linked(WithNew(s, kind, names))
    ensures var k := FirstOf(names[i..], name);
      ChildFrom(WithNew(s, kind, names), |s|, name, i) == if k == NIL then NIL else |s| + 1 + i + k
    decreases |names| - i
  {
    NewLinked(s, kind, names);
    NewAt(s, kind, names, |s|);
    if i < |names| {
      NewAt(s, kind, names, |s| + 1 + i);
      NewChild(s, kind, names, name, i + 1);
      assert names[i..][1..] == names[i + 1..];
    }
  }

  /** Below a new root that is mounted, a path of one component leads to the first file of
      that name, and longer paths lead nowhere, whatever slashes the names contain. */
  lemma MountedFiles(s: Store, path: string, names: seq<string>, q: string)
    requires Sound(s) && path != "" && Named(s, path) != NIL && |names| <= MaxEntries(Initramfs)
    ensures var t := MountedNew(s, path, Initramfs, names);
      Sound(t) && Named(t, path + "/" + q) == FileBelow(|s|, names, q)
  {
    hide Walk, Orderly, NewRoot, Redirect, WithNew;
    var d, u, t := Named(s, path), WithNew(s, Initramfs, names), MountedNew(s, path, Initramfs, names);
    MountedNewIs(s, path, Initramfs, names, q);
    NewLinked(s, Initramfs, names);
    var components := Split(q);
    var name := components[0];
    NewChild(s, Initramfs, names, name, 0);
    assert names[0..] == names;
    ChildSame(u, t, |s|, name, 0);
    var k := FirstOf(names, name);
    if k != NIL {
      NewAt(s, Initramfs, names, |s| + 1 + k);
    }
    OneStep(t, |s|, components);
    if '/' in q {
      SplitMore(q);
    } else {
      SplitPlain(q);
    }
  }

  /** A walk whose first step leads to a node without entries and mounts ends there. */
  lemma OneStep(t: Store, v: int, components: seq<string>)
    requires Linked(t) && IsNode(t, v) && components != []
    ensures var c := Child(t, v, components[0]);
      (c != NIL ==> IsNode(t, c))
      && (c == NIL || (t[c].mount == NIL && t[c].entry[0] == NIL) ==>
          Walk(t, v, components) == if |components| > 1 then NIL else c)
  {
    var c := Child(t, v, components[0]);
    ChildIsNode(t, v, components[0], 0);
  }

  /** No walk from elsewhere ends at a node whose name has a slash and that is mounted nowhere. */
  lemma {:induction false} NeverReached(t: Store, x: int, v: int, components: seq<string>)
    requires Linked(t) && IsNode(t, x) && IsNode(t, v) && v != x && '/' in t[x].name
    requires forall u :: 0 <= u < |t| ==> t[u].mount != x
    requires forall i :: 0 <= i < |components| ==> '/' !in components[i]
    ensures Walk(t, v, components) != x
    decreases |components|
  {
    if components != [] {
      var c := Child(t, v, components[0]);
      ChildIsNode(t, v, components[0], 0);
      if c != NIL {
        NotRedirected(t, x, c);
        NeverReached(t, x, Redirect(t, c), components[1..]);
      }
    }
  }

  lemma {:induction false} NotRedirected(t: Store, x: int, v: int)
    requires Linked(t) && IsNode(t, v) && v != x && forall u :: 0 <= u < |t| ==> t[u].mount != x
    ensures Redirect(t, v) != x
    decreases |t| - v
  {
    if t[v].mount != NIL {
      NotRedirected(t, x, t[v].mount);
    }
  }

  /** No path at all leads to a file whose name has a slash. */
  lemma SlashIsUnreachable(s: Store, path: string, names: seq<string>, k: nat, q: string)
    requires Sound(s) && Named(s, path) != NIL && |names| <= MaxEntries(Initramfs)
    requires k < |names| && '/' in names[k]
    ensures Sound(MountedNew(s, path, Initramfs, names))
    ensures Named(MountedNew(s, path, Initramfs, names), q) != |s| + 1 + k
  {
    hide Walk, Orderly, NewRoot, WithNew, Redirect, Split;
    var u, t, x := WithNew(s, Initramfs, names), MountedNew(s, path, Initramfs, names), |s| + 1 + k;
    MountedNewIs(s, path, Initramfs, names, q);
    NewAt(s, Initramfs, names, x);
    forall v | 0 <= v < |t| ensures t[v].mount != x {
      NewAt(s, Initramfs, names, v);
    }
    if q != "" {
      NeverReached(t, x, ROOT, Split(q[1..]));
    }
  }

  lemma {:induction false} SplitMore(q: string)
    requires '/' in q
    ensures |Split(q)| > 1
  {
    if q[0] != '/' {
      assert q == [q[0]] + q[1..];
      SplitMore(q[1..]);
    }
  }

  /** The names that lie in the archive. */
  method NamesOf(disk: Cpio.RamDisk, ghost files: seq<Cpio.File>) returns (names: seq<string>)
    requires Cpio.Lists(disk.bytes, disk.entry, files)
    ensures names == Names(files)
  {
    names := [];
    for i := 0 to |disk.entry|
      invariant names == Names(files)[..i]
    {
      assert Cpio.Holds(disk.bytes, disk.entry[i], files[i]);
      names := names + [StringAt(disk.bytes, disk.entry[i].name, '\0')];
    }
  }

  /** Mounting the disk: a path below the target leads to the node of the file of that name,
      whose contents are where the disk's entry of the same number says. */
  method MountArchive(fs: FileSystem, target: string, disk: Cpio.RamDisk, start: nat, ghost files: seq<Cpio.File>)
      returns (ok: bool)
    requires fs.Valid() && (target != "" ==> ComponentsFit(target[1..]))
    requires disk.entry == [] && Cpio.ArchiveAt(disk.bytes, start, files) && |files| <= 100
    modifies fs, fs.nodes, disk
    ensures fs.Valid() && (ok <==> Named(old(fs.Store()), target) != NIL)
    ensures Cpio.Lists(disk.bytes, disk.entry, files)
    ensures fs.Store() == MountedNew(old(fs.Store()), target, Initramfs, Names(files))
    ensures ok && target != "" ==>
      forall q :: Named(fs.Store(), target + "/" + q) == FileBelow(|old(fs.nodes)|, Names(files), q)
  {
    hide Values, Orderly, PointsTo, FileBelow, FirstOf, Cpio.ArchiveAt, Walk, WithNew;
    disk.SetupMount(start, files);
    var names := NamesOf(disk, files);
    ghost var s := fs.Store();
    ok := fs.Mount(target, Initramfs, names);
    if ok && target != "" {
      forall q
        ensures Named(fs.Store(), target + "/" + q) == FileBelow(|s|, names, q)
      {
        MountedFiles(s, target, names, q);
      }
    }
  }

  /** An archive with a file named "a/b": the disk lists it, and no path leads to it. */
  method MountSlash(fs: FileSystem, target: string) returns (disk: Cpio.RamDisk, ok: bool)
    requires fs.Valid() && (target != "" ==> ComponentsFit(target[1..])) && Named(fs.Store(), target) != NIL
    modifies fs, fs.nodes
    ensures fs.Valid() && ok && |disk.entry| == 1 && StringAt(disk.bytes, disk.entry[0].name, '\0') == "a/b"
    ensures forall q :: Named(fs.Store(), q) != old(|fs.nodes|) + 1
    ensures target != "" ==> Named(fs.Store(), target + "/" + "a/b") == NIL
  {
    hide Values, Orderly, PointsTo, FileBelow, FirstOf, Cpio.ArchiveAt, Walk, WithNew, Linked;
    var file := Cpio.File("a/b", "", false, Slices.Filled(48, '0'), Slices.Filled(32, '0'), Slices.Filled(8, '0'));
    var end := file.(name := Cpio.TRAILER);
    var files := [file];
    assert file.name != Cpio.TRAILER by { assert |file.name| == 3; }
    Cpio.EncodedArchive([], files, end, []);
    var bytes := [] + Cpio.EncodeAll(files) + Cpio.Encode(end) + [];
    disk := new Cpio.RamDisk(bytes);
    ghost var s := fs.Store();
    ok := MountArchive(fs, target, disk, 0, files);
    assert Cpio.Holds(disk.bytes, disk.entry[0], files[0]);
    assert '/' == "a/b"[1];
    forall q ensures Named(fs.Store(), q) != |s| + 1 {
      SlashIsUnreachable(s, target, Names(files), 0, q);
    }
    SlashIsNowhere(|s|, Names(files));
  }

  lemma SlashIsNowhere(r: nat, names: seq<string>)
    ensures FileBelow(r, names, "a/b") == NIL
  {
    assert "a/b"[1] == '/';
  }
}
