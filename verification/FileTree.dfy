/** The tree of file nodes and mounted file systems as a table of values, and what a path
    means in it: a walk from directory to directory, each time on to what is mounted. */
module FileTree {
  import opened Paths

  const MAX_FILE_NAME := 15
  const NIL := -1
  const ROOT := 0

  datatype Kind = Tmpfs | Initramfs
  datatype Type = Dir | File

  /** A node together with its inode. The root of what is mounted on it, and its entries,
      are numbers of nodes or NIL. */
  datatype Inode = Inode(kind: Kind, mode: Type, name: string, entry: seq<int>, mount: int)

  type Store = seq<Inode>

  function MaxEntries(kind: Kind): nat {
    if kind == Tmpfs then 16 else 100
  }

  predicate IsNode(s: Store, v: int) {
    0 <= v < |s|
  }

  /** Nodes are numbered in the order of their creation: entries and mounted roots come
      later than the nodes they hang from. */
  predicate Linked(s: Store) {
    |s| > 0
    && (forall v :: 0 <= v < |s| ==> |s[v].entry| == MaxEntries(s[v].kind))
    && (forall v :: 0 <= v < |s| ==> s[v].mount == NIL || v < s[v].mount < |s|)
    && (forall v, i :: 0 <= v < |s| && 0 <= i < |s[v].entry| ==>
        s[v].entry[i] == NIL || v < s[v].entry[i] < |s|)
  }

  /** How many entries there are when they leave no gap. */
  predicate Filled(s: Store, v: int, n: nat)
    requires IsNode(s, v)
  {
    n <= |s[v].entry| && (forall i :: 0 <= i < n ==> s[v].entry[i] != NIL)
    && (forall i :: n <= i < |s[v].entry| ==> s[v].entry[i] == NIL)
  }

  predicate NamesDiffer(s: Store, v: int)
    requires IsNode(s, v)
  {
    forall i, j :: 0 <= i < j < |s[v].entry| && IsNode(s, s[v].entry[i]) && IsNode(s, s[v].entry[j]) ==>
      s[s[v].entry[i]].name != s[s[v].entry[j]].name
  }

  /** Entries leave no gap, files have none, and in a temporary file system names differ. */
  ghost predicate Orderly(s: Store) {
    forall v :: 0 <= v < |s| ==> OrderlyAt(s, v)
  }

  ghost predicate OrderlyAt(s: Store, v: int)
    requires IsNode(s, v)
  {
    (exists n: nat :: Filled(s, v, n)) && (s[v].mode == File ==> Filled(s, v, 0))
    && (s[v].kind == Tmpfs ==> NamesDiffer(s, v))
  }

  ghost predicate Sound(s: Store) {
    Linked(s) && Orderly(s)
  }

  // What a path means.

  /** The entry of that name that a search from entry i onwards finds. */
  function ChildFrom(s: Store, v: int, name: string, i: nat): int
    requires Linked(s) && IsNode(s, v) && i <= |s[v].entry|
    decreases |s[v].entry| - i
  {
    if i == |s[v].entry| || s[v].entry[i] == NIL then NIL
    else if s[s[v].entry[i]].name == name then s[v].entry[i]
    else ChildFrom(s, v, name, i + 1)
  }

  function Child(s: Store, v: int, name: string): int
    requires Linked(s) && IsNode(s, v)
  {
    ChildFrom(s, v, name, 0)
  }

  /** The end of a chain of mounts. */
  function Redirect(s: Store, v: int): (r: int)
    requires Linked(s) && IsNode(s, v)
    ensures v <= r < |s| && s[r].mount == NIL
    decreases |s| - v
  {
    if s[v].mount == NIL then v else Redirect(s, s[v].mount)
  }

  function Walk(s: Store, v: int, components: seq<string>): (r: int)
    requires Linked(s) && IsNode(s, v)
    ensures r == NIL || IsNode(s, r)
    decreases |components|
  {
    if components == [] then v
    else
      var c := Child(s, v, components[0]);
      ChildIsNode(s, v, components[0], 0);
      if c == NIL then NIL else Walk(s, Redirect(s, c), components[1..])
  }

  /** What path names; its first character is not looked at. */
  function Named(s: Store, path: string): (r: int)
    requires Linked(s)
    ensures r == NIL || IsNode(s, r)
  {
    if path == "" then ROOT else Walk(s, ROOT, Split(path[1..]))
  }

  lemma {:induction false} ChildIsNode(s: Store, v: int, name: string, i: nat)
    requires Linked(s) && IsNode(s, v) && i <= |s[v].entry|
    ensures var c := ChildFrom(s, v, name, i);
      c != NIL ==> v < c < |s| && s[c].name == name && exists j :: i <= j < |s[v].entry| && s[v].entry[j] == c
    decreases |s[v].entry| - i
  {
    if i < |s[v].entry| && s[v].entry[i] != NIL && s[s[v].entry[i]].name != name {
      ChildIsNode(s, v, name, i + 1);
    }
  }

  /** A search finds an entry of that name whenever there is one, and in a temporary file
      system it is the only one. */
  lemma ChildIffNamed(s: Store, v: int, name: string, c: int)
    requires Sound(s) && IsNode(s, v) && s[v].kind == Tmpfs && c != NIL
    ensures Child(s, v, name) == c <==> c in s[v].entry && s[c].name == name
  {
    ChildIsNode(s, v, name, 0);
    if c in s[v].entry && s[c].name == name {
      var j :| 0 <= j < |s[v].entry| && s[v].entry[j] == c;
      assert OrderlyAt(s, v);
      var n: nat :| Filled(s, v, n);
      FoundBefore(s, v, name, 0, j);
    }
  }

  lemma {:induction false} FoundBefore(s: Store, v: int, name: string, i: nat, j: nat)
    requires Linked(s) && IsNode(s, v) && i <= j < |s[v].entry|
    requires forall k :: 0 <= k <= j ==> s[v].entry[k] != NIL
    requires s[s[v].entry[j]].name == name
    ensures ChildFrom(s, v, name, i) != NIL
    decreases j - i
  {
    if s[s[v].entry[i]].name != name {
      FoundBefore(s, v, name, i + 1, j);
    }
  }

  // Mounting.

  /** Node r becomes the root of what is mounted on d. */
  function Mounted(s: Store, d: int, r: int): Store
    requires IsNode(s, d)
  {
    s[d := s[d].(mount := r)]
  }

  lemma {:induction false} ChildSame(s: Store, t: Store, v: int, name: string, i: nat)
    requires Linked(s) && Linked(t) && IsNode(s, v) && |s| <= |t| && i <= |s[v].entry|
    requires t[v].entry == s[v].entry && forall u :: 0 <= u < |s| ==> t[u].name == s[u].name
    ensures ChildFrom(t, v, name, i) == ChildFrom(s, v, name, i)
    decreases |s[v].entry| - i
  {
    if i < |s[v].entry| && s[v].entry[i] != NIL {
      ChildSame(s, t, v, name, i + 1);
    }
  }

  /** Whether a chain of mounts leads to d or not, what changes is its end. */
  lemma {:induction false} RedirectMounted(s: Store, d: int, r: int, v: int)
    requires Linked(s) && IsNode(s, d) && s[d].mount == NIL && d < r < |s| && IsNode(s, v)
    ensures Linked(Mounted(s, d, r))
    ensures Redirect(Mounted(s, d, r), v) == if Redirect(s, v) == d then Redirect(s, r) else Redirect(s, v)
    decreases |s| - v
  {
    var t := Mounted(s, d, r);
    LinkedMounted(s, d, r);
    if v == d {
      RedirectAfter(s, d, r, r);
    } else if s[v].mount != NIL {
      RedirectMounted(s, d, r, s[v].mount);
    }
  }

  lemma LinkedMounted(s: Store, d: int, r: int)
    requires Linked(s) && IsNode(s, d) && d < r < |s|
    ensures Linked(Mounted(s, d, r))
  {
  }

  lemma {:induction false} RedirectAfter(s: Store, d: int, r: int, v: int)
    requires IsNode(s, d) && Linked(s) && Linked(Mounted(s, d, r)) && d < v < |s|
    ensures Redirect(Mounted(s, d, r), v) == Redirect(s, v)
    decreases |s| - v
  {
    if s[v].mount != NIL {
      RedirectAfter(s, d, r, s[v].mount);
    }
  }

  /** How many components a walk takes before it first stands at d, or NIL. */
  function Reaches(s: Store, v: int, components: seq<string>, d: int): (n: int)
    requires Linked(s) && IsNode(s, v)
    ensures n == NIL || 1 <= n <= |components|
    decreases |components|
  {
    if components == [] then NIL
    else
      var c := Child(s, v, components[0]);
      ChildIsNode(s, v, components[0], 0);
      if c == NIL then NIL
      else if Redirect(s, c) == d then 1
      else
        var n := Reaches(s, Redirect(s, c), components[1..], d);
        if n == NIL then NIL else n + 1
  }

  /** After mounting, a walk that never stands at d ends where it did; any other goes on
      from the new root with the components that are left. */
  lemma {:induction false} WalkMounted(s: Store, d: int, r: int, v: int, components: seq<string>)
    requires Linked(s) && IsNode(s, d) && s[d].mount == NIL && d < r < |s| && s[r].mount == NIL && IsNode(s, v)
    ensures Linked(Mounted(s, d, r))
    ensures var t, n := Mounted(s, d, r), Reaches(s, v, components, d);
      Walk(t, v, components) == if n == NIL then Walk(s, v, components) else Walk(t, r, components[n..])
    decreases |components|
  {
    var t := Mounted(s, d, r);
    LinkedMounted(s, d, r);
    if components != [] {
      ChildSame(s, t, v, components[0], 0);
      var c := Child(s, v, components[0]);
      ChildIsNode(s, v, components[0], 0);
      if c != NIL {
        RedirectMounted(s, d, r, c);
        if Redirect(s, c) != d {
          WalkMounted(s, d, r, Redirect(s, c), components[1..]);
          var n := Reaches(s, Redirect(s, c), components[1..], d);
          if n != NIL {
            assert components[1..][n..] == components[n + 1..];
          }
        }
      }
    }
  }

  /** Walks only go to later nodes. */
  lemma {:induction false} WalkGrows(s: Store, v: int, components: seq<string>)
    requires Linked(s) && IsNode(s, v) && components != []
    ensures Walk(s, v, components) == NIL || Walk(s, v, components) > v
    decreases |components|
  {
    var c := Child(s, v, components[0]);
    ChildIsNode(s, v, components[0], 0);
    if c != NIL && |components| > 1 {
      WalkGrows(s, Redirect(s, c), components[1..]);
    }
  }

  lemma {:induction false} ReachesEnd(s: Store, v: int, components: seq<string>, more: seq<string>)
    requires Linked(s) && IsNode(s, v) && components != [] && Walk(s, v, components) != NIL
    ensures Reaches(s, v, components + more, Walk(s, v, components)) == |components|
    decreases |components|
  {
    var c := Child(s, v, components[0]);
    ChildIsNode(s, v, components[0], 0);
    assert (components + more)[1..] == components[1..] + more;
    if |components| > 1 {
      WalkGrows(s, Redirect(s, c), components[1..]);
      ReachesEnd(s, Redirect(s, c), components[1..], more);
    }
  }

  lemma {:induction false} WalkEndsUnmounted(s: Store, v: int, components: seq<string>)
    requires Linked(s) && IsNode(s, v) && components != [] && Walk(s, v, components) != NIL
    ensures s[Walk(s, v, components)].mount == NIL
    decreases |components|
  {
    ChildIsNode(s, v, components[0], 0);
    if |components| > 1 {
      WalkEndsUnmounted(s, Redirect(s, Child(s, v, components[0])), components[1..]);
    }
  }

  /** After mounting on what a path names, the path names the new root, what it led on to
      is looked for from there, and a path that does not go through is as before. */
  lemma MountedOnPath(s: Store, path: string, r: int, q: string)
    requires Linked(s) && path != "" && Named(s, path) != NIL
    requires Named(s, path) < r < |s| && s[r].mount == NIL
    ensures var d := Named(s, path); var t := Mounted(s, d, r);
      Linked(t) && Named(t, path) == r && Named(t, path + "/" + q) == Walk(t, r, Split(q))
      && (q == "" || Reaches(s, ROOT, Split(q[1..]), d) == NIL ==> Named(t, q) == Named(s, q))
  {
    hide Linked, Split, Reaches, Walk;
    var d := Named(s, path);
    var p := Split(path[1..]);
    NamedIsUnmounted(s, path);
    WalkThrough(s, r, p, []);
    var longer := path + "/" + q;
    assert longer[1..] == path[1..] + "/" + q;
    SplitSlash(path[1..], q);
    WalkThrough(s, r, p, Split(q));
    assert p + [] == p;
    assert Walk(Mounted(s, d, r), r, []) == r by { WalkNothing(Mounted(s, d, r), r); }
    if q != "" {
      WalkMounted(s, d, r, ROOT, Split(q[1..]));
    }
  }

  lemma NamedIsUnmounted(s: Store, path: string)
    requires Linked(s) && path != "" && Named(s, path) != NIL
    ensures s[Named(s, path)].mount == NIL
  {
    WalkEndsUnmounted(s, ROOT, Split(path[1..]));
  }

  /** A walk through the place where r is mounted goes on from r. */
  lemma WalkThrough(s: Store, r: int, p: seq<string>, more: seq<string>)
    requires Linked(s) && p != [] && Walk(s, ROOT, p) != NIL
    requires Walk(s, ROOT, p) < r < |s| && s[r].mount == NIL && s[Walk(s, ROOT, p)].mount == NIL
    ensures var t := Mounted(s, Walk(s, ROOT, p), r);
      Linked(t) && Walk(t, ROOT, p + more) == Walk(t, r, more)
  {
    hide Linked, Reaches, Walk;
    ReachesEnd(s, ROOT, p, more);
    WalkMounted(s, Walk(s, ROOT, p), r, ROOT, p + more);
    assert (p + more)[|p|..] == more;
  }

  /** Mounting on the empty path changes what no path names. */
  lemma {:induction false} MountedOnRoot(s: Store, r: int, v: int, components: seq<string>)
    requires Linked(s) && ROOT < r < |s| && IsNode(s, v)
    ensures Linked(Mounted(s, ROOT, r))
    ensures Walk(Mounted(s, ROOT, r), v, components) == Walk(s, v, components)
    decreases |components|
  {
    var t := Mounted(s, ROOT, r);
    LinkedMounted(s, ROOT, r);
    if components != [] {
      ChildSame(s, t, v, components[0], 0);
      var c := Child(s, v, components[0]);
      ChildIsNode(s, v, components[0], 0);
      if c != NIL {
        RedirectAfter(s, ROOT, r, c);
        MountedOnRoot(s, r, Redirect(s, c), components[1..]);
      }
    }
  }

  /** Mounting takes effect exactly for the paths that are not empty. */
  lemma MountTakesEffectIff(s: Store, path: string, r: int)
    requires Linked(s) && Named(s, path) != NIL
    requires Named(s, path) < r < |s| && s[r].mount == NIL
    ensures Linked(Mounted(s, Named(s, path), r))
    ensures Named(Mounted(s, Named(s, path), r), path) == r <==> path != ""
  {
    if path == "" {
      LinkedMounted(s, ROOT, r);
    } else {
      MountedOnPath(s, path, r, "");
    }
  }

  // New nodes.

  /** Nodes that nothing leads to are not seen. */
  lemma {:induction false} WalkAppended(s: Store, news: seq<Inode>, v: int, components: seq<string>)
    requires Linked(s) && Linked(s + news) && IsNode(s, v)
    ensures Walk(s + news, v, components) == Walk(s, v, components)
    decreases |components|
  {
    if components != [] {
      ChildSame(s, s + news, v, components[0], 0);
      var c := Child(s, v, components[0]);
      ChildIsNode(s, v, components[0], 0);
      if c != NIL {
        RedirectAppended(s, news, c);
        WalkAppended(s, news, Redirect(s, c), components[1..]);
      }
    }
  }

  lemma {:induction false} RedirectAppended(s: Store, news: seq<Inode>, v: int)
    requires Linked(s) && Linked(s + news) && IsNode(s, v)
    ensures Redirect(s + news, v) == Redirect(s, v)
    decreases |s| - v
  {
    if s[v].mount != NIL {
      RedirectAppended(s, news, s[v].mount);
    }
  }

  function NoEntries(kind: Kind): (r: seq<int>)
    ensures |r| == MaxEntries(kind) && forall i :: 0 <= i < |r| ==> r[i] == NIL
  {
    seq(MaxEntries(kind), i => NIL)
  }

  /** The node that a new one hangs from, in its entry i. */
  function Grown(s: Store, d: int, i: nat, node: Inode): Store
    requires IsNode(s, d) && i < |s[d].entry|
  {
    s[d := s[d].(entry := s[d].entry[i := |s|])] + [node]
  }

  lemma GrownLinked(s: Store, d: int, i: nat, node: Inode)
    requires Linked(s) && IsNode(s, d) && i < |s[d].entry|
    requires node.entry == NoEntries(node.kind) && node.mount == NIL
    ensures Linked(Grown(s, d, i, node))
  {
  }

  /** A search in a directory finds the new entry by its name, and all else as before. */
  lemma {:induction false} ChildGrown(s: Store, d: int, n: nat, node: Inode, name: string, i: nat)
    requires Linked(s) && IsNode(s, d) && Filled(s, d, n) && i <= n < |s[d].entry|
    requires node.entry == NoEntries(node.kind) && node.mount == NIL
    ensures Linked(Grown(s, d, n, node))
    ensures ChildFrom(Grown(s, d, n, node), d, name, i)
      == if ChildFrom(s, d, name, i) == NIL && name == node.name then |s| else ChildFrom(s, d, name, i)
    decreases n - i
  {
    GrownLinked(s, d, n, node);
    var t := Grown(s, d, n, node);
    if i < n {
      ChildGrown(s, d, n, node, name, i + 1);
    } else if node.name != name {
      assert n + 1 == |s[d].entry| || t[d].entry[n + 1] == NIL;
    }
  }

  lemma {:induction false} RedirectGrown(s: Store, d: int, i: nat, node: Inode, v: int)
    requires Linked(s) && IsNode(s, d) && i < |s[d].entry| && IsNode(s, v)
    requires node.entry == NoEntries(node.kind) && node.mount == NIL
    ensures Linked(Grown(s, d, i, node))
    ensures Redirect(Grown(s, d, i, node), v) == Redirect(s, v)
    decreases |s| - v
  {
    GrownLinked(s, d, i, node);
    if s[v].mount != NIL {
      RedirectGrown(s, d, i, node, s[v].mount);
    }
  }

  /** What is named after a node has been added: the same as before, and the new node by
      its name in its directory. */
  function NamedAfter(s: Store, d: int, name: string, v: int, components: seq<string>): int
    requires Linked(s) && IsNode(s, v)
  {
    var was := Walk(s, v, components);
    if was != NIL then was
    else
      var n := |components| - 1;
      if Walk(s, v, components[..n]) == d && components[n] == name then |s| else NIL
  }

  lemma {:induction false} WalkGrown(s: Store, d: int, n: nat, node: Inode, v: int, components: seq<string>)
    requires Linked(s) && IsNode(s, d) && Filled(s, d, n) && n < |s[d].entry| && IsNode(s, v)
    requires node.entry == NoEntries(node.kind) && node.mount == NIL && Child(s, d, node.name) == NIL
    ensures Linked(Grown(s, d, n, node))
    ensures Walk(Grown(s, d, n, node), v, components) == NamedAfter(s, d, node.name, v, components)
    decreases |components|
  {
    var t := Grown(s, d, n, node);
    GrownLinked(s, d, n, node);
    if components != [] {
      var name, rest := components[0], components[1..];
      StepGrown(s, d, n, node, v, name);
      var c := Child(s, v, name);
      ChildIsNode(s, v, name, 0);
      hide Linked, Child, Grown, Filled;
      if c != NIL {
        WalkGrown(s, d, n, node, Redirect(s, c), rest);
        FrontOfRest(components);
      } else if rest != [] && v == d && name == node.name {
        NothingBelow(t, |s|, rest);
      }
    }
  }

  /** One step of a walk, after a node has been added. */
  lemma StepGrown(s: Store, d: int, n: nat, node: Inode, v: int, name: string)
    requires Linked(s) && IsNode(s, d) && Filled(s, d, n) && n < |s[d].entry| && IsNode(s, v)
    requires node.entry == NoEntries(node.kind) && node.mount == NIL && Child(s, d, node.name) == NIL
    ensures Linked(Grown(s, d, n, node))
    ensures var t := Grown(s, d, n, node); var c := Child(s, v, name);
      |t| == |s| + 1 && t[|s|] == node && Child(t, v, name) == (if v == d && name == node.name then |s| else c)
      && (c != NIL ==> IsNode(s, c) && Redirect(t, c) == Redirect(s, c))
      && Redirect(t, |s|) == |s|
  {
    GrownLinked(s, d, n, node);
    if v == d {
      ChildGrown(s, d, n, node, name, 0);
    } else {
      ChildSame(s, Grown(s, d, n, node), v, name, 0);
    }
    ChildIsNode(s, v, name, 0);
    if Child(s, v, name) != NIL {
      RedirectGrown(s, d, n, node, Child(s, v, name));
    }
  }

  lemma NothingBelow(s: Store, v: int, components: seq<string>)
    requires Linked(s) && IsNode(s, v) && s[v].entry == NoEntries(s[v].kind) && components != []
    ensures Walk(s, v, components) == NIL
  {
  }

  lemma FrontOfRest(components: seq<string>)
    requires components != []
    ensures var rest, n := components[1..], |components| - 1;
      |components| > 1 ==> rest[..n - 1] == components[..n][1..] && rest[n - 1] == components[n]
  {
  }

  // Making files and directories.

  function FirstFree(entry: seq<int>): (n: nat)
    ensures n <= |entry| && (forall i :: 0 <= i < n ==> entry[i] != NIL) && (n < |entry| ==> entry[n] == NIL)
  {
    if entry == [] || entry[0] == NIL then 0
    else
      var n := FirstFree(entry[1..]);
      assert forall i :: 0 < i <= n ==> entry[i] == entry[1..][i - 1];
      n + 1
  }

  /** Only a directory of a temporary file system takes a new entry, when it has no entry
      of that name and is not full, and the name is not too long. */
  predicate Takes(s: Store, d: int, name: string)
    requires Linked(s) && IsNode(s, d)
  {
    s[d].kind == Tmpfs && s[d].mode == Dir && Child(s, d, name) == NIL
    && FirstFree(s[d].entry) < |s[d].entry| && |name| <= MAX_FILE_NAME
  }

  function NewNode(mode: Type, name: string): Inode {
    Inode(Tmpfs, mode, name, NoEntries(Tmpfs), NIL)
  }

  function Made(s: Store, d: int, mode: Type, name: string): Store
    requires Linked(s) && IsNode(s, d)
  {
    if Takes(s, d, name) then Grown(s, d, FirstFree(s[d].entry), NewNode(mode, name)) else s
  }

  lemma FreeIsFilled(s: Store, d: int)
    requires Sound(s) && IsNode(s, d)
    ensures Filled(s, d, FirstFree(s[d].entry))
  {
    assert OrderlyAt(s, d);
    var n: nat :| Filled(s, d, n);
    FirstFreeIs(s[d].entry, n);
  }

  lemma {:induction false} FirstFreeIs(entry: seq<int>, n: nat)
    requires n <= |entry| && (forall i :: 0 <= i < n ==> entry[i] != NIL) && (n < |entry| ==> entry[n] == NIL)
    ensures FirstFree(entry) == n
  {
    if n > 0 {
      FirstFreeIs(entry[1..], n - 1);
    }
  }

  /** Names stay different and entries without gaps, and what is named afterwards. */
  lemma MadeKeeps(s: Store, d: int, mode: Type, name: string, v: int, components: seq<string>)
    requires Sound(s) && IsNode(s, d) && Takes(s, d, name) && IsNode(s, v)
    ensures Sound(Made(s, d, mode, name))
    ensures Walk(Made(s, d, mode, name), v, components) == NamedAfter(s, d, name, v, components)
  {
    hide Orderly;
    FreeIsFilled(s, d);
    var n := FirstFree(s[d].entry);
    WalkGrown(s, d, n, NewNode(mode, name), v, components);
    GrownOrderly(s, d, n, NewNode(mode, name));
  }

  /** How many entries are in use. */
  function Count(entry: seq<int>): nat {
    if entry == [] then 0
    else
      var n := |entry| - 1;
      Count(entry[..n]) + if entry[n] == NIL then 0 else 1
  }

  lemma {:induction false} CountIs(entry: seq<int>, n: nat)
    requires n <= |entry| && (forall i :: 0 <= i < n ==> entry[i] != NIL)
    requires forall i :: n <= i < |entry| ==> entry[i] == NIL
    ensures Count(entry) == n
  {
    if entry != [] {
      var m := |entry| - 1;
      CountIs(entry[..m], if n <= m then n else m);
    }
  }

  /** A directory of a temporary file system holds 16 entries of different names, and a name
      has up to 15 characters. */
  predicate Accepts(s: Store, d: int, name: string)
    requires IsNode(s, d)
  {
    && s[d].kind == Tmpfs && s[d].mode == Dir && |name| <= 15 && Count(s[d].entry) < 16
    && forall i :: 0 <= i < |s[d].entry| && IsNode(s, s[d].entry[i]) ==> s[s[d].entry[i]].name != name
  }

  lemma TakesIff(s: Store, d: int, name: string)
    requires Sound(s) && IsNode(s, d)
    ensures Takes(s, d, name) <==> Accepts(s, d, name)
  {
    hide Orderly, FirstFree, ChildFrom;
    FreeIsFilled(s, d);
    CountIs(s[d].entry, FirstFree(s[d].entry));
    if s[d].kind == Tmpfs {
      ChildIsNode(s, d, name, 0);
      forall i | 0 <= i < |s[d].entry| && IsNode(s, s[d].entry[i]) && s[s[d].entry[i]].name == name
        ensures Child(s, d, name) != NIL
      {
        ChildIffNamed(s, d, name, s[d].entry[i]);
      }
    }
  }

  /** The first entries of a directory of a temporary file system, up to 16, are nodes with
      these names, and it has no others. */
  predicate Lists(s: Store, d: int, names: seq<string>, ids: seq<int>) {
    && IsNode(s, d) && s[d].kind == Tmpfs && s[d].mode == Dir && |s[d].entry| == 16 && |ids| <= |names|
    && (forall k :: 0 <= k < |ids| && k < 16 ==>
        IsNode(s, ids[k]) && s[d].entry[k] == ids[k] && s[ids[k]].name == names[k])
    && (forall k :: |ids| <= k < 16 ==> s[d].entry[k] == NIL)
    && (forall k :: 16 <= k < |ids| ==> ids[k] == NIL)
  }

  /** It takes the next name exactly if it has fewer than 16. */
  lemma ListsNext(s: Store, d: int, mode: Type, names: seq<string>, ids: seq<int>)
    requires Sound(s) && Lists(s, d, names, ids) && |ids| < |names| && |names[|ids|]| <= 15
    requires forall j, k :: 0 <= j < k < |names| ==> names[j] != names[k]
    ensures var name := names[|ids|]; var t := Made(s, d, mode, name);
      Accepts(s, d, name) == (|ids| < 16) && Lists(t, d, names, ids + [if |ids| < 16 then |s| else NIL])
  {
    hide Orderly, FirstFree;
    var i := |ids|;
    CountIs(s[d].entry, if i < 16 then i else 16);
    TakesIff(s, d, names[i]);
    FirstFreeIs(s[d].entry, if i < 16 then i else 16);
  }

  lemma Listed(s: Store, d: int, names: seq<string>, ids: seq<int>, k: nat)
    requires Sound(s) && Lists(s, d, names, ids) && k < |ids| && k < 16
    ensures Child(s, d, names[k]) == ids[k] != NIL
  {
    hide Orderly, ChildFrom;
    ChildIffNamed(s, d, names[k], ids[k]);
  }

  /** A name that has been offered once is not taken again. */
  lemma MadeOnce(s: Store, d: int, mode: Type, name: string)
    requires Sound(s) && IsNode(s, d)
    ensures var t := Made(s, d, mode, name); Sound(t) && IsNode(t, d) && !Takes(t, d, name)
  {
    hide Orderly, FirstFree;
    if Takes(s, d, name) {
      FreeIsFilled(s, d);
      var n := FirstFree(s[d].entry);
      GrownOrderly(s, d, n, NewNode(mode, name));
      ChildGrown(s, d, n, NewNode(mode, name), name, 0);
    }
  }

  lemma GrownOrderly(s: Store, d: int, n: nat, node: Inode)
    requires Sound(s) && IsNode(s, d) && Filled(s, d, n) && n < |s[d].entry| && s[d].mode == Dir
    requires node.entry == NoEntries(node.kind) && node.mount == NIL && Child(s, d, node.name) == NIL
    ensures Sound(Grown(s, d, n, node))
  {
    hide NamesDiffer, Filled;
    GrownLinked(s, d, n, node);
    var t := Grown(s, d, n, node);
    forall v | 0 <= v < |t|
      ensures OrderlyAt(t, v)
    {
      if v == |s| {
        NothingIn(t, v);
      } else if v == d {
        OneMore(s, d, n, node);
        assert t[d].mode == Dir && t[d].kind == s[d].kind;
        assert OrderlyAt(s, d);
        var more: nat := n + 1;
        assert Filled(t, d, more);
      } else {
        assert OrderlyAt(s, v);
        var m: nat :| Filled(s, v, m);
        SameEntries(s, t, v, m);
        SameEntries(s, t, v, 0);
      }
    }
  }

  lemma NothingIn(t: Store, v: int)
    requires IsNode(t, v) && t[v].entry == NoEntries(t[v].kind)
    ensures Filled(t, v, 0) && NamesDiffer(t, v)
  {
  }

  lemma SameEntries(s: Store, t: Store, v: int, n: nat)
    requires Linked(s) && IsNode(s, v) && |s| <= |t| && t[v].entry == s[v].entry
    requires forall u :: 0 <= u < |s| ==> t[u].name == s[u].name
    ensures Filled(s, v, n) ==> Filled(t, v, n)
    ensures NamesDiffer(s, v) ==> NamesDiffer(t, v)
  {
  }

  lemma OneMore(s: Store, d: int, n: nat, node: Inode)
    requires Linked(s) && IsNode(s, d) && Filled(s, d, n) && n < |s[d].entry|
    requires Child(s, d, node.name) == NIL
    ensures Filled(Grown(s, d, n, node), d, n + 1)
    ensures NamesDiffer(s, d) ==> NamesDiffer(Grown(s, d, n, node), d)
  {
    var t := Grown(s, d, n, node);
    forall i | 0 <= i < |t[d].entry| && i != n && IsNode(t, t[d].entry[i])
      ensures IsNode(s, s[d].entry[i]) && t[t[d].entry[i]].name == s[s[d].entry[i]].name != node.name
    {
      if s[s[d].entry[i]].name == node.name {
        FoundBefore(s, d, node.name, 0, i);
      }
    }
  }

  // Mounting a new file system.

  /** The root of a new file system, and the files that it has from the start. */
  function NewRoot(kind: Kind, names: seq<string>, base: nat): (r: seq<Inode>)
    requires |names| <= MaxEntries(kind)
    ensures |r| == |names| + 1
  {
    [Inode(kind, Dir, "", FirstEntries(kind, |names|, base + 1), NIL)]
    + seq(|names|, i requires 0 <= i < |names| => Inode(kind, File, names[i], NoEntries(kind), NIL))
  }

  /** Entries for n nodes, and none behind them. */
  function FirstEntries(kind: Kind, n: nat, first: nat): (r: seq<int>)
    requires n <= MaxEntries(kind)
    ensures |r| == MaxEntries(kind)
    ensures forall i :: 0 <= i < |r| ==> r[i] == if i < n then first + i else NIL
  {
    seq(MaxEntries(kind), i requires 0 <= i < MaxEntries(kind) => if i < n then first + i else NIL)
  }

  function WithNew(s: Store, kind: Kind, names: seq<string>): (t: Store)
    requires |names| <= MaxEntries(kind)
    ensures |t| == |s| + |names| + 1
  {
    s + NewRoot(kind, names, |s|)
  }

  lemma WithNewSound(s: Store, kind: Kind, names: seq<string>)
    requires Sound(s) && |names| <= MaxEntries(kind) && (kind == Tmpfs ==> names == [])
    ensures Sound(WithNew(s, kind, names))
  {
    hide NamesDiffer, Filled;
    var t := WithNew(s, kind, names);
    NewLinked(s, kind, names);
    forall v | 0 <= v < |t|
      ensures OrderlyAt(t, v)
    {
      if v < |s| {
        assert OrderlyAt(s, v);
        var m: nat :| Filled(s, v, m);
        SameEntries(s, t, v, m);
        SameEntries(s, t, v, 0);
      } else if v == |s| {
        RootFilled(s, kind, names);
        if names == [] {
          assert t[v].entry == NoEntries(kind);
          NothingIn(t, v);
        }
      } else {
        NothingIn(t, v);
      }
    }
  }

  lemma NewAt(s: Store, kind: Kind, names: seq<string>, v: nat)
    requires |names| <= MaxEntries(kind) && v < |WithNew(s, kind, names)|
    ensures var t := WithNew(s, kind, names);
      t[v] == if v < |s| then s[v]
        else if v == |s| then Inode(kind, Dir, "", FirstEntries(kind, |names|, |s| + 1), NIL)
        else Inode(kind, File, names[v - |s| - 1], NoEntries(kind), NIL)
  {
  }

  lemma NewLinked(s: Store, kind: Kind, names: seq<string>)
    requires Linked(s) && |names| <= MaxEntries(kind)
    ensures Linked(WithNew(s, kind, names))
  {
    hide WithNew;
    var t := WithNew(s, kind, names);
    forall v | 0 <= v < |t|
      ensures |t[v].entry| == MaxEntries(t[v].kind)
      ensures t[v].mount == NIL || v < t[v].mount < |t|
      ensures forall i :: 0 <= i < |t[v].entry| ==> t[v].entry[i] == NIL || v < t[v].entry[i] < |t|
    {
      NewAt(s, kind, names, v);
    }
  }

  lemma RootFilled(s: Store, kind: Kind, names: seq<string>)
    requires |names| <= MaxEntries(kind)
    ensures var m: nat := |names|; Filled(WithNew(s, kind, names), |s|, m)
  {
  }

  lemma MountedSound(s: Store, d: int, r: int)
    requires Sound(s) && IsNode(s, d) && d < r < |s|
    ensures Sound(Mounted(s, d, r))
  {
    hide NamesDiffer, Filled;
    LinkedMounted(s, d, r);
    var t := Mounted(s, d, r);
    forall v | 0 <= v < |t|
      ensures OrderlyAt(t, v)
    {
      assert OrderlyAt(s, v);
      var m: nat :| Filled(s, v, m);
      SameEntries(s, t, v, m);
      SameEntries(s, t, v, 0);
    }
  }

  /** A new file system, mounted on what a path names. */
  function MountedNew(s: Store, path: string, kind: Kind, names: seq<string>): Store
    requires Linked(s) && |names| <= MaxEntries(kind)
  {
    var d := Named(s, path);
    if d == NIL then s else Mounted(WithNew(s, kind, names), d, |s|)
  }

  lemma NamedAppended(s: Store, kind: Kind, names: seq<string>, path: string)
    requires Linked(s) && |names| <= MaxEntries(kind)
    ensures Linked(WithNew(s, kind, names)) && Named(WithNew(s, kind, names), path) == Named(s, path)
  {
    NewLinked(s, kind, names);
    if path != "" {
      WalkAppended(s, NewRoot(kind, names, |s|), ROOT, Split(path[1..]));
    }
  }

  lemma {:induction false} ReachesAppended(s: Store, news: seq<Inode>, v: int, components: seq<string>, d: int)
    requires Linked(s) && Linked(s + news) && IsNode(s, v)
    ensures Reaches(s + news, v, components, d) == Reaches(s, v, components, d)
    decreases |components|
  {
    if components != [] {
      ChildSame(s, s + news, v, components[0], 0);
      var c := Child(s, v, components[0]);
      ChildIsNode(s, v, components[0], 0);
      if c != NIL {
        RedirectAppended(s, news, c);
        ReachesAppended(s, news, Redirect(s, c), components[1..], d);
      }
    }
  }

  /** Mounting by path: the path names the new root exactly when it is not empty, longer
      paths are looked for in the new file system, and other paths are as before. */
  lemma MountedNewIs(s: Store, path: string, kind: Kind, names: seq<string>, q: string)
    requires Sound(s) && Named(s, path) != NIL
    requires |names| <= MaxEntries(kind) && (kind == Tmpfs ==> names == [])
    ensures var t, d := MountedNew(s, path, kind, names), Named(s, path);
      Sound(t) && t[|s|].kind == kind && (Named(t, path) == |s| <==> path != "")
      && (path != "" ==> Named(t, path + "/" + q) == Walk(t, |s|, Split(q)))
      && (path == "" || q == "" || Reaches(s, ROOT, Split(q[1..]), d) == NIL ==> Named(t, q) == Named(s, q))
  {
    hide Walk, Orderly, NewRoot, Reaches, Redirect;
    var u, d := WithNew(s, kind, names), Named(s, path);
    WithNewSound(s, kind, names);
    NamedAppended(s, kind, names, path);
    NamedAppended(s, kind, names, q);
    MountedSound(u, d, |s|);
    NewRootIs(s, kind, names);
    MountTakesEffectIff(u, path, |s|);
    if path != "" {
      MountedOnPath(u, path, |s|, q);
      if q != "" {
        ReachesAppended(s, NewRoot(kind, names, |s|), ROOT, Split(q[1..]), d);
      }
    } else if q != "" {
      MountedOnRoot(u, |s|, ROOT, Split(q[1..]));
    }
  }

  lemma NewRootIs(s: Store, kind: Kind, names: seq<string>)
    requires |names| <= MaxEntries(kind)
    ensures var u := WithNew(s, kind, names); |u| > |s| && u[|s|].kind == kind && u[|s|].mount == NIL
  {
  }

  // The last component of a path.

  /** The position of the last slash, or 0. */
  function LastSlash(path: string): (k: nat)
    ensures path == "" ==> k == 0
    ensures path != "" ==> k < |path|
  {
    if path == "" then 0
    else
      var n := |path| - 1;
      if path[n] == '/' then n else LastSlash(path[..n])
  }

  lemma {:induction false} LastSlashIs(path: string)
    ensures var k := LastSlash(path);
      (k == 0 || path[k] == '/') && forall i :: k < i < |path| ==> path[i] != '/'
  {
    if path != "" {
      LastSlashIs(path[..|path| - 1]);
    }
  }

  lemma LastSlashAt(path: string, k: nat)
    requires path != "" && k < |path| && (k == 0 || path[k] == '/')
    requires forall i :: k < i < |path| ==> path[i] != '/'
    ensures LastSlash(path) == k
  {
    LastSlashIs(path);
  }

  /** Directory and name of a path, as making a directory takes it apart. */
  function DirName(path: string): string {
    path[..LastSlash(path)]
  }

  function BaseName(path: string): string
    requires path != ""
  {
    path[LastSlash(path) + 1..]
  }

  /** The components of a path are those of its directory and its name. */
  lemma PartsOf(path: string)
    requires path != ""
    ensures Split(path[1..])
      == (if DirName(path) == "" then [] else Split(DirName(path)[1..])) + [BaseName(path)]
  {
    hide Split;
    var k := LastSlash(path);
    LastSlashIs(path);
    var name := path[k + 1..];
    SplitPlain(name);
    if k > 0 {
      assert path[1..] == path[..k][1..] + "/" + name;
      SplitSlash(path[..k][1..], name);
    }
  }

  /** After a directory or a file has been made by its path, the path names it, exactly when
      the directory takes it; what was named before is named as before. */
  lemma MadeIsNamed(s: Store, mode: Type, path: string, q: string)
    requires Sound(s) && path != "" && Named(s, DirName(path)) != NIL
    ensures var d := Named(s, DirName(path)); var t := Made(s, d, mode, BaseName(path));
      Sound(t) && (Named(t, path) == |s| <==> Takes(s, d, BaseName(path)))
      && (Named(s, q) != NIL ==> Named(t, q) == Named(s, q))
      && (Named(s, q) == NIL ==> Named(t, q) == NIL || Named(t, q) == |s|)
  {
    hide Orderly, Walk, Grown;
    var d, name := Named(s, DirName(path)), BaseName(path);
    if Takes(s, d, name) {
      NewComponent(s, path);
      MadeKeeps(s, d, mode, name, ROOT, Split(path[1..]));
      if q != "" {
        MadeKeeps(s, d, mode, name, ROOT, Split(q[1..]));
      }
    }
  }

  lemma NewComponent(s: Store, path: string)
    requires Linked(s) && path != "" && Named(s, DirName(path)) != NIL
    requires Child(s, Named(s, DirName(path)), BaseName(path)) == NIL
    ensures NamedAfter(s, Named(s, DirName(path)), BaseName(path), ROOT, Split(path[1..])) == |s|
  {
    hide Walk, Split, DirName, BaseName;
    PartsOf(path);
    var dir, name := DirName(path), BaseName(path);
    var a := if dir == "" then [] else Split(dir[1..]);
    WalkNothing(s, ROOT);
    assert Walk(s, ROOT, a) == Named(s, dir);
    WalkLast(s, ROOT, a, name);
    assert (a + [name])[..|a|] == a;
  }

  lemma WalkNothing(s: Store, v: int)
    requires Linked(s) && IsNode(s, v)
    ensures Walk(s, v, []) == v
  {
  }

  lemma {:induction false} WalkLast(s: Store, v: int, a: seq<string>, name: string)
    requires Linked(s) && IsNode(s, v)
    requires Walk(s, v, a) != NIL ==> Child(s, Walk(s, v, a), name) == NIL
    ensures Walk(s, v, a + [name]) == NIL
    decreases |a|
  {
    if a == [] {
      assert a + [name] == [name];
    } else {
      var c := Child(s, v, a[0]);
      ChildIsNode(s, v, a[0], 0);
      assert (a + [name])[1..] == a[1..] + [name];
      if c != NIL {
        WalkLast(s, Redirect(s, c), a[1..], name);
      }
    }
  }
}
