/** Creating files and directories: one entry and one node are added, and nothing that could be found
    or printed before changes. */
module TreeGrowth {
  import opened Words
  import opened FileTree

  /** A new node n, entered at the end of directory d. */
  function AddEntry<T>(t: Tree<T>, d: T, name: string, n: T, node: Node<T>): Tree<T>
    requires d in t
  {
    t[d := t[d].(entries := t[d].entries + [Entry(name, n)])][n := node]
  }

  /** ramfs_create: the new file gets no parent. */
  function CreateTree<T>(t: Tree<T>, d: T, name: string, n: T): Tree<T>
    requires d in t
  {
    AddEntry(t, d, name, n, Node(false, None, []))
  }

  /** ramfs_mkdir: the new directory enters itself and its parent. */
  function MkdirTree<T>(t: Tree<T>, d: T, name: string, n: T): Tree<T>
    requires d in t
  {
    AddEntry(t, d, name, n, Node(true, Some(d), [Entry(".", n), Entry("..", d)]))
  }

  lemma {:induction false} FirstNamedAppend<T>(es: seq<Entry<T>>, e: Entry<T>, name: string)
    ensures FirstNamed(es + [e], name) ==
            if FirstNamed(es, name).Some? then FirstNamed(es, name)
            else if e.name == name then Some(e.node) else None
  {
    if es == [] {
      assert (es + [e])[1..] == [];
    } else {
      assert (es + [e])[1..] == es[1..] + [e];
      FirstNamedAppend(es[1..], e, name);
    }
  }

  lemma {:induction false} FirstNamedIffPresent<T>(es: seq<Entry<T>>, name: string)
    ensures FirstNamed(es, name).Some? <==> exists i :: 0 <= i < |es| && es[i].name == name
  {
    if es != [] {
      FirstNamedIffPresent(es[1..], name);
      if FirstNamed(es[1..], name).Some? {
        var i :| 0 <= i < |es[1..]| && es[1..][i].name == name;
        assert es[i + 1].name == name;
      }
      if i :| 0 < i < |es| && es[i].name == name {
        assert es[1..][i - 1].name == name;
      }
    }
  }

  // ----- Nothing that resolved before changes

  lemma LookupKept<T>(t: Tree<T>, d: T, name: string, n: T, node: Node<T>, x: T, key: string)
    requires d in t && n !in t && Lookup(t, x, key).Some?
    ensures Lookup(AddEntry(t, d, name, n, node), x, key) == Lookup(t, x, key)
  {
    FirstNamedAppend(t[d].entries, Entry(name, n), key);
  }

  lemma {:induction false} WalkPathKept<T>(t: Tree<T>, d: T, name: string, n: T, node: Node<T>, base: T, path: string)
    requires d in t && n !in t && WalkPath(t, base, path).Some?
    ensures WalkPath(AddEntry(t, d, name, n, node), base, path) == WalkPath(t, base, path)
    decreases |path|
  {
    if path != "" {
      LookupKept(t, d, name, n, node, base, Head(path));
      WalkPathKept(t, d, name, n, node, Lookup(t, base, Head(path)).value, Tail(path));
    }
  }

  /** Every path that resolved before still resolves to the same node. */
  lemma ResolveKept<T>(t: Tree<T>, d: T, name: string, n: T, node: Node<T>, root: T, base: T, path: string)
    requires d in t && n !in t && Resolve(t, root, base, path).Some?
    ensures Resolve(AddEntry(t, d, name, n, node), root, base, path) == Resolve(t, root, base, path)
  {
    if path != "" && path[0] == '/' {
      WalkPathKept(t, d, name, n, node, root, path[1..]);
    } else {
      WalkPathKept(t, d, name, n, node, base, path);
    }
  }

  // ----- The new name

  /** The new entry is found under its name exactly when the name was not found before. */
  lemma FreshNameExact<T>(t: Tree<T>, d: T, name: string, n: T, node: Node<T>)
    requires d in t && n !in t && t[d].isDir
    requires forall e <- t[d].entries :: e.node in t
    requires t[d].parent.Some? ==> t[d].parent.value in t
    ensures Lookup(AddEntry(t, d, name, n, node), d, name) == Some(n) <==> Lookup(t, d, name) == None
  {
    FirstNamedAppend(t[d].entries, Entry(name, n), name);
    if Lookup(t, d, name).Some? {
      LookupKept(t, d, name, n, node, d, name);
      FirstNamedIn(t[d].entries, name);
    }
  }

  lemma {:induction false} FirstNamedIn<T>(es: seq<Entry<T>>, name: string)
    ensures FirstNamed(es, name).Some? ==> exists e <- es :: e.node == FirstNamed(es, name).value
  {
    if es != [] && es[0].name != name {
      FirstNamedIn(es[1..], name);
    }
  }

  /** The path of d with the fresh name behind it resolves to the new node. */
  lemma FreshPathResolves<T>(t: Tree<T>, root: T, depth: map<T, nat>, d: T, name: string, n: T, node: Node<T>,
                                   base: T)
    requires WellFormed(t, root, depth) && Rooted(t, root, depth, d) && t[d].isDir && n !in t
    requires ValidName(name) && Lookup(t, d, name) == None
    ensures Resolve(AddEntry(t, d, name, n, node), root, base, SpellFrom(PathNames(t, d, depth) + [name])) == Some(n)
  {
    var u := AddEntry(t, d, name, n, node);
    var names := PathNames(t, d, depth);
    PathNamesWalk(t, root, depth, d);
    WalkKept(t, d, name, n, node, root, names);
    assert EntriesIn(t, d);
    FreshNameExact(t, d, name, n, node);
    WalkConcat(u, root, names, [name]);
    assert [name][1..] == [];
    WalkSpelled(u, root, names + [name]);
  }

  lemma {:induction false} WalkKept<T>(t: Tree<T>, d: T, name: string, n: T, node: Node<T>, base: T, names: seq<string>)
    requires d in t && n !in t && Walk(t, base, names).Some?
    ensures Walk(AddEntry(t, d, name, n, node), base, names) == Walk(t, base, names)
    decreases |names|
  {
    if names != [] {
      LookupKept(t, d, name, n, node, base, names[0]);
      WalkKept(t, d, name, n, node, Lookup(t, base, names[0]).value, names[1..]);
    }
  }

  // ----- The tree stays well formed

  lemma AttachedKept<T>(t: Tree<T>, root: T, depth: map<T, nat>, d: T, name: string, n: T, node: Node<T>,
                              k: nat, x: T)
    requires WellFormed(t, root, depth) && d in t && n !in t && x in t && Above(t, x).Some?
    ensures var u := AddEntry(t, d, name, n, node);
            Above(u, x) == Above(t, x) && Attached(u, x, depth[n := k])
  {
    var u := AddEntry(t, d, name, n, node);
    var p := Above(t, x).value;
    assert Attached(t, x, depth);
    var i :| 0 <= i < |t[p].entries| && Names(t, p, i, x);
    assert u[p].entries[i] == t[p].entries[i];
    LookupKept(t, d, name, n, node, p, t[p].entries[i].name);
    assert Names(u, p, i, x);
  }

  lemma EntriesKept<T>(t: Tree<T>, root: T, depth: map<T, nat>, d: T, name: string, n: T, node: Node<T>, x: T)
    requires WellFormed(t, root, depth) && d in t && n !in t && x in t && ValidName(name)
    ensures EntriesIn(AddEntry(t, d, name, n, node), x)
  {
    assert EntriesIn(t, x);
  }

  lemma CreateWellFormed<T>(t: Tree<T>, root: T, depth: map<T, nat>, d: T, name: string, n: T)
    requires WellFormed(t, root, depth) && d in t && n !in t && ValidName(name)
    ensures WellFormed(CreateTree(t, d, name, n), root, depth[n := 0])
  {
    var u := CreateTree(t, d, name, n);
    forall x <- u
      ensures EntriesIn(u, x)
    {
      if x != n { EntriesKept(t, root, depth, d, name, n, u[n], x); }
    }
    forall x <- u | Above(u, x).Some?
      ensures Attached(u, x, depth[n := 0])
    {
      assert x != n;
      AttachedKept(t, root, depth, d, name, n, u[n], 0, x);
    }
  }

  lemma MkdirWellFormed<T>(t: Tree<T>, root: T, depth: map<T, nat>, d: T, name: string, n: T)
    requires WellFormed(t, root, depth) && d in t && t[d].isDir && n !in t
    requires ValidName(name) && Lookup(t, d, name) == None
    ensures WellFormed(MkdirTree(t, d, name, n), root, depth[n := depth[d] + 1])
  {
    var u := MkdirTree(t, d, name, n);
    var deep := depth[n := depth[d] + 1];
    assert EntriesIn(t, d);
    forall x <- u
      ensures EntriesIn(u, x)
    {
      if x != n { EntriesKept(t, root, depth, d, name, n, u[n], x); }
    }
    forall x <- u | Above(u, x).Some?
      ensures Attached(u, x, deep)
    {
      if x == n {
        FreshNameExact(t, d, name, n, u[n]);
        assert Names(u, d, |t[d].entries|, n);
      } else {
        AttachedKept(t, root, depth, d, name, n, u[n], depth[d] + 1, x);
      }
    }
  }

  /** Nodes that hung from the root still do. */
  lemma {:induction false} RootedKept<T>(t: Tree<T>, root: T, depth: map<T, nat>, d: T, name: string, n: T,
                                               node: Node<T>, k: nat, x: T)
    requires WellFormed(t, root, depth) && d in t && n !in t && Rooted(t, root, depth, x)
    ensures Rooted(AddEntry(t, d, name, n, node), root, depth[n := k], x)
    decreases depth[x]
  {
    if x != root {
      AttachedKept(t, root, depth, d, name, n, node, k, x);
      assert Attached(t, x, depth);
      RootedKept(t, root, depth, d, name, n, node, k, Above(t, x).value);
    }
  }

  /** A new directory has its two dot entries, which say what the dot names look up to, and no other name;
      in a new file no name is found. */
  lemma NewNodesExact<T>(t: Tree<T>, d: T, name: string, n: T, key: string)
    requires d in t && n !in t
    ensures var u := MkdirTree(t, d, name, n);
            && u[n].isDir && Above(u, n) == Some(d) && |u[n].entries| == 2
            && (forall e <- u[n].entries :: Lookup(u, n, e.name) == Some(e.node))
            && Lookup(u, n, key) == if key == "." then Some(n) else if key == ".." then Some(d) else None
    ensures Lookup(CreateTree(t, d, name, n), n, key) == None
  {
    var es := [Entry(".", n), Entry("..", d)];
    assert es[1..] == [Entry("..", d)] && [Entry("..", d)][1..] == [];
    assert FirstNamed([Entry("..", d)], key) == if key == ".." then Some(d) else None;
    assert MkdirTree(t, d, name, n)[n].entries == es;
  }

  /** An entry is added behind the others of its directory, and no other node changes. */
  lemma AddEntryFrame<T>(t: Tree<T>, d: T, name: string, n: T, node: Node<T>, x: T)
    requires d in t && n !in t
    ensures var u := AddEntry(t, d, name, n, node);
            && u.Keys == t.Keys + {n} && u[n] == node
            && (x in t && x != d ==> u[x] == t[x])
            && u[d].isDir == t[d].isDir && u[d].parent == t[d].parent
            && u[d].entries == t[d].entries + [Entry(name, n)]
  {
  }

  lemma MkdirRooted<T>(t: Tree<T>, root: T, depth: map<T, nat>, d: T, name: string, n: T)
    requires WellFormed(t, root, depth) && Rooted(t, root, depth, d) && n !in t
    ensures Rooted(MkdirTree(t, d, name, n), root, depth[n := depth[d] + 1], n)
  {
    RootedKept(t, root, depth, d, name, n, MkdirTree(t, d, name, n)[n], depth[d] + 1, d);
  }

  /** A new directory hangs from the root, and its printed path resolves to it. */
  lemma MkdirRoundTrip<T>(t: Tree<T>, root: T, depth: map<T, nat>, d: T, name: string, n: T, base: T)
    requires WellFormed(t, root, depth) && Rooted(t, root, depth, d) && t[d].isDir && n !in t
    requires ValidName(name) && Lookup(t, d, name) == None
    ensures Resolve(MkdirTree(t, d, name, n), root, base,
                    Spell(PathNames(MkdirTree(t, d, name, n), n, depth[n := depth[d] + 1]))) == Some(n)
  {
    MkdirWellFormed(t, root, depth, d, name, n);
    MkdirRooted(t, root, depth, d, name, n);
    PathRoundTrip(MkdirTree(t, d, name, n), root, depth[n := depth[d] + 1], base, n);
  }

  // ----- Printed paths stay the same

  lemma {:induction false} FindNameKept<T>(t: Tree<T>, d: T, name: string, n: T, node: Node<T>, p: T, x: T, i: nat)
    requires d in t && n !in t && p in t && t[p].isDir && i <= |t[p].entries|
    requires FindName(t, p, x, i).Some?
    ensures FindName(AddEntry(t, d, name, n, node), p, x, i) == FindName(t, p, x, i)
    decreases |t[p].entries| - i
  {
    var u := AddEntry(t, d, name, n, node);
    var e := t[p].entries[i];
    assert u[p].entries[i] == e;
    FirstNamedIffPresent(t[p].entries, e.name);
    LookupKept(t, d, name, n, node, p, e.name);
    if Lookup(t, p, e.name) != Some(x) {
      FindNameKept(t, d, name, n, node, p, x, i + 1);
    }
  }

  lemma {:induction false} PathKept<T>(t: Tree<T>, root: T, depth: map<T, nat>, d: T, name: string, n: T,
                                             node: Node<T>, k: nat, x: T)
    requires WellFormed(t, root, depth) && d in t && n !in t && Rooted(t, root, depth, x)
    ensures PathNames(AddEntry(t, d, name, n, node), x, depth[n := k]) == PathNames(t, x, depth)
    decreases depth[x]
  {
    if x != root {
      var p := Above(t, x).value;
      assert Attached(t, x, depth);
      AttachedKept(t, root, depth, d, name, n, node, k, x);
      FindNameWorks(t, root, depth, x, 0);
      FindNameKept(t, d, name, n, node, p, x, 0);
      PathKept(t, root, depth, d, name, n, node, k, p);
    }
  }
}
