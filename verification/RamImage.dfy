/** Loading a RAM file system from a disk image: one inode per record, parents and children by index. */
module RamImage {
  import opened Words
  import opened FileTree
  import opened RamFs
  import opened TreeRuns

  /** A record of the image; a directory's children are the `count` records from `first` on. */
  datatype DiskInode = DiskInode(name: string, isDir: bool, parent: Option<nat>, first: u32, count: nat)

  type Image = s: seq<DiskInode> | |s| < WORD

  /** first_child + j in 32-bit arithmetic. */
  function Child(d: DiskInode, j: u32): nat {
    Add32(d.first, j)
  }

  /** What the loader takes for granted: parent indices are in range and children fit the entry array. */
  predicate InBounds(image: Image) {
    forall d <- image :: (d.parent.Some? ==> d.parent.value < |image|) && d.count <= MAX_ENTRIES
  }

  /** Some directory names a child outside the image. */
  predicate BadChild(image: Image, i: nat)
    requires i < |image| && InBounds(image)
  {
    image[i].isDir && exists j: nat :: j < image[i].count && Child(image[i], j) >= |image|
  }

  // ----- What the loader builds

  function ParentOf<T>(image: Image, ids: seq<T>, i: nat): Option<T>
    requires InBounds(image) && i < |image| == |ids|
  {
    if image[i].parent.Some? then Some(ids[image[i].parent.value]) else None
  }

  /** The first n children of directory i as entries. */
  function Children<T>(image: Image, ids: seq<T>, i: nat, n: nat): (es: seq<Entry<T>>)
    requires InBounds(image) && i < |image| == |ids| && n <= image[i].count
    requires forall j: nat :: j < n ==> Child(image[i], j) < |image|
    ensures |es| == n
    ensures forall j :: 0 <= j < n ==> es[j] == Entry(image[Child(image[i], j)].name, ids[Child(image[i], j)])
  {
    if n == 0 then []
    else Children(image, ids, i, n - 1) + [Entry(image[Child(image[i], n - 1)].name, ids[Child(image[i], n - 1)])]
  }

  /** The dot entries, when there is room for them. */
  function Dots<T>(image: Image, ids: seq<T>, i: nat): seq<Entry<T>>
    requires InBounds(image) && i < |image| == |ids|
  {
    if image[i].count < MAX_ENTRIES - 2 then
      [Entry(".", ids[i]), Entry("..", if ParentOf(image, ids, i).Some? then ParentOf(image, ids, i).value else ids[i])]
    else []
  }

  function NodeOf<T>(image: Image, ids: seq<T>, i: nat): Node<T>
    requires InBounds(image) && i < |image| == |ids| && !BadChild(image, i)
  {
    Node(image[i].isDir, ParentOf(image, ids, i),
         if image[i].isDir then Children(image, ids, i, image[i].count) + Dots(image, ids, i) else [])
  }

  ghost predicate Distinct<T>(ids: seq<T>) {
    forall i, j :: 0 <= i < j < |ids| ==> ids[i] != ids[j]
  }

  /** The tree has one node per record, holding what the record says. */
  ghost predicate Loaded<T>(t: Tree<T>, image: Image, ids: seq<T>) {
    && InBounds(image) && |ids| == |image| && (forall i :: 0 <= i < |image| ==> !BadChild(image, i))
    && Distinct(ids)
    && (forall d <- t :: d in ids) && (forall d <- ids :: d in t)
    && (forall i :: 0 <= i < |ids| ==> Holds(t, image, ids, i))
  }

  /** Node i is what record i says. */
  ghost predicate Holds<T>(t: Tree<T>, image: Image, ids: seq<T>, i: nat)
    requires InBounds(image) && i < |image| == |ids| && !BadChild(image, i)
  {
    ids[i] in t && t[ids[i]] == NodeOf(image, ids, i)
  }

  // ----- Consistent images

  /** The image describes a tree: every record but the root lies among its parent's children, whose names
      are proper and different; `level` counts the steps from the root. */
  ghost predicate Consistent(image: Image, root: nat, level: seq<nat>) {
    && InBounds(image) && root < |image| == |level| && image[root].isDir && level[root] == 0
    && (forall i :: 0 <= i < |image| ==> FamilyOf(image, i))
    && (forall i :: 0 <= i < |image| ==> PlaceOf(image, root, level, i))
  }

  /** Directory i: its children are in the image, point back to it, and have different proper names. */
  ghost predicate FamilyOf(image: Image, i: nat)
    requires i < |image|
  {
    var d := image[i];
    d.isDir ==>
      && d.first + d.count <= |image|
      && (forall k :: d.first <= k < d.first + d.count ==> image[k].parent == Some(i) && ValidName(image[k].name))
      && (forall j, k :: d.first <= j < k < d.first + d.count ==> image[j].name != image[k].name)
  }

  /** Record i is the root, or a child of a directory one level up. */
  ghost predicate PlaceOf(image: Image, root: nat, level: seq<nat>, i: nat)
    requires i < |image| == |level|
  {
    if i == root then image[i].parent == None || image[i].parent == Some(i)
    else
      && image[i].parent.Some? && image[i].parent.value < |image|
      && var p := image[i].parent.value;
      && image[p].isDir && image[p].first <= i < image[p].first + image[p].count
      && level[i] == level[p] + 1
  }

  lemma NoBadChild(image: Image, i: nat)
    requires InBounds(image) && i < |image| && FamilyOf(image, i)
    ensures !BadChild(image, i)
    ensures image[i].isDir ==> forall j: nat :: j < image[i].count ==> Child(image[i], j) == image[i].first + j
  {
  }

  /** An entry whose name is new among those before it is found under that name. */
  lemma {:induction false} FirstNamedAt<T>(es: seq<Entry<T>>, k: nat)
    requires k < |es| && forall j :: 0 <= j < k ==> es[j].name != es[k].name
    ensures FirstNamed(es, es[k].name) == Some(es[k].node)
    decreases |es|
  {
    if k > 0 {
      assert es[1..][k - 1] == es[k];
      FirstNamedAt(es[1..], k - 1);
    }
  }

  /** The first entries of a directory are its children. */
  lemma DirectoryEntries<T>(image: Image, ids: seq<T>, p: nat)
    requires InBounds(image) && p < |image| == |ids| && image[p].isDir && !BadChild(image, p)
    requires forall j: nat :: j < image[p].count ==> Child(image[p], j) == image[p].first + j
    ensures var (es, d) := (NodeOf(image, ids, p).entries, image[p]);
            && d.count <= |es|
            && forall j {:trigger es[j]} :: 0 <= j < d.count ==>
                 es[j] == Entry(image[d.first + j].name, ids[d.first + j])
  {
    var es, cs := NodeOf(image, ids, p).entries, Children(image, ids, p, image[p].count);
    assert es == cs + Dots(image, ids, p);
    forall j | 0 <= j < image[p].count
      ensures es[j] == Entry(image[image[p].first + j].name, ids[image[p].first + j])
    {
      assert es[j] == cs[j];
    }
  }

  /** A child is the first entry of its name. */
  lemma ChildNamed<T>(image: Image, ids: seq<T>, p: nat, k: nat)
    requires InBounds(image) && p < |image| == |ids| && image[p].isDir && FamilyOf(image, p) && k < image[p].count
    ensures !BadChild(image, p)
    ensures var (es, i) := (NodeOf(image, ids, p).entries, image[p].first + k);
            && k < |es| && es[k].name == image[i].name && ValidName(image[i].name)
            && FirstNamed(es, es[k].name) == Some(ids[i])
  {
    NoBadChild(image, p);
    DirectoryEntries(image, ids, p);
    FirstNamedAt(NodeOf(image, ids, p).entries, k);
  }

  /** A record other than the root is found in its parent under its name. */
  lemma ChildFound<T>(t: Tree<T>, image: Image, ids: seq<T>, root: nat, level: seq<nat>, i: nat)
    requires Loaded(t, image, ids) && Consistent(image, root, level) && i < |image| && i != root
    ensures PlaceOf(image, root, level, i)
    ensures var p := image[i].parent.value;
            var k := i - image[p].first;
            0 <= k < |t[ids[p]].entries| && Names(t, ids[p], k, ids[i])
  {
    assert PlaceOf(image, root, level, i);
    var p := image[i].parent.value;
    var k := i - image[p].first;
    assert FamilyOf(image, p) && Holds(t, image, ids, p);
    ChildNamed(image, ids, p, k);
  }

  /** The nesting depth of every node. */
  ghost predicate Levels<T>(depth: map<T, nat>, t: Tree<T>, ids: seq<T>, level: seq<nat>) {
    && |ids| == |level| && depth.Keys == t.Keys
    && forall i :: 0 <= i < |ids| ==> ids[i] in depth && depth[ids[i]] == level[i]
  }

  lemma LoadedEntries<T>(t: Tree<T>, image: Image, ids: seq<T>, root: nat, level: seq<nat>, i: nat)
    requires Loaded(t, image, ids) && Consistent(image, root, level) && i < |image|
    ensures EntriesIn(t, ids[i])
  {
    assert Holds(t, image, ids, i);
    var es := t[ids[i]].entries;
    if image[i].isDir {
      assert FamilyOf(image, i);
      NoBadChild(image, i);
      var cs := Children(image, ids, i, image[i].count);
      forall e <- es
        ensures e.node in t && (ValidName(e.name) || e.name == "." || e.name == "..")
      {
        assert es == cs + Dots(image, ids, i);
        if e in cs {
          var j :| 0 <= j < |cs| && cs[j] == e;
          assert ids[image[i].first + j] in ids;
        }
      }
    }
  }

  lemma LoadedAttached<T>(t: Tree<T>, image: Image, ids: seq<T>, root: nat, level: seq<nat>, depth: map<T, nat>, i: nat)
    requires Loaded(t, image, ids) && Consistent(image, root, level) && Levels(depth, t, ids, level) && i < |image|
    ensures i == root ==> Above(t, ids[i]) == None
    ensures i != root ==>
              && PlaceOf(image, root, level, i)
              && Above(t, ids[i]) == Some(ids[image[i].parent.value]) && Attached(t, ids[i], depth)
  {
    assert PlaceOf(image, root, level, i);
    assert Holds(t, image, ids, i);
    if i != root {
      var p := image[i].parent.value;
      assert Holds(t, image, ids, p);
      assert p != i;
      ChildFound(t, image, ids, root, level, i);
      assert t[ids[p]].isDir;
    }
  }

  /** A loaded directory's dot entries, when it has them, are what the dot names look up to. */
  lemma LoadedDots<T>(t: Tree<T>, image: Image, ids: seq<T>, i: nat)
    requires Loaded(t, image, ids) && i < |image| && image[i].isDir
    ensures forall e <- Dots(image, ids, i) :: Lookup(t, ids[i], e.name) == Some(e.node)
    ensures image[i].count < MAX_ENTRIES - 2 <==>
            |t[ids[i]].entries| == image[i].count + 2 && (exists e <- Dots(image, ids, i) :: e.name == ".")
                                                      && (exists e <- Dots(image, ids, i) :: e.name == "..")
  {
    assert Holds(t, image, ids, i);
    if image[i].count < MAX_ENTRIES - 2 {
      var dots := Dots(image, ids, i);
      assert dots[0] in dots && dots[0].name == "." && dots[1] in dots && dots[1].name == "..";
    }
  }

  /** A consistent image loads into a well-formed tree. */
  lemma LoadedWellFormed<T>(t: Tree<T>, image: Image, ids: seq<T>, root: nat, level: seq<nat>, depth: map<T, nat>)
    requires Loaded(t, image, ids) && Consistent(image, root, level) && Levels(depth, t, ids, level)
    ensures WellFormed(t, ids[root], depth)
  {
    LoadedAttached(t, image, ids, root, level, depth, root);
    assert Holds(t, image, ids, root);
    forall d <- t
      ensures EntriesIn(t, d)
      ensures Above(t, d).Some? ==> Attached(t, d, depth)
    {
      var i :| 0 <= i < |ids| && ids[i] == d;
      LoadedEntries(t, image, ids, root, level, i);
      LoadedAttached(t, image, ids, root, level, depth, i);
    }
  }

  lemma {:induction false} LoadedRooted<T>(t: Tree<T>, image: Image, ids: seq<T>, root: nat, level: seq<nat>,
                                           depth: map<T, nat>, i: nat)
    requires Loaded(t, image, ids) && Consistent(image, root, level) && Levels(depth, t, ids, level) && i < |image|
    ensures Rooted(t, ids[root], depth, ids[i])
    decreases level[i]
  {
    LoadedAttached(t, image, ids, root, level, depth, i);
    assert ids[i] in ids;
    if i != root {
      LoadedRooted(t, image, ids, root, level, depth, image[i].parent.value);
    }
  }

  /** A consistent image is a start for runs of file and directory creation. */
  lemma LoadedHung<T>(t: Tree<T>, image: Image, ids: seq<T>, root: nat, level: seq<nat>, depth: map<T, nat>)
    requires Loaded(t, image, ids) && Consistent(image, root, level) && Levels(depth, t, ids, level)
    ensures Hung(ids[root], World(t, depth))
  {
    LoadedWellFormed(t, image, ids, root, level, depth);
    forall d <- t
      ensures Rooted(t, ids[root], depth, d)
    {
      var i :| 0 <= i < |ids| && ids[i] == d;
      LoadedRooted(t, image, ids, root, level, depth, i);
    }
  }

  // ----- The loader

  /** ramfs_create_root: the loaded root, or an empty one when there is no image or a child index is out
      of range. */
  method LoadImage(image: Image, start: nat) returns (root: Inode, ghost ids: seq<Inode>)
    requires InBounds(image) && (image != [] ==> start < |image|)
    ensures fresh(root)
    ensures image == [] || (exists i :: 0 <= i < |image| && BadChild(image, i)) ==>
              root.AsNode() == Node(true, None, [])
    ensures image != [] && (forall i :: 0 <= i < |image| ==> !BadChild(image, i)) ==>
              && |ids| == |image| && root == ids[start] && Distinct(ids)
              && forall i :: 0 <= i < |ids| ==> fresh(ids[i]) && ids[i].AsNode() == NodeOf(image, ids, i)
  {
    var ok, inodes := image != [], [];
    if ok {
      inodes := CreateInodes(image);
      SetParents(image, inodes);
      ok := FillDirectories(image, inodes);
    }
    if !ok {
      root := new Inode(true);
      return root, [];
    }
    return inodes[start], inodes;
  }

  /** The first loop: one inode per record. */
  method CreateInodes(image: Image) returns (inodes: seq<Inode>)
    ensures |inodes| == |image| && Distinct(inodes)
    ensures forall i :: 0 <= i < |inodes| ==>
              fresh(inodes[i]) && inodes[i].AsNode() == Node(image[i].isDir, None, [])
  {
    inodes := [];
    for i := 0 to |image|
      invariant |inodes| == i && Distinct(inodes)
      invariant forall k :: 0 <= k < i ==> fresh(inodes[k]) && inodes[k].AsNode() == Node(image[k].isDir, None, [])
    {
      var inode := new Inode(image[i].isDir);
      inodes := inodes + [inode];
    }
  }

  /** The second loop: parents by index. */
  method SetParents(image: Image, inodes: seq<Inode>)
    requires InBounds(image) && |inodes| == |image| && Distinct(inodes)
    requires forall i :: 0 <= i < |inodes| ==> inodes[i].AsNode() == Node(image[i].isDir, None, [])
    modifies inodes
    ensures forall i :: 0 <= i < |inodes| ==>
              inodes[i].AsNode() == Node(image[i].isDir, ParentOf(image, inodes, i), [])
  {
    for i := 0 to |image|
      invariant forall k :: 0 <= k < |inodes| ==>
        inodes[k].AsNode() == Node(image[k].isDir, if k < i then ParentOf(image, inodes, k) else None, [])
    {
      var p := image[i].parent;
      inodes[i].parent := if p.Some? then inodes[p.value] else null;
    }
  }

  /** The third loop: the entries of every directory. */
  method FillDirectories(image: Image, inodes: seq<Inode>) returns (ok: bool)
    requires InBounds(image) && |inodes| == |image| && Distinct(inodes)
    requires forall i :: 0 <= i < |inodes| ==>
               inodes[i].AsNode() == Node(image[i].isDir, ParentOf(image, inodes, i), [])
    modifies inodes
    ensures ok <==> forall i :: 0 <= i < |image| ==> !BadChild(image, i)
    ensures ok ==> forall i :: 0 <= i < |inodes| ==> inodes[i].AsNode() == NodeOf(image, inodes, i)
  {
    for i := 0 to |image|
      invariant forall k :: 0 <= k < |inodes| ==> Filled(image, inodes, inodes[k], k, k < i)
    {
      assert Filled(image, inodes, inodes[i], i, false);
      ok := FillDirectory(image, inodes, i);
      if !ok { return; }
    }
    ok := true;
    assert forall k :: 0 <= k < |inodes| ==> Filled(image, inodes, inodes[k], k, true);
  }

  /** Inode n of record k before or after its entries are filled in. */
  ghost predicate Filled(image: Image, inodes: seq<Inode>, n: Inode, k: nat, done: bool)
    requires InBounds(image) && k < |inodes| == |image|
    reads n
  {
    if done then !BadChild(image, k) && n.AsNode() == NodeOf(image, inodes, k)
    else n.AsNode() == Node(image[k].isDir, ParentOf(image, inodes, k), [])
  }

  /** One record: a directory gets its children and, when there is room, its dot entries. */
  method FillDirectory(image: Image, inodes: seq<Inode>, i: nat) returns (ok: bool)
    requires InBounds(image) && i < |inodes| == |image|
    requires inodes[i].AsNode() == Node(image[i].isDir, ParentOf(image, inodes, i), [])
    modifies inodes[i]
    ensures ok <==> !BadChild(image, i)
    ensures ok ==> inodes[i].AsNode() == NodeOf(image, inodes, i)
  {
    if !image[i].isDir { return true; }
    var entries;
    ok, entries := CollectChildren(image, inodes, i);
    if ok {
      if image[i].count < MAX_ENTRIES - 2 {
        var up := inodes[i].parent;
        entries := entries + [Entry(".", inodes[i]), Entry("..", if up != null then up else inodes[i])];
      }
      inodes[i].entries := entries;
    }
  }

  /** The loop over one directory's children, which stops at an index out of range. */
  method CollectChildren(image: Image, inodes: seq<Inode>, i: nat) returns (ok: bool, entries: seq<Entry<Inode>>)
    requires InBounds(image) && i < |image| == |inodes| && image[i].isDir
    ensures ok <==> !BadChild(image, i)
    ensures ok ==> entries == Children(image, inodes, i, image[i].count)
  {
    entries := [];
    for j := 0 to image[i].count
      invariant forall k: nat :: k < j ==> Child(image[i], k) < |image|
      invariant entries == Children(image, inodes, i, j)
    {
      var child := Child(image[i], j);
      if child >= |image| { return false, []; }
      entries := entries + [Entry(image[child].name, inodes[child])];
    }
    ok := true;
  }

  // ----- Mounting

  /** The map that takes ids[k] to vs[k]. */
  ghost function Tabulate<T, V>(ids: seq<T>, vs: seq<V>): map<T, V>
    requires |ids| == |vs|
  {
    if ids == [] then map[]
    else Tabulate(ids[..|ids| - 1], vs[..|vs| - 1])[ids[|ids| - 1] := vs[|vs| - 1]]
  }

  lemma {:induction false} Tabulated<T, V>(ids: seq<T>, vs: seq<V>)
    requires |ids| == |vs| && Distinct(ids)
    ensures forall x <- Tabulate(ids, vs) :: x in ids
    ensures forall k :: 0 <= k < |ids| ==> ids[k] in Tabulate(ids, vs) && Tabulate(ids, vs)[ids[k]] == vs[k]
  {
    if ids != [] {
      Tabulated(ids[..|ids| - 1], vs[..|vs| - 1]);
    }
  }

  lemma SameKeys<T, U, V>(ids: seq<T>, us: seq<U>, vs: seq<V>)
    requires |ids| == |us| == |vs| && Distinct(ids)
    ensures Tabulate(ids, us).Keys == Tabulate(ids, vs).Keys
    ensures forall k :: 0 <= k < |ids| ==> ids[k] in Tabulate(ids, vs) && Tabulate(ids, vs)[ids[k]] == vs[k]
  {
    Tabulated(ids, us);
    Tabulated(ids, vs);
  }

  /** The tree of a loaded image. */
  lemma TabulatedImage<T>(image: Image, ids: seq<T>, start: nat, level: seq<nat>, nodes: seq<Node<T>>)
    requires Consistent(image, start, level) && |ids| == |image| == |nodes| && Distinct(ids)
    requires forall i :: 0 <= i < |image| ==> !BadChild(image, i) && nodes[i] == NodeOf(image, ids, i)
    ensures Loaded(Tabulate(ids, nodes), image, ids)
    ensures Hung(ids[start], World(Tabulate(ids, nodes), Tabulate(ids, level)))
  {
    var tree, depth := Tabulate(ids, nodes), Tabulate(ids, level);
    assert Loaded(tree, image, ids) by { Tabulated(ids, nodes); }
    assert Levels(depth, tree, ids, level) by { SameKeys(ids, nodes, level); }
    LoadedHung(tree, image, ids, start, level, depth);
  }

  /** Loading a consistent image, or none, and mounting it: the file system is valid and every directory
      hangs from its root. */
  method MountImage(image: Image, start: nat, ghost level: seq<nat>) returns (fs: FileSystem)
    requires image != [] ==> Consistent(image, start, level)
    ensures fs.Valid() && Hung(fs.root, World(fs.tree, fs.depth))
    ensures image != [] ==> exists ids :: Loaded(fs.tree, image, ids) && start < |ids| && fs.root == ids[start]
  {
    if image == [] {
      var empty, _ := LoadImage(image, start);
      MountedHung(empty);
      fs := new FileSystem.Mount(empty, Mounted(empty).tree, Mounted(empty).depth);
      return;
    }
    forall i | 0 <= i < |image|
      ensures !BadChild(image, i)
    {
      assert FamilyOf(image, i);
      NoBadChild(image, i);
    }
    var root, ids := LoadImage(image, start);
    ghost var nodes := seq(|ids|, i requires 0 <= i < |ids| reads ids => ids[i].AsNode());
    TabulatedImage(image, ids, start, level, nodes);
    ghost var tree := Tabulate(ids, nodes);
    assert forall n <- tree :: tree[n] == n.AsNode() by { Tabulated(ids, nodes); }
    fs := new FileSystem.Mount(root, tree, Tabulate(ids, level));
  }
}
