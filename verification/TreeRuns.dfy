/** Whole runs of file and directory creation, from a freshly mounted root or any tree of which every
    directory hangs from the root: every directory prints a path that resolves to it, and a path that
    ever resolved goes on resolving to the same node. */
module TreeRuns {
  import opened Words
  import opened FileTree
  import opened TreeGrowth

  datatype World<T> = World(tree: Tree<T>, depth: map<T, nat>)

  /** A successful create or mkdir, with the inode that it allocates. */
  datatype Op<T> = MakeFile(dir: T, name: string, node: T) | MakeDir(dir: T, name: string, node: T)

  function Mounted<T>(root: T): World<T> {
    World(map[root := Node(true, None, [])], map[root := 0])
  }

  /** ramfs_mkdir refuses a name that the directory has; ramfs_create does not. */
  predicate Allowed<T(==)>(w: World<T>, op: Op<T>) {
    && op.dir in w.tree && w.tree[op.dir].isDir && op.node !in w.tree && ValidName(op.name)
    && (op.MakeDir? ==> Lookup(w.tree, op.dir, op.name) == None)
  }

  function Apply<T>(w: World<T>, op: Op<T>): World<T>
    requires op.dir in w.tree && w.depth.Keys == w.tree.Keys
  {
    match op
    case MakeFile(d, name, n) => World(CreateTree(w.tree, d, name, n), w.depth[n := 0])
    case MakeDir(d, name, n) => World(MkdirTree(w.tree, d, name, n), w.depth[n := w.depth[d] + 1])
  }

  /** The tree is well formed and every directory hangs from the root. */
  ghost predicate Hung<T>(root: T, w: World<T>) {
    && WellFormed(w.tree, root, w.depth)
    && forall d <- w.tree :: w.tree[d].isDir ==> Rooted(w.tree, root, w.depth, d)
  }

  ghost predicate IsRun<T>(root: T, ws: seq<World<T>>, ops: seq<Op<T>>) {
    && |ws| == |ops| + 1 && Hung(root, ws[0])
    && forall k :: 0 <= k < |ops| ==> StepOf(ws[k], ops[k], ws[k + 1])
  }

  ghost predicate StepOf<T>(w: World<T>, op: Op<T>, x: World<T>) {
    w.depth.Keys == w.tree.Keys && Allowed(w, op) && x == Apply(w, op)
  }

  /** The empty root is such a tree. */
  lemma MountedHung<T>(root: T)
    ensures Hung(root, Mounted(root))
  {
  }

  /** One operation adds one entry, whatever its kind. */
  lemma StepAdds<T>(w: World<T>, op: Op<T>, x: World<T>) returns (node: Node<T>, level: nat)
    requires StepOf(w, op, x)
    ensures x.tree == AddEntry(w.tree, op.dir, op.name, op.node, node) && x.depth == w.depth[op.node := level]
    ensures node.isDir <==> op.MakeDir?
  {
    node, level := x.tree[op.node], x.depth[op.node];
  }

  lemma StepHung<T>(root: T, w: World<T>, op: Op<T>, x: World<T>)
    requires Hung(root, w) && StepOf(w, op, x)
    ensures Hung(root, x)
  {
    var node, level := StepAdds(w, op, x);
    match op {
      case MakeFile(d, name, n) => CreateWellFormed(w.tree, root, w.depth, d, name, n);
      case MakeDir(d, name, n) =>
        MkdirWellFormed(w.tree, root, w.depth, d, name, n);
        MkdirRooted(w.tree, root, w.depth, d, name, n);
    }
    forall d <- x.tree | x.tree[d].isDir && d != op.node
      ensures Rooted(x.tree, root, x.depth, d)
    {
      RootedKept(w.tree, root, w.depth, op.dir, op.name, op.node, node, level, d);
    }
  }

  lemma {:induction false} RunHung<T>(root: T, ws: seq<World<T>>, ops: seq<Op<T>>, k: nat)
    requires IsRun(root, ws, ops) && k < |ws|
    ensures Hung(root, ws[k])
  {
    if k > 0 {
      RunHung(root, ws, ops, k - 1);
      assert StepOf(ws[k - 1], ops[k - 1], ws[k - 1 + 1]);
      StepHung(root, ws[k - 1], ops[k - 1], ws[k]);
    }
  }

  /** At every point of every run, what build_path prints for a directory resolves to it. */
  lemma DirectoriesRoundTrip<T>(root: T, ws: seq<World<T>>, ops: seq<Op<T>>, k: nat, d: T, base: T)
    requires IsRun(root, ws, ops) && k < |ws| && d in ws[k].tree && ws[k].tree[d].isDir
    ensures Resolve(ws[k].tree, root, base, Spell(PathNames(ws[k].tree, d, ws[k].depth))) == Some(d)
  {
    RunHung(root, ws, ops, k);
    PathRoundTrip(ws[k].tree, root, ws[k].depth, base, d);
  }

  /** A path that resolves at some point resolves to the same node from then on. */
  lemma {:induction false} PathsStay<T>(root: T, ws: seq<World<T>>, ops: seq<Op<T>>, j: nat, k: nat,
                                       base: T, path: string)
    requires IsRun(root, ws, ops) && j <= k < |ws|
    requires Resolve(ws[j].tree, root, base, path).Some?
    ensures Resolve(ws[k].tree, root, base, path) == Resolve(ws[j].tree, root, base, path)
  {
    if j < k {
      PathsStay(root, ws, ops, j, k - 1, base, path);
      assert StepOf(ws[k - 1], ops[k - 1], ws[k - 1 + 1]);
      var node, level := StepAdds(ws[k - 1], ops[k - 1], ws[k]);
      ResolveKept(ws[k - 1].tree, ops[k - 1].dir, ops[k - 1].name, ops[k - 1].node, node, root, base, path);
    }
  }
}
