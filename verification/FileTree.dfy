/** The directory tree as a value: names, lookups, paths and what keeps a tree well formed. The node
    type T stands for inode identity. */
module FileTree {
  import opened Words

  const NAME_MAX: nat := 31        // entry names have 32 bytes with their terminator
  const COMPONENT_MAX: nat := 255  // the path walker's name buffer has 256

  datatype Entry<T> = Entry(name: string, node: T)

  datatype Node<T> = Node(isDir: bool, parent: Option<T>, entries: seq<Entry<T>>)

  type Tree<T> = map<T, Node<T>>

  // ----- Lookups

  /** The first entry with the name. */
  function FirstNamed<T>(es: seq<Entry<T>>, name: string): Option<T> {
    if es == [] then None
    else if es[0].name == name then Some(es[0].node)
    else FirstNamed(es[1..], name)
  }

  /** ramfs_lookup */
  function Lookup<T>(t: Tree<T>, d: T, name: string): Option<T> {
    if d !in t || !t[d].isDir then None
    else if name == "." then Some(d)
    else if name == ".." then (if t[d].parent.Some? then t[d].parent else Some(d))
    else FirstNamed(t[d].entries, name)
  }

  /** The characters before the first slash. */
  function Head(path: string): (r: string)
    ensures |r| <= |path| && r == path[..|r|] && '/' !in r
    ensures |r| < |path| ==> path[|r|] == '/'
  {
    if path == "" || path[0] == '/' then "" else [path[0]] + Head(path[1..])
  }

  /** What is left after the first component and its slash. */
  function Tail(path: string): (r: string)
    requires path != ""
    ensures |r| < |path|
  {
    var n := |Head(path)|;
    if n < |path| then path[n + 1..] else path[n..]
  }

  /** The component loop of vfs_lookup. */
  function WalkPath<T>(t: Tree<T>, base: T, path: string): Option<T>
    decreases |path|
  {
    if path == "" then Some(base)
    else if |Head(path)| > COMPONENT_MAX then None
    else
      var next := Lookup(t, base, Head(path));
      if next == None then None else WalkPath(t, next.value, Tail(path))
  }

  /** vfs_lookup: a leading slash starts at the root. */
  function Resolve<T>(t: Tree<T>, root: T, base: T, path: string): Option<T> {
    if path != "" && path[0] == '/' then WalkPath(t, root, path[1..]) else WalkPath(t, base, path)
  }

  // ----- Printing paths

  /** find_name_in_parent: the first entry whose name looks up to the child. */
  function FindName<T>(t: Tree<T>, p: T, child: T, i: nat): Option<string>
    requires p in t && i <= |t[p].entries|
    decreases |t[p].entries| - i
  {
    if i == |t[p].entries| then None
    else if Lookup(t, p, t[p].entries[i].name) == Some(child) then Some(t[p].entries[i].name)
    else FindName(t, p, child, i + 1)
  }

  /** The parent that the climb of build_path goes to, if it goes on. */
  function Above<T>(t: Tree<T>, d: T): Option<T> {
    if d in t && t[d].parent.Some? && t[d].parent.value != d then t[d].parent else None
  }

  // ----- Well-formed trees

  predicate ValidName(name: string) {
    0 < |name| <= NAME_MAX && '/' !in name && name != "." && name != ".."
  }

  /** Entries and parents stay inside the tree; parents are directories nearer the top, and each child
      with a parent is found there under a proper name. */
  ghost predicate WellFormed<T>(t: Tree<T>, root: T, depth: map<T, nat>) {
    && root in t && t[root].isDir && Above(t, root) == None
    && depth.Keys == t.Keys && depth[root] == 0
    && (forall d {:trigger EntriesIn(t, d)} :: d in t ==> EntriesIn(t, d))
    && (forall d {:trigger Attached(t, d, depth)} :: d in t && Above(t, d).Some? ==> Attached(t, d, depth))
  }

  ghost predicate EntriesIn<T>(t: Tree<T>, d: T)
    requires d in t
  {
    && (forall e <- t[d].entries :: e.node in t && (ValidName(e.name) || e.name == "." || e.name == ".."))
    && (t[d].parent.Some? ==> t[d].parent.value in t)
  }

  ghost predicate Attached<T>(t: Tree<T>, d: T, depth: map<T, nat>)
    requires d in t && Above(t, d).Some? && depth.Keys == t.Keys
  {
    var p := Above(t, d).value;
    && p in t && t[p].isDir && depth[d] == depth[p] + 1
    && exists i :: 0 <= i < |t[p].entries| && Names(t, p, i, d)
  }

  ghost predicate Names<T>(t: Tree<T>, p: T, i: nat, d: T)
    requires p in t && i < |t[p].entries|
  {
    Lookup(t, p, t[p].entries[i].name) == Some(d)
  }

  /** The climb from d ends at the root. */
  ghost predicate Rooted<T>(t: Tree<T>, root: T, depth: map<T, nat>, d: T)
    decreases if d in depth then depth[d] else 0
  {
    && d in t && d in depth
    && (d == root ||
        var up := Above(t, d);
        up.Some? && up.value in depth && depth[up.value] < depth[d] && Rooted(t, root, depth, up.value))
  }

  /** A child with a parent is found under a proper name. */
  lemma {:induction false} FindNameWorks<T>(t: Tree<T>, root: T, depth: map<T, nat>, d: T, i: nat)
    requires WellFormed(t, root, depth) && d in t && Above(t, d).Some? && Attached(t, d, depth)
    requires var p := Above(t, d).value;
             i <= |t[p].entries| && exists k :: i <= k < |t[p].entries| && Names(t, p, k, d)
    ensures var p := Above(t, d).value;
            var n := FindName(t, p, d, i);
            n.Some? && ValidName(n.value) && Lookup(t, p, n.value) == Some(d)
    decreases |t[Above(t, d).value].entries| - i
  {
    var p := Above(t, d).value;
    var e := t[p].entries[i];
    if Lookup(t, p, e.name) == Some(d) {
      assert EntriesIn(t, p) && e in t[p].entries;
      if t[p].parent.Some? && t[p].parent.value != p { assert Attached(t, p, depth); }
    } else {
      var k :| i <= k < |t[p].entries| && Names(t, p, k, d);
      assert k != i;
      FindNameWorks(t, root, depth, d, i + 1);
    }
  }

  /** The name that is found is that of the first entry which looks up to the child. */
  lemma {:induction false} FindNameExact<T>(t: Tree<T>, p: T, child: T, i: nat)
    requires p in t && i <= |t[p].entries|
    ensures match FindName(t, p, child, i)
            case None => forall k :: i <= k < |t[p].entries| ==> !Names(t, p, k, child)
            case Some(name) =>
              exists k :: i <= k < |t[p].entries| && t[p].entries[k].name == name && Names(t, p, k, child)
                          && forall j :: i <= j < k ==> !Names(t, p, j, child)
    decreases |t[p].entries| - i
  {
    if i < |t[p].entries| {
      if Names(t, p, i, child) {
        assert t[p].entries[i].name == FindName(t, p, child, i).value;
      } else {
        FindNameExact(t, p, child, i + 1);
      }
    }
  }

  /** The components that build_path collects, root first. */
  function PathNames<T>(t: Tree<T>, d: T, depth: map<T, nat>): seq<string>
    decreases if d in depth then depth[d] else 0
  {
    var up := Above(t, d);
    if up == None || up.value !in t || d !in depth || up.value !in depth || depth[up.value] >= depth[d] then []
    else
      var name := FindName(t, up.value, d, 0);
      if name == None then [] else PathNames(t, up.value, depth) + [name.value]
  }

  /** "/" for the root, else every component after a slash. */
  function Spell(names: seq<string>): string {
    if names == [] then "/" else SpellFrom(names)
  }

  function SpellFrom(names: seq<string>): string {
    if names == [] then "" else "/" + names[0] + SpellFrom(names[1..])
  }

  function Walk<T>(t: Tree<T>, base: T, names: seq<string>): Option<T> {
    if names == [] then Some(base)
    else
      var next := Lookup(t, base, names[0]);
      if next == None then None else Walk(t, next.value, names[1..])
  }

  lemma {:induction false} WalkConcat<T>(t: Tree<T>, base: T, a: seq<string>, b: seq<string>)
    ensures Walk(t, base, a + b) == if Walk(t, base, a) == None then None else Walk(t, Walk(t, base, a).value, b)
    decreases |a|
  {
    if a == [] {
      assert a + b == b;
    } else {
      assert (a + b)[1..] == a[1..] + b;
      var next := Lookup(t, base, a[0]);
      if next.Some? { WalkConcat(t, next.value, a[1..], b); }
    }
  }

  /** Parsing a name followed by nothing or by a slash. */
  lemma {:induction false} HeadOf(name: string, rest: string)
    requires '/' !in name && (rest == "" || rest[0] == '/')
    ensures Head(name + rest) == name
    decreases |name|
  {
    if name == "" {
      assert name + rest == rest;
    } else {
      assert (name + rest)[1..] == name[1..] + rest;
      HeadOf(name[1..], rest);
    }
  }

  lemma TailOf(name: string, rest: string)
    requires name != "" && '/' !in name && (rest == "" || rest[0] == '/')
    ensures Head(name + rest) == name && Tail(name + rest) == if rest == "" then "" else rest[1..]
  {
    HeadOf(name, rest);
    var path := name + rest;
    assert rest != "" ==> path[|name| + 1..] == rest[1..];
  }

  /** Walking a spelled path, past its first slash, is walking its components. */
  lemma {:induction false} WalkSpelled<T>(t: Tree<T>, base: T, names: seq<string>)
    requires names != [] && forall n <- names :: ValidName(n)
    ensures WalkPath(t, base, SpellFrom(names)[1..]) == Walk(t, base, names)
    decreases |names|
  {
    var rest := SpellFrom(names[1..]);
    var path := names[0] + rest;
    assert ValidName(names[0]);
    assert SpellFrom(names)[1..] == path;
    TailOf(names[0], rest);
    var next := Lookup(t, base, names[0]);
    if names[1..] != [] && next.Some? {
      WalkSpelled(t, next.value, names[1..]);
    }
  }

  lemma {:induction false} PathNamesWalk<T>(t: Tree<T>, root: T, depth: map<T, nat>, d: T)
    requires WellFormed(t, root, depth) && Rooted(t, root, depth, d)
    ensures Walk(t, root, PathNames(t, d, depth)) == Some(d)
    ensures (forall n <- PathNames(t, d, depth) :: ValidName(n)) && |PathNames(t, d, depth)| == depth[d]
    decreases depth[d]
  {
    if d != root {
      var p := Above(t, d).value;
      assert Attached(t, d, depth);
      FindNameWorks(t, root, depth, d, 0);
      PathNamesWalk(t, root, depth, p);
      WalkConcat(t, root, PathNames(t, p, depth), [FindName(t, p, d, 0).value]);
      var last := [FindName(t, p, d, 0).value];
      assert last[1..] == [];
    }
  }

  /** The path round trip: what build_path prints for d, vfs_lookup resolves to d. */
  lemma PathRoundTrip<T>(t: Tree<T>, root: T, depth: map<T, nat>, base: T, d: T)
    requires WellFormed(t, root, depth) && Rooted(t, root, depth, d)
    ensures Resolve(t, root, base, Spell(PathNames(t, d, depth))) == Some(d)
  {
    var names := PathNames(t, d, depth);
    PathNamesWalk(t, root, depth, d);
    if names == [] {
      assert Spell(names)[1..] == "";
    } else {
      WalkSpelled(t, root, names);
    }
  }
}
