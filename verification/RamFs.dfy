/** The RAM file system's directories and the path walker over them. */
module RamFs {
  import opened Words
  import opened FileTree
  import opened TreeGrowth

  const MAX_ENTRIES: nat := 32   // slots of a directory
  const MKDIR_LIMIT: nat := 64   // what ramfs_mkdir compares with
  const MAX_DEPTH: nat := 32     // components that build_path can hold
  const NAME_BUFFER: nat := 256

  class Inode {
    const isDir: bool
    var parent: Inode?
    var entries: seq<Entry<Inode>>  // the used slots of the directory's entry array

    constructor (isDir: bool)
      ensures this.isDir == isDir && parent == null && entries == []
    {
      this.isDir, parent, entries := isDir, null, [];
    }

    /** A directory below `parent`, with its two dot entries. */
    constructor Directory(parent: Inode)
      ensures AsNode() == Node(true, Some(parent), [Entry(".", this), Entry("..", parent)])
    {
      isDir, this.parent := true, parent;
      entries := [Entry(".", this), Entry("..", parent)];
    }

    ghost function AsNode(): Node<Inode>
      reads this
    {
      Node(isDir, if parent == null then None else Some(parent), entries)
    }
  }

  class FileSystem {
    var root: Inode?
    ghost var tree: Tree<Inode>   // what the inodes hold
    ghost var depth: map<Inode, nat>

    ghost predicate Valid()
      reads this, tree.Keys
    {
      && root != null && WellFormed(tree, root, depth)
      && forall n <- tree :: tree[n] == n.AsNode()
    }

    /** An empty root directory, mounted. */
    constructor ()
      ensures Valid() && tree == map[root := Node(true, None, [])] && fresh(root)
      ensures Rooted(tree, root, depth, root)
    {
      var r := new Inode(true);
      root, tree, depth := r, map[r := Node(true, None, [])], map[r := 0];
    }

    /** vfs_init with the root of a loaded tree. */
    constructor Mount(root: Inode, ghost tree: Tree<Inode>, ghost depth: map<Inode, nat>)
      requires WellFormed(tree, root, depth) && forall n <- tree :: tree[n] == n.AsNode()
      ensures Valid() && this.root == root && this.tree == tree && this.depth == depth
    {
      this.root, this.tree, this.depth := root, tree, depth;
    }

    /** ramfs_lookup */
    method RamLookup(dir: Inode, name: string) returns (found: Inode?)
      requires Valid() && dir in tree
      ensures (if found == null then None else Some(found)) == Lookup(tree, dir, name)
      ensures found != null ==> found in tree
    {
      LookupStays(tree, root, depth, dir, name);
      if !dir.isDir { return null; }
      if name == "." { return dir; }
      if name == ".." { return if dir.parent != null then dir.parent else dir; }
      for i := 0 to |dir.entries|
        invariant FirstNamed(dir.entries, name) == FirstNamed(dir.entries[i..], name)
      {
        if dir.entries[i].name == name { return dir.entries[i].node; }
        assert dir.entries[i..][1..] == dir.entries[i + 1..];
      }
      return null;
    }

    /** vfs_lookup: an absolute path starts at the root, a relative one at `base`. */
    method VfsLookup(path: string, base: Inode?) returns (found: Inode?)
      requires root != null ==> Valid()
      requires (path != "" && path[0] == '/') || base in tree || root == null
      ensures root == null ==> found == null
      ensures root != null ==>
                (if found == null then None else Some(found)) ==
                Resolve(tree, root, if base == null then root else base, path)
      ensures found != null ==> found in tree
    {
      if root == null { return null; }
      var cur, p := base, 0;
      if |path| > 0 && path[0] == '/' {
        cur, p := root, 1;
      }
      var name := new char[NAME_BUFFER];
      ghost var t := tree;
      ghost var goal := Resolve(t, root, if base == null then root else base, path);
      assert path[0..] == path;
      while p < |path|
        invariant p <= |path| && cur in tree && Valid()
        invariant goal == WalkPath(t, cur, path[p..])
      {
        ghost var rest := path[p..];
        var fits, len := true, 0;
        fits, len, p := NextComponent(path, p, name);
        if !fits {
          WalkPathStep(t, cur, rest);
          return null;
        }
        var next := RamLookup(cur, name[..len]);
        WalkPathStep(t, cur, rest);
        if next == null { return null; }
        cur := next;
      }
      assert path[p..] == "";
      found := cur;
    }

    /** One component of the path goes to the name buffer; the slash behind it is skipped. */
    method NextComponent(path: string, start: nat, name: array<char>) returns (fits: bool, len: nat, p: nat)
      requires start < |path| && name.Length == NAME_BUFFER
      modifies name
      ensures p <= |path| && (fits <==> |Head(path[start..])| <= COMPONENT_MAX)
      ensures fits ==>
                && start < p && len <= COMPONENT_MAX && name[..len] == Head(path[start..])
                && path[p..] == Tail(path[start..])
    {
      len, p := 0, start;
      while p < |path| && path[p] != '/'
        invariant start <= p <= |path| && len == p - start < NAME_BUFFER && name[..len] == path[start..p]
        invariant '/' !in path[start..p]
      {
        if len >= NAME_BUFFER - 1 {
          HeadAtLeast(path[start..], path[start..p + 1]);
          return false, len, p;
        }
        name[len] := path[p];
        assert path[start..p + 1] == path[start..p] + [path[p]];
        len, p := len + 1, p + 1;
      }
      HeadIs(path[start..], path[start..p]);
      if p < |path| { p := p + 1; }
      fits := true;
    }

    /** find_name_in_parent */
    method FindNameInParent(parent: Inode, child: Inode) returns (name: Option<string>)
      requires Valid() && parent in tree
      ensures name == FindName(tree, parent, child, 0)
    {
      var i := 0;
      while i < |parent.entries|
        invariant i <= |parent.entries|
        invariant FindName(tree, parent, child, 0) == FindName(tree, parent, child, i)
      {
        var n := RamLookup(parent, parent.entries[i].name);
        if n == child { return Some(parent.entries[i].name); }
        i := i + 1;
      }
      return None;
    }

    /** ramfs_create: no check for an entry of the same name. */
    method Create(dir: Inode, name: string) returns (ok: bool, ghost node: Inode?)
      requires Valid() && dir in tree && dir.isDir && ValidName(name)
      modifies this`tree, this`depth, dir
      ensures Valid() && root == old(root)
      ensures ok <==> |old(dir.entries)| < MAX_ENTRIES
      ensures !ok ==> tree == old(tree) && depth == old(depth)
      ensures ok ==>
                && node != null && fresh(node) && depth == old(depth)[node := 0]
                && tree == CreateTree(old(tree), dir, name, node)
    {
      if |dir.entries| >= MAX_ENTRIES { return false, null; }
      var inode := new Inode(false);
      Enter(dir, name, inode, 0);
      CreateWellFormed(old(tree), root, old(depth), dir, name, inode);
      return true, inode;
    }

    /** The last stores of ramfs_create and ramfs_mkdir: fill the next slot and count it. */
    method Enter(dir: Inode, name: string, inode: Inode, ghost level: nat)
      requires dir in tree && inode !in tree && forall n <- tree :: tree[n] == n.AsNode()
      modifies this`tree, this`depth, dir
      ensures tree == AddEntry(old(tree), dir, name, inode, old(inode.AsNode()))
      ensures depth == old(depth)[inode := level] && forall n <- tree :: tree[n] == n.AsNode()
    {
      dir.entries := dir.entries + [Entry(name, inode)];
      tree, depth := AddEntry(tree, dir, name, inode, inode.AsNode()), depth[inode := level];
    }

    /** ramfs_mkdir, on a directory with a free slot or one that its own check turns away. */
    method Mkdir(dir: Inode, name: string) returns (ok: bool, ghost node: Inode?)
      requires Valid() && dir in tree && dir.isDir && ValidName(name)
      requires |dir.entries| < MAX_ENTRIES || |dir.entries| >= MKDIR_LIMIT
      modifies this`tree, this`depth, dir
      ensures Valid() && root == old(root)
      ensures ok <==> |old(dir.entries)| < MKDIR_LIMIT && Lookup(old(tree), dir, name) == None
      ensures !ok ==> tree == old(tree) && depth == old(depth)
      ensures ok ==>
                && node != null && fresh(node)
                && depth == old(depth)[node := old(depth)[dir] + 1]
                && tree == MkdirTree(old(tree), dir, name, node)
    {
      if |dir.entries| >= MKDIR_LIMIT { return false, null; }
      var taken := HasEntry(dir, name);
      FirstNamedIffPresent(dir.entries, name);
      if taken { return false, null; }
      node := AddDirectory(dir, name);
      ok := true;
    }

    /** The rest of ramfs_mkdir: build the directory, then enter it. */
    method AddDirectory(dir: Inode, name: string) returns (ghost node: Inode)
      requires Valid() && dir in tree && dir.isDir && ValidName(name) && Lookup(tree, dir, name) == None
      modifies this`tree, this`depth, dir
      ensures Valid() && root == old(root)
      ensures fresh(node) && depth == old(depth)[node := old(depth)[dir] + 1]
      ensures tree == MkdirTree(old(tree), dir, name, node)
    {
      var inode := new Inode.Directory(dir);
      Enter(dir, name, inode, depth[dir] + 1);
      MkdirWellFormed(old(tree), root, old(depth), dir, name, inode);
      node := inode;
    }

    /** The duplicate check of ramfs_mkdir. */
    method HasEntry(dir: Inode, name: string) returns (taken: bool)
      ensures taken <==> exists i :: 0 <= i < |dir.entries| && dir.entries[i].name == name
    {
      for i := 0 to |dir.entries|
        invariant forall k :: 0 <= k < i ==> dir.entries[k].name != name
      {
        if dir.entries[i].name == name { return true; }
      }
      return false;
    }

    /** build_path: climb to the top collecting names, then write them out in reverse. The buffer has
        to hold the text and its terminator. */
    method BuildPath(d: Inode, buf: array<char>) returns (pos: nat)
      requires Valid() && d in tree && |PathNames(tree, d, depth)| <= MAX_DEPTH
      requires |Spell(PathNames(tree, d, depth))| < buf.Length
      modifies buf
      ensures pos == |Spell(PathNames(tree, d, depth))| && buf[..pos] == Spell(PathNames(tree, d, depth))
      ensures buf[pos] == '\0'
    {
      var parts := Climb(d);
      if parts == [] {
        buf[0] := '/';
        buf[1] := '\0';
        return 1;
      }
      pos := WriteReversed(parts, buf);
      buf[pos] := '\0';
    }

    /** The output loop of build_path. */
    method WriteReversed(parts: seq<string>, buf: array<char>) returns (pos: nat)
      requires |SpellFrom(Reversed(parts))| < buf.Length
      modifies buf
      ensures pos == |SpellFrom(Reversed(parts))| && buf[..pos] == SpellFrom(Reversed(parts))
    {
      ghost var text := SpellFrom(Reversed(parts));
      pos := 0;
      var i := |parts|;
      assert parts[..i] == parts;
      while i > 0
        invariant i <= |parts| && pos <= |text| && text == buf[..pos] + SpellFrom(Reversed(parts[..i]))
      {
        i := i - 1;
        SpellReversed(parts[..i + 1]);
        assert parts[..i + 1][..i] == parts[..i];
        pos := WriteName(buf, pos, parts[i]);
      }
    }

    /** One slash and one name. */
    method WriteName(buf: array<char>, pos: nat, name: string) returns (end: nat)
      requires pos + 1 + |name| < buf.Length
      modifies buf
      ensures end == pos + 1 + |name| && buf[..end] == old(buf[..pos]) + ("/" + name)
    {
      buf[pos] := '/';
      assert buf[..pos + 1] == old(buf[..pos]) + "/";
      CopyString(buf, pos + 1, name);
      end := pos + 1 + |name|;
    }

    /** The climb of build_path: the names from d upwards. */
    method Climb(d: Inode) returns (parts: seq<string>)
      requires Valid() && d in tree && |PathNames(tree, d, depth)| <= MAX_DEPTH
      ensures Reversed(parts) == PathNames(tree, d, depth) && |parts| <= MAX_DEPTH
    {
      ghost var names := PathNames(tree, d, depth);
      parts := [];
      var cur := d;
      while cur.parent != null && cur != cur.parent
        invariant cur in tree && names == PathNames(tree, cur, depth) + Reversed(parts)
        decreases depth[cur]
      {
        assert Attached(tree, cur, depth);
        FindNameWorks(tree, root, depth, cur, 0);
        var name := FindNameInParent(cur.parent, cur);
        if name == None { break; }
        assert (parts + [name.value])[..|parts|] == parts;
        parts := parts + [name.value];
        cur := cur.parent;
      }
      ReversedLength(parts);
    }

    /** strcpy to a place in the buffer */
    method CopyString(buf: array<char>, pos: nat, text: string)
      requires pos + |text| < buf.Length
      modifies buf
      ensures buf[..pos + |text|] == old(buf[..pos]) + text && buf[pos + |text|] == '\0'
    {
      for i := 0 to |text|
        invariant buf[..pos + i] == old(buf[..pos]) + text[..i]
      {
        buf[pos + i] := text[i];
      }
      buf[pos + |text|] := '\0';
    }

    /** vfs_path_last: what follows the last slash. */
    method PathLast(path: string) returns (last: nat)
      ensures last == LastSlash(path)
    {
      last := 0;
      for i := 0 to |path|
        invariant last == LastSlash(path[..i])
      {
        assert path[..i + 1][..i] == path[..i];
        if path[i] == '/' { last := i + 1; }
      }
      assert path[..|path|] == path;
    }

    /** vfs_lookup_parent: resolves what stands before the last slash, or the root. */
    method LookupParent(path: string) returns (dir: Inode?)
      requires Valid() && |path| <= NAME_BUFFER - 1
      ensures dir != null ==> dir in tree
      ensures (if dir == null then None else Some(dir)) ==
              if path == "" || path[0] != '/' then None else Resolve(tree, root, root, ParentPath(path))
    {
      if path == "" || path[0] != '/' { return null; }
      var temp := new char[NAME_BUFFER];
      var last := PathLast(path);
      LastSlashPositive(path);
      var len, stop := 0, last - 1;
      while len < |path| && len != stop
        invariant len <= stop && temp[..len] == path[..len]
      {
        temp[len] := path[len];
        len := len + 1;
      }
      if len == 0 {
        temp[0] := '/';
        len := 1;
      }
      assert temp[..len] == ParentPath(path);
      dir := VfsLookup(temp[..len], null);
    }

    /** sys_create on a path whose parent, if there is one, is a directory. */
    method SysCreate(path: string) returns (ok: bool, ghost node: Inode?)
      requires Valid() && |path| <= NAME_BUFFER - 1
      requires ValidName(LastName(path))
      requires var p := Resolve(tree, root, root, ParentPath(path));
               p.Some? && p.value in tree ==> p.value.isDir
      modifies this`tree, this`depth, tree.Keys
      ensures Valid() && root == old(root)
      ensures var p := Resolve(old(tree), root, root, ParentPath(path));
              && (ok <==> path != "" && path[0] == '/' && p.Some? && p.value in old(tree)
                          && |old(tree)[p.value].entries| < MAX_ENTRIES)
              && (!ok ==> tree == old(tree))
              && (ok ==> node != null && tree == CreateTree(old(tree), p.value, LastName(path), node))
    {
      var dir := LookupParent(path);
      if dir == null { return false, null; }
      var last := PathLast(path);
      ok, node := Create(dir, path[last..]);
    }
  }

  // ----- Reversing the collected names, and splitting a path at its last slash

  function Reversed(s: seq<string>): seq<string> {
    if s == [] then [] else [s[|s| - 1]] + Reversed(s[..|s| - 1])
  }

  lemma {:induction false} ReversedLength(s: seq<string>)
    ensures |Reversed(s)| == |s|
  {
    if s != [] { ReversedLength(s[..|s| - 1]); }
  }

  /** Writing the last collected name first. */
  lemma SpellReversed(s: seq<string>)
    requires s != []
    ensures SpellFrom(Reversed(s)) == "/" + s[|s| - 1] + SpellFrom(Reversed(s[..|s| - 1]))
  {
    assert Reversed(s)[1..] == Reversed(s[..|s| - 1]);
  }

  function LastSlash(path: string): (n: nat)
    ensures n <= |path| && '/' !in path[n..] && (n == 0 || path[n - 1] == '/')
  {
    if path == "" then 0
    else if path[|path| - 1] == '/' then |path|
    else
      var n := LastSlash(path[..|path| - 1]);
      assert path[n..] == path[..|path| - 1][n..] + [path[|path| - 1]];
      n
  }

  lemma LastSlashPositive(path: string)
    requires path != "" && path[0] == '/'
    ensures LastSlash(path) > 0
  {
    assert path[0..] == path && path[0] in path;
  }

  function LastName(path: string): string {
    path[LastSlash(path)..]
  }

  function ParentPath(path: string): string {
    var n := LastSlash(path);
    if n <= 1 then "/" else path[..n - 1]
  }

  lemma WalkPathStep<T>(t: Tree<T>, base: T, path: string)
    requires path != ""
    ensures |Head(path)| > COMPONENT_MAX ==> WalkPath(t, base, path) == None
    ensures |Head(path)| <= COMPONENT_MAX ==>
              var next := Lookup(t, base, Head(path));
              WalkPath(t, base, path) == if next == None then None else WalkPath(t, next.value, Tail(path))
  {
  }

  lemma HeadIs(path: string, name: string)
    requires |name| <= |path| && name == path[..|name|] && '/' !in name
    requires |name| == |path| || path[|name|] == '/'
    ensures Head(path) == name
  {
    HeadOf(name, path[|name|..]);
    assert name + path[|name|..] == path;
  }

  lemma {:induction false} HeadAtLeast(path: string, name: string)
    requires |name| <= |path| && name == path[..|name|] && '/' !in name
    ensures |Head(path)| >= |name|
    decreases |path|
  {
    if name != "" {
      assert path[0] == name[0] && name[1..] == path[1..][..|name| - 1];
      HeadAtLeast(path[1..], name[1..]);
    }
  }

  lemma LookupStays<T>(t: Tree<T>, root: T, depth: map<T, nat>, d: T, name: string)
    requires WellFormed(t, root, depth) && d in t
    ensures Lookup(t, d, name).Some? ==> Lookup(t, d, name).value in t
  {
    assert EntriesIn(t, d);
    FirstNamedIn(t[d].entries, name);
  }
}
