/** What the parts of a path mean: splitting it at a slash, the dot names, empty components, and what a
    newly created file's path resolves to. */
module PathLaws {
  import opened Words
  import opened FileTree
  import opened TreeGrowth
  import opened RamFs

  /** The path stops inside a component, not behind a slash. */
  predicate EndsInName(path: string) { path != "" && path[|path| - 1] != '/' }

  /** The first component of a path, and what is behind it, do not depend on a further slash and what
      comes after it, unless the path has no other slash. */
  lemma FirstOfTwo(a: string, b: string)
    requires a != ""
    ensures '/' in a ==> Head(a + "/" + b) == Head(a) && Tail(a + "/" + b) == Tail(a) + "/" + b
    ensures '/' !in a ==> Head(a + "/" + b) == a && Tail(a + "/" + b) == b
    ensures '/' in a ==> (EndsInName(Tail(a)) <==> EndsInName(a))
    ensures '/' !in a ==> Head(a) == a && Tail(a) == ""
  {
    if '/' in a {
      SlashInHead(a);
      FirstOfParts(Head(a), a[|Head(a)| + 1..], b);
    } else {
      FirstComponent(a, "/" + b);
      assert a + "/" + b == a + ("/" + b) && ("/" + b)[1..] == b;
      FirstComponent(a, "");
      assert a + "" == a;
    }
  }

  lemma FirstOfParts(name: string, rest: string, b: string)
    requires '/' !in name
    ensures var a := name + "/" + rest;
            && Head(a) == Head(a + "/" + b) == name && Tail(a) == rest && Tail(a + "/" + b) == rest + "/" + b
            && (EndsInName(rest) <==> EndsInName(a))
  {
    var a := name + "/" + rest;
    assert a == name + ("/" + rest) && ("/" + rest)[1..] == rest;
    assert a + "/" + b == name + ("/" + rest + "/" + b) && ("/" + rest + "/" + b)[1..] == rest + "/" + b;
    FirstComponent(name, "/" + rest);
    FirstComponent(name, "/" + rest + "/" + b);
  }

  /** Parsing a name, which may be empty, followed by nothing or by a slash. */
  lemma FirstComponent(name: string, rest: string)
    requires '/' !in name && (rest == "" || rest[0] == '/') && name + rest != ""
    ensures Head(name + rest) == name && Tail(name + rest) == if rest == "" then "" else rest[1..]
  {
    HeadOf(name, rest);
    assert rest != "" ==> (name + rest)[|name| + 1..] == rest[1..];
  }

  lemma SlashAt(path: string, k: nat)
    requires k < |path| && path[k] == '/'
    ensures path == path[..k] + "/" + path[k + 1..]
  {
    assert path == path[..k] + [path[k]] + path[k + 1..];
  }

  lemma {:induction false} SlashInHead(a: string)
    requires '/' in a
    ensures |Head(a)| < |a| && a == Head(a) + "/" + a[|Head(a)| + 1..]
  {
    SlashAt(a, |Head(a)|);
  }

  // ----- Splitting a path

  /** Walking a path is walking what stands before a slash and from there what stands behind it. */
  lemma {:induction false} WalkSplit<T>(t: Tree<T>, base: T, a: string, b: string)
    requires EndsInName(a)
    ensures var mid := WalkPath(t, base, a);
            WalkPath(t, base, a + "/" + b) == if mid == None then None else WalkPath(t, mid.value, b)
    decreases |a|
  {
    FirstOfTwo(a, b);
    var next := Lookup(t, base, Head(a));
    if '/' in a && next.Some? { WalkSplit(t, next.value, Tail(a), b); }
  }

  lemma ResolveSplit<T>(t: Tree<T>, root: T, base: T, a: string, b: string)
    requires EndsInName(a)
    ensures var mid := Resolve(t, root, base, a);
            Resolve(t, root, base, a + "/" + b) == if mid == None then None else WalkPath(t, mid.value, b)
  {
    if a[0] == '/' {
      assert (a + "/" + b)[1..] == a[1..] + "/" + b;
      WalkSplit(t, root, a[1..], b);
    } else {
      WalkSplit(t, base, a, b);
    }
  }

  // ----- One more component

  /** A path of a single component. */
  lemma WalkOne<T>(t: Tree<T>, base: T, name: string)
    requires name != "" && '/' !in name
    ensures WalkPath(t, base, name) == if |name| <= COMPONENT_MAX then Lookup(t, base, name) else None
  {
    FirstComponent(name, "");
    assert name + "" == name;
  }

  /** A name behind a path is looked up in the directory that the path resolves to: dot is that directory
      itself, dot-dot the one above it, any other name the first entry that has it. Behind a path to a
      file nothing resolves. */
  lemma ResolveName<T>(t: Tree<T>, root: T, base: T, path: string, name: string)
    requires EndsInName(path) && Resolve(t, root, base, path).Some?
    requires name != "" && '/' !in name
    ensures var d, r := Resolve(t, root, base, path).value, Resolve(t, root, base, path + "/" + name);
            && (d !in t || !t[d].isDir || |name| > COMPONENT_MAX ==> r == None)
            && (d in t && t[d].isDir && name == "." ==> r == Some(d))
            && (d in t && t[d].isDir && name == ".." ==> r == if Above(t, d).Some? then Above(t, d) else Some(d))
            && (d in t && t[d].isDir && name != "." && name != ".." && |name| <= COMPONENT_MAX ==>
                  IsFirstNamed(t[d].entries, name, r))
  {
    var d := Resolve(t, root, base, path).value;
    ResolveSplit(t, root, base, path, name);
    WalkOne(t, d, name);
    if d in t { FirstNamedExact(t[d].entries, name); }
  }

  /** r is the node of the first entry with the name, or None if no entry has it. */
  ghost predicate IsFirstNamed<T>(es: seq<Entry<T>>, name: string, r: Option<T>) {
    match r
    case None => forall i :: 0 <= i < |es| ==> es[i].name != name
    case Some(n) =>
      exists i :: 0 <= i < |es| && es[i] == Entry(name, n) && forall j :: 0 <= j < i ==> es[j].name != name
  }

  lemma {:induction false} FirstNamedExact<T>(es: seq<Entry<T>>, name: string)
    ensures IsFirstNamed(es, name, FirstNamed(es, name))
  {
    if es != [] && es[0].name != name {
      var rest, r := es[1..], FirstNamed(es, name);
      FirstNamedExact(rest, name);
      assert forall i :: 0 < i < |es| ==> es[i] == rest[i - 1];
      if r.Some? {
        var i :| 0 <= i < |rest| && rest[i] == Entry(name, r.value) && forall j :: 0 <= j < i ==> rest[j].name != name;
        assert es[i + 1] == Entry(name, r.value);
      }
    }
  }

  // ----- Dot and dot-dot

  /** Dot-dot behind the path of any directory but the root leads to its parent, dot to itself. */
  lemma DotDotOfPath<T>(t: Tree<T>, root: T, depth: map<T, nat>, base: T, d: T)
    requires WellFormed(t, root, depth) && Rooted(t, root, depth, d) && d != root && t[d].isDir
    ensures var path := SpellFrom(PathNames(t, d, depth));
            && Above(t, d).Some?
            && Resolve(t, root, base, path + "/..") == Above(t, d)
            && Resolve(t, root, base, path + "/.") == Some(d)
  {
    var names := PathNames(t, d, depth);
    PathRoundTrip(t, root, depth, base, d);
    PathNamesWalk(t, root, depth, d);
    assert Attached(t, d, depth);
    SpelledEnds(names);
    assert SpellFrom(names) + "/" + ".." == SpellFrom(names) + "/..";
    assert SpellFrom(names) + "/" + "." == SpellFrom(names) + "/.";
    ResolveName(t, root, base, SpellFrom(names), "..");
    ResolveName(t, root, base, SpellFrom(names), ".");
  }

  lemma {:induction false} SpelledEnds(names: seq<string>)
    requires names != [] && forall n <- names :: ValidName(n)
    ensures EndsInName(SpellFrom(names))
    decreases |names|
  {
    assert ValidName(names[0]);
    if names[1..] != [] { SpelledEnds(names[1..]); }
  }

  /** The root is its own parent: dot and dot-dot there lead to the root, however often. */
  lemma DotDotOfRoot<T>(t: Tree<T>, root: T, depth: map<T, nat>, base: T, rest: string)
    requires WellFormed(t, root, depth)
    ensures Resolve(t, root, base, "/") == Some(root)
    ensures Resolve(t, root, base, "/..") == Some(root) && Resolve(t, root, base, "/.") == Some(root)
    ensures Resolve(t, root, base, "/../" + rest) == WalkPath(t, root, rest)
  {
    assert "/.."[1..] == ".." && "/."[1..] == "." && "/"[1..] == "";
    WalkOne(t, root, "..");
    WalkOne(t, root, ".");
    assert ("/../" + rest) == "/.." + "/" + rest;
    ResolveSplit(t, root, base, "/..", rest);
  }

  /** Going down into a directory and up again: the parent's path. */
  lemma DownAndUp<T>(t: Tree<T>, root: T, base: T, path: string, name: string, d: T)
    requires EndsInName(path) && Resolve(t, root, base, path).Some? && ValidName(name)
    requires Resolve(t, root, base, path + "/" + name) == Some(d)
    requires d in t && t[d].isDir && t[d].parent == Resolve(t, root, base, path)
    ensures Resolve(t, root, base, path + "/" + name + "/" + "..") == Resolve(t, root, base, path)
  {
    ResolveName(t, root, base, path + "/" + name, "..");
  }

  // ----- Empty components

  /** A slash at the end changes nothing. */
  lemma TrailingSlash<T>(t: Tree<T>, root: T, base: T, path: string)
    requires EndsInName(path)
    ensures Resolve(t, root, base, path + "/") == Resolve(t, root, base, path)
  {
    assert path + "/" + "" == path + "/";
    ResolveSplit(t, root, base, path, "");
  }

  lemma LookupInside<T>(t: Tree<T>, root: T, depth: map<T, nat>, d: T, name: string)
    requires WellFormed(t, root, depth) && d in t
    ensures Lookup(t, d, name).Some? ==> Lookup(t, d, name).value in t && name != ""
  {
    assert EntriesIn(t, d);
    FirstNamedExact(t[d].entries, name);
  }

  /** Any other empty component makes the path resolve to nothing: no entry has an empty name. */
  lemma {:induction false} EmptyComponent<T>(t: Tree<T>, root: T, depth: map<T, nat>, base: T, a: string, b: string)
    requires WellFormed(t, root, depth) && base in t && !EndsInName(a)
    ensures WalkPath(t, base, a + "/" + b) == None
    decreases |a|
  {
    if a == "" {
      FirstComponent("", "/" + b);
      assert a + "/" + b == "" + ("/" + b);
      LookupInside(t, root, depth, base, "");
    } else {
      FirstOfTwo(a, b);
      LookupInside(t, root, depth, base, Head(a));
      var next := Lookup(t, base, Head(a));
      if next.Some? { EmptyComponent(t, root, depth, next.value, Tail(a), b); }
    }
  }

  // ----- Creating by path

  /** Between the path's last slash and the one before it stands a name, or its last slash is its first
      character. */
  predicate NamedParent(path: string) {
    var n := LastSlash(path);
    n == 1 || (n > 1 && path[n - 2] != '/')
  }

  /** What the parent path and the last name are cut from. */
  lemma CutPath(path: string)
    requires path != "" && path[0] == '/' && LastSlash(path) > 1
    ensures path == ParentPath(path) + "/" + LastName(path)
    ensures NamedParent(path) <==> EndsInName(ParentPath(path))
  {
    SlashAt(path, LastSlash(path) - 1);
  }

  /** A path whose parent path leads to a directory is looked up there by its last name, unless an empty
      component stands before that name. */
  lemma ResolveByParent<T>(t: Tree<T>, root: T, depth: map<T, nat>, base: T, path: string, d: T)
    requires WellFormed(t, root, depth) && path != "" && path[0] == '/' && ValidName(LastName(path))
    requires Resolve(t, root, root, ParentPath(path)) == Some(d)
    ensures Resolve(t, root, base, path) == if NamedParent(path) then Lookup(t, d, LastName(path)) else None
  {
    var up, name := ParentPath(path), LastName(path);
    LastSlashPositive(path);
    WalkOne(t, d, name);
    if LastSlash(path) == 1 {
      assert up[1..] == "" && path[1..] == name;
    } else {
      CutPath(path);
      if NamedParent(path) {
        ResolveSplit(t, root, base, up, name);
      } else {
        assert path[1..] == up[1..] + "/" + name;
        EmptyComponent(t, root, depth, root, up[1..], name);
      }
    }
  }

  /** After a file has been created under a path, the path resolves to the file exactly when the name was
      new there and the path has no two slashes in a row before it. */
  lemma CreatedIsFound<T>(t: Tree<T>, root: T, depth: map<T, nat>, base: T, path: string, d: T, n: T)
    requires WellFormed(t, root, depth) && n !in t && d in t && t[d].isDir
    requires path != "" && path[0] == '/' && ValidName(LastName(path))
    requires Resolve(t, root, root, ParentPath(path)) == Some(d)
    ensures Resolve(CreateTree(t, d, LastName(path), n), root, base, path) == Some(n) <==>
            NamedParent(path) && Lookup(t, d, LastName(path)) == None
  {
    var name, u := LastName(path), CreateTree(t, d, LastName(path), n);
    CreateWellFormed(t, root, depth, d, name, n);
    assert EntriesIn(t, d);
    FreshNameExact(t, d, name, n, u[n]);
    ResolveKept(t, d, name, n, u[n], root, root, ParentPath(path));
    ResolveByParent(u, root, depth[n := 0], base, path, d);
  }
}
