/** The RAM file system as a value (kernel/fs/fs.c): a tree of named items, paths
    as folds over their components, and what creation and deletion do to it. */
module FsTree {
  import opened Common

  datatype Status =
    | Success | Fail | NotFound | InvalidPath | NotADir | IsADir | BufTooSmall | InvalidFile | FileTooSmall
    | PermissionDenied | DirNotEmpty | InvalidFs | AlrExist | InvArg | InvPath

  /** Where a node hangs: the root, or under a name in another node. */
  datatype Place = Root | Kid(up: Place, name: string)

  const IS_DIRECTORY: nat := 1

  datatype Item = Item(flags: nat, data: string) {
    predicate IsDir() { flags % 2 == 1 }
  }

  /** All nodes by place, and each node's children in list order. */
  datatype Tree = Tree(items: map<Place, Item>, kids: map<Place, seq<string>>)

  /** The tree init_fs starts with. */
  const EMPTY: Tree := Tree(map[Root := Item(IS_DIRECTORY, "")], map[Root := []])

  predicate GoodName(s: string) { s != "" && '/' !in s && '\0' !in s && s != "." && s != ".." }

  ghost predicate NoRepeats(s: seq<string>) { forall i, j :: 0 <= i < j < |s| ==> s[i] != s[j] }

  ghost predicate Hangs(t: Tree, p: Place) {
    p.Kid? ==> p.up in t.items && t.items[p.up].IsDir() && GoodName(p.name)
  }

  ghost predicate Lists(t: Tree, p: Place)
    requires p in t.kids
  {
    NoRepeats(t.kids[p]) && forall s :: s in t.kids[p] <==> Kid(p, s) in t.items
  }

  /** Each node hangs under its name in one directory, whose list names it once. */
  ghost predicate TreeOk(t: Tree) {
    && Root in t.items && t.items[Root].IsDir()
    && t.kids.Keys == t.items.Keys
    && (forall p :: p in t.items ==> Hangs(t, p))
    && (forall p :: p in t.kids ==> Lists(t, p))
  }

  // ---------------------------------------------------------------------
  // Paths
  // ---------------------------------------------------------------------

  /** The characters before the first slash. */
  function Word(s: string): (w: string)
    ensures |w| <= |s| && w == s[..|w|] && '/' !in w
    ensures |w| < |s| ==> s[|w|] == '/'
  {
    if s == "" || s[0] == '/' then "" else [s[0]] + Word(s[1..])
  }

  /** The nonempty pieces between slashes. */
  function Components(s: string): (r: seq<string>)
    ensures forall c :: c in r ==> c != "" && '/' !in c
    decreases |s|
  {
    if s == "" then []
    else if s[0] == '/' then Components(s[1..])
    else [Word(s)] + Components(s[|Word(s)|..])
  }

  datatype Found = Node(place: Place) | Error(status: Status)

  /** One component. Note that "." and ".." do not ask for a directory. */
  function Step(t: Tree, cur: Place, c: string): Found
    requires cur in t.items
  {
    if c == "." then Node(cur)
    else if c == ".." then Node(if cur.Kid? then cur.up else Root)
    else if !t.items[cur].IsDir() then Error(NotADir)
    else if Kid(cur, c) in t.items then Node(Kid(cur, c))
    else Error(NotFound)
  }

  /** Folding Step over the components; the first error wins. */
  function Resolve(t: Tree, cur: Place, cs: seq<string>): (r: Found)
    requires TreeOk(t) && cur in t.items
    ensures r.Node? ==> r.place in t.items
    ensures r.Error? ==> r.status == NotADir || r.status == NotFound
    decreases |cs|
  {
    if cs == [] then Node(cur)
    else
      var r := Step(t, cur, cs[0]);
      if r.Error? then r
      else
        assert Hangs(t, cur);
        Resolve(t, r.place, cs[1..])
  }

  function ParsePath(t: Tree, path: string): (r: Found)
    requires TreeOk(t)
    ensures r.Node? ==> r.place in t.items
    ensures r.Error? ==> r.status == NotADir || r.status == NotFound
  {
    Resolve(t, Root, Components(path))
  }

  // Slashes only separate.

  lemma {:induction false} LeadingSlash(s: string)
    ensures Components("/" + s) == Components(s)
  {
    assert ("/" + s)[1..] == s;
  }

  lemma WordOfPrefix(w: string, rest: string)
    requires '/' !in w && (rest != "" ==> rest[0] == '/')
    ensures Word(w + rest) == w
  {
    if w == "" {
      assert w + rest == rest;
    } else {
      assert (w + rest)[1..] == w[1..] + rest;
      WordOfPrefix(w[1..], rest);
    }
  }

  /** The components of two paths joined by a slash are those of both. */
  lemma {:induction false} ComponentsJoin(a: string, b: string)
    ensures Components(a + "/" + b) == Components(a) + Components(b)
    decreases |a|
  {
    var s := a + "/" + b;
    if a == "" {
      assert s == "/" + b;
      LeadingSlash(b);
    } else if a[0] == '/' {
      assert s[1..] == a[1..] + "/" + b;
      ComponentsJoin(a[1..], b);
    } else {
      var w := Word(a);
      assert s == w + (a[|w|..] + "/" + b);
      WordOfPrefix(w, a[|w|..] + "/" + b);
      assert s[|w|..] == a[|w|..] + "/" + b;
      ComponentsJoin(a[|w|..], b);
    }
  }

  /** Repeated, leading and trailing slashes never matter. */
  lemma SlashesDoNotMatter(t: Tree, a: string, b: string)
    requires TreeOk(t)
    ensures ParsePath(t, a + "//" + b) == ParsePath(t, a + "/" + b)
    ensures ParsePath(t, "/" + b) == ParsePath(t, b)
    ensures ParsePath(t, a + "/") == ParsePath(t, a)
  {
    ComponentsJoin(a, b);
    ComponentsJoin(a, "/" + b);
    assert a + "//" + b == a + "/" + ("/" + b);
    LeadingSlash(b);
    ComponentsJoin(a, "");
    assert a + "/" == a + "/" + "";
    assert Components("") == [] && Components(a) + [] == Components(a);
  }

  lemma {:induction false} ResolveJoin(t: Tree, cur: Place, cs: seq<string>, ds: seq<string>)
    requires TreeOk(t) && cur in t.items
    ensures Resolve(t, cur, cs + ds) ==
            var r := Resolve(t, cur, cs); if r.Error? then r else Resolve(t, r.place, ds)
    decreases |cs|
  {
    if cs == [] {
      assert cs + ds == ds;
    } else {
      assert (cs + ds)[1..] == cs[1..] + ds;
      var r := Step(t, cur, cs[0]);
      if r.Node? {
        assert Hangs(t, cur);
        ResolveJoin(t, r.place, cs[1..], ds);
      }
    }
  }

  // What one more component at the end of a path means.

  lemma LastComponent(t: Tree, s: string, c: string)
    requires TreeOk(t) && c != "" && '/' !in c
    ensures ParsePath(t, s + "/" + c) ==
            var r := ParsePath(t, s); if r.Error? then r else Step(t, r.place, c)
  {
    hide Components, Step;
    ComponentsJoin(s, c);
    OneComponent(c);
    ResolveJoin(t, Root, Components(s), [c]);
    if ParsePath(t, s).Node? {
      StepResolves(t, ParsePath(t, s).place, c);
    }
  }

  /** A path that fails keeps its error, whatever comes behind it. */
  lemma ErrorStays(t: Tree, s: string, rest: string)
    requires TreeOk(t) && ParsePath(t, s).Error?
    ensures ParsePath(t, s + "/" + rest) == ParsePath(t, s)
  {
    ComponentsJoin(s, rest);
    ResolveJoin(t, Root, Components(s), Components(rest));
  }

  /** The empty path is the root, ".." leads to the parent, from a file too, and from the
      root to the root; "." leads nowhere else. */
  lemma DotsResolve(t: Tree, s: string)
    requires TreeOk(t)
    ensures ParsePath(t, "") == ParsePath(t, "/") == Node(Root)
    ensures forall up, name :: ParsePath(t, s) == Node(Kid(up, name)) ==> ParsePath(t, s + "/..") == Node(up)
    ensures ParsePath(t, s) == Node(Root) ==> ParsePath(t, s + "/..") == Node(Root)
    ensures ParsePath(t, s + "/.") == ParsePath(t, s)
  {
    LastComponent(t, s, "..");
    LastComponent(t, s, ".");
    assert s + "/" + ".." == s + "/.." && s + "/" + "." == s + "/.";
    LeadingSlash("");
    assert "/" + "" == "/";
  }

  /** An ordinary name leads to the child of that name: an error of its own for a path to a
      file, and for a directory without such a child. */
  lemma NameResolves(t: Tree, s: string, p: Place, name: string)
    requires TreeOk(t) && ParsePath(t, s) == Node(p)
    requires name != "" && '/' !in name && name != "." && name != ".."
    ensures Kid(p, name) in t.items ==> ParsePath(t, s + "/" + name) == Node(Kid(p, name))
    ensures Kid(p, name) !in t.items ==>
              ParsePath(t, s + "/" + name) == Error(if t.items[p].flags % 2 == 1 then NotFound else NotADir)
  {
    LastComponent(t, s, name);
    if Kid(p, name) in t.items {
      assert Hangs(t, Kid(p, name));
    }
  }

  /** The names on the way from the root. */
  function Names(p: Place): seq<string> { if p.Root? then [] else Names(p.up) + [p.name] }

  /** The absolute path. */
  function PathOf(p: Place): string { if p.Root? then "" else PathOf(p.up) + "/" + p.name }

  lemma {:induction false} PathComponents(t: Tree, p: Place)
    requires TreeOk(t) && p in t.items
    ensures Components(PathOf(p)) == Names(p)
  {
    if p.Kid? {
      assert Hangs(t, p);
      PathComponents(t, p.up);
      ComponentsJoin(PathOf(p.up), p.name);
      WordOfPrefix(p.name, "");
      assert p.name + "" == p.name && p.name[|p.name|..] == "";
      assert Components(p.name) == [p.name];
    }
  }

  /** Each node's absolute path resolves back to that node. */
  lemma {:induction false} PathResolves(t: Tree, p: Place)
    requires TreeOk(t) && p in t.items
    ensures ParsePath(t, PathOf(p)) == Node(p)
  {
    PathComponents(t, p);
    NamesResolve(t, p);
  }

  lemma {:induction false} NamesResolve(t: Tree, p: Place)
    requires TreeOk(t) && p in t.items
    ensures Resolve(t, Root, Names(p)) == Node(p)
  {
    if p.Kid? {
      assert Hangs(t, p);
      NamesResolve(t, p.up);
      ResolveJoin(t, Root, Names(p.up), [p.name]);
    }
  }

  // ---------------------------------------------------------------------
  // Creating and deleting
  // ---------------------------------------------------------------------

  /** A new first child. */
  function Insert(t: Tree, up: Place, name: string, item: Item): Tree
    requires up in t.kids
  {
    Tree(t.items[Kid(up, name) := item], t.kids[up := [name] + t.kids[up]][Kid(up, name) := []])
  }

  /** A list without one of its names. */
  function Without(names: seq<string>, name: string): seq<string> {
    if names == [] then []
    else if names[0] == name then names[1..]
    else [names[0]] + Without(names[1..], name)
  }

  function Remove(t: Tree, up: Place, name: string): Tree
    requires up in t.kids
  {
    Tree(t.items - {Kid(up, name)}, t.kids[up := Without(t.kids[up], name)] - {Kid(up, name)})
  }

  lemma InsertOk(t: Tree, up: Place, name: string, item: Item)
    requires TreeOk(t) && up in t.items && t.items[up].IsDir() && GoodName(name) && Kid(up, name) !in t.items
    ensures TreeOk(Insert(t, up, name, item))
  {
    var p := Kid(up, name);
    var t' := Insert(t, up, name, item);
    forall q | q in t'.items
      ensures Hangs(t', q)
    {
      if q != p {
        assert Hangs(t, q);
      }
    }
    forall q | q in t'.kids
      ensures Lists(t', q)
    {
      if q == p {
        forall s
          ensures Kid(p, s) !in t.items
        {
          if Kid(p, s) in t.items {
            UpKnown(t, Kid(p, s));
          }
        }
      } else {
        assert Lists(t, q);
        if q == up {
          InsertLists(t.kids[up], name);
        }
      }
    }
  }

  lemma UpKnown(t: Tree, p: Place)
    requires TreeOk(t) && p in t.items && p.Kid?
    ensures p.up in t.items
  {
    assert Hangs(t, p);
  }

  lemma InsertLists(names: seq<string>, name: string)
    requires NoRepeats(names) && name !in names
    ensures NoRepeats([name] + names)
    ensures forall s :: s in [name] + names <==> s == name || s in names
  {
  }

  lemma {:induction false} WithoutNames(names: seq<string>, name: string)
    requires NoRepeats(names)
    ensures NoRepeats(Without(names, name))
    ensures forall s :: s in Without(names, name) <==> s in names && s != name
  {
    if names != [] {
      if names[0] == name {
        forall s
          ensures s in names[1..] <==> s in names && s != name
        {
        }
      } else {
        assert NoRepeats(names[1..]);
        WithoutNames(names[1..], name);
        InsertLists(Without(names[1..], name), names[0]);
        assert names == [names[0]] + names[1..];
      }
    }
  }

  lemma NoKids(t: Tree, p: Place)
    requires TreeOk(t) && p in t.items && t.kids[p] == []
    ensures forall q :: q in t.items && q.Kid? ==> q.up != p
  {
    assert Lists(t, p);
    forall q | q in t.items && q.Kid?
      ensures q.up != p
    {
      assert q == Kid(q.up, q.name);
    }
  }

  lemma RemoveOk(t: Tree, up: Place, name: string)
    requires TreeOk(t) && Kid(up, name) in t.items && t.kids[Kid(up, name)] == []
    ensures up in t.items && TreeOk(Remove(t, up, name))
  {
    var p := Kid(up, name);
    assert Hangs(t, p) && Lists(t, p);
    var t' := Remove(t, up, name);
    NoKids(t, p);
    forall q | q in t'.items
      ensures Hangs(t', q)
    {
      assert Hangs(t, q);
    }
    forall q | q in t'.kids
      ensures Lists(t', q)
    {
      assert Lists(t, q);
      if q == up {
        WithoutNames(t.kids[up], name);
      }
    }
  }

  /** The arguments create_file refuses before it looks at the tree. */
  function BadArguments(path: Option<string>, data: Option<string>, size: nat, flags: nat): Option<Status> {
    if path.None? || (data.None? && size != 0 && flags % 2 == 0) then Some(InvArg)
    else if path.value == "" || path.value[|path.value| - 1] == '/' then Some(InvPath)
    else None
  }

  /** Position of the last slash, -1 without one. */
  function LastSlash(s: string): (i: int)
    ensures -1 <= i < |s|
    ensures i >= 0 ==> s[i] == '/'
    ensures forall j :: i < j < |s| ==> s[j] != '/'
  {
    if s == "" then -1
    else if s[|s| - 1] == '/' then |s| - 1
    else LastSlash(s[..|s| - 1])
  }

  function ParentPath(path: string): string {
    var i := LastSlash(path);
    if i < 0 then "." else if i == 0 then "/" else path[..i]
  }

  function BaseName(path: string): string { path[LastSlash(path) + 1..] }

  /** create_file once the path is taken apart. */
  function CreateNamed(t: Tree, parentPath: string, name: string, data: Option<string>, size: nat, flags: nat)
    : (Status, Tree)
    requires TreeOk(t) && (data.Some? ==> size <= |data.value|)
  {
    match ParsePath(t, parentPath)
    case Error(status) => (status, t)
    case Node(up) =>
      if !t.items[up].IsDir() then (NotADir, t)
      else if Kid(up, name) in t.items then (AlrExist, t)
      else (Success, Insert(t, up, name, Item(flags, if data.Some? then data.value[..size] else "")))
  }

  /** create_file when no allocation fails: the status, and the tree afterwards. */
  function Create(t: Tree, path: Option<string>, data: Option<string>, size: nat, flags: nat): (Status, Tree)
    requires TreeOk(t) && (data.Some? ==> size <= |data.value|)
  {
    var bad := BadArguments(path, data, size, flags);
    if bad.Some? then (bad.value, t)
    else if BaseName(path.value) == "." || BaseName(path.value) == ".." then (Fail, t)
    else CreateNamed(t, ParentPath(path.value), BaseName(path.value), data, size, flags)
  }

  /** delete_file. */
  function Delete(t: Tree, path: Option<string>): (Status, Tree)
    requires TreeOk(t)
  {
    if path.None? then (InvalidPath, t)
    else
      match ParsePath(t, path.value)
      case Error(status) => (status, t)
      case Node(p) =>
        if p == Root then (PermissionDenied, t)
        else if t.items[p].IsDir() && t.kids[p] != [] then (DirNotEmpty, t)
        else
          assert Hangs(t, p);
          (Success, Remove(t, p.up, p.name))
  }

  /** A path that create_file accepts resolves to the base name under what the parent path resolves to. */
  lemma SplitPath(t: Tree, path: string)
    requires TreeOk(t) && path != "" && path[|path| - 1] != '/' && BaseName(path) != "." && BaseName(path) != ".."
    ensures BaseName(path) != "" && '/' !in BaseName(path)
    ensures ParsePath(t, path) ==
            match ParsePath(t, ParentPath(path))
            case Error(status) => Error(status)
            case Node(up) => Step(t, up, BaseName(path))
  {
    var name := BaseName(path);
    OneComponent(name);
    SplitComponents(path);
    hide Components, TreeOk, BaseName, ParentPath;
    if LastSlash(path) < 0 {
      DotIsRoot(t);
      StepResolves(t, Root, name);
    } else {
      ResolveJoin(t, Root, Components(ParentPath(path)), [name]);
      if ParsePath(t, ParentPath(path)).Node? {
        StepResolves(t, ParsePath(t, ParentPath(path)).place, name);
      }
    }
  }

  lemma StepResolves(t: Tree, cur: Place, c: string)
    requires TreeOk(t) && cur in t.items
    ensures Resolve(t, cur, [c]) == Step(t, cur, c)
  {
    assert Hangs(t, cur);
  }

  lemma OneComponent(name: string)
    requires name != "" && '/' !in name
    ensures Components(name) == [name]
  {
    WordOfPrefix(name, "");
    assert name + "" == name && name[|name|..] == "";
  }

  lemma DotIsRoot(t: Tree)
    requires TreeOk(t)
    ensures ParsePath(t, ".") == Node(Root)
  {
    OneComponent(".");
    StepResolves(t, Root, ".");
  }

  lemma SplitComponents(path: string)
    requires path != "" && path[|path| - 1] != '/'
    ensures BaseName(path) != "" && '/' !in BaseName(path)
    ensures LastSlash(path) < 0 ==> path == BaseName(path) && ParentPath(path) == "."
    ensures LastSlash(path) >= 0 ==> Components(path) == Components(ParentPath(path)) + [BaseName(path)]
  {
    var i := LastSlash(path);
    BaseNameFacts(path);
    hide Components, LastSlash, BaseName;
    if i < 0 {
      assert path[0..] == path;
    } else {
      OneComponent(BaseName(path));
      ComponentsJoin(path[..i], BaseName(path));
      ParentComponents(path, i);
    }
  }

  lemma BaseNameFacts(path: string)
    requires path != "" && path[|path| - 1] != '/'
    ensures BaseName(path) != "" && '/' !in BaseName(path) && BaseName(path) == path[LastSlash(path) + 1..]
    ensures LastSlash(path) >= 0 ==> path == path[..LastSlash(path)] + "/" + BaseName(path)
  {
    var i := LastSlash(path);
    NoSlashFrom(path, i + 1);
    if i >= 0 {
      CutAt(path, i);
    }
  }

  lemma NoSlashFrom(s: string, i: nat)
    requires i <= |s| && forall j :: i <= j < |s| ==> s[j] != '/'
    ensures '/' !in s[i..]
  {
  }

  lemma CutAt(s: string, i: nat)
    requires i < |s| && s[i] == '/'
    ensures s == s[..i] + "/" + s[i + 1..]
  {
  }

  lemma ParentComponents(path: string, i: nat)
    requires LastSlash(path) == i
    ensures Components(ParentPath(path)) == Components(path[..i])
  {
    if i == 0 {
      LeadingSlash("");
      assert "/" + "" == "/" && path[..0] == "";
    }
  }

  ghost predicate Grows(t: Tree, t': Tree) {
    forall p :: p in t.items ==> p in t'.items && t'.items[p] == t.items[p]
  }

  /** Nodes that stay where they were keep every path that led to them. */
  lemma {:induction false} ResolveGrows(t: Tree, t': Tree, cur: Place, cs: seq<string>)
    requires TreeOk(t) && TreeOk(t') && Grows(t, t') && cur in t.items
    requires Resolve(t, cur, cs).Node?
    ensures Resolve(t', cur, cs) == Resolve(t, cur, cs)
    decreases |cs|
  {
    if cs != [] {
      assert Hangs(t, cur);
      ResolveGrows(t, t', Step(t, cur, cs[0]).place, cs[1..]);
    }
  }

  lemma GoodBaseName(s: string)
    requires s != "" && s[|s| - 1] != '/' && '\0' !in s && BaseName(s) != "." && BaseName(s) != ".."
    ensures GoodName(BaseName(s))
  {
    BaseNameFacts(s);
    hide LastSlash;
  }

  lemma CreateOk(t: Tree, path: Option<string>, data: Option<string>, size: nat, flags: nat)
    requires TreeOk(t) && (data.Some? ==> size <= |data.value|) && (path.Some? ==> '\0' !in path.value)
    ensures TreeOk(Create(t, path, data, size, flags).1)
    ensures Create(t, path, data, size, flags).0 != Success ==> Create(t, path, data, size, flags).1 == t
    ensures Grows(t, Create(t, path, data, size, flags).1)
  {
    hide TreeOk, BaseName, ParentPath, ParsePath;
    if Create(t, path, data, size, flags).0 == Success {
      GoodBaseName(path.value);
      InsertOk(t, ParsePath(t, ParentPath(path.value)).place, BaseName(path.value),
               Item(flags, if data.Some? then data.value[..size] else ""));
    }
  }

  /** After a successful create the path resolves to the new node, with the given
      contents, and every path that resolved before resolves as before. */
  lemma CreateFrame(t: Tree, path: string, data: Option<string>, size: nat, flags: nat, other: string)
    requires TreeOk(t) && (data.Some? ==> size <= |data.value|) && '\0' !in path
    requires Create(t, Some(path), data, size, flags).0 == Success
    ensures var t' := Create(t, Some(path), data, size, flags).1;
            && TreeOk(t')
            && ParsePath(t, ParentPath(path)).Node?
            && ParsePath(t', path) == Node(Kid(ParsePath(t, ParentPath(path)).place, BaseName(path)))
            && ParsePath(t', path).place !in t.items
            && t'.items[ParsePath(t', path).place] == Item(flags, if data.Some? then data.value[..size] else "")
            && (ParsePath(t, other).Node? ==> ParsePath(t', other) == ParsePath(t, other))
  {
    var t' := Create(t, Some(path), data, size, flags).1;
    var up, name := ParsePath(t, ParentPath(path)).place, BaseName(path);
    SplitPath(t, path);
    InsertOk(t, up, name, Item(flags, if data.Some? then data.value[..size] else ""));
    SplitPath(t', path);
    ResolveGrows(t, t', Root, Components(ParentPath(path)));
    if ParsePath(t, other).Node? {
      ResolveGrows(t, t', Root, Components(other));
    }
  }

  lemma LastSlashIs(s: string, i: int)
    requires -1 <= i < |s| && (i >= 0 ==> s[i] == '/') && forall j :: i < j < |s| ==> s[j] != '/'
    ensures LastSlash(s) == i
  {
    hide LastSlash;
  }

  lemma JoinedChar(s: string, name: string, j: nat)
    requires |s| < j < |s| + 1 + |name| && '/' !in name
    ensures |s + "/" + name| == |s| + 1 + |name| && (s + "/" + name)[j] != '/'
  {
    assert name[j - |s| - 1] in name;
  }

  lemma LastSlashJoin(s: string, name: string)
    requires '/' !in name
    ensures LastSlash(s + "/" + name) == |s| && LastSlash(name) == -1
  {
    hide LastSlash;
    forall j | |s| < j < |s| + 1 + |name|
      ensures (s + "/" + name)[j] != '/'
    {
      JoinedChar(s, name, j);
    }
    LastSlashIs(s + "/" + name, |s|);
    LastSlashIs(name, -1);
  }

  lemma SplitAt(s: string, name: string)
    requires '/' !in name
    ensures LastSlash(s + "/" + name) == |s| && BaseName(s + "/" + name) == name
    ensures s != "" ==> ParentPath(s + "/" + name) == s
    ensures s == "" ==> ParentPath(s + "/" + name) == "/"
    ensures LastSlash(name) == -1 && BaseName(name) == name && ParentPath(name) == "."
  {
    hide LastSlash;
    LastSlashJoin(s, name);
    var path := s + "/" + name;
    assert path[|s| + 1..] == name && path[..|s|] == s;
    assert name[0..] == name;
  }

  /** What create_file answers for a last name behind any path, and what it makes. */
  lemma CreateAnswers(t: Tree, s: string, name: string, data: Option<string>, size: nat, flags: nat)
    requires TreeOk(t) && (data.Some? ==> size <= |data.value|)
    requires name != "" && '/' !in name && name != "." && name != ".."
    requires data.None? ==> size == 0 || flags % 2 == 1
    ensures var (status, t') := Create(t, Some(s + "/" + name), data, size, flags);
            match ParsePath(t, s)
            case Error(e) => status == e && t' == t
            case Node(up) =>
              if t.items[up].flags % 2 == 0 then status == NotADir && t' == t
              else if Kid(up, name) in t.items then status == AlrExist && t' == t
              else
                && status == Success
                && t'.items == t.items[Kid(up, name) := Item(flags, if data.Some? then data.value[..size] else "")]
                && up in t.kids && t'.kids == t.kids[up := [name] + t.kids[up]][Kid(up, name) := []]
    ensures Create(t, Some(name), data, size, flags) == Create(t, Some("/" + name), data, size, flags)
  {
    hide TreeOk, ParsePath, LastSlash, BaseName, ParentPath, CreateNamed;
    SplitAt(s, name);
    SplitAt("", name);
    assert "" + "/" + name == "/" + name;
    DotsResolve(t, s);
    DotIsRoot(t);
    LastChar(s, name);
    LastChar("", name);
    CreatePlain(t, s, name, data, size, flags);
    CreatePlain(t, "", name, data, size, flags);
    NamedAnswers(t, ParentPath(s + "/" + name), name, data, size, flags);
    assert Create(t, Some(name), data, size, flags) == CreateNamed(t, ".", name, data, size, flags);
    NamedAlike(t, ".", "/", name, data, size, flags);
  }

  lemma LastChar(s: string, name: string)
    requires name != "" && '/' !in name
    ensures var path := s + "/" + name; path != "" && path[|path| - 1] != '/' && name[|name| - 1] != '/'
  {
    assert name[|name| - 1] in name;
  }

  lemma CreatePlain(t: Tree, s: string, name: string, data: Option<string>, size: nat, flags: nat)
    requires TreeOk(t) && (data.Some? ==> size <= |data.value|)
    requires name != "" && '/' !in name && name != "." && name != ".."
    requires data.None? ==> size == 0 || flags % 2 == 1
    ensures Create(t, Some(s + "/" + name), data, size, flags) ==
            CreateNamed(t, ParentPath(s + "/" + name), name, data, size, flags)
  {
    hide TreeOk, ParsePath, LastSlash, BaseName, ParentPath, CreateNamed;
    SplitAt(s, name);
    LastChar(s, name);
  }

  lemma NamedAlike(t: Tree, a: string, b: string, name: string, data: Option<string>, size: nat, flags: nat)
    requires TreeOk(t) && (data.Some? ==> size <= |data.value|) && ParsePath(t, a) == ParsePath(t, b)
    ensures CreateNamed(t, a, name, data, size, flags) == CreateNamed(t, b, name, data, size, flags)
  {
    hide TreeOk, ParsePath, Insert;
  }

  lemma NamedAnswers(t: Tree, s: string, name: string, data: Option<string>, size: nat, flags: nat)
    requires TreeOk(t) && (data.Some? ==> size <= |data.value|)
    ensures var (status, t') := CreateNamed(t, s, name, data, size, flags);
            match ParsePath(t, s)
            case Error(e) => status == e && t' == t
            case Node(up) =>
              if t.items[up].flags % 2 == 0 then status == NotADir && t' == t
              else if Kid(up, name) in t.items then status == AlrExist && t' == t
              else
                && status == Success
                && t'.items == t.items[Kid(up, name) := Item(flags, if data.Some? then data.value[..size] else "")]
                && up in t.kids && t'.kids == t.kids[up := [name] + t.kids[up]][Kid(up, name) := []]
  {
    hide ParsePath;
  }

  /** What create_file answers for arguments it refuses: no path, or contents promised for a
      file but none given; an empty path, or one with a slash at its end; "." or ".." as last name. */
  lemma CreateRefuses(t: Tree, path: Option<string>, data: Option<string>, size: nat, flags: nat, s: string)
    requires TreeOk(t) && (data.Some? ==> size <= |data.value|)
    ensures path.None? || (data.None? && size != 0 && flags % 2 == 0) ==> Create(t, path, data, size, flags) == (InvArg, t)
    ensures data.Some? || size == 0 || flags % 2 == 1 ==>
              && Create(t, Some(""), data, size, flags) == Create(t, Some(s + "/"), data, size, flags) == (InvPath, t)
              && Create(t, Some("."), data, size, flags) == Create(t, Some(s + "/."), data, size, flags) == (Fail, t)
              && Create(t, Some(".."), data, size, flags) == Create(t, Some(s + "/.."), data, size, flags) == (Fail, t)
  {
    hide TreeOk, ParsePath, LastSlash, BaseName, ParentPath, CreateNamed;
    SplitAt(s, ".");
    SplitAt(s, "..");
    assert s + "/" + "." == s + "/." && s + "/" + ".." == s + "/..";
  }

  /** What delete_file answers, and what it leaves. */
  lemma DeleteAnswers(t: Tree, path: string)
    requires TreeOk(t)
    ensures Delete(t, None) == (InvalidPath, t)
    ensures var (status, t') := Delete(t, Some(path));
            match ParsePath(t, path)
            case Error(e) => status == e && t' == t
            case Node(p) =>
              if p == Root then status == PermissionDenied && t' == t
              else if exists name :: Kid(p, name) in t.items then status == DirNotEmpty && t' == t
              else status == Success && t'.items == t.items - {p}
  {
    if ParsePath(t, path).Node? {
      var p := ParsePath(t, path).place;
      assert Lists(t, p);
      if !t.items[p].IsDir() {
        NoKidsInFiles(t, p);
      }
      if t.kids[p] != [] {
        assert Kid(p, t.kids[p][0]) in t.items;
      }
    }
    hide ParsePath;
  }

  /** Deleting what was just created restores the tree, child lists included. */
  lemma DeleteUndoesCreate(t: Tree, path: string, data: Option<string>, size: nat, flags: nat)
    requires TreeOk(t) && (data.Some? ==> size <= |data.value|) && '\0' !in path
    requires Create(t, Some(path), data, size, flags).0 == Success
    ensures var t' := Create(t, Some(path), data, size, flags).1;
            TreeOk(t') && Delete(t', Some(path)) == (Success, t)
  {
    hide TreeOk, BaseName, LastSlash, ParentPath, ParsePath, Insert, Remove, Grows;
    CreateFrame(t, path, data, size, flags, "");
    RemoveInserted(t, ParsePath(t, ParentPath(path)).place, BaseName(path),
                   Item(flags, if data.Some? then data.value[..size] else ""));
  }

  lemma RemoveInserted(t: Tree, up: Place, name: string, item: Item)
    requires TreeOk(t) && up in t.items && Kid(up, name) !in t.items
    ensures up in t.kids && Remove(Insert(t, up, name, item), up, name) == t
    ensures Insert(t, up, name, item).kids[Kid(up, name)] == []
  {
    var t' := Insert(t, up, name, item);
    assert t'.kids[up] == [name] + t.kids[up];
    assert Without(t'.kids[up], name) == t.kids[up];
    assert Remove(t', up, name).kids == t.kids;
    assert Remove(t', up, name).items == t.items;
  }

  /** Deletion takes out the one node the path leads to and keeps all others. */
  lemma DeleteOk(t: Tree, path: Option<string>)
    requires TreeOk(t)
    ensures TreeOk(Delete(t, path).1)
    ensures Delete(t, path).0 != Success ==> Delete(t, path).1 == t
    ensures Delete(t, path).0 == Success ==>
              && path.Some? && ParsePath(t, path.value).Node?
              && Delete(t, path).1.items == t.items - {ParsePath(t, path.value).place}
  {
    if Delete(t, path).0 == Success {
      var p := ParsePath(t, path.value).place;
      if !t.items[p].IsDir() {
        NoKidsInFiles(t, p);
      }
      RemoveOk(t, p.up, p.name);
    }
  }

  /** Resolving cs from cur never stands on p. */
  predicate Avoids(t: Tree, cur: Place, cs: seq<string>, p: Place)
    requires TreeOk(t) && cur in t.items
    decreases |cs|
  {
    && cur != p
    && (cs != [] && Step(t, cur, cs[0]).Node? ==>
          assert Hangs(t, cur);
          Avoids(t, Step(t, cur, cs[0]).place, cs[1..], p))
  }

  lemma {:induction false} RemoveResolves(t: Tree, p: Place, cur: Place, cs: seq<string>)
    requires TreeOk(t) && p.Kid? && p.up in t.kids && TreeOk(Remove(t, p.up, p.name))
    requires cur in t.items && Avoids(t, cur, cs, p)
    ensures cur in Remove(t, p.up, p.name).items
    ensures Resolve(Remove(t, p.up, p.name), cur, cs) == Resolve(t, cur, cs)
    decreases |cs|
  {
    hide TreeOk, Remove, Step;
    if cs == [] {
      RemoveStep(t, p, cur, "");
    } else {
      StepStays(t, cur, cs[0]);
      RemoveStep(t, p, cur, cs[0]);
      if Step(t, cur, cs[0]).Node? {
        RemoveResolves(t, p, Step(t, cur, cs[0]).place, cs[1..]);
      }
    }
  }

  lemma StepStays(t: Tree, cur: Place, c: string)
    requires TreeOk(t) && cur in t.items
    ensures Step(t, cur, c).Node? ==> Step(t, cur, c).place in t.items
  {
    assert Hangs(t, cur);
  }

  lemma RemoveStep(t: Tree, p: Place, cur: Place, c: string)
    requires p.Kid? && p.up in t.kids && cur in t.items && cur != p
    ensures cur in Remove(t, p.up, p.name).items
    ensures Step(t, cur, c) != Node(p) ==> Step(Remove(t, p.up, p.name), cur, c) == Step(t, cur, c)
  {
  }

  /** A path that would stand on the deleted node, which has no children, is not found. */
  lemma {:induction false} RemovedNotFound(t: Tree, p: Place, cur: Place, cs: seq<string>)
    requires TreeOk(t) && p in t.items && t.kids[p] == []
    requires p.Kid? && p.up in t.kids && TreeOk(Remove(t, p.up, p.name))
    requires cur in t.items && cur != p && !Avoids(t, cur, cs, p)
    ensures cur in Remove(t, p.up, p.name).items
    ensures Resolve(Remove(t, p.up, p.name), cur, cs) == Error(NotFound)
    decreases |cs|
  {
    hide TreeOk, Remove, Step;
    StepStays(t, cur, cs[0]);
    RemoveStep(t, p, cur, cs[0]);
    if Step(t, cur, cs[0]) == Node(p) {
      StepOnto(t, p, cur, cs[0]);
    } else {
      RemovedNotFound(t, p, Step(t, cur, cs[0]).place, cs[1..]);
    }
  }

  lemma StepOnto(t: Tree, p: Place, cur: Place, c: string)
    requires TreeOk(t) && p in t.items && t.kids[p] == [] && p.Kid? && p.up in t.kids
    requires cur in t.items && cur != p && Step(t, cur, c) == Node(p)
    ensures cur in Remove(t, p.up, p.name).items && Step(Remove(t, p.up, p.name), cur, c) == Error(NotFound)
  {
    NoKids(t, p);
    assert Hangs(t, p) && Hangs(t, cur);
  }

  /** A path that never stands on the deleted node resolves as before, or fails with
      the same error; every other path is not found. */
  lemma DeleteFrame(t: Tree, path: string, other: string)
    requires TreeOk(t) && Delete(t, Some(path)).0 == Success
    ensures TreeOk(Delete(t, Some(path)).1) && ParsePath(t, path).Node?
    ensures Avoids(t, Root, Components(other), ParsePath(t, path).place) ==>
              ParsePath(Delete(t, Some(path)).1, other) == ParsePath(t, other)
    ensures !Avoids(t, Root, Components(other), ParsePath(t, path).place) ==>
              ParsePath(Delete(t, Some(path)).1, other) == Error(NotFound)
  {
    hide Components;
    DeleteOk(t, Some(path));
    var p := ParsePath(t, path).place;
    UpKnown(t, p);
    if !t.items[p].IsDir() {
      NoKidsInFiles(t, p);
    }
    if Avoids(t, Root, Components(other), p) {
      RemoveResolves(t, p, Root, Components(other));
    } else {
      RemovedNotFound(t, p, Root, Components(other));
    }
  }

  lemma NoKidsInFiles(t: Tree, p: Place)
    requires TreeOk(t) && p in t.items && !t.items[p].IsDir()
    ensures t.kids[p] == []
  {
    if t.kids[p] != [] {
      KidHangs(t, p, t.kids[p][0]);
    }
  }

  lemma KidHangs(t: Tree, p: Place, s: string)
    requires TreeOk(t) && p in t.items && s in t.kids[p]
    ensures Kid(p, s) in t.items && t.items[p].IsDir() && GoodName(s)
  {
    assert Lists(t, p);
    assert Hangs(t, Kid(p, s));
  }

  // ---------------------------------------------------------------------
  // Reading and writing
  // ---------------------------------------------------------------------

  /** read_file_content: the status, and what is copied into the buffer. */
  function Read(t: Tree, path: Option<string>, hasBuffer: bool, room: nat): (Status, string)
    requires TreeOk(t)
  {
    if path.None? then (InvalidPath, "")
    else
      match ParsePath(t, path.value)
      case Error(status) => (status, "")
      case Node(p) =>
        var item := t.items[p];
        if item.IsDir() then (IsADir, "")
        else if room < |item.data| then (BufTooSmall, "")
        else if item.data != "" && !hasBuffer then (InvArg, "")
        else (Success, item.data)
  }

  /** write_file_content: overwrites the beginning of a file; a file never grows. */
  function Write(t: Tree, path: Option<string>, buffer: Option<string>, size: nat): (Status, Tree)
    requires TreeOk(t) && (buffer.Some? ==> size <= |buffer.value|)
  {
    if path.None? then (InvalidPath, t)
    else
      match ParsePath(t, path.value)
      case Error(status) => (status, t)
      case Node(p) =>
        var item := t.items[p];
        if item.IsDir() then (IsADir, t)
        else if size > |item.data| then (FileTooSmall, t)
        else if item.data != "" && buffer.None? then (InvArg, t)
        else (Success, if size == 0 then t else SetData(t, p, buffer.value[..size] + item.data[size..]))
  }

  /** What read_file_content answers. Only a call that succeeds copies anything. */
  lemma ReadAnswers(t: Tree, path: string, hasBuffer: bool, room: nat)
    requires TreeOk(t)
    ensures Read(t, None, hasBuffer, room) == (InvalidPath, "")
    ensures var (status, copied) := Read(t, Some(path), hasBuffer, room);
            match ParsePath(t, path)
            case Error(e) => status == e && copied == ""
            case Node(p) =>
              && (t.items[p].flags % 2 == 1 <==> status == IsADir)
              && (status == BufTooSmall <==> t.items[p].flags % 2 == 0 && room < |t.items[p].data|)
              && (status == Success <==>
                    t.items[p].flags % 2 == 0 && |t.items[p].data| <= room && (hasBuffer || t.items[p].data == ""))
              && (status in {IsADir, BufTooSmall, Success, InvArg})
              && copied == if status == Success then t.items[p].data else ""
  {
    hide ParsePath;
  }

  /** What write_file_content answers, and what it leaves. */
  lemma WriteAnswers(t: Tree, path: string, buffer: Option<string>, size: nat)
    requires TreeOk(t) && (buffer.Some? ==> size <= |buffer.value|)
    ensures Write(t, None, buffer, size) == (InvalidPath, t)
    ensures var (status, t') := Write(t, Some(path), buffer, size);
            match ParsePath(t, path)
            case Error(e) => status == e && t' == t
            case Node(p) =>
              && (t.items[p].flags % 2 == 1 <==> status == IsADir)
              && (status == FileTooSmall <==> t.items[p].flags % 2 == 0 && |t.items[p].data| < size)
              && (status == Success <==>
                    t.items[p].flags % 2 == 0 && size <= |t.items[p].data| && (buffer.Some? || t.items[p].data == ""))
              && (status in {IsADir, FileTooSmall, Success, InvArg})
              && t'.kids == t.kids
              && t'.items == if status == Success && size > 0
                             then t.items[p := Item(t.items[p].flags, buffer.value[..size] + t.items[p].data[size..])]
                             else t.items
  {
    hide ParsePath;
  }

  /** What was given to a successful create is what a read with room for it returns. */
  lemma ReadAfterCreate(t: Tree, path: string, data: string, size: nat, flags: nat, room: nat)
    requires TreeOk(t) && size <= |data| && '\0' !in path && flags % 2 == 0 && size <= room
    requires Create(t, Some(path), Some(data), size, flags).0 == Success
    ensures var t' := Create(t, Some(path), Some(data), size, flags).1;
            TreeOk(t') && Read(t', Some(path), true, room) == (Success, data[..size])
  {
    CreateFrame(t, path, Some(data), size, flags, "");
    hide TreeOk, ParsePath, Create;
  }

  function SetData(t: Tree, p: Place, data: string): Tree
    requires p in t.items
  {
    t.(items := t.items[p := t.items[p].(data := data)])
  }

  lemma SetDataOk(t: Tree, p: Place, data: string)
    requires TreeOk(t) && p in t.items
    ensures TreeOk(SetData(t, p, data))
  {
    var t' := SetData(t, p, data);
    forall q | q in t'.items
      ensures Hangs(t', q) && Lists(t', q)
    {
      assert Hangs(t, q) && Lists(t, q);
    }
  }

  lemma {:induction false} SetDataResolves(t: Tree, p: Place, data: string, cur: Place, cs: seq<string>)
    requires TreeOk(t) && p in t.items && TreeOk(SetData(t, p, data)) && cur in t.items
    ensures Resolve(SetData(t, p, data), cur, cs) == Resolve(t, cur, cs)
    decreases |cs|
  {
    if cs != [] && Step(t, cur, cs[0]).Node? {
      assert Hangs(t, cur);
      SetDataResolves(t, p, data, Step(t, cur, cs[0]).place, cs[1..]);
    }
  }

  /** A read sees the last write, behind it the old contents; every path resolves
      as before, and other nodes read as before. */
  lemma ReadAfterWrite(t: Tree, path: string, buffer: string, size: nat, room: nat, other: string)
    requires TreeOk(t) && size <= |buffer| && Write(t, Some(path), Some(buffer), size).0 == Success
    ensures var t' := Write(t, Some(path), Some(buffer), size).1;
            && TreeOk(t') && t'.kids == t.kids
            && ParsePath(t', other) == ParsePath(t, other)
            && Read(t', Some(path), true, room).0 == Read(t, Some(path), true, room).0
            && (Read(t', Some(path), true, room).0 == Success ==>
                  && size <= |Read(t, Some(path), true, room).1|
                  && Read(t', Some(path), true, room).1 == buffer[..size] + Read(t, Some(path), true, room).1[size..])
            && (ParsePath(t, other) != ParsePath(t, path) ==>
                  Read(t', Some(other), true, room) == Read(t, Some(other), true, room))
  {
    var p := ParsePath(t, path).place;
    var data := buffer[..size] + t.items[p].data[size..];
    SetDataOk(t, p, data);
    SetDataResolves(t, p, data, Root, Components(path));
    SetDataResolves(t, p, data, Root, Components(other));
    hide TreeOk, Components;
  }
}
