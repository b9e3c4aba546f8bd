/** What unpacking one archive entry means for the tree (kernel/fs/drivers/initramfs.c),
    as the loader does it and as a plain definition. */
module Unpacking {
  import opened Common
  import opened FsTree

  /** A directory is made, or the name is already taken. */
  predicate Made(status: Status) { status == Success || status == AlrExist }

  /** ensure_parent_directories from position i on: a folder for every prefix that ends before a slash. */
  function Parents(t: Tree, path: string, i: nat): (r: (bool, Tree))
    requires TreeOk(t) && i <= |path| && '\0' !in path
    ensures TreeOk(r.1) && Grows(t, r.1)
    decreases |path| - i
  {
    if i == |path| then (true, t)
    else if path[i] != '/' then Parents(t, path, i + 1)
    else if i == 0 then (false, t)
    else
      CreateOk(t, Some(path[..i]), None, 0, IS_DIRECTORY);
      var (status, t') := Create(t, Some(path[..i]), None, 0, IS_DIRECTORY);
      if Made(status) then Parents(t', path, i + 1) else (false, t')
  }

  /** Parents, then the node itself; true if both went well. */
  function Install(t: Tree, path: string, data: Option<string>, flags: nat): (r: (bool, Tree))
    requires TreeOk(t) && '\0' !in path
    ensures TreeOk(r.1) && Grows(t, r.1)
  {
    var (ok, t1) := Parents(t, path, 0);
    if !ok then (false, t1)
    else
      var size := if data.Some? then |data.value| else 0;
      CreateOk(t1, Some(path), data, size, flags);
      var (status, t2) := Create(t1, Some(path), data, size, flags);
      (Made(status), t2)
  }

  // ---------------------------------------------------------------------
  // The same, defined on places
  // ---------------------------------------------------------------------

  /** The place a relative name speaks of; none for an empty, "." or ".." component. */
  function PlaceOf(s: string): (p: Option<Place>)
    ensures p.Some? ==> p.value.Kid?
    decreases |s|
  {
    var i := LastSlash(s);
    if i < 0 then (if GoodName(s) then Some(Kid(Root, s)) else None)
    else
      var up := PlaceOf(s[..i]);
      if up.Some? && GoodName(s[i + 1..]) then Some(Kid(up.value, s[i + 1..])) else None
  }

  /** A file stands where a directory above p is needed. */
  predicate Obstructed(t: Tree, p: Place) {
    p.Kid? && ((p.up in t.items && !t.items[p.up].IsDir()) || Obstructed(t, p.up))
  }

  /** The tree with a node at p: directories above it as needed, and what exists stays. */
  function Make(t: Tree, p: Place, item: Item): (r: Tree)
    requires t.kids.Keys == t.items.Keys && Root in t.items
    ensures r.kids.Keys == r.items.Keys && Root in r.items && p in r.items
  {
    if p in t.items || p.Root? then t
    else Insert(Make(t, p.up, Item(IS_DIRECTORY, "")), p.up, p.name, item)
  }

  /** Making a node leaves every node that is there, and makes no file but p. */
  lemma {:induction false} MakeOk(t: Tree, p: Place, item: Item)
    requires TreeOk(t) && GoodPlace(p) && !Obstructed(t, p)
    ensures TreeOk(Make(t, p, item)) && Grows(t, Make(t, p, item))
    ensures p !in t.items ==> Make(t, p, item).items[p] == item
    ensures forall q :: q in Make(t, p, item).items && q !in t.items ==>
              q == p || Make(t, p, item).items[q] == Item(IS_DIRECTORY, "")
  {
    if p !in t.items && p.Kid? {
      var dir := Item(IS_DIRECTORY, "");
      var t1 := Make(t, p.up, dir);
      MakeOk(t, p.up, dir);
      if p in t1.items {
        StillMissing(t, p.up, p.name);
      }
      InsertOk(t1, p.up, p.name, item);
    }
  }

  predicate GoodPlace(p: Place) { p.Kid? ==> GoodName(p.name) && GoodPlace(p.up) }

  /** Making a node makes nothing below it. */
  lemma {:induction false} StillMissing(t: Tree, up: Place, name: string)
    requires TreeOk(t) && Kid(up, name) !in t.items
    ensures Kid(up, name) !in Make(t, up, Item(IS_DIRECTORY, "")).items
  {
    hide TreeOk;
    assert t.kids.Keys == t.items.Keys && Root in t.items by { Keys(t); }
    AncestorsOnly(t, up, Item(IS_DIRECTORY, ""), Kid(up, name));
  }

  lemma Keys(t: Tree)
    requires TreeOk(t)
    ensures t.kids.Keys == t.items.Keys && Root in t.items && t.items[Root].IsDir()
  {
  }

  function Depth(p: Place): nat { if p.Root? then 0 else Depth(p.up) + 1 }

  lemma {:induction false} AncestorsOnly(t: Tree, p: Place, item: Item, q: Place)
    requires t.kids.Keys == t.items.Keys && Root in t.items
    requires q !in t.items && Depth(q) > Depth(p)
    ensures q !in Make(t, p, item).items
  {
    if p !in t.items && p.Kid? {
      AncestorsOnly(t, p.up, Item(IS_DIRECTORY, ""), q);
    }
  }

  // ---------------------------------------------------------------------
  // The loader does what the definition says
  // ---------------------------------------------------------------------

  lemma {:induction false} ParentsPrefix(t: Tree, a: string, rest: string, i: nat)
    requires TreeOk(t) && i <= |a| && '\0' !in a && '\0' !in a + rest
    ensures Parents(t, a + rest, i) ==
            var r := Parents(t, a, i); if r.0 then Parents(r.1, a + rest, |a|) else r
    decreases |a| - i
  {
    if i < |a| {
      assert (a + rest)[..i] == a[..i];
      if a[i] != '/' {
        ParentsPrefix(t, a, rest, i + 1);
      } else if i > 0 {
        var (status, t') := Create(t, Some(a[..i]), None, 0, IS_DIRECTORY);
        if Made(status) {
          CreateOk(t, Some(a[..i]), None, 0, IS_DIRECTORY);
          ParentsPrefix(t', a, rest, i + 1);
        }
      }
    }
  }

  lemma {:induction false} NoParents(t: Tree, s: string, i: nat)
    requires TreeOk(t) && i <= |s| && '\0' !in s && forall j :: i <= j < |s| ==> s[j] != '/'
    ensures Parents(t, s, i) == (true, t)
    decreases |s| - i
  {
    if i < |s| {
      NoParents(t, s, i + 1);
    }
  }

  /** The parents of a path are what installing its directory part as a folder makes. */
  lemma ParentsSplit(t: Tree, a: string, b: string)
    requires TreeOk(t) && '\0' !in a && '\0' !in b && '/' !in b
    ensures '\0' !in a + ("/" + b)
    ensures Parents(t, a + ("/" + b), 0) == if a == "" then (false, t) else Install(t, a, None, IS_DIRECTORY)
  {
    var s := a + ("/" + b);
    ParentsPrefix(t, a, "/" + b, 0);
    var r := Parents(t, a, 0);
    if a != "" && r.0 {
      assert s[..|a|] == a && s[|a|] == '/';
      CreateOk(r.1, Some(a), None, 0, IS_DIRECTORY);
      NoParents(Create(r.1, Some(a), None, 0, IS_DIRECTORY).1, s, |a| + 1);
    }
  }

  lemma {:induction false} PlaceNames(s: string)
    requires '\0' !in s
    ensures PlaceOf(s).Some? ==> GoodPlace(PlaceOf(s).value) && Components(s) == Names(PlaceOf(s).value)
    decreases |s|
  {
    var i := LastSlash(s);
    if PlaceOf(s).Some? {
      if i < 0 {
        OneComponent(s);
      } else {
        PlaceNames(s[..i]);
        CutAt(s, i);
        OneComponent(s[i + 1..]);
        ComponentsJoin(s[..i], s[i + 1..]);
      }
    }
  }

  lemma PlaceResolves(t: Tree, s: string)
    requires TreeOk(t) && '\0' !in s && PlaceOf(s).Some? && PlaceOf(s).value in t.items
    ensures ParsePath(t, s) == Node(PlaceOf(s).value)
  {
    hide TreeOk, Components, PlaceOf, Resolve;
    PlaceNames(s);
    NamesResolve(t, PlaceOf(s).value);
  }

  /** create_file below a node that is there. */
  ghost predicate CreatesUnder(t: Tree, s: string, data: Option<string>, flags: nat, up: Place)
    requires TreeOk(t) && up in t.items
  {
    var (status, t') := Create(t, Some(s), data, if data.Some? then |data.value| else 0, flags);
    && up in t.kids
    && (Made(status) <==> GoodName(BaseName(s)) && t.items[up].IsDir())
    && (Made(status) ==>
          t' == if Kid(up, BaseName(s)) in t.items then t
                else Insert(t, up, BaseName(s), Item(flags, if data.Some? then data.value else "")))
  }

  lemma CreateAt(t: Tree, s: string, data: Option<string>, flags: nat, up: Place)
    requires TreeOk(t) && '\0' !in s && s != "" && s[|s| - 1] != '/' && ParsePath(t, ParentPath(s)) == Node(up)
    ensures CreatesUnder(t, s, data, flags, up)
  {
    hide TreeOk, BaseName, ParentPath, ParsePath, Insert, GoodName;
    Keys(t);
    BadNames();
    if BaseName(s) != "." && BaseName(s) != ".." {
      GoodBaseName(s);
    }
    WholeData(data);
  }

  lemma BadNames()
    ensures !GoodName(".") && !GoodName("..")
  {
  }

  lemma WholeData(data: Option<string>)
    ensures data.Some? ==> data.value[..|data.value|] == data.value
  {
  }

  /** Installing a name succeeds exactly if it speaks of a place that no file obstructs,
      and then makes the node at that place. */
  ghost predicate Installs(t: Tree, s: string, data: Option<string>, flags: nat)
    requires TreeOk(t) && '\0' !in s
  {
    && Root in t.items && t.kids.Keys == t.items.Keys
    && (Install(t, s, data, flags).0 <==> PlaceOf(s).Some? && !Obstructed(t, PlaceOf(s).value))
    && (Install(t, s, data, flags).0 ==>
          Install(t, s, data, flags).1 ==
            Make(t, PlaceOf(s).value, Item(flags, if data.Some? then data.value else "")))
  }

  lemma {:induction false} InstallMeaning(t: Tree, s: string, data: Option<string>, flags: nat)
    requires TreeOk(t) && '\0' !in s
    ensures Installs(t, s, data, flags)
    decreases |s|
  {
    hide TreeOk, Installs, Install, Parents, PlaceOf;
    var i := LastSlash(s);
    if s == "" || s[|s| - 1] == '/' {
      InstallNowhere(t, s, data, flags);
    } else if i < 0 {
      InstallHere(t, s, data, flags);
    } else {
      CutParents(t, s, i);
      if i == 0 {
        InstallNowhere(t, s, data, flags);
      } else {
        InstallMeaning(t, s[..i], None, IS_DIRECTORY);
        InstallBelow(t, s, i, data, flags);
      }
    }
  }

  lemma CutParents(t: Tree, s: string, i: nat)
    requires TreeOk(t) && '\0' !in s && LastSlash(s) == i
    ensures '\0' !in s[..i]
    ensures Parents(t, s, 0) == if i == 0 then (false, t) else Install(t, s[..i], None, IS_DIRECTORY)
  {
    hide TreeOk, Install, Parents;
    CutAt(s, i);
    NoSlashFrom(s, i + 1);
    assert s == s[..i] + ("/" + s[i + 1..]);
    ParentsSplit(t, s[..i], s[i + 1..]);
  }

  lemma InstallNowhere(t: Tree, s: string, data: Option<string>, flags: nat)
    requires TreeOk(t) && '\0' !in s
    requires s == "" || s[|s| - 1] == '/' || (LastSlash(s) == 0 && Parents(t, s, 0) == (false, t))
    ensures Installs(t, s, data, flags)
  {
    hide TreeOk, Parents, Create, PlaceOf, Make, Obstructed, Grows;
    Keys(t);
    PlaceNowhere(s);
    if s == "" || s[|s| - 1] == '/' {
      CreateNowhere(Parents(t, s, 0).1, s, data, flags);
    }
  }

  lemma PlaceNowhere(s: string)
    requires s == "" || s[|s| - 1] == '/' || LastSlash(s) == 0
    ensures PlaceOf(s) == None
  {
    if s != "" && s[|s| - 1] == '/' {
      assert s[|s|..] == "";
    } else if s != "" {
      assert s[..0] == "";
    }
  }

  lemma CreateNowhere(t: Tree, s: string, data: Option<string>, flags: nat)
    requires TreeOk(t) && '\0' !in s && (s == "" || s[|s| - 1] == '/')
    ensures !Made(Create(t, Some(s), data, if data.Some? then |data.value| else 0, flags).0)
  {
    hide TreeOk, ParsePath, CreateNamed;
  }

  lemma InstallHere(t: Tree, s: string, data: Option<string>, flags: nat)
    requires TreeOk(t) && '\0' !in s && s != "" && s[|s| - 1] != '/' && LastSlash(s) < 0
    ensures Installs(t, s, data, flags)
  {
    hide Insert, ParsePath, TreeOk, Parents, Create, GoodName;
    Keys(t);
    NoParents(t, s, 0);
    DotIsRoot(t);
    assert BaseName(s) == s;
    CreateAt(t, s, data, flags, Root);
    MakeBelowRoot(t, s, Item(flags, if data.Some? then data.value else ""));
  }

  lemma MakeBelowRoot(t: Tree, name: string, item: Item)
    requires TreeOk(t)
    ensures t.kids.Keys == t.items.Keys && Root in t.items && !Obstructed(t, Kid(Root, name))
    ensures Make(t, Kid(Root, name), item) ==
            if Kid(Root, name) in t.items then t else Insert(t, Root, name, item)
  {
    hide TreeOk, Insert;
    Keys(t);
    assert Make(t, Root, Item(IS_DIRECTORY, "")) == t;
    assert !Obstructed(t, Root);
  }

  lemma InstallBelow(t: Tree, s: string, i: nat, data: Option<string>, flags: nat)
    requires TreeOk(t) && '\0' !in s && s != "" && s[|s| - 1] != '/' && LastSlash(s) == i > 0
    requires '\0' !in s[..i] && Parents(t, s, 0) == Install(t, s[..i], None, IS_DIRECTORY)
    requires Installs(t, s[..i], None, IS_DIRECTORY)
    ensures Installs(t, s, data, flags)
  {
    hide Insert, ParsePath, TreeOk, Parents, Grows, GoodPlace, Create, LastSlash, GoodName;
    if Parents(t, s, 0).0 {
      var t1 := Parents(t, s, 0).1;
      var up := PlaceOf(s[..i]).value;
      PlaceNames(s[..i]);
      PlaceResolves(t1, s[..i]);
      CreateAt(t1, s, data, flags, up);
      BaseNameFacts(s);
      MadeBelow(t, up, BaseName(s));
    }
  }

  /** Directories made down to a place: a directory is there unless a file was, and
      below it is what was there. */
  lemma MadeBelow(t: Tree, up: Place, name: string)
    requires TreeOk(t) && GoodPlace(up) && !Obstructed(t, up)
    ensures t.kids.Keys == t.items.Keys && Root in t.items
    ensures var t1 := Make(t, up, Item(IS_DIRECTORY, ""));
            && up in t1.items
            && (t1.items[up].IsDir() <==> !Obstructed(t, Kid(up, name)))
            && (Kid(up, name) in t1.items <==> Kid(up, name) in t.items)
            && (Kid(up, name) in t.items ==> t1 == t)
  {
    Keys(t);
    MakeOk(t, up, Item(IS_DIRECTORY, ""));
    if Kid(up, name) in t.items {
      UpKnown(t, Kid(up, name));
    } else {
      StillMissing(t, up, name);
    }
  }

  // ---------------------------------------------------------------------
  // Entries
  // ---------------------------------------------------------------------

  /** An archive entry as the loader sees it: leading "./" are gone from the name. */
  datatype Entry = Entry(mode: nat, name: string, data: string)

  /** mode & 0170000, in units of the lowest of these four bits. */
  function FileType(mode: nat): nat { mode / 0x1000 % 16 }

  const DIRECTORY := 4
  const REGULAR := 8
  const SYMLINK := 10

  function StripDots(s: string): (r: string)
    ensures '\0' !in s ==> '\0' !in r
  {
    if |s| >= 2 && s[0] == '.' && s[1] == '/' then StripDots(s[2..]) else s
  }

  function TrimAll(s: string): (r: string)
    ensures '\0' !in s ==> '\0' !in r
  {
    if s != "" && s[|s| - 1] == '/' then TrimAll(s[..|s| - 1]) else s
  }

  function TrimOne(s: string): (r: string)
    ensures '\0' !in s ==> '\0' !in r
  {
    if s != "" && s[|s| - 1] == '/' then s[..|s| - 1] else s
  }

  /** What the loader does with one entry: 0, or the code it returns. */
  function InstallEntry(t: Tree, e: Entry): (r: (int, Tree))
    requires TreeOk(t) && '\0' !in e.name
    ensures TreeOk(r.1) && Grows(t, r.1)
  {
    if e.name == "" || e.name == "." then (0, t)
    else if FileType(e.mode) == DIRECTORY then
      var name := TrimAll(e.name);
      if name == "" then (-3, t)
      else
        var (ok, t') := Install(t, name, None, IS_DIRECTORY);
        (if ok then 0 else -6, t')
    else if FileType(e.mode) in {0, REGULAR, SYMLINK} then
      var name := TrimOne(e.name);
      if name == "" then (-3, t)
      else if !Parents(t, name, 0).0 then (-3, Parents(t, name, 0).1)
      else
        var (ok, t') := Install(t, name, Some(e.data), 0);
        (if ok then 0 else -6, t')
    else (0, t)
  }

  predicate NoNuls(es: seq<Entry>) { es != [] ==> '\0' !in es[0].name && NoNuls(es[1..]) }

  /** All entries in turn, up to the first that fails. */
  function Unpack(t: Tree, es: seq<Entry>): (r: (int, Tree))
    requires TreeOk(t) && NoNuls(es)
    ensures TreeOk(r.1)
    decreases |es|
  {
    if es == [] then (0, t)
    else
      var (code, t') := InstallEntry(t, es[0]);
      if code != 0 then (code, t') else Unpack(t', es[1..])
  }

  datatype Target = Nothing | Nowhere | At(place: Place, item: Item)

  /** Which node an entry asks for. */
  function TargetOf(e: Entry): Target {
    if e.name == "" || e.name == "." then Nothing
    else if FileType(e.mode) == DIRECTORY then
      match PlaceOf(TrimAll(e.name))
      case None => Nowhere
      case Some(p) => At(p, Item(IS_DIRECTORY, ""))
    else if FileType(e.mode) in {0, REGULAR, SYMLINK} then
      match PlaceOf(TrimOne(e.name))
      case None => Nowhere
      case Some(p) => At(p, Item(0, e.data))
    else Nothing
  }

  /** The tree with a node for every entry; none if an entry has no place or a file is in its way. */
  function Extract(t: Tree, es: seq<Entry>): (r: Option<Tree>)
    requires t.kids.Keys == t.items.Keys && Root in t.items
    ensures r.Some? ==> r.value.kids.Keys == r.value.items.Keys && Root in r.value.items
    decreases |es|
  {
    if es == [] then Some(t)
    else match TargetOf(es[0])
      case Nothing => Extract(t, es[1..])
      case Nowhere => None
      case At(p, item) => if Obstructed(t, p) then None else Extract(Make(t, p, item), es[1..])
  }

  lemma EntryMeaning(t: Tree, e: Entry)
    requires TreeOk(t) && '\0' !in e.name
    ensures t.kids.Keys == t.items.Keys && Root in t.items
    ensures InstallEntry(t, e).0 == 0 <==>
            TargetOf(e).Nothing? || (TargetOf(e).At? && !Obstructed(t, TargetOf(e).place))
    ensures InstallEntry(t, e).0 == 0 ==>
            InstallEntry(t, e).1 == if TargetOf(e).At? then Make(t, TargetOf(e).place, TargetOf(e).item) else t
  {
    hide TreeOk, Parents, PlaceOf, Obstructed, Make, Grows, TrimAll, TrimOne;
    Keys(t);
    EmptyNowhere();
    if FileType(e.mode) == DIRECTORY {
      InstallMeaning(t, TrimAll(e.name), None, IS_DIRECTORY);
    } else {
      InstallMeaning(t, TrimOne(e.name), Some(e.data), 0);
    }
  }

  lemma EmptyNowhere()
    ensures PlaceOf("") == None
  {
  }

  /** Unpacking succeeds exactly if every entry can have its node, and then makes those nodes. */
  lemma {:induction false} UnpackMeaning(t: Tree, es: seq<Entry>)
    requires TreeOk(t) && NoNuls(es)
    ensures t.kids.Keys == t.items.Keys && Root in t.items
    ensures Unpack(t, es).0 == 0 <==> Extract(t, es).Some?
    ensures Extract(t, es).Some? ==> Unpack(t, es).1 == Extract(t, es).value
    decreases |es|
  {
    hide TreeOk, InstallEntry, TargetOf, Make, Obstructed, Grows;
    Keys(t);
    if es != [] {
      EntryMeaning(t, es[0]);
      if InstallEntry(t, es[0]).0 == 0 {
        UnpackMeaning(InstallEntry(t, es[0]).1, es[1..]);
      }
    }
  }

  lemma TargetGood(e: Entry)
    requires '\0' !in e.name && TargetOf(e).At?
    ensures GoodPlace(TargetOf(e).place) && TargetOf(e).place.Kid?
  {
    hide TrimAll, TrimOne, GoodPlace, Components;
    if FileType(e.mode) == DIRECTORY {
      PlaceNames(TrimAll(e.name));
    } else {
      PlaceNames(TrimOne(e.name));
    }
  }

  lemma {:induction false} ExtractGrows(t: Tree, es: seq<Entry>)
    requires TreeOk(t) && NoNuls(es)
    ensures t.kids.Keys == t.items.Keys && Root in t.items
    ensures Extract(t, es).Some? ==> TreeOk(Extract(t, es).value) && Grows(t, Extract(t, es).value)
    decreases |es|
  {
    hide TreeOk, Make, Obstructed, TargetOf, GoodPlace;
    Keys(t);
    if es != [] {
      match TargetOf(es[0])
      case Nothing => ExtractGrows(t, es[1..]);
      case Nowhere =>
      case At(p, item) =>
        if !Obstructed(t, p) {
          TargetGood(es[0]);
          MakeOk(t, p, item);
          ExtractGrows(Make(t, p, item), es[1..]);
        }
    }
  }

  /** Every entry has its node in the end; a node that an earlier entry made, or that
      was there before, keeps its contents. */
  lemma {:induction false} FirstWriterWins(t: Tree, es: seq<Entry>, i: nat)
    requires TreeOk(t) && NoNuls(es) && i < |es| && TargetOf(es[i]).At?
    requires t.kids.Keys == t.items.Keys && Root in t.items && Extract(t, es).Some?
    ensures Extract(t, es[..i]).Some?
    ensures var before, final := Extract(t, es[..i]).value, Extract(t, es).value;
            var At(p, item) := TargetOf(es[i]);
            && TreeOk(final) && ParsePath(final, PathOf(p)) == Node(p)
            && final.items[p] == if p in before.items then before.items[p] else item
    decreases i
  {
    hide TreeOk, Make, Obstructed, TargetOf, GoodPlace, ParsePath;
    var At(p, item) := TargetOf(es[i]);
    ExtractGrows(t, es);
    PathResolvesIf(Extract(t, es).value, p);
    if i == 0 {
      TargetGood(es[0]);
      MakeOk(t, p, item);
      ExtractGrows(Make(t, p, item), es[1..]);
    } else {
      assert es[..i][1..] == es[1..][..i - 1] && es[..i][0] == es[0];
      var t' := match TargetOf(es[0]) case Nothing => t case Nowhere => t case At(q, x) => Make(t, q, x);
      if TargetOf(es[0]).At? {
        TargetGood(es[0]);
        MakeOk(t, TargetOf(es[0]).place, TargetOf(es[0]).item);
        Keys(t');
      }
      FirstWriterWins(t', es[1..], i - 1);
    }
  }

  /** An entry that asks for nothing leaves the tree of the entries before it. */
  lemma {:induction false} NothingAdded(t: Tree, es: seq<Entry>, i: nat)
    requires TreeOk(t) && NoNuls(es) && i < |es| && TargetOf(es[i]).Nothing?
    requires t.kids.Keys == t.items.Keys && Root in t.items && Extract(t, es).Some?
    ensures Extract(t, es[..i]).Some? && Extract(t, es[..i + 1]) == Extract(t, es[..i])
    decreases i
  {
    hide TreeOk, Make, Obstructed, TargetOf, GoodPlace;
    if i == 0 {
      assert es[..1] == [es[0]] && es[..1][1..] == [];
    } else {
      assert es[..i][1..] == es[1..][..i - 1] && es[..i][0] == es[0];
      assert es[..i + 1][1..] == es[1..][..i] && es[..i + 1][0] == es[0];
      var t' := match TargetOf(es[0]) case Nothing => t case Nowhere => t case At(q, x) => Make(t, q, x);
      if TargetOf(es[0]).At? {
        TargetGood(es[0]);
        MakeOk(t, TargetOf(es[0]).place, TargetOf(es[0]).item);
        Keys(t');
      }
      NothingAdded(t', es[1..], i - 1);
    }
  }

  lemma PathResolvesIf(t: Tree, p: Place)
    requires TreeOk(t)
    ensures p in t.items ==> ParsePath(t, PathOf(p)) == Node(p)
  {
    if p in t.items {
      PathResolves(t, p);
    }
  }

  // ---------------------------------------------------------------------
  // Entries whose name is the path of a node, their modes in plain numbers
  // ---------------------------------------------------------------------

  lemma PathStarts(p: Place, w: string)
    ensures p.Kid? ==> PathOf(p) != "" && PathOf(p)[0] == '/' && PathOf(p) == "/" + PathOf(p)[1..]
    ensures ("/" + w)[1..] == w
  {
  }

  /** The relative path of a place is the place's own name behind the path of the node above. */
  lemma PathParts(w: string, p: Place)
    requires p.Kid? && "/" + w == PathOf(p)
    ensures p.up.Root? ==> w == p.name
    ensures p.up.Kid? ==> var up := PathOf(p.up)[1..]; "/" + up == PathOf(p.up) && w == up + "/" + p.name
  {
    PathStarts(p.up, w);
    if p.up.Kid? {
      var up := PathOf(p.up)[1..];
      assert ("/" + up + "/" + p.name)[1..] == up + "/" + p.name;
    } else {
      assert ("/" + p.name)[1..] == p.name;
    }
  }

  /** The relative path of a place speaks of that place, and no trimming changes it. */
  lemma {:induction false} PlaceOfPath(w: string, p: Place)
    requires p.Kid? && GoodPlace(p) && "/" + w == PathOf(p)
    ensures PlaceOf(w) == Some(p) && '\0' !in w && w != "" && w[0] != '/' && w[|w| - 1] != '/'
    ensures w != "." && !(|w| >= 2 && w[0] == '.' && w[1] == '/')
    decreases p
  {
    hide PathOf, LastSlash;
    PathParts(w, p);
    if p.up.Root? {
      SplitAt("", w);
      assert w[|w| - 1] in w && w[0] in w && (|w| >= 2 ==> w[1] in w);
    } else {
      var front := PathOf(p.up)[1..];
      PlaceOfPath(front, p.up);
      PlaceBelow(front, p.name, p.up);
      StillRelative(front, p.name);
    }
  }

  lemma PlaceBelow(front: string, name: string, up: Place)
    requires PlaceOf(front) == Some(up) && GoodName(name)
    ensures PlaceOf(front + "/" + name) == Some(Kid(up, name))
  {
    var w := front + "/" + name;
    SplitAt(front, name);
    assert w[..|front|] == front && w[|front| + 1..] == name;
    hide GoodName, LastSlash;
  }

  lemma StillRelative(front: string, name: string)
    requires GoodName(name) && '\0' !in front && front != "" && front[0] != '/'
    requires front != "." && !(|front| >= 2 && front[0] == '.' && front[1] == '/')
    ensures var w := front + "/" + name;
            && '\0' !in w && w != "" && w[0] != '/' && w[|w| - 1] != '/'
            && w != "." && !(|w| >= 2 && w[0] == '.' && w[1] == '/')
  {
    assert name[|name| - 1] in name;
    assert |front| == 1 ==> front == [front[0]];
  }

  /** What an entry named by the path of p asks for: a directory if its mode has 4 in bits 12
      to 15, a file with its data if it has 8, 10 or 0 there, and nothing otherwise. */
  lemma TargetByMode(e: Entry, p: Place)
    requires p.Kid? && GoodPlace(p) && "/" + e.name == PathOf(p)
    ensures TargetOf(e) == match e.mode / 0x1000 % 16
                           case 4 => At(p, Item(1, ""))
                           case 8 => At(p, Item(0, e.data))
                           case 10 => At(p, Item(0, e.data))
                           case 0 => At(p, Item(0, e.data))
                           case _ => Nothing
    ensures StripDots(e.name) == e.name && TrimAll(e.name) == TrimOne(e.name) == e.name
  {
    PlaceOfPath(e.name, p);
    hide PlaceOf, PathOf;
  }

  /** Leading "./" and slashes at the end of a directory's name never count, nor does one
      slash at the end of a file's. */
  lemma NamesTrimmed(s: string)
    ensures StripDots("./" + s) == StripDots(s)
    ensures !(|s| >= 2 && s[0] == '.' && s[1] == '/') ==> StripDots(s) == s
    ensures TrimAll(s + "/") == TrimAll(s) && TrimOne(s + "/") == s
    ensures s == "" || s[|s| - 1] != '/' ==> TrimAll(s) == TrimOne(s) == s
  {
    hide *;
    DotsStripped(s);
    SlashesTrimmed(s);
    SlashTrimmed(s);
  }

  lemma SlashTrimmed(s: string)
    ensures TrimOne(s + "/") == s
    ensures s == "" || s[|s| - 1] != '/' ==> TrimOne(s) == s
  {
    var longer := s + "/";
    assert longer[..|longer| - 1] == s && longer[|longer| - 1] == '/';
  }

  lemma DotsStripped(s: string)
    ensures StripDots("./" + s) == StripDots(s)
    ensures !(|s| >= 2 && s[0] == '.' && s[1] == '/') ==> StripDots(s) == s
  {
    var longer := "./" + s;
    assert longer[2..] == s && longer[0] == '.' && longer[1] == '/';
  }

  lemma SlashesTrimmed(s: string)
    ensures TrimAll(s + "/") == TrimAll(s)
    ensures s == "" || s[|s| - 1] != '/' ==> TrimAll(s) == s
  {
    var longer := s + "/";
    assert longer[..|longer| - 1] == s && longer[|longer| - 1] == '/';
  }

  /** The code for an entry named by the path of p: 0 unless a file stands where a directory
      above p is needed; then -6, or -3 for a file with the obstacle further up than next to it. */
  lemma CodeByMode(t: Tree, e: Entry, p: Place)
    requires TreeOk(t) && p.Kid? && GoodPlace(p) && "/" + e.name == PathOf(p)
    ensures '\0' !in e.name
    ensures var mode := e.mode / 0x1000 % 16;
            InstallEntry(t, e).0 == if !Obstructed(t, p) || mode !in {0, 4, 8, 10} then 0
                                    else if mode == 4 || !Obstructed(t, p.up) then -6
                                    else -3
  {
    hide TreeOk, PathOf, PlaceOf, Obstructed, Parents, GoodPlace, Make, StripDots, TrimAll, TrimOne, Grows;
    PlaceOfPath(e.name, p);
    TargetByMode(e, p);
    EntryMeaning(t, e);
    InstallMeaning(t, e.name, Some(e.data), 0);
    InstallMeaning(t, e.name, None, IS_DIRECTORY);
    ParentsObstructed(t, e.name, p);
  }

  /** What an entry of this mode and data named by the path of p does: a mode with 4 in bits 12
      to 15 makes a directory at p, 8, 10 or 0 a file with the data, unless a node is there or a
      file in the way; any other mode does nothing. */
  ghost predicate MadeByMode(t: Tree, code: int, t': Tree, mode: nat, data: string, p: Place) {
    var kind := mode / 0x1000 % 16;
    if kind !in {0, 4, 8, 10} then code == 0 && t' == t
    else
      && (code == 0 <==> !Obstructed(t, p))
      && (code == 0 ==>
            && p in t'.items
            && t'.items[p] == if p in t.items then t.items[p] else if kind == 4 then Item(1, "") else Item(0, data))
  }

  lemma EntryByMode(t: Tree, e: Entry, p: Place)
    requires TreeOk(t) && p.Kid? && GoodPlace(p) && "/" + e.name == PathOf(p)
    ensures '\0' !in e.name
    ensures MadeByMode(t, InstallEntry(t, e).0, InstallEntry(t, e).1, e.mode, e.data, p)
  {
    hide TreeOk, PathOf, PlaceOf, Obstructed, GoodPlace, Make, StripDots, TrimAll, TrimOne, Grows, InstallEntry;
    PlaceOfPath(e.name, p);
    TargetByMode(e, p);
    EntryMeaning(t, e);
    if TargetOf(e).At? && !Obstructed(t, p) {
      MakeOk(t, p, TargetOf(e).item);
      KeptNode(t, Make(t, p, TargetOf(e).item), p);
    }
  }

  lemma KeptNode(t: Tree, t': Tree, p: Place)
    requires Grows(t, t')
    ensures p in t.items ==> p in t'.items && t'.items[p] == t.items[p]
  {
  }

  lemma ParentsObstructed(t: Tree, w: string, p: Place)
    requires TreeOk(t) && p.Kid? && GoodPlace(p) && "/" + w == PathOf(p)
    ensures '\0' !in w && (Parents(t, w, 0).0 <==> !Obstructed(t, p.up))
  {
    hide TreeOk, PathOf, PlaceOf, Parents, Make, Grows;
    PlaceOfPath(w, p);
    PathParts(w, p);
    if p.up.Root? {
      NoParents(t, w, 0);
    } else {
      var front := PathOf(p.up)[1..];
      PlaceOfPath(front, p.up);
      assert front + "/" + p.name == front + ("/" + p.name);
      ParentsSplit(t, front, p.name);
      InstallMeaning(t, front, None, IS_DIRECTORY);
    }
  }

  predicate Below(q: Place, p: Place) { q.Kid? && (q.up == p || Below(q.up, p)) }

  /** No file that is there, and no file an entry asks for, is above another entry's node. */
  ghost predicate NoConflicts(t: Tree, es: seq<Entry>) {
    && (forall i, p :: 0 <= i < |es| && TargetOf(es[i]).At? && p in t.items && !t.items[p].IsDir() ==>
          !Below(TargetOf(es[i]).place, p))
    && (forall i, j :: 0 <= i < |es| && TargetOf(es[i]).At? && 0 <= j < |es| && TargetOf(es[j]).At? &&
                       !TargetOf(es[j]).item.IsDir() ==>
          !Below(TargetOf(es[i]).place, TargetOf(es[j]).place))
  }

  lemma {:induction false} ObstructedBelow(t: Tree, p: Place)
    requires Obstructed(t, p)
    ensures exists q :: q in t.items && !t.items[q].IsDir() && Below(p, q)
  {
    if !(p.up in t.items && !t.items[p.up].IsDir()) {
      ObstructedBelow(t, p.up);
    }
  }

  /** An archive whose names are places, none below a file, unpacks. */
  lemma {:induction false} NoConflictsExtracts(t: Tree, es: seq<Entry>)
    requires TreeOk(t) && NoNuls(es) && NoConflicts(t, es)
    requires forall i :: 0 <= i < |es| ==> !TargetOf(es[i]).Nowhere?
    ensures t.kids.Keys == t.items.Keys && Root in t.items && Extract(t, es).Some?
    decreases |es|
  {
    hide TreeOk, Make, Obstructed, TargetOf, GoodPlace, Below, Grows, NoConflicts;
    Keys(t);
    if es != [] {
      NextConflicts(t, es);
      match TargetOf(es[0])
      case Nothing => NoConflictsExtracts(t, es[1..]);
      case At(p, item) =>
        TargetGood(es[0]);
        MakeOk(t, p, item);
        NoConflictsExtracts(Make(t, p, item), es[1..]);
    }
  }

  lemma NextConflicts(t: Tree, es: seq<Entry>)
    requires TreeOk(t) && NoNuls(es) && NoConflicts(t, es) && es != []
    ensures t.kids.Keys == t.items.Keys && Root in t.items
    ensures TargetOf(es[0]).Nothing? ==> NoConflicts(t, es[1..])
    ensures TargetOf(es[0]).At? ==>
              && !Obstructed(t, TargetOf(es[0]).place)
              && NoConflicts(Make(t, TargetOf(es[0]).place, TargetOf(es[0]).item), es[1..])
  {
    hide TreeOk, Make, Obstructed, TargetOf, GoodPlace, Below;
    Keys(t);
    assert forall i :: 0 <= i < |es[1..]| ==> es[1..][i] == es[i + 1];
    if TargetOf(es[0]).At? {
      var At(p, item) := TargetOf(es[0]);
      if Obstructed(t, p) {
        ObstructedBelow(t, p);
        assert false;
      }
      TargetGood(es[0]);
      MakeOk(t, p, item);
    }
  }
}
