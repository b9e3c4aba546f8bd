/** The node graph of kernel/fs/fs.c: first-child, next-sibling and parent links,
    and the links each node must have to represent a tree. */
module FsShape {
  import opened Common
  import opened FsTree

  /** struct file; the three blocks are the heap blocks behind it. */
  class File {
    var name: string
    var parent: File?
    var children: File?
    var next: File?
    var data: string
    var size: nat
    var flags: nat
    var block: nat
    var nameBlock: nat
    var dataBlock: nat

    /** kcalloc'ed: no links, no data. */
    constructor (block: nat)
      ensures this.block == block && nameBlock == dataBlock == 0
      ensures Links() == Fields("", null, null, null, 0, "") && size == 0
    {
      name, parent, children, next, data, size, flags := "", null, null, null, "", 0, 0;
      this.block, nameBlock, dataBlock := block, 0, 0;
    }

    ghost function Links(): Fields
      reads `name, `parent, `children, `next, `flags, `data
    {
      Fields(name, parent, children, next, flags, data)
    }

    function Blocks(): set<nat>
      reads `block, `nameBlock, `dataBlock
    {
      {block, nameBlock} + if dataBlock == 0 then {} else {dataBlock}
    }
  }

  datatype Fields = Fields(name: string, parent: File?, children: File?, next: File?, flags: nat, data: string)

  /** Which node is at which place. */
  type Nodes = map<Place, File>

  ghost function NodeAt(at: Nodes, p: Place): File? { if p in at then at[p] else null }

  ghost function Names(t: Tree, p: Place): seq<string> { if p in t.kids then t.kids[p] else [] }

  /** The name after s in a list. */
  ghost function After(names: seq<string>, s: string): Option<string> {
    if names == [] then None
    else if names[0] == s then (if |names| > 1 then Some(names[1]) else None)
    else After(names[1..], s)
  }

  ghost function FirstKid(t: Tree, at: Nodes, p: Place): File? {
    if Names(t, p) == [] then null else NodeAt(at, Kid(p, Names(t, p)[0]))
  }

  ghost function NextKid(t: Tree, at: Nodes, p: Place): File? {
    if p == Root then null
    else match After(Names(t, p.up), p.name)
      case None => null
      case Some(s) => NodeAt(at, Kid(p.up, s))
  }

  /** The fields the node at p must have. */
  ghost function Expected(t: Tree, at: Nodes, p: Place): Fields {
    Fields(if p == Root then "root" else p.name,
           NodeAt(at, if p == Root then Root else p.up),
           FirstKid(t, at, p),
           NextKid(t, at, p),
           if p in t.items then t.items[p].flags else 0,
           if p in t.items then t.items[p].data else "")
  }

  lemma {:induction false} AfterIndex(names: seq<string>, i: nat)
    requires NoRepeats(names) && i < |names|
    ensures After(names, names[i]) == if i + 1 < |names| then Some(names[i + 1]) else None
  {
    if i > 0 {
      AfterIndex(names[1..], i - 1);
    }
  }

  lemma {:induction false} AfterListed(names: seq<string>, s: string)
    ensures After(names, s).Some? ==> After(names, s).value in names
  {
    if names != [] && names[0] != s {
      AfterListed(names[1..], s);
    }
  }

  lemma KidListed(t: Tree, q: Place)
    requires TreeOk(t) && q in t.items && q.Kid?
    ensures q.up in t.items && q.up in t.kids && q.name in t.kids[q.up] && q != q.up
    ensures After(t.kids[q.up], q.name).Some? ==>
              After(t.kids[q.up], q.name).value in t.kids[q.up] &&
              Kid(q.up, After(t.kids[q.up], q.name).value) in t.items
  {
    assert Hangs(t, q) && Lists(t, q.up);
    AfterListed(t.kids[q.up], q.name);
  }

  lemma ListedKid(t: Tree, q: Place, s: string)
    requires TreeOk(t) && q in t.items
    ensures q in t.kids && NoRepeats(t.kids[q]) && (s in t.kids[q] <==> Kid(q, s) in t.items)
  {
    assert Lists(t, q);
  }

  lemma InsertFirst(t: Tree, at: Nodes, up: Place, name: string, item: Item, f: File, q: Place)
    requires TreeOk(t) && at.Keys == t.items.Keys && up in t.items && Kid(up, name) !in t.items && q in at
    ensures FirstKid(Insert(t, up, name, item), at[Kid(up, name) := f], q) == if q == up then f else FirstKid(t, at, q)
  {
    hide TreeOk;
    ListedKid(t, up, name);
    if Names(t, q) != [] {
      ListedKid(t, q, t.kids[q][0]);
    }
  }

  lemma InsertNext(t: Tree, at: Nodes, up: Place, name: string, item: Item, f: File, q: Place)
    requires TreeOk(t) && at.Keys == t.items.Keys && up in t.items && Kid(up, name) !in t.items && q in at
    ensures NextKid(Insert(t, up, name, item), at[Kid(up, name) := f], q) == NextKid(t, at, q)
  {
    hide TreeOk;
    ListedKid(t, up, name);
    if q.Kid? {
      KidListed(t, q);
      if q.up == up {
        assert ([name] + t.kids[up])[1..] == t.kids[up];
      }
    }
  }

  /** A new node in front changes its parent's first child and nothing else. */
  lemma InsertLinks(t: Tree, at: Nodes, up: Place, name: string, item: Item, f: File, q: Place)
    requires TreeOk(t) && at.Keys == t.items.Keys && up in t.items && Kid(up, name) !in t.items
    ensures var t', at' := Insert(t, up, name, item), at[Kid(up, name) := f];
            && (q in at ==> Expected(t', at', q) == if q == up then Expected(t, at, q).(children := f) else Expected(t, at, q))
            && (q == Kid(up, name) ==>
                  Expected(t', at', q) == Fields(name, at[up], null, FirstKid(t, at, up), item.flags, item.data))
  {
    if q in at {
      InsertFirst(t, at, up, name, item, f, q);
      InsertNext(t, at, up, name, item, f, q);
      InsertRest(t, at, up, name, item, f, q);
    } else if q == Kid(up, name) {
      InsertNew(t, at, up, name, item, f);
    }
    hide FirstKid, NextKid, TreeOk, Insert;
  }

  lemma InsertRest(t: Tree, at: Nodes, up: Place, name: string, item: Item, f: File, q: Place)
    requires TreeOk(t) && at.Keys == t.items.Keys && up in t.items && Kid(up, name) !in t.items && q in at
    ensures var t', at' := Insert(t, up, name, item), at[Kid(up, name) := f];
            Expected(t', at', q).(children := null, next := null) == Expected(t, at, q).(children := null, next := null)
  {
    hide TreeOk, FirstKid, NextKid;
    if q.Kid? {
      KidListed(t, q);
    }
  }

  lemma InsertNew(t: Tree, at: Nodes, up: Place, name: string, item: Item, f: File)
    requires TreeOk(t) && at.Keys == t.items.Keys && up in t.items && Kid(up, name) !in t.items
    ensures Expected(Insert(t, up, name, item), at[Kid(up, name) := f], Kid(up, name)) ==
            Fields(name, at[up], null, FirstKid(t, at, up), item.flags, item.data)
  {
    hide TreeOk;
    ListedKid(t, up, name);
    if Names(t, up) != [] {
      ListedKid(t, up, t.kids[up][0]);
      assert ([name] + t.kids[up])[1] == t.kids[up][0];
    }
  }

  lemma {:induction false} AfterWithout(names: seq<string>, name: string, s: string)
    requires NoRepeats(names) && s != name && s in names
    ensures After(Without(names, name), s) ==
            if After(names, s) == Some(name) then After(names, name) else After(names, s)
  {
    if names[0] == name {
      if |names| > 1 {
        NotAfterItself(names[1..], name, s);
      }
    } else {
      var rest := Without(names[1..], name);
      assert ([names[0]] + rest)[1..] == rest;
      if names[0] == s {
        if |names| > 1 && names[1] == name {
          AfterIndex(names, 1);
        }
      } else {
        AfterWithout(names[1..], name, s);
      }
    }
  }

  lemma {:induction false} NotAfterItself(names: seq<string>, name: string, s: string)
    requires name !in names
    ensures After(names, s) != Some(name)
  {
    AfterListed(names, s);
  }

  lemma RemoveFirst(t: Tree, at: Nodes, up: Place, name: string, q: Place)
    requires TreeOk(t) && at.Keys == t.items.Keys && Kid(up, name) in t.items && up in t.items
    requires q in at && q != Kid(up, name)
    ensures up in t.kids && t.kids[up] != []
    ensures FirstKid(Remove(t, up, name), at - {Kid(up, name)}, q) ==
            if q == up && t.kids[up][0] == name then NextKid(t, at, Kid(up, name)) else FirstKid(t, at, q)
  {
    hide TreeOk;
    ListedKid(t, up, name);
    if q == up && t.kids[up][0] == name {
      AfterIndex(t.kids[up], 0);
      if |t.kids[up]| > 1 {
        ListedKid(t, up, t.kids[up][1]);
      }
    } else if Names(t, q) != [] {
      ListedKid(t, q, t.kids[q][0]);
    }
  }

  lemma RemoveNext(t: Tree, at: Nodes, up: Place, name: string, q: Place)
    requires TreeOk(t) && at.Keys == t.items.Keys && Kid(up, name) in t.items && up in t.items
    requires q in at && q.Kid? && q != Kid(up, name) && t.kids[Kid(up, name)] == []
    ensures up in t.kids
    ensures NextKid(Remove(t, up, name), at - {Kid(up, name)}, q) ==
            if q.up == up && After(t.kids[up], q.name) == Some(name) then NextKid(t, at, Kid(up, name))
            else NextKid(t, at, q)
  {
    hide TreeOk;
    ListedKid(t, up, name);
    KidListed(t, q);
    KidListed(t, Kid(up, name));
    NoKids(t, Kid(up, name));
    if q.up == up {
      AfterWithout(t.kids[up], name, q.name);
      if After(t.kids[up], name).Some? {
        NotItself(t.kids[up], name);
      }
    }
  }

  lemma {:induction false} NotItself(names: seq<string>, s: string)
    requires NoRepeats(names) && s in names
    ensures After(names, s) != Some(s)
  {
    if names[0] != s {
      NotItself(names[1..], s);
    }
  }

  /** Taking out a node: the link to it, from its parent or from the sibling before
      it, becomes the link it had; nothing else changes. */
  lemma RemoveLinks(t: Tree, at: Nodes, up: Place, name: string, q: Place)
    requires TreeOk(t) && at.Keys == t.items.Keys && Kid(up, name) in t.items && t.kids[Kid(up, name)] == []
    requires q in at && q != Kid(up, name)
    ensures up in t.kids && t.kids[up] != []
    ensures var p := Kid(up, name);
            var t', at' := Remove(t, up, name), at - {p};
            var e := Expected(t, at, q);
            Expected(t', at', q) ==
              if q == up && t.kids[up][0] == name then e.(children := NextKid(t, at, p))
              else if q.Kid? && q.up == up && After(t.kids[up], q.name) == Some(name) then e.(next := NextKid(t, at, p))
              else e
  {
    UpKnown(t, Kid(up, name));
    RemoveFirst(t, at, up, name, q);
    RemoveRest(t, at, up, name, q);
    if q.Kid? {
      RemoveNext(t, at, up, name, q);
      KidListed(t, q);
    }
    hide FirstKid, NextKid, TreeOk, Remove;
  }

  lemma RemoveRest(t: Tree, at: Nodes, up: Place, name: string, q: Place)
    requires TreeOk(t) && at.Keys == t.items.Keys && Kid(up, name) in t.items && t.kids[Kid(up, name)] == []
    requires q in at && q != Kid(up, name) && up in t.kids
    ensures Expected(Remove(t, up, name), at - {Kid(up, name)}, q).(children := null, next := null) ==
            Expected(t, at, q).(children := null, next := null)
  {
    hide FirstKid, NextKid, TreeOk;
    NoKids(t, Kid(up, name));
    if q.Kid? {
      KidListed(t, q);
    }
  }

  lemma SetDataLinks(t: Tree, at: Nodes, p: Place, data: string, q: Place)
    requires p in t.items
    ensures Expected(SetData(t, p, data), at, q) ==
            if q == p then Expected(t, at, q).(data := data) else Expected(t, at, q)
  {
  }
}
