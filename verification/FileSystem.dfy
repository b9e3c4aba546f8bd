/** The operations of kernel/fs/fs.c on the node graph. */
module FileSystem {
  import opened Common
  import opened FsTree
  import opened FsShape

  /** The heap as the file system uses it: every request may fail, and a block
      handed out is not one that is live. */
  class Allocator {
    var live: set<nat>
    var nextBlock: nat
    /** How many requests have failed. */
    var failures: nat

    predicate Valid()
      reads this
    {
      0 < nextBlock && forall b :: b in live ==> 0 < b < nextBlock
    }

    constructor ()
      ensures Valid() && live == {}
    {
      live, nextBlock, failures := {}, 1, 0;
    }

    method Kmalloc(size: nat) returns (block: nat)
      requires Valid() && size > 0
      modifies this
      ensures Valid()
      ensures block == 0 ==> live == old(live) && failures == old(failures) + 1
      ensures block != 0 ==> block !in old(live) && live == old(live) + {block} && failures == old(failures)
    {
      var enough: bool := *;
      if enough {
        block := nextBlock;
        live, nextBlock := live + {block}, nextBlock + 1;
      } else {
        block, failures := 0, failures + 1;
      }
    }

    method Kfree(block: nat)
      requires Valid()
      modifies `live
      ensures Valid() && live == old(live) - {block}
    {
      live := live - {block};
    }
  }

  /** Which heap blocks a place's node owns, and which place owns a block. */
  type Blocks = map<Place, set<nat>>
  type Owner = map<nat, Place>

  ghost predicate Owns(blocks: Blocks, owner: Owner) {
    && (forall p :: p in blocks ==> forall b :: b in blocks[p] ==> b in owner && owner[b] == p)
    && (forall b :: b in owner ==> owner[b] in blocks && b in blocks[owner[b]])
  }

  ghost function OwnMore(owner: Owner, p: Place, bs: set<nat>): Owner { owner + map b | b in bs :: p }

  lemma OwnsMore(blocks: Blocks, owner: Owner, p: Place, bs: set<nat>)
    requires Owns(blocks, owner) && p !in blocks && bs !! owner.Keys
    ensures Owns(blocks[p := bs], OwnMore(owner, p, bs)) && OwnMore(owner, p, bs).Keys == owner.Keys + bs
  {
  }

  lemma OwnsLess(blocks: Blocks, owner: Owner, p: Place)
    requires Owns(blocks, owner) && p in blocks
    ensures Owns(blocks - {p}, owner - blocks[p]) && blocks[p] <= owner.Keys
  {
  }

  ghost predicate Injective(at: Nodes) {
    forall p, q :: p in at && q in at && at[p] == at[q] ==> p == q
  }

  /** Each node has the links and contents its place asks for. */
  ghost predicate Placed(t: Tree, at: Nodes)
    reads at.Values
  {
    forall p :: p in at ==> at[p].Links() == Expected(t, at, p) && at[p].size == |at[p].data|
  }

  /** Each node but the root has its struct, its name and, unless empty, its data in blocks. */
  ghost predicate Backed(at: Nodes, blocks: Blocks)
    reads at.Values`block, at.Values`nameBlock, at.Values`dataBlock, at.Values`size
  {
    && blocks.Keys == at.Keys - {Root}
    && (forall p :: p in blocks ==> at[p].Blocks() == blocks[p] && 0 !in blocks[p])
    && (forall p :: p in at && at[p].size != 0 ==> at[p].dataBlock != 0)
  }

  lemma InjectiveMore(at: Nodes, p: Place, f: File)
    requires Injective(at) && p !in at && f !in at.Values
    ensures Injective(at[p := f])
  {
  }

  lemma BlockKeys(at: Nodes, blocks: Blocks)
    requires Backed(at, blocks)
    ensures blocks.Keys == at.Keys - {Root}
  {
  }

  lemma BackedMore(at: Nodes, blocks: Blocks, p: Place, f: File)
    requires Backed(at, blocks) && p !in at && p != Root
    requires 0 !in f.Blocks() && (f.size != 0 ==> f.dataBlock != 0)
    ensures Backed(at[p := f], blocks[p := f.Blocks()])
  {
  }

  /** memcpy to the front of a buffer. */
  method Copy(buffer: array<char>, data: string)
    requires |data| <= buffer.Length
    modifies buffer
    ensures buffer[..] == data + old(buffer[..])[|data|..]
  {
    ghost var was := buffer[..];
    forall i | 0 <= i < |data| {
      buffer[i] := data[i];
    }
    assert buffer[..] == data + was[|data|..];
  }

  lemma BackedAt(at: Nodes, blocks: Blocks, p: Place)
    requires Backed(at, blocks) && p in at && p != Root
    ensures p in blocks && 0 !in blocks[p]
    ensures blocks[p] == {at[p].block, at[p].nameBlock} + if at[p].dataBlock == 0 then {} else {at[p].dataBlock}
  {
  }

  lemma BackedLess(at: Nodes, blocks: Blocks, p: Place)
    requires Backed(at, blocks) && p in at && p != Root
    ensures p in blocks && 0 !in blocks[p] && Backed(at - {p}, blocks - {p})
  {
  }

  lemma InjectiveLess(at: Nodes, p: Place)
    requires Injective(at)
    ensures Injective(at - {p})
  {
  }

  lemma RemoveKeys(t: Tree, p: Place)
    requires p.Kid? && p.up in t.kids
    ensures Remove(t, p.up, p.name).items.Keys == t.items.Keys - {p}
  {
  }

  lemma AddedAndTaken(live: set<nat>, bs: set<nat>)
    requires bs !! live
    ensures live + bs - bs == live
  {
  }

  lemma BackAgain<T>(before: map<Place, T>, place: Place, x: T, deleted: Place, after: map<Place, T>)
    requires place !in before && after == before[place := x] - {deleted} && after.Keys == before.Keys
    ensures deleted == place && after == before
  {
    assert place !in after;
  }

  datatype FileCall =
    | CreateCall(path: Option<string>, data: Option<string>, size: nat, flags: nat)
    | DeleteCall(path: Option<string>)
  {
    predicate Ok() {
      CreateCall? ==>
        && (path.Some? ==> '\0' !in path.value)
        && (if data.Some? then size <= |data.value| else flags % 2 == 1 ==> size == 0)
    }
  }

  /** One call in which no allocation fails. */
  function Apply(t: Tree, call: FileCall): (r: Tree)
    requires TreeOk(t) && call.Ok()
    ensures TreeOk(r)
  {
    match call
    case CreateCall(path, data, size, flags) =>
      CreateOk(t, path, data, size, flags);
      Create(t, path, data, size, flags).1
    case DeleteCall(path) =>
      DeleteOk(t, path);
      Delete(t, path).1
  }

  function ApplyAll(t: Tree, calls: seq<FileCall>): (r: Tree)
    requires TreeOk(t) && forall i :: 0 <= i < |calls| ==> calls[i].Ok()
    ensures TreeOk(r)
  {
    if calls == [] then t else Apply(ApplyAll(t, calls[..|calls| - 1]), calls[|calls| - 1])
  }

  lemma NoCalls(t: Tree)
    requires TreeOk(t)
    ensures ApplyAll(t, []) == t
  {
  }

  lemma NextCall(t: Tree, calls: seq<FileCall>, i: nat)
    requires TreeOk(t) && i < |calls| && forall k :: 0 <= k < |calls| ==> calls[k].Ok()
    ensures ApplyAll(t, calls[..i + 1]) == Apply(ApplyAll(t, calls[..i]), calls[i])
  {
    hide TreeOk, Apply;
    assert calls[..i + 1][..i] == calls[..i];
  }

  class Fs {
    const root: File
    const heap: Allocator

    ghost var tree: Tree
    ghost var at: Nodes
    ghost var blocks: Blocks
    ghost var owner: Owner
    /** The live blocks that belong to others. */
    ghost var others: set<nat>

    /** Each node is at one place, with exactly the links, contents and blocks
        that place asks for. */
    ghost predicate Graph()
      reads this, at.Values
    {
      && TreeOk(tree)
      && at.Keys == tree.items.Keys && at[Root] == root
      && Injective(at)
      && Placed(tree, at)
      && Backed(at, blocks)
      && Owns(blocks, owner)
    }

    /** Every live block belongs to one node or to others: nothing has leaked. */
    ghost predicate Valid()
      reads this, heap, at.Values
    {
      Graph() && heap.Valid() && others !! owner.Keys && heap.live == others + owner.Keys
    }

    /** init_fs up to the archive: an empty directory that is its own parent. */
    constructor (heap: Allocator)
      requires heap.Valid()
      ensures Valid() && this.heap == heap && tree == EMPTY && others == heap.live && fresh(root) && at == map[Root := root]
    {
      hide Graph, TreeOk, Placed, Backed, Injective, Owns, Allocator.Valid;
      var r := new File(0);
      root, this.heap := r, heap;
      new;
      root.name, root.parent, root.flags := "root", root, IS_DIRECTORY;
      tree, at, blocks, owner, others := EMPTY, map[Root := root], map[], map[], heap.live;
      EmptyGraph(root);
      GraphWhole();
    }

    lemma Facts(p: Place)
      requires Graph() && p in at
      ensures p in tree.items && p in tree.kids && TreeOk(tree)
      ensures at[p].flags == tree.items[p].flags && at[p].data == tree.items[p].data && at[p].size == |at[p].data|
      ensures p.Kid? ==> at[p].name == p.name && p.up in at && at[p].parent == at[p.up]
      ensures p.Root? ==> at[p].parent == root && at[p] == root
      ensures at[p].children == FirstKid(tree, at, p) && at[p].next == NextKid(tree, at, p)
      ensures Hangs(tree, p) && Lists(tree, p)
    {
      assert at[p].Links() == Expected(tree, at, p);
    }

    /** find_child, and the same search inside parse_path. */
    method FindChild(dir: File, name: string, ghost p: Place) returns (child: File?)
      requires Graph() && p in at && dir == at[p]
      ensures child == NodeAt(at, Kid(p, name))
    {
      hide Graph, TreeOk;
      Facts(p);
      child := dir.children;
      ghost var names, j := tree.kids[p], 0;
      ChildAt(p, 0);
      while child != null
        invariant j <= |names| && child == (if j < |names| then NodeAt(at, Kid(p, names[j])) else null)
        invariant child == null <==> j == |names|
        invariant forall i :: 0 <= i < j ==> names[i] != name
        decreases |names| - j
      {
        ChildAt(p, j);
        if child.name == name {
          return;
        }
        child := child.next;
        j := j + 1;
        ChildAt(p, j);
      }
      assert name !in names;
      KeysKnown(Kid(p, name));
    }

    lemma KeysKnown(p: Place)
      requires Graph()
      ensures p in at <==> p in tree.items
    {
    }

    /** The j-th child, its name and the link to the one after it. */
    lemma ChildAt(p: Place, j: nat)
      requires Graph() && p in at && p in tree.kids && j <= |tree.kids[p]|
      ensures j == 0 ==> at[p].children == if |tree.kids[p]| > 0 then NodeAt(at, Kid(p, tree.kids[p][0])) else null
      ensures j < |tree.kids[p]| ==>
                var k := Kid(p, tree.kids[p][j]);
                && k in at && at[k].name == tree.kids[p][j]
                && at[k].next == if j + 1 < |tree.kids[p]| then NodeAt(at, Kid(p, tree.kids[p][j + 1])) else null
      ensures j + 1 < |tree.kids[p]| ==> Kid(p, tree.kids[p][j + 1]) in at
    {
      Facts(p);
      if j < |tree.kids[p]| {
        ListedKid(tree, p, tree.kids[p][j]);
        Facts(Kid(p, tree.kids[p][j]));
        AfterIndex(tree.kids[p], j);
        if j + 1 < |tree.kids[p]| {
          ListedKid(tree, p, tree.kids[p][j + 1]);
        }
      }
    }

    method SkipSlashes(s: string, start: nat) returns (i: nat)
      requires start <= |s|
      ensures start <= i <= |s| && (i < |s| ==> s[i] != '/')
      ensures Components(s[i..]) == Components(s[start..])
    {
      i := start;
      while i < |s| && s[i] == '/'
        invariant start <= i <= |s| && Components(s[i..]) == Components(s[start..])
      {
        SkipSlash(s, i);
        i := i + 1;
      }
    }

    /** parse_path: advances a pointer over the path, one component at a time. */
    method ParsePath(path: Option<string>) returns (status: Status, result: File?, ghost place: Place)
      requires Graph()
      ensures path.None? ==> status == InvalidPath
      ensures path.Some? ==>
                match FsTree.ParsePath(tree, path.value)
                case Error(s) => status == s
                case Node(p) => status == Success && place == p && p in at && result == at[p]
    {
      hide Graph, TreeOk, Components, Resolve;
      result, place := null, Root;
      if path.None? {
        return InvalidPath, null, Root;
      }
      var s := path.value;
      RootKnown();
      var current := root;
      assert s[0..] == s;
      var i := SkipSlashes(s, 0);
      while i < |s|
        invariant i <= |s| && (i < |s| ==> s[i] != '/')
        invariant place in at && current == at[place] && place in tree.items && TreeOk(tree)
        invariant Resolve(tree, place, Components(s[i..])) == FsTree.ParsePath(tree, s)
        decreases |s| - i
      {
        var start := i;
        while i < |s| && s[i] != '/'
          invariant start <= i <= |s| && forall k :: start <= k < i ==> s[k] != '/'
        {
          i := i + 1;
        }
        ghost var rest := Components(s[i..]);
        var w := s[start..i];
        NextComponent(s, start, i);
        i := SkipSlashes(s, i);
        Facts(place);
        OneStep(tree, place, w, rest);
        if |w| == 1 && w[0] == '.' {
          assert w == ".";
          continue;
        }
        if |w| == 2 && w[0] == '.' && w[1] == '.' {
          assert w == "..";
          current := current.parent;
          place := if place.Kid? then place.up else Root;
          continue;
        }
        if current.flags % 2 == 0 {
          return NotADir, null, place;
        }
        var child := FindChild(current, w, place);
        KeysKnown(Kid(place, w));
        if child == null {
          return NotFound, null, place;
        }
        current := child;
        place := Kid(place, w);
      }
      NothingLeft(tree, place, s);
      return Success, current, place;
    }

    lemma RootKnown()
      requires Graph()
      ensures Root in at && at[Root] == root && Root in tree.items && TreeOk(tree)
    {
    }

    method LinkChild(dir: File, child: File)
      requires child != dir
      modifies dir`children, child`parent, child`next
      ensures child.parent == dir && child.next == old(dir.children) && dir.children == child
    {
      child.parent := dir;
      child.next := dir.children;
      dir.children := child;
    }

    /** link_child, and the tree it makes. */
    method LinkUnder(dir: File, file: File, ghost up: Place)
      requires Graph() && up in at && dir == at[up] && file !in at.Values && Kid(up, file.name) !in at
      requires file.size == |file.data| && file.children == null
      modifies dir`children, file`parent, file`next
      ensures TreeOk(tree) && at.Keys == tree.items.Keys && Root in at && at[Root] == root
      ensures Injective(at) && Backed(at, blocks) && Owns(blocks, owner)
      ensures Placed(Insert(tree, up, file.name, Item(file.flags, file.data)), at[Kid(up, file.name) := file])
    {
      hide TreeOk, Insert, Expected, FirstKid, Owns, OwnMore, Injective, Placed, Backed, File.Blocks;
      RootKnown();
      ghost var before := Snapshot(at);
      PlacedSnapshot(tree, at);
      LinkChild(dir, file);
      forall p | p in at
        ensures at[p].Links() == if p == up then before[p].(children := file) else before[p]
      {
        assert at[p] in at.Values;
        OnlyNode(at, up, p);
      }
      LinkedNode(before, tree, at, up, file);
    }

    /** A filled-in node becomes the first child of dir. */
    method AddNode(dir: File, file: File, ghost up: Place)
      requires Graph() && up in at && dir == at[up] && tree.items[up].IsDir() && file !in at.Values
      requires GoodName(file.name) && Kid(up, file.name) !in at
      requires file.size == |file.data| && file.children == null && (file.size != 0 ==> file.dataBlock != 0)
      requires 0 !in file.Blocks() && file.Blocks() !! owner.Keys
      modifies `tree, `at, `blocks, `owner, dir`children, file`parent, file`next
      ensures Graph()
      ensures tree == Insert(old(tree), up, file.name, Item(file.flags, file.data))
      ensures at == old(at)[Kid(up, file.name) := file]
      ensures blocks == old(blocks)[Kid(up, file.name) := file.Blocks()]
      ensures owner.Keys == old(owner).Keys + file.Blocks()
    {
      hide *;
      LinkUnder(dir, file, up);
      Record(file, up);
    }

    ghost method Record(file: File, up: Place)
      requires TreeOk(tree) && at.Keys == tree.items.Keys && Root in at && at[Root] == root
      requires Injective(at) && Backed(at, blocks) && Owns(blocks, owner)
      requires up in at && tree.items[up].IsDir() && file !in at.Values
      requires GoodName(file.name) && Kid(up, file.name) !in at
      requires 0 !in file.Blocks() && file.Blocks() !! owner.Keys && (file.size != 0 ==> file.dataBlock != 0)
      requires Placed(Insert(tree, up, file.name, Item(file.flags, file.data)), at[Kid(up, file.name) := file])
      modifies `tree, `at, `blocks, `owner
      ensures Graph()
      ensures tree == Insert(old(tree), up, file.name, Item(file.flags, file.data))
      ensures at == old(at)[Kid(up, file.name) := file]
      ensures blocks == old(blocks)[Kid(up, file.name) := file.Blocks()]
      ensures owner.Keys == old(owner).Keys + file.Blocks()
    {
      hide TreeOk, Insert, Expected, FirstKid, Owns, OwnMore, Injective, Placed, Backed, File.Blocks;
      var place, item := Kid(up, file.name), Item(file.flags, file.data);
      InsertOk(tree, up, file.name, item);
      InsertKeys(tree, up, file.name, item);
      BlockKeys(at, blocks);
      OwnsMore(blocks, owner, place, file.Blocks());
      InjectiveMore(at, place, file);
      BackedMore(at, blocks, place, file);
      owner := OwnMore(owner, place, file.Blocks());
      blocks := blocks[place := file.Blocks()];
      tree, at := Insert(tree, up, file.name, item), at[place := file];
    }

    /** create_file's copy of the parent path, in a block of its own, and of the last name. */
    method SplitCopy(s: string) returns (parentBlock: nat, parentPath: string, name: string)
      requires heap.Valid() && s != ""
      modifies heap
      ensures heap.Valid() && heap.failures >= old(heap.failures)
      ensures parentBlock == 0 ==> heap.live == old(heap.live) && heap.failures > old(heap.failures)
      ensures parentBlock != 0 ==>
                && heap.failures == old(heap.failures)
                && parentBlock !in old(heap.live) && heap.live == old(heap.live) + {parentBlock}
                && parentPath == ParentPath(s) && name == BaseName(s)
    {
      var slash := LastSlash(s);
      parentPath, name := "", "";
      if slash < 0 {
        parentBlock := heap.Kmalloc(2);
        if parentBlock != 0 {
          parentPath, name := ".", s;
          assert s[0..] == s;
        }
      } else {
        parentBlock := heap.Kmalloc(slash + 2);
        if parentBlock != 0 {
          parentPath, name := if slash == 0 then "/" else s[..slash], s[slash + 1..];
        }
      }
    }

    /** The node create_file fills in, or NULL; nameBlock is not its to free on failure. */
    method NewFile(name: string, nameBlock: nat, data: Option<string>, size: nat, flags: nat) returns (file: File?)
      requires heap.Valid() && nameBlock != 0 && nameBlock in heap.live
      requires if data.Some? then size <= |data.value| else size == 0
      modifies heap
      ensures heap.Valid() && heap.failures >= old(heap.failures)
      ensures file == null ==> heap.live == old(heap.live) && heap.failures > old(heap.failures)
      ensures file != null ==>
                && fresh(file) && heap.failures == old(heap.failures)
                && file.name == name && file.children == null && file.flags == flags
                && file.data == (if data.Some? then data.value[..size] else "") && file.size == |file.data|
                && (file.size != 0 ==> file.dataBlock != 0) && 0 !in file.Blocks()
                && nameBlock in file.Blocks() && file.Blocks() - {nameBlock} !! old(heap.live)
                && heap.live == old(heap.live) + file.Blocks()
    {
      var fileBlock := heap.Kmalloc(64);
      if fileBlock == 0 {
        return null;
      }
      var f := new File(fileBlock);
      if size != 0 {
        var dataBlock := heap.Kmalloc(size);
        if dataBlock == 0 {
          heap.Kfree(fileBlock);
          return null;
        }
        f.dataBlock, f.data := dataBlock, data.value[..size];
      }
      f.name, f.nameBlock := name, nameBlock;
      f.size := size;
      f.flags := flags;
      return f;
    }

    /** The end of create_file: the node is made, filled in and linked. */
    method MakeNode(dir: File, name: string, nameBlock: nat, data: Option<string>, size: nat, flags: nat, ghost up: Place)
      returns (status: Status)
      requires Graph() && heap.Valid() && nameBlock != 0 && nameBlock in heap.live
      requires owner.Keys <= heap.live && nameBlock !in owner
      requires up in at && dir == at[up] && tree.items[up].IsDir() && Kid(up, name) !in at && GoodName(name)
      requires if data.Some? then size <= |data.value| else size == 0
      modifies `tree, `at, `blocks, `owner, heap, dir`children
      ensures Graph() && heap.Valid() && heap.failures >= old(heap.failures)
      ensures status == if heap.failures == old(heap.failures) then Success else Fail
      ensures status != Success ==>
                && tree == old(tree) && at == old(at) && blocks == old(blocks) && owner == old(owner)
                && heap.live == old(heap.live) - {nameBlock}
      ensures status == Success ==>
                && tree == Insert(old(tree), up, name, Item(flags, if data.Some? then data.value[..size] else ""))
                && var place := Kid(up, name);
                && place in at && fresh(at[place]) && at == old(at)[place := at[place]]
                && place in blocks && blocks == old(blocks)[place := blocks[place]]
                && nameBlock in blocks[place] && blocks[place] - {nameBlock} !! old(heap.live)
                && heap.live == old(heap.live) + blocks[place]
                && owner.Keys == old(owner).Keys + blocks[place]
    {
      hide Graph, TreeOk, Insert, FsTree.ParsePath, Expected, FirstKid, NextKid, File.Blocks;
      var file := NewFile(name, nameBlock, data, size, flags);
      if file == null {
        heap.Kfree(nameBlock);
        return Fail;
      }
      OnlyNameShared(file.Blocks(), nameBlock, old(heap.live), owner.Keys);
      AddNode(dir, file, up);
      return Success;
    }

    /** create_file's checks on the directory the node is to go into. */
    method CheckParent(parent: File, name: string, ghost up: Place) returns (status: Status)
      requires Graph() && up in at && parent == at[up]
      ensures up in tree.items
      ensures status == if !tree.items[up].IsDir() then NotADir
                        else if Kid(up, name) in tree.items then AlrExist else Success
      ensures Kid(up, name) in at <==> Kid(up, name) in tree.items
    {
      hide Graph, TreeOk, Expected, FirstKid, NextKid;
      Facts(up);
      KeysKnown(Kid(up, name));
      if parent.flags % 2 == 0 {
        return NotADir;
      }
      var existing := FindChild(parent, name, up);
      status := if existing != null then AlrExist else Success;
    }

    /** create_file from the point where the path is taken apart and copied. */
    method CreateUnder(parentPath: string, name: string, nameBlock: nat, parentBlock: nat,
                       data: Option<string>, size: nat, flags: nat)
      returns (status: Status, ghost place: Place)
      requires Graph() && heap.Valid() && nameBlock != 0 && parentBlock != 0 && nameBlock != parentBlock
      requires owner.Keys + {nameBlock, parentBlock} <= heap.live
      requires nameBlock !in owner && parentBlock !in owner
      requires GoodName(name)
      requires if data.Some? then size <= |data.value| else size == 0
      modifies `tree, `at, `blocks, `owner, heap, at.Values
      ensures Graph() && heap.Valid() && heap.failures >= old(heap.failures)
      ensures heap.failures == old(heap.failures) ==>
                (status, tree) == CreateNamed(old(tree), parentPath, name, data, size, flags)
      ensures heap.failures > old(heap.failures) ==> status == Fail
      ensures status != Success ==>
                && tree == old(tree) && at == old(at) && blocks == old(blocks) && owner == old(owner)
                && heap.live == old(heap.live) - {nameBlock, parentBlock}
      ensures status == Success ==>
                && heap.failures == old(heap.failures)
                && place !in old(at) && place in at && fresh(at[place]) && at == old(at)[place := at[place]]
                && place in blocks && blocks == old(blocks)[place := blocks[place]]
                && nameBlock in blocks[place] && blocks[place] - {nameBlock} !! old(heap.live) - {parentBlock}
                && heap.live == old(heap.live) - {parentBlock} + blocks[place]
                && owner.Keys == old(owner).Keys + blocks[place]
    {
      hide Graph, TreeOk, Insert, FsTree.ParsePath, Expected, FirstKid, NextKid, File.Blocks, Allocator.Valid,
           GoodName, Hangs, Lists;
      place := Root;
      var parent: File?;
      ghost var up: Place;
      status, parent, up := ParsePath(Some(parentPath));
      heap.Kfree(parentBlock);
      if status == Success {
        status := CheckParent(parent, name, up);
      }
      if status != Success {
        heap.Kfree(nameBlock);
        return status, place;
      }
      place := Kid(up, name);
      status := MakeNode(parent, name, nameBlock, data, size, flags, up);
    }

    /** create_file. */
    method CreateFile(path: Option<string>, data: Option<string>, size: nat, flags: nat)
      returns (status: Status, ghost place: Place)
      requires Valid() && (path.Some? ==> '\0' !in path.value)
      requires data.Some? ==> size <= |data.value|
      requires data.None? && flags % 2 == 1 ==> size == 0
      modifies `tree, `at, `blocks, `owner, heap, at.Values
      ensures Valid() && heap.failures >= old(heap.failures)
      ensures heap.failures == old(heap.failures) ==> (status, tree) == Create(old(tree), path, data, size, flags)
      ensures heap.failures > old(heap.failures) ==> status == Fail
      ensures status != Success ==>
                && tree == old(tree) && at == old(at) && blocks == old(blocks) && owner == old(owner)
                && heap.live == old(heap.live)
      ensures status == Success ==>
                && heap.failures == old(heap.failures)
                && place !in old(at) && place in at && fresh(at[place]) && at == old(at)[place := at[place]]
                && place in blocks && blocks == old(blocks)[place := blocks[place]]
                && blocks[place] !! old(heap.live) && heap.live == old(heap.live) + blocks[place]
    {
      hide Graph, TreeOk, Insert, CreateNamed, LastSlash, ParentPath, BaseName, NodeAt;
      place := Root;
      if path.None? || (data.None? && size != 0 && flags % 2 == 0) {
        return InvArg, place;
      }
      var s := path.value;
      if |s| == 0 || s[|s| - 1] == '/' {
        return InvPath, place;
      }
      var parentBlock, parentPath, name := SplitCopy(s);
      if parentBlock == 0 {
        return Fail, place;
      }
      var nameBlock := heap.Kmalloc(|name| + 1);
      if nameBlock == 0 {
        heap.Kfree(parentBlock);
        return Fail, place;
      }
      if name == "." || name == ".." {
        heap.Kfree(nameBlock);
        heap.Kfree(parentBlock);
        return Fail, place;
      }
      GoodBaseName(s);
      ghost var live := heap.live;
      status, place := CreateUnder(parentPath, name, nameBlock, parentBlock, data, size, flags);
      if status == Success {
        BlocksTaken(old(heap.live), live, nameBlock, parentBlock, blocks[place]);
      }
    }

    /** create_folder. */
    method CreateFolder(path: Option<string>) returns (status: Status, ghost place: Place)
      requires Valid() && (path.Some? ==> '\0' !in path.value)
      modifies `tree, `at, `blocks, `owner, heap, at.Values
      ensures Valid() && heap.failures >= old(heap.failures)
      ensures heap.failures == old(heap.failures) ==>
                (status, tree) == Create(old(tree), path, None, 0, IS_DIRECTORY)
      ensures heap.failures > old(heap.failures) ==> status == Fail
      ensures status != Success ==> tree == old(tree) && at == old(at) && heap.live == old(heap.live)
      ensures status == Success ==> place in at && fresh(at[place]) && at == old(at)[place := at[place]]
    {
      hide *;
      status, place := CreateFile(path, None, 0, IS_DIRECTORY);
    }

    /** The search of unlink_child: the link to target is prev.next, or dir.children without a prev. */
    method FindLink(dir: File, target: File, ghost p: Place) returns (prev: File?, current: File?, ghost j: nat)
      requires Graph() && p in at && p.Kid? && p.up in at && target == at[p] && dir == at[p.up] && p.up in tree.kids
      ensures current == target && j < |tree.kids[p.up]| && tree.kids[p.up][j] == p.name
      ensures prev != target && dir != target
      ensures if j == 0 then prev == null
              else var k := Kid(p.up, tree.kids[p.up][j - 1]); k in at && prev == at[k]
    {
      hide Graph, TreeOk, Injective, Placed, Backed, Owns;
      GraphParts();
      KidListedAt(p);
      ghost var names := tree.kids[p.up];
      prev, current, j := null, dir.children, 0;
      ChildAt(p.up, 0);
      while current != null && current != target
        invariant j <= |names| && current == (if j < |names| then NodeAt(at, Kid(p.up, names[j])) else null)
        invariant current == null <==> j == |names|
        invariant (forall i :: 0 <= i < j ==> names[i] != p.name) && prev != target
        invariant if j == 0 then prev == null else Kid(p.up, names[j - 1]) in at && prev == at[Kid(p.up, names[j - 1])]
        decreases |names| - j
      {
        ChildAt(p.up, j);
        prev, current := current, current.next;
        j := j + 1;
        ChildAt(p.up, j);
      }
      assert current != null;
      ChildAt(p.up, j);
      OnlyNode(at, p, Kid(p.up, names[j]));
      OnlyNode(at, p, p.up);
    }

    lemma KidListedAt(p: Place)
      requires Graph() && p in at && p.Kid?
      ensures p.up in tree.kids && p.name in tree.kids[p.up] && p != p.up
    {
      KidListed(tree, p);
    }

    /** The update of unlink_child. */
    method TakeOut(dir: File, prev: File?, target: File, ghost p: Place, ghost j: nat)
      requires TreeOk(tree) && at.Keys == tree.items.Keys && Injective(at) && Placed(tree, at)
      requires p in at && p.Kid? && p.up in at && target == at[p] && dir == at[p.up] && p.up in tree.kids
      requires p in tree.kids && tree.kids[p] == [] && j < |tree.kids[p.up]| && tree.kids[p.up][j] == p.name
      requires prev != target && dir != target
      requires if j == 0 then prev == null
               else var k := Kid(p.up, tree.kids[p.up][j - 1]); k in at && prev == at[k]
      modifies at.Values`children, at.Values`next
      ensures Placed(Remove(tree, p.up, p.name), at - {p})
    {
      hide Graph, TreeOk, Remove, Expected, FirstKid, NextKid, Injective, Placed;
      PlacedSnapshot(tree, at);
      ghost var before := Snapshot(at);
      OnlyAt(at, p);
      OnlyAt(at, p.up);
      if j > 0 {
        OnlyAt(at, Kid(p.up, tree.kids[p.up][j - 1]));
      }
      if prev == null {
        dir.children := target.next;
      } else {
        prev.next := target.next;
      }
      target.next := null;
      UnlinkedNodes(before, tree, at, p, j);
    }

    /** unlink_child. */
    method UnlinkChild(dir: File, target: File, ghost p: Place) returns (ok: bool)
      requires Graph() && p in at && p.Kid? && p.up in at && target == at[p] && dir == at[p.up]
      requires p in tree.kids && tree.kids[p] == []
      modifies at.Values`children, at.Values`next
      ensures ok
      ensures TreeOk(tree) && at.Keys == tree.items.Keys && Root in at && at[Root] == root
      ensures Injective(at) && Backed(at, blocks) && Owns(blocks, owner)
      ensures p.up in tree.kids && Placed(Remove(tree, p.up, p.name), at - {p})
    {
      hide Graph, TreeOk, Remove, Expected, FirstKid, NextKid, Injective, Placed, Backed, Owns, File.Blocks;
      GraphParts();
      KidListedAt(p);
      var prev, current, j := FindLink(dir, target, p);
      if current == null {
        return false;
      }
      TakeOut(dir, prev, target, p, j);
      return true;
    }

    /** Without links to it, the node at p is forgotten. */
    ghost method Forget(p: Place)
      requires TreeOk(tree) && at.Keys == tree.items.Keys && Root in at && at[Root] == root
      requires Injective(at) && Backed(at, blocks) && Owns(blocks, owner)
      requires p in at && p.Kid? && p.up in tree.kids && p in tree.kids && tree.kids[p] == []
      requires Placed(Remove(tree, p.up, p.name), at - {p})
      modifies `tree, `at, `blocks, `owner
      ensures Graph() && p in old(blocks) && 0 !in old(blocks)[p]
      ensures tree == Remove(old(tree), p.up, p.name) && at == old(at) - {p} && blocks == old(blocks) - {p}
      ensures owner.Keys == old(owner).Keys - old(blocks)[p] && old(blocks)[p] <= old(owner).Keys
    {
      hide TreeOk, Remove, Expected, FirstKid, Injective, Placed, Backed, Owns, File.Blocks;
      RemoveOk(tree, p.up, p.name);
      RemoveKeys(tree, p);
      BackedLess(at, blocks, p);
      InjectiveLess(at, p);
      OwnsLess(blocks, owner, p);
      owner := owner - blocks[p];
      tree, at, blocks := Remove(tree, p.up, p.name), at - {p}, blocks - {p};
    }

    /** The end of delete_file: the node is unlinked and its blocks freed. */
    method RemoveNode(target: File, ghost p: Place) returns (ok: bool)
      requires Valid() && p in at && p.Kid? && target == at[p] && p in tree.kids && tree.kids[p] == []
      requires p.up in at && target.parent == at[p.up]
      modifies `tree, `at, `blocks, `owner, heap`live, at.Values`children, at.Values`next
      ensures Valid() && ok
      ensures p.up in old(tree).kids && tree == Remove(old(tree), p.up, p.name) && at == old(at) - {p}
      ensures p in old(blocks) && blocks == old(blocks) - {p} && heap.live == old(heap.live) - old(blocks)[p]
    {
      hide Graph, TreeOk, Remove, FsTree.ParsePath, Expected, FirstKid, NextKid, Injective, Placed, Backed, Owns,
           File.Blocks;
      ok := target.parent != null;
      if ok {
        ok := UnlinkChild(target.parent, target, p);
      }
      if !ok {
        return;
      }
      BackedAt(at, blocks, p);
      heap.Kfree(target.nameBlock);
      heap.Kfree(target.dataBlock);
      heap.Kfree(target.block);
      Forget(p);
    }

    /** delete_file. */
    method DeleteFile(path: Option<string>) returns (status: Status, ghost place: Place)
      requires Valid()
      modifies `tree, `at, `blocks, `owner, heap`live, at.Values`children, at.Values`next
      ensures Valid() && (status, tree) == Delete(old(tree), path)
      ensures status != Success ==>
                && at == old(at) && blocks == old(blocks) && owner == old(owner) && heap.live == old(heap.live)
      ensures status == Success ==>
                && path.Some? && FsTree.ParsePath(old(tree), path.value) == Node(place)
                && place in old(at) && at == old(at) - {place}
                && place in old(blocks) && blocks == old(blocks) - {place}
                && heap.live == old(heap.live) - old(blocks)[place]
      ensures status == Success ==> TreeOk(old(tree)) && TreeOk(tree) && tree.items == old(tree).items - {place}
      ensures status == Success ==>
                forall other ::
                  FsTree.ParsePath(tree, other) ==
                    if Avoids(old(tree), Root, Components(other), place) then FsTree.ParsePath(old(tree), other)
                    else Error(NotFound)
    {
      hide Graph, TreeOk, Avoids, Components, Remove, FsTree.ParsePath, Expected, FirstKid, NextKid, Injective,
           Placed, Backed, Owns,
           File.Blocks;
      var target: File?;
      status, target, place := ParsePath(path);
      if status != Success {
        return;
      }
      GraphParts();
      OnlyNode(at, place, Root);
      if target == root {
        return PermissionDenied, place;
      }
      NoChildren(place);
      if target.flags % 2 == 1 && target.children != null {
        return DirNotEmpty, place;
      }
      var ok := RemoveNode(target, place);
      if !ok {
        return InvalidFs, place;
      }
      Deleted(old(tree), path.value, place);
    }

    lemma NoChildren(p: Place)
      requires Graph() && p in at
      ensures p in tree.items && p in tree.kids && (p.Kid? ==> p.up in at && at[p].parent == at[p.up])
      ensures at[p].flags == tree.items[p].flags
      ensures !tree.items[p].IsDir() ==> tree.kids[p] == []
      ensures at[p].children == null <==> tree.kids[p] == []
    {
      Facts(p);
      if !tree.items[p].IsDir() {
        NoKidsInFiles(tree, p);
      }
      ChildAt(p, 0);
      if tree.kids[p] != [] {
        ListedKid(tree, p, tree.kids[p][0]);
      }
    }

    /** read_file_content. */
    method ReadFileContent(path: Option<string>, buffer: array?<char>, room: nat) returns (status: Status)
      requires Graph() && (buffer != null ==> room <= buffer.Length)
      modifies buffer
      ensures status == Read(tree, path, buffer != null, room).0
      ensures status != Success && buffer != null ==> buffer[..] == old(buffer[..])
      ensures status == Success && buffer != null ==>
                var data := Read(tree, path, true, room).1;
                |data| <= buffer.Length && buffer[..] == data + old(buffer[..])[|data|..]
    {
      hide Graph, TreeOk, FsTree.ParsePath, Expected, FirstKid, NextKid;
      var s, file, place := ParsePath(path);
      if s != Success {
        return s;
      }
      Facts(place);
      SizeBacked(place);
      if file.flags % 2 == 1 {
        return IsADir;
      } else if room < file.size {
        return BufTooSmall;
      } else if file.size != 0 && file.dataBlock == 0 {
        return InvalidFile;
      }
      if file.size != 0 && buffer == null {
        return InvArg;
      }
      if buffer != null {
        Copy(buffer, file.data);
      }
      return Success;
    }

    /** write_file_content. */
    method WriteFileContent(path: Option<string>, buffer: Option<string>, size: nat) returns (status: Status)
      requires Valid() && (buffer.Some? ==> size <= |buffer.value|)
      modifies `tree, at.Values`data
      ensures Valid() && (status, tree) == Write(old(tree), path, buffer, size)
    {
      hide Graph, TreeOk, FsTree.ParsePath, Expected, FirstKid, NextKid, SetData;
      var s, file, place := ParsePath(path);
      if s != Success {
        return s;
      }
      Facts(place);
      SizeBacked(place);
      if file.flags % 2 == 1 {
        return IsADir;
      } else if size > file.size {
        return FileTooSmall;
      } else if size != 0 && file.dataBlock == 0 {
        return InvalidFile;
      }
      if file.size != 0 && buffer.None? {
        return InvArg;
      }
      if size != 0 {
        Overwrite(file, buffer.value[..size] + file.data[size..], place);
      }
      return Success;
    }

    method Overwrite(file: File, data: string, ghost p: Place)
      requires Graph() && p in at && file == at[p] && |data| == |file.data|
      modifies `tree, at.Values`data
      ensures Graph() && p in old(tree).items && tree == SetData(old(tree), p, data)
    {
      hide Graph, TreeOk, Expected, SetData, Placed, Backed, Injective, Owns, File.Blocks;
      GraphParts();
      StoreData(file, data, p);
      SetDataOk(tree, p, data);
      SetDataKeys(tree, p, data);
      tree := SetData(tree, p, data);
      GraphWhole();
    }

    method StoreData(file: File, data: string, ghost p: Place)
      requires at.Keys == tree.items.Keys && Injective(at) && Placed(tree, at)
      requires p in at && file == at[p] && |data| == |file.data|
      modifies file`data
      ensures Placed(SetData(tree, p, data), at)
    {
      hide Expected, SetData, Placed, Injective;
      PlacedSnapshot(tree, at);
      OnlyAt(at, p);
      ghost var before := Snapshot(at);
      file.data := data;
      Rewritten(before, tree, at, p, data);
    }

    /** A successful create_file, then delete_file of the same path: the tree with its child
        lists, the nodes that make it up and the live blocks are as they were. */
    method CreateThenDelete(path: string, data: Option<string>, size: nat, flags: nat) returns (status: Status)
      requires Valid() && '\0' !in path
      requires data.Some? ==> size <= |data.value|
      requires data.None? && flags % 2 == 1 ==> size == 0
      modifies `tree, `at, `blocks, `owner, heap, at.Values
      ensures Valid() && tree == old(tree) && at == old(at) && blocks == old(blocks) && heap.live == old(heap.live)
    {
      hide Graph, TreeOk, Create, Delete, FsTree.ParsePath, Backed, Injective, Placed, Owns, Allocator.Valid, Grows;
      GraphParts();
      BlockKeys(at, blocks);
      ghost var place;
      status, place := CreateFile(Some(path), data, size, flags);
      if status == Success {
        GraphParts();
        DeleteUndoesCreate(old(tree), path, data, size, flags);
        assert forall f :: f in at.Values ==> f in old(at.Values) || fresh(f);
        ghost var deleted, file, bs := Root, at[place], blocks[place];
        AddedAndTaken(old(heap.live), bs);
        status, deleted := DeleteFile(Some(path));
        GraphParts();
        BlockKeys(at, blocks);
        BackAgain(old(at), place, file, deleted, at);
        BackAgain(old(blocks), place, bs, deleted, blocks);
      }
    }

    method Do(call: FileCall)
      requires Valid() && call.Ok()
      modifies `tree, `at, `blocks, `owner, heap, at.Values
      ensures Valid() && heap.failures >= old(heap.failures)
      ensures heap.failures == old(heap.failures) ==> tree == Apply(old(tree), call)
      ensures forall f :: f in at.Values ==> f in old(at.Values) || fresh(f)
    {
      hide Graph, TreeOk, Create, Delete, Injective, Placed, Backed, Owns, Allocator.Valid;
      GraphParts();
      ghost var status: Status, place: Place;
      match call {
        case CreateCall(path, data, size, flags) => status, place := CreateFile(path, data, size, flags);
        case DeleteCall(path) => status, place := DeleteFile(path);
      }
    }

    /** Any run of creations and deletions keeps every node in place and every block owned. */
    method Run(calls: seq<FileCall>)
      requires Valid() && forall i :: 0 <= i < |calls| ==> calls[i].Ok()
      modifies `tree, `at, `blocks, `owner, heap, at.Values
      ensures Valid() && heap.failures >= old(heap.failures)
      ensures heap.failures == old(heap.failures) ==> tree == ApplyAll(old(tree), calls)
    {
      hide Graph, Valid, TreeOk, Apply, ApplyAll, Allocator.Valid, FileCall.Ok;
      TreeKnown();
      NoCalls(tree);
      assert calls[..0] == [] && calls[..|calls|] == calls;
      for i := 0 to |calls|
        invariant Valid() && heap.failures >= old(heap.failures)
        invariant forall f :: f in at.Values ==> f in old(at.Values) || fresh(f)
        invariant heap.failures == old(heap.failures) ==> tree == ApplyAll(old(tree), calls[..i])
      {
        NextCall(old(tree), calls, i);
        Do(calls[i]);
      }
    }

    lemma TreeKnown()
      requires Valid()
      ensures TreeOk(tree)
    {
    }

    lemma SizeBacked(p: Place)
      requires Graph() && p in at
      ensures at[p].size != 0 ==> at[p].dataBlock != 0
    {
    }

    lemma GraphWhole()
      requires TreeOk(tree) && at.Keys == tree.items.Keys && Root in at && at[Root] == root
      requires Injective(at) && Placed(tree, at) && Backed(at, blocks) && Owns(blocks, owner)
      ensures Graph()
    {
    }

    lemma GraphParts()
      requires Graph()
      ensures TreeOk(tree) && at.Keys == tree.items.Keys && Root in at && at[Root] == root
      ensures Injective(at) && Placed(tree, at) && Backed(at, blocks) && Owns(blocks, owner)
    {
    }
  }

  /** What a node's fields are once names[j], the name of p, is unlinked. */
  ghost function Unlinked(before: map<Place, Fields>, p: Place, names: seq<string>, j: nat, q: Place): Fields
    requires p.Kid? && p in before && q in before && j < |names|
  {
    if j == 0 && q == p.up then before[q].(children := before[p].next)
    else if j > 0 && q == Kid(p.up, names[j - 1]) then before[q].(next := before[p].next)
    else before[q]
  }

  lemma UnlinkedNodes(before: map<Place, Fields>, t: Tree, at: Nodes, p: Place, j: nat)
    requires TreeOk(t) && at.Keys == t.items.Keys == before.Keys && p.Kid? && p in at && p.up in t.kids
    requires p in t.kids && t.kids[p] == [] && j < |t.kids[p.up]| && t.kids[p.up][j] == p.name
    requires forall q :: q in before ==> before[q] == Expected(t, at, q)
    requires forall q :: q in at && q != p ==> at[q].Links() == Unlinked(before, p, t.kids[p.up], j, q)
    requires forall q :: q in at ==> at[q].size == |at[q].data|
    ensures Placed(Remove(t, p.up, p.name), at - {p})
  {
    hide TreeOk, Remove, Expected, FirstKid, NextKid, File.Links;
    UpKnown(t, p);
    ListedKid(t, p.up, p.name);
    ExpectedLinks(t, at, p);
    forall q | q in at && q != p
      ensures at[q].Links() == Expected(Remove(t, p.up, p.name), at - {p}, q)
    {
      RemoveLinks(t, at, p.up, p.name, q);
      if q.Kid? && q.up == p.up {
        KidListed(t, q);
        BeforeIndex(t.kids[p.up], j, q.name);
      }
    }
  }

  lemma BeforeIndex(names: seq<string>, j: nat, s: string)
    requires NoRepeats(names) && j < |names| && s in names
    ensures After(names, s) == Some(names[j]) <==> j > 0 && s == names[j - 1]
  {
    var i :| 0 <= i < |names| && names[i] == s;
    AfterIndex(names, i);
  }

  lemma BlocksTaken(before: set<nat>, live: set<nat>, nameBlock: nat, parentBlock: nat, bs: set<nat>)
    requires live == before + {parentBlock} + {nameBlock}
    requires nameBlock !in before && parentBlock !in before && nameBlock != parentBlock
    requires nameBlock in bs && bs - {nameBlock} !! live - {parentBlock}
    ensures bs !! before && live - {parentBlock} + bs == before + bs
  {
    OnlyNameShared(bs, nameBlock, live - {parentBlock}, before);
  }

  lemma Deleted(t: Tree, path: string, place: Place)
    requires TreeOk(t) && FsTree.ParsePath(t, path) == Node(place) && Delete(t, Some(path)).0 == Success
    ensures var t' := Delete(t, Some(path)).1;
            && TreeOk(t') && t'.items == t.items - {place}
            && forall other ::
                 FsTree.ParsePath(t', other) ==
                   if Avoids(t, Root, Components(other), place) then FsTree.ParsePath(t, other) else Error(NotFound)
  {
    hide TreeOk, Delete, Avoids, Components, FsTree.ParsePath;
    DeleteOk(t, Some(path));
    forall other
      ensures FsTree.ParsePath(Delete(t, Some(path)).1, other) ==
                if Avoids(t, Root, Components(other), place) then FsTree.ParsePath(t, other) else Error(NotFound)
    {
      DeleteFrame(t, path, other);
    }
  }

  lemma OnlyNameShared(bs: set<nat>, nameBlock: nat, live: set<nat>, owned: set<nat>)
    requires bs - {nameBlock} !! live && owned <= live && nameBlock !in owned
    ensures bs !! owned
  {
    assert forall b :: b in bs ==> b == nameBlock || b in bs - {nameBlock};
  }

  lemma EmptyGraph(root: File)
    requires root.Links() == Fields("root", root, null, null, IS_DIRECTORY, "") && root.size == 0
    ensures TreeOk(EMPTY) && EMPTY.items.Keys == {Root}
    ensures Placed(EMPTY, map[Root := root]) && Injective(map[Root := root])
    ensures Backed(map[Root := root], map[]) && Owns(map[], map[])
  {
    forall s
      ensures Kid(Root, s) !in EMPTY.items
    {
    }
    assert Lists(EMPTY, Root);
    assert (map[Root := root]).Keys == {Root};
  }

  /** All fields of all nodes, as a value. */
  ghost function Snapshot(at: Nodes): map<Place, Fields>
    reads at.Values
  {
    map p | p in at :: at[p].Links()
  }

  lemma PlacedSnapshot(t: Tree, at: Nodes)
    requires Placed(t, at)
    ensures forall p :: p in at ==> Snapshot(at)[p] == Expected(t, at, p)
    ensures forall p :: p in at ==> at[p].size == |at[p].data|
  {
  }

  lemma OnlyNode(at: Nodes, p: Place, q: Place)
    requires Injective(at) && p in at && q in at
    ensures at[p] == at[q] <==> p == q
  {
  }

  lemma Rewritten(before: map<Place, Fields>, t: Tree, at: Nodes, p: Place, data: string)
    requires before.Keys == at.Keys && p in at && p in t.items
    requires forall q :: q in before ==> before[q] == Expected(t, at, q)
    requires forall q :: q in at ==> at[q].Links() == if q == p then before[q].(data := data) else before[q]
    requires forall q :: q in at ==> at[q].size == |at[q].data|
    ensures Placed(SetData(t, p, data), at)
  {
    hide Expected, SetData, File.Links;
    forall q | q in at
      ensures at[q].Links() == Expected(SetData(t, p, data), at, q)
    {
      SetDataLinks(t, at, p, data, q);
    }
  }

  lemma SetDataKeys(t: Tree, p: Place, data: string)
    requires p in t.items
    ensures SetData(t, p, data).items.Keys == t.items.Keys
  {
  }

  lemma OnlyAt(at: Nodes, p: Place)
    requires Injective(at) && p in at
    ensures forall q :: q in at ==> (at[q] == at[p] <==> q == p)
  {
  }

  lemma ExpectedLinks(t: Tree, at: Nodes, p: Place)
    ensures Expected(t, at, p).children == FirstKid(t, at, p) && Expected(t, at, p).next == NextKid(t, at, p)
  {
  }

  /** After link_child every node, the new one included, has the links of the larger tree. */
  lemma LinkedNode(before: map<Place, Fields>, t: Tree, at: Nodes, up: Place, file: File)
    requires TreeOk(t) && at.Keys == t.items.Keys == before.Keys && up in at && Kid(up, file.name) !in at
    requires forall p :: p in before ==> before[p] == Expected(t, at, p)
    requires forall p :: p in at ==> at[p].Links() == if p == up then before[p].(children := file) else before[p]
    requires forall p :: p in at ==> at[p].size == |at[p].data|
    requires file.size == |file.data|
    requires file.Links() == Fields(file.name, at[up], null, before[up].children, file.flags, file.data)
    ensures Placed(Insert(t, up, file.name, Item(file.flags, file.data)), at[Kid(up, file.name) := file])
  {
    hide TreeOk, Insert, Expected, FirstKid, File.Links;
    InsertKeys(t, up, file.name, Item(file.flags, file.data));
    var place, item := Kid(up, file.name), Item(file.flags, file.data);
    forall q | q in at || q == place
      ensures at[place := file][q].Links() == Expected(Insert(t, up, file.name, item), at[place := file], q)
    {
      InsertLinks(t, at, up, file.name, item, file, q);
      ExpectedLinks(t, at, up);
    }
  }

  lemma InsertKeys(t: Tree, up: Place, name: string, item: Item)
    requires TreeOk(t) && up in t.items
    ensures up in t.kids
    ensures Insert(t, up, name, item).items.Keys == t.items.Keys + {Kid(up, name)}
  {
  }

  lemma SkipSlash(s: string, i: nat)
    requires i < |s| && s[i] == '/'
    ensures Components(s[i..]) == Components(s[i + 1..])
  {
    assert s[i..][1..] == s[i + 1..];
  }

  lemma NextComponent(s: string, start: nat, i: nat)
    requires start < i <= |s| && (forall k :: start <= k < i ==> s[k] != '/') && (i < |s| ==> s[i] == '/')
    ensures Components(s[start..]) == [s[start..i]] + Components(s[i..])
  {
    assert s[start..] == s[start..i] + s[i..];
    WordOfPrefix(s[start..i], s[i..]);
    assert s[start..][i - start..] == s[i..];
    assert s[start..][0] == s[start..i][0];
  }

  lemma NothingLeft(t: Tree, cur: Place, s: string)
    requires TreeOk(t) && cur in t.items
    ensures Resolve(t, cur, Components(s[|s|..])) == Node(cur)
  {
  }

  /** Resolving a first component and the rest. */
  lemma OneStep(t: Tree, cur: Place, c: string, rest: seq<string>)
    requires TreeOk(t) && cur in t.items
    ensures Step(t, cur, c).Node? ==> Step(t, cur, c).place in t.items
    ensures Resolve(t, cur, [c] + rest) ==
            if Step(t, cur, c).Error? then Step(t, cur, c) else Resolve(t, Step(t, cur, c).place, rest)
    ensures Resolve(t, cur, []) == Node(cur)
  {
    assert Hangs(t, cur);
    assert ([c] + rest)[1..] == rest;
  }
}
