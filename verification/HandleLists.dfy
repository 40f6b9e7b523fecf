/** The intrusive doubly linked lists of fat_list.h. */
module LinkedLists {
  import opened Sequences

  class FatNode {
    var previous: FatNode?
    var next: FatNode?

    constructor ()
    {
      previous, next := null, null;
    }
  }

  ghost function First(s: seq<FatNode>): FatNode? {
    if s == [] then null else s[0]
  }

  ghost function Last(s: seq<FatNode>): FatNode? {
    if s == [] then null else s[|s| - 1]
  }

  /** Neighbours point at each other, and the two ends at nothing. */
  ghost predicate Linked(s: seq<FatNode>)
    reads s
  {
    && (forall i, j :: 0 <= i && j == i + 1 && j < |s| ==> s[i].next == s[j] && s[j].previous == s[i])
    && (s != [] ==> s[0].previous == null && s[|s| - 1].next == null)
  }

  ghost function Removed(s: seq<FatNode>, i: nat): seq<FatNode>
    requires i < |s|
  {
    s[..i] + s[i + 1..]
  }

  ghost function Inserted(s: seq<FatNode>, i: nat, n: FatNode): seq<FatNode>
    requires i <= |s|
  {
    s[..i] + [n] + s[i..]
  }

  class FatList {
    var head: FatNode?
    var tail: FatNode?
    ghost var nodes: seq<FatNode>

    /** A well-formed list of exactly nodes, in that order */
    ghost predicate Valid()
      reads this, nodes
    {
      Distinct(nodes) && Linked(nodes) && head == First(nodes) && tail == Last(nodes)
    }

    constructor Init()
      ensures Valid() && nodes == []
    {
      head, tail, nodes := null, null, [];
    }

    method Remove(node: FatNode, ghost i: nat)
      requires Valid() && i < |nodes| && node == nodes[i]
      modifies this, nodes
      ensures nodes == Removed(old(nodes), i) && Valid()
    {
      assert i > 0 ==> nodes[i - 1].next == node && node.previous == nodes[i - 1];
      assert i + 1 < |nodes| ==> node.next == nodes[i + 1];
      if node.previous == null {
        head := node.next;
      } else {
        node.previous.next := node.next;
      }
      if node.next == null {
        tail := node.previous;
      } else {
        node.next.previous := node.previous;
      }
      nodes := Removed(nodes, i);
    }

    method InsertAfter(node: FatNode, newNode: FatNode, ghost i: nat)
      requires Valid() && i < |nodes| && node == nodes[i] && newNode !in nodes
      modifies this, nodes, newNode
      ensures nodes == Inserted(old(nodes), i + 1, newNode) && Valid()
    {
      assert i + 1 < |nodes| ==> node.next == nodes[i + 1];
      newNode.previous := node;
      newNode.next := node.next;
      if node.next == null {
        tail := newNode;
      } else {
        node.next.previous := newNode;
      }
      node.next := newNode;
      nodes := Inserted(nodes, i + 1, newNode);
    }

    method InsertBefore(node: FatNode, newNode: FatNode, ghost i: nat)
      requires Valid() && i < |nodes| && node == nodes[i] && newNode !in nodes
      modifies this, nodes, newNode
      ensures nodes == Inserted(old(nodes), i, newNode) && Valid()
    {
      assert i > 0 ==> nodes[i - 1].next == node && node.previous == nodes[i - 1];
      newNode.previous := node.previous;
      newNode.next := node;
      if node.previous == null {
        head := newNode;
      } else {
        node.previous.next := newNode;
      }
      node.previous := newNode;
      nodes := Inserted(nodes, i, newNode);
    }

    method InsertFirst(node: FatNode)
      requires Valid() && node !in nodes
      modifies this, nodes, node
      ensures nodes == [node] + old(nodes) && Valid()
    {
      if head == null {
        head := node;
        tail := node;
        node.previous := null;
        node.next := null;
        nodes := [node];
      } else {
        InsertBefore(head, node, 0);
      }
    }

    method InsertLast(node: FatNode)
      requires Valid() && node !in nodes
      modifies this, nodes, node
      ensures nodes == old(nodes) + [node] && Valid()
    {
      if tail == null {
        InsertFirst(node);
      } else {
        InsertAfter(tail, node, |nodes| - 1);
      }
    }

    method PopHead() returns (node: FatNode?)
      requires Valid()
      modifies this, nodes
      ensures Valid() && node == First(old(nodes))
      ensures nodes == if old(nodes) == [] then [] else old(nodes)[1..]
    {
      node := head;
      if node != null {
        Remove(node, 0);
      }
    }
  }
}

/** File handles: the free and the open list of the file library. */
module FileHandles {
  import opened Sequences
  import opened LinkedLists

  /** The open and the free list as the program uses them */
  datatype Pool<H> = Pool(open: seq<H>, free: seq<H>)

  datatype Request<H> = Allocate | Release(handle: H)

  /** What a request does to the two lists; only open handles are released. */
  ghost function After<H>(p: Pool<H>, r: Request<H>): Pool<H>
    requires r.Release? ==> r.handle in p.open
  {
    match r
    case Allocate =>
      if p.free == [] then p else Pool(p.open + [p.free[0]], p.free[1..])
    case Release(h) =>
      Pool(Dropped(p.open, h), p.free + [h])
  }

  /** s without the first h */
  ghost function Dropped<H>(s: seq<H>, h: H): (t: seq<H>)
    requires h in s
    ensures multiset(s) == multiset(t) + multiset{h}
  {
    if s[0] == h then
      assert s == [h] + s[1..];
      s[1..]
    else
      assert s == [s[0]] + s[1..];
      [s[0]] + Dropped(s[1..], h)
  }

  ghost predicate Legal<H>(p: Pool<H>, rs: seq<Request<H>>)
    decreases |rs|
  {
    rs == [] || ((rs[0].Release? ==> rs[0].handle in p.open) && Legal(After(p, rs[0]), rs[1..]))
  }

  ghost function AfterAll<H>(p: Pool<H>, rs: seq<Request<H>>): Pool<H>
    requires Legal(p, rs)
    decreases |rs|
  {
    if rs == [] then p else AfterAll(After(p, rs[0]), rs[1..])
  }

  ghost function Handles<H>(p: Pool<H>): multiset<H> {
    multiset(p.open) + multiset(p.free)
  }

  lemma AfterKeepsHandles<H>(p: Pool<H>, r: Request<H>)
    requires r.Release? ==> r.handle in p.open
    ensures Handles(After(p, r)) == Handles(p)
  {
    if r.Allocate? && p.free != [] {
      assert p.free == [p.free[0]] + p.free[1..];
    }
  }

  /** Whatever is requested, every handle stays in exactly one place. */
  lemma {:induction false} RunKeepsHandles<H>(p: Pool<H>, rs: seq<Request<H>>)
    requires Legal(p, rs)
    ensures Handles(AfterAll(p, rs)) == Handles(p)
    decreases |rs|
  {
    if rs != [] {
      AfterKeepsHandles(p, rs[0]);
      RunKeepsHandles(After(p, rs[0]), rs[1..]);
    }
  }

  /** A released handle is handed out again only after all that were free before it. */
  lemma {:induction false} OldestFirst<H>(p: Pool<H>, n: nat)
    requires n <= |p.free|
    ensures var rs := seq(n, i => Request<H>.Allocate);
      Legal(p, rs) && AfterAll(p, rs) == Pool(p.open + p.free[..n], p.free[n..])
    decreases n
  {
    var rs := seq(n, i => Request<H>.Allocate);
    if n > 0 {
      var p' := After(p, Allocate);
      OldestFirst(p', n - 1);
      assert rs[1..] == seq(n - 1, i => Request<H>.Allocate);
      assert p'.open + p'.free[..n - 1] == p.open + p.free[..n];
      assert p'.free[n - 1..] == p.free[n..];
    } else {
      assert p.open + p.free[..0] == p.open;
    }
  }

  /** Every file is in one of the two lists, and in it once. */
  ghost predicate Splits(open: seq<FatNode>, free: seq<FatNode>, files: seq<FatNode>) {
    multiset(open) + multiset(free) == multiset(files)
  }

  lemma Partition(open: seq<FatNode>, free: seq<FatNode>, files: seq<FatNode>)
    requires Distinct(files) && Splits(open, free, files)
    ensures forall i :: 0 <= i < |open| ==> open[i] !in free && open[i] in files
    ensures forall i :: 0 <= i < |free| ==> free[i] !in open && free[i] in files
    ensures free == [] <==> multiset(open) == multiset(files)
  {
    forall n | n in open || n in free
      ensures !(n in open && n in free) && n in files
    {
      DistinctCount(files, n);
      assert n in multiset(open) + multiset(free);
    }
    assert free != [] ==> free[0] in multiset(free);
  }

  lemma {:induction false} DroppedIs(s: seq<FatNode>, i: nat)
    requires Distinct(s) && i < |s|
    ensures Dropped(s, s[i]) == Removed(s, i)
  {
    hide Dropped, Distinct;
    if i == 0 {
      DroppedHead(s);
    } else {
      DroppedNext(s, i);
      DroppedIs(s[1..], i - 1);
      RemovedNext(s, i);
    }
  }

  lemma DroppedHead(s: seq<FatNode>)
    requires s != []
    ensures Dropped(s, s[0]) == Removed(s, 0)
  {
  }

  lemma DroppedNext(s: seq<FatNode>, i: nat)
    requires Distinct(s) && 0 < i < |s|
    ensures Distinct(s[1..]) && s[1..][i - 1] == s[i] && s[i] in s[1..]
    ensures Dropped(s, s[i]) == [s[0]] + Dropped(s[1..], s[i])
  {
    assert s[1..][i - 1] == s[i];
  }

  lemma RemovedNext(s: seq<FatNode>, i: nat)
    requires 0 < i < |s|
    ensures Removed(s, i) == [s[0]] + Removed(s[1..], i - 1)
  {
  }

  lemma MovedFirst(open: seq<FatNode>, free: seq<FatNode>, files: seq<FatNode>)
    requires Splits(open, free, files)
    ensures free != [] ==> Splits(open + [free[0]], free[1..], files)
  {
    assert free != [] ==> free == [free[0]] + free[1..];
  }

  lemma MovedBack(open: seq<FatNode>, free: seq<FatNode>, files: seq<FatNode>, i: nat)
    requires Distinct(open) && i < |open| && Splits(open, free, files)
    ensures After(Pool(open, free), Release(open[i])) == Pool(Removed(open, i), free + [open[i]])
    ensures Splits(Removed(open, i), free + [open[i]], files)
    ensures Distinct(files) ==> open[i] !in free
  {
    DroppedIs(open, i);
    if Distinct(files) {
      Partition(open, free, files);
    }
  }

  lemma InFree(free: seq<FatNode>, n: FatNode)
    ensures (free + [n])[|free|] == n
    ensures forall i :: 0 <= i < |free| ==> (free + [n])[i] == free[i]
  {
  }

  lemma ListIsDistinct(l: FatList)
    requires l.Valid()
    ensures Distinct(l.nodes)
  {
  }

  class HandleTable {
    const files: seq<FatNode>
    const openList: FatList
    const freeList: FatList
    ghost const nodes: set<FatNode>

    /** Two well-formed lists that between them hold every handle once */
    ghost predicate Valid()
      reads openList, freeList, openList.nodes, freeList.nodes
    {
      && openList != freeList && openList.Valid() && freeList.Valid()
      && Distinct(files) && (forall i :: 0 <= i < |files| ==> files[i] in nodes)
      && Splits(openList.nodes, freeList.nodes, files)
    }

    ghost function State(): Pool<FatNode>
      reads openList, freeList
    {
      Pool(openList.nodes, freeList.nodes)
    }

    /** fl_init: all handles free, none open. */
    constructor (files: seq<FatNode>)
      requires Distinct(files)
      modifies files
      ensures this.files == files && Valid() && State() == Pool([], files)
      ensures fresh(openList) && fresh(freeList)
    {
      this.files := files;
      nodes := set n | n in files;
      openList := new FatList.Init();
      freeList := new FatList.Init();
      new;
      for i := 0 to |files|
        invariant openList.Valid() && freeList.Valid() && openList.nodes == [] && freeList.nodes == files[..i]
        invariant fresh(openList) && fresh(freeList) && openList != freeList
      {
        freeList.InsertLast(files[i]);
        assert files[..i + 1] == files[..i] + [files[i]];
      }
      assert files[..|files|] == files;
    }

    method Allocate() returns (handle: FatNode?)
      requires Valid()
      modifies openList, freeList, nodes
      ensures Valid() && State() == After(old(State()), Request.Allocate)
      ensures handle == First(old(freeList.nodes))
      ensures handle == null <==> multiset(old(openList.nodes)) == multiset(files)
    {
      hide Distinct, Splits, Removed, Dropped, FatList.Valid, Linked;
      Partition(openList.nodes, freeList.nodes, files);
      MovedFirst(openList.nodes, freeList.nodes, files);
      handle := freeList.PopHead();
      if handle != null {
        Partition(openList.nodes + [handle], freeList.nodes, files);
        openList.InsertLast(handle);
      }
    }

    /** The first half of _free_file: out of the open list, in none for the moment */
    method Unlink(file: FatNode, ghost i: nat)
      requires Valid() && i < |openList.nodes| && openList.nodes[i] == file
      modifies openList, nodes
      ensures openList.Valid() && freeList.Valid() && freeList.nodes == old(freeList.nodes)
      ensures openList.nodes == Removed(old(openList.nodes), i)
    {
      hide Distinct, Splits, Removed, FatList.Valid, Linked;
      Partition(openList.nodes, freeList.nodes, files);
      openList.Remove(file, i);
    }

    method Free(file: FatNode, ghost i: nat)
      requires Valid() && i < |openList.nodes| && openList.nodes[i] == file
      modifies openList, freeList, nodes
      ensures Valid() && State() == After(old(State()), Release(file))
    {
      hide Distinct, Splits, Removed, After, FatList.Valid, Linked;
      ListIsDistinct(openList);
      MovedBack(openList.nodes, freeList.nodes, files, i);
      Unlink(file, i);
      Partition(openList.nodes, freeList.nodes + [file], files);
      InFree(freeList.nodes, file);
      freeList.InsertLast(file);
    }

    /** Any sequence of allocations and releases of open handles. */
    method Run(requests: seq<Request<FatNode>>)
      requires Valid() && Legal(State(), requests)
      modifies openList, freeList, nodes
      ensures Valid() && State() == AfterAll(old(State()), requests)
    {
      for i := 0 to |requests|
        invariant Valid() && Legal(State(), requests[i..])
        invariant AfterAll(State(), requests[i..]) == AfterAll(old(State()), requests)
      {
        assert requests[i..][0] == requests[i] && requests[i..][1..] == requests[i + 1..];
        match requests[i]
        case Allocate =>
          var handle := Allocate();
        case Release(file) =>
          ghost var j :| 0 <= j < |openList.nodes| && openList.nodes[j] == file;
          Free(file, j);
      }
    }
  }
}
