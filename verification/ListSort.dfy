/** The linked-list routines of CoreMark on a heap of nodes whose pointers are rewritten in place. */
module ListSort {
  import opened Sequences
  import opened Mergesort

  class Node<T> {
    var next: Node?<T>
    var info: T

    constructor (info: T)
      ensures this.info == info && next == null
    {
      this.info := info;
      next := null;
    }
  }

  /** Each node points to the next one; where the last one points is left open. */
  ghost predicate Linked<T>(s: seq<Node<T>>)
    reads s
  {
    forall i, j :: 0 <= i && j == i + 1 && j < |s| ==> s[i].next == s[j]
  }

  ghost function First<T>(s: seq<Node<T>>): Node?<T> {
    if s == [] then null else s[0]
  }

  /** head leads through exactly the nodes s and ends in null. */
  ghost predicate IsList<T>(head: Node?<T>, s: seq<Node<T>>)
    reads s
  {
    head == First(s) && Distinct(s) && Linked(s) && (s != [] ==> s[|s| - 1].next == null)
  }

  ghost predicate Apart<T>(s: seq<Node<T>>, t: seq<Node<T>>) {
    forall i, j :: 0 <= i < |s| && 0 <= j < |t| ==> s[i] != t[j]
  }

  /** A chain whose last node ends the list */
  ghost predicate Ends<T>(s: seq<Node<T>>)
    reads s
  {
    s != [] ==> s[|s| - 1].next == null
  }

  ghost function Last<T>(s: seq<Node<T>>): Node?<T> {
    if s == [] then null else s[|s| - 1]
  }

  /**
   * What the merge loop works on: out is done, ps is left of the first run, qs is the second run
   * and all that follows.
   */
  ghost predicate Merging<T>(out: seq<Node<T>>, ps: seq<Node<T>>, qs: seq<Node<T>>)
    reads out, ps, qs
  {
    && Distinct(out) && Distinct(ps) && Distinct(qs)
    && Apart(out, ps) && Apart(out, qs) && Apart(ps, qs)
    && Linked(out) && Linked(ps) && Linked(qs) && Ends(qs)
  }

  /** tail->next = e, or list = e while there is no tail */
  method Append<T>(list: Node?<T>, tail: Node?<T>, e: Node<T>, ghost all: set<Node<T>>,
                   ghost out: seq<Node<T>>, ghost ps: seq<Node<T>>, ghost qs: seq<Node<T>>)
    returns (list': Node?<T>)
    requires Merging(out, ps, qs) && Apart([e], out) && Apart([e], ps) && Apart([e], qs)
    requires list == First(out) && tail == Last(out) && (tail != null ==> tail in all)
    modifies all`next
    ensures Merging(out + [e], ps, qs) && list' == First(out + [e])
  {
    list' := list;
    if tail != null {
      tail.next := e;
    } else {
      list' := e;
    }
    assert Linked(out);
  }

  ghost predicate Within<T>(s: seq<Node<T>>, all: set<Node<T>>) {
    forall i :: 0 <= i < |s| ==> s[i] in all
  }

  lemma FirstIs<T>(s: seq<Node<T>>)
    ensures First(s) == null <==> s == []
    ensures s != [] ==> First(s) == s[0]
  {
  }

  /** The first node of p is appended; what follows it has been noted before. */
  method AppendP<T>(list: Node?<T>, tail: Node?<T>, e: Node<T>, ghost all: set<Node<T>>,
                    ghost out: seq<Node<T>>, ghost ps: seq<Node<T>>, ghost qs: seq<Node<T>>)
    returns (list': Node?<T>, next: Node?<T>)
    requires Merging(out, ps, qs) && ps != [] && e == ps[0] && Within(out, all)
    requires list == First(out) && tail == Last(out)
    modifies all`next
    ensures Merging(out + [e], ps[1..], qs) && list' == First(out + [e]) && Last(out + [e]) == e
    ensures |ps| > 1 ==> next == ps[1]
  {
    PopP(out, ps, qs);
    next := e.next;
    list' := Append(list, tail, e, all, out, ps[1..], qs);
  }

  /** The first node of q is appended. */
  method AppendQ<T>(list: Node?<T>, tail: Node?<T>, e: Node<T>, ghost all: set<Node<T>>,
                    ghost out: seq<Node<T>>, ghost ps: seq<Node<T>>, ghost qs: seq<Node<T>>)
    returns (list': Node?<T>, next: Node?<T>)
    requires Merging(out, ps, qs) && qs != [] && e == qs[0] && Within(out, all)
    requires list == First(out) && tail == Last(out)
    modifies all`next
    ensures Merging(out + [e], ps, qs[1..]) && list' == First(out + [e]) && Last(out + [e]) == e
    ensures next == First(qs[1..])
  {
    PopQ(out, ps, qs);
    next := e.next;
    list' := Append(list, tail, e, all, out, ps, qs[1..]);
  }

  /** What is still to come: the rest of the first run merged with at most qsize of the second. */
  ghost function Rest<N>(ps: seq<N>, qs: seq<N>, qsize: nat, k: N -> int): seq<N> {
    Merge(ps, qs[..Min(qsize, |qs|)], k)
  }

  /** What has been merged, and what is still to come. */
  ghost function Whole<N>(out: seq<N>, ps: seq<N>, qs: seq<N>, qsize: nat, k: N -> int): seq<N> {
    out + Rest(ps, qs, qsize, k)
  }

  /** What lies behind the second run. */
  ghost function Behind<N>(qs: seq<N>, qsize: nat): seq<N> {
    qs[Min(qsize, |qs|)..]
  }

  lemma TakeFromP<N>(out: seq<N>, ps: seq<N>, qs: seq<N>, qsize: nat, k: N -> int)
    requires ps != [] && (qsize == 0 || qs == [] || k(ps[0]) <= k(qs[0]))
    ensures Whole(out, ps, qs, qsize, k) == Whole(out + [ps[0]], ps[1..], qs, qsize, k)
  {
    if qsize == 0 || qs == [] {
      assert qs[..Min(qsize, |qs|)] == [];
      assert ps == [ps[0]] + ps[1..];
    }
  }

  lemma TakeFromQ<N>(out: seq<N>, ps: seq<N>, qs: seq<N>, qsize: nat, k: N -> int)
    requires qsize > 0 && qs != [] && (ps == [] || k(ps[0]) > k(qs[0]))
    ensures Whole(out, ps, qs, qsize, k) == Whole(out + [qs[0]], ps, qs[1..], qsize - 1, k)
    ensures Behind(qs, qsize) == Behind(qs[1..], qsize - 1)
  {
    var b := Min(qsize, |qs|);
    assert qs[..b][1..] == qs[1..][..b - 1];
    assert qs[..b] == [qs[0]] + qs[..b][1..];
  }

  lemma PopP<T>(out: seq<Node<T>>, ps: seq<Node<T>>, qs: seq<Node<T>>)
    requires Merging(out, ps, qs) && ps != []
    ensures Merging(out, ps[1..], qs)
    ensures Apart([ps[0]], out) && Apart([ps[0]], ps[1..]) && Apart([ps[0]], qs)
    ensures |ps| > 1 ==> ps[0].next == ps[1]
  {
  }

  lemma PopQ<T>(out: seq<Node<T>>, ps: seq<Node<T>>, qs: seq<Node<T>>)
    requires Merging(out, ps, qs) && qs != []
    ensures Merging(out, ps, qs[1..])
    ensures Apart([qs[0]], out) && Apart([qs[0]], ps) && Apart([qs[0]], qs[1..])
    ensures qs[0].next == First(qs[1..])
  {
  }

  /** The merge loop: everything from the two runs, in order of the keys, ties from the first. */
  method MergeRuns<T>(list: Node?<T>, tail: Node?<T>, p: Node?<T>, q: Node?<T>, psize: nat, qsize: nat,
                      key: T -> int, ghost k: Node<T> -> int, ghost all: set<Node<T>>,
                      ghost out: seq<Node<T>>, ghost ps: seq<Node<T>>, ghost qs: seq<Node<T>>)
    returns (list': Node?<T>, tail': Node?<T>, q': Node?<T>, ghost out': seq<Node<T>>, ghost qs': seq<Node<T>>)
    requires Merging(out, ps, qs)
    requires Within(out, all) && Within(ps, all) && Within(qs, all)
    requires forall n :: n in all ==> k(n) == key(n.info)
    requires list == First(out) && tail == Last(out) && q == First(qs)
    requires psize == |ps| && (ps != [] ==> p == ps[0])
    modifies all`next
    ensures out' == out + Rest(ps, qs, qsize, k) && qs' == qs[Min(qsize, |qs|)..]
    ensures Merging(out', [], qs') && Within(out', all) && Within(qs', all)
    ensures list' == First(out') && tail' == Last(out') && q' == First(qs')
  {
    hide Rest, Whole, Behind, Merge, Merging, Apart, First, Last;
    MergeStarts(out, ps, qs, qsize, k);
    list', tail', q', out', qs' := list, tail, q, out, qs;
    var p', psize', qsize' := p, psize, qsize;
    ghost var ps' := ps;
    FirstIs(qs');
    while psize' > 0 || (qsize' > 0 && q' != null)
      invariant Merging(out', ps', qs')
      invariant Within(out', all) && Within(ps', all) && Within(qs', all)
      invariant list' == First(out') && tail' == Last(out') && q' == First(qs')
      invariant q' == null <==> qs' == []
      invariant q' != null ==> q' == qs'[0]
      invariant psize' == |ps'| && (ps' != [] ==> p' == ps'[0])
      invariant Whole(out', ps', qs', qsize', k) == Whole(out, ps, qs, qsize, k)
      invariant Behind(qs', qsize') == Behind(qs, qsize)
      decreases |ps'| + |qs'|
    {
      var fromP;
      if psize' == 0 {
        fromP := false;
      } else if qsize' == 0 || q' == null {
        fromP := true;
      } else {
        fromP := key(p'.info) <= key(q'.info);
      }
      if fromP {
        TakeFromP(out', ps', qs', qsize', k);
        var e := p';
        list', p' := AppendP(list', tail', e, all, out', ps', qs');
        psize', tail' := psize' - 1, e;
        out', ps' := out' + [e], ps'[1..];
      } else {
        TakeFromQ(out', ps', qs', qsize', k);
        var e := q';
        list', q' := AppendQ(list', tail', e, all, out', ps', qs');
        qsize', tail' := qsize' - 1, e;
        out', qs' := out' + [e], qs'[1..];
        FirstIs(qs');
      }
    }
    MergeEnds(out', qs', qsize', k);
  }

  lemma MergeStarts<N>(out: seq<N>, ps: seq<N>, qs: seq<N>, qsize: nat, k: N -> int)
    ensures Whole(out, ps, qs, qsize, k) == out + Rest(ps, qs, qsize, k)
    ensures Behind(qs, qsize) == qs[Min(qsize, |qs|)..]
  {
  }

  lemma MergeEnds<N>(out: seq<N>, qs: seq<N>, qsize: nat, k: N -> int)
    requires qsize == 0 || qs == []
    ensures Whole(out, [], qs, qsize, k) == out && Behind(qs, qsize) == qs
  {
  }

  /** Steps insize places along from p, or off the end. */
  method Step<T>(p: Node<T>, insize: nat, ghost rest: seq<Node<T>>) returns (q: Node?<T>, psize: nat)
    requires insize > 0 && rest != [] && p == rest[0] && Linked(rest) && Ends(rest)
    ensures psize == Min(insize, |rest|) && q == First(rest[psize..])
  {
    q, psize := p, 0;
    var i := 0;
    while i < insize
      invariant psize == i <= insize && i < |rest| && q == rest[i]
    {
      assert i + 1 < |rest| ==> rest[i].next == rest[i + 1];
      psize := psize + 1;
      q := q.next;
      if q == null {
        break;
      }
      i := i + 1;
    }
  }

  lemma SplitRun<T>(out: seq<Node<T>>, rest: seq<Node<T>>, p: nat, all: set<Node<T>>)
    requires Merging(out, [], rest) && p <= |rest| && Within(rest, all)
    ensures Merging(out, rest[..p], rest[p..]) && Within(rest[..p], all) && Within(rest[p..], all)
  {
    var qs := rest[p..];
    assert Linked(qs) by {
      forall i, j | 0 <= i && j == i + 1 && j < |qs|
        ensures qs[i].next == qs[j]
      {
        assert rest[p + i].next == rest[p + j];
      }
    }
    assert qs != [] ==> qs[|qs| - 1] == rest[|rest| - 1];
  }

  lemma PassStep<N>(out: seq<N>, rest: seq<N>, n: nat, k: N -> int)
    requires n > 0 && rest != []
    ensures var p := Min(n, |rest|); var q := Min(2 * n, |rest|);
      && rest[p..][Min(n, |rest| - p)..] == rest[q..]
      && out + Pass(rest, n, k) == (out + Rest(rest[..p], rest[p..], n, k)) + Pass(rest[q..], n, k)
  {
    var p, q := Min(n, |rest|), Min(2 * n, |rest|);
    assert rest[p..][..q - p] == rest[p..q];
    assert Rest(rest[..p], rest[p..], n, k) == Merge(rest[..p], rest[p..q], k);
    JoinThree(out, Merge(rest[..p], rest[p..q], k), Pass(rest[q..], n, k));
  }

  lemma JoinThree<N>(a: seq<N>, b: seq<N>, c: seq<N>)
    ensures a + (b + c) == (a + b) + c
  {
  }

  /** One pass over the list, and the number of merges it took. */
  method OnePass<T>(list: Node<T>, insize: nat, key: T -> int, ghost k: Node<T> -> int,
                    ghost all: set<Node<T>>, ghost nodes: seq<Node<T>>)
    returns (list': Node<T>, nmerges: nat, ghost nodes': seq<Node<T>>)
    requires insize > 0 && IsList(list, nodes) && Within(nodes, all)
    requires forall n :: n in all ==> k(n) == key(n.info)
    modifies all`next
    ensures nodes' == Pass(nodes, insize, k) && IsList(list', nodes') && Within(nodes', all)
    ensures nmerges <= 1 <==> |nodes| <= 2 * insize
  {
    hide Rest, Pass, Merging, Linked, Ends, Distinct, IsList;
    NotEmpty(list, nodes);
    var p: Node?<T>, head: Node?<T>, tail: Node?<T> := list, null, null;
    nmerges, nodes' := 0, [];
    ghost var rest := nodes;
    StartPass(nodes);
    while p != null
      invariant p == First(rest) && Merging(nodes', [], rest) && Within(nodes', all) && Within(rest, all)
      invariant head == First(nodes') && tail == Last(nodes')
      invariant nodes' + Pass(rest, insize, k) == Pass(nodes, insize, k)
      invariant nmerges == 0 ==> rest == nodes
      invariant nmerges == 1 ==> |rest| == |nodes| - Min(2 * insize, |nodes|)
      invariant nmerges > 1 ==> |nodes| > 2 * insize
      decreases |rest|
    {
      nmerges := nmerges + 1;
      RestIsLinked(nodes', rest);
      var q, psize := Step(p, insize, rest);
      SplitRun(nodes', rest, psize, all);
      PassStep(nodes', rest, insize, k);
      head, tail, q, nodes', rest := MergeRuns(head, tail, p, q, psize, insize, key, k, all,
                                               nodes', rest[..psize], rest[psize..]);
      p := q;
    }
    EmptyPass<Node<T>>(insize, k);
    PassLength(nodes, insize, k);
    CloseList(tail, nodes', all);
    list' := head;
  }

  /** tail->next = NULL */
  method CloseList<T>(tail: Node<T>, ghost out: seq<Node<T>>, ghost all: set<Node<T>>)
    requires Merging(out, [], []) && tail == Last(out) && tail in all
    modifies all`next
    ensures out != [] && IsList(out[0], out)
  {
    tail.next := null;
  }

  lemma NotEmpty<T>(list: Node<T>, nodes: seq<Node<T>>)
    requires IsList(list, nodes)
    ensures nodes != [] && list == nodes[0]
  {
  }

  lemma StartPass<T>(nodes: seq<Node<T>>)
    requires nodes != [] && IsList(nodes[0], nodes)
    ensures Merging([], [], nodes)
  {
  }

  lemma RestIsLinked<T>(out: seq<Node<T>>, rest: seq<Node<T>>)
    requires Merging(out, [], rest)
    ensures Linked(rest) && Ends(rest)
  {
  }

  lemma EmptyPass<N>(n: nat, k: N -> int)
    requires n > 0
    ensures Pass([], n, k) == []
  {
  }

  lemma PassLength<N>(s: seq<N>, n: nat, k: N -> int)
    requires n > 0
    ensures |Pass(s, n, k)| == |s|
  {
  }

  /**
   * core_list_mergesort.  From any nonempty list of distinct nodes ending in null it makes one of
   * the same nodes, sorted by key and with equal keys in their old order; no info is touched.
   */
  method ListMergesort<T>(list: Node<T>, key: T -> int, ghost k: Node<T> -> int, ghost nodes: seq<Node<T>>)
    returns (list': Node<T>, ghost sorted: seq<Node<T>>)
    requires IsList(list, nodes) && forall n :: n in nodes ==> k(n) == key(n.info)
    modifies (set n | n in nodes)`next
    ensures IsList(list', sorted)
    ensures Sorted(sorted, k) && Stable(nodes, sorted, k)
    ensures forall n :: n in sorted <==> n in nodes
  {
    hide Sort, Pass, Sorted, Stable;
    ghost var all := set n | n in nodes;
    var insize := 1;
    list', sorted := list, nodes;
    MergesortCorrect(nodes, k);
    while true
      invariant insize > 0 && IsList(list', sorted) && Within(sorted, all) && |sorted| == |nodes|
      invariant Sort(sorted, insize, k) == Sort(nodes, 1, k)
      decreases |sorted| - insize
    {
      SortStep(sorted, insize, k);
      var nmerges;
      list', nmerges, sorted := OnePass(list', insize, key, k, all, sorted);
      if nmerges <= 1 {
        break;
      }
      insize := insize * 2;
    }
    StableSameMembers(nodes, sorted, k);
  }

  lemma SortStep<N>(s: seq<N>, n: nat, k: N -> int)
    requires n > 0
    ensures |Pass(s, n, k)| == |s|
    ensures Sort(s, n, k) == if |s| <= 2 * n then Pass(s, n, k) else Sort(Pass(s, n, k), 2 * n, k)
  {
  }

  // ----- reverse, remove and undo -----

  ghost function Reversed<N>(s: seq<N>): (r: seq<N>)
    ensures |r| == |s|
  {
    if s == [] then [] else Reversed(s[1..]) + [s[0]]
  }

  lemma {:induction false} ReversedAt<N>(s: seq<N>, i: nat)
    requires i < |s|
    ensures Reversed(s)[i] == s[|s| - 1 - i]
  {
    if i < |s| - 1 {
      ReversedAt(s[1..], i);
    }
  }

  lemma ReversedStep<N>(rest: seq<N>, done: seq<N>)
    requires rest != []
    ensures Reversed(rest) + done == Reversed(rest[1..]) + ([rest[0]] + done)
  {
  }

  /** rest[0] has been turned around: it now leads to what is already done. */
  lemma Turned<T>(done: seq<Node<T>>, rest: seq<Node<T>>)
    requires rest != [] && Merging(done, [], rest[1..]) && Ends(done)
    requires Apart([rest[0]], done) && Apart([rest[0]], rest[1..]) && rest[0].next == First(done)
    ensures Merging([rest[0]] + done, [], rest[1..]) && Ends([rest[0]] + done)
  {
  }

  /** One node is turned around. */
  method TurnOne<T>(p: Node<T>, head: Node?<T>, ghost done: seq<Node<T>>, ghost rest: seq<Node<T>>)
    returns (tmp: Node?<T>)
    requires Merging(done, [], rest) && Ends(done) && rest != [] && p == rest[0] && head == First(done)
    modifies p`next
    ensures Merging([p] + done, [], rest[1..]) && Ends([p] + done) && tmp == First(rest[1..])
  {
    PopQ(done, [], rest);
    tmp := p.next;
    p.next := head;
    Turned(done, rest);
  }

  lemma NothingDone<T>(list: Node?<T>, nodes: seq<Node<T>>)
    requires IsList(list, nodes)
    ensures Merging<T>([], [], nodes) && Ends<T>([]) && list == First(nodes)
    ensures Reversed(nodes) + [] == Reversed(nodes)
  {
  }

  lemma AllDone<T>(head: Node?<T>, done: seq<Node<T>>, nodes: seq<Node<T>>)
    requires Merging(done, [], []) && Ends(done) && head == First(done) && Reversed([]) + done == Reversed(nodes)
    ensures IsList(head, Reversed(nodes))
  {
    assert Reversed<Node<T>>([]) + done == done;
  }

  method Reverse<T>(list: Node?<T>, ghost nodes: seq<Node<T>>) returns (head: Node?<T>)
    requires IsList(list, nodes)
    modifies (set n | n in nodes)`next
    ensures IsList(head, Reversed(nodes))
  {
    hide Merging, Ends, Reversed, IsList;
    NothingDone(list, nodes);
    head := null;
    var p := list;
    ghost var done: seq<Node<T>>, rest := [], nodes;
    while p != null
      invariant head == First(done) && p == First(rest)
      invariant Merging(done, [], rest) && Ends(done)
      invariant Within(rest, set n | n in nodes)
      invariant Reversed(rest) + done == Reversed(nodes)
      decreases |rest|
    {
      ReversedStep(rest, done);
      var tmp := TurnOne(p, head, done, rest);
      head := p;
      p := tmp;
      done, rest := [rest[0]] + done, rest[1..];
    }
    AllDone(head, done, nodes);
  }

  /** core_list_remove: the next node is taken out, its info having changed places with item's. */
  method Remove<T>(item: Node<T>) returns (ret: Node<T>)
    requires item.next != null && item.next != item
    modifies item, item.next
    ensures ret == old(item.next) && ret.next == null && ret.info == old(item.info)
    ensures item.info == old(item.next.info) && item.next == old(item.next.next)
  {
    ret := item.next;
    var tmp := item.info;
    item.info := ret.info;
    ret.info := tmp;
    item.next := item.next.next;
    ret.next := null;
  }

  ghost function Infos<T>(s: seq<Node<T>>): (r: seq<T>)
    reads s
    ensures |r| == |s| && forall i :: 0 <= i < |s| ==> r[i] == s[i].info
  {
    if s == [] then [] else [s[0].info] + Infos(s[1..])
  }

  ghost function Without<N>(s: seq<N>, i: nat): seq<N>
    requires i < |s|
  {
    s[..i] + s[i + 1..]
  }

  lemma Bypassed<T>(nodes: seq<Node<T>>, i: nat)
    requires Distinct(nodes) && i + 1 < |nodes|
    requires forall j, h :: 0 <= j && h == j + 1 && h < |nodes| && j != i && j != i + 1 ==> nodes[j].next == nodes[h]
    requires nodes[i].next == First(nodes[i + 2..]) && (i + 2 < |nodes| ==> Ends(nodes))
    ensures IsList(nodes[0], Without(nodes, i + 1))
  {
    var t := Without(nodes, i + 1);
    forall j, h | 0 <= j && h == j + 1 && h < |t|
      ensures t[j].next == t[h]
    {
      if j > i {
        assert nodes[j + 1].next == nodes[h + 1];
      }
    }
  }

  lemma InfosWithout<T>(before: seq<T>, nodes: seq<Node<T>>, i: nat)
    requires i + 1 < |nodes| && |before| == |nodes| && nodes[i].info == before[i + 1]
    requires forall j :: 0 <= j < |nodes| && j != i && j != i + 1 ==> nodes[j].info == before[j]
    ensures Infos(Without(nodes, i + 1)) == Without(before, i)
  {
  }

  /** On a list: the node after item drops out of it, the info of item out of the sequence of infos. */
  method RemoveFromList<T>(item: Node<T>, ghost nodes: seq<Node<T>>, ghost i: nat) returns (ret: Node<T>)
    requires IsList(First(nodes), nodes) && i + 1 < |nodes| && item == nodes[i]
    modifies item, nodes[i + 1]
    ensures ret == nodes[i + 1] && ret.next == null && ret.info == old(item.info)
    ensures IsList(First(nodes), Without(nodes, i + 1))
    ensures Infos(Without(nodes, i + 1)) == old(Without(Infos(nodes), i))
  {
    hide Without, Infos;
    assert nodes[i].next == nodes[i + 1];
    assert i + 2 < |nodes| ==> nodes[i + 1].next == nodes[i + 2];
    ret := Remove(item);
    Bypassed(nodes, i);
    InfosWithout(old(Infos(nodes)), nodes, i);
  }

  method UndoRemove<T>(removed: Node<T>, modified: Node<T>) returns (ret: Node<T>)
    requires removed != modified
    modifies removed, modified
    ensures ret == removed
    ensures removed.info == old(modified.info) && modified.info == old(removed.info)
    ensures removed.next == old(modified.next) && modified.next == removed
  {
    var tmp := removed.info;
    removed.info := modified.info;
    modified.info := tmp;
    removed.next := modified.next;
    modified.next := removed;
    return removed;
  }

  /** Undoing a remove puts back every pointer and every info. */
  method RemoveAndUndo<T>(item: Node<T>, ghost nodes: seq<Node<T>>, ghost i: nat)
    requires IsList(First(nodes), nodes) && i + 1 < |nodes| && item == nodes[i]
    modifies item, nodes[i + 1]
    ensures forall n :: n in nodes ==> n.next == old(n.next) && n.info == old(n.info)
  {
    assert item.next == nodes[i + 1];
    var removed := Remove(item);
    var back := UndoRemove(removed, item);
  }
}
