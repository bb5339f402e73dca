/**
 * A doubly-linked list whose nodes are individually allocated objects.
 * The list owns every node; allocating a node adds it to the list's footprint
 * `Repr`, and releasing it (the Rust library's `Box::from_raw`) takes it out again.
 */
module LinkedLists {
  import opened Sequences

  datatype Option<T> = None | Some(value: T)

  /** One allocated record: the element and the two neighbour links. */
  class Node<T> {
    var prev: Node?<T>
    var next: Node?<T>
    var elem: T

    constructor (prev: Node?<T>, next: Node?<T>, elem: T)
      ensures this.prev == prev && this.next == next && this.elem == elem
    {
      this.prev := prev;
      this.next := next;
      this.elem := elem;
    }
  }

  /** The set of objects held in a sequence of nodes. */
  ghost function Elements<T>(ns: seq<Node<T>>): set<object>
  {
    set n: Node<T> | n in ns
  }

  /** No node occurs twice in `ns`. */
  ghost predicate Distinct<T>(ns: seq<Node<T>>)
  {
    forall i, j :: 0 <= i < j < |ns| ==> ns[i] != ns[j]
  }

  /**
   * From position `k` on, each node of `ns` links forward to its successor, and
   * each node after position `k` links back to its predecessor.
   */
  ghost predicate LinkedFrom<T>(ns: seq<Node<T>>, k: int)
    reads ns`next, ns`prev
  {
    && (forall i {:trigger ns[i].next} :: 0 <= k <= i < |ns| - 1 ==> ns[i].next == ns[i + 1])
    && (forall i {:trigger ns[i].prev} :: 0 <= k < i < |ns| ==> ns[i].prev == ns[i - 1])
  }

  /** Each node of `ns` links forward to its successor, which links back to it. */
  ghost predicate Chained<T>(ns: seq<Node<T>>)
    reads ns`next, ns`prev
  {
    LinkedFrom(ns, 0)
  }

  /**
   * `ns` are distinct nodes holding `cs` in order, each linked to its neighbours;
   * `first` and `last` are the end nodes (absent together when `ns` is empty), and
   * the first has no `prev` and the last no `next`.
   */
  ghost predicate WellLinked<T>(ns: seq<Node<T>>, cs: seq<T>, first: Node?<T>, last: Node?<T>)
    reads ns
  {
    && |ns| == |cs| && Chained(ns)
    && (forall i {:trigger ns[i].elem} :: 0 <= i < |ns| ==> ns[i].elem == cs[i])
    && (ns == [] ==> first == null && last == null)
    && (ns != [] ==> first == ns[0] && last == ns[|ns| - 1] && first.prev == null && last.next == null)
  }

  /** Two positions of a chain that ends in `null` whose nodes agree, agree from there to the end; so they cannot differ. */
  lemma {:induction false} NoRepeatFrom<T>(ns: seq<Node<T>>, i: int, j: int)
    requires Chained(ns) && ns != [] && ns[|ns| - 1].next == null
    requires 0 <= i < j < |ns|
    ensures ns[i] != ns[j]
    decreases |ns| - j
  {
    assert ns[i].next == ns[i + 1];
    if j < |ns| - 1 {
      assert ns[j].next == ns[j + 1];
      NoRepeatFrom(ns, i + 1, j + 1);
    }
  }

  /** A forward chain whose last node has no successor visits no node twice. */
  lemma ChainDistinct<T>(ns: seq<Node<T>>)
    requires Chained(ns) && (ns != [] ==> ns[|ns| - 1].next == null)
    ensures Distinct(ns)
  {
    forall i, j | 0 <= i < j < |ns|
      ensures ns[i] != ns[j]
    {
      NoRepeatFrom(ns, i, j);
    }
  }

  /**
   * The survivors found after visiting the first `k` nodes of `ns` (holding `cs`):
   * `kept` are the nodes at the increasing positions `idx`, each rejected by `f`,
   * holding `keptElems`.
   */
  ghost predicate SurvivorsSoFar<T>(ns: seq<Node<T>>, cs: seq<T>, f: T -> bool, k: int, kept: seq<Node<T>>,
                                    idx: seq<int>, keptElems: seq<T>)
    reads kept`elem
  {
    && 0 <= k <= |cs|
    && keptElems == Surviving(cs[..k], f)
    && |kept| == |keptElems| == |idx|
    && (forall i :: 0 <= i < |kept| ==>
          0 <= idx[i] < k && idx[i] < |ns| && kept[i] == ns[idx[i]] && !f(cs[idx[i]]) && kept[i].elem == keptElems[i])
    && (forall i, j :: 0 <= i < j < |idx| ==> idx[i] < idx[j])
  }

  /**
   * The survivors are linked to each other, the first has no `prev`, and the last
   * (if any) links forward to the cursor `cur`.
   */
  ghost predicate SurvivorsLinked<T>(kept: seq<Node<T>>, first: Node?<T>, last: Node?<T>, cur: Node?<T>)
    reads kept`next, kept`prev
  {
    && first == (if kept == [] then null else kept[0])
    && last == (if kept == [] then null else kept[|kept| - 1])
    && Chained(kept)
    && (kept != [] ==> kept[0].prev == null && last.next == cur)
  }

  /**
   * The nodes from position `k` on are not yet visited: `cur` is the k-th, it links
   * back to the last survivor, and the rest keep their original links.
   */
  ghost predicate UnvisitedLinks<T>(ns: seq<Node<T>>, k: int, last: Node?<T>, cur: Node?<T>)
    requires 0 <= k <= |ns|
    reads ns`next, ns`prev
  {
    && cur == (if k < |ns| then ns[k] else null)
    && (k < |ns| ==> ns[k].prev == last && ns[|ns| - 1].next == null)
    && LinkedFrom(ns, k)
  }

  /** The unvisited nodes still hold their original elements. */
  ghost predicate UnvisitedElems<T>(ns: seq<Node<T>>, cs: seq<T>, k: int)
    requires 0 <= k <= |ns| == |cs|
    reads ns`elem
  {
    forall j :: k <= j < |ns| ==> ns[j].elem == cs[j]
  }

  /** The state of remove_if's sweep over the nodes `ns` after it has visited the first `k` of them. */
  ghost predicate Swept<T>(ns: seq<Node<T>>, cs: seq<T>, f: T -> bool, k: int, kept: seq<Node<T>>, idx: seq<int>,
                           keptElems: seq<T>, first: Node?<T>, last: Node?<T>, cur: Node?<T>)
    reads ns, kept
  {
    && |ns| == |cs| && Distinct(ns)
    && SurvivorsSoFar(ns, cs, f, k, kept, idx, keptElems)
    && SurvivorsLinked(kept, first, last, cur)
    && UnvisitedLinks(ns, k, last, cur)
    && UnvisitedElems(ns, cs, k)
  }

  /** The four parts of the sweep state, over the same nodes, make up the whole. */
  lemma SweptIntro<T>(ns: seq<Node<T>>, cs: seq<T>, f: T -> bool, k: int, kept: seq<Node<T>>, idx: seq<int>,
                      keptElems: seq<T>, first: Node?<T>, last: Node?<T>, cur: Node?<T>)
    requires |ns| == |cs| && Distinct(ns)
    requires SurvivorsSoFar(ns, cs, f, k, kept, idx, keptElems)
    requires SurvivorsLinked(kept, first, last, cur)
    requires UnvisitedLinks(ns, k, last, cur)
    requires UnvisitedElems(ns, cs, k)
    ensures Swept(ns, cs, f, k, kept, idx, keptElems, first, last, cur)
  {
  }

  /** A node that `f` rejects joins the survivors at the end, at its own position. */
  lemma KeepSoFar<T>(ns: seq<Node<T>>, cs: seq<T>, f: T -> bool, k: int, kept: seq<Node<T>>, idx: seq<int>,
                     keptElems: seq<T>, cur: Node<T>)
    requires SurvivorsSoFar(ns, cs, f, k, kept, idx, keptElems)
    requires k < |cs| && k < |ns| && cur == ns[k] && cur.elem == cs[k] && !f(cs[k])
    ensures SurvivorsSoFar(ns, cs, f, k + 1, kept + [cur], idx + [k], keptElems + [cur.elem])
  {
    assert cs[..k + 1] == cs[..k] + [cs[k]];
    SurvivingAppend(cs[..k], [cs[k]], f);
  }

  /** The new last survivor is already linked back to the old one and forward to its successor. */
  lemma KeepLinked<T>(kept: seq<Node<T>>, first: Node?<T>, last: Node?<T>, cur: Node<T>)
    requires SurvivorsLinked(kept, first, last, cur)
    requires cur.prev == last
    ensures SurvivorsLinked(kept + [cur], if first == null then cur else first, cur, cur.next)
  {
  }

  /** Moving the cursor one node on. */
  lemma Advance<T>(ns: seq<Node<T>>, cs: seq<T>, k: int, last: Node?<T>, cur: Node<T>)
    requires 0 <= k <= |ns| == |cs|
    requires UnvisitedLinks(ns, k, last, cur)
    requires UnvisitedElems(ns, cs, k)
    ensures k < |ns|
    ensures UnvisitedLinks(ns, k + 1, cur, cur.next)
    ensures UnvisitedElems(ns, cs, k + 1)
    ensures cur.prev == last && cur.elem == cs[k]
  {
  }

  /** Visiting a node that `f` rejects: it joins the survivors and becomes the last one. */
  lemma KeepStep<T>(ns: seq<Node<T>>, cs: seq<T>, f: T -> bool, k: int, kept: seq<Node<T>>, idx: seq<int>,
                    keptElems: seq<T>, first: Node?<T>, last: Node?<T>, cur: Node?<T>)
    requires Swept(ns, cs, f, k, kept, idx, keptElems, first, last, cur)
    requires cur != null && !f(cur.elem)
    ensures Swept(ns, cs, f, k + 1, kept + [cur], idx + [k], keptElems + [cur.elem],
                  if first == null then cur else first, cur, cur.next)
  {
    Advance(ns, cs, k, last, cur);
    KeepSoFar(ns, cs, f, k, kept, idx, keptElems, cur);
    KeepLinked(kept, first, last, cur);
    SweptIntro(ns, cs, f, k + 1, kept + [cur], idx + [k], keptElems + [cur.elem],
               if first == null then cur else first, cur, cur.next);
  }

  /** Passing over a position whose element `f` selects leaves the survivors as they are. */
  lemma SkipStep<T>(ns: seq<Node<T>>, cs: seq<T>, f: T -> bool, k: int, kept: seq<Node<T>>, idx: seq<int>,
                    keptElems: seq<T>)
    requires SurvivorsSoFar(ns, cs, f, k, kept, idx, keptElems)
    requires k < |cs| && f(cs[k])
    ensures SurvivorsSoFar(ns, cs, f, k + 1, kept, idx, keptElems)
  {
    assert cs[..k + 1] == cs[..k] + [cs[k]];
    SurvivingAppend(cs[..k], [cs[k]], f);
  }

  /** Before the sweep, nothing is visited and the cursor is the head. */
  lemma SweepStart<T>(ns: seq<Node<T>>, cs: seq<T>, f: T -> bool, head: Node?<T>, tail: Node?<T>)
    requires WellLinked(ns, cs, head, tail)
    ensures Swept(ns, cs, f, 0, [], [], [], null, null, head)
    ensures Live(ns, 0, []) == Elements(ns) && [] == SurvivingBy(ns[..0], cs[..0], f)
  {
    assert ns[0..] == ns;
    ChainDistinct(ns);
    assert cs[..0] == [] && ns[..0] == [];
  }

  /**
   * At the end of the sweep every node is visited, and the survivors form a
   * well-linked list of exactly the nodes whose element `f` rejects, in order.
   */
  lemma SweepDone<T>(ns: seq<Node<T>>, cs: seq<T>, f: T -> bool, k: int, kept: seq<Node<T>>,
                     idx: seq<int>, keptElems: seq<T>, first: Node?<T>, last: Node?<T>, live: set<object>)
    requires Swept(ns, cs, f, k, kept, idx, keptElems, first, last, null)
    requires live == Live(ns, k, kept) && kept == SurvivingBy(ns[..k], cs[..k], f)
    ensures WellLinked(kept, keptElems, first, last)
    ensures kept == SurvivingBy(ns, cs, f) && keptElems == Surviving(cs, f)
    ensures live == Elements(kept) && live <= Elements(ns)
    ensures forall j :: 0 <= j < |ns| && f(cs[j]) ==> ns[j] !in live
  {
    assert k == |ns|;
    assert cs[..k] == cs && ns[..k] == ns && ns[k..] == [];
  }

  /**
   * The nodes still allocated after the sweep has visited the first `k` nodes:
   * the survivors so far and the unvisited nodes. The visited nodes that `f`
   * selected have been released.
   */
  ghost function Live<T>(ns: seq<Node<T>>, k: int, kept: seq<Node<T>>): set<object>
    requires 0 <= k <= |ns|
  {
    Elements(kept) + Elements(ns[k..])
  }

  /** Releasing the visited node takes exactly it out of the live nodes: it is no survivor and no later node. */
  lemma ReleaseStep<T>(ns: seq<Node<T>>, cs: seq<T>, f: T -> bool, k: int, kept: seq<Node<T>>, idx: seq<int>,
                       keptElems: seq<T>)
    requires |ns| == |cs| && Distinct(ns) && SurvivorsSoFar(ns, cs, f, k, kept, idx, keptElems) && k < |ns|
    ensures ns[k] in Live(ns, k, kept) && Live(ns, k, kept) - {ns[k]} == Live(ns, k + 1, kept)
  {
    assert ns[k..] == [ns[k]] + ns[k + 1..];
    assert ns[k] !in Elements(kept) by {
      forall i | 0 <= i < |kept| ensures kept[i] != ns[k] {
        assert kept[i] == ns[idx[i]];
      }
    }
    assert ns[k] !in ns[k + 1..];
  }

  /** Visiting one more node extends the surviving nodes by it exactly when `f` rejects its element. */
  lemma SurvivingNodesStep<T>(ns: seq<Node<T>>, cs: seq<T>, f: T -> bool, k: int)
    requires 0 <= k < |ns| == |cs|
    ensures SurvivingBy(ns[..k + 1], cs[..k + 1], f) == SurvivingBy(ns[..k], cs[..k], f) + (if f(cs[k]) then [] else [ns[k]])
  {
    assert ns[..k + 1] == ns[..k] + [ns[k]] && cs[..k + 1] == cs[..k] + [cs[k]];
    SurvivingByAppend(ns[..k], [ns[k]], cs[..k], [cs[k]], f);
  }

  /** Keeping the visited node moves it from the unvisited nodes to the survivors. */
  lemma KeepLive<T>(ns: seq<Node<T>>, k: int, kept: seq<Node<T>>)
    requires 0 <= k < |ns|
    ensures Live(ns, k + 1, kept + [ns[k]]) == Live(ns, k, kept)
  {
    assert ns[k..] == [ns[k]] + ns[k + 1..];
  }

  /**
   * The nodes that unlinking the cursor writes to are apart from the nodes whose
   * links must stay as they are: the last survivor is no other survivor and no
   * unvisited node, and the cursor's successor is no survivor and no later node.
   */
  lemma Separated<T>(ns: seq<Node<T>>, cs: seq<T>, f: T -> bool, k: int, kept: seq<Node<T>>, idx: seq<int>,
                     keptElems: seq<T>, first: Node?<T>, last: Node?<T>, cur: Node<T>)
    requires Swept(ns, cs, f, k, kept, idx, keptElems, first, last, cur)
    ensures forall i :: 0 <= i < |kept| - 1 ==> kept[i] != last
    ensures forall j :: k <= j < |ns| ==> ns[j] != last
    ensures forall i :: 0 <= i < |kept| ==> kept[i] != cur.next
    ensures forall j :: k + 2 <= j < |ns| ==> ns[j] != cur.next
  {
    forall i | 0 <= i < |kept| - 1 ensures kept[i] != last {
      assert idx[i] < idx[|kept| - 1];
    }
    if k + 1 < |ns| {
      assert cur.next == ns[k + 1];
    }
  }

  /**
   * Visiting a node that `f` selects: its predecessor (the last survivor) and its
   * successor are linked to each other around it, and it leaves the survivors.
   */
  method Unlink<T>(ghost ns: seq<Node<T>>, ghost cs: seq<T>, f: T -> bool, ghost k: int, ghost kept: seq<Node<T>>,
                   ghost idx: seq<int>, ghost keptElems: seq<T>, first: Node?<T>, last: Node?<T>, node: Node<T>)
    requires 0 <= k < |ns| == |cs|
    requires SurvivorsSoFar(ns, cs, f, k + 1, kept, idx, keptElems)
    requires SurvivorsLinked(kept, first, last, node)
    requires UnvisitedLinks(ns, k, last, node)
    requires UnvisitedElems(ns, cs, k + 1)
    requires forall i :: 0 <= i < |kept| - 1 ==> kept[i] != last
    requires forall j :: k <= j < |ns| ==> ns[j] != last
    requires forall i :: 0 <= i < |kept| ==> kept[i] != node.next
    requires forall j :: k + 2 <= j < |ns| ==> ns[j] != node.next
    modifies ns`next, ns`prev
    ensures SurvivorsLinked(kept, first, last, old(node.next))
    ensures UnvisitedLinks(ns, k + 1, last, old(node.next))
  {
    if node.prev != null {
      node.prev.next := node.next;
    }
    if node.next != null {
      node.next.prev := node.prev;
    }
  }

  /**
   * Visiting a node that `f` selects, as one step of the sweep: it is unlinked
   * from its neighbours, and then released from the live nodes.
   */
  method DropNode<T>(ghost ns: seq<Node<T>>, ghost cs: seq<T>, f: T -> bool, ghost k: int, ghost kept: seq<Node<T>>,
                     ghost idx: seq<int>, ghost keptElems: seq<T>, first: Node?<T>, last: Node?<T>, node: Node<T>,
                     ghost live: set<object>)
    returns (ghost live': set<object>)
    requires Swept(ns, cs, f, k, kept, idx, keptElems, first, last, node)
    requires live == Live(ns, k, kept)
    requires f(node.elem)
    modifies ns`next, ns`prev
    ensures Swept(ns, cs, f, k + 1, kept, idx, keptElems, first, last, old(node.next))
    ensures node in live && live' == live - {node} && live' == Live(ns, k + 1, kept)
  {
    ghost var next := node.next;
    Separated(ns, cs, f, k, kept, idx, keptElems, first, last, node);
    SkipStep(ns, cs, f, k, kept, idx, keptElems);
    ReleaseStep(ns, cs, f, k, kept, idx, keptElems);
    Unlink(ns, cs, f, k, kept, idx, keptElems, first, last, node);
    live' := live - {node};
    SweptIntro(ns, cs, f, k + 1, kept, idx, keptElems, first, last, next);
  }

  /**
   * One iteration of remove_if's loop: the successor of the visited node is read
   * first, then a selected node is unlinked and released, and the successor
   * becomes the new cursor.
   */
  method Visit<T>(ghost ns: seq<Node<T>>, ghost cs: seq<T>, f: T -> bool, ghost k: int, ghost kept: seq<Node<T>>,
                  ghost idx: seq<int>, ghost keptElems: seq<T>, first: Node?<T>, last: Node?<T>, node: Node<T>,
                  ghost live: set<object>)
    returns (first': Node?<T>, last': Node?<T>, ghost kept': seq<Node<T>>, ghost idx': seq<int>,
             ghost keptElems': seq<T>, next: Node?<T>, ghost live': set<object>)
    requires Swept(ns, cs, f, k, kept, idx, keptElems, first, last, node)
    requires live == Live(ns, k, kept) && kept == SurvivingBy(ns[..k], cs[..k], f)
    modifies ns
    ensures Swept(ns, cs, f, k + 1, kept', idx', keptElems', first', last', next)
    ensures live' == Live(ns, k + 1, kept') && kept' == SurvivingBy(ns[..k + 1], cs[..k + 1], f)
  {
    assert node == ns[k] && node.elem == cs[k];
    SurvivingNodesStep(ns, cs, f, k);
    next := node.next;
    if f(node.elem) {
      live' := DropNode(ns, cs, f, k, kept, idx, keptElems, first, last, node, live);
      first', last', kept', idx', keptElems' := first, last, kept, idx, keptElems;
    } else {
      KeepStep(ns, cs, f, k, kept, idx, keptElems, first, last, node);
      KeepLive(ns, k, kept);
      live' := live;
      first' := if first == null then node else first;
      last' := node;
      kept', idx', keptElems' := kept + [node], idx + [k], keptElems + [node.elem];
    }
  }

  /**
   * The loop of remove_if: walks from `head` over the nodes `ns` (holding `cs`),
   * unlinking and releasing the nodes whose element `f` selects and collecting the
   * others. The successor of the visited node is read before the node is released.
   */
  method Sweep<T>(head: Node?<T>, f: T -> bool, ghost ns: seq<Node<T>>, ghost cs: seq<T>, ghost tail: Node?<T>)
    returns (first: Node?<T>, last: Node?<T>, ghost kept: seq<Node<T>>, ghost keptElems: seq<T>, ghost live: set<object>)
    requires WellLinked(ns, cs, head, tail)
    modifies ns
    ensures WellLinked(kept, keptElems, first, last)
    ensures kept == SurvivingBy(ns, cs, f) && keptElems == Surviving(cs, f)
    ensures live == Elements(kept) && live <= Elements(ns)
    ensures forall j :: 0 <= j < |ns| && f(cs[j]) ==> ns[j] !in live
  {
    SweepStart(ns, cs, f, head, tail);
    live := Elements(ns);
    var cur := head;
    first, last := null, null;
    ghost var k := 0;
    ghost var idx: seq<int> := [];
    kept, keptElems := [], [];
    while cur != null
      invariant Swept(ns, cs, f, k, kept, idx, keptElems, first, last, cur)
      invariant live == Live(ns, k, kept) && kept == SurvivingBy(ns[..k], cs[..k], f)
      decreases |ns| - k
    {
      first, last, kept, idx, keptElems, cur, live := Visit(ns, cs, f, k, kept, idx, keptElems, first, last, cur, live);
      k := k + 1;
    }
    SweepDone(ns, cs, f, k, kept, idx, keptElems, first, last, live);
  }

  class LinkedList<T> {
    var head: Node?<T>
    var tail: Node?<T>

    // public view: the elements from head to tail, the nodes holding them, and the footprint
    ghost var Contents: seq<T>
    ghost var Nodes: seq<Node<T>>
    ghost var Repr: set<object>

    /**
     * The link invariant: Nodes lists the live nodes from head to tail, each
     * node's `next` is its successor and its `prev` its predecessor, the head has
     * no `prev`, the tail no `next`, and head and tail are absent together.
     */
    ghost predicate Valid()
      reads this, Repr
      ensures Valid() ==> this in Repr
    {
      && Repr == {this} + Elements(Nodes)
      && WellLinked(Nodes, Contents, head, tail)
    }

    /** The node reached from `head` after `k` steps along `next`. */
    ghost function Forward(k: nat): (r: Node?<T>)
      requires Valid()
      reads this, Repr
      ensures r == if k < |Nodes| then Nodes[k] else null
    {
      if k == 0 then head
      else
        var p := Forward(k - 1);
        if p == null then null else p.next
    }

    /** The node reached from `tail` after `k` steps along `prev`. */
    ghost function Backward(k: nat): (r: Node?<T>)
      requires Valid()
      reads this, Repr
      ensures r == if k < |Nodes| then Nodes[|Nodes| - 1 - k] else null
    {
      if k == 0 then tail
      else
        var p := Backward(k - 1);
        if p == null then null else p.prev
    }

    constructor ()
      ensures Valid() && fresh(Repr - {this})
      ensures Contents == [] && head == null && tail == null
      ensures IsEmpty() && Front() == None && Back() == None
    {
      head, tail := null, null;
      Contents, Nodes := [], [];
      Repr := {this};
    }

    method PushFront(e: T)
      requires Valid()
      modifies Repr
      ensures Valid() && Contents == [e] + old(Contents)
      ensures Nodes == [head] + old(Nodes) && Repr == old(Repr) + {head} && fresh(head)
      ensures Front() == Some(e)
      ensures Back() == if old(Contents) == [] then Some(e) else old(Back())
    {
      var node := new Node(null, head, e);
      if head != null {
        head.prev := node;
      }
      assert Elements([node] + Nodes) == Elements(Nodes) + {node};
      Install(node, if tail == null then node else tail, [node] + Nodes, [e] + Contents);
    }

    method PushBack(e: T)
      requires Valid()
      modifies Repr
      ensures Valid() && Contents == old(Contents) + [e]
      ensures Nodes == old(Nodes) + [tail] && Repr == old(Repr) + {tail} && fresh(tail)
      ensures Back() == Some(e)
      ensures Front() == if old(Contents) == [] then Some(e) else old(Front())
    {
      var node := new Node(tail, null, e);
      if tail != null {
        tail.next := node;
      }
      assert Elements(Nodes + [node]) == Elements(Nodes) + {node};
      Install(if head == null then node else head, node, Nodes + [node], Contents + [e]);
    }

    /** Removes the head node, if any, and releases it. */
    method PopFront()
      requires Valid()
      modifies Repr
      ensures Valid()
      ensures old(Contents) == [] ==> Contents == [] && Repr == old(Repr)
      ensures old(Contents) != [] ==>
                Contents == old(Contents)[1..] && Nodes == old(Nodes)[1..] &&
                Repr == old(Repr) - {old(head)} && old(head) !in Repr
      ensures |old(Contents)| == 1 ==> head == null && tail == null
      ensures head != null ==> head.prev == null
    {
      if head != null {
        ChainDistinct(Nodes);
        var h := head;
        assert |Nodes| > 1 ==> h.next == Nodes[1];
        if h.next != null {
          h.next.prev := null;
        } else {
          tail := null;
        }
        head := h.next;
        Contents := Contents[1..];
        Nodes := Nodes[1..];
        Repr := Repr - {h};
        assert Elements(Nodes) == Elements(old(Nodes)) - {h};
      }
    }

    /** Removes the tail node, if any, and releases it. */
    method PopBack()
      requires Valid()
      modifies Repr
      ensures Valid()
      ensures old(Contents) == [] ==> Contents == [] && Repr == old(Repr)
      ensures old(Contents) != [] ==>
                Contents == old(Contents)[..|old(Contents)| - 1] && Nodes == old(Nodes)[..|old(Nodes)| - 1] &&
                Repr == old(Repr) - {old(tail)} && old(tail) !in Repr
      ensures |old(Contents)| == 1 ==> head == null && tail == null
      ensures tail != null ==> tail.next == null
    {
      if tail != null {
        ChainDistinct(Nodes);
        var t := tail;
        assert |Nodes| > 1 ==> t.prev == Nodes[|Nodes| - 2];
        if t.prev != null {
          t.prev.next := null;
        } else {
          head := null;
        }
        tail := t.prev;
        Contents := Contents[..|Contents| - 1];
        Nodes := Nodes[..|Nodes| - 1];
        Repr := Repr - {t};
        assert Elements(Nodes) == Elements(old(Nodes)) - {t};
      }
    }

    function Front(): (r: Option<T>)
      requires Valid()
      reads this, Repr
      ensures r == None <==> Contents == []
      ensures r != None ==> r.value == Contents[0]
    {
      if head == null then None else Some(head.elem)
    }

    function Back(): (r: Option<T>)
      requires Valid()
      reads this, Repr
      ensures r == None <==> Contents == []
      ensures r != None ==> r.value == Contents[|Contents| - 1]
    {
      if tail == null then None else Some(tail.elem)
    }

    function IsEmpty(): (r: bool)
      requires Valid()
      reads this, Repr
      ensures r <==> Contents == []
    {
      head == null
    }

    /**
     * One forward pass that splices out and releases every node whose element
     * `f` selects, and makes the first and last survivors the new head and tail.
     */
    method RemoveIf(f: T -> bool)
      requires Valid()
      modifies Repr
      ensures Valid() && Repr <= old(Repr)
      ensures Contents == Surviving(old(Contents), f)
      ensures Nodes == SurvivingBy(old(Nodes), old(Contents), f)
      ensures forall i :: 0 <= i < |old(Nodes)| && f(old(Contents)[i]) ==> old(Nodes)[i] !in Repr
    {
      ghost var ns, cs := Nodes, Contents;
      var first, last, kept, keptElems, live := Sweep(head, f, ns, cs, tail);
      Install(first, last, kept, keptElems);
      assert Repr == {this} + live;
    }

    /** Makes the well-linked chain `kept`, from `first` to `last`, the whole list. */
    method Install(first: Node?<T>, last: Node?<T>, ghost kept: seq<Node<T>>, ghost keptElems: seq<T>)
      requires WellLinked(kept, keptElems, first, last)
      modifies this
      ensures Valid() && Repr == {this} + Elements(kept)
      ensures Contents == keptElems && Nodes == kept && head == first && tail == last
    {
      head, tail := first, last;
      Contents, Nodes := keptElems, kept;
      Repr := {this} + Elements(kept);
    }

    /**
     * Walks from `head` and releases every node, reading each node's successor
     * before releasing it; `head` and `tail` are left as they were.
     */
    method ReleaseAll()
      requires Valid()
      modifies this
      ensures Repr == {this}
      ensures head == old(head) && tail == old(tail) && Contents == old(Contents) && Nodes == old(Nodes)
    {
      ghost var ns := Nodes;
      ghost var k := 0;
      ChainDistinct(ns);
      var cur := head;
      while cur != null
        invariant 0 <= k <= |ns|
        invariant cur == if k < |ns| then ns[k] else null
        invariant Repr == {this} + Elements(ns[k..])
        invariant head == old(head) && tail == old(tail) && Contents == old(Contents) && Nodes == ns
        invariant Chained(ns) && (ns != [] ==> ns[|ns| - 1].next == null)
        decreases |ns| - k
      {
        var next := cur.next;
        assert Elements(ns[k..]) == {cur} + Elements(ns[k + 1..]);
        Repr := Repr - {cur};
        cur := next;
        k := k + 1;
      }
    }

    /** Releases every node, then marks the list empty. */
    method Clear()
      requires Valid()
      modifies this
      ensures Valid() && Repr == {this}
      ensures Contents == [] && head == null && tail == null
    {
      ReleaseAll();
      head, tail := null, null;
      Contents, Nodes := [], [];
    }

    /** Dropping the list releases every node it owns. */
    method Drop()
      requires Valid()
      modifies this
      ensures Repr == {this}
    {
      ReleaseAll();
    }

    method Iter() returns (it: Iter<T>)
      requires Valid()
      ensures fresh(it) && it.Valid() && it.list == this && it.pos == 0
    {
      it := new Iter(this);
    }

    method IterMut() returns (it: IterMut<T>)
      requires Valid()
      ensures fresh(it) && it.Valid() && it.list == this && it.pos == 0
    {
      it := new IterMut(this);
    }
  }

  /** A read-only forward cursor: `node` is the next node to visit. */
  class Iter<T> {
    var node: Node?<T>
    ghost const list: LinkedList<T>
    ghost var pos: nat

    ghost predicate Valid()
      reads this, list, list.Repr
    {
      this !in list.Repr && list.Valid() &&
      pos <= |list.Nodes| && node == if pos < |list.Nodes| then list.Nodes[pos] else null
    }

    constructor (list: LinkedList<T>)
      requires list.Valid()
      ensures Valid() && this.list == list && pos == 0
    {
      this.list := list;
      node := list.head;
      pos := 0;
    }

    method Next() returns (r: Option<T>)
      requires Valid()
      modifies this
      ensures Valid()
      ensures old(pos) < |list.Contents| ==> r == Some(list.Contents[old(pos)]) && pos == old(pos) + 1
      ensures old(pos) == |list.Contents| ==> r == None && pos == old(pos)
    {
      if node == null {
        r := None;
      } else {
        r := Some(node.elem);
        node := node.next;
        pos := pos + 1;
      }
    }
  }

  /**
   * A forward cursor that yields each element for writing. The caller's write
   * through the yielded reference is the `write` function given to Next.
   */
  class IterMut<T> {
    var node: Node?<T>
    ghost const list: LinkedList<T>
    ghost var pos: nat

    ghost predicate Valid()
      reads this, list, list.Repr
    {
      this !in list.Repr && list.Valid() &&
      pos <= |list.Nodes| && node == if pos < |list.Nodes| then list.Nodes[pos] else null
    }

    constructor (list: LinkedList<T>)
      requires list.Valid()
      ensures Valid() && this.list == list && pos == 0
    {
      this.list := list;
      node := list.head;
      pos := 0;
    }

    method Next(write: T -> T) returns (r: Option<T>)
      requires Valid()
      modifies this, list.Repr
      ensures Valid()
      ensures list.Nodes == old(list.Nodes) && list.Repr == old(list.Repr)
      ensures list.head == old(list.head) && list.tail == old(list.tail)
      ensures forall i :: 0 <= i < |list.Nodes| ==>
                list.Nodes[i].next == old(list.Nodes[i].next) && list.Nodes[i].prev == old(list.Nodes[i].prev)
      ensures old(pos) < |old(list.Contents)| ==>
                r == Some(write(old(list.Contents)[old(pos)])) && pos == old(pos) + 1 &&
                list.Contents == old(list.Contents)[old(pos) := r.value]
      ensures old(pos) == |old(list.Contents)| ==> r == None && pos == old(pos) && list.Contents == old(list.Contents)
    {
      if node == null {
        r := None;
      } else {
        ChainDistinct(list.Nodes);
        node.elem := write(node.elem);
        r := Some(node.elem);
        list.Contents := list.Contents[pos := node.elem];
        node := node.next;
        pos := pos + 1;
      }
    }
  }
}
