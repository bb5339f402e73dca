/**
 * The loop step of the Rust library's `remove_if` in the order its source
 * gives: the visited node is released with `Box::from_raw`, and only afterwards
 * is its `next` link read to advance the cursor. Memory is an arena from addresses to node records; releasing a node
 * removes its address, and reading a released address is a fault.
 */
module RemoveIfFault {
  import opened LinkedLists

  type Addr = nat

  /** One allocated node record. */
  datatype Slot<T> = Slot(prev: Option<Addr>, next: Option<Addr>, elem: T)

  /** A read through an address that no longer holds a node. */
  datatype Fault = UseAfterFree(addr: Addr)

  datatype Outcome<R> = Ok(value: R) | Err(fault: Fault)

  type Arena<T> = map<Addr, Slot<T>>

  /** Reads the node at `a`; reading an address that has been released is a fault. */
  function Load<T>(h: Arena<T>, a: Addr): Outcome<Slot<T>>
  {
    if a in h then Ok(h[a]) else Err(UseAfterFree(a))
  }

  /** Sets the `next` link of the node at `p`, if there is one. */
  function SetNext<T>(h: Arena<T>, p: Option<Addr>, v: Option<Addr>): (r: Arena<T>)
    ensures r.Keys == h.Keys
    ensures forall a :: a in h && Some(a) != p ==> r[a] == h[a]
    ensures p.Some? && p.value in h ==> r[p.value] == h[p.value].(next := v)
  {
    if p.Some? && p.value in h then h[p.value := h[p.value].(next := v)] else h
  }

  /** Sets the `prev` link of the node at `n`, if there is one. */
  function SetPrev<T>(h: Arena<T>, n: Option<Addr>, v: Option<Addr>): (r: Arena<T>)
    ensures r.Keys == h.Keys
    ensures forall a :: a in h && Some(a) != n ==> r[a] == h[a]
    ensures n.Some? && n.value in h ==> r[n.value] == h[n.value].(prev := v)
  {
    if n.Some? && n.value in h then h[n.value := h[n.value].(prev := v)] else h
  }

  /**
   * Splices the node at `a` out from between its neighbours and releases it.
   * The neighbours now skip it, and its address is gone from the arena.
   */
  function Splice<T>(h: Arena<T>, a: Addr): (r: Arena<T>)
    requires a in h
    ensures r.Keys == h.Keys - {a}
    ensures h[a].prev.Some? && h[a].prev.value in r ==> r[h[a].prev.value].next == h[a].next
    ensures h[a].next.Some? && h[a].next.value in r ==> r[h[a].next.value].prev == h[a].prev
    ensures forall x :: x in h && x != a && Some(x) != h[a].prev && Some(x) != h[a].next ==> r[x] == h[x]
  {
    var n := h[a];
    SetPrev(SetNext(h, n.prev, n.next), n.next, n.prev) - {a}
  }

  /**
   * One iteration of remove_if as written: a selected node is spliced out and
   * released, and then the cursor advances by reading the released node.
   */
  function StepAsWritten<T>(h: Arena<T>, a: Addr, f: T -> bool): (r: Outcome<(Arena<T>, Option<Addr>)>)
    requires a in h
    ensures f(h[a].elem) ==> r == Err(UseAfterFree(a))
    ensures !f(h[a].elem) ==> r == Ok((h, h[a].next))
  {
    var h' := if f(h[a].elem) then Splice(h, a) else h;
    match Load(h', a)
    case Err(e) => Err(e)
    case Ok(node) => Ok((h', node.next))
  }

  /**
   * One iteration with the successor read before the release, as clear does:
   * it never faults, and the cursor moves to the visited node's old successor.
   */
  function StepCorrected<T>(h: Arena<T>, a: Addr, f: T -> bool): (r: Outcome<(Arena<T>, Option<Addr>)>)
    requires a in h
    ensures r.Ok? && r.value.1 == h[a].next
    ensures f(h[a].elem) ==> r.value.0 == Splice(h, a) && a !in r.value.0
    ensures !f(h[a].elem) ==> r.value.0 == h
  {
    match Load(h, a)
    case Err(e) => Err(e)
    case Ok(node) =>
      var h' := if f(node.elem) then Splice(h, a) else h;
      Ok((h', node.next))
  }
}
