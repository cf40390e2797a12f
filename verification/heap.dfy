/** `std::collections::BinaryHeap<Packet<T>>`, modelled by its contents: a
    max-heap under `Packets.Cmp`, hence a min-heap on indices. */
module Heap {
  import opened Packets

  /** The heap's elements, in no particular order. */
  datatype BinaryHeap<T> = BinaryHeap(items: seq<Packet<T>>)

  /** `BinaryHeap::new`. */
  function New<T>(): (h: BinaryHeap<T>)
    ensures multiset(h.items) == multiset{}
  {
    BinaryHeap([])
  }

  /** `BinaryHeap::push`: adds one packet, keeps every other. */
  function Push<T>(h: BinaryHeap<T>, p: Packet<T>): (h': BinaryHeap<T>)
    ensures multiset(h'.items) == multiset(h.items) + multiset{p}
  {
    BinaryHeap(h.items + [p])
  }

  /** Position of a greatest element of a non-empty sequence under `Cmp`. */
  function TopPos<T>(s: seq<Packet<T>>): (k: nat)
    requires |s| > 0
    ensures k < |s|
    ensures forall j :: 0 <= j < |s| ==> Cmp(s[k], s[j]) != Less
  {
    if |s| == 1 then 0
    else
      var k := 1 + TopPos(s[1..]);
      if Cmp(s[0], s[k]) == Less then k else 0
  }

  /** `BinaryHeap::peek`: a greatest packet, which is one with the smallest
      index; nothing when the heap is empty. */
  function Peek<T>(h: BinaryHeap<T>): (r: Option<Packet<T>>)
    ensures r.None? <==> |h.items| == 0
    ensures r.Some? ==> IsGreatest(r.value, multiset(h.items))
    ensures r.Some? ==> forall x | x in h.items :: r.value.idx <= x.idx
  {
    if |h.items| == 0 then None else Some(h.items[TopPos(h.items)])
  }

  /** `BinaryHeap::pop`: removes and returns the packet `peek` shows. */
  function Pop<T>(h: BinaryHeap<T>): (r: (Option<Packet<T>>, BinaryHeap<T>))
    ensures r.0 == Peek(h)
    ensures r.0.None? ==> r.1 == h
    ensures r.0.Some? ==> multiset(r.1.items) == multiset(h.items) - multiset{r.0.value}
  {
    if |h.items| == 0 then (None, h)
    else
      var k := TopPos(h.items);
      assert h.items == h.items[..k] + [h.items[k]] + h.items[k + 1..];
      (Some(h.items[k]), BinaryHeap(h.items[..k] + h.items[k + 1..]))
  }
}
