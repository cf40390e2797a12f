/** Sequencer tokens (`Packet`) exchanged between the workers and the
    iterators, and their deliberately reversed ordering (src/maps.rs). */
module Packets {

  /** Rust's `Option`. */
  datatype Option<+T> = None | Some(value: T)

  /** Rust's `std::cmp::Ordering`. */
  datatype Ordering = Less | Equal | Greater

  /** `usize::cmp`: the natural order on indices. */
  function CompareIdx(a: nat, b: nat): Ordering
  {
    if a < b then Less else if a == b then Equal else Greater
  }

  /** A worker's report: the position of its input element, and the value
      the closure returned, absent when the closure unwound. */
  datatype Packet<T> = Packet(idx: nat, data: Option<T>)

  /** `Ord for Packet`: the indices are compared the other way round, so that
      a packet with a SMALLER index is the GREATER packet. */
  function Cmp<T>(a: Packet<T>, b: Packet<T>): (o: Ordering)
    ensures o == Greater <==> a.idx < b.idx
    ensures o == Equal <==> a.idx == b.idx
    ensures o == Less <==> b.idx < a.idx
  {
    CompareIdx(b.idx, a.idx)
  }

  /** `PartialEq for Packet`: the payload is ignored, and the result agrees
      with `Cmp` as Rust's `Ord` contract demands. */
  function Eq<T>(a: Packet<T>, b: Packet<T>): (r: bool)
    ensures r <==> Cmp(a, b) == Equal
    ensures r <==> a.idx == b.idx
  {
    a.idx == b.idx
  }

  /** `p` is a maximum of `m` under `Cmp`: what a max-heap hands out first. */
  ghost predicate IsGreatest<T>(p: Packet<T>, m: multiset<Packet<T>>)
  {
    p in m && forall x | x in m :: Cmp(p, x) != Less
  }

  /** The reversal turns the max-heap into a min-heap on indices: the greatest
      packet is exactly one with the smallest index. */
  lemma GreatestIsSmallestIdx<T>(p: Packet<T>, m: multiset<Packet<T>>)
    ensures IsGreatest(p, m) <==> p in m && forall x | x in m :: p.idx <= x.idx
  {
  }

  /** `Cmp` is a total order up to `Eq`: it is antisymmetric and transitive. */
  lemma CmpIsTotalOrder<T>(a: Packet<T>, b: Packet<T>, c: Packet<T>)
    ensures Cmp(a, b) == Less <==> Cmp(b, a) == Greater
    ensures Cmp(a, b) != Less && Cmp(b, c) != Less ==> Cmp(a, c) != Less
  {
  }
}
