/** The ordered iterator: `ParMap`, its reorder buffer, and `map`. */
module Ordered {
  import opened Packets
  import Heap
  import opened Workers
  import opened Unordered

  /** Iterator state: the channel, the index wanted next (`looking_for`) and
      the buffer of packets received ahead of their turn. */
  datatype ParMap<T> = ParMap(unordered: UnorderedParMap<T>, lookingFor: nat, queue: Heap.BinaryHeap<T>)

  /** The packets not yet released: buffered, or still in the channel. */
  ghost function Pending<T>(s: ParMap<T>): multiset<Packet<T>>
  {
    multiset(s.queue.items) + multiset(s.unordered.rx)
  }

  /** `map(scope, inputs, f)`: wants index 0 first, buffers nothing, and the
      packet of every worker is pending. */
  function Map<X, T>(inputs: seq<X>, f: X -> Outcome<T>, arrival: seq<Packet<T>>): (s: ParMap<T>)
    requires IsArrival(arrival, inputs, f)
    ensures s.lookingFor == 0
    ensures Heap.Peek(s.queue).None?
    ensures Pending(s) == multiset(Emitted(inputs, f))
  {
    ParMap(UnorderedMap(inputs, f, arrival), 0, Heap.New())
  }

  /** The packet a `next` result stands for when it was released for index `k`. */
  ghost function Released<T>(k: nat, r: Step<T>): multiset<Packet<T>>
  {
    match r
    case Yield(x) => multiset{Packet(k, Some(x))}
    case Panicked => multiset{Packet(k, None)}
    case Exhausted => multiset{}
  }

  /** `b` ends with `a`: what is left of a channel after receiving from it. */
  ghost predicate IsSuffix<T>(a: seq<T>, b: seq<T>)
  {
    |a| <= |b| && a == b[|b| - |a|..]
  }

  /** The wanted packet is at the top of the buffer. */
  predicate WantedOnTop<T>(s: ParMap<T>)
  {
    var top := Heap.Peek(s.queue);
    top.Some? && top.value.idx == s.lookingFor
  }

  /** The release test holds exactly when the buffer holds the wanted index
      and nothing older than it. */
  lemma WantedOnTopIffOldestIsWanted<T>(s: ParMap<T>)
    ensures WantedOnTop(s) <==> (exists x | x in s.queue.items :: x.idx == s.lookingFor)
                                && forall x | x in s.queue.items :: s.lookingFor <= x.idx
  {
  }

  /** What one `ParMap::next` call may do, taking state `s` to `s'` with
      result `r`:
      - the channel is consumed only from its front;
      - no packet is lost or invented: what is pending afterwards, plus what
        was released, is what was pending before;
      - `looking_for` advances by exactly one per release and never otherwise;
      - end of sequence comes only from a closed channel while the wanted
        packet is not on top of the buffer;
      - a release takes the top of the buffer, so no packet left behind has a
        smaller index than the released one. */
  ghost predicate IsNextStep<T>(s: ParMap<T>, r: Step<T>, s': ParMap<T>)
  {
    && IsSuffix(s'.unordered.rx, s.unordered.rx)
    && Pending(s') + Released(s.lookingFor, r) == Pending(s)
    && s'.lookingFor == (if r.Exhausted? then s.lookingFor else s.lookingFor + 1)
    && (r.Exhausted? ==> |s'.unordered.rx| == 0 && !WantedOnTop(s'))
    && (!r.Exhausted? ==> forall p | p in s'.queue.items :: s.lookingFor <= p.idx)
  }

  /** The release branch of `ParMap::next`: pop the wanted packet off the top
      of the buffer, advance `looking_for`, and hand out its payload or panic. */
  function Release<T>(s: ParMap<T>): (res: (Step<T>, ParMap<T>))
    requires WantedOnTop(s)
    ensures res.1.unordered == s.unordered
    ensures !res.0.Exhausted?
    ensures multiset(res.1.queue.items) + Released(s.lookingFor, res.0) == multiset(s.queue.items)
    ensures res.1.lookingFor == s.lookingFor + 1
    ensures forall p | p in res.1.queue.items :: s.lookingFor <= p.idx
  {
    var (packet, queue) := Heap.Pop(s.queue);
    var s' := s.(lookingFor := s.lookingFor + 1, queue := queue);
    match packet.value.data
    case Some(x) => (Yield(x), s')
    case None => (Panicked, s')
  }

  /** The receive branch of `ParMap::next`: the packet received from the
      channel is pushed into the buffer, nothing else changes. */
  function Receive<T>(s: ParMap<T>): (s': ParMap<T>)
    requires |s.unordered.rx| > 0
    ensures s'.unordered.rx == s.unordered.rx[1..]
    ensures s'.lookingFor == s.lookingFor
    ensures Pending(s') == Pending(s)
  {
    var (received, unordered) := Recv(s.unordered);
    assert s.unordered.rx == [received.value] + unordered.rx;
    s.(unordered := unordered, queue := Heap.Push(s.queue, received.value))
  }

  /** None of the first `n` packets of `s`'s channel carries the index `s`
      wants. */
  ghost predicate NoneWanted<T>(s: ParMap<T>, n: int)
  {
    forall j | 0 <= j < n && j < |s.unordered.rx| :: s.unordered.rx[j].idx != s.lookingFor
  }

  /** Nothing in the buffer of `s'` is older than index `k`. */
  ghost predicate NothingOlder<T>(s': ParMap<T>, k: nat)
  {
    forall p | p in s'.queue.items :: k <= p.idx
  }

  /** What the loop of `next` knows about the packets it received from `s`'s
      channel to reach `s'`: the wanted index was among none of them, except
      possibly the last one once the wanted packet is on top. */
  ghost predicate Scanned<T>(s: ParMap<T>, s': ParMap<T>)
  {
    var n := |s.unordered.rx| - |s'.unordered.rx|;
    && (!WantedOnTop(s') && NothingOlder(s', s.lookingFor) ==> NoneWanted(s, n))
    && (WantedOnTop(s') ==> NoneWanted(s, n - 1))
  }

  /** Receiving one more packet while the wanted one is not on top keeps what
      the loop of `next` knows about the packets received so far. */
  lemma ReceiveKeepsScanned<T>(s: ParMap<T>, s0: ParMap<T>)
    requires s0.lookingFor == s.lookingFor
    requires IsSuffix(s0.unordered.rx, s.unordered.rx)
    requires |s0.unordered.rx| > 0
    requires !WantedOnTop(s0)
    requires Scanned(s, s0)
    ensures Scanned(s, Receive(s0))
  {
    var s1 := Receive(s0);
    var n := |s.unordered.rx| - |s0.unordered.rx|;
    assert s1.queue.items == s0.queue.items + [s0.unordered.rx[0]];
    assert s0.unordered.rx[0] == s.unordered.rx[n];
    WantedOnTopIffOldestIsWanted(s0);
    WantedOnTopIffOldestIsWanted(s1);
  }

  /** `ParMap::next`: release the wanted packet once it is on top of the
      buffer, otherwise receive one more packet into the buffer; end of
      sequence once the channel is closed. The release test comes before
      every `recv`: a wanted packet already on top is released without
      touching the channel, and receiving stops at the packet that brings the
      wanted index to the top, so no packet received before it carries that
      index. */
  method Next<T>(s: ParMap<T>) returns (r: Step<T>, s': ParMap<T>)
    ensures IsNextStep(s, r, s')
    ensures WantedOnTop(s) ==> !r.Exhausted? && s'.unordered == s.unordered
    ensures !r.Exhausted? ==>
      forall j | 0 <= j < |s.unordered.rx| - |s'.unordered.rx| - 1 :: s.unordered.rx[j].idx != s.lookingFor
  {
    s' := s;
    while true
      invariant s'.lookingFor == s.lookingFor
      invariant Pending(s') == Pending(s)
      invariant IsSuffix(s'.unordered.rx, s.unordered.rx)
      invariant WantedOnTop(s) ==> s' == s
      invariant Scanned(s, s')
      decreases |s'.unordered.rx|
    {
      if WantedOnTop(s') {
        ReleaseIsNextStep(s, s');
        var released := Release(s');
        r, s' := released.0, released.1;
        return;
      }
      if |s'.unordered.rx| == 0 {
        // `recv` reports the channel closed: all done
        r := Exhausted;
        assert Released(s.lookingFor, r) == multiset{};
        return;
      }
      var rest := s'.unordered.rx[1..];
      assert rest == s.unordered.rx[|s.unordered.rx| - |rest|..];
      ReceiveKeepsScanned(s, s');
      s' := Receive(s');
    }
  }

  /** Releasing from a state the loop of `next` reached from `s` completes a
      `next` step from `s`. */
  lemma ReleaseIsNextStep<T>(s: ParMap<T>, s1: ParMap<T>)
    requires s1.lookingFor == s.lookingFor
    requires Pending(s1) == Pending(s)
    requires IsSuffix(s1.unordered.rx, s.unordered.rx)
    requires WantedOnTop(s1)
    ensures IsNextStep(s, Release(s1).0, Release(s1).1)
  {
  }

  /** When no pending packet is older than the wanted index, a `next` step
      reaches end of sequence exactly when no pending packet carries the
      wanted index. */
  lemma NextEndsIffWantedMissing<T>(s: ParMap<T>, r: Step<T>, s': ParMap<T>)
    requires IsNextStep(s, r, s')
    requires forall p | p in Pending(s) :: s.lookingFor <= p.idx
    ensures r.Exhausted? <==> forall p | p in Pending(s) :: p.idx != s.lookingFor
  {
  }

  /** The sequential `iter.map(f)` that `map` replaces: values in input order,
      stopping at the first closure that unwinds. */
  function SequentialMap<X, T>(xs: seq<X>, f: X -> Outcome<T>): (r: Run<T>)
    ensures |r.yielded| <= |xs|
    ensures forall i :: 0 <= i < |r.yielded| ==> f(xs[i]) == Returned(r.yielded[i])
    ensures !r.failed <==> |r.yielded| == |xs|
    ensures r.failed ==> f(xs[|r.yielded|]).Unwound?
  {
    if |xs| == 0 then Run([], false)
    else
      match f(xs[0])
      case Unwound => Run([], true)
      case Returned(v) => Prepend([v], SequentialMap(xs[1..], f))
  }

  /** The sequential map is the only run that stops exactly at the first
      closure that unwinds and yields every earlier closure's value in order. */
  lemma SequentialMapIsDetermined<X, T>(xs: seq<X>, f: X -> Outcome<T>, r: Run<T>)
    requires |r.yielded| <= |xs|
    requires forall i :: 0 <= i < |r.yielded| ==> f(xs[i]) == Returned(r.yielded[i])
    requires !r.failed <==> |r.yielded| == |xs|
    requires r.failed ==> f(xs[|r.yielded|]).Unwound?
    ensures r == SequentialMap(xs, f)
  {
  }

  /** One `next` step from the state reached after releasing indices `0 .. k`:
      it releases the k-th input's result, or ends the sequence once every
      input has been released. */
  lemma NextReleasesInOrder<X, T>(inputs: seq<X>, f: X -> Outcome<T>, s: ParMap<T>, r: Step<T>, s': ParMap<T>)
    requires IsNextStep(s, r, s')
    requires s.lookingFor <= |inputs|
    requires Pending(s) == multiset(Emitted(inputs, f)[s.lookingFor..])
    ensures s.lookingFor == |inputs| ==> r.Exhausted?
    ensures s.lookingFor < |inputs| ==>
      r == (match f(inputs[s.lookingFor]) case Returned(v) => Yield(v) case Unwound => Panicked)
    ensures s.lookingFor < |inputs| ==>
      s'.lookingFor == s.lookingFor + 1 &&
      Pending(s') == multiset(Emitted(inputs, f)[s.lookingFor + 1..])
  {
    var k := s.lookingFor;
    forall p | p in Pending(s)
      ensures k <= p.idx
    {
      EmittedFromHolds(inputs, f, k, p);
    }
    if k < |inputs| {
      EmittedFromSplit(inputs, f, k);
      NextEndsIffWantedMissing(s, r, s');
      var released := if r.Yield? then Packet(k, Some(r.value)) else Packet(k, None);
      assert released in Pending(s);
      EmittedFromHolds(inputs, f, k, released);
      assert Released(k, r) == multiset{released};
      CancelOne(Pending(s'), multiset(Emitted(inputs, f)[k + 1..]), released);
    }
  }

  /** Removing the same element from both sides of a multiset equation. */
  lemma CancelOne<T>(a: multiset<T>, b: multiset<T>, x: T)
    requires a + multiset{x} == multiset{x} + b
    ensures a == b
  {
    assert a == a + multiset{x} - multiset{x};
  }

  /** What a consumer draining `map` knows after observing `out`: the iterator
      wants the next input, exactly the later inputs' packets are pending, and
      each observed value is its input's result. */
  ghost predicate CollectInvariant<X, T>(inputs: seq<X>, f: X -> Outcome<T>, it: ParMap<T>, out: seq<T>)
  {
    && it.lookingFor == |out| <= |inputs|
    && Pending(it) == multiset(Emitted(inputs, f)[|out|..])
    && forall i :: 0 <= i < |out| ==> f(inputs[i]) == Returned(out[i])
  }

  /** One `next` call by the consumer: a value extends what it observed, and
      end of sequence or the panic leaves it with the sequential map's run. */
  lemma CollectStep<X, T>(inputs: seq<X>, f: X -> Outcome<T>, it: ParMap<T>, out: seq<T>, r: Step<T>, it': ParMap<T>)
    requires CollectInvariant(inputs, f, it, out)
    requires IsNextStep(it, r, it')
    ensures r.Exhausted? ==> Run(out, false) == SequentialMap(inputs, f)
    ensures r.Panicked? ==> Run(out, true) == SequentialMap(inputs, f)
    ensures r.Yield? ==> CollectInvariant(inputs, f, it', out + [r.value])
  {
    NextReleasesInOrder(inputs, f, it, r, it');
    match r
    case Exhausted =>
      SequentialMapIsDetermined(inputs, f, Run(out, false));
    case Panicked =>
      SequentialMapIsDetermined(inputs, f, Run(out, true));
    case Yield(x) =>
  }

  /** A consumer draining `map(scope, inputs, f)`, whatever order the workers
      finish in: it observes exactly what the sequential map produces, namely
      the values of the inputs in order up to the first closure that unwound,
      then that failure, and never any value beyond it. */
  method Collect<X, T>(inputs: seq<X>, f: X -> Outcome<T>, arrival: seq<Packet<T>>)
      returns (out: seq<T>, failed: bool)
    requires IsArrival(arrival, inputs, f)
    ensures Run(out, failed) == SequentialMap(inputs, f)
  {
    var it := Map(inputs, f, arrival);
    assert Emitted(inputs, f)[0..] == Emitted(inputs, f);
    out := [];
    while true
      invariant CollectInvariant(inputs, f, it, out)
      decreases |inputs| - |out|
    {
      var step, it' := Next(it);
      CollectStep(inputs, f, it, out, step, it');
      it := it';
      match step
      case Exhausted =>
        return out, false;
      case Panicked =>
        return out, true;
      case Yield(x) =>
        out := out + [x];
    }
  }

  /** When every closure returns, the unordered iterator yields the ordered
      iterator's values, each tagged with its input position, each position
      exactly once, in whatever order the workers finished. */
  lemma UnorderedAgreesWithOrdered<X, T>(inputs: seq<X>, f: X -> Outcome<T>, arrival: seq<Packet<T>>)
    requires IsArrival(arrival, inputs, f)
    requires forall i :: 0 <= i < |inputs| ==> f(inputs[i]).Returned?
    ensures !SequentialMap(inputs, f).failed && !UnorderedRun(inputs, f, arrival).failed
    ensures |UnorderedRun(inputs, f, arrival).yielded| == |SequentialMap(inputs, f).yielded|
    ensures forall j :: 0 <= j < |UnorderedRun(inputs, f, arrival).yielded| ==>
      var (i, v) := UnorderedRun(inputs, f, arrival).yielded[j];
      i < |SequentialMap(inputs, f).yielded| && SequentialMap(inputs, f).yielded[i] == v
    ensures forall j, j' :: 0 <= j < j' < |UnorderedRun(inputs, f, arrival).yielded| ==>
      UnorderedRun(inputs, f, arrival).yielded[j].0 != UnorderedRun(inputs, f, arrival).yielded[j'].0
  {
    UnorderedYieldsEveryIndexOnce(inputs, f, arrival);
  }
}
