/** The consuming side of `unordered_map`: the channel receiver and
    `UnorderedParMap::next`. */
module Unordered {
  import opened Packets
  import opened Workers

  /** What one `next` call produces: an item, end of sequence (`None`), or
      the panic the iterator raises on the consumer's thread. */
  datatype Step<T> = Yield(value: T) | Exhausted | Panicked

  /** What a consumer that calls `next` until it stops observes: the items, and
      whether it stopped on a panic rather than on end of sequence. */
  datatype Run<T> = Run(yielded: seq<T>, failed: bool)

  /** `vs` observed first, then the run `r`. */
  function Prepend<T>(vs: seq<T>, r: Run<T>): Run<T>
  {
    Run(vs + r.yielded, r.failed)
  }

  /** The iterator; its receiver is modelled by the packets still to be
      received, in arrival order. A closed, drained channel is empty. */
  datatype UnorderedParMap<T> = UnorderedParMap(rx: seq<Packet<T>>)

  /** `unordered_map(scope, inputs, f)` as seen by its consumer: the channel
      delivers the workers' packets in the order `arrival`, so the iterator
      will receive one packet per input, each tagged with its input's position
      and carrying that input's result. */
  function UnorderedMap<X, T>(inputs: seq<X>, f: X -> Outcome<T>, arrival: seq<Packet<T>>): (r: UnorderedParMap<T>)
    requires IsArrival(arrival, inputs, f)
    ensures |r.rx| == |inputs|
    ensures forall j :: 0 <= j < |r.rx| ==>
      r.rx[j].idx < |inputs| && r.rx[j].data == f(inputs[r.rx[j].idx]).Payload()
    ensures forall j, j' :: 0 <= j < j' < |r.rx| ==> r.rx[j].idx != r.rx[j'].idx
  {
    ArrivalHasOnePacketPerIndex(arrival, inputs, f);
    UnorderedParMap(arrival)
  }

  /** `Receiver::recv`: the next packet in arrival order, or `RecvError` (here
      `None`) once every sender is gone and nothing is left. */
  function Recv<T>(u: UnorderedParMap<T>): (r: (Option<Packet<T>>, UnorderedParMap<T>))
    ensures r.0.None? <==> |u.rx| == 0
    ensures r.0.None? ==> r.1 == u
    ensures r.0.Some? ==> r.0.value == u.rx[0] && r.1.rx == u.rx[1..]
  {
    if |u.rx| == 0 then (None, u) else (Some(u.rx[0]), UnorderedParMap(u.rx[1..]))
  }

  /** `UnorderedParMap::next`: a packet with a payload yields `(idx, value)`,
      a payload-free packet panics, a closed channel ends the sequence. */
  function Next<T>(u: UnorderedParMap<T>): (res: (Step<(nat, T)>, UnorderedParMap<T>))
    ensures res.0.Exhausted? <==> |u.rx| == 0
    ensures res.0.Panicked? <==> |u.rx| > 0 && u.rx[0].data.None?
    ensures res.0.Yield? <==> |u.rx| > 0 && u.rx[0].data.Some?
    ensures res.0.Yield? ==> res.0.value == (u.rx[0].idx, u.rx[0].data.value)
    ensures |u.rx| > 0 ==> res.1.rx == u.rx[1..]
    ensures |u.rx| == 0 ==> res.1 == u
  {
    var (received, rest) := Recv(u);
    match received
    case Some(Packet(idx, Some(x))) => (Yield((idx, x)), rest)
    case Some(Packet(_, None)) => (Panicked, rest)
    case None => (Exhausted, rest)
  }

  /** A consumer calling `next` until end of sequence or panic. It observes the
      received packets' items in arrival order up to the first payload-free
      packet; it reaches end of sequence exactly when there is none, so a
      failure is never reported as end of sequence. */
  function Drain<T>(u: UnorderedParMap<T>): (r: Run<(nat, T)>)
    decreases |u.rx|
    ensures |r.yielded| <= |u.rx|
    ensures forall j :: 0 <= j < |r.yielded| ==>
      u.rx[j].data.Some? && r.yielded[j] == (u.rx[j].idx, u.rx[j].data.value)
    ensures !r.failed <==> |r.yielded| == |u.rx|
    ensures r.failed ==> u.rx[|r.yielded|].data.None?
  {
    var (step, rest) := Next(u);
    match step
    case Exhausted => Run([], false)
    case Panicked => Run([], true)
    case Yield(item) => Prepend([item], Drain(rest))
  }

  /** A failure anywhere in the stream ends the run with the panic, never with
      end of sequence; with no failure every packet's item is observed. */
  lemma {:induction false} DrainFailsIffSomeFailure<T>(u: UnorderedParMap<T>)
    ensures Drain(u).failed <==> exists j :: 0 <= j < |u.rx| && u.rx[j].data.None?
  {
  }

  /** What a consumer draining `unordered_map(scope, inputs, f)` observes when
      the workers' packets arrive in the order `arrival`. */
  function UnorderedRun<X, T>(inputs: seq<X>, f: X -> Outcome<T>, arrival: seq<Packet<T>>): Run<(nat, T)>
    requires IsArrival(arrival, inputs, f)
  {
    Drain(UnorderedMap(inputs, f, arrival))
  }

  /** Some item of `ys` is tagged with index `i`. */
  ghost predicate YieldsIndex<T>(ys: seq<(nat, T)>, i: nat)
  {
    exists j :: 0 <= j < |ys| && ys[j].0 == i
  }

  /** For the stream of one `unordered_map` call where every closure returns:
      exactly one item per input, each the pair of an index and the value `f`
      computed for that input, with no index repeated and none missing. */
  lemma {:induction false} UnorderedYieldsEveryIndexOnce<X, T>(inputs: seq<X>, f: X -> Outcome<T>, arrival: seq<Packet<T>>)
    requires IsArrival(arrival, inputs, f)
    requires forall i :: 0 <= i < |inputs| ==> f(inputs[i]).Returned?
    ensures !UnorderedRun(inputs, f, arrival).failed
    ensures |UnorderedRun(inputs, f, arrival).yielded| == |inputs|
    ensures forall j :: 0 <= j < |inputs| ==>
      var (i, v) := UnorderedRun(inputs, f, arrival).yielded[j];
      i < |inputs| && f(inputs[i]) == Returned(v)
    ensures forall j, j' :: 0 <= j < j' < |inputs| ==>
      UnorderedRun(inputs, f, arrival).yielded[j].0 != UnorderedRun(inputs, f, arrival).yielded[j'].0
    ensures forall i :: 0 <= i < |inputs| ==> YieldsIndex(UnorderedRun(inputs, f, arrival).yielded, i)
  {
    ArrivalHasOnePacketPerIndex(arrival, inputs, f);
    var u := UnorderedMap(inputs, f, arrival);
    DrainFailsIffSomeFailure(u);
    assert u.rx == arrival;
    var ys := Drain(u).yielded;
    assert UnorderedRun(inputs, f, arrival).yielded == ys;
    forall i | 0 <= i < |inputs|
      ensures YieldsIndex(ys, i)
    {
      assert Carries(arrival, i);
      var j :| 0 <= j < |arrival| && arrival[j].idx == i;
      assert ys[j].0 == i;
    }
  }

  /** If some closure unwinds, draining the unordered iterator ends in the
      panic, whatever the arrival order. */
  lemma {:induction false} UnorderedSurfacesFailure<X, T>(inputs: seq<X>, f: X -> Outcome<T>, arrival: seq<Packet<T>>, k: nat)
    requires IsArrival(arrival, inputs, f)
    requires k < |inputs| && f(inputs[k]).Unwound?
    ensures UnorderedRun(inputs, f, arrival).failed
  {
    ArrivalHasOnePacketPerIndex(arrival, inputs, f);
    assert Carries(arrival, k);
    var j :| 0 <= j < |arrival| && arrival[j].idx == k;
    DrainFailsIffSomeFailure(UnorderedMap(inputs, f, arrival));
  }
}
