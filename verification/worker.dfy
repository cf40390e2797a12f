/** The worker side of `unordered_map`: the completion guard (`Panicker`),
    the body each spawned worker runs, and the packets all workers send. */
module Workers {
  import opened Packets

  /** How one call of the mapped closure `f` ends: it returns a value, or it
      panics and unwinds. */
  datatype Outcome<T> = Returned(value: T) | Unwound
  {
    /** The payload a packet reporting this outcome carries. */
    function Payload(): Option<T>
    {
      match this
      case Returned(v) => Some(v)
      case Unwound => None
    }
  }

  /** The completion guard. Its sender handle is implicit: the packets it
      sends are returned by `Drop`. */
  datatype Panicker = Panicker(idx: nat, allOk: bool)

  /** `Drop for Panicker`: a payload-free packet for the guard's index is sent
      exactly when the worker body did not mark itself finished. */
  function Drop<T>(p: Panicker): (sent: seq<Packet<T>>)
    ensures |sent| <= 1
    ensures |sent| == 1 <==> !p.allOk
    ensures forall q | q in sent :: q.idx == p.idx && q.data.None?
  {
    if !p.allOk then [Packet(p.idx, None)] else []
  }

  /** The closure spawned for input position `idx`: arm a guard, call `f`,
      send its value and disarm the guard; the guard is dropped on both exit
      paths. On either path exactly one packet is sent, carrying the index and
      the value exactly when `f` returned. */
  function RunWorker<T>(idx: nat, outcome: Outcome<T>): (sent: seq<Packet<T>>)
    ensures |sent| == 1
    ensures sent[0].idx == idx
    ensures sent[0].data.Some? <==> outcome.Returned?
    ensures outcome.Returned? ==> sent[0].data.value == outcome.value
  {
    var guard := Panicker(idx, false);
    match outcome
    case Returned(val) =>
      // normal exit: the body sends, sets `all_ok`, then the guard drops
      [Packet(guard.idx, Some(val))] + Drop(guard.(allOk := true))
    case Unwound =>
      // `f` unwound: only the guard's drop runs
      Drop(guard)
  }

  /** The packets sent by the workers for `inputs[start..]`, in input order;
      each worker receives its position from `enumerate`. */
  function SpawnFrom<X, T>(inputs: seq<X>, f: X -> Outcome<T>, start: nat): (sent: seq<Packet<T>>)
    requires start <= |inputs|
    decreases |inputs| - start
    ensures |sent| == |inputs| - start
    ensures forall j :: 0 <= j < |sent| ==> sent[j] == Packet(start + j, f(inputs[start + j]).Payload())
  {
    if start == |inputs| then []
    else RunWorker(start, f(inputs[start])) + SpawnFrom(inputs, f, start + 1)
  }

  /** Everything the workers of one `unordered_map` call send: one packet per
      input element, tagged densely with `0 .. |inputs|`. */
  function Emitted<X, T>(inputs: seq<X>, f: X -> Outcome<T>): (sent: seq<Packet<T>>)
    ensures |sent| == |inputs|
    ensures forall i :: 0 <= i < |sent| ==> sent[i].idx == i && sent[i].data == f(inputs[i]).Payload()
  {
    SpawnFrom(inputs, f, 0)
  }

  /** The channel delivers the emitted packets in some order: `arrival` is any
      permutation of them. */
  ghost predicate IsArrival<X, T>(arrival: seq<Packet<T>>, inputs: seq<X>, f: X -> Outcome<T>)
  {
    multiset(arrival) == multiset(Emitted(inputs, f))
  }

  /** Some packet of `stream` carries index `i`. */
  ghost predicate Carries<T>(stream: seq<Packet<T>>, i: nat)
  {
    exists j :: 0 <= j < |stream| && stream[j].idx == i
  }

  /** In a sequence whose i-th packet has index i, every packet occurs once. */
  lemma {:induction false} DenseCountIsOne<T>(e: seq<Packet<T>>, i: nat)
    requires forall m :: 0 <= m < |e| ==> e[m].idx == m
    requires i < |e|
    ensures multiset(e)[e[i]] == 1
  {
    assert e == e[..i] + [e[i]] + e[i + 1..];
    assert e[i] !in e[..i];
    assert e[i] !in e[i + 1..];
    assert multiset(e) == multiset(e[..i]) + multiset{e[i]} + multiset(e[i + 1..]);
  }

  /** An element found at two positions occurs at least twice. */
  lemma TwiceCountsTwice<T>(s: seq<T>, j: nat, j': nat)
    requires j < j' < |s| && s[j] == s[j']
    ensures multiset(s)[s[j]] >= 2
  {
    assert s == s[..j] + [s[j]] + s[j + 1..j'] + [s[j']] + s[j' + 1..];
  }

  /** Every packet that arrives is the one its worker sent. */
  lemma ArrivedPacketsWereEmitted<X, T>(arrival: seq<Packet<T>>, inputs: seq<X>, f: X -> Outcome<T>)
    requires IsArrival(arrival, inputs, f)
    ensures forall j :: 0 <= j < |arrival| ==>
      arrival[j].idx < |inputs| && arrival[j] == Emitted(inputs, f)[arrival[j].idx]
  {
    var e := Emitted(inputs, f);
    forall j | 0 <= j < |arrival|
      ensures arrival[j].idx < |e| && arrival[j] == e[arrival[j].idx]
    {
      assert arrival[j] in multiset(e);
      var m :| 0 <= m < |e| && e[m] == arrival[j];
    }
  }

  /** Whatever the arrival order, the stream holds exactly one packet per
      index `0 .. |inputs|`, and it is the packet that worker sent. */
  lemma ArrivalHasOnePacketPerIndex<X, T>(arrival: seq<Packet<T>>, inputs: seq<X>, f: X -> Outcome<T>)
    requires IsArrival(arrival, inputs, f)
    ensures |arrival| == |inputs|
    ensures forall j :: 0 <= j < |arrival| ==>
      arrival[j].idx < |inputs| && arrival[j].data == f(inputs[arrival[j].idx]).Payload()
    ensures forall j, j' :: 0 <= j < j' < |arrival| ==> arrival[j].idx != arrival[j'].idx
    ensures forall i :: 0 <= i < |inputs| ==> Carries(arrival, i)
  {
    var e := Emitted(inputs, f);
    assert |arrival| == |multiset(arrival)| == |multiset(e)| == |inputs|;
    ArrivedPacketsWereEmitted(arrival, inputs, f);
    forall j, j' | 0 <= j < j' < |arrival|
      ensures arrival[j].idx != arrival[j'].idx
    {
      if arrival[j].idx == arrival[j'].idx {
        TwiceCountsTwice(arrival, j, j');
        DenseCountIsOne(e, arrival[j].idx);
      }
    }
    forall i | 0 <= i < |inputs|
      ensures Carries(arrival, i)
    {
      assert e[i] in multiset(arrival);
      var j :| 0 <= j < |arrival| && arrival[j] == e[i];
    }
  }

  /** The packets of workers `k ..` carry indices from `k` on, and the one
      carrying `k` is worker k's. */
  lemma EmittedFromHolds<X, T>(inputs: seq<X>, f: X -> Outcome<T>, k: nat, p: Packet<T>)
    requires k <= |inputs|
    requires p in multiset(Emitted(inputs, f)[k..])
    ensures k <= p.idx < |inputs|
    ensures p.idx == k ==> p == Packet(k, f(inputs[k]).Payload())
  {
  }

  /** Worker k's packet, then those of workers `k + 1 ..`. */
  lemma EmittedFromSplit<X, T>(inputs: seq<X>, f: X -> Outcome<T>, k: nat)
    requires k < |inputs|
    ensures multiset(Emitted(inputs, f)[k..])
         == multiset{Packet(k, f(inputs[k]).Payload())} + multiset(Emitted(inputs, f)[k + 1..])
  {
    var e := Emitted(inputs, f);
    assert e[k..] == [e[k]] + e[k + 1..];
  }
}
