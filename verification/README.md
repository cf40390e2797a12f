# simple_parallel maps, modelled in Dafny

A model of the sequential logic in `src/maps.rs` of the `simple_parallel` crate.
`unordered_map` runs a closure `f` on every input element, one spawned worker
per element. Each worker reports through one channel with a `Packet`: the
element's position and `f`'s value, or no value when `f` panicked. The
`Panicker` completion guard makes sure a panicking worker still reports.
`UnorderedParMap::next` hands packets out in arrival order. `map` wraps the
same channel in `ParMap`, a reorder buffer: a `BinaryHeap` of packets plus a
counter `looking_for`. It releases values strictly in input order.

The model is sequential. The channel is the sequence of packets still to be
received; a closed channel is an empty sequence. The order in which workers
finish is a parameter, `arrival`, that may be any permutation of the packets
the workers send (`Workers.IsArrival`). The closure's result is an explicit
`Outcome` (`Returned(v)` or `Unwound`). The iterators' `panic!` is the step
result `Panicked`, and a consumer's view of a whole iteration is a `Run`: the
values it saw, and whether it stopped on the panic or on end of sequence.

Files, one module each:

- `packet.dfy` (`Packets`): `Packet`, its reversed `Ord`, and its `PartialEq`.
- `heap.dfy` (`Heap`): `BinaryHeap<Packet<T>>` as its contents, a max-heap
  under the reversed order.
- `worker.dfy` (`Workers`): the guard, the worker body, the `enumerate`
  numbering, and what arrives on the channel.
- `unordered.dfy` (`Unordered`): the receiver, `UnorderedParMap::next`, and a
  consumer draining it.
- `ordered.dfy` (`Ordered`): `ParMap`, `map`, `ParMap::next` as a loop, and
  the end-to-end theorem `Collect`.

The headline result is `Ordered.Collect`. For every arrival order, draining
`map(scope, inputs, f)` gives exactly `Ordered.SequentialMap(inputs, f)`, the
sequential `iter.map(f)`. That is: the values of the inputs in order, up to
the first closure that panicked; then the panic, and no value past it. With
no panic, every value appears, followed by end of sequence.

Two consequences of the code that the model makes explicit:

- `ParMap::next` reads the channel's receiver directly (`src/maps.rs:114`)
  rather than calling `UnorderedParMap::next`. So a failure packet is
  buffered like any other and surfaces only when its index is wanted; it is
  never raised on receipt.
- `UnorderedParMap::next` panics on the consumer's thread when it receives a
  failure packet (`src/maps.rs:41-43`). A consumer that does not catch that
  panic sees only the values that arrived before the failure packet.
  `Unordered.Drain` models such a consumer.

## Model

| member | source | states |
|---|---|---|
| Packets.Cmp | src/maps.rs:18-21 | a packet is Greater than another exactly when its index is smaller, Equal exactly when the indices are equal, and Less exactly when its index is larger |
| Packets.Eq | src/maps.rs:22-25 | two packets are equal exactly when their indices are equal, whatever their payloads, and this agrees with `Cmp` returning Equal |
| Packets.GreatestIsSmallestIdx | src/maps.rs:18-21 | a packet is a maximum of a multiset under `Cmp` exactly when it belongs to it and no member has a smaller index |
| Packets.CmpIsTotalOrder | src/maps.rs:15-21 | `Cmp` is antisymmetric (Less one way exactly when Greater the other) and transitive, as the max-heap requires of `Ord` |
| Heap.New | src/maps.rs:140 | the buffer `map` starts with holds no packet |
| Heap.Push | src/maps.rs:118 | the buffer's contents gain exactly the pushed packet |
| Heap.TopPos | src/maps.rs:104 | for a non-empty buffer, a position whose packet no buffered packet exceeds under `Cmp` |
| Heap.Peek | src/maps.rs:104 | nothing exactly when the buffer is empty; otherwise a greatest buffered packet under `Cmp`, which has an index no larger than any buffered packet |
| Heap.Pop | src/maps.rs:107 | returns the packet `peek` shows and removes exactly that packet from the contents |
| Workers.Drop | src/maps.rs:54-60 | the guard sends at most one packet; it sends exactly one when `all_ok` is false, and that packet carries the guard's index and no payload |
| Workers.RunWorker | src/maps.rs:78-83 | on both exit paths the worker sends exactly one packet with its own index; it carries a payload exactly when `f` returned, and then it is `f`'s value |
| Workers.Emitted | src/maps.rs:74-84 | the workers send one packet per input; the i-th is tagged `i` by `enumerate` and carries the payload of `f(inputs[i])` |
| Workers.ArrivalHasOnePacketPerIndex | src/maps.rs:72-84 | in any arrival order there are as many packets as inputs, every index below the input count appears exactly once, and each packet is the one its worker sent |
| Unordered.UnorderedMap | src/maps.rs:67-90 | for any order in which the workers finish, the iterator `unordered_map` returns will receive one packet per input; each carries the index of an input and that input's result (no payload when its closure unwound), and no index is received twice |
| Unordered.Recv | src/maps.rs:39 | receiving takes the first packet in arrival order; it reports the channel closed exactly when nothing is left |
| Unordered.Next | src/maps.rs:38-46 | a packet with a payload yields its index and value; a payload-free packet panics; a closed channel ends the sequence; each case happens exactly under its condition, and one packet is consumed |
| Unordered.Drain | src/maps.rs:35-46 | a consumer sees the received packets' index-value pairs in arrival order up to the first payload-free packet; it panics exactly there, and reaches end of sequence only after every packet |
| Unordered.DrainFailsIffSomeFailure | src/maps.rs:40-44 | the drain ends in the panic exactly when some received packet has no payload, so a failure is never reported as end of sequence |
| Unordered.UnorderedYieldsEveryIndexOnce | src/maps.rs:62-90 | when every closure returns, the unordered iterator yields exactly one item per input, each the index and the value `f` gave that input, every index exactly once |
| Unordered.UnorderedSurfacesFailure | src/maps.rs:41-43 | when any closure panics, draining the unordered iterator ends in the panic, whatever the arrival order |
| Ordered.Map | src/maps.rs:132-142 | `map` starts wanting index 0 with an empty buffer, and pending are exactly the packets the workers send, one per input, the i-th carrying index i and input i's result |
| Ordered.WantedOnTopIffOldestIsWanted | src/maps.rs:104 | the release test (the top of the buffer carries `looking_for`) holds exactly when some buffered packet carries the wanted index and none carries a smaller one |
| Ordered.Release | src/maps.rs:104-112 | with the wanted packet on top, it is popped, `looking_for` goes up by one, its payload is yielded or the iterator panics, and every packet left has an index no smaller |
| Ordered.Receive | src/maps.rs:114-118 | a received packet moves from the channel's front into the buffer; nothing is dropped and `looking_for` is unchanged |
| Ordered.Next | src/maps.rs:102-123 | one `next` consumes the channel only from its front; pending packets after it plus the released one equal those before; `looking_for` rises by one per release and never otherwise; it ends the sequence only on a closed channel without the wanted index on top; the release test comes before every `recv`, so a wanted packet already on top is released without receiving, and no packet received before the one that brings the wanted index to the top carries that index |
| Ordered.ReceiveKeepsScanned | src/maps.rs:104-118 | receiving one packet while the wanted one is not on top keeps the facts the loop needs: none of the packets received so far carried the wanted index, except possibly the last one once the wanted packet is on top |
| Ordered.NextEndsIffWantedMissing | src/maps.rs:104-121 | when no pending packet is older than `looking_for`, `next` ends the sequence exactly when no pending packet carries the wanted index |
| Ordered.SequentialMap | src/maps.rs:126-131 | the sequential map yields each input's value in order while the closure returns; it fails exactly at the first input whose closure unwinds; otherwise it yields a value for every input |
| Ordered.NextReleasesInOrder | src/maps.rs:102-123 | after releasing indices `0..k` from any arrival order, `next` yields input k's value (or panics if its closure did) and leaves exactly the packets of inputs after k pending; once all are released it ends the sequence |
| Ordered.CollectStep | src/maps.rs:102-123 | one `next` call by a consumer that has seen inputs `0..k`'s values: a value is input k's result and leaves exactly the later inputs pending; end of sequence or the panic comes exactly where the sequential map ends or fails |
| Ordered.Collect | src/maps.rs:126-142 | for every arrival order, draining `map(scope, inputs, f)` gives exactly the sequential map's values and outcome |
| Ordered.UnorderedAgreesWithOrdered | src/maps.rs:62-66 | when every closure returns, the unordered iterator yields the ordered iterator's values, each tagged with its position, each position once, in some order |

## Left out

- Thread spawning and lifetimes (`crossbeam::Scope`, `ScopedJoinHandle`, the `_guards` vector, the `Send`/`Sync`/`'a` bounds): concurrency plumbing with no sequential content. The interleaving of workers appears only as the arrival order.
- `mpsc` blocking and closing: the channel is the finite sequence of packets still to arrive. "Closed" means empty, which is what `recv` sees once every worker has finished and dropped its sender.
- A failing `send` (its result is discarded with `let _ =`): it only fails when the receiver is gone, that is after the iterator was dropped, and no consumer is left to observe anything.
- `Arc` sharing of `f`: reference counting only.
- Closures with interior mutability: the bound `Fn(I::Item) -> T` (`src/maps.rs:69`, `src/maps.rs:134`) admits closures whose result depends on hidden state. The model assumes `f: X -> Outcome<T>`, so equal inputs give equal outcomes. A per-position outcome is still expressible by taking `X` to be the positions.
- Closures that never return: `recv` then blocks forever (`src/maps.rs:39`, `src/maps.rs:114`) and neither iterator ends. `Outcome` has only `Returned` and `Unwound`, so every closure is assumed to terminate.
- Panics and unwinding: the closure's panic is the outcome `Unwound`; the iterators' `panic!` is the step result `Panicked`. Catching that panic and calling `next` again is not modelled; a consumer stops there.
- The `BinaryHeap` implementation: the buffer is a sequence read as a multiset, and `peek` picks the first greatest packet. A real heap may pick another packet among those with equal indices; for the streams of one `map` call indices are unique, so this makes no difference.
- `PartialOrd for Packet` (`src/maps.rs:15-17`): it returns `Some` of `Cmp`, so the model uses `Cmp` directly.
- `usize` arithmetic on `idx` and `looking_for` is unbounded `nat` here. Indices are input positions, so they stay below the input count and `looking_for += 1` cannot wrap.
