/**
  An honest stream delivered to the reordering decoder in any order, with any repeats.  `states` are the
  states published, the first at sequence 1; a packet is honest when it describes one of them.
  */
module OutOfOrder {
  import opened Core
  import opened Wire
  import opened Sync
  import opened Reorder

  /** Opened or patched by a decoder in the right place, the packet gives the state of its sequence. */
  ghost predicate Honest<S>(setup: Setup<S>, states: seq<S>, p: Packet) {
    && 1 <= p.sequence <= |states| < U64_LIMIT - 1
    && p.schemaHash == setup.codec.schemaHash
    && LogicalPayload(setup.zstd, p, setup.maxPayload).Ok?
    && var payload := LogicalPayload(setup.zstd, p, setup.maxPayload).value;
       var current := states[p.sequence - 1];
       match p.kind
       case Snapshot => setup.codec.open(payload, p.baseHash) == Ok(current)
       case Delta =>
         && p.sequence >= 2
         && p.baseSequence == p.sequence - 1
         && setup.codec.hash(states[p.sequence - 2]) == Ok(p.baseHash)
         && setup.codec.patch(payload, states[p.sequence - 2]) == Ok(current)
  }

  ghost predicate Synced<S>(states: seq<S>, r: Receiver<S>) {
    match r.sequence
    case None => r.state == None
    case Some(s) => 1 <= s <= |states| && r.state == Some(states[s - 1])
  }

  /** What a decoder in step with the stream makes of an honest packet. */
  lemma HonestOutcome<S>(setup: Setup<S>, states: seq<S>, r: Receiver<S>, p: Packet)
    requires Honest(setup, states, p) && Synced(states, r) && WindowInv(setup, r)
    ensures var (r', outcome) := Receive(setup, r, p);
            && WindowInv(setup, r') && Synced(states, r')
            && if r.sequence.Some? && p.sequence <= r.sequence.value then
                 r' == r && outcome == Ok(Duplicate(p.sequence))
               else if p.kind == Snapshot || r.sequence == Some(p.baseSequence) then
                 && r'.sequence == Some(p.sequence)
                 && outcome == Ok(Applied(p.sequence, states[p.sequence - 1]))
               else
                 r' == r && outcome == Ok(NeedSnapshot(r.sequence, p.baseSequence))
  {
    SeenMeansNotNewer(setup, r, p);
    ReceiveAdvances(setup, r, p);
    hide WindowInv, Seen, LogicalPayload;
  }

  /** Between calls: in step, the buffer honest, and nothing in it that could have been applied. */
  ghost predicate Resting<S>(config: Config<S>, states: seq<S>, st: ReorderState<S>) {
    && Draining(config, states, st)
    && (st.inner.sequence.Some? ==> st.inner.sequence.value + 1 !in st.pending)
  }

  ghost predicate Draining<S>(config: Config<S>, states: seq<S>, st: ReorderState<S>) {
    && WindowInv(config.setup, st.inner)
    && Synced(states, st.inner)
    && |st.pending| <= config.maxPending
    && (forall k | k in st.pending :: Waiting(config, states, k, st.pending[k]))
  }

  ghost predicate Waiting<S>(config: Config<S>, states: seq<S>, key: u64, p: Packet) {
    Honest(config.setup, states, p) && p.kind == Delta && p.sequence == key
  }

  /** The packet of sequence `s` has been applied or is waiting. */
  predicate Held<S>(st: ReorderState<S>, s: u64) {
    (st.inner.sequence.Some? && s <= st.inner.sequence.value) || s in st.pending
  }

  /** The state once the next waiting packet has been taken out and applied. */
  function AfterNext<S>(config: Config<S>, st: ReorderState<S>): ReorderState<S>
    requires st.inner.sequence.Some? && st.inner.sequence.value + 1 in st.pending
  {
    var next := st.inner.sequence.value + 1;
    ReorderState(Receive(config.setup, st.inner, st.pending[next]).0, st.pending - {next})
  }

  lemma NextIsApplied<S>(config: Config<S>, states: seq<S>, st: ReorderState<S>)
    requires Draining(config, states, st) && st.inner.sequence.Some?
    requires st.inner.sequence.value + 1 in st.pending
    ensures var local := st.inner.sequence.value;
            var after := AfterNext(config, st);
            && local < |states| < U64_LIMIT - 1
            && Draining(config, states, after)
            && after.inner.sequence == Some(local + 1) && |after.pending| < |st.pending|
            && Receive(config.setup, st.inner, st.pending[local + 1]).1 == Ok(Applied(local + 1, states[local]))
  {
    hide WindowInv, Receive, Honest;
    var local := st.inner.sequence.value;
    var p := st.pending[local + 1];
    assert Waiting(config, states, local + 1, p);
    BaseIsPrevious(config.setup, states, p);
    HonestOutcome(config.setup, states, st.inner, p);
    Fewer(st.pending, local + 1);
  }

  lemma NextStaysHeld<S>(config: Config<S>, st: ReorderState<S>, s: u64)
    requires st.inner.sequence.Some? && st.inner.sequence.value + 1 in st.pending
    requires AfterNext(config, st).inner.sequence == Some(st.inner.sequence.value + 1)
    requires Held(st, s)
    ensures Held(AfterNext(config, st), s)
  {
    hide Receive;
  }

  lemma DrainStep<S>(config: Config<S>, st: ReorderState<S>, sequence: u64, state: S, drained: nat)
    requires st.inner.sequence.Some? && st.inner.sequence.value < U64_LIMIT - 1
    ensures var local := st.inner.sequence.value;
            if local + 1 !in st.pending then
              Drain(config, st, sequence, state, drained) == (st, Ok(AppliedAndDrained(local, state, drained)))
            else
              var r := Receive(config.setup, st.inner, st.pending[local + 1]).1;
              r.Ok? && r.value.Applied? ==>
                Drain(config, st, sequence, state, drained) ==
                Drain(config, AfterNext(config, st), sequence, r.value.state, drained + 1)
  {
    hide Receive;
  }

  /**
    Draining an honest buffer always succeeds: it ends at rest, has lost nothing, has counted every
    packet it applied, and reports the state of the sequence it ends at.
    */
  lemma {:induction false} DrainIsHonest<S>(config: Config<S>, states: seq<S>, st: ReorderState<S>, sequence: u64,
                                            state: S, drained: nat)
    requires Draining(config, states, st) && st.inner.sequence.Some? && |states| < U64_LIMIT - 1
    requires st.inner.sequence.value <= |states| && state == states[st.inner.sequence.value - 1]
    ensures var (st', r) := Drain(config, st, sequence, state, drained);
            && Resting(config, states, st')
            && st'.inner.sequence.Some?
            && st.inner.sequence.value <= st'.inner.sequence.value <= |states|
            && r == Ok(AppliedAndDrained(st'.inner.sequence.value, states[st'.inner.sequence.value - 1],
                                         drained + (st'.inner.sequence.value - st.inner.sequence.value)))
            && forall s | Held(st, s) :: Held(st', s)
    decreases |st.pending|
  {
    hide Draining, Drain, Receive, AfterNext, Held;
    var local := st.inner.sequence.value;
    DrainStep(config, st, sequence, state, drained);
    if local + 1 in st.pending {
      NextIsApplied(config, states, st);
      DrainIsHonest(config, states, AfterNext(config, st), sequence, states[local], drained + 1);
      forall s | Held(st, s) ensures Held(AfterNext(config, st), s) {
        NextStaysHeld(config, st, s);
      }
    }
  }

  lemma BaseIsPrevious<S>(setup: Setup<S>, states: seq<S>, p: Packet)
    requires Honest(setup, states, p) && p.kind == Delta
    ensures p.sequence >= 2 && p.baseSequence == p.sequence - 1
    ensures p.sequence <= |states| < U64_LIMIT - 1
  {
  }

  /** When an honest packet draws a request for recovery: exactly these cases. */
  predicate Refused<S>(config: Config<S>, st: ReorderState<S>, p: Packet) {
    p.kind == Delta &&
    (st.inner.sequence.None? ||
     (p.baseSequence > st.inner.sequence.value &&
      (p.baseSequence - st.inner.sequence.value > config.maxGap || |st.pending| >= config.maxPending)))
  }

  /** One honest delivery. */
  lemma ApplyIsHonest<S>(config: Config<S>, states: seq<S>, st: ReorderState<S>, p: Packet)
    requires Resting(config, states, st) && Honest(config.setup, states, p)
    ensures var (st', r) := Apply(config, st, p);
            && Resting(config, states, st')
            && r.Ok?
            && (r.value.NeedRecovery? <==> Refused(config, st, p))
            && (r.value.NeedRecovery? ==> st' == st)
            && (!r.value.NeedRecovery? ==> Held(st', p.sequence) && st'.inner.sequence.Some?)
            && (forall s | Held(st, s) :: Held(st', s))
  {
    hide WindowInv, Receive, Honest, Drain;
    if p.kind == Delta {
      BaseIsPrevious(config.setup, states, p);
    }
    if !Early(st, p) {
      HonestOutcome(config.setup, states, st.inner, p);
      var (inner, r) := Receive(config.setup, st.inner, p);
      if r.value.Applied? {
        InRange(config.setup, states, p);
        DrainIsHonest(config, states, st.(inner := inner), p.sequence, r.value.state, 0);
      }
    }
  }

  /** The moment between applying an honest packet and draining. */
  lemma AppliedIsDraining<S>(config: Config<S>, states: seq<S>, st: ReorderState<S>, p: Packet)
    requires Draining(config, states, st) && Honest(config.setup, states, p)
    ensures Draining(config, states, st.(inner := Receive(config.setup, st.inner, p).0))
  {
    hide WindowInv, Receive, Honest, Synced, Waiting;
    HonestOutcome(config.setup, states, st.inner, p);
  }

  /** The whole answer to an honest packet. */
  lemma AnswerToHonest<S>(config: Config<S>, states: seq<S>, st: ReorderState<S>, p: Packet)
    requires Resting(config, states, st) && Honest(config.setup, states, p)
    ensures var (st', r) := Apply(config, st, p);
            var local := st.inner.sequence;
            if Refused(config, st, p) then
              st' == st && r == Ok(NeedRecovery(local, p.baseSequence))
            else if local.Some? && p.sequence <= local.value then
              st' == st && r == Ok(AlreadySeen(p.sequence))
            else if p.kind == Delta && p.baseSequence > local.value then
              && st'.inner == st.inner && r == Ok(Buffered(p.sequence))
              && st'.pending == map[p.sequence := p] + st.pending
            else
              && st'.inner.sequence.Some?
              && p.sequence <= st'.inner.sequence.value <= |states|
              && var end := st'.inner.sequence.value;
                 r == Ok(AppliedAndDrained(end, states[end - 1], end - p.sequence))
  {
    hide WindowInv, Receive, Honest, Drain, Draining, Apply, Refused;
    InRange(config.setup, states, p);
    if p.kind == Delta {
      BaseIsPrevious(config.setup, states, p);
    }
    ApplyEarly(config, st, p);
    if !Early(st, p) {
      ApplyNow(config, st, p);
      OutcomeInDraining(config, states, st, p);
      var (inner, r) := Receive(config.setup, st.inner, p);
      if r.value.Applied? {
        AppliedIsDraining(config, states, st, p);
        DrainIsHonest(config, states, st.(inner := inner), p.sequence, r.value.state, 0);
      }
    }
  }

  lemma ApplyEarly<S>(config: Config<S>, st: ReorderState<S>, p: Packet)
    ensures Refused(config, st, p) <==>
            p.kind == Delta && (st.inner.sequence.None? || (Early(st, p) && !HasRoom(config, st, p)))
    ensures Early(st, p) && Refused(config, st, p) ==>
              Apply(config, st, p) == (st, Ok(NeedRecovery(st.inner.sequence, p.baseSequence)))
    ensures Early(st, p) && !Refused(config, st, p) ==>
              var (st', r) := Apply(config, st, p);
              && st'.inner == st.inner && r == Ok(Buffered(p.sequence))
              && st'.pending == map[p.sequence := p] + st.pending
  {
    hide Receive;
  }

  lemma ApplyNow<S>(config: Config<S>, st: ReorderState<S>, p: Packet)
    requires !Early(st, p)
    ensures var (inner, r) := Receive(config.setup, st.inner, p);
            && (r.Ok? && r.value.Applied? ==>
                  Apply(config, st, p) == Drain(config, st.(inner := inner), r.value.sequence, r.value.state, 0))
            && (r.Ok? && r.value.Duplicate? ==>
                  Apply(config, st, p) == (st.(inner := inner), Ok(AlreadySeen(r.value.sequence))))
            && (r.Ok? && r.value.NeedSnapshot? ==>
                  Apply(config, st, p) ==
                  (st.(inner := inner), Ok(NeedRecovery(r.value.local, r.value.required))))
  {
    hide Receive, Drain;
  }

  lemma OutcomeInDraining<S>(config: Config<S>, states: seq<S>, st: ReorderState<S>, p: Packet)
    requires Draining(config, states, st) && Honest(config.setup, states, p)
    ensures var (r', outcome) := Receive(config.setup, st.inner, p);
            var local := st.inner.sequence;
            if local.Some? && p.sequence <= local.value then
              r' == st.inner && outcome == Ok(Duplicate(p.sequence))
            else if p.kind == Snapshot || local == Some(p.baseSequence) then
              && r'.sequence == Some(p.sequence) && 1 <= p.sequence <= |states|
              && outcome == Ok(Applied(p.sequence, states[p.sequence - 1]))
            else
              r' == st.inner && outcome == Ok(NeedSnapshot(local, p.baseSequence))
  {
    hide WindowInv, Receive, Honest, Synced, Waiting;
    InRange(config.setup, states, p);
    HonestOutcome(config.setup, states, st.inner, p);
  }

  lemma InRange<S>(setup: Setup<S>, states: seq<S>, p: Packet)
    requires Honest(setup, states, p)
    ensures 1 <= p.sequence <= |states| < U64_LIMIT - 1
  {
  }

  /** No delivery of the run was answered with a request for recovery. */
  predicate NeverRefused<S>(config: Config<S>, st: ReorderState<S>, packets: seq<Packet>)
    decreases |packets|
  {
    packets == [] ||
    (var (st', r) := Apply(config, st, packets[0]);
     !(r.Ok? && r.value.NeedRecovery?) && NeverRefused(config, st', packets[1..]))
  }

  lemma {:induction false} RunIsHonest<S>(config: Config<S>, states: seq<S>, st: ReorderState<S>,
                                          packets: seq<Packet>)
    requires Resting(config, states, st) && forall p | p in packets :: Honest(config.setup, states, p)
    ensures var st' := Reorder.Run(config, st, packets);
            && Resting(config, states, st')
            && (forall s | Held(st, s) :: Held(st', s))
            && (NeverRefused(config, st, packets) ==> forall p | p in packets :: Held(st', p.sequence))
    decreases |packets|
  {
    if packets != [] {
      hide Resting, Honest, Apply, Held, Refused;
      assert packets[0] in packets;
      ApplyIsHonest(config, states, st, packets[0]);
      assert forall p | p in packets[1..] :: p in packets;
      RunIsHonest(config, states, Apply(config, st, packets[0]).0, packets[1..]);
      assert forall p | p in packets :: p == packets[0] || p in packets[1..];
    }
  }

  predicate Delivered(packets: seq<Packet>, s: u64) {
    exists p | p in packets :: p.sequence == s
  }

  /**
    Every packet of the stream, in any order and with any repeats: unless a call asked for recovery,
    the decoder ends at the last sequence with the last state.
    */
  lemma AnyOrderReachesTheEnd<S>(config: Config<S>, states: seq<S>, packets: seq<Packet>)
    requires WellSet(config) && states != []
    requires forall p | p in packets :: Honest(config.setup, states, p)
    requires forall s: u64 | 1 <= s <= |states| :: Delivered(packets, s)
    requires NeverRefused(config, NewReorder(), packets)
    ensures var st := Reorder.Run(config, NewReorder(), packets);
            st.inner.sequence == Some(|states|) && st.inner.state == Some(states[|states| - 1])
  {
    var st := Reorder.Run(config, NewReorder(), packets);
    StartsResting(config, states);
    RunIsHonest(config, states, NewReorder(), packets);
    hide Honest, Reorder.Run, NeverRefused, WindowInv, Waiting;
    forall s: u64 | 1 <= s <= |states| ensures Held(st, s) {
      assert Delivered(packets, s);
    }
    assert |states| < U64_LIMIT - 1 by {
      assert Delivered(packets, 1);
      var p :| p in packets && p.sequence == 1;
      InRange(config.setup, states, p);
    }
    assert Held(st, 1);
    assert st.inner.sequence.value + 1 <= |states| ==> Held(st, st.inner.sequence.value + 1);
  }

  lemma StartsResting<S>(config: Config<S>, states: seq<S>)
    requires WellSet(config)
    ensures Resting(config, states, NewReorder())
  {
  }

  // ---------------------------------------------------------------- when nothing is refused

  lemma {:induction false} KeysBelow(keys: set<u64>, n: nat)
    requires forall k | k in keys :: 1 <= k <= n
    ensures |keys| <= n
  {
    if n == 0 {
      assert keys == {};
    } else {
      assert forall k | k in keys - {n} :: 1 <= k <= n - 1;
      KeysBelow(keys - {n}, n - 1);
      assert keys <= keys - {n} + {n};
      if n !in keys {
        assert keys - {n} == keys;
      }
    }
  }

  /** Once a snapshot is in, a buffer as large as the stream never refuses a packet of it. */
  lemma RoomForTheStream<S>(config: Config<S>, states: seq<S>, st: ReorderState<S>, p: Packet)
    requires Resting(config, states, st) && Honest(config.setup, states, p)
    requires |states| <= config.maxGap && |states| <= config.maxPending
    requires st.inner.sequence.Some?
    ensures !Refused(config, st, p)
  {
    hide WindowInv, Honest;
    InRange(config.setup, states, p);
    if Early(st, p) {
      BaseIsPrevious(config.setup, states, p);
      forall k | k in st.pending.Keys ensures 1 <= k - 1 <= |states| - 1 {
        assert Waiting(config, states, k, st.pending[k]);
        BaseIsPrevious(config.setup, states, st.pending[k]);
      }
      var n := |states|;
      FewerThanStream(st.pending.Keys, n);
    }
  }

  lemma FewerThanStream(keys: set<u64>, n: nat)
    requires n >= 1 && forall k | k in keys :: 2 <= k <= n
    ensures |keys| < n
  {
    if 1 in keys {
    } else {
      KeysBelow(keys + {1}, n);
      assert |keys + {1}| == |keys| + 1;
    }
  }

  lemma {:induction false} SnapshotFirstIsNeverRefused<S>(config: Config<S>, states: seq<S>, st: ReorderState<S>,
                                                          packets: seq<Packet>)
    requires Resting(config, states, st) && forall p | p in packets :: Honest(config.setup, states, p)
    requires |states| <= config.maxGap && |states| <= config.maxPending
    requires st.inner.sequence.Some? || (packets != [] && packets[0].kind == Snapshot)
    ensures NeverRefused(config, st, packets)
    decreases |packets|
  {
    if packets != [] {
      hide Resting, Honest, Apply, Held;
      assert packets[0] in packets;
      ApplyIsHonest(config, states, st, packets[0]);
      if st.inner.sequence.Some? {
        RoomForTheStream(config, states, st, packets[0]);
      }
      assert forall p | p in packets[1..] :: p in packets;
      SnapshotFirstIsNeverRefused(config, states, Apply(config, st, packets[0]).0, packets[1..]);
    }
  }

  /** With a snapshot first and a buffer as large as the stream, any order of the rest gets to the end. */
  lemma SnapshotFirstReachesTheEnd<S>(config: Config<S>, states: seq<S>, packets: seq<Packet>)
    requires WellSet(config) && states != []
    requires forall p | p in packets :: Honest(config.setup, states, p)
    requires forall s: u64 | 1 <= s <= |states| :: Delivered(packets, s)
    requires |states| <= config.maxGap && |states| <= config.maxPending
    requires packets != [] && packets[0].kind == Snapshot
    ensures var st := Reorder.Run(config, NewReorder(), packets);
            st.inner.sequence == Some(|states|) && st.inner.state == Some(states[|states| - 1])
  {
    hide Honest, NeverRefused, Reorder.Run, Delivered, Resting;
    StartsResting(config, states);
    SnapshotFirstIsNeverRefused(config, states, NewReorder(), packets);
    AnyOrderReachesTheEnd(config, states, packets);
  }

  // ---------------------------------------------------------------- after a refusal

  /** The packet is applied at once: a newer snapshot, or the delta that comes next. */
  predicate AppliesNow<S>(st: ReorderState<S>, p: Packet) {
    && !(st.inner.sequence.Some? && p.sequence <= st.inner.sequence.value)
    && (p.kind == Snapshot || st.inner.sequence == Some(p.baseSequence))
  }

  /** Draining removes exactly the entries that it passes. */
  lemma {:induction false} DrainRemoves<S>(config: Config<S>, states: seq<S>, st: ReorderState<S>, sequence: u64,
                                           state: S, drained: nat)
    requires Draining(config, states, st) && st.inner.sequence.Some? && |states| < U64_LIMIT - 1
    requires st.inner.sequence.value <= |states| && state == states[st.inner.sequence.value - 1]
    ensures var st' := Drain(config, st, sequence, state, drained).0;
            && st'.inner.sequence.Some?
            && st.inner.sequence.value <= st'.inner.sequence.value
            && (forall k :: st.inner.sequence.value < k <= st'.inner.sequence.value ==> k in st.pending)
            && (forall k :: k in st'.pending <==>
                            k in st.pending && !(st.inner.sequence.value < k <= st'.inner.sequence.value))
    decreases |st.pending|
  {
    hide Draining, Drain, Receive, Resting, Held;
    var local := st.inner.sequence.value;
    DrainStep(config, st, sequence, state, drained);
    if local + 1 in st.pending {
      NextIsApplied(config, states, st);
      var after := AfterNext(config, st);
      DrainRemoves(config, states, after, sequence, states[local], drained + 1);
      var end := Drain(config, st, sequence, state, drained).0.inner.sequence.value;
      forall k | local < k <= end ensures k in st.pending {
        assert k == local + 1 || k in after.pending;
      }
    }
  }

  /**
    A packet that applies at once takes with it the waiting packets that follow on from it, and no others:
    entries that a snapshot jumps over stay where they are.
    */
  lemma WhatStays<S>(config: Config<S>, states: seq<S>, st: ReorderState<S>, p: Packet)
    requires Resting(config, states, st) && Honest(config.setup, states, p) && AppliesNow(st, p)
    ensures var st' := Apply(config, st, p).0;
            && st'.inner.sequence.Some? && p.sequence <= st'.inner.sequence.value <= |states|
            && (forall k :: p.sequence < k <= st'.inner.sequence.value ==> k in st.pending)
            && (forall k :: k in st'.pending <==> k in st.pending && !(p.sequence < k <= st'.inner.sequence.value))
  {
    hide WindowInv, Receive, Honest, Drain;
    InRange(config.setup, states, p);
    HonestOutcome(config.setup, states, st.inner, p);
    var (inner, r) := Receive(config.setup, st.inner, p);
    DrainRemoves(config, states, st.(inner := inner), p.sequence, r.value.state, 0);
    DrainIsHonest(config, states, st.(inner := inner), p.sequence, r.value.state, 0);
  }

  lemma UpToDateState<S>(config: Config<S>, states: seq<S>, st: ReorderState<S>)
    requires Resting(config, states, st) && st.inner.sequence == Some(|states|)
    ensures st.inner.state == Some(states[|states| - 1])
  {
    hide WindowInv, Waiting;
  }

  lemma NotBeyond<S>(config: Config<S>, states: seq<S>, st: ReorderState<S>)
    requires Resting(config, states, st) && st.inner.sequence.Some?
    ensures st.inner.sequence.value <= |states|
  {
    hide WindowInv, Waiting;
  }

  /** From wherever a stream has taken it, a snapshot of the last state brings the decoder to the end. */
  lemma LastSnapshotReachesTheEnd<S>(config: Config<S>, states: seq<S>, st: ReorderState<S>, p: Packet)
    requires Resting(config, states, st) && Honest(config.setup, states, p)
    requires p.kind == Snapshot && p.sequence == |states|
    ensures var st' := Apply(config, st, p).0;
            && Resting(config, states, st')
            && st'.inner.sequence == Some(|states|) && st'.inner.state == Some(states[|states| - 1])
  {
    hide Resting, Honest, Apply;
    ApplyIsHonest(config, states, st, p);
    InRange(config.setup, states, p);
    if AppliesNow(st, p) {
      WhatStays(config, states, st, p);
    } else {
      NotBeyond(config, states, st);
      RefusedSnapshotChangesNothing(config, states, st, p);
    }
    UpToDateState(config, states, Apply(config, st, p).0);
  }

  lemma RefusedSnapshotChangesNothing<S>(config: Config<S>, states: seq<S>, st: ReorderState<S>, p: Packet)
    requires Resting(config, states, st) && Honest(config.setup, states, p)
    requires p.kind == Snapshot && !AppliesNow(st, p)
    ensures Apply(config, st, p).0 == st
  {
    hide WindowInv, Receive, Honest, Drain, Waiting;
    HonestOutcome(config.setup, states, st.inner, p);
  }

  /** A waiting delta that the decoder has passed: it will never be applied, nor taken out. */
  predicate Stale<S>(st: ReorderState<S>, k: u64) {
    k in st.pending && st.inner.sequence.Some? && k <= st.inner.sequence.value
  }

  /** The same decoder without its stale entries. */
  function WithoutStale<S>(st: ReorderState<S>): ReorderState<S> {
    st.(pending := map k | k in st.pending && !Stale(st, k) :: st.pending[k])
  }

  /** An early delta is refused only because of stale entries exactly when the buffer is full and has one. */
  lemma StaleEntriesTakeRoom<S>(config: Config<S>, st: ReorderState<S>, p: Packet)
    requires |st.pending| <= config.maxPending && Early(st, p)
    requires p.baseSequence - st.inner.sequence.value <= config.maxGap
    ensures !HasRoom(config, st, p) && HasRoom(config, WithoutStale(st), p) <==>
            |st.pending| == config.maxPending && exists k :: Stale(st, k)
  {
    var live := WithoutStale(st).pending;
    if k :| Stale(st, k) {
      SmallerMap(live, st.pending, k);
    } else {
      assert live == st.pending;
    }
  }

  lemma SmallerMap(a: map<u64, Packet>, b: map<u64, Packet>, k: u64)
    requires a.Keys <= b.Keys && k in b && k !in a
    ensures |a| < |b|
  {
    KeysOf(a);
    KeysOf(b);
    assert a.Keys <= b.Keys - {k};
    SubsetSize(a.Keys, b.Keys - {k});
  }

  lemma KeysOf(m: map<u64, Packet>)
    ensures |m.Keys| == |m|
  {
  }

  lemma {:induction false} SubsetSize(a: set<u64>, b: set<u64>)
    requires a <= b
    ensures |a| <= |b|
    decreases |a|
  {
    if a != {} {
      var k :| k in a;
      SubsetSize(a - {k}, b - {k});
    }
  }

  lemma RunThree<S>(config: Config<S>, st: ReorderState<S>, a: Packet, b: Packet, c: Packet)
    ensures Reorder.Run(config, st, [a, b, c])
         == Apply(config, Apply(config, Apply(config, st, a).0, b).0, c).0
  {
    hide Apply;
    assert [a, b, c][1..] == [b, c] && [b, c][1..] == [c] && [c][1..] == [];
    var st1 := Apply(config, st, a).0;
    var st2 := Apply(config, st1, b).0;
    assert Reorder.Run(config, st1, [b, c]) == Reorder.Run(config, st2, [c]);
  }

  /**
    Such a refusal comes about: delta 3 waits for delta 2, snapshot 4 jumps over it, and with room for one
    packet delta 6 is turned away, although nothing that waits can ever be used.
    */
  lemma JumpedOverDeltaTakesRoom<S>(config: Config<S>, states: seq<S>, s1: Packet, d3: Packet, s4: Packet, d6: Packet)
    requires WellSet(config) && config.maxPending == 1
    requires forall p | p in [s1, d3, s4, d6] :: Honest(config.setup, states, p)
    requires s1.kind == Snapshot && s1.sequence == 1 && d3.kind == Delta && d3.sequence == 3
    requires s4.kind == Snapshot && s4.sequence == 4 && d6.kind == Delta && d6.sequence == 6
    ensures var st := Reorder.Run(config, NewReorder(), [s1, d3, s4]);
            && st.inner.sequence == Some(4) && st.pending.Keys == {3} && Stale(st, 3)
            && Apply(config, st, d6) == (st, Ok(NeedRecovery(Some(4), 5)))
            && Early(WithoutStale(st), d6) && HasRoom(config, WithoutStale(st), d6)
  {
    hide Honest, Resting, Receive, Drain;
    assert s1 in [s1, d3, s4, d6] && d3 in [s1, d3, s4, d6] && s4 in [s1, d3, s4, d6] && d6 in [s1, d3, s4, d6];
    var st0: ReorderState<S> := NewReorder();
    var st1 := Apply(config, st0, s1).0;
    var st2 := Apply(config, st1, d3).0;
    var st3 := Apply(config, st2, s4).0;
    RunThree(config, st0, s1, d3, s4);
    StartsResting(config, states);
    WhatStays(config, states, st0, s1);
    ApplyIsHonest(config, states, st0, s1);
    BaseIsPrevious(config.setup, states, d3);
    ApplyIsHonest(config, states, st1, d3);
    assert 2 !in st0.pending;
    assert st1.pending.Keys == {} && st1.inner.sequence == Some(1);
    KeysOf(st1.pending);
    assert st2.pending.Keys == {3} && st2.inner.sequence == Some(1);
    WhatStays(config, states, st2, s4);
    assert 5 !in st2.pending;
    assert st3.pending.Keys == {3} && st3.inner.sequence == Some(4);
    KeysOf(st3.pending);
    BaseIsPrevious(config.setup, states, d6);
    assert WithoutStale(st3).pending.Keys == {};
    KeysOf(WithoutStale(st3).pending);
  }
}
