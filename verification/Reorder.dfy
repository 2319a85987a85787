/** The reordering decoder (`reorder.rs`): deltas that arrive early wait in a bounded buffer. */
module Reorder {
  import opened Core
  import opened Wire
  import opened Sync

  datatype Config<!S> = Config(setup: Setup<S>, maxGap: u64, maxPending: nat)

  /** What the constructor makes of its arguments. */
  predicate WellSet<S>(config: Config<S>) {
    config.setup.capacity >= 1 && config.maxGap >= 1 && config.maxPending >= 1
  }

  datatype ReorderState<+S> = ReorderState(inner: Receiver<S>, pending: map<u64, Packet>)

  datatype ReorderOutcome<+S> =
    | AppliedAndDrained(sequence: u64, state: S, drained: nat)
    | Buffered(sequence: u64)
    | NeedRecovery(local: Option<u64>, required: u64)
    | AlreadySeen(sequence: u64)

  function NewReorder<S>(): ReorderState<S> {
    ReorderState(NewReceiver(), map[])
  }

  /** A delta whose base is still to come. */
  predicate Early<S>(st: ReorderState<S>, p: Packet) {
    p.kind == Delta && st.inner.sequence.Some? && p.baseSequence > st.inner.sequence.value
  }

  /** Whether there is room for an early delta. */
  predicate HasRoom<S>(config: Config<S>, st: ReorderState<S>, p: Packet)
    requires Early(st, p)
  {
    p.baseSequence - st.inner.sequence.value <= config.maxGap && |st.pending| < config.maxPending
  }

  function Apply<S>(config: Config<S>, st: ReorderState<S>, p: Packet): (ReorderState<S>, Result<ReorderOutcome<S>>) {
    if Early(st, p) then
      if HasRoom(config, st, p) then
        (st.(pending := if p.sequence in st.pending then st.pending else st.pending[p.sequence := p]),
         Ok(Buffered(p.sequence)))
      else (st, Ok(NeedRecovery(st.inner.sequence, p.baseSequence)))
    else
      var (inner, r) := Receive(config.setup, st.inner, p);
      match r
      case Err(e) => (st.(inner := inner), Err(e))
      case Ok(Applied(sequence, state)) => Drain(config, st.(inner := inner), sequence, state, 0)
      case Ok(Duplicate(sequence)) => (st.(inner := inner), Ok(AlreadySeen(sequence)))
      case Ok(NeedSnapshot(local, required)) => (st.(inner := inner), Ok(NeedRecovery(local, required)))
  }

  /** Applies what has been waiting, for as long as the next sequence is there. */
  function Drain<S>(config: Config<S>, st: ReorderState<S>, sequence: u64, state: S, drained: nat)
    : (ReorderState<S>, Result<ReorderOutcome<S>>)
    decreases |st.pending|
  {
    if st.inner.sequence.None? then (st, Ok(AppliedAndDrained(sequence, state, drained)))
    else
      var local := st.inner.sequence.value;
      var next := SaturatingAdd(local, 1);
      if next !in st.pending then (st, Ok(AppliedAndDrained(local, state, drained)))
      else
        var (inner, r) := Receive(config.setup, st.inner, st.pending[next]);
        var st' := ReorderState(inner, st.pending - {next});
        Fewer(st.pending, next);
        match r
        case Err(e) => (st', Err(e))
        case Ok(Applied(_, nextState)) => Drain(config, st', sequence, nextState, drained + 1)
        case Ok(Duplicate(_)) => Drain(config, st', sequence, state, drained)
        case Ok(NeedSnapshot(l, required)) => (st', Ok(NeedRecovery(l, required)))
  }

  lemma Fewer<T>(m: map<u64, T>, k: u64)
    ensures k in m ==> |m - {k}| == |m| - 1
    ensures |m - {k}| <= |m|
  {
    if k in m {
      assert m == (m - {k})[k := m[k]];
    } else {
      assert m - {k} == m;
    }
  }

  // ---------------------------------------------------------------- what the buffer holds

  /** No more than `maxPending` deltas, each under its own sequence and based at most `maxGap` ahead. */
  predicate BufferInv<S>(config: Config<S>, st: ReorderState<S>) {
    && |st.pending| <= config.maxPending
    && (forall k | k in st.pending :: Filed(config, st.inner.sequence, k, st.pending[k]))
  }

  predicate Filed<S>(config: Config<S>, local: Option<u64>, key: u64, p: Packet) {
    && p.kind == Delta
    && p.sequence == key
    && local.Some?
    && p.baseSequence <= local.value + config.maxGap
  }

  lemma {:induction false} DrainKeepsBuffer<S>(config: Config<S>, st: ReorderState<S>, sequence: u64, state: S,
                                               drained: nat)
    requires BufferInv(config, st) && WindowInv(config.setup, st.inner)
    ensures var st' := Drain(config, st, sequence, state, drained).0;
            && BufferInv(config, st') && WindowInv(config.setup, st'.inner)
            && (st.inner.sequence.Some? ==>
                  st'.inner.sequence.Some? && st.inner.sequence.value <= st'.inner.sequence.value)
    decreases |st.pending|
  {
    if st.inner.sequence.Some? && SaturatingAdd(st.inner.sequence.value, 1) in st.pending {
      var next := SaturatingAdd(st.inner.sequence.value, 1);
      hide WindowInv, Receive;
      var (inner, r) := Receive(config.setup, st.inner, st.pending[next]);
      var st' := ReorderState(inner, st.pending - {next});
      ReceiveAdvances(config.setup, st.inner, st.pending[next]);
      Fewer(st.pending, next);
      if r.Ok? && (r.value.Applied? || r.value.Duplicate?) {
        DrainKeepsBuffer(config, st', sequence, if r.value.Applied? then r.value.state else state,
                         if r.value.Applied? then drained + 1 else drained);
      }
    }
  }

  lemma ReceiveAdvances<S>(setup: Setup<S>, r: Receiver<S>, p: Packet)
    requires WindowInv(setup, r)
    ensures var (r', outcome) := Receive(setup, r, p);
            && WindowInv(setup, r')
            && (r.sequence.Some? ==> r'.sequence.Some? && r.sequence.value <= r'.sequence.value)
            && (outcome.Ok? && outcome.value.Applied? ==> r'.sequence == Some(p.sequence))
            && (!(outcome.Ok? && outcome.value.Applied?) ==> r' == r)
  {
    StepKeepsWindow(setup, r, Deliver(p));
  }

  lemma ApplyKeepsBuffer<S>(config: Config<S>, st: ReorderState<S>, p: Packet)
    requires WellSet(config) && BufferInv(config, st) && WindowInv(config.setup, st.inner)
    ensures var st' := Apply(config, st, p).0;
            && BufferInv(config, st') && WindowInv(config.setup, st'.inner)
            && (st.inner.sequence.Some? ==>
                  st'.inner.sequence.Some? && st.inner.sequence.value <= st'.inner.sequence.value)
  {
    hide WindowInv, Receive, Drain;
    ReceiveAdvances(config.setup, st.inner, p);
    var (inner, r) := Receive(config.setup, st.inner, p);
    if !Early(st, p) && r.Ok? && r.value.Applied? {
      DrainKeepsBuffer(config, st.(inner := inner), r.value.sequence, r.value.state, 0);
    }
  }

  lemma {:induction false} DrainOnlyRemoves<S>(config: Config<S>, st: ReorderState<S>, sequence: u64, state: S,
                                               drained: nat)
    ensures var st' := Drain(config, st, sequence, state, drained).0;
            forall k | k in st'.pending :: k in st.pending && st'.pending[k] == st.pending[k]
    decreases |st.pending|
  {
    if st.inner.sequence.Some? && SaturatingAdd(st.inner.sequence.value, 1) in st.pending {
      var next := SaturatingAdd(st.inner.sequence.value, 1);
      hide Receive;
      var (inner, r) := Receive(config.setup, st.inner, st.pending[next]);
      var st' := ReorderState(inner, st.pending - {next});
      Fewer(st.pending, next);
      if r.Ok? && (r.value.Applied? || r.value.Duplicate?) {
        DrainOnlyRemoves(config, st', sequence, if r.value.Applied? then r.value.state else state,
                         if r.value.Applied? then drained + 1 else drained);
      }
    }
  }

  /** A waiting packet is never replaced: the first to arrive under its number stays until it is taken out. */
  lemma WaitingIsKept<S>(config: Config<S>, st: ReorderState<S>, p: Packet)
    ensures var st' := Apply(config, st, p).0;
            forall k | k in st'.pending ::
              st'.pending[k] == if k in st.pending then st.pending[k] else p
  {
    hide Receive, Drain;
    var (inner, r) := Receive(config.setup, st.inner, p);
    if !Early(st, p) && r.Ok? && r.value.Applied? {
      DrainOnlyRemoves(config, st.(inner := inner), r.value.sequence, r.value.state, 0);
    }
  }

  function Run<S>(config: Config<S>, st: ReorderState<S>, packets: seq<Packet>): ReorderState<S>
    decreases |packets|
  {
    if packets == [] then st else Run(config, Apply(config, st, packets[0]).0, packets[1..])
  }

  lemma {:induction false} RunKeepsBuffer<S>(config: Config<S>, st: ReorderState<S>, packets: seq<Packet>)
    requires WellSet(config) && BufferInv(config, st) && WindowInv(config.setup, st.inner)
    ensures BufferInv(config, Run(config, st, packets)) && WindowInv(config.setup, Run(config, st, packets).inner)
    decreases |packets|
  {
    if packets != [] {
      hide BufferInv, WindowInv, Apply;
      ApplyKeepsBuffer(config, st, packets[0]);
      RunKeepsBuffer(config, Apply(config, st, packets[0]).0, packets[1..]);
    }
  }

  /** In every run of any packets at all, honest or not. */
  lemma BufferIsBounded<S>(config: Config<S>, packets: seq<Packet>)
    requires WellSet(config)
    ensures BufferInv(config, Run(config, NewReorder(), packets))
  {
    RunKeepsBuffer(config, NewReorder(), packets);
  }

  // ---------------------------------------------------------------- the decoder

  class ReorderDecoder<S(0)> {
    const decoder: Decoder<S>
    const maxGap: u64
    const maxPending: nat
    var pending: map<u64, Packet>

    ghost predicate Valid()
      reads this, decoder, decoder.replay
    {
      decoder.Valid()
    }

    function Settings(): Config<S> {
      Config(decoder.setup, maxGap, maxPending)
    }

    function View(): ReorderState<S>
      reads this, decoder, decoder.replay
    {
      ReorderState(decoder.View(), pending)
    }

    constructor (codec: Codec<S>, zstd: Zstd, maxPayload: nat, capacity: nat, maxGap: u64, maxPending: nat)
      ensures Valid() && fresh(decoder) && fresh(decoder.replay)
      ensures WellSet(Settings()) && View() == NewReorder()
      ensures this.maxGap == Max(maxGap, 1) && this.maxPending == Max(maxPending, 1)
    {
      decoder := new Decoder(codec, zstd, maxPayload, capacity);
      this.maxGap := Max(maxGap, 1);
      this.maxPending := Max(maxPending, 1);
      pending := map[];
    }

    method ApplyPacket(p: Packet) returns (r: Result<ReorderOutcome<S>>)
      requires Valid()
      modifies this, decoder, decoder.replay
      ensures Valid()
      ensures (View(), r) == Apply(Settings(), old(View()), p)
    {
      hide Receive;
      if p.kind == Delta {
        if decoder.sequence.Some? {
          var local := decoder.sequence.value;
          if p.baseSequence > local {
            var gap := p.baseSequence - local;
            if gap <= maxGap && |pending| < maxPending {
              if p.sequence !in pending {
                pending := pending[p.sequence := p];
              }
              return Ok(Buffered(p.sequence));
            }
            return Ok(NeedRecovery(Some(local), p.baseSequence));
          }
        }
      }
      var first :- decoder.ApplyPacket(p);
      match first {
        case Duplicate(sequence) => return Ok(AlreadySeen(sequence));
        case NeedSnapshot(local, required) => return Ok(NeedRecovery(local, required));
        case Applied(sequence, state) =>
          r := DrainPending(sequence, state);
      }
    }

    /** The loop that empties the buffer as far as it goes. */
    method DrainPending(sequence: u64, first: S) returns (r: Result<ReorderOutcome<S>>)
      requires Valid()
      modifies this, decoder, decoder.replay
      ensures Valid()
      ensures (View(), r) == Drain(Settings(), old(View()), sequence, first, 0)
    {
      hide Receive;
      var state, drained := first, 0;
      while decoder.sequence.Some?
        invariant Valid()
        invariant Drain(Settings(), View(), sequence, state, drained) ==
                  Drain(Settings(), old(View()), sequence, first, 0)
        decreases |pending|
      {
        var next := SaturatingAdd(decoder.sequence.value, 1);
        if next !in pending {
          break;
        }
        Fewer(pending, next);
        var waiting := pending[next];
        pending := pending - {next};
        var outcome :- decoder.ApplyPacket(waiting);
        match outcome {
          case Applied(_, nextState) =>
            state := nextState;
            drained := drained + 1;
          case Duplicate(_) =>
          case NeedSnapshot(local, required) =>
            return Ok(NeedRecovery(local, required));
        }
      }
      var last := if decoder.sequence.Some? then decoder.sequence.value else sequence;
      return Ok(AppliedAndDrained(last, state, drained));
    }

    method ClearPending()
      requires Valid()
      modifies this
      ensures Valid() && View() == old(View()).(pending := map[])
    {
      pending := map[];
    }

    method Reset()
      requires Valid()
      modifies this, decoder, decoder.replay
      ensures Valid() && View() == NewReorder()
    {
      pending := map[];
      decoder.Reset();
    }
  }
}
