/** The bounded packet history and its replay plan (`recovery_history.rs`). */
module RecoveryHistory {
  import opened Core
  import opened Wire

  function TotalLen(packets: seq<Packet>): nat {
    if packets == [] then 0 else EncodedLen(packets[0]) + TotalLen(packets[1..])
  }

  lemma {:induction false} TotalLenAppend(a: seq<Packet>, b: seq<Packet>)
    ensures TotalLen(a + b) == TotalLen(a) + TotalLen(b)
    decreases |a|
  {
    if a == [] {
      assert a + b == b;
    } else {
      assert (a + b)[1..] == a[1..] + b;
      TotalLenAppend(a[1..], b);
    }
  }

  predicate Fits(packets: seq<Packet>, maxPackets: nat, maxBytes: nat) {
    |packets| <= maxPackets && TotalLen(packets) <= maxBytes
  }

  /** Drops packets from the front until the rest fits. */
  function Evict(packets: seq<Packet>, maxPackets: nat, maxBytes: nat): (kept: seq<Packet>)
    decreases |packets|
  {
    if packets == [] || Fits(packets, maxPackets, maxBytes) then packets
    else Evict(packets[1..], maxPackets, maxBytes)
  }

  /** What is kept fits, and every longer suffix does not. */
  lemma {:induction false} EvictIsLongest(packets: seq<Packet>, maxPackets: nat, maxBytes: nat) returns (n: nat)
    ensures n <= |packets| && Evict(packets, maxPackets, maxBytes) == packets[n..]
    ensures |packets| - n <= maxPackets && TotalLen(packets[n..]) <= maxBytes
    ensures forall m | 0 <= m < n :: |packets| - m > maxPackets || TotalLen(packets[m..]) > maxBytes
    decreases |packets|
  {
    if packets == [] || Fits(packets, maxPackets, maxBytes) {
      n := 0;
      assert packets[0..] == packets;
    } else {
      var k := EvictIsLongest(packets[1..], maxPackets, maxBytes);
      n := k + 1;
      assert packets[n..] == packets[1..][k..];
      forall m | 0 <= m < n ensures |packets| - m > maxPackets || TotalLen(packets[m..]) > maxBytes {
        if m == 0 {
          assert packets[0..] == packets;
        } else {
          assert packets[m..] == packets[1..][m - 1..];
        }
      }
    }
  }

  /** Evicting after every packet keeps what evicting once at the end would. */
  lemma {:induction false} EvictIncrementally(past: seq<Packet>, p: Packet, maxPackets: nat, maxBytes: nat)
    ensures Evict(Evict(past, maxPackets, maxBytes) + [p], maxPackets, maxBytes)
         == Evict(past + [p], maxPackets, maxBytes)
    decreases |past|
  {
    if past != [] && !Fits(past, maxPackets, maxBytes) {
      EvictIncrementally(past[1..], p, maxPackets, maxBytes);
      TotalLenAppend(past, [p]);
      assert (past + [p])[1..] == past[1..] + [p];
    }
  }

  // ---------------------------------------------------------------- planning

  datatype RecoveryPlan = Replay(packets: seq<Packet>) | UseSnapshot(packet: Packet)

  /** The retained packets numbered from `first` to `last`, in the order of the history. */
  function Between(packets: seq<Packet>, first: nat, last: nat): (r: seq<Packet>)
    ensures forall p | p in r :: p in packets && first <= p.sequence <= last
    decreases |packets|
  {
    if packets == [] then []
    else
      var rest := Between(packets[1..], first, last);
      if first <= packets[0].sequence <= last then [packets[0]] + rest else rest
  }

  /** Consecutive updates from `first` on, each based on the one before. */
  predicate Chained(packets: seq<Packet>, first: nat) {
    forall n | 0 <= n < |packets| :: packets[n].sequence == first + n && packets[n].baseSequence == first + n - 1
  }

  /** A replay must be complete and cheaper than the snapshot; `u64::MAX` cannot be its last number. */
  predicate CanReplay(packets: seq<Packet>, local: Option<u64>, snapshot: Packet) {
    && local.Some?
    && local.value < snapshot.sequence < U64_LIMIT - 1
    && var replay := Between(packets, local.value + 1, snapshot.sequence);
       && Chained(replay, local.value + 1)
       && local.value + |replay| == snapshot.sequence
       && TotalLen(replay) < EncodedLen(snapshot)
  }

  function Plan(packets: seq<Packet>, local: Option<u64>, snapshot: Packet): RecoveryPlan {
    if CanReplay(packets, local, snapshot)
    then Replay(Between(packets, local.value + 1, snapshot.sequence))
    else UseSnapshot(snapshot)
  }

  class History {
    var packets: seq<Packet>
    const maxPackets: nat
    const maxBytes: nat
    var bytes: nat
    /** Everything ever recorded. */
    ghost var recorded: seq<Packet>

    ghost predicate Valid()
      reads this
    {
      && maxPackets >= 1 && maxBytes >= 1
      && packets == Evict(recorded, maxPackets, maxBytes)
      && bytes == TotalLen(packets)
    }

    constructor (maxPackets: nat, maxBytes: nat)
      ensures Valid() && recorded == []
      ensures this.maxPackets == Max(1, maxPackets) && this.maxBytes == Max(1, maxBytes)
    {
      packets, bytes, recorded := [], 0, [];
      this.maxPackets, this.maxBytes := Max(1, maxPackets), Max(1, maxBytes);
    }

    /** The packets held at one time are all in memory, so their lengths add up without overflow. */
    method Record(packet: Packet)
      requires Valid() && TotalLen(packets) + EncodedLen(packet) < U64_LIMIT
      modifies this
      ensures Valid() && recorded == old(recorded) + [packet]
    {
      EvictIncrementally(recorded, packet, maxPackets, maxBytes);
      TotalLenAppend(packets, [packet]);
      bytes := SaturatingAdd(bytes, EncodedLen(packet));
      packets := packets + [packet];
      recorded := recorded + [packet];
      while |packets| > maxPackets || bytes > maxBytes
        invariant bytes == TotalLen(packets) && recorded == old(recorded) + [packet]
        invariant Evict(packets, maxPackets, maxBytes) == Evict(recorded, maxPackets, maxBytes)
        decreases |packets|
      {
        if packets == [] {
          break;
        }
        bytes := Max(0, bytes - EncodedLen(packets[0]));
        packets := packets[1..];
      }
    }

    method PlanFor(local: Option<u64>, snapshot: Packet) returns (plan: RecoveryPlan)
      requires |snapshot.payload| <= MAX_LEN
      ensures plan == Plan(packets, local, snapshot)
    {
      assert EncodedLen(snapshot) < U64_LIMIT - 1;
      hide Between, TotalLen, Chained, EncodedLen, LengthTo, ChainedTo;
      if local.None? || local.value >= snapshot.sequence {
        return UseSnapshot(snapshot);
      }
      var first := local.value + 1;
      var replay := Between(packets, first, snapshot.sequence);
      if replay == [] {
        return UseSnapshot(snapshot);
      }
      var expected, replayBytes := first, 0;
      ghost var last := snapshot.sequence == U64_LIMIT - 1;
      UpToEnds(replay, first);
      for n := 0 to |replay|
        invariant 0 < expected < U64_LIMIT
        invariant last || (ChainedTo(replay, first, n) && expected == first + n <= snapshot.sequence + 1)
        invariant replayBytes == Min(LengthTo(replay, n), U64_LIMIT - 1)
      {
        var packet := replay[n];
        assert packet in replay;
        UpToNext(replay, first, n);
        if packet.sequence != expected || packet.baseSequence != Max(0, expected - 1) {
          assert last || !Chained(replay, first);
          return UseSnapshot(snapshot);
        }
        replayBytes := SaturatingAdd(replayBytes, EncodedLen(packet));
        expected := SaturatingAdd(expected, 1);
      }
      if Max(0, expected - 1) != snapshot.sequence || replayBytes >= EncodedLen(snapshot) {
        return UseSnapshot(snapshot);
      }
      return Replay(replay);
    }
  }

  // ---------------------------------------------------------------- the first packets of a plan

  function LengthTo(packets: seq<Packet>, n: nat): nat
    requires n <= |packets|
  {
    TotalLen(packets[..n])
  }

  predicate ChainedTo(packets: seq<Packet>, first: nat, n: nat)
    requires n <= |packets|
  {
    Chained(packets[..n], first)
  }

  lemma UpToEnds(packets: seq<Packet>, first: nat)
    ensures LengthTo(packets, 0) == 0 && ChainedTo(packets, first, 0)
    ensures LengthTo(packets, |packets|) == TotalLen(packets)
    ensures ChainedTo(packets, first, |packets|) <==> Chained(packets, first)
  {
    assert packets[..|packets|] == packets && packets[..0] == [];
  }

  lemma UpToNext(packets: seq<Packet>, first: nat, n: nat)
    requires n < |packets|
    ensures LengthTo(packets, n + 1) == LengthTo(packets, n) + EncodedLen(packets[n])
    ensures var fits := packets[n].sequence == first + n && packets[n].baseSequence == first + n - 1;
            && (ChainedTo(packets, first, n + 1) <==> ChainedTo(packets, first, n) && fits)
            && (!fits ==> !Chained(packets, first))
  {
    assert packets[..n + 1] == packets[..n] + [packets[n]];
    TotalLenAppend(packets[..n], [packets[n]]);
    assert [packets[n]][1..] == [];
  }
}
