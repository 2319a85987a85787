/**
  The strategy selector (`fast_selector.rs`): a one-pass profile of the change, and an advisor that
  remembers which strategies won lately.  Ratios that the source computes in floating point are
  compared here by cross-multiplication.
  */
module FastSelector {
  import opened Core
  import opened SmartDelta
  import opened RangeGrouping
  import SmartDeltaCodec

  // ---------------------------------------------------------------- change profile

  datatype ChangeProfile = ChangeProfile(
    previousLen: nat,
    currentLen: nat,
    changedBytes: nat,
    changedRuns: nat,
    commonPrefix: nat,
    commonSuffix: nat)

  /** The profile in terms of what the encoders would write for the part that both states have. */
  function Profile(previous: Bytes, current: Bytes): ChangeProfile {
    var common := Min(|previous|, |current|);
    var p, c := previous[..common], current[..common];
    ChangeProfile(|previous|, |current|,
                  Max(|previous| - |current|, |current| - |previous|) + |SparseRecords(p, c, 0)|,
                  |Group(p, c, 0, 0)|,
                  SplicePrefix(previous, current),
                  SpliceSuffix(previous, current))
  }

  /** With no gap allowed, a changed byte opens a range of its own unless the next one changes too. */
  lemma RunStep(previous: Bytes, current: Bytes, i: nat)
    requires |previous| == |current| && i < |current|
    ensures |Group(previous, current, 0, i)| ==
            |Group(previous, current, 0, i + 1)|
            + if Changed(previous, current, i) && !Changed(previous, current, i + 1) then 1 else 0
  {
    hide Group;
    GroupStep(previous, current, 0, i);
    if Changed(previous, current, i) && Changed(previous, current, i + 1) {
      GroupStep(previous, current, 0, i + 1);
      assert LastChange(previous, current, 0, i, i + 1) == LastChange(previous, current, 0, i + 1, i + 2);
    }
  }

  lemma SparseStep(previous: Bytes, current: Bytes, i: nat)
    requires |previous| == |current| && i < |current|
    ensures |SparseRecords(previous, current, i)| ==
            |SparseRecords(previous, current, i + 1)| + if Changed(previous, current, i) then 1 else 0
  {
  }

  method Analyze(previous: Bytes, current: Bytes) returns (profile: ChangeProfile)
    ensures profile == Profile(previous, current)
  {
    var common := Min(|previous|, |current|);
    var bytes, runs := CountChanges(previous[..common], current[..common]);
    var prefix, suffix := SmartDeltaCodec.FindEnds(previous, current);
    var resized := if |previous| >= |current| then |previous| - |current| else |current| - |previous|;
    profile := ChangeProfile(|previous|, |current|, resized + bytes, runs, prefix, suffix);
  }

  method CountChanges(previous: Bytes, current: Bytes) returns (changedBytes: nat, changedRuns: nat)
    requires |previous| == |current|
    ensures changedBytes == |SparseRecords(previous, current, 0)|
    ensures changedRuns == |Group(previous, current, 0, 0)|
  {
    hide SparseRecords, Group;
    changedBytes, changedRuns := 0, 0;
    var inRun := false;
    for i := 0 to |current|
      invariant inRun <==> i > 0 && Changed(previous, current, i - 1)
      invariant changedBytes + |SparseRecords(previous, current, i)| == |SparseRecords(previous, current, 0)|
      invariant changedRuns + |Group(previous, current, 0, i)| ==
                |Group(previous, current, 0, 0)| + if inRun && Changed(previous, current, i) then 1 else 0
    {
      RunStep(previous, current, i);
      SparseStep(previous, current, i);
      var changed := previous[i] != current[i];
      if changed {
        changedBytes := changedBytes + 1;
        if !inRun {
          changedRuns := changedRuns + 1;
        }
      }
      inRun := changed;
    }
    NothingAfterEnd(previous, current);
  }

  lemma NothingAfterEnd(previous: Bytes, current: Bytes)
    requires |previous| == |current|
    ensures SparseRecords(previous, current, |current|) == []
    ensures Group(previous, current, 0, |current|) == []
  {
  }

  // ---------------------------------------------------------------- dominance

  /** `k` fills at least three quarters of `winners`. */
  predicate Heavy(winners: seq<Kind>, k: Kind) {
    multiset(winners)[k] * 4 >= |winners| * 3
  }

  function Dominant(winners: seq<Kind>): (k: Option<Kind>)
    ensures k.Some? ==> |winners| >= 8 && Heavy(winners, k.value)
  {
    if |winners| < 8 then None
    else if Heavy(winners, Sparse) then Some(Sparse)
    else if Heavy(winners, Ranges) then Some(Ranges)
    else if Heavy(winners, Xor) then Some(Xor)
    else if Heavy(winners, Splice) then Some(Splice)
    else if Heavy(winners, Chunks) then Some(Chunks)
    else None
  }

  lemma {:induction false} CountsAreDisjoint(winners: seq<Kind>, a: Kind, b: Kind)
    requires a != b
    ensures multiset(winners)[a] + multiset(winners)[b] <= |winners|
    decreases |winners|
  {
    if winners != [] {
      CountsAreDisjoint(winners[1..], a, b);
      assert winners == [winners[0]] + winners[1..];
    }
  }

  /** At most one strategy can dominate, so the order in which they are tried never matters. */
  lemma DominantIsUnique(winners: seq<Kind>, a: Kind, b: Kind)
    requires winners != [] && Heavy(winners, a) && Heavy(winners, b)
    ensures a == b
  {
    if a != b {
      CountsAreDisjoint(winners, a, b);
    }
  }

  lemma DominantIsTheHeavyOne(winners: seq<Kind>, k: Kind)
    ensures Dominant(winners) == Some(k) <==> |winners| >= 8 && Heavy(winners, k)
  {
    if |winners| >= 8 && Heavy(winners, k) {
      match k { case Sparse => case Ranges => case Xor => case Splice => case Chunks => }
      DominantIsUnique(winners, k, Dominant(winners).value);
    }
  }

  function Index(k: Kind): (i: nat)
    ensures i < 5 && FromIndex(i) == k
  {
    match k
    case Sparse => 0
    case Ranges => 1
    case Xor => 2
    case Splice => 3
    case Chunks => 4
  }

  function FromIndex(i: nat): (k: Kind) {
    if i == 0 then Sparse else if i == 1 then Ranges else if i == 2 then Xor else if i == 3 then Splice else Chunks
  }

  /** Counts every kind in an array and takes the last of the largest counts. */
  method FindDominant(winners: seq<Kind>) returns (r: Option<Kind>)
    ensures r == Dominant(winners)
  {
    if |winners| < 8 {
      return None;
    }
    var counts := new nat[5](_ => 0);
    for n := 0 to |winners|
      invariant forall i | 0 <= i < 5 :: counts[i] == multiset(winners[..n])[FromIndex(i)]
    {
      assert winners[..n + 1] == winners[..n] + [winners[n]];
      counts[Index(winners[n])] := counts[Index(winners[n])] + 1;
    }
    assert winners[..|winners|] == winners;
    var idx := 0;
    for i := 1 to 5
      invariant 0 <= idx < 5
      invariant forall j | 0 <= j < i :: counts[j] <= counts[idx]
    {
      if counts[i] >= counts[idx] {
        idx := i;
      }
    }
    forall k: Kind | Heavy(winners, k) ensures Heavy(winners, FromIndex(idx)) {
      assert counts[Index(k)] <= counts[idx];
    }
    DominantIsTheHeavyOne(winners, FromIndex(idx));
    if counts[idx] * 4 < |winners| * 3 {
      return None;
    }
    return Some(FromIndex(idx));
  }

  // ---------------------------------------------------------------- the advisor

  /**
    The quotient of two counts as the program computes it in floating point, and a hundred times that.  Neither
    rounding is fixed here: what is proved holds for every arithmetic.
    */
  datatype Arithmetic = Arithmetic(ratio: (nat, nat) -> real, percent: (nat, nat) -> real)

  /** The double nearest to 0.15. */
  const LEAST_WIN_RATE: real := 0.1499999999999999944488848768742172978818416595458984375

  datatype SelectorPolicy = SelectorPolicy(
    sparseRatio: byte,
    rangeRunLimit: nat,
    exploreEvery: u64,
    winnerWindow: nat,
    arithmetic: Arithmetic)

  datatype Advice = Advice(policy: SelectorPolicy, recent: seq<Kind>, updates: u64, attempts: u64, wins: u64)

  predicate ShouldExplore(a: Advice) {
    a.policy.exploreEvery > 0 && a.updates > 0 && a.updates % a.policy.exploreEvery == 0
  }

  function ChangePercent(policy: SelectorPolicy, profile: ChangeProfile): real {
    policy.arithmetic.percent(profile.changedBytes, Max(1, Max(profile.previousLen, profile.currentLen)))
  }

  function Shortlist(a: Advice, profile: ChangeProfile): seq<Kind> {
    var percent := ChangePercent(a.policy, profile);
    if profile.previousLen != profile.currentLen then [Splice, Chunks]
    else if Dominant(a.recent).Some? && !ShouldExplore(a) then [Dominant(a.recent).value]
    else if percent <= a.policy.sparseRatio as real then [Sparse, Ranges]
    else if profile.changedRuns <= a.policy.rangeRunLimit then [Ranges, Sparse]
    else if percent >= 45.0 then [Xor, Ranges]
    else [Ranges, Sparse]
  }

  /** The advisor never asks for a strategy that the lengths rule out. */
  lemma ShortlistIsLegal(a: Advice, previous: Bytes, current: Bytes)
    ensures var kinds := Shortlist(a, Profile(previous, current));
            1 <= |kinds| <= 2 && forall n | 0 <= n < |kinds| :: Legal(kinds[n], previous, current)
  {
  }

  predicate ShouldCompress(a: Advice, payloadLen: nat, minPayload: nat) {
    && payloadLen >= minPayload
    && (a.attempts < 16 || a.policy.arithmetic.ratio(a.wins, a.attempts) >= LEAST_WIN_RATE || ShouldExplore(a))
  }

  function WithWinner(a: Advice, k: Kind): Advice {
    a.(updates := SaturatingAdd(a.updates, 1), recent := Slide(a.recent, Max(1, a.policy.winnerWindow), k))
  }

  function WithoutDelta(a: Advice): Advice {
    a.(updates := SaturatingAdd(a.updates, 1))
  }

  function WithCompression(a: Advice, won: bool): Advice {
    a.(attempts := SaturatingAdd(a.attempts, 1), wins := if won then SaturatingAdd(a.wins, 1) else a.wins)
  }

  function Slide(recent: seq<Kind>, window: nat, k: Kind): seq<Kind>
    requires window > 0
  {
    (if |recent| == window then recent[1..] else recent) + [k]
  }

  function SlideAll(recent: seq<Kind>, window: nat, ks: seq<Kind>): seq<Kind>
    requires window > 0
    decreases |ks|
  {
    if ks == [] then recent else SlideAll(Slide(recent, window, ks[0]), window, ks[1..])
  }

  /** After any history of winners the window holds exactly the latest ones, at most `window` of them. */
  lemma {:induction false} WindowHoldsLatest(past: seq<Kind>, window: nat, ks: seq<Kind>)
    requires window > 0
    ensures var all := past + ks;
            SlideAll(past[Max(0, |past| - window)..], window, ks) == all[Max(0, |all| - window)..]
    decreases |ks|
  {
    if ks == [] {
      assert past + ks == past;
    } else {
      var past' := past + [ks[0]];
      assert past + ks == past' + ks[1..];
      assert Slide(past[Max(0, |past| - window)..], window, ks[0]) == past'[Max(0, |past'| - window)..];
      WindowHoldsLatest(past', window, ks[1..]);
    }
  }

  class StrategyAdvisor {
    const policy: SelectorPolicy
    var recentWinners: seq<Kind>
    var updates: u64
    var compressionAttempts: u64
    var compressionWins: u64

    function State(): Advice
      reads this
    {
      Advice(policy, recentWinners, updates, compressionAttempts, compressionWins)
    }

    constructor (policy: SelectorPolicy)
      ensures State() == Advice(policy, [], 0, 0, 0)
    {
      this.policy := policy;
      recentWinners, updates, compressionAttempts, compressionWins := [], 0, 0, 0;
    }

    method ShortlistFor(profile: ChangeProfile) returns (kinds: seq<Kind>)
      ensures kinds == Shortlist(State(), profile)
    {
      if profile.previousLen != profile.currentLen {
        return [Splice, Chunks];
      }
      var winner := FindDominant(recentWinners);
      if winner.Some? && !ShouldExplore(State()) {
        return [winner.value];
      }
      var percent := ChangePercent(policy, profile);
      if percent <= policy.sparseRatio as real {
        kinds := [Sparse, Ranges];
      } else if profile.changedRuns <= policy.rangeRunLimit {
        kinds := [Ranges, Sparse];
      } else if percent >= 45.0 {
        kinds := [Xor, Ranges];
      } else {
        kinds := [Ranges, Sparse];
      }
    }

    method ObserveWinner(kind: Kind)
      modifies this
      ensures State() == WithWinner(old(State()), kind)
    {
      updates := SaturatingAdd(updates, 1);
      if |recentWinners| == Max(1, policy.winnerWindow) {
        recentWinners := recentWinners[1..];
      }
      recentWinners := recentWinners + [kind];
    }

    method ObserveNoDelta()
      modifies this
      ensures State() == WithoutDelta(old(State()))
    {
      updates := SaturatingAdd(updates, 1);
    }

    method ObserveCompression(won: bool)
      modifies this
      ensures State() == WithCompression(old(State()), won)
    {
      compressionAttempts := SaturatingAdd(compressionAttempts, 1);
      if won {
        compressionWins := SaturatingAdd(compressionWins, 1);
      }
    }
  }
}
