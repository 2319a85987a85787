/**
  Chunk repair (`partial_repair.rs`): compare the chunk hashes of two states and send the chunks whose
  hashes differ.  The result is exact unless two chunks collide, and the condition for that is given
  in both directions.
  */
module PartialRepair {
  import opened Core
  import Fnv
  import opened DeltaRecords
  import opened SmartDelta

  datatype ChunkManifest = ChunkManifest(stateLen: nat, chunkSize: nat, hashes: seq<u64>)

  datatype ChunkPatch = ChunkPatch(index: nat, bytes: Bytes)

  datatype Repair = Repair(targetLen: nat, chunkSize: nat, targetHash: u64, patches: seq<ChunkPatch>)

  // ---------------------------------------------------------------- chunks

  function Offset(size: nat, k: nat): nat {
    k * size
  }

  /** How many chunks `state.chunks(size)` yields. */
  function ChunkCount(state: Bytes, size: nat): nat
    requires size > 0
  {
    (|state| + size - 1) / size
  }

  /** Chunk `k`; the last one may be short. */
  function Chunk(state: Bytes, size: nat, k: nat): Bytes
    requires Offset(size, k) < |state|
  {
    state[Offset(size, k)..Min(Offset(size, k) + size, |state|)]
  }

  lemma Monotone(a: int, b: int, size: nat)
    requires a <= b
    ensures a * size <= b * size
  {
    assert (b - a) * size >= 0;
    assert b * size == a * size + (b - a) * size;
  }

  lemma ChunkExists(state: Bytes, size: nat, k: nat)
    requires size > 0
    ensures k < ChunkCount(state, size) <==> Offset(size, k) < |state|
  {
    var n, q := |state| + size - 1, ChunkCount(state, size);
    assert n == q * size + n % size;
    if k < q {
      Monotone(k + 1, q, size);
      assert (k + 1) * size == k * size + size;
    } else {
      Monotone(q, k, size);
    }
  }

  /** Every position lies in one chunk. */
  lemma ChunkOf(size: nat, i: nat) returns (k: nat)
    requires size > 0
    ensures Offset(size, k) <= i < Offset(size, k) + size
  {
    k := i / size;
    assert i == k * size + i % size;
  }

  function Hashes(state: Bytes, size: nat): (hashes: seq<u64>)
    requires size > 0
    ensures |hashes| == ChunkCount(state, size)
  {
    seq(ChunkCount(state, size), k requires 0 <= k < ChunkCount(state, size) =>
      ChunkExists(state, size, k); Fnv.Hash(Chunk(state, size, k)))
  }

  function Manifest(state: Bytes, chunkSize: nat): ChunkManifest {
    ChunkManifest(|state|, Max(1, chunkSize), Hashes(state, Max(1, chunkSize)))
  }

  function Get(hashes: seq<u64>, k: nat): Option<u64> {
    if k < |hashes| then Some(hashes[k]) else None
  }

  /** The indices from `k` on at which the hash lists differ, running off the end included. */
  function Differing(a: seq<u64>, b: seq<u64>, k: nat): seq<nat>
    decreases Max(|a|, |b|) - k
  {
    if k >= Max(|a|, |b|) then []
    else (if Get(a, k) != Get(b, k) then [k] else []) + Differing(a, b, k + 1)
  }

  lemma {:induction false} DifferingIs(a: seq<u64>, b: seq<u64>, k: nat)
    ensures forall i :: i in Differing(a, b, k) <==> k <= i < Max(|a|, |b|) && Get(a, i) != Get(b, i)
    decreases Max(|a|, |b|) - k
  {
    if k < Max(|a|, |b|) {
      DifferingIs(a, b, k + 1);
    }
  }

  // ---------------------------------------------------------------- building and applying

  function PatchFor(target: Bytes, size: nat, k: nat): ChunkPatch {
    ChunkPatch(k, if Offset(size, k) >= |target| then [] else Chunk(target, size, k))
  }

  function PatchesFor(target: Bytes, size: nat, indices: seq<nat>): (patches: seq<ChunkPatch>)
    ensures |patches| == |indices|
    ensures forall n | 0 <= n < |indices| :: patches[n] == PatchFor(target, size, indices[n])
  {
    seq(|indices|, n requires 0 <= n < |indices| => PatchFor(target, size, indices[n]))
  }

  function Build(receiver: Bytes, target: Bytes, chunkSize: nat): Repair {
    var size := Max(1, chunkSize);
    var indices := Differing(Manifest(receiver, size).hashes, Manifest(target, size).hashes, 0);
    Repair(|target|, size, Fnv.Hash(target), PatchesFor(target, size, indices))
  }

  function PayloadBytes(patches: seq<ChunkPatch>): nat {
    if patches == [] then 0 else |patches[0].bytes| + PayloadBytes(patches[1..])
  }

  /** One patch; an empty one beyond the end is skipped. */
  function PatchOne(out: Bytes, size: nat, patch: ChunkPatch): (r: Result<Bytes>)
    ensures r.Ok? ==> |r.value| == |out|
  {
    var start := Offset(size, patch.index);
    if start >= U64_LIMIT then Err(InvalidState)
    else if patch.bytes == [] && start >= |out| then Ok(out)
    else if start + |patch.bytes| >= U64_LIMIT then Err(InvalidState)
    else if start + |patch.bytes| > |out| then Err(InvalidPacket)
    else Ok(Overwrite(out, start, patch.bytes))
  }

  function PatchAll(out: Bytes, size: nat, patches: seq<ChunkPatch>): Result<Bytes>
    decreases |patches|
  {
    if patches == [] then Ok(out)
    else
      var out' :- PatchOne(out, size, patches[0]);
      PatchAll(out', size, patches[1..])
  }

  function Apply(base: Bytes, repair: Repair): Result<Bytes> {
    var out :- PatchAll(Resize(base, repair.targetLen), repair.chunkSize, repair.patches);
    if Fnv.Hash(out) != repair.targetHash then Err(InvalidState) else Ok(out)
  }

  // ---------------------------------------------------------------- exactness

  /** A patch that carries the target's own bytes, or nothing from beyond its end. */
  predicate Fits(target: Bytes, size: nat, patch: ChunkPatch) {
    var start := Offset(size, patch.index);
    if patch.bytes == [] then |target| <= start < U64_LIMIT
    else start + |patch.bytes| <= |target| && patch.bytes == target[start..start + |patch.bytes|]
  }

  ghost predicate Hit(size: nat, patches: seq<ChunkPatch>, i: nat) {
    exists n ::
      0 <= n < |patches| && Offset(size, patches[n].index) <= i < Offset(size, patches[n].index) + |patches[n].bytes|
  }

  /** Patches that fit put the target's bytes where they hit and leave the rest alone. */
  lemma {:induction false} PatchAllWrites(out: Bytes, target: Bytes, size: nat, patches: seq<ChunkPatch>)
    requires |out| == |target| <= MAX_LEN
    requires forall n | 0 <= n < |patches| :: Fits(target, size, patches[n])
    ensures var r := PatchAll(out, size, patches);
            && r.Ok? && |r.value| == |target|
            && forall i | 0 <= i < |target| :: r.value[i] == if Hit(size, patches, i) then target[i] else out[i]
    decreases |patches|
  {
    if patches != [] {
      hide Offset;
      var start, bytes, tail := Offset(size, patches[0].index), patches[0].bytes, patches[1..];
      assert Fits(target, size, patches[0]);
      var out' := PatchOne(out, size, patches[0]).value;
      assert forall n | 0 <= n < |tail| :: tail[n] == patches[n + 1];
      PatchAllWrites(out', target, size, tail);
      forall i | 0 <= i < |target|
        ensures Hit(size, patches, i) <==> Hit(size, tail, i) || start <= i < start + |bytes|
      {
        HitHead(size, patches, i);
      }
    }
  }

  lemma HitHead(size: nat, patches: seq<ChunkPatch>, i: nat)
    requires patches != []
    ensures var start := Offset(size, patches[0].index);
            Hit(size, patches, i) <==> Hit(size, patches[1..], i) || start <= i < start + |patches[0].bytes|
  {
    hide Offset;
    var tail := patches[1..];
    if Hit(size, tail, i) {
      var n :| 0 <= n < |tail| && Offset(size, tail[n].index) <= i < Offset(size, tail[n].index) + |tail[n].bytes|;
      assert patches[n + 1] == tail[n];
    }
    if Hit(size, patches, i) {
      var n :|
        0 <= n < |patches| && Offset(size, patches[n].index) <= i < Offset(size, patches[n].index) + |patches[n].bytes|;
      if n > 0 {
        assert tail[n - 1] == patches[n];
      }
    }
  }

  predicate HasChunk(state: Bytes, size: nat, k: nat) {
    Offset(size, k) < |state|
  }

  /** Chunk `k` is patched unless both states have it and its hashes agree. */
  predicate Patched(receiver: Bytes, target: Bytes, size: nat, k: nat) {
    !(HasChunk(receiver, size, k) && HasChunk(target, size, k)
      && Fnv.Hash(Chunk(receiver, size, k)) == Fnv.Hash(Chunk(target, size, k)))
  }

  /** The receiver's chunk `k`, cut or padded as the repair will, is not the target's. */
  predicate Stale(receiver: Bytes, target: Bytes, size: nat, k: nat) {
    HasChunk(target, size, k) && Chunk(Resize(receiver, |target|), size, k) != Chunk(target, size, k)
  }

  lemma DifferingIsPatched(receiver: Bytes, target: Bytes, size: nat, k: nat)
    requires size > 0 && (HasChunk(receiver, size, k) || HasChunk(target, size, k))
    ensures k in Differing(Hashes(receiver, size), Hashes(target, size), 0) <==> Patched(receiver, target, size, k)
  {
    hide Offset, ChunkCount, Differing;
    DifferingIs(Hashes(receiver, size), Hashes(target, size), 0);
    ChunkExists(receiver, size, k);
    ChunkExists(target, size, k);
  }

  lemma NextOffset(size: nat, j: nat, k: nat)
    requires j < k
    ensures Offset(size, j) + size <= Offset(size, k)
  {
    Monotone(j + 1, k, size);
    assert (j + 1) * size == j * size + size;
  }

  lemma SameChunk(size: nat, j: nat, k: nat, i: nat)
    requires Offset(size, j) <= i < Offset(size, j) + size
    requires Offset(size, k) <= i < Offset(size, k) + size
    ensures j == k
  {
    hide Offset;
    if j < k {
      NextOffset(size, j, k);
    } else if k < j {
      NextOffset(size, k, j);
    }
  }

  lemma BuiltPatchesFit(receiver: Bytes, target: Bytes, size: nat, n: nat)
    requires size > 0 && |receiver| <= MAX_LEN && |target| <= MAX_LEN
    requires n < |Build(receiver, target, size).patches|
    ensures var patch := Build(receiver, target, size).patches[n];
            && Fits(target, size, patch)
            && (HasChunk(receiver, size, patch.index) || HasChunk(target, size, patch.index))
            && patch == PatchFor(target, size, patch.index)
            && Patched(receiver, target, size, patch.index)
  {
    hide Offset, ChunkCount, Differing;
    var a, b := Hashes(receiver, size), Hashes(target, size);
    var k := Differing(a, b, 0)[n];
    DifferingIs(a, b, 0);
    assert k in Differing(a, b, 0);
    ChunkExists(receiver, size, k);
    ChunkExists(target, size, k);
    DifferingIsPatched(receiver, target, size, k);
  }

  lemma IndicesOf(receiver: Bytes, target: Bytes, chunkSize: nat) returns (indices: seq<nat>)
    ensures var size, patches := Max(1, chunkSize), Build(receiver, target, chunkSize).patches;
            && indices == Differing(Hashes(receiver, size), Hashes(target, size), 0)
            && |patches| == |indices|
            && forall n | 0 <= n < |patches| :: patches[n] == PatchFor(target, size, indices[n])
  {
    hide Differing, Hashes, Offset;
    indices := Differing(Hashes(receiver, Max(1, chunkSize)), Hashes(target, Max(1, chunkSize)), 0);
  }

  /** A position is written exactly when its chunk is patched. */
  lemma HitIsPatched(receiver: Bytes, target: Bytes, size: nat, k: nat, i: nat)
    requires size > 0 && |receiver| <= MAX_LEN && |target| <= MAX_LEN
    requires Offset(size, k) <= i < Offset(size, k) + size && i < |target|
    ensures Hit(size, Build(receiver, target, size).patches, i) <==> Patched(receiver, target, size, k)
  {
    hide *;
    if Patched(receiver, target, size, k) {
      PatchedIsHit(receiver, target, size, k, i);
    }
    if Hit(size, Build(receiver, target, size).patches, i) {
      HitOnlyPatched(receiver, target, size, k, i);
    }
  }

  lemma PatchCovers(target: Bytes, size: nat, k: nat, i: nat)
    requires i < |target|
    ensures var n := |PatchFor(target, size, k).bytes|;
            n <= size && (Offset(size, k) <= i < Offset(size, k) + size ==> i < Offset(size, k) + n)
  {
    hide Offset;
  }

  lemma PatchedIsHit(receiver: Bytes, target: Bytes, size: nat, k: nat, i: nat)
    requires size > 0 && |receiver| <= MAX_LEN && |target| <= MAX_LEN
    requires Offset(size, k) <= i < Offset(size, k) + size && i < |target|
    requires Patched(receiver, target, size, k)
    ensures Hit(size, Build(receiver, target, size).patches, i)
  {
    hide Offset, ChunkCount, Differing, Patched, Hashes, Build, Chunk;
    var patches := Build(receiver, target, size).patches;
    var indices := IndicesOf(receiver, target, size);
    DifferingIsPatched(receiver, target, size, k);
    var n :| 0 <= n < |indices| && indices[n] == k;
    assert patches[n] == PatchFor(target, size, k);
    PatchCovers(target, size, k, i);
  }

  lemma HitOnlyPatched(receiver: Bytes, target: Bytes, size: nat, k: nat, i: nat)
    requires size > 0 && |receiver| <= MAX_LEN && |target| <= MAX_LEN
    requires Offset(size, k) <= i < Offset(size, k) + size && i < |target|
    requires Hit(size, Build(receiver, target, size).patches, i)
    ensures Patched(receiver, target, size, k)
  {
    hide Offset, Patched, Build, PatchFor, Fits;
    var patches := Build(receiver, target, size).patches;
    var n :| 0 <= n < |patches| && Offset(size, patches[n].index) <= i
             < Offset(size, patches[n].index) + |patches[n].bytes|;
    BuiltPatchesFit(receiver, target, size, n);
    PatchCovers(target, size, patches[n].index, i);
    SameChunk(size, patches[n].index, k, i);
  }

  /** `out` has the target's bytes in patched chunks and the receiver's elsewhere. */
  ghost predicate Mixed(receiver: Bytes, target: Bytes, size: nat, out: Bytes) {
    && |out| == |target|
    && forall i, k | 0 <= i < |target| && Offset(size, k) <= i < Offset(size, k) + size ::
         out[i] == if Patched(receiver, target, size, k) then target[i] else Resize(receiver, |target|)[i]
  }

  lemma Written(receiver: Bytes, target: Bytes, size: nat)
    requires size > 0 && |receiver| <= MAX_LEN && |target| <= MAX_LEN
    ensures var r := PatchAll(Resize(receiver, |target|), size, Build(receiver, target, size).patches);
            r.Ok? && Mixed(receiver, target, size, r.value)
  {
    hide Offset, Build, Fits, Patched, Hit;
    var patches := Build(receiver, target, size).patches;
    forall n | 0 <= n < |patches| ensures Fits(target, size, patches[n]) {
      BuiltPatchesFit(receiver, target, size, n);
    }
    PatchAllWrites(Resize(receiver, |target|), target, size, patches);
    forall i, k | 0 <= i < |target| && Offset(size, k) <= i < Offset(size, k) + size
      ensures Hit(size, patches, i) <==> Patched(receiver, target, size, k)
    {
      HitIsPatched(receiver, target, size, k, i);
    }
  }

  lemma MixedIsTarget(receiver: Bytes, target: Bytes, size: nat, out: Bytes)
    requires size > 0 && Mixed(receiver, target, size, out)
    requires forall k | Stale(receiver, target, size, k) :: Patched(receiver, target, size, k)
    ensures out == target
  {
    hide Offset, Patched;
    var base := Resize(receiver, |target|);
    forall i | 0 <= i < |target| ensures out[i] == target[i] {
      var k := ChunkOf(size, i);
      if !Patched(receiver, target, size, k) {
        assert !Stale(receiver, target, size, k);
        assert Chunk(base, size, k)[i - Offset(size, k)] == Chunk(target, size, k)[i - Offset(size, k)];
      }
    }
  }

  lemma MixedIsNotTarget(receiver: Bytes, target: Bytes, size: nat, out: Bytes, k: nat)
    requires size > 0 && Mixed(receiver, target, size, out)
    requires Stale(receiver, target, size, k) && !Patched(receiver, target, size, k)
    ensures out != target
  {
    hide Offset, Patched;
    var base := Resize(receiver, |target|);
    assert |Chunk(base, size, k)| == |Chunk(target, size, k)|;
    var j :| 0 <= j < |Chunk(target, size, k)| && Chunk(base, size, k)[j] != Chunk(target, size, k)[j];
    var i := Offset(size, k) + j;
    assert out[i] == base[i] != target[i];
  }

  lemma Checked(base: Bytes, repair: Repair, out: Bytes)
    requires PatchAll(Resize(base, repair.targetLen), repair.chunkSize, repair.patches) == Ok(out)
    ensures Apply(base, repair) == if Fnv.Hash(out) != repair.targetHash then Err(InvalidState) else Ok(out)
  {
    hide PatchAll, Resize, Fnv.Hash;
  }

  /** Chunk repair reproduces the target exactly when no stale chunk hides behind an equal hash. */
  lemma RepairIsExact(receiver: Bytes, target: Bytes, chunkSize: nat)
    requires |receiver| <= MAX_LEN && |target| <= MAX_LEN
    ensures var size := Max(1, chunkSize);
            Apply(receiver, Build(receiver, target, chunkSize)) == Ok(target) <==>
            forall k | Stale(receiver, target, size, k) :: Patched(receiver, target, size, k)
  {
    var size := Max(1, chunkSize);
    var repair := Build(receiver, target, size);
    assert repair == Build(receiver, target, chunkSize);
    assert repair.targetLen == |target| && repair.chunkSize == size > 0 && repair.targetHash == Fnv.Hash(target);
    hide *;
    Written(receiver, target, size);
    var out := PatchAll(Resize(receiver, |target|), size, repair.patches).value;
    if forall k | Stale(receiver, target, size, k) :: Patched(receiver, target, size, k) {
      MixedIsTarget(receiver, target, size, out);
      Checked(receiver, repair, out);
    } else {
      Checked(receiver, repair, out);
      var k :| Stale(receiver, target, size, k) && !Patched(receiver, target, size, k);
      MixedIsNotTarget(receiver, target, size, out, k);
    }
  }

  /** In particular when chunks that differ hash differently. */
  lemma ExactWithoutCollisions(receiver: Bytes, target: Bytes, chunkSize: nat)
    requires |receiver| <= MAX_LEN && |target| <= MAX_LEN
    requires var size := Max(1, chunkSize);
             forall k | HasChunk(receiver, size, k) && HasChunk(target, size, k)
                        && Chunk(receiver, size, k) != Chunk(target, size, k) ::
               Patched(receiver, target, size, k)
    ensures Apply(receiver, Build(receiver, target, chunkSize)) == Ok(target)
  {
    var size := Max(1, chunkSize);
    RepairIsExact(receiver, target, chunkSize);
    hide Apply, Build, Offset;
    forall k | Stale(receiver, target, size, k) ensures Patched(receiver, target, size, k) {
      if HasChunk(receiver, size, k) && Chunk(receiver, size, k) == Chunk(target, size, k) {
        EqualChunkIsFresh(receiver, target, size, k);
      }
    }
  }

  lemma EqualChunkIsFresh(receiver: Bytes, target: Bytes, size: nat, k: nat)
    requires HasChunk(receiver, size, k) && HasChunk(target, size, k)
    requires Chunk(receiver, size, k) == Chunk(target, size, k)
    ensures !Stale(receiver, target, size, k)
  {
    hide Offset;
    var start := Offset(size, k);
    assert start + |Chunk(target, size, k)| <= |receiver|;
    forall j | 0 <= j < |Chunk(target, size, k)|
      ensures Resize(receiver, |target|)[start + j] == Chunk(target, size, k)[j]
    {
      assert Chunk(receiver, size, k)[j] == receiver[start + j];
    }
  }

  /** With no assumption on the hash: equal lengths, and at most one byte changed in each chunk. */
  lemma ExactForOneBytePerChunk(receiver: Bytes, target: Bytes, chunkSize: nat, at: nat -> nat)
    requires |receiver| == |target| <= MAX_LEN
    requires var size := Max(1, chunkSize);
             forall k | HasChunk(target, size, k) ::
               Fnv.DifferOnlyAt(Chunk(receiver, size, k), Chunk(target, size, k), at(k))
    ensures Apply(receiver, Build(receiver, target, chunkSize)) == Ok(target)
  {
    var size := Max(1, chunkSize);
    forall k | HasChunk(receiver, size, k) && HasChunk(target, size, k)
               && Chunk(receiver, size, k) != Chunk(target, size, k)
      ensures Patched(receiver, target, size, k)
    {
      Fnv.SubstitutionDetected(Chunk(receiver, size, k), Chunk(target, size, k), at(k));
    }
    hide Apply, Build, Offset, Patched;
    ExactWithoutCollisions(receiver, target, chunkSize);
  }

  predicate Ascending(indices: seq<nat>) {
    forall m, n | 0 <= m < n < |indices| :: indices[m] < indices[n]
  }

  lemma {:induction false} DifferingAscends(a: seq<u64>, b: seq<u64>, k: nat)
    ensures Ascending(Differing(a, b, k))
    decreases Max(|a|, |b|) - k
  {
    if k < Max(|a|, |b|) {
      var later := Differing(a, b, k + 1);
      DifferingAscends(a, b, k + 1);
      DifferingIs(a, b, k + 1);
      forall n | 0 <= n < |later| ensures k < later[n] {
        assert later[n] in later;
      }
    }
  }

  /** The repair sends chunk `k`. */
  ghost predicate Sends(repair: Repair, k: nat) {
    exists n :: 0 <= n < |repair.patches| && repair.patches[n].index == k
  }

  /** Chunk `k` is sent exactly when only one of the states has it, or both do and its hashes differ. */
  lemma SentExactly(receiver: Bytes, target: Bytes, chunkSize: nat, k: nat, start: nat)
    requires start == k * Max(1, chunkSize)
    ensures var size := Max(1, chunkSize);
            var ours, theirs := start < |target|, start < |receiver|;
            Sends(Build(receiver, target, chunkSize), k) <==>
            ours != theirs || (ours && theirs && Fnv.Hash(target[start..Min(start + size, |target|)]) !=
                                                 Fnv.Hash(receiver[start..Min(start + size, |receiver|)]))
  {
    hide Hashes, ChunkCount, Differing, Build, Fnv.Hash;
    var size := Max(1, chunkSize);
    SentIsIndexed(receiver, target, chunkSize, k);
    SentIs(receiver, target, size, k);
    assert Offset(size, k) == start;
  }

  lemma SentIsIndexed(receiver: Bytes, target: Bytes, chunkSize: nat, k: nat)
    ensures var size := Max(1, chunkSize);
            Sends(Build(receiver, target, chunkSize), k) <==>
            k in Differing(Hashes(receiver, size), Hashes(target, size), 0)
  {
    hide Hashes, ChunkCount, Differing, Build, Fnv.Hash, Offset;
    var patches := Build(receiver, target, chunkSize).patches;
    var indices := IndicesOf(receiver, target, chunkSize);
    if k in indices {
      var n :| 0 <= n < |indices| && indices[n] == k;
      assert patches[n].index == k;
    }
  }

  /** No chunk is sent twice, the order is ascending, and each comes with the target's own bytes. */
  lemma SentInOrder(receiver: Bytes, target: Bytes, chunkSize: nat)
    ensures var size, repair := Max(1, chunkSize), Build(receiver, target, chunkSize);
            && repair.targetLen == |target| && repair.chunkSize == size && repair.targetHash == Fnv.Hash(target)
            && (forall m, n | 0 <= m < n < |repair.patches| :: repair.patches[m].index < repair.patches[n].index)
            && (forall n | 0 <= n < |repair.patches| ::
                  var start := repair.patches[n].index * size;
                  repair.patches[n].bytes ==
                  if start >= |target| then [] else target[start..Min(start + size, |target|)])
  {
    var size, patches := Max(1, chunkSize), Build(receiver, target, chunkSize).patches;
    var indices := IndicesOf(receiver, target, chunkSize);
    DifferingAscends(Hashes(receiver, size), Hashes(target, size), 0);
    assert forall n | 0 <= n < |patches| :: patches[n].index == indices[n];
    hide Hashes, Differing, Fnv.Hash;
  }

  lemma SentIs(receiver: Bytes, target: Bytes, size: nat, k: nat)
    requires size > 0
    ensures k in Differing(Hashes(receiver, size), Hashes(target, size), 0) <==>
            (HasChunk(receiver, size, k) || HasChunk(target, size, k)) && Patched(receiver, target, size, k)
  {
    hide Differing, Patched, ChunkCount;
    DifferingIs(Hashes(receiver, size), Hashes(target, size), 0);
    ChunkExists(receiver, size, k);
    ChunkExists(target, size, k);
    if HasChunk(receiver, size, k) || HasChunk(target, size, k) {
      DifferingIsPatched(receiver, target, size, k);
    }
  }

  /** The patch lies within a state of length `n`; an empty one may also lie beyond it. */
  predicate InBounds(patch: ChunkPatch, size: nat, n: nat) {
    var start := Offset(size, patch.index);
    start < U64_LIMIT && (if start >= n && patch.bytes == [] then true else start + |patch.bytes| <= n)
  }

  lemma {:induction false} PatchAllSucceeds(out: Bytes, size: nat, patches: seq<ChunkPatch>)
    requires |out| < U64_LIMIT
    ensures PatchAll(out, size, patches).Ok? <==>
            forall n | 0 <= n < |patches| :: InBounds(patches[n], size, |out|)
    ensures var r := PatchAll(out, size, patches);
            if r.Ok? then |r.value| == |out| else r.error == InvalidState || r.error == InvalidPacket
    decreases |patches|
  {
    if patches != [] {
      hide Offset;
      var tail, first := patches[1..], PatchOne(out, size, patches[0]);
      assert first.Ok? <==> InBounds(patches[0], size, |out|);
      if first.Ok? {
        assert forall n | 0 <= n < |tail| :: tail[n] == patches[n + 1];
        PatchAllSucceeds(first.value, size, tail);
        assert forall n | 0 < n < |patches| :: patches[n] == tail[n - 1];
      }
    }
  }

  /** Whatever a repair holds and wherever it is applied: it succeeds only with the announced length and hash. */
  lemma RepairIsChecked(base: Bytes, repair: Repair)
    requires repair.targetLen < U64_LIMIT
    ensures var r := Apply(base, repair);
            && (r.Ok? ==> |r.value| == repair.targetLen && Fnv.Hash(r.value) == repair.targetHash)
            && (r.Ok? ==> forall n | 0 <= n < |repair.patches| ::
                  InBounds(repair.patches[n], repair.chunkSize, repair.targetLen))
            && (r.Err? ==> r.error == InvalidState || r.error == InvalidPacket)
  {
    hide Offset, PatchAll, Fnv.Hash, InBounds;
    PatchAllSucceeds(Resize(base, repair.targetLen), repair.chunkSize, repair.patches);
  }

  /** The source's loop over the patches. */
  method ApplyRepair(base: Bytes, repair: Repair) returns (r: Result<Bytes>)
    requires repair.targetLen < U64_LIMIT
    ensures r == Apply(base, repair)
  {
    var out := Resize(base, repair.targetLen);
    for n := 0 to |repair.patches|
      invariant |out| == repair.targetLen
      invariant PatchAll(out, repair.chunkSize, repair.patches[n..])
             == PatchAll(Resize(base, repair.targetLen), repair.chunkSize, repair.patches)
    {
      hide Offset, Overwrite;
      var patch := repair.patches[n];
      assert repair.patches[n..][0] == patch && repair.patches[n..][1..] == repair.patches[n + 1..];
      var start := Offset(repair.chunkSize, patch.index);
      if start >= U64_LIMIT {
        return Err(InvalidState);
      }
      if patch.bytes == [] && start >= |out| {
        continue;
      }
      var end := start + |patch.bytes|;
      if end >= U64_LIMIT {
        return Err(InvalidState);
      }
      if end > |out| {
        return Err(InvalidPacket);
      }
      out := Overwrite(out, start, patch.bytes);
    }
    if Fnv.Hash(out) != repair.targetHash {
      return Err(InvalidState);
    }
    return Ok(out);
  }
}
