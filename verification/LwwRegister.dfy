/** The last-write-wins register (`crdt/lww_register.rs`). */
module LwwRegister {
  import opened Core
  import GCounter
  import Lattice

  type ReplicaId = GCounter.ReplicaId

  datatype Register<T> = Register(value: T, timestamp: u64, replica: ReplicaId)

  /** Lexicographic order on identifiers. */
  predicate IdLess(a: ReplicaId, b: ReplicaId)
    decreases |a|
  {
    b != [] && (a == [] || a[0] < b[0] || (a[0] == b[0] && IdLess(a[1..], b[1..])))
  }

  /** The order of writes: timestamp first, then replica. */
  predicate Older<T>(a: Register<T>, b: Register<T>) {
    a.timestamp < b.timestamp || (a.timestamp == b.timestamp && IdLess(a.replica, b.replica))
  }

  function Merge<T>(a: Register<T>, b: Register<T>): Register<T> {
    if Older(a, b) then b else a
  }

  lemma {:induction false} IdOrder(a: ReplicaId, b: ReplicaId)
    ensures !(IdLess(a, b) && IdLess(b, a))
    ensures IdLess(a, b) || IdLess(b, a) || a == b
    ensures !IdLess(a, a)
    decreases |a|
  {
    if a != [] {
      IdOrder(a[1..], if b == [] then [] else b[1..]);
      if b != [] && a[0] == b[0] && a[1..] == b[1..] {
        assert a == [a[0]] + a[1..] && b == [b[0]] + b[1..];
      }
    }
  }

  lemma {:induction false} IdTransitive(a: ReplicaId, b: ReplicaId, c: ReplicaId)
    requires IdLess(a, b) && IdLess(b, c)
    ensures IdLess(a, c)
    decreases |a|
  {
    if a != [] && a[0] == b[0] == c[0] {
      IdTransitive(a[1..], b[1..], c[1..]);
    }
  }

  /** `timestamp` and `replica` identify the write. */
  predicate SameWrite<T>(a: Register<T>, b: Register<T>) {
    a.timestamp == b.timestamp && a.replica == b.replica
  }

  lemma WriteOrder<T>(a: Register<T>, b: Register<T>)
    ensures !(Older(a, b) && Older(b, a))
    ensures Older(a, b) || Older(b, a) || SameWrite(a, b)
    ensures SameWrite(a, b) ==> !Older(a, b) && !Older(b, a)
  {
    IdOrder(a.replica, b.replica);
    IdOrder(a.replica, a.replica);
  }

  lemma WriteTransitive<T>(a: Register<T>, b: Register<T>, c: Register<T>)
    ensures Older(a, b) && Older(b, c) ==> Older(a, c)
    ensures Older(a, b) && SameWrite(b, c) ==> Older(a, c)
    ensures SameWrite(a, b) && Older(b, c) ==> Older(a, c)
  {
    if Older(a, b) && Older(b, c) && a.timestamp == c.timestamp {
      IdTransitive(a.replica, b.replica, c.replica);
    }
  }

  /** Merging is commutative exactly when equal metadata comes with equal values. */
  lemma MergeCommutes<T>(a: Register<T>, b: Register<T>)
    ensures Merge(a, b) == Merge(b, a) <==> (SameWrite(a, b) ==> a.value == b.value)
  {
    WriteOrder(a, b);
  }

  lemma MergeAssociates<T>(a: Register<T>, b: Register<T>, c: Register<T>)
    ensures Merge(Merge(a, b), c) == Merge(a, Merge(b, c))
  {
    hide Older;
    WriteOrder(a, b);
    WriteOrder(b, c);
    WriteOrder(a, c);
    WriteTransitive(a, b, c);
    WriteTransitive(b, a, c);
    WriteTransitive(a, c, b);
    WriteTransitive(c, b, a);
  }

  /** One value for each write. */
  ghost predicate Consistent<T>(writes: set<Register<T>>) {
    forall a, b | a in writes && b in writes && SameWrite(a, b) :: a == b
  }

  lemma MergeLaws<T(!new)>(writes: set<Register<T>>)
    requires Consistent(writes)
    ensures Lattice.Laws(Merge, (r: Register<T>) => r in writes)
  {
    hide Older;
    forall a: Register<T>, b: Register<T> | a in writes && b in writes ensures Merge(a, b) == Merge(b, a) {
      MergeCommutes(a, b);
    }
    forall a: Register<T> ensures Merge(a, a) == a {
      WriteOrder(a, a);
    }
    forall a: Register<T>, b: Register<T>, c: Register<T>
      ensures Merge(Merge(a, b), c) == Merge(a, Merge(b, c))
    {
      MergeAssociates(a, b, c);
    }
  }

  // ---------------------------------------------------------------- what a set of writes merges to

  /** No write of `xs` is newer than `r`, which is one of them. */
  ghost predicate Newest<T>(xs: seq<Register<T>>, r: Register<T>) {
    r in xs && forall x | x in xs :: !Older(r, x)
  }

  /** The newest write has one value, whatever older writes may do. */
  ghost predicate OneNewest<T(!new)>(xs: seq<Register<T>>) {
    forall a, b | Newest(xs, a) && Newest(xs, b) :: a == b
  }

  ghost predicate SameWrites<T(!new)>(xs: seq<Register<T>>, ys: seq<Register<T>>) {
    xs != [] && ys != [] && forall x :: x in xs <==> x in ys
  }

  lemma NotOlder<T>(a: Register<T>, b: Register<T>, c: Register<T>)
    requires !Older(a, b) && !Older(b, c)
    ensures !Older(a, c)
  {
    hide Older;
    WriteOrder(a, b);
    WriteOrder(b, c);
    WriteOrder(a, c);
    WriteTransitive(b, a, c);
    WriteTransitive(a, c, b);
    WriteTransitive(c, b, a);
  }

  lemma MergeIsNewer<T>(a: Register<T>, b: Register<T>)
    ensures !Older(Merge(a, b), a) && !Older(Merge(a, b), b)
  {
    WriteOrder(a, b);
    WriteOrder(a, a);
    WriteOrder(b, b);
  }

  /** Merging from left to right ends with a newest write. */
  lemma {:induction false} FoldIsNewest<T>(start: Register<T>, xs: seq<Register<T>>)
    ensures Newest([start] + xs, Lattice.Fold(Merge, start, xs))
    decreases |xs|
  {
    var r := Lattice.Fold(Merge, start, xs);
    if xs == [] {
      WriteOrder(start, start);
    } else {
      hide Older, Merge;
      var next := Merge(start, xs[0]);
      FoldIsNewest(next, xs[1..]);
      MergeIsNewer(start, xs[0]);
      MergeIsOneOf(start, xs[0]);
      assert next in [next] + xs[1..];
      NotOlder(r, next, start);
      NotOlder(r, next, xs[0]);
      forall x | x in [start] + xs ensures !Older(r, x) {
        assert x == start || x == xs[0] || x in [next] + xs[1..];
      }
    }
  }

  lemma MergeIsOneOf<T>(a: Register<T>, b: Register<T>)
    ensures Merge(a, b) == a || Merge(a, b) == b
  {
  }

  /** A newest write that comes first stays to the end. */
  lemma {:induction false} NewestStartStays<T>(start: Register<T>, xs: seq<Register<T>>)
    requires forall x | x in xs :: !Older(start, x)
    ensures Lattice.Fold(Merge, start, xs) == start
    decreases |xs|
  {
    if xs != [] {
      hide Older;
      assert xs[0] in xs && Merge(start, xs[0]) == start;
      NewestStartStays(start, xs[1..]);
    }
  }

  lemma MergeAllIsNewest<T>(xs: seq<Register<T>>)
    requires xs != []
    ensures Newest(xs, Lattice.MergeAll(Merge, xs))
  {
    FoldIsNewest(xs[0], xs[1..]);
    assert [xs[0]] + xs[1..] == xs;
  }

  // ---------------------------------------------------------------- which write wins

  /** The later write wins, on whichever side it stands and whoever made it. */
  lemma LaterWriteWins<T>(a: Register<T>, b: Register<T>)
    requires a.timestamp < b.timestamp
    ensures Merge(a, b) == b && Merge(b, a) == b
  {
  }

  /** Of any writes the one that is left is one of them, and none of them is later. */
  lemma LatestIsLeft<T>(xs: seq<Register<T>>)
    requires xs != []
    ensures var r := Lattice.MergeAll(Merge, xs); r in xs && forall x | x in xs :: x.timestamp <= r.timestamp
  {
    hide Lattice.MergeAll;
    MergeAllIsNewest(xs);
  }

  /** At the same time the replica wins whose identifier is larger at the first byte where the two differ. */
  lemma {:induction false} LargerReplicaWins<T>(a: Register<T>, b: Register<T>, k: nat)
    requires a.timestamp == b.timestamp
    requires k < |a.replica| && k < |b.replica|
    requires a.replica[..k] == b.replica[..k] && a.replica[k] < b.replica[k]
    ensures Merge(a, b) == b && Merge(b, a) == b
  {
    LargerIsGreater(a.replica, b.replica, k);
    IdOrder(a.replica, b.replica);
  }

  lemma {:induction false} LargerIsGreater(a: ReplicaId, b: ReplicaId, k: nat)
    requires k < |a| && k < |b| && a[..k] == b[..k] && a[k] < b[k]
    ensures IdLess(a, b)
    decreases k
  {
    if k > 0 {
      assert a[..k][0] == b[..k][0] && a[..k][1..] == b[..k][1..];
      assert a[1..][..k - 1] == a[..k][1..] && b[1..][..k - 1] == b[..k][1..];
      LargerIsGreater(a[1..], b[1..], k - 1);
    }
  }

  /** And an identifier that goes on where the other ends wins over it. */
  lemma LongerReplicaWins<T>(a: Register<T>, b: Register<T>)
    requires a.timestamp == b.timestamp && a.replica < b.replica
    ensures Merge(a, b) == b && Merge(b, a) == b
  {
    LongerIsGreater(a.replica, b.replica);
    IdOrder(a.replica, b.replica);
  }

  lemma {:induction false} LongerIsGreater(a: ReplicaId, b: ReplicaId)
    requires a < b
    ensures IdLess(a, b)
    decreases |a|
  {
    if a != [] {
      LongerIsGreater(a[1..], b[1..]);
    }
  }

  /** The same metadata keeps what is there. */
  lemma SameWriteStays<T>(a: Register<T>, b: Register<T>)
    requires a.timestamp == b.timestamp && a.replica == b.replica
    ensures Merge(a, b) == a
  {
    IdOrder(a.replica, a.replica);
  }

  /** Every newest write is what some order of the same writes merges to. */
  lemma NewestIsReached<T(!new)>(xs: seq<Register<T>>, a: Register<T>)
    requires Newest(xs, a)
    ensures SameWrites(xs, [a] + xs) && Lattice.MergeAll(Merge, [a] + xs) == a
  {
    hide Older;
    NewestStartStays(a, xs);
    assert ([a] + xs)[1..] == xs;
  }

  lemma SameNewest<T(!new)>(xs: seq<Register<T>>, ys: seq<Register<T>>, r: Register<T>)
    requires SameWrites(xs, ys)
    ensures Newest(xs, r) <==> Newest(ys, r)
  {
    hide Older;
  }

  /**
    Every order and every repetition of some writes merges to the same register exactly when the newest of
    them has one value.  Conflicts among older writes do no harm.
    */
  lemma ConvergesExactly<T(!new)>(xs: seq<Register<T>>)
    requires xs != []
    ensures (forall ys | SameWrites(xs, ys) :: Lattice.MergeAll(Merge, ys) == Lattice.MergeAll(Merge, xs))
            <==> OneNewest(xs)
  {
    hide Newest, Older, Lattice.MergeAll;
    MergeAllIsNewest(xs);
    if OneNewest(xs) {
      forall ys | SameWrites(xs, ys) ensures Lattice.MergeAll(Merge, ys) == Lattice.MergeAll(Merge, xs) {
        MergeAllIsNewest(ys);
        SameNewest(xs, ys, Lattice.MergeAll(Merge, ys));
      }
    }
    if forall ys | SameWrites(xs, ys) :: Lattice.MergeAll(Merge, ys) == Lattice.MergeAll(Merge, xs) {
      forall a, b | Newest(xs, a) && Newest(xs, b) ensures a == b {
        NewestIsReached(xs, a);
        NewestIsReached(xs, b);
      }
    }
  }

  /** Replicas that have merged the same writes hold the same register, if the newest has one value. */
  lemma RegistersConverge<T(!new)>(xs: seq<Register<T>>, ys: seq<Register<T>>)
    requires xs != [] && ys != [] && forall x :: x in xs <==> x in ys
    requires OneNewest(xs)
    ensures Lattice.MergeAll(Merge, xs) == Lattice.MergeAll(Merge, ys)
  {
    assert SameWrites(xs, ys);
    hide Newest, SameWrites, Older, Lattice.MergeAll;
    ConvergesExactly(xs);
  }

  /** In particular if timestamp and replica identify the value of every write. */
  lemma ConsistentWritesConverge<T(!new)>(xs: seq<Register<T>>)
    requires Consistent(set x | x in xs)
    ensures OneNewest(xs)
  {
    forall a, b | Newest(xs, a) && Newest(xs, b) ensures a == b {
      WriteOrder(a, b);
    }
  }

  /** Older writes may conflict: the first two diverge on their own, but not with the third among them. */
  lemma OlderConflictsAreHarmless(id: ReplicaId, ys: seq<Register<int>>)
    requires ys != [] && forall y :: y in ys <==> y in [Register(1, 5, id), Register(2, 5, id), Register(3, 9, id)]
    ensures Lattice.MergeAll(Merge, ys) == Register(3, 9, id)
  {
    hide IdLess;
    MergeAllIsNewest(ys);
    assert Register(3, 9, id) in ys;
  }

  /** Merging two writes with the same metadata and different values depends on the order. */
  lemma ConflictingWritesDiverge(id: ReplicaId)
    ensures var a, b := Register(1, 5, id), Register(2, 5, id);
            Merge(a, b) == a && Merge(b, a) == b && a != b
  {
    WriteOrder(Register(1, 5, id), Register(2, 5, id));
  }

  class Cell<T> {
    var value: T
    var timestamp: u64
    var replica: ReplicaId

    function State(): Register<T>
      reads this
    {
      Register(value, timestamp, replica)
    }

    constructor (value: T, timestamp: u64, replica: ReplicaId)
      ensures State() == Register(value, timestamp, replica)
    {
      this.value, this.timestamp, this.replica := value, timestamp, replica;
    }

    method Assign(value: T, timestamp: u64, replica: ReplicaId) returns (won: bool)
      modifies this
      ensures State() == Merge(old(State()), Register(value, timestamp, replica))
      ensures won <==> Older(old(State()), Register(value, timestamp, replica))
    {
      if this.timestamp < timestamp || (this.timestamp == timestamp && IdLess(this.replica, replica)) {
        this.value := value;
        this.timestamp := timestamp;
        this.replica := replica;
        return true;
      }
      return false;
    }

    method MergeFrom(other: Cell<T>) returns (changed: bool)
      modifies this
      ensures State() == Merge(old(State()), old(other.State()))
      ensures changed <==> Older(old(State()), old(other.State()))
    {
      changed := Assign(other.value, other.timestamp, other.replica);
    }
  }
}
