/**
  How the range encoder groups changed bytes.  Its scan runs past the end of a range to look for the
  next change within `gap` and then rewinds; the result is nevertheless the one canonical grouping.
  */
module RangeGrouping {
  import opened Core

  datatype Range = Range(start: nat, end: nat)

  predicate Changed(previous: Bytes, current: Bytes, i: nat)
    requires |previous| == |current|
  {
    i < |current| && previous[i] != current[i]
  }

  /** No byte changes from `i` to `i + gap`, both included. */
  predicate Quiet(previous: Bytes, current: Bytes, gap: nat, i: nat)
    requires |previous| == |current|
  {
    forall k | i <= k <= i + gap :: !Changed(previous, current, k)
  }

  /** The first changed position at or after `i`, or the length when there is none. */
  function FirstChange(previous: Bytes, current: Bytes, i: nat): (k: nat)
    requires |previous| == |current| && i <= |current|
    ensures i <= k <= |current|
    ensures forall j | i <= j < k :: !Changed(previous, current, j)
    ensures k < |current| ==> Changed(previous, current, k)
    decreases |current| - i
  {
    if i == |current| || previous[i] != current[i] then i else FirstChange(previous, current, i + 1)
  }

  /** The last change of the range that has `last` as its latest change and was scanned up to `i`. */
  function LastChange(previous: Bytes, current: Bytes, gap: nat, last: nat, i: nat): (k: nat)
    requires |previous| == |current| && last < i <= |current|
    requires Changed(previous, current, last)
    ensures last <= k < |current| && Changed(previous, current, k)
    decreases |current| - i
  {
    if i == |current| then last
    else if previous[i] != current[i] then LastChange(previous, current, gap, i, i + 1)
    else if i - last > gap then last
    else LastChange(previous, current, gap, last, i + 1)
  }

  function Group(previous: Bytes, current: Bytes, gap: nat, i: nat): (ranges: seq<Range>)
    requires |previous| == |current| && i <= |current|
    decreases |current| - i
  {
    var start := FirstChange(previous, current, i);
    if start == |current| then []
    else
      var last := LastChange(previous, current, gap, start, start + 1);
      [Range(start, last + 1)] + Group(previous, current, gap, last + 1)
  }

  /** A range starts and ends on changed bytes and holds no unchanged run longer than `gap`. */
  ghost predicate Tight(previous: Bytes, current: Bytes, gap: nat, range: Range)
    requires |previous| == |current|
  {
    && range.start < range.end <= |current|
    && Changed(previous, current, range.start)
    && Changed(previous, current, range.end - 1)
    && forall j | range.start <= j && j + gap < range.end :: !Quiet(previous, current, gap, j)
  }

  ghost predicate AllTight(previous: Bytes, current: Bytes, gap: nat, ranges: seq<Range>, from: nat)
    requires |previous| == |current|
  {
    forall n | 0 <= n < |ranges| ::
      from <= ranges[n].start && Tight(previous, current, gap, ranges[n])
  }

  /** Ranges are in order and more than `gap` bytes apart. */
  ghost predicate Apart(gap: nat, ranges: seq<Range>) {
    forall m, n | 0 <= m < n < |ranges| :: ranges[m].end + gap < ranges[n].start
  }

  ghost predicate Inside(ranges: seq<Range>, i: nat) {
    exists n :: 0 <= n < |ranges| && ranges[n].start <= i < ranges[n].end
  }

  ghost predicate Covers(previous: Bytes, current: Bytes, ranges: seq<Range>, from: nat)
    requires |previous| == |current|
  {
    forall i {:trigger Inside(ranges, i)} | from <= i && Changed(previous, current, i) ::
      Inside(ranges, i)
  }

  /** The grouping of the changes at or after `from` that the format calls for. */
  ghost predicate Canonical(previous: Bytes, current: Bytes, gap: nat, ranges: seq<Range>, from: nat)
    requires |previous| == |current|
  {
    && AllTight(previous, current, gap, ranges, from)
    && Apart(gap, ranges)
    && Covers(previous, current, ranges, from)
  }

  /** What stopping at `k` means: everything up to `k` is tight, and more than `gap` equal bytes follow. */
  lemma {:induction false} LastChangeIsTight(previous: Bytes, current: Bytes, gap: nat,
                                             start: nat, last: nat, i: nat)
    requires |previous| == |current| && start <= last < i <= |current|
    requires i - last <= gap + 1
    requires Tight(previous, current, gap, Range(start, last + 1))
    requires forall j | last < j < i :: !Changed(previous, current, j)
    ensures var k := LastChange(previous, current, gap, last, i);
            Tight(previous, current, gap, Range(start, k + 1)) && Quiet(previous, current, gap, k + 1)
    decreases |current| - i
  {
    if i < |current| && previous[i] != current[i] {
      assert Changed(previous, current, i);
      LastChangeIsTight(previous, current, gap, start, i, i + 1);
    } else if i < |current| && i - last <= gap {
      LastChangeIsTight(previous, current, gap, start, last, i + 1);
    }
  }

  lemma GroupStep(previous: Bytes, current: Bytes, gap: nat, i: nat)
    requires |previous| == |current| && i < |current|
    ensures previous[i] == current[i] ==> Group(previous, current, gap, i) == Group(previous, current, gap, i + 1)
    ensures previous[i] != current[i] ==>
              && Changed(previous, current, i)
              && var last := LastChange(previous, current, gap, i, i + 1);
              Group(previous, current, gap, i) == [Range(i, last + 1)] + Group(previous, current, gap, last + 1)
  {
    hide LastChange;
  }

  lemma GroupSkips(previous: Bytes, current: Bytes, gap: nat, i: nat)
    requires |previous| == |current| && i <= |current|
    ensures var start := FirstChange(previous, current, i);
            Group(previous, current, gap, i) == Group(previous, current, gap, start)
  {
    hide LastChange;
    assert FirstChange(previous, current, FirstChange(previous, current, i)) == FirstChange(previous, current, i);
  }

  lemma NothingToGroup(previous: Bytes, current: Bytes, gap: nat, from: nat)
    requires |previous| == |current| && from <= |current|
    requires FirstChange(previous, current, from) == |current|
    ensures Canonical(previous, current, gap, Group(previous, current, gap, from), from)
  {
    hide FirstChange, LastChange;
    GroupSkips(previous, current, gap, from);
    GroupEnd(previous, current, gap);
  }

  lemma OneByteIsTight(previous: Bytes, current: Bytes, gap: nat, from: nat)
    requires |previous| == |current| && from <= |current|
    requires FirstChange(previous, current, from) < |current|
    ensures var start := FirstChange(previous, current, from);
            && Tight(previous, current, gap, Range(start, start + 1))
            && Changed(previous, current, start) && previous[start] != current[start]
  {
  }

  /** The encoder's grouping is canonical, although its scan rewinds after every range. */
  lemma {:induction false} GroupIsCanonical(previous: Bytes, current: Bytes, gap: nat, from: nat)
    requires |previous| == |current| && from <= |current|
    ensures Canonical(previous, current, gap, Group(previous, current, gap, from), from)
    decreases |current| - from
  {
    hide *;
    var start := FirstChange(previous, current, from);
    if start == |current| {
      NothingToGroup(previous, current, gap, from);
    } else {
      OneByteIsTight(previous, current, gap, from);
      GroupStep(previous, current, gap, start);
      GroupSkips(previous, current, gap, from);
      var last := LastChange(previous, current, gap, start, start + 1);
      var tail := Group(previous, current, gap, last + 1);
      LastChangeIsTight(previous, current, gap, start, start, start + 1);
      GroupIsCanonical(previous, current, gap, last + 1);
      CanonicalExtend(previous, current, gap, Range(start, last + 1), tail, from);
    }
  }

  lemma CanonicalExtend(previous: Bytes, current: Bytes, gap: nat, range: Range,
                        tail: seq<Range>, from: nat)
    requires |previous| == |current|
    requires from <= range.start && Tight(previous, current, gap, range)
    requires forall j | from <= j < range.start :: !Changed(previous, current, j)
    requires Quiet(previous, current, gap, range.end)
    requires Canonical(previous, current, gap, tail, range.end)
    ensures Canonical(previous, current, gap, [range] + tail, from)
  {
    hide Tight, Quiet, Changed, Apart, AllTight, Covers;
    ApartExtend(previous, current, gap, range, tail);
    AllTightExtend(previous, current, gap, range, tail, from);
    CoversExtend(previous, current, range, tail, from);
  }

  lemma ApartExtend(previous: Bytes, current: Bytes, gap: nat, range: Range, tail: seq<Range>)
    requires |previous| == |current|
    requires Quiet(previous, current, gap, range.end)
    requires AllTight(previous, current, gap, tail, range.end) && Apart(gap, tail)
    ensures Apart(gap, [range] + tail)
  {
    var ranges := [range] + tail;
    forall n | 0 < n < |ranges| ensures range.end + gap < ranges[n].start {
      assert ranges[n] == tail[n - 1];
      assert Tight(previous, current, gap, tail[n - 1]);
    }
  }

  lemma AllTightExtend(previous: Bytes, current: Bytes, gap: nat, range: Range, tail: seq<Range>, from: nat)
    requires |previous| == |current|
    requires from <= range.start && Tight(previous, current, gap, range)
    requires AllTight(previous, current, gap, tail, range.end)
    ensures AllTight(previous, current, gap, [range] + tail, from)
  {
    hide Tight, Quiet, Changed;
    var ranges := [range] + tail;
    TightOrder(previous, current, gap, range);
    forall n | 0 < n < |ranges| ensures from <= ranges[n].start && Tight(previous, current, gap, ranges[n]) {
      assert ranges[n] == tail[n - 1];
    }
  }

  lemma CoversExtend(previous: Bytes, current: Bytes, range: Range, tail: seq<Range>, from: nat)
    requires |previous| == |current|
    requires forall j | from <= j < range.start :: !Changed(previous, current, j)
    requires Covers(previous, current, tail, range.end)
    ensures Covers(previous, current, [range] + tail, from)
  {
    hide Changed;
    var ranges := [range] + tail;
    forall i | from <= i && Changed(previous, current, i) ensures Inside(ranges, i) {
      if i < range.end {
        assert ranges[0].start <= i < ranges[0].end;
      } else {
        assert Inside(tail, i);
        var n :| 0 <= n < |tail| && tail[n].start <= i < tail[n].end;
        assert ranges[n + 1] == tail[n];
      }
    }
  }

  lemma TightOrder(previous: Bytes, current: Bytes, gap: nat, range: Range)
    requires |previous| == |current| && Tight(previous, current, gap, range)
    ensures range.start < range.end <= |current|
  {
  }

  /** Ranges are nonempty, within the buffer, in order and apart, and they cover every change. */
  lemma GroupBounds(previous: Bytes, current: Bytes, gap: nat)
    requires |previous| == |current|
    ensures var ranges := Group(previous, current, gap, 0);
            && (forall n | 0 <= n < |ranges| :: ranges[n].start < ranges[n].end <= |current|)
            && Apart(0, ranges)
            && Covers(previous, current, ranges, 0)
  {
    hide Group, Tight;
    var ranges := Group(previous, current, gap, 0);
    GroupIsCanonical(previous, current, gap, 0);
    forall n | 0 <= n < |ranges| ensures ranges[n].start < ranges[n].end <= |current| {
      TightOrder(previous, current, gap, ranges[n]);
    }
  }

  lemma CanonicalTail(previous: Bytes, current: Bytes, gap: nat, ranges: seq<Range>, from: nat)
    requires |previous| == |current|
    requires Canonical(previous, current, gap, ranges, from) && ranges != []
    ensures Canonical(previous, current, gap, ranges[1..], ranges[0].end)
  {
    var tail := ranges[1..];
    assert Tight(previous, current, gap, ranges[0]);
    assert AllTight(previous, current, gap, tail, ranges[0].end) by {
      forall n | 0 <= n < |tail|
        ensures ranges[0].end <= tail[n].start && Tight(previous, current, gap, tail[n])
      {
        assert tail[n] == ranges[n + 1];
      }
    }
    assert Apart(gap, tail) by {
      forall m, n | 0 <= m < n < |tail| ensures tail[m].end + gap < tail[n].start {
        assert tail[m] == ranges[m + 1] && tail[n] == ranges[n + 1];
      }
    }
    forall i | ranges[0].end <= i && Changed(previous, current, i) ensures Inside(tail, i) {
      assert Inside(ranges, i);
      var n :| 0 <= n < |ranges| && ranges[n].start <= i < ranges[n].end;
      assert tail[n - 1] == ranges[n];
    }
  }

  lemma FirstRangeStart(previous: Bytes, current: Bytes, gap: nat, ranges: seq<Range>, from: nat)
    requires |previous| == |current| && from <= |current|
    requires Canonical(previous, current, gap, ranges, from)
    ensures ranges == [] <==> FirstChange(previous, current, from) == |current|
    ensures ranges != [] ==> ranges[0].start == FirstChange(previous, current, from)
  {
    var first := FirstChange(previous, current, from);
    if ranges != [] {
      assert Tight(previous, current, gap, ranges[0]);
    }
    if first < |current| {
      assert Inside(ranges, first);
      var n :| 0 <= n < |ranges| && ranges[n].start <= first < ranges[n].end;
      assert Tight(previous, current, gap, ranges[n]);
    }
  }

  lemma QuietAfterFirst(previous: Bytes, current: Bytes, gap: nat, ranges: seq<Range>, from: nat, k: nat)
    requires |previous| == |current|
    requires Canonical(previous, current, gap, ranges, from) && ranges != []
    requires ranges[0].end <= k <= ranges[0].end + gap
    ensures !Changed(previous, current, k)
  {
    assert !Inside(ranges, k);
  }

  /** Of two canonical groupings neither can end its first range earlier. */
  lemma FirstRangeEnd(previous: Bytes, current: Bytes, gap: nat, a: seq<Range>, b: seq<Range>, from: nat)
    requires |previous| == |current|
    requires Canonical(previous, current, gap, a, from) && Canonical(previous, current, gap, b, from)
    requires a != [] && b != [] && a[0].start == b[0].start
    ensures a[0].end >= b[0].end
  {
    var e := a[0].end;
    assert Tight(previous, current, gap, a[0]) && Tight(previous, current, gap, b[0]);
    if e < b[0].end {
      assert Inside(a, b[0].end - 1);
      var n :| 0 <= n < |a| && a[n].start <= b[0].end - 1 < a[n].end;
      assert e + gap < a[n].start;
      assert !Quiet(previous, current, gap, e);
      var k :| e <= k <= e + gap && Changed(previous, current, k);
      QuietAfterFirst(previous, current, gap, a, from, k);
    }
  }

  /** There is only one canonical grouping, so the properties above pin the encoder's output down. */
  lemma {:induction false} CanonicalIsUnique(previous: Bytes, current: Bytes, gap: nat,
                                             a: seq<Range>, b: seq<Range>, from: nat)
    requires |previous| == |current| && from <= |current|
    requires Canonical(previous, current, gap, a, from) && Canonical(previous, current, gap, b, from)
    ensures a == b
    decreases |a|
  {
    FirstRangeStart(previous, current, gap, a, from);
    FirstRangeStart(previous, current, gap, b, from);
    if a != [] {
      FirstRangeEnd(previous, current, gap, a, b, from);
      FirstRangeEnd(previous, current, gap, b, a, from);
      CanonicalTail(previous, current, gap, a, from);
      CanonicalTail(previous, current, gap, b, from);
      assert Tight(previous, current, gap, a[0]);
      CanonicalIsUnique(previous, current, gap, a[1..], b[1..], a[0].end);
      assert a == [a[0]] + a[1..] && b == [b[0]] + b[1..];
    }
  }

  lemma GroupEnd(previous: Bytes, current: Bytes, gap: nat)
    requires |previous| == |current|
    ensures Group(previous, current, gap, |current|) == []
  {
  }

  /** The encoder's outer loop: the index rewinds to the end of each range that it stores. */
  method FindRanges(previous: Bytes, current: Bytes, maxGap: nat) returns (ranges: seq<Range>)
    requires |previous| == |current|
    ensures ranges == Group(previous, current, maxGap, 0)
  {
    hide *;
    ranges := [];
    var i := 0;
    while i < |current|
      invariant i <= |current|
      invariant ranges + Group(previous, current, maxGap, i) == Group(previous, current, maxGap, 0)
    {
      GroupStep(previous, current, maxGap, i);
      if previous[i] == current[i] {
        i := i + 1;
        continue;
      }
      var start := i;
      var lastChanged := ScanRange(previous, current, maxGap, start);
      Associative(ranges, [Range(start, lastChanged + 1)], Group(previous, current, maxGap, lastChanged + 1));
      ranges := ranges + [Range(start, lastChanged + 1)];
      i := lastChanged + 1;
    }
    GroupEnd(previous, current, maxGap);
  }

  /** The inner loop: looks past the last change for another one, and gives up after `maxGap` bytes. */
  method ScanRange(previous: Bytes, current: Bytes, maxGap: nat, start: nat) returns (lastChanged: nat)
    requires |previous| == |current| && Changed(previous, current, start)
    ensures lastChanged == LastChange(previous, current, maxGap, start, start + 1)
  {
    lastChanged := start;
    var i := start + 1;
    while i < |current|
      invariant start <= lastChanged < i <= |current|
      invariant Changed(previous, current, lastChanged)
      invariant LastChange(previous, current, maxGap, start, start + 1)
             == LastChange(previous, current, maxGap, lastChanged, i)
    {
      if previous[i] != current[i] {
        lastChanged := i;
      } else if i - lastChanged > maxGap {
        break;
      }
      i := i + 1;
    }
  }
}
