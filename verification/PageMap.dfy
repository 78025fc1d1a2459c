/** The page index of the bus (bus.go): sorted lists of disjoint address ranges. */
module PageMap {
  import opened Words
  import opened Devices

  datatype PageRange = PageRange(start: u24, end: u24, device: Device) {
    predicate Covers(a: int) { start <= a <= end }
  }

  /** Non-empty ranges in ascending order, pairwise disjoint, all inside [low, high]. */
  ghost predicate Sorted(ranges: seq<PageRange>, low: int, high: int) {
    && (forall i :: 0 <= i < |ranges| ==> low <= ranges[i].start <= ranges[i].end <= high)
    && (forall i, j :: 0 <= i < j < |ranges| ==> ranges[i].end < ranges[j].start)
  }

  ghost predicate Covered(ranges: seq<PageRange>, a: int) {
    exists i :: 0 <= i < |ranges| && ranges[i].Covers(a)
  }

  /** The first range covering the address, by linear scan: the reference for the binary search. */
  function Lookup(ranges: seq<PageRange>, a: int): (r: Option<Device>)
    ensures r.Some? <==> Covered(ranges, a)
    ensures r.Some? ==> exists i :: 0 <= i < |ranges| && ranges[i].Covers(a) && ranges[i].device == r.value
  {
    if |ranges| == 0 then None
    else if ranges[0].Covers(a) then Some(ranges[0].device)
    else
      var r := Lookup(ranges[1..], a);
      assert forall i :: 1 <= i < |ranges| ==> ranges[i] == ranges[1..][i - 1];
      r
  }

  lemma LookupAt(ranges: seq<PageRange>, i: nat, a: int, low: int, high: int)
    requires Sorted(ranges, low, high) && i < |ranges| && ranges[i].Covers(a)
    ensures Lookup(ranges, a) == Some(ranges[i].device)
  {
  }

  /** Binary search in one page. */
  method FindPageMappedDevice(ranges: seq<PageRange>, address: u24) returns (r: Option<Device>)
    requires Sorted(ranges, 0, 0xff_ffff)
    ensures r == Lookup(ranges, address)
  {
    var lo, hi := 0, |ranges|;
    while lo < hi
      invariant 0 <= lo <= hi <= |ranges|
      invariant forall i :: 0 <= i < lo ==> ranges[i].end < address
      invariant forall i :: hi <= i < |ranges| ==> address < ranges[i].start
    {
      var mid := lo + (hi - lo) / 2;
      var current := ranges[mid];
      if address < current.start {
        hi := mid;
      } else if address > current.end {
        lo := mid + 1;
      } else {
        LookupAt(ranges, mid, address, 0, 0xff_ffff);
        return Some(current.device);
      }
    }
    return None;
  }

  /** The gaps are what existing leaves free of [start, cursor). */
  ghost predicate Filled(gaps: seq<PageRange>, existing: seq<PageRange>, start: int, cursor: int) {
    forall a :: Covered(gaps, a) <==> start <= a < cursor && !Covered(existing, a)
  }

  lemma NothingFilled(existing: seq<PageRange>, start: int)
    ensures Filled([], existing, start, start)
  {
  }

  lemma GapFilled(gaps: seq<PageRange>, existing: seq<PageRange>, k: nat, start: int, cursor: u24, last: u24,
                  device: Device)
    requires Sorted(existing, 0, 0xff_ffff) && k <= |existing| && start <= cursor <= last
    requires Sorted(gaps, start, cursor - 1) && Filled(gaps, existing, start, cursor)
    requires (forall i :: 0 <= i < k ==> existing[i].end < cursor) && (k < |existing| ==> last < existing[k].start)
    ensures Filled(Append(gaps, PageRange(cursor, last, device), start), existing, start, last + 1)
  {
    assert forall i :: k <= i < |existing| ==> existing[i].start > last;
    assert forall a :: cursor <= a <= last ==> !Covered(existing, a);
  }

  lemma RangeSkipped(gaps: seq<PageRange>, existing: seq<PageRange>, k: nat, start: int, cursor: int, last: int)
    requires k < |existing| && existing[k].start <= cursor && last <= existing[k].end && start <= cursor
    requires Filled(gaps, existing, start, cursor)
    ensures Filled(gaps, existing, start, last + 1) || last + 1 < cursor
  {
    if cursor <= last + 1 {
      forall a | cursor <= a <= last ensures Covered(existing, a) {
        assert existing[k].Covers(a);
      }
    }
  }

  /** The parts of [start, end] that no existing range covers, as ranges of the new device. */
  method Uncovered(existing: seq<PageRange>, start: u24, end: u24, device: Device) returns (gaps: seq<PageRange>)
    requires start <= end && Sorted(existing, 0, 0xff_ffff)
    ensures Sorted(gaps, start, end)
    ensures forall i :: 0 <= i < |gaps| ==> gaps[i].device == device
    ensures forall a :: Covered(gaps, a) <==> start <= a <= end && !Covered(existing, a)
  {
    hide Covered;
    gaps := [];
    var cursor: int := start;
    var k := 0;
    NothingFilled(existing, start);
    while k < |existing|
      invariant 0 <= k <= |existing|
      invariant start <= cursor <= end + 1
      invariant Sorted(gaps, start, cursor - 1)
      invariant forall i :: 0 <= i < |gaps| ==> gaps[i].device == device
      invariant forall i :: 0 <= i < k ==> existing[i].end < cursor
      invariant Filled(gaps, existing, start, cursor)
    {
      var current := existing[k];
      if current.end < cursor {
        k := k + 1;
        continue;
      }
      if current.start > end {
        break;
      }
      if cursor < current.start {
        GapFilled(gaps, existing, k, start, cursor, current.start - 1, device);
        var last := if end < current.start - 1 then end else current.start - 1;
        gaps := Append(gaps, PageRange(cursor, last, device), start);
        cursor := current.start;
      }
      RangeSkipped(gaps, existing, k, start, cursor, if current.end < end then current.end else end);
      if current.end >= end {
        cursor := end + 1;
        break;
      }
      cursor := current.end + 1;
      k := k + 1;
    }
    if cursor <= end {
      GapFilled(gaps, existing, k, start, cursor, end, device);
      gaps := Append(gaps, PageRange(cursor, end, device), start);
    }
  }

  /** Appending a range beyond all others. */
  function Append(ranges: seq<PageRange>, last: PageRange, low: int): (r: seq<PageRange>)
    requires low <= last.start <= last.end && Sorted(ranges, low, last.start - 1)
    ensures r == ranges + [last]
    ensures Sorted(r, low, last.end)
    ensures forall a :: Covered(r, a) <==> Covered(ranges, a) || last.Covers(a)
  {
    var r := ranges + [last];
    assert forall a :: last.Covers(a) ==> Covered(r, a) by {
      forall a | last.Covers(a) ensures Covered(r, a) { assert r[|ranges|].Covers(a); }
    }
    assert forall a :: Covered(ranges, a) ==> Covered(r, a) by {
      forall a | Covered(ranges, a) ensures Covered(r, a) {
        var i :| 0 <= i < |ranges| && ranges[i].Covers(a);
        assert r[i].Covers(a);
      }
    }
    r
  }

  /** Every range of the first list keeps clear of every range of the second. */
  ghost predicate Apart(xs: seq<PageRange>, ys: seq<PageRange>) {
    forall i, j :: 0 <= i < |xs| && 0 <= j < |ys| ==> xs[i].end < ys[j].start || ys[j].end < xs[i].start
  }

  lemma CoverageApart(xs: seq<PageRange>, ys: seq<PageRange>, low: int, high: int)
    requires Sorted(xs, low, high) && Sorted(ys, low, high)
    requires forall a :: Covered(ys, a) ==> !Covered(xs, a)
    ensures Apart(xs, ys)
  {
    forall i, j | 0 <= i < |xs| && 0 <= j < |ys|
      ensures xs[i].end < ys[j].start || ys[j].end < xs[i].start
    {
      var a := if xs[i].start < ys[j].start then ys[j].start else xs[i].start;
      if xs[i].Covers(a) && ys[j].Covers(a) {
        assert Covered(xs, a) && Covered(ys, a);
      }
    }
  }

  /** Merges two lists that keep clear of each other. */
  method Merge(existing: seq<PageRange>, gaps: seq<PageRange>, ghost low: int, ghost high: int)
    returns (merged: seq<PageRange>)
    requires Sorted(existing, low, high) && Sorted(gaps, low, high) && Apart(existing, gaps)
    ensures Sorted(merged, low, high)
    ensures SameRanges(merged, existing, gaps)
  {
    merged := [];
    var i, j := 0, 0;
    while i < |existing| && j < |gaps|
      invariant 0 <= i <= |existing| && 0 <= j <= |gaps|
      invariant Sorted(merged, low, high) && Before(merged, existing[i..]) && Before(merged, gaps[j..])
      invariant SameRanges(merged, existing[..i], gaps[..j])
    {
      if existing[i].start <= gaps[j].start {
        Moved(merged, existing, i, gaps, j, low, high);
        merged := merged + [existing[i]];
        i := i + 1;
      } else {
        Moved(merged, gaps, j, existing, i, low, high);
        merged := merged + [gaps[j]];
        j := j + 1;
      }
    }
    Concatenated(merged, existing[i..], low, high);
    Concatenated(merged + existing[i..], gaps[j..], low, high);
    assert existing == existing[..i] + existing[i..] && gaps == gaps[..j] + gaps[j..];
    merged := merged + existing[i..];
    merged := merged + gaps[j..];
  }

  ghost predicate Before(xs: seq<PageRange>, ys: seq<PageRange>) {
    forall i, j :: 0 <= i < |xs| && 0 <= j < |ys| ==> xs[i].end < ys[j].start
  }

  ghost predicate SameRanges(merged: seq<PageRange>, xs: seq<PageRange>, ys: seq<PageRange>) {
    && (forall r :: r in merged ==> r in xs || r in ys)
    && (forall r :: r in xs ==> r in merged)
    && (forall r :: r in ys ==> r in merged)
  }

  /** Moving the head of the list that starts first keeps the merge in order. */
  lemma Moved(merged: seq<PageRange>, xs: seq<PageRange>, i: nat, ys: seq<PageRange>, j: nat, low: int, high: int)
    requires i < |xs| && j < |ys| && xs[i].start <= ys[j].start
    requires Sorted(xs, low, high) && Sorted(ys, low, high) && (Apart(xs, ys) || Apart(ys, xs))
    requires Sorted(merged, low, high) && Before(merged, xs[i..]) && Before(merged, ys[j..])
    ensures Sorted(merged + [xs[i]], low, high)
    ensures Before(merged + [xs[i]], xs[i + 1..]) && Before(merged + [xs[i]], ys[j..])
    ensures SameRanges(merged, xs[..i], ys[..j]) ==> SameRanges(merged + [xs[i]], xs[..i + 1], ys[..j])
    ensures SameRanges(merged, ys[..j], xs[..i]) ==> SameRanges(merged + [xs[i]], ys[..j], xs[..i + 1])
  {
    assert xs[i..][0] == xs[i];
    Concatenated(merged, [xs[i]], low, high);
    assert xs[..i + 1] == xs[..i] + [xs[i]];
    assert xs[i].end < ys[j].start;
  }

  lemma Concatenated(xs: seq<PageRange>, ys: seq<PageRange>, low: int, high: int)
    requires Sorted(xs, low, high) && Sorted(ys, low, high)
    requires Before(xs, ys)
    ensures Sorted(xs + ys, low, high)
    ensures forall r :: r in xs + ys <==> r in xs || r in ys
  {
  }

  /** Devices added earlier keep the addresses they cover. */
  lemma MergedLookup(existing: seq<PageRange>, gaps: seq<PageRange>, merged: seq<PageRange>, low: int, high: int,
                     a: int)
    requires Sorted(existing, low, high) && Sorted(merged, low, high)
    requires SameRanges(merged, existing, gaps)
    ensures Lookup(merged, a) == if Covered(existing, a) then Lookup(existing, a) else Lookup(gaps, a)
  {
    if Covered(existing, a) {
      var i :| 0 <= i < |existing| && existing[i].Covers(a);
      LookupAt(existing, i, a, low, high);
      assert existing[i] in merged;
      var m :| 0 <= m < |merged| && merged[m] == existing[i];
      LookupAt(merged, m, a, low, high);
    } else if Covered(gaps, a) {
      var i :| 0 <= i < |gaps| && gaps[i].Covers(a) && gaps[i].device == Lookup(gaps, a).value;
      assert gaps[i] in merged;
      var m :| 0 <= m < |merged| && merged[m] == gaps[i];
      LookupAt(merged, m, a, low, high);
    } else {
      NothingNew(existing, gaps, merged, a);
    }
  }

  lemma NothingNew(existing: seq<PageRange>, gaps: seq<PageRange>, merged: seq<PageRange>, a: int)
    requires SameRanges(merged, existing, gaps)
    ensures Covered(merged, a) ==> Covered(existing, a) || Covered(gaps, a)
  {
    if Covered(merged, a) {
      var m :| 0 <= m < |merged| && merged[m].Covers(a);
      var r := merged[m];
      assert r in merged;
      if r in existing {
        var i :| 0 <= i < |existing| && existing[i] == r;
        assert existing[i].Covers(a);
      } else {
        var i :| 0 <= i < |gaps| && gaps[i] == r;
        assert gaps[i].Covers(a);
      }
    }
  }
}
