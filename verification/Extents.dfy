/**
  How preload learns which sectors a file has allocated: the file system is
  asked for extents, at most 1024 at a time, each time from where the last
  batch ended.  Extents are counted in sectors here.
*/
module Extents {

  const BatchSize: nat := 1024

  datatype Extent = Extent(first: nat, count: nat)

  function End(e: Extent): nat {
    e.first + e.count
  }

  /** The extents of a file are nonempty, disjoint and ascending. */
  predicate Ordered(exts: seq<Extent>) {
    && (forall i :: 0 <= i < |exts| ==> exts[i].count > 0)
    && (forall i, j :: 0 <= i < j < |exts| ==> End(exts[i]) <= exts[j].first)
  }

  /** What the file system answers: the extents that end after start, oldest first, at most BatchSize of them. */
  function Fiemap(exts: seq<Extent>, start: nat): seq<Extent>
    decreases |exts|
  {
    if exts == [] then []
    else if End(exts[0]) <= start then Fiemap(exts[1..], start)
    else exts[..if |exts| <= BatchSize then |exts| else BatchSize]
  }

  /** The sectors of an extent. */
  function Span(e: Extent): (r: seq<nat>)
    ensures |r| == e.count
    ensures forall k :: 0 <= k < |r| ==> r[k] == e.first + k
  {
    seq(e.count, k requires 0 <= k => e.first + k)
  }

  function Enumerate(exts: seq<Extent>): seq<nat> {
    if exts == [] then [] else Enumerate(exts[..|exts| - 1]) + Span(exts[|exts| - 1])
  }

  predicate Ascending(s: seq<nat>) {
    forall i, j :: 0 <= i < j < |s| ==> s[i] < s[j]
  }

  predicate Allocated(exts: seq<Extent>, x: nat) {
    exists i :: 0 <= i < |exts| && exts[i].first <= x < End(exts[i])
  }

  /** Each allocated sector is enumerated exactly once, in ascending order. */
  lemma {:induction false} EnumerateExact(exts: seq<Extent>)
    requires Ordered(exts)
    ensures Ascending(Enumerate(exts))
    ensures forall x: nat :: x in Enumerate(exts) <==> Allocated(exts, x)
  {
    if exts != [] {
      var init, last := exts[..|exts| - 1], exts[|exts| - 1];
      EnumerateExact(init);
      assert forall x: nat :: Allocated(init, x) ==> x < last.first;
      forall x: nat
        ensures x in Enumerate(exts) <==> Allocated(exts, x)
      {
        assert x in Span(last) <==> last.first <= x < End(last) by {
          if last.first <= x < End(last) {
            assert Span(last)[x - last.first] == x;
          }
        }
        assert Allocated(exts, x) <==> Allocated(init, x) || last.first <= x < End(last) by {
          if Allocated(init, x) {
            var i :| 0 <= i < |init| && init[i].first <= x < End(init[i]);
            assert exts[i] == init[i];
          }
        }
      }
      AscendingAppend(Enumerate(init), last);
    }
  }

  lemma AscendingAppend(s: seq<nat>, e: Extent)
    requires Ascending(s)
    requires forall x :: x in s ==> x < e.first
    ensures Ascending(s + Span(e))
  {
    var t := s + Span(e);
    forall i, j | 0 <= i < j < |t|
      ensures t[i] < t[j]
    {
      if i < |s| {
        assert s[i] in s;
      }
    }
  }

  /** Where the scan stands after k extents. */
  function Reached(exts: seq<Extent>, k: nat): nat
    requires k <= |exts|
  {
    if k == 0 then 0 else End(exts[k - 1])
  }

  /** Asking from the end of extent k - 1 yields the extents from k on: nothing is skipped or repeated. */
  lemma {:induction false} FiemapContinues(exts: seq<Extent>, k: nat, start: nat)
    requires Ordered(exts) && k <= |exts|
    requires k > 0 ==> End(exts[k - 1]) == start
    requires k == 0 ==> exts == [] || start <= exts[0].first
    ensures Fiemap(exts, start) == exts[k..if k + BatchSize <= |exts| then k + BatchSize else |exts|]
    decreases |exts|
  {
    if exts != [] && k > 0 {
      var rest := exts[1..];
      assert Ordered(rest) by {
        assert forall i :: 0 <= i < |rest| ==> rest[i] == exts[i + 1];
      }
      assert k > 1 ==> rest[k - 2] == exts[k - 1];
      FiemapContinues(rest, k - 1, start);
      assert End(exts[0]) <= start;
      var hi := if k + BatchSize <= |exts| then k + BatchSize else |exts|;
      SliceOfTail(exts, k, hi);
    }
  }

  lemma SliceOfTail(exts: seq<Extent>, lo: nat, hi: nat)
    requires 0 < lo <= hi <= |exts|
    ensures exts[1..][lo - 1..hi - 1] == exts[lo..hi]
  {
  }

  /**
    The generator that feeds preload.  A query may fail, in which case what was
    emitted is a prefix of the enumeration.
  */
  method FindExtents(exts: seq<Extent>, faulty: bool) returns (emitted: seq<nat>, ok: bool)
    requires Ordered(exts)
    ensures !faulty ==> ok
    ensures ok ==> emitted == Enumerate(exts)
    ensures emitted <= Enumerate(exts)
  {
    UptoAll(exts);
    emitted := [];
    var start := 0;
    ghost var k := 0;
    while true
      invariant 0 <= k <= |exts|
      invariant start == Reached(exts, k)
      invariant emitted == Upto(exts, k)
      decreases |exts| - k
    {
      UptoIsPrefix(exts, k);
      var fails: bool := *;
      if faulty && fails {
        return emitted, false;
      }
      var batch := Fiemap(exts, start);
      FiemapContinues(exts, k, start);
      if |batch| == 0 {
        return emitted, true;
      }
      var atEnd;
      emitted, start, atEnd := EmitBatch(exts, batch, k, emitted);
      if atEnd {
        return emitted, true;
      }
      k := k + |batch|;
    }
  }

  /** Emits the extents of one batch; the last extent of the file ends the scan. */
  method EmitBatch(exts: seq<Extent>, batch: seq<Extent>, ghost k: nat, before: seq<nat>)
    returns (emitted: seq<nat>, start: nat, atEnd: bool)
    requires Ordered(exts) && 0 < |batch| <= |exts| - k && batch == exts[k..k + |batch|]
    requires before == Upto(exts, k)
    ensures atEnd ==> emitted == Upto(exts, |exts|)
    ensures !atEnd ==> emitted == Upto(exts, k + |batch|) && start == Reached(exts, k + |batch|)
  {
    emitted, start := before, 0;
    var j := 0;
    while j < |batch|
      invariant 0 <= j <= |batch|
      invariant j > 0 ==> start == Reached(exts, k + j)
      invariant emitted == Upto(exts, k + j)
    {
      var extent := batch[j];
      assert extent == exts[k + j];
      emitted := emitted + Span(extent);
      start := End(extent);
      j := j + 1;
      if extent == exts[|exts| - 1] {
        LastExtent(exts, k + j);
        return emitted, start, true;
      }
    }
    atEnd := false;
  }

  /** The sectors of the first n extents. */
  function Upto(exts: seq<Extent>, n: nat): seq<nat>
    requires n <= |exts|
  {
    if n == 0 then [] else Upto(exts, n - 1) + Span(exts[n - 1])
  }

  lemma {:induction false} UptoIsEnumerate(exts: seq<Extent>, n: nat)
    requires n <= |exts|
    ensures Upto(exts, n) == Enumerate(exts[..n])
  {
    if n > 0 {
      UptoIsEnumerate(exts, n - 1);
      assert exts[..n][..n - 1] == exts[..n - 1];
    }
  }

  lemma UptoAll(exts: seq<Extent>)
    ensures Upto(exts, |exts|) == Enumerate(exts)
  {
    UptoIsEnumerate(exts, |exts|);
    assert exts[..|exts|] == exts;
  }

  lemma {:induction false} UptoIsPrefix(exts: seq<Extent>, n: nat)
    requires n <= |exts|
    ensures Upto(exts, n) <= Upto(exts, |exts|)
    decreases |exts| - n
  {
    if n < |exts| {
      UptoIsPrefix(exts, n + 1);
    }
  }

  lemma LastExtent(exts: seq<Extent>, k: nat)
    requires Ordered(exts) && 0 < k <= |exts| && exts[k - 1] == exts[|exts| - 1]
    ensures k == |exts|
  {
  }
}
