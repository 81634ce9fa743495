/**
  Deleting a snapshot: its file is folded into the file below it, and the layer
  is taken out of the chain.  The fold is done by an external tool, sector by
  sector; taking the layer out shifts the location cache.
*/
module Coalesce {
  import opened Layers
  import opened Volume

  // ---- Folding and removing a layer ----

  /** Layer i has been overlaid on layer i - 1. */
  function Fold(L: seq<Layer>, i: nat): (r: seq<Layer>)
    requires 2 <= i < |L|
    ensures |r| == |L|
  {
    L[i - 1 := L[i - 1] + L[i]]
  }

  function RemoveLayer(L: seq<Layer>, i: nat): (r: seq<Layer>)
    requires i < |L|
    ensures |r| == |L| - 1
  {
    L[..i] + L[i + 1..]
  }

  /** The index of a layer once layer i is gone; i itself is found in i - 1. */
  function Shift(u: nat, i: nat): nat {
    if u >= i > 0 then u - 1 else u
  }

  /** Part of a fold: some of the sectors of layer i have been copied down. */
  ghost predicate PartlyFolded(L: seq<Layer>, L': seq<Layer>, i: nat)
    requires 2 <= i < |L|
  {
    && |L'| == |L|
    && (forall k :: 0 <= k < |L| && k != i - 1 ==> L'[k] == L[k])
    && (forall s :: s in L'[i - 1] <==> s in L[i - 1] || (s in L[i] && s in L'[i - 1]))
    && (forall s :: s in L'[i - 1] ==>
          (s in L[i - 1] && L'[i - 1][s] == L[i - 1][s]) || (s in L[i] && L'[i - 1][s] == L[i][s]))
  }

  /** However far a fold has come, only the view at the layer folded into can have changed. */
  lemma PartialFoldKeepsViews(L: seq<Layer>, L': seq<Layer>, i: nat, s: nat, u: nat)
    requires 2 <= i < |L| && u < |L| && u != i - 1
    requires PartlyFolded(L, L', i)
    ensures View(L', s, u) == View(L, s, u)
  {
    TopIsTop(L, s, u);
    if u < i - 1 {
      TopUnique(L', s, u, Top(L, s, u));
    } else if Top(L, s, u) >= i {
      TopUnique(L', s, u, Top(L, s, u));
    } else {
      assert s !in L[i];
      TopUnique(L', s, u, Top(L, s, u));
    }
  }

  /** Folding layer i down and removing it keeps every view but that of layer i - 1, which is replaced by that of i. */
  lemma FoldRemoveKeepsViews(L: seq<Layer>, i: nat, s: nat, u: nat)
    requires 2 <= i < |L| && u < |L| && u != i - 1
    ensures var L' := RemoveLayer(Fold(L, i), i);
            && Top(L', s, Shift(u, i)) == Shift(Top(L, s, u), i)
            && View(L', s, Shift(u, i)) == View(L, s, u)
  {
    var L' := RemoveLayer(Fold(L, i), i);
    TopIsTop(L, s, u);
    forall k | Shift(Top(L, s, u), i) < k <= Shift(u, i)
      ensures s !in L'[k]
    {
      assert L'[k] == if k < i then Fold(L, i)[k] else L[k + 1];
    }
    TopUnique(L', s, Shift(u, i), Shift(Top(L, s, u), i));
  }

  // ---- The location cache ----

  function ShiftAll(location: seq<nat>, i: nat): (r: seq<nat>)
    ensures |r| == |location|
    ensures forall s :: 0 <= s < |r| ==> r[s] == Shift(location[s], i)
  {
    seq(|location|, s requires 0 <= s < |location| => Shift(location[s], i))
  }

  /** The shifted cache is coherent with the shorter chain. */
  lemma ShiftedCacheCoherent(L: seq<Layer>, location: seq<nat>, i: nat)
    requires 2 <= i < |L| - 1
    requires Coherent(L, location)
    ensures Coherent(RemoveLayer(Fold(L, i), i), ShiftAll(location, i))
  {
    forall s | 0 <= s < |location|
      ensures Shift(location[s], i) == 0 || Shift(location[s], i) == Target(RemoveLayer(Fold(L, i), i), s)
    {
      FoldRemoveKeepsViews(L, i, s, Head(L));
    }
  }

  // ---- The index of the latest user-created snapshot ----

  /** The last marked index, or the value the index had before. */
  function LastMarked(marks: seq<bool>, otherwise: nat): (r: nat)
    ensures forall k :: 0 <= k < |marks| && marks[k] ==> k <= r
    ensures r == otherwise || (r < |marks| && marks[r])
    ensures (exists k :: 0 <= k < |marks| && marks[k]) ==> r < |marks| && marks[r]
  {
    if marks == [] then otherwise
    else if marks[|marks| - 1] then |marks| - 1
    else LastMarked(marks[..|marks| - 1], otherwise)
  }

  /**
    A user-created snapshot is marked at its own index when the chain was opened
    from disk, and at the index above when it was taken since; either way the
    index in use is not below any snapshot that has to be protected.
  */
  ghost predicate MarksCover(marks: seq<bool>, snapIndx: nat, users: set<nat>) {
    forall u :: u in users ==> CoveredAt(marks, snapIndx, u)
  }

  predicate CoveredAt(marks: seq<bool>, snapIndx: nat, u: nat) {
    && 0 < u < |marks|
    && u <= snapIndx
    && (marks[u] || (u + 1 < |marks| && marks[u + 1]))
  }

  lemma SnapshotKeepsCover(marks: seq<bool>, snapIndx: nat, users: set<nat>, userCreated: bool)
    requires MarksCover(marks, snapIndx, users) && |marks| >= 2
    requires forall u :: u in users ==> u < |marks| - 1
    ensures var head := |marks| - 1;
            MarksCover(marks + [userCreated], if userCreated then head else snapIndx,
                       if userCreated then users + {head} else users)
  {
  }

  /** Removing a layer, with neither it nor the layer below protected, keeps the index high enough. */
  lemma RemoveKeepsCover(marks: seq<bool>, snapIndx: nat, users: set<nat>, i: nat)
    requires MarksCover(marks, snapIndx, users)
    requires 2 <= i < |marks| - 1
    requires i !in users && i - 1 !in users
    ensures var marks' := marks[..i] + marks[i + 1..];
            MarksCover(marks', LastMarked(marks', snapIndx), set u | u in users :: Shift(u, i))
  {
    var marks' := marks[..i] + marks[i + 1..];
    forall u | u in users
      ensures CoveredAt(marks', LastMarked(marks', snapIndx), Shift(u, i))
    {
      assert CoveredAt(marks, snapIndx, u);
      StillCovered(marks, snapIndx, i, u);
    }
  }

  lemma StillCovered(marks: seq<bool>, snapIndx: nat, i: nat, u: nat)
    requires CoveredAt(marks, snapIndx, u)
    requires 2 <= i < |marks| - 1 && u != i && u != i - 1
    ensures var marks' := marks[..i] + marks[i + 1..];
            CoveredAt(marks', LastMarked(marks', snapIndx), Shift(u, i))
  {
    var marks' := marks[..i] + marks[i + 1..];
    var w := Shift(u, i);
    assert marks'[w] == marks[u];
    assert u + 1 < |marks| ==> w + 1 < |marks'| && marks'[w + 1] == marks[u + 1];
    var r := LastMarked(marks', snapIndx);
    assert marks'[w] ==> w <= r;
    assert w + 1 < |marks'| && marks'[w + 1] ==> w + 1 <= r;
  }

  /**
    The index recomputed on a removal is that of the latest user-created snapshot if
    and only if no mark stands above that snapshot, other than on the removed layer.
    A snapshot taken since the chain was opened has its mark one place above.
  */
  lemma LatestAfterRemoveIff(marks: seq<bool>, snapIndx: nat, users: set<nat>, i: nat, latest: nat)
    requires MarksCover(marks, snapIndx, users)
    requires 2 <= i < |marks| - 1
    requires i !in users && i - 1 !in users
    requires latest in users && forall u :: u in users ==> u <= latest
    ensures LastMarked(marks[..i] + marks[i + 1..], snapIndx) == Shift(latest, i)
            <==> forall k :: latest < k < |marks| && k != i ==> !marks[k]
  {
    var marks', w := marks[..i] + marks[i + 1..], Shift(latest, i);
    var r := LastMarked(marks', snapIndx);
    assert CoveredAt(marks, snapIndx, latest);
    assert marks'[w] == marks[latest];
    forall k | latest < k < |marks| && k != i && marks[k]
      ensures r > w
    {
      assert marks'[if k < i then k else k - 1];
    }
    if forall k :: latest < k < |marks| && k != i ==> !marks[k] {
      assert marks[latest];
      forall k | w < k < |marks'|
        ensures !marks'[k]
      {
        assert marks'[k] == marks[if k < i then k else k + 1];
      }
    }
  }

  // ---- Holes that are still queued ----

  /**
    Some queued hole would punch the layer folded into at a sector that one of the
    views reads from the folded layer.
  */
  ghost predicate HitsFold(L: seq<Layer>, q: seq<Hole>, i: nat, views: set<nat>)
    requires 2 <= i < |L|
  {
    exists u, s: nat :: u in views && i <= u < |L| && HitsAt(L, q, i, u, s)
  }

  ghost predicate HitsAt(L: seq<Layer>, q: seq<Hole>, i: nat, u: nat, s: nat)
    requires 2 <= i && u < |L|
  {
    Top(L, s, u) == i && PunchedBy(q, i - 1, s)
  }

  /** The chain when queued holes are executed after the fold and before the layer is removed. */
  function FoldPunchRemove(L: seq<Layer>, q: seq<Hole>, i: nat): (L': seq<Layer>)
    requires 2 <= i < |L|
    requires forall k :: 0 <= k < |q| ==> q[k].layer < |L|
    ensures |L'| == |L| - 1
  {
    RemoveLayer(PunchAll(Fold(L, i), q), i)
  }

  /** Every view but that of the layer folded into still reads each sector from the layer its block ended up in. */
  ghost predicate SourcesKept(L: seq<Layer>, L': seq<Layer>, i: nat, views: set<nat>)
    requires |L'| == |L| - 1 && 0 < i < |L|
  {
    forall u, s: nat :: u in views && u < |L| && u != i - 1 ==> SourceKept(L, L', i, u, s)
  }

  ghost predicate SourceKept(L: seq<Layer>, L': seq<Layer>, i: nat, u: nat, s: nat)
    requires |L'| == |L| - 1 && 0 < i < |L| && u < |L|
  {
    Top(L', s, Shift(u, i)) == Shift(Top(L, s, u), i)
  }

  /**
    The queue is drained only after the fold.  Holes that were queued before, all of
    them harmless to the given views, keep every sector of these views in place if
    and only if none of them covers, in the layer folded into, a sector that one of
    the views reads from the folded layer.
  */
  lemma QueuedHolesIff(L: seq<Layer>, q: seq<Hole>, i: nat, views: set<nat>)
    requires 2 <= i < |L| - 1
    requires SafeQueue(L, q, views)
    ensures forall k :: 0 <= k < |q| ==> q[k].layer < |L|
    ensures SourcesKept(L, FoldPunchRemove(L, q, i), i, views) <==> !HitsFold(L, q, i, views)
  {
    assert forall k :: 0 <= k < |q| ==> SafeHole(L, q[k], views);
    var L' := FoldPunchRemove(L, q, i);
    forall u, s: nat | u in views && u < |L| && u != i - 1
      ensures SourceKept(L, L', i, u, s) <==> !HitsAt(L, q, i, u, s)
    {
      QueuedHolesAt(L, q, i, views, u, s);
    }
    if HitsFold(L, q, i, views) {
      var u, s: nat :| u in views && i <= u < |L| && HitsAt(L, q, i, u, s);
      assert !SourceKept(L, L', i, u, s);
    }
  }

  lemma QueuedHolesAt(L: seq<Layer>, q: seq<Hole>, i: nat, views: set<nat>, u: nat, s: nat)
    requires 2 <= i < |L| - 1 && u in views && u < |L| && u != i - 1
    requires forall k :: 0 <= k < |q| ==> q[k].layer < |L|
    requires SafeQueue(L, q, views)
    ensures SourceKept(L, FoldPunchRemove(L, q, i), i, u, s) <==> !HitsAt(L, q, i, u, s)
  {
    var t := Top(L, s, u);
    var F := Fold(L, i);
    var L' := FoldPunchRemove(L, q, i);
    TopIsTop(L, s, u);
    NotPunchedAtTop(L, q, views, u, s);
    forall k | 0 <= k < |L|
      ensures s in PunchAll(F, q)[k] <==> s in F[k] && !PunchedBy(q, k, s)
    {
      PunchAllDomain(F, q, k, s);
    }
    forall k | 0 <= k < |L'|
      ensures L'[k] == PunchAll(F, q)[if k < i then k else k + 1]
    {
    }
    if t == i && PunchedBy(q, i - 1, s) {
      assert s !in L'[i - 1];
    } else {
      TopUnique(L', s, Shift(u, i), Shift(t, i));
    }
  }

  lemma NotPunchedAtTop(L: seq<Layer>, q: seq<Hole>, views: set<nat>, u: nat, s: nat)
    requires SafeQueue(L, q, views) && u in views && u < |L|
    ensures !PunchedBy(q, Top(L, s, u), s)
  {
    forall n | 0 <= n < |q| && Covers(q[n], s)
      ensures q[n].layer != Top(L, s, u)
    {
      assert SafeHole(L, q[n], views);
      assert Unread(L, q[n].layer, s, views);
    }
  }

  // ---- Runs that lead to such a queue ----

  /**
    Sector 0 is written, with a snapshot before and after, and written again, which
    queues a hole for the older copy; another snapshot, a user-created one, and the
    sector is written a last time.
  */
  function OverwriteSteps(b: Block): seq<Step> {
    [SnapshotStep(false), WriteStep(0, [b]), SnapshotStep(false), WriteStep(0, [b]), SnapshotStep(false),
     SnapshotStep(true), WriteStep(0, [b])]
  }

  function OverwriteLayers(b: Block, k: nat): seq<Layer> {
    if k == 0 then [map[], map[]]
    else if k == 1 then [map[], map[], map[]]
    else if k == 2 then [map[], map[], map[0 := b]]
    else if k == 3 then [map[], map[], map[0 := b], map[]]
    else if k == 4 then [map[], map[], map[0 := b], map[0 := b]]
    else if k == 5 then [map[], map[], map[0 := b], map[0 := b], map[]]
    else if k == 6 then [map[], map[], map[0 := b], map[0 := b], map[], map[]]
    else [map[], map[], map[0 := b], map[0 := b], map[], map[0 := b]]
  }

  /** The volume after the first k steps. */
  function OverwriteVol(b: Block, k: nat): Vol {
    Vol(OverwriteLayers(b, k),
        [if k < 2 then 0 else if k < 4 then 2 else if k < 7 then 3 else 5],
        if k < 4 then [] else [Hole(2, 0, 1)],
        if k < 6 then 0 else 4, true)
  }

  function OverwriteIdeal(b: Block, k: nat): Ideal {
    Ideal([if k < 2 then ZeroBlock() else b], if k < 6 then map[] else map[4 := [b]])
  }

  lemma OneSectorWrite(v: Vol, b: Block)
    requires |v.layers| >= 2 && |v.location| == 1
    ensures var t, l := Head(v.layers), v.location[0];
            && SentBy(v, 0, 1) == (if l != 0 && l != t && l > v.snapIndx && v.punching then [Hole(l, 0, 1)] else [])
            && FullWrite(v, 0, [b]).location == [t]
            && FullWrite(v, 0, [b]).layers == v.layers[t := v.layers[t][0 := b]]
  {
    var t, l := Head(v.layers), v.location[0];
    assert WalkTo(v.location, t, v.snapIndx, v.punching, 0, 0) == Walk(NoRun, []);
    assert WalkTo(v.location, t, v.snapIndx, v.punching, 0, 1)
        == Walk(if l == 0 || l == t then NoRun else Run(l, 0, 1), []);
    assert WriteSectors(v.layers[t], 0, [b]) == v.layers[t][0 := b];
  }

  lemma OverwriteStep(b: Block, k: nat)
    requires k < 7
    ensures var v, d, step := OverwriteVol(b, k), OverwriteIdeal(b, k), OverwriteSteps(b)[k];
            && Enabled(v, step) && RespectsStep(v, d, step)
            && Apply(v, step) == OverwriteVol(b, k + 1)
            && IdealStep(d, Head(v.layers), step) == OverwriteIdeal(b, k + 1)
  {
    if k == 1 || k == 3 || k == 6 {
      OverwriteWrite(b, k);
    }
  }

  lemma OverwriteWrite(b: Block, k: nat)
    requires k == 1 || k == 3 || k == 6
    ensures FullWrite(OverwriteVol(b, k), 0, [b]) == OverwriteVol(b, k + 1)
    ensures RespectsStep(OverwriteVol(b, k), OverwriteIdeal(b, k), WriteStep(0, [b]))
  {
    OneSectorWrite(OverwriteVol(b, k), b);
  }

  lemma {:induction false} OverwriteRuns(b: Block, k: nat, n: nat)
    requires k <= n <= 7
    ensures var v, d, steps := OverwriteVol(b, k), OverwriteIdeal(b, k), OverwriteSteps(b)[k..n];
            IsRun(v, d, steps) && RunVol(v, d, steps) == OverwriteVol(b, n) && RunIdeal(v, d, steps) == OverwriteIdeal(b, n)
    decreases n - k
  {
    if k < n {
      OverwriteStep(b, k);
      OverwriteRuns(b, k + 1, n);
      assert OverwriteSteps(b)[k..n][1..] == OverwriteSteps(b)[k + 1..n];
      Prepend(OverwriteVol(b, k), OverwriteIdeal(b, k), OverwriteSteps(b)[k..n]);
    }
  }

  /** The first n steps, from a new volume of one sector, are a run, and their queue is harmless to all saved snapshots. */
  lemma OverwriteReached(b: Block, n: nat)
    requires n <= 7
    ensures var v, d, steps := FreshVol(1, true), FreshIdeal(1), OverwriteSteps(b)[..n];
            && IsRun(v, d, steps) && RunVol(v, d, steps) == OverwriteVol(b, n) && RunIdeal(v, d, steps) == OverwriteIdeal(b, n)
            && Represents(OverwriteVol(b, n), OverwriteIdeal(b, n))
  {
    assert FreshVol(1, true) == OverwriteVol(b, 0) && FreshIdeal(1) == OverwriteIdeal(b, 0);
    assert OverwriteSteps(b)[0..n] == OverwriteSteps(b)[..n];
    OverwriteRuns(b, 0, n);
    FreshRepresents(1, true);
    RunRefines(FreshVol(1, true), FreshIdeal(1), OverwriteSteps(b)[..n]);
  }

  lemma FoldOfOverwrite(b: Block, n: nat)
    requires n == 5 || n == 7
    ensures var v := OverwriteVol(b, n);
            && (forall k :: 0 <= k < |v.holes| ==> v.holes[k].layer < |v.layers|)
            && var L' := FoldPunchRemove(v.layers, v.holes, 3);
               L' == if n == 5 then [map[], map[], map[], map[]] else [map[], map[], map[], map[], map[0 := b]]
  {
    var v := OverwriteVol(b, n);
    var F := Fold(v.layers, 3);
    assert PunchAll(F, v.holes) == PunchAll(Punch(F, v.holes[0]), v.holes[1..]) == Punch(F, v.holes[0]);
    assert Punch(F, v.holes[0])[2] == map[];
  }

  /** After five steps, folding layer 3 into layer 2 with the hole still queued loses the live block. */
  lemma QueuedHoleLosesData(b: Block)
    requires b != ZeroBlock()
    ensures var v := Reached(b, 5);
            && (forall k :: 0 <= k < |v.holes| ==> v.holes[k].layer < |v.layers|) && |v.layers| == 5
            && Live(v.layers, 0) == b && Live(FoldPunchRemove(v.layers, v.holes, 3), 0) != b
  {
    OverwriteReached(b, 5);
    FoldOfOverwrite(b, 5);
    TopUnique(OverwriteLayers(b, 5), 0, 4, 3);
    TopUnique([map[], map[], map[], map[]], 0, 3, 0);
  }

  /** After all seven steps the same fold keeps the live view and loses the block of the user-created snapshot at layer 4. */
  lemma QueuedHoleLosesSnapshot(b: Block)
    requires b != ZeroBlock()
    ensures var v, d := Reached(b, 7), OverwriteIdeal(b, 7);
            && Represents(v, d) && 4 in d.saved
            && (forall k :: 0 <= k < |v.holes| ==> v.holes[k].layer < |v.layers|) && |v.layers| == 6
            && !HitsFold(v.layers, v.holes, 3, {Head(v.layers)})
            && var L' := FoldPunchRemove(v.layers, v.holes, 3);
            && Live(L', 0) == Live(v.layers, 0) && View(L', 0, Shift(4, 3)) != d.saved[4][0]
  {
    OverwriteReached(b, 7);
    FoldOfOverwrite(b, 7);
    var L, L' := OverwriteLayers(b, 7), FoldPunchRemove(OverwriteLayers(b, 7), [Hole(2, 0, 1)], 3);
    TopUnique(L, 0, 5, 5);
    TopUnique(L', 0, 4, 4);
    TopUnique(L', 0, 3, 0);
    forall s: nat
      ensures !HitsAt(L, [Hole(2, 0, 1)], 3, 5, s)
    {
      if s != 0 {
        assert !PunchedBy([Hole(2, 0, 1)], 2, s);
      }
    }
  }

  /** Where the first n steps lead. */
  ghost function Reached(b: Block, n: nat): Vol
    requires n <= 7
  {
    OverwriteReached(b, n);
    RunVol(FreshVol(1, true), FreshIdeal(1), OverwriteSteps(b)[..n])
  }
}
