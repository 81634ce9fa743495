/**
  The sector-level state of a replica's differencing disk and the steps that
  change it: full-sector writes, lazy fills of the location cache, snapshots
  and executed holes.  The main result is RunRefines: whatever the run, the
  layered disk shows what a flat array with saved copies would show.
*/
module Volume {
  import opened Layers

  /**
    layers     the files of the chain, nil entry first, head last
    location   per sector, the layer believed to hold the live block; 0 is unknown
    holes      the hole queue, oldest first
    snapIndx   index of the latest user-created snapshot
    punching   whether holes may be sent at all
  */
  datatype Vol = Vol(layers: seq<Layer>, location: seq<nat>, holes: seq<Hole>, snapIndx: nat, punching: bool)

  // ---- The location cache ----

  /** What lookup has to answer: the topmost allocated layer, or the base file. */
  function Target(L: seq<Layer>, s: nat): (t: nat)
    requires |L| >= 2
    ensures 1 <= t < |L|
  {
    if Top(L, s, Head(L)) == 0 then 1 else Top(L, s, Head(L))
  }

  ghost predicate Coherent(L: seq<Layer>, location: seq<nat>)
    requires |L| >= 2
  {
    forall s :: 0 <= s < |location| ==> location[s] == 0 || location[s] == Target(L, s)
  }

  // ---- Runs of overwritten sectors ----

  /** The run of consecutive overwritten sectors that has not been sent as a hole yet. */
  datatype Run = NoRun | Run(layer: nat, first: nat, count: nat)

  /** What a full write has done up to some sector: the pending run and the holes sent. */
  datatype Walk = Walk(run: Run, sent: seq<Hole>)

  predicate Sends(run: Run, snapIndx: nat, punching: bool) {
    run.Run? && run.layer > snapIndx && punching
  }

  /** The sector has a live block in a layer below the head. */
  predicate Overwrites(location: seq<nat>, s: nat, target: nat)
    requires s < |location|
  {
    location[s] != 0 && location[s] != target
  }

  predicate Breaks(val: nat, s: nat, run: Run) {
    run.NoRun? || val != run.layer || s != run.first + run.count
  }

  /**
    One sector of a full write.  When it breaks the run, the hole covers the
    sectors of the run but names the layer of the breaking sector.
  */
  function Visit(w: Walk, s: nat, val: nat, target: nat, snapIndx: nat, punching: bool): Walk {
    if val == 0 || val == target then w
    else if Breaks(val, s, w.run) then
      Walk(Run(val, s, 1),
           if Sends(w.run, snapIndx, punching) then w.sent + [Hole(val, w.run.first, w.run.count)] else w.sent)
    else w.(run := w.run.(count := w.run.count + 1))
  }

  function WalkTo(location: seq<nat>, target: nat, snapIndx: nat, punching: bool, start: nat, s: nat): Walk
    requires start <= s <= |location|
  {
    if s == start then Walk(NoRun, [])
    else Visit(WalkTo(location, target, snapIndx, punching, start, s - 1),
               s - 1, location[s - 1], target, snapIndx, punching)
  }

  /** The last run is sent under its own layer. */
  function Finish(w: Walk, snapIndx: nat, punching: bool): seq<Hole> {
    if Sends(w.run, snapIndx, punching) then w.sent + [Hole(w.run.layer, w.run.first, w.run.count)] else w.sent
  }

  /** All holes that overwriting sectors start, ..., end - 1 sends. */
  function WriteHoles(location: seq<nat>, target: nat, snapIndx: nat, punching: bool, start: nat, end: nat): seq<Hole>
    requires start <= end <= |location|
  {
    Finish(WalkTo(location, target, snapIndx, punching, start, end), snapIndx, punching)
  }

  predicate HoleWithin(h: Hole, start: nat, s: nat, target: nat) {
    0 < h.layer < target && start <= h.first && h.first + h.count <= s
  }

  /** Every hole a full write sends lies below the head and inside the sectors just written. */
  lemma {:induction false} WalkStaysWithin(location: seq<nat>, target: nat, snapIndx: nat, punching: bool,
                                           start: nat, s: nat)
    requires start <= s <= |location|
    requires forall k :: 0 <= k < |location| ==> location[k] <= target
    ensures var w := WalkTo(location, target, snapIndx, punching, start, s);
            && (w.run.Run? ==> HoleWithin(Hole(w.run.layer, w.run.first, w.run.count), start, s, target))
            && (forall k :: 0 <= k < |w.sent| ==> HoleWithin(w.sent[k], start, s, target))
            && (!punching ==> w.sent == [])
  {
    if s > start {
      WalkStaysWithin(location, target, snapIndx, punching, start, s - 1);
    }
  }

  // ---- Which writes protect the user-created snapshots ----

  /** The last overwritten sector in start, ..., s - 1, or -1. */
  function LastOverwritten(location: seq<nat>, target: nat, start: nat, s: nat): (k: int)
    requires start <= s <= |location|
    ensures k == -1 || start <= k < s
  {
    if s == start then -1
    else if Overwrites(location, s - 1, target) then s - 1
    else LastOverwritten(location, target, start, s - 1)
  }

  /** Sector s does not drop from above the latest user-created snapshot to it or below. */
  predicate NoDrop(location: seq<nat>, target: nat, snapIndx: nat, start: nat, s: nat)
    requires start <= s < |location|
  {
    var p := LastOverwritten(location, target, start, s);
    Overwrites(location, s, target) && location[s] <= snapIndx && p != -1 ==> location[p] <= snapIndx
  }

  /**
    No overwritten sector that lives at or below the latest user-created snapshot
    comes right after an overwritten sector of the same write that lives above it.
    A caller can check this on the location cache before the call.
  */
  predicate Separated(location: seq<nat>, target: nat, snapIndx: nat, start: nat, end: nat)
    requires start <= end <= |location|
  {
    forall s :: start <= s < end ==> NoDrop(location, target, snapIndx, start, s)
  }

  lemma {:induction false} WalkRunIsLast(location: seq<nat>, target: nat, snapIndx: nat, start: nat, s: nat)
    requires start <= s <= |location|
    ensures var run := WalkTo(location, target, snapIndx, true, start, s).run;
            var p := LastOverwritten(location, target, start, s);
            if p == -1 then run.NoRun? else run.Run? && run.layer == location[p]
  {
    if s > start {
      WalkRunIsLast(location, target, snapIndx, start, s - 1);
    }
  }

  /**
    A full write sends holes only above the latest user-created snapshot if and
    only if it is separated: the mid-loop flush is what breaks the protection.
  */
  lemma {:induction false} ProtectsSnapshotsIff(location: seq<nat>, target: nat, snapIndx: nat, start: nat, end: nat)
    requires start <= end <= |location|
    ensures (forall h :: h in WriteHoles(location, target, snapIndx, true, start, end) ==> h.layer > snapIndx)
            <==> Separated(location, target, snapIndx, start, end)
  {
    WalkProtects(location, target, snapIndx, start, end);
    var w := WalkTo(location, target, snapIndx, true, start, end);
    var holes := WriteHoles(location, target, snapIndx, true, start, end);
    assert forall h :: h in w.sent ==> h in holes;
  }

  lemma {:induction false} WalkProtects(location: seq<nat>, target: nat, snapIndx: nat, start: nat, s: nat)
    requires start <= s <= |location|
    ensures (forall h :: h in WalkTo(location, target, snapIndx, true, start, s).sent ==> h.layer > snapIndx)
            <==> Separated(location, target, snapIndx, start, s)
  {
    if s > start {
      WalkProtects(location, target, snapIndx, start, s - 1);
      WalkRunIsLast(location, target, snapIndx, start, s - 1);
      var before := WalkTo(location, target, snapIndx, true, start, s - 1);
      var after := WalkTo(location, target, snapIndx, true, start, s);
      assert Separated(location, target, snapIndx, start, s)
          <==> Separated(location, target, snapIndx, start, s - 1) && NoDrop(location, target, snapIndx, start, s - 1);
      if after.sent != before.sent {
        var h := Hole(location[s - 1], before.run.first, before.run.count);
        assert after.sent == before.sent + [h];
        assert h in after.sent && forall g :: g in before.sent ==> g in after.sent;
      }
    }
  }

  // ---- Steps ----

  predicate Within(s: nat, first: nat, count: nat) {
    first <= s < first + count
  }

  function Sectors(first: nat, count: nat): set<nat> {
    set s: nat | first <= s < first + count && Within(s, first, count)
  }

  function WriteSectors(layer: Layer, first: nat, blocks: seq<Block>): (r: Layer)
    ensures forall s: nat :: s in r <==> s in layer || first <= s < first + |blocks|
    ensures forall s: nat :: s in r ==> r[s] == if first <= s < first + |blocks| then blocks[s - first] else layer[s]
  {
    map s: nat | s in layer.Keys + Sectors(first, |blocks|) ::
      if first <= s < first + |blocks| then blocks[s - first] else layer[s]
  }

  function MarkWritten(location: seq<nat>, first: nat, count: nat, target: nat): (r: seq<nat>)
    requires first + count <= |location|
    ensures |r| == |location|
    ensures forall s :: 0 <= s < |r| ==> r[s] == if first <= s < first + count then target else location[s]
  {
    location[..first] + seq(count, _ => target) + location[first + count..]
  }

  function WriteTop(L: seq<Layer>, first: nat, blocks: seq<Block>): seq<Layer>
    requires |L| > 0
  {
    L[Head(L) := WriteSectors(L[Head(L)], first, blocks)]
  }

  /** The holes that overwriting the given sectors sends. */
  function SentBy(v: Vol, first: nat, count: nat): seq<Hole>
    requires |v.layers| > 0 && first + count <= |v.location|
  {
    WriteHoles(v.location, Head(v.layers), v.snapIndx, v.punching, first, first + count)
  }

  function FullWrite(v: Vol, first: nat, blocks: seq<Block>): Vol
    requires |v.layers| >= 2
    requires first + |blocks| <= |v.location|
  {
    var head := Head(v.layers);
    v.(layers := WriteTop(v.layers, first, blocks),
       location := MarkWritten(v.location, first, |blocks|, head),
       holes := v.holes + SentBy(v, first, |blocks|))
  }

  /** lookup caches its answer. */
  function Fill(v: Vol, s: nat): Vol
    requires |v.layers| >= 2 && s < |v.location|
  {
    v.(location := v.location[s := Target(v.layers, s)])
  }

  /** A snapshot puts an empty head on top; the former head becomes the snapshot. */
  function AddHead(v: Vol, userCreated: bool): Vol {
    v.(layers := v.layers + [map[]],
       snapIndx := if userCreated && |v.layers| > 0 then |v.layers| - 1 else v.snapIndx)
  }

  function PunchNext(v: Vol): Vol
    requires v.holes != [] && v.holes[0].layer < |v.layers|
  {
    v.(layers := Punch(v.layers, v.holes[0]), holes := v.holes[1..])
  }

  // ---- The invariant ----

  /**
    The cache is coherent, and no queued hole deallocates what a protected view
    reads.  The head is always protected; a protected snapshot is never newer
    than the latest user-created one.
  */
  ghost predicate Inv(v: Vol, views: set<nat>) {
    && |v.layers| >= 2
    && Coherent(v.layers, v.location)
    && Head(v.layers) in views
    && (forall u :: u in views ==> 0 < u <= Head(v.layers))
    && (forall u :: u in views && u != Head(v.layers) ==> u <= v.snapIndx)
    && SafeQueue(v.layers, v.holes, views)
  }

  /** Where the block of sectors with the same location that ends at p begins. */
  function BlockStart(location: seq<nat>, start: nat, p: nat): (k: nat)
    requires start <= p < |location|
    ensures start <= k <= p
  {
    if p == start || location[p - 1] != location[p] then p else BlockStart(location, start, p - 1)
  }

  /**
    If sector s steps down from above the latest user-created snapshot to it or below,
    then no snapshot reads from the layer of s what is in the block of sectors just
    overwritten, the last of which is p.
  */
  ghost predicate SparesAt(v: Vol, views: set<nat>, start: nat, s: nat)
    requires |v.layers| > 0 && start <= s < |v.location|
  {
    var p := LastOverwritten(v.location, Head(v.layers), start, s);
    Overwrites(v.location, s, Head(v.layers)) && p != -1 && v.location[s] <= v.snapIndx < v.location[p] ==>
      forall x: nat :: BlockStart(v.location, start, p) <= x <= p ==>
        Unread(v.layers, v.location[s], x, views - {Head(v.layers)})
  }

  /**
    What a write has to meet so that the snapshots survive its holes: a condition on
    the location cache and the chain, to be decided before the write.
  */
  ghost predicate Respects(v: Vol, first: nat, count: nat, views: set<nat>)
    requires |v.layers| >= 2
    requires first + count <= |v.location|
  {
    v.punching ==> forall s :: first <= s < first + count ==> SparesAt(v, views, first, s)
  }

  /** No snapshot reads from the hole's file a sector that the hole covers. */
  ghost predicate SparesSnapshots(L: seq<Layer>, h: Hole, views: set<nat>)
    requires |L| > 0
  {
    forall s: nat :: Covers(h, s) ==> Unread(L, h.layer, s, views - {Head(L)})
  }

  ghost predicate AllSpare(L: seq<Layer>, holes: seq<Hole>, views: set<nat>)
    requires |L| > 0
  {
    forall k :: 0 <= k < |holes| ==> SparesSnapshots(L, holes[k], views)
  }

  /** The pending run is the block of equal locations that ends at the last overwritten sector. */
  lemma {:induction false} RunIsBlock(location: seq<nat>, target: nat, snapIndx: nat, punching: bool, start: nat, s: nat)
    requires start <= s <= |location|
    ensures var run := WalkTo(location, target, snapIndx, punching, start, s).run;
            var p := LastOverwritten(location, target, start, s);
            if p == -1 then run.NoRun?
            else var k := BlockStart(location, start, p); run == Run(location[p], k, p - k + 1)
  {
    if s > start {
      RunIsBlock(location, target, snapIndx, punching, start, s - 1);
    }
  }

  /**
    Sector n ends the run before it, which is the block of sectors up to p that lived in
    one layer above the latest user-created snapshot; its sectors are sent under the
    layer of n.
  */
  predicate SentAt(location: seq<nat>, target: nat, snapIndx: nat, start: nat, n: nat, k: nat, x: nat)
    requires start <= n < |location|
  {
    var p := LastOverwritten(location, target, start, n);
    && Overwrites(location, n, target) && p != -1
    && (p < n - 1 || location[p] != location[n])
    && location[p] > snapIndx && BlockStart(location, start, p) <= x <= p
    && k == location[n]
  }

  /** The last run is sent under its own layer. */
  predicate SentLast(location: seq<nat>, target: nat, snapIndx: nat, start: nat, end: nat, k: nat, x: nat)
    requires start <= end <= |location|
  {
    var p := LastOverwritten(location, target, start, end);
    p != -1 && location[p] > snapIndx && BlockStart(location, start, p) <= x <= p && k == location[p]
  }

  lemma {:induction false} WalkSendsIff(location: seq<nat>, target: nat, snapIndx: nat, punching: bool, start: nat, s: nat, k: nat, x: nat)
    requires start <= s <= |location|
    ensures PunchedBy(WalkTo(location, target, snapIndx, punching, start, s).sent, k, x)
            <==> punching && exists n :: start <= n < s && SentAt(location, target, snapIndx, start, n, k, x)
  {
    if s > start {
      var n := s - 1;
      WalkSendsIff(location, target, snapIndx, punching, start, n, k, x);
      RunIsBlock(location, target, snapIndx, punching, start, n);
      var w := WalkTo(location, target, snapIndx, punching, start, n);
      VisitSendsIff(location, target, snapIndx, punching, start, n, w, k, x);
      if SentAt(location, target, snapIndx, start, n, k, x) {
        assert start <= n < s;
      }
      if exists m :: start <= m < s && SentAt(location, target, snapIndx, start, m, k, x) {
        var m :| start <= m < s && SentAt(location, target, snapIndx, start, m, k, x);
        assert m < n || m == n;
      }
    }
  }

  lemma VisitSendsIff(location: seq<nat>, target: nat, snapIndx: nat, punching: bool, start: nat, n: nat, w: Walk, k: nat, x: nat)
    requires start <= n < |location|
    requires var p := LastOverwritten(location, target, start, n);
             if p == -1 then w.run.NoRun?
             else var b := BlockStart(location, start, p); w.run == Run(location[p], b, p - b + 1)
    ensures PunchedBy(Visit(w, n, location[n], target, snapIndx, punching).sent, k, x)
            <==> PunchedBy(w.sent, k, x) || (punching && SentAt(location, target, snapIndx, start, n, k, x))
  {
    if w.run.Run? {
      PunchedByMore(w.sent, Hole(location[n], w.run.first, w.run.count), k, x);
    }
  }

  /** Exactly which copies a write sends to the hole queue, and under which layers. */
  lemma WriteSendsIff(v: Vol, first: nat, count: nat, k: nat, x: nat)
    requires |v.layers| > 0 && first + count <= |v.location|
    ensures PunchedBy(SentBy(v, first, count), k, x) <==>
              v.punching &&
              (|| SentLast(v.location, Head(v.layers), v.snapIndx, first, first + count, k, x)
               || exists n :: first <= n < first + count && SentAt(v.location, Head(v.layers), v.snapIndx, first, n, k, x))
  {
    var end := first + count;
    var w := WalkTo(v.location, Head(v.layers), v.snapIndx, v.punching, first, end);
    WalkSendsIff(v.location, Head(v.layers), v.snapIndx, v.punching, first, end, k, x);
    RunIsBlock(v.location, Head(v.layers), v.snapIndx, v.punching, first, end);
    if w.run.Run? {
      PunchedByMore(w.sent, Hole(w.run.layer, w.run.first, w.run.count), k, x);
    }
  }

  lemma AboveIsSpared(v: Vol, views: set<nat>, h: Hole)
    requires Inv(v, views) && h.layer > v.snapIndx
    ensures SparesSnapshots(v.layers, h, views)
  {
  }

  /** The hole that sector s sends, if it sends one, spares the snapshots if and only if the cache says so. */
  lemma FlushSparesIff(v: Vol, views: set<nat>, start: nat, s: nat)
    requires Inv(v, views) && v.punching && start <= s < |v.location|
    ensures var t := Head(v.layers);
            var w := WalkTo(v.location, t, v.snapIndx, true, start, s);
            var w' := WalkTo(v.location, t, v.snapIndx, true, start, s + 1);
            && w'.sent == w.sent + w'.sent[|w.sent|..] && |w.sent| <= |w'.sent|
            && (AllSpare(v.layers, w'.sent[|w.sent|..], views) <==> SparesAt(v, views, start, s))
  {
    var t := Head(v.layers);
    var w := WalkTo(v.location, t, v.snapIndx, true, start, s);
    var val := v.location[s];
    RunIsBlock(v.location, t, v.snapIndx, true, start, s);
    var w' := Visit(w, s, val, t, v.snapIndx, true);
    assert WalkTo(v.location, t, v.snapIndx, true, start, s + 1) == w';
    if Overwrites(v.location, s, t) && Breaks(val, s, w.run) && Sends(w.run, v.snapIndx, true) {
      var h := Hole(val, w.run.first, w.run.count);
      assert w'.sent[|w.sent|..] == [h];
      if val > v.snapIndx {
        AboveIsSpared(v, views, h);
      }
      assert AllSpare(v.layers, [h], views) <==> SparesSnapshots(v.layers, h, views) by {
        assert [h][0] == h;
      }
      assert forall x: nat :: Covers(h, x) <==> w.run.first <= x < w.run.first + w.run.count;
    } else {
      assert w'.sent == w.sent && w'.sent[|w.sent|..] == [];
    }
  }

  lemma AllSpareAppend(L: seq<Layer>, a: seq<Hole>, b: seq<Hole>, views: set<nat>)
    requires |L| > 0
    ensures AllSpare(L, a + b, views) <==> AllSpare(L, a, views) && AllSpare(L, b, views)
  {
    if AllSpare(L, a + b, views) {
      assert forall k :: 0 <= k < |a| ==> (a + b)[k] == a[k];
      assert forall k :: 0 <= k < |b| ==> (a + b)[|a| + k] == b[k];
    }
  }

  lemma {:induction false} WalkSparesIff(v: Vol, views: set<nat>, start: nat, s: nat)
    requires Inv(v, views) && v.punching && start <= s <= |v.location|
    ensures AllSpare(v.layers, WalkTo(v.location, Head(v.layers), v.snapIndx, true, start, s).sent, views)
            <==> forall x :: start <= x < s ==> SparesAt(v, views, start, x)
  {
    if s > start {
      WalkSparesIff(v, views, start, s - 1);
      FlushSparesIff(v, views, start, s - 1);
      var t := Head(v.layers);
      var w := WalkTo(v.location, t, v.snapIndx, true, start, s - 1);
      var w' := WalkTo(v.location, t, v.snapIndx, true, start, s);
      AllSpareAppend(v.layers, w.sent, w'.sent[|w.sent|..], views);
    }
  }

  /** The holes a write sends spare the snapshots if and only if the write respects them. */
  lemma RespectsIff(v: Vol, first: nat, count: nat, views: set<nat>)
    requires Inv(v, views) && first + count <= |v.location|
    ensures Respects(v, first, count, views) <==> AllSpare(v.layers, SentBy(v, first, count), views)
  {
    var end := first + count;
    var w := WalkTo(v.location, Head(v.layers), v.snapIndx, v.punching, first, end);
    if v.punching {
      WalkSparesIff(v, views, first, end);
      if Sends(w.run, v.snapIndx, true) {
        var h := Hole(w.run.layer, w.run.first, w.run.count);
        AboveIsSpared(v, views, h);
        AllSpareAppend(v.layers, w.sent, [h], views);
      }
    } else {
      WalkStaysWithin(v.location, Head(v.layers), v.snapIndx, false, first, end);
    }
  }

  lemma FullWriteTop(v: Vol, first: nat, blocks: seq<Block>, s: nat, u: nat)
    requires |v.layers| >= 2
    requires first + |blocks| <= |v.location|
    requires u < |v.layers|
    ensures var L' := FullWrite(v, first, blocks).layers;
            && Top(L', s, u) == (if u == Head(v.layers) && first <= s < first + |blocks| then u else Top(v.layers, s, u))
            && View(L', s, u) == (if u == Head(v.layers) && first <= s < first + |blocks| then blocks[s - first]
                                  else View(v.layers, s, u))
  {
    var L' := FullWrite(v, first, blocks).layers;
    var t := if u == Head(v.layers) && first <= s < first + |blocks| then u else Top(v.layers, s, u);
    TopIsTop(v.layers, s, u);
    TopUnique(L', s, u, t);
  }

  /** The live view is never at risk: only the sectors just written are covered, and they are in the head. */
  lemma NewHoleSafeIff(v: Vol, first: nat, blocks: seq<Block>, views: set<nat>, h: Hole)
    requires Inv(v, views)
    requires first + |blocks| <= |v.location|
    requires h in SentBy(v, first, |blocks|)
    ensures SafeHole(FullWrite(v, first, blocks).layers, h, views) <==> SparesSnapshots(v.layers, h, views)
  {
    var head := Head(v.layers);
    var L' := FullWrite(v, first, blocks).layers;
    WalkStaysWithin(v.location, head, v.snapIndx, v.punching, first, first + |blocks|);
    assert HoleWithin(h, first, first + |blocks|, head);
    forall s: nat | Covers(h, s)
      ensures Unread(L', h.layer, s, views) <==> Unread(v.layers, h.layer, s, views - {head})
    {
      forall u | u in views && u < |v.layers|
        ensures Top(L', s, u) == if u == head then head else Top(v.layers, s, u)
      {
        FullWriteTop(v, first, blocks, s, u);
      }
    }
  }

  /** A write that never steps down cannot concern a snapshot. */
  lemma SeparatedRespects(v: Vol, first: nat, count: nat, views: set<nat>)
    requires |v.layers| >= 2 && first + count <= |v.location|
    requires v.punching ==> Separated(v.location, Head(v.layers), v.snapIndx, first, first + count)
    ensures Respects(v, first, count, views)
  {
    forall s | first <= s < first + count && v.punching
      ensures SparesAt(v, views, first, s)
    {
      assert NoDrop(v.location, Head(v.layers), v.snapIndx, first, s);
    }
  }

  lemma OldHolesSafe(v: Vol, first: nat, blocks: seq<Block>, views: set<nat>, h: Hole)
    requires |v.layers| >= 2 && first + |blocks| <= |v.location|
    requires SafeHole(v.layers, h, views)
    ensures SafeHole(FullWrite(v, first, blocks).layers, h, views)
  {
    var L' := FullWrite(v, first, blocks).layers;
    forall s: nat, u | Covers(h, s) && u in views && u < |L'|
      ensures Top(L', s, u) != h.layer
    {
      assert Unread(v.layers, h.layer, s, views);
      FullWriteTop(v, first, blocks, s, u);
    }
  }

  /** A full write replaces exactly the written blocks of the live view and keeps every protected snapshot. */
  lemma FullWriteKeeps(v: Vol, first: nat, blocks: seq<Block>, views: set<nat>)
    requires Inv(v, views)
    requires first + |blocks| <= |v.location|
    requires Respects(v, first, |blocks|, views)
    ensures Inv(FullWrite(v, first, blocks), views)
    ensures forall s: nat :: Live(FullWrite(v, first, blocks).layers, s)
                             == if first <= s < first + |blocks| then blocks[s - first] else Live(v.layers, s)
    ensures forall u, s: nat :: u in views && u != Head(v.layers) ==>
              View(FullWrite(v, first, blocks).layers, s, u) == View(v.layers, s, u)
  {
    var v' := FullWrite(v, first, blocks);
    var head := Head(v.layers);
    RespectsIff(v, first, |blocks|, views);
    forall s: nat, u: nat | u < |v.layers|
      ensures View(v'.layers, s, u) == (if u == head && first <= s < first + |blocks| then blocks[s - first]
                                        else View(v.layers, s, u))
    {
      FullWriteTop(v, first, blocks, s, u);
    }
    forall s | 0 <= s < |v'.location|
      ensures v'.location[s] == 0 || v'.location[s] == Target(v'.layers, s)
    {
      FullWriteTop(v, first, blocks, s, head);
    }
    forall k | 0 <= k < |v'.holes|
      ensures SafeHole(v'.layers, v'.holes[k], views)
    {
      var h := v'.holes[k];
      if k < |v.holes| {
        assert SafeHole(v.layers, v.holes[k], views);
        OldHolesSafe(v, first, blocks, views, h);
      } else {
        assert h == SentBy(v, first, |blocks|)[k - |v.holes|];
        NewHoleSafeIff(v, first, blocks, views, h);
      }
    }
  }

  /** Every protected snapshot still reads each sector from the same layer. */
  ghost predicate SnapshotSourcesKept(L: seq<Layer>, L': seq<Layer>, views: set<nat>)
    requires |L'| == |L| > 0
  {
    forall u, s: nat :: u in views && u < Head(L) ==> Top(L', s, u) == Top(L, s, u)
  }

  /**
    What becomes of the user-created snapshots once all holes of a write have been
    executed: they keep the layer every sector is read from if and only if the write
    respects them, that is, if at no step down of the location the file stepped down
    to has what a snapshot reads of the block before.
  */
  lemma SnapshotsSurviveIff(v: Vol, first: nat, blocks: seq<Block>, views: set<nat>)
    requires Inv(v, views) && first + |blocks| <= |v.location|
    ensures forall k :: 0 <= k < |SentBy(v, first, |blocks|)| ==> SentBy(v, first, |blocks|)[k].layer < |v.layers|
    ensures SnapshotSourcesKept(v.layers, PunchAll(FullWrite(v, first, blocks).layers, SentBy(v, first, |blocks|)), views)
            <==> Respects(v, first, |blocks|, views)
  {
    var sent, L' := SentBy(v, first, |blocks|), FullWrite(v, first, blocks).layers;
    WalkStaysWithin(v.location, Head(v.layers), v.snapIndx, v.punching, first, first + |blocks|);
    var P := PunchAll(L', sent);
    RespectsIff(v, first, |blocks|, views);
    forall u, s: nat | u in views && u < Head(v.layers)
      ensures Top(P, s, u) == Top(v.layers, s, u) <==> Untouched(v.layers, sent, u, s)
    {
      SnapshotSourceIff(v, first, blocks, u, s);
    }
    SparedIff(v.layers, sent, views);
  }

  /** No hole covers sector s in the layer that the view at u reads it from. */
  ghost predicate Untouched(L: seq<Layer>, sent: seq<Hole>, u: nat, s: nat)
    requires u < |L|
  {
    !PunchedBy(sent, Top(L, s, u), s)
  }

  /** Holes spare the snapshots if and only if none of them covers a sector in the layer a snapshot reads it from. */
  lemma SparedIff(L: seq<Layer>, sent: seq<Hole>, views: set<nat>)
    requires |L| > 0 && forall u :: u in views ==> u < |L|
    ensures AllSpare(L, sent, views) <==>
              forall u, s: nat :: u in views && u < Head(L) ==> Untouched(L, sent, u, s)
  {
    if AllSpare(L, sent, views) {
      forall u, s: nat | u in views && u < Head(L)
        ensures Untouched(L, sent, u, s)
      {
        forall n | 0 <= n < |sent| && Covers(sent[n], s)
          ensures sent[n].layer != Top(L, s, u)
        {
          assert SparesSnapshots(L, sent[n], views);
          assert Unread(L, sent[n].layer, s, views - {Head(L)});
        }
      }
    } else {
      var n :| 0 <= n < |sent| && !SparesSnapshots(L, sent[n], views);
      var s: nat :| Covers(sent[n], s) && !Unread(L, sent[n].layer, s, views - {Head(L)});
      var u :| u in views - {Head(L)} && u < |L| && Top(L, s, u) == sent[n].layer;
      assert u in views && u < Head(L);
      assert sent[n].layer == Top(L, s, u) && Covers(sent[n], s);
      assert PunchedBy(sent, Top(L, s, u), s);
      assert !Untouched(L, sent, u, s);
    }
  }

  lemma SnapshotSourceIff(v: Vol, first: nat, blocks: seq<Block>, u: nat, s: nat)
    requires |v.layers| >= 2 && first + |blocks| <= |v.location| && 0 < u < Head(v.layers)
    requires forall k :: 0 <= k < |SentBy(v, first, |blocks|)| ==> 0 < SentBy(v, first, |blocks|)[k].layer < |v.layers|
    ensures var sent := SentBy(v, first, |blocks|);
            Top(PunchAll(FullWrite(v, first, blocks).layers, sent), s, u) == Top(v.layers, s, u)
            <==> !PunchedBy(sent, Top(v.layers, s, u), s)
  {
    var sent, L' := SentBy(v, first, |blocks|), FullWrite(v, first, blocks).layers;
    var P, t := PunchAll(L', sent), Top(v.layers, s, u);
    TopIsTop(v.layers, s, u);
    forall k | 0 <= k <= u
      ensures s in P[k] <==> s in v.layers[k] && !PunchedBy(sent, k, s)
    {
      PunchAllDomain(L', sent, k, s);
    }
    if !PunchedBy(sent, t, s) {
      TopUnique(P, s, u, t);
    }
  }

  lemma AddHeadTop(v: Vol, userCreated: bool, s: nat, u: nat)
    requires |v.layers| >= 1 && u <= |v.layers|
    ensures var L' := AddHead(v, userCreated).layers;
            var w := if u == |v.layers| then u - 1 else u;
            && Top(L', s, u) == Top(v.layers, s, w)
            && View(L', s, u) == View(v.layers, s, w)
  {
    var L' := AddHead(v, userCreated).layers;
    var w := if u == |v.layers| then u - 1 else u;
    TopIsTop(v.layers, s, w);
    TopUnique(L', s, u, Top(v.layers, s, w));
  }

  function ViewsAfterSnapshot(v: Vol, userCreated: bool, views: set<nat>): set<nat>
    requires |v.layers| >= 1
  {
    (if userCreated then views else views - {Head(v.layers)}) + {|v.layers|}
  }

  /** A snapshot changes no view, and a user-created one joins the protected views. */
  lemma AddHeadKeeps(v: Vol, userCreated: bool, views: set<nat>)
    requires Inv(v, views)
    ensures Inv(AddHead(v, userCreated), ViewsAfterSnapshot(v, userCreated, views))
    ensures forall s: nat :: Live(AddHead(v, userCreated).layers, s) == Live(v.layers, s)
    ensures forall u: nat, s: nat :: u < |v.layers| ==> View(AddHead(v, userCreated).layers, s, u) == View(v.layers, s, u)
  {
    var v' := AddHead(v, userCreated);
    var views' := ViewsAfterSnapshot(v, userCreated, views);
    forall u: nat, s: nat | u < |v'.layers|
      ensures View(v'.layers, s, u) == View(v.layers, s, if u == |v.layers| then u - 1 else u)
    {
      AddHeadTop(v, userCreated, s, u);
    }
    forall s | 0 <= s < |v'.location|
      ensures v'.location[s] == 0 || v'.location[s] == Target(v'.layers, s)
    {
      AddHeadTop(v, userCreated, s, |v.layers|);
    }
    forall k | 0 <= k < |v'.holes|
      ensures SafeHole(v'.layers, v'.holes[k], views')
    {
      var h := v.holes[k];
      assert SafeHole(v.layers, h, views);
      forall s: nat, u | Covers(h, s) && u in views' && u < |v'.layers|
        ensures Top(v'.layers, s, u) != h.layer
      {
        assert Unread(v.layers, h.layer, s, views);
        AddHeadTop(v, userCreated, s, u);
      }
    }
  }

  /** Executing the oldest queued hole, whenever it happens, changes no protected view. */
  lemma PunchNextKeeps(v: Vol, views: set<nat>)
    requires Inv(v, views)
    requires v.holes != []
    ensures v.holes[0].layer < |v.layers|
    ensures Inv(PunchNext(v), views)
    ensures forall u, s: nat :: u in views ==> View(PunchNext(v).layers, s, u) == View(v.layers, s, u)
  {
    var h := v.holes[0];
    assert SafeHole(v.layers, h, views);
    var rest := v.holes[1..];
    assert forall k :: 0 <= k < |rest| ==> rest[k] == v.holes[k + 1];
    PunchKeepsSafe(v.layers, h, views, rest);
    forall u, s: nat | u in views
      ensures Top(Punch(v.layers, h), s, u) == Top(v.layers, s, u)
      ensures View(Punch(v.layers, h), s, u) == View(v.layers, s, u)
    {
      PunchKeepsView(v.layers, h, views, u, s);
    }
  }

  // ---- Whole runs ----

  datatype Step =
    | WriteStep(first: nat, blocks: seq<Block>)
    | FillStep(sector: nat)
    | SnapshotStep(userCreated: bool)
    | PunchStep

  /** A flat array of blocks, with one saved copy per user-created snapshot. */
  datatype Ideal = Ideal(live: seq<Block>, saved: map<nat, seq<Block>>)

  predicate Enabled(v: Vol, step: Step) {
    && |v.layers| >= 2
    && match step
       case WriteStep(first, blocks) => first + |blocks| <= |v.location|
       case FillStep(s) => s < |v.location|
       case SnapshotStep(_) => true
       case PunchStep => v.holes != [] && v.holes[0].layer < |v.layers|
  }

  function Apply(v: Vol, step: Step): Vol
    requires Enabled(v, step)
  {
    match step
    case WriteStep(first, blocks) => FullWrite(v, first, blocks)
    case FillStep(s) => Fill(v, s)
    case SnapshotStep(user) => AddHead(v, user)
    case PunchStep => PunchNext(v)
  }

  /** The simple disk: a write replaces blocks, a user-created snapshot copies the array, nothing else matters. */
  function IdealStep(d: Ideal, head: nat, step: Step): Ideal {
    match step
    case WriteStep(first, blocks) =>
      if first + |blocks| <= |d.live| then
        d.(live := d.live[..first] + blocks + d.live[first + |blocks|..])
      else d
    case SnapshotStep(true) => d.(saved := d.saved[head := d.live])
    case _ => d
  }

  /** The view at layer u is exactly the given array of blocks. */
  ghost predicate Shows(L: seq<Layer>, u: nat, blocks: seq<Block>)
    requires u < |L|
  {
    forall s :: 0 <= s < |blocks| ==> View(L, s, u) == blocks[s]
  }

  ghost predicate Represents(v: Vol, d: Ideal) {
    && |v.layers| >= 2
    && Head(v.layers) !in d.saved
    && Inv(v, d.saved.Keys + {Head(v.layers)})
    && |d.live| == |v.location|
    && Shows(v.layers, Head(v.layers), d.live)
    && (forall u :: u in d.saved ==> |d.saved[u]| == |d.live| && Shows(v.layers, u, d.saved[u]))
  }

  /** Writes have to respect the saved snapshots. */
  ghost predicate RespectsStep(v: Vol, d: Ideal, step: Step)
    requires Enabled(v, step)
  {
    step.WriteStep? ==> Respects(v, step.first, |step.blocks|, d.saved.Keys + {Head(v.layers)})
  }

  lemma WriteRefines(v: Vol, d: Ideal, first: nat, blocks: seq<Block>)
    requires Represents(v, d)
    requires first + |blocks| <= |v.location|
    requires Respects(v, first, |blocks|, d.saved.Keys + {Head(v.layers)})
    ensures Represents(FullWrite(v, first, blocks), IdealStep(d, Head(v.layers), WriteStep(first, blocks)))
  {
    var v' := FullWrite(v, first, blocks);
    var d' := IdealStep(d, Head(v.layers), WriteStep(first, blocks));
    FullWriteKeeps(v, first, blocks, d.saved.Keys + {Head(v.layers)});
    forall s | 0 <= s < |d'.live|
      ensures View(v'.layers, s, Head(v.layers)) == d'.live[s]
    {
      assert View(v'.layers, s, Head(v.layers)) == Live(v'.layers, s);
      assert View(v.layers, s, Head(v.layers)) == d.live[s];
    }
    forall u | u in d.saved
      ensures Shows(v'.layers, u, d.saved[u])
    {
      assert Shows(v.layers, u, d.saved[u]);
    }
  }

  lemma SnapshotRefines(v: Vol, d: Ideal, userCreated: bool)
    requires Represents(v, d)
    ensures Represents(AddHead(v, userCreated), IdealStep(d, Head(v.layers), SnapshotStep(userCreated)))
  {
    var views := d.saved.Keys + {Head(v.layers)};
    AddHeadKeeps(v, userCreated, views);
    var d' := IdealStep(d, Head(v.layers), SnapshotStep(userCreated));
    assert ViewsAfterSnapshot(v, userCreated, views) == d'.saved.Keys + {|v.layers|};
    forall u | u in d.saved
      ensures u < |v.layers| && Shows(AddHead(v, userCreated).layers, u, d.saved[u])
    {
      assert Shows(v.layers, u, d.saved[u]);
    }
  }

  lemma PunchRefines(v: Vol, d: Ideal)
    requires Represents(v, d)
    requires v.holes != [] && v.holes[0].layer < |v.layers|
    ensures Represents(PunchNext(v), d)
  {
    PunchNextKeeps(v, d.saved.Keys + {Head(v.layers)});
    forall u | u in d.saved
      ensures Shows(PunchNext(v).layers, u, d.saved[u])
    {
      assert Shows(v.layers, u, d.saved[u]);
    }
  }

  lemma StepRefines(v: Vol, d: Ideal, step: Step)
    requires Represents(v, d)
    requires Enabled(v, step)
    requires RespectsStep(v, d, step)
    ensures Represents(Apply(v, step), IdealStep(d, Head(v.layers), step))
  {
    match step
    case WriteStep(first, blocks) => WriteRefines(v, d, first, blocks);
    case FillStep(s) =>
    case SnapshotStep(userCreated) => SnapshotRefines(v, d, userCreated);
    case PunchStep => PunchRefines(v, d);
  }

  ghost predicate IsRun(v: Vol, d: Ideal, steps: seq<Step>)
    decreases |steps|
  {
    steps != [] ==>
      && Enabled(v, steps[0])
      && RespectsStep(v, d, steps[0])
      && IsRun(Apply(v, steps[0]), IdealStep(d, Head(v.layers), steps[0]), steps[1..])
  }

  ghost function RunVol(v: Vol, d: Ideal, steps: seq<Step>): Vol
    requires IsRun(v, d, steps)
    decreases |steps|
  {
    if steps == [] then v
    else RunVol(Apply(v, steps[0]), IdealStep(d, Head(v.layers), steps[0]), steps[1..])
  }

  ghost function RunIdeal(v: Vol, d: Ideal, steps: seq<Step>): Ideal
    requires IsRun(v, d, steps)
    decreases |steps|
  {
    if steps == [] then d
    else RunIdeal(Apply(v, steps[0]), IdealStep(d, Head(v.layers), steps[0]), steps[1..])
  }

  /**
    Over every run of writes, cache fills, snapshots and hole executions, in any
    order, the layered disk goes on representing the flat array with its saved copies.
  */
  lemma {:induction false} RunRefines(v: Vol, d: Ideal, steps: seq<Step>)
    requires Represents(v, d)
    requires IsRun(v, d, steps)
    ensures Represents(RunVol(v, d, steps), RunIdeal(v, d, steps))
    decreases |steps|
  {
    if steps != [] {
      StepRefines(v, d, steps[0]);
      RunRefines(Apply(v, steps[0]), IdealStep(d, Head(v.layers), steps[0]), steps[1..]);
    }
  }

  /** A freshly created volume represents an array of zeros. */
  lemma FreshRepresents(sectors: nat, punching: bool)
    ensures Represents(FreshVol(sectors, punching), FreshIdeal(sectors))
  {
  }

  function FreshVol(sectors: nat, punching: bool): Vol {
    Vol([map[], map[]], seq(sectors, _ => 0), [], 0, punching)
  }

  function FreshIdeal(sectors: nat): Ideal {
    Ideal(seq(sectors, _ => ZeroBlock()), map[])
  }

  /** Every run from a new volume shows what the same run of an array of zeros shows. */
  lemma FreshRunRefines(sectors: nat, punching: bool, steps: seq<Step>)
    requires IsRun(FreshVol(sectors, punching), FreshIdeal(sectors), steps)
    ensures Represents(RunVol(FreshVol(sectors, punching), FreshIdeal(sectors), steps),
                       RunIdeal(FreshVol(sectors, punching), FreshIdeal(sectors), steps))
  {
    FreshRepresents(sectors, punching);
    RunRefines(FreshVol(sectors, punching), FreshIdeal(sectors), steps);
  }

  /** Write both sectors, take a user-created snapshot, write sector 0, take another snapshot. */
  function Prelude(b: Block): seq<Step> {
    [WriteStep(0, [b, b]), SnapshotStep(true), WriteStep(0, [b]), SnapshotStep(false)]
  }

  /** The volume after the first k steps of the prelude. */
  function PreludeVol(b: Block, k: nat): Vol {
    if k == 0 then Vol([map[], map[]], [0, 0], [], 0, true)
    else if k == 1 then Vol([map[], map[0 := b, 1 := b]], [1, 1], [], 0, true)
    else if k == 2 then Vol([map[], map[0 := b, 1 := b], map[]], [1, 1], [], 1, true)
    else if k == 3 then Vol([map[], map[0 := b, 1 := b], map[0 := b]], [2, 1], [], 1, true)
    else Vol([map[], map[0 := b, 1 := b], map[0 := b], map[]], [2, 1], [], 1, true)
  }

  function PreludeIdeal(b: Block, k: nat): Ideal {
    if k == 0 then Ideal([ZeroBlock(), ZeroBlock()], map[])
    else if k == 1 then Ideal([b, b], map[])
    else Ideal([b, b], map[1 := [b, b]])
  }

  lemma FirstWrite(b: Block)
    ensures SentBy(PreludeVol(b, 0), 0, 2) == [] && FullWrite(PreludeVol(b, 0), 0, [b, b]) == PreludeVol(b, 1)
  {
    assert WalkTo([0, 0], 1, 0, true, 0, 1) == Walk(NoRun, []);
    assert WalkTo([0, 0], 1, 0, true, 0, 2) == Walk(NoRun, []);
    assert WriteSectors(map[], 0, [b, b]) == map[0 := b, 1 := b];
    assert MarkWritten([0, 0], 0, 2, 1) == [1, 1];
  }

  lemma SecondWrite(b: Block)
    ensures SentBy(PreludeVol(b, 2), 0, 1) == [] && FullWrite(PreludeVol(b, 2), 0, [b]) == PreludeVol(b, 3)
  {
    assert WalkTo([1, 1], 2, 1, true, 0, 1) == Walk(Run(1, 0, 1), []);
    assert WriteSectors(map[], 0, [b]) == map[0 := b];
    assert MarkWritten([1, 1], 0, 1, 2) == [2, 1];
  }

  lemma PreludeStep(b: Block, k: nat)
    requires k < 4
    ensures var v, d, step := PreludeVol(b, k), PreludeIdeal(b, k), Prelude(b)[k];
            && Enabled(v, step) && RespectsStep(v, d, step)
            && Apply(v, step) == PreludeVol(b, k + 1)
            && IdealStep(d, Head(v.layers), step) == PreludeIdeal(b, k + 1)
  {
    FirstWrite(b);
    SecondWrite(b);
  }

  lemma {:induction false} PreludeRuns(b: Block, k: nat)
    requires k <= 4
    ensures var v, d, rest := PreludeVol(b, k), PreludeIdeal(b, k), Prelude(b)[k..];
            && IsRun(v, d, rest) && RunVol(v, d, rest) == PreludeVol(b, 4) && RunIdeal(v, d, rest) == PreludeIdeal(b, 4)
    decreases 4 - k
  {
    if k < 4 {
      PreludeStep(b, k);
      PreludeRuns(b, k + 1);
      assert Prelude(b)[k..][1..] == Prelude(b)[k + 1..];
      Prepend(PreludeVol(b, k), PreludeIdeal(b, k), Prelude(b)[k..]);
    }
  }

  lemma Prepend(v: Vol, d: Ideal, steps: seq<Step>)
    requires steps != [] && Enabled(v, steps[0]) && RespectsStep(v, d, steps[0])
    requires IsRun(Apply(v, steps[0]), IdealStep(d, Head(v.layers), steps[0]), steps[1..])
    ensures IsRun(v, d, steps)
    ensures RunVol(v, d, steps) == RunVol(Apply(v, steps[0]), IdealStep(d, Head(v.layers), steps[0]), steps[1..])
    ensures RunIdeal(v, d, steps) == RunIdeal(Apply(v, steps[0]), IdealStep(d, Head(v.layers), steps[0]), steps[1..])
  {
  }

  /**
    The condition is not a proof artefact.  In the volume that the prelude leads to,
    layer 1 is a user-created snapshot; a two-sector write sends a hole that erases
    sector 0 of it.
  */
  lemma MidFlushLosesSnapshot(b: Block)
    requires b != ZeroBlock()
    ensures IsRun(FreshVol(2, true), FreshIdeal(2), Prelude(b))
    ensures var v := RunVol(FreshVol(2, true), FreshIdeal(2), Prelude(b));
            var d := RunIdeal(FreshVol(2, true), FreshIdeal(2), Prelude(b));
            && 1 in d.saved && |d.saved[1]| == 2 == |v.location| && |v.layers| >= 2
            && var w := FullWrite(v, 0, [b, b]);
            && w.holes != [] && w.holes[0].layer < |w.layers|
            && View(PunchNext(w).layers, 0, 1) != d.saved[1][0]
  {
    assert FreshVol(2, true) == PreludeVol(b, 0) && FreshIdeal(2) == PreludeIdeal(b, 0);
    assert Prelude(b)[0..] == Prelude(b);
    PreludeRuns(b, 0);
    var v := PreludeVol(b, 4);
    var loc := v.location;
    assert WalkTo(loc, 3, 1, true, 0, 1) == Walk(Run(2, 0, 1), []);
    assert WalkTo(loc, 3, 1, true, 0, 2) == Walk(Run(1, 1, 1), [Hole(1, 0, 1)]);
    var w := FullWrite(v, 0, [b, b]);
    assert w.holes == [Hole(1, 0, 1)];
    TopUnique(PunchNext(w).layers, 0, 1, 0);
  }
}
