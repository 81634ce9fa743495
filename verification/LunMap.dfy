/**
  Building the location cache from the files.  Preload scans the allocated
  sectors of every file, base first; UpdateLunMap runs it without the lock,
  while writes reach the head and queued holes are executed, and then merges
  the scanned map into the live one under the lock.

  What runs concurrently is made explicit: Interfere stands between any two
  probes and performs any number of head writes and hole executions.
*/
module LunMap {
  import opened Layers
  import opened Volume

  // ---- User-created snapshots ----

  /** The latest user-created layer at or below i, or 0. */
  function LatestUser(userCreated: seq<bool>, i: nat): (u: nat)
    requires i < |userCreated|
    ensures u <= i
    ensures u > 0 ==> userCreated[u]
    ensures forall k :: u < k <= i ==> !userCreated[k]
  {
    if i == 0 || userCreated[i] then i else LatestUser(userCreated, i - 1)
  }

  predicate IsUser(userCreated: seq<bool>, u: nat) {
    0 < u < |userCreated| && userCreated[u]
  }

  /** The views that have to survive: every user-created snapshot and the head. */
  function Protected(userCreated: seq<bool>): set<nat>
    requires |userCreated| > 0
  {
    (set u: nat | u < |userCreated| && IsUser(userCreated, u)) + {|userCreated| - 1}
  }

  // ---- What concurrent activity may do ----

  /**
    The volume invariant while a replica is being rebuilt: besides Volume.Inv,
    the live cache knows only about sectors written since the replica was
    reloaded, and those are in the head.
  */
  ghost predicate LunInv(v: Vol, views: set<nat>) {
    && Inv(v, views)
    && forall x :: 0 <= x < |v.location| && v.location[x] != 0 ==>
         v.location[x] == Head(v.layers) && x in v.layers[Head(v.layers)]
  }

  /** In the view at u, sector x is read from the same place, or it has been written to the head meanwhile. */
  ghost predicate Stays(v: Vol, w: Vol, u: nat, x: nat)
    requires u < |v.layers| == |w.layers| && x < |w.location|
  {
    || (Top(w.layers, x, u) == Top(v.layers, x, u) && View(w.layers, x, u) == View(v.layers, x, u))
    || (u == Head(w.layers) == Top(w.layers, x, u) && w.location[x] == u)
  }

  /** What other activity may do between two steps of the scan. */
  ghost predicate Rely(v: Vol, w: Vol, views: set<nat>) {
    && LunInv(w, views)
    && |w.layers| == |v.layers| > 0
    && |w.location| == |v.location|
    && w.punching == v.punching
    && (forall x :: 0 <= x < |v.location| && v.location[x] != 0 ==> w.location[x] == v.location[x])
    && (forall u, x: nat :: u in views && x < |v.location| ==> Stays(v, w, u, x))
  }

  lemma RelyTransitive(v: Vol, w: Vol, z: Vol, views: set<nat>)
    requires |v.layers| > 0 && LunInv(v, views)
    requires Rely(v, w, views) && Rely(w, z, views)
    ensures Rely(v, z, views)
  {
    forall u, x: nat | u in views && x < |v.location|
      ensures Stays(v, z, u, x)
    {
      assert Stays(v, w, u, x) && Stays(w, z, u, x);
    }
  }

  /** A one-sector write, with or without the lookup that a read-modify-write does first. */
  function WriteOne(v: Vol, s: nat, b: Block, lookup: bool): Vol
    requires |v.layers| >= 2 && s < |v.location|
  {
    FullWrite(if lookup then Fill(v, s) else v, s, [b])
  }

  lemma WriteOneRely(v: Vol, s: nat, b: Block, lookup: bool, views: set<nat>)
    requires LunInv(v, views) && s < |v.location|
    ensures Rely(v, WriteOne(v, s, b, lookup), views)
  {
    var w := if lookup then Fill(v, s) else v;
    assert Inv(w, views);
    assert Separated(w.location, Head(w.layers), w.snapIndx, s, s + 1);
    SeparatedRespects(w, s, 1, views);
    FullWriteKeeps(w, s, [b], views);
    var z := FullWrite(w, s, [b]);
    forall u, x: nat | u in views && x < |v.location|
      ensures Stays(v, z, u, x)
    {
      FullWriteTop(w, s, [b], x, u);
    }
  }

  lemma PunchRely(v: Vol, views: set<nat>)
    requires LunInv(v, views) && v.holes != []
    ensures v.holes[0].layer < |v.layers|
    ensures Rely(v, PunchNext(v), views)
  {
    PunchNextKeeps(v, views);
    assert SafeHole(v.layers, v.holes[0], views);
    forall u, x: nat | u in views && x < |v.location|
      ensures Stays(v, PunchNext(v), u, x)
    {
      PunchKeepsView(v.layers, v.holes[0], views, u, x);
    }
    forall x | 0 <= x < |v.location| && v.location[x] != 0
      ensures x in PunchNext(v).layers[Head(v.layers)]
    {
      TopUnique(v.layers, x, Head(v.layers), Head(v.layers));
      PunchKeepsView(v.layers, v.holes[0], views, Head(v.layers), x);
    }
  }

  // ---- The scan ----

  /** The scanned map, the run of shadowed sectors not sent yet, and the block counters. */
  datatype Scan = Scan(location: seq<nat>, run: Run, usedLogical: int, usedBlocks: int)

  /** The hole that ends a run, if the run may be sent. */
  function Emits(run: Run, userIndx: nat, punching: bool): seq<Hole> {
    if Sends(run, userIndx, punching) then [Hole(run.layer, run.first, run.count)] else []
  }

  function Flushed(run: Run, userIndx: nat, punching: bool): nat {
    if Sends(run, userIndx, punching) then run.count else 0
  }

  /** Sector x has been found allocated in file i. */
  function ScanSector(sc: Scan, i: nat, x: nat, userIndx: nat, punching: bool): Scan
    requires x < |sc.location|
  {
    var val := sc.location[x];
    if val == 0 then
      Scan(sc.location[x := i], sc.run, sc.usedLogical + 1, sc.usedBlocks + 1)
    else if Breaks(val, x, sc.run) then
      Scan(sc.location[x := i], Run(val, x, 1), sc.usedLogical,
           sc.usedBlocks - Flushed(sc.run, userIndx, punching) + 1)
    else
      Scan(sc.location[x := i], sc.run.(count := sc.run.count + 1), sc.usedLogical, sc.usedBlocks + 1)
  }

  function EmittedAt(sc: Scan, x: nat, userIndx: nat, punching: bool): seq<Hole>
    requires x < |sc.location|
  {
    if sc.location[x] != 0 && Breaks(sc.location[x], x, sc.run) then Emits(sc.run, userIndx, punching) else []
  }

  /** At the end of a file the pending run is sent and forgotten. */
  function EndFile(sc: Scan, userIndx: nat, punching: bool): Scan {
    sc.(run := NoRun, usedBlocks := sc.usedBlocks - Flushed(sc.run, userIndx, punching))
  }

  predicate Before(t: nat, x: nat, i: nat, pos: nat) {
    t < i || (t == i && x < pos)
  }

  /** What the scan knows about sector x once files below i, and file i below pos, have been probed. */
  ghost predicate Knows(v: Vol, location: seq<nat>, i: nat, pos: nat, x: nat)
    requires |v.layers| > 0 && |location| == |v.location| && x < |location|
  {
    var t := Top(v.layers, x, Head(v.layers));
    && location[x] <= t
    && location[x] <= i && (x >= pos ==> location[x] < i)
    && (Before(t, x, i, pos) ==> location[x] == t || v.location[x] == t == Head(v.layers))
  }

  /** No protected view reads a sector of a run that may be sent from the run's layer. */
  ghost predicate RunUnread(L: seq<Layer>, run: Run, userIndx: nat, i: nat, pos: nat, views: set<nat>) {
    run.Run? ==>
      && 0 < run.layer < i
      && run.first + run.count <= pos
      && (run.layer > userIndx ==> forall s: nat :: run.first <= s < run.first + run.count ==> Unread(L, run.layer, s, views))
  }

  ghost predicate ScanInv(v: Vol, sc: Scan, userCreated: seq<bool>, i: nat, pos: nat) {
    && |v.layers| == |userCreated| && 0 < i < |userCreated| && pos <= |v.location|
    && LunInv(v, Protected(userCreated))
    && |sc.location| == |v.location|
    && (forall x: nat :: x < |v.location| ==> Knows(v, sc.location, i, pos, x))
    && RunUnread(v.layers, sc.run, LatestUser(userCreated, i), i, pos, Protected(userCreated))
  }

  /** Concurrent writes and hole executions do not disturb the scan. */
  lemma RelyKeepsScan(v: Vol, w: Vol, sc: Scan, userCreated: seq<bool>, i: nat, pos: nat)
    requires ScanInv(v, sc, userCreated, i, pos)
    requires Rely(v, w, Protected(userCreated))
    ensures ScanInv(w, sc, userCreated, i, pos)
  {
    var views := Protected(userCreated);
    var head := Head(v.layers);
    forall x: nat | x < |v.location|
      ensures Knows(w, sc.location, i, pos, x)
    {
      assert Knows(v, sc.location, i, pos, x);
      assert head in views && Stays(v, w, head, x);
    }
    if sc.run.Run? && sc.run.layer > LatestUser(userCreated, i) {
      forall s: nat | sc.run.first <= s < sc.run.first + sc.run.count
        ensures Unread(w.layers, sc.run.layer, s, views)
      {
        assert Unread(v.layers, sc.run.layer, s, views);
        forall u | u in views && u < |w.layers|
          ensures Top(w.layers, s, u) != sc.run.layer
        {
          assert Top(v.layers, s, u) != sc.run.layer && Stays(v, w, u, s);
        }
      }
    }
  }

  // ---- What the file system has answered ----

  /**
    Which sectors file i has is asked for many at a time, so an answer may be old.
    A sector that was found has kept every later view from reading it below file i,
    even if it has been deallocated since; a sector that was not found is not read
    from file i now, unless it has been written since, which the live cache knows.
  */
  ghost predicate Answer(v: Vol, views: set<nat>, i: nat, x: nat, found: bool)
    requires |v.layers| > 0 && x < |v.location|
  {
    if found then forall u :: u in views && i <= u < |v.layers| ==> Top(v.layers, x, u) >= i
    else Top(v.layers, x, Head(v.layers)) == i ==> v.location[x] == i == Head(v.layers)
  }

  ghost predicate Answers(v: Vol, views: set<nat>, i: nat, from: nat, asked: set<nat>)
    requires |v.layers| > 0
  {
    forall x: nat :: from <= x < |v.location| ==> Answer(v, views, i, x, x in asked)
  }

  lemma NewAnswers(v: Vol, views: set<nat>, i: nat, from: nat)
    requires 0 < i < |v.layers|
    ensures Answers(v, views, i, from, v.layers[i].Keys)
  {
    forall x: nat, u | from <= x < |v.location| && x in v.layers[i] && u in views && i <= u < |v.layers|
      ensures Top(v.layers, x, u) >= i
    {
      TopMonotone(v.layers, x, i, u);
    }
  }

  lemma RelyKeepsAnswers(v: Vol, w: Vol, views: set<nat>, i: nat, from: nat, asked: set<nat>)
    requires LunInv(v, views) && Rely(v, w, views) && 0 < i < |v.layers|
    requires Answers(v, views, i, from, asked)
    ensures Answers(w, views, i, from, asked)
  {
    forall x: nat | from <= x < |w.location|
      ensures Answer(w, views, i, x, x in asked)
    {
      assert Answer(v, views, i, x, x in asked);
      assert forall u :: u in views ==> Stays(v, w, u, x);
    }
  }

  /** A sector found in file i shadows what an earlier file holds, unless a user-created view lies between. */
  lemma FoundShadows(v: Vol, userCreated: seq<bool>, i: nat, j: nat, x: nat)
    requires |v.layers| == |userCreated| && 0 < j < i < |userCreated| && x < |v.location|
    requires Answer(v, Protected(userCreated), i, x, true)
    requires j > LatestUser(userCreated, i)
    ensures Unread(v.layers, j, x, Protected(userCreated))
  {
    forall u | u in Protected(userCreated) && u < |v.layers|
      ensures Top(v.layers, x, u) != j
    {
      if u >= j {
        assert u >= i;
      }
    }
  }

  /** Queueing holes that are safe keeps the volume invariant. */
  lemma QueueSafe(v: Vol, more: seq<Hole>, views: set<nat>)
    requires LunInv(v, views)
    requires forall k :: 0 <= k < |more| ==> SafeHole(v.layers, more[k], views)
    ensures LunInv(v.(holes := v.holes + more), views)
    ensures Rely(v, v.(holes := v.holes + more), views)
  {
    forall k | 0 <= k < |v.holes + more|
      ensures SafeHole(v.layers, (v.holes + more)[k], views)
    {
      if k < |v.holes| {
        assert SafeHole(v.layers, v.holes[k], views);
      }
    }
  }

  lemma RunIsSafe(v: Vol, run: Run, userIndx: nat, i: nat, pos: nat, views: set<nat>)
    requires RunUnread(v.layers, run, userIndx, i, pos, views) && i < |v.layers|
    ensures forall k :: 0 <= k < |Emits(run, userIndx, v.punching)| ==>
              SafeHole(v.layers, Emits(run, userIndx, v.punching)[k], views)
  {
  }

  /** Finding sector x allocated in file i, with the hole that this may send. */
  lemma ProbeKeepsScan(v: Vol, sc: Scan, userCreated: seq<bool>, i: nat, x: nat)
    requires ScanInv(v, sc, userCreated, i, x)
    requires x < |v.location| && Answer(v, Protected(userCreated), i, x, true)
    ensures var userIndx := LatestUser(userCreated, i);
            ScanInv(v.(holes := v.holes + EmittedAt(sc, x, userIndx, v.punching)),
                    ScanSector(sc, i, x, userIndx, v.punching), userCreated, i, x + 1)
  {
    var userIndx := LatestUser(userCreated, i);
    var views := Protected(userCreated);
    var more := EmittedAt(sc, x, userIndx, v.punching);
    var sc' := ScanSector(sc, i, x, userIndx, v.punching);
    var w := v.(holes := v.holes + more);
    RunIsSafe(v, sc.run, userIndx, i, x, views);
    QueueSafe(v, more, views);
    var next := x + 1;
    forall y: nat | y < |v.location|
      ensures Knows(w, sc'.location, i, next, y)
    {
      ProbeKnows(v, sc, userCreated, i, x, y);
    }
    ProbeShadows(v, sc, userCreated, i, x);
  }

  lemma ProbeKnows(v: Vol, sc: Scan, userCreated: seq<bool>, i: nat, x: nat, y: nat)
    requires ScanInv(v, sc, userCreated, i, x)
    requires x < |v.location| && Answer(v, Protected(userCreated), i, x, true) && y < |v.location|
    ensures Knows(v, sc.location[x := i], i, x + 1, y)
  {
    assert Knows(v, sc.location, i, x, y);
    assert Head(v.layers) in Protected(userCreated);
  }

  lemma ProbeShadows(v: Vol, sc: Scan, userCreated: seq<bool>, i: nat, x: nat)
    requires ScanInv(v, sc, userCreated, i, x)
    requires x < |v.location| && Answer(v, Protected(userCreated), i, x, true)
    ensures var userIndx := LatestUser(userCreated, i);
            RunUnread(v.layers, ScanSector(sc, i, x, userIndx, v.punching).run, userIndx, i, x + 1, Protected(userCreated))
  {
    assert Knows(v, sc.location, i, x, x);
    if sc.location[x] != 0 && sc.location[x] > LatestUser(userCreated, i) {
      FoundShadows(v, userCreated, i, sc.location[x], x);
    }
  }

  lemma SkipKeepsScan(v: Vol, sc: Scan, userCreated: seq<bool>, i: nat, x: nat)
    requires ScanInv(v, sc, userCreated, i, x)
    requires x < |v.location| && Answer(v, Protected(userCreated), i, x, false)
    ensures ScanInv(v, sc, userCreated, i, x + 1)
  {
    var next := x + 1;
    forall y: nat | y < |v.location|
      ensures Knows(v, sc.location, i, next, y)
    {
      assert Knows(v, sc.location, i, x, y);
    }
  }

  lemma EndFileKeepsScan(v: Vol, sc: Scan, userCreated: seq<bool>, i: nat)
    requires ScanInv(v, sc, userCreated, i, |v.location|)
    ensures var userIndx := LatestUser(userCreated, i);
            var w := v.(holes := v.holes + Emits(sc.run, userIndx, v.punching));
            var sc' := EndFile(sc, userIndx, v.punching);
            && LunInv(w, Protected(userCreated))
            && (i + 1 < |userCreated| ==> ScanInv(w, sc', userCreated, i + 1, 0))
            && (forall x: nat :: x < |w.location| ==> Knows(w, sc'.location, i, |v.location|, x))
  {
    var userIndx := LatestUser(userCreated, i);
    var views := Protected(userCreated);
    var w := v.(holes := v.holes + Emits(sc.run, userIndx, v.punching));
    RunIsSafe(v, sc.run, userIndx, i, |v.location|, views);
    QueueSafe(v, Emits(sc.run, userIndx, v.punching), views);
    var next := i + 1;
    forall x: nat | x < |v.location|
      ensures Knows(w, sc.location, i, |v.location|, x)
    {
      assert Knows(v, sc.location, i, |v.location|, x);
    }
    forall x: nat | x < |v.location|
      ensures Knows(w, sc.location, next, 0, x)
    {
      assert Knows(v, sc.location, i, |v.location|, x);
    }
  }

  // ---- Block accounting ----

  /** Sectors with a known location. */
  ghost function Located(location: seq<nat>): set<nat> {
    set x: nat | x < |location| && location[x] != 0
  }

  /** The (layer, sector) pairs that are allocated. */
  ghost function AllocatedCells(L: seq<Layer>): set<(nat, nat)> {
    set k: nat, x: nat | k < |L| && x in L[k] && k > 0 :: (k, x)
  }

  ghost function RunCells(run: Run): set<(nat, nat)> {
    if run.Run? then CellsOf(run.layer, run.first, run.count) else {}
  }

  ghost function CellsOf(layer: nat, first: nat, count: nat): (r: set<(nat, nat)>)
    ensures forall c :: c in r <==> c.0 == layer && first <= c.1 < first + count
    ensures |r| == count
  {
    if count == 0 then {} else CellsOf(layer, first, count - 1) + {(layer, first + count - 1)}
  }

  /** The pairs of the run have not been sent yet. */
  ghost predicate RunKept(run: Run, kept: set<(nat, nat)>) {
    run.Run? ==> forall s: nat :: run.first <= s < run.first + run.count ==> (run.layer, s) in kept
  }

  /** The sectors of the run now have file i as their location. */
  ghost predicate RunPassed(run: Run, location: seq<nat>, i: nat) {
    run.Run? ==>
      && run.layer < i
      && run.first + run.count <= |location|
      && forall s: nat :: run.first <= s < run.first + run.count ==> location[s] == i
  }

  /**
    The counters of a scan: every sector with a known location is counted once
    as a logical block; kept, the pairs found and not sent to the hole queue,
    is what usedBlocks counts.
  */
  ghost predicate Accounted(sc: Scan, kept: set<(nat, nat)>, i: nat, pos: nat) {
    && sc.usedLogical == |Located(sc.location)|
    && sc.usedBlocks == |kept|
    && (forall c :: c in kept ==> Before(c.0, c.1, i, pos))
    && (forall x: nat :: x < |sc.location| && sc.location[x] != 0 ==> (sc.location[x], x) in kept)
    && RunKept(sc.run, kept)
    && RunPassed(sc.run, sc.location, i)
  }

  ghost function KeptAfterFlush(kept: set<(nat, nat)>, run: Run, userIndx: nat, punching: bool): set<(nat, nat)> {
    if Sends(run, userIndx, punching) then kept - RunCells(run) else kept
  }

  ghost function KeptAt(kept: set<(nat, nat)>, sc: Scan, i: nat, x: nat, userIndx: nat, punching: bool): set<(nat, nat)>
    requires x < |sc.location|
  {
    (if sc.location[x] != 0 && Breaks(sc.location[x], x, sc.run)
     then KeptAfterFlush(kept, sc.run, userIndx, punching) else kept) + {(i, x)}
  }

  lemma FlushAccounted(sc: Scan, kept: set<(nat, nat)>, i: nat, pos: nat, userIndx: nat, punching: bool)
    requires Accounted(sc, kept, i, pos)
    ensures Accounted(EndFile(sc, userIndx, punching), KeptAfterFlush(kept, sc.run, userIndx, punching), i, pos)
  {
  }

  lemma LocatedUpdate(location: seq<nat>, x: nat, i: nat)
    requires x < |location| && i > 0
    ensures |Located(location[x := i])| == |Located(location)| + (if location[x] == 0 then 1 else 0)
  {
    assert Located(location[x := i]) == Located(location) + {x};
    if location[x] != 0 {
      assert Located(location) + {x} == Located(location);
    }
  }

  lemma ScanSectorAccounted(sc: Scan, kept: set<(nat, nat)>, i: nat, x: nat, userIndx: nat, punching: bool)
    requires Accounted(sc, kept, i, x) && x < |sc.location| && i > 0
    requires sc.location[x] < i
    ensures Accounted(ScanSector(sc, i, x, userIndx, punching), KeptAt(kept, sc, i, x, userIndx, punching), i, x + 1)
  {
    var val := sc.location[x];
    if val == 0 {
      GrowAccounted(sc, kept, i, x, sc.run);
    } else if Breaks(val, x, sc.run) {
      FlushAccounted(sc, kept, i, x, userIndx, punching);
      NewRunAccounted(EndFile(sc, userIndx, punching), KeptAfterFlush(kept, sc.run, userIndx, punching), i, x);
    } else {
      GrowAccounted(sc, kept, i, x, sc.run.(count := sc.run.count + 1));
    }
  }

  /** A new run starts with the pair that sector x had. */
  lemma NewRunAccounted(sc: Scan, kept: set<(nat, nat)>, i: nat, x: nat)
    requires Accounted(sc, kept, i, x) && x < |sc.location| && i > 0
    requires 0 < sc.location[x] < i
    ensures Accounted(Scan(sc.location[x := i], Run(sc.location[x], x, 1), sc.usedLogical, sc.usedBlocks + 1),
                      kept + {(i, x)}, i, x + 1)
  {
    GrowAccounted(sc, kept, i, x, Run(sc.location[x], x, 1));
  }

  /** One more pair is found; the run may grow by the pair it shadows. */
  lemma GrowAccounted(sc: Scan, kept: set<(nat, nat)>, i: nat, x: nat, run: Run)
    requires Accounted(sc, kept, i, x) && x < |sc.location| && i > 0
    requires sc.location[x] < i
    requires RunKept(run, kept)
    requires RunPassed(run, sc.location[x := i], i)
    ensures Accounted(Scan(sc.location[x := i], run,
                           sc.usedLogical + (if sc.location[x] == 0 then 1 else 0), sc.usedBlocks + 1),
                      kept + {(i, x)}, i, x + 1)
  {
    LocatedUpdate(sc.location, x, i);
    assert (i, x) !in kept;
  }

  // ---- What is left once the emitted holes have been executed ----

  /** In an undisturbed scan, kept is what was found so far minus what was sent so far. */
  ghost predicate KeptIsExact(L: seq<Layer>, sectors: nat, kept: set<(nat, nat)>, sent: seq<Hole>, i: nat, pos: nat) {
    forall k: nat, x: nat :: (k, x) in kept <==>
      && 0 < k < |L| && x < sectors && x in L[k] && Before(k, x, i, pos) && !PunchedBy(sent, k, x)
  }

  lemma FlushExact(L: seq<Layer>, sectors: nat, kept: set<(nat, nat)>, sent: seq<Hole>, i: nat, pos: nat,
                   run: Run, userIndx: nat, punching: bool)
    requires KeptIsExact(L, sectors, kept, sent, i, pos)
    ensures KeptIsExact(L, sectors, KeptAfterFlush(kept, run, userIndx, punching), sent + Emits(run, userIndx, punching), i, pos)
  {
    if Sends(run, userIndx, punching) {
      var h := Hole(run.layer, run.first, run.count);
      forall k: nat, x: nat
        ensures PunchedBy(sent + [h], k, x) <==> PunchedBy(sent, k, x) || (h.layer == k && Covers(h, x))
      {
        PunchedByMore(sent, h, k, x);
      }
    } else {
      assert sent + [] == sent;
    }
  }

  /** Emitted holes name files that have been left behind, so the pair just found is never among them. */
  lemma FoundExact(L: seq<Layer>, sectors: nat, kept: set<(nat, nat)>, sent: seq<Hole>, i: nat, x: nat)
    requires KeptIsExact(L, sectors, kept, sent, i, x)
    requires 0 < i < |L| && x < sectors
    requires forall n :: 0 <= n < |sent| ==> sent[n].layer < i
    ensures KeptIsExact(L, sectors, if x in L[i] then kept + {(i, x)} else kept, sent, i, x + 1)
  {
  }

  /** The pairs kept by an undisturbed scan are those allocated after all its holes have been executed. */
  lemma KeptAfterAll(L: seq<Layer>, sectors: nat, kept: set<(nat, nat)>, sent: seq<Hole>)
    requires |L| > 0
    requires forall k, x :: 0 <= k < |L| && x in L[k] ==> x < sectors
    requires forall n :: 0 <= n < |sent| ==> sent[n].layer < |L|
    requires KeptIsExact(L, sectors, kept, sent, Head(L), sectors)
    ensures kept == AllocatedCells(PunchAll(L, sent))
  {
    forall k: nat, x: nat
      ensures (k, x) in kept <==> (k, x) in AllocatedCells(PunchAll(L, sent))
    {
      if 0 < k < |L| {
        PunchAllDomain(L, sent, k, x);
      }
    }
    var after := AllocatedCells(PunchAll(L, sent));
    forall c: (nat, nat)
      ensures c in kept <==> c in after
    {
      assert c == (c.0, c.1);
    }
  }

  // ---- The merge ----

  /** The run of sectors overwritten since the scan saw them, and the two correction terms. */
  datatype Merge = Merge(run: Run, extraUsed: int, extraLogical: int)

  function MergeSector(m: Merge, scanned: nat, live: nat, x: nat, userIndx: nat, punching: bool): Merge {
    if scanned == 0 then
      if live != 0 then m.(extraUsed := m.extraUsed + 1, extraLogical := m.extraLogical + 1) else m
    else if live > scanned then
      if Breaks(scanned, x, m.run) then
        m.(run := Run(scanned, x, 1), extraUsed := m.extraUsed - Flushed(m.run, userIndx, punching) + 1)
      else
        m.(run := m.run.(count := m.run.count + 1), extraUsed := m.extraUsed + 1)
    else
      m.(run := NoRun, extraUsed := m.extraUsed - Flushed(m.run, userIndx, punching))
  }

  /** The holes that merging sector x sends. */
  function MergeEmits(m: Merge, scanned: nat, live: nat, x: nat, userIndx: nat, punching: bool): seq<Hole> {
    if scanned != 0 && (live <= scanned || Breaks(scanned, x, m.run)) then Emits(m.run, userIndx, punching) else []
  }

  function Max(a: nat, b: nat): nat {
    if a > b then a else b
  }

  /** Merging has reached sector x: location is the maximum below x and untouched from there on. */
  ghost predicate MergeInv(v: Vol, was: seq<nat>, scanned: seq<nat>, m: Merge, userCreated: seq<bool>, x: nat) {
    && |v.layers| == |userCreated| && |userCreated| >= 2
    && |v.location| == |was| == |scanned| && x <= |was|
    && Inv(v, Protected(userCreated))
    && (forall y: nat :: y < |was| ==> v.location[y] == if y < x then Max(was[y], scanned[y]) else was[y])
    && (forall y: nat :: y < |was| ==> Max(was[y], scanned[y]) == Top(v.layers, y, Head(v.layers)))
    && (forall y: nat :: y < |was| && was[y] != 0 ==> was[y] == Head(v.layers))
    && RunUnread(v.layers, m.run, LatestUser(userCreated, |userCreated| - 1), Head(v.layers), x, Protected(userCreated))
  }

  /** The merge has reached sector x; no protected view has changed since it began. */
  ghost predicate Merging(v: Vol, begin: Vol, scanned: seq<nat>, m: Merge, userCreated: seq<bool>, x: nat) {
    && MergeInv(v, begin.location, scanned, m, userCreated, x)
    && SameViews(begin.layers, v.layers, Protected(userCreated)) && v.punching == begin.punching
    && var userIndx := LatestUser(userCreated, |userCreated| - 1);
       && m == MergeAt(begin.location, scanned, userIndx, v.punching, x)
       && AliveSince(begin, v, MergeSent(begin.location, scanned, userIndx, v.punching, x))
  }

  lemma AboveAllUsers(v: Vol, userCreated: seq<bool>, j: nat, x: nat)
    requires |v.layers| == |userCreated| && |userCreated| >= 2
    requires j > LatestUser(userCreated, |userCreated| - 1)
    requires Top(v.layers, x, Head(v.layers)) > j
    ensures Unread(v.layers, j, x, Protected(userCreated))
  {
  }

  lemma MergeKeeps(v: Vol, was: seq<nat>, scanned: seq<nat>, m: Merge, userCreated: seq<bool>, x: nat)
    requires MergeInv(v, was, scanned, m, userCreated, x) && x < |was|
    ensures var userIndx := LatestUser(userCreated, |userCreated| - 1);
            var w := v.(holes := v.holes + MergeEmits(m, scanned[x], v.location[x], x, userIndx, v.punching),
                        location := v.location[x := Max(was[x], scanned[x])]);
            MergeInv(w, was, scanned, MergeSector(m, scanned[x], v.location[x], x, userIndx, v.punching), userCreated, x + 1)
  {
    var userIndx := LatestUser(userCreated, |userCreated| - 1);
    var views := Protected(userCreated);
    var more := MergeEmits(m, scanned[x], v.location[x], x, userIndx, v.punching);
    QueueMore(v, Emits(m.run, userIndx, v.punching), views, userIndx, m.run, x);
    assert more == [] || more == Emits(m.run, userIndx, v.punching);
    assert v.holes + [] == v.holes;
    MergedInv(v, views, more, v.location[x := Max(was[x], scanned[x])]);
    if scanned[x] != 0 && v.location[x] > scanned[x] > userIndx {
      AboveAllUsers(v, userCreated, scanned[x], x);
    }
    MergeRunUnread(v.layers, m, scanned[x], v.location[x], x, userIndx, v.punching, Head(v.layers), views);
  }

  lemma MergeRunUnread(L: seq<Layer>, m: Merge, scanned: nat, live: nat, x: nat, userIndx: nat, punching: bool, n: nat, views: set<nat>)
    requires RunUnread(L, m.run, userIndx, n, x, views)
    requires scanned != 0 && live > scanned ==> scanned < n
    requires scanned != 0 && live > scanned > userIndx ==> Unread(L, scanned, x, views)
    ensures RunUnread(L, MergeSector(m, scanned, live, x, userIndx, punching).run, userIndx, n, x + 1, views)
  {
  }

  lemma MergedInv(v: Vol, views: set<nat>, more: seq<Hole>, location: seq<nat>)
    requires Inv(v, views) && SafeQueue(v.layers, v.holes + more, views)
    requires Coherent(v.layers, location)
    ensures Inv(v.(holes := v.holes + more, location := location), views)
  {
  }

  lemma QueueMore(v: Vol, more: seq<Hole>, views: set<nat>, userIndx: nat, run: Run, pos: nat)
    requires Inv(v, views)
    requires RunUnread(v.layers, run, userIndx, Head(v.layers), pos, views)
    requires more == Emits(run, userIndx, v.punching)
    ensures SafeQueue(v.layers, v.holes + more, views)
  {
    forall k | 0 <= k < |v.holes + more|
      ensures SafeHole(v.layers, (v.holes + more)[k], views)
    {
      if k < |v.holes| {
        assert SafeHole(v.layers, v.holes[k], views);
      }
    }
  }

  lemma PunchKeepsMerge(v: Vol, was: seq<nat>, scanned: seq<nat>, m: Merge, userCreated: seq<bool>, x: nat)
    requires MergeInv(v, was, scanned, m, userCreated, x)
    requires v.holes != []
    ensures v.holes[0].layer < |v.layers|
    ensures MergeInv(PunchNext(v), was, scanned, m, userCreated, x)
  {
    var views := Protected(userCreated);
    PunchNextKeeps(v, views);
    assert SafeHole(v.layers, v.holes[0], views);
    forall u, y: nat | u in views && u < |v.layers|
      ensures Top(PunchNext(v).layers, y, u) == Top(v.layers, y, u)
    {
      PunchKeepsView(v.layers, v.holes[0], views, u, y);
    }
    assert Head(v.layers) in views;
    if m.run.Run? && m.run.layer > LatestUser(userCreated, |userCreated| - 1) {
      forall s: nat | m.run.first <= s < m.run.first + m.run.count
        ensures Unread(PunchNext(v).layers, m.run.layer, s, views)
      {
        assert Unread(v.layers, m.run.layer, s, views);
      }
    }
  }

  // ---- The counters, step by step ----

  /**
    The bookkeeping of a scan that started in state v.  On an idle volume it is
    exact about which pairs are kept and which holes were sent.
  */
  ghost predicate Counted(idle: bool, v: Vol, w: Vol, sc: Scan, kept: set<(nat, nat)>, sent: seq<Hole>, i: nat, pos: nat) {
    && |sc.location| == |v.location|
    && Accounted(sc, kept, i, pos)
    && AllBelow(sent, i)
    && (idle ==> w == v.(holes := v.holes + sent) && KeptIsExact(v.layers, |v.location|, kept, sent, i, pos))
  }

  /** A scan that started in state v has reached sector x of file i in state w, with the given answer at hand. */
  ghost predicate Underway(idle: bool, exact: bool, v: Vol, w: Vol, sc: Scan, kept: set<(nat, nat)>, sent: seq<Hole>,
                           userCreated: seq<bool>, i: nat, x: nat, asked: set<nat>)
  {
    && |w.layers| == |v.layers| && |w.location| == |v.location|
    && ScanInv(w, sc, userCreated, i, x)
    && Tracking(exact, w, sc, kept, userCreated, i, x)
    && (exact ==> TrackedAnswers(w, i, x, asked))
    && Counted(idle, v, w, sc, kept, sent, i, x)
    && Answers(w, Protected(userCreated), i, x, asked)
    && (idle ==> asked == v.layers[i].Keys)
  }

  ghost predicate AllBelow(sent: seq<Hole>, i: nat) {
    forall n :: 0 <= n < |sent| ==> sent[n].layer < i
  }

  lemma EmitsBelow(sent: seq<Hole>, run: Run, i: nat, userIndx: nat, punching: bool)
    requires AllBelow(sent, i)
    requires run.Run? ==> run.layer < i
    ensures AllBelow(sent + Emits(run, userIndx, punching), i)
  {
  }

  lemma FoundCounted(idle: bool, v: Vol, w: Vol, sc: Scan, kept: set<(nat, nat)>, sent: seq<Hole>,
                     i: nat, x: nat, userIndx: nat, punching: bool)
    requires Counted(idle, v, w, sc, kept, sent, i, x)
    requires 0 < i < |v.layers| && x < |v.location| && sc.location[x] < i
    requires idle ==> x in v.layers[i]
    ensures var more := EmittedAt(sc, x, userIndx, punching);
            Counted(idle, v, w.(holes := w.holes + more), ScanSector(sc, i, x, userIndx, punching),
                    KeptAt(kept, sc, i, x, userIndx, punching), sent + more, i, x + 1)
  {
    var more := EmittedAt(sc, x, userIndx, punching);
    ScanSectorAccounted(sc, kept, i, x, userIndx, punching);
    EmittedBelow(sent, sc, i, x, userIndx, punching);
    MoreHoles(v, w, sent, more);
    if idle {
      ProbeExact(sc, v.layers, |v.location|, kept, sent, i, x, userIndx, punching);
    }
  }

  lemma EmittedBelow(sent: seq<Hole>, sc: Scan, i: nat, x: nat, userIndx: nat, punching: bool)
    requires AllBelow(sent, i) && x < |sc.location|
    requires sc.run.Run? ==> sc.run.layer < i
    ensures AllBelow(sent + EmittedAt(sc, x, userIndx, punching), i)
  {
    EmitsBelow(sent, sc.run, i, userIndx, punching);
  }

  lemma MoreHoles(v: Vol, w: Vol, sent: seq<Hole>, more: seq<Hole>)
    ensures w == v.(holes := v.holes + sent) ==> w.(holes := w.holes + more) == v.(holes := v.holes + (sent + more))
  {
    assert v.holes + sent + more == v.holes + (sent + more);
  }

  lemma SkipCounted(idle: bool, v: Vol, w: Vol, sc: Scan, kept: set<(nat, nat)>, sent: seq<Hole>, i: nat, x: nat)
    requires Counted(idle, v, w, sc, kept, sent, i, x)
    requires 0 < i < |v.layers| && x < |v.location|
    requires idle ==> x !in v.layers[i]
    ensures Counted(idle, v, w, sc, kept, sent, i, x + 1)
  {
    if idle {
      FoundExact(v.layers, |v.location|, kept, sent, i, x);
    }
  }

  lemma EndCounted(idle: bool, v: Vol, w: Vol, sc: Scan, kept: set<(nat, nat)>, sent: seq<Hole>,
                   i: nat, userIndx: nat, punching: bool)
    requires Counted(idle, v, w, sc, kept, sent, i, |v.location|)
    ensures var more := Emits(sc.run, userIndx, punching);
            Counted(idle, v, w.(holes := w.holes + more), EndFile(sc, userIndx, punching),
                    KeptAfterFlush(kept, sc.run, userIndx, punching), sent + more, i, |v.location|)
  {
    var more := Emits(sc.run, userIndx, punching);
    FlushAccounted(sc, kept, i, |v.location|, userIndx, punching);
    EmitsBelow(sent, sc.run, i, userIndx, punching);
    if idle {
      FlushExact(v.layers, |v.location|, kept, sent, i, |v.location|, sc.run, userIndx, punching);
      assert v.holes + sent + more == v.holes + (sent + more);
    }
  }

  lemma MoreHolesAnswers(w: Vol, z: Vol, views: set<nat>, i: nat, x: nat, asked: set<nat>)
    requires |w.layers| > 0 && z == w.(holes := z.holes) && Answers(w, views, i, x, asked)
    ensures Answers(z, views, i, x + 1, asked)
  {
    forall y: nat | x + 1 <= y < |z.location|
      ensures Answer(z, views, i, y, y in asked)
    {
      assert Answer(w, views, i, y, y in asked);
    }
  }

  lemma MoreHolesRely(v: Vol, w: Vol, z: Vol, views: set<nat>)
    requires Rely(v, w, views) && LunInv(z, views)
    requires z == w.(holes := z.holes)
    ensures Rely(v, z, views)
  {
    forall u, x: nat | u in views && x < |v.location|
      ensures Stays(v, z, u, x)
    {
      assert Stays(v, w, u, x);
    }
  }

  lemma NextCounted(idle: bool, v: Vol, w: Vol, sc: Scan, kept: set<(nat, nat)>, sent: seq<Hole>, i: nat)
    requires Counted(idle, v, w, sc, kept, sent, i, |v.location|) && sc.run == NoRun
    ensures Counted(idle, v, w, sc, kept, sent, i + 1, 0)
  {
  }

  lemma ProbeExact(sc: Scan, L: seq<Layer>, sectors: nat, kept: set<(nat, nat)>, sent: seq<Hole>, i: nat, x: nat,
                   userIndx: nat, punching: bool)
    requires KeptIsExact(L, sectors, kept, sent, i, x)
    requires 0 < i < |L| && x < sectors == |sc.location| && x in L[i]
    requires AllBelow(sent, i)
    requires sc.run.Run? ==> sc.run.layer < i
    ensures KeptIsExact(L, sectors, KeptAt(kept, sc, i, x, userIndx, punching),
                        sent + EmittedAt(sc, x, userIndx, punching), i, x + 1)
  {
    if sc.location[x] != 0 && Breaks(sc.location[x], x, sc.run) {
      FlushExact(L, sectors, kept, sent, i, x, sc.run, userIndx, punching);
      FoundExact(L, sectors, KeptAfterFlush(kept, sc.run, userIndx, punching),
                 sent + Emits(sc.run, userIndx, punching), i, x);
    } else {
      assert sent + [] == sent;
      FoundExact(L, sectors, kept, sent, i, x);
    }
  }

  // ---- The counters while the volume is in use ----

  /** Sector x of layer k is allocated, and no queued hole is going to change that. */
  ghost predicate Alive(v: Vol, k: nat, x: nat)
    requires k < |v.layers|
  {
    x in v.layers[k] && !PunchedBy(v.holes, k, x)
  }

  /** Sector x has been written since the reload, and a copy of it in layer k may be sent to the hole queue. */
  ghost predicate Replaced(v: Vol, k: nat, x: nat)
    requires |v.layers| > 0
  {
    x < |v.location| && v.location[x] == Head(v.layers) && k > v.snapIndx && v.punching
  }

  /**
    What concurrent activity may do to one sector of one layer.  The head only
    grows, by writes; in another layer the only copy that a write sends to the
    hole queue is the one that was read until then.
  */
  ghost predicate CellRely(v: Vol, w: Vol, k: nat, x: nat)
    requires k < |v.layers| == |w.layers|
  {
    if k == Head(v.layers) then
      && (x in v.layers[k] ==> x in w.layers[k])
      && (x in w.layers[k] && x !in v.layers[k] ==> x < |w.location| && w.location[x] == k)
    else
      && (x in w.layers[k] ==> x in v.layers[k])
      && (Alive(w, k, x) ==> Alive(v, k, x))
      && (Alive(v, k, x) && !Alive(w, k, x) ==> Replaced(w, k, x) && Top(v.layers, x, Head(v.layers)) == k)
  }

  ghost predicate CellsRely(v: Vol, w: Vol) {
    && |v.layers| == |w.layers| > 1
    && |v.location| == |w.location| && w.snapIndx == v.snapIndx && w.punching == v.punching
    && forall k: nat, x: nat :: 0 < k < |v.layers| ==> CellRely(v, w, k, x)
  }

  lemma CellsRelyTransitive(v: Vol, w: Vol, z: Vol, views: set<nat>)
    requires LunInv(v, views) && Rely(v, w, views) && Rely(w, z, views) && CellsRely(v, w) && CellsRely(w, z)
    ensures CellsRely(v, z)
  {
    forall k: nat, x: nat | 0 < k < |v.layers|
      ensures CellRely(v, z, k, x)
    {
      CellRelyTransitive(v, w, z, views, k, x);
    }
  }

  lemma CellRelyTransitive(v: Vol, w: Vol, z: Vol, views: set<nat>, k: nat, x: nat)
    requires LunInv(v, views) && Rely(v, w, views) && Rely(w, z, views) && CellsRely(v, w) && CellsRely(w, z)
    requires 0 < k < |v.layers|
    ensures CellRely(v, z, k, x)
  {
    assert CellRely(v, w, k, x) && CellRely(w, z, k, x);
    if x < |v.location| {
      assert Head(v.layers) in views && Stays(v, w, Head(v.layers), x);
    }
  }

  lemma PunchedByBoth(q: seq<Hole>, more: seq<Hole>, k: nat, x: nat)
    ensures PunchedBy(q + more, k, x) <==> PunchedBy(q, k, x) || PunchedBy(more, k, x)
  {
    if PunchedBy(q, k, x) {
      var n :| 0 <= n < |q| && q[n].layer == k && Covers(q[n], x);
      assert (q + more)[n] == q[n];
    }
    if PunchedBy(more, k, x) {
      var n :| 0 <= n < |more| && more[n].layer == k && Covers(more[n], x);
      assert (q + more)[|q| + n] == more[n];
    }
  }

  lemma PunchAlive(v: Vol, k: nat, x: nat)
    requires v.holes != [] && v.holes[0].layer < |v.layers| && k < |v.layers|
    ensures Alive(PunchNext(v), k, x) <==> Alive(v, k, x)
  {
    PunchedByBoth([v.holes[0]], v.holes[1..], k, x);
    assert [v.holes[0]] + v.holes[1..] == v.holes;
    assert PunchedBy([v.holes[0]], k, x) <==> v.holes[0].layer == k && Covers(v.holes[0], x) by {
      assert [v.holes[0]][0] == v.holes[0];
    }
  }

  lemma PunchCells(v: Vol, views: set<nat>)
    requires LunInv(v, views) && v.holes != []
    ensures v.holes[0].layer < |v.layers| && CellsRely(v, PunchNext(v))
  {
    assert SafeHole(v.layers, v.holes[0], views);
    forall k: nat, x: nat | 0 < k < |v.layers|
      ensures CellRely(v, PunchNext(v), k, x)
    {
      PunchAlive(v, k, x);
    }
  }

  /** The hole that a write of one sector sends. */
  lemma OneHole(location: seq<nat>, target: nat, snapIndx: nat, punching: bool, s: nat)
    requires s < |location|
    ensures WriteHoles(location, target, snapIndx, punching, s, s + 1)
            == if Overwrites(location, s, target) && location[s] > snapIndx && punching then [Hole(location[s], s, 1)] else []
  {
    assert WalkTo(location, target, snapIndx, punching, s, s) == Walk(NoRun, []);
  }

  lemma WriteOneCells(v: Vol, s: nat, b: Block, lookup: bool, views: set<nat>)
    requires LunInv(v, views) && s < |v.location|
    ensures CellsRely(v, WriteOne(v, s, b, lookup))
  {
    var z := WriteOne(v, s, b, lookup);
    forall k: nat, x: nat | 0 < k < |v.layers|
      ensures CellRely(v, z, k, x)
    {
      WriteOneCell(v, s, b, lookup, views, k, x);
    }
  }

  /** The only copy that such a write sends is the one that its lookup has found. */
  lemma WriteOneSends(v: Vol, s: nat, lookup: bool, views: set<nat>, k: nat, x: nat)
    requires LunInv(v, views) && s < |v.location|
    ensures PunchedBy(SentBy(if lookup then Fill(v, s) else v, s, 1), k, x) ==>
              x == s && k == Target(v.layers, s) && k != Head(v.layers) && k > v.snapIndx && v.punching
  {
    var w := if lookup then Fill(v, s) else v;
    var sent := SentBy(w, s, 1);
    OneHole(w.location, Head(w.layers), w.snapIndx, w.punching, s);
    if PunchedBy(sent, k, x) {
      var n :| 0 <= n < |sent| && sent[n].layer == k && Covers(sent[n], x);
      assert sent[n] == Hole(w.location[s], s, 1);
    }
  }

  lemma WriteOneCell(v: Vol, s: nat, b: Block, lookup: bool, views: set<nat>, k: nat, x: nat)
    requires LunInv(v, views) && s < |v.location| && 0 < k < |v.layers|
    ensures CellRely(v, WriteOne(v, s, b, lookup), k, x)
  {
    WriteOneSends(v, s, lookup, views, k, x);
    PunchedByBoth(v.holes, SentBy(if lookup then Fill(v, s) else v, s, 1), k, x);
    TopIsTop(v.layers, x, Head(v.layers));
  }

  predicate InRun(run: Run, k: nat, x: nat) {
    run.Run? && run.layer == k && run.first <= x < run.first + run.count
  }

  /** A copy that is counted and going to be sent: it waits in the run, or a later write has replaced it. */
  ghost predicate Doomed(w: Vol, sc: Scan, k: nat, x: nat)
    requires |w.layers| > 0 && |sc.location| == |w.location|
  {
    && k > w.snapIndx && w.punching
    && (InRun(sc.run, k, x) || (Replaced(w, k, x) && sc.location[x] == k))
  }

  /**
    What the count is about: of the copies probed so far, below the head, it counts
    those that are alive or doomed; in the head it counts those that were found, and
    the live cache knows the others.
  */
  ghost predicate CellTracked(w: Vol, sc: Scan, kept: set<(nat, nat)>, i: nat, pos: nat, k: nat, x: nat)
    requires k < |w.layers| && |sc.location| == |w.location|
  {
    && (x in w.layers[k] ==> x < |w.location|)
    && ((k, x) in kept ==> x < |w.location| && k <= sc.location[x])
    && if k == Head(w.layers) then
         && ((k, x) in kept ==> x in w.layers[k])
         && (x in w.layers[k] && Before(k, x, i, pos) ==> (k, x) in kept || w.location[x] == k)
       else
         && (Alive(w, k, x) && Before(k, x, i, pos) ==> (k, x) in kept)
         && ((k, x) in kept ==> Alive(w, k, x) || Doomed(w, sc, k, x))
         && (k >= i && x in w.layers[k] ==> Alive(w, k, x) || Replaced(w, k, x))
  }

  ghost predicate Tracks(w: Vol, sc: Scan, kept: set<(nat, nat)>, i: nat, pos: nat) {
    && |w.layers| > 1 && |sc.location| == |w.location|
    && (forall c :: c in kept ==> c.0 > 0)
    && forall k: nat, x: nat :: 0 < k < |w.layers| ==> CellTracked(w, sc, kept, i, pos, k, x)
  }

  /** The same about an answer of the file system, however old. */
  ghost predicate TrackedAnswer(w: Vol, i: nat, x: nat, found: bool)
    requires i < |w.layers| && x < |w.location|
  {
    if i == Head(w.layers) then
      if found then x in w.layers[i] else x in w.layers[i] ==> w.location[x] == i
    else
      if found then Alive(w, i, x) || Replaced(w, i, x) else x !in w.layers[i]
  }

  ghost predicate TrackedAnswers(w: Vol, i: nat, from: nat, asked: set<nat>)
    requires i < |w.layers|
  {
    forall x: nat :: from <= x < |w.location| ==> TrackedAnswer(w, i, x, x in asked)
  }

  lemma NewTrackedAnswers(w: Vol, sc: Scan, kept: set<(nat, nat)>, i: nat, pos: nat)
    requires 0 < i < |w.layers| && Tracks(w, sc, kept, i, pos)
    ensures TrackedAnswers(w, i, pos, w.layers[i].Keys)
  {
    forall x: nat | pos <= x < |w.location|
      ensures TrackedAnswer(w, i, x, x in w.layers[i].Keys)
    {
      assert CellTracked(w, sc, kept, i, pos, i, x);
    }
  }

  lemma RelyKeepsTrackedAnswers(v: Vol, w: Vol, views: set<nat>, i: nat, from: nat, asked: set<nat>)
    requires 0 < i < |v.layers| && Rely(v, w, views) && CellsRely(v, w)
    requires TrackedAnswers(v, i, from, asked)
    ensures TrackedAnswers(w, i, from, asked)
  {
    forall x: nat | from <= x < |w.location|
      ensures TrackedAnswer(w, i, x, x in asked)
    {
      assert TrackedAnswer(v, i, x, x in asked) && CellRely(v, w, i, x);
    }
  }

  /** Concurrent activity does not disturb the count. */
  lemma RelyKeepsTracks(v: Vol, w: Vol, sc: Scan, kept: set<(nat, nat)>, userCreated: seq<bool>, i: nat, pos: nat)
    requires ScanInv(v, sc, userCreated, i, pos) && Tracks(v, sc, kept, i, pos)
    requires Rely(v, w, Protected(userCreated)) && CellsRely(v, w)
    ensures Tracks(w, sc, kept, i, pos)
  {
    forall k: nat, x: nat | 0 < k < |w.layers|
      ensures CellTracked(w, sc, kept, i, pos, k, x)
    {
      assert CellTracked(v, sc, kept, i, pos, k, x) && CellRely(v, w, k, x);
      if x < |v.location| {
        assert Knows(v, sc.location, i, pos, x);
      }
    }
  }

  /** The run is sent: its copies are no longer counted and no longer alive. */
  lemma FlushTracks(w: Vol, sc: Scan, kept: set<(nat, nat)>, i: nat, pos: nat, userIndx: nat)
    requires Tracks(w, sc, kept, i, pos) && userIndx <= w.snapIndx
    requires sc.run.Run? ==> sc.run.layer < i < |w.layers|
    ensures Tracks(w.(holes := w.holes + Emits(sc.run, userIndx, w.punching)), EndFile(sc, userIndx, w.punching),
                   KeptAfterFlush(kept, sc.run, userIndx, w.punching), i, pos)
  {
    var more := Emits(sc.run, userIndx, w.punching);
    var z := w.(holes := w.holes + more);
    forall k: nat, x: nat | 0 < k < |w.layers|
      ensures CellTracked(z, EndFile(sc, userIndx, w.punching), KeptAfterFlush(kept, sc.run, userIndx, w.punching), i, pos, k, x)
    {
      assert CellTracked(w, sc, kept, i, pos, k, x);
      PunchedByBoth(w.holes, more, k, x);
      EmitsPunched(sc.run, userIndx, w.punching, k, x);
    }
  }

  lemma EmitsPunched(run: Run, userIndx: nat, punching: bool, k: nat, x: nat)
    ensures PunchedBy(Emits(run, userIndx, punching), k, x) <==> Sends(run, userIndx, punching) && InRun(run, k, x)
  {
    if Sends(run, userIndx, punching) {
      assert Emits(run, userIndx, punching)[0] == Hole(run.layer, run.first, run.count);
    }
  }

  /** One more copy is found; the one it shadows joins the run. */
  lemma GrowTracks(w: Vol, sc: Scan, sc': Scan, kept: set<(nat, nat)>, i: nat, x: nat)
    requires Tracks(w, sc, kept, i, x) && 0 < i < |w.layers| && x < |w.location| && sc.location[x] < i
    requires TrackedAnswer(w, i, x, true)
    requires sc'.location == sc.location[x := i]
    requires forall k: nat, y: nat :: InRun(sc.run, k, y) ==> InRun(sc'.run, k, y)
    requires sc.location[x] != 0 ==> InRun(sc'.run, sc.location[x], x)
    ensures Tracks(w, sc', kept + {(i, x)}, i, x + 1)
  {
    var found, next := kept + {(i, x)}, x + 1;
    forall k: nat, y: nat | 0 < k < |w.layers|
      ensures CellTracked(w, sc', found, i, next, k, y)
    {
      assert CellTracked(w, sc, kept, i, x, k, y);
    }
  }

  lemma FoundTracks(w: Vol, sc: Scan, kept: set<(nat, nat)>, i: nat, x: nat, userIndx: nat)
    requires Tracks(w, sc, kept, i, x) && 0 < i < |w.layers| && x < |w.location| && sc.location[x] < i
    requires TrackedAnswer(w, i, x, true) && userIndx <= w.snapIndx
    requires sc.run.Run? ==> sc.run.layer < i
    ensures Tracks(w.(holes := w.holes + EmittedAt(sc, x, userIndx, w.punching)), ScanSector(sc, i, x, userIndx, w.punching),
                   KeptAt(kept, sc, i, x, userIndx, w.punching), i, x + 1)
  {
    var sc' := ScanSector(sc, i, x, userIndx, w.punching);
    if sc.location[x] != 0 && Breaks(sc.location[x], x, sc.run) {
      var more := Emits(sc.run, userIndx, w.punching);
      FlushTracks(w, sc, kept, i, x, userIndx);
      PunchedByBoth(w.holes, more, i, x);
      EmitsPunched(sc.run, userIndx, w.punching, i, x);
      GrowTracks(w.(holes := w.holes + more), EndFile(sc, userIndx, w.punching), sc',
                 KeptAfterFlush(kept, sc.run, userIndx, w.punching), i, x);
    } else {
      assert w.(holes := w.holes + []) == w;
      GrowTracks(w, sc, sc', kept, i, x);
    }
  }

  lemma SkipTracks(w: Vol, sc: Scan, kept: set<(nat, nat)>, i: nat, x: nat)
    requires Tracks(w, sc, kept, i, x) && 0 < i < |w.layers| && x < |w.location|
    requires TrackedAnswer(w, i, x, false)
    ensures Tracks(w, sc, kept, i, x + 1)
  {
    var next := x + 1;
    forall k: nat, y: nat | 0 < k < |w.layers|
      ensures CellTracked(w, sc, kept, i, next, k, y)
    {
      assert CellTracked(w, sc, kept, i, x, k, y);
    }
  }

  lemma NextTracks(w: Vol, sc: Scan, kept: set<(nat, nat)>, i: nat)
    requires Tracks(w, sc, kept, i, |w.location|)
    ensures Tracks(w, sc, kept, i + 1, 0)
  {
    var next := i + 1;
    forall k: nat, y: nat | 0 < k < |w.layers|
      ensures CellTracked(w, sc, kept, next, 0, k, y)
    {
      assert CellTracked(w, sc, kept, i, |w.location|, k, y);
    }
  }

  /** The count is exact, if it could be when the scan began. */
  ghost predicate Tracking(exact: bool, w: Vol, sc: Scan, kept: set<(nat, nat)>, userCreated: seq<bool>, i: nat, pos: nat) {
    exact ==> |userCreated| > 0 && !userCreated[|userCreated| - 1] && Tracks(w, sc, kept, i, pos)
  }

  lemma UsersBelowLatest(userCreated: seq<bool>)
    requires |userCreated| >= 2
    ensures forall u :: u in Protected(userCreated) ==> 0 < u < |userCreated|
    ensures forall u :: u in Protected(userCreated) && u != |userCreated| - 1 ==> u <= LatestUser(userCreated, |userCreated| - 1)
  {
    forall u | u in Protected(userCreated) && u != |userCreated| - 1
      ensures u <= LatestUser(userCreated, |userCreated| - 1)
    {
      assert IsUser(userCreated, u);
    }
  }

  lemma UserBelow(v: Vol, userCreated: seq<bool>, i: nat)
    requires |v.layers| == |userCreated| > 0 && Inv(v, Protected(userCreated))
    requires !userCreated[|userCreated| - 1] && i < |userCreated|
    ensures LatestUser(userCreated, i) <= v.snapIndx
  {
    var u := LatestUser(userCreated, i);
    if u > 0 {
      assert IsUser(userCreated, u);
      assert u in Protected(userCreated);
    }
  }

  /** After whatever happened meanwhile, the count and the answers at hand are still right. */
  lemma RelyKeepsTracking(exact: bool, v: Vol, w: Vol, sc: Scan, kept: set<(nat, nat)>, userCreated: seq<bool>,
                          i: nat, x: nat, asked: set<nat>)
    requires ScanInv(v, sc, userCreated, i, x) && Tracking(exact, v, sc, kept, userCreated, i, x)
    requires exact ==> TrackedAnswers(v, i, x, asked)
    requires Rely(v, w, Protected(userCreated)) && CellsRely(v, w)
    ensures Tracking(exact, w, sc, kept, userCreated, i, x)
    ensures exact ==> TrackedAnswers(w, i, x, asked)
  {
    if exact {
      RelyKeepsTracks(v, w, sc, kept, userCreated, i, x);
      RelyKeepsTrackedAnswers(v, w, Protected(userCreated), i, x, asked);
    }
  }

  lemma FoundTracking(exact: bool, w: Vol, sc: Scan, kept: set<(nat, nat)>, userCreated: seq<bool>, i: nat, x: nat, asked: set<nat>)
    requires ScanInv(w, sc, userCreated, i, x) && Tracking(exact, w, sc, kept, userCreated, i, x)
    requires x < |w.location| && x in asked && (exact ==> TrackedAnswers(w, i, x, asked))
    ensures var userIndx := LatestUser(userCreated, i);
            var z := w.(holes := w.holes + EmittedAt(sc, x, userIndx, w.punching));
            && Tracking(exact, z, ScanSector(sc, i, x, userIndx, w.punching),
                        KeptAt(kept, sc, i, x, userIndx, w.punching), userCreated, i, x + 1)
            && (exact ==> TrackedAnswers(z, i, x + 1, asked))
  {
    if exact {
      var userIndx := LatestUser(userCreated, i);
      var more := EmittedAt(sc, x, userIndx, w.punching);
      UserBelow(w, userCreated, i);
      assert Knows(w, sc.location, i, x, x);
      assert TrackedAnswer(w, i, x, x in asked);
      FoundTracks(w, sc, kept, i, x, userIndx);
      MoreHolesTracked(w, w.(holes := w.holes + more), sc, i, x, userIndx, asked);
    }
  }

  /** Holes that the scan sends name other files than the one it is in. */
  lemma MoreHolesTracked(w: Vol, z: Vol, sc: Scan, i: nat, x: nat, userIndx: nat, asked: set<nat>)
    requires 0 < i < |w.layers| && x < |w.location| == |sc.location| && TrackedAnswers(w, i, x, asked)
    requires sc.run.Run? ==> sc.run.layer < i
    requires z == w.(holes := w.holes + EmittedAt(sc, x, userIndx, w.punching))
    ensures TrackedAnswers(z, i, x + 1, asked)
  {
    forall y: nat | x + 1 <= y < |z.location|
      ensures TrackedAnswer(z, i, y, y in asked)
    {
      assert TrackedAnswer(w, i, y, y in asked);
      PunchedByBoth(w.holes, EmittedAt(sc, x, userIndx, w.punching), i, y);
      EmitsPunched(sc.run, userIndx, w.punching, i, y);
    }
  }

  lemma SkipTracking(exact: bool, w: Vol, sc: Scan, kept: set<(nat, nat)>, userCreated: seq<bool>, i: nat, x: nat, asked: set<nat>)
    requires ScanInv(w, sc, userCreated, i, x) && Tracking(exact, w, sc, kept, userCreated, i, x)
    requires x < |w.location| && x !in asked && (exact ==> TrackedAnswers(w, i, x, asked))
    ensures Tracking(exact, w, sc, kept, userCreated, i, x + 1)
    ensures exact ==> TrackedAnswers(w, i, x + 1, asked)
  {
    if exact {
      assert TrackedAnswer(w, i, x, x in asked);
      SkipTracks(w, sc, kept, i, x);
    }
  }

  lemma EndTracking(exact: bool, w: Vol, sc: Scan, kept: set<(nat, nat)>, userCreated: seq<bool>, i: nat)
    requires ScanInv(w, sc, userCreated, i, |w.location|) && Tracking(exact, w, sc, kept, userCreated, i, |w.location|)
    ensures var userIndx := LatestUser(userCreated, i);
            Tracking(exact, w.(holes := w.holes + Emits(sc.run, userIndx, w.punching)), EndFile(sc, userIndx, w.punching),
                     KeptAfterFlush(kept, sc.run, userIndx, w.punching), userCreated, i, |w.location|)
  {
    if exact {
      UserBelow(w, userCreated, i);
      FlushTracks(w, sc, kept, i, |w.location|, LatestUser(userCreated, i));
    }
  }

  lemma StartTracking(v: Vol, sc: Scan, userCreated: seq<bool>)
    requires Countable(v, userCreated) && |sc.location| == |v.location|
    ensures Tracking(true, v, sc, {}, userCreated, 1, 0)
  {
    forall k: nat, x: nat | 0 < k < |v.layers|
      ensures CellTracked(v, sc, {}, 1, 0, k, x)
    {
    }
  }

  /** The scanned map names the topmost file of a sector, or a lower one if the live cache knows of a later write. */
  ghost predicate UpToWrites(v: Vol, scanned: seq<nat>) {
    && |v.layers| > 0 && |scanned| == |v.location|
    && forall x: nat :: x < |scanned| ==>
         || scanned[x] == Top(v.layers, x, Head(v.layers))
         || (scanned[x] < Top(v.layers, x, Head(v.layers)) == v.location[x] == Head(v.layers))
  }

  /** A scan that started in state v has left all files below i behind. */
  ghost predicate Reached(idle: bool, exact: bool, v: Vol, w: Vol, sc: Scan, kept: set<(nat, nat)>, sent: seq<Hole>,
                          userCreated: seq<bool>, i: nat)
  {
    && |w.layers| == |v.layers| == |userCreated| && |w.location| == |v.location| == |sc.location| && sc.run == NoRun
    && 0 < i <= |userCreated|
    && if i < |userCreated| then
         && ScanInv(w, sc, userCreated, i, 0)
         && Counted(idle, v, w, sc, kept, sent, i, 0)
         && Tracking(exact, w, sc, kept, userCreated, i, 0)
       else
         && (forall x: nat :: x < |w.location| ==> Knows(w, sc.location, Head(w.layers), |w.location|, x))
         && Counted(idle, v, w, sc, kept, sent, i - 1, |w.location|)
         && Tracking(exact, w, sc, kept, userCreated, i - 1, |w.location|)
  }

  lemma StartReached(idle: bool, exact: bool, v: Vol, sc: Scan, userCreated: seq<bool>)
    requires |v.layers| == |userCreated| && |userCreated| >= 2 && LunInv(v, Protected(userCreated))
    requires exact ==> Countable(v, userCreated)
    requires sc == Scan(seq(|v.location|, _ => 0), NoRun, 0, 0)
    ensures Reached(idle, exact, v, v, sc, {}, [], userCreated, 1)
  {
    assert Located(sc.location) == {};
    StartScan(v, sc, userCreated);
    assert v.(holes := v.holes + []) == v;
    if exact {
      StartTracking(v, sc, userCreated);
    }
  }

  lemma NextReached(idle: bool, exact: bool, v: Vol, w: Vol, sc: Scan, kept: set<(nat, nat)>, sent: seq<Hole>,
                    userCreated: seq<bool>, i: nat)
    requires |w.layers| == |v.layers| == |userCreated| && |w.location| == |v.location| == |sc.location| && sc.run == NoRun
    requires 0 < i < |userCreated|
    requires forall x: nat :: x < |w.location| ==> Knows(w, sc.location, i, |w.location|, x)
    requires i + 1 < |userCreated| ==> ScanInv(w, sc, userCreated, i + 1, 0)
    requires Counted(idle, v, w, sc, kept, sent, i, |w.location|)
    requires Tracking(exact, w, sc, kept, userCreated, i, |w.location|)
    ensures Reached(idle, exact, v, w, sc, kept, sent, userCreated, i + 1)
  {
    NextCounted(idle, v, w, sc, kept, sent, i);
    if exact {
      NextTracks(w, sc, kept, i);
    }
  }

  lemma EndReached(idle: bool, exact: bool, v: Vol, w: Vol, sc: Scan, kept: set<(nat, nat)>, sent: seq<Hole>, userCreated: seq<bool>)
    requires |userCreated| >= 2 && Reached(idle, exact, v, w, sc, kept, sent, userCreated, |userCreated|)
    ensures UpToWrites(w, sc.location)
    ensures idle && InRange(w.layers, |w.location|) ==>
              SentBelowHead(sent, w.layers) && sc.usedBlocks == |AllocatedCells(PunchAll(w.layers, sent))|
  {
    forall x: nat | x < |w.location|
      ensures sc.location[x] == Top(w.layers, x, Head(w.layers))
              || (sc.location[x] < Top(w.layers, x, Head(w.layers)) == w.location[x] == Head(w.layers))
    {
      assert Knows(w, sc.location, Head(w.layers), |w.location|, x);
    }
    if idle && InRange(w.layers, |w.location|) {
      KeptAfterAll(w.layers, |w.location|, kept, sent);
    }
  }

  /** Where an exact count can start: all holes still queued are those of writes since the reload. */
  ghost predicate Countable(v: Vol, userCreated: seq<bool>) {
    && |userCreated| == |v.layers| > 1 && !userCreated[|userCreated| - 1]
    && InRange(v.layers, |v.location|)
    && forall k: nat, x: nat :: 0 < k < Head(v.layers) && PunchedBy(v.holes, k, x) && x in v.layers[k] ==> Replaced(v, k, x)
  }

  /** The replica server, as far as building the location cache goes. */
  class Server {
    var layers: seq<Layer>
    var location: seq<nat>
    var holes: seq<Hole>
    var snapIndx: nat
    var punching: bool
    var usedLogicalBlocks: int
    var usedBlocks: int
    /** Which layers are user-created snapshots, as read from the metadata when the chain was opened. */
    const userCreated: seq<bool>

    ghost function State(): Vol
      reads this
    {
      Vol(layers, location, holes, snapIndx, punching)
    }

    ghost predicate Valid()
      reads this
    {
      |layers| == |userCreated| && |userCreated| >= 2 && LunInv(State(), Protected(userCreated))
    }

    /** A replica that has been reloaded: its files are there, the cache and the hole queue are empty. */
    constructor (files: seq<Layer>, marks: seq<bool>, sectors: nat, punching: bool)
      requires |files| == |marks| >= 2
      ensures Valid() && layers == files && userCreated == marks && location == seq(sectors, _ => 0) && holes == []
      ensures this.punching == punching && snapIndx == LatestUser(marks, |marks| - 1)
      ensures !marks[|marks| - 1] && InRange(files, sectors) ==> Countable(State(), marks)
    {
      layers, userCreated, location, holes := files, marks, seq(sectors, _ => 0), [];
      snapIndx, this.punching := LatestUser(marks, |marks| - 1), punching;
      usedLogicalBlocks, usedBlocks := 0, 0;
      new;
      UsersBelowLatest(marks);
    }

    method ExecuteHole()
      requires Valid() && holes != []
      modifies this`layers, this`holes
      ensures Rely(old(State()), State(), Protected(userCreated)) && CellsRely(old(State()), State())
    {
      PunchRely(State(), Protected(userCreated));
      PunchCells(State(), Protected(userCreated));
      ghost var v := State();
      layers := Punch(layers, holes[0]);
      holes := holes[1..];
      assert State() == PunchNext(v);
    }

    method WriteSector(s: nat, b: Block, lookup: bool)
      requires Valid() && s < |location|
      modifies this`layers, this`location, this`holes
      ensures Rely(old(State()), State(), Protected(userCreated)) && CellsRely(old(State()), State())
    {
      WriteOneRely(State(), s, b, lookup, Protected(userCreated));
      WriteOneCells(State(), s, b, lookup, Protected(userCreated));
      ghost var v := State();
      var w := FullWrite(Vol(layers, if lookup then location[s := Target(layers, s)] else location,
                             holes, snapIndx, punching), s, [b]);
      layers, location, holes := w.layers, w.location, w.holes;
      assert State() == WriteOne(v, s, b, lookup);
    }

    /** Any number of head writes and hole executions, in any order; nothing if the volume is idle. */
    method Interfere(idle: bool)
      requires Valid()
      modifies this`layers, this`location, this`holes
      ensures Valid() && Rely(old(State()), State(), Protected(userCreated)) && CellsRely(old(State()), State())
      ensures idle ==> State() == old(State())
    {
      ghost var v := State();
      var steps: nat := *;
      if idle {
        steps := 0;
      }
      while steps > 0
        invariant Valid() && Rely(v, State(), Protected(userCreated)) && CellsRely(v, State())
        invariant idle ==> steps == 0 && State() == v
      {
        ghost var w := State();
        var s: nat, b: Block, lookup: bool, write: bool := *, *, *, *;
        if write && s < |location| {
          WriteSector(s, b, lookup);
        } else if holes != [] {
          ExecuteHole();
        }
        RelyTransitive(v, w, State(), Protected(userCreated));
        CellsRelyTransitive(v, w, State(), Protected(userCreated));
        steps := steps - 1;
      }
    }

    /** The next file of the scan that started in state v. */
    method ScanNext(idle: bool, ghost exact: bool, i: nat, sc: Scan,
                    ghost v: Vol, ghost kept: set<(nat, nat)>, ghost sent: seq<Hole>)
      returns (sc': Scan, ghost kept': set<(nat, nat)>, ghost sent': seq<Hole>)
      requires Valid() && i < |userCreated| && LunInv(v, Protected(userCreated)) && Rely(v, State(), Protected(userCreated))
      requires Reached(idle, exact, v, State(), sc, kept, sent, userCreated, i)
      modifies this`layers, this`location, this`holes
      ensures Valid() && Rely(v, State(), Protected(userCreated))
      ensures Reached(idle, exact, v, State(), sc', kept', sent', userCreated, i + 1)
    {
      ghost var w := State();
      sc', kept', sent' := ScanFile(idle, exact, i, sc, v, kept, sent);
      RelyTransitive(v, w, State(), Protected(userCreated));
      NextReached(idle, exact, v, State(), sc', kept', sent', userCreated, i);
    }

    /** The scan of one file, with what is sent at its end. */
    method ScanFile(idle: bool, ghost exact: bool, i: nat, sc: Scan,
                    ghost v: Vol, ghost kept: set<(nat, nat)>, ghost sent: seq<Hole>)
      returns (sc': Scan, ghost kept': set<(nat, nat)>, ghost sent': seq<Hole>)
      requires Valid() && ScanInv(State(), sc, userCreated, i, 0)
      requires |v.location| == |location| && |v.layers| == |layers|
      requires Counted(idle, v, State(), sc, kept, sent, i, 0) && Tracking(exact, State(), sc, kept, userCreated, i, 0)
      modifies this`layers, this`location, this`holes
      ensures Valid() && |layers| == old(|layers|) && |location| == old(|location|) == |sc'.location|
      ensures forall x: nat :: x < |location| ==> Knows(State(), sc'.location, i, |location|, x)
      ensures i + 1 < |userCreated| ==> ScanInv(State(), sc', userCreated, i + 1, 0)
      ensures Counted(idle, v, State(), sc', kept', sent', i, |location|) && sc'.run == NoRun
      ensures Tracking(exact, State(), sc', kept', userCreated, i, |location|)
      ensures Rely(old(State()), State(), Protected(userCreated))
    {
      var userIndx := LatestUser(userCreated, i);
      sc', kept', sent' := ScanSectors(idle, exact, i, sc, userIndx, v, kept, sent);
      ghost var w := State();
      EndFileKeepsScan(w, sc', userCreated, i);
      EndCounted(idle, v, w, sc', kept', sent', i, userIndx, punching);
      EndTracking(exact, w, sc', kept', userCreated, i);
      var more := Emits(sc'.run, userIndx, punching);
      holes := holes + more;
      sent', kept' := sent' + more, KeptAfterFlush(kept', sc'.run, userIndx, punching);
      sc' := EndFile(sc', userIndx, punching);
      assert State() == w.(holes := w.holes + more);
      MoreHolesRely(old(State()), w, State(), Protected(userCreated));
    }

    /**
      Sector by sector, with anything going on in between.  The file system is asked
      at the start and again at any time; its latest answer is used.
    */
    method ScanSectors(idle: bool, ghost exact: bool, i: nat, sc: Scan, userIndx: nat,
                       ghost v: Vol, ghost kept: set<(nat, nat)>, ghost sent: seq<Hole>)
      returns (sc': Scan, ghost kept': set<(nat, nat)>, ghost sent': seq<Hole>)
      requires Valid() && ScanInv(State(), sc, userCreated, i, 0) && userIndx == LatestUser(userCreated, i)
      requires |v.location| == |location| && |v.layers| == |layers|
      requires Counted(idle, v, State(), sc, kept, sent, i, 0) && Tracking(exact, State(), sc, kept, userCreated, i, 0)
      modifies this`layers, this`location, this`holes
      ensures Valid() && |layers| == old(|layers|) && |location| == old(|location|)
      ensures ScanInv(State(), sc', userCreated, i, |location|)
      ensures Counted(idle, v, State(), sc', kept', sent', i, |location|)
      ensures Tracking(exact, State(), sc', kept', userCreated, i, |location|)
      ensures Rely(old(State()), State(), Protected(userCreated))
    {
      sc', kept', sent' := sc, kept, sent;
      var x := 0;
      var asked := Ask(idle, exact, i, x, sc, v, kept, sent);
      while x < |location|
        invariant 0 <= x <= |location| == |v.location| && Valid()
        invariant Underway(idle, exact, v, State(), sc', kept', sent', userCreated, i, x, asked)
        invariant Rely(old(State()), State(), Protected(userCreated))
      {
        if * {
          asked := Ask(idle, exact, i, x, sc', v, kept', sent');
        }
        sc', kept', sent' := ProbeSector(idle, exact, i, x, asked, sc', userIndx, v, kept', sent', old(State()));
        x := x + 1;
      }
    }

    /** What file i has allocated now. */
    method Ask(idle: bool, ghost exact: bool, i: nat, x: nat, ghost sc: Scan, ghost v: Vol,
               ghost kept: set<(nat, nat)>, ghost sent: seq<Hole>) returns (asked: set<nat>)
      requires |layers| == |v.layers| && |location| == |v.location|
      requires ScanInv(State(), sc, userCreated, i, x) && Counted(idle, v, State(), sc, kept, sent, i, x)
      requires Tracking(exact, State(), sc, kept, userCreated, i, x)
      ensures Underway(idle, exact, v, State(), sc, kept, sent, userCreated, i, x, asked)
    {
      NewAnswers(State(), Protected(userCreated), i, x);
      if exact {
        NewTrackedAnswers(State(), sc, kept, i, x);
      }
      asked := layers[i].Keys;
    }

    /** One sector of file i, after whatever happened since the last one. */
    method ProbeSector(idle: bool, ghost exact: bool, i: nat, x: nat, asked: set<nat>, sc: Scan, userIndx: nat,
                       ghost v: Vol, ghost kept: set<(nat, nat)>, ghost sent: seq<Hole>, ghost start: Vol)
      returns (sc': Scan, ghost kept': set<(nat, nat)>, ghost sent': seq<Hole>)
      requires Valid() && Underway(idle, exact, v, State(), sc, kept, sent, userCreated, i, x, asked)
      requires x < |location| && userIndx == LatestUser(userCreated, i)
      requires LunInv(start, Protected(userCreated)) && Rely(start, State(), Protected(userCreated))
      modifies this`layers, this`location, this`holes
      ensures Valid() && |location| == old(|location|)
      ensures Underway(idle, exact, v, State(), sc', kept', sent', userCreated, i, x + 1, asked)
      ensures Rely(start, State(), Protected(userCreated))
    {
      Interfere(idle);
      RelyTransitive(start, old(State()), State(), Protected(userCreated));
      RelyKeepsScan(old(State()), State(), sc, userCreated, i, x);
      RelyKeepsAnswers(old(State()), State(), Protected(userCreated), i, x, asked);
      RelyKeepsTracking(exact, old(State()), State(), sc, kept, userCreated, i, x, asked);
      ghost var w := State();
      sc', kept', sent' := sc, kept, sent;
      assert Answer(w, Protected(userCreated), i, x, x in asked);
      if x in asked {
        assert Knows(w, sc.location, i, x, x);
        ProbeKeepsScan(w, sc, userCreated, i, x);
        FoundCounted(idle, v, w, sc, kept, sent, i, x, userIndx, punching);
        FoundTracking(exact, w, sc, kept, userCreated, i, x, asked);
        var more := EmittedAt(sc, x, userIndx, punching);
        holes := holes + more;
        sent', kept' := sent + more, KeptAt(kept, sc, i, x, userIndx, punching);
        sc' := ScanSector(sc, i, x, userIndx, punching);
        assert State() == w.(holes := w.holes + more);
        MoreHolesRely(start, w, State(), Protected(userCreated));
        MoreHolesAnswers(w, State(), Protected(userCreated), i, x, asked);
      } else {
        SkipKeepsScan(w, sc, userCreated, i, x);
        SkipCounted(idle, v, w, sc, kept, sent, i, x);
        SkipTracking(exact, w, sc, kept, userCreated, i, x, asked);
      }
    }

    /**
      Scans all files, base first.  The scanned map is exact but for sectors that
      were written meanwhile, which the live cache knows.  On an idle volume the
      counters are exact: usedLogical counts the sectors allocated anywhere,
      usedBlocks the pairs that are left once the holes sent have been executed.
    */
    method Preload(idle: bool, ghost exact: bool) returns (sc: Scan, ghost kept: set<(nat, nat)>)
      requires Valid() && (exact ==> Countable(State(), userCreated))
      modifies this`layers, this`location, this`holes
      ensures Valid() && |layers| == old(|layers|) && |location| == old(|location|) == |sc.location|
      ensures UpToWrites(State(), sc.location)
      ensures Rely(old(State()), State(), Protected(userCreated))
      ensures sc.usedLogical == |Located(sc.location)|
      ensures sc.run == NoRun && Accounted(sc, kept, Head(layers), |location|)
      ensures Tracking(exact, State(), sc, kept, userCreated, Head(layers), |location|)
      ensures idle ==> layers == old(layers) && location == old(location)
      ensures idle && InRange(layers, |location|) ==>
                exists sent :: SentBelowHead(sent, layers) && holes == old(holes) + sent
                               && sc.usedBlocks == |AllocatedCells(PunchAll(layers, sent))|
    {
      ghost var v, sent := State(), [];
      kept := {};
      sc := Scan(seq(|location|, _ => 0), NoRun, 0, 0);
      StartReached(idle, exact, v, sc, userCreated);
      var i := 1;
      while i < |userCreated|
        invariant 1 <= i <= |userCreated| && Valid()
        invariant Rely(v, State(), Protected(userCreated))
        invariant Reached(idle, exact, v, State(), sc, kept, sent, userCreated, i)
      {
        sc, kept, sent := ScanNext(idle, exact, i, sc, v, kept, sent);
        i := i + 1;
      }
      EndReached(idle, exact, v, State(), sc, kept, sent, userCreated);
    }

    /** Any number of queued holes is executed; the lock does not keep the hole creator out. */
    method ExecuteSome(ghost begin: Vol, ghost scanned: seq<nat>, ghost m: Merge, ghost x: nat)
      requires Merging(State(), begin, scanned, m, userCreated, x)
      modifies this`layers, this`holes
      ensures Merging(State(), begin, scanned, m, userCreated, x)
    {
      var steps: nat := *;
      while steps > 0 && holes != []
        invariant Merging(State(), begin, scanned, m, userCreated, x)
      {
        PunchKeepsMerging(State(), begin, scanned, m, userCreated, x);
        ghost var v := State();
        layers := Punch(layers, holes[0]);
        holes := holes[1..];
        assert State() == PunchNext(v);
        steps := steps - 1;
      }
    }

    /** Merges one sector: the larger of the two entries stays, the smaller is sent as part of a run. */
    method MergeOne(scanned: seq<nat>, m: Merge, x: nat, userIndx: nat, ghost was: seq<nat>) returns (m': Merge)
      requires MergeInv(State(), was, scanned, m, userCreated, x) && x < |was|
      requires userIndx == LatestUser(userCreated, |userCreated| - 1)
      modifies this`location, this`holes
      ensures MergeInv(State(), was, scanned, m', userCreated, x + 1)
      ensures m' == MergeSector(m, scanned[x], was[x], x, userIndx, punching) && old(location)[x] == was[x]
      ensures holes == old(holes) + MergeEmits(m, scanned[x], was[x], x, userIndx, punching)
    {
      ghost var v := State();
      MergeKeeps(v, was, scanned, m, userCreated, x);
      var live := location[x];
      var more := MergeEmits(m, scanned[x], live, x, userIndx, punching);
      m' := MergeSector(m, scanned[x], live, x, userIndx, punching);
      holes := holes + more;
      if scanned[x] != 0 && live <= scanned[x] {
        location := location[x := scanned[x]];
      }
      assert location == v.location[x := Max(was[x], scanned[x])];
      assert State() == v.(holes := v.holes + more, location := v.location[x := Max(was[x], scanned[x])]);
    }

    /** The merge, under the lock: no more writes, but holes go on being executed. */
    method MergeMap(sc: Scan, ghost exact: bool, ghost kept: set<(nat, nat)>)
      requires Valid()
      requires exact ==> Scanned(State(), sc, kept, LatestUser(userCreated, |userCreated| - 1), Protected(userCreated))
      requires UpToWrites(State(), sc.location) && sc.usedLogical == |Located(sc.location)|
      modifies this
      ensures |location| == old(|location|) && |layers| == |userCreated|
      ensures Merged(State(), userCreated)
      ensures SameViews(old(layers), layers, Protected(userCreated))
      ensures usedLogicalBlocks == |Located(location)|
      ensures usedBlocks == UsedAfterMerge(sc, old(location), LatestUser(userCreated, |userCreated| - 1), punching, |layers|)
      ensures SentBelowHead(holes, layers)
      ensures exact ==> usedBlocks == |AllocatedCells(PunchAll(layers, holes))| + |layers| - 1 + 2
    {
      var userIndx := LatestUser(userCreated, |userCreated| - 1);
      ghost var begin := State();
      StartMerge(begin, sc.location, userCreated);
      var m := MergeSectors(sc.location, userIndx);
      FinishMap(sc, m, userIndx, begin, exact, kept);
    }

    /** The last run is sent and the counters are set. */
    method FinishMap(sc: Scan, m: Merge, userIndx: nat, ghost begin: Vol, ghost exact: bool, ghost kept: set<(nat, nat)>)
      requires |userCreated| > 0 && userIndx == LatestUser(userCreated, |userCreated| - 1)
      requires |sc.location| == |begin.location| && sc.usedLogical == |Located(sc.location)|
      requires Merging(State(), begin, sc.location, m, userCreated, |begin.location|)
      requires exact ==> Scanned(begin, sc, kept, userIndx, Protected(userCreated))
      modifies this`holes, this`usedLogicalBlocks, this`usedBlocks
      ensures Merged(State(), userCreated) && SentBelowHead(holes, layers)
      ensures usedLogicalBlocks == |Located(location)|
      ensures usedBlocks == UsedAfterMerge(sc, begin.location, userIndx, punching, |layers|)
      ensures exact ==> usedBlocks == |AllocatedCells(PunchAll(layers, holes))| + |layers| - 1 + 2
    {
      ghost var w := State();
      holes := holes + Emits(m.run, userIndx, punching);
      assert State() == w.(holes := w.holes + Emits(m.run, userIndx, w.punching));
      Finished(begin, w, State(), sc, kept, exact, m, userCreated);
      usedLogicalBlocks := sc.usedLogical + m.extraLogical;
      usedBlocks := sc.usedBlocks + m.extraUsed - Flushed(m.run, userIndx, punching) + |layers| - 1 + 2;
    }

    /** The loop of the merge: sector by sector, with holes executed in between. */
    method MergeSectors(scanned: seq<nat>, userIndx: nat) returns (m: Merge)
      requires |userCreated| > 0 && userIndx == LatestUser(userCreated, |userCreated| - 1) && |scanned| == |location|
      requires MergeInv(State(), location, scanned, Merge(NoRun, 0, 0), userCreated, 0)
      modifies this`layers, this`location, this`holes
      ensures Merging(State(), old(State()), scanned, m, userCreated, |scanned|)
    {
      ghost var begin := State();
      m := Merge(NoRun, 0, 0);
      var x := 0;
      while x < |scanned|
        invariant 0 <= x <= |scanned|
        invariant Merging(State(), begin, scanned, m, userCreated, x)
      {
        m := MergeNext(scanned, m, x, userIndx, begin);
        x := x + 1;
      }
    }

    /** Some holes, and then one sector. */
    method MergeNext(scanned: seq<nat>, m: Merge, x: nat, userIndx: nat, ghost begin: Vol) returns (m': Merge)
      requires Merging(State(), begin, scanned, m, userCreated, x) && x < |scanned|
      requires userIndx == LatestUser(userCreated, |userCreated| - 1)
      modifies this`layers, this`location, this`holes
      ensures Merging(State(), begin, scanned, m', userCreated, x + 1)
    {
      ExecuteSome(begin, scanned, m, x);
      ghost var v := State();
      m' := MergeOne(scanned, m, x, userIndx, begin.location);
      SendAliveSince(begin, v, State(), MergeSent(begin.location, scanned, userIndx, punching, x),
                     MergeEmits(m, scanned[x], begin.location[x], x, userIndx, punching));
    }

    /**
      Rebuilds the location cache of a replica that is taking writes: a scan
      without the lock, then the merge under it.  The cache ends up naming the
      topmost allocated layer of every sector, 0 if there is none; every queued
      hole spares the live view and all user-created snapshots; no
      user-created snapshot changes, and the live view changes only in sectors
      that are in the head at the end.
    */
    method UpdateLunMap() returns (ghost sc: Scan, ghost was: seq<nat>)
      requires Valid()
      modifies this
      ensures |layers| == old(|layers|) && |location| == old(|location|)
      ensures Merged(State(), userCreated)
      ensures forall u, x: nat :: u in Protected(userCreated) && x < |location| ==>
                || View(layers, x, u) == old(View(layers, x, u))
                || (u == Head(layers) == location[x])
      ensures usedLogicalBlocks == |Located(location)|
      ensures |was| == |sc.location| == |location|
      ensures usedBlocks == UsedAfterMerge(sc, was, LatestUser(userCreated, |userCreated| - 1), punching, |layers|)
      ensures SentBelowHead(holes, layers)
      ensures old(Countable(State(), userCreated)) ==>
                usedBlocks == |AllocatedCells(PunchAll(layers, holes))| + |layers| - 1 + 2
    {
      ghost var exact := Countable(State(), userCreated);
      var scan, kept := Preload(false, exact);
      ghost var w := State();
      sc, was := scan, location;
      if exact {
        UserBelow(w, userCreated, |userCreated| - 1);
      }
      MergeMap(scan, exact, kept);
      forall u, x: nat | u in Protected(userCreated) && x < |location|
        ensures View(layers, x, u) == old(View(layers, x, u)) || (u == Head(layers) == location[x])
      {
        assert Stays(old(State()), w, u, x);
        assert SameAt(w.layers, layers, u, x);
      }
    }
  }

  /** After the merge the cache is exact, not just coherent. */
  ghost predicate Merged(v: Vol, userCreated: seq<bool>) {
    && |userCreated| > 0
    && Inv(v, Protected(userCreated))
    && forall x: nat :: x < |v.location| ==> v.location[x] == Top(v.layers, x, Head(v.layers))
  }

  lemma FinishMerge(v: Vol, was: seq<nat>, scanned: seq<nat>, m: Merge, userCreated: seq<bool>)
    requires MergeInv(v, was, scanned, m, userCreated, |was|)
    ensures Merged(v.(holes := v.holes + Emits(m.run, LatestUser(userCreated, |userCreated| - 1), v.punching)), userCreated)
    ensures |Located(v.location)| == |Located(scanned)| + |OnlyLive(was, scanned, |was|)|
  {
    var userIndx := LatestUser(userCreated, |userCreated| - 1);
    LocatedMax(was, scanned, v.location);
    QueueMore(v, Emits(m.run, userIndx, v.punching), Protected(userCreated), userIndx, m.run, |was|);
  }

  /** Holes may be executed during the merge: nothing it relies on changes. */
  lemma PunchKeepsMerging(v: Vol, begin: Vol, scanned: seq<nat>, m: Merge, userCreated: seq<bool>, x: nat)
    requires Merging(v, begin, scanned, m, userCreated, x) && v.holes != []
    ensures v.holes[0].layer < |v.layers|
    ensures Merging(PunchNext(v), begin, scanned, m, userCreated, x)
  {
    PunchKeepsMerge(v, begin.location, scanned, m, userCreated, x);
    PunchSameViews(begin.layers, v, Protected(userCreated));
    PunchAliveSince(begin, v, MergeSent(begin.location, scanned, LatestUser(userCreated, |userCreated| - 1), v.punching, x));
  }

  /** The end of a merge: cache, queue and counters. */
  lemma Finished(begin: Vol, w: Vol, z: Vol, sc: Scan, kept: set<(nat, nat)>, exact: bool, m: Merge, userCreated: seq<bool>)
    requires |sc.location| == |begin.location| && |userCreated| > 0
    requires Merging(w, begin, sc.location, m, userCreated, |begin.location|)
    requires z == w.(holes := w.holes + Emits(m.run, LatestUser(userCreated, |userCreated| - 1), w.punching))
    requires exact ==> Scanned(begin, sc, kept, LatestUser(userCreated, |userCreated| - 1), Protected(userCreated))
    ensures Merged(z, userCreated) && SentBelowHead(z.holes, z.layers)
    ensures |Located(z.location)| == |Located(sc.location)| + m.extraLogical
    ensures var userIndx := LatestUser(userCreated, |userCreated| - 1);
            var used := sc.usedBlocks + m.extraUsed - Flushed(m.run, userIndx, w.punching) + |z.layers| - 1 + 2;
            && used == UsedAfterMerge(sc, begin.location, userIndx, w.punching, |z.layers|)
            && (exact ==> used == |AllocatedCells(PunchAll(z.layers, z.holes))| + |z.layers| - 1 + 2)
  {
    FinishMerge(w, begin.location, sc.location, m, userCreated);
    MergedUsed(sc, begin.location, LatestUser(userCreated, |userCreated| - 1), w.punching, |z.layers|, m);
    FinishAlive(begin, w, z, sc, kept, exact, m, userCreated);
  }

  /** The last run is sent, and the count is exact if the scan's was. */
  lemma FinishAlive(begin: Vol, w: Vol, z: Vol, sc: Scan, kept: set<(nat, nat)>, exact: bool, m: Merge, userCreated: seq<bool>)
    requires |sc.location| == |begin.location| && |userCreated| > 0
    requires Merging(w, begin, sc.location, m, userCreated, |begin.location|)
    requires z == w.(holes := w.holes + Emits(m.run, LatestUser(userCreated, |userCreated| - 1), w.punching))
    requires Merged(z, userCreated)
    requires exact ==> Scanned(begin, sc, kept, LatestUser(userCreated, |userCreated| - 1), Protected(userCreated))
    ensures SentBelowHead(z.holes, z.layers)
    ensures exact ==> |AllocatedCells(PunchAll(z.layers, z.holes))|
                      == |kept| + |Newer(begin.location, sc.location, |begin.location|)|
                         - Total(AllSent(begin.location, sc.location, LatestUser(userCreated, |userCreated| - 1), begin.punching))
  {
    var userIndx := LatestUser(userCreated, |userCreated| - 1);
    forall n | 0 <= n < |z.holes|
      ensures z.holes[n].layer < |z.layers|
    {
      assert SafeHole(z.layers, z.holes[n], Protected(userCreated));
    }
    SendAliveSince(begin, w, z, MergeSent(begin.location, sc.location, userIndx, w.punching, |begin.location|),
                   Emits(m.run, userIndx, w.punching));
    if exact {
      CountAfterMerge(begin, z, sc, kept, userIndx, Protected(userCreated));
    }
  }

  lemma PunchSameViews(L: seq<Layer>, v: Vol, views: set<nat>)
    requires Inv(v, views) && v.holes != [] && SameViews(L, v.layers, views)
    ensures v.holes[0].layer < |v.layers| && SameViews(L, PunchNext(v).layers, views)
  {
    assert SafeHole(v.layers, v.holes[0], views);
    forall u, x: nat | u in views && u < |L|
      ensures SameAt(L, PunchNext(v).layers, u, x)
    {
      assert SameAt(L, v.layers, u, x);
      PunchKeepsView(v.layers, v.holes[0], views, u, x);
    }
  }

  ghost predicate SameAt(L: seq<Layer>, L': seq<Layer>, u: nat, x: nat)
    requires u < |L| == |L'|
  {
    View(L', x, u) == View(L, x, u) && Top(L', x, u) == Top(L, x, u)
  }

  ghost predicate SameViews(L: seq<Layer>, L': seq<Layer>, views: set<nat>) {
    && |L'| == |L|
    && forall u, x: nat :: u in views && u < |L| ==> SameAt(L, L', u, x)
  }

  lemma StartMerge(v: Vol, scanned: seq<nat>, userCreated: seq<bool>)
    requires |v.layers| == |userCreated| && |userCreated| >= 2 && LunInv(v, Protected(userCreated))
    requires UpToWrites(v, scanned)
    ensures MergeInv(v, v.location, scanned, Merge(NoRun, 0, 0), userCreated, 0)
  {
    forall y: nat | y < |scanned|
      ensures Max(v.location[y], scanned[y]) == Top(v.layers, y, Head(v.layers))
    {
      if v.location[y] != 0 {
        assert y in v.layers[Head(v.layers)];
        assert Top(v.layers, y, Head(v.layers)) == Head(v.layers);
      }
    }
  }

  /** Sectors in no map before the merge are in no map after it, and each is counted once. */
  lemma LocatedMax(was: seq<nat>, scanned: seq<nat>, merged: seq<nat>)
    requires |was| == |scanned| == |merged|
    requires forall y: nat :: y < |was| ==> merged[y] == Max(was[y], scanned[y])
    ensures |Located(merged)| == |Located(scanned)| + |OnlyLive(was, scanned, |was|)|
  {
    assert Located(merged) == Located(scanned) + OnlyLive(was, scanned, |was|);
  }

  /** Sectors below x that the live cache knows and the scan does not. */
  ghost function OnlyLive(was: seq<nat>, scanned: seq<nat>, x: nat): set<nat>
    requires x <= |was| == |scanned|
  {
    set y: nat | y < x && scanned[y] == 0 && was[y] != 0
  }

  lemma OnlyLiveStep(was: seq<nat>, scanned: seq<nat>, x: nat)
    requires x < |was| == |scanned|
    ensures |OnlyLive(was, scanned, x + 1)| == |OnlyLive(was, scanned, x)| + (if scanned[x] == 0 && was[x] != 0 then 1 else 0)
  {
    var now, next := OnlyLive(was, scanned, x), OnlyLive(was, scanned, x + 1);
    if scanned[x] == 0 && was[x] != 0 {
      forall y: nat
        ensures y in next <==> y in now + {x}
      {
        assert y < x + 1 <==> y < x || y == x;
      }
      assert next == now + {x};
    } else {
      forall y: nat
        ensures y in next <==> y in now
      {
        assert y < x + 1 <==> y < x || y == x;
      }
      assert next == now;
    }
  }

  // ---- What the merge adds to the count of used blocks ----

  /** The merge of the first x sectors. */
  function MergeAt(was: seq<nat>, scanned: seq<nat>, userIndx: nat, punching: bool, x: nat): Merge
    requires x <= |was| == |scanned|
  {
    if x == 0 then Merge(NoRun, 0, 0)
    else MergeSector(MergeAt(was, scanned, userIndx, punching, x - 1), scanned[x - 1], was[x - 1], x - 1, userIndx, punching)
  }

  /** The holes that the merge of the first x sectors sends. */
  function MergeSent(was: seq<nat>, scanned: seq<nat>, userIndx: nat, punching: bool, x: nat): seq<Hole>
    requires x <= |was| == |scanned|
  {
    if x == 0 then []
    else MergeSent(was, scanned, userIndx, punching, x - 1)
         + MergeEmits(MergeAt(was, scanned, userIndx, punching, x - 1), scanned[x - 1], was[x - 1], x - 1, userIndx, punching)
  }

  /** Sectors below x that have been written to the head since the scan saw them elsewhere, or not at all. */
  ghost function Newer(was: seq<nat>, scanned: seq<nat>, x: nat): set<nat>
    requires x <= |was| == |scanned|
  {
    set y: nat | y < x && was[y] > scanned[y]
  }

  /**
    The count of used blocks: what the scan counted, one more for every sector written
    since, none for the sectors of holes that the merge sends, and the metadata files.
  */
  ghost function UsedAfterMerge(sc: Scan, was: seq<nat>, userIndx: nat, punching: bool, files: nat): int
    requires |was| == |sc.location|
  {
    var n := |was|;
    sc.usedBlocks + |Newer(was, sc.location, n)| - Total(AllSent(was, sc.location, userIndx, punching)) + files - 1 + 2
  }

  lemma NewerStep(was: seq<nat>, scanned: seq<nat>, x: nat)
    requires x < |was| == |scanned|
    ensures |Newer(was, scanned, x + 1)| == |Newer(was, scanned, x)| + (if was[x] > scanned[x] then 1 else 0)
  {
    var now, next := Newer(was, scanned, x), Newer(was, scanned, x + 1);
    forall y: nat
      ensures y in next <==> y in now || (y == x && was[x] > scanned[x])
    {
      assert y < x + 1 <==> y < x || y == x;
    }
    assert next == now + if was[x] > scanned[x] then {x} else {};
  }

  /** The two correction terms of the merge count what they are meant to count. */
  lemma {:induction false} MergeCounts(was: seq<nat>, scanned: seq<nat>, userIndx: nat, punching: bool, x: nat)
    requires x <= |was| == |scanned|
    ensures var m, sent := MergeAt(was, scanned, userIndx, punching, x), MergeSent(was, scanned, userIndx, punching, x);
            && m.extraLogical == |OnlyLive(was, scanned, x)|
            && m.extraUsed == |Newer(was, scanned, x)| - Total(sent)
  {
    if x == 0 {
      assert OnlyLive(was, scanned, 0) == {} == Newer(was, scanned, 0);
    } else {
      MergeCounts(was, scanned, userIndx, punching, x - 1);
      MergeCountsStep(was, scanned, userIndx, punching, x - 1);
    }
  }

  lemma MergeCountsStep(was: seq<nat>, scanned: seq<nat>, userIndx: nat, punching: bool, x: nat)
    requires x < |was| == |scanned|
    ensures var m, sent := MergeAt(was, scanned, userIndx, punching, x), MergeSent(was, scanned, userIndx, punching, x);
            var m', sent' := MergeAt(was, scanned, userIndx, punching, x + 1), MergeSent(was, scanned, userIndx, punching, x + 1);
            && m'.extraLogical - m.extraLogical == |OnlyLive(was, scanned, x + 1)| - |OnlyLive(was, scanned, x)|
            && m'.extraUsed - m.extraUsed
               == |Newer(was, scanned, x + 1)| - |Newer(was, scanned, x)| - (Total(sent') - Total(sent))
  {
    var m, sent := MergeAt(was, scanned, userIndx, punching, x), MergeSent(was, scanned, userIndx, punching, x);
    OnlyLiveStep(was, scanned, x);
    NewerStep(was, scanned, x);
    SectorCounts(m, sent, scanned[x], was[x], x, userIndx, punching);
  }

  lemma MergedUsed(sc: Scan, was: seq<nat>, userIndx: nat, punching: bool, files: nat, m: Merge)
    requires |was| == |sc.location| && m == MergeAt(was, sc.location, userIndx, punching, |was|)
    ensures m.extraLogical == |OnlyLive(was, sc.location, |was|)|
    ensures sc.usedBlocks + m.extraUsed - Flushed(m.run, userIndx, punching) + files - 1 + 2
            == UsedAfterMerge(sc, was, userIndx, punching, files)
  {
    MergeCounts(was, sc.location, userIndx, punching, |was|);
    TotalMore(MergeSent(was, sc.location, userIndx, punching, |was|), Emits(m.run, userIndx, punching));
  }

  lemma SectorCounts(m: Merge, sent: seq<Hole>, scanned: nat, live: nat, x: nat, userIndx: nat, punching: bool)
    ensures var m', more := MergeSector(m, scanned, live, x, userIndx, punching), MergeEmits(m, scanned, live, x, userIndx, punching);
            && m'.extraLogical == m.extraLogical + (if scanned == 0 && live != 0 then 1 else 0)
            && m'.extraUsed == m.extraUsed + (if live > scanned then 1 else 0) - (Total(sent + more) - Total(sent))
  {
    TotalMore(sent, MergeEmits(m, scanned, live, x, userIndx, punching));
  }

  // ---- The count after the merge ----

  /** Sectors below x whose scanned copy the merge sends to the hole queue. */
  ghost function Superseded(was: seq<nat>, scanned: seq<nat>, userIndx: nat, punching: bool, x: nat): set<nat>
    requires x <= |was| == |scanned|
  {
    set y: nat | y < x && was[y] > scanned[y] > userIndx && punching
  }

  lemma SupersededStep(was: seq<nat>, scanned: seq<nat>, userIndx: nat, punching: bool, x: nat)
    requires x < |was| == |scanned|
    ensures Superseded(was, scanned, userIndx, punching, x + 1)
            == Superseded(was, scanned, userIndx, punching, x) + if was[x] > scanned[x] > userIndx && punching then {x} else {}
    ensures |Superseded(was, scanned, userIndx, punching, x + 1)|
            == |Superseded(was, scanned, userIndx, punching, x)| + if was[x] > scanned[x] > userIndx && punching then 1 else 0
  {
    var now, next := Superseded(was, scanned, userIndx, punching, x), Superseded(was, scanned, userIndx, punching, x + 1);
    forall y: nat
      ensures y in next <==> y in now || (y == x && was[x] > scanned[x] > userIndx && punching)
    {
      assert y < x + 1 <==> y < x || y == x;
    }
    assert next == now + if was[x] > scanned[x] > userIndx && punching then {x} else {};
  }

  /** The pending run of a merge: sectors below x that the scan saw in its layer and that are newer now. */
  ghost predicate NewerRun(run: Run, was: seq<nat>, scanned: seq<nat>, x: nat)
    requires x <= |was| == |scanned|
  {
    run.Run? ==>
      && run.first + run.count <= x
      && forall y: nat :: run.first <= y < run.first + run.count ==> was[y] > scanned[y] == run.layer
  }

  lemma {:induction false} MergeRunNewer(was: seq<nat>, scanned: seq<nat>, userIndx: nat, punching: bool, x: nat)
    requires x <= |was| == |scanned|
    ensures NewerRun(MergeAt(was, scanned, userIndx, punching, x).run, was, scanned, x)
  {
    if x > 0 {
      MergeRunNewer(was, scanned, userIndx, punching, x - 1);
    }
  }

  /** What the merge of the first x sectors has sent or will send when its run ends. */
  ghost predicate SentOrPending(was: seq<nat>, scanned: seq<nat>, userIndx: nat, punching: bool, x: nat, k: nat, y: nat)
    requires x <= |was| == |scanned|
  {
    || PunchedBy(MergeSent(was, scanned, userIndx, punching, x), k, y)
    || (var run := MergeAt(was, scanned, userIndx, punching, x).run; Sends(run, userIndx, punching) && InRun(run, k, y))
  }

  lemma SentStep(was: seq<nat>, scanned: seq<nat>, userIndx: nat, punching: bool, x: nat, k: nat, y: nat)
    requires x < |was| == |scanned|
    ensures SentOrPending(was, scanned, userIndx, punching, x + 1, k, y)
            <==> SentOrPending(was, scanned, userIndx, punching, x, k, y)
                 || (y == x && k == scanned[x] && was[x] > scanned[x] > userIndx && punching)
  {
    var m := MergeAt(was, scanned, userIndx, punching, x);
    var more := MergeEmits(m, scanned[x], was[x], x, userIndx, punching);
    PunchedByBoth(MergeSent(was, scanned, userIndx, punching, x), more, k, y);
    EmitsPunched(m.run, userIndx, punching, k, y);
    MergeRunNewer(was, scanned, userIndx, punching, x);
  }

  /** The merge sends the scanned copy of every superseded sector, and nothing else ... */
  lemma {:induction false} MergeSendsIff(was: seq<nat>, scanned: seq<nat>, userIndx: nat, punching: bool, x: nat, k: nat, y: nat)
    requires x <= |was| == |scanned|
    ensures SentOrPending(was, scanned, userIndx, punching, x, k, y)
            <==> y in Superseded(was, scanned, userIndx, punching, x) && k == scanned[y]
  {
    if x > 0 {
      MergeSendsIff(was, scanned, userIndx, punching, x - 1, k, y);
      SentStep(was, scanned, userIndx, punching, x - 1, k, y);
    }
  }

  /** ... and each of them once. */
  lemma {:induction false} MergeSendsTotal(was: seq<nat>, scanned: seq<nat>, userIndx: nat, punching: bool, x: nat)
    requires x <= |was| == |scanned|
    ensures Total(MergeSent(was, scanned, userIndx, punching, x))
            + Flushed(MergeAt(was, scanned, userIndx, punching, x).run, userIndx, punching)
            == |Superseded(was, scanned, userIndx, punching, x)|
  {
    if x == 0 {
      assert Superseded(was, scanned, userIndx, punching, 0) == {};
    } else {
      MergeSendsTotal(was, scanned, userIndx, punching, x - 1);
      SupersededStep(was, scanned, userIndx, punching, x - 1);
      MergeTotalStep(was, scanned, userIndx, punching, x - 1);
    }
  }

  lemma MergeTotalStep(was: seq<nat>, scanned: seq<nat>, userIndx: nat, punching: bool, x: nat)
    requires x < |was| == |scanned|
    ensures var m, sent := MergeAt(was, scanned, userIndx, punching, x), MergeSent(was, scanned, userIndx, punching, x);
            var m', sent' := MergeAt(was, scanned, userIndx, punching, x + 1), MergeSent(was, scanned, userIndx, punching, x + 1);
            Total(sent') + Flushed(m'.run, userIndx, punching)
            == Total(sent) + Flushed(m.run, userIndx, punching) + if was[x] > scanned[x] > userIndx && punching then 1 else 0
  {
    var m, sent := MergeAt(was, scanned, userIndx, punching, x), MergeSent(was, scanned, userIndx, punching, x);
    SectorTotal(m, sent, scanned[x], was[x], x, userIndx, punching);
  }

  lemma SectorTotal(m: Merge, sent: seq<Hole>, scanned: nat, live: nat, x: nat, userIndx: nat, punching: bool)
    ensures Total(sent + MergeEmits(m, scanned, live, x, userIndx, punching))
            + Flushed(MergeSector(m, scanned, live, x, userIndx, punching).run, userIndx, punching)
            == Total(sent) + Flushed(m.run, userIndx, punching) + if live > scanned > userIndx && punching then 1 else 0
  {
    TotalMore(sent, MergeEmits(m, scanned, live, x, userIndx, punching));
  }

  /** A copy is alive if it was when the merge began and the merge has not sent it. */
  ghost predicate AliveSince(begin: Vol, w: Vol, sent: seq<Hole>) {
    && |begin.layers| == |w.layers|
    && forall k: nat, x: nat :: k < |w.layers| ==> AliveUnlessSent(begin, w, sent, k, x)
  }

  ghost predicate AliveUnlessSent(begin: Vol, w: Vol, sent: seq<Hole>, k: nat, x: nat)
    requires k < |w.layers| == |begin.layers|
  {
    Alive(w, k, x) <==> Alive(begin, k, x) && !PunchedBy(sent, k, x)
  }

  lemma PunchAliveSince(begin: Vol, w: Vol, sent: seq<Hole>)
    requires AliveSince(begin, w, sent) && w.holes != [] && w.holes[0].layer < |w.layers|
    ensures AliveSince(begin, PunchNext(w), sent)
  {
    forall k: nat, x: nat | k < |w.layers|
      ensures AliveUnlessSent(begin, PunchNext(w), sent, k, x)
    {
      assert AliveUnlessSent(begin, w, sent, k, x);
      PunchAlive(w, k, x);
    }
  }

  lemma SendAliveSince(begin: Vol, w: Vol, z: Vol, sent: seq<Hole>, more: seq<Hole>)
    requires AliveSince(begin, w, sent) && z.layers == w.layers && z.holes == w.holes + more
    ensures AliveSince(begin, z, sent + more)
  {
    forall k: nat, x: nat | k < |w.layers|
      ensures AliveUnlessSent(begin, z, sent + more, k, x)
    {
      assert AliveUnlessSent(begin, w, sent, k, x);
      PunchedByBoth(w.holes, more, k, x);
      PunchedByBoth(sent, more, k, x);
    }
  }

  /** The pairs that the given map has for the given sectors. */
  ghost function Pairs(sectors: set<nat>, at: seq<nat>): set<(nat, nat)>
    requires forall y :: y in sectors ==> y < |at|
  {
    set y | y in sectors :: (at[y], y)
  }

  lemma {:induction false} PairsSize(sectors: set<nat>, at: seq<nat>)
    requires forall y :: y in sectors ==> y < |at|
    ensures |Pairs(sectors, at)| == |sectors|
    decreases |sectors|
  {
    if sectors == {} {
      assert Pairs(sectors, at) == {};
    } else {
      var y :| y in sectors;
      PairsSize(sectors - {y}, at);
      assert Pairs(sectors, at) == Pairs(sectors - {y}, at) + {(at[y], y)};
      assert (at[y], y) !in Pairs(sectors - {y}, at);
    }
  }

  /** All that the merge sends, the last run included. */
  function AllSent(was: seq<nat>, scanned: seq<nat>, userIndx: nat, punching: bool): seq<Hole>
    requires |was| == |scanned|
  {
    MergeSent(was, scanned, userIndx, punching, |was|)
    + Emits(MergeAt(was, scanned, userIndx, punching, |was|).run, userIndx, punching)
  }

  lemma AllSentIff(was: seq<nat>, scanned: seq<nat>, userIndx: nat, punching: bool, k: nat, y: nat)
    requires |was| == |scanned|
    ensures PunchedBy(AllSent(was, scanned, userIndx, punching), k, y)
            <==> y in Superseded(was, scanned, userIndx, punching, |was|) && k == scanned[y]
  {
    var run := MergeAt(was, scanned, userIndx, punching, |was|).run;
    MergeSendsIff(was, scanned, userIndx, punching, |was|, k, y);
    PunchedByBoth(MergeSent(was, scanned, userIndx, punching, |was|), Emits(run, userIndx, punching), k, y);
    EmitsPunched(run, userIndx, punching, k, y);
  }

  lemma AllSentTotal(was: seq<nat>, scanned: seq<nat>, userIndx: nat, punching: bool)
    requires |was| == |scanned|
    ensures Total(AllSent(was, scanned, userIndx, punching)) == |Superseded(was, scanned, userIndx, punching, |was|)|
  {
    var run := MergeAt(was, scanned, userIndx, punching, |was|).run;
    MergeSendsTotal(was, scanned, userIndx, punching, |was|);
    TotalMore(MergeSent(was, scanned, userIndx, punching, |was|), Emits(run, userIndx, punching));
  }

  /** A scan that has ended, as the merge finds it. */
  ghost predicate Scanned(begin: Vol, sc: Scan, kept: set<(nat, nat)>, userIndx: nat, views: set<nat>) {
    && LunInv(begin, views) && userIndx <= begin.snapIndx && sc.run == NoRun
    && Accounted(sc, kept, Head(begin.layers), |begin.location|)
    && Tracks(begin, sc, kept, Head(begin.layers), |begin.location|)
  }

  /** What the merge leaves counted. */
  ghost function Counting(begin: Vol, sc: Scan, kept: set<(nat, nat)>, userIndx: nat): set<(nat, nat)>
    requires |sc.location| == |begin.location|
  {
    var n := |begin.location|;
    kept + Pairs(Newer(begin.location, sc.location, n), begin.location)
    - Pairs(Superseded(begin.location, sc.location, userIndx, begin.punching, n), sc.location)
  }

  /** A copy is counted after the merge if and only if it is alive then. */
  lemma CountingIsAlive(begin: Vol, w: Vol, sc: Scan, kept: set<(nat, nat)>, userIndx: nat, views: set<nat>, k: nat, x: nat)
    requires Scanned(begin, sc, kept, userIndx, views)
    requires AliveSince(begin, w, AllSent(begin.location, sc.location, userIndx, begin.punching))
    ensures (k, x) in Counting(begin, sc, kept, userIndx) <==> 0 < k < |w.layers| && Alive(w, k, x)
  {
    var was, scanned := begin.location, sc.location;
    var n := |was|;
    AllSentIff(was, scanned, userIndx, begin.punching, k, x);
    if 0 < k < |w.layers| {
      assert CellTracked(begin, sc, kept, Head(begin.layers), n, k, x);
      assert AliveUnlessSent(begin, w, AllSent(was, scanned, userIndx, begin.punching), k, x);
      if k == Head(begin.layers) {
        HeadNotPunched(begin, views, x);
      }
    }
  }

  lemma HeadNotPunched(v: Vol, views: set<nat>, x: nat)
    requires LunInv(v, views)
    ensures !PunchedBy(v.holes, Head(v.layers), x)
  {
    forall n | 0 <= n < |v.holes|
      ensures v.holes[n].layer != Head(v.layers)
    {
      assert SafeHole(v.layers, v.holes[n], views);
    }
  }

  lemma SizeOfChange(s: set<(nat, nat)>, added: set<(nat, nat)>, removed: set<(nat, nat)>)
    requires s !! added && removed <= s
    ensures |s + added - removed| == |s| + |added| - |removed|
  {
    assert s + added - removed + removed == s + added;
  }

  /** What the merge adds had not been counted, and what it takes out had. */
  lemma CountingChanges(begin: Vol, sc: Scan, kept: set<(nat, nat)>, userIndx: nat, views: set<nat>, y: nat)
    requires Scanned(begin, sc, kept, userIndx, views) && y < |begin.location|
    ensures begin.location[y] > sc.location[y] ==> (begin.location[y], y) !in kept
    ensures sc.location[y] > 0 ==> (sc.location[y], y) in kept
  {
    if begin.location[y] > sc.location[y] {
      assert CellTracked(begin, sc, kept, Head(begin.layers), |begin.location|, begin.location[y], y);
    }
  }

  lemma CountingSize(begin: Vol, sc: Scan, kept: set<(nat, nat)>, userIndx: nat, views: set<nat>)
    requires Scanned(begin, sc, kept, userIndx, views)
    ensures |Counting(begin, sc, kept, userIndx)|
            == |kept| + |Newer(begin.location, sc.location, |begin.location|)|
               - Total(AllSent(begin.location, sc.location, userIndx, begin.punching))
  {
    var was, scanned := begin.location, sc.location;
    var newer, gone := Newer(was, scanned, |was|), Superseded(was, scanned, userIndx, begin.punching, |was|);
    AllSentTotal(was, scanned, userIndx, begin.punching);
    PairsSize(newer, was);
    PairsSize(gone, scanned);
    forall y: nat | y < |was|
      ensures y in newer ==> (was[y], y) !in kept
      ensures y in gone ==> (scanned[y], y) in kept
    {
      CountingChanges(begin, sc, kept, userIndx, views, y);
    }
    SizeOfChange(kept, Pairs(newer, was), Pairs(gone, scanned));
  }

  /** The number of blocks counted after the merge is the number of those that are left once the queue is empty. */
  lemma CountAfterMerge(begin: Vol, w: Vol, sc: Scan, kept: set<(nat, nat)>, userIndx: nat, views: set<nat>)
    requires Scanned(begin, sc, kept, userIndx, views)
    requires AliveSince(begin, w, AllSent(begin.location, sc.location, userIndx, begin.punching))
    requires forall n :: 0 <= n < |w.holes| ==> w.holes[n].layer < |w.layers|
    ensures |AllocatedCells(PunchAll(w.layers, w.holes))|
            == |kept| + |Newer(begin.location, sc.location, |begin.location|)|
               - Total(AllSent(begin.location, sc.location, userIndx, begin.punching))
  {
    var left, counted := AllocatedCells(PunchAll(w.layers, w.holes)), Counting(begin, sc, kept, userIndx);
    forall c: (nat, nat)
      ensures c in left <==> c in counted
    {
      assert c == (c.0, c.1);
      CountingIsAlive(begin, w, sc, kept, userIndx, views, c.0, c.1);
      if c.0 < |w.layers| {
        PunchAllDomain(w.layers, w.holes, c.0, c.1);
      }
    }
    assert left == counted;
    CountingSize(begin, sc, kept, userIndx, views);
  }

  /** Files are as long as the volume, so no file has a sector past its end. */
  ghost predicate InRange(L: seq<Layer>, sectors: nat) {
    forall k, x :: 0 <= k < |L| && x in L[k] ==> x < sectors
  }

  ghost predicate SentBelowHead(sent: seq<Hole>, L: seq<Layer>) {
    |L| > 0 && forall n :: 0 <= n < |sent| ==> sent[n].layer < |L|
  }

  lemma StartScan(v: Vol, sc: Scan, userCreated: seq<bool>)
    requires |v.layers| == |userCreated| && |userCreated| >= 2 && LunInv(v, Protected(userCreated))
    requires sc.run == NoRun && |sc.location| == |v.location| && forall x :: 0 <= x < |sc.location| ==> sc.location[x] == 0
    ensures ScanInv(v, sc, userCreated, 1, 0)
  {
  }
}
