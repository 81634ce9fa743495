/**
  A replica stores its volume as a chain of sparse layers: index 1 is the base
  file, the last index is the head, index 0 is the nil entry that every chain
  starts with.  A layer maps the sectors it has allocated to their blocks.

  The view at layer u takes, for each sector, the topmost allocated layer at or
  below u.  The live view is the view at the head.  A hole deallocates a run of
  sectors of one layer; it waits in a queue and may be executed at any later
  time, so what matters about a queued hole is that no view that has to survive
  reads its sectors from its layer.
*/
module Layers {

  const SectorSize: int := 4096

  newtype Byte = x: int | 0 <= x < 256

  type Block = seq<Byte>

  /** What an unallocated sector reads as. */
  function ZeroBlock(): (b: Block)
    ensures |b| == SectorSize
    ensures forall k :: 0 <= k < |b| ==> b[k] == 0
  {
    seq(SectorSize, _ => 0)
  }

  type Layer = map<nat, Block>

  /** Sectors first, ..., first + count - 1 of the given layer are to be deallocated. */
  datatype Hole = Hole(layer: nat, first: nat, count: nat)

  predicate Covers(h: Hole, s: nat) {
    h.first <= s < h.first + h.count
  }

  /** The topmost layer in 1..u that has sector s allocated, or 0. */
  function Top(L: seq<Layer>, s: nat, u: nat): (t: nat)
    requires u < |L|
    ensures t <= u
    ensures t > 0 ==> s in L[t]
  {
    if u == 0 then 0
    else if s in L[u] then u
    else Top(L, s, u - 1)
  }

  lemma TopIsTop(L: seq<Layer>, s: nat, u: nat)
    requires u < |L|
    ensures forall i :: Top(L, s, u) < i <= u ==> s !in L[i]
  {
  }

  lemma TopUnique(L: seq<Layer>, s: nat, u: nat, t: nat)
    requires t <= u < |L|
    requires t > 0 ==> s in L[t]
    requires forall i :: t < i <= u ==> s !in L[i]
    ensures Top(L, s, u) == t
  {
  }

  /** Raising the view can only raise the layer a sector is read from. */
  lemma TopMonotone(L: seq<Layer>, s: nat, u: nat, v: nat)
    requires u <= v < |L|
    ensures Top(L, s, u) <= Top(L, s, v)
  {
  }

  /** The block that the view at layer u shows for sector s. */
  function View(L: seq<Layer>, s: nat, u: nat): Block
    requires u < |L|
  {
    var t := Top(L, s, u);
    if t == 0 then ZeroBlock() else L[t][s]
  }

  function Head(L: seq<Layer>): nat
    requires |L| > 0
  {
    |L| - 1
  }

  function Live(L: seq<Layer>, s: nat): Block
    requires |L| > 0
  {
    View(L, s, Head(L))
  }

  function Without(layer: Layer, h: Hole): Layer {
    map s | s in layer && !Covers(h, s) :: layer[s]
  }

  function Punch(L: seq<Layer>, h: Hole): (L': seq<Layer>)
    requires h.layer < |L|
    ensures |L'| == |L|
  {
    L[h.layer := Without(L[h.layer], h)]
  }

  /** In none of the given views is sector s read from layer i. */
  ghost predicate Unread(L: seq<Layer>, i: nat, s: nat, views: set<nat>) {
    forall u :: u in views && u < |L| ==> Top(L, s, u) != i
  }

  /** The hole lies below the head, which alone is written to, and none of the views reads what it deallocates. */
  ghost predicate SafeHole(L: seq<Layer>, h: Hole, views: set<nat>) {
    && 0 < h.layer < |L| - 1
    && forall s: nat :: Covers(h, s) ==> Unread(L, h.layer, s, views)
  }

  ghost predicate SafeQueue(L: seq<Layer>, q: seq<Hole>, views: set<nat>) {
    forall k :: 0 <= k < |q| ==> SafeHole(L, q[k], views)
  }

  /** A safe hole changes none of the protected views. */
  lemma PunchKeepsView(L: seq<Layer>, h: Hole, views: set<nat>, u: nat, s: nat)
    requires SafeHole(L, h, views)
    requires u in views && u < |L|
    ensures Top(Punch(L, h), s, u) == Top(L, s, u)
    ensures View(Punch(L, h), s, u) == View(L, s, u)
  {
    TopIsTop(L, s, u);
    TopUnique(Punch(L, h), s, u, Top(L, s, u));
  }

  /** ... and leaves every other safe hole safe. */
  lemma PunchKeepsSafe(L: seq<Layer>, h: Hole, views: set<nat>, q: seq<Hole>)
    requires SafeHole(L, h, views)
    requires SafeQueue(L, q, views)
    ensures SafeQueue(Punch(L, h), q, views)
  {
    var L' := Punch(L, h);
    forall k, s: nat, u | 0 <= k < |q| && Covers(q[k], s) && u in views && u < |L'|
      ensures Top(L', s, u) != q[k].layer
    {
      assert SafeHole(L, q[k], views);
      assert Unread(L, q[k].layer, s, views);
      PunchKeepsView(L, h, views, u, s);
    }
  }

  /** All queued holes executed, oldest first. */
  function PunchAll(L: seq<Layer>, q: seq<Hole>): (L': seq<Layer>)
    requires forall k :: 0 <= k < |q| ==> q[k].layer < |L|
    ensures |L'| == |L|
    decreases |q|
  {
    if q == [] then L else PunchAll(Punch(L, q[0]), q[1..])
  }

  /** Draining a safe queue, in full, changes no protected view. */
  lemma {:induction false} PunchAllKeepsViews(L: seq<Layer>, q: seq<Hole>, views: set<nat>)
    requires SafeQueue(L, q, views)
    ensures forall k :: 0 <= k < |q| ==> q[k].layer < |L|
    ensures forall u, s: nat :: u in views && u < |L| ==> View(PunchAll(L, q), s, u) == View(L, s, u)
    decreases |q|
  {
    forall k | 0 <= k < |q|
      ensures q[k].layer < |L|
    {
      assert SafeHole(L, q[k], views);
    }
    if q != [] {
      assert SafeHole(L, q[0], views);
      var L1 := Punch(L, q[0]);
      forall k | 0 <= k < |q[1..]|
        ensures SafeHole(L, q[1..][k], views)
      {
        assert q[1..][k] == q[k + 1];
      }
      PunchKeepsSafe(L, q[0], views, q[1..]);
      PunchAllKeepsViews(L1, q[1..], views);
      forall u, s: nat | u in views && u < |L|
        ensures View(PunchAll(L, q), s, u) == View(L, s, u)
      {
        PunchKeepsView(L, q[0], views, u, s);
      }
    }
  }

  /** Some queued hole deallocates sector x of layer k. */
  ghost predicate PunchedBy(q: seq<Hole>, k: nat, x: nat) {
    exists n :: 0 <= n < |q| && q[n].layer == k && Covers(q[n], x)
  }

  lemma PunchedByMore(sent: seq<Hole>, h: Hole, k: nat, x: nat)
    ensures PunchedBy(sent + [h], k, x) <==> PunchedBy(sent, k, x) || (h.layer == k && Covers(h, x))
  {
    if PunchedBy(sent, k, x) {
      var n :| 0 <= n < |sent| && sent[n].layer == k && Covers(sent[n], x);
      assert (sent + [h])[n] == sent[n];
    }
    if h.layer == k && Covers(h, x) {
      assert (sent + [h])[|sent|] == h;
    }
  }

  lemma {:induction false} PunchAllDomain(L: seq<Layer>, q: seq<Hole>, k: nat, x: nat)
    requires k < |L|
    requires forall n :: 0 <= n < |q| ==> q[n].layer < |L|
    ensures x in PunchAll(L, q)[k] <==> x in L[k] && !PunchedBy(q, k, x)
    ensures x in PunchAll(L, q)[k] ==> PunchAll(L, q)[k][x] == L[k][x]
    decreases |q|
  {
    if q != [] {
      var rest := q[1..];
      PunchAllDomain(Punch(L, q[0]), rest, k, x);
      assert PunchedBy(q, k, x) <==> (q[0].layer == k && Covers(q[0], x)) || PunchedBy(rest, k, x) by {
        assert forall n :: 0 <= n < |rest| ==> rest[n] == q[n + 1];
        if PunchedBy(q, k, x) && !(q[0].layer == k && Covers(q[0], x)) {
          var n :| 0 <= n < |q| && q[n].layer == k && Covers(q[n], x);
          assert rest[n - 1] == q[n];
        }
      }
    }
  }

  /** How many sectors the holes cover, with repetition. */
  function Total(holes: seq<Hole>): nat {
    if holes == [] then 0 else Total(holes[..|holes| - 1]) + holes[|holes| - 1].count
  }

  lemma TotalMore(holes: seq<Hole>, more: seq<Hole>)
    requires |more| <= 1
    ensures Total(holes + more) == Total(holes) + if more == [] then 0 else more[0].count
  {
    if more == [] {
      assert holes + more == holes;
    } else {
      assert (holes + more)[..|holes|] == holes;
    }
  }
}
