/**
  Rebuilding a replica.  The replica that joins and the replica that serves as
  its source take the same snapshot, so both start with an empty head; from then
  on both get every write, while the source's older layers are copied, sector by
  sector and in any order, down to the joining replica's checkpoint.  The source
  goes on executing holes meanwhile.

  Below the checkpoint each replica has been cleaned up on its own, so the
  checkpoint is layer a of the source and layer b of the joining replica; above
  it the two chains correspond layer by layer.
*/
module RebuildModel {
  import opened Layers
  import opened Volume

  /** copied holds the (source layer, sector) pairs that have been copied at least once. */
  datatype State = State(src: seq<Layer>, dst: seq<Layer>, copied: set<(nat, nat)>)

  /**
    A write of whole sectors stores the same blocks on both replicas; a write of
    part of a sector patches what each replica itself reads there.
  */
  datatype Step =
    | WriteBoth(first: nat, blocks: seq<Block>)
    | PatchBoth(sector: nat, at: nat, bytes: seq<Byte>)
    | PunchSource(hole: Hole)
    | CopySector(layer: nat, sector: nat)

  /** As many layers above the checkpoint on either side, the heads among them. */
  predicate Aligned(st: State, a: nat, b: nat) {
    && a < |st.src| - 1
    && b < |st.dst| - 1
    && |st.src| - a == |st.dst| - b
  }

  /** Layers strictly between the checkpoint and the head are copied. */
  predicate IsCopied(L: seq<Layer>, a: nat, i: nat) {
    a < i < |L| - 1
  }

  /** The layer of the joining replica that corresponds to source layer i. */
  function Twin(a: nat, b: nat, i: nat): nat
    requires a <= i
  {
    i - a + b
  }

  function Patched(x: Block, at: nat, bytes: seq<Byte>): (r: Block)
    requires at + |bytes| <= |x|
    ensures |r| == |x|
    ensures forall k :: 0 <= k < |r| ==> r[k] == if at <= k < at + |bytes| then bytes[k - at] else x[k]
  {
    x[..at] + bytes + x[at + |bytes|..]
  }

  ghost predicate Enabled(st: State, a: nat, b: nat, step: Step) {
    && Aligned(st, a, b)
    && match step
       case WriteBoth(_, _) => true
       case PatchBoth(s, at, bytes) =>
         |Live(st.src, s)| == |Live(st.dst, s)| == SectorSize && at + |bytes| <= SectorSize
       case PunchSource(h) => SafeHole(st.src, h, {Head(st.src)})
       case CopySector(i, s) => IsCopied(st.src, a, i)
  }

  function CopyOne(to: Layer, from: Layer, s: nat): Layer {
    if s in from then to[s := from[s]] else to - {s}
  }

  /** Both heads get a block for the same sectors; the blocks need not be the same. */
  function WriteEach(st: State, first: nat, ours: seq<Block>, theirs: seq<Block>): State
    requires |st.src| > 0 && |st.dst| > 0
  {
    st.(src := WriteTop(st.src, first, ours), dst := WriteTop(st.dst, first, theirs))
  }

  ghost function Apply(st: State, a: nat, b: nat, step: Step): State
    requires Enabled(st, a, b, step)
  {
    match step
    case WriteBoth(first, blocks) => WriteEach(st, first, blocks, blocks)
    case PatchBoth(s, at, bytes) =>
      WriteEach(st, s, [Patched(Live(st.src, s), at, bytes)], [Patched(Live(st.dst, s), at, bytes)])
    case PunchSource(h) => st.(src := Punch(st.src, h))
    case CopySector(i, s) =>
      var j := Twin(a, b, i);
      st.(dst := st.dst[j := CopyOne(st.dst[j], st.src[i], s)], copied := st.copied + {(i, s)})
  }

  // ---- The invariant, sector by sector ----

  /** What is known about a sector that has not been written since the rebuild began. */
  ghost predicate Matches(st: State, a: nat, b: nat, s: nat)
    requires Aligned(st, a, b)
  {
    var t := Top(st.src, s, Head(st.src));
    && (forall i: nat :: IsCopied(st.src, a, i) && (i, s) in st.copied && i > t ==> s !in st.dst[Twin(a, b, i)])
    && (IsCopied(st.src, a, t) && (t, s) in st.copied ==>
          s in st.dst[Twin(a, b, t)] && st.dst[Twin(a, b, t)][s] == st.src[t][s])
    && (t <= a ==> View(st.dst, s, b) == View(st.src, s, a))
  }

  /** A sector is in both heads or in neither; in the latter case the older layers match as far as they are copied. */
  ghost predicate InvAt(st: State, a: nat, b: nat, s: nat) {
    && Aligned(st, a, b)
    && (s in st.src[Head(st.src)] <==> s in st.dst[Head(st.dst)])
    && (s !in st.src[Head(st.src)] ==> Matches(st, a, b, s))
  }

  /**
    Where a rebuild starts: both heads are empty, nothing is copied, and the views
    at the checkpoint agree on the sectors that the source has nowhere above it.
  */
  ghost predicate Initial(st: State, a: nat, b: nat) {
    && Aligned(st, a, b)
    && st.src[Head(st.src)] == map[] == st.dst[Head(st.dst)]
    && st.copied == {}
    && forall s: nat :: Top(st.src, s, Head(st.src)) <= a ==> View(st.dst, s, b) == View(st.src, s, a)
  }

  lemma WriteTopTop(L: seq<Layer>, first: nat, blocks: seq<Block>, s: nat, u: nat)
    requires |L| > 0 && u < |L|
    ensures Top(WriteTop(L, first, blocks), s, u)
            == if u == Head(L) && first <= s < first + |blocks| then u else Top(L, s, u)
    ensures u < Head(L) ==> View(WriteTop(L, first, blocks), s, u) == View(L, s, u)
  {
    var L' := WriteTop(L, first, blocks);
    TopIsTop(L, s, u);
    TopUnique(L', s, u, if u == Head(L) && first <= s < first + |blocks| then u else Top(L, s, u));
  }

  /** Writes concern only the sectors written, whatever blocks they store. */
  lemma WriteKeeps(st: State, a: nat, b: nat, first: nat, ours: seq<Block>, theirs: seq<Block>, s: nat)
    requires InvAt(st, a, b, s) && |ours| == |theirs|
    ensures InvAt(WriteEach(st, first, ours, theirs), a, b, s)
  {
    WriteTopTop(st.src, first, ours, s, Head(st.src));
    WriteTopTop(st.src, first, ours, s, a);
    WriteTopTop(st.dst, first, theirs, s, b);
  }

  /** A hole of the source never touches the layer a sector is read from, copied or not. */
  lemma PunchKeeps(st: State, a: nat, b: nat, h: Hole, s: nat)
    requires InvAt(st, a, b, s) && SafeHole(st.src, h, {Head(st.src)})
    ensures InvAt(st.(src := Punch(st.src, h)), a, b, s)
  {
    var head := Head(st.src);
    PunchKeepsView(st.src, h, {head}, head, s);
    PunchAtCheckpoint(st.src, h, a, s);
  }

  /** The hole takes its sectors out of its layer of the source, and nothing else. */
  lemma PunchTakes(st: State, a: nat, b: nat, h: Hole, i: nat, s: nat)
    requires Enabled(st, a, b, PunchSource(h)) && i < |st.src|
    ensures var st' := Apply(st, a, b, PunchSource(h));
            && st'.dst == st.dst && st'.copied == st.copied && |st'.src| == |st.src|
            && (s in st'.src[i] <==> s in st.src[i] && !(i == h.layer && h.first <= s < h.first + h.count))
  {
  }

  lemma PunchAtCheckpoint(L: seq<Layer>, h: Hole, a: nat, s: nat)
    requires |L| > 0 && SafeHole(L, h, {Head(L)}) && a <= Head(L)
    ensures Top(L, s, Head(L)) <= a ==> View(Punch(L, h), s, a) == View(L, s, a)
    ensures Top(L, s, Head(L)) > 0 ==>
              var t := Top(L, s, Head(L)); s in Punch(L, h)[t] && Punch(L, h)[t][s] == L[t][s]
  {
    var head := Head(L);
    var t := Top(L, s, head);
    TopIsTop(L, s, head);
    PunchKeepsView(L, h, {head}, head, s);
    TopIsTop(Punch(L, h), s, head);
    if t <= a {
      TopUnique(L, s, a, t);
      TopUnique(Punch(L, h), s, a, t);
    }
  }

  lemma CopyKeeps(st: State, a: nat, b: nat, i: nat, x: nat, s: nat)
    requires InvAt(st, a, b, s) && IsCopied(st.src, a, i)
    ensures InvAt(Apply(st, a, b, CopySector(i, x)), a, b, s)
  {
    var st' := Apply(st, a, b, CopySector(i, x));
    TopIsTop(st.src, s, Head(st.src));
    TopIsTop(st.dst, s, b);
    TopUnique(st'.dst, s, b, Top(st.dst, s, b));
  }

  lemma StepKeeps(st: State, a: nat, b: nat, step: Step, s: nat)
    requires InvAt(st, a, b, s) && Enabled(st, a, b, step)
    ensures InvAt(Apply(st, a, b, step), a, b, s)
  {
    match step
    case WriteBoth(first, blocks) => WriteKeeps(st, a, b, first, blocks, blocks, s);
    case PatchBoth(x, at, bytes) =>
      WriteKeeps(st, a, b, x, [Patched(Live(st.src, x), at, bytes)], [Patched(Live(st.dst, x), at, bytes)], s);
    case PunchSource(h) => PunchKeeps(st, a, b, h, s);
    case CopySector(i, x) => CopyKeeps(st, a, b, i, x, s);
  }

  // ---- Partial writes ----

  predicate AgreeOutside(x: Block, y: Block, at: nat, len: nat)
    requires |x| == |y| && at + len <= |x|
  {
    x[..at] == y[..at] && x[at + len..] == y[at + len..]
  }

  lemma PatchedAgreeIff(x: Block, y: Block, at: nat, bytes: seq<Byte>)
    requires |x| == |y| && at + |bytes| <= |x|
    ensures Patched(x, at, bytes) == Patched(y, at, bytes) <==> AgreeOutside(x, y, at, |bytes|)
  {
    var px, py := Patched(x, at, bytes), Patched(y, at, bytes);
    assert px[..at] == x[..at] && py[..at] == y[..at];
    assert px[at + |bytes|..] == x[at + |bytes|..] && py[at + |bytes|..] == y[at + |bytes|..];
  }

  /**
    What a step says about sector s: a write of the whole sector makes the two
    replicas agree on it; a write of part of it does if and only if they agree on
    the rest of the sector at that moment; nothing else matters.
  */
  ghost predicate Verdict(st: State, a: nat, b: nat, step: Step, s: nat, before: bool)
    requires Enabled(st, a, b, step)
  {
    match step
    case WriteBoth(first, blocks) => if first <= s < first + |blocks| then true else before
    case PatchBoth(x, at, bytes) =>
      if x == s then AgreeOutside(Live(st.src, s), Live(st.dst, s), at, |bytes|) else before
    case _ => before
  }

  /** If the sector has been written, the blocks in the two heads are the same exactly when the verdict says so. */
  ghost predicate HeadsAt(st: State, a: nat, b: nat, s: nat, verdict: bool)
    requires InvAt(st, a, b, s)
  {
    if s in st.src[Head(st.src)] then st.src[Head(st.src)][s] == st.dst[Head(st.dst)][s] <==> verdict
    else verdict
  }

  lemma StepHeads(st: State, a: nat, b: nat, step: Step, s: nat, before: bool)
    requires InvAt(st, a, b, s) && Enabled(st, a, b, step) && HeadsAt(st, a, b, s, before)
    ensures InvAt(Apply(st, a, b, step), a, b, s)
    ensures HeadsAt(Apply(st, a, b, step), a, b, s, Verdict(st, a, b, step, s, before))
  {
    StepKeeps(st, a, b, step, s);
    match step
    case WriteBoth(_, _) =>
    case PatchBoth(x, at, bytes) =>
      if x == s {
        PatchedAgreeIff(Live(st.src, s), Live(st.dst, s), at, bytes);
      }
    case PunchSource(h) =>
      assert Punch(st.src, h)[Head(st.src)] == st.src[Head(st.src)];
    case CopySector(_, _) =>
  }

  // ---- Whole runs ----

  ghost predicate IsRun(st: State, a: nat, b: nat, steps: seq<Step>)
    decreases |steps|
  {
    steps != [] ==> Enabled(st, a, b, steps[0]) && IsRun(Apply(st, a, b, steps[0]), a, b, steps[1..])
  }

  ghost function Run(st: State, a: nat, b: nat, steps: seq<Step>): State
    requires IsRun(st, a, b, steps)
    decreases |steps|
  {
    if steps == [] then st else Run(Apply(st, a, b, steps[0]), a, b, steps[1..])
  }

  /** What the last write to sector s in the run says about it. */
  ghost predicate LastVerdict(st: State, a: nat, b: nat, steps: seq<Step>, s: nat, before: bool)
    requires IsRun(st, a, b, steps)
    decreases |steps|
  {
    if steps == [] then before
    else LastVerdict(Apply(st, a, b, steps[0]), a, b, steps[1..], s, Verdict(st, a, b, steps[0], s, before))
  }

  lemma {:induction false} RunKeeps(st: State, a: nat, b: nat, steps: seq<Step>, s: nat, before: bool)
    requires InvAt(st, a, b, s) && HeadsAt(st, a, b, s, before) && IsRun(st, a, b, steps)
    ensures InvAt(Run(st, a, b, steps), a, b, s)
    ensures HeadsAt(Run(st, a, b, steps), a, b, s, LastVerdict(st, a, b, steps, s, before))
    decreases |steps|
  {
    if steps != [] {
      StepHeads(st, a, b, steps[0], s, before);
      RunKeeps(Apply(st, a, b, steps[0]), a, b, steps[1..], s, Verdict(st, a, b, steps[0], s, before));
    }
  }

  /** Sector s of every layer between the checkpoint and the head has been copied. */
  ghost predicate FullyCopied(st: State, a: nat, s: nat) {
    forall i: nat :: IsCopied(st.src, a, i) ==> (i, s) in st.copied
  }

  lemma MatchesIsEqual(st: State, a: nat, b: nat, s: nat)
    requires InvAt(st, a, b, s) && FullyCopied(st, a, s)
    requires s !in st.src[Head(st.src)]
    ensures Live(st.dst, s) == Live(st.src, s)
  {
    var head, t := Head(st.src), Top(st.src, s, Head(st.src));
    TopIsTop(st.src, s, head);
    forall j | b < j <= Head(st.dst) && (t <= a || j > Twin(a, b, t))
      ensures s !in st.dst[j]
    {
      var i := j - b + a;
      assert i < head ==> IsCopied(st.src, a, i) && Twin(a, b, i) == j;
    }
    if t > a {
      TopUnique(st.dst, s, Head(st.dst), Twin(a, b, t));
    } else {
      TopIsTop(st.dst, s, b);
      TopUnique(st.dst, s, Head(st.dst), Top(st.dst, s, b));
      TopUnique(st.src, s, a, t);
    }
  }

  /**
    Whatever the interleaving of writes, copying and hole punching: once every layer
    above the checkpoint has been copied, the two replicas show the same in a sector
    if and only if the last write to it, if it wrote only part of it, found them
    agreeing on the rest.
  */
  lemma RebuiltEqualsSourceIff(st: State, a: nat, b: nat, steps: seq<Step>, s: nat)
    requires Initial(st, a, b) && IsRun(st, a, b, steps)
    requires FullyCopied(Run(st, a, b, steps), a, s)
    ensures |Run(st, a, b, steps).dst| > 0 && |Run(st, a, b, steps).src| > 0
    ensures Live(Run(st, a, b, steps).dst, s) == Live(Run(st, a, b, steps).src, s)
            <==> LastVerdict(st, a, b, steps, s, true)
  {
    TopIsTop(st.src, s, Head(st.src));
    RunKeeps(st, a, b, steps, s, true);
    var end := Run(st, a, b, steps);
    if s in end.src[Head(end.src)] {
      TopUnique(end.src, s, Head(end.src), Head(end.src));
      TopUnique(end.dst, s, Head(end.dst), Head(end.dst));
    } else {
      MatchesIsEqual(end, a, b, s);
    }
  }

  /** Every write of the run is aligned to sectors. */
  predicate AlignedWrites(steps: seq<Step>) {
    forall k :: 0 <= k < |steps| ==> !steps[k].PatchBoth?
  }

  lemma {:induction false} AlignedAgree(st: State, a: nat, b: nat, steps: seq<Step>, s: nat)
    requires IsRun(st, a, b, steps) && AlignedWrites(steps)
    ensures LastVerdict(st, a, b, steps, s, true)
    decreases |steps|
  {
    if steps != [] {
      AlignedAgree(Apply(st, a, b, steps[0]), a, b, steps[1..], s);
    }
  }

  /** With writes that are aligned to sectors the rebuilt replica equals its source. */
  lemma RebuiltEqualsSource(st: State, a: nat, b: nat, steps: seq<Step>, s: nat)
    requires Initial(st, a, b) && IsRun(st, a, b, steps) && AlignedWrites(steps)
    requires FullyCopied(Run(st, a, b, steps), a, s)
    ensures |Run(st, a, b, steps).dst| > 0 && |Run(st, a, b, steps).src| > 0
    ensures Live(Run(st, a, b, steps).dst, s) == Live(Run(st, a, b, steps).src, s)
  {
    AlignedAgree(st, a, b, steps, s);
    RebuiltEqualsSourceIff(st, a, b, steps, s);
  }

  /**
    A rebuild that ends with a replica different from its source: sector 0 is
    patched before it is copied, and the copy comes too late.
  */
  lemma PartialWriteDiverges(block: Block) returns (st: State, steps: seq<Step>)
    requires |block| == SectorSize && block[1] != 0
    ensures Initial(st, 0, 0) && IsRun(st, 0, 0, steps)
    ensures FullyCopied(Run(st, 0, 0, steps), 0, 0)
    ensures |Run(st, 0, 0, steps).dst| > 0 && |Run(st, 0, 0, steps).src| > 0
    ensures Live(Run(st, 0, 0, steps).dst, 0) != Live(Run(st, 0, 0, steps).src, 0)
  {
    st := State([map[], map[0 := block], map[]], [map[], map[], map[]], {});
    var patch, copy := PatchBoth(0, 0, [7]), CopySector(1, 0);
    steps := [patch, copy];
    TopUnique(st.src, 0, 2, 1);
    TopUnique(st.dst, 0, 2, 0);
    assert Live(st.src, 0)[1] == block[1] && Live(st.dst, 0)[1] == 0;
    assert !AgreeOutside(Live(st.src, 0), Live(st.dst, 0), 0, 1) by {
      assert Live(st.src, 0)[1..][0] == block[1] && Live(st.dst, 0)[1..][0] == 0;
    }
    var st1 := Apply(st, 0, 0, patch);
    var st2 := Apply(st1, 0, 0, copy);
    assert steps[1..] == [copy] && [copy][1..] == [];
    assert IsRun(st2, 0, 0, []) && IsRun(st1, 0, 0, [copy]);
    assert Run(st1, 0, 0, [copy]) == Run(st2, 0, 0, []) == st2;
    assert Run(st, 0, 0, steps) == Run(st1, 0, 0, [copy]);
    assert !LastVerdict(st1, 0, 0, [copy], 0, false);
    RebuiltEqualsSourceIff(st, 0, 0, steps, 0);
  }
}
