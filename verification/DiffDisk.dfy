/**
  The differencing disk of a replica at byte granularity.  Reads and writes of
  any offset and length are split at sector boundaries; reads are batched into
  runs of sectors that live in the same file; the location cache is filled
  lazily; overwritten sectors are sent to the hole queue.
*/
module DiffDiskModel {
  import opened Layers
  import opened Volume
  import opened Coalesce

  // ---- The flat view ----

  ghost predicate WellFormed(L: seq<Layer>) {
    forall i, s :: 0 <= i < |L| && s in L[i] ==> |L[i][s]| == SectorSize
  }

  lemma ViewSize(L: seq<Layer>, s: nat, u: nat)
    requires WellFormed(L) && u < |L|
    ensures |View(L, s, u)| == SectorSize
  {
  }

  /** Byte a of the volume, as the live view shows it. */
  ghost function ByteAt(L: seq<Layer>, a: nat): Byte
    requires WellFormed(L) && |L| > 0
  {
    ViewSize(L, a / SectorSize, Head(L));
    Live(L, a / SectorSize)[a % SectorSize]
  }

  /** The whole volume as one array of bytes. */
  ghost function Flat(L: seq<Layer>, sectors: nat): (r: seq<Byte>)
    requires WellFormed(L) && |L| > 0
    ensures |r| == sectors * SectorSize
    ensures forall a :: 0 <= a < |r| ==> r[a] == ByteAt(L, a)
  {
    seq(sectors * SectorSize, a requires 0 <= a => ByteAt(L, a))
  }

  ghost function Splice(bytes: seq<Byte>, offset: nat, buf: seq<Byte>): seq<Byte>
    requires offset + |buf| <= |bytes|
  {
    bytes[..offset] + buf + bytes[offset + |buf|..]
  }

  /** A buffer of whole sectors, cut into blocks. */
  function Blocks(buf: seq<Byte>): (r: seq<Block>)
    requires |buf| % SectorSize == 0
    ensures |r| == |buf| / SectorSize
    ensures forall k :: 0 <= k < |r| ==> r[k] == buf[k * SectorSize..(k + 1) * SectorSize]
  {
    seq(|buf| / SectorSize, k requires 0 <= k < |buf| / SectorSize => buf[k * SectorSize..(k + 1) * SectorSize])
  }

  /** The flat view of L' is that of L with the buffer put in at the offset. */
  ghost predicate Spliced(L: seq<Layer>, L': seq<Layer>, offset: nat, buf: seq<Byte>) {
    && WellFormed(L) && WellFormed(L') && |L| > 0 && |L'| > 0
    && forall a: nat :: ByteAt(L', a) == if offset <= a < offset + |buf| then buf[a - offset] else ByteAt(L, a)
  }

  /** Writing two adjacent pieces is writing their concatenation. */
  lemma SplicedTwice(L: seq<Layer>, L1: seq<Layer>, L2: seq<Layer>, offset: nat, buf: seq<Byte>, cut: nat)
    requires cut <= |buf|
    requires Spliced(L, L1, offset, buf[..cut])
    requires Spliced(L1, L2, offset + cut, buf[cut..])
    ensures Spliced(L, L2, offset, buf)
  {
  }

  lemma FirstTwoPieces(L: seq<Layer>, L1: seq<Layer>, L2: seq<Layer>, offset: nat, buf: seq<Byte>, lo: nat, hi: nat)
    requires lo <= hi <= |buf|
    requires Spliced(L, L1, offset, buf[..lo])
    requires Spliced(L1, L2, offset + lo, buf[lo..hi])
    ensures Spliced(L, L2, offset, buf[..hi])
  {
    assert buf[..hi][..lo] == buf[..lo] && buf[..hi][lo..] == buf[lo..hi];
    SplicedTwice(L, L1, L2, offset, buf[..hi], lo);
  }

  lemma SplicedFlat(L: seq<Layer>, L': seq<Layer>, sectors: nat, offset: nat, buf: seq<Byte>)
    requires Spliced(L, L', offset, buf) && offset + |buf| <= sectors * SectorSize
    ensures Flat(L', sectors) == Splice(Flat(L, sectors), offset, buf)
  {
  }

  /** A full write splices its buffer into the flat view. */
  lemma FullWriteBytes(v: Vol, buf: seq<Byte>, offset: nat)
    requires |v.layers| >= 2 && Inv(v, {Head(v.layers)}) && WellFormed(v.layers)
    requires offset % SectorSize == 0 && |buf| % SectorSize == 0
    requires offset + |buf| <= |v.location| * SectorSize
    ensures Spliced(v.layers, FullWrite(v, offset / SectorSize, Blocks(buf)).layers, offset, buf)
  {
    var first := offset / SectorSize;
    var v' := FullWrite(v, first, Blocks(buf));
    assert WellFormed(v'.layers);
    forall a: nat
      ensures ByteAt(v'.layers, a) == if offset <= a < offset + |buf| then buf[a - offset] else ByteAt(v.layers, a)
    {
      FullWriteByte(v, v', buf, offset, a);
    }
  }

  lemma FullWriteByte(v: Vol, v': Vol, buf: seq<Byte>, offset: nat, a: nat)
    requires |v.layers| >= 2 && WellFormed(v.layers) && WellFormed(v'.layers)
    requires offset % SectorSize == 0 && |buf| % SectorSize == 0
    requires offset + |buf| <= |v.location| * SectorSize
    requires v' == FullWrite(v, offset / SectorSize, Blocks(buf))
    ensures |v'.layers| > 0
    ensures ByteAt(v'.layers, a) == if offset <= a < offset + |buf| then buf[a - offset] else ByteAt(v.layers, a)
  {
    FullWriteTop(v, offset / SectorSize, Blocks(buf), a / SectorSize, Head(v.layers));
    BlockByte(buf, offset, a);
  }

  lemma BlockByte(buf: seq<Byte>, offset: nat, a: nat)
    requires offset % SectorSize == 0 && |buf| % SectorSize == 0
    ensures offset <= a < offset + |buf|
            <==> offset / SectorSize <= a / SectorSize < offset / SectorSize + |Blocks(buf)|
    ensures offset <= a < offset + |buf| ==>
              && |Blocks(buf)[a / SectorSize - offset / SectorSize]| == SectorSize
              && Blocks(buf)[a / SectorSize - offset / SectorSize][a % SectorSize] == buf[a - offset]
  {
    if offset <= a < offset + |buf| {
      var k := a / SectorSize - offset / SectorSize;
      assert k * SectorSize + a % SectorSize == a - offset;
    }
  }

  // ---- Reads ----

  /** Byte a of one file; what was never written reads as zero. */
  function FileByte(layer: Layer, a: nat): Byte
    requires forall s :: s in layer ==> |layer[s]| == SectorSize
  {
    if a / SectorSize in layer then layer[a / SectorSize][a % SectorSize] else 0
  }

  /** Bytes [from, to) of a read at the given offset have arrived in buf[lo..]. */
  ghost predicate Arrived(L: seq<Layer>, buf: array<Byte>, lo: nat, offset: nat, from: nat, to: nat)
    requires WellFormed(L) && |L| > 0 && lo + to <= buf.Length
    reads buf
  {
    forall k :: lo + from <= k < lo + to ==> buf[k] == ByteAt(L, offset + (k - lo))
  }

  /** All sectors of the volume in [first, end) live in the given file. */
  ghost predicate SameTarget(L: seq<Layer>, sectors: nat, first: nat, end: nat, target: nat)
    requires |L| >= 2
  {
    forall t: nat :: first <= t < end && t < sectors ==> target == Target(L, t)
  }

  /** A byte whose sector lives in the given file is read correctly from that file. */
  lemma TargetByte(L: seq<Layer>, target: nat, a: nat)
    requires WellFormed(L) && |L| >= 2 && target == Target(L, a / SectorSize)
    ensures FileByte(L[target], a) == ByteAt(L, a)
  {
    TopIsTop(L, a / SectorSize, Head(L));
  }

  /** A run of sectors that live in one file is read correctly from that file. */
  lemma RunReadsLive(L: seq<Layer>, sectors: nat, target: nat, buf: array<Byte>, lo: nat, offset: nat,
                     first: nat, count: nat)
    requires WellFormed(L) && |L| >= 2 && target < |L|
    requires offset % SectorSize == 0
    requires lo + (first + count) * SectorSize <= buf.Length
    requires SameTarget(L, sectors, offset / SectorSize + first, offset / SectorSize + first + count, target)
    requires offset + (first + count) * SectorSize <= sectors * SectorSize
    requires forall k :: lo + first * SectorSize <= k < lo + (first + count) * SectorSize ==>
               buf[k] == FileByte(L[target], offset + (k - lo))
    ensures Arrived(L, buf, lo, offset, first * SectorSize, (first + count) * SectorSize)
  {
    forall k | lo + first * SectorSize <= k < lo + (first + count) * SectorSize
      ensures buf[k] == ByteAt(L, offset + (k - lo))
    {
      var a := offset + (k - lo);
      assert offset / SectorSize + first <= a / SectorSize < offset / SectorSize + first + count;
      TargetByte(L, target, a);
    }
  }

  lemma AlignedCuts(offset: nat, lo: nat, hi: nat)
    requires lo <= hi && (offset + lo) % SectorSize == 0 && (offset + hi) % SectorSize == 0
    ensures (hi - lo) % SectorSize == 0
  {
  }

  /** Where a read of more than the rest of its first sector is cut. */
  lemma CutsOf(offset: nat, len: nat)
    requires SectorSize - offset % SectorSize < len
    ensures var lo, hi := SectorSize - offset % SectorSize, len - (len + offset) % SectorSize;
            lo <= hi <= len && (offset + lo) % SectorSize == 0 && (offset + hi) % SectorSize == 0 && len - hi < SectorSize
  {
  }

  lemma ArrivedShift(L: seq<Layer>, buf: array<Byte>, lo: nat, offset: nat, len: nat)
    requires WellFormed(L) && |L| > 0 && lo + len <= buf.Length
    requires Arrived(L, buf, lo, offset + lo, 0, len)
    ensures Arrived(L, buf, 0, offset, lo, lo + len)
  {
    forall k | lo <= k < lo + len
      ensures buf[k] == ByteAt(L, offset + (k - 0))
    {
      assert offset + lo + (k - lo) == offset + (k - 0);
    }
  }

  lemma ArrivedIsSlice(L: seq<Layer>, sectors: nat, buf: array<Byte>, offset: nat)
    requires WellFormed(L) && |L| > 0 && offset + buf.Length <= sectors * SectorSize
    requires Arrived(L, buf, 0, offset, 0, buf.Length)
    ensures buf[..] == Flat(L, sectors)[offset..offset + buf.Length]
  {
    forall k | 0 <= k < buf.Length
      ensures buf[k] == Flat(L, sectors)[offset..offset + buf.Length][k]
    {
      assert offset + (k - 0) == offset + k;
    }
  }

  // ---- Read-modify-write ----

  function Patch(bytes: seq<Byte>, at: nat, buf: seq<Byte>): (r: seq<Byte>)
    requires at + |buf| <= |bytes|
    ensures |r| == |bytes|
  {
    bytes[..at] + buf + bytes[at + |buf|..]
  }

  /** Writing back a sector read from the live view, with a patch, splices just the patch. */
  lemma PatchedBytes(L: seq<Layer>, L': seq<Layer>, base: nat, at: nat, buf: seq<Byte>, bytes: seq<Byte>)
    requires WellFormed(L) && |L| > 0 && at + |buf| <= |bytes|
    requires forall k :: 0 <= k < |bytes| ==> bytes[k] == ByteAt(L, base + k)
    requires Spliced(L, L', base, Patch(bytes, at, buf))
    ensures Spliced(L, L', base + at, buf)
  {
    forall a: nat
      ensures ByteAt(L', a) == if base + at <= a < base + at + |buf| then buf[a - base - at] else ByteAt(L, a)
    {
      if base <= a < base + |bytes| {
        assert Patch(bytes, at, buf)[a - base] == ByteAt(L', a);
        assert bytes[a - base] == ByteAt(L, a);
      }
    }
  }

  // ---- Removing a layer ----

  lemma FoldKeepsLive(L: seq<Layer>, i: nat, s: nat)
    requires 2 <= i < |L| - 1
    ensures Top(Fold(L, i), s, Head(L)) == Top(L, s, Head(L)) && Live(Fold(L, i), s) == Live(L, s)
  {
    TopIsTop(L, s, Head(L));
    TopUnique(Fold(L, i), s, Head(L), Top(L, s, Head(L)));
  }

  lemma SameLiveSameFlat(L: seq<Layer>, L': seq<Layer>, sectors: nat)
    requires WellFormed(L) && WellFormed(L') && |L| > 0 && |L'| > 0
    requires forall s: nat :: Live(L', s) == Live(L, s)
    ensures Flat(L', sectors) == Flat(L, sectors)
  {
    forall a: nat
      ensures ByteAt(L', a) == ByteAt(L, a)
    {
      assert Live(L', a / SectorSize) == Live(L, a / SectorSize);
    }
  }

  /** Folding the layer down would change nothing any more. */
  predicate IsFolded(L: seq<Layer>, i: nat) {
    2 <= i < |L| - 1 && L == Fold(L, i)
  }

  lemma FoldIsFolded(L: seq<Layer>, i: nat)
    requires 2 <= i < |L| - 1
    ensures IsFolded(Fold(L, i), i)
  {
    var F := Fold(L, i);
    assert F[i - 1] + F[i] == F[i - 1];
  }

  // ---- Writes to the head file ----

  /** The layer differs from what it was at most in sectors of [first, first + count). */
  ghost predicate StoresWithin(was: Layer, now: Layer, first: nat, count: nat) {
    && (forall s: nat :: !(first <= s < first + count) ==> (s in now <==> s in was))
    && (forall s: nat :: !(first <= s < first + count) && s in was ==> now[s] == was[s])
    && (forall s: nat :: s in now ==> |now[s]| == SectorSize)
  }

  /** Only the head has changed, and no sector outside [first, first + count) has another live block in L' than in L. */
  ghost predicate SameOutside(L: seq<Layer>, L': seq<Layer>, first: nat, count: nat) {
    && |L| == |L'|
    && |L| > 0
    && L'[..Head(L)] == L[..Head(L)]
    && forall s: nat :: !(first <= s < first + count) ==>
         Top(L', s, Head(L)) == Top(L, s, Head(L)) && Live(L', s) == Live(L, s)
  }

  /**
    What a write may have done, successful or not: no sector outside the range has
    moved or changed, the cache is right outside the range, and the holes it has
    queued lie in the range, in files below the head.
  */
  ghost predicate Touches(v: Vol, w: Vol, first: nat, count: nat) {
    && |v.layers| >= 2
    && SameOutside(v.layers, w.layers, first, count)
    && |w.location| == |v.location|
    && (forall s :: 0 <= s < |w.location| && !(first <= s < first + count) ==>
          w.location[s] == 0 || w.location[s] == Target(w.layers, s))
    && |v.holes| <= |w.holes| && w.holes[..|v.holes|] == v.holes
    && (forall k :: |v.holes| <= k < |w.holes| ==> HoleWithin(w.holes[k], first, first + count, Head(v.layers)))
  }

  /** How many of the sectors start, ..., end - 1 have no known location. */
  function Unknown(location: seq<nat>, start: nat, end: nat): nat
    requires start <= end <= |location|
  {
    if end == start then 0 else Unknown(location, start, end - 1) + if location[end - 1] == 0 then 1 else 0
  }

  /** How many of the sectors start, ..., end - 1 are not known to be in the given file. */
  function NotIn(location: seq<nat>, target: nat, start: nat, end: nat): nat
    requires start <= end <= |location|
  {
    if end == start then 0 else NotIn(location, target, start, end - 1) + if location[end - 1] != target then 1 else 0
  }

  lemma {:induction false} UnknownIsCount(location: seq<nat>, start: nat, end: nat)
    requires start <= end <= |location|
    ensures Unknown(location, start, end) == |set s | start <= s < end && location[s] == 0|
  {
    var all := set s | start <= s < end && location[s] == 0;
    if end == start {
      assert all == {};
    } else {
      UnknownIsCount(location, start, end - 1);
      var init := set s | start <= s < end - 1 && location[s] == 0;
      assert all == if location[end - 1] == 0 then init + {end - 1} else init;
    }
  }

  lemma {:induction false} NotInIsCount(location: seq<nat>, target: nat, start: nat, end: nat)
    requires start <= end <= |location|
    ensures NotIn(location, target, start, end) == |set s | start <= s < end && location[s] != target|
  {
    var all := set s | start <= s < end && location[s] != target;
    if end == start {
      assert all == {};
    } else {
      NotInIsCount(location, target, start, end - 1);
      var init := set s | start <= s < end - 1 && location[s] != target;
      assert all == if location[end - 1] != target then init + {end - 1} else init;
    }
  }

  /**
    The counters after a write of the given sectors: what had no location is a new
    logical block, what was not in the head is a new block, and the sectors of the
    holes sent are blocks no more.
  */
  ghost predicate Recounted(v: Vol, first: nat, count: nat, logical: int, used: int, logical': int, used': int)
    requires |v.layers| > 0 && first + count <= |v.location|
  {
    && logical' == logical + Unknown(v.location, first, first + count)
    && used' == used + NotIn(v.location, Head(v.layers), first, first + count) - Total(SentBy(v, first, count))
  }

  function RunHole(run: Run, layer: nat, snapIndx: nat, punching: bool): seq<Hole> {
    if Sends(run, snapIndx, punching) then [Hole(layer, run.first, run.count)] else []
  }

  function RunCount(run: Run, snapIndx: nat, punching: bool): nat {
    if Sends(run, snapIndx, punching) then run.count else 0
  }

  ghost predicate MarkedTo(was: seq<nat>, location: seq<nat>, start: nat, s: nat, target: nat) {
    |location| == |was| && forall k :: 0 <= k < |was| ==> location[k] == if start <= k < s then target else was[k]
  }

  /** The loop of a write has come to sector s: the pending run, the holes sent and the two counters. */
  ghost predicate Walked(v: Vol, start: nat, s: nat, run: Run, logical: int, used: int,
                         holes: seq<Hole>, logical': int, used': int)
    requires |v.layers| > 0 && start <= s <= |v.location|
  {
    var w := WalkTo(v.location, Head(v.layers), v.snapIndx, v.punching, start, s);
    && run == w.run && holes == v.holes + w.sent
    && logical' == logical + Unknown(v.location, start, s)
    && used' == used + NotIn(v.location, Head(v.layers), start, s) - Total(w.sent)
  }

  /** What the loop has to do about sector s. */
  lemma WalkedOn(v: Vol, start: nat, s: nat, run: Run, logical: int, used: int, holes: seq<Hole>, logical': int, used': int)
    requires |v.layers| >= 2 && start <= s < |v.location|
    requires Walked(v, start, s, run, logical, used, holes, logical', used')
    ensures var val := v.location[s];
            if val == 0 then
              Walked(v, start, s + 1, run, logical, used, holes, logical' + 1, used' + 1)
            else if val == Head(v.layers) then
              Walked(v, start, s + 1, run, logical, used, holes, logical', used')
            else if Breaks(val, s, run) then
              Walked(v, start, s + 1, Run(val, s, 1), logical, used, holes + RunHole(run, val, v.snapIndx, v.punching),
                     logical', used' - RunCount(run, v.snapIndx, v.punching) + 1)
            else
              Walked(v, start, s + 1, run.(count := run.count + 1), logical, used, holes, logical', used' + 1)
  {
    var val := v.location[s];
    var w := WalkTo(v.location, Head(v.layers), v.snapIndx, v.punching, start, s);
    assert WalkTo(v.location, Head(v.layers), v.snapIndx, v.punching, start, s + 1)
        == Visit(w, s, val, Head(v.layers), v.snapIndx, v.punching);
    RunSent(v.holes, w.sent, run, val, v.snapIndx, v.punching);
  }

  lemma RunSent(was: seq<Hole>, sent: seq<Hole>, run: Run, layer: nat, snapIndx: nat, punching: bool)
    ensures var more := RunHole(run, layer, snapIndx, punching);
            && sent + more == (if Sends(run, snapIndx, punching) then sent + [Hole(layer, run.first, run.count)] else sent)
            && was + sent + more == was + (sent + more)
            && Total(sent + more) == Total(sent) + RunCount(run, snapIndx, punching)
  {
    TotalMore(sent, RunHole(run, layer, snapIndx, punching));
  }

  lemma WalkedToEnd(v: Vol, start: nat, end: nat, run: Run, logical: int, used: int, holes: seq<Hole>, logical': int, used': int)
    requires |v.layers| > 0 && start <= end <= |v.location|
    requires Walked(v, start, end, run, logical, used, holes, logical', used')
    ensures var layer := if run.Run? then run.layer else 0;
            && holes + RunHole(run, layer, v.snapIndx, v.punching) == v.holes + SentBy(v, start, end - start)
            && Recounted(v, start, end - start, logical, used, logical', used' - RunCount(run, v.snapIndx, v.punching))
  {
    var sent := WalkTo(v.location, Head(v.layers), v.snapIndx, v.punching, start, end).sent;
    RunSent(v.holes, sent, run, if run.Run? then run.layer else 0, v.snapIndx, v.punching);
  }

  /** How many sectors a nonempty range of bytes lies in. */
  function SectorsTouched(offset: nat, len: nat): nat
    requires len > 0
  {
    (offset + len - 1) / SectorSize - offset / SectorSize + 1
  }

  lemma TouchesFew(offset: nat, len: nat)
    requires len > 0
    ensures offset % SectorSize + len <= SectorSize ==> SectorsTouched(offset, len) == 1
    ensures offset % SectorSize == 0 && len % SectorSize == 0 ==> SectorsTouched(offset, len) == len / SectorSize
  {
  }

  /** The sectors of the pieces of a write are among the sectors of the write. */
  lemma FrontWithin(offset: nat, len: nat, startCut: nat, endCut: nat)
    requires 0 < startCut == SectorSize - offset % SectorSize && startCut <= endCut <= len
    requires (offset + endCut) % SectorSize == 0
    ensures var first, count := offset / SectorSize, SectorsTouched(offset, len);
            && count >= 1
            && (offset + startCut) % SectorSize == 0 && (endCut - startCut) % SectorSize == 0
            && first <= (offset + startCut) / SectorSize
            && (offset + startCut) / SectorSize + (endCut - startCut) / SectorSize <= first + count
            && (endCut < len ==> first <= (offset + endCut) / SectorSize && (offset + endCut) / SectorSize + 1 <= first + count)
  {
  }

  lemma TouchesMore(v: Vol, w: Vol, z: Vol, first: nat, count: nat, f: nat, c: nat)
    requires Touches(v, w, first, count)
    requires Touches(w, z, f, c)
    requires first <= f && f + c <= first + count
    ensures Touches(v, z, first, count)
  {
    assert forall k :: 0 <= k < |w.holes| ==> z.holes[k] == w.holes[k] by {
      assert forall k :: 0 <= k < |w.holes| ==> z.holes[..|w.holes|][k] == w.holes[k];
    }
    assert z.holes[..|v.holes|] == w.holes[..|v.holes|];
    SameOutsideTrans(v.layers, w.layers, z.layers, first, count, f, c);
  }

  lemma SameOutsideTrans(L: seq<Layer>, L1: seq<Layer>, L2: seq<Layer>, first: nat, count: nat, f: nat, c: nat)
    requires SameOutside(L, L1, first, count)
    requires SameOutside(L1, L2, f, c)
    requires first <= f && f + c <= first + count
    ensures SameOutside(L, L2, first, count)
  {
  }

  lemma TouchesWider(v: Vol, w: Vol, first: nat, count: nat, f: nat, c: nat)
    requires Touches(v, w, f, c)
    requires first <= f && f + c <= first + count
    ensures Touches(v, w, first, count)
  {
  }

  /** Looking up sectors touches nothing. */
  lemma LookedUp(v: Vol, w: Vol, first: nat, count: nat)
    requires |v.layers| >= 2 && w == v.(location := w.location) && |w.location| == |v.location|
    requires Coherent(w.layers, w.location)
    ensures Touches(v, w, first, count)
  {
  }

  /** Writing the head file and marking the sectors touches only the range, even if the file write failed. */
  lemma BlocksTouch(v: Vol, w: Vol, x: Vol, first: nat, count: nat)
    requires |v.layers| >= 2 && first + count <= |v.location| && Coherent(v.layers, v.location)
    requires w == v.(layers := w.layers) && SameOutside(v.layers, w.layers, first, count)
    requires x == w.(location := MarkWritten(v.location, first, count, Head(v.layers)),
                     holes := v.holes + SentBy(w, first, count))
    ensures Touches(v, x, first, count)
  {
    WalkStaysWithin(v.location, Head(v.layers), v.snapIndx, v.punching, first, first + count);
  }

  lemma StoredOutside(L: seq<Layer>, now: Layer, first: nat, count: nat, s: nat)
    requires |L| > 0
    requires StoresWithin(L[Head(L)], now, first, count)
    requires !(first <= s < first + count)
    ensures Top(L[Head(L) := now], s, Head(L)) == Top(L, s, Head(L))
    ensures Live(L[Head(L) := now], s) == Live(L, s)
  {
    TopIsTop(L, s, Head(L));
    TopUnique(L[Head(L) := now], s, Head(L), Top(L, s, Head(L)));
  }

  lemma StoredSame(L: seq<Layer>, now: Layer, first: nat, count: nat)
    requires |L| > 0 && WellFormed(L)
    requires StoresWithin(L[Head(L)], now, first, count)
    ensures SameOutside(L, L[Head(L) := now], first, count) && WellFormed(L[Head(L) := now])
  {
    var L' := L[Head(L) := now];
    forall s: nat | !(first <= s < first + count)
      ensures Top(L', s, Head(L)) == Top(L, s, Head(L)) && Live(L', s) == Live(L, s)
    {
      StoredOutside(L, now, first, count, s);
    }
  }

  /** Writing the head file and then marking the sectors is a full write. */
  lemma IsFullWrite(v: Vol, w: Vol, x: Vol, first: nat, blocks: seq<Block>)
    requires |v.layers| >= 2 && first + |blocks| <= |v.location|
    requires w == v.(layers := WriteTop(v.layers, first, blocks))
    requires x == w.(location := MarkWritten(v.location, first, |blocks|, Head(v.layers)),
                     holes := v.holes + SentBy(w, first, |blocks|))
    ensures x == FullWrite(v, first, blocks)
  {
  }

  lemma FullWriteValid(v: Vol, first: nat, blocks: seq<Block>)
    requires |v.layers| >= 2 && Inv(v, {Head(v.layers)}) && WellFormed(v.layers)
    requires first + |blocks| <= |v.location|
    requires forall b :: b in blocks ==> |b| == SectorSize
    ensures Inv(FullWrite(v, first, blocks), {Head(v.layers)})
    ensures WellFormed(FullWrite(v, first, blocks).layers)
  {
    FullWriteKeeps(v, first, blocks, {Head(v.layers)});
  }

  class DiffDisk {
    var layers: seq<Layer>
    var location: seq<nat>
    var holes: seq<Hole>
    var userCreatedSnap: seq<bool>
    var snapIndx: nat
    var punching: bool
    /** Whether file operations can fail at present. */
    var faulty: bool
    var usedLogicalBlocks: int
    var usedBlocks: int

    ghost function State(): Vol
      reads this
    {
      Vol(layers, location, holes, snapIndx, punching)
    }

    ghost predicate Readable()
      reads this
    {
      && |layers| >= 2
      && WellFormed(layers)
      && Coherent(layers, location)
    }

    /** The cache is coherent and no queued hole can be seen in the live view. */
    ghost predicate Valid()
      reads this
    {
      && Readable()
      && SafeQueue(layers, holes, {Head(layers)})
    }

    /** The volume as one array of bytes. */
    ghost function Contents(): seq<Byte>
      requires Readable()
      reads this
    {
      Flat(layers, |location|)
    }

    /** A volume just created: one empty file and nothing cached. */
    constructor (sectors: nat, punching: bool)
      ensures Valid()
      ensures State() == FreshVol(sectors, punching) && !faulty
      ensures userCreatedSnap == [false, false]
      ensures |userCreatedSnap| == |layers| && MarksCover(userCreatedSnap, snapIndx, {})
      ensures forall a :: 0 <= a < |Contents()| ==> Contents()[a] == 0
      ensures usedLogicalBlocks == 0 && usedBlocks == 0
    {
      layers := [map[], map[]];
      location := seq(sectors, _ => 0);
      holes := [];
      userCreatedSnap := [false, false];
      snapIndx := 0;
      this.punching := punching;
      faulty := false;
      usedLogicalBlocks, usedBlocks := 0, 0;
    }

    /**
      The layer that holds a sector: from the cache, else by probing the files
      from the head down.  A probe may fail; past the end the head is named.
    */
    method Lookup(sector: nat) returns (target: nat, ok: bool)
      requires Readable()
      modifies this`location
      ensures Readable()
      ensures sector < |location| && ok ==> target == Target(layers, sector)
      ensures !faulty ==> ok
      ensures sector >= |location| ==> ok && target == |layers| - 1
      ensures |location| == old(|location|)
      ensures location == old(location)
              || (ok && sector < |location| && State() == Fill(old(State()), sector))
    {
      if sector >= |location| {
        return |layers| - 1, true;
      }
      if |layers| == 2 {
        return 1, true;
      }
      target := location[sector];
      if target != 0 {
        return target, true;
      }
      var i := |layers| - 1;
      while i > 1
        invariant 1 <= i < |layers|
        invariant forall j :: i < j < |layers| ==> sector !in layers[j]
      {
        var fails: bool := *;
        if faulty && fails {
          return 0, false;
        }
        if sector in layers[i] {
          TopUnique(layers, sector, Head(layers), i);
          location := location[sector := i];
          return i, true;
        }
        i := i - 1;
      }
      TopUnique(layers, sector, Head(layers), if sector in layers[1] then 1 else 0);
      location := location[sector := 1];
      return 1, true;
    }

    /**
      Reads whole sectors from one file into buf[lo..].  It fails past the end of
      the volume, and may fail for other reasons.
    */
    method Read(target: nat, buf: array<Byte>, lo: nat, offset: nat, startSector: nat, sectors: nat)
      returns (n: int, ok: bool)
      requires WellFormed(layers) && target < |layers|
      requires lo + (startSector + sectors) * SectorSize <= buf.Length
      modifies buf
      ensures ok ==> n == sectors * SectorSize
      ensures ok ==> offset + (startSector + sectors) * SectorSize <= |location| * SectorSize
      ensures !faulty && offset + (startSector + sectors) * SectorSize <= |location| * SectorSize ==> ok
      ensures forall k :: 0 <= k < buf.Length
                && !(lo + startSector * SectorSize <= k < lo + (startSector + sectors) * SectorSize)
                ==> buf[k] == old(buf[k])
      ensures ok ==> forall k :: lo + startSector * SectorSize <= k < lo + (startSector + sectors) * SectorSize ==>
                buf[k] == FileByte(layers[target], offset + (k - lo))
    {
      var bufStart := startSector * SectorSize;
      var bufEnd := sectors * SectorSize;
      if offset + bufStart + bufEnd > |location| * SectorSize {
        return 0, false;
      }
      var fails: bool := *;
      if faulty && fails {
        return 0, false;
      }
      forall k | lo + bufStart <= k < lo + bufStart + bufEnd {
        buf[k] := FileByte(layers[target], offset + (k - lo));
      }
      return bufEnd, true;
    }

    /** Reads whole sectors, one file access per run of sectors with the same target. */
    method FullReadAt(buf: array<Byte>, lo: nat, len: nat, offset: nat) returns (count: int, ok: bool)
      requires Readable()
      requires lo + len <= buf.Length
      modifies this`location, buf
      ensures Readable() && |location| == old(|location|)
      ensures ok ==> count == len && (len == 0 || offset + len <= |location| * SectorSize)
      ensures ok ==> Arrived(layers, buf, lo, offset, 0, len)
      ensures forall k :: 0 <= k < buf.Length && !(lo <= k < lo + len) ==> buf[k] == old(buf[k])
      ensures len % SectorSize != 0 || offset % SectorSize != 0 ==> !ok
      ensures !faulty && len % SectorSize == 0 && offset % SectorSize == 0 && offset + len <= |location| * SectorSize ==> ok
    {
      if len % SectorSize != 0 || offset % SectorSize != 0 {
        return 0, false;
      }
      if len == 0 {
        return 0, true;
      }
      count := 0;
      ghost var L, n := layers, |location|;
      var sectors := len / SectorSize;
      var readSectors := 1;
      var startSector := offset / SectorSize;
      var target: nat;
      var c: int;
      target, ok := Lookup(startSector);
      if !ok {
        return count, false;
      }
      var i := 1;
      while i < sectors
        invariant 1 <= i <= sectors
        invariant 1 <= readSectors <= i
        invariant Readable() && |location| == n && target < |L|
        invariant count == (i - readSectors) * SectorSize
        invariant SameTarget(L, n, startSector + i - readSectors, startSector + i, target)
        invariant Arrived(L, buf, lo, offset, 0, (i - readSectors) * SectorSize)
        invariant forall k :: 0 <= k < buf.Length && !(lo <= k < lo + len) ==> buf[k] == old(buf[k])
      {
        var newTarget: nat;
        newTarget, ok := Lookup(startSector + i);
        if !ok {
          return count, false;
        }
        if newTarget == target {
          readSectors := readSectors + 1;
        } else {
          c, ok := Read(target, buf, lo, offset, i - readSectors, readSectors);
          count := count + c;
          if !ok {
            return count, false;
          }
          RunReadsLive(L, n, target, buf, lo, offset, i - readSectors, readSectors);
          readSectors := 1;
          target := newTarget;
        }
        i := i + 1;
      }
      c, ok := Read(target, buf, lo, offset, sectors - readSectors, readSectors);
      count := count + c;
      if ok {
        RunReadsLive(L, n, target, buf, lo, offset, sectors - readSectors, readSectors);
      }
    }

    /** Reads part of one sector through a bounce buffer. */
    method ReadPart(buf: array<Byte>, lo: nat, len: nat, offset: nat) returns (ok: bool)
      requires Readable()
      requires lo + len <= buf.Length && offset % SectorSize + len <= SectorSize
      modifies this`location, buf
      ensures Readable() && |location| == old(|location|)
      ensures ok ==> offset + len <= |location| * SectorSize && Arrived(layers, buf, lo, offset, 0, len)
      ensures !faulty && 0 < len && offset + len <= |location| * SectorSize ==> ok
      ensures forall k :: 0 <= k < buf.Length && !(lo <= k < lo + len) ==> buf[k] == old(buf[k])
    {
      var start := offset % SectorSize;
      var base := offset - start;
      var bytes;
      bytes, ok := ReadSector(base);
      if ok {
        forall k | lo <= k < lo + len {
          buf[k] := bytes[start + (k - lo)];
        }
        forall k | lo <= k < lo + len
          ensures buf[k] == ByteAt(layers, offset + (k - lo))
        {
          var j := start + (k - lo);
          assert bytes[j] == ByteAt(layers, base + j);
        }
      }
    }

    /** Reads any range: a partial first sector, whole sectors, a partial last sector. */
    method ReadAt(buf: array<Byte>, offset: nat) returns (n: int, ok: bool)
      requires Valid()
      modifies this`location, buf
      ensures Valid() && |location| == old(|location|)
      ensures ok ==> n == buf.Length && (buf.Length == 0 || offset + buf.Length <= |Contents()|)
      ensures !faulty && offset + buf.Length <= |Contents()| ==> ok
      ensures ok && buf.Length > 0 ==> buf[..] == Contents()[offset..offset + buf.Length]
    {
      var len := buf.Length;
      var startOffset := offset % SectorSize;
      var startCut := SectorSize - startOffset;
      var endOffset := (len + offset) % SectorSize;
      if len == 0 {
        return 0, true;
      }
      if startOffset == 0 && endOffset == 0 {
        n, ok := FullReadAt(buf, 0, len, offset);
        if ok {
          ArrivedIsSlice(layers, |location|, buf, offset);
        }
        return;
      }
      var cut := if startCut < len then startCut else len;
      ok := ReadPart(buf, 0, cut, offset);
      if !ok {
        return 0, false;
      }
      if startCut >= len {
        ArrivedIsSlice(layers, |location|, buf, offset);
        return len, true;
      }
      CutsOf(offset, len);
      ok := ReadRest(buf, startCut, len - endOffset, offset);
      if !ok {
        return 0, false;
      }
      ArrivedIsSlice(layers, |location|, buf, offset);
      return len, true;
    }

    /** The whole sectors and the partial last sector of a read whose first piece has arrived. */
    method ReadRest(buf: array<Byte>, startCut: nat, endCut: nat, offset: nat) returns (ok: bool)
      requires Readable()
      requires startCut <= endCut <= buf.Length
      requires (offset + startCut) % SectorSize == 0 && (offset + endCut) % SectorSize == 0
      requires 0 < buf.Length - startCut && buf.Length - endCut < SectorSize
      requires Arrived(layers, buf, 0, offset, 0, startCut)
      modifies this`location, buf
      ensures Readable() && |location| == old(|location|)
      ensures ok ==> offset + buf.Length <= |location| * SectorSize && Arrived(layers, buf, 0, offset, 0, buf.Length)
      ensures !faulty && offset + buf.Length <= |location| * SectorSize ==> ok
    {
      var n;
      AlignedCuts(offset, startCut, endCut);
      n, ok := FullReadAt(buf, startCut, endCut - startCut, offset + startCut);
      if ok {
        ArrivedShift(layers, buf, startCut, offset, endCut - startCut);
        if endCut < buf.Length {
          ok := ReadPart(buf, endCut, buf.Length - endCut, offset + endCut);
          if ok {
            ArrivedShift(layers, buf, endCut, offset, buf.Length - endCut);
          }
        }
      }
    }

    /**
      Writes whole sectors to the head file.  A write that fails may have stored
      any of its sectors, with any contents.
    */
    method WriteHead(first: nat, blocks: seq<Block>) returns (ok: bool)
      requires |layers| >= 2 && WellFormed(layers)
      requires forall b :: b in blocks ==> |b| == SectorSize
      modifies this`layers
      ensures |layers| == old(|layers|) && WellFormed(layers)
      ensures ok ==> layers == WriteTop(old(layers), first, blocks)
      ensures !faulty ==> ok
      ensures SameOutside(old(layers), layers, first, |blocks|)
    {
      var head := |layers| - 1;
      var was := layers[head];
      var fails: bool := *;
      ok := !(faulty && fails);
      var now := WriteSectors(was, first, blocks);
      if !ok {
        var any: Layer := *;
        now := was + map s: nat | s in any && first <= s < first + |blocks| && |any[s]| == SectorSize :: any[s];
      }
      assert StoresWithin(was, now, first, |blocks|);
      StoredSame(layers, now, first, |blocks|);
      layers := layers[head := now];
    }

    /**
      Marks sectors as living in the head and sends each run of sectors that
      lived in one older file to the hole queue.
    */
    method MarkAndSend(startSector: nat, sectors: nat)
      requires |layers| >= 2
      requires startSector + sectors <= |location|
      modifies this`location, this`holes, this`usedLogicalBlocks, this`usedBlocks
      ensures location == MarkWritten(old(location), startSector, sectors, Head(layers))
      ensures holes == old(holes) + SentBy(old(State()), startSector, sectors)
      ensures Recounted(old(State()), startSector, sectors, old(usedLogicalBlocks), old(usedBlocks), usedLogicalBlocks, usedBlocks)
    {
      var target := |layers| - 1;
      var end := startSector + sectors;
      ghost var v, was := State(), location;
      var run := NoRun;
      var s := startSector;
      while s < end
        invariant startSector <= s <= end
        invariant MarkedTo(was, location, startSector, s, target)
        invariant Walked(v, startSector, s, run, old(usedLogicalBlocks), old(usedBlocks), holes, usedLogicalBlocks, usedBlocks)
      {
        run := MarkOne(s, target, run, v, startSector, old(usedLogicalBlocks), old(usedBlocks));
        s := s + 1;
      }
      WalkedToEnd(v, startSector, end, run, old(usedLogicalBlocks), old(usedBlocks), holes, usedLogicalBlocks, usedBlocks);
      SendRun(run, if run.Run? then run.layer else 0);
    }

    /** One sector of the loop. */
    method MarkOne(s: nat, target: nat, run: Run, ghost v: Vol, ghost start: nat, ghost logical: int, ghost used: int)
      returns (run': Run)
      requires start <= s < |location| == |v.location| && |v.layers| >= 2
      requires target == Head(v.layers) && snapIndx == v.snapIndx && punching == v.punching
      requires MarkedTo(v.location, location, start, s, target)
      requires Walked(v, start, s, run, logical, used, holes, usedLogicalBlocks, usedBlocks)
      modifies this`location, this`holes, this`usedLogicalBlocks, this`usedBlocks
      ensures |location| == |v.location| && MarkedTo(v.location, location, start, s + 1, target)
      ensures Walked(v, start, s + 1, run', logical, used, holes, usedLogicalBlocks, usedBlocks)
    {
      var val := location[s];
      run' := run;
      WalkedOn(v, start, s, run, logical, used, holes, usedLogicalBlocks, usedBlocks);
      if val == 0 {
        usedLogicalBlocks := usedLogicalBlocks + 1;
        usedBlocks := usedBlocks + 1;
      } else if val != target {
        if Breaks(val, s, run) {
          SendRun(run, val);
          run' := Run(val, s, 1);
        } else {
          run' := run.(count := run.count + 1);
        }
        usedBlocks := usedBlocks + 1;
      }
      location := location[s := target];
    }

    /** Ends a run: its sectors are sent as a hole of the given file, if the run may be sent. */
    method SendRun(run: Run, layer: nat)
      modifies this`holes, this`usedBlocks
      ensures holes == old(holes) + RunHole(run, layer, snapIndx, punching)
      ensures usedBlocks == old(usedBlocks) - RunCount(run, snapIndx, punching)
    {
      if Sends(run, snapIndx, punching) {
        usedBlocks := usedBlocks - run.count;
        holes := holes + [Hole(layer, run.first, run.count)];
      }
    }

    /**
      Writes whole sectors: the head file first, then the location cache, which
      marks the sectors as written whether or not the file write succeeded.
    */
    method WriteBlocks(first: nat, blocks: seq<Block>) returns (ok: bool)
      requires Valid()
      requires first + |blocks| <= |location|
      requires forall b :: b in blocks ==> |b| == SectorSize
      modifies this`layers, this`location, this`holes, this`usedLogicalBlocks, this`usedBlocks
      ensures |location| == old(|location|)
      ensures ok ==> Valid() && State() == FullWrite(old(State()), first, blocks)
      ensures Recounted(old(State()), first, |blocks|, old(usedLogicalBlocks), old(usedBlocks), usedLogicalBlocks, usedBlocks)
      ensures !faulty ==> ok
      ensures Touches(old(State()), State(), first, |blocks|)
    {
      ghost var v := State();
      ok := WriteHead(first, blocks);
      ghost var w := State();
      MarkAndSend(first, |blocks|);
      BlocksTouch(v, w, State(), first, |blocks|);
      if ok {
        IsFullWrite(v, w, State(), first, blocks);
        FullWriteValid(v, first, blocks);
      }
    }

    /** Writes a buffer of whole sectors; anything else is an error that changes nothing. */
    method FullWriteAt(buf: seq<Byte>, offset: nat) returns (n: int, ok: bool)
      requires Valid()
      requires offset + |buf| <= |location| * SectorSize
      modifies this`layers, this`location, this`holes, this`usedLogicalBlocks, this`usedBlocks
      ensures |location| == old(|location|)
      ensures offset % SectorSize != 0 || |buf| % SectorSize != 0 ==> !ok && unchanged(this)
      ensures ok ==> Valid() && Spliced(old(layers), layers, offset, buf) && n == |buf|
      ensures !faulty && offset % SectorSize == 0 && |buf| % SectorSize == 0 ==> ok
      ensures offset % SectorSize == 0 && |buf| % SectorSize == 0 ==>
                Recounted(old(State()), offset / SectorSize, |buf| / SectorSize, old(usedLogicalBlocks), old(usedBlocks),
                          usedLogicalBlocks, usedBlocks)
      ensures Touches(old(State()), State(), offset / SectorSize, |buf| / SectorSize)
    {
      if |buf| % SectorSize != 0 || offset % SectorSize != 0 {
        return 0, false;
      }
      ghost var v := State();
      ok := WriteBlocks(offset / SectorSize, Blocks(buf));
      n := if ok then |buf| else 0;
      if ok {
        FullWriteBytes(v, buf, offset);
      }
    }

    /** The same, for those who do not care about the counters. */
    method WriteAligned(buf: seq<Byte>, offset: nat) returns (n: int, ok: bool)
      requires Valid()
      requires offset + |buf| <= |location| * SectorSize
      modifies this`layers, this`location, this`holes, this`usedLogicalBlocks, this`usedBlocks
      ensures |location| == old(|location|)
      ensures ok ==> Valid() && Spliced(old(layers), layers, offset, buf) && n == |buf|
      ensures !faulty && offset % SectorSize == 0 && |buf| % SectorSize == 0 ==> ok
      ensures Touches(old(State()), State(), offset / SectorSize, |buf| / SectorSize)
    {
      n, ok := FullWriteAt(buf, offset);
    }

    method ReadSector(offset: nat) returns (bytes: seq<Byte>, ok: bool)
      requires Readable() && offset % SectorSize == 0
      modifies this`location
      ensures Readable() && |location| == old(|location|)
      ensures ok ==> |bytes| == SectorSize && offset + SectorSize <= |location| * SectorSize
      ensures ok ==> forall k :: 0 <= k < |bytes| ==> bytes[k] == ByteAt(layers, offset + k)
      ensures !faulty && offset + SectorSize <= |location| * SectorSize ==> ok
    {
      var readBuf := new Byte[SectorSize](_ => 0);
      var n;
      n, ok := FullReadAt(readBuf, 0, SectorSize, offset);
      bytes := readBuf[..];
      assert ok ==> forall k :: 0 <= k < |bytes| ==> bytes[k] == ByteAt(layers, offset + (k - 0));
    }

    /** Writes part of one sector: read the sector, patch it, write it back.  The count is the sector's. */
    method ReadModifyWrite(buf: seq<Byte>, offset: nat) returns (n: int, ok: bool)
      requires Valid()
      requires offset % SectorSize + |buf| <= SectorSize
      requires offset + |buf| <= |location| * SectorSize
      modifies this`layers, this`location, this`holes, this`usedLogicalBlocks, this`usedBlocks
      ensures |location| == old(|location|)
      ensures ok ==> Valid() && Spliced(old(layers), layers, offset, buf)
      ensures !faulty ==> ok
      ensures ok ==> n == if |buf| == 0 then 0 else SectorSize
      ensures |buf| == 0 ==> State() == old(State())
      ensures Touches(old(State()), State(), offset / SectorSize, 1)
    {
      if |buf| == 0 {
        return 0, true;
      }
      var readOffset := (offset / SectorSize) * SectorSize;
      ghost var v := State();
      var bytes;
      bytes, ok := ReadSector(readOffset);
      ghost var w := State();
      LookedUp(v, w, offset / SectorSize, 1);
      if !ok {
        return 0, false;
      }
      var patched := Patch(bytes, offset % SectorSize, buf);
      ghost var L := layers;
      n, ok := WriteAligned(patched, readOffset);
      TouchesMore(v, w, State(), offset / SectorSize, 1, offset / SectorSize, 1);
      if ok {
        PatchedBytes(L, layers, readOffset, offset % SectorSize, buf, bytes);
      }
    }

    /** Writes any range: a partial first sector, whole sectors, a partial last sector. */
    method WriteAt(buf: seq<Byte>, offset: nat) returns (n: int, ok: bool)
      requires Valid()
      requires offset + |buf| <= |location| * SectorSize
      modifies this`layers, this`location, this`holes, this`usedLogicalBlocks, this`usedBlocks
      ensures |location| == old(|location|)
      ensures ok ==> Valid() && Contents() == Splice(old(Contents()), offset, buf)
      ensures ok ==> n == if 0 < |buf| <= SectorSize - offset % SectorSize then SectorSize else |buf|
      ensures !faulty ==> ok
      ensures |buf| == 0 ==> State() == old(State())
      ensures |buf| > 0 ==> Touches(old(State()), State(), offset / SectorSize, SectorsTouched(offset, |buf|))
    {
      var startOffset := offset % SectorSize;
      var startCut := SectorSize - startOffset;
      var endOffset := (|buf| + offset) % SectorSize;
      ghost var L, sectors := layers, |location|;
      if |buf| == 0 {
        return 0, true;
      }
      TouchesFew(offset, |buf|);
      if startOffset == 0 && endOffset == 0 {
        n, ok := WriteAligned(buf, offset);
        if ok {
          SplicedFlat(L, layers, sectors, offset, buf);
        }
        return;
      }
      if startCut >= |buf| {
        n, ok := ReadModifyWrite(buf, offset);
        if ok {
          SplicedFlat(L, layers, sectors, offset, buf);
        }
        return;
      }
      n, ok := WritePieces(buf, offset, startCut, |buf| - endOffset);
      if ok {
        SplicedFlat(L, layers, sectors, offset, buf);
      }
    }

    /** The partial first sector and the whole sectors of a write that spans sector boundaries. */
    method WriteFront(buf: seq<Byte>, offset: nat, startCut: nat, endCut: nat, ghost first: nat, ghost count: nat)
      returns (ok: bool)
      requires Valid()
      requires startCut <= endCut <= |buf|
      requires offset + |buf| <= |location| * SectorSize
      requires offset % SectorSize + startCut <= SectorSize
      requires (offset + startCut) % SectorSize == 0 && (endCut - startCut) % SectorSize == 0
      requires first == offset / SectorSize && count >= 1
      requires first <= (offset + startCut) / SectorSize
      requires (offset + startCut) / SectorSize + (endCut - startCut) / SectorSize <= first + count
      modifies this`layers, this`location, this`holes, this`usedLogicalBlocks, this`usedBlocks
      ensures |location| == old(|location|)
      ensures ok ==> Valid() && Spliced(old(layers), layers, offset, buf[..endCut])
      ensures !faulty ==> ok
      ensures Touches(old(State()), State(), first, count)
    {
      ghost var L, v := layers, State();
      var n;
      n, ok := ReadModifyWrite(buf[..startCut], offset);
      TouchesWider(v, State(), first, count, first, 1);
      if !ok {
        return false;
      }
      ghost var L1, w := layers, State();
      assert Spliced(L, L1, offset, buf[..startCut]);
      var middle := buf[startCut..endCut];
      n, ok := WriteAligned(middle, offset + startCut);
      assert ok ==> Spliced(L1, layers, offset + startCut, buf[startCut..endCut]);
      TouchesMore(v, w, State(), first, count, (offset + startCut) / SectorSize, (endCut - startCut) / SectorSize);
      if ok {
        FirstTwoPieces(L, L1, layers, offset, buf, startCut, endCut);
      }
    }

    /** The three pieces of a write that spans sector boundaries. */
    method WritePieces(buf: seq<Byte>, offset: nat, startCut: nat, endCut: nat) returns (n: int, ok: bool)
      requires Valid()
      requires startCut <= endCut <= |buf|
      requires offset + |buf| <= |location| * SectorSize
      requires 0 < startCut == SectorSize - offset % SectorSize
      requires (offset + endCut) % SectorSize == 0 && |buf| - endCut < SectorSize
      modifies this`layers, this`location, this`holes, this`usedLogicalBlocks, this`usedBlocks
      ensures |location| == old(|location|)
      ensures ok ==> Valid() && Spliced(old(layers), layers, offset, buf) && n == |buf|
      ensures !faulty ==> ok
      ensures Touches(old(State()), State(), offset / SectorSize, SectorsTouched(offset, |buf|))
    {
      ghost var L, v := layers, State();
      ghost var first, count := offset / SectorSize, SectorsTouched(offset, |buf|);
      FrontWithin(offset, |buf|, startCut, endCut);
      ok := WriteFront(buf, offset, startCut, endCut, first, count);
      if !ok {
        return 0, false;
      }
      ghost var L1, w := layers, State();
      n, ok := ReadModifyWrite(buf[endCut..], offset + endCut);
      if endCut < |buf| {
        TouchesMore(v, w, State(), first, count, (offset + endCut) / SectorSize, 1);
      }
      if !ok {
        return 0, false;
      }
      SplicedTwice(L, L1, layers, offset, buf, endCut);
      return |buf|, true;
    }

    /** A snapshot: the head is frozen and an empty head goes on top.  No byte changes. */
    method Snapshot(userCreated: bool)
      requires Valid() && |userCreatedSnap| == |layers|
      modifies this`layers, this`snapIndx, this`userCreatedSnap
      ensures Valid() && State() == AddHead(old(State()), userCreated)
      ensures userCreatedSnap == old(userCreatedSnap) + [userCreated]
      ensures Contents() == old(Contents())
    {
      ghost var v := State();
      layers := layers + [map[]];
      if userCreated {
        snapIndx := |layers| - 2;
      }
      userCreatedSnap := userCreatedSnap + [userCreated];
      AddHeadKeeps(v, userCreated, {Head(v.layers)});
    }

    /** What the external fold does to the files: layer index is overlaid on the layer below.  No byte changes. */
    method FoldDown(index: nat)
      requires Valid() && 2 <= index < |layers| - 1 && holes == []
      modifies this`layers
      ensures Valid() && layers == Fold(old(layers), index)
      ensures Contents() == old(Contents())
    {
      var L := layers;
      layers := Fold(layers, index);
      forall s: nat
        ensures Top(layers, s, Head(L)) == Top(L, s, Head(L)) && Live(layers, s) == Live(L, s)
      {
        FoldKeepsLive(L, index, s);
      }
      SameLiveSameFlat(L, layers, |location|);
    }

    /**
      Takes a folded layer out of the chain.  Closing its file may fail, in which
      case nothing changes; otherwise no byte of the volume changes, every view
      from the removed layer up moves down by one, and the views below stay.
    */
    method RemoveIndex(index: nat) returns (ok: bool)
      requires Valid() && 1 <= index < |layers| && holes == []
      requires |userCreatedSnap| == |layers|
      modifies this`layers, this`location, this`userCreatedSnap, this`snapIndx
      ensures !ok ==> unchanged(this)
      ensures !faulty ==> ok
      ensures ok ==> |userCreatedSnap| == |layers| == old(|layers|) - 1
      ensures ok ==> layers == RemoveLayer(old(layers), index) && location == ShiftAll(old(location), index)
      ensures ok && old(IsFolded(layers, index)) ==> Valid() && Contents() == old(Contents())
      ensures ok && old(IsFolded(layers, index)) ==>
                forall u: nat, s: nat :: u < old(|layers|) && u != index - 1 ==>
                  View(layers, s, Shift(u, index)) == old(View(layers, s, u))
      ensures ok ==> snapIndx == LastMarked(userCreatedSnap, old(snapIndx))
      ensures ok ==> userCreatedSnap == old(userCreatedSnap)[..index] + old(userCreatedSnap)[index + 1..]
    {
      var fails: bool := *;
      if faulty && fails {
        return false;
      }
      ghost var L := layers;
      ShiftLocations(index);
      layers := RemoveLayer(layers, index);
      userCreatedSnap := userCreatedSnap[..index] + userCreatedSnap[index + 1..];
      FindSnapIndx();
      if IsFolded(L, index) {
        ShiftedCacheCoherent(L, old(location), index);
        forall u: nat, s: nat | u < |L| && u != index - 1
          ensures View(layers, s, Shift(u, index)) == View(L, s, u)
        {
          FoldRemoveKeepsViews(L, index, s, u);
        }
        SameLiveSameFlat(L, layers, |location|);
      }
      return true;
    }

    /** Throws away all holes that have not been executed.  No byte changes. */
    method DrainHoles()
      requires Valid()
      modifies this`holes
      ensures Valid() && holes == [] && Contents() == old(Contents())
    {
      holes := [];
    }

    /** Deleting a folded disk, whatever is queued: the queue is drained first. */
    method RemoveFolded(index: nat) returns (ok: bool)
      requires Valid() && 2 <= index < |layers| - 1
      requires |userCreatedSnap| == |layers|
      modifies this`layers, this`location, this`userCreatedSnap, this`snapIndx, this`holes
      ensures !faulty ==> ok
      ensures holes == []
      ensures ok ==> |layers| == old(|layers|) - 1 == |userCreatedSnap|
      ensures ok && old(IsFolded(layers, index)) ==> Valid() && Contents() == old(Contents())
      ensures ok && old(IsFolded(layers, index)) ==>
                forall u: nat, s: nat :: u < old(|layers|) && u != index - 1 ==>
                  View(layers, s, Shift(u, index)) == old(View(layers, s, u))
    {
      DrainHoles();
      ok := RemoveIndex(index);
    }

    method ShiftLocations(index: nat)
      requires index > 0
      modifies this`location
      ensures location == ShiftAll(old(location), index)
    {
      var i := 0;
      while i < |location|
        invariant 0 <= i <= |location| == |old(location)|
        invariant forall s :: 0 <= s < |location| ==>
                    location[s] == if s < i then Shift(old(location)[s], index) else old(location)[s]
      {
        if location[i] >= index {
          location := location[i := location[i] - 1];
        }
        i := i + 1;
      }
    }

    method FindSnapIndx()
      modifies this`snapIndx
      ensures snapIndx == LastMarked(userCreatedSnap, old(snapIndx))
    {
      var i := 0;
      while i < |userCreatedSnap|
        invariant 0 <= i <= |userCreatedSnap|
        invariant snapIndx == LastMarked(userCreatedSnap[..i], old(snapIndx))
      {
        assert userCreatedSnap[..i + 1][..i] == userCreatedSnap[..i];
        if userCreatedSnap[i] {
          snapIndx := i;
        }
        i := i + 1;
      }
      assert userCreatedSnap[..i] == userCreatedSnap;
    }

    /** The hole creator takes the oldest hole off the queue and executes it.  No byte changes. */
    method ExecuteHole()
      requires Valid() && holes != []
      modifies this`layers, this`holes
      ensures Valid() && holes == old(holes)[1..]
      ensures |layers| == old(|layers|)
      ensures Contents() == old(Contents())
    {
      ghost var v := State();
      PunchNextKeeps(v, {Head(v.layers)});
      layers := Punch(layers, holes[0]);
      holes := holes[1..];
      assert State() == PunchNext(v);
    }
  }

  /** A user-created snapshot of a new volume, and two more after it. */
  method ThreeSnapshots() returns (disk: DiffDisk)
    ensures fresh(disk) && disk.Valid() && |disk.layers| == 5 && disk.holes == [] && !disk.faulty
    ensures disk.userCreatedSnap == [false, false, true, false, false] && disk.snapIndx == 1
  {
    disk := new DiffDisk(1, true);
    disk.Snapshot(true);
    assert disk.userCreatedSnap == [false, false, true] && disk.snapIndx == 1;
    disk.Snapshot(false);
    disk.Snapshot(false);
    disk.DrainHoles();
  }

  /**
    The mark of the user-created snapshot is at layer 2, the snapshot is layer 1.
    Removing layer 3 then makes 2 the index of the latest user-created snapshot.
  */
  method MarkMisplaced() returns (disk: DiffDisk)
    ensures disk.userCreatedSnap == [false, false, true, false] && disk.snapIndx == 2
  {
    disk := ThreeSnapshots();
    var ok := disk.RemoveIndex(3);
    assert disk.userCreatedSnap == [false, false, true, false];
    assert [false, false, true, false][..3] == [false, false, true];
    assert LastMarked([false, false, true, false], 1) == LastMarked([false, false, true], 1) == 2;
  }

  // ---- Whole runs, byte by byte ----

  datatype Event =
    | WriteEvent(buf: seq<Byte>, offset: nat)
    | ReadEvent(length: nat, offset: nat)
    | SnapshotEvent(userCreated: bool)
    | HoleEvent
    | DeleteEvent(index: nat)

  /** What a client of a plain array of bytes sees: its contents, and what has been read. */
  datatype Plain = Plain(bytes: seq<Byte>, answers: seq<seq<Byte>>)

  ghost function PlainStep(p: Plain, e: Event): Plain {
    match e
    case WriteEvent(buf, offset) =>
      if offset + |buf| <= |p.bytes| then p.(bytes := Splice(p.bytes, offset, buf)) else p
    case ReadEvent(length, offset) =>
      if offset + length <= |p.bytes| then p.(answers := p.answers + [p.bytes[offset..offset + length]]) else p
    case _ => p
  }

  ghost function PlainRun(p: Plain, events: seq<Event>): Plain
    decreases |events|
  {
    if events == [] then p else PlainStep(PlainRun(p, events[..|events| - 1]), events[|events| - 1])
  }

  /** One event on the disk; events beyond its end are refused, and so are deletions while holes are queued. */
  method Do(disk: DiffDisk, e: Event, ghost p: Plain) returns (read: seq<seq<Byte>>)
    requires disk.Valid() && !disk.faulty && |disk.userCreatedSnap| == |disk.layers|
    requires disk.Contents() == p.bytes
    modifies disk`layers, disk`location, disk`holes, disk`snapIndx, disk`userCreatedSnap, disk`usedLogicalBlocks, disk`usedBlocks
    ensures disk.Valid() && |disk.userCreatedSnap| == |disk.layers|
    ensures disk.Contents() == PlainStep(p, e).bytes && p.answers + read == PlainStep(p, e).answers
  {
    read := [];
    match e {
      case WriteEvent(buf, offset) =>
        if offset + |buf| <= |disk.location| * SectorSize {
          var _, _ := disk.WriteAt(buf, offset);
        }
      case ReadEvent(length, offset) =>
        if offset + length <= |disk.location| * SectorSize {
          var bytes := ReadBytes(disk, length, offset);
          read := [bytes];
        }
      case SnapshotEvent(user) =>
        disk.Snapshot(user);
      case HoleEvent =>
        if disk.holes != [] {
          disk.ExecuteHole();
        }
      case DeleteEvent(index) =>
        if 2 <= index < |disk.layers| - 1 && disk.holes == [] {
          FoldIsFolded(disk.layers, index);
          disk.FoldDown(index);
          var _ := disk.RemoveFolded(index);
        }
    }
  }

  method ReadBytes(disk: DiffDisk, length: nat, offset: nat) returns (bytes: seq<Byte>)
    requires disk.Valid() && !disk.faulty && offset + length <= |disk.Contents()|
    modifies disk`location
    ensures disk.Valid() && disk.Contents() == old(disk.Contents())
    ensures bytes == disk.Contents()[offset..offset + length]
  {
    var buf := new Byte[length](_ => 0);
    var _, _ := disk.ReadAt(buf, offset);
    bytes := buf[..];
  }

  /**
    Over every run of reads and writes of any range, snapshots, hole executions and
    deletions of disks, the disk returns what a plain array of bytes returns.
  */
  method RunDisk(sectors: nat, punching: bool, events: seq<Event>) returns (disk: DiffDisk, answers: seq<seq<Byte>>)
    ensures fresh(disk) && disk.Valid()
    ensures var p := PlainRun(Plain(seq(sectors * SectorSize, _ => 0), []), events);
            disk.Contents() == p.bytes && answers == p.answers
  {
    disk := new DiffDisk(sectors, punching);
    answers := [];
    ghost var start := Plain(seq(sectors * SectorSize, _ => 0), []);
    assert disk.Contents() == start.bytes;
    var i := 0;
    while i < |events|
      invariant 0 <= i <= |events| && fresh(disk)
      invariant disk.Valid() && !disk.faulty && |disk.userCreatedSnap| == |disk.layers|
      invariant disk.Contents() == PlainRun(start, events[..i]).bytes && answers == PlainRun(start, events[..i]).answers
    {
      assert events[..i + 1][..i] == events[..i];
      var read := Do(disk, events[i], PlainRun(start, events[..i]));
      answers := answers + read;
      i := i + 1;
    }
    assert events[..i] == events;
  }
}
