/**
  Promotion after a rebuild: what the rebuild of a replica achieves, layer by
  layer, is what the controller needs before it lets that replica be read.
*/
module Promotion {
  import opened Layers
  import opened Replicas
  import opened ControllerModel
  import Disk = DiffDiskModel
  import Rebuild = RebuildModel

  /** A rebuild of a volume, from its start to the point where every layer above the checkpoint has been copied. */
  ghost predicate Complete(st: Rebuild.State, a: nat, b: nat, steps: seq<Rebuild.Step>, sectors: nat) {
    && Rebuild.Initial(st, a, b) && Rebuild.IsRun(st, a, b, steps)
    && var end := Rebuild.Run(st, a, b, steps);
       && |end.src| > 0 && |end.dst| > 0 && Disk.WellFormed(end.src) && Disk.WellFormed(end.dst)
       && forall s: nat :: s < sectors ==> Rebuild.FullyCopied(end, a, s)
  }

  /** In each sector the last write left source and copy with the same block. */
  ghost predicate WritesAgree(st: Rebuild.State, a: nat, b: nat, steps: seq<Rebuild.Step>, sectors: nat)
    requires Rebuild.IsRun(st, a, b, steps)
  {
    forall s: nat :: s < sectors ==> Rebuild.LastVerdict(st, a, b, steps, s, true)
  }

  /** The bytes of two volumes are the same if and only if every sector is. */
  lemma SameBytesIff(L: seq<Layer>, L': seq<Layer>, sectors: nat)
    requires |L| > 0 && |L'| > 0 && Disk.WellFormed(L) && Disk.WellFormed(L')
    ensures Disk.Flat(L, sectors) == Disk.Flat(L', sectors) <==> forall s: nat :: s < sectors ==> Live(L, s) == Live(L', s)
  {
    var flat, flat' := Disk.Flat(L, sectors), Disk.Flat(L', sectors);
    if flat == flat' {
      forall s: nat | s < sectors
        ensures Live(L, s) == Live(L', s)
      {
        SectorOfBytes(L, sectors, s);
        SectorOfBytes(L', sectors, s);
      }
    } else {
      var k :| 0 <= k < |flat| && flat[k] != flat'[k];
      assert Live(L, k / SectorSize) != Live(L', k / SectorSize);
    }
  }

  lemma SectorOfBytes(L: seq<Layer>, sectors: nat, s: nat)
    requires |L| > 0 && Disk.WellFormed(L) && s < sectors
    ensures Live(L, s) == Disk.Flat(L, sectors)[s * SectorSize..(s + 1) * SectorSize]
  {
    Disk.ViewSize(L, s, Head(L));
    forall k | 0 <= k < SectorSize
      ensures Disk.Flat(L, sectors)[s * SectorSize + k] == Live(L, s)[k]
    {
      var x := s * SectorSize + k;
      assert x / SectorSize == s && x % SectorSize == k;
    }
  }

  /** After a complete rebuild the bytes of the copy are those of its source if and only if the writes agree. */
  lemma CompleteIff(st: Rebuild.State, a: nat, b: nat, steps: seq<Rebuild.Step>, sectors: nat)
    requires Complete(st, a, b, steps, sectors)
    ensures var end := Rebuild.Run(st, a, b, steps);
            Disk.Flat(end.dst, sectors) == Disk.Flat(end.src, sectors) <==> WritesAgree(st, a, b, steps, sectors)
  {
    var end := Rebuild.Run(st, a, b, steps);
    SameBytesIff(end.dst, end.src, sectors);
    forall s: nat | s < sectors
      ensures Live(end.dst, s) == Live(end.src, s) <==> Rebuild.LastVerdict(st, a, b, steps, s, true)
    {
      Rebuild.RebuiltEqualsSourceIff(st, a, b, steps, s);
    }
  }

  /** Source and copy, as the controller's replicas, hold what the rebuild has left them with. */
  ghost predicate Holding(s: Stores, source: string, copy: string, end: Rebuild.State, sectors: nat)
    requires |end.src| > 0 && |end.dst| > 0 && Disk.WellFormed(end.src) && Disk.WellFormed(end.dst)
  {
    && source in s && copy in s
    && s[source].content == Disk.Flat(end.src, sectors)
    && s[copy].content == Disk.Flat(end.dst, sectors)
  }

  /** A WO replica that has been rebuilt from one in RW mode is ready to be promoted if and only if the writes agree. */
  lemma ReadyIff(backends: Backends, s: Stores, size: nat, source: string, copy: string,
                 st: Rebuild.State, a: nat, b: nat, steps: seq<Rebuild.Step>, sectors: nat)
    requires Synced(backends, s, size) && source in InMode(backends, RW) && copy in InMode(backends, WO)
    requires Complete(st, a, b, steps, sectors) && Holding(s, source, copy, Rebuild.Run(st, a, b, steps), sectors)
    ensures Rebuilt(backends, s, copy) <==> WritesAgree(st, a, b, steps, sectors)
  {
    CompleteIff(st, a, b, steps, sectors);
    assert forall x :: x in InMode(backends, RW) ==> s[x] == s[source];
  }

  /**
    A rebuild and the promotion after it: if the writes agree, and they do when
    they are all aligned to sectors, the controller keeps all its invariants.
  */
  method RebuildAndPromote(c: Controller, source: string, copy: string, chains: Chains, remoteCallsOk: bool,
                           ghost st: Rebuild.State, ghost a: nat, ghost b: nat, ghost steps: seq<Rebuild.Step>,
                           ghost sectors: nat, bytes: Bytes) returns (ok: bool)
    requires c.Valid() && source in InMode(c.backends, RW) && copy in InMode(c.backends, WO)
    requires Complete(st, a, b, steps, sectors)
    requires c.stores[source].content == Disk.Flat(Rebuild.Run(st, a, b, steps).src, sectors)
    requires bytes == Disk.Flat(Rebuild.Run(st, a, b, steps).dst, sectors)
    modifies c
    ensures ok <==> Compare(chains) == Same && remoteCallsOk
    ensures ok ==> c.backends == old(c.backends)[copy := RW]
    ensures c.Valid() <==> !ok || WritesAgree(st, a, b, steps, sectors)
    ensures Rebuild.AlignedWrites(steps) ==> c.Valid()
  {
    c.Sync(copy, bytes);
    ReadyIff(c.backends, c.stores, c.size, source, copy, st, a, b, steps, sectors);
    ok := c.VerifyRebuildReplica(copy, chains, remoteCallsOk);
    if Rebuild.AlignedWrites(steps) {
      forall s: nat | s < sectors
        ensures Rebuild.LastVerdict(st, a, b, steps, s, true)
      {
        Rebuild.AlignedAgree(st, a, b, steps, s);
      }
    }
  }
}
