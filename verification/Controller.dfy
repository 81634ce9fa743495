/**
  The controller of a volume.  Each method is one step under the controller's
  lock.  What the outside world does (which writers fail, what a failed replica
  is left with, whether a remote call succeeds) is passed in, so that every
  contract holds for all of it.
*/
module ControllerModel {
  import opened Replicas
  import Layers

  type Bytes = seq<Layers.Byte>

  /** What a replica holds: the volume's bytes and the revision counter. */
  datatype Store = Store(content: Bytes, rev: int)

  type Stores = map<string, Store>

  function Put(content: Bytes, off: nat, buf: Bytes): (r: Bytes)
    ensures |r| == |content|
    ensures off + |buf| <= |content| ==> HasWritten(content, r, off, buf)
  {
    if off + |buf| <= |content| then content[..off] + buf + content[off + |buf|..] else content
  }

  /** The bytes are at their place, and everything else is as it was. */
  predicate HasWritten(was: Bytes, now: Bytes, off: nat, buf: Bytes) {
    && |now| == |was|
    && forall k :: 0 <= k < |now| ==> now[k] == if off <= k < off + |buf| then buf[k - off] else was[k]
  }

  /**
    What a write does to a replica that did not fail: a writer has the bytes, and has
    counted the write if it is in RW mode; the others are left alone.
  */
  ghost predicate StoreAfter(was: Store, now: Store, b: Backends, a: string, counts: bool, off: nat, buf: Bytes) {
    if a in b && b[a] != ERR then
      && (off + |buf| <= |was.content| ==> HasWritten(was.content, now.content, off, buf))
      && now.rev == if b[a] == RW || counts then was.rev + 1 else was.rev
    else now == was
  }

  /**
    The replicas after a write: writers that did not fail have the bytes, and
    those in RW mode have counted it; a failed one is left with anything.
  */
  function AfterWrite(s: Stores, b: Backends, bad: set<string>, wrecks: Stores, counting: set<string>,
                      off: nat, buf: Bytes): (r: Stores)
    ensures r.Keys == s.Keys
  {
    map a | a in s ::
      if a in bad then if a in wrecks then wrecks[a] else s[a]
      else if a !in b || b[a] == ERR then s[a]
      else Store(Put(s[a].content, off, buf), s[a].rev + if b[a] == RW || a in counting then 1 else 0)
  }

  /** The given replicas hold the same bytes, as many as the volume has, and the same revision counter. */
  ghost predicate Agreed(s: Stores, rw: set<string>, size: nat) {
    && rw <= s.Keys
    && (forall x, y :: x in rw && y in rw ==> s[x] == s[y])
    && (forall x :: x in rw ==> |s[x].content| == size)
  }

  /** All replicas in RW mode are identical. */
  ghost predicate Synced(b: Backends, s: Stores, size: nat) {
    b.Keys <= s.Keys && Agreed(s, InMode(b, RW), size)
  }

  /** No replica leaves the ERR mode while it is listed. */
  predicate ErrIsFinal(b: Backends, b': Backends) {
    forall a :: a in b && b[a] == ERR && a in b' ==> b'[a] == ERR
  }

  /** A newcomer with the greater revision counter displaces a WO replica. */
  function AfterCheck(b: Backends, address: string, newIsGreater: bool): (r: Backends)
    ensures forall a :: a in r ==> a in b && r[a] == b[a]
    ensures forall a :: a in b && a !in r <==> a in b && b[a] == WO && newIsGreater && address !in b
  {
    if address in b || !newIsGreater then b else b - InMode(b, WO)
  }

  function AfterSetMode(b: Backends, address: string, mode: Mode): (r: Backends)
    ensures r.Keys == b.Keys
    ensures forall a :: a in b ==> r[a] == if a == address && b[a] != ERR then mode else b[a]
  {
    if address in b && b[address] != ERR then b[address := mode] else b
  }

  /** Where an address is listed; -1 if it is not. */
  lemma PositionOf(r: seq<Replica>, b: Backends, address: string) returns (at: int)
    requires Mirrors(r, b)
    ensures -1 <= at < |r|
    ensures forall k :: 0 <= k < |r| ==> (r[k].address == address <==> k == at)
    ensures at >= 0 <==> address in b
  {
    ListedIff(r, b, address);
    at := -1;
    if address in b {
      at :| 0 <= at < |r| && r[at].address == address;
    }
  }

  lemma WriteKeepsSync(b: Backends, s: Stores, size: nat, bad: set<string>, wrecks: Stores, counting: set<string>,
                       off: nat, buf: Bytes)
    requires Synced(b, s, size)
    ensures Synced(b - bad, AfterWrite(s, b, bad, wrecks, counting, off, buf), size)
  {
  }

  /** What a write does to all replicas that did not fail. */
  ghost predicate StoresAfter(s: Stores, s': Stores, b: Backends, bad: set<string>, counting: set<string>, off: nat, buf: Bytes) {
    s'.Keys == s.Keys && forall a :: a in s && a !in bad ==> StoreAfter(s[a], s'[a], b, a, a in counting, off, buf)
  }

  /** The given replicas have the bytes of a write at their place, all other bytes as before, and have counted it. */
  ghost predicate HaveWrite(s: Stores, s': Stores, rw: set<string>, off: nat, buf: Bytes) {
    forall a :: a in rw ==>
      a in s && a in s' && HasWritten(s[a].content, s'[a].content, off, buf) && s'[a].rev == s[a].rev + 1
  }

  lemma WriteReaches(b: Backends, s: Stores, size: nat, bad: set<string>, wrecks: Stores, counting: set<string>,
                     off: nat, buf: Bytes)
    requires Synced(b, s, size) && off + |buf| <= size
    ensures var s' := AfterWrite(s, b, bad, wrecks, counting, off, buf);
            StoresAfter(s, s', b, bad, counting, off, buf) && HaveWrite(s, s', InMode(b - bad, RW), off, buf)
  {
    var s' := AfterWrite(s, b, bad, wrecks, counting, off, buf);
    forall a | a in InMode(b - bad, RW)
      ensures a in s && a in s' && HasWritten(s[a].content, s'[a].content, off, buf) && s'[a].rev == s[a].rev + 1
    {
      assert a in InMode(b, RW);
    }
  }

  /** The whole length is reported if and only if the write was applied by a strict majority of the writers. */
  lemma AckedByMajority(b: Backends, writers: seq<string>, failed: seq<bool>)
    requires Lists(writers, Writable(b)) && |failed| == |writers| > 0
    ensures (!(true in failed) || |failed| - Failures(failed) > |failed| / 2)
            <==> |Writable(b) - FailedOf(writers, failed)| > |Writable(b)| / 2
  {
    ListsSize(writers, Writable(b));
    FailuresAreDistinct(writers, failed);
    var bad := FailedOf(writers, failed);
    assert bad <= Writable(b);
    SizeWithout(Writable(b), bad);
    if !(true in failed) {
      assert bad == {};
    }
  }

  lemma SizeWithout(s: set<string>, bad: set<string>)
    requires bad <= s
    ensures |s - bad| == |s| - |bad|
  {
    assert s == (s - bad) + bad;
  }

  class Controller {
    const rf: nat
    var replicas: seq<Replica>
    var backends: Backends
    var readers: seq<string>
    var writers: seq<string>
    var available: bool
    var next: nat
    var readOnly: bool
    var rwReplicaCount: nat
    var size: nat
    /** The replicas at the other end of the connections. */
    var stores: Stores

    ghost predicate Tables()
      reads this
    {
      && Mirrors(replicas, backends)
      && OneWO(backends)
      && Lists(readers, InMode(backends, RW))
      && Lists(writers, Writable(backends))
      && (available <==> readers != [])
    }

    /** Writes are accepted only while a majority of the configured replicas is in RW mode. */
    predicate Guarded()
      reads this
    {
      !readOnly ==> |InMode(backends, RW)| >= Majority(rf)
    }

    /** The flag says exactly whether a majority of the configured replicas is missing. */
    predicate FlagIsExact()
      reads this
    {
      readOnly <==> |InMode(backends, RW)| < Majority(rf)
    }

    ghost predicate Valid()
      reads this
    {
      Tables() && Guarded() && Synced(backends, stores, size)
    }

    constructor (rf: nat)
      ensures Valid() && this.rf == rf && Now() == Status(map[], map[], true, 0)
    {
      this.rf := rf;
      replicas, backends, readers, writers, available, next := [], map[], [], [], false, 0;
      readOnly, rwReplicaCount, size, stores := true, 0, 0, map[];
    }

    method Rebuild()
      modifies this`readers, this`writers, this`available
      ensures Lists(readers, InMode(backends, RW)) && Lists(writers, Writable(backends))
      ensures available <==> readers != []
    {
      available := false;
      readers, writers := BuildReadWriters(backends);
      if |readers| > 0 {
        available := true;
      }
    }

    method UpdateVolStatus()
      requires Mirrors(replicas, backends)
      modifies this`readOnly, this`rwReplicaCount
      ensures readOnly <==> |InMode(backends, RW)| < Majority(rf)
      ensures rwReplicaCount == |InMode(backends, RW)|
    {
      var count := 0;
      var i := 0;
      while i < |replicas|
        invariant 0 <= i <= |replicas|
        invariant count == CountRW(replicas[..i])
      {
        assert replicas[..i + 1][..i] == replicas[..i];
        if replicas[i].mode == RW {
          count := count + 1;
        }
        i := i + 1;
      }
      assert replicas[..i] == replicas;
      CountIsExact(replicas, backends);
      readOnly := count < rf / 2 + 1;
      rwReplicaCount := count;
    }

    method ChangeMode(i: nat, mode: Mode)
      requires Tables() && mode != WO && i < |replicas|
      modifies this`replicas, this`backends, this`readers, this`writers, this`available
      ensures Tables()
      ensures replicas == old(replicas)[i := old(replicas)[i].(mode := mode)]
      ensures backends == old(backends)[old(replicas)[i].address := mode]
    {
      SetModeMirrors(replicas, backends, i, mode);
      backends := backends[replicas[i].address := mode];
      replicas := replicas[i := replicas[i].(mode := mode)];
      Rebuild();
    }

    /**
      Sets the mode of a replica, unless it is in ERR mode.  Finding the address
      twice would be fatal; the tables rule it out.
    */
    method SetReplicaMode(address: string, mode: Mode)
      requires Tables() && mode != WO
      modifies this`replicas, this`backends, this`readers, this`writers, this`available
      ensures Tables()
      ensures backends == AfterSetMode(old(backends), address, mode)
    {
      ghost var at := PositionOf(replicas, backends, address);
      var found := 0;
      var i := 0;
      while i < |replicas|
        invariant 0 <= i <= |replicas| == |old(replicas)|
        invariant Tables()
        invariant forall k :: 0 <= k < |replicas| ==> replicas[k].address == old(replicas)[k].address
        invariant found == if 0 <= at < i then 1 else 0
        invariant i <= at ==> replicas == old(replicas)
        invariant backends == if 0 <= at < i then AfterSetMode(old(backends), address, mode) else old(backends)
      {
        if replicas[i].address == address {
          found := found + 1;
          if replicas[i].mode != ERR {
            ChangeMode(i, mode);
          }
        }
        i := i + 1;
      }
      if found > 1 {
        assert false;
      }
    }

    /** Takes a replica off the list and recomputes the flag; an unknown address changes nothing. */
    method RemoveReplica(address: string)
      requires Tables()
      modifies this`replicas, this`backends, this`readers, this`writers, this`available, this`readOnly, this`rwReplicaCount
      ensures Tables()
      ensures backends == old(backends) - {address}
      ensures address !in old(backends) ==> readOnly == old(readOnly) && replicas == old(replicas)
      ensures address in old(backends) ==> (readOnly <==> |InMode(backends, RW)| < Majority(rf))
      ensures address in old(backends) || old(Guarded()) ==> Guarded()
    {
      ghost var at := PositionOf(replicas, backends, address);
      if address !in backends {
        assert backends - {address} == backends;
        return;
      }
      var i := 0;
      while i < |replicas| && replicas[i].address != address
        invariant 0 <= i <= at
      {
        i := i + 1;
      }
      RemoveMirrors(replicas, backends, i);
      replicas := replicas[..i] + replicas[i + 1..];
      backends := backends - {address};
      Rebuild();
      UpdateVolStatus();
    }

    /** Marks failed replicas as ERR.  Says whether a replica in RW mode is left. */
    method MarkFailed(bad: set<string>) returns (good: bool)
      requires Tables() && bad <= backends.Keys
      modifies this`replicas, this`backends, this`readers, this`writers, this`available
      ensures Tables()
      ensures backends == MarkAll(old(backends), bad)
      ensures good <==> InMode(backends, RW) != {}
    {
      var rest := bad;
      while rest != {}
        invariant rest <= bad && Tables()
        invariant backends == MarkAll(old(backends), bad - rest)
        decreases rest
      {
        var a :| a in rest;
        MarkOneMore(old(backends), bad - rest, a);
        SetReplicaMode(a, ERR);
        assert bad - rest + {a} == bad - (rest - {a});
        rest := rest - {a};
      }
      assert bad - rest == bad;
      good := false;
      var i := 0;
      while i < |replicas|
        invariant 0 <= i <= |replicas|
        invariant good <==> exists k :: 0 <= k < i && replicas[k].mode == RW
      {
        if replicas[i].mode == RW {
          good := true;
          break;
        }
        i := i + 1;
      }
      SomeRW(replicas, backends);
    }

    /** Removes failed replicas, one after the other in any order. */
    method RemoveFailed(bad: set<string>)
      requires Tables() && bad <= backends.Keys
      modifies this`replicas, this`backends, this`readers, this`writers, this`available, this`readOnly, this`rwReplicaCount
      ensures Tables()
      ensures backends == old(backends) - bad
      ensures bad == {} ==> readOnly == old(readOnly)
      ensures bad != {} ==> (readOnly <==> |InMode(backends, RW)| < Majority(rf))
    {
      var rest := bad;
      while rest != {}
        invariant rest <= bad && Tables()
        invariant backends == old(backends) - (bad - rest)
        invariant rest == bad ==> readOnly == old(readOnly)
        invariant rest != bad ==> (readOnly <==> |InMode(backends, RW)| < Majority(rf))
        decreases rest
      {
        var a :| a in rest;
        RemoveReplica(a);
        RemovedOneMore(old(backends), bad, rest, a);
        rest := rest - {a};
      }
      assert bad - rest == bad;
    }

    /** Handles the failures of an I/O: marks them, decides whether to report an error, and removes them. */
    method HandleFailures(bad: set<string>) returns (good: bool)
      requires Tables() && Guarded() && bad <= backends.Keys
      modifies this`replicas, this`backends, this`readers, this`writers, this`available, this`readOnly, this`rwReplicaCount
      ensures Tables() && Guarded()
      ensures backends == old(backends) - bad
      ensures bad != {} ==> FlagIsExact()
      ensures good <==> InMode(backends, RW) != {}
    {
      good := MarkFailed(bad);
      MarkedThenRemoved(old(backends), bad);
      if bad == {} {
        assert MarkAll(old(backends), bad) == old(backends);
      }
      RemoveFailed(bad);
    }

    // ---- I/O ----

    /**
      Writes to all writers; failed[i] says whether writer i failed.  Whatever
      fails, the replicas that are still in RW mode afterwards have the write.  The
      answer can be "no bytes, no error": a minority took the write and a replica
      in RW mode is left.
    */
    method WriteAt(buf: Bytes, off: nat, failed: seq<bool>, wrecks: Stores, counting: set<string>)
      returns (n: nat, ok: bool)
      requires Valid() && |failed| == |writers|
      modifies this`replicas, this`backends, this`readers, this`writers, this`available, this`readOnly, this`rwReplicaCount, this`stores
      ensures Valid()
      ensures old(readOnly) || off + |buf| > size ==> n == 0 && !ok && unchanged(this)
      ensures !old(readOnly) && off + |buf| <= size ==>
                var bad := FailedOf(old(writers), failed);
                && backends == old(backends) - bad
                && stores == AfterWrite(old(stores), old(backends), bad, wrecks, counting, off, buf)
                && StoresAfter(old(stores), stores, old(backends), bad, counting, off, buf)
                && HaveWrite(old(stores), stores, InMode(backends, RW), off, buf)
                && (ok <==> InMode(backends, RW) != {})
                && (bad != {} ==> FlagIsExact())
                && n == (if !(true in failed) || |failed| - Failures(failed) > |failed| / 2 then |buf| else 0)
    {
      if readOnly || off + |buf| > size {
        return 0, false;
      }
      AcceptingHasReader(backends, rf);
      assert available;
      var errored;
      n, errored := MultiWrite(|buf|, failed);
      ok := Distribute(buf, off, failed, wrecks, counting, errored);
    }

    /** The effect of a write on the replicas, and what becomes of those that failed. */
    method Distribute(buf: Bytes, off: nat, failed: seq<bool>, wrecks: Stores, counting: set<string>, errored: bool)
      returns (ok: bool)
      requires Valid() && |failed| == |writers| && off + |buf| <= size
      requires errored <==> true in failed
      requires InMode(backends, RW) != {}
      modifies this`replicas, this`backends, this`readers, this`writers, this`available, this`readOnly, this`rwReplicaCount, this`stores
      ensures Valid()
      ensures var bad := FailedOf(old(writers), failed);
              && backends == old(backends) - bad
              && stores == AfterWrite(old(stores), old(backends), bad, wrecks, counting, off, buf)
              && StoresAfter(old(stores), stores, old(backends), bad, counting, off, buf)
              && HaveWrite(old(stores), stores, InMode(backends, RW), off, buf)
              && (ok <==> InMode(backends, RW) != {})
              && (bad != {} ==> FlagIsExact())
    {
      var bad := FailedOf(writers, failed);
      FailedAreListed(backends, writers, failed);
      WriteKeepsSync(backends, stores, size, bad, wrecks, counting, off, buf);
      WriteReaches(backends, stores, size, bad, wrecks, counting, off, buf);
      stores := AfterWrite(stores, backends, bad, wrecks, counting, off, buf);
      if errored {
        ok := HandleFailures(bad);
      } else {
        assert backends - bad == backends;
        ok := true;
      }
    }

    /**
      Reads from some replica in RW mode.  A read that succeeds returns what every
      replica in RW mode held, so it does not matter which of them answered.
    */
    method ReadAt(len: nat, off: nat, failed: seq<bool>) returns (data: Bytes, ok: bool, ghost bad: set<string>)
      requires Valid() && |failed| == |readers|
      modifies this`replicas, this`backends, this`readers, this`writers, this`available, this`readOnly, this`rwReplicaCount, this`next
      ensures Valid()
      ensures ok <==> off + len <= size && false in failed
      ensures ok ==> forall a :: a in InMode(old(backends), RW) ==> data == old(stores)[a].content[off..off + len]
      ensures bad <= InMode(old(backends), RW) && backends == old(backends) - bad && bad <= FailedOf(old(readers), failed)
    {
      bad := {};
      if off + len > size || |replicas| == 0 || (|replicas| == 1 && replicas[0].mode == WO) || !available {
        NoReader(replicas, backends, readers);
        assert backends - bad == backends;
        return [], false, bad;
      }
      var errors;
      ghost var rw := InMode(backends, RW);
      data, errors, ok, next := AnyReader(readers, next, stores, len, off, failed, rw, size);
      bad := errors;
      DropFailed(errors);
    }

    method DropFailed(errors: set<string>)
      requires Valid() && errors <= backends.Keys
      modifies this`replicas, this`backends, this`readers, this`writers, this`available, this`readOnly, this`rwReplicaCount
      ensures Valid() && backends == old(backends) - errors
    {
      if errors == {} {
        assert backends - errors == backends;
      } else {
        SubSynced(backends, stores, size, errors);
        var good := HandleFailures(errors);
      }
    }

    /** A replica whose connection is broken goes into ERR mode, to be removed. */
    method Fail(address: string)
      requires Tables() && Guarded()
      modifies this`replicas, this`backends, this`readers, this`writers, this`available
      ensures Tables() && backends - {address} == old(backends) - {address} && backends.Keys == old(backends).Keys
      ensures address in backends ==> backends[address] == ERR
      ensures address in backends || Guarded()
    {
      MonitorEffect(backends, address);
      SetReplicaMode(address, ERR);
    }

    /** The monitor of a backend reports that the connection ended, with or without an error. */
    method Monitor(address: string, err: bool)
      requires Valid()
      modifies this`replicas, this`backends, this`readers, this`writers, this`available, this`readOnly, this`rwReplicaCount
      ensures Valid() && backends == old(backends) - {address}
    {
      SubSynced(backends, stores, size, {address});
      if err {
        Fail(address);
      }
      RemoveKeeping(address);
    }

    /** Removes a replica without which the others are in order. */
    method RemoveKeeping(address: string)
      requires Tables() && (address in backends || Guarded()) && Synced(backends - {address}, stores, size)
      modifies this`replicas, this`backends, this`readers, this`writers, this`available, this`readOnly, this`rwReplicaCount
      ensures Valid() && backends == old(backends) - {address}
    {
      RemoveReplica(address);
    }

    // ---- Membership ----

    /**
      Whether a replica may be added: it must not be listed, and a WO replica that
      is already there stays unless the newcomer is known to have the greater
      revision counter, in which case it is removed.
    */
    method CanAdd(address: string, newIsGreater: bool, deletingSnapshot: bool) returns (ok: bool)
      requires Valid()
      modifies this`replicas, this`backends, this`readers, this`writers, this`available, this`readOnly, this`rwReplicaCount
      ensures Valid()
      ensures backends == AfterCheck(old(backends), address, newIsGreater)
      ensures ok ==> address !in backends && InMode(backends, WO) == {}
      ensures ok <==> address !in old(backends) && !deletingSnapshot && (InMode(old(backends), WO) == {} || newIsGreater)
    {
      if address in backends {
        return false;
      }
      var wo, found := FindWO(replicas, backends);
      if found {
        if !newIsGreater {
          return false;
        }
        assert InMode(backends, WO) == {wo};
        SubSynced(backends, stores, size, {wo});
        RemoveReplica(wo);
      }
      return !deletingSnapshot;
    }

    /** The check made before the connection is opened: it also bounds the number of replicas. */
    method CheckAdd(address: string, newIsGreater: bool, deletingSnapshot: bool) returns (ok: bool)
      requires Valid()
      modifies this`replicas, this`backends, this`readers, this`writers, this`available, this`readOnly, this`rwReplicaCount
      ensures Valid() && backends == AfterCheck(old(backends), address, newIsGreater)
      ensures ok <==> && address !in old(backends) && !deletingSnapshot
                      && (InMode(old(backends), WO) == {} || newIsGreater)
                      && rf != 0 && |backends| != rf
    {
      ok := CanAdd(address, newIsGreater, deletingSnapshot);
      MirroredSize(replicas, backends);
      if ok {
        ok := rf != 0 && |replicas| != rf;
      }
    }

    /**
      Adds a replica in WO mode.  The snapshot that is taken on all replicas, and
      the call that puts the newcomer in WO mode, may fail.
    */
    method AddReplica(address: string, store: Store, newIsGreater: bool, deletingSnapshot: bool, prepared: bool)
      returns (ok: bool)
      requires Valid()
      modifies this`replicas, this`backends, this`readers, this`writers, this`available, this`readOnly, this`rwReplicaCount, this`stores
      ensures Valid()
      ensures ok <==> && address !in old(backends) && !deletingSnapshot && prepared
                      && (InMode(old(backends), WO) == {} || newIsGreater)
      ensures var rest := AfterCheck(old(backends), address, newIsGreater);
              backends == if ok then rest[address := WO] else rest
      ensures stores == if ok then old(stores)[address := store] else old(stores)
      ensures ok ==> FlagIsExact()
    {
      ok := CanAdd(address, newIsGreater, deletingSnapshot);
      if !ok || !prepared {
        return false;
      }
      Append(address, store);
      UpdateVolStatus();
      return true;
    }

    method Append(address: string, store: Store)
      requires Tables() && Synced(backends, stores, size)
      requires address !in backends && InMode(backends, WO) == {}
      modifies this`replicas, this`backends, this`readers, this`writers, this`available, this`stores
      ensures Tables() && Synced(backends, stores, size)
      ensures backends == old(backends)[address := WO] && stores == old(stores)[address := store]
    {
      AppendMirrors(replicas, backends, Replica(address, WO));
      AddedOneWO(backends, address);
      AddedSynced(backends, stores, size, address, store);
      stores := stores[address := store];
      replicas := replicas + [Replica(address, WO)];
      backends := backends[address := WO];
      Rebuild();
    }

    /** A WO replica takes over the revision counter of a replica in RW mode, and then its mode. */
    method Promote(address: string, rw: string)
      requires Tables() && address in backends && backends[address] == WO
      requires address in stores && rw in stores
      modifies this`replicas, this`backends, this`readers, this`writers, this`available, this`readOnly, this`rwReplicaCount, this`stores
      ensures Tables() && backends == old(backends)[address := RW]
      ensures readOnly <==> |InMode(backends, RW)| < Majority(rf)
      ensures stores == old(stores)[address := old(stores)[address].(rev := old(stores)[rw].rev)]
    {
      stores := stores[address := stores[address].(rev := stores[rw].rev)];
      SetReplicaMode(address, RW);
      UpdateVolStatus();
    }

    /**
      Promotes a WO replica.  The replicas in RW mode stay identical if and only if
      the rebuild has made its bytes theirs.
    */
    method VerifyRebuildReplica(address: string, chains: Chains, remoteCallsOk: bool) returns (ok: bool)
      requires Valid()
      modifies this`replicas, this`backends, this`readers, this`writers, this`available, this`readOnly, this`rwReplicaCount, this`stores
      ensures Tables() && Guarded()
      ensures Valid() <==> !ok || old(Rebuilt(backends, stores, address))
      ensures ok ==> backends == old(backends)[address := RW]
      ensures ok && address in old(backends) && old(backends)[address] == WO ==> (readOnly <==> |InMode(backends, RW)| < Majority(rf))
      ensures !ok ==> backends == old(backends) && stores == old(stores)
      ensures SameContents(old(stores), stores)
      ensures ok <==> address in old(backends) && InMode(old(backends), RW) != {} &&
                      (old(backends)[address] == RW || (old(backends)[address] == WO && Compare(chains) == Same && remoteCallsOk))
    {
      if address !in backends {
        return false;
      }
      var rw, found := FindRW(replicas, backends);
      if !found {
        return false;
      }
      if backends[address] == RW {
        assert backends[address := RW] == backends;
        return true;
      }
      if backends[address] != WO {
        return false;
      }
      var comparison := CompareChains(chains);
      if comparison != Same || !remoteCallsOk {
        return false;
      }
      PromotedSyncedIff(backends, stores, size, address, rw);
      Promote(address, rw);
      return true;
    }

    /**
      Starts the volume with the replica that was told to start.  Nothing is left
      behind if a step fails before the replica is in RW mode.
    */
    method Start(address: string, store: Store, expected: bool, created: bool, deletingSnapshot: bool,
                 modeSet: bool, counterRead: bool) returns (ok: bool)
      requires Valid()
      modifies this
      ensures Valid()
      ensures old(backends) != map[] ==> ok && unchanged(this)
      ensures old(backends) == map[] && ok ==> backends == map[address := RW] && stores == old(stores)[address := store]
      ensures old(backends) == map[] && ok ==> size == |store.content|
      ensures old(backends) == map[] ==> (ok <==> expected && created && !deletingSnapshot && modeSet && counterRead)
      ensures !ok ==> backends == if expected && created && !deletingSnapshot && modeSet then map[address := RW] else map[]
      ensures old(backends) == map[] && backends != map[] ==> stores == old(stores)[address := store] && size == |store.content|
      ensures old(backends) == map[] && ok ==> FlagIsExact()
    {
      ListedNonempty(replicas, backends);
      if |replicas| > 0 {
        return true;
      }
      if !expected {
        return false;
      }
      NoneIsReadOnly(backends, rf);
      next := 0;
      size := MaxSize;
      if !created {
        return false;
      }
      size := |store.content|;
      if deletingSnapshot {
        return false;
      }
      ok := AttachFirst(address, store, modeSet);
      if !ok || !counterRead {
        return false;
      }
      UpdateVolStatus();
    }

    /** The first replica goes through WO mode to RW mode, or is removed again. */
    method AttachFirst(address: string, store: Store, modeSet: bool) returns (ok: bool)
      requires Tables() && readOnly && backends == map[] && size == |store.content|
      modifies this`replicas, this`backends, this`readers, this`writers, this`available, this`readOnly, this`rwReplicaCount, this`stores
      ensures Tables() && Synced(backends, stores, size) && readOnly == old(readOnly)
      ensures ok <==> modeSet
      ensures stores == old(stores)[address := store]
      ensures backends == if ok then map[address := RW] else map[]
    {
      NoneIsReadOnly(backends, rf);
      Append(address, store);
      assert backends == map[address := WO];
      if modeSet {
        SetReplicaMode(address, RW);
        assert backends == map[address := RW];
      } else {
        RemoveReplica(address);
        assert backends == map[];
      }
      return modeSet;
    }

    /** The rebuild changes the bytes of a WO replica, in any way. */
    method Sync(address: string, content: Bytes)
      requires Valid()
      modifies this`stores
      ensures Valid()
      ensures address in InMode(backends, WO) ==>
                address in old(stores) && stores == old(stores)[address := old(stores)[address].(content := content)]
      ensures address !in InMode(backends, WO) ==> stores == old(stores)
    {
      if address in backends && backends[address] == WO {
        stores := stores[address := stores[address].(content := content)];
      }
    }

    // ---- Whole runs ----

    /**
      Any single event, on a volume whose replicas in RW mode hold the given bytes.  They
      go on holding what a plain array would after the same event, and a read answers
      what the array has.  Only the promotion of a replica that has not been rebuilt
      can make RW replicas differ.
    */
    method Step(e: Event, ghost bytes: Bytes) returns (o: Outcome)
      requires Valid() && Shows(backends, stores, bytes)
      modifies this
      ensures Tables() && Guarded()
      ensures !e.RebuiltEvent? || old(Rebuilt(backends, stores, e.address)) ==>
                Valid() && Shows(backends, stores, PlainStep(bytes, e, o))
      ensures ErrIsFinal(old(backends), backends)
      ensures e.WriteEvent? ==> (o == Refused <==> old(readOnly) || e.off + |e.buf| > old(size)) && (o == Refused || o.Took?)
      ensures AnswersFrom(bytes, e, o)
      ensures Performed(e, old(Now()), Now(), o)
    {
      o := Quiet;
      match e
      case StartEvent(_, _, _, _, _, _, _) =>
        o := StepStart(e, bytes);
      case WriteEvent(_, _, _, _, _) =>
        o := StepWrite(e, bytes);
      case ReadEvent(len, off, failing) =>
        o := StepRead(len, off, failing, bytes);
      case RebuiltEvent(a, chains, ok) =>
        StepPromotion(a, chains, ok, bytes);
      case _ =>
        StepMembership(e, bytes);
    }

    method StepStart(e: Event, ghost bytes: Bytes) returns (o: Outcome)
      requires Valid() && Shows(backends, stores, bytes) && e.StartEvent?
      modifies this
      ensures Valid() && ErrIsFinal(old(backends), backends) && (o == Attached || o == Quiet)
      ensures Shows(backends, stores, PlainStep(bytes, e, o))
      ensures PerformedStart(e, old(Now()), Now(), o)
    {
      var was := backends;
      var _ := Start(e.address, e.store, e.expected, e.created, e.deleting, e.modeSet, e.counterRead);
      assert e.address in backends ==> backends != map[];
      o := if was == map[] && backends != map[] then Attached else Quiet;
    }

    method StepPromotion(address: string, chains: Chains, remoteCallsOk: bool, ghost bytes: Bytes)
      requires Valid() && Shows(backends, stores, bytes)
      modifies this
      ensures Tables() && Guarded() && ErrIsFinal(old(backends), backends)
      ensures old(Rebuilt(backends, stores, address)) ==> Valid() && Shows(backends, stores, bytes)
      ensures PerformedPromotion(RebuiltEvent(address, chains, remoteCallsOk), old(Now()), Now())
    {
      PromotedShows(backends, stores, bytes, address);
      var _ := VerifyRebuildReplica(address, chains, remoteCallsOk);
    }

    method StepWrite(e: Event, ghost bytes: Bytes) returns (o: Outcome)
      requires Valid() && Shows(backends, stores, bytes) && e.WriteEvent?
      modifies this
      ensures Valid() && ErrIsFinal(old(backends), backends)
      ensures o == Refused <==> old(readOnly) || e.off + |e.buf| > old(size)
      ensures o == Refused || o.Took?
      ensures Shows(backends, stores, PlainStep(bytes, e, o))
      ensures PerformedWrite(e, old(Now()), Now(), o)
    {
      var refused := readOnly || e.off + |e.buf| > size;
      var failed := Failed(writers, e.failing);
      FailingListed(writers, Writable(backends), e.failing);
      if !refused {
        AcceptingHasReader(backends, rf);
        ReaderIsWriter(backends, writers);
        AckedByMajority(backends, writers, failed);
      }
      ghost var b, st := backends, stores;
      var n, ok := WriteAt(e.buf, e.off, failed, e.wrecks, e.counting);
      if refused {
        return Refused;
      }
      o := Took(n, ok);
      assert InMode(backends, RW) <= InMode(b, RW);
      WrittenShows(b, backends, st, stores, size, bytes, e, o);
    }

    /** What a client or an operator can see of the controller. */
    function Now(): Status
      reads this
    {
      Status(backends, stores, readOnly, size)
    }

    method StepRead(len: nat, off: nat, failing: set<string>, ghost bytes: Bytes) returns (o: Outcome)
      requires Valid() && Shows(backends, stores, bytes)
      modifies this
      ensures Valid() && ErrIsFinal(old(backends), backends) && stores == old(stores)
      ensures Shows(backends, stores, bytes)
      ensures o.Answered? || o.Unanswered?
      ensures o.Answered? ==> off + len <= |bytes| && o.data == bytes[off..off + len]
      ensures PerformedRead(ReadEvent(len, off, failing), old(Now()), Now(), o)
    {
      var failed := Failed(readers, failing);
      FailingListed(readers, InMode(backends, RW), failing);
      if false in failed {
        var k :| 0 <= k < |failed| && failed[k] == false;
        assert readers[k] in InMode(backends, RW);
      }
      var data, ok, bad := ReadAt(len, off, failed);
      SubShows(old(backends), stores, bytes, bad);
      o := if ok then Answered(data) else Unanswered;
    }

    /** The events that change who is listed, but no byte of a replica in RW mode. */
    method StepMembership(e: Event, ghost bytes: Bytes)
      requires Valid() && Shows(backends, stores, bytes)
      requires e.CheckEvent? || e.AddEvent? || e.RemoveEvent? || e.MonitorEvent? || e.SyncEvent?
      modifies this
      ensures Valid() && Shows(backends, stores, bytes) && ErrIsFinal(old(backends), backends)
      ensures PerformedChange(e, old(Now()), Now())
    {
      if e.CheckEvent? {
        StepCheck(e, bytes);
      } else if e.AddEvent? {
        StepAdd(e, bytes);
      } else if e.SyncEvent? {
        StepSync(e, bytes);
      } else {
        StepRemove(e, bytes);
      }
    }

    method StepCheck(e: Event, ghost bytes: Bytes)
      requires Valid() && Shows(backends, stores, bytes) && e.CheckEvent?
      modifies this
      ensures Valid() && Shows(backends, stores, bytes) && ErrIsFinal(old(backends), backends)
      ensures PerformedChange(e, old(Now()), Now())
    {
      var _ := CheckAdd(e.address, e.newIsGreater, e.deleting);
    }

    method StepAdd(e: Event, ghost bytes: Bytes)
      requires Valid() && Shows(backends, stores, bytes) && e.AddEvent?
      modifies this
      ensures Valid() && Shows(backends, stores, bytes) && ErrIsFinal(old(backends), backends)
      ensures PerformedChange(e, old(Now()), Now())
    {
      var _ := AddReplica(e.address, e.store, e.newIsGreater, e.deleting, e.prepared);
    }

    method StepSync(e: Event, ghost bytes: Bytes)
      requires Valid() && Shows(backends, stores, bytes) && e.SyncEvent?
      modifies this
      ensures Valid() && Shows(backends, stores, bytes) && ErrIsFinal(old(backends), backends)
      ensures PerformedChange(e, old(Now()), Now())
    {
      Sync(e.address, e.content);
    }

    /** A replica is removed by hand or because its connection has ended. */
    method StepRemove(e: Event, ghost bytes: Bytes)
      requires Valid() && Shows(backends, stores, bytes) && (e.RemoveEvent? || e.MonitorEvent?)
      modifies this
      ensures Valid() && Shows(backends, stores, bytes) && ErrIsFinal(old(backends), backends)
      ensures PerformedChange(e, old(Now()), Now())
    {
      SubShows(backends, stores, bytes, {e.address});
      if e.MonitorEvent? {
        Monitor(e.address, e.err);
      } else {
        SubSynced(backends, stores, size, {e.address});
        MonitorEffect(backends, e.address);
        RemoveReplica(e.address);
      }
    }
  }

  /** What a client sees of an event. */
  datatype Outcome = Quiet | Attached | Refused | Took(n: nat, ok: bool) | Answered(data: Bytes) | Unanswered

  datatype Status = Status(backends: Backends, stores: Stores, readOnly: bool, size: nat)

  /**
    What each event does: who is listed afterwards and in which mode, what the replicas
    hold, and what is answered.  Of a read, which of the failing readers were found out
    is left open.
  */
  ghost predicate Performed(e: Event, w: Status, w': Status, o: Outcome) {
    match e
    case StartEvent(_, _, _, _, _, _, _) => PerformedStart(e, w, w', o)
    case WriteEvent(_, _, _, _, _) => PerformedWrite(e, w, w', o)
    case ReadEvent(_, _, _) => PerformedRead(e, w, w', o)
    case RebuiltEvent(_, _, _) => PerformedPromotion(e, w, w') && o == Quiet
    case _ => PerformedChange(e, w, w') && o == Quiet
  }

  ghost predicate PerformedStart(e: Event, w: Status, w': Status, o: Outcome)
    requires e.StartEvent?
  {
    if w.backends != map[] then w' == w && o == Quiet
    else if e.expected && e.created && !e.deleting && e.modeSet then
      && w'.backends == map[e.address := RW] && w'.stores == w.stores[e.address := e.store]
      && w'.size == |e.store.content| && o == Attached
    else w'.backends == map[] && o == Quiet
  }

  ghost predicate PerformedWrite(e: Event, w: Status, w': Status, o: Outcome)
    requires e.WriteEvent?
  {
    if w.readOnly || e.off + |e.buf| > w.size then w' == w && o == Refused
    else
      var writable := Writable(w.backends);
      var bad := writable * e.failing;
      && w'.backends == w.backends - bad && w'.size == w.size
      && StoresAfter(w.stores, w'.stores, w.backends, bad, e.counting, e.off, e.buf)
      && o == Took(if |writable - bad| > |writable| / 2 then |e.buf| else 0, InMode(w'.backends, RW) != {})
  }

  ghost predicate PerformedRead(e: Event, w: Status, w': Status, o: Outcome)
    requires e.ReadEvent?
  {
    var rw := InMode(w.backends, RW);
    && w'.stores == w.stores && w'.size == w.size
    && (exists bad :: bad <= rw * e.failing && w'.backends == w.backends - bad)
    && (o.Answered? || o.Unanswered?)
    && (o.Answered? <==> e.off + e.len <= w.size && rw - e.failing != {})
  }

  ghost predicate PerformedPromotion(e: Event, w: Status, w': Status)
    requires e.RebuiltEvent?
  {
    var b := w.backends;
    var promoted := e.address in b && b[e.address] == WO && InMode(b, RW) != {} && Compare(e.chains) == Same && e.remoteCallsOk;
    && w'.backends == (if promoted then b[e.address := RW] else b)
    && SameContents(w.stores, w'.stores) && w'.size == w.size
  }

  ghost predicate PerformedChange(e: Event, w: Status, w': Status)
    requires e.CheckEvent? || e.AddEvent? || e.RemoveEvent? || e.MonitorEvent? || e.SyncEvent?
  {
    && w'.size == w.size
    && match e
       case CheckEvent(a, greater, _) => w'.backends == AfterCheck(w.backends, a, greater) && w'.stores == w.stores
       case AddEvent(a, store, greater, deleting, prepared) =>
         var added := a !in w.backends && !deleting && prepared && (InMode(w.backends, WO) == {} || greater);
         var rest := AfterCheck(w.backends, a, greater);
         && w'.backends == (if added then rest[a := WO] else rest)
         && w'.stores == (if added then w.stores[a := store] else w.stores)
       case SyncEvent(a, content) =>
         && w'.backends == w.backends
         && w'.stores == if a in InMode(w.backends, WO) && a in w.stores then w.stores[a := w.stores[a].(content := content)]
                         else w.stores
       case _ => w'.backends == w.backends - {e.address} && w'.stores == w.stores
  }

  lemma FailingListed(table: seq<string>, s: set<string>, failing: set<string>)
    requires Lists(table, s)
    ensures FailedOf(table, Failed(table, failing)) == s * failing
    ensures false in Failed(table, failing) <==> s - failing != {}
  {
    var failed := Failed(table, failing);
    forall a
      ensures a in FailedOf(table, failed) <==> a in s * failing
    {
      if a in s * failing {
        var i :| 0 <= i < |table| && table[i] == a;
        assert failed[i];
      }
    }
    if s - failing != {} {
      var a :| a in s - failing;
      var i :| 0 <= i < |table| && table[i] == a;
      assert !failed[i];
    }
    if false in failed {
      var i :| 0 <= i < |failed| && failed[i] == false;
      assert table[i] in s - failing;
    }
  }

  lemma ReaderIsWriter(b: Backends, writers: seq<string>)
    requires Lists(writers, Writable(b)) && InMode(b, RW) != {}
    ensures |writers| > 0
  {
    var a :| a in InMode(b, RW);
    assert a in writers;
  }

  /** Every replica in RW mode holds these bytes. */
  ghost predicate Shows(b: Backends, s: Stores, bytes: Bytes) {
    forall a :: a in InMode(b, RW) ==> a in s && s[a].content == bytes
  }

  /** A plain array: it is replaced when a volume starts, and takes every write that is not refused. */
  function PlainStep(bytes: Bytes, e: Event, o: Outcome): Bytes {
    if e.StartEvent? && o.Attached? then e.store.content
    else if e.WriteEvent? && o.Took? && e.off + |e.buf| <= |bytes| then
      bytes[..e.off] + e.buf + bytes[e.off + |e.buf|..]
    else bytes
  }

  function PlainRun(events: seq<Event>, outcomes: seq<Outcome>): Bytes
    requires |outcomes| == |events|
  {
    if events == [] then []
    else
      var n := |events| - 1;
      PlainStep(PlainRun(events[..n], outcomes[..n]), events[n], outcomes[n])
  }

  predicate AnswersFrom(bytes: Bytes, e: Event, o: Outcome) {
    o.Answered? ==> e.ReadEvent? && e.off + e.len <= |bytes| && o.data == bytes[e.off..e.off + e.len]
  }

  ghost predicate SameContents(s: Stores, s': Stores) {
    s'.Keys == s.Keys && forall a :: a in s ==> s'[a].content == s[a].content
  }

  lemma SubShows(b: Backends, s: Stores, bytes: Bytes, bad: set<string>)
    requires Shows(b, s, bytes)
    ensures Shows(b - bad, s, bytes)
  {
    assert InMode(b - bad, RW) <= InMode(b, RW);
  }

  lemma PromotedShows(b: Backends, s: Stores, bytes: Bytes, address: string)
    requires Shows(b, s, bytes)
    ensures address in b && b[address] == WO && Rebuilt(b, s, address) && InMode(b, RW) != {} ==>
              address in s && s[address].content == bytes
  {
    if InMode(b, RW) != {} {
      var x :| x in InMode(b, RW);
    }
  }

  /** The replicas left in RW mode after a write hold what the array holds after it. */
  lemma WrittenShows(b: Backends, b': Backends, s: Stores, s': Stores, size: nat, bytes: Bytes, e: Event, o: Outcome)
    requires Synced(b, s, size) && Shows(b, s, bytes) && InMode(b, RW) != {} && InMode(b', RW) <= InMode(b, RW)
    requires e.WriteEvent? && o.Took? && e.off + |e.buf| <= size
    requires HaveWrite(s, s', InMode(b', RW), e.off, e.buf)
    ensures Shows(b', s', PlainStep(bytes, e, o))
  {
    var x :| x in InMode(b, RW);
    assert s[x].content == bytes && |bytes| == size;
    forall a | a in InMode(b', RW)
      ensures a in s' && s'[a].content == PlainStep(bytes, e, o)
    {
      assert s[a].content == bytes && HasWritten(bytes, s'[a].content, e.off, e.buf);
    }
  }

  function Failed(table: seq<string>, failing: set<string>): (r: seq<bool>)
    ensures |r| == |table|
    ensures forall i :: 0 <= i < |r| ==> r[i] == (table[i] in failing)
  {
    seq(|table|, i requires 0 <= i < |table| => table[i] in failing)
  }

  /**
    Any run from a fresh controller keeps the replicas in RW mode identical, the
    tables exact, and the volume read-only without a majority.  The volume behaves
    like a plain array of bytes: every read that is answered returns what the writes
    before it, other than those refused, have left in the array.
  */
  method Run(rf: nat, events: seq<Event>)
    returns (c: Controller, done: nat, outcomes: seq<Outcome>, ghost trace: seq<Status>)
    ensures fresh(c) && c.Valid() && c.rf == rf
    ensures done == |outcomes| <= |events|
    ensures done < |events| ==> events[done].RebuiltEvent? && !Rebuilt(c.backends, c.stores, events[done].address)
    ensures forall i: nat :: i < done ==> AnsweredAt(events, outcomes, i)
    ensures Shows(c.backends, c.stores, PlainRun(events[..done], outcomes))
    ensures |trace| == done + 1 && trace[0] == Status(map[], map[], true, 0) && trace[done] == c.Now()
    ensures forall i: nat :: i < done ==> PerformedAt(events, outcomes, trace, i)
  {
    c := new Controller(rf);
    done, outcomes, trace := 0, [], [c.Now()];
    assert InMode(c.backends, RW) == {};
    while done < |events|
      invariant 0 <= done <= |events| && fresh(c) && c.rf == rf
      invariant |outcomes| == done && Ran(c, events, outcomes, trace)
    {
      var e := events[done];
      if e.RebuiltEvent? {
        var copied := IsRebuilt(c.backends, c.stores, e.address);
        if !copied {
          return;
        }
      }
      outcomes, trace := RunNext(c, events, outcomes, trace);
      done := done + 1;
    }
  }

  /** Where a run has come to. */
  ghost predicate Ran(c: Controller, events: seq<Event>, outcomes: seq<Outcome>, trace: seq<Status>)
    requires |outcomes| <= |events|
    reads c
  {
    var done := |outcomes|;
    && c.Valid() && Shows(c.backends, c.stores, PlainRun(events[..done], outcomes))
    && AnsweredAll(events, outcomes)
    && |trace| == done + 1 && trace[0] == Status(map[], map[], true, 0) && trace[done] == c.Now()
    && (forall i: nat :: i < done ==> PerformedAt(events, outcomes, trace, i))
  }

  /** What event i was answered fits the array at that moment. */
  ghost predicate AnsweredAt(events: seq<Event>, outcomes: seq<Outcome>, i: nat)
    requires i < |outcomes| <= |events|
  {
    && AnswersFrom(PlainRun(events[..i], outcomes[..i]), events[i], outcomes[i])
    && (events[i].WriteEvent? ==> outcomes[i] == Refused || outcomes[i].Took?)
  }

  ghost predicate AnsweredAll(events: seq<Event>, outcomes: seq<Outcome>)
    requires |outcomes| <= |events|
  {
    forall i: nat :: i < |outcomes| ==> AnsweredAt(events, outcomes, i)
  }

  lemma StillAnswered(events: seq<Event>, outcomes: seq<Outcome>, o: Outcome, i: nat)
    requires i < |outcomes| < |events| && AnsweredAt(events, outcomes, i)
    ensures AnsweredAt(events, outcomes + [o], i)
  {
    assert (outcomes + [o])[..i] == outcomes[..i];
  }

  lemma PlainGrows(events: seq<Event>, outcomes: seq<Outcome>, o: Outcome)
    requires |outcomes| < |events|
    ensures PlainRun(events[..|outcomes| + 1], outcomes + [o])
            == PlainStep(PlainRun(events[..|outcomes|], outcomes), events[|outcomes|], o)
  {
    var n := |outcomes|;
    assert events[..n + 1][..n] == events[..n] && (outcomes + [o])[..n] == outcomes;
  }

  lemma AnsweredMore(events: seq<Event>, outcomes: seq<Outcome>, o: Outcome)
    requires |outcomes| < |events| && AnsweredAll(events, outcomes)
    requires AnswersFrom(PlainRun(events[..|outcomes|], outcomes), events[|outcomes|], o)
    requires events[|outcomes|].WriteEvent? ==> o == Refused || o.Took?
    ensures AnsweredAll(events, outcomes + [o])
  {
    var all := outcomes + [o];
    forall i: nat | i < |all|
      ensures AnsweredAt(events, all, i)
    {
      if i < |outcomes| {
        StillAnswered(events, outcomes, o, i);
      } else {
        assert all[..i] == outcomes;
      }
    }
  }

  method RunNext(c: Controller, events: seq<Event>, outcomes: seq<Outcome>, ghost trace: seq<Status>)
    returns (outcomes': seq<Outcome>, ghost trace': seq<Status>)
    requires |outcomes| < |events| && Ran(c, events, outcomes, trace)
    requires events[|outcomes|].RebuiltEvent? ==> Rebuilt(c.backends, c.stores, events[|outcomes|].address)
    modifies c
    ensures |outcomes'| == |outcomes| + 1 && Ran(c, events, outcomes', trace')
  {
    var done := |outcomes|;
    var o := c.Step(events[done], PlainRun(events[..done], outcomes));
    outcomes', trace' := outcomes + [o], trace + [c.Now()];
    AnsweredMore(events, outcomes, o);
    PlainGrows(events, outcomes, o);
    TraceGrows(events, outcomes, trace, o, c.Now());
  }

  ghost predicate PerformedAt(events: seq<Event>, outcomes: seq<Outcome>, trace: seq<Status>, i: nat) {
    i < |events| && i < |outcomes| && i + 1 < |trace| && Performed(events[i], trace[i], trace[i + 1], outcomes[i])
  }

  lemma TraceGrows(events: seq<Event>, outcomes: seq<Outcome>, trace: seq<Status>, o: Outcome, w: Status)
    requires |trace| == |outcomes| + 1 && |outcomes| < |events|
    requires forall i: nat :: i < |outcomes| ==> PerformedAt(events, outcomes, trace, i)
    requires Performed(events[|outcomes|], trace[|outcomes|], w, o)
    ensures forall i: nat :: i <= |outcomes| ==> PerformedAt(events, outcomes + [o], trace + [w], i)
  {
    forall i: nat | i <= |outcomes|
      ensures PerformedAt(events, outcomes + [o], trace + [w], i)
    {
      if i < |outcomes| {
        assert PerformedAt(events, outcomes, trace, i);
      }
    }
  }

  method IsRebuilt(b: Backends, s: Stores, address: string) returns (ok: bool)
    ensures ok <==> Rebuilt(b, s, address)
  {
    if address !in b || b[address] != WO {
      return true;
    }
    ok := address in s && forall x :: x in b && b[x] == RW ==> x in s && s[x].content == s[address].content;
  }

  method OneReplica(content: Bytes) returns (c: Controller)
    ensures fresh(c) && c.Valid() && c.rf == 2 && c.size == |content|
    ensures c.backends == map["a" := RW] && "a" in c.stores && c.stores["a"].content == content
  {
    c := new Controller(2);
    var started := c.Start("a", Store(content, 1), true, true, false, true, true);
  }

  method AddSecond(c: Controller, content: Bytes)
    requires c.Valid() && c.backends == map["a" := RW] && "a" in c.stores && c.stores["a"].content == content
    modifies c
    ensures c.Valid() && c.size == old(c.size)
    ensures c.backends == map["a" := RW, "b" := WO] && Rebuilt(c.backends, c.stores, "b")
  {
    assert InMode(c.backends, WO) == {};
    var added := c.AddReplica("b", Store(content, 1), false, false, true);
    assert forall x :: x in InMode(c.backends, RW) ==> x == "a";
  }

  lemma HeadsOnly()
    ensures Compare(Chains(["h"], ["h"], 1, 1, "")) == Same
  {
    CompareIff(Chains(["h"], ["h"], 1, 1, ""));
  }

  /** Two replicas: the first starts the volume, the second is added, rebuilt and promoted. */
  method TwoReplicas(content: Bytes) returns (c: Controller)
    ensures fresh(c) && c.Valid() && c.rf == 2 && c.size == |content| && !c.readOnly
    ensures c.backends == map["a" := RW, "b" := RW]
  {
    c := OneReplica(content);
    AddSecond(c, content);
    HeadsOnly();
    assert "a" in InMode(c.backends, RW);
    var promoted := c.VerifyRebuildReplica("b", Chains(["h"], ["h"], 1, 1, ""), true);
    assert InMode(c.backends, RW) == {"a", "b"};
  }

  /**
    A write that returns no bytes and no error: of two replicas in RW mode one fails,
    so no majority took the write, and the other one is still there.
  */
  method MinorityWrite(content: Bytes) returns (c: Controller, n: nat, ok: bool)
    requires |content| > 0
    ensures fresh(c) && c.Valid() && c.rf == 2
    ensures n == 0 && ok
  {
    c := TwoReplicas(content);
    assert Writable(c.backends) == {"a", "b"};
    var failed := Failed(c.writers, {"b"});
    OneOfTwo(c.writers, failed);
    n, ok := c.WriteAt([7], 0, failed, map[], {});
    assert "a" in InMode(c.backends, RW);
  }

  lemma OneOfTwo(writers: seq<string>, failed: seq<bool>)
    requires Lists(writers, {"a", "b"}) && failed == Failed(writers, {"b"})
    ensures |failed| == 2 && Failures(failed) == 1 && true in failed && FailedOf(writers, failed) == {"b"}
  {
    ListsSize(writers, {"a", "b"});
    var k :| 0 <= k < |writers| && writers[k] == "b";
    assert failed[k];
    assert FailedOf(writers, failed) == {"b"};
    FailuresAreDistinct(writers, failed);
  }

  // ---- Comparing the chains before a promotion ----

  /**
    The chains of a replica in RW mode and of the one to be promoted, head first,
    with the capacity of the arrays they arrived in, and the latter's checkpoint.
  */
  datatype Chains = Chains(rw: seq<string>, wo: seq<string>, rwRoom: nat, woRoom: nat, checkpoint: string)

  datatype Comparison = Same | Different | NoCheckpoint | OutOfRange

  /** How far the chains are compared: to the checkpoint, or to the end. */
  function Reach(rw: seq<string>, checkpoint: string): (n: nat)
    ensures n <= |rw| && (rw != [] ==> n < |rw|)
    ensures checkpoint in rw ==> rw[n] == checkpoint && checkpoint !in rw[..n]
    ensures checkpoint !in rw && rw != [] ==> n == |rw| - 1
  {
    if rw == [] || rw[0] == checkpoint then 0
    else if |rw| == 1 then 0
    else 1 + Reach(rw[1..], checkpoint)
  }

  /** An array read beyond its length, within its capacity, gives empty names. */
  function Slice(chain: seq<string>, n: nat): (r: seq<string>)
    ensures |r| == n
    ensures forall k :: 0 <= k < n ==> r[k] == if k + 1 < |chain| then chain[k + 1] else ""
  {
    seq(n, k requires 0 <= k < n => if k + 1 < |chain| then chain[k + 1] else "")
  }

  function Compare(c: Chains): Comparison {
    var n := Reach(c.rw, c.checkpoint);
    if c.checkpoint != "" && c.checkpoint !in c.rw then NoCheckpoint
    else if n + 1 > c.rwRoom || n + 1 > c.woRoom then OutOfRange
    else if Slice(c.rw, n) == Slice(c.wo, n) then Same else Different
  }

  /**
    The comparison succeeds if and only if the checkpoint is known to the RW replica
    and the disks between head and checkpoint are the same, the checkpoint included.
    It is out of range, which ends the process, if and only if the checkpoint is
    further down than the other chain's array is long.
  */
  lemma CompareIff(c: Chains)
    requires c.rw != [] && |c.rw| <= c.rwRoom && |c.wo| <= c.woRoom && "" !in c.rw
    ensures var n := Reach(c.rw, c.checkpoint);
            && (Compare(c) == Same <==>
                  && (c.checkpoint == "" || c.checkpoint in c.rw)
                  && n + 1 <= c.woRoom
                  && forall k :: 1 <= k <= n ==> k < |c.wo| && c.wo[k] == c.rw[k])
            && (Compare(c) == OutOfRange <==> (c.checkpoint == "" || c.checkpoint in c.rw) && n + 1 > c.woRoom)
  {
    var n := Reach(c.rw, c.checkpoint);
    assert Slice(c.rw, n) == Slice(c.wo, n) <==> forall k :: 1 <= k <= n ==> k < |c.wo| && c.wo[k] == c.rw[k] by {
      forall k | 1 <= k <= n
        ensures Slice(c.rw, n)[k - 1] == Slice(c.wo, n)[k - 1] <==> k < |c.wo| && c.wo[k] == c.rw[k]
      {
        assert c.rw[k] in c.rw;
      }
    }
  }

  /** A replica without a checkpoint, whose chain arrived in an array of one entry, against a chain of three disks. */
  lemma CompareRunsOut()
    ensures Compare(Chains(["h1", "s1", "s0"], ["h0"], 3, 1, "")) == OutOfRange
  {
    CompareIff(Chains(["h1", "s1", "s0"], ["h0"], 3, 1, ""));
  }

  method CompareChains(c: Chains) returns (r: Comparison)
    ensures r == Compare(c)
  {
    if c.checkpoint != "" && c.checkpoint !in c.rw {
      return NoCheckpoint;
    }
    var n := 0;
    var i := 0;
    while i < |c.rw|
      invariant 0 <= i <= |c.rw|
      invariant c.checkpoint !in c.rw[..i]
      invariant n == if i == 0 then 0 else i - 1
    {
      n := i;
      if c.rw[i] == c.checkpoint {
        break;
      }
      i := i + 1;
    }
    ReachIs(c.rw, c.checkpoint, n);
    if n + 1 > c.rwRoom || n + 1 > c.woRoom {
      return OutOfRange;
    }
    r := if Slice(c.rw, n) == Slice(c.wo, n) then Same else Different;
  }

  lemma ReachIs(rw: seq<string>, checkpoint: string, n: nat)
    requires if rw == [] then n == 0 else n < |rw| && checkpoint !in rw[..n] && (rw[n] == checkpoint || n == |rw| - 1)
    ensures Reach(rw, checkpoint) == n
  {
  }

  /** What can happen to a controller; the fields say what the outside world does meanwhile. */
  datatype Event =
    | StartEvent(address: string, store: Store, expected: bool, created: bool, deleting: bool, modeSet: bool, counterRead: bool)
    | CheckEvent(address: string, newIsGreater: bool, deleting: bool)
    | AddEvent(address: string, store: Store, newIsGreater: bool, deleting: bool, prepared: bool)
    | RebuiltEvent(address: string, chains: Chains, remoteCallsOk: bool)
    | WriteEvent(buf: Bytes, off: nat, failing: set<string>, wrecks: Stores, counting: set<string>)
    | ReadEvent(len: nat, off: nat, failing: set<string>)
    | RemoveEvent(address: string)
    | MonitorEvent(address: string, err: bool)
    | SyncEvent(address: string, content: Bytes)

  /** The bytes of a WO replica that asks to be promoted are those of the replicas in RW mode. */
  ghost predicate Rebuilt(b: Backends, s: Stores, address: string) {
    address in b && b[address] == WO ==>
      address in s && forall x :: x in InMode(b, RW) ==> x in s && s[x].content == s[address].content
  }

  /** The size before the first replica has reported its own. */
  const MaxSize: nat := 0x7fff_ffff_ffff_ffff

  method FindWO(r: seq<Replica>, b: Backends) returns (address: string, found: bool)
    requires Mirrors(r, b)
    ensures found ==> address in InMode(b, WO)
    ensures !found ==> InMode(b, WO) == {}
  {
    var i := 0;
    while i < |r|
      invariant 0 <= i <= |r|
      invariant forall k :: 0 <= k < i ==> r[k].mode != WO
    {
      if r[i].mode == WO {
        return r[i].address, true;
      }
      i := i + 1;
    }
    forall a | a in b
      ensures b[a] != WO
    {
      ListedIff(r, b, a);
    }
    return "", false;
  }

  method FindRW(r: seq<Replica>, b: Backends) returns (address: string, found: bool)
    requires Mirrors(r, b)
    ensures found ==> address in InMode(b, RW)
    ensures !found ==> InMode(b, RW) == {}
  {
    var i := 0;
    while i < |r|
      invariant 0 <= i <= |r|
      invariant forall k :: 0 <= k < i ==> r[k].mode != RW
    {
      if r[i].mode == RW {
        return r[i].address, true;
      }
      i := i + 1;
    }
    SomeRW(r, b);
    return "", false;
  }

  lemma {:induction false} MirroredSize(r: seq<Replica>, b: Backends)
    requires Mirrors(r, b)
    ensures |r| == |b|
    decreases |r|
  {
    if r == [] {
      assert b.Keys == {};
    } else {
      var n := |r| - 1;
      RemoveMirrors(r, b, n);
      assert r[..n] + r[n + 1..] == r[..n];
      MirroredSize(r[..n], b - {r[n].address});
      assert b.Keys == (b - {r[n].address}).Keys + {r[n].address};
    }
  }

  lemma ListedNonempty(r: seq<Replica>, b: Backends)
    requires Mirrors(r, b)
    ensures |r| == 0 <==> b == map[]
  {
    if |r| > 0 {
      assert r[0].address in b;
    } else {
      assert b.Keys == {};
    }
  }

  lemma NoneIsReadOnly(b: Backends, rf: nat)
    requires b == map[]
    ensures |InMode(b, RW)| < Majority(rf)
  {
    assert InMode(b, RW) == {};
  }

  lemma AddedOneWO(b: Backends, address: string)
    requires InMode(b, WO) == {}
    ensures OneWO(b[address := WO])
  {
    forall x | x in b
      ensures b[x] != WO
    {
      assert x !in InMode(b, WO);
    }
  }

  lemma AddedSynced(b: Backends, s: Stores, size: nat, address: string, store: Store)
    requires Synced(b, s, size) && address !in b
    ensures Synced(b[address := WO], s[address := store], size)
  {
    assert InMode(b[address := WO], RW) == InMode(b, RW);
  }

  /** A replica that holds the same bytes and gets the same counter joins the replicas in RW mode. */
  lemma PromotedSyncedIff(b: Backends, s: Stores, size: nat, address: string, rw: string)
    requires Synced(b, s, size) && address in b && b[address] == WO && rw in InMode(b, RW)
    ensures Synced(b[address := RW], s[address := s[address].(rev := s[rw].rev)], size) <==> Rebuilt(b, s, address)
  {
    var s' := s[address := s[address].(rev := s[rw].rev)];
    assert InMode(b[address := RW], RW) == InMode(b, RW) + {address};
    if Rebuilt(b, s, address) {
      assert s'[address] == s[rw] by {
        assert s[rw].content == s[address].content;
      }
    }
    if Agreed(s', InMode(b, RW) + {address}, size) {
      assert forall x :: x in InMode(b, RW) ==> s[x] == s'[x] == s'[address];
    }
  }

  lemma MonitorEffect(b: Backends, address: string)
    ensures AfterSetMode(b, address, ERR) - {address} == b - {address}
    ensures address !in b ==> b - {address} == b && AfterSetMode(b, address, ERR) == b
  {
  }

  lemma SubSynced(b: Backends, s: Stores, size: nat, bad: set<string>)
    requires Synced(b, s, size)
    ensures Synced(b - bad, s, size)
  {
    assert InMode(b - bad, RW) <= InMode(b, RW);
  }

  /** One read: the readers are tried in turn, starting with the one after the last used. */
  method TryReaders(readers: seq<string>, next: nat, stores: Stores, len: nat, off: nat, failed: seq<bool>,
                    ghost rw: set<string>, ghost size: nat)
    returns (data: Bytes, bad: set<string>, ok: bool, next': nat)
    requires Lists(readers, rw) && |failed| == |readers| > 0
    requires Agreed(stores, rw, size) && off + len <= size
    ensures bad <= rw && bad <= FailedOf(readers, failed)
    ensures next' == (next + 1) % |readers|
    ensures FirstAnswers(readers, failed, next', bad, ok)
    ensures ok <==> false in failed
    ensures ok <==> bad != rw
    ensures ok ==> forall a :: a in rw ==> data == stores[a].content[off..off + len]
  {
    var readersLen := |readers|;
    next' := (next + 1) % readersLen;
    var index := next';
    data, bad, ok := [], {}, false;
    var i := 0;
    while i < readersLen
      invariant 0 <= i <= readersLen
      invariant 0 <= next' < readersLen && index == At(next', i, readersLen)
      invariant forall k: nat :: k < i ==> failed[At(next', k, readersLen)]
      invariant bad == TriedSet(readers, next', i)
    {
      if !failed[index] {
        NotAllTried(readers, rw, next', i);
        TriedFailed(readers, failed, next', i);
        data := stores[readers[index]].content[off..off + len];
        return data, bad, true, next';
      }
      bad := bad + {readers[index]};
      TriedMore(readers, next', i);
      NextIndex(index, readersLen);
      index := (index + 1) % readersLen;
      i := i + 1;
    }
    AllTried(readers, failed, rw, next');
    TriedFailed(readers, failed, next', readersLen);
  }

  /** The same, for those who do not care which reader it was. */
  method AnyReader(readers: seq<string>, next: nat, stores: Stores, len: nat, off: nat, failed: seq<bool>,
                   ghost rw: set<string>, ghost size: nat)
    returns (data: Bytes, bad: set<string>, ok: bool, next': nat)
    requires Lists(readers, rw) && |failed| == |readers| > 0
    requires Agreed(stores, rw, size) && off + len <= size
    ensures bad <= rw && bad <= FailedOf(readers, failed)
    ensures ok <==> false in failed
    ensures ok ==> forall a :: a in rw ==> data == stores[a].content[off..off + len]
  {
    data, bad, ok, next' := TryReaders(readers, next, stores, len, off, failed, rw, size);
  }

  /** The readers found failing are those tried before the first that answers, or all of them. */
  ghost predicate FirstAnswers(readers: seq<string>, failed: seq<bool>, first: nat, bad: set<string>, ok: bool)
    requires first < |readers| == |failed|
  {
    exists i: nat :: i <= |readers| && bad == TriedSet(readers, first, i) && (ok <==> i < |readers|)
                     && (i < |readers| ==> !failed[At(first, i, |readers|)])
                     && forall k: nat :: k < i ==> failed[At(first, k, |readers|)]
  }

  lemma {:induction false} TriedFailed(readers: seq<string>, failed: seq<bool>, first: nat, i: nat)
    requires first < |readers| == |failed| && i <= |readers|
    requires forall k: nat :: k < i ==> failed[At(first, k, |readers|)]
    ensures TriedSet(readers, first, i) <= FailedOf(readers, failed)
  {
    if i > 0 {
      TriedFailed(readers, failed, first, i - 1);
      assert failed[At(first, i - 1, |readers|)];
    }
  }

  lemma NextIndex(index: nat, n: nat)
    requires index < n
    ensures (index + 1) % n == if index + 1 == n then 0 else index + 1
  {
  }

  // ---- Facts about I/O ----

  lemma AcceptingHasReader(b: Backends, rf: nat)
    requires |InMode(b, RW)| >= Majority(rf)
    ensures InMode(b, RW) != {}
  {
  }

  lemma FailedAreListed(b: Backends, writers: seq<string>, failed: seq<bool>)
    requires Lists(writers, Writable(b)) && |failed| == |writers|
    ensures FailedOf(writers, failed) <= b.Keys
    ensures !(true in failed) ==> FailedOf(writers, failed) == {}
  {
    forall a | a in FailedOf(writers, failed)
      ensures a in Writable(b)
    {
      var i :| 0 <= i < |writers| && failed[i] && writers[i] == a;
      assert a in writers;
    }
  }

  /** The k-th position from start on a ring of n, for k up to n. */
  function At(start: nat, k: nat, n: nat): nat {
    if start + k < n then start + k else start + k - n
  }

  function TriedSet(readers: seq<string>, start: nat, i: nat): set<string>
    requires start < |readers| && i <= |readers|
  {
    if i == 0 then {} else TriedSet(readers, start, i - 1) + {readers[At(start, i - 1, |readers|)]}
  }

  lemma TriedMore(readers: seq<string>, start: nat, i: nat)
    requires start < |readers| && i < |readers|
    ensures TriedSet(readers, start, i + 1) == TriedSet(readers, start, i) + {readers[At(start, i, |readers|)]}
  {
  }

  lemma {:induction false} TriedExact(readers: seq<string>, start: nat, i: nat, a: string)
    requires start < |readers| && i <= |readers|
    ensures a in TriedSet(readers, start, i) <==> exists k: nat :: k < i && readers[At(start, k, |readers|)] == a
  {
    if i > 0 {
      TriedExact(readers, start, i - 1, a);
    }
  }

  lemma NotAllTried(readers: seq<string>, rw: set<string>, start: nat, i: nat)
    requires Lists(readers, rw) && start < |readers| && i < |readers|
    ensures TriedSet(readers, start, i) <= rw
    ensures readers[At(start, i, |readers|)] in rw - TriedSet(readers, start, i)
  {
    forall a | a in TriedSet(readers, start, i)
      ensures a in rw
    {
      TriedExact(readers, start, i, a);
      var k: nat :| k < i && readers[At(start, k, |readers|)] == a;
      assert a in readers;
    }
    TriedExact(readers, start, i, readers[At(start, i, |readers|)]);
    assert readers[At(start, i, |readers|)] in readers;
  }

  lemma AllTried(readers: seq<string>, failed: seq<bool>, rw: set<string>, start: nat)
    requires Lists(readers, rw) && |failed| == |readers| && start < |readers|
    requires forall k: nat :: k < |readers| ==> failed[At(start, k, |readers|)]
    ensures TriedSet(readers, start, |readers|) == rw
    ensures false !in failed
  {
    var n := |readers|;
    forall j | 0 <= j < n
      ensures failed[j] && readers[j] in TriedSet(readers, start, n)
    {
      var k: nat := if j >= start then j - start else j + n - start;
      assert At(start, k, n) == j;
      TriedExact(readers, start, n, readers[j]);
    }
    forall a
      ensures a in TriedSet(readers, start, n) <==> a in rw
    {
      TriedExact(readers, start, n, a);
    }
  }

  lemma NoReader(r: seq<Replica>, b: Backends, readers: seq<string>)
    requires Mirrors(r, b) && Lists(readers, InMode(b, RW))
    ensures |r| == 0 || (|r| == 1 && r[0].mode == WO) ==> readers == []
  {
    SomeRW(r, b);
    if readers != [] {
      assert readers[0] in InMode(b, RW);
    }
  }

  function MarkAll(b: Backends, bad: set<string>): Backends {
    map a | a in b :: if a in bad then ERR else b[a]
  }

  lemma MarkOneMore(b: Backends, bad: set<string>, a: string)
    requires a in b && a !in bad
    ensures AfterSetMode(MarkAll(b, bad), a, ERR) == MarkAll(b, bad + {a})
  {
  }

  lemma RemovedOneMore(b: Backends, bad: set<string>, rest: set<string>, a: string)
    requires a in rest && rest <= bad
    ensures b - (bad - rest) - {a} == b - (bad - (rest - {a}))
  {
  }

  lemma MarkedThenRemoved(b: Backends, bad: set<string>)
    ensures MarkAll(b, bad) - bad == b - bad
    ensures InMode(MarkAll(b, bad), RW) == InMode(b - bad, RW)
  {
  }

  lemma SomeRW(r: seq<Replica>, b: Backends)
    requires Mirrors(r, b)
    ensures (exists k :: 0 <= k < |r| && r[k].mode == RW) <==> InMode(b, RW) != {}
  {
    if k :| 0 <= k < |r| && r[k].mode == RW {
      assert r[k].address in InMode(b, RW);
    }
    if InMode(b, RW) != {} {
      var a :| a in InMode(b, RW);
      ListedIff(r, b, a);
    }
  }
}
