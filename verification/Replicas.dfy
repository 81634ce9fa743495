/**
  The tables of the controller: the list of replicas with their modes, the map
  of backends that mirrors it, and the reader and writer tables built from it.
*/
module Replicas {

  datatype Mode = RW | WO | ERR

  datatype Replica = Replica(address: string, mode: Mode)

  type Backends = map<string, Mode>

  predicate DistinctAddresses(r: seq<Replica>) {
    forall i, j :: 0 <= i < j < |r| ==> r[i].address != r[j].address
  }

  function Addresses(r: seq<Replica>): set<string> {
    set i | 0 <= i < |r| :: r[i].address
  }

  /** The backend map says of every listed replica, and of no other, what the list says. */
  ghost predicate Mirrors(r: seq<Replica>, b: Backends) {
    && DistinctAddresses(r)
    && b.Keys == Addresses(r)
    && forall i :: 0 <= i < |r| ==> r[i].address in b && b[r[i].address] == r[i].mode
  }

  function InMode(b: Backends, m: Mode): set<string> {
    set a | a in b && b[a] == m
  }

  function Writable(b: Backends): set<string> {
    set a | a in b && b[a] != ERR
  }

  predicate OneWO(b: Backends) {
    forall x, y :: x in b && y in b && b[x] == WO && b[y] == WO ==> x == y
  }

  // ---- Changing one entry ----

  lemma SetModeMirrors(r: seq<Replica>, b: Backends, i: nat, m: Mode)
    requires Mirrors(r, b) && i < |r|
    ensures Mirrors(r[i := r[i].(mode := m)], b[r[i].address := m])
  {
    var r' := r[i := r[i].(mode := m)];
    assert forall k :: 0 <= k < |r| ==> r'[k].address == r[k].address;
    assert Addresses(r') == Addresses(r);
  }

  lemma RemoveMirrors(r: seq<Replica>, b: Backends, i: nat)
    requires Mirrors(r, b) && i < |r|
    ensures Mirrors(r[..i] + r[i + 1..], b - {r[i].address})
  {
    var r' := r[..i] + r[i + 1..];
    assert forall k :: 0 <= k < |r'| ==> r'[k] == r[if k < i then k else k + 1];
    RemovedAddresses(r, i);
  }

  lemma RemovedAddresses(r: seq<Replica>, i: nat)
    requires DistinctAddresses(r) && i < |r|
    ensures Addresses(r[..i] + r[i + 1..]) == Addresses(r) - {r[i].address}
  {
    var r' := r[..i] + r[i + 1..];
    forall a
      ensures a in Addresses(r') <==> a in Addresses(r) && a != r[i].address
    {
      if a in Addresses(r) && a != r[i].address {
        var k :| 0 <= k < |r| && r[k].address == a;
        assert r'[if k < i then k else k - 1].address == a;
      }
      if a in Addresses(r') {
        var k :| 0 <= k < |r'| && r'[k].address == a;
        assert r[if k < i then k else k + 1].address == a;
      }
    }
  }

  lemma AppendMirrors(r: seq<Replica>, b: Backends, x: Replica)
    requires Mirrors(r, b) && x.address !in b
    ensures Mirrors(r + [x], b[x.address := x.mode])
  {
    var r' := r + [x];
    forall a
      ensures a in Addresses(r') <==> a in Addresses(r) || a == x.address
    {
      if a in Addresses(r) {
        var k :| 0 <= k < |r| && r[k].address == a;
        assert r'[k].address == a;
      }
      assert r'[|r|] == x;
    }
    forall i, j | 0 <= i < j < |r'|
      ensures r'[i].address != r'[j].address
    {
      assert r[i].address in b;
    }
  }

  lemma ListedIff(r: seq<Replica>, b: Backends, a: string)
    requires Mirrors(r, b)
    ensures a in b <==> exists i :: 0 <= i < |r| && r[i].address == a
  {
    assert a in b <==> a in Addresses(r);
  }

  // ---- Counting ----

  function CountRW(r: seq<Replica>): nat {
    if r == [] then 0 else CountRW(r[..|r| - 1]) + (if r[|r| - 1].mode == RW then 1 else 0)
  }

  /** Counting the list counts the backends. */
  lemma {:induction false} CountIsExact(r: seq<Replica>, b: Backends)
    requires Mirrors(r, b)
    ensures CountRW(r) == |InMode(b, RW)|
  {
    if r == [] {
      assert InMode(b, RW) == {};
    } else {
      var n := |r| - 1;
      RemoveMirrors(r, b, n);
      assert r[..n] + r[n + 1..] == r[..n];
      CountIsExact(r[..n], b - {r[n].address});
      InModeWithout(b, r[n].address, RW);
    }
  }

  lemma InModeWithout(b: Backends, a: string, m: Mode)
    requires a in b
    ensures |InMode(b, m)| == |InMode(b - {a}, m)| + (if b[a] == m then 1 else 0)
  {
    var rest := InMode(b - {a}, m);
    assert InMode(b, m) == if b[a] == m then rest + {a} else rest;
  }

  function Majority(rf: nat): nat {
    rf / 2 + 1
  }

  // ---- Readers and writers ----

  /** A table that lists each address of a set exactly once. */
  ghost predicate Lists(table: seq<string>, s: set<string>) {
    && (forall i, j :: 0 <= i < j < |table| ==> table[i] != table[j])
    && (forall a :: a in table <==> a in s)
  }

  lemma {:induction false} ListsSize(table: seq<string>, s: set<string>)
    requires Lists(table, s)
    ensures |table| == |s|
  {
    if table == [] {
      assert s == {};
    } else {
      var last := table[|table| - 1];
      var init := table[..|table| - 1];
      assert table == init + [last];
      ListsSize(init, s - {last});
    }
  }

  /** Builds both tables in whatever order the map is traversed. */
  method BuildReadWriters(b: Backends) returns (readers: seq<string>, writers: seq<string>)
    ensures Lists(readers, InMode(b, RW)) && Lists(writers, Writable(b))
  {
    readers, writers := [], [];
    var rest := b.Keys;
    while rest != {}
      invariant rest <= b.Keys
      invariant Lists(readers, InMode(b, RW) - rest)
      invariant Lists(writers, Writable(b) - rest)
      decreases rest
    {
      var a :| a in rest;
      if b[a] != ERR {
        writers := writers + [a];
      }
      if b[a] == RW {
        readers := readers + [a];
      }
      rest := rest - {a};
    }
    assert InMode(b, RW) - rest == InMode(b, RW) && Writable(b) - rest == Writable(b);
  }

  // ---- The majority rule ----

  function Failures(failed: seq<bool>): nat {
    if failed == [] then 0 else Failures(failed[..|failed| - 1]) + (if failed[|failed| - 1] then 1 else 0)
  }

  function FailedOf(writers: seq<string>, failed: seq<bool>): set<string>
    requires |writers| == |failed|
  {
    set i | 0 <= i < |writers| && failed[i] :: writers[i]
  }

  /** How many writers failed, as a set of addresses. */
  lemma {:induction false} FailuresAreDistinct(writers: seq<string>, failed: seq<bool>)
    requires |writers| == |failed|
    requires forall i, j :: 0 <= i < j < |writers| ==> writers[i] != writers[j]
    ensures |FailedOf(writers, failed)| == Failures(failed)
  {
    if writers == [] {
      assert FailedOf(writers, failed) == {};
    } else {
      var n := |writers| - 1;
      FailuresAreDistinct(writers[..n], failed[..n]);
      FailedOfLast(writers, failed);
      assert writers[n] !in FailedOf(writers[..n], failed[..n]);
    }
  }

  lemma FailedOfLast(writers: seq<string>, failed: seq<bool>)
    requires |failed| == |writers| > 0
    ensures var n := |writers| - 1;
            FailedOf(writers, failed) == FailedOf(writers[..n], failed[..n]) + (if failed[n] then {writers[n]} else {})
  {
    var n := |writers| - 1;
    var all, init := FailedOf(writers, failed), FailedOf(writers[..n], failed[..n]);
    forall a
      ensures a in all <==> a in init || (failed[n] && a == writers[n])
    {
      if a in all {
        var i :| 0 <= i < |writers| && failed[i] && writers[i] == a;
        assert i < n ==> writers[..n][i] == a && failed[..n][i];
      }
      if a in init {
        var i :| 0 <= i < n && failed[..n][i] && writers[..n][i] == a;
        assert writers[i] == a && failed[i];
      }
    }
  }

  /**
    Sends a write to every writer.  The whole length is reported if and only if a
    strict majority of the writers took it; the failures are reported either way.
  */
  method MultiWrite(length: nat, failed: seq<bool>) returns (n: nat, errored: bool)
    ensures errored <==> true in failed
    ensures n == if !errored || |failed| - Failures(failed) > |failed| / 2 then length else 0
  {
    errored := false;
    var i := 0;
    while i < |failed|
      invariant 0 <= i <= |failed|
      invariant errored <==> true in failed[..i]
    {
      if failed[i] {
        errored := true;
      }
      i := i + 1;
    }
    assert failed[..i] == failed;
    if !errored {
      return length, false;
    }
    var count := 0;
    i := 0;
    while i < |failed|
      invariant 0 <= i <= |failed|
      invariant count == Failures(failed[..i])
    {
      assert failed[..i + 1][..i] == failed[..i];
      if failed[i] {
        count := count + 1;
      }
      i := i + 1;
    }
    assert failed[..i] == failed;
    n := if |failed| - count > |failed| / 2 then length else 0;
  }
}
