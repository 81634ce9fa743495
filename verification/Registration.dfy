/**
  How a volume comes up: replicas register with the controller, and once enough
  have done so the one with the greatest revision counter is told to start.
*/
module Registration {
  import opened Replicas

  datatype Reg = Reg(uuid: string, rev: int, rebuilding: bool)

  type Registered = map<string, Reg>

  /** A missing entry reads as revision 0. */
  function Rev(r: Registered, a: string): int {
    if a in r then r[a].rev else 0
  }

  predicate IsMax(r: Registered, a: string) {
    forall x :: x in r ==> Rev(r, x) <= Rev(r, a)
  }

  /** The leader after the election loop that runs when the given address registers. */
  function Elected(r: Registered, leader: string, address: string): string {
    if IsMax(r, leader) then leader else address
  }

  /**
    The loop moves to the address that has just registered, not to the one with
    the greater counter.  So the leader has the greatest counter if and only if
    the leader before, or the newcomer, has it.
  */
  lemma ElectedIsMaxIff(r: Registered, leader: string, address: string)
    ensures IsMax(r, Elected(r, leader, address)) <==> IsMax(r, leader) || IsMax(r, address)
  {
  }

  /** Entries of the same replica under another address are dropped. */
  function Register(r: Registered, address: string, reg: Reg): Registered {
    (map a | a in r && !(r[a].uuid == reg.uuid && a != address) :: r[a])[address := reg]
  }

  /** What the controller knows before replicas are attached. */
  datatype Phase = Phase(registered: Registered, leader: string, signalled: bool)

  /** One registration; the flags say whether the leader answers to each of the calls made to it. */
  datatype Call = Call(address: string, reg: Reg, alive: bool, again: bool, reached: bool)

  /** A leader that cannot be told to start is dropped. */
  function SignalTo(p: Phase, reached: bool): Phase {
    if reached then p.(signalled := true) else Phase(p.registered - {p.leader}, "", false)
  }

  function Vote(p: Phase, rf: nat, address: string, reached: bool): (Phase, bool) {
    var q := p.(leader := Elected(p.registered, if p.leader == "" then address else p.leader, address));
    if |q.registered| >= Majority(rf) then (SignalTo(q, reached), reached) else (q, true)
  }

  /** The phase after a registration, and whether it is answered without an error. */
  function Next(p: Phase, rf: nat, attached: nat, c: Call): (Phase, bool) {
    if c.reg.uuid == "" then (p, true)
    else
      var q := p.(registered := Register(p.registered, c.address, c.reg));
      if attached > 0 || (q.signalled && c.address != q.leader && c.alive) then (q, true)
      else if q.signalled && c.address == q.leader && !c.again then (SignalTo(q, false), false)
      else
        var q' := if q.signalled && c.address != q.leader then SignalTo(q, false) else q;
        if c.reg.rebuilding then (q', true) else Vote(q', rf, c.address, c.reached)
  }

  /** The registration leads to an election: nobody is being waited for who still answers. */
  predicate Elects(p: Phase, c: Call) {
    && c.reg.uuid != "" && !c.reg.rebuilding
    && (p.signalled ==> if c.address == p.leader then c.again else !c.alive)
  }

  /** Who takes part in the election: a leader that was signalled and does not answer any more is dropped first. */
  function Voters(p: Phase, c: Call): Phase {
    var q := p.(registered := Register(p.registered, c.address, c.reg));
    if p.signalled && c.address != p.leader then SignalTo(q, false) else q
  }

  /**
    The replica that an election makes the leader, and tells to start if enough have
    registered, has the greatest counter if and only if the leader before has it, or
    the newcomer.  This covers first elections, elections that replace a signalled
    leader, and a signalled leader that registers again.
  */
  lemma NextIsMaxIff(p: Phase, rf: nat, c: Call)
    requires Elects(p, c) && c.reached
    ensures var v, q := Voters(p, c), Next(p, rf, 0, c).0;
            && q.registered == v.registered
            && q.signalled == (v.signalled || |v.registered| >= Majority(rf))
            && (IsMax(v.registered, q.leader) <==>
                  (v.leader != "" && IsMax(v.registered, v.leader)) || IsMax(v.registered, c.address))
  {
    var v := Voters(p, c);
    ElectedIsMaxIff(v.registered, if v.leader == "" then c.address else v.leader, c.address);
  }

  /** The elected replica cannot be told to start: it is dropped, and whether it had the greatest counter is decided as before. */
  lemma UnreachedIsDropped(p: Phase, rf: nat, c: Call) returns (l: string)
    requires Elects(p, c) && !c.reached && |Voters(p, c).registered| >= Majority(rf)
    ensures var v := Voters(p, c);
            && Next(p, rf, 0, c) == (Phase(v.registered - {l}, "", false), false)
            && (IsMax(v.registered, l) <==> (v.leader != "" && IsMax(v.registered, v.leader)) || IsMax(v.registered, c.address))
  {
    var v := Voters(p, c);
    l := Elected(v.registered, if v.leader == "" then c.address else v.leader, c.address);
    ElectedIsMaxIff(v.registered, if v.leader == "" then c.address else v.leader, c.address);
  }

  /**
    A registration that is none of the election's business changes nothing but the
    list: one without a uuid not even that, one while replicas are attached or while
    the replica told to start still answers.  Nobody is told to start but a reachable
    replica, by a call that is not rebuilding, at a majority; an error means that the
    leader could not be reached and is gone.
  */
  lemma Undisturbed(p: Phase, rf: nat, attached: nat, c: Call)
    ensures var (q, ok) := Next(p, rf, attached, c);
            && (c.reg.uuid == "" ==> q == p && ok)
            && (attached > 0 || (p.signalled && c.address != p.leader && c.alive) ==>
                  q.leader == p.leader && q.signalled == p.signalled && ok)
            && (c.reg.rebuilding ==> q.leader == p.leader || q.leader == "")
            && (!p.signalled && q.signalled ==>
                  && attached == 0 && c.reached && !c.reg.rebuilding && |q.registered| >= rf / 2 + 1
                  && (q.leader == c.address || q.leader == p.leader))
            && (!ok ==> q.leader == "" && !q.signalled)
  {
  }

  /** The newcomer is not known under another address, does not rebuild, and has not gone back. */
  predicate Regular(r: Registered, address: string, reg: Reg) {
    && reg.uuid != ""
    && !reg.rebuilding
    && (forall a :: a in r && r[a].uuid == reg.uuid ==> a == address)
    && (address in r ==> r[address].rev <= reg.rev)
    && address != ""
  }

  class Registrar {
    const rf: nat
    var registered: Registered
    var leader: string
    var signalled: bool
    /** How many replicas are attached to the controller. */
    var attached: nat

    constructor (rf: nat)
      ensures Current() == Phase(map[], "", false) && attached == 0 && this.rf == rf
    {
      this.rf := rf;
      registered, leader, signalled, attached := map[], "", false, 0;
    }

    function Current(): Phase
      reads this
    {
      Phase(registered, leader, signalled)
    }

    /** Tells the leader to start; if it cannot be reached it is dropped. */
    method Signal(reached: bool) returns (ok: bool)
      modifies this`registered, this`leader, this`signalled
      ensures ok == reached && Current() == SignalTo(old(Current()), reached)
    {
      if !reached {
        registered := registered - {leader};
        leader := "";
        signalled := false;
        return false;
      }
      signalled := true;
      return true;
    }

    /** The election: compares the leader with every registered replica, in any order. */
    method Elect(address: string)
      modifies this`leader
      ensures leader == Elected(registered, old(leader), address)
    {
      var rest := registered.Keys;
      while rest != {}
        invariant rest <= registered.Keys
        invariant leader == old(leader) || leader == address
        invariant leader == old(leader) && old(leader) != address ==>
                    forall x :: x in registered.Keys - rest ==> Rev(registered, x) <= Rev(registered, leader)
        invariant leader != old(leader) ==> !IsMax(registered, old(leader))
        decreases rest
      {
        var a :| a in rest;
        if Rev(registered, leader) < Rev(registered, a) {
          leader := address;
        }
        rest := rest - {a};
      }
      assert registered.Keys - rest == registered.Keys;
    }

    /** A replica registers. */
    method RegisterReplica(c: Call) returns (ok: bool)
      modifies this`registered, this`leader, this`signalled
      ensures (Current(), ok) == Next(old(Current()), rf, attached, c)
    {
      if c.reg.uuid == "" {
        return true;
      }
      registered := Register(registered, c.address, c.reg);
      if attached > 0 {
        return true;
      }
      if signalled {
        if c.address == leader {
          ok := Signal(c.again);
          if !ok {
            return false;
          }
        } else if !c.alive {
          registered := registered - {leader};
          leader := "";
          signalled := false;
        } else {
          return true;
        }
      }
      if c.reg.rebuilding {
        return true;
      }
      ok := Decide(c.address, c.reached);
    }

    /** The election, and the signal once enough replicas have registered. */
    method Decide(address: string, reached: bool) returns (ok: bool)
      modifies this`registered, this`leader, this`signalled
      ensures (Current(), ok) == Vote(old(Current()), rf, address, reached)
    {
      if leader == "" {
        leader := address;
      }
      Elect(address);
      if |registered| >= rf / 2 + 1 {
        ok := Signal(reached);
        return;
      }
      return true;
    }
  }

  /** A regular registration leaves a leader with the greatest counter. */
  lemma StillLed(r: Registered, leader: string, address: string, reg: Reg)
    requires Regular(r, address, reg)
    requires leader == "" ==> r == map[]
    requires leader != "" ==> leader in r && IsMax(r, leader)
    ensures var r' := Register(r, address, reg);
            var l := Elected(r', if leader == "" then address else leader, address);
            l in r' && l != "" && IsMax(r', l)
  {
    var r' := Register(r, address, reg);
    var l := if leader == "" then address else leader;
    forall x | x in r'
      ensures Rev(r', x) <= Rev(r', l) || IsMax(r', address)
    {
      if x != address {
        assert x in r && Rev(r', x) == Rev(r, x);
      }
      if leader != "" && !(Rev(r', address) <= Rev(r', l)) {
        forall y | y in r'
          ensures Rev(r', y) <= Rev(r', address)
        {
          assert y != address ==> y in r && Rev(r, y) <= Rev(r, leader);
        }
      }
    }
  }

  // ---- Runs of registrations ----

  /** The replicas that have registered, if none is dropped. */
  function Listed(calls: seq<Call>): Registered {
    if calls == [] then map[]
    else
      var init, last := calls[..|calls| - 1], calls[|calls| - 1];
      if last.reg.uuid == "" then Listed(init) else Register(Listed(init), last.address, last.reg)
  }

  function PhaseAfter(rf: nat, calls: seq<Call>): Phase {
    if calls == [] then Phase(map[], "", false)
    else Next(PhaseAfter(rf, calls[..|calls| - 1]), rf, 0, calls[|calls| - 1]).0
  }

  /** The call registers the replica of an earlier call again, or another one under its address. */
  predicate Overrides(c: Call, earlier: Call) {
    c.reg.uuid != "" && (c.reg.uuid == earlier.reg.uuid || c.address == earlier.address)
  }

  /** Call k has registered a replica, and no later call overrides it. */
  predicate Latest(calls: seq<Call>, k: nat)
    requires k < |calls|
  {
    calls[k].reg.uuid != "" && forall j :: k < j < |calls| ==> !Overrides(calls[j], calls[k])
  }

  ghost predicate LastSaid(calls: seq<Call>, a: string, reg: Reg) {
    exists k: nat :: k < |calls| && Latest(calls, k) && calls[k].address == a && calls[k].reg == reg
  }

  lemma LatestStep(calls: seq<Call>, k: nat)
    requires k < |calls| - 1
    ensures Latest(calls, k) <==> Latest(calls[..|calls| - 1], k) && !Overrides(calls[|calls| - 1], calls[k])
  {
    var init := calls[..|calls| - 1];
    assert forall j :: 0 <= j < |init| ==> init[j] == calls[j];
  }

  lemma LastSaidStep(calls: seq<Call>, a: string, reg: Reg)
    requires calls != []
    ensures var init, last := calls[..|calls| - 1], calls[|calls| - 1];
            LastSaid(calls, a, reg) <==>
              || (last.reg.uuid != "" && last.address == a && last.reg == reg)
              || (LastSaid(init, a, reg) && !(last.reg.uuid != "" && (last.reg.uuid == reg.uuid || last.address == a)))
  {
    var init, n := calls[..|calls| - 1], |calls| - 1;
    assert Latest(calls, n) <==> calls[n].reg.uuid != "";
    if LastSaid(init, a, reg) {
      var k: nat :| k < n && Latest(init, k) && init[k].address == a && init[k].reg == reg;
      LatestStep(calls, k);
    }
    LastSaidBefore(calls, a, reg);
  }

  lemma LastSaidBefore(calls: seq<Call>, a: string, reg: Reg)
    requires calls != []
    ensures var init, last := calls[..|calls| - 1], calls[|calls| - 1];
            LastSaid(calls, a, reg) ==>
              || (last.reg.uuid != "" && last.address == a && last.reg == reg)
              || (LastSaid(init, a, reg) && !(last.reg.uuid != "" && (last.reg.uuid == reg.uuid || last.address == a)))
  {
    var init, n := calls[..|calls| - 1], |calls| - 1;
    if LastSaid(calls, a, reg) {
      var k: nat :| k < |calls| && Latest(calls, k) && calls[k].address == a && calls[k].reg == reg;
      if k < n {
        LatestStep(calls, k);
        assert init[k] == calls[k];
      }
    }
  }

  /** What is listed is exactly what the latest calls of the replicas said. */
  lemma {:induction false} LatestIsListed(calls: seq<Call>, a: string, reg: Reg)
    ensures a in Listed(calls) && Listed(calls)[a] == reg <==> LastSaid(calls, a, reg)
    decreases |calls|
  {
    if calls != [] {
      LatestIsListed(calls[..|calls| - 1], a, reg);
      LastSaidStep(calls, a, reg);
    }
  }

  /** No two latest calls are of the same replica. */
  lemma LatestDiffer(calls: seq<Call>, a: string, b: string, x: Reg, y: Reg)
    requires LastSaid(calls, a, x) && LastSaid(calls, b, y) && x.uuid == y.uuid
    ensures a == b
  {
    var j: nat :| j < |calls| && Latest(calls, j) && calls[j].address == a && calls[j].reg == x;
    var k: nat :| k < |calls| && Latest(calls, k) && calls[k].address == b && calls[k].reg == y;
    assert Overrides(calls[k], calls[j]) && Overrides(calls[j], calls[k]);
  }

  predicate Part(r: Registered, all: Registered) {
    forall a :: a in r ==> a in all && r[a] == all[a]
  }

  /** Replicas may be dropped, but what is said about those that are registered is their latest call. */
  lemma {:induction false} PhaseIsPart(rf: nat, calls: seq<Call>)
    ensures Part(PhaseAfter(rf, calls).registered, Listed(calls))
    decreases |calls|
  {
    if calls != [] {
      var init, last := calls[..|calls| - 1], calls[|calls| - 1];
      PhaseIsPart(rf, init);
      if last.reg.uuid != "" {
        NextIsPart(PhaseAfter(rf, init), rf, 0, last);
        RegisterPart(PhaseAfter(rf, init).registered, Listed(init), last.address, last.reg);
      }
    }
  }

  lemma RegisterPart(r: Registered, all: Registered, address: string, reg: Reg)
    requires Part(r, all)
    ensures Part(Register(r, address, reg), Register(all, address, reg))
  {
  }

  lemma NextIsPart(p: Phase, rf: nat, attached: nat, c: Call)
    requires c.reg.uuid != ""
    ensures Part(Next(p, rf, attached, c).0.registered, Register(p.registered, c.address, c.reg))
  {
  }

  function Uuids(r: Registered): set<string> {
    set a | a in r :: r[a].uuid
  }

  lemma {:induction false} DistinctUuids(r: Registered)
    requires forall a, b :: a in r && b in r && r[a].uuid == r[b].uuid ==> a == b
    ensures |Uuids(r)| == |r|
    decreases |r|
  {
    if r == map[] {
      assert Uuids(r) == {};
    } else {
      var a :| a in r;
      var rest := r - {a};
      DistinctUuids(rest);
      assert r[a].uuid !in Uuids(rest);
      forall u
        ensures u in Uuids(r) <==> u in Uuids(rest) || u == r[a].uuid
      {
        if u in Uuids(r) {
          var b :| b in r && r[b].uuid == u;
          assert b != a ==> b in rest && rest[b].uuid == u;
        }
      }
      assert Uuids(r) == Uuids(rest) + {r[a].uuid};
      assert r.Keys == rest.Keys + {a};
    }
  }

  /**
    Over every run of registrations: each entry is the latest call of its replica, and
    no replica has two, so the entries count replicas.
  */
  lemma OneEntryPerReplica(rf: nat, calls: seq<Call>)
    ensures var r := PhaseAfter(rf, calls).registered;
            && (forall a :: a in r ==> LastSaid(calls, a, r[a]))
            && (forall a, b :: a in r && b in r && r[a].uuid == r[b].uuid ==> a == b)
            && |Uuids(r)| == |r|
  {
    var r := PhaseAfter(rf, calls).registered;
    PhaseIsPart(rf, calls);
    forall a | a in r
      ensures LastSaid(calls, a, r[a])
    {
      LatestIsListed(calls, a, r[a]);
    }
    forall a, b | a in r && b in r && r[a].uuid == r[b].uuid
      ensures a == b
    {
      LatestDiffer(calls, a, b, r[a], r[b]);
    }
    DistinctUuids(r);
  }

  /** A start signal is sent only when a majority of different replicas has registered. */
  lemma StartNeedsMajority(rf: nat, calls: seq<Call>)
    requires calls != [] && PhaseAfter(rf, calls).signalled && !PhaseAfter(rf, calls[..|calls| - 1]).signalled
    ensures |Uuids(PhaseAfter(rf, calls).registered)| >= rf / 2 + 1
  {
    OneEntryPerReplica(rf, calls);
  }

  /**
    A call drops nobody but a leader: the one that was told to start and does not
    answer, or the one it has just elected and cannot reach.
  */
  lemma OnlyLeadersAreDropped(p: Phase, rf: nat, attached: nat, c: Call, a: string)
    requires a in Register(p.registered, c.address, c.reg) && c.reg.uuid != ""
    ensures var q := Next(p, rf, attached, c).0;
            a !in q.registered ==>
              || (p.signalled && a == p.leader && (if c.address == p.leader then !c.again || !c.reached else !c.alive))
              || (!c.reached && q.leader == "" && !q.signalled)
  {
  }

  /** Every registration is regular. */
  ghost predicate RegularCalls(calls: seq<Call>) {
    forall k :: 0 <= k < |calls| ==> Regular(Listed(calls[..k]), calls[k].address, calls[k].reg)
  }

  /** Nobody is told to start before the last call. */
  ghost predicate UpToSignal(rf: nat, calls: seq<Call>) {
    forall k :: 0 <= k < |calls| ==> |Listed(calls[..k])| < Majority(rf)
  }

  /** Nobody has been told to start; the leader, if there is one, has the greatest counter. */
  ghost predicate Led(p: Phase, r: Registered) {
    && p.registered == r && !p.signalled
    && (if p.leader == "" then r == map[] else p.leader in r && IsMax(r, p.leader))
  }

  /** Below a majority nobody is signalled; at a majority a replica with the greatest counter is, or it is dropped. */
  ghost predicate Decided(p: Phase, r: Registered, rf: nat, reached: bool) {
    if |r| < Majority(rf) then Led(p, r)
    else if reached then p.registered == r && p.signalled && p.leader in r && IsMax(r, p.leader)
    else exists l :: l in r && IsMax(r, l) && p == Phase(r - {l}, "", false)
  }

  /**
    While replicas register regularly, in any order and any number of times, up to
    the first start signal: it is sent exactly when a majority has registered, and
    to a replica with the greatest counter of all; a leader that cannot be reached
    is dropped.
  */
  lemma {:induction false} RegularRun(rf: nat, calls: seq<Call>)
    requires RegularCalls(calls) && UpToSignal(rf, calls)
    ensures if calls == [] then Led(PhaseAfter(rf, calls), Listed(calls))
            else Decided(PhaseAfter(rf, calls), Listed(calls), rf, calls[|calls| - 1].reached)
    decreases |calls|
  {
    if calls != [] {
      var init, last := calls[..|calls| - 1], calls[|calls| - 1];
      assert forall k :: 0 <= k < |init| ==> init[..k] == calls[..k];
      RegularRun(rf, init);
      assert |Listed(calls[..|init|])| < Majority(rf);
      LedStep(PhaseAfter(rf, init), Listed(init), rf, last);
    }
  }

  lemma LedStep(p: Phase, r: Registered, rf: nat, c: Call)
    requires Led(p, r) && Regular(r, c.address, c.reg)
    ensures Decided(Next(p, rf, 0, c).0, Register(r, c.address, c.reg), rf, c.reached)
  {
    StillLed(r, p.leader, c.address, c.reg);
  }

  /**
    The start signal, over every run of registrations, regular or not: the replica that
    the last call tells to start has the greatest counter of all that are registered
    if and only if the leader before the call had it, or the caller has it.
  */
  lemma StartedIsMaxIff(rf: nat, calls: seq<Call>)
    requires calls != []
    requires var p, c := PhaseAfter(rf, calls[..|calls| - 1]), calls[|calls| - 1];
             Elects(p, c) && c.reached && |Voters(p, c).registered| >= Majority(rf)
    ensures var p, c, q := PhaseAfter(rf, calls[..|calls| - 1]), calls[|calls| - 1], PhaseAfter(rf, calls);
            var v := Voters(p, c);
            && q.signalled && q.registered == v.registered
            && (IsMax(q.registered, q.leader) <==>
                  (v.leader != "" && IsMax(q.registered, v.leader)) || IsMax(q.registered, c.address))
  {
    NextIsMaxIff(PhaseAfter(rf, calls[..|calls| - 1]), rf, calls[|calls| - 1]);
  }

  /** The registrations, one after the other. */
  method RegisterAll(rf: nat, calls: seq<Call>) returns (r: Registrar)
    ensures fresh(r) && r.rf == rf && r.Current() == PhaseAfter(rf, calls)
  {
    r := new Registrar(rf);
    var i := 0;
    while i < |calls|
      invariant 0 <= i <= |calls| && fresh(r) && r.rf == rf && r.attached == 0
      invariant r.Current() == PhaseAfter(rf, calls[..i])
    {
      assert calls[..i + 1][..i] == calls[..i];
      var _ := r.RegisterReplica(calls[i]);
      i := i + 1;
    }
    assert calls[..i] == calls;
  }

  function Plain(address: string, uuid: string, rev: int): Call {
    Call(address, Reg(uuid, rev, false), true, true, true)
  }

  /** Four registrations, of which the third goes back in its counter, before the start signal at replication factor 4. */
  function Missing(): seq<Call> {
    [Plain("a", "1", 5), Plain("b", "2", 3), Plain("a", "1", 1), Plain("c", "3", 2)]
  }

  function MissingPhase(k: nat): Phase {
    if k == 0 then Phase(map[], "", false)
    else if k == 1 then Phase(map["a" := Reg("1", 5, false)], "a", false)
    else if k == 2 then Phase(map["a" := Reg("1", 5, false), "b" := Reg("2", 3, false)], "a", false)
    else Phase(map["a" := Reg("1", 1, false), "b" := Reg("2", 3, false)], "a", false)
  }

  /** A registration that signals nobody. */
  lemma NextQuiet(p: Phase, c: Call, r: Registered, leader: string)
    requires c.reg.uuid != "" && !c.reg.rebuilding && !p.signalled
    requires Register(p.registered, c.address, c.reg) == r && |r| < 3
    requires leader == Elected(r, if p.leader == "" then c.address else p.leader, c.address)
    ensures Next(p, 4, 0, c) == (Phase(r, leader, false), true)
  {
  }

  lemma MissingStep(k: nat)
    requires k < 3
    ensures Next(MissingPhase(k), 4, 0, Missing()[k]).0 == MissingPhase(k + 1)
  {
    var r := MissingPhase(k + 1).registered;
    var c := Missing()[k];
    assert Register(MissingPhase(k).registered, c.address, c.reg) == r;
    assert r.Keys == if k == 0 then {"a"} else {"a", "b"};
    assert Rev(r, "a") == (if k == 2 then 1 else 5) && (k > 0 ==> Rev(r, "b") == 3);
    NextQuiet(MissingPhase(k), c, r, "a");
  }

  lemma {:induction false} MissingRun(k: nat)
    requires k <= 3
    ensures PhaseAfter(4, Missing()[..k]) == MissingPhase(k)
  {
    if k > 0 {
      MissingRun(k - 1);
      MissingStep(k - 1);
      assert Missing()[..k][..k - 1] == Missing()[..k - 1];
    }
  }

  /** That run signals replica c, with counter 2, although replica b has registered with 3. */
  lemma ElectionCanMiss()
    ensures var p := PhaseAfter(4, Missing());
            p.signalled && p.leader == "c" && Rev(p.registered, "c") == 2 && Rev(p.registered, "b") == 3
  {
    MissingRun(3);
    MissingLast();
    assert Missing()[..3] + [Missing()[3]] == Missing();
    assert PhaseAfter(4, Missing()) == Next(MissingPhase(3), 4, 0, Missing()[3]).0;
  }

  lemma MissingLast()
    ensures var p := Next(MissingPhase(3), 4, 0, Missing()[3]).0;
            p.signalled && p.leader == "c" && Rev(p.registered, "c") == 2 && Rev(p.registered, "b") == 3
  {
    var c2 := Reg("3", 2, false);
    var r := map["a" := Reg("1", 1, false), "b" := Reg("2", 3, false), "c" := c2];
    assert Register(MissingPhase(3).registered, "c", c2) == r;
    assert r.Keys == {"a", "b", "c"};
    assert !IsMax(r, "a") by {
      assert "b" in r && Rev(r, "b") == 3 && Rev(r, "a") == 1;
    }
  }

  // ---- Quorums ----

  /**
    A population of rf replicas; a write went to the writers, enough of them for
    the volume to be writable, and was acknowledged because more than half of them
    applied it; later enough replicas of the population have registered.
  */
  ghost predicate Scenario(rf: nat, population: set<nat>, writers: set<nat>, applied: set<nat>, registered: set<nat>) {
    && |population| == rf
    && writers <= population && |writers| >= Majority(rf)
    && applied <= writers && |applied| > |writers| / 2
    && registered <= population && |registered| >= Majority(rf)
  }

  /** Whoever registers, one of them applied the write. */
  ghost predicate QuorumsMeet(rf: nat) {
    forall p, w, a, r :: Scenario(rf, p, w, a, r) ==> a * r != {}
  }

  lemma Overlap(p: set<nat>, a: set<nat>, r: set<nat>)
    requires a <= p && r <= p && |a| + |r| > |p|
    ensures a * r != {}
  {
    Within(a + r, p);
    assert |a + r| + |a * r| == |a| + |r|;
  }

  lemma {:induction false} Within(s: set<nat>, p: set<nat>)
    requires s <= p
    ensures |s| <= |p|
  {
    assert p == s + (p - s);
  }

  function Range(lo: nat, hi: nat): (s: set<nat>)
    requires lo <= hi
    ensures |s| == hi - lo
    ensures forall x: nat :: x in s <==> lo <= x < hi
    decreases hi - lo
  {
    if lo == hi then {} else Range(lo, hi - 1) + {hi - 1}
  }

  /**
    A majority of the writers and a majority of the population are sure to meet
    exactly for these replication factors.  For all others a write can be
    acknowledged and then be unknown to every replica the volume starts with.
  */
  lemma QuorumsMeetIff(rf: nat)
    requires rf > 0
    ensures QuorumsMeet(rf) <==> rf in {1, 2, 3, 4, 6}
  {
    if rf in {1, 2, 3, 4, 6} {
      forall p, w, a, r | Scenario(rf, p, w, a, r)
        ensures a * r != {}
      {
        Within(w, p);
        Overlap(p, a, r);
      }
    } else {
      var m := Majority(rf);
      var k := m / 2 + 1;
      assert k + m <= rf;
      var p, w, a, r := Range(0, rf), Range(0, m), Range(0, k), Range(rf - m, rf);
      assert Scenario(rf, p, w, a, r);
      assert a * r == {};
    }
  }
}
