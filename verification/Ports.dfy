/** The ports that the sync agent hands out to the receivers of file transfers. */
module Ports {

  datatype Option<+T> = None | Some(value: T)

  /** No two processes have the same port. */
  ghost predicate Apart(live: map<nat, int>) {
    forall x, y :: x in live && y in live && x != y ==> live[x] != live[y]
  }

  class Agent {
    const startPort: int
    const endPort: int
    var currentPort: int
    /** Receivers by port. */
    var byPort: map<int, nat>
    /** All processes ever started, with the port that each was given. */
    var processes: map<nat, Option<int>>
    var counter: nat
    /** The receivers that have not exited, with their ports. */
    ghost var live: map<nat, int>
    /** The processes that have not exited. */
    ghost var running: set<nat>

    predicate InRange(port: int) {
      startPort <= port <= endPort
    }

    ghost predicate Valid()
      reads this
    {
      && startPort <= endPort
      && InRange(currentPort)
      && (forall id :: id in processes ==> id <= counter)
      && running <= processes.Keys
      && (forall id :: id in live <==> id in running && processes[id].Some?)
      && (forall id :: id in live ==> processes[id] == Some(live[id]))
      && Table(byPort, live)
      && (forall p :: p in byPort ==> InRange(p))
    }

    constructor (start: int, end: int)
      requires start <= end
      ensures Valid() && byPort == map[] && live == map[] && running == {} && startPort == start && endPort == end
    {
      startPort, endPort, currentPort, byPort, counter := start, end, start, map[], 0;
      processes, live, running := map[], map[], {};
    }

    /** The port reached from p after k steps around the range, for k no more than its size. */
    function Around(p: int, k: int): int {
      if p + k <= endPort then p + k else p + k - (endPort - startPort + 1)
    }

    /** Looks at the ports from the current one on, once around; fails exactly when all are held. */
    method NextPort() returns (port: Option<int>)
      requires Valid()
      modifies this`currentPort
      ensures Valid()
      ensures port == None <==> forall p :: InRange(p) ==> p in byPort
      ensures port.Some? ==> InRange(port.value) && port.value !in byPort
    {
      ghost var first := currentPort;
      var i := 0;
      while i < endPort - startPort + 1
        invariant 0 <= i <= endPort - startPort + 1
        invariant InRange(currentPort) && currentPort == Around(first, i)
        invariant forall k {:trigger Around(first, k)} :: 0 <= k < i ==> Around(first, k) in byPort
      {
        var p := currentPort;
        currentPort := currentPort + 1;
        if currentPort > endPort {
          currentPort := startPort;
        }
        if p !in byPort {
          return Some(p);
        }
        i := i + 1;
      }
      forall p | InRange(p)
        ensures p in byPort
      {
        var k := if p >= first then p - first else p - first + (endPort - startPort + 1);
        assert Around(first, k) == p;
      }
      return None;
    }

    /**
      Starts a process.  One that receives a file gets a port of its own; one that
      sends a file does not appear in the table at all.
    */
    method CreateProcess(receives: bool) returns (id: nat, port: Option<int>, ok: bool)
      requires Valid()
      modifies this`currentPort, this`byPort, this`counter, this`processes, this`live, this`running
      ensures Valid()
      ensures ok <==> !receives || exists p :: InRange(p) && p !in old(byPort)
      ensures ok ==> id !in old(processes) && running == old(running) + {id} && port.Some? == receives
      ensures ok && receives ==> forall x :: x in old(live) ==> old(live)[x] != port.value
      ensures live == if ok && receives then old(live)[id := port.value] else old(live)
      ensures !ok ==> running == old(running) && byPort == old(byPort)
    {
      port := None;
      if receives {
        port := NextPort();
        if port == None {
          return 0, None, false;
        }
      }
      counter := counter + 1;
      id := counter;
      processes := processes[id := port];
      running := running + {id};
      if receives {
        TableGrows(byPort, live, id, port.value);
        byPort := byPort[port.value := id];
        live := live[id := port.value];
      }
      ok := true;
    }

    /** A process exits; a receiver gives its own port back. */
    method Exit(id: nat)
      requires Valid() && id in running
      modifies this`byPort, this`live, this`running
      ensures Valid()
      ensures running == old(running) - {id} && live == old(live) - {id}
    {
      TableShrinks(byPort, live, id);
      var port := processes[id];
      if port.Some? {
        byPort := byPort - {port.value};
      }
      live, running := live - {id}, running - {id};
    }
  }

  /** The table lists exactly the live receivers under their ports, and so no port twice. */
  ghost predicate Table(byPort: map<int, nat>, live: map<nat, int>) {
    && Apart(live)
    && (forall id :: id in live ==> live[id] in byPort && byPort[live[id]] == id)
    && (forall p :: p in byPort ==> byPort[p] in live && live[byPort[p]] == p)
  }

  lemma TableGrows(byPort: map<int, nat>, live: map<nat, int>, id: nat, port: int)
    requires Table(byPort, live) && id !in live && port !in byPort
    ensures Table(byPort[port := id], live[id := port])
    ensures forall x :: x in live ==> live[x] != port
  {
  }

  lemma TableShrinks(byPort: map<int, nat>, live: map<nat, int>, id: nat)
    requires Table(byPort, live)
    ensures id in live ==> Table(byPort - {live[id]}, live - {id})
    ensures id !in live ==> live - {id} == live
  {
  }

  datatype Event = Create(receives: bool) | Exited(id: nat)

  /**
    Over any run of starts and exits, no two live receivers share a port, every live
    receiver is in the table and nobody else, and a start is refused only when every
    port of the range is held by a live receiver.
  */
  method Serve(start: int, end: int, events: seq<Event>) returns (agent: Agent, refused: bool)
    requires start <= end
    ensures fresh(agent) && agent.Valid()
    ensures Apart(agent.live) && agent.byPort.Keys == agent.live.Values
    ensures refused ==> forall p :: start <= p <= end ==> p in agent.live.Values
  {
    agent := new Agent(start, end);
    refused := false;
    var running: set<nat> := {};
    var i := 0;
    while i < |events| && !refused
      invariant 0 <= i <= |events|
      invariant fresh(agent) && agent.Valid() && agent.startPort == start && agent.endPort == end
      invariant agent.running == running
      invariant refused ==> forall p :: start <= p <= end ==> p in agent.byPort
    {
      match events[i] {
        case Create(receives) =>
          var id, port, ok := agent.CreateProcess(receives);
          if ok {
            running := running + {id};
          } else {
            assert forall p :: start <= p <= end ==> agent.InRange(p);
            refused := true;
          }
        case Exited(id) =>
          if id in running {
            agent.Exit(id);
            running := running - {id};
          }
      }
      i := i + 1;
    }
    assert forall p :: p in agent.byPort ==> agent.live[agent.byPort[p]] == p;
    assert forall id :: id in agent.live ==> agent.live[id] in agent.byPort;
  }
}
