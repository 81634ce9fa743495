/**
  The client side of the connection between controller and replica: requests get
  sequence numbers, responses are matched by them, and a transport error ends
  everything that is in flight.
*/
module Rpc {

  const SeqLimit: nat := 0x1_0000_0000

  function NextSeq(seqNo: nat): nat {
    (seqNo + 1) % SeqLimit
  }

  /** What a request was told: the response that carried its number, or an error. */
  datatype Completion = Answered(id: nat, seqNo: nat, payload: seq<int>) | Errored(id: nat)

  function Ids(done: seq<Completion>): set<nat> {
    set k | 0 <= k < |done| :: done[k].id
  }

  predicate Once(done: seq<Completion>) {
    forall i, j :: 0 <= i < j < |done| ==> done[i].id != done[j].id
  }

  predicate Injective(m: map<nat, nat>) {
    forall x, y :: x in m && y in m && m[x] == m[y] ==> x == y
  }

  /** The requests that wait for an answer. */
  function InFlight(m: map<nat, nat>): set<nat> {
    set k | k in m :: m[k]
  }

  lemma CompletedOnceMore(done: seq<Completion>, c: Completion)
    requires Once(done) && c.id !in Ids(done)
    ensures Once(done + [c]) && Ids(done + [c]) == Ids(done) + {c.id}
  {
    var all := done + [c];
    assert forall k :: 0 <= k < |done| ==> done[k].id in Ids(done);
    forall i
      ensures i in Ids(all) <==> i in Ids(done) || i == c.id
    {
      if i in Ids(done) {
        var k :| 0 <= k < |done| && done[k].id == i;
        assert all[k].id == i;
      }
      assert all[|done|] == c;
    }
  }

  lemma NoLongerInFlight(m: map<nat, nat>, k: nat)
    requires Injective(m) && k in m
    ensures Injective(m - {k}) && InFlight(m - {k}) == InFlight(m) - {m[k]}
  {
    var m' := m - {k};
    forall i
      ensures i in InFlight(m') <==> i in InFlight(m) && i != m[k]
    {
      if i in InFlight(m) && i != m[k] {
        var j :| j in m && m[j] == i;
        assert m'[j] == i;
      }
      if i in InFlight(m') {
        var j :| j in m' && m'[j] == i;
        assert m[j] == i;
      }
    }
  }

  class Client {
    var seqNo: nat
    /** Requests in flight, by sequence number. */
    var messages: map<nat, nat>
    var failed: bool
    /** The completions delivered so far, in order. */
    var done: seq<Completion>
    /** Requests that were put on the wire, with their numbers. */
    ghost var sent: map<nat, nat>
    /** All requests ever accepted. */
    ghost var issued: set<nat>

    /**
      Every request accepted is either in flight or completed, never both; no
      request is completed twice; an answer carries the number the request had.
    */
    ghost predicate Valid()
      reads this
    {
      Consistent(messages, done, sent, issued) && (failed ==> messages == map[])
    }

    /** Numbers have not wrapped around yet. */
    ghost predicate Young()
      reads this
    {
      seqNo < SeqLimit && UpTo(messages, seqNo)
    }

    constructor ()
      ensures Valid() && Young() && seqNo == 0 && issued == {} && !failed
    {
      seqNo, messages, failed, done, sent, issued := 0, map[], false, [], map[], {};
    }

    /**
      Accepts a request.  Unless its number is in use, everything stays accounted
      for; if it is, the request that had the number is forgotten.  While fewer than
      2^32 requests have been numbered on the connection, it is not in use.
    */
    method HandleRequest(id: nat)
      requires Valid() && id !in issued
      modifies this
      ensures issued == old(issued) + {id} && failed == old(failed)
      ensures failed ==> Valid() && done == old(done) + [Errored(id)] && seqNo == old(seqNo) && messages == old(messages)
      ensures !failed ==> done == old(done) && seqNo == NextSeq(old(seqNo)) && messages == old(messages)[seqNo := id]
      ensures !failed ==> (Valid() <==> seqNo !in old(messages))
      ensures old(Young()) && old(seqNo) + 1 < SeqLimit ==> Valid() && Young()
    {
      if failed {
        CompletedOnceMore(done, Errored(id));
        done := done + [Errored(id)];
        issued := issued + {id};
        return;
      }
      if Young() && seqNo + 1 < SeqLimit {
        StillYoung(messages, seqNo, id);
      }
      seqNo := NextSeq(seqNo);
      RequestConsistentIff(messages, done, sent, issued, seqNo, id);
      messages := messages[seqNo := id];
      sent := sent[id := seqNo];
      issued := issued + {id};
    }

    /** A response: it completes the request that has its number, if there is one. */
    method HandleResponse(number: nat, payload: seq<int>)
      requires Valid()
      modifies this`messages, this`done
      ensures Valid()
      ensures number in old(messages) ==>
                && done == old(done) + [Answered(old(messages)[number], number, payload)]
                && messages == old(messages) - {number}
      ensures number !in old(messages) ==> unchanged(this)
    {
      if number in messages {
        var id := messages[number];
        assert id in InFlight(messages);
        CompletedOnceMore(done, Answered(id, number, payload));
        NoLongerInFlight(messages, number);
        messages := messages - {number};
        done := done + [Answered(id, number, payload)];
      }
    }

    /** A transport error: everything in flight is completed with an error, exactly once, in any order. */
    method HandleTransportError()
      requires Valid()
      modifies this`messages, this`done, this`failed
      ensures Valid() && failed && messages == map[]
      ensures ErrorsAfter(old(done), done)
      ensures Ids(done) == issued
    {
      while messages != map[]
        invariant Consistent(messages, done, sent, issued)
        invariant ErrorsAfter(old(done), done)
        decreases messages.Keys
      {
        var k :| k in messages;
        FailOne(messages, done, sent, issued, k);
        ErrorAdded(old(done), done, messages[k]);
        var id := messages[k];
        messages := messages - {k};
        done := done + [Errored(id)];
      }
      failed := true;
      assert InFlight(messages) == {};
    }
  }

  /** A request with another number than 1 is sent and answered. */
  method AskAndAnswer(c: Client, i: nat)
    requires c.Valid() && !c.failed && i !in c.issued
    requires c.messages == map[1 := 0] && NextSeq(c.seqNo) != 1
    modifies c
    ensures c.Valid() && !c.failed && c.messages == map[1 := 0]
    ensures c.seqNo == NextSeq(old(c.seqNo)) && c.issued == old(c.issued) + {i}
  {
    c.HandleRequest(i);
    c.HandleResponse(c.seqNo, []);
    assert map[1 := 0][c.seqNo := i] - {c.seqNo} == map[1 := 0];
  }

  /**
    A number used twice on one connection: the first request is never answered, all
    others are, and request number 2^32 + 1 gets the number of the first, which is
    then neither in flight nor completed.
  */
  method NumberUsedTwice() returns (c: Client)
    ensures !c.Valid() && 0 in c.issued && 0 !in InFlight(c.messages) && 0 !in Ids(c.done)
  {
    c := new Client();
    c.HandleRequest(0);
    var i := 1;
    while i < SeqLimit
      invariant 1 <= i <= SeqLimit && c.Valid() && !c.failed && fresh(c)
      invariant c.messages == map[1 := 0] && c.seqNo == i % SeqLimit
      invariant 0 in c.issued && forall x :: x in c.issued ==> x < i
    {
      AskAndAnswer(c, i);
      i := i + 1;
    }
    assert c.messages[1] in InFlight(c.messages);
    c.HandleRequest(i);
  }

  /** What happens to a connection: an operation is called, or its loop takes what comes next. */
  datatype Event = Submit | Take | Respond(number: nat, payload: seq<int>) | Fail

  function Submits(events: seq<Event>): nat {
    if events == [] then 0 else Submits(events[..|events| - 1]) + if events[|events| - 1].Submit? then 1 else 0
  }

  lemma SubmitsGrow(events: seq<Event>, i: nat)
    requires i <= |events|
    ensures Submits(events[..i]) <= Submits(events)
  {
    if i == |events| {
      assert events[..i] == events;
    } else {
      assert events[..|events| - 1][..i] == events[..i];
      SubmitsGrow(events[..|events| - 1], i);
    }
  }

  function Below(n: nat): (s: set<nat>)
    ensures forall i :: i in s <==> 0 <= i < n
  {
    if n == 0 then {} else Below(n - 1) + {n - 1}
  }

  /** The first requests, and only those, have been taken and numbered. */
  ghost predicate Took(c: Client, taken: nat)
    reads c
  {
    c.Valid() && c.Young() && c.seqNo == taken && c.issued == Below(taken)
  }

  /** The loop takes the next request. */
  method TakeNext(c: Client, taken: nat)
    requires Took(c, taken) && !c.failed && taken + 1 < SeqLimit
    modifies c
    ensures Took(c, taken + 1) && !c.failed
    ensures c.messages == old(c.messages)[taken + 1 := taken] && c.done == old(c.done)
  {
    c.HandleRequest(taken);
  }

  /** The loop takes the next response. */
  method TakeResponse(c: Client, taken: nat, number: nat, payload: seq<int>)
    requires Took(c, taken) && !c.failed
    modifies c
    ensures Took(c, taken) && !c.failed
    ensures number in old(c.messages) ==>
              && c.messages == old(c.messages) - {number}
              && c.done == old(c.done) + [Answered(old(c.messages)[number], number, payload)]
    ensures number !in old(c.messages) ==> c.messages == old(c.messages) && c.done == old(c.done)
  {
    c.HandleResponse(number, payload);
  }

  // ---- What becomes of one request ----

  /** A request is not there yet, refused because of an error, in the channel, in flight, answered, or ended by the error. */
  datatype Fate = Unsent | Turned | Waiting | Flying | Got(payload: seq<int>) | Lost

  predicate HasFailed(events: seq<Event>) {
    exists i :: 0 <= i < |events| && events[i].Fail?
  }

  /** How many requests the loop has taken from the channel. */
  function TakenBy(events: seq<Event>): nat {
    if events == [] then 0
    else
      var init, last := events[..|events| - 1], events[|events| - 1];
      TakenBy(init) + if last.Take? && !HasFailed(init) && TakenBy(init) < Submits(init) then 1 else 0
  }

  /** What an event makes of a request; the numbers are those before it. */
  function FateAfter(fate: Fate, submitted: nat, taken: nat, failed: bool, e: Event, id: nat): Fate {
    match e
    case Submit => if fate == Unsent && submitted == id then (if failed then Turned else Waiting) else fate
    case Take => if fate == Waiting && !failed && taken == id then Flying else fate
    case Respond(number, payload) => if fate == Flying && number == id + 1 then Got(payload) else fate
    case Fail => if fate == Flying then Lost else fate
  }

  /** The life of one request, from the events alone: its number is its place, counted from 1. */
  function FateOf(events: seq<Event>, id: nat): Fate {
    if events == [] then Unsent
    else
      var init, last := events[..|events| - 1], events[|events| - 1];
      FateAfter(FateOf(init, id), Submits(init), TakenBy(init), HasFailed(init), last, id)
  }

  lemma EventAdded(before: seq<Event>, e: Event, id: nat)
    ensures var all := before + [e];
            && Submits(all) == Submits(before) + (if e.Submit? then 1 else 0)
            && (HasFailed(all) <==> HasFailed(before) || e.Fail?)
            && TakenBy(all) == TakenBy(before) + (if e.Take? && !HasFailed(before) && TakenBy(before) < Submits(before) then 1 else 0)
            && FateOf(all, id) == FateAfter(FateOf(before, id), Submits(before), TakenBy(before), HasFailed(before), e, id)
  {
    var all := before + [e];
    assert all[..|before|] == before && all[|before|] == e;
    if HasFailed(before) {
      var i :| 0 <= i < |before| && before[i].Fail?;
      assert all[i].Fail?;
    }
  }

  /** The client and its channel have done to a request what its fate says. */
  ghost predicate Fulfilled(m: map<nat, nat>, done: seq<Completion>, taken: nat, channel: seq<nat>, submitted: nat, id: nat, fate: Fate) {
    match fate
    case Unsent => id >= submitted
    case Turned => taken + |channel| <= id < submitted
    case Waiting => id in channel
    case Flying => id + 1 in m && m[id + 1] == id
    case Got(payload) => Answered(id, id + 1, payload) in done
    case Lost => Errored(id) in done
  }

  ghost predicate AllFulfilled(m: map<nat, nat>, done: seq<Completion>, taken: nat, channel: seq<nat>, events: seq<Event>) {
    forall id: nat :: Fulfilled(m, done, taken, channel, Submits(events), id, FateOf(events, id))
  }

  /** The numbers of the requests in flight are their places. */
  ghost predicate InPlace(m: map<nat, nat>, taken: nat) {
    forall k :: k in m ==> k == m[k] + 1 <= taken
  }

  /** What is known of the channel and the counts after the given events. */
  ghost predicate Counted(failed: bool, taken: nat, channel: seq<nat>, refused: nat, events: seq<Event>) {
    && failed == HasFailed(events)
    && taken == TakenBy(events) && taken + |channel| + refused == Submits(events)
    && (forall k :: 0 <= k < |channel| ==> channel[k] == taken + k)
    && (!failed ==> refused == 0)
  }

  /** Where a connection is after the given events. */
  ghost predicate Reached(c: Client, taken: nat, channel: seq<nat>, refused: nat, events: seq<Event>)
    reads c
  {
    && Took(c, taken) && Counted(c.failed, taken, channel, refused, events)
    && InPlace(c.messages, taken) && AllFulfilled(c.messages, c.done, taken, channel, events)
  }

  lemma SubmitFulfils(m: map<nat, nat>, done: seq<Completion>, failed: bool, taken: nat, channel: seq<nat>, refused: nat,
                      before: seq<Event>, channel': seq<nat>)
    requires Counted(failed, taken, channel, refused, before) && AllFulfilled(m, done, taken, channel, before)
    requires channel' == if failed then channel else channel + [taken + |channel|]
    ensures Counted(failed, taken, channel', if failed then refused + 1 else refused, before + [Submit])
    ensures AllFulfilled(m, done, taken, channel', before + [Submit])
  {
    EventAdded(before, Submit, 0);
    forall id: nat
      ensures Fulfilled(m, done, taken, channel', Submits(before + [Submit]), id, FateOf(before + [Submit], id))
    {
      EventAdded(before, Submit, id);
      assert Fulfilled(m, done, taken, channel, Submits(before), id, FateOf(before, id));
      assert !failed ==> channel'[|channel|] == taken + |channel|;
    }
  }

  lemma TakeFulfils(m: map<nat, nat>, done: seq<Completion>, taken: nat, channel: seq<nat>, before: seq<Event>)
    requires Counted(false, taken, channel, 0, before) && AllFulfilled(m, done, taken, channel, before)
    requires channel != [] && InPlace(m, taken)
    ensures Counted(false, taken + 1, channel[1..], 0, before + [Take])
    ensures AllFulfilled(m[taken + 1 := taken], done, taken + 1, channel[1..], before + [Take])
    ensures InPlace(m[taken + 1 := taken], taken + 1)
  {
    EventAdded(before, Take, 0);
    var m', rest := m[taken + 1 := taken], channel[1..];
    forall id: nat
      ensures Fulfilled(m', done, taken + 1, rest, Submits(before + [Take]), id, FateOf(before + [Take], id))
    {
      EventAdded(before, Take, id);
      assert Fulfilled(m, done, taken, channel, Submits(before), id, FateOf(before, id));
      if id in channel && id != taken {
        var k :| 0 <= k < |channel| && channel[k] == id;
        assert rest[k - 1] == id;
      }
    }
  }

  /** A request to take that is not there, or an event after the error. */
  lemma NothingFulfils(m: map<nat, nat>, done: seq<Completion>, failed: bool, taken: nat, channel: seq<nat>, refused: nat,
                       before: seq<Event>, e: Event)
    requires Counted(failed, taken, channel, refused, before) && AllFulfilled(m, done, taken, channel, before)
    requires (failed && m == map[] && !e.Submit?) || (e.Take? && channel == [])
    ensures Counted(failed, taken, channel, refused, before + [e])
    ensures AllFulfilled(m, done, taken, channel, before + [e])
  {
    EventAdded(before, e, 0);
    forall id: nat
      ensures Fulfilled(m, done, taken, channel, Submits(before + [e]), id, FateOf(before + [e], id))
    {
      EventAdded(before, e, id);
      assert Fulfilled(m, done, taken, channel, Submits(before), id, FateOf(before, id));
    }
  }

  lemma ResponseFulfils(m: map<nat, nat>, done: seq<Completion>, taken: nat, channel: seq<nat>, before: seq<Event>,
                        number: nat, payload: seq<int>, m': map<nat, nat>, done': seq<Completion>)
    requires Counted(false, taken, channel, 0, before) && AllFulfilled(m, done, taken, channel, before) && InPlace(m, taken)
    requires number in m ==> m' == m - {number} && done' == done + [Answered(m[number], number, payload)]
    requires number !in m ==> m' == m && done' == done
    ensures Counted(false, taken, channel, 0, before + [Respond(number, payload)])
    ensures AllFulfilled(m', done', taken, channel, before + [Respond(number, payload)]) && InPlace(m', taken)
  {
    var e := Respond(number, payload);
    EventAdded(before, e, 0);
    assert forall x :: x in done ==> x in done';
    assert number in m ==> done'[|done|] == Answered(m[number], number, payload);
    forall id: nat
      ensures Fulfilled(m', done', taken, channel, Submits(before + [e]), id, FateOf(before + [e], id))
    {
      EventAdded(before, e, id);
      assert Fulfilled(m, done, taken, channel, Submits(before), id, FateOf(before, id));
    }
  }

  lemma FailFulfils(m: map<nat, nat>, done: seq<Completion>, taken: nat, channel: seq<nat>, before: seq<Event>, done': seq<Completion>)
    requires Counted(false, taken, channel, 0, before) && AllFulfilled(m, done, taken, channel, before)
    requires ErrorsAfter(done, done') && InFlight(m) !! Ids(done) && InFlight(m) <= Ids(done')
    ensures Counted(true, taken, channel, 0, before + [Fail])
    ensures AllFulfilled(map[], done', taken, channel, before + [Fail])
  {
    EventAdded(before, Fail, 0);
    forall x | x in done
      ensures x in done'
    {
      var k :| 0 <= k < |done| && done[k] == x;
      assert done'[..|done|][k] == x;
    }
    forall id: nat
      ensures Fulfilled(map[], done', taken, channel, Submits(before + [Fail]), id, FateOf(before + [Fail], id))
    {
      EventAdded(before, Fail, id);
      assert Fulfilled(m, done, taken, channel, Submits(before), id, FateOf(before, id));
      if FateOf(before, id) == Flying {
        NewIsErrored(m, done, done', id);
      }
    }
  }

  lemma NewIsErrored(m: map<nat, nat>, done: seq<Completion>, done': seq<Completion>, id: nat)
    requires ErrorsAfter(done, done') && InFlight(m) !! Ids(done) && InFlight(m) <= Ids(done')
    requires id + 1 in m && m[id + 1] == id
    ensures Errored(id) in done'
  {
    assert id in InFlight(m);
    assert forall j :: 0 <= j < |done| ==> done'[..|done|][j] == done'[j];
    assert forall j :: 0 <= j < |done| ==> done[j].id in Ids(done);
    var k :| 0 <= k < |done'| && done'[k].id == id;
  }

  /**
    A connection from its start, with operations numbered in the order of their
    calls: the loop takes requests and responses as they come and ends at a
    transport error.  `taken` requests have then been taken from the channel, the
    rest of it waits, and the last `refused` operations found the error already set.
    Every operation ends as the events make it end.
  */
  method Converse(events: seq<Event>) returns (c: Client, taken: nat, channel: seq<nat>, refused: nat)
    requires Submits(events) < SeqLimit
    ensures fresh(c) && c.Valid()
    ensures taken + |channel| + refused == Submits(events)
    ensures InFlight(c.messages) + Ids(c.done) == Below(taken)
    ensures forall k :: 0 <= k < |channel| ==> channel[k] == taken + k
    ensures c.failed == HasFailed(events)
    ensures c.failed ==> Ids(c.done) == Below(taken)
    ensures !c.failed ==> refused == 0
    ensures AllFulfilled(c.messages, c.done, taken, channel, events)
  {
    c := new Client();
    taken, channel, refused := 0, [], 0;
    var i := 0;
    while i < |events|
      invariant 0 <= i <= |events| && fresh(c)
      invariant Reached(c, taken, channel, refused, events[..i])
    {
      assert events[..i + 1][..i] == events[..i];
      SubmitsGrow(events, i);
      taken, channel, refused := Next(c, taken, channel, refused, events[..i], events[i]);
      assert events[..i + 1] == events[..i] + [events[i]];
      i := i + 1;
    }
    assert events[..i] == events;
    assert c.failed ==> InFlight(c.messages) == {};
  }

  /** One event. */
  method Next(c: Client, taken: nat, channel: seq<nat>, refused: nat, ghost before: seq<Event>, e: Event)
    returns (taken': nat, channel': seq<nat>, refused': nat)
    requires Reached(c, taken, channel, refused, before) && Submits(before) < SeqLimit
    modifies c
    ensures Reached(c, taken', channel', refused', before + [e])
  {
    taken', channel', refused' := taken, channel, refused;
    ghost var m, done := c.messages, c.done;
    if e.Submit? {
      if c.failed {
        refused' := refused + 1;
      } else {
        channel' := channel + [taken + |channel|];
      }
      SubmitFulfils(m, done, c.failed, taken, channel, refused, before, channel');
    } else if c.failed || (e.Take? && channel == []) {
      NothingFulfils(m, done, c.failed, taken, channel, refused, before, e);
    } else {
      match e {
        case Take =>
          NextTake(c, taken, channel, before);
          taken', channel' := taken + 1, channel[1..];
        case Respond(number, payload) =>
          NextResponse(c, taken, channel, before, number, payload);
        case Fail =>
          NextFail(c, taken, channel, before);
      }
    }
  }

  method NextTake(c: Client, taken: nat, channel: seq<nat>, ghost before: seq<Event>)
    requires Reached(c, taken, channel, 0, before) && !c.failed && channel != [] && Submits(before) < SeqLimit
    modifies c
    ensures Reached(c, taken + 1, channel[1..], 0, before + [Take])
  {
    TakeFulfils(c.messages, c.done, taken, channel, before);
    TakeNext(c, channel[0]);
  }

  method NextResponse(c: Client, taken: nat, channel: seq<nat>, ghost before: seq<Event>, number: nat, payload: seq<int>)
    requires Reached(c, taken, channel, 0, before) && !c.failed
    modifies c
    ensures Reached(c, taken, channel, 0, before + [Respond(number, payload)])
  {
    ghost var m, done := c.messages, c.done;
    TakeResponse(c, taken, number, payload);
    ResponseFulfils(m, done, taken, channel, before, number, payload, c.messages, c.done);
  }

  method NextFail(c: Client, taken: nat, channel: seq<nat>, ghost before: seq<Event>)
    requires Reached(c, taken, channel, 0, before) && !c.failed
    modifies c
    ensures Reached(c, taken, channel, 0, before + [Fail])
  {
    ghost var m, done := c.messages, c.done;
    c.HandleTransportError();
    FailFulfils(m, done, taken, channel, before, c.done);
  }

  ghost predicate UpTo(m: map<nat, nat>, seqNo: nat) {
    forall k :: k in m ==> k <= seqNo
  }

  lemma StillYoung(m: map<nat, nat>, seqNo: nat, id: nat)
    requires UpTo(m, seqNo) && seqNo + 1 < SeqLimit
    ensures var next := NextSeq(seqNo);
            next < SeqLimit && next !in m && UpTo(m[next := id], next)
  {
  }

  ghost predicate Consistent(m: map<nat, nat>, done: seq<Completion>, sent: map<nat, nat>, issued: set<nat>) {
    && Unanswered(m, done)
    && InFlight(m) + Ids(done) == issued
    && Numbered(m, sent) && AnsweredInKind(done, sent)
    && sent.Keys <= issued
  }

  lemma RequestConsistentIff(m: map<nat, nat>, done: seq<Completion>, sent: map<nat, nat>, issued: set<nat>, number: nat, id: nat)
    requires Consistent(m, done, sent, issued) && id !in issued
    ensures Consistent(m[number := id], done, sent[id := number], issued + {id}) <==> number !in m
  {
    Accounted(m, done, issued, number, id);
    assert forall k :: k in m ==> m[k] in InFlight(m);
    assert forall i :: 0 <= i < |done| ==> done[i].id in Ids(done);
  }

  /** Requests in flight have the numbers under which they are waiting. */
  ghost predicate Numbered(m: map<nat, nat>, sent: map<nat, nat>) {
    forall k :: k in m ==> m[k] in sent && sent[m[k]] == k
  }

  /** An answer carried the number of the request it completed. */
  ghost predicate AnsweredInKind(done: seq<Completion>, sent: map<nat, nat>) {
    forall i :: 0 <= i < |done| && done[i].Answered? ==> done[i].id in sent && sent[done[i].id] == done[i].seqNo
  }

  /** Completions have been added, all of them errors. */
  ghost predicate ErrorsAfter(was: seq<Completion>, done: seq<Completion>) {
    && |was| <= |done| && done[..|was|] == was
    && forall k :: |was| <= k < |done| ==> done[k].Errored?
  }

  lemma ErrorAdded(was: seq<Completion>, done: seq<Completion>, id: nat)
    requires ErrorsAfter(was, done)
    ensures ErrorsAfter(was, done + [Errored(id)])
  {
  }

  lemma FailOne(m: map<nat, nat>, done: seq<Completion>, sent: map<nat, nat>, issued: set<nat>, k: nat)
    requires Consistent(m, done, sent, issued) && k in m
    ensures Consistent(m - {k}, done + [Errored(m[k])], sent, issued)
  {
    assert m[k] in InFlight(m);
    CompletedOnceMore(done, Errored(m[k]));
    NoLongerInFlight(m, k);
  }

  lemma Accounted(m: map<nat, nat>, done: seq<Completion>, issued: set<nat>, number: nat, id: nat)
    requires Unanswered(m, done) && InFlight(m) + Ids(done) == issued && id !in issued
    ensures var m' := m[number := id];
            Unanswered(m', done) && (InFlight(m') + Ids(done) == issued + {id} <==> number !in m)
  {
    NumberedIff(m, number, id);
    var m' := m[number := id];
    forall i | i in InFlight(m')
      ensures i in InFlight(m) || i == id
    {
      var k :| k in m' && m'[k] == i;
      assert k != number ==> m[k] == i;
    }
    if number in m {
      assert m[number] in InFlight(m) && m[number] !in Ids(done);
      assert m[number] !in InFlight(m') by {
        assert forall k :: k in m && k != number ==> m[k] != m[number];
      }
    }
  }

  ghost predicate Unanswered(m: map<nat, nat>, done: seq<Completion>) {
    Injective(m) && Once(done) && InFlight(m) !! Ids(done)
  }

  /**
    Numbering a request keeps all others in flight if and only if its number is
    not in use; after 2^32 requests on one connection it can be.
  */
  lemma NumberedIff(m: map<nat, nat>, number: nat, id: nat)
    requires Injective(m) && id !in InFlight(m)
    ensures InFlight(m[number := id]) == InFlight(m) + {id} <==> number !in m
    ensures Injective(m[number := id])
  {
    var m' := m[number := id];
    assert forall k :: k in m ==> m[k] in InFlight(m);
    if number in m {
      assert m[number] !in InFlight(m');
    } else {
      forall i
        ensures i in InFlight(m') <==> i in InFlight(m) || i == id
      {
        if i in InFlight(m) {
          var k :| k in m && m[k] == i;
          assert m'[k] == i;
        }
        assert m'[number] == id;
      }
    }
  }
}
