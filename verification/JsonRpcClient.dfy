/** The client object over the two pipes, and what its calls return. */
module JsonRpcClient {
  import opened Texts
  import opened JsonValues
  import opened JsonRpc

  class Client {
    const upstream: Handler
    var nextId: nat
    var toUpstream: seq<Json>
    var toClient: seq<Json>
    var alive: bool
    ghost var sent: seq<Json>
    ghost var read: seq<Json>
    ghost var returned: nat
    ghost var discarded: nat

    ghost function View(): World
      reads this
    {
      World(nextId, toUpstream, toClient, alive, sent, read, returned, discarded)
    }

    constructor (upstream: Handler)
      ensures this.upstream == upstream && View() == START
    {
      this.upstream := upstream;
      nextId, toUpstream, toClient, alive := 0, [], [], true;
      sent, read, returned, discarded := [], [], 0, 0;
    }

    method WriteLine(msg: Json)
      modifies this
      ensures View() == Write(old(View()), msg)
    {
      toUpstream := toUpstream + [msg];
      sent := sent + [msg];
    }

    /** One turn of the upstream's loop, run by the other process. */
    method TakeTurn()
      modifies this
      ensures View() == Upstream(upstream, old(View()))
    {
      if !alive || toUpstream == [] { return; }
      var msg := toUpstream[0];
      toUpstream := toUpstream[1..];
      match React(upstream, msg) {
        case Reply(r) => toClient := toClient + [r];
        case Ignore =>
        case Crash => alive := false;
      }
    }

    /** Waits for a line, the upstream having had `turns` turns of its own before. */
    method AwaitNextLine(turns: nat)
      modifies this
      ensures View() == NextLine(upstream, old(View()), turns)
    {
      var n := turns;
      while n > 0
        invariant UpstreamTurns(upstream, View(), n) == UpstreamTurns(upstream, old(View()), turns)
      {
        TakeTurn();
        n := n - 1;
      }
      while toClient == [] && alive && toUpstream != []
        invariant AwaitLine(upstream, View()) == NextLine(upstream, old(View()), turns)
        decreases |toUpstream|
      {
        TakeTurn();
      }
    }

    method TakeFirst(expected: Option<Json>) returns (payload: Json, matched: bool)
      requires toClient != []
      modifies this
      ensures View() == TakeLine(old(View()), expected)
      ensures payload == old(toClient[0]) && matched == Matches(payload, expected)
    {
      payload := toClient[0];
      toClient := toClient[1..];
      read := read + [payload];
      matched := Matches(payload, expected);
      if matched {
        returned := returned + 1;
      } else {
        discarded := discarded + 1;
      }
    }

    method ReadUntil(expected: Option<Json>, schedule: seq<nat>) returns (answer: Answer)
      modifies this
      ensures (View(), answer) == ReadResponse(upstream, old(View()), expected, schedule)
    {
      var k := 0;
      ghost var outcome := ReadResponse(upstream, View(), expected, schedule);
      while k < |schedule|
        invariant k <= |schedule|
        invariant ReadResponse(upstream, View(), expected, schedule[k..]) == outcome
      {
        assert schedule[k..][1..] == schedule[k + 1..];
        AwaitNextLine(schedule[k]);
        if toClient == [] {
          return if alive then Blocked else EndOfFile;
        }
        var payload, matched := TakeFirst(expected);
        if matched {
          return Returned(payload);
        }
        k := k + 1;
      }
      return TimedOut;
    }

    method Notify(meth: Text, params: Option<Json>)
      modifies this
      ensures View() == Act(upstream, old(View()), SendNotification(meth, params))
    {
      WriteLine(NotificationMessage(meth, params));
    }

    method Request(meth: Text, params: Option<Json>, schedule: seq<nat>) returns (answer: Answer)
      modifies this
      ensures (View(), answer) == RequestCall(upstream, old(View()), meth, params, schedule)
    {
      nextId := nextId + 1;
      var requestId := nextId;
      WriteLine(RequestMessage(requestId, meth, params));
      answer := ReadUntil(Some(Int(requestId)), schedule);
    }

    method RawRequest(msg: Json, schedule: seq<nat>) returns (answer: Answer)
      modifies this
      ensures (View(), answer) == ReadResponse(upstream, Write(old(View()), msg), ExpectedOf(msg), schedule)
    {
      WriteLine(msg);
      answer := ReadUntil(ExpectedOf(msg), schedule);
    }
  }

  function RequestCall(h: Handler, w: World, meth: Text, params: Option<Json>, schedule: seq<nat>): (World, Answer) {
    ReadResponse(h, Act(h, w, SendRequest(meth, params)), Some(Int(w.nextId + 1)), schedule)
  }

  // ---- what a call returns ----

  lemma LivesThrough(h: Handler, w: World)
    requires Fifo(h, w)
    ensures w.alive && !Crashes(h, w.toUpstream) <==> !Crashes(h, w.sent)
  {
    CrashesConcat(h, Done(w), w.toUpstream);
  }

  /** Answers carry the ids of calls. */
  lemma AnswersAvoid(h: Handler, ms: seq<Json>, id: Json)
    requires forall c :: c in Calls(h, ms) ==> !PyEqual(IdOf(c), id)
    ensures forall a :: a in Answers(h, ms) ==> !PyEqual(IdOf(a), id)
  {
    AnswersFollowCalls(h, ms);
    forall k | 0 <= k < |Answers(h, ms)| ensures !PyEqual(IdOf(Answers(h, ms)[k]), id) {
      assert Calls(h, ms)[k] in Calls(h, ms);
    }
  }

  /** What is unread answers calls made, so none of it carries the id the next request will use. */
  lemma NextIdIsNotUnread(h: Handler, w: World, top: nat)
    requires Fifo(h, w) && Unused(h, w, top) && w.nextId < top
    ensures forall i :: 0 <= i < |Unread(h, w)| ==> !Matches(Unread(h, w)[i], Some(Int(w.nextId + 1)))
  {
    AnswersAvoid(h, w.sent, Int(w.nextId + 1));
    AnswersAreReadOrUnread(h, w);
    forall i | 0 <= i < |Unread(h, w)| ensures !Matches(Unread(h, w)[i], Some(Int(w.nextId + 1))) {
      assert Unread(h, w)[i] in w.read + Unread(h, w);
    }
  }

  /** A store in which nothing matches, and then perhaps one response that does. */
  lemma {:induction false} LastMatches(store: seq<Json>, tail: seq<Json>, expected: Option<Json>, turns: nat)
    requires forall i :: 0 <= i < |store| ==> !Matches(store[i], expected)
    requires |tail| <= 1 && (tail != [] ==> Matches(tail[0], expected))
    ensures Found(store + tail, expected, turns) <==> tail != [] && |store| < turns
    ensures Found(store + tail, expected, turns) ==> Taken(store + tail, expected, turns) == |store| + 1
  {
    if store == [] {
      assert store + tail == tail;
    } else if turns > 0 {
      assert (store + tail)[1..] == store[1..] + tail;
      LastMatches(store[1..], tail, expected, turns - 1);
    }
  }

  lemma AllTaken<E>(read: seq<E>, store: seq<E>, tail: seq<E>)
    requires |tail| == 1
    ensures read + (store + tail)[..|store| + 1] == read + store + tail
    ensures (store + tail)[|store| + 1..] == [] && (store + tail)[|store|] == tail[0]
  {
  }

  lemma ReadThroughStore(h: Handler, w: World, store: seq<Json>, tail: seq<Json>, expected: Option<Json>, schedule: seq<nat>)
    requires Fifo(h, w) && Unread(h, w) == store + tail
    requires forall i :: 0 <= i < |store| ==> !Matches(store[i], expected)
    requires |tail| <= 1 && (tail != [] ==> Matches(tail[0], expected))
    ensures var (w', answer) := ReadResponse(h, w, expected, schedule);
      && Fifo(h, w') && w'.nextId == w.nextId && w'.sent == w.sent
      && (answer.Returned? <==> tail != [] && |store| < |schedule|)
      && (answer.Returned? ==> answer.payload == tail[0] && w'.read == w.read + store + tail && Unread(h, w') == [])
  {
    LastMatches(store, tail, expected, |schedule|);
    ReadIsDeterministic(h, w, expected, schedule);
    var actions := ReadIsARun(h, w, expected, schedule);
    RunKeepsFifo(h, w, actions);
    if tail != [] {
      AllTaken(w.read, store, tail);
    }
  }

  /** What is in store once a message has been written. */
  lemma CallWritten(h: Handler, w: World, msg: Json)
    requires Fifo(h, w)
    ensures Fifo(h, Write(w, msg))
    ensures Unread(h, Write(w, msg)) == Unread(h, w) + (if Crashes(h, w.sent) then [] else Answers(h, [msg]))
  {
    WriteKeepsFifo(h, w, msg);
    WriteGrowsUnread(h, w, msg);
    LivesThrough(h, w);
  }

  /** The outcome of a call whose id nothing unread carries: it returns exactly when the upstream
      lives through everything sent and the deadline allows one turn more than there are unread
      answers; it then returns the reply to its own message and discards only what was unread. */
  ghost predicate AnswersOwn(h: Handler, w: World, msg: Json, turns: nat, w': World, answer: Answer) {
    && (answer.Returned? <==> !Crashes(h, w.sent + [msg]) && |Unread(h, w)| < turns)
    && (answer.Returned? ==>
          (React(h, msg), w'.read, Unread(h, w'))
            == (Reply(answer.payload), w.read + Unread(h, w) + [answer.payload], []))
  }

  /** A call whose expected id nothing unread carries. */
  lemma CallGetsItsAnswer(h: Handler, w: World, msg: Json, expected: Option<Json>, schedule: seq<nat>)
    requires Fifo(h, w) && !React(h, msg).Ignore?
    requires forall i :: 0 <= i < |Unread(h, w)| ==> !Matches(Unread(h, w)[i], expected)
    requires React(h, msg).Reply? ==> Matches(React(h, msg).response, expected)
    ensures var (w', answer) := ReadResponse(h, Write(w, msg), expected, schedule);
      && Fifo(h, w') && w'.nextId == w.nextId && w'.sent == w.sent + [msg]
      && AnswersOwn(h, w, msg, |schedule|, w', answer)
  {
    var tail := if Crashes(h, w.sent) then [] else Answers(h, [msg]);
    AnswerToOne(h, msg);
    CrashesAppend(h, w.sent, msg);
    CallWritten(h, w, msg);
    ReadThroughStore(h, Write(w, msg), Unread(h, w), tail, expected, schedule);
  }

  lemma FreshIdChangesNothing(h: Handler, w: World, id: nat)
    ensures var w0 := w.(nextId := id);
      Unread(h, w0) == Unread(h, w) && (Fifo(h, w) ==> Fifo(h, w0))
  {
    assert |w.toUpstream| <= |w.sent| ==> Done(w.(nextId := id)) == Done(w);
  }

  /** The outcome of a request in terms of the caller's method and params: it returns exactly when
      nothing sent before ends the upstream, its handler does not raise on these, and the deadline
      outlasts what is unread; it then returns what the handler gives, under the request's id. */
  ghost predicate Answered(h: Handler, w: World, meth: Text, params: Option<Json>, turns: nat, answer: Answer) {
    && (answer.Returned? <==> !Crashes(h, w.sent) && !h(Some(Str(meth)), params).Raises? && |Unread(h, w)| < turns)
    && (answer.Returned? ==> AnswersCall(h, w.nextId + 1, meth, params, answer.payload))
  }

  lemma OwnIsAnswered(h: Handler, w: World, meth: Text, params: Option<Json>, turns: nat, w': World, answer: Answer)
    requires AnswersOwn(h, w, RequestMessage(w.nextId + 1, meth, params), turns, w', answer)
    ensures Answered(h, w, meth, params, turns, answer)
  {
    CrashesAppend(h, w.sent, RequestMessage(w.nextId + 1, meth, params));
    RequestIsAnswered(h, w.nextId + 1, meth, params);
  }

  /** As long as raw messages stay away from the ids of the requests to come, a `request` has
      its own answer or none. */
  lemma RequestGetsItsAnswer(h: Handler, w: World, top: nat, meth: Text, params: Option<Json>, schedule: seq<nat>)
    requires Fifo(h, w) && Unused(h, w, top) && w.nextId < top
    ensures var msg := RequestMessage(w.nextId + 1, meth, params);
      var (w', answer) := RequestCall(h, w, meth, params, schedule);
      AnswersOwn(h, w, msg, |schedule|, w', answer) && Answered(h, w, meth, params, |schedule|, answer)
      && Fifo(h, w') && Unused(h, w', top)
  {
    NextIdIsNotUnread(h, w, top);
    RequestWithFreshId(h, w, meth, params, schedule);
    var (w', answer) := RequestCall(h, w, meth, params, schedule);
    OwnIsAnswered(h, w, meth, params, |schedule|, w', answer);
    SentRequestKeepsUnused(h, w, w', top, meth, params);
  }

  lemma RequestWithFreshId(h: Handler, w: World, meth: Text, params: Option<Json>, schedule: seq<nat>)
    requires Fifo(h, w)
    requires forall i :: 0 <= i < |Unread(h, w)| ==> !Matches(Unread(h, w)[i], Some(Int(w.nextId + 1)))
    ensures var msg := RequestMessage(w.nextId + 1, meth, params);
      var (w', answer) := RequestCall(h, w, meth, params, schedule);
      && AnswersOwn(h, w, msg, |schedule|, w', answer) && Fifo(h, w')
      && w'.nextId == w.nextId + 1 && w'.sent == w.sent + [msg]
  {
    RequestIsACall(h, w.nextId + 1, meth, params);
    NumberedCall(h, w, w.nextId + 1, RequestMessage(w.nextId + 1, meth, params), schedule);
  }

  lemma NumberedCall(h: Handler, w: World, id: nat, msg: Json, schedule: seq<nat>)
    requires Fifo(h, w) && Expects(h, msg, id)
    requires forall i :: 0 <= i < |Unread(h, w)| ==> !Matches(Unread(h, w)[i], Some(Int(id)))
    ensures var (w', answer) := ReadResponse(h, Write(w.(nextId := id), msg), Some(Int(id)), schedule);
      && AnswersOwn(h, w, msg, |schedule|, w', answer) && Fifo(h, w')
      && w'.nextId == id && w'.sent == w.sent + [msg]
  {
    FreshIdChangesNothing(h, w, id);
    CallGetsItsAnswer(h, w.(nextId := id), msg, Some(Int(id)), schedule);
  }

  /** Something that draws a reaction, and whose reply carries the expected id. */
  predicate Expects(h: Handler, msg: Json, id: nat) {
    !React(h, msg).Ignore? && (React(h, msg).Reply? ==> Matches(React(h, msg).response, Some(Int(id))))
  }

  lemma RequestIsACall(h: Handler, id: nat, meth: Text, params: Option<Json>)
    ensures Expects(h, RequestMessage(id, meth, params), id)
  {
    MessageIds(h, id, meth, params);
    ReplyKeepsId(h, RequestMessage(id, meth, params));
  }

  lemma SentRequestKeepsUnused(h: Handler, w: World, w': World, top: nat, meth: Text, params: Option<Json>)
    requires Unused(h, w, top)
    requires w'.nextId == w.nextId + 1 && w'.sent == w.sent + [RequestMessage(w.nextId + 1, meth, params)]
    ensures Unused(h, w', top)
  {
    StepKeepsUnused(h, w, SendRequest(meth, params), top);
  }

  /** The same from the start: after any interleaving of sends, turns and reads, abandoned calls
      and raw messages included. */
  lemma RequestAfterAnyRun(h: Handler, actions: seq<Action>, top: nat, meth: Text, params: Option<Json>,
                           schedule: seq<nat>)
    requires forall a :: a in actions ==> RawAvoids(h, a, top)
    requires Run(h, START, actions).nextId < top
    ensures var w := Run(h, START, actions);
      var msg := RequestMessage(w.nextId + 1, meth, params);
      var (w', answer) := RequestCall(h, w, meth, params, schedule);
      AnswersOwn(h, w, msg, |schedule|, w', answer) && Answered(h, w, meth, params, |schedule|, answer)
  {
    RunIsFifo(h, actions);
    RunKeepsUnused(h, START, actions, top);
    RequestGetsItsAnswer(h, Run(h, START, actions), top, meth, params, schedule);
  }

  // ---- raw messages ----

  /** The call returned the reply to its own message, after everything that was unread. */
  ghost predicate GotOwn(h: Handler, w: World, msg: Json, w': World, answer: Answer) {
    answer.Returned? && React(h, msg) == Reply(answer.payload)
    && w'.read == w.read + Unread(h, w) + [answer.payload]
  }

  /** A raw request, from any state and whatever the deadline, gets its own answer exactly when the
      message draws a reply, nothing sent before ends the upstream, the deadline outlasts what is
      unread, and none of that carries the id expected (nothing is unread, when none is expected). */
  lemma RawRequestGetsItsAnswer(h: Handler, w: World, msg: Json, schedule: seq<nat>)
    requires Fifo(h, w)
    ensures var (w', answer) := ReadResponse(h, Write(w, msg), ExpectedOf(msg), schedule);
      && Fifo(h, w') && w'.nextId == w.nextId && w'.sent == w.sent + [msg]
      && (GotOwn(h, w, msg, w', answer) <==>
            && React(h, msg).Reply? && !Crashes(h, w.sent) && |Unread(h, w)| < |schedule|
            && forall i :: 0 <= i < |Unread(h, w)| ==> !Matches(Unread(h, w)[i], ExpectedOf(msg)))
  {
    var (w', answer) := ReadResponse(h, Write(w, msg), ExpectedOf(msg), schedule);
    CallWritten(h, w, msg);
    ReadIsDeterministic(h, Write(w, msg), ExpectedOf(msg), schedule);
    var actions := ReadIsARun(h, Write(w, msg), ExpectedOf(msg), schedule);
    RunKeepsFifo(h, Write(w, msg), actions);
    if GotOwn(h, w, msg, w', answer) {
      OwnIsLast(h, w, msg, schedule);
    } else if React(h, msg).Reply? {
      ReplyKeepsId(h, msg);
      CrashesAppend(h, w.sent, msg);
      if forall i :: 0 <= i < |Unread(h, w)| ==> !Matches(Unread(h, w)[i], ExpectedOf(msg)) {
        CallGetsItsAnswer(h, w, msg, ExpectedOf(msg), schedule);
      }
    }
  }

  lemma OwnIsLast(h: Handler, w: World, msg: Json, schedule: seq<nat>)
    requires Fifo(h, w)
    requires var (w', answer) := ReadResponse(h, Write(w, msg), ExpectedOf(msg), schedule); GotOwn(h, w, msg, w', answer)
    ensures React(h, msg).Reply? && !Crashes(h, w.sent) && |Unread(h, w)| < |schedule|
    ensures forall i :: 0 <= i < |Unread(h, w)| ==> !Matches(Unread(h, w)[i], ExpectedOf(msg))
  {
    var store, expected := Unread(h, Write(w, msg)), ExpectedOf(msg);
    CallWritten(h, w, msg);
    ReadIsDeterministic(h, Write(w, msg), expected, schedule);
    TakenIsFirstMatch(store, expected, |schedule|);
    var k := Taken(store, expected, |schedule|);
    assert |w.read + store[..k]| == |w.read| + k;
    assert k == |Unread(h, w)| + 1;
    assert forall i :: 0 <= i < |Unread(h, w)| ==> store[i] == Unread(h, w)[i];
  }

  /** A raw message without an id, or with a null one, takes the oldest response there is, its own
      only if nothing was unread; without any it waits in vain. */
  lemma RawWithoutIdTakesOldest(h: Handler, w: World, msg: Json, schedule: seq<nat>)
    requires Fifo(h, w) && IdOf(msg) == Null
    ensures var store := Unread(h, Write(w, msg));
      var (w', answer) := ReadResponse(h, Write(w, msg), ExpectedOf(msg), schedule);
      && Unread(h, w) <= store
      && (schedule == [] ==> answer == TimedOut)
      && (schedule != [] && store == [] ==> answer in {EndOfFile, Blocked})
      && (schedule != [] && store != [] ==> answer == Returned(store[0]) && w'.read == w.read + [store[0]])
  {
    CallWritten(h, w, msg);
    var store := Unread(h, Write(w, msg));
    ReadIsDeterministic(h, Write(w, msg), None, schedule);
    if schedule != [] && store != [] {
      assert Taken(store, None, |schedule|) == 1 && store[..1] == [store[0]];
    }
  }
}
