/** A JSON-RPC client and its stdio upstream: two processes and two FIFO pipes.
    The upstream's method handler is a parameter; its reading loop is not. */
module JsonRpc {
  import Sequences
  import opened Texts
  import opened JsonValues
  import opened JsonDict

  const ID: Text := T("id")
  const JSONRPC: Text := T("jsonrpc")
  const METHOD: Text := T("method")
  const PARAMS: Text := T("params")
  const RESULT: Text := T("result")
  const ERROR: Text := T("error")
  const VERSION: Json := Str(T("2.0"))

  /** What the upstream does with a method and its params; a Python exception ends the process. */
  datatype Outcome = Result(value: Json) | Error(value: Json) | Raises

  type Handler = (Option<Json>, Option<Json>) -> Outcome

  datatype Reaction = Reply(response: Json) | Ignore | Crash

  /** One turn of the upstream's loop: only an object with an "id" member is answered, an "id"
      found in a list or inside a string is then indexed and fails, and so does testing a scalar. */
  function React(h: Handler, msg: Json): Reaction {
    match msg
    case Obj(ms) =>
      (match Lookup(ms, ID)
       case None => Ignore
       case Some(rid) =>
         match h(Lookup(ms, METHOD), Lookup(ms, PARAMS))
         case Result(v) => Reply(Obj([Member(JSONRPC, VERSION), Member(ID, rid), Member(RESULT, v)]))
         case Error(v) => Reply(Obj([Member(JSONRPC, VERSION), Member(ID, rid), Member(ERROR, v)]))
         case Raises => Crash)
    case Arr(items) => if Str(ID) in items then Crash else Ignore
    case Str(s) => if Contains(s, ID) then Crash else Ignore
    case _ => Crash
  }

  /** The members a client method puts on the wire. */
  function RequestMessage(id: int, meth: Text, params: Option<Json>): Json {
    Obj([Member(JSONRPC, VERSION), Member(ID, Int(id)), Member(METHOD, Str(meth))]
        + (if params.Some? then [Member(PARAMS, params.value)] else []))
  }

  function NotificationMessage(meth: Text, params: Option<Json>): Json {
    Obj([Member(JSONRPC, VERSION), Member(METHOD, Str(meth))]
        + (if params.Some? then [Member(PARAMS, params.value)] else []))
  }

  // ---- Python's equality on ids: booleans are integers ----

  function Loose(v: Json): Json {
    match v
    case Bool(b) => Int(if b then 1 else 0)
    case Arr(items) => Arr(seq(|items|, i requires 0 <= i < |items| => Loose(items[i])))
    case Obj(ms) => Obj(seq(|ms|, i requires 0 <= i < |ms| => Member(ms[i].key, Loose(ms[i].value))))
    case _ => v
  }

  predicate PyEqual(a: Json, b: Json) {
    Meaning(Loose(a)) == Meaning(Loose(b))
  }

  /** `payload.get("id")`, which is `None` when there is no such member. */
  function IdOf(v: Json): Json {
    if v.Obj? then
      (match Lookup(v.members, ID)
       case Some(id) => id
       case None => Null)
    else Null
  }

  /** `raw_request` expects nothing in particular when the message has no id, or a null one. */
  function ExpectedOf(v: Json): Option<Json> {
    if IdOf(v) == Null then None else Some(IdOf(v))
  }

  predicate Matches(payload: Json, expected: Option<Json>) {
    expected.None? || PyEqual(IdOf(payload), expected.value)
  }

  // ---- the two pipes ----

  /** `sent` and `read` are histories: every message written, every response read so far;
      of the latter some were returned by a call and some discarded on the way. */
  datatype World = World(
    nextId: nat,
    toUpstream: seq<Json>,
    toClient: seq<Json>,
    alive: bool,
    sent: seq<Json>,
    read: seq<Json>,
    returned: nat,
    discarded: nat)

  const START: World := World(0, [], [], true, [], [], 0, 0)

  function Write(w: World, msg: Json): World {
    w.(toUpstream := w.toUpstream + [msg], sent := w.sent + [msg])
  }

  function Upstream(h: Handler, w: World): World {
    if !w.alive || w.toUpstream == [] then w
    else
      var w' := w.(toUpstream := w.toUpstream[1..]);
      match React(h, w.toUpstream[0])
      case Reply(r) => w'.(toClient := w.toClient + [r])
      case Ignore => w'
      case Crash => w'.(alive := false)
  }

  function UpstreamTurns(h: Handler, w: World, n: nat): World
    decreases n
  {
    if n == 0 then w else UpstreamTurns(h, Upstream(h, w), n - 1)
  }

  /** A blocking `readline`: the upstream runs on until a line is there or none can come. */
  function AwaitLine(h: Handler, w: World): World
    decreases |w.toUpstream|
  {
    if w.toClient != [] || !w.alive || w.toUpstream == [] then w else AwaitLine(h, Upstream(h, w))
  }

  function NextLine(h: Handler, w: World, turns: nat): World {
    AwaitLine(h, UpstreamTurns(h, w, turns))
  }

  /** One line read: returned to the caller when it matches, discarded otherwise. */
  function TakeLine(w: World, expected: Option<Json>): World
    requires w.toClient != []
  {
    var w' := w.(toClient := w.toClient[1..], read := w.read + [w.toClient[0]]);
    if Matches(w.toClient[0], expected) then w'.(returned := w.returned + 1)
    else w'.(discarded := w.discarded + 1)
  }

  datatype Answer = Returned(payload: Json) | TimedOut | EndOfFile | Blocked

  /** `_read_response`: the deadline allows `|schedule|` turns of the loop, and the upstream
      takes at least `schedule[k]` turns of its own before line `k` is read. */
  function ReadResponse(h: Handler, w: World, expected: Option<Json>, schedule: seq<nat>): (World, Answer)
    decreases |schedule|
  {
    if schedule == [] then (w, TimedOut)
    else
      var w1 := NextLine(h, w, schedule[0]);
      if w1.toClient == [] then (w1, if w1.alive then Blocked else EndOfFile)
      else if Matches(w1.toClient[0], expected) then (TakeLine(w1, expected), Returned(w1.toClient[0]))
      else ReadResponse(h, TakeLine(w1, expected), expected, schedule[1..])
  }

  // ---- what the pipes hold in store ----

  /** The answers a list of messages draws: none after the one that kills the upstream. */
  function Answers(h: Handler, ms: seq<Json>): seq<Json> {
    if ms == [] then []
    else match React(h, ms[0])
      case Reply(r) => [r] + Answers(h, ms[1..])
      case Ignore => Answers(h, ms[1..])
      case Crash => []
  }

  predicate Crashes(h: Handler, ms: seq<Json>) {
    exists i :: 0 <= i < |ms| && React(h, ms[i]).Crash?
  }

  /** Every response the client can still read, in order. */
  function Unread(h: Handler, w: World): seq<Json> {
    if w.alive then w.toClient + Answers(h, w.toUpstream) else w.toClient
  }

  /** The messages the upstream has taken. */
  function Done(w: World): seq<Json>
    requires |w.toUpstream| <= |w.sent|
  {
    w.sent[..|w.sent| - |w.toUpstream|]
  }

  /** The last message taken is the one that ended the upstream. */
  ghost predicate DiedAtLast(h: Handler, done: seq<Json>) {
    done != [] && React(h, done[|done| - 1]).Crash? && !Crashes(h, done[..|done| - 1])
  }

  /** The invariant of every interleaving: what the upstream has taken is what was sent before
      its unread input, and it has answered all of that and nothing else. */
  ghost predicate Fifo(h: Handler, w: World) {
    && |w.toUpstream| <= |w.sent| && w.sent == Done(w) + w.toUpstream
    && Answers(h, Done(w)) == w.read + w.toClient
    && (w.alive <==> !Crashes(h, Done(w)))
    && (!w.alive ==> DiedAtLast(h, Done(w)))
    && |w.read| == w.returned + w.discarded
  }

  lemma {:induction false} AnswersAppend(h: Handler, a: seq<Json>, b: seq<Json>)
    ensures Answers(h, a + b) == if Crashes(h, a) then Answers(h, a) else Answers(h, a) + Answers(h, b)
  {
    if a == [] {
      assert a + b == b;
    } else {
      assert (a + b)[1..] == a[1..] + b;
      AnswersAppend(h, a[1..], b);
      assert Crashes(h, a) <==> React(h, a[0]).Crash? || Crashes(h, a[1..]) by { CrashesSplit(h, a); }
    }
  }

  lemma CrashesSplit(h: Handler, a: seq<Json>)
    requires a != []
    ensures Crashes(h, a) <==> React(h, a[0]).Crash? || Crashes(h, a[1..])
  {
    if Crashes(h, a[1..]) {
      var i :| 0 <= i < |a[1..]| && React(h, a[1..][i]).Crash?;
      assert React(h, a[i + 1]).Crash?;
    }
    if Crashes(h, a) {
      var i :| 0 <= i < |a| && React(h, a[i]).Crash?;
      assert i > 0 ==> React(h, a[1..][i - 1]).Crash?;
    }
  }

  lemma CrashesConcat(h: Handler, a: seq<Json>, b: seq<Json>)
    ensures Crashes(h, a + b) <==> Crashes(h, a) || Crashes(h, b)
  {
    if Crashes(h, a) {
      var i :| 0 <= i < |a| && React(h, a[i]).Crash?;
      assert React(h, (a + b)[i]).Crash?;
    }
    if Crashes(h, b) {
      var i :| 0 <= i < |b| && React(h, b[i]).Crash?;
      assert React(h, (a + b)[|a| + i]).Crash?;
    }
    if Crashes(h, a + b) {
      var i :| 0 <= i < |a + b| && React(h, (a + b)[i]).Crash?;
      assert (a + b)[i] == if i < |a| then a[i] else b[i - |a|];
    }
  }

  lemma CrashesAppend(h: Handler, a: seq<Json>, m: Json)
    ensures Crashes(h, a + [m]) <==> Crashes(h, a) || React(h, m).Crash?
  {
    CrashesConcat(h, a, [m]);
    assert [m][0] == m;
  }

  lemma WriteKeepsFifo(h: Handler, w: World, msg: Json)
    requires Fifo(h, w)
    ensures Fifo(h, Write(w, msg))
  {
    assert Done(Write(w, msg)) == Done(w);
    Sequences.Associate(Done(w), w.toUpstream, [msg]);
  }

  lemma WriteGrowsUnread(h: Handler, w: World, msg: Json)
    ensures Unread(h, Write(w, msg)) ==
      if w.alive && !Crashes(h, w.toUpstream) then Unread(h, w) + Answers(h, [msg]) else Unread(h, w)
  {
    AnswersAppend(h, w.toUpstream, [msg]);
    Sequences.Associate(w.toClient, Answers(h, w.toUpstream), Answers(h, [msg]));
  }

  /** So the answers to everything sent are those read followed by those still to be read. */
  lemma AnswersAreReadOrUnread(h: Handler, w: World)
    requires Fifo(h, w)
    ensures Answers(h, w.sent) == w.read + Unread(h, w)
  {
    AnswersAppend(h, Done(w), w.toUpstream);
  }

  /** What the client has of the world: what it can still read, and what it has sent and read. */
  function ClientSide(h: Handler, w: World): (seq<Json>, nat, seq<Json>, seq<Json>) {
    (Unread(h, w), w.nextId, w.sent, w.read)
  }

  /** A turn of the upstream moves answers between the pipes and changes none of them. */
  lemma UpstreamKeepsUnread(h: Handler, w: World)
    ensures ClientSide(h, Upstream(h, w)) == ClientSide(h, w)
  {
    if w.alive && w.toUpstream != [] && React(h, w.toUpstream[0]).Reply? {
      Sequences.Associate(w.toClient, [React(h, w.toUpstream[0]).response], Answers(h, w.toUpstream[1..]));
    }
    assert Unread(h, Upstream(h, w)) == Unread(h, w);
  }

  lemma MoveHead<E>(s: seq<E>, a: seq<E>, b: seq<E>)
    requires s == a + b && b != []
    ensures s[..|s| - |b[1..]|] == a + [b[0]] && s == (a + [b[0]]) + b[1..]
  {
  }

  lemma AnswerToOne(h: Handler, msg: Json)
    ensures Answers(h, [msg]) == if React(h, msg).Reply? then [React(h, msg).response] else []
  {
    assert Answers(h, [msg][1..]) == [];
  }

  lemma TurnKeepsFifo(h: Handler, w: World)
    requires Fifo(h, w) && w.alive && w.toUpstream != []
    ensures Fifo(h, Upstream(h, w))
  {
    var w', msg := Upstream(h, w), w.toUpstream[0];
    MoveHead(w.sent, Done(w), w.toUpstream);
    AnswersAppend(h, Done(w), [msg]);
    AnswerToOne(h, msg);
    CrashesAppend(h, Done(w), msg);
    assert Done(w') == Done(w) + [msg];
    assert Done(w')[..|Done(w')| - 1] == Done(w);
    if React(h, msg).Reply? {
      assert (w.read + w.toClient) + [React(h, msg).response] == w.read + (w.toClient + [React(h, msg).response]);
    } else {
      assert (w.read + w.toClient) + [] == w.read + w.toClient;
    }
  }

  lemma {:induction false} TurnsKeepUnread(h: Handler, w: World, n: nat)
    ensures ClientSide(h, UpstreamTurns(h, w, n)) == ClientSide(h, w)
    decreases n
  {
    if n > 0 {
      UpstreamKeepsUnread(h, w);
      TurnsKeepUnread(h, Upstream(h, w), n - 1);
    }
  }

  lemma {:induction false} AwaitKeepsUnread(h: Handler, w: World)
    ensures ClientSide(h, AwaitLine(h, w)) == ClientSide(h, w)
    ensures AwaitLine(h, w).toClient == [] <==> Unread(h, w) == []
    decreases |w.toUpstream|
  {
    if !(w.toClient != [] || !w.alive || w.toUpstream == []) {
      UpstreamKeepsUnread(h, w);
      AwaitKeepsUnread(h, Upstream(h, w));
    }
  }

  lemma TakeShrinksUnread(h: Handler, w: World, expected: Option<Json>)
    requires w.toClient != []
    ensures Unread(h, w) == [w.toClient[0]] + Unread(h, TakeLine(w, expected))
  {
    assert w.toClient == [w.toClient[0]] + w.toClient[1..];
    Sequences.Associate([w.toClient[0]], w.toClient[1..], Answers(h, w.toUpstream));
  }

  lemma TakeKeepsFifo(h: Handler, w: World, expected: Option<Json>)
    requires w.toClient != [] && Fifo(h, w)
    ensures Fifo(h, TakeLine(w, expected))
  {
    var w' := TakeLine(w, expected);
    assert w.toClient == [w.toClient[0]] + w.toClient[1..];
    Sequences.Associate(w.read, [w.toClient[0]], w.toClient[1..]);
    assert Done(w') == Done(w);
  }

  // ---- reading does not depend on the interleaving ----

  /** How many of the responses in store `turns` turns of the loop take. */
  function Taken(store: seq<Json>, expected: Option<Json>, turns: nat): (k: nat)
    ensures k <= turns && k <= |store|
  {
    if turns == 0 || store == [] then 0
    else if Matches(store[0], expected) then 1
    else 1 + Taken(store[1..], expected, turns - 1)
  }

  /** Whether the last one taken is the one expected. */
  predicate Found(store: seq<Json>, expected: Option<Json>, turns: nat) {
    turns > 0 && store != [] && (Matches(store[0], expected) || Found(store[1..], expected, turns - 1))
  }

  /** The loop stops at the first match; without one it takes all the deadline allows. */
  lemma {:induction false} TakenIsFirstMatch(store: seq<Json>, expected: Option<Json>, turns: nat)
    ensures var k := Taken(store, expected, turns);
      && (Found(store, expected, turns) ==> k > 0 && Matches(store[k - 1], expected))
      && (forall i :: 0 <= i < (if Found(store, expected, turns) then k - 1 else k) ==> !Matches(store[i], expected))
      && (!Found(store, expected, turns) ==> k == if turns <= |store| then turns else |store|)
  {
    if !(turns == 0 || store == []) && !Matches(store[0], expected) {
      TakenIsFirstMatch(store[1..], expected, turns - 1);
      var k := Taken(store, expected, turns);
      forall i | 0 <= i < (if Found(store, expected, turns) then k - 1 else k) ensures !Matches(store[i], expected) {
        assert i > 0 ==> store[i] == store[1..][i - 1];
      }
    }
  }

  lemma Shift<E>(read: seq<E>, store: seq<E>, k: nat)
    requires k < |store|
    ensures read + [store[0]] + store[1..][..k] == read + store[..k + 1]
    ensures store[1..][k..] == store[k + 1..]
  {
  }

  lemma NextLineKeepsUnread(h: Handler, w: World, turns: nat)
    ensures var w' := NextLine(h, w, turns);
      && ClientSide(h, w') == ClientSide(h, w)
      && (w'.toClient == [] <==> Unread(h, w) == [])
      && (w'.toClient != [] ==> w'.toClient[0] == Unread(h, w)[0])
  {
    TurnsKeepUnread(h, w, turns);
    AwaitKeepsUnread(h, UpstreamTurns(h, w, turns));
  }

  /** The outcome that the responses in store alone determine. */
  ghost predicate ReadsFromStore(h: Handler, w: World, expected: Option<Json>, turns: nat, w': World, answer: Answer) {
    var store := Unread(h, w);
    var k := Taken(store, expected, turns);
    && ClientSide(h, w') == (store[k..], w.nextId, w.sent, w.read + store[..k])
    && (if Found(store, expected, turns) then k > 0 && answer == Returned(store[k - 1])
        else if turns <= |store| then answer == TimedOut
        else answer in {EndOfFile, Blocked})
  }

  lemma LineTaken(h: Handler, w: World, w1: World, turns: nat, expected: Option<Json>)
    requires Unread(h, w) != [] && w1 == NextLine(h, w, turns)
    ensures w1.toClient != []
    ensures ClientSide(h, TakeLine(w1, expected))
         == (Unread(h, w)[1..], w.nextId, w.sent, w.read + [Unread(h, w)[0]])
  {
    NextLineKeepsUnread(h, w, turns);
    TakeShrinksUnread(h, w1, expected);
  }

  lemma MissedLine(h: Handler, w: World, w2: World, expected: Option<Json>, turns: nat, w': World, answer: Answer)
    requires Unread(h, w) != [] && turns > 0 && !Matches(Unread(h, w)[0], expected)
    requires ClientSide(h, w2) == (Unread(h, w)[1..], w.nextId, w.sent, w.read + [Unread(h, w)[0]])
    requires ReadsFromStore(h, w2, expected, turns - 1, w', answer)
    ensures ReadsFromStore(h, w, expected, turns, w', answer)
  {
    var store := Unread(h, w);
    if store[1..] == [] {
      assert store == [store[0]];
    }
    Shift(w.read, store, Taken(store[1..], expected, turns - 1));
  }

  lemma NothingToRead(h: Handler, w: World, expected: Option<Json>, schedule: seq<nat>)
    requires Unread(h, w) == [] || schedule == []
    ensures var (w', answer) := ReadResponse(h, w, expected, schedule);
      ReadsFromStore(h, w, expected, |schedule|, w', answer)
  {
    if schedule != [] {
      NextLineKeepsUnread(h, w, schedule[0]);
    }
    assert w.read + Unread(h, w)[..0] == w.read && Unread(h, w)[0..] == Unread(h, w);
  }

  lemma FirstLineMatches(h: Handler, w: World, expected: Option<Json>, schedule: seq<nat>)
    requires Unread(h, w) != [] && schedule != [] && Matches(Unread(h, w)[0], expected)
    ensures var (w', answer) := ReadResponse(h, w, expected, schedule);
      ReadsFromStore(h, w, expected, |schedule|, w', answer)
  {
    var store := Unread(h, w);
    NextLineKeepsUnread(h, w, schedule[0]);
    LineTaken(h, w, NextLine(h, w, schedule[0]), schedule[0], expected);
    assert store[..1] == [store[0]];
  }

  lemma FirstLineMisses(h: Handler, w: World, expected: Option<Json>, schedule: seq<nat>)
    requires Unread(h, w) != [] && schedule != [] && !Matches(Unread(h, w)[0], expected)
    ensures NextLine(h, w, schedule[0]).toClient != []
    ensures ReadResponse(h, w, expected, schedule)
         == ReadResponse(h, TakeLine(NextLine(h, w, schedule[0]), expected), expected, schedule[1..])
  {
    NextLineKeepsUnread(h, w, schedule[0]);
  }

  /** The history the client keeps; the upstream's turns leave it alone. */
  function Ledger(w: World): (seq<Json>, nat, nat) { (w.read, w.returned, w.discarded) }

  lemma {:induction false} TurnsKeepLedger(h: Handler, w: World, n: nat)
    ensures Ledger(UpstreamTurns(h, w, n)) == Ledger(w)
    decreases n
  {
    if n > 0 {
      TurnsKeepLedger(h, Upstream(h, w), n - 1);
    }
  }

  lemma {:induction false} AwaitKeepsLedger(h: Handler, w: World)
    ensures Ledger(AwaitLine(h, w)) == Ledger(w)
    ensures var w' := AwaitLine(h, w); w'.toClient != [] || !w'.alive || w'.toUpstream == []
    decreases |w.toUpstream|
  {
    if !(w.toClient != [] || !w.alive || w.toUpstream == []) {
      AwaitKeepsLedger(h, Upstream(h, w));
    }
  }

  /** Of the responses a read takes it returns one, when it returns, and discards the others; at the end
      of file the upstream is dead, and a read that blocks has left it nothing to do. */
  lemma {:induction false} ReadIsCounted(h: Handler, w: World, expected: Option<Json>, schedule: seq<nat>)
    ensures var (w', answer) := ReadResponse(h, w, expected, schedule);
      var one := if answer.Returned? then 1 else 0;
      && w'.returned == w.returned + one && |w'.read| == |w.read| + one + (w'.discarded - w.discarded)
      && (answer.EndOfFile? ==> !w'.alive) && (answer.Blocked? ==> w'.alive && w'.toUpstream == [])
    decreases |schedule|
  {
    if schedule != [] {
      var w1 := NextLine(h, w, schedule[0]);
      TurnsKeepLedger(h, w, schedule[0]);
      AwaitKeepsLedger(h, UpstreamTurns(h, w, schedule[0]));
      if w1.toClient != [] && !Matches(w1.toClient[0], expected) {
        ReadIsCounted(h, TakeLine(w1, expected), expected, schedule[1..]);
      }
    }
  }

  /** However the two processes interleave, `_read_response` takes the responses in store in
      order, drops those that do not match and returns the first that does. */
  lemma {:induction false} ReadIsDeterministic(h: Handler, w: World, expected: Option<Json>, schedule: seq<nat>)
    ensures var (w', answer) := ReadResponse(h, w, expected, schedule);
      ReadsFromStore(h, w, expected, |schedule|, w', answer)
    decreases |schedule|
  {
    if Unread(h, w) == [] || schedule == [] {
      NothingToRead(h, w, expected, schedule);
    } else if Matches(Unread(h, w)[0], expected) {
      FirstLineMatches(h, w, expected, schedule);
    } else {
      var w1 := NextLine(h, w, schedule[0]);
      LineTaken(h, w, w1, schedule[0], expected);
      FirstLineMisses(h, w, expected, schedule);
      var w2 := TakeLine(w1, expected);
      ReadIsDeterministic(h, w2, expected, schedule[1..]);
      var (w', answer) := ReadResponse(h, w2, expected, schedule[1..]);
      MissedLine(h, w, w2, expected, |schedule|, w', answer);
    }
  }

  // ---- which answer belongs to which message ----

  /** The messages that call for an answer, in the order sent. */
  function Calls(h: Handler, ms: seq<Json>): seq<Json> {
    if ms == [] then []
    else if React(h, ms[0]).Ignore? then Calls(h, ms[1..])
    else [ms[0]] + Calls(h, ms[1..])
  }

  /** The k-th answer is the reply to the k-th call and carries its id. */
  lemma {:induction false} AnswersFollowCalls(h: Handler, ms: seq<Json>)
    ensures |Answers(h, ms)| <= |Calls(h, ms)|
    ensures !Crashes(h, ms) ==> |Answers(h, ms)| == |Calls(h, ms)|
    ensures forall k :: 0 <= k < |Answers(h, ms)| ==>
      React(h, Calls(h, ms)[k]) == Reply(Answers(h, ms)[k]) && IdOf(Answers(h, ms)[k]) == IdOf(Calls(h, ms)[k])
  {
    if ms != [] {
      AnswersFollowCalls(h, ms[1..]);
      CrashesSplit(h, ms);
      ReplyKeepsId(h, ms[0]);
    }
  }

  lemma ReplyKeepsId(h: Handler, msg: Json)
    ensures React(h, msg).Reply? ==> IdOf(React(h, msg).response) == IdOf(msg)
  {
    if React(h, msg).Reply? {
      var ms := React(h, msg).response.members;
      assert ms[0].key == JSONRPC != ID && ms[1..][0].key == ID;
      assert Lookup(ms, ID) == Lookup(ms[1..], ID);
    }
  }

  lemma {:induction false} CallsAppend(h: Handler, a: seq<Json>, b: seq<Json>)
    ensures Calls(h, a + b) == Calls(h, a) + Calls(h, b)
  {
    if a == [] {
      assert a + b == b;
    } else {
      assert (a + b)[1..] == a[1..] + b;
      CallsAppend(h, a[1..], b);
    }
  }

  // ---- every run of the two processes ----

  datatype Action =
    | SendRequest(meth: Text, params: Option<Json>)
    | SendNotification(meth: Text, params: Option<Json>)
    | SendRaw(msg: Json)
    | UpstreamTurn
    | ReadLine(expected: Option<Json>)

  function Act(h: Handler, w: World, a: Action): World {
    match a
    case SendRequest(m, p) => Write(w.(nextId := w.nextId + 1), RequestMessage(w.nextId + 1, m, p))
    case SendNotification(m, p) => Write(w, NotificationMessage(m, p))
    case SendRaw(msg) => Write(w, msg)
    case UpstreamTurn => Upstream(h, w)
    case ReadLine(expected) => if w.toClient == [] then w else TakeLine(w, expected)
  }

  function Run(h: Handler, w: World, actions: seq<Action>): World
    decreases |actions|
  {
    if actions == [] then w else Run(h, Act(h, w, actions[0]), actions[1..])
  }

  lemma StepKeepsFifo(h: Handler, w: World, a: Action)
    requires Fifo(h, w)
    ensures Fifo(h, Act(h, w, a))
  {
    match a
    case SendRequest(m, p) => WriteKeepsFifo(h, w.(nextId := w.nextId + 1), RequestMessage(w.nextId + 1, m, p));
    case SendNotification(m, p) => WriteKeepsFifo(h, w, NotificationMessage(m, p));
    case SendRaw(msg) => WriteKeepsFifo(h, w, msg);
    case UpstreamTurn => if w.alive && w.toUpstream != [] { TurnKeepsFifo(h, w); }
    case ReadLine(expected) => if w.toClient != [] { TakeKeepsFifo(h, w, expected); }
  }

  /** In every interleaving the answers to everything sent are those read, then those to come. */
  lemma {:induction false} RunKeepsFifo(h: Handler, w: World, actions: seq<Action>)
    requires Fifo(h, w)
    ensures Fifo(h, Run(h, w, actions))
    decreases |actions|
  {
    if actions != [] {
      StepKeepsFifo(h, w, actions[0]);
      RunKeepsFifo(h, Act(h, w, actions[0]), actions[1..]);
    }
  }

  lemma StartIsFifo(h: Handler)
    ensures Fifo(h, START)
  {
    assert Done(START) == [];
  }

  /** A dead upstream left exactly one call it took without an answer: the one that ended it. */
  lemma DeathTakesOneCall(h: Handler, done: seq<Json>)
    requires DiedAtLast(h, done)
    ensures |Calls(h, done)| == |Answers(h, done)| + 1
  {
    var front, last := done[..|done| - 1], done[|done| - 1];
    assert done == front + [last];
    CallsAppend(h, front, [last]);
    AnswersAppend(h, front, [last]);
    AnswersFollowCalls(h, front);
    AnswerToOne(h, last);
    assert Calls(h, [last]) == [last] + Calls(h, [last][1..]);
  }

  function FatalCalls(w: World): nat { if w.alive then 0 else 1 }

  lemma FifoConserves(h: Handler, w: World)
    requires Fifo(h, w)
    ensures |Calls(h, w.sent)|
         == w.returned + w.discarded + |w.toClient| + |Calls(h, w.toUpstream)| + FatalCalls(w)
  {
    CallsAppend(h, Done(w), w.toUpstream);
    AnswersFollowCalls(h, Done(w));
    if !w.alive {
      DeathTakesOneCall(h, Done(w));
    }
  }

  /** Conservation, in every reachable state: each call sent was answered and returned, answered and
      discarded, answered and not read, not yet taken, or is the one the upstream died of. */
  lemma CallsAreConserved(h: Handler, actions: seq<Action>)
    ensures var w := Run(h, START, actions);
      |Calls(h, w.sent)| == w.returned + w.discarded + |w.toClient| + |Calls(h, w.toUpstream)| + FatalCalls(w)
  {
    RunIsFifo(h, actions);
    FifoConserves(h, Run(h, START, actions));
  }

  lemma RunIsFifo(h: Handler, actions: seq<Action>)
    ensures Fifo(h, Run(h, START, actions))
  {
    StartIsFifo(h);
    RunKeepsFifo(h, START, actions);
  }

  // ---- a client that only uses `request` and `notify` ----

  predicate NoRaw(actions: seq<Action>) {
    forall a :: a in actions ==> !a.SendRaw?
  }

  /** The calls sent are numbered from 1 to `nextId`, in order. */
  ghost predicate Numbered(h: Handler, w: World) {
    |Calls(h, w.sent)| == w.nextId &&
    forall k :: 0 <= k < w.nextId ==> IdOf(Calls(h, w.sent)[k]) == Int(k + 1)
  }

  lemma MessageKeysDiffer()
    ensures |JSONRPC| == 7 && |ID| == 2 && |METHOD| == 6 && |PARAMS| == 6 && METHOD != PARAMS
    ensures |RESULT| == 6 && |ERROR| == 5
  {
    LiteralsDiffer("params", "method");
  }

  /** The members a message was built from are those it is read by. */
  lemma MessageHolds(id: int, meth: Text, params: Option<Json>)
    ensures var r := RequestMessage(id, meth, params).members;
      && DistinctKeys(r) && Lookup(r, JSONRPC) == Some(VERSION) && Lookup(r, ID) == Some(Int(id))
      && Lookup(r, METHOD) == Some(Str(meth)) && Lookup(r, PARAMS) == params
    ensures var n := NotificationMessage(meth, params).members;
      && DistinctKeys(n) && Lookup(n, JSONRPC) == Some(VERSION) && Lookup(n, ID).None?
      && Lookup(n, METHOD) == Some(Str(meth)) && Lookup(n, PARAMS) == params
  {
    MessageKeysDiffer();
    var r, n := RequestMessage(id, meth, params).members, NotificationMessage(meth, params).members;
    LookupDistinct(r, 0);
    LookupDistinct(r, 1);
    LookupDistinct(r, 2);
    LookupDistinct(n, 0);
    LookupDistinct(n, 1);
    Absent(n, ID);
    if params.Some? {
      LookupDistinct(r, 3);
      LookupDistinct(n, 2);
    } else {
      Absent(r, PARAMS);
      Absent(n, PARAMS);
    }
  }

  lemma MessageIds(h: Handler, id: int, meth: Text, params: Option<Json>)
    ensures IdOf(RequestMessage(id, meth, params)) == Int(id)
    ensures !React(h, RequestMessage(id, meth, params)).Ignore?
    ensures React(h, NotificationMessage(meth, params)).Ignore?
  {
    MessageHolds(id, meth, params);
  }

  /** The payload answers the call with this id, method and params: a result or an error, as the
      upstream's handler has it, and nothing else but the id and the version. */
  ghost predicate AnswersCall(h: Handler, id: int, meth: Text, params: Option<Json>, payload: Json) {
    payload.Obj? && match h(Some(Str(meth)), params)
      case Result(v) => AsMap(payload.members) == map[JSONRPC := Meaning(VERSION), ID := VInt(id), RESULT := Meaning(v)]
      case Error(v) => AsMap(payload.members) == map[JSONRPC := Meaning(VERSION), ID := VInt(id), ERROR := Meaning(v)]
      case Raises => false
  }

  lemma ThreeMembers(a: Member, b: Member, c: Member)
    requires |a.key| != |b.key| && |b.key| != |c.key| && |a.key| != |c.key|
    ensures AsMap([a, b, c]) == map[a.key := Meaning(a.value), b.key := Meaning(b.value), c.key := Meaning(c.value)]
  {
    assert [a, b, c][1..] == [b, c] && [b, c][1..] == [c] && [c][1..] == [];
    assert AsMap([c]) == map[c.key := Meaning(c.value)];
  }

  /** What comes back for a request: the upstream dies of it exactly when its handler raises on the
      caller's method and params, and otherwise replies with what the handler gives. */
  lemma RequestIsAnswered(h: Handler, id: int, meth: Text, params: Option<Json>)
    ensures var reaction, outcome := React(h, RequestMessage(id, meth, params)), h(Some(Str(meth)), params);
      && (reaction.Crash? <==> outcome.Raises?)
      && (reaction.Reply? <==> !outcome.Raises?)
      && (reaction.Reply? ==> AnswersCall(h, id, meth, params, reaction.response))
  {
    MessageHolds(id, meth, params);
    MessageKeysDiffer();
    match h(Some(Str(meth)), params)
    case Result(v) => ThreeMembers(Member(JSONRPC, VERSION), Member(ID, Int(id)), Member(RESULT, v));
    case Error(v) => ThreeMembers(Member(JSONRPC, VERSION), Member(ID, Int(id)), Member(ERROR, v));
    case Raises =>
  }

  /** Python's `"id" in msg` is a question one can ask. */
  predicate Container(msg: Json) { msg.Obj? || msg.Arr? || msg.Str? }

  /** And its answer: a member of an object, an element of a list, a part of a string. */
  ghost predicate HoldsId(msg: Json) {
    match msg
    case Obj(ms) => ID in AsMap(ms)
    case Arr(items) => exists i :: 0 <= i < |items| && Meaning(items[i]) == VStr(ID)
    case Str(s) => exists a, b :: s == a + ID + b
    case _ => false
  }

  /** The upstream passes over what holds no "id", replies to an object that does unless its handler
      raises, and is ended by everything else. */
  lemma ReactionMeans(h: Handler, msg: Json)
    requires WellFormed(msg)
    ensures React(h, msg).Ignore? <==> Container(msg) && !HoldsId(msg)
    ensures React(h, msg).Reply? <==>
      msg.Obj? && HoldsId(msg) && !h(Lookup(msg.members, METHOD), Lookup(msg.members, PARAMS)).Raises?
  {
    match msg
    case Obj(ms) => LookupMeans(ms, ID);
    case Str(s) => ContainsMeans(s, ID);
    case Arr(items) =>
      if Str(ID) in items {
        var i :| 0 <= i < |items| && items[i] == Str(ID);
        assert Meaning(items[i]) == VStr(ID);
      }
    case _ =>
  }

  /** Ids are compared as Python compares them: `True` is 1 and `False` is 0, texts and numbers are
      otherwise equal only to themselves, and `None` only to `None`. */
  lemma PyEqualMeans(a: Json, b: Json)
    requires a.Int? || a.Bool? || a.Str? || a.Null?
    ensures PyEqual(a, b) <==> a == b || (AsNumber(a).Some? && AsNumber(a) == AsNumber(b))
    ensures PyEqual(a, b) == PyEqual(b, a)
  {
  }

  /** The number Python takes a value for. */
  function AsNumber(v: Json): Option<int> {
    match v
    case Int(n) => Some(n)
    case Bool(true) => Some(1)
    case Bool(false) => Some(0)
    case _ => None
  }

  lemma StepKeepsNumbered(h: Handler, w: World, a: Action)
    requires Numbered(h, w) && !a.SendRaw?
    ensures Numbered(h, Act(h, w, a))
  {
    match a
    case SendRequest(m, p) =>
      MessageIds(h, w.nextId + 1, m, p);
      CallsAppend(h, w.sent, [RequestMessage(w.nextId + 1, m, p)]);
    case SendNotification(m, p) =>
      MessageIds(h, 0, m, p);
      CallsAppend(h, w.sent, [NotificationMessage(m, p)]);
    case _ =>
  }

  lemma {:induction false} RunKeepsNumbered(h: Handler, w: World, actions: seq<Action>)
    requires Numbered(h, w) && NoRaw(actions)
    ensures Numbered(h, Run(h, w, actions))
    decreases |actions|
  {
    if actions != [] {
      StepKeepsNumbered(h, w, actions[0]);
      RunKeepsNumbered(h, Act(h, w, actions[0]), actions[1..]);
    }
  }

  /** The ids of the unread responses go on from the last one read without a gap, and those
      of the unread requests end at `nextId`: together they are strictly increasing, and only the
      id of the call the upstream died of, if it did, is missing between them. */
  lemma UnreadIdsIncrease(h: Handler, w: World)
    requires Fifo(h, w) && Numbered(h, w)
    ensures var calls := Calls(h, w.toUpstream);
      && |w.read| + |w.toClient| + |calls| + FatalCalls(w) == w.nextId
      && (forall k :: 0 <= k < |w.toClient| ==> IdOf(w.toClient[k]) == Int(|w.read| + k + 1))
      && (forall k :: 0 <= k < |calls| ==> IdOf(calls[k]) == Int(w.nextId - |calls| + k + 1))
  {
    var done, calls := Calls(h, Done(w)), Calls(h, w.toUpstream);
    CallsAppend(h, Done(w), w.toUpstream);
    AnswersFollowCalls(h, Done(w));
    forall k | 0 <= k < |w.toClient| ensures IdOf(w.toClient[k]) == Int(|w.read| + k + 1) {
      assert w.toClient[k] == Answers(h, Done(w))[|w.read| + k];
      assert done[|w.read| + k] == Calls(h, w.sent)[|w.read| + k];
    }
    forall k | 0 <= k < |calls| ensures IdOf(calls[k]) == Int(w.nextId - |calls| + k + 1) {
      assert calls[k] == Calls(h, w.sent)[|done| + k];
    }
    FifoConserves(h, w);
  }

  // ---- a client that sends raw messages too ----

  /** No call sent so far carries an id that the next requests, up to number `top`, will use. */
  ghost predicate Unused(h: Handler, w: World, top: nat) {
    forall c, k :: c in Calls(h, w.sent) && w.nextId < k <= top ==> !PyEqual(IdOf(c), Int(k))
  }

  /** A raw message that draws an answer has an id apart from 1 to `top`. */
  ghost predicate RawAvoids(h: Handler, a: Action, top: nat) {
    a.SendRaw? && !React(h, a.msg).Ignore? ==> forall k :: 1 <= k <= top ==> !PyEqual(IdOf(a.msg), Int(k))
  }

  lemma CallsOfOneMore(h: Handler, sent: seq<Json>, msg: Json)
    ensures forall c :: c in Calls(h, sent + [msg]) <==> c in Calls(h, sent) || (c == msg && !React(h, msg).Ignore?)
  {
    CallsAppend(h, sent, [msg]);
    assert Calls(h, [msg][1..]) == [];
  }

  lemma StepKeepsUnused(h: Handler, w: World, a: Action, top: nat)
    requires Unused(h, w, top) && RawAvoids(h, a, top)
    ensures Unused(h, Act(h, w, a), top)
  {
    match a
    case SendRequest(m, p) =>
      MessageIds(h, w.nextId + 1, m, p);
      CallsOfOneMore(h, w.sent, RequestMessage(w.nextId + 1, m, p));
    case SendNotification(m, p) =>
      MessageIds(h, 0, m, p);
      CallsOfOneMore(h, w.sent, NotificationMessage(m, p));
    case SendRaw(msg) => CallsOfOneMore(h, w.sent, msg);
    case _ =>
  }

  /** Runs whose raw messages stay away from 1 to `top` leave the coming request ids unused. */
  lemma {:induction false} RunKeepsUnused(h: Handler, w: World, actions: seq<Action>, top: nat)
    requires Unused(h, w, top) && forall a :: a in actions ==> RawAvoids(h, a, top)
    ensures Unused(h, Run(h, w, actions), top)
    decreases |actions|
  {
    if actions != [] {
      StepKeepsUnused(h, w, actions[0], top);
      RunKeepsUnused(h, Act(h, w, actions[0]), actions[1..], top);
    }
  }

  // ---- a whole read is a run of single steps ----

  predicate Passive(actions: seq<Action>) {
    forall a :: a in actions ==> a.UpstreamTurn? || a.ReadLine?
  }

  lemma {:induction false} RunAppend(h: Handler, w: World, a: seq<Action>, b: seq<Action>)
    ensures Run(h, w, a + b) == Run(h, Run(h, w, a), b)
    decreases |a|
  {
    if a == [] {
      assert a + b == b;
    } else {
      assert (a + b)[1..] == a[1..] + b;
      RunAppend(h, Act(h, w, a[0]), a[1..], b);
    }
  }

  lemma {:induction false} TurnsAreARun(h: Handler, w: World, n: nat) returns (actions: seq<Action>)
    ensures Passive(actions) && Run(h, w, actions) == UpstreamTurns(h, w, n)
    decreases n
  {
    if n == 0 {
      actions := [];
    } else {
      var rest := TurnsAreARun(h, Upstream(h, w), n - 1);
      actions := [UpstreamTurn] + rest;
      assert actions[1..] == rest;
    }
  }

  lemma {:induction false} AwaitIsARun(h: Handler, w: World) returns (actions: seq<Action>)
    ensures Passive(actions) && Run(h, w, actions) == AwaitLine(h, w)
    decreases |w.toUpstream|
  {
    if w.toClient != [] || !w.alive || w.toUpstream == [] {
      actions := [];
    } else {
      var rest := AwaitIsARun(h, Upstream(h, w));
      actions := [UpstreamTurn] + rest;
      assert actions[1..] == rest;
    }
  }

  lemma NextLineIsARun(h: Handler, w: World, turns: nat) returns (actions: seq<Action>)
    ensures Passive(actions) && Run(h, w, actions) == NextLine(h, w, turns)
  {
    var first := TurnsAreARun(h, w, turns);
    var second := AwaitIsARun(h, UpstreamTurns(h, w, turns));
    actions := first + second;
    RunAppend(h, w, first, second);
  }

  /** `_read_response` does nothing that single turns and reads could not. */
  lemma {:induction false} ReadIsARun(h: Handler, w: World, expected: Option<Json>, schedule: seq<nat>)
    returns (actions: seq<Action>)
    ensures Passive(actions) && Run(h, w, actions) == ReadResponse(h, w, expected, schedule).0
    decreases |schedule|
  {
    if schedule == [] {
      actions := [];
    } else {
      var w1 := NextLine(h, w, schedule[0]);
      var first := NextLineIsARun(h, w, schedule[0]);
      if w1.toClient == [] {
        actions := first;
      } else {
        var w2, read := TakeLine(w1, expected), [ReadLine(expected)];
        assert read[1..] == [] && Run(h, w1, read) == w2;
        RunAppend(h, w, first, read);
        if Matches(w1.toClient[0], expected) {
          actions := first + read;
        } else {
          var rest := ReadIsARun(h, w2, expected, schedule[1..]);
          RunAppend(h, w, first + read, rest);
          actions := first + read + rest;
        }
      }
    }
  }
}
