/**
 * The server side of a client connection: the handshake gate, the request loop, and the undoing of code patches when
 * the connection ends, over any byte stream and any behaviour of the pipe.
 */
module Session {
  import opened CodePatch
  import opened Framing
  import opened LocalReader
  import opened Memory

  const PROTOCOL_VERSION := 6

  /** Requests, as far as the loop and the code memory tell them apart. */
  datatype Request =
    | Hello(version: nat)
    | Disconnect
    | PatchCode(addr: int, original: seq<byte>, patched: seq<byte>)
    | RestoreCode(addr: int, original: seq<byte>)
    | WriteMemory(addr: int, bytes: seq<byte>)
    | Other(tag: int)

  datatype Reply =
    | Welcome
    | VersionMismatch
    | HelloRequired
    | HelloAgain
    | DecodeFailed
    | FramingFailed
    | DisconnectAck
    | CodeReply(response: CodePatch.Response)
    | EmptyWrite
    | WriteTooLarge
    | Wrote(ok: bool)
    | Answered(tag: int)

  /** What came off the pipe. */
  datatype Arrival = Valid(req: Request) | Undecodable | BadFrame

  datatype Event = Arrived(what: Arrival) | Dispatched(req: Request) | Sent(reply: Reply)

  /** A write to memory somewhere in the process. */
  datatype Poke = Poke(addr: int, bytes: seq<byte>)

  /** What the handler of another request does: it may write memory, and then answers or panics. */
  datatype Outcome = Outcome(pokes: seq<Poke>, tag: Option<int>)

  /**
   * The codec, and what the process answers: `allow` says whether the system lets a write through, and `others` what
   * another request leads to; both may depend on all requests dispatched before.
   */
  datatype Env = Env(
    decode: seq<byte> -> Option<Request>,
    encode: Reply -> Option<seq<byte>>,
    allow: seq<Request> -> bool,
    others: (seq<Request>, Request) -> Outcome)

  /** What `write_bytes` answers; the length is compared after it was narrowed to 32 bits. */
  function WriteAnswer(addr: int, bytes: seq<byte>, allowed: bool): Reply {
    if bytes == [] then EmptyWrite
    else if |bytes| % U32 > MAX_FRAME_BYTES then WriteTooLarge
    else Wrote(LooksReadable(addr) && allowed)
  }

  /** The reply to a dispatched request and the code memory after it; `None` if the handler panics. */
  function Answer(env: Env, st: CodePatch.State, done: seq<Request>, req: Request): Option<Reply> {
    match req
    case Hello(_) => Some(HelloAgain)
    case Disconnect => Some(DisconnectAck)
    case PatchCode(a, o, p) => Some(CodeReply(PatchAnswer(st.mem, a, o, p, env.allow(done))))
    case RestoreCode(a, o) => Some(CodeReply(RestoreAnswer(st.mem, a, o, env.allow(done))))
    case WriteMemory(a, bytes) => Some(WriteAnswer(a, bytes, env.allow(done)))
    case Other(_) =>
      (match env.others(done, req).tag
       case None => None
       case Some(tag) => Some(Answered(tag)))
  }

  function Writes(pokes: seq<Poke>): (ops: seq<Op>)
    ensures |ops| == |pokes|
  {
    seq(|pokes|, i requires 0 <= i < |pokes| => Write(pokes[i].addr, pokes[i].bytes))
  }

  /** The operations on code memory that a request stands for. */
  function OpOf(env: Env, done: seq<Request>, req: Request): seq<Op> {
    match req
    case PatchCode(a, o, p) => [Patch(a, o, p, env.allow(done))]
    case RestoreCode(a, o) => [Restore(a, o, env.allow(done))]
    case WriteMemory(a, bytes) =>
      if WriteAnswer(a, bytes, env.allow(done)) == Wrote(true) then [Write(a, bytes)] else []
    case Other(_) => Writes(env.others(done, req).pokes)
    case _ => []
  }

  function OpsOf(env: Env, reqs: seq<Request>): seq<Op> {
    if reqs == [] then []
    else OpsOf(env, reqs[..|reqs| - 1]) + OpOf(env, reqs[..|reqs| - 1], reqs[|reqs| - 1])
  }

  /** The code memory after the requests, from `start` with nothing patched. */
  function StateAfter(env: Env, start: Mem, reqs: seq<Request>): CodePatch.State {
    CodePatch.Session(start, OpsOf(env, reqs))
  }

  lemma StateAfterOne(env: Env, start: Mem, done: seq<Request>, req: Request)
    ensures StateAfter(env, start, done + [req]) == Steps(StateAfter(env, start, done), OpOf(env, done, req))
  {
    assert (done + [req])[..|done|] == done;
    StepsAppend(CodePatch.State(start, map[]), OpsOf(env, done), OpOf(env, done, req));
  }

  // ---------- reference: what happens on a stream ----------

  function Send(env: Env, reply: Reply): seq<Event> { if env.encode(reply) == None then [] else [Sent(reply)] }

  /** Dispatching one request. */
  function Dispatches(env: Env, st: CodePatch.State, done: seq<Request>, req: Request): seq<Event> {
    [Dispatched(req)]
    + (match Answer(env, st, done, req)
       case None => []
       case Some(reply) => Send(env, reply))
  }

  /** The loop goes on after a request unless its handler panicked, its reply could not be sent, or it disconnects. */
  predicate GoesOn(env: Env, st: CodePatch.State, done: seq<Request>, req: Request) {
    match Answer(env, st, done, req)
    case None => false
    case Some(reply) => env.encode(reply).Some? && reply != DisconnectAck
  }

  /** Before the handshake a request is only looked at: the one Hello that is welcome, or the last word. */
  function Greets(env: Env, req: Request): seq<Event> {
    Send(env, if !req.Hello? then HelloRequired
              else if req.version != PROTOCOL_VERSION then VersionMismatch
              else Welcome)
  }

  predicate Welcomes(env: Env, req: Request) {
    req.Hello? && req.version == PROTOCOL_VERSION && env.encode(Welcome).Some?
  }

  /** What one request calls for, and whether the loop goes on behind it. */
  function Handles(env: Env, start: Mem, greeted: bool, done: seq<Request>, req: Request): seq<Event> {
    [Arrived(Valid(req))]
    + (if greeted then Dispatches(env, StateAfter(env, start, done), done, req) else Greets(env, req))
  }

  predicate Continues(env: Env, start: Mem, greeted: bool, done: seq<Request>, req: Request) {
    if greeted then GoesOn(env, StateAfter(env, start, done), done, req) else Welcomes(env, req)
  }

  /** All events of a connection, from a point where `done` was dispatched and `stream` is still to come. */
  function Serve(env: Env, start: Mem, stream: seq<byte>, greeted: bool, done: seq<Request>): seq<Event>
    decreases |stream|, 0
  {
    match ParseFrame(stream)
    case Truncated => []
    case Malformed(_) => [Arrived(BadFrame)] + Send(env, FramingFailed)
    case Frame(body, rest) =>
      match env.decode(body)
      case None => [Arrived(Undecodable)] + Send(env, DecodeFailed)
      case Some(req) =>
        Handles(env, start, greeted, done, req) + Later(env, start, rest, greeted, done, req)
  }

  /** What is called for after one request. */
  function Later(env: Env, start: Mem, rest: seq<byte>, greeted: bool, done: seq<Request>, req: Request): seq<Event>
    decreases |rest|, 1
  {
    if Continues(env, start, greeted, done, req)
    then Serve(env, start, rest, true, if greeted then done + [req] else done)
    else []
  }

  // ---------- the server ----------

  lemma Joins(a: seq<Event>, b: seq<Event>, c: seq<Event>)
    ensures a + (b + c) == a + b + c
  {
  }

  /** A server thread with one client connected; `trace` records what happened, in order. */
  class Server {
    const env: Env
    const pipe: Pipe
    const patcher: Patcher
    var trace: seq<Event>
    var done: seq<Request>

    constructor (e: Env, p: Pipe, c: Patcher)
      ensures env == e && pipe == p && patcher == c && trace == [] && done == []
    {
      env, pipe, patcher, trace, done := e, p, c, [], [];
    }

    /** `write_msg`: encode and send one reply. */
    method WriteMsg(reply: Reply) returns (ok: bool)
      modifies this`trace, pipe`outbox, pipe`calls
      ensures trace == if ok then old(trace) + [Sent(reply)] else old(trace)
      ensures ok ==> env.encode(reply).Some?
      ensures Healthy(pipe.grants) ==> ok == env.encode(reply).Some?
      ensures ok ==> trace == old(trace) + Send(env, reply)
      ensures ok ==> pipe.outbox == old(pipe.outbox) + EncodeFramed(env.encode(reply).value)
    {
      var body := env.encode(reply);
      if body == None {
        return false;
      }
      var sent := pipe.SendFrame(body.value);
      ok := sent.Ok?;
      if ok {
        trace := trace + [Sent(reply)];
      }
    }

    ghost function Code(): CodePatch.State
      reads this, patcher
    {
      CodePatch.State(patcher.mem, patcher.registry)
    }

    /** The writes of another handler. */
    method Pokes(pokes: seq<Poke>, ghost start: Mem)
      requires patcher.Valid()
      modifies patcher
      ensures patcher.Valid() && Code() == Steps(old(Code()), Writes(pokes))
    {
      for i := 0 to |pokes|
        invariant patcher.Valid() && Code() == Steps(old(Code()), Writes(pokes)[..i])
      {
        assert Writes(pokes)[..i + 1][..i] == Writes(pokes)[..i];
        patcher.RawWrite(pokes[i].addr, pokes[i].bytes, start);
      }
      assert Writes(pokes)[..|pokes|] == Writes(pokes);
    }

    /** `handle_request`; `None` is a panic. */
    method HandleRequest(req: Request, ghost start: Mem) returns (reply: Option<Reply>)
      requires patcher.Valid()
      modifies patcher
      ensures patcher.Valid()
      ensures reply == Answer(env, old(Code()), done, req)
      ensures Code() == Steps(old(Code()), OpOf(env, done, req))
    {
      match req
      case Hello(_) =>
        return Some(HelloAgain);
      case Disconnect =>
        return Some(DisconnectAck);
      case PatchCode(a, o, p) =>
        var r := patcher.CodePatch(a, o, p, env.allow(done), start);
        return Some(CodeReply(r));
      case RestoreCode(a, o) =>
        var r := patcher.RestorePatch(a, o, env.allow(done), start);
        return Some(CodeReply(r));
      case WriteMemory(a, bytes) =>
        var r := WriteAnswer(a, bytes, env.allow(done));
        if r == Wrote(true) {
          patcher.RawWrite(a, bytes, start);
        }
        return Some(r);
      case Other(_) =>
        var outcome := env.others(done, req);
        Pokes(outcome.pokes, start);
        return if outcome.tag == None then None else Some(Answered(outcome.tag.value));
    }

    ghost predicate InStep(start: Mem)
      reads this, patcher
    {
      patcher.Valid() && Code() == StateAfter(env, start, done)
    }

    /** One request after the handshake: dispatch it and send its reply. */
    method Dispatch(req: Request, ghost start: Mem) returns (go: bool)
      requires patcher.Valid()
      modifies this`trace, this`done, pipe`outbox, pipe`calls, patcher
      ensures patcher.Valid() && Code() == Steps(old(Code()), OpOf(env, old(done), req))
      ensures done == old(done) + [req]
      ensures go ==> GoesOn(env, old(Code()), old(done), req)
      ensures go || Healthy(pipe.grants) ==> trace == old(trace) + Dispatches(env, old(Code()), old(done), req)
      ensures trace <= old(trace) + Dispatches(env, old(Code()), old(done), req)
      ensures Healthy(pipe.grants) ==> go == GoesOn(env, old(Code()), old(done), req)
    {
      trace := trace + [Dispatched(req)];
      var reply := HandleRequest(req, start);
      done := done + [req];
      if reply == None {
        return false;
      }
      var isDisconnect := reply.value == DisconnectAck;
      var ok := WriteMsg(reply.value);
      return ok && !isDisconnect;
    }

    /** A reply that ends the connection, whether or not it can still be sent. */
    method LastWord(reply: Reply)
      modifies this`trace, pipe`outbox, pipe`calls
      ensures old(trace) <= trace <= old(trace) + Send(env, reply)
      ensures Healthy(pipe.grants) ==> trace == old(trace) + Send(env, reply)
    {
      var ok := WriteMsg(reply);
    }

    /** The same, with the code memory as the requests dispatched so far leave it. */
    method DispatchInStep(req: Request, ghost start: Mem) returns (go: bool)
      requires InStep(start)
      modifies this`trace, this`done, pipe`outbox, pipe`calls, patcher
      ensures InStep(start)
      ensures go ==> done == old(done) + [req]
      ensures go ==> GoesOn(env, StateAfter(env, start, old(done)), old(done), req)
      ensures go || Healthy(pipe.grants) ==>
                trace == old(trace) + Dispatches(env, StateAfter(env, start, old(done)), old(done), req)
      ensures trace <= old(trace) + Dispatches(env, StateAfter(env, start, old(done)), old(done), req)
      ensures Healthy(pipe.grants) ==> go == GoesOn(env, StateAfter(env, start, old(done)), old(done), req)
    {
      StateAfterOne(env, start, done, req);
      go := Dispatch(req, start);
    }

    /** One request before the handshake: the gate. */
    method Greet(req: Request) returns (go: bool)
      modifies this`trace, pipe`outbox, pipe`calls
      ensures go ==> Welcomes(env, req)
      ensures go || Healthy(pipe.grants) ==> trace == old(trace) + Greets(env, req)
      ensures trace <= old(trace) + Greets(env, req)
      ensures Healthy(pipe.grants) ==> go == Welcomes(env, req)
    {
      if !req.Hello? {
        LastWord(HelloRequired);
        return false;
      }
      if req.version != PROTOCOL_VERSION {
        LastWord(VersionMismatch);
        return false;
      }
      go := WriteMsg(Welcome);
    }

    /** The body of the loop once a request was decoded: the gate, or the dispatch. */
    method Handle(req: Request, greeted: bool, ghost start: Mem) returns (go: bool)
      requires InStep(start)
      modifies this`trace, this`done, pipe`outbox, pipe`calls, patcher
      ensures InStep(start)
      ensures go ==> Continues(env, start, greeted, old(done), req)
      ensures go ==> done == if greeted then old(done) + [req] else old(done)
      ensures go || Healthy(pipe.grants) ==> trace == old(trace) + Handles(env, start, greeted, old(done), req)
      ensures trace <= old(trace) + Handles(env, start, greeted, old(done), req)
      ensures Healthy(pipe.grants) ==> go == Continues(env, start, greeted, old(done), req)
    {
      ghost var rest := if greeted then Dispatches(env, StateAfter(env, start, done), done, req) else Greets(env, req);
      Joins(trace, [Arrived(Valid(req))], rest);
      trace := trace + [Arrived(Valid(req))];
      if greeted {
        go := DispatchInStep(req, start);
      } else {
        go := Greet(req);
      }
    }

    /** The next request, or the last word if none can be had. */
    method NextRequest(ghost start: Mem, ghost greeted: bool) returns (req: Option<Request>)
      modifies this`trace, pipe
      ensures req.Some? ==>
                && trace == old(trace) && |pipe.inbox| < |old(pipe.inbox)|
                && Serve(env, start, old(pipe.inbox), greeted, done)
                   == Handles(env, start, greeted, done, req.value)
                      + Later(env, start, pipe.inbox, greeted, done, req.value)
      ensures req == None ==> trace <= old(trace) + Serve(env, start, old(pipe.inbox), greeted, done)
      ensures req == None && Healthy(pipe.grants) ==>
                trace == old(trace) + Serve(env, start, old(pipe.inbox), greeted, done)
    {
      var frame := pipe.RecvFrame();
      if frame.Err? {
        if frame.error.Bad? {
          trace := trace + [Arrived(BadFrame)];
          LastWord(FramingFailed);
        }
        return None;
      }
      req := env.decode(frame.value);
      if req == None {
        trace := trace + [Arrived(Undecodable)];
        LastWord(DecodeFailed);
      }
    }

    /**
     * `serve_client`: whatever the pipe does, the events are a beginning of what the stream calls for, and on a healthy
     * pipe they are all of it.
     */
    method ServeClient(ghost start: Mem)
      requires InStep(start) && trace == [] && done == []
      modifies this, pipe, patcher
      ensures InStep(start)
      ensures trace <= Serve(env, start, old(pipe.inbox), false, [])
      ensures Healthy(pipe.grants) ==> trace == Serve(env, start, old(pipe.inbox), false, [])
    {
      var greeted := false;
      ghost var all := Serve(env, start, pipe.inbox, false, []);
      while true
        invariant InStep(start)
        invariant trace + Serve(env, start, pipe.inbox, greeted, done) == all
        decreases |pipe.inbox|
      {
        var req := NextRequest(start, greeted);
        if req == None {
          return;
        }
        ghost var before, later := trace, Later(env, start, pipe.inbox, greeted, done, req.value);
        ghost var events := Handles(env, start, greeted, done, req.value);
        var go := Handle(req.value, greeted, start);
        Joins(before, events, later);
        if !go {
          return;
        }
        greeted := true;
      }
    }

    /**
     * One connection as the worker runs it: serve the client, with panics caught, and restore all patches however that
     * ended. No patch is left registered; and if every request that writes code was guarded and no restoring write is
     * refused, the code is back to what it was when the client connected.
     */
    method ServeConnection(restores: int -> bool)
      requires patcher.Valid() && patcher.registry == map[] && trace == [] && done == []
      modifies this, pipe, patcher
      ensures patcher.Valid() && patcher.registry == map[]
      ensures trace <= Serve(env, old(patcher.mem), old(pipe.inbox), false, [])
      ensures AllGuarded(old(patcher.mem), OpsOf(env, done)) && (forall a :: restores(a)) ==>
                patcher.mem == old(patcher.mem)
    {
      ghost var start := patcher.mem;
      ServeClient(start);
      var order := patcher.DrainOrder();
      if AllGuarded(start, OpsOf(env, done)) {
        SessionUndoable(start, OpsOf(env, done));
      }
      patcher.RestoreAll(order, restores, start);
    }
  }

  // ---------- what every connection keeps ----------

  /**
   * Every arrival is answered before the next one: an arrival, then possibly its dispatch, then one reply unless the
   * conversation ends there.
   */
  ghost predicate Conversation(events: seq<Event>) {
    events == []
    || (&& events[0].Arrived?
        && var n := if |events| > 1 && events[1].Dispatched? then 2 else 1;
        && (n == 2 ==> events[0] == Arrived(Valid(events[1].req)))
        && (|events| == n || (events[n].Sent? && Conversation(events[n + 1..]))))
  }

  lemma RoundThenConversation(round: seq<Event>, later: seq<Event>, req: Request, reply: Reply)
    requires Conversation(later)
    requires || round == [Arrived(Valid(req)), Sent(reply)]
             || round == [Arrived(Valid(req)), Dispatched(req), Sent(reply)]
    ensures Conversation(round + later)
  {
    assert (round + later)[|round|..] == later;
  }

  lemma {:induction false} ServeIsConversation(
      env: Env, start: Mem, stream: seq<byte>, greeted: bool, done: seq<Request>)
    ensures Conversation(Serve(env, start, stream, greeted, done))
    decreases |stream|
  {
    if ParseFrame(stream).Frame? && env.decode(ParseFrame(stream).body).Some? {
      var rest, req := ParseFrame(stream).rest, env.decode(ParseFrame(stream).body).value;
      var round := Handles(env, start, greeted, done, req);
      if Continues(env, start, greeted, done, req) {
        var done' := if greeted then done + [req] else done;
        ServeIsConversation(env, start, rest, true, done');
        RoundThenConversation(round, Serve(env, start, rest, true, done'), req, round[|round| - 1].reply);
      }
    }
  }

  lemma {:induction false} PrefixIsConversation(events: seq<Event>, n: nat)
    requires Conversation(events) && n <= |events|
    ensures Conversation(events[..n])
    decreases |events|
  {
    if events != [] {
      var k := if |events| > 1 && events[1].Dispatched? then 2 else 1;
      if n > k {
        PrefixIsConversation(events[k + 1..], n - k - 1);
        assert events[..n][k + 1..] == events[k + 1..][..n - k - 1];
      }
    }
  }

  function Arrivals(events: seq<Event>): (what: seq<Arrival>)
    ensures |what| <= |events|
  {
    if events == [] then []
    else (if events[0].Arrived? then [events[0].what] else []) + Arrivals(events[1..])
  }

  function Replies(events: seq<Event>): nat {
    if events == [] then 0 else (if events[0].Sent? then 1 else 0) + Replies(events[1..])
  }

  lemma CountsOf(events: seq<Event>)
    ensures events == [] ==> Arrivals(events) == [] && Replies(events) == 0
    ensures events != [] && events[0].Sent? ==>
              Arrivals(events) == Arrivals(events[1..]) && Replies(events) == 1 + Replies(events[1..])
  {
  }

  /** No reply without an arrival, and at most one arrival that is not answered yet. */
  lemma {:induction false} OneReplyEach(events: seq<Event>)
    requires Conversation(events)
    ensures Replies(events) <= |Arrivals(events)| <= Replies(events) + 1
    decreases |events|
  {
    if events != [] {
      var n := if |events| > 1 && events[1].Dispatched? then 2 else 1;
      if |events| > n {
        OneReplyEach(events[n + 1..]);
        assert events[n..][1..] == events[n + 1..];
      }
      CountsOf(events[n..]);
      assert n == 2 ==> events[1..][1..] == events[2..];
      assert Arrivals(events) == [events[0].what] + Arrivals(events[n..]) && Replies(events) == Replies(events[n..]);
    }
  }

  /** A server's trace, however its pipe behaves, is a conversation. */
  lemma TraceIsConversation(env: Env, start: Mem, stream: seq<byte>, trace: seq<Event>)
    requires trace <= Serve(env, start, stream, false, [])
    ensures Conversation(trace)
  {
    ServeIsConversation(env, start, stream, false, []);
    PrefixIsConversation(Serve(env, start, stream, false, []), |trace|);
    assert trace == Serve(env, start, stream, false, [])[..|trace|];
  }

  /** Nothing is dispatched unless the stream began with a Hello of the server's own version, which was welcomed. */
  lemma NothingBeforeHello(env: Env, start: Mem, stream: seq<byte>, trace: seq<Event>, i: nat)
    requires trace <= Serve(env, start, stream, false, []) && i < |trace| && trace[i].Dispatched?
    ensures i >= 3 && trace[0] == Arrived(Valid(Hello(PROTOCOL_VERSION))) && trace[1] == Sent(Welcome)
  {
    var all := Serve(env, start, stream, false, []);
    assert all[i].Dispatched?;
    ServeIsConversation(env, start, stream, false, []);
    assert trace[i] == all[i] && trace[0] == all[0];
    assert trace[1] == all[1];
  }

  lemma {:induction false} NoArrivals(quiet: seq<Event>, later: seq<Event>)
    requires forall e :: e in quiet ==> !e.Arrived?
    ensures Arrivals(quiet + later) == Arrivals(later)
  {
    if quiet == [] {
      assert quiet + later == later;
    } else {
      NoArrivals(quiet[1..], later);
      assert (quiet + later)[1..] == quiet[1..] + later;
    }
  }

  lemma {:induction false} ArrivalsOfRound(round: seq<Event>, later: seq<Event>)
    requires forall i :: 0 < i < |round| ==> !round[i].Arrived?
    requires round != [] && round[0].Arrived?
    ensures Arrivals(round + later) == [round[0].what] + Arrivals(later)
  {
    NoArrivals(round[1..], later);
    assert (round + later)[1..] == round[1..] + later;
  }

  function Decoded(env: Env, body: seq<byte>): Arrival {
    match env.decode(body)
    case None => Undecodable
    case Some(req) => Valid(req)
  }

  /** What arrives after the first body, with `rest` still to come. */
  function ArrivalsAfter(
    env: Env, start: Mem, body: seq<byte>, rest: seq<byte>, greeted: bool, done: seq<Request>): seq<Arrival>
  {
    match env.decode(body)
    case None => []
    case Some(req) => Arrivals(Later(env, start, rest, greeted, done, req))
  }

  /** The first arrival of a stream that begins with a frame, and what arrives after it. */
  lemma FirstArrival(env: Env, start: Mem, stream: seq<byte>, greeted: bool, done: seq<Request>)
    requires ParseFrame(stream).Frame?
    ensures var frame, what := ParseFrame(stream), Arrivals(Serve(env, start, stream, greeted, done));
            && what != [] && what[0] == Decoded(env, frame.body)
            && what[1..] == ArrivalsAfter(env, start, frame.body, frame.rest, greeted, done)
  {
    var frame := ParseFrame(stream);
    match env.decode(frame.body)
    case None =>
      var events := Serve(env, start, stream, greeted, done);
      ArrivalsOfRound(events, []);
      assert events + [] == events;
    case Some(req) =>
      ArrivalsOfRound(Handles(env, start, greeted, done, req), Later(env, start, frame.rest, greeted, done, req));
  }

  /** As far as there are arrivals, they are the decoded bodies, in order. */
  ghost predicate InOrder(env: Env, bodies: seq<seq<byte>>, what: seq<Arrival>) {
    forall k :: 0 <= k < |bodies| && k < |what| ==> what[k] == Decoded(env, bodies[k])
  }

  lemma FirstInOrder(env: Env, bodies: seq<seq<byte>>, what: seq<Arrival>)
    requires bodies != [] && what != [] && what[0] == Decoded(env, bodies[0]) && InOrder(env, bodies[1..], what[1..])
    ensures InOrder(env, bodies, what)
  {
    forall k | 0 < k < |bodies| && k < |what| ensures what[k] == Decoded(env, bodies[k]) {
      assert what[1..][k - 1] == what[k] && bodies[1..][k - 1] == bodies[k];
    }
  }

  lemma FirstFrame(stream: seq<byte>, bodies: seq<seq<byte>>, rest: seq<byte>)
    requires bodies != [] && ParseFrames(stream, |bodies|) == Some((bodies, rest))
    ensures ParseFrame(stream).Frame? && ParseFrame(stream).body == bodies[0]
    ensures ParseFrames(ParseFrame(stream).rest, |bodies| - 1) == Some((bodies[1..], rest))
  {
  }

  /** What arrives are the frames of the stream, decoded, in order, none skipped and none twice. */
  lemma {:induction false} ArrivalsInOrder(
      env: Env, start: Mem, stream: seq<byte>, greeted: bool, done: seq<Request>, bodies: seq<seq<byte>>,
      rest: seq<byte>)
    requires ParseFrames(stream, |bodies|) == Some((bodies, rest))
    ensures InOrder(env, bodies, Arrivals(Serve(env, start, stream, greeted, done)))
    decreases |bodies|, 0
  {
    if bodies != [] {
      FirstFrame(stream, bodies, rest);
      FirstArrival(env, start, stream, greeted, done);
      AfterInOrder(env, start, bodies[0], ParseFrame(stream).rest, greeted, done, bodies[1..], rest);
      FirstInOrder(env, bodies, Arrivals(Serve(env, start, stream, greeted, done)));
    }
  }

  lemma {:induction false} AfterInOrder(
      env: Env, start: Mem, body: seq<byte>, stream: seq<byte>, greeted: bool, done: seq<Request>,
      bodies: seq<seq<byte>>, rest: seq<byte>)
    requires ParseFrames(stream, |bodies|) == Some((bodies, rest))
    ensures InOrder(env, bodies, ArrivalsAfter(env, start, body, stream, greeted, done))
    decreases |bodies|, 1
  {
    if env.decode(body).Some? && Continues(env, start, greeted, done, env.decode(body).value) {
      var done' := if greeted then done + [env.decode(body).value] else done;
      ArrivalsInOrder(env, start, stream, true, done', bodies, rest);
    }
  }
}
