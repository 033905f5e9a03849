/**
 Agent forwarding: requests that arrive in arbitrary pieces are cut into length-prefixed
 frames and passed to the agent one at a time, and its replies are sent back.
 */
module AgentForward {
  import opened Marshal

  const MAX_MSGLEN := 262144
  const FAILURE: Bytes := [0, 0, 0, 1, 5]

  datatype Option<T> = None | Some(value: T)

  /** The agent may answer a query at once (perhaps with nothing at all), or promise to. */
  datatype Answer = Deferred | Immediate(reply: Option<Bytes>)

  /** What the agent does with its n-th query. */
  type Agent = (nat, Bytes) -> Answer

  datatype Output = Reply(data: Bytes) | Eof

  datatype Event = Send(data: Bytes) | SendEof | SetInputWanted(wanted: bool) | Callback(reply: Option<Bytes>)

  /** The channel, what has passed through it, and the agent's replies so far. */
  datatype State = State(inbuffer: Bytes, pending: bool, inputWanted: bool, rcvdEof: bool,
                         received: Bytes, queries: seq<Bytes>, said: seq<Option<Bytes>>, written: seq<Output>)

  function Wire(reply: Option<Bytes>): Bytes {
    if reply.Some? then reply.value else FAILURE
  }

  // ---------------------------------------------------------------- one event

  function Length(b: Bytes): int
    requires |b| >= 4
  {
    Value32(b[..4])
  }

  predicate OverLong(b: Bytes) {
    |b| >= 4 && Length(b) > MAX_MSGLEN - 4
  }

  predicate Complete(b: Bytes) {
    |b| >= 4 && Length(b) <= MAX_MSGLEN - 4 && 4 + Length(b) <= |b|
  }

  function Respond(s: State, reply: Option<Bytes>): State {
    s.(pending := false, said := s.said + [reply], written := s.written + [Reply(Wire(reply))])
  }

  function Forward(agent: Agent, s: State): State
    decreases |s.inbuffer|
  {
    var b := s.inbuffer;
    if OverLong(b) then s.(pending := false, written := s.written + [Reply(FAILURE), Eof])
    else if Complete(b) then
      var query := b[4..4 + Length(b)];
      var asked := s.(inbuffer := b[4 + Length(b)..], queries := s.queries + [query]);
      match agent(|s.queries|, query)
      case Deferred => asked.(pending := true)
      case Immediate(reply) => Forward(agent, Respond(asked, reply))
    else if s.rcvdEof then s.(written := s.written + [Eof])
    else s
  }

  function TryForward(agent: Agent, s: State): State {
    if s.pending || !s.inputWanted then s else Forward(agent, s)
  }

  function Handle(agent: Agent, s: State, e: Event): State {
    match e
    case Send(data) => TryForward(agent, s.(inbuffer := s.inbuffer + data, received := s.received + data))
    case SendEof => TryForward(agent, s.(rcvdEof := true))
    case SetInputWanted(wanted) =>
      var s' := s.(inputWanted := wanted);
      if wanted then TryForward(agent, s') else s'
    case Callback(reply) => TryForward(agent, Respond(s, reply))
  }

  class Forwarder {
    const agent: Agent
    var inbuffer: Bytes
    var pending: bool
    var inputWanted: bool
    var rcvdEof: bool
    var queries: seq<Bytes>
    var written: seq<Output>
    ghost var received: Bytes
    ghost var said: seq<Option<Bytes>>

    ghost function View(): State
      reads this
    {
      State(inbuffer, pending, inputWanted, rcvdEof, received, queries, said, written)
    }

    constructor (agent: Agent)
      ensures View() == Initial() && this.agent == agent
    {
      this.agent := agent;
      inbuffer, pending, inputWanted, rcvdEof := [], false, true, false;
      queries, written, received, said := [], [], [], [];
    }

    method GotResponse(reply: Option<Bytes>)
      modifies this`pending, this`written
      ensures !pending && written == old(written) + [Reply(Wire(reply))]
    {
      pending := false;
      written := written + [Reply(if reply.Some? then reply.value else FAILURE)];
    }

    method WriteEof()
      modifies this`written
      ensures written == old(written) + [Eof]
    {
      written := written + [Eof];
    }

    /** Asks the agent; if it defers its answer, a query is pending. */
    method AgentQuery(message: Bytes) returns (reply: Option<Bytes>)
      requires !pending
      modifies this`queries, this`pending
      ensures queries == old(queries) + [message]
      ensures match agent(|old(queries)|, message)
              case Deferred => pending
              case Immediate(r) => !pending && reply == r
    {
      reply := None;
      match agent(|queries|, message) {
        case Deferred => pending := true;
        case Immediate(r) => reply := r;
      }
      queries := queries + [message];
    }

    /** Takes the length field and the message off the buffer. */
    method FetchConsume(length: nat) returns (message: Bytes)
      requires 4 + length <= |inbuffer|
      modifies this`inbuffer
      ensures message == old(inbuffer)[4..4 + length] && inbuffer == old(inbuffer)[4 + length..]
    {
      inbuffer := inbuffer[4..];
      message := inbuffer[..length];
      inbuffer := inbuffer[length..];
    }

    /** Passes one complete message to the agent, and its answer on if there is one at once. */
    method ForwardMessage(length: nat)
      requires !pending && Complete(inbuffer) && length == Length(inbuffer)
      modifies this
      ensures Forward(agent, old(View())) == if pending then View() else Forward(agent, View())
      ensures |inbuffer| < |old(inbuffer)|
    {
      hide Length;
      var message := FetchConsume(length);
      var reply := AgentQuery(message);
      if !pending {
        GotResponse(reply);
        said := said + [reply];
      }
    }

    method AgentfTryForward()
      modifies this
      ensures View() == TryForward(agent, old(View()))
    {
      if pending {
        return;
      }
      if !inputWanted {
        return;
      }
      ghost var goal := Forward(agent, View());
      while true
        invariant !pending && Forward(agent, View()) == goal
        decreases |inbuffer|
      {
        ghost var s := View();
        var datalen := |inbuffer|;
        if datalen < 4 {
          break;
        }
        var length := Value32(inbuffer[..4]);
        if length > MAX_MSGLEN - 4 {
          GotResponse(None);
          WriteEof();
          assert written == s.written + [Reply(FAILURE), Eof];
          return;
        }
        if length > datalen - 4 {
          break;
        }
        ForwardMessage(length);
        if pending {
          return;
        }
      }
      if rcvdEof {
        WriteEof();
      }
    }

    method AgentfCallback(reply: Option<Bytes>)
      requires pending
      modifies this
      ensures View() == Handle(agent, old(View()), Callback(reply))
    {
      GotResponse(reply);
      said := said + [reply];
      AgentfTryForward();
    }

    /** The result is the backlog to be drained before the client may send more. */
    method AgentfSend(data: Bytes) returns (backlog: nat)
      modifies this
      ensures View() == Handle(agent, old(View()), Send(data))
      ensures backlog == if pending then |inbuffer| else 0
    {
      inbuffer := inbuffer + data;
      received := received + data;
      AgentfTryForward();
      backlog := if pending then |inbuffer| else 0;
    }

    method AgentfSendEof()
      modifies this
      ensures View() == Handle(agent, old(View()), SendEof)
    {
      rcvdEof := true;
      AgentfTryForward();
    }

    method AgentfSetInputWanted(wanted: bool)
      modifies this
      ensures View() == Handle(agent, old(View()), SetInputWanted(wanted))
    {
      inputWanted := wanted;
      if wanted {
        AgentfTryForward();
      }
    }
  }

  // ---------------------------------------------------------------- whole runs

  function Initial(): State {
    State([], false, true, false, [], [], [], [])
  }

  /** The agent answers only queries that are outstanding, and the client sends nothing after
      its end of file. */
  predicate Possible(s: State, e: Event) {
    && (e.Callback? ==> s.pending)
    && (e.Send? ==> !s.rcvdEof)
  }

  function After(agent: Agent, events: seq<Event>): State {
    if events == [] then Initial() else Handle(agent, After(agent, events[..|events| - 1]), events[|events| - 1])
  }

  predicate PossibleRun(agent: Agent, events: seq<Event>) {
    events == [] || (PossibleRun(agent, events[..|events| - 1]) &&
        Possible(After(agent, events[..|events| - 1]), events[|events| - 1]))
  }

  /** The complete frames at the front of some data, none of them too long. */
  function Frames(b: Bytes): (r: seq<Bytes>)
    decreases |b|
  {
    if Complete(b) then [b[4..4 + Length(b)]] + Frames(b[4 + Length(b)..]) else []
  }

  /** Cutting the given frames off the front of some data leaves the rest. */
  ghost predicate Cut(b: Bytes, frames: seq<Bytes>, rest: Bytes)
    decreases frames
  {
    if frames == [] then b == rest
    else Complete(b) && frames[0] == b[4..4 + Length(b)] && Cut(b[4 + Length(b)..], frames[1..], rest)
  }

  function Wires(said: seq<Option<Bytes>>): (r: seq<Output>)
    ensures |r| == |said|
  {
    seq(|said|, i requires 0 <= i < |said| => Reply(Wire(said[i])))
  }

  function Repeat(n: nat, x: seq<Output>): seq<Output> {
    if n == 0 then [] else Repeat(n - 1, x) + x
  }

  /** The queries are the first frames received, each exactly once and in order. */
  ghost predicate InOrder(s: State) {
    Cut(s.received, s.queries, s.inbuffer)
  }

  /** Every query but a pending one is answered, and by what the agent said to that query. */
  ghost predicate Answered(agent: Agent, s: State) {
    && |s.queries| == |s.said| + (if s.pending then 1 else 0)
    && (s.pending ==> agent(|s.said|, s.queries[|s.said|]).Deferred?)
    && forall i :: 0 <= i < |s.said| ==> agent(i, s.queries[i]) in {Deferred, Immediate(s.said[i])}
  }

  /** The replies were written back in the order of the queries; after them come only ends of
      file, each when nothing was pending and no complete frame was buffered, and, if a frame is
      too long, a failure before each. */
  ghost predicate WellWritten(s: State, n: nat) {
    && s.written == Wires(s.said) + Repeat(n, if OverLong(s.inbuffer) then [Reply(FAILURE), Eof] else [Eof])
    && (n > 0 ==> !s.pending && !Complete(s.inbuffer) && (s.rcvdEof || OverLong(s.inbuffer)))
  }

  /** Nothing that could be done is left undone. */
  ghost predicate Settled(s: State, n: nat) {
    s.inputWanted && !s.pending ==> !Complete(s.inbuffer) && (s.rcvdEof || OverLong(s.inbuffer) ==> n > 0)
  }

  ghost predicate Inv(agent: Agent, s: State, n: nat) {
    InOrder(s) && Answered(agent, s) && WellWritten(s, n)
  }

  lemma {:induction false} CutAppend(b: Bytes, frames: seq<Bytes>, rest: Bytes, more: Bytes)
    requires Cut(b, frames, rest)
    ensures Cut(b + more, frames, rest + more)
    decreases frames
  {
    if frames != [] {
      CompleteGrows(b, more);
      CutAppend(b[4 + Length(b)..], frames[1..], rest, more);
    }
  }

  lemma CompleteGrows(b: Bytes, more: Bytes)
    requires |b| >= 4
    ensures Length(b + more) == Length(b) && (OverLong(b + more) <==> OverLong(b))
    ensures Complete(b) ==> Complete(b + more) && (b + more)[4..4 + Length(b)] == b[4..4 + Length(b)]
    ensures Complete(b) ==> (b + more)[4 + Length(b)..] == b[4 + Length(b)..] + more
  {
    assert (b + more)[..4] == b[..4];
  }

  lemma {:induction false} CutMore(b: Bytes, frames: seq<Bytes>, rest: Bytes)
    requires Cut(b, frames, rest) && Complete(rest)
    ensures Cut(b, frames + [rest[4..4 + Length(rest)]], rest[4 + Length(rest)..])
    decreases frames
  {
    var more := frames + [rest[4..4 + Length(rest)]];
    if frames != [] {
      CutMore(b[4 + Length(b)..], frames[1..], rest);
      assert more[1..] == frames[1..] + [rest[4..4 + Length(rest)]];
    }
  }

  lemma {:induction false} CutFrames(b: Bytes, frames: seq<Bytes>, rest: Bytes)
    requires Cut(b, frames, rest)
    ensures Frames(b) == frames + Frames(rest)
    decreases frames
  {
    if frames != [] {
      CutFrames(b[4 + Length(b)..], frames[1..], rest);
      assert frames == [frames[0]] + frames[1..];
    }
  }

  lemma WiresMore(said: seq<Option<Bytes>>, reply: Option<Bytes>)
    ensures Wires(said + [reply]) == Wires(said) + [Reply(Wire(reply))]
  {
  }

  lemma RepeatMore(out: seq<Output>, n: nat, x: seq<Output>)
    ensures out + Repeat(n, x) + x == out + Repeat(n + 1, x)
  {
  }

  /** Taking the agent's answer to the pending query. */
  lemma RespondKeeps(agent: Agent, s: State, reply: Option<Bytes>, n: nat)
    requires Inv(agent, s, n) && s.pending
    ensures Inv(agent, Respond(s, reply), 0)
  {
    hide Cut, Complete, OverLong;
    assert s.written + [] == s.written;
    WiresMore(s.said, reply);
    assert n == 0 && Wires(s.said) + [] == Wires(s.said);
    assert Respond(s, reply).written + [] == Respond(s, reply).written;
  }

  /** Asking the agent the next query, answered at once or left pending. */
  lemma AskKeeps(agent: Agent, s: State, n: nat, reply: Option<Bytes>)
    requires Inv(agent, s, n) && !s.pending && Complete(s.inbuffer)
    ensures var b := s.inbuffer;
      var query := b[4..4 + Length(b)];
      var asked := s.(inbuffer := b[4 + Length(b)..], queries := s.queries + [query]);
      && (agent(|s.queries|, query) == Deferred ==> Inv(agent, asked.(pending := true), 0))
      && (agent(|s.queries|, query) == Immediate(reply) ==> Inv(agent, Respond(asked, reply), 0))
  {
    hide Cut, Length;
    CutMore(s.received, s.queries, s.inbuffer);
    WiresMore(s.said, reply);
    var w := s.written;
    assert n == 0 && Wires(s.said) + [] == Wires(s.said) == w;
    assert w + [Reply(Wire(reply))] + [] == w + [Reply(Wire(reply))] && w + [] == w;
  }

  lemma {:induction false} ForwardKeeps(agent: Agent, s: State, n: nat) returns (m: nat)
    requires Inv(agent, s, n) && !s.pending
    ensures Inv(agent, Forward(agent, s), m) && Settled(Forward(agent, s), m) && m <= n + 1
    decreases |s.inbuffer|
  {
    hide Cut, Answered;
    var b := s.inbuffer;
    if OverLong(b) {
      m := n + 1;
      RepeatMore(Wires(s.said), n, [Reply(FAILURE), Eof]);
      AnsweredSame(agent, s, Forward(agent, s));
    } else if Complete(b) {
      var query := b[4..4 + Length(b)];
      var asked := s.(inbuffer := b[4 + Length(b)..], queries := s.queries + [query]);
      match agent(|s.queries|, query) {
        case Deferred =>
          AskKeeps(agent, s, n, None);
          m := 0;
        case Immediate(reply) =>
          AskKeeps(agent, s, n, reply);
          m := ForwardKeeps(agent, Respond(asked, reply), 0);
      }
    } else if s.rcvdEof {
      m := n + 1;
      RepeatMore(Wires(s.said), n, [Eof]);
      AnsweredSame(agent, s, Forward(agent, s));
    } else {
      m := n;
    }
  }

  lemma AnsweredSame(agent: Agent, s: State, t: State)
    requires Answered(agent, s) && s.queries == t.queries && s.said == t.said && s.pending == t.pending
    ensures Answered(agent, t)
  {
  }

  lemma TryKeeps(agent: Agent, s: State, n: nat) returns (m: nat)
    requires Inv(agent, s, n)
    ensures Inv(agent, TryForward(agent, s), m) && Settled(TryForward(agent, s), m) && m <= n + 1
  {
    hide Inv, Forward, Complete;
    if s.pending || !s.inputWanted { m := n; } else { m := ForwardKeeps(agent, s, n); }
  }

  lemma SendKeeps(agent: Agent, s: State, n: nat, data: Bytes)
    requires Inv(agent, s, n) && !s.rcvdEof
    ensures Inv(agent, s.(inbuffer := s.inbuffer + data, received := s.received + data), n)
  {
    hide Cut, Length;
    var t := s.(inbuffer := s.inbuffer + data, received := s.received + data);
    CutAppend(s.received, s.queries, s.inbuffer, data);
    if |s.inbuffer| >= 4 { CompleteGrows(s.inbuffer, data); }
    AnsweredSame(agent, s, t);
    hide Answered, Complete;
    if n == 0 { assert Wires(s.said) + [] == Wires(s.said); }
  }

  lemma EventKeeps(agent: Agent, s: State, n: nat, e: Event) returns (m: nat)
    requires Inv(agent, s, n) && Settled(s, n) && Possible(s, e)
    ensures Inv(agent, Handle(agent, s, e), m) && Settled(Handle(agent, s, e), m) && m <= n + 1
  {
    hide TryForward, Cut, Complete, Length;
    match e {
      case Send(data) =>
        SendKeeps(agent, s, n, data);
        m := TryKeeps(agent, s.(inbuffer := s.inbuffer + data, received := s.received + data), n);
      case SendEof =>
        AnsweredSame(agent, s, s.(rcvdEof := true));
        m := TryKeeps(agent, s.(rcvdEof := true), n);
      case SetInputWanted(wanted) =>
        AnsweredSame(agent, s, s.(inputWanted := wanted));
        if wanted { m := TryKeeps(agent, s.(inputWanted := wanted), n); } else { m := n; }
      case Callback(reply) =>
        RespondKeeps(agent, s, reply, n);
        m := TryKeeps(agent, Respond(s, reply), 0);
    }
  }

  /** After any possible run, however the data was cut into pieces and whichever answers were
      deferred: queries are the frames in order, at most one is unanswered, each reply is the
      agent's answer to its query, replies come back in that order, and nothing is left undone. */
  lemma {:induction false} RunKeeps(agent: Agent, events: seq<Event>) returns (n: nat)
    requires PossibleRun(agent, events)
    ensures Inv(agent, After(agent, events), n) && Settled(After(agent, events), n)
  {
    hide Handle;
    if events == [] {
      n := 0;
      assert Wires([]) + Repeat(0, [Eof]) == [];
    } else {
      var before := events[..|events| - 1];
      n := RunKeeps(agent, before);
      n := EventKeeps(agent, After(agent, before), n, events[|events| - 1]);
    }
  }

  /** What the run looked like from outside. */
  lemma QueriesAreFrames(agent: Agent, events: seq<Event>)
    requires PossibleRun(agent, events)
    ensures var s := After(agent, events);
      && s.queries <= Frames(s.received)
      && (s.inputWanted && !s.pending ==> s.queries == Frames(s.received))
      && |s.said| <= |s.queries| <= |s.said| + 1
      && (!OverLong(s.inbuffer) && Eof in s.written ==>
        s.queries == Frames(s.received) && |s.said| == |s.queries| && s.rcvdEof)
      && (s.rcvdEof && s.inputWanted && !s.pending ==> Eof in s.written)
  {
    var n := RunKeeps(agent, events);
    var s := After(agent, events);
    CutFrames(s.received, s.queries, s.inbuffer);
    if !Complete(s.inbuffer) { assert s.queries + [] == s.queries; }
    hide Cut, Frames, Complete, Length, PossibleRun, After;
    assert n == 0 ==> s.written == Wires(s.said);
    if n > 0 {
      var x := if OverLong(s.inbuffer) then [Reply(FAILURE), Eof] else [Eof];
      assert Repeat(n, x)[|Repeat(n, x)| - 1] == Eof;
      assert s.written[|s.written| - 1] == Eof;
    }
  }

  // ---------------------------------------------------------------- ends of file

  function EofCount(s: State): nat {
    multiset(s.written)[Eof]
  }

  /** Whether an event makes the channel try to forward. */
  predicate Attempts(s: State, e: Event) {
    match e
    case Send(_) => s.inputWanted && !s.pending
    case SendEof => s.inputWanted && !s.pending
    case SetInputWanted(wanted) => wanted && !s.pending
    case Callback(_) => s.inputWanted
  }

  /** What an attempt writes once the channel is closing: an end of file, and a failure before
      it if a frame is too long. */
  function Closing(s: State): seq<Output> {
    if OverLong(s.inbuffer) then [Reply(FAILURE), Eof] else [Eof]
  }

  lemma {:induction false} CountRepeat(n: nat, x: seq<Output>)
    requires multiset(x)[Eof] == 1
    ensures multiset(Repeat(n, x))[Eof] == n
  {
    if n > 0 {
      CountRepeat(n - 1, x);
      assert multiset(Repeat(n, x)) == multiset(Repeat(n - 1, x)) + multiset(x);
    }
  }

  lemma CountIs(s: State, n: nat)
    requires WellWritten(s, n)
    ensures EofCount(s) == n
  {
    var x := Closing(s);
    assert multiset(x)[Eof] == 1;
    CountRepeat(n, x);
    assert Eof !in Wires(s.said);
    assert multiset(s.written) == multiset(Wires(s.said)) + multiset(Repeat(n, x));
  }

  /** One event after an end of file was written or a frame was too long: no query is sent any
      more, and each attempt to forward writes another end of file. */
  lemma ClosedStep(agent: Agent, s: State, n: nat, e: Event)
    requires Inv(agent, s, n) && (n > 0 || OverLong(s.inbuffer)) && Possible(s, e)
    ensures var t := Handle(agent, s, e);
      && t.queries == s.queries && (OverLong(t.inbuffer) <==> OverLong(s.inbuffer))
      && t.written == s.written + (if e.Callback? then [Reply(Wire(e.reply))] else []) +
          (if Attempts(s, e) then Closing(s) else [])
  {
    hide Cut, Length;
    if e.Send? && |s.inbuffer| >= 4 { CompleteGrows(s.inbuffer, e.data); }
  }

  /** How many attempts there are in a run from the k-th event on. */
  function AttemptsFrom(agent: Agent, events: seq<Event>, k: nat): nat
    requires k <= |events|
    decreases |events| - k
  {
    if k == |events| then 0
    else AttemptsFrom(agent, events, k + 1) + if Attempts(After(agent, events[..k]), events[k]) then 1 else 0
  }

  lemma {:induction false} PrefixPossible(agent: Agent, events: seq<Event>, k: nat)
    requires PossibleRun(agent, events) && k <= |events|
    ensures PossibleRun(agent, events[..k])
    ensures k < |events| ==> Possible(After(agent, events[..k]), events[k])
    ensures k < |events| ==> After(agent, events[..k + 1]) == Handle(agent, After(agent, events[..k]), events[k])
    decreases |events|
  {
    hide Handle, Possible;
    if k < |events| {
      var front := events[..|events| - 1];
      if k < |front| {
        PrefixPossible(agent, front, k);
        assert front[..k] == events[..k] && front[..k + 1] == events[..k + 1];
      }
      assert events[..k + 1][..k] == events[..k];
      assert k + 1 == |events| ==> events[..k + 1] == events;
    } else {
      assert events[..k] == events;
    }
  }

  /** Once an end of file was written or a frame was too long, no query is sent any more, those
      sent are all the frames, and every attempt to forward writes one more end of file. */
  lemma {:induction false} ClosedRun(agent: Agent, events: seq<Event>, k: nat)
    requires PossibleRun(agent, events) && k <= |events|
    requires var s := After(agent, events[..k]); EofCount(s) > 0 || OverLong(s.inbuffer)
    ensures var s, t := After(agent, events[..k]), After(agent, events);
      t.queries == s.queries == Frames(s.received) && EofCount(t) == EofCount(s) + AttemptsFrom(agent, events, k)
    decreases |events| - k
  {
    hide Handle, Possible, Attempts, OverLong, Cut, Frames, PossibleRun, After;
    var s := After(agent, events[..k]);
    PrefixPossible(agent, events, k);
    var n := RunKeeps(agent, events[..k]);
    CountIs(s, n);
    ClosedFrames(agent, s, n);
    if k < |events| {
      var e, t := events[k], Handle(agent, s, events[k]);
      ClosedStep(agent, s, n, e);
      CountMore(s.written, if e.Callback? then [Reply(Wire(e.reply))] else [], if Attempts(s,
          e) then Closing(s) else [], t.written);
      ClosingCount(s);
      ClosedRun(agent, events, k + 1);
    } else {
      assert events[..k] == events;
    }
  }

  lemma ClosingCount(s: State)
    ensures multiset(Closing(s))[Eof] == 1
  {
  }

  lemma CountMore(a: seq<Output>, b: seq<Output>, c: seq<Output>, all: seq<Output>)
    requires all == a + b + c
    ensures multiset(all)[Eof] == multiset(a)[Eof] + multiset(b)[Eof] + multiset(c)[Eof]
  {
    assert multiset(a + b + c) == multiset(a) + multiset(b) + multiset(c);
  }

  lemma ClosedFrames(agent: Agent, s: State, n: nat)
    requires Inv(agent, s, n) && (n > 0 || OverLong(s.inbuffer))
    ensures s.queries == Frames(s.received)
  {
    hide Cut, Length;
    CutFrames(s.received, s.queries, s.inbuffer);
    assert Frames(s.inbuffer) == [];
    assert s.queries + [] == s.queries;
  }

  /** The first end of file is written once. */
  lemma FirstEof(agent: Agent, events: seq<Event>, k: nat)
    requires PossibleRun(agent, events) && k < |events|
    requires Eof !in After(agent, events[..k]).written && Eof in After(agent, events[..k + 1]).written
    ensures EofCount(After(agent, events[..k + 1])) == 1
  {
    hide Handle, Possible, After, PossibleRun, WellWritten, InOrder, Answered;
    var s := After(agent, events[..k]);
    PrefixPossible(agent, events, k);
    var n := RunKeeps(agent, events[..k]);
    CountIs(s, n);
    var m := EventKeeps(agent, s, n, events[k]);
    CountIs(After(agent, events[..k + 1]), m);
  }

  /** The end of file is written exactly once over a run if and only if nothing makes the channel
      try to forward after the event that first wrote it. */
  lemma EofOnceIff(agent: Agent, events: seq<Event>, k: nat)
    requires PossibleRun(agent, events) && k < |events|
    requires Eof !in After(agent, events[..k]).written && Eof in After(agent, events[..k + 1]).written
    ensures EofCount(After(agent, events)) == 1 <==>
      forall j :: k < j < |events| ==> !Attempts(After(agent, events[..j]), events[j])
  {
    hide After, PossibleRun, Attempts;
    FirstEof(agent, events, k);
    ClosedRun(agent, events, k + 1);
    NoAttempts(agent, events, k + 1);
  }

  lemma {:induction false} NoAttempts(agent: Agent, events: seq<Event>, k: nat)
    requires k <= |events|
    ensures AttemptsFrom(agent, events, k) == 0 <==> forall j :: k <= j < |events| ==> !Attempts(After(agent,
        events[..j]), events[j])
    decreases |events| - k
  {
    hide After, Attempts;
    if k < |events| {
      NoAttempts(agent, events, k + 1);
    }
  }

  /** If no frame is too long, these events are a notice that output is wanted again, and another
      end of file while it is: nothing can arrive and no query is outstanding. */
  lemma WhoRepeats(agent: Agent, s: State, n: nat, e: Event)
    requires Inv(agent, s, n) && n > 0 && !OverLong(s.inbuffer) && Possible(s, e)
    ensures Attempts(s, e) <==> e == SetInputWanted(true) || (e.SendEof? && s.inputWanted)
  {
  }

  /** A run in which it is written twice. */
  lemma EofRepeats(agent: Agent)
    ensures PossibleRun(agent, [SendEof, SetInputWanted(true)])
    ensures After(agent, [SendEof, SetInputWanted(true)]).written == [Eof, Eof]
  {
    var run := [SendEof, SetInputWanted(true)];
    assert run[..1] == [SendEof] && [SendEof][..0] == [];
    assert PossibleRun(agent, []) && After(agent, []) == Initial();
    assert After(agent, [SendEof]) == Initial().(rcvdEof := true, written := [Eof]);
    assert PossibleRun(agent, [SendEof]);
  }
}
