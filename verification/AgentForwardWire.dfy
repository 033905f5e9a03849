/**
 Agent forwarding seen from the wire: what was received is the queries, each behind its length, and
 what is still buffered.
 */
module AgentForwardWire {
  import opened Marshal
  import opened AgentForward

  /** Messages on the wire: four bytes of length, the highest first, and the bytes. */
  function OnWire(messages: seq<Bytes>): Bytes
    decreases messages
  {
    if messages == [] then [] else Uint32(|messages[0]|) + messages[0] + OnWire(messages[1..])
  }

  lemma Uint32Back(r: Bytes)
    requires |r| == 4
    ensures Uint32(Value32(r)) == r
  {
    Uint32Digits(r[0], r[1], r[2], r[3]);
    assert r == [r[0], r[1], r[2], r[3]];
  }

  lemma OneOnWire(message: Bytes, rest: seq<Bytes>)
    ensures OnWire([message] + rest) == Uint32(|message|) + message + OnWire(rest)
  {
    hide Uint32;
    assert ([message] + rest)[1..] == rest;
  }

  lemma CompleteIsWire(b: Bytes)
    requires Complete(b)
    ensures var message := b[4..4 + Length(b)];
      |message| <= 262140 && b == Uint32(|message|) + message + b[4 + Length(b)..]
  {
    Uint32Back(b[..4]);
    hide Uint32, Value32;
    var n := Length(b);
    assert b == b[..4] + b[4..4 + n] + b[4 + n..];
  }

  lemma {:induction false} CutIsWire(b: Bytes, frames: seq<Bytes>, rest: Bytes)
    requires Cut(b, frames, rest)
    ensures b == OnWire(frames) + rest && forall f :: f in frames ==> |f| <= 262140
    decreases frames
  {
    hide Uint32, Value32, OnWire;
    if frames == [] {
      WireOfNone(rest);
    } else {
      var tail := b[4 + Length(b)..];
      CompleteIsWire(b);
      CutIsWire(tail, frames[1..], rest);
      OneOnWire(frames[0], frames[1..]);
      assert frames == [frames[0]] + frames[1..];
      Assoc(Uint32(|frames[0]|) + frames[0], OnWire(frames[1..]), rest);
    }
  }

  lemma WireOfNone(rest: Bytes)
    ensures OnWire([]) + rest == rest
  {
  }

  /** What the client has sent in a run. */
  function ClientSent(events: seq<Event>): Bytes {
    if events == [] then []
    else
      var last := events[|events| - 1];
      ClientSent(events[..|events| - 1]) + if last.Send? then last.data else []
  }

  lemma {:induction false} ForwardReceives(agent: Agent, s: State)
    ensures Forward(agent, s).received == s.received
    decreases |s.inbuffer|
  {
    var b := s.inbuffer;
    if !OverLong(b) && Complete(b) {
      var query := b[4..4 + Length(b)];
      var asked := s.(inbuffer := b[4 + Length(b)..], queries := s.queries + [query]);
      match agent(|s.queries|, query) {
        case Deferred =>
        case Immediate(reply) => ForwardReceives(agent, Respond(asked, reply));
      }
    }
  }

  lemma {:induction false} AllReceived(agent: Agent, events: seq<Event>)
    ensures After(agent, events).received == ClientSent(events)
  {
    hide Forward;
    if events != [] {
      var before, e := events[..|events| - 1], events[|events| - 1];
      AllReceived(agent, before);
      var s := After(agent, before);
      match e {
        case Send(data) => ForwardReceives(agent, s.(inbuffer := s.inbuffer + data, received := s.received + data));
        case SendEof => ForwardReceives(agent, s.(rcvdEof := true));
        case SetInputWanted(wanted) => ForwardReceives(agent, s.(inputWanted := wanted));
        case Callback(reply) => ForwardReceives(agent, Respond(s, reply));
      }
    }
  }

  /** In every run, however its data was cut into pieces: the data sent is the queries, each of at most
      262140 bytes and behind its length, and then what is buffered. If nothing stands in the way of the
      next query, what is buffered is no complete message of that size. */
  lemma WireKept(agent: Agent, events: seq<Event>)
    requires PossibleRun(agent, events)
    ensures var s := After(agent, events);
      && ClientSent(events) == OnWire(s.queries) + s.inbuffer && (forall f :: f in s.queries ==> |f| <= 262140)
      && (s.inputWanted && !s.pending ==>
        forall message, more :: s.inbuffer == OnWire([message]) + more ==> |message| > 262140)
  {
    hide Uint32, Value32, After, PossibleRun, Answered, WellWritten, Frames, Cut, OnWire;
    AllReceived(agent, events);
    var n := RunKeeps(agent, events);
    var s := After(agent, events);
    CutIsWire(s.received, s.queries, s.inbuffer);
    if s.inputWanted && !s.pending {
      forall message, more | s.inbuffer == OnWire([message]) + more && |message| <= 262140
        ensures false
      {
        WholeMessage(message, more);
      }
    }
  }

  lemma WholeMessage(message: Bytes, more: Bytes)
    requires |message| <= 262140
    ensures Complete(OnWire([message]) + more)
  {
    Uint32Value(|message|);
    hide Uint32, Value32;
    assert OnWire([]) == [] && [message][1..] == [];
    var b := OnWire([message]) + more;
    assert b[..4] == Uint32(|message|);
  }

  /** A failure is a message of one byte, 5. */
  lemma FailureIsMessage()
    ensures FAILURE == OnWire([[5]])
  {
    Uint32Digits(0, 0, 0, 1);
    assert OnWire([]) == [] && [[5]][1..] == [];
  }

  /** While its output is not wanted, or a query is unanswered, the channel asks nothing new. */
  lemma {:induction false} HeldBack(agent: Agent, s: State, e: Event)
    requires !Handle(agent, s, e).inputWanted || (s.pending && !e.Callback?)
    ensures Handle(agent, s, e).queries == s.queries
  {
    hide Forward;
    ForwardWanted(agent, match e
      case Send(data) => s.(inbuffer := s.inbuffer + data, received := s.received + data)
      case SendEof => s.(rcvdEof := true)
      case SetInputWanted(wanted) => s.(inputWanted := wanted)
      case Callback(reply) => Respond(s, reply));
  }

  lemma {:induction false} ForwardWanted(agent: Agent, s: State)
    ensures Forward(agent, s).inputWanted == s.inputWanted
    decreases |s.inbuffer|
  {
    var b := s.inbuffer;
    if !OverLong(b) && Complete(b) {
      var query := b[4..4 + Length(b)];
      var asked := s.(inbuffer := b[4 + Length(b)..], queries := s.queries + [query]);
      match agent(|s.queries|, query) {
        case Deferred =>
        case Immediate(reply) => ForwardWanted(agent, Respond(asked, reply));
      }
    }
  }
}
