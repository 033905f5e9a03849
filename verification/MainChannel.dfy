/**
 The main session channel: the requests that set it up, the replies to them as they come
 back in order, and the end of file that may be asked for before the channel is ready.
 */
module MainChannel {
  import opened Marshal
  import C = Conf

  datatype Option<T> = None | Some(value: T)

  /** What the channel is configured to ask for, and whether the connection can start
      subsystems at all. Environment variables are the string subkeys of one option. */
  datatype Settings = Settings(session: bool, x11: bool, agent: bool, pty: bool,
                               cmd: string, subsys: bool, cmd2: string, subsys2: bool, subsystems: bool,
                               schema: C.Schema, tree: seq<C.Entry>, environmt: nat) {
    ghost predicate Valid() {
      C.Stored(schema, tree) && schema.Valid() && C.IsStrStr(schema, environmt)
    }
  }

  /** A request that wants a reply. */
  datatype Request = X11 | Agent | Pty | Env(key: Bytes,
      value: Bytes) | Subsystem(cmd: string) | Exec(cmd: string) | Shell

  /** Which request a reply was taken to answer. */
  datatype Credit = X11Reply(ok: bool) | AgentReply(ok: bool) | PtyReply(ok: bool)
                  | EnvReply(j: nat, refused: Option<Bytes>) | PrimaryReply(ok: bool) | FallbackReply(ok: bool)

  datatype Summary = AllSet | AllRefused | SomeRefused

  /** Which requests are outstanding, and the count of those for environment variables. */
  datatype Requests = Requests(x11: bool, agent: bool, pty: bool, primary: bool, fallback: bool,
                               nEnv: nat, nEnvReplies: nat, nEnvFails: nat)

  /** Readiness and the end of file, with how often the channel became ready and sent one. */
  datatype Ending = Ending(eofPending: bool, eofSent: bool, gotPty: bool, ready: bool, readied: nat, eofs: nat)

  datatype State = State(req: Requests, end: Ending, isOpen: bool, sent: seq<Request>, replies: seq<bool>,
                         credits: seq<Credit>, aborts: nat, summary: Option<Summary>)

  datatype Event = Open | Response(ok: bool) | RemoteEof(close: bool) | SpecialEof

  // ---------------------------------------------------------------- what is sent

  /** The environment requests from the n-th variable on. */
  function EnvFrom(cfg: Settings, n: nat): (r: seq<Request>)
    requires n <= |cfg.tree|
    decreases |cfg.tree| - n
  {
    var e := C.NthEntry(cfg.tree, cfg.environmt, n);
    if e.None? || n == |cfg.tree| then [] else [EnvRequest(e.value)] + EnvFrom(cfg, n + 1)
  }

  function EnvRequest(e: C.Entry): Request {
    Env(if e.key.secondary.StrKey? then e.key.secondary.s else [], if e.value.StrVal? then e.value.s else [])
  }

  /** The command that is tried first, unless the connection has no subsystems. */
  function PrimaryRequest(cfg: Settings): seq<Request> {
    if cfg.subsys then (if cfg.subsystems then [Subsystem(cfg.cmd)] else [])
    else if cfg.cmd != "" then [Exec(cfg.cmd)] else [Shell]
  }

  function FallbackRequest(cfg: Settings): seq<Request> {
    if cfg.subsys2 then (if cfg.subsystems then [Subsystem(cfg.cmd2)] else []) else [Exec(cfg.cmd2)]
  }

  function When<T>(b: bool, s: seq<T>): seq<T> {
    if b then s else []
  }

  // ---------------------------------------------------------------- one event

  function Initial(): State {
    State(Requests(false, false, false, false, false, 0, 0, 0), Ending(false, false, false, false, 0, 0), false, [],
        [], [], 0, None)
  }

  function SendEof(e: Ending): Ending {
    if !e.ready then e.(eofPending := true)
    else if !e.eofSent then e.(eofSent := true, eofs := e.eofs + 1)
    else e
  }

  /** The channel is set up; an end of file that was asked for earlier is sent now. */
  function Ready(e: Ending): Ending {
    var e1 := e.(ready := true, readied := e.readied + 1);
    if e.eofPending then SendEof(e1.(eofPending := false)) else e1
  }

  function TryFallback(cfg: Settings, s: State): State {
    s.(sent := s.sent + FallbackRequest(cfg), req := s.req.(fallback := true))
  }

  /** The requests before the command. */
  function SetUpRequests(cfg: Settings): seq<Request> {
    When(cfg.x11, [X11]) + When(cfg.agent, [Agent]) + When(cfg.pty, [Pty]) + EnvFrom(cfg, 0)
  }

  function SetUp(cfg: Settings, r: Requests): Requests {
    r.(x11 := r.x11 || cfg.x11, agent := r.agent || cfg.agent, pty := r.pty || cfg.pty, nEnv := r.nEnv +
        |EnvFrom(cfg, 0)|)
  }

  function OpenConfirmation(cfg: Settings, s: State): State {
    if cfg.session then
      var s1 := s.(isOpen := true, req := SetUp(cfg, s.req), sent := s.sent + SetUpRequests(cfg) + PrimaryRequest(cfg));
      if cfg.subsys && !cfg.subsystems then TryFallback(cfg, s1) else s1.(req := s1.req.(primary := true))
    else s.(isOpen := true, end := Ready(s.end))
  }

  function SummaryOf(fails: nat, all: nat): Summary {
    if fails == 0 then AllSet else if fails == all then AllRefused else SomeRefused
  }

  function Name(cfg: Settings, j: nat): Option<Bytes> {
    var k := C.NthStrKey(cfg.tree, cfg.environmt, j);
    if k.Some? then Some(k.value) else None
  }

  function EnvAnswered(cfg: Settings, s: State, ok: bool): State {
    var j := s.req.nEnvReplies;
    var fails := if ok then s.req.nEnvFails else s.req.nEnvFails + 1;
    s.(req := s.req.(nEnvReplies := j + 1, nEnvFails := fails),
       credits := s.credits + [EnvReply(j, if ok then None else Name(cfg, j))],
       summary := if j + 1 == s.req.nEnv then Some(SummaryOf(fails, s.req.nEnv)) else s.summary)
  }

  function PrimaryAnswered(cfg: Settings, s: State, ok: bool): State {
    var s1 := s.(req := s.req.(primary := false), credits := s.credits + [PrimaryReply(ok)]);
    if ok then s1.(end := Ready(s1.end)) else if cfg.cmd2 != "" then TryFallback(cfg,
        s1) else s1.(aborts := s.aborts + 1)
  }

  function FallbackAnswered(s: State, ok: bool): State {
    var s1 := s.(req := s.req.(fallback := false), credits := s.credits + [FallbackReply(ok)]);
    if ok then s1.(end := Ready(s1.end)) else s1.(aborts := s.aborts + 1)
  }

  function RequestResponse(cfg: Settings, s0: State, ok: bool): State {
    var s := s0.(replies := s0.replies + [ok]);
    var r := s.req;
    if r.x11 then s.(req := r.(x11 := false), credits := s.credits + [X11Reply(ok)])
    else if r.agent then s.(req := r.(agent := false), credits := s.credits + [AgentReply(ok)])
    else if r.pty then s.(req := r.(pty := false), end := s.end.(gotPty := s.end.gotPty || ok),
        credits := s.credits + [PtyReply(ok)])
    else if r.nEnvReplies < r.nEnv then EnvAnswered(cfg, s, ok)
    else if r.primary then PrimaryAnswered(cfg, s, ok)
    else if r.fallback then FallbackAnswered(s, ok)
    else s
  }

  function RemoteEnd(e: Ending, close: bool): Ending {
    if !e.eofSent && (close || e.gotPty) then e.(eofSent := true, eofs := e.eofs + 1) else e
  }

  function Handle(cfg: Settings, s: State, e: Event): State {
    match e
    case Open => OpenConfirmation(cfg, s)
    case Response(ok) => RequestResponse(cfg, s, ok)
    case RemoteEof(close) => s.(end := RemoteEnd(s.end, close))
    case SpecialEof => s.(end := SendEof(s.end))
  }

  class MainChan {
    const conf: C.Conf
    const cfg: Settings
    var req: Requests
    var end: Ending
    var sent: seq<Request>
    var credits: seq<Credit>
    var aborts: nat
    var summary: Option<Summary>
    ghost var isOpen: bool
    ghost var replies: seq<bool>

    ghost predicate Valid()
      reads this, conf
    {
      cfg.Valid() && conf.schema == cfg.schema && conf.tree == cfg.tree
    }

    ghost function View(): State
      reads this
    {
      State(req, end, isOpen, sent, replies, credits, aborts, summary)
    }

    constructor (conf: C.Conf, cfg: Settings)
      requires cfg.Valid() && conf.schema == cfg.schema && conf.tree == cfg.tree
      ensures Valid() && View() == Initial() && this.cfg == cfg && this.conf == conf
    {
      this.conf, this.cfg := conf, cfg;
      req := Requests(false, false, false, false, false, 0, 0, 0);
      end := Ending(false, false, false, false, 0, 0);
      sent, credits, aborts, summary, isOpen, replies := [], [], 0, None, false, [];
    }

    method Request(r: Request)
      modifies this`sent
      ensures sent == old(sent) + [r]
    {
      sent := sent + [r];
    }

    /** Starting a subsystem, which the connection may not be able to do. */
    method StartSubsystem(cmd: string) returns (ok: bool)
      modifies this`sent
      ensures ok == cfg.subsystems && sent == old(sent) + When(cfg.subsystems, [Subsystem(cmd)])
    {
      if cfg.subsystems {
        Request(Subsystem(cmd));
      } else {
        assert sent == sent + [];
      }
      ok := cfg.subsystems;
    }

    method MainchanOpenConfirmation()
      requires Valid()
      modifies this
      ensures Valid() && View() == Handle(cfg, old(View()), Open)
    {
      hide FallbackRequest, C.Stored, SetUp, SetUpRequests;
      isOpen := true;
      if cfg.session {
        SendSetUp();
        ghost var before := sent;
        var retryCmdNow := false;
        if cfg.subsys {
          var started := StartSubsystem(cfg.cmd);
          retryCmdNow := !started;
        } else if cfg.cmd != "" {
          Request(Exec(cfg.cmd));
        } else {
          Request(Shell);
        }
        assert sent == before + PrimaryRequest(cfg);
        if retryCmdNow {
          MainchanTryFallbackCommand();
        } else {
          req := req.(primary := true);
        }
      } else {
        MainchanReady();
      }
    }

    method SendSetUp()
      requires Valid()
      modifies this`sent, this`req
      ensures req == SetUp(cfg, old(req)) && sent == old(sent) + SetUpRequests(cfg)
    {
      hide EnvFrom;
      ghost var start := sent;
      if cfg.x11 {
        Request(X11);
        req := req.(x11 := true);
      }
      assert sent == start + When(cfg.x11, [X11]);
      ghost var a := sent;
      if cfg.agent {
        Request(Agent);
        req := req.(agent := true);
      }
      assert sent == a + When(cfg.agent, [Agent]);
      ghost var b := sent;
      if cfg.pty {
        Request(Pty);
        req := req.(pty := true);
      }
      assert sent == b + When(cfg.pty, [Pty]);
      SendEnvironment();
      assert sent == start + SetUpRequests(cfg);
    }

    method SendEnvironment()
      requires Valid()
      modifies this`sent, this`req
      ensures sent == old(sent) + EnvFrom(cfg, 0) && req == old(req).(nEnv := old(req).nEnv + |EnvFrom(cfg, 0)|)
    {
      hide C.Stored, C.NthEntry, C.NthStrKey, C.StrStrs, C.Lower, C.Upper, EnvFrom;
      ghost var n := 0;
      C.ListingsAgree(cfg.schema, cfg.tree, cfg.environmt, 0);
      NthInTree(cfg, 0);
      var entry := conf.GetStrStrs(cfg.environmt, C.None);
      while entry.Some?
        invariant Valid() && n <= |cfg.tree| && entry == C.NthEntry(cfg.tree, cfg.environmt, n)
        invariant sent + EnvFrom(cfg, n) == old(sent) + EnvFrom(cfg, 0)
        invariant req == old(req).(nEnv := req.nEnv) && req.nEnv + |EnvFrom(cfg, n)| ==
            old(req).nEnv + |EnvFrom(cfg, 0)|
        decreases |cfg.tree| - n
      {
        C.ListingsAgree(cfg.schema, cfg.tree, cfg.environmt, n);
        NthInTree(cfg, n);
        var e := entry.value;
        EnvFromOne(cfg, n, sent);
        Request(Env(e.key.secondary.s, e.value.s));
        req := req.(nEnv := req.nEnv + 1);
        entry := conf.GetStrStrs(cfg.environmt, C.Some(e.key.secondary.s));
        n := n + 1;
      }
      EnvFromNone(cfg, n);
      assert sent + [] == sent;
    }

    method MainchanTryFallbackCommand()
      modifies this`sent, this`req
      ensures View() == TryFallback(cfg, old(View()))
    {
      if cfg.subsys2 {
        var started := StartSubsystem(cfg.cmd2);
      } else {
        Request(Exec(cfg.cmd2));
      }
      req := req.(fallback := true);
    }

    /** A reply came back; it is taken for the first outstanding request. */
    method MainchanRequestResponse(success: bool)
      requires Valid()
      modifies this
      ensures Valid() && View() == Handle(cfg, old(View()), Response(success))
    {
      hide C.Stored, EnvAnswered, PrimaryAnswered, FallbackAnswered;
      replies := replies + [success];
      if req.x11 {
        req := req.(x11 := false);
        credits := credits + [X11Reply(success)];
        return;
      }
      if req.agent {
        req := req.(agent := false);
        credits := credits + [AgentReply(success)];
        return;
      }
      if req.pty {
        req := req.(pty := false);
        credits := credits + [PtyReply(success)];
        if success {
          end := end.(gotPty := true);
        }
        return;
      }
      if req.nEnvReplies < req.nEnv {
        EnvResponse(success);
        return;
      }
      if req.primary {
        PrimaryResponse(success);
        return;
      }
      if req.fallback {
        FallbackResponse(success);
        return;
      }
    }

    /** Nothing if the j-th environment variable was set, and its name if it was refused. */
    method EnvRefused(success: bool, j: nat) returns (r: Option<Bytes>)
      requires Valid()
      ensures r == if success then None else Name(cfg, j)
    {
      hide C.Stored, C.NthStrKey;
      r := None;
      if !success {
        var name := conf.GetStrNthStrKey(cfg.environmt, j);
        r := if name.Some? then Some(name.value) else None;
      }
    }

    /** What the replies come to when the last one is in. */
    method Summarise() returns (r: Option<Summary>)
      ensures r == if req.nEnvReplies == req.nEnv then Some(SummaryOf(req.nEnvFails, req.nEnv)) else summary
    {
      r := summary;
      if req.nEnvReplies == req.nEnv {
        if req.nEnvFails == 0 {
          r := Some(AllSet);
        } else if req.nEnvFails == req.nEnv {
          r := Some(AllRefused);
        } else {
          r := Some(SomeRefused);
        }
      }
    }

    method CountEnvReply(success: bool)
      modifies this`req
      ensures req == old(req.(nEnvReplies := req.nEnvReplies +
          1, nEnvFails := if success then req.nEnvFails else req.nEnvFails + 1))
    {
      req := req.(nEnvReplies := req.nEnvReplies + 1, nEnvFails := if success then req.nEnvFails
          else req.nEnvFails + 1);
    }

    method CreditReply(c: Credit)
      modifies this`credits
      ensures credits == old(credits) + [c]
    {
      credits := credits + [c];
    }

    method EnvResponse(success: bool)
      requires Valid() && req.nEnvReplies < req.nEnv
      modifies this`req, this`credits, this`summary
      ensures View() == EnvAnswered(cfg, old(View()), success)
    {
      hide Valid, Name, SummaryOf;
      var j := req.nEnvReplies;
      var refused := EnvRefused(success, j);
      CountEnvReply(success);
      CreditReply(EnvReply(j, refused));
      summary := Summarise();
    }

    method PrimaryResponse(success: bool)
      modifies this
      ensures View() == PrimaryAnswered(cfg, old(View()), success)
    {
      hide FallbackRequest, Ready;
      req := req.(primary := false);
      credits := credits + [PrimaryReply(success)];
      if success {
        MainchanReady();
      } else if cfg.cmd2 != "" {
        MainchanTryFallbackCommand();
      } else {
        aborts := aborts + 1;
      }
    }

    method FallbackResponse(success: bool)
      modifies this
      ensures View() == FallbackAnswered(old(View()), success)
    {
      hide Ready;
      req := req.(fallback := false);
      credits := credits + [FallbackReply(success)];
      if success {
        MainchanReady();
      } else {
        aborts := aborts + 1;
      }
    }

    method MainchanReady()
      modifies this`end
      ensures end == Ready(old(end))
    {
      end := end.(ready := true, readied := end.readied + 1);
      if end.eofPending {
        end := end.(eofPending := false);
        MainchanSpecialEof();
      }
    }

    method MainchanSpecialEof()
      modifies this`end
      ensures end == SendEof(old(end))
    {
      if !end.ready {
        end := end.(eofPending := true);
      } else if !end.eofSent {
        WriteEof();
        end := end.(eofSent := true);
      }
    }

    method WriteEof()
      modifies this`end
      ensures end == old(end).(eofs := old(end).eofs + 1)
    {
      end := end.(eofs := end.eofs + 1);
    }

    /** The remote side has finished sending; close is what the front end wants then. */
    method MainchanSendEof(close: bool)
      modifies this`end
      ensures View() == Handle(cfg, old(View()), RemoteEof(close))
    {
      if !end.eofSent && (close || end.gotPty) {
        WriteEof();
        end := end.(eofSent := true);
      }
    }
  }

  lemma EnvFromOne(cfg: Settings, n: nat, sent: seq<Request>)
    requires n < |cfg.tree| && C.NthEntry(cfg.tree, cfg.environmt, n).Some?
    ensures var e := C.NthEntry(cfg.tree, cfg.environmt, n).value;
      && sent + EnvFrom(cfg, n) == (sent + [EnvRequest(e)]) + EnvFrom(cfg, n + 1)
      && |EnvFrom(cfg, n)| == 1 + |EnvFrom(cfg, n + 1)|
  {
    hide C.NthEntry;
    var e := C.NthEntry(cfg.tree, cfg.environmt, n).value;
    assert sent + ([EnvRequest(e)] + EnvFrom(cfg, n + 1)) == (sent + [EnvRequest(e)]) + EnvFrom(cfg, n + 1);
  }

  lemma EnvFromNone(cfg: Settings, n: nat)
    requires n <= |cfg.tree| && C.NthEntry(cfg.tree, cfg.environmt, n).None?
    ensures EnvFrom(cfg, n) == []
  {
  }

  lemma NthInTree(cfg: Settings, n: nat)
    requires cfg.Valid() && n <= |cfg.tree|
    ensures var e := C.NthEntry(cfg.tree, cfg.environmt, n);
      e.Some? ==>
        && n < |cfg.tree| && e.value in cfg.tree && e.value.key.secondary.StrKey? && e.value.value.StrVal?
        && C.NthStrKey(cfg.tree, cfg.environmt, n) == C.Some(e.value.key.secondary.s)
  {
    hide C.Lower, C.ConfCmp;
    var i := C.Lower(cfg.tree, C.Key(cfg.environmt, C.StrKey([]))) + n;
    if C.NthEntry(cfg.tree, cfg.environmt, n).Some? {
      C.TypedAt(cfg.schema, cfg.tree, i);
    }
  }

  // ---------------------------------------------------------------- whole runs

  /** The connection confirms the opening once, replies only to requests that are waiting for a
      reply, and passes on the remote end of file only on an open channel. */
  predicate Possible(s: State, e: Event) {
    match e
    case Open => !s.isOpen
    case Response(_) => |s.replies| < |s.sent|
    case RemoteEof(_) => s.isOpen
    case SpecialEof => true
  }

  function After(cfg: Settings, run: seq<Event>): State {
    if run == [] then Initial() else Handle(cfg, After(cfg, run[..|run| - 1]), run[|run| - 1])
  }

  predicate PossibleRun(cfg: Settings, run: seq<Event>) {
    run == [] || (PossibleRun(cfg, run[..|run| - 1]) && Possible(After(cfg, run[..|run| - 1]), run[|run| - 1]))
  }

  /** The requests that the channel believes are waiting for a reply, in order. */
  function Outstanding(cfg: Settings, r: Requests): seq<Request> {
    When(r.x11, [X11]) + (When(r.agent, [Agent]) + (When(r.pty, [Pty]) + (EnvRest(cfg, r) + Commands(cfg, r))))
  }

  function EnvRest(cfg: Settings, r: Requests): seq<Request> {
    if r.nEnvReplies < r.nEnv && r.nEnvReplies <= |cfg.tree| then EnvFrom(cfg, r.nEnvReplies) else []
  }

  function Commands(cfg: Settings, r: Requests): seq<Request> {
    When(r.primary, PrimaryRequest(cfg)) + When(r.fallback, FallbackRequest(cfg))
  }

  /** A reply was taken for the very request it answers, with its outcome; and a refused
      environment variable is reported by the name that was sent. */
  predicate Answers(cfg: Settings, c: Credit, r: Request, ok: bool) {
    match c
    case X11Reply(b) => r == X11 && b == ok
    case AgentReply(b) => r == Agent && b == ok
    case PtyReply(b) => r == Pty && b == ok
    case EnvReply(j, refused) => j < |EnvFrom(cfg, 0)| && r == EnvFrom(cfg, 0)[j] && r.Env? &&
        refused == if ok then None else Some(r.key)
    case PrimaryReply(b) => [r] == PrimaryRequest(cfg) && b == ok
    case FallbackReply(b) => [r] == FallbackRequest(cfg) && b == ok
  }

  function Refusals(cs: seq<Credit>): nat {
    if cs == [] then 0
    else
      var c := cs[|cs| - 1];
      Refusals(cs[..|cs| - 1]) + if c.EnvReply? && c.refused.Some? then 1 else 0
  }

  /** Every request is either answered and credited, or known to be outstanding. */
  ghost predicate Credited(cfg: Settings, s: State) {
    && |s.credits| == |s.replies| <= |s.sent|
    && s.sent[|s.replies|..] == Outstanding(cfg, s.req)
    && forall i :: 0 <= i < |s.replies| ==> Answers(cfg, s.credits[i], s.sent[i], s.replies[i])
  }

  /** The counts of the environment replies. */
  ghost predicate Counted(cfg: Settings, s: State) {
    && s.req.nEnvReplies <= s.req.nEnv
    && (s.req.nEnv > 0 ==> s.req.nEnv == |EnvFrom(cfg, 0)|)
    && s.req.nEnvFails == Refusals(s.credits)
    && s.summary == if s.req.nEnvReplies == s.req.nEnv > 0 then Some(SummaryOf(Refusals(s.credits),
        s.req.nEnv)) else None
  }

  /** An open session waits for the primary command or the fallback, or is ready, or was given
      up; all at most once. */
  ghost predicate Staged(cfg: Settings, s: State) {
    && s.end.readied == (if s.end.ready then 1 else 0)
    && (!s.isOpen ==> s.req == Initial().req && !s.end.ready && s.aborts == 0)
    && (s.isOpen && cfg.session ==>
        (if s.req.primary then 1 else 0) + (if s.req.fallback then 1 else 0) + s.end.readied + s.aborts == 1)
    && (s.isOpen && !cfg.session ==> s.req == Initial().req && s.end.ready && s.aborts == 0)
    && (s.end.ready || s.aborts > 0 ==> Outstanding(cfg, s.req) == [])
    && (s.req.primary ==> cfg.subsystems || !cfg.subsys)
  }

  /** The end of file is sent at most once, and a request for it is kept only until the channel
      is ready. */
  ghost predicate EndsOnce(e: Ending) {
    e.eofs == (if e.eofSent then 1 else 0) && (e.eofPending ==> !e.ready)
  }

  ghost predicate Inv(cfg: Settings, s: State) {
    Credited(cfg, s) && Counted(cfg, s) && Staged(cfg, s) && EndsOnce(s.end)
  }

  lemma {:induction false} EnvFromShift(cfg: Settings, n: nat, j: nat)
    requires cfg.Valid() && n <= |cfg.tree| && j <= |EnvFrom(cfg, n)|
    ensures n + j <= |cfg.tree| && EnvFrom(cfg, n + j) == EnvFrom(cfg, n)[j..]
    decreases j
  {
    hide C.NthEntry;
    if j > 0 {
      EnvFromShift(cfg, n + 1, j - 1);
      assert EnvFrom(cfg, n)[1..] == EnvFrom(cfg, n + 1);
    } else {
      assert EnvFrom(cfg, n)[0..] == EnvFrom(cfg, n);
    }
  }

  /** The j-th variable that is sent has the name that the j-th reply is reported under. */
  lemma EnvNamed(cfg: Settings, j: nat)
    requires cfg.Valid() && j < |EnvFrom(cfg, 0)|
    ensures EnvFrom(cfg, 0)[j].Env? && Name(cfg, j) == Some(EnvFrom(cfg, 0)[j].key)
  {
    hide C.NthEntry, C.NthStrKey;
    EnvFromShift(cfg, 0, j);
    NthInTree(cfg, j);
    assert EnvFrom(cfg, j)[0] == EnvFrom(cfg, 0)[j];
  }

  lemma Credit1(cfg: Settings, s: State, t: State, c: Credit, ok: bool, head: Request)
    requires Credited(cfg, s) && t.replies == s.replies + [ok] && t.credits == s.credits + [c]
    requires Outstanding(cfg, s.req) == [head] + Outstanding(cfg, t.req)
    requires t.sent == s.sent && Answers(cfg, c, head, ok)
    ensures Credited(cfg, t)
  {
    hide Outstanding, Answers;
    var n := |s.replies|;
    assert s.sent[n] == s.sent[n..][0] == head;
    assert s.sent[n + 1..] == s.sent[n..][1..] == Outstanding(cfg, t.req);
  }

  lemma RefusalsMore(cs: seq<Credit>, c: Credit)
    ensures Refusals(cs + [c]) == Refusals(cs) + if c.EnvReply? && c.refused.Some? then 1 else 0
  {
    assert (cs + [c])[..|cs|] == cs;
  }

  lemma NothingBefore<T>(s: seq<T>)
    ensures [] + s == s
  {
  }

  lemma HeadEarly(cfg: Settings, r: Requests)
    ensures r.x11 ==> Outstanding(cfg, r) == [X11] + Outstanding(cfg, r.(x11 := false))
    ensures !r.x11 && r.agent ==> Outstanding(cfg, r) == [Agent] + Outstanding(cfg, r.(agent := false))
    ensures !r.x11 && !r.agent && r.pty ==> Outstanding(cfg, r) == [Pty] + Outstanding(cfg, r.(pty := false))
  {
    var rest := EnvRest(cfg, r) + Commands(cfg, r);
    assert forall t :: t in {r, r.(x11 := false), r.(agent := false), r.(pty := false)} ==>
      EnvRest(cfg, t) + Commands(cfg, t) == rest;
    hide EnvRest, Commands;
    NothingBefore(rest);
    NothingBefore(When(r.pty, [Pty]) + rest);
    NothingBefore(When(r.agent, [Agent]) + (When(r.pty, [Pty]) + rest));
  }

  lemma NoneEarly(cfg: Settings, r: Requests)
    requires !r.x11 && !r.agent && !r.pty
    ensures Outstanding(cfg, r) == EnvRest(cfg, r) + Commands(cfg, r)
  {
    hide EnvRest, Commands;
    NothingBefore(EnvRest(cfg, r) + Commands(cfg, r));
  }

  lemma NoneLeft(cfg: Settings, r: Requests)
    requires !r.x11 && !r.agent && !r.pty && r.nEnvReplies >= r.nEnv
    ensures Outstanding(cfg, r) == Commands(cfg, r)
  {
    NoneEarly(cfg, r);
    hide Commands;
    NothingBefore(Commands(cfg, r));
  }

  /** The replies before the environment. */
  lemma EarlyCredited(cfg: Settings, s: State, ok: bool)
    requires Credited(cfg, s) && (s.req.x11 || s.req.agent || s.req.pty)
    ensures Credited(cfg, Handle(cfg, s, Response(ok)))
  {
    HeadEarly(cfg, s.req);
    hide Outstanding, Credited, EnvFrom, EnvAnswered, PrimaryAnswered, FallbackAnswered;
    var t := Handle(cfg, s, Response(ok));
    if s.req.x11 {
      Credit1(cfg, s, t, X11Reply(ok), ok, X11);
    } else if s.req.agent {
      Credit1(cfg, s, t, AgentReply(ok), ok, Agent);
    } else {
      Credit1(cfg, s, t, PtyReply(ok), ok, Pty);
    }
  }

  lemma EarlyCounted(cfg: Settings, s: State, ok: bool)
    requires Counted(cfg, s) && (s.req.x11 || s.req.agent || s.req.pty)
    ensures Counted(cfg, Handle(cfg, s, Response(ok)))
  {
    hide EnvFrom, EnvAnswered, PrimaryAnswered, FallbackAnswered, Refusals, SummaryOf;
    RefusalsMore(s.credits, if s.req.x11 then X11Reply(ok) else if s.req.agent then AgentReply(ok) else PtyReply(ok));
  }

  lemma EarlyStaged(cfg: Settings, s: State, ok: bool)
    requires Staged(cfg, s) && EndsOnce(s.end) && s.isOpen
    requires (s.req.x11 || s.req.agent || s.req.pty) && Outstanding(cfg, s.req) != []
    ensures Staged(cfg, Handle(cfg, s, Response(ok))) && EndsOnce(Handle(cfg, s, Response(ok)).end)
  {
    hide Outstanding, EnvAnswered, PrimaryAnswered, FallbackAnswered;
  }

  lemma EarlyKeeps(cfg: Settings, s: State, ok: bool)
    requires Inv(cfg, s) && s.isOpen && (s.req.x11 || s.req.agent || s.req.pty)
    ensures Inv(cfg, Handle(cfg, s, Response(ok)))
  {
    HeadEarly(cfg, s.req);
    hide Handle, Outstanding, Credited, Counted, Staged;
    EarlyCredited(cfg, s, ok);
    EarlyCounted(cfg, s, ok);
    EarlyStaged(cfg, s, ok);
  }

  lemma HeadEnv(cfg: Settings, r: Requests)
    requires cfg.Valid() && !r.x11 && !r.agent && !r.pty && r.nEnvReplies < r.nEnv == |EnvFrom(cfg, 0)|
    ensures Outstanding(cfg, r) == [EnvFrom(cfg, 0)[r.nEnvReplies]] +
        Outstanding(cfg, r.(nEnvReplies := r.nEnvReplies + 1))
  {
    hide EnvFrom, Outstanding, Settings.Valid;
    var t, j, all := r.(nEnvReplies := r.nEnvReplies + 1), r.nEnvReplies, EnvFrom(cfg, 0);
    EnvFromShift(cfg, 0, j);
    EnvFromShift(cfg, 0, j + 1);
    NoneEarly(cfg, r);
    NoneEarly(cfg, t);
    assert Commands(cfg, t) == Commands(cfg, r);
    assert EnvRest(cfg, r) == all[j..] && EnvRest(cfg, t) == all[j + 1..];
    hide Commands, EnvRest;
    Unfold3(all, j, Commands(cfg, r));
  }

  lemma Unfold3<T>(all: seq<T>, j: nat, rest: seq<T>)
    requires j < |all|
    ensures all[j..] + rest == [all[j]] + (all[j + 1..] + rest)
  {
  }

  lemma OutstandingFails(cfg: Settings, r: Requests, n: nat)
    ensures Outstanding(cfg, r) == Outstanding(cfg, r.(nEnvFails := n))
  {
  }

  lemma EnvCredited(cfg: Settings, s: State, ok: bool)
    requires cfg.Valid() && Credited(cfg, s) && !s.req.x11 && !s.req.agent && !s.req.pty
    requires s.req.nEnvReplies < s.req.nEnv == |EnvFrom(cfg, 0)|
    ensures Credited(cfg, Handle(cfg, s, Response(ok)))
  {
    hide EnvFrom, Outstanding, Credited, Name, PrimaryAnswered, FallbackAnswered, Settings.Valid;
    var t, j := Handle(cfg, s, Response(ok)), s.req.nEnvReplies;
    HeadEnv(cfg, s.req);
    OutstandingFails(cfg, s.req.(nEnvReplies := j + 1), t.req.nEnvFails);
    EnvNamed(cfg, j);
    Credit1(cfg, s, t, EnvReply(j, if ok then None else Name(cfg, j)), ok, EnvFrom(cfg, 0)[j]);
  }

  lemma EnvCounted(cfg: Settings, s: State, ok: bool)
    requires cfg.Valid() && Counted(cfg, s) && s.req.nEnvReplies < s.req.nEnv
    ensures Counted(cfg, EnvAnswered(cfg, s, ok))
  {
    hide EnvFrom, Settings.Valid, SummaryOf, Name, Refusals;
    var j := s.req.nEnvReplies;
    EnvNamed(cfg, j);
    RefusalsMore(s.credits, EnvReply(j, if ok then None else Name(cfg, j)));
  }

  lemma EnvStaged(cfg: Settings, s: State, ok: bool)
    requires Staged(cfg, s) && s.isOpen && Outstanding(cfg, s.req) != [] && s.req.nEnvReplies < s.req.nEnv
    ensures Staged(cfg, EnvAnswered(cfg, s, ok))
  {
    hide Outstanding, SummaryOf, Name;
  }

  lemma EnvResponds(cfg: Settings, s: State, ok: bool)
    requires !s.req.x11 && !s.req.agent && !s.req.pty && s.req.nEnvReplies < s.req.nEnv
    ensures Handle(cfg, s, Response(ok)) == EnvAnswered(cfg, s.(replies := s.replies + [ok]), ok)
  {
    hide EnvAnswered, PrimaryAnswered, FallbackAnswered;
  }

  lemma EnvKeeps(cfg: Settings, s: State, ok: bool)
    requires cfg.Valid() && Inv(cfg, s) && s.isOpen && !s.req.x11
    requires !s.req.agent && !s.req.pty && s.req.nEnvReplies < s.req.nEnv
    ensures Inv(cfg, Handle(cfg, s, Response(ok)))
  {
    EnvCredited(cfg, s, ok);
    HeadEnv(cfg, s.req);
    EnvResponds(cfg, s, ok);
    hide Handle, Outstanding, Settings.Valid, Credited, EnvFrom, Refusals, SummaryOf, Name;
    EnvCounted(cfg, s.(replies := s.replies + [ok]), ok);
    EnvStaged(cfg, s.(replies := s.replies + [ok]), ok);
  }

  lemma ReadyEnds(e: Ending)
    requires EndsOnce(e) && !e.ready
    ensures EndsOnce(Ready(e)) && Ready(e).ready && Ready(e).readied == e.readied + 1
  {
  }

  /** A reply to the only request that is left credits it, whatever is decided then. */
  lemma LastCredit(cfg: Settings, s: State, t: State, c: Credit, ok: bool, head: Request)
    requires Credited(cfg, s) && Outstanding(cfg, s.req) == [head] && Answers(cfg, c, head, ok)
    requires t.replies == s.replies + [ok] && t.credits == s.credits + [c] && t.sent == s.sent + Outstanding(cfg, t.req)
    ensures Credited(cfg, t)
  {
    hide Outstanding, Answers;
    var n := |s.replies|;
    assert s.sent[n] == s.sent[n..][0] == head && |s.sent| == n + 1;
    assert t.sent[n + 1..] == Outstanding(cfg, t.req);
  }

  lemma PrimaryCredited(cfg: Settings, s: State, ok: bool)
    requires Credited(cfg, s) && s.req.primary && !s.req.fallback && (cfg.subsystems || !cfg.subsys)
    requires !s.req.x11 && !s.req.agent && !s.req.pty && s.req.nEnvReplies >= s.req.nEnv
    ensures Credited(cfg, Handle(cfg, s, Response(ok)))
  {
    var t := Handle(cfg, s, Response(ok));
    NoneLeft(cfg, s.req);
    NoneLeft(cfg, t.req);
    hide EnvFrom, Outstanding, Credited, Ready, EnvAnswered, FallbackAnswered, FallbackRequest;
    NothingBefore(FallbackRequest(cfg));
    assert s.sent + [] == s.sent;
    LastCredit(cfg, s, t, PrimaryReply(ok), ok, PrimaryRequest(cfg)[0]);
  }

  /** The counts of the environment do not change with a reply to a command. */
  lemma CommandCounted(cfg: Settings, s: State, t: State, c: Credit)
    requires Counted(cfg, s) && !c.EnvReply? && t.credits == s.credits + [c] && t.summary == s.summary
    requires t.req.nEnv == s.req.nEnv && t.req.nEnvReplies == s.req.nEnvReplies && t.req.nEnvFails == s.req.nEnvFails
    ensures Counted(cfg, t)
  {
    hide EnvFrom, Refusals, SummaryOf;
    RefusalsMore(s.credits, c);
  }

  lemma PrimaryStaged(cfg: Settings, s: State, ok: bool)
    requires cfg.session && Staged(cfg, s) && EndsOnce(s.end) && s.isOpen && s.req.primary
    requires !s.req.x11 && !s.req.agent && !s.req.pty && s.req.nEnvReplies >= s.req.nEnv
    ensures var t := PrimaryAnswered(cfg, s, ok); Staged(cfg, t) && EndsOnce(t.end)
  {
    var t := PrimaryAnswered(cfg, s, ok);
    NoneLeft(cfg, t.req);
    ReadyEnds(s.end);
    hide Outstanding, Ready, FallbackRequest, PrimaryRequest;
  }

  lemma FallbackStaged(cfg: Settings, s: State, ok: bool)
    requires cfg.session && Staged(cfg, s) && EndsOnce(s.end) && s.isOpen && s.req.fallback
    requires !s.req.x11 && !s.req.agent && !s.req.pty && s.req.nEnvReplies >= s.req.nEnv
    ensures var t := FallbackAnswered(s, ok); Staged(cfg, t) && EndsOnce(t.end)
  {
    var t := FallbackAnswered(s, ok);
    NoneLeft(cfg, t.req);
    ReadyEnds(s.end);
    hide Outstanding, Ready, FallbackRequest, PrimaryRequest;
  }

  lemma CommandResponds(cfg: Settings, s: State, ok: bool)
    requires !s.req.x11 && !s.req.agent && !s.req.pty && s.req.nEnvReplies >= s.req.nEnv
    ensures s.req.primary ==> Handle(cfg, s, Response(ok)) == PrimaryAnswered(cfg, s.(replies := s.replies + [ok]), ok)
    ensures !s.req.primary && s.req.fallback ==>
      Handle(cfg, s, Response(ok)) == FallbackAnswered(s.(replies := s.replies + [ok]), ok)
  {
    hide EnvAnswered, PrimaryAnswered, FallbackAnswered;
  }

  lemma PrimaryKeeps(cfg: Settings, s: State, ok: bool)
    requires cfg.session && Inv(cfg, s) && s.isOpen && s.req.primary
    requires !s.req.x11 && !s.req.agent && !s.req.pty && s.req.nEnvReplies >= s.req.nEnv
    ensures Inv(cfg, Handle(cfg, s, Response(ok)))
  {
    PrimaryCredited(cfg, s, ok);
    CommandResponds(cfg, s, ok);
    hide Handle, Credited, Counted, Staged, Ready, FallbackRequest;
    var s1 := s.(replies := s.replies + [ok]);
    CommandCounted(cfg, s, PrimaryAnswered(cfg, s1, ok), PrimaryReply(ok));
    StagedSame(cfg, s, s1);
    PrimaryStaged(cfg, s1, ok);
  }

  lemma StagedSame(cfg: Settings, s: State, t: State)
    requires Staged(cfg, s) && t.req == s.req && t.end == s.end && t.isOpen == s.isOpen && t.aborts == s.aborts
    ensures Staged(cfg, t)
  {
  }

  lemma FallbackCredited(cfg: Settings, s: State, ok: bool)
    requires Credited(cfg, s) && !s.req.primary && s.req.fallback && (cfg.subsystems || !cfg.subsys2)
    requires !s.req.x11 && !s.req.agent && !s.req.pty && s.req.nEnvReplies >= s.req.nEnv
    ensures Credited(cfg, Handle(cfg, s, Response(ok)))
  {
    var t := Handle(cfg, s, Response(ok));
    NoneLeft(cfg, s.req);
    NoneLeft(cfg, t.req);
    hide EnvFrom, Outstanding, Credited, Ready, EnvAnswered, PrimaryAnswered, PrimaryRequest;
    NothingBefore(FallbackRequest(cfg));
    assert s.sent + [] == s.sent;
    LastCredit(cfg, s, t, FallbackReply(ok), ok, FallbackRequest(cfg)[0]);
  }

  lemma FallbackKeeps(cfg: Settings, s: State, ok: bool)
    requires cfg.session && (cfg.subsystems || !cfg.subsys2) && Inv(cfg, s)
    requires s.isOpen && s.req.fallback && !s.req.primary
    requires !s.req.x11 && !s.req.agent && !s.req.pty && s.req.nEnvReplies >= s.req.nEnv
    ensures Inv(cfg, Handle(cfg, s, Response(ok)))
  {
    FallbackCredited(cfg, s, ok);
    CommandResponds(cfg, s, ok);
    hide Handle, Credited, Counted, Staged, Ready;
    var s1 := s.(replies := s.replies + [ok]);
    CommandCounted(cfg, s, FallbackAnswered(s1, ok), FallbackReply(ok));
    StagedSame(cfg, s, s1);
    FallbackStaged(cfg, s1, ok);
  }

  lemma Assoc6<T>(a: seq<T>, b: seq<T>, c: seq<T>, d: seq<T>, e: seq<T>, f: seq<T>)
    ensures a + b + c + d + e + f == a + (b + (c + (d + (e + f))))
  {
  }

  /** All that is sent on opening is outstanding. */
  lemma OpenOutstanding(cfg: Settings, r: Requests)
    requires r.nEnv == |EnvFrom(cfg, 0)| && r.nEnvReplies == 0
    requires r.x11 == cfg.x11 && r.agent == cfg.agent && r.pty == cfg.pty
    requires r.fallback == (cfg.subsys && !cfg.subsystems) && r.primary == !r.fallback
    ensures SetUpRequests(cfg) + PrimaryRequest(cfg) + When(r.fallback, FallbackRequest(cfg)) == Outstanding(cfg, r)
  {
    assert EnvRest(cfg, r) == EnvFrom(cfg, 0);
    assert When(r.primary, PrimaryRequest(cfg)) == PrimaryRequest(cfg);
    hide EnvFrom, EnvRest, PrimaryRequest, FallbackRequest, When;
    Assoc6(When(cfg.x11, [X11]), When(cfg.agent, [Agent]), When(cfg.pty, [Pty]), EnvFrom(cfg, 0),
        PrimaryRequest(cfg), When(r.fallback, FallbackRequest(cfg)));
  }

  lemma OpenSent(cfg: Settings, s: State)
    requires s.sent == [] && cfg.session
    ensures Handle(cfg, s, Open).sent == SetUpRequests(cfg) + PrimaryRequest(cfg) + When(cfg.subsys &&
        !cfg.subsystems, FallbackRequest(cfg))
  {
    hide SetUpRequests, PrimaryRequest, FallbackRequest, SetUp;
    NothingBefore(SetUpRequests(cfg));
    var u := SetUpRequests(cfg) + PrimaryRequest(cfg);
    assert u + [] == u;
  }

  lemma OpenCredited(cfg: Settings, s: State)
    requires Credited(cfg, s) && s.req == Initial().req && s.sent == [] && cfg.session
    ensures Credited(cfg, Handle(cfg, s, Open))
  {
    hide SetUpRequests, FallbackRequest, PrimaryRequest, Outstanding, EnvFrom, Ready;
    var t := Handle(cfg, s, Open);
    OpenOutstanding(cfg, t.req);
    OpenSent(cfg, s);
    assert t.sent[0..] == t.sent;
  }

  lemma OpenKeeps(cfg: Settings, s: State)
    requires Inv(cfg, s) && !s.isOpen && s.sent == [] && Unopened(s)
    ensures Inv(cfg, Handle(cfg, s, Open))
  {
    ReadyEnds(s.end);
    if cfg.session {
      OpenCredited(cfg, s);
      hide EnvFrom, SetUpRequests, FallbackRequest, PrimaryRequest, Ready, Credited, Outstanding;
    } else {
      hide Ready;
    }
  }

  /** Nothing happens to a channel before it is open but that an end of file is asked for. */
  predicate Unopened(s: State) {
    !s.isOpen ==> s == Initial().(end := s.end) && s.end.readied == 0 && !s.end.ready && !s.end.eofSent
  }

  lemma ResponseKeeps(cfg: Settings, s: State, ok: bool)
    requires cfg.Valid() && Inv(cfg, s) && Unopened(s) && |s.replies| < |s.sent|
    ensures Inv(cfg, Handle(cfg, s, Response(ok))) && s.isOpen
  {
    hide Settings.Valid, EnvFrom, Handle;
    assert s.isOpen;
    var r := s.req;
    assert Outstanding(cfg, r) != [];
    if r.x11 || r.agent || r.pty {
      EarlyKeeps(cfg, s, ok);
    } else if r.nEnvReplies < r.nEnv {
      EnvKeeps(cfg, s, ok);
    } else {
      NoneLeft(cfg, r);
      if r.primary { PrimaryKeeps(cfg, s, ok); } else { FallbackKeeps(cfg, s, ok); }
    }
  }

  lemma EventKeeps(cfg: Settings, s: State, e: Event)
    requires cfg.Valid() && Inv(cfg, s) && Unopened(s) && Possible(s, e)
    ensures Inv(cfg, Handle(cfg, s, e)) && Unopened(Handle(cfg, s, e))
  {
    hide Settings.Valid, EnvFrom, Credited, Counted, Outstanding, RequestResponse, OpenConfirmation;
    match e {
      case Open => OpenKeeps(cfg, s); StaysOpen(cfg, s, e);
      case Response(ok) => ResponseKeeps(cfg, s, ok); StaysOpen(cfg, s, e);
      case RemoteEof(close) => EndChanges(cfg, s, RemoteEnd(s.end, close));
      case SpecialEof => EndChanges(cfg, s, SendEof(s.end));
    }
  }

  lemma StaysOpen(cfg: Settings, s: State, e: Event)
    requires e.Open? || s.isOpen
    ensures Handle(cfg, s, e).isOpen
  {
    hide EnvFrom, PrimaryRequest, FallbackRequest, Ready;
  }

  lemma EndChanges(cfg: Settings, s: State, e: Ending)
    requires Inv(cfg, s) && EndsOnce(e) && e.ready == s.end.ready && e.readied == s.end.readied
    ensures Inv(cfg, s.(end := e))
  {
    hide Outstanding, EnvFrom, Answers, Refusals, SummaryOf;
  }

  /** After any possible run: each reply was credited to the request it answers, in the order in
      which they were sent, and the rest are outstanding; the environment replies are counted and
      named rightly; the channel became ready at most once; and at most one end of file was sent. */
  lemma {:induction false} RunKeeps(cfg: Settings, run: seq<Event>)
    requires cfg.Valid() && PossibleRun(cfg, run)
    ensures Inv(cfg, After(cfg, run)) && Unopened(After(cfg, run))
    ensures After(cfg, run).end.readied <= 1 && After(cfg, run).end.eofs <= 1
  {
    hide Settings.Valid, Handle, Credited, Counted, EnvFrom;
    if run == [] {
      InitialKeeps(cfg);
    } else {
      var before := run[..|run| - 1];
      RunKeeps(cfg, before);
      EventKeeps(cfg, After(cfg, before), run[|run| - 1]);
    }
  }

  lemma InitialKeeps(cfg: Settings)
    ensures Inv(cfg, Initial())
  {
    assert Initial().sent[0..] == [];
  }

  // ---------------------------------------------------------------- progress

  /** Whatever fallback may be tried is really sent. */
  predicate FallbackSends(cfg: Settings) {
    !cfg.session || cfg.subsystems || !cfg.subsys2 || (!cfg.subsys && cfg.cmd2 == "")
  }

  /** All requests are answered, but the channel is neither ready nor given up. */
  predicate Stuck(s: State) {
    s.isOpen && |s.replies| == |s.sent| && !s.end.ready && s.aborts == 0
  }

  /** A fallback is tried only when one is configured or the primary could not be started. */
  predicate FallbackCause(cfg: Settings, s: State) {
    s.req.fallback ==> cfg.cmd2 != "" || (cfg.subsys && !cfg.subsystems)
  }

  lemma FallbackStep(cfg: Settings, s: State, e: Event)
    requires FallbackCause(cfg, s)
    ensures FallbackCause(cfg, Handle(cfg, s, e))
  {
    hide SetUpRequests, PrimaryRequest, FallbackRequest, Ready, Name, SummaryOf, SendEof, RemoteEnd, EnvFrom;
  }

  lemma {:induction false} FallbackCaused(cfg: Settings, run: seq<Event>)
    requires PossibleRun(cfg, run)
    ensures FallbackCause(cfg, After(cfg, run))
  {
    hide Handle;
    if run != [] {
      FallbackCaused(cfg, run[..|run| - 1]);
      FallbackStep(cfg, After(cfg, run[..|run| - 1]), run[|run| - 1]);
    }
  }

  lemma NeverStuck(cfg: Settings, run: seq<Event>)
    requires cfg.Valid() && PossibleRun(cfg, run) && FallbackSends(cfg)
    ensures !Stuck(After(cfg, run))
  {
    RunKeeps(cfg, run);
    FallbackCaused(cfg, run);
    hide Settings.Valid, EnvFrom, After, Counted, PossibleRun;
  }

  lemma Refused(cfg: Settings, s: State)
    requires !FallbackSends(cfg) && s.isOpen && !s.end.ready && s.aborts == 0 && (s.req.primary ==> !cfg.subsys)
    requires s.req.x11 || s.req.agent || s.req.pty || s.req.nEnvReplies < s.req.nEnv || s.req.primary
    ensures var t := Handle(cfg, s, Response(false));
      t.isOpen && !t.end.ready && t.aborts == 0 && |t.sent| == |s.sent| && |t.replies| == |s.replies| + 1
  {
    hide EnvFrom, Name, SummaryOf;
    assert s.sent + [] == s.sent;
  }

  /** Refusing everything leads to a state where nothing can happen any more. */
  lemma {:induction false} RefuseAll(cfg: Settings, run: seq<Event>) returns (r: seq<Event>)
    requires cfg.Valid() && PossibleRun(cfg, run) && !FallbackSends(cfg)
    requires var s := After(cfg, run); s.isOpen && !s.end.ready && s.aborts == 0
    ensures PossibleRun(cfg, r) && Stuck(After(cfg, r))
    decreases |After(cfg, run).sent| - |After(cfg, run).replies|
  {
    RunKeeps(cfg, run);
    hide Settings.Valid, EnvFrom, Counted, Handle;
    var s := After(cfg, run);
    if |s.replies| == |s.sent| {
      r := run;
    } else {
      var more := run + [Response(false)];
      assert more[..|run|] == run;
      WaitsFor(cfg, s);
      Refused(cfg, s);
      r := RefuseAll(cfg, more);
    }
  }

  lemma WaitsFor(cfg: Settings, s: State)
    requires !FallbackSends(cfg) && Credited(cfg, s) && Staged(cfg, s) && |s.replies| < |s.sent|
    ensures s.req.x11 || s.req.agent || s.req.pty || s.req.nEnvReplies < s.req.nEnv || s.req.primary
    ensures s.req.primary ==> !cfg.subsys
  {
    hide EnvFrom;
    var r := s.req;
    assert Outstanding(cfg, r) != [];
    if !r.x11 && !r.agent && !r.pty && r.nEnvReplies >= r.nEnv {
      NoneLeft(cfg, r);
    }
  }

  /** The channel can get stuck exactly when a fallback may be tried that the connection cannot
      send: nobody looks whether starting a fallback subsystem succeeded. */
  lemma StuckIff(cfg: Settings)
    requires cfg.Valid()
    ensures !FallbackSends(cfg) <==> exists run :: PossibleRun(cfg, run) && Stuck(After(cfg, run))
  {
    hide Settings.Valid;
    if FallbackSends(cfg) {
      forall run | PossibleRun(cfg, run)
        ensures !Stuck(After(cfg, run))
      {
        NeverStuck(cfg, run);
      }
    } else {
      assert [Open][..0] == [] && PossibleRun(cfg, []) && After(cfg, []) == Initial();
      OpensUnready(cfg);
      var r := RefuseAll(cfg, [Open]);
    }
  }

  lemma OpensUnready(cfg: Settings)
    requires cfg.session
    ensures PossibleRun(cfg, [Open]) && var s := After(cfg, [Open]); s.isOpen && !s.end.ready && s.aborts == 0
  {
    hide EnvFrom, PrimaryRequest, FallbackRequest, SetUpRequests;
    assert [Open][..0] == [] && PossibleRun(cfg, []) && After(cfg, []) == Initial();
  }
}
