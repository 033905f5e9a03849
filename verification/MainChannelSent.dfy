/**
 What a session channel has sent, said of the requests themselves and of the stored options: which
 environment variables with which values, which other requests, and in what order.
 */
module MainChannelSent {
  import opened Marshal
  import opened MainChannel
  import C = Conf

  // ---------------------------------------------------------------- all that is sent

  /** The fallback is tried when the primary command was refused and there is one, or when the
      primary could not even be started. */
  predicate FallbackDue(cfg: Settings, s: State) {
    (cfg.subsys && !cfg.subsystems) || (cfg.cmd2 != "" && PrimaryReply(false) in s.credits)
  }

  ghost predicate SentInOrder(cfg: Settings, s: State) {
    && (s.req.primary ==> PrimaryReply(false) !in s.credits && !(cfg.subsys && !cfg.subsystems))
    && s.sent == SetUpRequests(cfg) + PrimaryRequest(cfg) + When(FallbackDue(cfg, s), FallbackRequest(cfg))
  }

  lemma OpenSends(cfg: Settings, s: State)
    requires cfg.session && s.sent == [] && s.credits == [] && !s.req.primary
    ensures SentInOrder(cfg, Handle(cfg, s, Open))
  {
    hide SetUpRequests, PrimaryRequest, FallbackRequest;
    var a := SetUpRequests(cfg) + PrimaryRequest(cfg);
    assert [] + SetUpRequests(cfg) == SetUpRequests(cfg);
    assert a + [] == a;
  }

  lemma CreditSends(cfg: Settings, s: State, t: State, c: Credit)
    requires SentInOrder(cfg, s) && t.sent == s.sent && t.credits == s.credits + [c] && c != PrimaryReply(false)
    requires t.req.primary ==> s.req.primary
    ensures SentInOrder(cfg, t)
  {
    hide SetUpRequests, PrimaryRequest, FallbackRequest, When;
    assert PrimaryReply(false) in t.credits <==> PrimaryReply(false) in s.credits;
  }

  lemma PrimarySends(cfg: Settings, s: State, ok: bool)
    requires SentInOrder(cfg, s) && s.req.primary
    ensures SentInOrder(cfg, PrimaryAnswered(cfg, s, ok))
  {
    hide SetUpRequests, PrimaryRequest, FallbackRequest, Ready;
    var a := SetUpRequests(cfg) + PrimaryRequest(cfg);
    assert a + [] == a;
    var t := PrimaryAnswered(cfg, s, ok);
    assert t.credits == s.credits + [PrimaryReply(ok)];
    assert PrimaryReply(false) in t.credits <==> !ok;
  }

  lemma ResponseSends(cfg: Settings, s: State, ok: bool)
    requires SentInOrder(cfg, s)
    ensures SentInOrder(cfg, Handle(cfg, s, Response(ok)))
  {
    hide SentInOrder, Name, SummaryOf, Ready, PrimaryAnswered;
    var r, s1, t := s.req, s.(replies := s.replies + [ok]), Handle(cfg, s, Response(ok));
    SameSends(cfg, s, s1);
    if !r.x11 && !r.agent && !r.pty && r.nEnvReplies >= r.nEnv && (r.primary || !r.fallback) {
      if r.primary { PrimarySends(cfg, s1, ok); }
    } else {
      CreditSends(cfg, s, t, t.credits[|s.credits|]);
    }
  }

  lemma SameSends(cfg: Settings, s: State, t: State)
    requires SentInOrder(cfg, s) && t == s.(replies := t.replies)
    ensures SentInOrder(cfg, t)
  {
  }

  /** In every run of a session that has been opened. */
  lemma {:induction false} RunSends(cfg: Settings, run: seq<Event>)
    requires cfg.Valid() && cfg.session && PossibleRun(cfg, run) && After(cfg, run).isOpen
    ensures SentInOrder(cfg, After(cfg, run))
  {
    hide Settings.Valid, Inv, SentInOrder, OpenConfirmation, RequestResponse;
    if run != [] {
      var before := run[..|run| - 1];
      var s := After(cfg, before);
      if run[|run| - 1].Open? {
        RunKeeps(cfg, before);
        OpenSends(cfg, s);
      } else {
        StillOpen(cfg, before, run[|run| - 1]);
        RunSends(cfg, before);
        if run[|run| - 1].Response? {
          ResponseSends(cfg, s, run[|run| - 1].ok);
        } else {
          EndSends(cfg, s, Handle(cfg, s, run[|run| - 1]));
        }
      }
    }
  }

  lemma EndSends(cfg: Settings, s: State, t: State)
    requires SentInOrder(cfg, s) && t == s.(end := t.end)
    ensures SentInOrder(cfg, t)
  {
    hide SetUpRequests, PrimaryRequest, FallbackRequest;
  }

  lemma StillOpen(cfg: Settings, before: seq<Event>, e: Event)
    requires cfg.Valid() && PossibleRun(cfg, before) && Possible(After(cfg, before), e) && !e.Open?
    requires Handle(cfg, After(cfg, before), e).isOpen
    ensures After(cfg, before).isOpen
  {
    hide Settings.Valid, Inv, Handle;
    RunKeeps(cfg, before);
    var s := After(cfg, before);
    if !s.isOpen {
      NothingSent(s);
      ClosedStays(cfg, s, e);
    }
  }

  lemma NothingSent(s: State)
    requires Unopened(s) && !s.isOpen
    ensures s.sent == [] && s.replies == []
  {
  }

  lemma ClosedStays(cfg: Settings, s: State, e: Event)
    requires !s.isOpen && !e.Open? && !e.Response?
    ensures !Handle(cfg, s, e).isOpen
  {
  }

  // ---------------------------------------------------------------- environment variables

  lemma {:induction false} EnvReaches(cfg: Settings, k: nat, n: nat)
    requires cfg.Valid() && k <= n < |cfg.tree|
    requires forall m: nat :: k <= m <= n ==> C.NthEntry(cfg.tree, cfg.environmt, m).Some?
    ensures |EnvFrom(cfg, k)| > n - k
    ensures EnvFrom(cfg, k)[n - k] == EnvRequest(C.NthEntry(cfg.tree, cfg.environmt, n).value)
    decreases n - k
  {
    hide C.NthEntry, Settings.Valid;
    if k < n {
      EnvReaches(cfg, k + 1, n);
    }
  }

  lemma EnvIs(cfg: Settings, n: nat)
    requires cfg.Valid() && n < |EnvFrom(cfg, 0)|
    ensures C.NthEntry(cfg.tree, cfg.environmt, n).Some?
    ensures EnvFrom(cfg, 0)[n] == EnvRequest(C.NthEntry(cfg.tree, cfg.environmt, n).value)
  {
    hide C.NthEntry, Settings.Valid;
    EnvFromShift(cfg, 0, n);
    assert EnvFrom(cfg, n)[0] == EnvFrom(cfg, 0)[n];
  }

  /** The stored value of an environment variable. */
  ghost predicate Variable(cfg: Settings, s: Bytes, v: Bytes) {
    var key, m := C.Key(cfg.environmt, C.StrKey(s)), C.AsMap(cfg.tree);
    key in m && m[key] == C.StrVal(v)
  }

  lemma SentIsVariable(cfg: Settings, n: nat, s: Bytes, v: Bytes)
    requires cfg.Valid() && n < |EnvFrom(cfg, 0)| && EnvFrom(cfg, 0)[n] == Env(s, v)
    ensures Variable(cfg, s, v)
  {
    hide C.NthEntry, C.AsMap, C.Lower, C.ConfCmp, C.NthStrKey, C.Stored;
    EnvIs(cfg, n);
    var i := C.Lower(cfg.tree, C.Key(cfg.environmt, C.StrKey([]))) + n;
    C.NthIs(cfg.schema, cfg.tree, cfg.environmt, n);
    C.StoredDistinct(cfg.schema, cfg.tree);
    C.StoredTyped(cfg.schema, cfg.tree, i);
    C.AsMapOne(cfg.tree, i);
  }

  lemma VariableIsSent(cfg: Settings, s: Bytes, v: Bytes)
    requires cfg.Valid() && Variable(cfg, s, v)
    ensures Env(s, v) in EnvFrom(cfg, 0)
  {
    hide C.NthEntry, C.AsMap, C.Lower, C.ConfCmp, C.NthStrKey, C.Stored, EnvFrom;
    var start := C.Lower(cfg.tree, C.Key(cfg.environmt, C.StrKey([])));
    var i := C.AsMapKey(cfg.tree, C.Key(cfg.environmt, C.StrKey(s)));
    C.StoredDistinct(cfg.schema, cfg.tree);
    C.AsMapOne(cfg.tree, i);
    C.OptionIsRun(cfg.schema, cfg.tree, cfg.environmt, i);
    forall m: nat | m <= i - start
      ensures C.NthEntry(cfg.tree, cfg.environmt, m).Some?
    {
      C.NthIs(cfg.schema, cfg.tree, cfg.environmt, m);
    }
    C.NthIs(cfg.schema, cfg.tree, cfg.environmt, i - start);
    EnvReaches(cfg, 0, i - start);
  }

  lemma EnvIncreases(cfg: Settings, m: nat, n: nat)
    requires cfg.Valid() && m < n < |EnvFrom(cfg, 0)|
    ensures EnvFrom(cfg, 0)[m].Env? && EnvFrom(cfg, 0)[n].Env?
    ensures C.Precedes(EnvFrom(cfg, 0)[m].key, EnvFrom(cfg, 0)[n].key)
  {
    hide EnvFrom, C.NthStrKey, C.Stored, C.StrCmp, C.Precedes;
    EnvNamed(cfg, m);
    EnvNamed(cfg, n);
    C.ListingIncreasing(cfg.schema, cfg.tree, cfg.environmt, m, n);
    C.StrCmpIff(EnvFrom(cfg, 0)[m].key, EnvFrom(cfg, 0)[n].key);
  }

  /** For every name and value: they are sent as an environment variable if and only if they are
      stored as one. */
  lemma EnvironmentSent(cfg: Settings, run: seq<Event>, s: Bytes, v: Bytes)
    requires cfg.Valid() && cfg.session && PossibleRun(cfg, run) && After(cfg, run).isOpen
    ensures Env(s, v) in After(cfg, run).sent <==>
      var key, m := C.Key(cfg.environmt, C.StrKey(s)), C.AsMap(cfg.tree); key in m && m[key] == C.StrVal(v)
  {
    hide EnvFrom, After, PossibleRun, Settings.Valid, C.AsMap;
    RunSends(cfg, run);
    if Env(s, v) in EnvFrom(cfg, 0) {
      var n :| 0 <= n < |EnvFrom(cfg, 0)| && EnvFrom(cfg, 0)[n] == Env(s, v);
      SentIsVariable(cfg, n, s, v);
    }
    if Variable(cfg, s, v) {
      VariableIsSent(cfg, s, v);
    }
  }

  /** The place of a request among the others. */
  function Rank(r: Request): int {
    match r
    case X11 => 0
    case Agent => 1
    case Pty => 2
    case Env(_, _) => 3
    case _ => 4
  }

  /** One request may stand before another: they are of different kinds, or both commands, or both
      environment variables in the order of their names. */
  ghost predicate Ordered(a: Request, b: Request) {
    || Rank(a) < Rank(b)
    || Rank(a) == Rank(b) == 4
    || (a.Env? && b.Env? && C.Precedes(a.key, b.key))
  }

  ghost predicate AllOrdered(rs: seq<Request>) {
    forall i, j :: 0 <= i < j < |rs| ==> Ordered(rs[i], rs[j])
  }

  lemma OrderedJoin(a: seq<Request>, b: seq<Request>)
    requires AllOrdered(a) && AllOrdered(b) && forall x, y :: x in a && y in b ==> Rank(x) < Rank(y)
    ensures AllOrdered(a + b)
  {
    hide Ordered, Rank;
    var r := a + b;
    forall i, j | 0 <= i < j < |r|
      ensures Ordered(r[i], r[j])
    {
      if i < |a| && |a| <= j {
        LowerOrdered(a[i], b[j - |a|]);
      } else if j < |a| {
        assert r[i] == a[i] && r[j] == a[j];
      } else {
        assert r[i] == b[i - |a|] && r[j] == b[j - |a|];
      }
    }
  }

  lemma LowerOrdered(a: Request, b: Request)
    requires Rank(a) < Rank(b)
    ensures Ordered(a, b)
  {
  }

  lemma EnvOrdered(cfg: Settings)
    requires cfg.Valid()
    ensures AllOrdered(EnvFrom(cfg, 0)) && forall r :: r in EnvFrom(cfg, 0) ==> r.Env?
  {
    hide EnvFrom, Settings.Valid, C.Precedes;
    var rs := EnvFrom(cfg, 0);
    forall i, j | 0 <= i < j < |rs|
      ensures Ordered(rs[i], rs[j])
    {
      EnvIncreases(cfg, i, j);
    }
    forall r | r in rs
      ensures r.Env?
    {
      var i :| 0 <= i < |rs| && rs[i] == r;
      EnvNamed(cfg, i);
    }
  }

  lemma OneOrdered(b: bool, r: Request)
    ensures AllOrdered(When(b, [r])) && forall x :: x in When(b, [r]) <==> b && x == r
  {
  }

  lemma SetUpOrdered(cfg: Settings)
    requires cfg.Valid()
    ensures AllOrdered(SetUpRequests(cfg))
    ensures forall r :: r in SetUpRequests(cfg) <==>
      (cfg.x11 && r == X11) || (cfg.agent && r == Agent) || (cfg.pty && r == Pty) || r in EnvFrom(cfg, 0)
    ensures forall r :: r in SetUpRequests(cfg) ==> Rank(r) < 4
  {
    hide EnvFrom, Settings.Valid, AllOrdered, When;
    EnvOrdered(cfg);
    var a, b, c := When(cfg.x11, [X11]), When(cfg.agent, [Agent]), When(cfg.pty, [Pty]);
    OneOrdered(cfg.x11, X11);
    OneOrdered(cfg.agent, Agent);
    OneOrdered(cfg.pty, Pty);
    OrderedJoin(a, b);
    OrderedJoin(a + b, c);
    OrderedJoin(a + b + c, EnvFrom(cfg, 0));
  }

  lemma CommandsOnly(cfg: Settings, due: bool)
    ensures forall r :: r in PrimaryRequest(cfg) + When(due, FallbackRequest(cfg)) ==> Rank(r) == 4
  {
  }

  /** Forwarding and the terminal are asked for as configured. All is in its order, the variables by
      their names, so nothing but a command can be sent twice. */
  lemma RequestsInOrder(cfg: Settings, run: seq<Event>)
    requires cfg.Valid() && cfg.session && PossibleRun(cfg, run) && After(cfg, run).isOpen
    ensures var sent := After(cfg, run).sent;
      && (X11 in sent <==> cfg.x11) && (Agent in sent <==> cfg.agent) && (Pty in sent <==> cfg.pty)
      && forall i, j :: 0 <= i < j < |sent| ==> Ordered(sent[i], sent[j])
  {
    hide EnvFrom, After, PossibleRun, Settings.Valid, Ordered, SetUpRequests, PrimaryRequest, When, FallbackDue;
    RunSends(cfg, run);
    EnvOrdered(cfg);
    SetUpOrdered(cfg);
    var due := FallbackDue(cfg, After(cfg, run));
    var commands := PrimaryRequest(cfg) + When(due, FallbackRequest(cfg));
    CommandsOnly(cfg, due);
    CommandsOrdered(commands);
    OrderedJoin(SetUpRequests(cfg), commands);
    assert After(cfg, run).sent == SetUpRequests(cfg) + commands;
  }

  lemma CommandsOrdered(rs: seq<Request>)
    requires forall r :: r in rs ==> Rank(r) == 4
    ensures AllOrdered(rs)
  {
  }

  /** After all other requests come the primary command, as a subsystem, a command or a shell, and then
      the fallback if it was due. A subsystem is left out if the connection cannot start any. */
  lemma CommandsSent(cfg: Settings, run: seq<Event>) returns (n: nat)
    requires cfg.Valid() && cfg.session && PossibleRun(cfg, run) && After(cfg, run).isOpen
    ensures var s := After(cfg, run);
      var first := if cfg.subsys then Subsystem(cfg.cmd) else if cfg.cmd == "" then Shell else Exec(cfg.cmd);
      var second := if cfg.subsys2 then Subsystem(cfg.cmd2) else Exec(cfg.cmd2);
      var due := (cfg.subsys && !cfg.subsystems) || (cfg.cmd2 != "" && PrimaryReply(false) in s.credits);
      && n <= |s.sent| && (forall i :: 0 <= i < n ==> Rank(s.sent[i]) < 4)
      && s.sent[n..] == (if first.Subsystem? && !cfg.subsystems then [] else [first]) +
           (if !due || (second.Subsystem? && !cfg.subsystems) then [] else [second])
  {
    hide EnvFrom, After, PossibleRun, Settings.Valid, SetUpRequests, AllOrdered, PrimaryRequest, FallbackRequest, Rank,
        When;
    RunSends(cfg, run);
    SetUpOrdered(cfg);
    var sent := After(cfg, run).sent;
    n := |SetUpRequests(cfg)|;
    assert forall i :: 0 <= i < n ==> sent[i] in SetUpRequests(cfg);
    assert sent[n..] == PrimaryRequest(cfg) + When(FallbackDue(cfg, After(cfg, run)), FallbackRequest(cfg));
    CommandsAre(cfg);
  }

  lemma CommandsAre(cfg: Settings)
    ensures var first := if cfg.subsys then Subsystem(cfg.cmd) else if cfg.cmd == "" then Shell else Exec(cfg.cmd);
      PrimaryRequest(cfg) == if first.Subsystem? && !cfg.subsystems then [] else [first]
    ensures var second := if cfg.subsys2 then Subsystem(cfg.cmd2) else Exec(cfg.cmd2);
      forall due :: When(due, FallbackRequest(cfg)) ==
        if !due || (second.Subsystem? && !cfg.subsystems) then [] else [second]
  {
  }
}
