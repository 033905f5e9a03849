/**
 What the replies to a session channel come to: when it is ready, when it is given up, what is
 reported of the environment variables, and when the end of file is sent.
 */
module MainChannelOutcome {
  import opened MainChannel
  import C = Conf

  // ---------------------------------------------------------------- replies

  function EnvReplies(cs: seq<Credit>): nat {
    if cs == [] then 0 else EnvReplies(cs[..|cs| - 1]) + if cs[|cs| - 1].EnvReply? then 1 else 0
  }

  /** The channel is ready once a command was accepted, or at once if it is no session; it is given
      up when a command was refused and there is no other to try. */
  ghost predicate Meant(cfg: Settings, s: State) {
    && (s.end.gotPty <==> PtyReply(true) in s.credits)
    && (s.end.ready <==>
          (!cfg.session && s.isOpen) || PrimaryReply(true) in s.credits || FallbackReply(true) in s.credits)
    && (s.aborts > 0 <==> (PrimaryReply(false) in s.credits && cfg.cmd2 == "") || FallbackReply(false) in s.credits)
    && EnvReplies(s.credits) == s.req.nEnvReplies
  }

  lemma OneMore(cs: seq<Credit>, c: Credit)
    ensures forall x :: x in cs + [c] <==> x in cs || x == c
    ensures EnvReplies(cs + [c]) == EnvReplies(cs) + if c.EnvReply? then 1 else 0
  {
    assert (cs + [c])[..|cs|] == cs;
  }

  /** Becoming ready sends an end of file that was asked for. */
  lemma ReadySends(e: Ending)
    ensures var r := Ready(e);
      r.ready && !r.eofPending && r.gotPty == e.gotPty && (r.eofSent <==> e.eofSent || e.eofPending)
  {
  }

  lemma EarlyMeant(cfg: Settings, s: State, ok: bool)
    requires Meant(cfg, s) && (s.req.x11 || s.req.agent || s.req.pty)
    ensures Meant(cfg, RequestResponse(cfg, s, ok))
  {
    hide EnvReplies, EnvAnswered, PrimaryAnswered, FallbackAnswered;
    var c := if s.req.x11 then X11Reply(ok) else if s.req.agent then AgentReply(ok) else PtyReply(ok);
    OneMore(s.credits, c);
  }

  lemma EnvMeant(cfg: Settings, s: State, ok: bool)
    requires Meant(cfg, s)
    ensures Meant(cfg, EnvAnswered(cfg, s, ok))
  {
    hide EnvReplies, Name, SummaryOf;
    var t := EnvAnswered(cfg, s, ok);
    OneMore(s.credits, t.credits[|s.credits|]);
  }

  lemma PrimaryMeant(cfg: Settings, s: State, ok: bool)
    requires Meant(cfg, s)
    ensures Meant(cfg, PrimaryAnswered(cfg, s, ok))
  {
    hide EnvReplies, FallbackRequest, Ready;
    ReadySends(s.end);
    OneMore(s.credits, PrimaryReply(ok));
  }

  lemma FallbackMeant(cfg: Settings, s: State, ok: bool)
    requires Meant(cfg, s)
    ensures Meant(cfg, FallbackAnswered(s, ok))
  {
    hide EnvReplies, Ready;
    ReadySends(s.end);
    OneMore(s.credits, FallbackReply(ok));
  }

  lemma LateMeant(cfg: Settings, s: State, ok: bool)
    requires Meant(cfg, s) && !s.req.x11 && !s.req.agent && !s.req.pty
    ensures Meant(cfg, RequestResponse(cfg, s, ok))
  {
    var s1 := s.(replies := s.replies + [ok]);
    SameMeant(cfg, s, s1);
    hide Meant, EnvAnswered, PrimaryAnswered, FallbackAnswered;
    EnvMeant(cfg, s1, ok);
    PrimaryMeant(cfg, s1, ok);
    FallbackMeant(cfg, s1, ok);
  }

  lemma SameMeant(cfg: Settings, s: State, t: State)
    requires Meant(cfg, s) && t == s.(replies := t.replies)
    ensures Meant(cfg, t)
  {
  }

  lemma OpenMeant(cfg: Settings, s: State)
    requires Meant(cfg, s) && s.credits == []
    ensures Meant(cfg, Handle(cfg, s, Open))
  {
    hide SetUpRequests, PrimaryRequest, FallbackRequest, EnvFrom, Ready;
    ReadySends(s.end);
  }

  lemma EndMeant(cfg: Settings, s: State, t: State)
    requires Meant(cfg, s) && t == s.(end := t.end) && t.end.gotPty == s.end.gotPty && t.end.ready == s.end.ready
    ensures Meant(cfg, t)
  {
  }

  /** In every run, by the replies alone. */
  lemma {:induction false} RunMeant(cfg: Settings, run: seq<Event>)
    requires cfg.Valid() && PossibleRun(cfg, run)
    ensures Meant(cfg, After(cfg, run))
  {
    hide Settings.Valid, Meant, Inv, RequestResponse, OpenConfirmation;
    if run == [] {
      InitialMeant(cfg);
    } else {
      var before, e := run[..|run| - 1], run[|run| - 1];
      var s := After(cfg, before);
      RunMeant(cfg, before);
      RunKeeps(cfg, before);
      match e {
        case Open => OpenMeant(cfg, s);
        case Response(ok) =>
          if s.req.x11 || s.req.agent || s.req.pty {
            EarlyMeant(cfg, s, ok);
          } else {
            LateMeant(cfg, s, ok);
          }
        case RemoteEof(close) => EndMeant(cfg, s, Handle(cfg, s, e));
        case SpecialEof => EndMeant(cfg, s, Handle(cfg, s, e));
      }
    }
  }

  lemma InitialMeant(cfg: Settings)
    ensures Meant(cfg, Initial())
  {
  }

  // ---------------------------------------------------------------- the summary

  ghost predicate Refused(c: Credit) {
    c.EnvReply? && c.refused.Some?
  }

  lemma {:induction false} RefusalsCount(cs: seq<Credit>)
    ensures Refusals(cs) <= EnvReplies(cs)
    ensures Refusals(cs) == 0 <==> forall c :: c in cs ==> !Refused(c)
    ensures Refusals(cs) == EnvReplies(cs) <==> forall c :: c in cs && c.EnvReply? ==> Refused(c)
  {
    if cs != [] {
      var front := cs[..|cs| - 1];
      RefusalsCount(front);
      assert forall c :: c in cs <==> c in front || c == cs[|cs| - 1];
    }
  }

  /** Once all variables were answered the summary says whether none, all or some were refused. */
  lemma SummaryIs(cfg: Settings, run: seq<Event>)
    requires cfg.Valid() && PossibleRun(cfg, run)
    ensures var s := After(cfg, run);
      && (s.summary.Some? <==> s.req.nEnv > 0 && EnvReplies(s.credits) == s.req.nEnv)
      && (s.summary == Some(AllSet) <==> s.summary.Some? && forall c :: c in s.credits ==> !Refused(c))
      && (s.summary == Some(AllRefused) <==>
            s.summary.Some? && forall c :: c in s.credits && c.EnvReply? ==> Refused(c))
  {
    hide Settings.Valid, After, PossibleRun, Credited, Staged, Refused;
    RunKeeps(cfg, run);
    RunMeant(cfg, run);
    RefusalsCount(After(cfg, run).credits);
  }

  // ---------------------------------------------------------------- the end of file

  /** The other side ended and that was to be answered: the front end asked for it, or a terminal had
      been granted. */
  ghost predicate RemoteEnded(cfg: Settings, run: seq<Event>) {
    exists i :: 0 <= i < |run| && run[i].RemoteEof? && (run[i].close || PtyReply(true) in After(cfg, run[..i]).credits)
  }

  /** The end of file has been sent just when the user asked for it and the channel is ready, or the
      other side ended when that was to be answered. Before, the user's wish is kept. */
  lemma {:induction false} EofSentIff(cfg: Settings, run: seq<Event>)
    requires cfg.Valid() && PossibleRun(cfg, run)
    ensures var e := After(cfg, run).end;
      && (e.eofSent <==> (SpecialEof in run && e.ready) || RemoteEnded(cfg, run))
      && (e.eofPending <==> SpecialEof in run && !e.ready)
  {
    hide Settings.Valid, Meant, Inv, Handle, RemoteEnded;
    if run == [] {
      NeverEnded(cfg);
    } else {
      var before, e := run[..|run| - 1], run[|run| - 1];
      EofSentIff(cfg, before);
      RunKeeps(cfg, before);
      RunMeant(cfg, before);
      assert SpecialEof in run <==> SpecialEof in before || e == SpecialEof;
      EndedMore(cfg, run);
      EofStep(cfg, After(cfg, before), e);
    }
  }

  lemma NeverEnded(cfg: Settings)
    ensures !RemoteEnded(cfg, [])
  {
  }

  lemma EndedMore(cfg: Settings, run: seq<Event>)
    requires run != []
    ensures var before, e := run[..|run| - 1], run[|run| - 1];
      RemoteEnded(cfg, run) <==>
        RemoteEnded(cfg, before) || (e.RemoteEof? && (e.close || PtyReply(true) in After(cfg, before).credits))
  {
    hide After;
    var before := run[..|run| - 1];
    assert forall i :: 0 <= i < |before| ==> before[i] == run[i] && before[..i] == run[..i];
  }

  /** One event and the end of file. */
  lemma EofStep(cfg: Settings, s: State, e: Event)
    requires Inv(cfg, s) && Meant(cfg, s)
    ensures var a, b, t := s.end, Handle(cfg, s, e).end, PtyReply(true) in s.credits;
      && (a.ready ==> b.ready)
      && (b.eofPending <==> (a.eofPending || (e == SpecialEof && !a.ready)) && !b.ready)
      && (b.eofSent <==>
            a.eofSent || (e.RemoteEof? && (e.close || t)) || (b.ready && (a.eofPending || e == SpecialEof)))
  {
    hide Credited, Counted, SetUpRequests, PrimaryRequest, FallbackRequest, EnvFrom, EnvReplies, Outstanding, Ready,
        EnvAnswered;
    ReadySends(s.end);
    EnvEnd(cfg);
  }

  lemma EnvEnd(cfg: Settings)
    ensures forall t: State, ok :: EnvAnswered(cfg, t, ok).end == t.end
  {
    hide Name, SummaryOf;
  }
}
