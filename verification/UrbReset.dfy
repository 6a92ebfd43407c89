/** What `reset_io` leaves behind, URB by URB: which of those submitted before it are answered after it. Where their
    answers go, on the same connection after a SET_CONFIGURATION or on the old one after an attach, is said in
    UrbSessions. */
module UrbReset {
  import opened UrbBooks
  import P = UrbPipe

  /** A reply to `s` among those sent since `before`. */
  ghost predicate AnsweredSince(before: Books, after: Books, s: nat) {
    exists j :: |before.wire| <= j < |after.wire| && after.wire[j] == RetSubmit(s)
  }

  lemma {:induction false} AnswerCountAppend(a: seq<Wire>, b: seq<Wire>, s: nat)
    ensures AnswerCount(a + b, s) == AnswerCount(a, s) + AnswerCount(b, s)
  {
    if b == [] {
      assert a + b == a;
    } else {
      var front, last := b[..|b| - 1], b[|b| - 1];
      assert a + b == (a + front) + [last] && b == front + [last];
      AnswerSnoc(a + front, last, s);
      AnswerSnoc(front, last, s);
      AnswerCountAppend(a, front, s);
    }
  }

  lemma {:induction false} AnswerCountIn(wire: seq<Wire>, s: nat)
    ensures AnswerCount(wire, s) > 0 <==> RetSubmit(s) in wire
  {
    if wire != [] {
      AnswerCountIn(wire[..|wire| - 1], s);
      assert wire == wire[..|wire| - 1] + [wire[|wire| - 1]];
    }
  }

  lemma AnsweredByCount(before: Books, after: Books, s: nat)
    requires before.wire <= after.wire
    ensures AnsweredSince(before, after, s) <==> AnswerCount(after.wire, s) > AnswerCount(before.wire, s)
  {
    var n := |before.wire|;
    var since := after.wire[n..];
    assert after.wire == before.wire + since;
    AnswerCountAppend(before.wire, since, s);
    AnswerCountIn(since, s);
    if RetSubmit(s) in since {
      var i :| 0 <= i < |since| && since[i] == RetSubmit(s);
      assert after.wire[n + i] == RetSubmit(s);
    }
    if AnsweredSince(before, after, s) {
      var j :| n <= j < |after.wire| && after.wire[j] == RetSubmit(s);
      assert since[j - n] == RetSubmit(s);
    }
  }

  /** Where a submitted URB stands: sent replies stay sent, an unlinked or dropped one stays so, and a
      URB that is not parked is never parked again. */
  ghost predicate Onward(b: Books, b': Books, s: nat) {
    && b.wire <= b'.wire
    && (s in b.submitted ==> s in b'.submitted)
    && (s in b.unlinked ==> s in b'.unlinked)
    && (s in b.dropped ==> s in b'.dropped)
    && (s in b.submitted && ParkedCount(b.pipes, s) == 0 ==>
          ParkedCount(b'.pipes, s) == 0 && (s in b'.dropped ==> s in b.dropped))
  }

  lemma StepOnward(b: Books, a: Action, s: nat)
    ensures Onward(b, Step(b, a), s)
  {
    hide P.Write, P.Stall, P.Submit, Count;
    if Enabled(b, a) && s in b.submitted {
      match a {
        case SubmitIn(ep, length, seqnum) => SubmitInParks(b, ep, length, seqnum, s);
        case Unlink(victim) => CancelCount(b.pipes, victim, s);
        case Write(ep, data) => PopMoves(b, a, s);
        case Halt(ep) => PopMoves(b, a, s);
        case ClearHalt(ep) => ParkedUpdate(b.pipes, ep, b.pipes[ep].(halted := false), s);
        case ResetIo =>
          FlushedParksNothing(b.pipes, s);
          ParkedIn(b.pipes, s);
        case _ =>
      }
    }
  }

  lemma SubmitInParks(b: Books, ep: nat, length: nat, seqnum: nat, s: nat)
    requires ep < |b.pipes| && Fresh(b, seqnum) && s != seqnum
    ensures ParkedCount(Step(b, SubmitIn(ep, length, seqnum)).pipes, s) == ParkedCount(b.pipes, s)
  {
    SubmitInPlaces(b, ep, length, seqnum, s);
    AnswerSnoc(b.wire, RetSubmit(seqnum), s);
  }

  /** The run up to a reset, the reset, and what follows. */
  function Session(endpoints: nat, past: seq<Action>, later: seq<Action>): Books {
    After(endpoints, past + [ResetIo] + later)
  }

  lemma AfterSnoc(endpoints: nat, run: seq<Action>, a: Action)
    ensures After(endpoints, run + [a]) == Step(After(endpoints, run), a)
  {
    assert (run + [a])[..|run|] == run;
  }

  lemma {:induction false} SessionKeeps(endpoints: nat, past: seq<Action>, later: seq<Action>, s: nat)
    requires s in After(endpoints, past).submitted
    ensures var b, b' := After(endpoints, past), Session(endpoints, past, later);
            && b.wire <= b'.wire && s in b'.submitted
            && (s in b.unlinked ==> s in b'.unlinked)
            && ParkedCount(b'.pipes, s) == 0
            && (s in b'.dropped <==> s in b.dropped || ParkedCount(b.pipes, s) > 0)
    decreases |later|
  {
    hide Step, Enabled;
    var b := After(endpoints, past);
    if later == [] {
      assert past + [ResetIo] + [] == past + [ResetIo];
      AfterSnoc(endpoints, past, ResetIo);
      ResetFacts(b, s);
    } else {
      var init, a := later[..|later| - 1], later[|later| - 1];
      SessionKeeps(endpoints, past, init, s);
      assert past + [ResetIo] + later == (past + [ResetIo] + init) + [a];
      AfterSnoc(endpoints, past + [ResetIo] + init, a);
      StepOnward(Session(endpoints, past, init), a, s);
    }
  }

  lemma ResetFacts(b: Books, s: nat)
    ensures var b' := Step(b, ResetIo);
            && b'.wire == b.wire && b'.submitted == b.submitted && b'.unlinked == b.unlinked
            && b'.pacing == b.pacing && b'.inFlight == b.inFlight
            && ParkedCount(b'.pipes, s) == 0
            && (s in b'.dropped <==> s in b.dropped || ParkedCount(b.pipes, s) > 0)
  {
    FlushedParksNothing(b.pipes, s);
    ParkedIn(b.pipes, s);
  }

  /** In the pacer or in flight at the reset, and since then neither unlinked nor still waiting there. */
  predicate HeldAcross(b: Books, b': Books, s: nat) {
    (s in b.pacing || s in b.inFlight) && s !in b'.unlinked && s !in b'.pacing && s !in b'.inFlight
  }

  /** Over every run: a URB submitted before a reset is answered after it if and only if at the reset it
      was in the pacer's queue or in flight, no unlink has taken it out since, and its callback has run. */
  lemma StaleReplies(endpoints: nat, past: seq<Action>, later: seq<Action>, s: nat)
    requires s in After(endpoints, past).submitted
    ensures AnsweredSince(After(endpoints, past), Session(endpoints, past, later), s)
       <==> HeldAcross(After(endpoints, past), Session(endpoints, past, later), s)
  {
    hide After, AnsweredSince;
    var b, b' := After(endpoints, past), Session(endpoints, past, later);
    SessionKeeps(endpoints, past, later, s);
    EveryUrbHasOneFate(endpoints, past);
    EveryUrbHasOneFate(endpoints, past + [ResetIo] + later);
    assert Places(b, s) == 1 && Places(b', s) == 1;
    CountIn(b.pacing, s);
    CountIn(b.inFlight, s);
    CountIn(b'.pacing, s);
    CountIn(b'.inFlight, s);
    AnsweredByCount(b, b', s);
  }

  /** A continuation that lets the pacer fire and the callback run, for a URB still waiting there. */
  lemma StaleReplyReachable(endpoints: nat, past: seq<Action>, s: nat) returns (later: seq<Action>)
    requires s in After(endpoints, past).submitted
    requires s in After(endpoints, past).pacing || s in After(endpoints, past).inFlight
    ensures AnsweredSince(After(endpoints, past), Session(endpoints, past, later), s)
  {
    hide After, AnsweredSince;
    var b := After(endpoints, past);
    EveryUrbHasOneFate(endpoints, past);
    assert Places(b, s) == 1;
    CountIn(b.pacing, s);
    CountIn(b.inFlight, s);
    AfterSnoc(endpoints, past, ResetIo);
    ResetFacts(b, s);
    var r := Step(b, ResetIo);
    if s in b.inFlight {
      var k :| 0 <= k < |b.inFlight| && b.inFlight[k] == s;
      later := [Callback(k)];
      assert past + [ResetIo] + later == (past + [ResetIo]) + [Callback(k)];
      AfterSnoc(endpoints, past + [ResetIo], Callback(k));
      CallbackAnswers(r, k, s);
    } else {
      var k :| 0 <= k < |b.pacing| && b.pacing[k] == s;
      var d, c := PaceDue(k), Callback(|b.inFlight|);
      later := [d, c];
      assert past + [ResetIo] + later == (past + [ResetIo] + [d]) + [c];
      AfterSnoc(endpoints, past + [ResetIo], d);
      AfterSnoc(endpoints, past + [ResetIo] + [d], c);
      CallbackAnswers(Step(r, d), |b.inFlight|, s);
    }
    AnsweredHere(b, Session(endpoints, past, later), s);
  }

  lemma CallbackAnswers(b: Books, k: nat, s: nat)
    requires k < |b.inFlight| && b.inFlight[k] == s
    ensures Step(b, Callback(k)).wire == b.wire + [RetSubmit(s)]
  {
  }

  lemma AnsweredHere(b: Books, b': Books, s: nat)
    requires b'.wire == b.wire + [RetSubmit(s)]
    ensures AnsweredSince(b, b', s)
  {
    assert b'.wire[|b.wire|] == RetSubmit(s);
  }

  /** So a reset is clean for a URB, whatever follows, exactly when neither the pacer nor a callback holds it. */
  lemma ResetIsClean(endpoints: nat, past: seq<Action>, s: nat)
    requires s in After(endpoints, past).submitted
    ensures (forall later: seq<Action> :: !AnsweredSince(After(endpoints, past), Session(endpoints, past, later), s))
       <==> s !in After(endpoints, past).pacing && s !in After(endpoints, past).inFlight
  {
    hide After, AnsweredSince, Session;
    var b := After(endpoints, past);
    if s in b.pacing || s in b.inFlight {
      var later := StaleReplyReachable(endpoints, past, s);
      assert AnsweredSince(b, Session(endpoints, past, later), s);
    } else {
      forall later: seq<Action>
        ensures !AnsweredSince(b, Session(endpoints, past, later), s)
      {
        StaleReplies(endpoints, past, later, s);
      }
    }
  }

  /** It does happen: a paced URB, the reset, and then its completion. */
  lemma StaleReplyHappens()
    ensures var b := After(1, [SubmitPaced(7)]);
            7 in b.submitted && AnsweredSince(b, Session(1, [SubmitPaced(7)], [PaceDue(0), Callback(0)]), 7)
  {
    var first := [SubmitPaced(7)];
    var b := After(1, first);
    assert first[..0] == [] && b == Step(Start(1), SubmitPaced(7));
    AfterSnoc(1, first, ResetIo);
    var r := Step(b, ResetIo);
    assert first + [ResetIo] + [PaceDue(0), Callback(0)] == (first + [ResetIo] + [PaceDue(0)]) + [Callback(0)];
    AfterSnoc(1, first + [ResetIo], PaceDue(0));
    AfterSnoc(1, first + [ResetIo] + [PaceDue(0)], Callback(0));
    assert r.pacing == [7] && r.inFlight == [] && r.wire == b.wire;
    CallbackAnswers(Step(r, PaceDue(0)), 0, 7);
    AnsweredHere(b, Session(1, first, [PaceDue(0), Callback(0)]), 7);
  }
}
