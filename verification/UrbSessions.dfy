/** Several connections to one device (usbip/protocol.py serve_connection; usbip/device.py reset_io and _standard): each
    has its own socket and its own numbering of URBs, and all share the endpoints and the pacer. Two events reset the
    device: an attach, which opens a connection, and a SET_CONFIGURATION on a connection that goes on. The books
    know a URB by its place in `names`; a completion goes out on the socket its request came from, because the
    `respond` it holds is that connection's. Connections may overlap, and their seqnums may coincide. */
module UrbSessions {
  import opened Bytes
  import opened UrbBooks
  import opened UrbReset
  import P = UrbPipe

  /** Who submitted a URB, and under which number. */
  datatype Name = Name(conn: nat, seqnum: nat)

  /** `wires[c]` is what connection c was sent. */
  datatype Desk = Desk(books: Books, names: seq<Name>, wires: seq<seq<Wire>>)

  datatype Act =
    | Attach
    | Configure(conn: nat, seqnum: nat)          // SET_CONFIGURATION
    | SendIn(conn: nat, seqnum: nat, ep: nat, length: nat)
    | SendNow(conn: nat, seqnum: nat)
    | SendPaced(conn: nat, seqnum: nat)
    | Cancel(conn: nat, victim: nat)             // CMD_UNLINK
    | Inside(action: Action)                     // the device's own threads

  predicate DeviceSide(a: Action) {
    a.Write? || a.Halt? || a.ClearHalt? || a.PaceDue? || a.Callback?
  }

  predicate Possible(d: Desk, act: Act) {
    match act
    case Attach => true
    case Inside(a) => DeviceSide(a)
    case SendIn(c, _, ep, _) => c < |d.wires| && ep < |d.books.pipes|
    case _ => act.conn < |d.wires|
  }

  // ---- an unlink compares seqnums alone ------------------------------------------------

  predicate Numbered(names: seq<Name>, id: nat, seqnum: nat) {
    id < |names| && names[id].seqnum == seqnum
  }

  function Matches(names: seq<Name>, ids: seq<nat>, seqnum: nat): seq<nat> {
    if ids == [] then []
    else (if Numbered(names, ids[0], seqnum) then [ids[0]] else []) + Matches(names, ids[1..], seqnum)
  }

  /** The URB cancel_urb's loop over the endpoints takes: the first match of the first endpoint that has one. */
  function FirstParked(names: seq<Name>, pipes: seq<P.Pipe>, seqnum: nat): seq<nat> {
    if pipes == [] then []
    else
      var here := Matches(names, P.SeqnumsOf(pipes[0].parked), seqnum);
      if here != [] then [here[0]] else FirstParked(names, pipes[1..], seqnum)
  }

  function Unlinks(ids: seq<nat>): seq<Action> {
    if ids == [] then [] else [Unlink(ids[0])] + Unlinks(ids[1..])
  }

  // ---- steps ---------------------------------------------------------------------------

  /** What an act is to the books. */
  function ActionsOf(d: Desk, act: Act): seq<Action> {
    var id := |d.names|;
    if !Possible(d, act) then [] else
    match act
    case Attach => [ResetIo]
    case Configure(_, _) => [ResetIo, SubmitNow(id)]
    case SendIn(_, _, ep, length) => [SubmitIn(ep, length, id)]
    case SendNow(_, _) => [SubmitNow(id)]
    case SendPaced(_, _) => [SubmitPaced(id)]
    case Cancel(_, victim) =>
      Unlinks(Matches(d.names, d.books.pacing, victim) + FirstParked(d.names, d.books.pipes, victim))
    case Inside(a) => [a]
  }

  function NamesOf(d: Desk, act: Act): seq<Name> {
    if Possible(d, act) && (act.Configure? || act.SendIn? || act.SendNow? || act.SendPaced?) then
      [Name(act.conn, act.seqnum)]
    else []
  }

  function DoAll(b: Books, actions: seq<Action>): Books {
    if actions == [] then b else Step(DoAll(b, actions[..|actions| - 1]), actions[|actions| - 1])
  }

  /** Each new reply through the `respond` of its URB's connection. */
  function Deliver(wires: seq<seq<Wire>>, names: seq<Name>, log: seq<Wire>): (r: seq<seq<Wire>>)
    ensures |r| == |wires|
    decreases |log|
  {
    if log == [] then wires
    else
      var sent, last := Deliver(wires, names, log[..|log| - 1]), log[|log| - 1];
      if last.RetSubmit? && last.seqnum < |names| && names[last.seqnum].conn < |wires| then
        var n := names[last.seqnum];
        sent[n.conn := sent[n.conn] + [RetSubmit(n.seqnum)]]
      else sent
  }

  function Since(before: seq<Wire>, after: seq<Wire>): seq<Wire> {
    if |before| <= |after| then after[|before|..] else []
  }

  function Perform(d: Desk, act: Act): Desk {
    var books := DoAll(d.books, ActionsOf(d, act));
    var names := d.names + NamesOf(d, act);
    var wires := Deliver(d.wires, names, Since(d.books.wire, books.wire));
    Desk(books, names,
         if act.Attach? then wires + [[]]
         else if act.Cancel? && act.conn < |wires| then wires[act.conn := wires[act.conn] + [RetUnlink(act.victim)]]
         else wires)
  }

  function RunActs(endpoints: nat, acts: seq<Act>): Desk {
    if acts == [] then Desk(Start(endpoints), [], [])
    else Perform(RunActs(endpoints, acts[..|acts| - 1]), acts[|acts| - 1])
  }

  /** The same run as the books see it. */
  function Flat(endpoints: nat, acts: seq<Act>): seq<Action> {
    if acts == [] then []
    else
      Flat(endpoints, acts[..|acts| - 1])
      + ActionsOf(RunActs(endpoints, acts[..|acts| - 1]), acts[|acts| - 1])
  }

  lemma {:induction false} AfterAppend(endpoints: nat, run: seq<Action>, actions: seq<Action>)
    ensures After(endpoints, run + actions) == DoAll(After(endpoints, run), actions)
  {
    hide Step;
    if actions == [] {
      assert run + [] == run;
    } else {
      var front, last := actions[..|actions| - 1], actions[|actions| - 1];
      AfterAppend(endpoints, run, front);
      AfterSnoc(endpoints, run + front, last);
      assert run + actions == (run + front) + [last];
    }
  }

  /** Every theorem about B.After is about the books of a run over any connections. */
  lemma {:induction false} BooksFollow(endpoints: nat, acts: seq<Act>)
    ensures RunActs(endpoints, acts).books == After(endpoints, Flat(endpoints, acts))
  {
    hide Step, ActionsOf, Deliver, NamesOf;
    if acts != [] {
      var init := acts[..|acts| - 1];
      BooksFollow(endpoints, init);
      AfterAppend(endpoints, Flat(endpoints, init), ActionsOf(RunActs(endpoints, init), acts[|acts| - 1]));
    }
  }

  // ---- what every run keeps --------------------------------------------------------------

  /** The books' URBs are exactly the named ones, and every one's connection is open. */
  ghost predicate WellNamed(endpoints: nat, d: Desk) {
    && |d.books.pipes| == endpoints
    && (forall id: nat :: id in d.books.submitted <==> id < |d.names|)
    && (forall id: nat :: RetUnlink(id) in d.books.wire ==> id < |d.names|)
    && (forall i :: 0 <= i < |d.names| ==> d.names[i].conn < |d.wires|)
  }

  lemma {:induction false} MatchesAreNamed(names: seq<Name>, ids: seq<nat>, seqnum: nat)
    ensures forall id :: id in Matches(names, ids, seqnum) <==> id in ids && Numbered(names, id, seqnum)
  {
    if ids != [] {
      MatchesAreNamed(names, ids[1..], seqnum);
      assert ids == [ids[0]] + ids[1..];
    }
  }

  lemma {:induction false} FirstIsNamed(names: seq<Name>, pipes: seq<P.Pipe>, seqnum: nat)
    ensures forall id :: id in FirstParked(names, pipes, seqnum) ==> Numbered(names, id, seqnum)
  {
    if pipes != [] {
      MatchesAreNamed(names, P.SeqnumsOf(pipes[0].parked), seqnum);
      FirstIsNamed(names, pipes[1..], seqnum);
    }
  }

  lemma {:induction false} UnlinksAre(ids: seq<nat>)
    ensures |Unlinks(ids)| == |ids|
    ensures forall i :: 0 <= i < |ids| ==> Unlinks(ids)[i] == Unlink(ids[i])
  {
    if ids != [] {
      UnlinksAre(ids[1..]);
    }
  }

  /** Unlinks add acknowledgements to the books' log, nothing else, and submit nothing. */
  lemma {:induction false} UnlinksKeep(b: Books, ids: seq<nat>)
    ensures var b' := DoAll(b, Unlinks(ids));
            && b.wire <= b'.wire && b'.submitted == b.submitted && |b'.pipes| == |b.pipes|
            && (forall w :: w in Since(b.wire, b'.wire) ==> w.RetUnlink? && w.victim in ids)
    decreases |ids|
  {
    UnlinksAre(ids);
    if ids != [] {
      var front, last := ids[..|ids| - 1], ids[|ids| - 1];
      UnlinksAre(front);
      assert Unlinks(ids)[..|ids| - 1] == Unlinks(front);
      UnlinksKeep(b, front);
      var b1 := DoAll(b, Unlinks(front));
      assert DoAll(b, Unlinks(ids)) == Step(b1, Unlink(last));
      assert Since(b.wire, b1.wire + [RetUnlink(last)]) == Since(b.wire, b1.wire) + [RetUnlink(last)];
    }
  }

  /** What the books make of one act, as far as URBs and the log are concerned. */
  ghost predicate Grows(b: Books, b': Books, act: Act, id: nat, named: bool) {
    && b.wire <= b'.wire && |b'.pipes| == |b.pipes|
    && b'.submitted == b.submitted + (if named then {id} else {})
    && (forall x: nat :: RetUnlink(x) in b'.wire ==> RetUnlink(x) in b.wire || (act.Cancel? && x < id))
  }

  lemma ResetGrows(b: Books)
    ensures Grows(b, Step(b, ResetIo), Attach, 0, false)
  {
  }

  lemma InsideGrows(b: Books, a: Action, act: Act)
    requires DeviceSide(a)
    ensures Grows(b, Step(b, a), act, 0, false)
  {
    hide P.Write, P.Stall;
  }

  lemma SubmitGrows(b: Books, a: Action, act: Act, id: nat)
    requires a == SubmitNow(id) || a == SubmitPaced(id) || (a.SubmitIn? && a.seqnum == id)
    requires Enabled(b, a)
    ensures Grows(b, Step(b, a), act, id, true)
  {
    hide P.Submit;
  }

  lemma CancelGrows(d: Desk, c: nat, victim: nat)
    requires c < |d.wires|
    ensures Grows(d.books, DoAll(d.books, ActionsOf(d, Cancel(c, victim))), Cancel(c, victim), |d.names|, false)
  {
    hide DoAll;
    var ids := Matches(d.names, d.books.pacing, victim) + FirstParked(d.names, d.books.pipes, victim);
    MatchesAreNamed(d.names, d.books.pacing, victim);
    FirstIsNamed(d.names, d.books.pipes, victim);
    UnlinksKeep(d.books, ids);
    var b' := DoAll(d.books, Unlinks(ids));
    forall x: nat | RetUnlink(x) in b'.wire
      ensures RetUnlink(x) in d.books.wire || x < |d.names|
    {
      assert b'.wire == d.books.wire + Since(d.books.wire, b'.wire);
    }
  }

  lemma DoOne(b: Books, a: Action)
    ensures DoAll(b, [a]) == Step(b, a)
  {
    assert [a][..0] == [] && DoAll(b, []) == b;
  }

  lemma DoTwo(b: Books, a: Action, a2: Action)
    ensures DoAll(b, [a, a2]) == Step(Step(b, a), a2)
  {
    assert [a, a2][..1] == [a];
    DoOne(b, a);
  }

  lemma ActGrows(endpoints: nat, d: Desk, act: Act)
    requires WellNamed(endpoints, d)
    ensures Grows(d.books, DoAll(d.books, ActionsOf(d, act)), act, |d.names|, NamesOf(d, act) != [])
  {
    hide Step, DoAll;
    var b, id := d.books, |d.names|;
    if !Possible(d, act) {
      assert DoAll(b, []) == b by {
        NothingDone(b);
      }
    } else {
      assert id !in b.submitted && RetUnlink(id) !in b.wire;
      match act {
        case Attach =>
          DoOne(b, ResetIo);
          ResetGrows(b);
        case Configure(_, _) =>
          DoTwo(b, ResetIo, SubmitNow(id));
          ResetGrows(b);
          SubmitGrows(Step(b, ResetIo), SubmitNow(id), act, id);
        case SendIn(_, _, ep, length) =>
          DoOne(b, SubmitIn(ep, length, id));
          SubmitGrows(b, SubmitIn(ep, length, id), act, id);
        case SendNow(_, _) =>
          DoOne(b, SubmitNow(id));
          SubmitGrows(b, SubmitNow(id), act, id);
        case SendPaced(_, _) =>
          DoOne(b, SubmitPaced(id));
          SubmitGrows(b, SubmitPaced(id), act, id);
        case Cancel(c, victim) => CancelGrows(d, c, victim);
        case Inside(a) =>
          DoOne(b, a);
          InsideGrows(b, a, act);
      }
    }
  }

  lemma NothingDone(b: Books)
    ensures DoAll(b, []) == b
  {
  }

  lemma StaysNamed(endpoints: nat, d: Desk, act: Act)
    requires WellNamed(endpoints, d)
    ensures WellNamed(endpoints, Perform(d, act))
  {
    hide DoAll, ActionsOf, Deliver;
    ActGrows(endpoints, d, act);
  }

  // ---- what each connection is sent --------------------------------------------------------

  /** The URBs of connection `c` answered in a stretch of the books' log, in order. */
  function Own(log: seq<Wire>, names: seq<Name>, c: nat): (r: seq<nat>)
    ensures forall i :: 0 <= i < |r| ==> r[i] < |names| && names[r[i]].conn == c && RetSubmit(r[i]) in log
  {
    if log == [] then []
    else
      var last := log[|log| - 1];
      assert log == log[..|log| - 1] + [last];
      Own(log[..|log| - 1], names, c)
      + (if last.RetSubmit? && last.seqnum < |names| && names[last.seqnum].conn == c then [last.seqnum] else [])
  }

  /** Their seqnums. */
  function NumbersOf(names: seq<Name>, ids: seq<nat>): (r: seq<nat>)
    ensures |r| == |ids|
    ensures forall i :: 0 <= i < |ids| ==> r[i] == if ids[i] < |names| then names[ids[i]].seqnum else 0
  {
    seq(|ids|, i requires 0 <= i < |ids| => if ids[i] < |names| then names[ids[i]].seqnum else 0)
  }

  /** The RET_SUBMITs among what a connection was sent, by seqnum. */
  function Replies(wire: seq<Wire>): seq<nat> {
    if wire == [] then []
    else Replies(wire[..|wire| - 1]) + (if wire[|wire| - 1].RetSubmit? then [wire[|wire| - 1].seqnum] else [])
  }

  lemma RepliesSnoc(wire: seq<Wire>, w: Wire)
    ensures Replies(wire + [w]) == Replies(wire) + (if w.RetSubmit? then [w.seqnum] else [])
  {
    assert (wire + [w])[..|wire|] == wire;
  }

  lemma {:induction false} OwnAppend(a: seq<Wire>, b: seq<Wire>, names: seq<Name>, c: nat)
    ensures Own(a + b, names, c) == Own(a, names, c) + Own(b, names, c)
  {
    if b == [] {
      assert a + b == a;
    } else {
      OwnAppend(a, b[..|b| - 1], names, c);
      assert (a + b)[..|a + b| - 1] == a + b[..|b| - 1];
    }
  }

  lemma {:induction false} OwnStable(log: seq<Wire>, names: seq<Name>, more: seq<Name>, c: nat)
    requires forall id: nat :: RetSubmit(id) in log ==> id < |names|
    ensures Own(log, names + more, c) == Own(log, names, c)
  {
    if log != [] {
      var init, last := log[..|log| - 1], log[|log| - 1];
      assert log == init + [last];
      OwnStable(init, names, more, c);
    }
  }

  lemma OwnSnoc(init: seq<Wire>, last: Wire, names: seq<Name>, c: nat)
    ensures Own(init + [last], names, c) == Own(init, names, c)
      + (if last.RetSubmit? && last.seqnum < |names| && names[last.seqnum].conn == c then [last.seqnum] else [])
  {
    assert (init + [last])[..|init|] == init;
  }

  lemma {:induction false} DeliverIs(wires: seq<seq<Wire>>, names: seq<Name>, log: seq<Wire>, c: nat)
    requires c < |wires| && forall i :: 0 <= i < |names| ==> names[i].conn < |wires|
    ensures Replies(Deliver(wires, names, log)[c]) == Replies(wires[c]) + NumbersOf(names, Own(log, names, c))
    decreases |log|
  {
    hide Own, Replies, NumbersOf;
    if log == [] {
      NobodyYet(log, names, c);
      assert Replies(wires[c]) + [] == Replies(wires[c]);
    } else {
      var init, last := log[..|log| - 1], log[|log| - 1];
      DeliverIs(wires, names, init, c);
      assert log == init + [last];
      OwnSnoc(init, last, names, c);
      var sent := Deliver(wires, names, init);
      if last.RetSubmit? && last.seqnum < |names| && names[last.seqnum].conn == c {
        RepliesSnoc(sent[c], RetSubmit(names[last.seqnum].seqnum));
        var old_ := Own(init, names, c);
        assert NumbersOf(names, old_ + [last.seqnum]) == NumbersOf(names, old_) + [names[last.seqnum].seqnum];
        Assoc(Replies(wires[c]), NumbersOf(names, old_), [names[last.seqnum].seqnum]);
      } else {
        assert Own(init, names, c) + [] == Own(init, names, c);
      }
    }
  }

  predicate NoneTwice(ids: seq<nat>) {
    forall i, j :: 0 <= i < j < |ids| ==> ids[i] != ids[j]
  }

  lemma {:induction false} OwnOnce(log: seq<Wire>, names: seq<Name>, c: nat)
    requires forall s: nat :: AnswerCount(log, s) <= 1
    ensures NoneTwice(Own(log, names, c))
  {
    if log != [] {
      var init, last := log[..|log| - 1], log[|log| - 1];
      forall s: nat
        ensures AnswerCount(init, s) <= 1
        ensures last == RetSubmit(s) ==> RetSubmit(s) !in init
      {
        assert log == init + [last];
        AnswerSnoc(init, last, s);
        AnswerCountIn(init, s);
        assert AnswerCount(log, s) <= 1;
      }
      OwnOnce(init, names, c);
    }
  }

  ghost predicate Home(d: Desk) {
    forall c :: 0 <= c < |d.wires| ==> Replies(d.wires[c]) == NumbersOf(d.names, Own(d.books.wire, d.names, c))
  }

  lemma AnsweredAreNamed(endpoints: nat, d: Desk)
    requires WellNamed(endpoints, d) && OneFateEach(d.books)
    ensures forall id: nat :: RetSubmit(id) in d.books.wire ==> id < |d.names|
  {
    forall id: nat | RetSubmit(id) in d.books.wire
      ensures id < |d.names|
    {
      AnswerCountIn(d.books.wire, id);
      assert Places(d.books, id) > 0;
    }
  }

  lemma StaysHome(endpoints: nat, d: Desk, act: Act)
    requires WellNamed(endpoints, d) && OneFateEach(d.books) && Home(d)
    requires OneFateEach(Perform(d, act).books)
    ensures Home(Perform(d, act))
  {
    hide DoAll, ActionsOf, OneFateEach, Own, NumbersOf, Replies, Deliver;
    var d' := Perform(d, act);
    StaysNamed(endpoints, d, act);
    ActGrows(endpoints, d, act);
    AnsweredAreNamed(endpoints, d);
    var log, news := d.books.wire, Since(d.books.wire, d'.books.wire);
    assert d'.books.wire == log + news;
    forall c | 0 <= c < |d'.wires|
      ensures Replies(d'.wires[c]) == NumbersOf(d'.names, Own(d'.books.wire, d'.names, c))
    {
      OwnAppend(log, news, d'.names, c);
      OwnStable(log, d.names, NamesOf(d, act), c);
      if c == |d.wires| {
        assert act == Attach && d'.names == d.names;
        NobodyYet(d'.books.wire, d'.names, c);
      } else {
        OneStaysHome(d, act, d'.names, news, c);
      }
    }
  }

  lemma {:induction false} NobodyYet(log: seq<Wire>, names: seq<Name>, c: nat)
    requires log == [] || forall i :: 0 <= i < |names| ==> names[i].conn != c
    ensures Own(log, names, c) == [] && NumbersOf(names, []) == Replies([]) == []
  {
    if log != [] {
      NobodyYet(log[..|log| - 1], names, c);
    }
  }

  lemma OneStaysHome(d: Desk, act: Act, names: seq<Name>, news: seq<Wire>, c: nat)
    requires c < |d.wires| && Home(d) && names == d.names + NamesOf(d, act)
    requires forall i :: 0 <= i < |names| ==> names[i].conn < |d.wires|
    requires news == Since(d.books.wire, Perform(d, act).books.wire)
    requires Own(d.books.wire, names, c) == Own(d.books.wire, d.names, c)
    ensures Replies(Perform(d, act).wires[c])
         == NumbersOf(names, Own(d.books.wire, names, c) + Own(news, names, c))
  {
    hide DoAll, ActionsOf, Own, Replies, Deliver;
    DeliverIs(d.wires, names, news, c);
    var wires, old_, new_ := Deliver(d.wires, names, news), Own(d.books.wire, d.names, c), Own(news, names, c);
    assert NumbersOf(names, old_ + new_) == NumbersOf(d.names, old_) + NumbersOf(names, new_);
    if act.Cancel? && act.conn == c {
      RepliesSnoc(wires[c], RetUnlink(act.victim));
      assert Replies(wires[c]) + [] == Replies(wires[c]);
    }
  }

  /**
   * Over every run of any number of connections, overlapping or not: what a connection is sent is the reply to
   * each of its own URBs that has been answered, in the order of the answers, once each, and never the reply to
   * another connection's.
   */
  lemma {:induction false} RepliesGoHome(endpoints: nat, acts: seq<Act>)
    ensures var d := RunActs(endpoints, acts);
            && WellNamed(endpoints, d) && OneFateEach(d.books)
            && forall c :: 0 <= c < |d.wires| ==>
                 && Replies(d.wires[c]) == NumbersOf(d.names, Own(d.books.wire, d.names, c))
                 && NoneTwice(Own(d.books.wire, d.names, c))
  {
    hide Perform, OneFateEach, Own, NumbersOf, Replies, NoneTwice;
    var d := RunActs(endpoints, acts);
    BooksFollow(endpoints, acts);
    EveryUrbHasOneFate(endpoints, Flat(endpoints, acts));
    forall c | 0 <= c < |d.wires|
      ensures NoneTwice(Own(d.books.wire, d.names, c))
    {
      OwnOnce(d.books.wire, d.names, c);
    }
    if acts == [] {
      assert |Start(endpoints).pipes| == endpoints;
    } else {
      var init, act := acts[..|acts| - 1], acts[|acts| - 1];
      RepliesGoHome(endpoints, init);
      BooksFollow(endpoints, init);
      assert Home(RunActs(endpoints, init));
      StaysNamed(endpoints, RunActs(endpoints, init), act);
      StaysHome(endpoints, RunActs(endpoints, init), act);
    }
  }

  // ---- the two resets ------------------------------------------------------------------------

  /** The URB has been answered, on connection `c`. */
  ghost predicate ReplyOn(d: Desk, c: nat, id: nat) {
    id in Own(d.books.wire, d.names, c)
  }

  lemma {:induction false} OwnHas(log: seq<Wire>, names: seq<Name>, c: nat, id: nat)
    ensures id in Own(log, names, c) <==> RetSubmit(id) in log && id < |names| && names[id].conn == c
  {
    if log != [] {
      var init, last := log[..|log| - 1], log[|log| - 1];
      assert log == init + [last];
      OwnHas(init, names, c, id);
    }
  }

  lemma PerformGrows(d: Desk, act: Act)
    ensures d.names <= Perform(d, act).names && |Perform(d, act).wires| == |d.wires| + (if act.Attach? then 1 else 0)
  {
    hide DoAll, ActionsOf;
  }

  lemma {:induction false} FlatLater(endpoints: nat, past: seq<Act>, later: seq<Act>) returns (rest: seq<Action>)
    ensures Flat(endpoints, past + later) == Flat(endpoints, past) + rest
    ensures var d, d' := RunActs(endpoints, past), RunActs(endpoints, past + later);
            d.names <= d'.names && |d.wires| <= |d'.wires|
  {
    hide ActionsOf, Perform;
    if later == [] {
      assert past + later == past;
      rest := [];
    } else {
      var init, last := later[..|later| - 1], later[|later| - 1];
      rest := FlatLater(endpoints, past, init);
      assert (past + later)[..|past + later| - 1] == past + init && (past + later)[|past + later| - 1] == last;
      var now := RunActs(endpoints, past + init);
      PerformGrows(now, last);
      assert RunActs(endpoints, past + later) == Perform(now, last);
      Assoc(Flat(endpoints, past), rest, ActionsOf(now, last));
      rest := rest + ActionsOf(now, last);
    }
  }

  /** An attach, or a SET_CONFIGURATION on an open connection. */
  predicate Resets(d: Desk, act: Act) {
    act.Attach? || (act.Configure? && act.conn < |d.wires|)
  }

  lemma ResetFirst(d: Desk, act: Act) returns (own: seq<Action>)
    requires Resets(d, act)
    ensures ActionsOf(d, act) == [ResetIo] + own
  {
    own := ActionsOf(d, act)[1..];
  }

  lemma FlatReset(endpoints: nat, past: seq<Act>, act: Act, later: seq<Act>) returns (rest: seq<Action>)
    requires Resets(RunActs(endpoints, past), act)
    ensures Flat(endpoints, past + [act] + later) == Flat(endpoints, past) + [ResetIo] + rest
    ensures var d, d' := RunActs(endpoints, past), RunActs(endpoints, past + [act] + later);
            && d.names <= d'.names && |d.wires| <= |d'.wires| && (act.Attach? ==> |d.wires| < |d'.wires|)
  {
    hide Perform, ActionsOf;
    var here, d := past + [act], RunActs(endpoints, past);
    assert here[..|here| - 1] == past;
    assert Flat(endpoints, here) == Flat(endpoints, past) + ActionsOf(d, act);
    assert RunActs(endpoints, here) == Perform(d, act);
    var own := ResetFirst(d, act);
    PerformGrows(d, act);
    rest := FlatLater(endpoints, here, later);
    Assoc(Flat(endpoints, past), [ResetIo], own);
    Assoc(Flat(endpoints, past) + [ResetIo], own, rest);
    rest := own + rest;
  }

  /**
   * For either reset, over every run before and after it: a URB submitted before is answered after it if and only
   * if the pacer or a callback held it at the reset, no unlink has taken it out since, and its callback has run;
   * and the answer goes to the connection that submitted it, no other.
   */
  lemma ResetExactly(endpoints: nat, past: seq<Act>, act: Act, later: seq<Act>, c: nat, id: nat)
    requires Resets(RunActs(endpoints, past), act) && id < |RunActs(endpoints, past).names|
    ensures var d, d' := RunActs(endpoints, past), RunActs(endpoints, past + [act] + later);
            ReplyOn(d', c, id) && !ReplyOn(d, c, id) <==>
              c == d.names[id].conn && HeldAcross(d.books, d'.books, id)
  {
    hide RunActs, Own, HeldAcross, Session, OneFateEach, Flat;
    var d, d' := RunActs(endpoints, past), RunActs(endpoints, past + [act] + later);
    var rest := FlatReset(endpoints, past, act, later);
    BooksFollow(endpoints, past);
    BooksFollow(endpoints, past + [act] + later);
    RepliesGoHome(endpoints, past);
    assert d'.books == Session(endpoints, Flat(endpoints, past), rest) by {
      SessionIs(endpoints, Flat(endpoints, past), rest);
    }
    assert id in d.books.submitted;
    StaleReplies(endpoints, Flat(endpoints, past), rest, id);
    SessionKeeps(endpoints, Flat(endpoints, past), rest, id);
    EveryUrbHasOneFate(endpoints, Flat(endpoints, past) + [ResetIo] + rest);
    OwnHas(d.books.wire, d.names, c, id);
    OwnHas(d'.books.wire, d'.names, c, id);
    AnsweredByCount(d.books, d'.books, id);
    AnswerCountIn(d.books.wire, id);
    AnswerCountIn(d'.books.wire, id);
    AnswerCountGrows(d.books.wire, d'.books.wire, id);
  }

  lemma SessionIs(endpoints: nat, past: seq<Action>, later: seq<Action>)
    ensures Session(endpoints, past, later) == After(endpoints, past + [ResetIo] + later)
  {
  }

  lemma AnswerCountGrows(a: seq<Wire>, b: seq<Wire>, s: nat)
    requires a <= b
    ensures AnswerCount(a, s) <= AnswerCount(b, s)
  {
    assert b == a + b[|a|..];
    AnswerCountAppend(a, b[|a|..], s);
  }

  /** A new connection is clean: whatever earlier connections left behind and go on to do, it is sent the replies
      to its own URBs alone, all of them submitted after the attach. */
  lemma AttachIsClean(endpoints: nat, past: seq<Act>, later: seq<Act>)
    ensures var d, d' := RunActs(endpoints, past), RunActs(endpoints, past + [Attach] + later);
            var c := |d.wires|;
            && c < |d'.wires|
            && Replies(d'.wires[c]) == NumbersOf(d'.names, Own(d'.books.wire, d'.names, c))
            && forall id :: id in Own(d'.books.wire, d'.names, c) ==>
                 |d.names| <= id < |d'.names| && d'.names[id].conn == c
  {
    hide RunActs, Own, NumbersOf, Replies;
    var d, d' := RunActs(endpoints, past), RunActs(endpoints, past + [Attach] + later);
    var rest := FlatReset(endpoints, past, Attach, later);
    RepliesGoHome(endpoints, past);
    RepliesGoHome(endpoints, past + [Attach] + later);
    assert forall i :: 0 <= i < |d.names| ==> d'.names[i] == d.names[i] && d.names[i].conn < |d.wires|;
    forall id | id in Own(d'.books.wire, d'.names, |d.wires|)
      ensures |d.names| <= id < |d'.names| && d'.names[id].conn == |d.wires|
    {
      OwnHas(d'.books.wire, d'.names, |d.wires|, id);
    }
  }

  /** Unlinks empty the pacer of exactly the URBs they name. */
  lemma {:induction false} UnlinksTake(b: Books, ids: seq<nat>, x: nat)
    ensures Count(DoAll(b, Unlinks(ids)).pacing, x) == if x in ids then 0 else Count(b.pacing, x)
    decreases |ids|
  {
    UnlinksAre(ids);
    if ids != [] {
      var front, last := ids[..|ids| - 1], ids[|ids| - 1];
      UnlinksAre(front);
      assert Unlinks(ids)[..|ids| - 1] == Unlinks(front);
      UnlinksTake(b, front, x);
      var b1 := DoAll(b, Unlinks(front));
      assert DoAll(b, Unlinks(ids)) == Step(b1, Unlink(last));
      CountWithout(b1.pacing, last, x);
      assert ids == front + [last];
    }
  }

  /** An unlink on any connection takes every connection's URBs of that seqnum out of the pacer, and no others. */
  lemma CancelCrosses(d: Desk, c: nat, victim: nat, id: nat)
    requires c < |d.wires|
    ensures id in Perform(d, Cancel(c, victim)).books.pacing <==>
              id in d.books.pacing && !Numbered(d.names, id, victim)
  {
    hide DoAll, Deliver;
    var ids := Matches(d.names, d.books.pacing, victim) + FirstParked(d.names, d.books.pipes, victim);
    MatchesAreNamed(d.names, d.books.pacing, victim);
    FirstIsNamed(d.names, d.books.pipes, victim);
    UnlinksTake(d.books, ids, id);
    CountIn(d.books.pacing, id);
    CountIn(DoAll(d.books, Unlinks(ids)).pacing, id);
  }

  // ---- the parked URB an unlink takes ------------------------------------------------------

  predicate NumberedParked(names: seq<Name>, parked: seq<P.Parked>, j: int, seqnum: nat)
    requires 0 <= j < |parked|
  {
    Numbered(names, parked[j].seqnum, seqnum)
  }

  /** None of the first `n` parked URBs has this seqnum, on any connection. */
  ghost predicate NoneBefore(names: seq<Name>, parked: seq<P.Parked>, seqnum: nat, n: nat)
    requires n <= |parked|
  {
    forall j :: 0 <= j < n ==> !NumberedParked(names, parked, j, seqnum)
  }

  ghost predicate NoneAnywhere(names: seq<Name>, pipes: seq<P.Pipe>, seqnum: nat) {
    forall k :: 0 <= k < |pipes| ==> NoneBefore(names, pipes[k].parked, seqnum, |pipes[k].parked|)
  }

  /** The first one, by endpoint and then by how long it has waited, is the `i`th at endpoint `k`. */
  ghost predicate FirstAt(names: seq<Name>, pipes: seq<P.Pipe>, seqnum: nat, k: nat, i: nat) {
    && k < |pipes| && i < |pipes[k].parked| && NumberedParked(names, pipes[k].parked, i, seqnum)
    && NoneBefore(names, pipes[k].parked, seqnum, i)
    && NoneAnywhere(names, pipes[..k], seqnum)
  }

  lemma NoneInTail(names: seq<Name>, parked: seq<P.Parked>, seqnum: nat, n: nat)
    requires 0 < n <= |parked| && NoneBefore(names, parked, seqnum, n)
    ensures NoneBefore(names, parked[1..], seqnum, n - 1)
  {
    hide Numbered;
    forall j | 0 <= j < n - 1
      ensures !NumberedParked(names, parked[1..], j, seqnum)
    {
      assert !NumberedParked(names, parked, j + 1, seqnum);
    }
  }

  lemma {:induction false} FirstMatch(names: seq<Name>, parked: seq<P.Parked>, seqnum: nat, i: nat)
    requires i <= |parked| && NoneBefore(names, parked, seqnum, i)
    requires i < |parked| ==> NumberedParked(names, parked, i, seqnum)
    ensures var ids := Matches(names, P.SeqnumsOf(parked), seqnum);
            if i == |parked| then ids == [] else ids != [] && ids[0] == parked[i].seqnum
  {
    hide Numbered;
    if parked != [] {
      assert P.SeqnumsOf(parked)[1..] == P.SeqnumsOf(parked[1..]);
      if i > 0 {
        assert !NumberedParked(names, parked, 0, seqnum);
        NoneInTail(names, parked, seqnum, i);
        FirstMatch(names, parked[1..], seqnum, i - 1);
      }
    }
  }

  lemma {:induction false} NoneIsTaken(names: seq<Name>, pipes: seq<P.Pipe>, seqnum: nat)
    requires NoneAnywhere(names, pipes, seqnum)
    ensures FirstParked(names, pipes, seqnum) == []
  {
    hide Numbered, Matches;
    if pipes != [] {
      FirstMatch(names, pipes[0].parked, seqnum, |pipes[0].parked|);
      NoneIsTaken(names, pipes[1..], seqnum);
    }
  }

  lemma {:induction false} FirstIsTaken(names: seq<Name>, pipes: seq<P.Pipe>, seqnum: nat, k: nat, i: nat)
    requires FirstAt(names, pipes, seqnum, k, i)
    ensures FirstParked(names, pipes, seqnum) == [pipes[k].parked[i].seqnum]
    decreases k
  {
    hide Numbered, Matches;
    if k == 0 {
      FirstMatch(names, pipes[0].parked, seqnum, i);
    } else {
      assert pipes[..k][0] == pipes[0];
      FirstMatch(names, pipes[0].parked, seqnum, |pipes[0].parked|);
      assert pipes[1..][..k - 1] == pipes[..k][1..];
      FirstIsTaken(names, pipes[1..], seqnum, k - 1, i);
    }
  }

  lemma {:induction false} RemovesOne(parked: seq<P.Parked>, i: nat)
    requires i < |parked| && forall j :: 0 <= j < i ==> parked[j].seqnum != parked[i].seqnum
    ensures P.Remove(parked, parked[i].seqnum) == parked[..i] + parked[i + 1..]
  {
    if i > 0 {
      RemovesOne(parked[1..], i - 1);
      assert parked[..i] + parked[i + 1..] == [parked[0]] + (parked[1..][..i - 1] + parked[1..][i..]);
    }
  }

  lemma {:induction false} CancelTakes(names: seq<Name>, pipes: seq<P.Pipe>, seqnum: nat, k: nat, i: nat)
    requires FirstAt(names, pipes, seqnum, k, i)
    ensures var p := pipes[k];
            CancelFirst(pipes, p.parked[i].seqnum) == pipes[k := p.(parked := p.parked[..i] + p.parked[i + 1..])]
    decreases k
  {
    hide P.Remove;
    var id := pipes[k].parked[i].seqnum;
    var ids := P.SeqnumsOf(pipes[0].parked);
    if k == 0 {
      forall j | 0 <= j < i
        ensures pipes[0].parked[j].seqnum != id
      {
        assert !NumberedParked(names, pipes[0].parked, j, seqnum);
      }
      RemovesOne(pipes[0].parked, i);
      assert ids[i] == id;
      assert pipes[0 := pipes[0].(parked := P.Remove(pipes[0].parked, id))]
          == [pipes[0].(parked := P.Remove(pipes[0].parked, id))] + pipes[1..];
    } else {
      assert pipes[..k][0] == pipes[0];
      forall j | 0 <= j < |ids|
        ensures ids[j] != id
      {
        assert !NumberedParked(names, pipes[0].parked, j, seqnum);
      }
      assert pipes[1..][..k - 1] == pipes[..k][1..];
      CancelTakes(names, pipes[1..], seqnum, k - 1, i);
    }
  }

  lemma {:induction false} NothingParked(pipes: seq<P.Pipe>, id: nat)
    requires ParkedCount(pipes, id) == 0
    ensures CancelFirst(pipes, id) == pipes
  {
    if pipes != [] {
      CountIn(P.SeqnumsOf(pipes[0].parked), id);
      NothingParked(pipes[1..], id);
    }
  }

  lemma {:induction false} UnlinksSpare(b: Books, ids: seq<nat>)
    requires forall i :: 0 <= i < |ids| ==> ParkedCount(b.pipes, ids[i]) == 0
    ensures DoAll(b, Unlinks(ids)).pipes == b.pipes
    decreases |ids|
  {
    UnlinksAre(ids);
    if ids != [] {
      var front, last := ids[..|ids| - 1], ids[|ids| - 1];
      UnlinksAre(front);
      assert Unlinks(ids)[..|ids| - 1] == Unlinks(front);
      UnlinksSpare(b, front);
      NothingParked(b.pipes, last);
    }
  }

  /** A paced URB is not parked. */
  lemma PacedIsNotParked(endpoints: nat, acts: seq<Act>, id: nat)
    requires id in RunActs(endpoints, acts).books.pacing
    ensures ParkedCount(RunActs(endpoints, acts).books.pipes, id) == 0
  {
    hide RunActs, After, AnswerCount, ParkedCount;
    BooksFollow(endpoints, acts);
    var b := RunActs(endpoints, acts).books;
    EveryUrbHasOneFate(endpoints, Flat(endpoints, acts));
    CountIn(b.pacing, id);
    assert Places(b, id) <= 1;
  }

  /**
   * Of the URBs parked under the seqnum, whosever they are, an unlink takes exactly one: the one waiting longest at the
   * first endpoint that has any. When there is none the endpoints stay as they are.
   */
  lemma CancelTakesOneParked(endpoints: nat, acts: seq<Act>, c: nat, victim: nat)
    requires c < |RunActs(endpoints, acts).wires|
    ensures var d, d' := RunActs(endpoints, acts), RunActs(endpoints, acts + [Cancel(c, victim)]);
            && (NoneAnywhere(d.names, d.books.pipes, victim) ==> d'.books.pipes == d.books.pipes)
            && forall k: nat, i: nat :: FirstAt(d.names, d.books.pipes, victim, k, i) ==>
                 var p := d.books.pipes[k];
                 d'.books.pipes == d.books.pipes[k := p.(parked := p.parked[..i] + p.parked[i + 1..])]
  {
    hide RunActs, NoneAnywhere, NoneBefore, FirstParked, Matches, CancelFirst;
    var d := RunActs(endpoints, acts);
    var b, paced := d.books, Matches(d.names, d.books.pacing, victim);
    RunSnoc(endpoints, acts, Cancel(c, victim));
    MatchesAreNamed(d.names, b.pacing, victim);
    forall i | 0 <= i < |paced|
      ensures ParkedCount(b.pipes, paced[i]) == 0
    {
      assert paced[i] in paced;
      PacedIsNotParked(endpoints, acts, paced[i]);
    }
    UnlinksSpare(b, paced);
    if NoneAnywhere(d.names, b.pipes, victim) {
      NoneIsTaken(d.names, b.pipes, victim);
      assert paced + [] == paced;
    }
    forall k: nat, i: nat | FirstAt(d.names, b.pipes, victim, k, i)
      ensures var p := b.pipes[k];
              RunActs(endpoints, acts + [Cancel(c, victim)]).books.pipes
              == b.pipes[k := p.(parked := p.parked[..i] + p.parked[i + 1..])]
    {
      FirstIsTaken(d.names, b.pipes, victim, k, i);
      CancelTakes(d.names, b.pipes, victim, k, i);
      UnlinksSnoc(b, paced, b.pipes[k].parked[i].seqnum);
    }
  }

  lemma UnlinksSnoc(b: Books, ids: seq<nat>, id: nat)
    ensures DoAll(b, Unlinks(ids + [id])).pipes == CancelFirst(DoAll(b, Unlinks(ids)).pipes, id)
  {
    hide CancelFirst;
    UnlinksAre(ids + [id]);
    UnlinksAre(ids);
    assert Unlinks(ids + [id])[..|ids|] == Unlinks(ids);
  }

  // ---- one run for each reset ------------------------------------------------------------------

  lemma RunSnoc(endpoints: nat, acts: seq<Act>, act: Act)
    ensures RunActs(endpoints, acts + [act]) == Perform(RunActs(endpoints, acts), act)
  {
    assert (acts + [act])[..|acts|] == acts;
  }

  lemma Attached(d: Desk)
    ensures var d' := Perform(d, Attach);
            && d'.books.pacing == d.books.pacing && d'.books.inFlight == d.books.inFlight
            && d'.names == d.names && d'.wires == d.wires + [[]]
  {
    hide Step;
    DoOne(d.books, ResetIo);
    ResetFacts(d.books, 0);
  }

  lemma Paced(d: Desk, c: nat, seqnum: nat)
    requires c < |d.wires| && Fresh(d.books, |d.names|)
    ensures var d' := Perform(d, SendPaced(c, seqnum));
            && d'.books.pacing == d.books.pacing + [|d.names|] && d'.books.inFlight == d.books.inFlight
            && d'.names == d.names + [Name(c, seqnum)] && d'.wires == d.wires
  {
    DoOne(d.books, SubmitPaced(|d.names|));
  }

  lemma Configured(d: Desk, c: nat, seqnum: nat)
    requires c < |d.wires| && Fresh(d.books, |d.names|)
    ensures var d' := Perform(d, Configure(c, seqnum));
            && d'.books.pacing == d.books.pacing && d'.books.inFlight == d.books.inFlight
            && d'.names == d.names + [Name(c, seqnum)]
            && d'.wires == d.wires[c := d.wires[c] + [RetSubmit(seqnum)]]
  {
    hide Flushed, ParkedSet;
    var id, names := |d.names|, d.names + [Name(c, seqnum)];
    DoTwo(d.books, ResetIo, SubmitNow(id));
    ResetFacts(d.books, 0);
    SentOne(d, names, id);
  }

  lemma SentOne(d: Desk, names: seq<Name>, id: nat)
    requires id < |names| && names[id].conn < |d.wires|
    ensures Since(d.books.wire, d.books.wire + [RetSubmit(id)]) == [RetSubmit(id)]
    ensures Deliver(d.wires, names, [RetSubmit(id)])
         == d.wires[names[id].conn := d.wires[names[id].conn] + [RetSubmit(names[id].seqnum)]]
  {
    assert [RetSubmit(id)][..0] == [];
    assert Deliver(d.wires, names, []) == d.wires;
  }

  lemma Due(d: Desk, id: nat)
    requires d.books.pacing == [id] && d.books.inFlight == []
    ensures var d' := Perform(d, Inside(PaceDue(0)));
            d'.books.inFlight == [id] && d'.names == d.names && d'.wires == d.wires
  {
    DoOne(d.books, PaceDue(0));
    assert d.names + [] == d.names;
  }

  lemma CalledBack(d: Desk, id: nat)
    requires d.books.inFlight == [id] && id < |d.names| && d.names[id].conn < |d.wires|
    ensures var n := d.names[id];
            Perform(d, Inside(Callback(0))).wires == d.wires[n.conn := d.wires[n.conn] + [RetSubmit(n.seqnum)]]
  {
    DoOne(d.books, Callback(0));
    SentOne(d, d.names, id);
    assert d.names + [] == d.names;
  }

  /** The pacer fires and the callback runs. */
  lemma Fired(d: Desk, id: nat)
    requires d.books.pacing == [id] && d.books.inFlight == [] && id < |d.names| && d.names[id].conn < |d.wires|
    ensures var n := d.names[id];
            Perform(Perform(d, Inside(PaceDue(0))), Inside(Callback(0))).wires
            == d.wires[n.conn := d.wires[n.conn] + [RetSubmit(n.seqnum)]]
  {
    hide Perform;
    Due(d, id);
    CalledBack(Perform(d, Inside(PaceDue(0))), id);
  }

  /** A connection's paced URB is submitted as its first. */
  lemma OnePaced() returns (d: Desk)
    ensures d == RunActs(1, [Attach, SendPaced(0, 7)])
    ensures d.books.pacing == [0] && d.books.inFlight == [] && d.names == [Name(0, 7)] && d.wires == [[]]
    ensures Fresh(d.books, 1)
  {
    hide Perform, After;
    var d0 := RunActs(1, []);
    Attached(d0);
    RunSnoc(1, [], Attach);
    assert [] + [Attach] == [Attach];
    var d1 := RunActs(1, [Attach]);
    RepliesGoHome(1, [Attach]);
    Paced(d1, 0, 7);
    RunSnoc(1, [Attach], SendPaced(0, 7));
    assert [Attach] + [SendPaced(0, 7)] == [Attach, SendPaced(0, 7)];
    d := RunActs(1, [Attach, SendPaced(0, 7)]);
    RepliesGoHome(1, [Attach, SendPaced(0, 7)]);
  }

  /** SET_CONFIGURATION does not stop it: its host is answered for a URB from before, after the answer to the
      request itself. */
  lemma ConfigureLeavesReply()
    ensures RunActs(1, [Attach, SendPaced(0, 7), Configure(0, 8), Inside(PaceDue(0)), Inside(Callback(0))]).wires
         == [[RetSubmit(8), RetSubmit(7)]]
  {
    hide Perform;
    var start := [Attach, SendPaced(0, 7)];
    var d := OnePaced();
    Configured(d, 0, 8);
    RunSnoc(1, start, Configure(0, 8));
    RunSnoc(1, start + [Configure(0, 8)], Inside(PaceDue(0)));
    RunSnoc(1, start + [Configure(0, 8)] + [Inside(PaceDue(0))], Inside(Callback(0)));
    var d2 := Perform(d, Configure(0, 8));
    assert d.wires[0] + [RetSubmit(8)] == [RetSubmit(8)];
    assert d2.wires == [[RetSubmit(8)]] && d2.names[0] == Name(0, 7);
    Fired(d2, 0);
    assert d2.wires[0] + [RetSubmit(7)] == [RetSubmit(8), RetSubmit(7)];
    assert d2.wires[0 := [RetSubmit(8), RetSubmit(7)]] == [[RetSubmit(8), RetSubmit(7)]];
    assert start + [Configure(0, 8)] + [Inside(PaceDue(0))] + [Inside(Callback(0))]
        == [Attach, SendPaced(0, 7), Configure(0, 8), Inside(PaceDue(0)), Inside(Callback(0))];
  }

  /** After an attach the same completion goes to the old connection and the new one is sent nothing. */
  lemma AttachKeepsReplyAway()
    ensures RunActs(1, [Attach, SendPaced(0, 7), Attach, Inside(PaceDue(0)), Inside(Callback(0))]).wires
         == [[RetSubmit(7)], []]
  {
    hide Perform;
    var start := [Attach, SendPaced(0, 7)];
    var d := OnePaced();
    Attached(d);
    RunSnoc(1, start, Attach);
    RunSnoc(1, start + [Attach], Inside(PaceDue(0)));
    RunSnoc(1, start + [Attach] + [Inside(PaceDue(0))], Inside(Callback(0)));
    var d2 := Perform(d, Attach);
    assert d2.wires == [[], []];
    Fired(d2, 0);
    assert d2.wires[0] + [RetSubmit(7)] == [RetSubmit(7)];
    assert d2.wires[0 := [RetSubmit(7)]] == [[RetSubmit(7)], []];
    assert start + [Attach] + [Inside(PaceDue(0))] + [Inside(Callback(0))]
        == [Attach, SendPaced(0, 7), Attach, Inside(PaceDue(0)), Inside(Callback(0))];
  }
}
