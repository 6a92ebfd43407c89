/** The halt test of handle_urb apart from the park that follows it (usbip/device.py): the test is made without the
    endpoint's lock, so a stall can fall between the two. UrbPipe takes them as one step; here they are two, for
    any number of URBs at once, and the URBs a stall leaves parked on a halted endpoint are told exactly. */
module UrbHalt {
  import opened Bytes
  import opened UrbPipe

  /** A URB that has passed the halt test and has still to park; `stalled` once the endpoint has halted since. */
  datatype Checked = Checked(length: nat, seqnum: nat, stalled: bool)

  /** `stranded`: parked after a stall that fell in their window, and not taken out since. */
  datatype Window = Window(pipe: Pipe, checked: seq<Checked>, stranded: set<nat>)

  datatype Move =
    | Check(length: nat, seqnum: nat)
    | TakeOrPark(k: nat)
    | Other(event: Event)

  /** The locked section alone: queued data, or the end of the parked list. */
  function Take(p: Pipe, length: nat, seqnum: nat): (Pipe, seq<Reply>) {
    if p.q != [] then
      var (chunk, rest) := PopLocked(p.q, length);
      (p.(q := rest), [Reply(seqnum, 0, chunk)])
    else (p.(parked := p.parked + [Parked(length, seqnum)]), [])
  }

  function Mark(checked: seq<Checked>, stalled: bool): (r: seq<Checked>)
    ensures |r| == |checked|
    ensures forall i :: 0 <= i < |r| ==> r[i] == checked[i].(stalled := stalled)
  {
    seq(|checked|, i requires 0 <= i < |checked| => checked[i].(stalled := stalled))
  }

  function StillParked(stranded: set<nat>, p: Pipe): set<nat> {
    set s | s in stranded && s in SeqnumsOf(p.parked)
  }

  function Advance(w: Window, m: Move): (Window, seq<Reply>) {
    match m
    case Check(length, seqnum) =>
      if w.pipe.halted then (w, [Reply(seqnum, STALL_STATUS, [])])
      else (w.(checked := w.checked + [Checked(length, seqnum, false)]), [])
    case TakeOrPark(k) =>
      if k >= |w.checked| then (w, [])
      else
        var c := w.checked[k];
        var (p', rs) := Take(w.pipe, c.length, c.seqnum);
        (Window(p', w.checked[..k] + w.checked[k + 1..],
                w.stranded + (if rs == [] && c.stalled then {c.seqnum} else {})), rs)
    case Other(e) =>
      if e.EvSubmit? then (w, [])
      else
        var (p', rs) := Step(w.pipe, e);
        var checked := if e.EvStall? then Mark(w.checked, true)
                       else if e.EvClearHalt? || e.EvReset? then Mark(w.checked, false)
                       else w.checked;
        (Window(p', checked, if e.EvWrite? || e.EvUnlink? then StillParked(w.stranded, p') else {}), rs)
  }

  function RunMoves(ms: seq<Move>): Window {
    if ms == [] then Window(EMPTY, [], {}) else Advance(RunMoves(ms[..|ms| - 1]), ms[|ms| - 1]).0
  }

  /** Test and park with nothing between them are the one step of UrbPipe. */
  lemma TogetherIsSubmit(w: Window, length: nat, seqnum: nat)
    ensures var (w1, rs1) := Advance(w, Check(length, seqnum));
            var (w2, rs2) := if rs1 == [] then Advance(w1, TakeOrPark(|w.checked|)) else (w1, []);
            && (w2.pipe, rs1 + rs2) == Submit(w.pipe, length, seqnum)
            && w2.checked == w.checked && w2.stranded == w.stranded
  {
    if w.pipe.halted {
      assert [Reply(seqnum, STALL_STATUS, [])] + [] == [Reply(seqnum, STALL_STATUS, [])];
    } else {
      var c := Checked(length, seqnum, false);
      assert (w.checked + [c])[..|w.checked|] + (w.checked + [c])[|w.checked| + 1..] == w.checked;
      assert forall rs: seq<Reply> :: [] + rs == rs;
    }
  }

  /** The stranded URBs are the ones parked while halted, and the marks tell the halt. */
  ghost predicate Told(w: Window) {
    && (w.pipe.q == [] || w.pipe.parked == [])
    && (forall i :: 0 <= i < |w.checked| ==> (w.checked[i].stalled <==> w.pipe.halted))
    && (forall s: nat :: s in w.stranded <==> w.pipe.halted && s in SeqnumsOf(w.pipe.parked))
  }

  lemma {:induction false} DrainKeepsSome(p: Pipe, s: nat)
    requires s in SeqnumsOf(Drain(p).0.parked)
    ensures s in SeqnumsOf(p.parked)
    decreases |p.parked|
  {
    if p.parked != [] && p.q != [] {
      var next := p.(q := PopLocked(p.q, p.parked[0].length).1, parked := p.parked[1..]);
      DrainKeepsSome(next, s);
      assert SeqnumsOf(p.parked)[1..] == SeqnumsOf(p.parked[1..]);
    }
  }

  lemma {:induction false} RemoveKeepsSome(parked: seq<Parked>, seqnum: nat, s: nat)
    requires s in SeqnumsOf(Remove(parked, seqnum))
    ensures s in SeqnumsOf(parked)
  {
    RemoveOnlyRemoves(parked, seqnum);
    var i :| 0 <= i < |SeqnumsOf(Remove(parked, seqnum))| && SeqnumsOf(Remove(parked, seqnum))[i] == s;
    var e := Remove(parked, seqnum)[i];
    assert e in Remove(parked, seqnum);
    var j :| 0 <= j < |parked| && parked[j] == e;
    assert SeqnumsOf(parked)[j] == s;
  }

  lemma ParkTells(w: Window, k: nat)
    requires Told(w) && k < |w.checked|
    ensures Told(Advance(w, TakeOrPark(k)).0)
  {
    var c, w' := w.checked[k], Advance(w, TakeOrPark(k)).0;
    if w.pipe.q == [] {
      assert SeqnumsOf(w'.pipe.parked) == SeqnumsOf(w.pipe.parked) + [c.seqnum];
    }
  }

  lemma OtherTells(w: Window, e: Event)
    requires Told(w) && !e.EvSubmit?
    ensures Told(Advance(w, Other(e)).0)
  {
    hide Drain, Remove;
    var p' := Step(w.pipe, e).0;
    match e {
      case EvWrite(data) =>
        var full := w.pipe.(q := w.pipe.q + [data]);
        DrainSettles(full);
        forall s: nat | s in SeqnumsOf(p'.parked)
          ensures s in SeqnumsOf(w.pipe.parked)
        {
          DrainKeepsSome(full, s);
        }
      case EvUnlink(seqnum) =>
        RemoveFromEmpty(w.pipe.parked, seqnum);
        forall s: nat | s in SeqnumsOf(p'.parked)
          ensures s in SeqnumsOf(w.pipe.parked)
        {
          RemoveKeepsSome(w.pipe.parked, seqnum, s);
        }
      case _ =>
    }
  }

  /**
   * Over every run of tests, parks, writes, unlinks, stalls, halt clears and resets: a URB is parked on a halted
   * endpoint if and only if a stall came between its halt test and its park, and neither data, an unlink, another
   * stall, a halt clear nor a reset has taken it out since.
   */
  lemma {:induction false} StrandedExactly(ms: seq<Move>)
    ensures Told(RunMoves(ms))
    ensures var w := RunMoves(ms);
            forall s: nat :: w.pipe.halted && s in SeqnumsOf(w.pipe.parked) <==> s in w.stranded
  {
    hide Advance, Told;
    if ms == [] {
      StartTold();
    } else {
      var w, m := RunMoves(ms[..|ms| - 1]), ms[|ms| - 1];
      StrandedExactly(ms[..|ms| - 1]);
      MoveTells(w, m);
    }
    ToldMeans(RunMoves(ms));
  }

  lemma StartTold()
    ensures Told(Window(EMPTY, [], {}))
  {
  }

  lemma ToldMeans(w: Window)
    requires Told(w)
    ensures forall s: nat :: w.pipe.halted && s in SeqnumsOf(w.pipe.parked) <==> s in w.stranded
  {
  }

  lemma MoveTells(w: Window, m: Move)
    requires Told(w)
    ensures Told(Advance(w, m).0)
  {
    match m {
      case Check(_, _) =>
      case TakeOrPark(k) => if k < |w.checked| { ParkTells(w, k); }
      case Other(e) => if !e.EvSubmit? { OtherTells(w, e); }
    }
  }

  /** No stall of the run falls in a window. */
  predicate NoRace(ms: seq<Move>) {
    ms == [] || (NoRace(ms[..|ms| - 1])
                 && (ms[|ms| - 1] == Other(EvStall) ==> RunMoves(ms[..|ms| - 1]).checked == []))
  }

  /** Then nothing is ever stranded, and a halted endpoint parks nothing. */
  lemma {:induction false} NoneStranded(ms: seq<Move>)
    requires NoRace(ms)
    ensures var w := RunMoves(ms);
            w.stranded == {} && (w.pipe.halted ==> w.checked == [] && w.pipe.parked == [])
  {
    hide Step, Take;
    StrandedExactly(ms);
    if ms != [] {
      NoneStranded(ms[..|ms| - 1]);
      var w, m := RunMoves(ms[..|ms| - 1]), ms[|ms| - 1];
      StrandedExactly(ms[..|ms| - 1]);
      MoveHalts(w, m);
    }
    SomeStranded(RunMoves(ms));
  }

  lemma SomeStranded(w: Window)
    requires Told(w)
    ensures w.pipe.halted && w.pipe.parked != [] ==> w.stranded != {}
  {
    if w.pipe.parked != [] {
      var s := SeqnumsOf(w.pipe.parked)[0];
      assert w.pipe.halted ==> s in w.stranded;
    }
  }

  /** Only a stall halts. */
  lemma MoveHalts(w: Window, m: Move)
    ensures Advance(w, m).0.pipe.halted ==> w.pipe.halted || m == Other(EvStall)
  {
    if m.Other? && m.event.EvWrite? {
      DrainSettles(w.pipe.(q := w.pipe.q + [m.event.data]));
    }
  }

  /** It happens: a read passes the test, the class halts the endpoint, the read parks all the same; and data queued
      during the halt is delivered to it with status 0. */
  lemma StrandedHappens()
    ensures var ms := [Check(8, 5), Other(EvStall), TakeOrPark(0)];
            && RunMoves(ms) == Window(Pipe([], [Parked(8, 5)], true), [], {5})
            && Advance(RunMoves(ms), Other(EvWrite([1]))).1 == [Reply(5, 0, [1])]
  {
    var m1, m2, m3 := Check(8, 5), Other(EvStall), TakeOrPark(0);
    var ms := [m1, m2, m3];
    assert ms[..2] == [m1, m2] && [m1, m2][..1] == [m1] && [m1][..0] == [];
    assert RunMoves([]) == Window(EMPTY, [], {});
    var w1 := RunMoves([m1]);
    assert w1 == Window(EMPTY, [Checked(8, 5, false)], {});
    var w2 := RunMoves([m1, m2]);
    assert Mark(w1.checked, true) == [Checked(8, 5, true)];
    assert w2 == Window(Pipe([], [], true), [Checked(8, 5, true)], {});
    var w3 := RunMoves(ms);
    assert w3 == Advance(w2, m3).0;
    FedWhileHalted([1], 8, 5);
  }

  lemma FedWhileHalted(blob: bytes, length: nat, seqnum: nat)
    requires |blob| <= length
    ensures Write(Pipe([], [Parked(length, seqnum)], true), blob) == (Pipe([], [], true), [Reply(seqnum, 0, blob)])
  {
    var p := Pipe([blob], [Parked(length, seqnum)], true);
    assert [] + [blob] == [blob] && p.q[1..] == [] && p.parked[1..] == [] && [] + p.q[1..] == [];
    assert Drain(Pipe([], [], true)) == (Pipe([], [], true), []);
    assert [Reply(seqnum, 0, blob)] + [] == [Reply(seqnum, 0, blob)];
  }
}
