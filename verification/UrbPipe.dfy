/** One IN pipe as a value: the queue of written blobs, the FIFO of parked URBs
    and the halt flag (usbip/device.py, class Endpoint). Every locked section of
    the source is one step here; `Submit` takes the halt test of handle_urb and
    the take-or-park of the endpoint as a single step. */
module UrbPipe {
  import opened Bytes

  const STALL_STATUS: int := -32

  datatype Parked = Parked(length: nat, seqnum: nat)

  /** One RET_SUBMIT: what the completion callback is given. */
  datatype Reply = Reply(seqnum: nat, status: int, data: bytes)

  datatype Pipe = Pipe(q: seq<bytes>, parked: seq<Parked>, halted: bool)

  const EMPTY: Pipe := Pipe([], [], false)

  // ---- the locked sections ------------------------------------------------

  /** The part of the front blob that one URB takes; length 0 asks for all of it. */
  function Head(length: nat, blob: bytes): bytes {
    if length != 0 && |blob| > length then blob[..length] else blob
  }

  /** The unread tail that goes back to the front of the queue. */
  function Tail(length: nat, blob: bytes): seq<bytes> {
    if length != 0 && |blob| > length then [blob[length..]] else []
  }

  function PopLocked(q: seq<bytes>, length: nat): (bytes, seq<bytes>)
    requires q != []
  {
    (Head(length, q[0]), Tail(length, q[0]) + q[1..])
  }

  function Drain(p: Pipe): (Pipe, seq<Reply>)
    decreases |p.parked|
  {
    if p.parked == [] || p.q == [] then (p, [])
    else
      var (chunk, rest) := PopLocked(p.q, p.parked[0].length);
      var (p', rs) := Drain(p.(q := rest, parked := p.parked[1..]));
      (p', [Reply(p.parked[0].seqnum, 0, chunk)] + rs)
  }

  function Write(p: Pipe, data: bytes): (Pipe, seq<Reply>) {
    Drain(p.(q := p.q + [data]))
  }

  function Submit(p: Pipe, length: nat, seqnum: nat): (Pipe, seq<Reply>) {
    if p.halted then (p, [Reply(seqnum, STALL_STATUS, [])])
    else if p.q != [] then
      var (chunk, rest) := PopLocked(p.q, length);
      (p.(q := rest), [Reply(seqnum, 0, chunk)])
    else (p.(parked := p.parked + [Parked(length, seqnum)]), [])
  }

  /** The first parked entry with this seqnum goes; the rest keep their order. */
  function Remove(parked: seq<Parked>, seqnum: nat): seq<Parked> {
    if parked == [] then []
    else if parked[0].seqnum == seqnum then parked[1..]
    else [parked[0]] + Remove(parked[1..], seqnum)
  }

  function Stalls(parked: seq<Parked>): seq<Reply> {
    if parked == [] then [] else [Reply(parked[0].seqnum, STALL_STATUS, [])] + Stalls(parked[1..])
  }

  function Stall(p: Pipe): (Pipe, seq<Reply>) {
    (p.(halted := true, parked := []), Stalls(p.parked))
  }

  // ---- runs ---------------------------------------------------------------

  datatype Event =
    | EvWrite(data: bytes)
    | EvSubmit(length: nat, seqnum: nat)
    | EvUnlink(seqnum: nat)
    | EvStall
    | EvClearHalt
    | EvReset

  function Step(p: Pipe, e: Event): (Pipe, seq<Reply>) {
    match e
    case EvWrite(data) => Write(p, data)
    case EvSubmit(length, seqnum) => Submit(p, length, seqnum)
    case EvUnlink(seqnum) => (p.(parked := Remove(p.parked, seqnum)), [])
    case EvStall => Stall(p)
    case EvClearHalt => (p.(halted := false), [])
    case EvReset => (EMPTY, [])
  }

  /** What an observer of a run remembers. `written` and `chunks` are since the
      last reset; the URB books run from the very start. */
  datatype History = History(
    pipe: Pipe,
    written: seq<bytes>,        // blobs handed to write()
    chunks: seq<bytes>,         // data of successful replies, in reply order
    submitted: seq<nat>,        // seqnums, in submission order
    asked: map<nat, nat>,       // the length each URB asked for
    replies: seq<Reply>,        // every RET_SUBMIT, in order
    withdrawn: set<nat>)        // seqnums unlinked while parked, or dropped by reset

  function SeqnumsOf(parked: seq<Parked>): (r: seq<nat>)
    ensures |r| == |parked|
    ensures forall i :: 0 <= i < |r| ==> r[i] == parked[i].seqnum
  {
    seq(|parked|, i requires 0 <= i < |parked| => parked[i].seqnum)
  }

  function RepliedTo(rs: seq<Reply>): (r: seq<nat>)
    ensures |r| == |rs|
    ensures forall i :: 0 <= i < |r| ==> r[i] == rs[i].seqnum
  {
    seq(|rs|, i requires 0 <= i < |rs| => rs[i].seqnum)
  }

  function ChunksOf(rs: seq<Reply>): seq<bytes> {
    if rs == [] then []
    else (if rs[0].status == 0 then [rs[0].data] else []) + ChunksOf(rs[1..])
  }

  function Elements<T>(s: seq<T>): set<T> { set x | x in s }

  const START: History := History(EMPTY, [], [], [], map[], [], {})

  function Advance(h: History, e: Event): History {
    var (p', rs) := Step(h.pipe, e);
    var h' := h.(pipe := p', chunks := h.chunks + ChunksOf(rs), replies := h.replies + rs);
    match e
    case EvWrite(data) => h'.(written := h.written + [data])
    case EvSubmit(length, seqnum) =>
      h'.(submitted := h.submitted + [seqnum], asked := h.asked[seqnum := length])
    case EvUnlink(seqnum) =>
      h'.(withdrawn := h.withdrawn + (if seqnum in SeqnumsOf(h.pipe.parked) then {seqnum} else {}))
    case EvReset =>
      h'.(written := [], chunks := [], withdrawn := h.withdrawn + Elements(SeqnumsOf(h.pipe.parked)))
    case _ => h'
  }

  function Run(es: seq<Event>): History {
    if es == [] then START else Advance(Run(es[..|es| - 1]), es[|es| - 1])
  }

  /** The host numbers its URBs uniquely (usbip/host.py, Connection._submit). */
  ghost predicate UniqueSubmits(es: seq<Event>) {
    forall i, j :: 0 <= i < j < |es| && es[i].EvSubmit? && es[j].EvSubmit?
                   ==> es[i].seqnum != es[j].seqnum
  }

  // ---- what every run keeps ------------------------------------------------

  /** `pieces` is `blobs` with some blobs cut into non-empty parts: nothing lost,
      added, reordered or merged across a blob boundary. */
  ghost predicate Cut(pieces: seq<bytes>, blobs: seq<bytes>)
    decreases |pieces|
  {
    if pieces == [] || blobs == [] then pieces == [] && blobs == []
    else if pieces[0] == blobs[0] then Cut(pieces[1..], blobs[1..])
    else
      && 0 < |pieces[0]| < |blobs[0]|
      && pieces[0] == blobs[0][..|pieces[0]|]
      && Cut(pieces[1..], [blobs[0][|pieces[0]|..]] + blobs[1..])
  }

  lemma {:induction false} CutKeepsBytes(pieces: seq<bytes>, blobs: seq<bytes>)
    requires Cut(pieces, blobs)
    ensures Flatten(pieces) == Flatten(blobs)
    decreases |pieces|
  {
    if pieces != [] && blobs != [] {
      if pieces[0] == blobs[0] {
        CutKeepsBytes(pieces[1..], blobs[1..]);
      } else {
        var rest := blobs[0][|pieces[0]|..];
        CutKeepsBytes(pieces[1..], [rest] + blobs[1..]);
        assert ([rest] + blobs[1..])[1..] == blobs[1..];
        assert pieces[0] + rest == blobs[0];
      }
    }
  }

  lemma {:induction false} CutAppend(pieces: seq<bytes>, blobs: seq<bytes>, blob: bytes)
    requires Cut(pieces, blobs)
    ensures Cut(pieces + [blob], blobs + [blob])
    decreases |pieces|
  {
    if pieces == [] {
      assert pieces + [blob] == [blob] && blobs + [blob] == [blob];
      assert Cut([blob][1..], [blob][1..]);
    } else {
      assert (pieces + [blob])[1..] == pieces[1..] + [blob];
      assert (blobs + [blob])[1..] == blobs[1..] + [blob];
      if pieces[0] == blobs[0] {
        CutAppend(pieces[1..], blobs[1..], blob);
      } else {
        var rest := blobs[0][|pieces[0]|..];
        CutAppend(pieces[1..], [rest] + blobs[1..], blob);
        assert ([rest] + blobs[1..]) + [blob] == [rest] + (blobs[1..] + [blob]);
      }
    }
  }

  /** Cutting one more piece in two keeps the relation. */
  lemma {:induction false} CutFurther(left: seq<bytes>, piece: bytes, right: seq<bytes>, blobs: seq<bytes>, k: nat)
    requires Cut(left + [piece] + right, blobs)
    requires 0 < k < |piece|
    ensures Cut(left + [piece[..k], piece[k..]] + right, blobs)
    decreases |left|
  {
    var before, after := left + [piece] + right, left + [piece[..k], piece[k..]] + right;
    if left == [] {
      assert before == [piece] + right && before[1..] == right;
      assert after == [piece[..k]] + ([piece[k..]] + right) && after[1..] == [piece[k..]] + right;
      var b := blobs[0];
      assert piece <= b;
      assert piece[..k] == b[..k];
      var blobs2 := [b[k..]] + blobs[1..];
      assert blobs2[1..] == blobs[1..] && after[1..][1..] == right;
      if piece == b {
        assert Cut(after[1..], blobs2);
      } else {
        assert piece[k..] == b[k..][..|piece| - k];
        assert b[k..][|piece| - k..] == b[|piece|..];
        assert Cut(after[1..], blobs2);
      }
    } else {
      assert before[1..] == left[1..] + [piece] + right;
      assert after[1..] == left[1..] + [piece[..k], piece[k..]] + right;
      if left[0] == blobs[0] {
        CutFurther(left[1..], piece, right, blobs[1..], k);
      } else {
        CutFurther(left[1..], piece, right, [blobs[0][|left[0]|..]] + blobs[1..], k);
      }
    }
  }

  /** One pop moves exactly the front of the queue to the delivered chunks. */
  lemma CutPop(chunks: seq<bytes>, q: seq<bytes>, blobs: seq<bytes>, length: nat)
    requires q != [] && Cut(chunks + q, blobs)
    ensures var (chunk, rest) := PopLocked(q, length); Cut((chunks + [chunk]) + rest, blobs)
  {
    assert chunks + q == chunks + [q[0]] + q[1..];
    var (chunk, rest) := PopLocked(q, length);
    if length != 0 && |q[0]| > length {
      CutFurther(chunks, q[0], q[1..], blobs, length);
      assert (chunks + [chunk]) + rest == chunks + [q[0][..length], q[0][length..]] + q[1..];
    } else {
      assert (chunks + [chunk]) + rest == chunks + q;
    }
  }

  lemma {:induction false} CutDrain(p: Pipe, chunks: seq<bytes>, blobs: seq<bytes>)
    requires Cut(chunks + p.q, blobs)
    ensures var (p', rs) := Drain(p); Cut((chunks + ChunksOf(rs)) + p'.q, blobs)
    decreases |p.parked|
  {
    if p.parked == [] || p.q == [] {
      assert chunks + ChunksOf([]) == chunks;
    } else {
      var (chunk, rest) := PopLocked(p.q, p.parked[0].length);
      var p1 := p.(q := rest, parked := p.parked[1..]);
      CutPop(chunks, p.q, blobs, p.parked[0].length);
      CutDrain(p1, chunks + [chunk], blobs);
      var (p', rs1) := Drain(p1);
      var (_, rs) := Drain(p);
      assert rs == [Reply(p.parked[0].seqnum, 0, chunk)] + rs1;
      assert rs[1..] == rs1;
      assert chunks + ChunksOf(rs) == (chunks + [chunk]) + ChunksOf(rs1);
    }
  }

  lemma {:induction false} StallsCarryNoData(parked: seq<Parked>)
    ensures ChunksOf(Stalls(parked)) == []
    ensures RepliedTo(Stalls(parked)) == SeqnumsOf(parked)
    ensures forall r :: r in Stalls(parked) ==> r.status == STALL_STATUS && r.data == []
  {
    if parked != [] {
      StallsCarryNoData(parked[1..]);
      assert Stalls(parked)[1..] == Stalls(parked[1..]);
    }
  }

  lemma AdvanceConserves(h: History, e: Event)
    requires Cut(h.chunks + h.pipe.q, h.written)
    ensures var h' := Advance(h, e); Cut(h'.chunks + h'.pipe.q, h'.written)
  {
    var p := h.pipe;
    match e {
      case EvWrite(data) =>
        CutAppend(h.chunks + p.q, h.written, data);
        assert (h.chunks + p.q) + [data] == h.chunks + (p.q + [data]);
        CutDrain(p.(q := p.q + [data]), h.chunks, h.written + [data]);
      case EvSubmit(length, seqnum) =>
        if !p.halted && p.q != [] {
          CutPop(h.chunks, p.q, h.written, length);
          ChunksOfOne(seqnum, PopLocked(p.q, length).0);
        } else {
          var (_, rs) := Submit(p, length, seqnum);
          NoDataReply(seqnum);
          assert h.chunks + ChunksOf(rs) == h.chunks;
        }
      case EvStall =>
        StallsCarryNoData(p.parked);
        assert h.chunks + [] == h.chunks;
      case EvReset =>
        assert EMPTY.q == [];
      case _ =>
        assert h.chunks + ChunksOf([]) == h.chunks;
    }
  }

  lemma ChunksOfOne(seqnum: nat, data: bytes)
    ensures ChunksOf([Reply(seqnum, 0, data)]) == [data]
  {
    assert [Reply(seqnum, 0, data)][1..] == [];
  }

  lemma NoDataReply(seqnum: nat)
    ensures ChunksOf([Reply(seqnum, STALL_STATUS, [])]) == []
  {
    assert [Reply(seqnum, STALL_STATUS, [])][1..] == [];
  }

  /** Conservation: over any run the delivered chunks followed by the queue are the
      blobs written since the last reset, cut but never lost, reordered or merged. */
  lemma {:induction false} RunConservesStream(es: seq<Event>)
    ensures var h := Run(es); Cut(h.chunks + h.pipe.q, h.written)
    ensures var h := Run(es); Flatten(h.chunks) + Flatten(h.pipe.q) == Flatten(h.written)
  {
    if es == [] {
      assert START.chunks + START.pipe.q == [];
    } else {
      RunConservesStream(es[..|es| - 1]);
      AdvanceConserves(Run(es[..|es| - 1]), es[|es| - 1]);
    }
    var h := Run(es);
    CutKeepsBytes(h.chunks + h.pipe.q, h.written);
    FlattenAppend(h.chunks, h.pipe.q);
  }

  lemma {:induction false} DrainSettles(p: Pipe)
    ensures var p' := Drain(p).0; (p'.q == [] || p'.parked == []) && p'.halted == p.halted
    ensures p.parked == [] ==> Drain(p).0.parked == []
    decreases |p.parked|
  {
    if p.parked != [] && p.q != [] {
      DrainSettles(p.(q := PopLocked(p.q, p.parked[0].length).1, parked := p.parked[1..]));
    }
  }

  /** No data is queued beside a parked URB, and a halted pipe parks nothing. */
  predicate Settled(p: Pipe) {
    (p.q == [] || p.parked == []) && (p.halted ==> p.parked == [])
  }

  lemma WriteSettles(p: Pipe, data: bytes)
    requires Settled(p)
    ensures Settled(Write(p, data).0)
  {
    DrainSettles(p.(q := p.q + [data]));
  }

  /** Every run leaves the pipe settled. */
  lemma {:induction false} RunSettles(es: seq<Event>)
    ensures Settled(Run(es).pipe)
  {
    if es != [] {
      RunSettles(es[..|es| - 1]);
      var p, e := Run(es[..|es| - 1]).pipe, es[|es| - 1];
      if e.EvWrite? {
        WriteSettles(p, e.data);
      } else if e.EvUnlink? {
        RemoveFromEmpty(p.parked, e.seqnum);
      }
    }
  }

  lemma RemoveFromEmpty(parked: seq<Parked>, seqnum: nat)
    ensures parked == [] ==> Remove(parked, seqnum) == []
  {
  }

  // ---- URB books -------------------------------------------------------------

  function Keep(s: seq<nat>, gone: set<nat>): seq<nat> {
    if s == [] then [] else (if s[0] in gone then [] else [s[0]]) + Keep(s[1..], gone)
  }

  ghost predicate Distinct<T>(s: seq<T>) {
    forall i, j :: 0 <= i < j < |s| ==> s[i] != s[j]
  }

  lemma {:induction false} KeepAppend(a: seq<nat>, b: seq<nat>, gone: set<nat>)
    ensures Keep(a + b, gone) == Keep(a, gone) + Keep(b, gone)
  {
    if a == [] {
      assert a + b == b;
    } else {
      KeepAppend(a[1..], b, gone);
      assert (a + b)[1..] == a[1..] + b;
      var first := if a[0] in gone then [] else [a[0]];
      Assoc(first, Keep(a[1..], gone), Keep(b, gone));
    }
  }

  lemma {:induction false} KeepTwice(s: seq<nat>, g1: set<nat>, g2: set<nat>)
    ensures Keep(s, g1 + g2) == Keep(Keep(s, g1), g2)
  {
    if s != [] {
      KeepTwice(s[1..], g1, g2);
      if s[0] !in g1 {
        assert Keep(s, g1)[1..] == Keep(s[1..], g1);
      } else {
        assert Keep(s, g1) == Keep(s[1..], g1);
      }
    }
  }

  lemma {:induction false} KeepAll(s: seq<nat>, gone: set<nat>)
    requires forall x :: x in s ==> x !in gone
    ensures Keep(s, gone) == s
  {
    if s != [] {
      KeepAll(s[1..], gone);
    }
  }

  lemma {:induction false} KeepNone(s: seq<nat>, gone: set<nat>)
    requires forall x :: x in s ==> x in gone
    ensures Keep(s, gone) == []
  {
    if s != [] {
      KeepNone(s[1..], gone);
    }
  }

  lemma {:induction false} KeepMembers(s: seq<nat>, gone: set<nat>)
    ensures forall x :: x in Keep(s, gone) <==> x in s && x !in gone
    ensures Distinct(s) ==> Distinct(Keep(s, gone))
  {
    if s != [] {
      KeepMembers(s[1..], gone);
    }
  }

  lemma {:induction false} RemoveIsKeep(parked: seq<Parked>, seqnum: nat)
    requires Distinct(SeqnumsOf(parked))
    ensures SeqnumsOf(Remove(parked, seqnum)) == Keep(SeqnumsOf(parked), {seqnum})
  {
    var s := SeqnumsOf(parked);
    if parked != [] {
      assert s[1..] == SeqnumsOf(parked[1..]);
      if parked[0].seqnum == seqnum {
        KeepAll(s[1..], {seqnum});
      } else {
        RemoveIsKeep(parked[1..], seqnum);
      }
    }
  }

  lemma {:induction false} RemoveSkips(parked: seq<Parked>, i: nat, seqnum: nat)
    requires i <= |parked|
    requires forall k :: 0 <= k < i ==> parked[k].seqnum != seqnum
    ensures Remove(parked, seqnum) == parked[..i] + Remove(parked[i..], seqnum)
  {
    if i > 0 {
      RemoveSkips(parked[1..], i - 1, seqnum);
      assert parked[1..][i - 1..] == parked[i..];
      assert [parked[0]] + parked[1..][..i - 1] == parked[..i];
      Assoc([parked[0]], parked[1..][..i - 1], Remove(parked[i..], seqnum));
    }
  }

  lemma {:induction false} DrainAnswersInOrder(p: Pipe)
    ensures var (p', rs) := Drain(p); RepliedTo(rs) + SeqnumsOf(p'.parked) == SeqnumsOf(p.parked)
    decreases |p.parked|
  {
    if p.parked != [] && p.q != [] {
      var k := p.parked[0];
      var p1 := p.(q := PopLocked(p.q, k.length).1, parked := p.parked[1..]);
      DrainAnswersInOrder(p1);
      var (p', rs1) := Drain(p1);
      RepliedToCons(Reply(k.seqnum, 0, PopLocked(p.q, k.length).0), rs1);
      SeqnumsCons(p.parked);
      Assoc([k.seqnum], RepliedTo(rs1), SeqnumsOf(p'.parked));
    }
  }

  lemma SeqnumsCons(parked: seq<Parked>)
    requires parked != []
    ensures SeqnumsOf(parked) == [parked[0].seqnum] + SeqnumsOf(parked[1..])
  {
  }

  lemma RepliedToCons(r: Reply, rs: seq<Reply>)
    ensures RepliedTo([r] + rs) == [r.seqnum] + RepliedTo(rs)
  {
  }

  /** The seqnums this run may still answer or has answered, in the order they must be. */
  ghost predicate Balanced(h: History) {
    && Distinct(h.submitted)
    && (forall s :: s in h.withdrawn ==> s in h.submitted)
    && RepliedTo(h.replies) + SeqnumsOf(h.pipe.parked) == Keep(h.submitted, h.withdrawn)
  }

  /** Withdrawing waiting seqnums removes them from the open end only. */
  lemma WithdrawWaiting(done: seq<nat>, waiting: seq<nat>, submitted: seq<nat>, withdrawn: set<nat>, gone: set<nat>)
    requires done + waiting == Keep(submitted, withdrawn)
    requires Distinct(submitted)
    requires forall s :: s in gone ==> s in waiting
    ensures done + Keep(waiting, gone) == Keep(submitted, withdrawn + gone)
    ensures Distinct(waiting)
    ensures forall s :: s in gone ==> s in submitted
  {
    KeepMembers(submitted, withdrawn);
    DistinctParts(done, waiting);
    KeepTwice(submitted, withdrawn, gone);
    KeepAppend(done, waiting, gone);
    KeepAll(done, gone);
    forall s | s in gone ensures s in submitted {
      assert s in done + waiting;
    }
  }

  lemma DistinctParts<T>(a: seq<T>, b: seq<T>)
    requires Distinct(a + b)
    ensures Distinct(a) && Distinct(b)
    ensures forall x :: x in a ==> x !in b
  {
    forall i, j | 0 <= i < j < |a| ensures a[i] != a[j] {
      assert (a + b)[i] != (a + b)[j];
    }
    forall i, j | 0 <= i < j < |b| ensures b[i] != b[j] {
      assert (a + b)[|a| + i] != (a + b)[|a| + j];
    }
    forall i, j | 0 <= i < |a| && 0 <= j < |b| ensures a[i] != b[j] {
      assert (a + b)[i] != (a + b)[|a| + j];
    }
  }

  lemma RepliedToAppend(a: seq<Reply>, b: seq<Reply>)
    ensures RepliedTo(a + b) == RepliedTo(a) + RepliedTo(b)
  {
  }

  lemma WriteBalanced(h: History, data: bytes)
    requires Balanced(h)
    ensures Balanced(Advance(h, EvWrite(data)))
  {
    var p := h.pipe;
    var (p', rs) := Write(p, data);
    var done := RepliedTo(h.replies);
    DrainAnswersInOrder(p.(q := p.q + [data]));
    RepliedToAppend(h.replies, rs);
    Assoc(done, RepliedTo(rs), SeqnumsOf(p'.parked));
  }

  lemma SubmitBalanced(h: History, length: nat, seqnum: nat)
    requires Balanced(h)
    requires h.pipe.q == [] || h.pipe.parked == []
    requires h.pipe.halted ==> h.pipe.parked == []
    requires seqnum !in h.submitted
    ensures Balanced(Advance(h, EvSubmit(length, seqnum)))
  {
    var p := h.pipe;
    var (p', rs) := Submit(p, length, seqnum);
    var done, waiting := RepliedTo(h.replies), SeqnumsOf(p.parked);
    KeepAppend(h.submitted, [seqnum], h.withdrawn);
    KeepAll([seqnum], h.withdrawn);
    RepliedToAppend(h.replies, rs);
    assert RepliedTo(rs) + SeqnumsOf(p'.parked) == waiting + [seqnum];
    Assoc(done, RepliedTo(rs), SeqnumsOf(p'.parked));
    Assoc(done, waiting, [seqnum]);
  }

  lemma UnlinkBalanced(h: History, seqnum: nat)
    requires Balanced(h)
    ensures Balanced(Advance(h, EvUnlink(seqnum)))
  {
    var waiting := SeqnumsOf(h.pipe.parked);
    assert h.replies + [] == h.replies;
    var gone := if seqnum in waiting then {seqnum} else {};
    WithdrawWaiting(RepliedTo(h.replies), waiting, h.submitted, h.withdrawn, gone);
    RemoveIsKeep(h.pipe.parked, seqnum);
    if gone == {} {
      KeepAll(waiting, {seqnum});
      KeepAll(waiting, gone);
    }
  }

  lemma StallBalanced(h: History)
    requires Balanced(h)
    ensures Balanced(Advance(h, EvStall))
  {
    var (p', rs) := Stall(h.pipe);
    StallsCarryNoData(h.pipe.parked);
    RepliedToAppend(h.replies, rs);
    var answered := RepliedTo(h.replies + rs);
    assert SeqnumsOf(p'.parked) == [] && answered + [] == answered;
  }

  lemma ResetBalanced(h: History)
    requires Balanced(h)
    ensures Balanced(Advance(h, EvReset))
  {
    var waiting := SeqnumsOf(h.pipe.parked);
    assert h.replies + [] == h.replies;
    WithdrawWaiting(RepliedTo(h.replies), waiting, h.submitted, h.withdrawn, Elements(waiting));
    KeepNone(waiting, Elements(waiting));
  }

  lemma AdvanceBalanced(h: History, e: Event)
    requires Balanced(h)
    requires h.pipe.q == [] || h.pipe.parked == []
    requires h.pipe.halted ==> h.pipe.parked == []
    requires e.EvSubmit? ==> e.seqnum !in h.submitted
    ensures Balanced(Advance(h, e))
  {
    match e {
      case EvWrite(data) => WriteBalanced(h, data);
      case EvSubmit(length, seqnum) => SubmitBalanced(h, length, seqnum);
      case EvUnlink(seqnum) => UnlinkBalanced(h, seqnum);
      case EvStall => StallBalanced(h);
      case EvClearHalt => assert h.replies + [] == h.replies;
      case EvReset => ResetBalanced(h);
    }
  }

  lemma {:induction false} SubmittedCameFromEvents(es: seq<Event>)
    ensures forall s :: s in Run(es).submitted ==> exists i :: 0 <= i < |es| && es[i] .EvSubmit? && es[i].seqnum == s
  {
    if es != [] {
      var init, e := es[..|es| - 1], es[|es| - 1];
      SubmittedCameFromEvents(init);
      forall s | s in Run(es).submitted
        ensures exists i :: 0 <= i < |es| && es[i].EvSubmit? && es[i].seqnum == s
      {
        if s in Run(init).submitted {
          var i :| 0 <= i < |init| && init[i].EvSubmit? && init[i].seqnum == s;
          assert es[i].EvSubmit? && es[i].seqnum == s;
        } else {
          assert es[|es| - 1].EvSubmit? && es[|es| - 1].seqnum == s;
        }
      }
    }
  }

  /** Exactly-once accounting and FIFO order in one equation: over any run with
      unique seqnums, the replies in the order they were sent, followed by the
      still-parked URBs, are the submitted URBs in submission order without those
      unlinked while parked or dropped by a reset. */
  lemma {:induction false} RunAccountsForEveryUrb(es: seq<Event>)
    requires UniqueSubmits(es)
    ensures var h := Run(es);
      && RepliedTo(h.replies) + SeqnumsOf(h.pipe.parked) == Keep(h.submitted, h.withdrawn)
      && Distinct(RepliedTo(h.replies) + SeqnumsOf(h.pipe.parked))
      && Balanced(h)
  {
    if es != [] {
      var init, e := es[..|es| - 1], es[|es| - 1];
      RunAccountsForEveryUrb(init);
      RunSettles(init);
      SubmittedCameFromEvents(init);
      AdvanceBalanced(Run(init), e);
    }
    KeepMembers(Run(es).submitted, Run(es).withdrawn);
  }

  ghost predicate Fits(asked: map<nat, nat>, r: Reply) {
    r.seqnum in asked && (r.status == 0 ==> asked[r.seqnum] == 0 || |r.data| <= asked[r.seqnum])
  }

  ghost predicate WithinRequests(h: History) {
    && (forall x :: x in h.replies ==> Fits(h.asked, x))
    && (forall k :: k in h.pipe.parked ==> k.seqnum in h.asked && h.asked[k.seqnum] == k.length)
    && (forall s :: s in h.asked <==> s in h.submitted)
  }

  lemma {:induction false} DrainFits(p: Pipe, asked: map<nat, nat>)
    requires forall k :: k in p.parked ==> k.seqnum in asked && asked[k.seqnum] == k.length
    ensures forall x :: x in Drain(p).1 ==> Fits(asked, x)
    ensures forall k :: k in Drain(p).0.parked ==> k in p.parked
    decreases |p.parked|
  {
    if p.parked != [] && p.q != [] {
      var k := p.parked[0];
      assert k in p.parked;
      DrainFits(p.(q := PopLocked(p.q, k.length).1, parked := p.parked[1..]), asked);
    }
  }

  lemma {:induction false} RemoveOnlyRemoves(parked: seq<Parked>, seqnum: nat)
    ensures forall k :: k in Remove(parked, seqnum) ==> k in parked
  {
    if parked != [] {
      RemoveOnlyRemoves(parked[1..], seqnum);
    }
  }

  /** Every successful reply answers a submitted URB and fits the length it asked for. */
  lemma {:induction false} RunRespectsLengths(es: seq<Event>)
    requires UniqueSubmits(es)
    ensures WithinRequests(Run(es))
  {
    if es != [] {
      var init, e := es[..|es| - 1], es[|es| - 1];
      RunRespectsLengths(init);
      SubmittedCameFromEvents(init);
      var h, p := Run(init), Run(init).pipe;
      match e {
        case EvWrite(data) => DrainFits(p.(q := p.q + [data]), h.asked);
        case EvSubmit(length, seqnum) => assert seqnum !in h.submitted;
        case EvUnlink(seqnum) => RemoveOnlyRemoves(p.parked, seqnum);
        case EvStall => StallAnswersParked(p.parked);
        case _ =>
      }
    }
  }

  lemma {:induction false} StallAnswersParked(parked: seq<Parked>)
    ensures forall r :: r in Stalls(parked) ==>
                r.status != 0 && exists k :: k in parked && k.seqnum == r.seqnum
  {
    if parked != [] {
      StallAnswersParked(parked[1..]);
      assert parked[0] in parked;
      forall r | r in Stalls(parked)
        ensures r.status != 0 && exists k :: k in parked && k.seqnum == r.seqnum
      {
        if r in Stalls(parked[1..]) {
          var k :| k in parked[1..] && k.seqnum == r.seqnum;
          assert k in parked;
        }
      }
    }
  }

  /** A halt answers every parked URB with a stall, in order and without data, and loses no data: what was
      queued before it is still there after it is cleared. */
  lemma HaltKeepsQueue(p: Pipe)
    ensures var rs := Step(p, EvStall).1;
            && RepliedTo(rs) == SeqnumsOf(p.parked)
            && forall i :: 0 <= i < |rs| ==> rs[i].status == STALL_STATUS && rs[i].data == []
    ensures Step(p, EvStall).0.parked == [] && Step(p, EvStall).0.halted
    ensures Step(Step(p, EvStall).0, EvClearHalt).0.q == p.q
    ensures forall length, seqnum :: Submit(Step(p, EvStall).0, length, seqnum)
                                     == (Step(p, EvStall).0, [Reply(seqnum, STALL_STATUS, [])])
  {
    StallsCarryNoData(p.parked);
    var rs := Step(p, EvStall).1;
    forall i | 0 <= i < |rs|
      ensures rs[i].status == STALL_STATUS && rs[i].data == []
    {
      assert rs[i] in Stalls(p.parked);
    }
  }
}
