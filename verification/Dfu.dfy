/** The DFU interface over linear byte stores: downloads, uploads and the error state. */
module Dfu {
  import opened Bytes

  datatype State = DfuIdle | DnloadSync | DnloadIdle | ManifestSync | UploadIdle | DfuError

  const OK: byte := 0
  const ERR_ADDRESS: byte := 8
  const BLOCKS: nat := 0x1_0000

  /** A file-backed target: the file's bytes, how many of them are the image, and its capacity (0: none). */
  datatype Store = Store(file: bytes, length: nat, capacity: nat) {
    predicate Valid() {
      length <= |file|
    }

    function Image(): bytes
      requires Valid()
    {
      file[..length]
    }

    predicate Fits(end: nat) {
      capacity == 0 || end <= capacity
    }
  }

  function Max(a: nat, b: nat): nat {
    if a >= b then a else b
  }

  /** Seek and write: a gap past the end of the file reads as zeros. */
  function FileWrite(file: bytes, off: nat, data: bytes): (r: bytes)
    ensures |r| == Max(|file|, off + |data|)
    ensures forall i :: 0 <= i < |data| ==> r[off + i] == data[i]
    ensures forall i :: 0 <= i < off && i < |file| ==> r[i] == file[i]
  {
    var padded := if |file| < off + |data| then file + seq(off + |data| - |file|, _ => 0) else file;
    Splice(padded, off, data)
  }

  datatype WriteResult = Written(store: Store) | Rejected(status: byte)

  /** `fault` is the status the target raises for a write it cannot make, OK when it raises none. */
  function StoreWrite(s: Store, off: nat, data: bytes, fault: byte): WriteResult {
    if !s.Fits(off + |data|) then Rejected(ERR_ADDRESS)
    else if fault != OK then Rejected(fault)
    else Written(s.(file := FileWrite(s.file, off, data), length := Max(s.length, off + |data|)))
  }

  function StoreRead(s: Store, off: nat, size: nat): (r: bytes)
    requires s.Valid()
    ensures |r| <= size
  {
    if off >= s.length then [] else s.file[off..if size <= s.length - off then off + size else s.length]
  }

  datatype Dev = Dev(state: State, status: byte, cur: nat, stores: seq<Store>, transferSize: nat) {
    predicate Valid() {
      cur < |stores| && forall i :: 0 <= i < |stores| ==> stores[i].Valid()
    }

    function Target(): Store
      requires Valid()
    {
      stores[cur]
    }

    function WithTarget(s: Store): (d: Dev)
      requires Valid() && s.Valid()
      ensures d.Valid() && d.Target() == s && |d.stores| == |stores|
      ensures forall i :: 0 <= i < |stores| && i != cur ==> d.stores[i] == stores[i]
    {
      this.(stores := stores[cur := s])
    }
  }

  datatype Request =
    | Dnload(block: nat, data: bytes, fault: byte)
    | Upload(block: nat, wLength: nat)
    | GetStatus
    | GetState
    | ClrStatus
    | Abort
    | Detach
    | SetAlt(alt: nat)
    | Other

  datatype Reply = Stalled | Answer(data: bytes)

  function StateCode(s: State): byte {
    match s
    case DfuIdle => 2
    case DnloadSync => 3
    case DnloadIdle => 5
    case ManifestSync => 6
    case UploadIdle => 9
    case DfuError => 10
  }

  function DnloadStep(d: Dev, block: nat, data: bytes, fault: byte): (r: Dev)
    requires d.Valid()
    ensures r.Valid()
  {
    var t := d.Target();
    if data == [] then
      d.WithTarget(t.(file := t.file[..t.length])).(state := ManifestSync, status := OK)
    else
      var begun := if block == 0 then t.(length := 0) else t;
      match StoreWrite(begun, Span(block, d.transferSize), data, fault)
      case Rejected(status) => d.WithTarget(begun).(state := DfuError, status := status)
      case Written(store) => d.WithTarget(store).(state := DnloadSync, status := OK)
  }

  function UploadChunk(d: Dev, block: nat, wLength: nat): bytes
    requires d.Valid()
  {
    StoreRead(d.Target(), Span(block, d.transferSize), if wLength <= d.transferSize then wLength else d.transferSize)
  }

  /** A write within the capacity, when there is one, is made at its offset, the file growing as needed with zeros;
      one past it is refused as a bad address, and one the target cannot make with its own status. */
  lemma WriteIsMade(s: Store, off: nat, data: bytes, fault: byte)
    requires s.Valid()
    ensures s.capacity != 0 && off + |data| > s.capacity ==> StoreWrite(s, off, data, fault) == Rejected(0x08)
    ensures s.capacity == 0 || off + |data| <= s.capacity ==>
              if fault != 0 then StoreWrite(s, off, data, fault) == Rejected(fault)
              else
                && StoreWrite(s, off, data, fault).Written?
                && var t := StoreWrite(s, off, data, fault).store;
                   var end := off + |data|;
                   && t.capacity == s.capacity && t.length == (if end > s.length then end else s.length)
                   && |t.file| == (if end > |s.file| then end else |s.file|)
                   && forall i :: 0 <= i < |t.file| ==>
                        t.file[i] == if off <= i < end then data[i - off] else if i < |s.file| then s.file[i] else 0
  {
  }

  /** What an upload sends: the image from the block's offset on, as much as there is, up to what the host asks for and
      what a transfer holds; and all of that unless the image ends. */
  lemma UploadTakes(d: Dev, block: nat, wLength: nat)
    requires d.Valid()
    ensures var chunk, from := UploadChunk(d, block, wLength), block * d.transferSize;
            var image := d.Target().Image();
            && |chunk| <= wLength && |chunk| <= d.transferSize
            && (from >= |image| ==> chunk == [])
            && (from < |image| ==> from + |chunk| <= |image| && chunk == image[from..from + |chunk|])
            && (from < |image| && |chunk| < wLength && |chunk| < d.transferSize ==> from + |chunk| == |image|)
  {
    hide Span;
    SpanIsProduct(block, d.transferSize);
    var t, from, n := d.Target(), block * d.transferSize, |UploadChunk(d, block, wLength)|;
    if from < t.length {
      SliceOfPrefix(t.file, t.length, from, from + n);
    }
  }

  function Step(d: Dev, r: Request): (after: Dev)
    requires d.Valid()
    ensures after.Valid()
  {
    match r
    case Dnload(block, data, fault) => DnloadStep(d, block, data, fault)
    case Upload(block, wLength) =>
      d.(state := if UploadChunk(d, block, wLength) != [] then UploadIdle else DfuIdle, status := OK)
    case GetStatus =>
      d.(state := if d.state == DnloadSync then DnloadIdle else if d.state == ManifestSync then DfuIdle else d.state)
    case GetState => d
    case ClrStatus => d.(state := DfuIdle, status := OK)
    case Abort => d.(state := DfuIdle, status := OK)
    case Detach => d
    case SetAlt(alt) => if alt < |d.stores| then d.(cur := alt, state := DfuIdle, status := OK) else d
    case Other => d
  }

  function Run(d: Dev, rs: seq<Request>): (after: Dev)
    requires d.Valid()
    ensures after.Valid()
    decreases |rs|
  {
    if rs == [] then d else Run(Step(d, rs[0]), rs[1..])
  }

  lemma {:induction false} RunAppend(d: Dev, a: seq<Request>, b: seq<Request>)
    requires d.Valid()
    ensures Run(d, a + b) == Run(Run(d, a), b)
    decreases |a|
  {
    hide Step;
    if a == [] {
      assert a + b == b;
    } else {
      RunAppend(Step(d, a[0]), a[1..], b);
      assert (a + b)[1..] == a[1..] + b;
    }
  }

  lemma RunOne(d: Dev, r: Request)
    requires d.Valid()
    ensures Run(d, [r]) == Step(d, r)
  {
    assert [r][1..] == [];
  }

  /** Over every run the status differs from OK exactly while the state is dfuERROR. */
  lemma {:induction false} StatusFollowsState(d: Dev, rs: seq<Request>)
    requires d.Valid()
    requires d.status != OK <==> d.state == DfuError
    ensures Run(d, rs).status != OK <==> Run(d, rs).state == DfuError
    decreases |rs|
  {
    if rs != [] {
      StatusFollowsState(Step(d, rs[0]), rs[1..]);
    }
  }

  // ---- a download ----

  /** The same target is selected and every other store is as it was. */
  predicate OthersKept(d: Dev, after: Dev) {
    && after.cur == d.cur && after.transferSize == d.transferSize
    && |after.stores| == |d.stores|
    && forall i :: 0 <= i < |d.stores| && i != d.cur ==> after.stores[i] == d.stores[i]
  }

  predicate IsPoll(r: Request) {
    r == GetStatus || r == GetState
  }

  predicate Polls(rs: seq<Request>) {
    forall i :: 0 <= i < |rs| ==> IsPoll(rs[i])
  }

  /** Polling changes no store and selects nothing. */
  lemma {:induction false} PollsOnlyLook(d: Dev, rs: seq<Request>)
    requires d.Valid() && Polls(rs)
    ensures var after := Run(d, rs);
            after.stores == d.stores && OthersKept(d, after) && after.status == d.status
    decreases |rs|
  {
    if rs != [] {
      PollsOnlyLook(Step(d, rs[0]), rs[1..]);
    }
  }

  /** Where block m starts, or the end of the image if it has fewer blocks. */
  function Reach(image: bytes, size: nat, m: nat): nat {
    if Span(m, size) <= |image| then Span(m, size) else |image|
  }

  function Block(image: bytes, size: nat, m: nat): (b: bytes)
    ensures |b| == Reach(image, size, m + 1) - Reach(image, size, m)
  {
    image[Reach(image, size, m)..Reach(image, size, m + 1)]
  }

  /** The requests of a download up to block `m`: each block, then whatever polls the host makes. */
  function Blocks(image: bytes, size: nat, polls: nat -> seq<Request>, m: nat): seq<Request> {
    if m == 0 then []
    else Blocks(image, size, polls, m - 1) + ([Dnload(m - 1, Block(image, size, m - 1), OK)] + polls(m - 1))
  }

  /** How much of the first m blocks a store of this capacity takes. */
  function Taken(image: bytes, size: nat, s: Store, m: nat): (t: nat)
    ensures t <= Reach(image, size, m)
    ensures s.Fits(Reach(image, size, m)) ==> t == Reach(image, size, m)
  {
    if m == 0 then 0
    else if s.Fits(Reach(image, size, m)) then Reach(image, size, m)
    else Taken(image, size, s, m - 1)
  }

  predicate Holds(d: Dev, image: bytes, taken: nat)
    requires d.Valid()
  {
    && taken <= |image|
    && d.Target().length == taken
    && d.Target().Image() == image[..taken]
  }

  lemma WriteExtends(s: Store, image: bytes, lo: nat, hi: nat)
    requires s.Valid() && s.length == lo <= hi <= |image| && s.Image() == image[..lo] && s.Fits(hi)
    ensures var w := StoreWrite(s, lo, image[lo..hi], OK);
            w.Written? && w.store.Valid() && w.store.length == hi && w.store.Image() == image[..hi]
            && w.store.capacity == s.capacity
  {
    hide FileWrite;
    var r := FileWrite(s.file, lo, image[lo..hi]);
    forall i | 0 <= i < hi
      ensures r[i] == image[i]
    {
      if i < lo {
        assert s.Image()[i] == image[i];
      } else {
        assert r[lo + (i - lo)] == image[lo..hi][i - lo];
      }
    }
    assert r[..hi] == image[..hi];
  }

  /** One block, sent in order: stored whole if the store reaches that far, refused otherwise. */
  lemma OneBlock(d: Dev, image: bytes, size: nat, m: nat)
    requires d.Valid() && d.transferSize == size && Span(m, size) < |image| && size > 0
    requires m > 0 ==> Holds(d, image, Taken(image, size, d.Target(), m))
    ensures var after := Step(d, Dnload(m, Block(image, size, m), OK));
            && Holds(after, image, Taken(image, size, d.Target(), m + 1))
            && after.Target().capacity == d.Target().capacity
            && OthersKept(d, after)
            && (after.status == OK <==> d.Target().Fits(Reach(image, size, m + 1)))
  {
    hide FileWrite;
    var t := d.Target();
    var begun := if m == 0 then t.(length := 0) else t;
    var lo, hi := Span(m, size), Reach(image, size, m + 1);
    var data := Block(image, size, m);
    assert begun.Image() == image[..begun.length];
    if t.Fits(hi) {
      WriteExtends(begun, image, lo, hi);
    }
  }

  /** After m blocks the target holds the part of them it has room for. */
  lemma {:induction false} AfterBlocks(d: Dev, image: bytes, polls: nat -> seq<Request>, m: nat)
    requires d.Valid() && d.transferSize > 0 && m > 0
    requires Span(m - 1, d.transferSize) < |image|
    requires forall i: nat :: Polls(polls(i))
    ensures var after := Run(d, Blocks(image, d.transferSize, polls, m));
            && Holds(after, image, Taken(image, d.transferSize, d.Target(), m))
            && after.Target().capacity == d.Target().capacity
            && OthersKept(d, after)
    decreases m
  {
    var size := d.transferSize;
    var before := Run(d, Blocks(image, size, polls, m - 1));
    if m > 1 {
      AfterBlocks(d, image, polls, m - 1);
      assert before.Target().capacity == d.Target().capacity;
      TakenByCapacity(image, size, before.Target(), d.Target(), m - 1);
    }
    var request := Dnload(m - 1, Block(image, size, m - 1), OK);
    OneBlock(before, image, size, m - 1);
    TakenByCapacity(image, size, before.Target(), d.Target(), m);
    var sent := Step(before, request);
    RunAppend(d, Blocks(image, size, polls, m - 1), [request] + polls(m - 1));
    RunAppend(before, [request], polls(m - 1));
    RunOne(before, request);
    PollsOnlyLook(sent, polls(m - 1));
  }

  lemma {:induction false} TakenByCapacity(image: bytes, size: nat, a: Store, b: Store, m: nat)
    requires a.capacity == b.capacity
    ensures Taken(image, size, a, m) == Taken(image, size, b, m)
  {
    if m > 0 {
      TakenByCapacity(image, size, a, b, m - 1);
    }
  }

  /** How many blocks the image is cut into. */
  function BlockCount(n: nat, size: nat): (m: nat)
    requires size > 0
    ensures Span(m, size) >= n
    ensures m > 0 ==> Span(m - 1, size) < n
  {
    if n == 0 then 0 else BlocksFrom(n, size, 1)
  }

  function BlocksFrom(n: nat, size: nat, m: nat): (r: nat)
    requires size > 0 && m > 0 && Span(m - 1, size) < n
    ensures r > 0 && Span(r, size) >= n && Span(r - 1, size) < n
    decreases n - Span(m - 1, size)
  {
    if Span(m, size) >= n then m else BlocksFrom(n, size, m + 1)
  }

  lemma BlockNumbersFit(n: nat, size: nat)
    requires size > 0 && n <= Span(BLOCKS, size)
    ensures BlockCount(n, size) <= BLOCKS
  {
    var m := BlockCount(n, size);
    if m > BLOCKS {
      SpanMonotone(BLOCKS, m - 1, size);
    }
  }

  /** A whole download: the blocks in order with polls between them, a zero-length block, and more polls. */
  function Download(image: bytes, size: nat, polls: nat -> seq<Request>): seq<Request>
    requires size > 0
  {
    var m := BlockCount(|image|, size);
    Blocks(image, size, polls, m) + ([Dnload(m, [], OK)] + polls(m))
  }

  /** The zero-length block commits what is held and leaves the status OK. */
  lemma Commits(d: Dev, m: nat, rs: seq<Request>)
    requires d.Valid() && Polls(rs)
    ensures var after := Run(d, [Dnload(m, [], OK)] + rs);
            && after.Target().Image() == d.Target().Image() == after.Target().file
            && OthersKept(d, after) && after.status == OK
  {
    var request := Dnload(m, [], OK);
    RunAppend(d, [request], rs);
    RunOne(d, request);
    PollsOnlyLook(Step(d, request), rs);
  }

  /**
   * A download leaves exactly the image in the selected target just when the target has room for it
   * and the image is not empty (an empty download keeps the old image). Other targets are untouched.
   * The status reads OK at the end either way: a block out of room shows only to a host that polls.
   */
  lemma DownloadStores(d: Dev, image: bytes, polls: nat -> seq<Request>)
    requires d.Valid() && d.transferSize > 0
    requires |image| <= Span(BLOCKS, d.transferSize)
    requires forall i: nat :: Polls(polls(i))
    ensures var after := Run(d, Download(image, d.transferSize, polls));
            && (after.Target().Image() == image <==>
                if image == [] then d.Target().Image() == []
                 else d.Target().capacity == 0 || |image| <= d.Target().capacity)
            && after.Target().file == after.Target().Image()
            && (image == [] ==> after.Target().Image() == d.Target().Image())
            && OthersKept(d, after) && after.status == OK
    ensures BlockCount(|image|, d.transferSize) <= BLOCKS
  {
    hide FileWrite, Step;
    var size := d.transferSize;
    var m := BlockCount(|image|, size);
    BlockNumbersFit(|image|, size);
    var stored := Run(d, Blocks(image, size, polls, m));
    RunAppend(d, Blocks(image, size, polls, m), [Dnload(m, [], OK)] + polls(m));
    Commits(stored, m, polls(m));
    if m > 0 {
      AfterBlocks(d, image, polls, m);
      TakenIsAllIfFits(image, size, d.Target(), m);
      assert image[..|image|] == image;
    }
  }

  lemma TakenIsAllIfFits(image: bytes, size: nat, s: Store, m: nat)
    requires size > 0 && m == BlockCount(|image|, size) && m > 0
    ensures Taken(image, size, s, m) == |image| <==> s.Fits(|image|)
  {
  }

  /** The codes of DFU 1.1, section 6.1.2. */
  lemma StateCodes()
    ensures StateCode(DfuIdle) == 2 && StateCode(DnloadSync) == 3 && StateCode(DnloadIdle) == 5
    ensures StateCode(ManifestSync) == 6 && StateCode(UploadIdle) == 9 && StateCode(DfuError) == 10
  {
  }

  /** A status poll ends the synchronising states: a stored block waits for the next, a committed image is idle. */
  lemma PollsSettle(d: Dev)
    requires d.Valid()
    ensures var after := Step(d, GetStatus).state;
            && after != DnloadSync && after != ManifestSync
            && (d.state == DnloadSync ==> after == DnloadIdle) && (d.state == ManifestSync ==> after == DfuIdle)
            && (d.state != DnloadSync && d.state != ManifestSync ==> after == d.state)
    ensures Step(d, ClrStatus).state == DfuIdle && Step(d, Abort).state == DfuIdle && Step(d, GetState) == d
    ensures Step(d, ClrStatus).status == OK && Step(d, Abort).status == OK
  {
  }

  // ---- an upload ----

  /** A host that reads blocks from `m` until a short one; None if block numbers run out first. */
  function UploadFrom(d: Dev, m: nat): Option<bytes>
    requires d.Valid()
    decreases BLOCKS - m
  {
    if m >= BLOCKS then
      None
    else
      var chunk := UploadChunk(d, m, d.transferSize);
      if |chunk| < d.transferSize then
        Some(chunk)
      else
        match UploadFrom(Step(d, Upload(m, d.transferSize)), m + 1)
        case None => None
        case Some(rest) => Some(chunk + rest)
  }

  lemma ChunkOfImage(d: Dev, m: nat)
    requires d.Valid() && Span(m, d.transferSize) <= d.Target().length
    ensures var at := Span(m, d.transferSize);
            var chunk := UploadChunk(d, m, d.transferSize);
            var image := d.Target().Image();
            if at + d.transferSize <= |image| then
              chunk == image[at..at + d.transferSize] && image[at..] == chunk + image[at + d.transferSize..]
            else
              chunk == image[at..]
  {
    var at, size, t := Span(m, d.transferSize), d.transferSize, d.Target();
    if at >= t.length {
      SplitAt(t.Image(), at, at);
    } else {
      if at + size <= t.length {
        SliceOfPrefix(t.file, t.length, at, at + size);
        SplitAt(t.Image(), at, at + size);
      } else {
        SliceOfPrefix(t.file, t.length, at, t.length);
      }
    }
  }

  /** The upload gives the image back exactly when the image is shorter than 65536 whole blocks. */
  lemma {:induction false} UploadReads(d: Dev, m: nat)
    requires d.Valid() && d.transferSize > 0 && m <= BLOCKS
    requires Span(m, d.transferSize) <= d.Target().length
    ensures UploadFrom(d, m) == if d.Target().length < Span(BLOCKS, d.transferSize)
                                then Some(d.Target().Image()[Span(m, d.transferSize)..])
                                else None
    decreases BLOCKS - m
  {
    if m < BLOCKS {
      var size := d.transferSize;
      ChunkOfImage(d, m);
      if Span(m, size) + size <= d.Target().length {
        UploadReads(Step(d, Upload(m, size)), m + 1);
      } else {
        SpanMonotone(m + 1, BLOCKS, size);
      }
    }
  }

  /** Download then upload gives the image back exactly when it was stored and is shorter than 65536 blocks. */
  lemma DownloadUploadRoundTrip(d: Dev, image: bytes, polls: nat -> seq<Request>)
    requires d.Valid() && d.transferSize > 0
    requires |image| <= Span(BLOCKS, d.transferSize)
    requires forall i: nat :: Polls(polls(i))
    ensures UploadFrom(Run(d, Download(image, d.transferSize, polls)), 0) == Some(image)
       <==> && |image| < Span(BLOCKS, d.transferSize)
            && (if image == [] then d.Target().Image() == []
                 else d.Target().capacity == 0 || |image| <= d.Target().capacity)
  {
    hide Download, Run;
    DownloadStores(d, image, polls);
    var after := Run(d, Download(image, d.transferSize, polls));
    UploadReads(after, 0);
    assert after.Target().Image()[0..] == after.Target().Image();
  }

  // ---- the objects ----

  class FileTarget {
    var file: bytes
    var length: nat
    const capacity: nat

    ghost function Value(): Store
      reads this
    {
      Store(file, length, capacity)
    }

    constructor (contents: bytes, capacity: nat)
      ensures Value() == Store(contents, |contents|, capacity)
    {
      file, length := contents, |contents|;
      this.capacity := capacity;
    }

    method Write(off: nat, data: bytes, fault: byte) returns (status: byte)
      modifies this
      ensures match StoreWrite(old(Value()), off, data, fault)
              case Rejected(s) => status == s && s != OK && Value() == old(Value())
              case Written(s) => status == OK && Value() == s
    {
      if capacity != 0 && off + |data| > capacity {
        return ERR_ADDRESS;
      }
      if fault != OK {
        return fault;
      }
      file := FileWrite(file, off, data);
      length := Max(length, off + |data|);
      return OK;
    }

    method Read(off: nat, size: nat) returns (r: bytes)
      requires Value().Valid()
      ensures r == StoreRead(Value(), off, size)
    {
      if off >= length {
        return [];
      }
      var n := if size <= length - off then size else length - off;
      r := file[off..off + n];
    }

    method BeginDownload()
      modifies `length
      ensures length == 0
    {
      length := 0;
    }

    method FinishDownload()
      requires Value().Valid()
      modifies `file
      ensures file == old(file)[..length]
    {
      file := file[..length];
    }
  }

  class DfuInterface {
    const targets: seq<FileTarget>
    const transferSize: nat
    var state: State
    var status: byte
    var cur: nat

    ghost function Stores(): (stores: seq<Store>)
      reads this, targets
      ensures |stores| == |targets|
      ensures forall i :: 0 <= i < |targets| ==> stores[i] == targets[i].Value()
    {
      seq(|targets|, i requires 0 <= i < |targets| reads this, targets => targets[i].Value())
    }

    ghost function Value(): Dev
      reads this, targets
    {
      Dev(state, status, cur, Stores(), transferSize)
    }

    ghost predicate Valid()
      reads this, targets
    {
      && cur < |targets|
      && (forall i, j :: 0 <= i < j < |targets| ==> targets[i] != targets[j])
      && (forall i :: 0 <= i < |targets| ==> targets[i].Value().Valid())
      && (status != OK <==> state == DfuError)
    }

    constructor (targets: seq<FileTarget>, transferSize: nat)
      requires |targets| > 0
      requires forall i, j :: 0 <= i < j < |targets| ==> targets[i] != targets[j]
      requires forall i :: 0 <= i < |targets| ==> targets[i].Value().Valid()
      ensures Valid() && this.targets == targets && this.transferSize == transferSize
      ensures state == DfuIdle && status == OK && cur == 0
    {
      this.targets, this.transferSize := targets, transferSize;
      state, status, cur := DfuIdle, OK, 0;
    }

    method SelectAlt(alt: nat)
      requires Valid()
      modifies this
      ensures Valid() && Value() == Step(old(Value()), SetAlt(alt))
    {
      if alt < |targets| {
        cur := alt;
        state, status := DfuIdle, OK;
      }
    }

    twostate lemma OneTargetChanged()
      requires cur < |targets| && cur == old(cur)
      requires forall i :: 0 <= i < |targets| && i != cur ==> targets[i].Value() == old(targets[i].Value())
      ensures Stores() == old(Stores())[cur := targets[cur].Value()]
    {
    }

    method FinishDownload()
      requires Valid()
      modifies this, targets
      ensures Valid() && Value() == Step(old(Value()), Dnload(0, [], OK))
    {
      targets[cur].FinishDownload();
      state, status := ManifestSync, OK;
      OneTargetChanged();
    }

    method StoreBlock(block: nat, data: bytes, fault: byte)
      requires Valid() && data != []
      modifies this, targets
      ensures Valid() && Value() == Step(old(Value()), Dnload(block, data, fault))
    {
      hide FileWrite, StoreRead;
      var target := targets[cur];
      if block == 0 {
        target.BeginDownload();
      }
      SpanIsProduct(block, transferSize);
      var error := target.Write(block * transferSize, data, fault);
      if error != OK {
        status := error;
        state := DfuError;
      } else {
        state, status := DnloadSync, OK;
      }
      OneTargetChanged();
    }

    method DoDnload(block: nat, data: bytes, fault: byte) returns (reply: Reply)
      requires Valid()
      modifies this, targets
      ensures Valid() && Value() == Step(old(Value()), Dnload(block, data, fault)) && reply == Answer([])
    {
      if data == [] {
        FinishDownload();
      } else {
        StoreBlock(block, data, fault);
      }
      return Answer([]);
    }

    method DoUpload(block: nat, wLength: nat) returns (reply: Reply)
      requires Valid()
      modifies this
      ensures Valid() && Value() == Step(old(Value()), Upload(block, wLength))
      ensures reply == Answer(UploadChunk(old(Value()), block, wLength))
    {
      SpanIsProduct(block, transferSize);
      var chunk := targets[cur].Read(block * transferSize, if wLength <= transferSize then wLength else transferSize);
      state := if chunk != [] then UploadIdle else DfuIdle;
      status := OK;
      return Answer(chunk);
    }

    method OnControl(request: Request) returns (reply: Reply)
      requires Valid() && !request.SetAlt?
      modifies this, targets
      ensures Valid() && Value() == Step(old(Value()), request)
      ensures reply == match request
                       case Upload(block, wLength) => Answer(UploadChunk(old(Value()), block, wLength))
                       case GetStatus => Answer([status, 0, 0, 0, StateCode(state), 0])
                       case GetState => Answer([StateCode(state)])
                       case Other => Stalled
                       case _ => Answer([])
    {
      match request {
        case Dnload(block, data, fault) =>
          reply := DoDnload(block, data, fault);
        case Upload(block, wLength) =>
          reply := DoUpload(block, wLength);
        case GetStatus =>
          if state == DnloadSync {
            state := DnloadIdle;
          } else if state == ManifestSync {
            state := DfuIdle;
          }
          reply := Answer([status, 0, 0, 0, StateCode(state), 0]);
        case GetState =>
          reply := Answer([StateCode(state)]);
        case ClrStatus =>
          state, status := DfuIdle, OK;
          reply := Answer([]);
        case Abort =>
          state, status := DfuIdle, OK;
          reply := Answer([]);
        case Detach =>
          reply := Answer([]);
        case Other =>
          reply := Stalled;
      }
    }
  }
}
