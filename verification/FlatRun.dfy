/** Runs of file operations: the buffered handle against a flat byte sequence with one position. */
module FlatRun {
  import opened Apr
  import opened Bytes
  import opened Handle
  import opened FileOps

  datatype Op = OpRead(n: nat) | OpWrite(data: seq<byte>) | OpFlush | OpSeek(whence: Whence, offset: int) | OpSize

  datatype Result =
    | GotBytes(data: seq<byte>, status: int)
    | Done(status: int)
    | AtPosition(moved: bool, pos: int)
    | HasSize(status: int, size: nat)

  /** What the operation does to a flat file, and what the caller is told. */
  function FlatStep(f: FlatFile, op: Op): (FlatFile, Result) {
    match op
    case OpRead(n) =>
      var m := Min(n, Max(0, |f.contents| - f.pos));
      var got := if 0 <= f.pos && 0 < m then f.contents[f.pos..f.pos + m] else [];
      (f.(pos := f.pos + m), GotBytes(got, if m > 0 || n == 0 then APR_SUCCESS else APR_EOF))
    case OpWrite(data) =>
      (if 0 <= f.pos then FlatFile(Overwrite(f.contents, f.pos, data), f.pos + |data|) else f, Done(APR_SUCCESS))
    case OpFlush => (f, Done(APR_SUCCESS))
    case OpSeek(whence, offset) =>
      var target := match whence case Set => offset case Cur => f.pos + offset case End => |f.contents| + offset;
      if target < 0 then (f, AtPosition(false, f.pos)) else (f.(pos := target), AtPosition(true, target))
    case OpSize => (f, HasSize(APR_SUCCESS, |f.contents|))
  }

  function FlatFold(f: FlatFile, ops: seq<Op>): (FlatFile, seq<Result>) {
    if ops == [] then (f, [])
    else
      var (g, results) := FlatFold(f, ops[..|ops| - 1]);
      var (h, r) := FlatStep(g, ops[|ops| - 1]);
      (h, results + [r])
  }

  lemma FoldStep(f: FlatFile, ops: seq<Op>, i: nat)
    requires i < |ops|
    ensures var (g, results) := FlatFold(f, ops[..i]);
      var (h, r) := FlatStep(g, ops[i]);
      FlatFold(f, ops[..i + 1]) == (h, results + [r])
  {
    assert ops[..i + 1][..i] == ops[..i];
  }

  /** What is written is what a later read from there returns. */
  lemma WriteThenReadBack(f: FlatFile, data: seq<byte>)
    requires 0 <= f.pos && data != []
    ensures var written := FlatStep(f, OpWrite(data)).0;
            var rewound := FlatStep(written, OpSeek(Set, f.pos)).0;
            FlatStep(rewound, OpRead(|data|)) == (written, GotBytes(data, APR_SUCCESS))
  {
    OverwriteAt(f.contents, f.pos, data);
    assert Overwrite(f.contents, f.pos, data)[f.pos..f.pos + |data|] == data;
  }

  // ---- the handle beside the flat file ------------------------------------------------------------------

  /** What the handle tells where the flat file tells `r`: positions are off by the drift. */
  function Shown(r: Result, drift: int): Result {
    match r
    case AtPosition(moved, pos) => AtPosition(moved, pos + drift)
    case _ => r
  }

  /** Lengths and seek targets that fit a C `int`. */
  predicate Fits(h: State, op: Op)
    requires Shape(h)
  {
    match op
    case OpWrite(data) => |data| < 0x8000_0000
    case OpSeek(whence, offset) => Target(h, whence, offset) < 0x8000_0000
    case _ => true
  }

  /** A write that finds bytes read ahead and not yet delivered. */
  predicate Unread(h: State, op: Op) {
    op.OpWrite? && h.direction == 0 && h.bufpos != h.dataRead
  }

  /**
   * The state an operation may start from: anything in step. Out of step a write must find nothing
   * unread, an absolute seek must need the kernel, and a relative one must not need it (or lead in
   * front of the file by both counts).
   */
  predicate Guard(h: State, op: Op)
    requires Shape(h)
  {
    || Drift(h) == 0
    || match op
       case OpWrite(data) => !Unread(h, op)
       case OpSeek(Cur, offset) =>
         Stays(h, Reported(h) + offset) || (Reported(h) + offset < 0 && Pos(h) + offset < 0)
       case OpSeek(whence, offset) => !Stays(h, Target(h, whence, offset))
       case _ => true
  }

  /** How far the handle is off after an undisturbed operation. */
  ghost function DriftAfter(h: State, op: Op): int
    requires Shape(h)
  {
    match op
    case OpWrite(data) => if Unread(h, op) then h.dataRead - h.bufpos else Drift(h)
    case OpSeek(whence, offset) =>
      var target := Target(h, whence, offset);
      if Stays(h, target) || target < 0 then Drift(h) else 0
    case _ => Drift(h)
  }

  /** An operation took the handle from `h` to `h'`, reporting `r`, as it would the flat file of `h`. */
  ghost predicate Agrees(h: State, op: Op, h': State, r: Result)
    requires Shape(h) && Shape(h')
  {
    var (f, told) := FlatStep(Flat(h), op);
    Flat(h') == f && r == Shown(told, Drift(h'))
  }

  /** An undisturbed operation agrees with the flat file exactly under its guard; a write leaves write mode on. */
  ghost predicate Follows(h: State, op: Op, h': State, r: Result)
    requires Shape(h) && Shape(h')
  {
    && (Agrees(h, op, h', r) <==> Guard(h, op))
    && (Guard(h, op) ==> Drift(h') == DriftAfter(h, op))
    && (op.OpWrite? ==> h'.direction == 1)
  }

  /** A write that went through is that of the flat file exactly under the guard. */
  lemma WriteFollows(h: State, h': State, data: seq<byte>)
    requires Coherent(h) && Coherent(h') && h.buffered && h'.direction == 1
    requires var entered := Entered(h, true);
      Coherent(entered) && Drift(h') == Drift(entered) && Flat(h') == FlatWrite(Flat(entered), data)
    ensures Follows(h, OpWrite(data), h', Done(APR_SUCCESS))
  {
    if h.direction == 0 { SwitchToWriteKeepsFlatIff(h); }
  }

  /** So is a seek. */
  lemma SeekFollows(h: State, h': State, whence: Whence, offset: int, rc: int)
    requires Coherent(h) && Coherent(h') && Contents(h') == Contents(h)
    requires var target := Target(h, whence, offset);
      && (rc == APR_SUCCESS <==> Stays(h, target) || 0 <= target)
      && (rc == APR_SUCCESS ==> Reported(h') == target && Drift(h') == if Stays(h, target) then Drift(h) else 0)
      && (rc != APR_SUCCESS ==> Flat(h') == Flat(h) && Drift(h') == Drift(h))
    ensures Follows(h, OpSeek(whence, offset), h', AtPosition(rc == APR_SUCCESS, Reported(h')))
  {
    var target := Target(h, whence, offset);
    assert 0 <= Pos(h) && 0 <= Pos(h');
    if rc == APR_SUCCESS { assert Pos(h') == target - Drift(h'); }
  }

  /** A read that delivered what there was is that of the flat file. */
  lemma ReadFollows(h: State, h': State, n: nat, b: seq<byte>, b': seq<byte>, status: int, delivered: nat)
    requires Coherent(h) && Coherent(h') && Drift(h') == Drift(h)
    requires Flat(h') == Flat(h).(pos := Pos(h) + delivered)
    requires delivered == Min(n, Max(0, |Contents(h)| - Pos(h))) && delivered <= Pos(h') && |b| == n
    requires Copied(b, b', 0, Contents(h'), Pos(h') - delivered, delivered)
    requires status == if delivered > 0 || n == 0 then APR_SUCCESS else APR_EOF
    ensures Follows(h, OpRead(n), h', GotBytes(b'[..delivered], status))
  {
    if 0 < delivered { CopiedSlice(b, b', 0, Contents(h'), Pos(h') - delivered, delivered); }
    assert b'[0..delivered] == b'[..delivered];
  }

  method PerformRead(f: LklFile, n: nat) returns (r: Result)
    requires f.Valid() && f.buffered
    modifies f, f.buffer, f.kernel
    ensures f.Valid() && f.kernel.Books().Later(old(f.kernel.Books()))
    ensures f.kernel.Books() == old(f.kernel.Books()) ==> Follows(old(f.View()), OpRead(n), f.View(), r)
  {
    hide Follows, Overwrite, Copied;
    var buf := new byte[n];
    ghost var h, b := f.View(), buf[..];
    var status, nbytes;
    ghost var delivered;
    status, nbytes, delivered := f.Read(buf, 0, n);
    r := GotBytes(buf[..nbytes], status);
    if f.kernel.Books() == old(f.kernel.Books()) { ReadFollows(h, f.View(), n, b, buf[..], status, delivered); }
  }

  method PerformWrite(f: LklFile, data: seq<byte>) returns (r: Result)
    requires f.Valid() && f.buffered && |data| < 0x8000_0000
    modifies f, f.buffer, f.kernel
    ensures f.Valid() && f.kernel.Books().Later(old(f.kernel.Books()))
    ensures f.kernel.Books() == old(f.kernel.Books()) ==> Follows(old(f.View()), OpWrite(data), f.View(), r)
  {
    hide Follows, Overwrite;
    StoredAllIff(true, data);
    var status, nbytes;
    ghost var accepted, seekOk;
    status, nbytes, accepted, seekOk := f.Write(data);
    r := Done(status);
    if f.kernel.Books() == old(f.kernel.Books()) {
      assert data[..|data|] == data;
      WriteFollows(old(f.View()), f.View(), data);
    }
  }

  method PerformSeek(f: LklFile, whence: Whence, offset: int) returns (r: Result)
    requires f.Valid() && f.buffered && Target(f.View(), whence, offset) < 0x8000_0000
    modifies f, f.buffer, f.kernel
    ensures f.Valid() && f.kernel.Books().Later(old(f.kernel.Books()))
    ensures f.kernel.Books() == old(f.kernel.Books()) ==> Follows(old(f.View()), OpSeek(whence, offset), f.View(), r)
  {
    hide Follows, Overwrite;
    var rc, newOffset := f.Seek(whence, offset);
    r := AtPosition(rc == APR_SUCCESS, newOffset);
    if f.kernel.Books() == old(f.kernel.Books()) { SeekFollows(old(f.View()), f.View(), whence, offset, rc); }
  }

  /**
   * One operation on a buffered handle, in step or not: undisturbed, it does to the flat file what
   * `FlatStep` says, and reports positions off by the drift, exactly when its guard held.
   */
  method Perform(f: LklFile, op: Op) returns (r: Result)
    requires f.Valid() && f.buffered && Fits(f.View(), op)
    modifies f, f.buffer, f.kernel
    ensures f.Valid() && f.kernel.Books().Later(old(f.kernel.Books()))
    ensures f.kernel.Books() == old(f.kernel.Books()) ==> Follows(old(f.View()), op, f.View(), r)
  {
    match op
    case OpRead(n) =>
      r := PerformRead(f, n);
    case OpWrite(data) =>
      r := PerformWrite(f, data);
    case OpFlush =>
      var rv := f.Flush();
      r := Done(rv);
    case OpSeek(whence, offset) =>
      r := PerformSeek(f, whence, offset);
    case OpSize =>
      var rc, size := f.InfoGet();
      r := HasSize(rc, size);
  }

  /** From `h` a write, a seek back to where it went and a read of as much, each as `Perform` does them. */
  lemma ReadsBack(h: State, h1: State, h2: State, h3: State, data: seq<byte>, w: Result, s: Result, back: Result)
    requires Coherent(h) && Coherent(h1) && Coherent(h2) && Coherent(h3)
    requires data != [] && 0 <= Drift(h) && Guard(h, OpWrite(data))
    requires Follows(h, OpWrite(data), h1, w) && Follows(h1, OpSeek(Set, Pos(h)), h2, s)
    requires Follows(h2, OpRead(|data|), h3, back)
    ensures back == GotBytes(data, APR_SUCCESS) && Flat(h3) == FlatWrite(Flat(h), data) && Drift(h3) == 0
  {
    hide Contents, Overwrite;
    WriteThenReadBack(Flat(h), data);
    assert Pos(h1) == Pos(h) + |data| && 0 <= Drift(h1);
    assert !Stays(h1, Pos(h));
  }

  /**
   * What is written through a handle that is not behind, to the right place, is read back from
   * there, and the seek in between puts the handle in step.
   */
  method WriteAndReadBack(f: LklFile, data: seq<byte>) returns (back: Result)
    requires f.Valid() && f.buffered && data != [] && |data| < 0x8000_0000 && Pos(f.View()) < 0x8000_0000
    modifies f, f.buffer, f.kernel
    ensures f.Valid() && f.kernel.Books().Later(old(f.kernel.Books()))
    ensures f.kernel.Books() == old(f.kernel.Books())
            && 0 <= old(Drift(f.View())) && old(Guard(f.View(), OpWrite(data))) ==>
      && back == GotBytes(data, APR_SUCCESS)
      && Flat(f.View()) == FlatWrite(old(Flat(f.View())), data) && Synced(f.View())
  {
    hide Follows, Guard, Flat, FlatWrite;
    var at := Pos(f.View());
    ghost var h := f.View();
    var w := Perform(f, OpWrite(data));
    ghost var h1 := f.View();
    var s := Perform(f, OpSeek(Set, at));
    ghost var h2 := f.View();
    back := Perform(f, OpRead(|data|));
    if f.kernel.Books() == old(f.kernel.Books()) && 0 <= Drift(h) && Guard(h, OpWrite(data)) {
      ReadsBack(h, h1, h2, f.View(), data, w, s, back);
    }
  }

  // ---- whole runs ----------------------------------------------------------------------------------------

  /** Every answer is that of the flat run, positions off by the drift at that point. */
  ghost predicate AllShown(results: seq<Result>, told: seq<Result>, drifts: seq<int>) {
    |results| == |told| == |drifts| && forall i :: 0 <= i < |results| ==> results[i] == Shown(told[i], drifts[i])
  }

  /**
   * What `done`, a run so far, has come to: the flat file is that of the flat run and so is every
   * answer up to the drift. A run from a handle in step has no drift until a write finds bytes
   * unread, and none larger than the buffer after that.
   */
  ghost predicate Tracks(start: State, done: seq<Op>, now: State, results: seq<Result>, drifts: seq<int>, unread: bool)
    requires Shape(start) && Shape(now)
  {
    && Flat(now) == FlatFold(Flat(start), done).0
    && AllShown(results, FlatFold(Flat(start), done).1, drifts)
    && Drift(now) == (if drifts == [] then Drift(start) else drifts[|drifts| - 1])
    && (Drift(start) == 0 ==> 0 <= Drift(now) <= 4096 && forall d :: d in drifts ==> 0 <= d <= 4096)
    && (Drift(start) == 0 && !unread ==> Drift(now) == 0 && forall d :: d in drifts ==> d == 0)
  }

  lemma TracksStart(h: State)
    requires Shape(h)
    ensures Tracks(h, [], h, [], [], false)
  {
  }

  lemma TracksStep(start: State, ops: seq<Op>, i: nat, now: State, results: seq<Result>, drifts: seq<int>, unread: bool,
                   next: State, r: Result)
    requires Shape(start) && Coherent(now) && Shape(next) && i < |ops|
    requires Tracks(start, ops[..i], now, results, drifts, unread)
    requires Guard(now, ops[i]) && Follows(now, ops[i], next, r)
    ensures Tracks(start, ops[..i + 1], next, results + [r], drifts + [Drift(next)], unread || Unread(now, ops[i]))
  {
    hide FlatFold, FlatStep, Flat, Guard;
    FoldStep(Flat(start), ops, i);
  }

  /** Without drift what is shown is what the flat run tells. */
  lemma NoDriftShowsAll(results: seq<Result>, told: seq<Result>, drifts: seq<int>)
    requires AllShown(results, told, drifts) && forall d :: d in drifts ==> d == 0
    ensures results == told
  {
    assert forall i :: 0 <= i < |drifts| ==> drifts[i] in drifts;
  }

  /**
   * Any run of operations on a buffered handle over a kernel that neither fails nor writes short
   * nor interrupts reads, stopping in front of the first operation that would part the handle from
   * the flat file or overflow a C `int` (`ok` says there was none). `unread` tells whether a write
   * found bytes unread; without that a run from a handle in step reports exactly what the flat run
   * reports.
   */
  method Replay(f: LklFile, ops: seq<Op>) returns (results: seq<Result>, ok: bool, unread: bool, ghost drifts: seq<int>)
    requires f.Valid() && f.buffered
    modifies f, f.buffer, f.kernel
    ensures f.Valid() && f.kernel.Books().Later(old(f.kernel.Books()))
    ensures |results| <= |ops| && (ok <==> |results| == |ops|)
    ensures !ok ==> !(Fits(f.View(), ops[|results|]) && Guard(f.View(), ops[|results|]))
    ensures f.kernel.Books() == old(f.kernel.Books()) ==>
      Tracks(old(f.View()), ops[..|results|], f.View(), results, drifts, unread)
    ensures f.kernel.Books() == old(f.kernel.Books()) && Synced(old(f.View())) && !unread ==>
      Synced(f.View()) && (Flat(f.View()), results) == FlatFold(old(Flat(f.View())), ops[..|results|])
  {
    hide FlatFold, FlatStep, Flat, Follows, Tracks, Guard, Fits, Unread;
    results, ok, unread, drifts := [], true, false, [];
    ghost var k, start := f.kernel.Books(), f.View();
    TracksStart(start);
    while |results| < |ops|
      invariant f.Valid() && f.kernel.Books().Later(k) && |results| <= |ops|
      invariant f.kernel.Books() == k ==> Tracks(start, ops[..|results|], f.View(), results, drifts, unread)
    {
      var h, op := f.View(), ops[|results|];
      if !Fits(h, op) || !Guard(h, op) {
        ok := false;
        break;
      }
      var r := Perform(f, op);
      if f.kernel.Books() == k { TracksStep(start, ops, |results|, h, results, drifts, unread, f.View(), r); }
      results, drifts, unread := results + [r], drifts + [Drift(f.View())], unread || Unread(h, op);
    }
    if f.kernel.Books() == k && Synced(start) && !unread {
      TracksInStep(start, ops[..|results|], f.View(), results, drifts);
    }
  }

  lemma TracksInStep(start: State, done: seq<Op>, now: State, results: seq<Result>, drifts: seq<int>)
    requires Synced(start) && Coherent(now) && Tracks(start, done, now, results, drifts, false)
    ensures Synced(now) && (Flat(now), results) == FlatFold(Flat(start), done)
  {
    hide FlatFold, Flat;
    NoDriftShowsAll(results, FlatFold(Flat(start), done).1, drifts);
  }

  /** A run, and then a close that succeeds: the file on disk is what the flat run ends with. */
  method ReplayAndClose(f: LklFile, ops: seq<Op>)
    returns (results: seq<Result>, ok: bool, unread: bool, status: int, ghost drifts: seq<int>)
    requires f.Valid() && f.buffered
    modifies f, f.buffer, f.kernel
    ensures |results| <= |ops| && (ok <==> |results| == |ops|)
    ensures f.kernel.Books() == old(f.kernel.Books()) ==>
      && status == APR_SUCCESS && !f.kernel.open
      && f.kernel.contents == FlatFold(old(Flat(f.View())), ops[..|results|]).0.contents
      && AllShown(results, FlatFold(old(Flat(f.View())), ops[..|results|]).1, drifts)
      && (Synced(old(f.View())) && !unread ==> results == FlatFold(old(Flat(f.View())), ops[..|results|]).1)
  {
    results, ok, unread, drifts := Replay(f, ops);
    status := f.Close();
  }
}
