/**
 * The state of a file handle as a value, and the flat file it stands for.
 *
 * In read mode the buffer is the stretch of the file that ends at the kernel offset; in write
 * mode it is a pending overwrite that starts there. `filePtr` is the handle's own record of the
 * kernel offset, and `Drift` is how far that record is off.
 */
module Handle {
  import opened Apr
  import opened Bytes
  import opened Kernel

  const BUFSIZE: nat := 4096

  datatype State = State(
    buffered: bool,
    buffer: seq<byte>,
    bufpos: int,
    dataRead: int,
    direction: int,
    filePtr: int,
    disk: seq<byte>,
    kernelPos: nat)

  /** What a caller of a file sees: its bytes and one position. */
  datatype FlatFile = FlatFile(contents: seq<byte>, pos: int)

  /** All buffer indices are in range; holds in every reachable state whatsoever. */
  ghost predicate Shape(h: State) {
    && |h.buffer| == (if h.buffered then BUFSIZE else 0)
    && 0 <= h.bufpos <= |h.buffer| && 0 <= h.dataRead <= |h.buffer|
    && (h.direction == 0 || h.direction == 1)
    && (h.direction == 0 ==> h.bufpos <= h.dataRead)
    && (h.direction == 1 ==> h.buffered && h.dataRead == 0)
  }

  /** The buffer agrees with the file: in read mode it is the slice ending at the kernel offset. */
  ghost predicate Coherent(h: State) {
    && Shape(h)
    && h.dataRead <= h.kernelPos
    && (h.dataRead > 0 ==> h.kernelPos <= |h.disk|)
    && (forall i :: 0 <= i < h.dataRead ==> h.buffer[i] == h.disk[h.kernelPos - h.dataRead + i])
  }

  function Drift(h: State): int { h.filePtr - h.kernelPos }

  /** The handle is in step with the kernel: the refinement invariant. */
  ghost predicate Synced(h: State) {
    Coherent(h) && Drift(h) == 0
  }

  /** The bytes accepted but not yet handed to the kernel. */
  ghost function Pending(h: State): seq<byte>
    requires Shape(h)
  {
    if h.direction == 1 then h.buffer[..h.bufpos] else []
  }

  ghost function Contents(h: State): seq<byte>
    requires Shape(h)
  {
    Overwrite(h.disk, h.kernelPos, Pending(h))
  }

  /** Where the next byte will be read or written. */
  function Pos(h: State): int { h.kernelPos - h.dataRead + h.bufpos }

  /** Where the handle says the next byte will be read or written. */
  function Reported(h: State): int { h.filePtr - h.dataRead + h.bufpos }

  ghost function Flat(h: State): FlatFile
    requires Shape(h)
  {
    FlatFile(Contents(h), Pos(h))
  }

  /** The flat file after `data` is written at its position. */
  ghost function FlatWrite(f: FlatFile, data: seq<byte>): FlatFile
    requires 0 <= f.pos
  {
    FlatFile(Overwrite(f.contents, f.pos, data), f.pos + |data|)
  }

  /** Writing a prefix of `data` and then the next `n` bytes is one write of both. */
  lemma FlatWriteStep(f: FlatFile, data: seq<byte>, done: nat, n: nat)
    requires 0 <= f.pos && done + n <= |data|
    ensures FlatWrite(FlatWrite(f, data[..done]), data[done..][..n]) == FlatWrite(f, data[..done + n])
  {
    OverwriteStep(f.contents, f.pos, data, done, n);
  }

  // ---- single kernel interactions -------------------------------------------------------------

  /** The handle after a flush for which the kernel took `w` of the pending bytes. */
  ghost function FlushTo(h: State, w: nat): State
    requires Shape(h) && w <= |Pending(h)|
  {
    if Pending(h) == [] then h
    else h.(disk := Overwrite(h.disk, h.kernelPos, h.buffer[..w]),
            kernelPos := h.kernelPos + w, filePtr := h.filePtr + w, bufpos := 0)
  }

  /** The handle once a write finds it in read mode: the kernel is sent to the reported position. */
  ghost function SwitchToWrite(h: State, seekOk: bool): State
    requires Shape(h)
  {
    var target := Reported(h);
    h.(kernelPos := if target != h.filePtr && seekOk && target >= 0 then target else h.kernelPos,
       bufpos := 0, dataRead := 0, direction := 1)
  }

  /** The handle once a read or a seek has emptied the write buffer. */
  function SwitchToRead(h: State): State {
    if h.direction == 1 then h.(bufpos := 0, dataRead := 0, direction := 0) else h
  }

  predicate InBuffer(h: State, pos: int) {
    0 <= pos - (h.filePtr - h.dataRead) <= h.dataRead
  }

  /** A seek answered from the buffer alone. */
  function SeekInBuffer(h: State, pos: int): State {
    h.(bufpos := pos - (h.filePtr - h.dataRead))
  }

  /** The handle after the kernel filled the read buffer with `n` bytes from its offset on. */
  function RefillTo(h: State, n: nat): State
    requires n <= |h.buffer| && h.kernelPos + n <= |h.disk|
  {
    h.(buffer := h.disk[h.kernelPos..h.kernelPos + n] + h.buffer[n..],
       kernelPos := h.kernelPos + n, filePtr := h.filePtr + n, bufpos := 0, dataRead := n)
  }

  /** The handle after `n` buffered bytes went to the reader. */
  function TakeTo(h: State, n: nat): State { h.(bufpos := h.bufpos + n) }

  /** The handle after `s` went into the write buffer. */
  function AcceptTo(h: State, s: seq<byte>): State
    requires 0 <= h.bufpos && h.bufpos + |s| <= |h.buffer|
  {
    h.(buffer := h.buffer[..h.bufpos] + s + h.buffer[h.bufpos + |s|..], bufpos := h.bufpos + |s|)
  }

  /** Whether a seek to `pos` is answered without the kernel, once the write buffer is empty. */
  predicate Stays(h: State, pos: int) {
    if h.direction == 1 then pos == Reported(h) else InBuffer(h, pos)
  }

  /** A seek the kernel carried out; the answer passes through a C `int` before it is tested. */
  function SeekKernel(h: State, pos: nat): State {
    if CInt(pos) >= 0 then h.(kernelPos := pos, filePtr := pos, bufpos := 0, dataRead := 0)
    else h.(kernelPos := pos)
  }

  // ---- what the operations promise ------------------------------------------------------------------

  /** Reading took the handle from `h` to `h'` and copied `delivered` bytes into `b` at `at`. */
  ghost predicate ReadSoFar(h: State, h': State, k: Account, k': Account, b: seq<byte>, b': seq<byte>,
                            at: nat, delivered: nat)
  {
    && Coherent(h) && Coherent(h') && k'.Later(k) && h'.buffered == h.buffered
    && (h.buffered ==> Drift(h') == Drift(h))
    && (0 < delivered || h.direction == 0 ==> h'.direction == 0)
    // The bytes copied are those of the file up to the new position, in their order.
    && delivered <= Pos(h')
    && Copied(b, b', at, Contents(h'), Pos(h') - delivered, delivered)
    && (h.direction == 0 || k'.shortWrites == k.shortWrites ==> Flat(h') == Flat(h).(pos := Pos(h) + delivered))
  }

  lemma ReadSoFarStart(h: State, k: Account, b: seq<byte>, at: nat)
    requires Coherent(h) && at <= |b|
    ensures ReadSoFar(h, h, k, k, b, b, at, 0)
  {
  }

  /** Reading that begins in read mode stays there and moves on by what it copied. */
  lemma ReadSoFarInReadMode(h: State, h': State, k: Account, k': Account, b: seq<byte>, b': seq<byte>,
                            at: nat, delivered: nat)
    requires ReadSoFar(h, h', k, k', b, b', at, delivered) && h.direction == 0
    ensures k'.Later(k) && h'.direction == 0 && Coherent(h') && Shape(h')
    ensures Flat(h') == Flat(h).(pos := Pos(h) + delivered)
    ensures 0 < delivered ==> Pos(h') <= |Contents(h')|
  {
  }

  /** Copying from the buffer and moving past what was copied is reading. */
  lemma TakeIsRead(h: State, n: nat, k: Account, b: seq<byte>, b': seq<byte>, at: nat)
    requires Coherent(h) && h.direction == 0 && h.bufpos + n <= h.dataRead
    requires Copied(b, b', at, h.buffer, h.bufpos, n)
    ensures Coherent(TakeTo(h, n)) && ReadSoFar(h, TakeTo(h, n), k, k, b, b', at, n)
  {
    var h' := TakeTo(h, n);
    assert Pending(h') == [] && Contents(h') == h.disk;
  }

  /** A refill, whether or not it got anything, reads nothing. */
  lemma RefillReadsNothing(h: State, h': State, k: Account, k': Account, b: seq<byte>, at: nat)
    requires Coherent(h) && Coherent(h') && h.direction == 0 && h'.direction == 0 && h'.buffered == h.buffered
    requires Drift(h') == Drift(h) && Pos(h') == Pos(h) && h'.disk == h.disk && k'.Later(k) && at <= |b|
    ensures ReadSoFar(h, h', k, k', b, b, at, 0)
  {
  }

  /** A refill keeps the buffer a slice of the file, and the place where the next byte comes from. */
  lemma RefillIsCoherent(h: State, buffer: seq<byte>, n: nat)
    requires Coherent(h) && h.direction == 0 && h.bufpos >= h.dataRead
    requires n <= |h.buffer| && h.kernelPos + n <= |h.disk| && Copied(h.buffer, buffer, 0, h.disk, h.kernelPos, n)
    ensures Coherent(RefillTo(h, n)) && Drift(RefillTo(h, n)) == Drift(h) && Pos(RefillTo(h, n)) == Pos(h)
    ensures RefillTo(h, n).buffer == buffer
  {
  }

  /** More reading continues what was read so far. */
  lemma ReadSoFarStep(h: State, h1: State, h2: State, k: Account, k1: Account, k2: Account,
                      b: seq<byte>, b1: seq<byte>, b2: seq<byte>, at: nat, delivered: nat, got: nat)
    requires ReadSoFar(h, h1, k, k1, b, b1, at, delivered)
    requires ReadSoFar(h1, h2, k1, k2, b1, b2, at + delivered, got)
    ensures ReadSoFar(h, h2, k, k2, b, b2, at, delivered + got)
    ensures k1.Later(k) && k2.Later(k1) && (k1 != k || k2 != k1 ==> k2 != k)
  {
    if delivered > 0 {
      CopiedConcat(b, b1, b2, at, Contents(h2), Pos(h2) - got - delivered, delivered, got);
    }
  }

  /**
   * The outcome of a read of `size` bytes. `delivered` is the number of bytes really copied: it is
   * what `nbytes` says unless the flush in front failed, after which `nbytes` still reads `size`.
   * Bytes never come with an end of file or an error.
   */
  ghost predicate ReadOutcome(h: State, h': State, k: Account, k': Account,
                              size: nat, status: int, nbytes: nat, delivered: nat)
    requires Shape(h')
  {
    && delivered <= size
    && (status == APR_SUCCESS ==> nbytes == delivered && (0 < delivered || size == 0))
    && (status == APR_EOF ==> nbytes == 0 && Pos(h') >= |Contents(h')|)
    && (status != APR_SUCCESS ==> delivered == 0 && size > 0)
    // A flush in front that fails: nothing moved, and the count is wrong exactly then.
    && (nbytes != delivered <==> 0 < size && h'.direction == 1)
    && (nbytes != delivered ==>
          nbytes == size && status == APR_EINVAL && h' == h && h.direction == 1 && k'.faults > k.faults)
    && (status != APR_SUCCESS && status != APR_EOF ==> k' != k && (!h.buffered ==> k'.faults > k.faults))
  }

  ghost predicate ReadPost(h: State, h': State, k: Account, k': Account, b: seq<byte>, b': seq<byte>,
                           at: nat, size: nat, status: int, nbytes: nat, delivered: nat)
  {
    ReadSoFar(h, h', k, k', b, b', at, delivered) && ReadOutcome(h, h', k, k', size, status, nbytes, delivered)
  }

  /** A write of `data` that took the handle from `h` to `h'` and made `accepted` bytes part of the file. */
  ghost predicate WritePost(h: State, h': State, k: Account, k': Account, data: seq<byte>,
                            status: int, accepted: nat, seekOk: bool)
  {
    && Coherent(h) && Coherent(h') && k'.Later(k) && h'.direction == 1
    && (status == APR_SUCCESS || status == APR_EINVAL)
    && (status == APR_SUCCESS <==> accepted == |data|)
    && (status == APR_SUCCESS && seekOk <==> k'.faults == k.faults)
    && accepted <= |data|
    && var entered := Entered(h, seekOk);
       Coherent(entered) && Drift(h') == Drift(entered)
       && (k'.shortWrites == k.shortWrites ==> Flat(h') == FlatWrite(Flat(entered), data[..accepted]))
  }

  ghost function Entered(h: State, seekOk: bool): State
    requires Shape(h)
  {
    if h.direction == 1 then h else SwitchToWrite(h, seekOk)
  }

  /**
   * A seek to `target` that took the handle from `h` to `h'`. Unless a short write lost bytes on
   * the way or the target overflows a C `int`, no byte changes; on success the position reported
   * is the target, and the handle is in step unless it answered from the buffer; a failure leaves
   * the flat file as it was.
   */
  ghost predicate SeekPost(h: State, h': State, k: Account, k': Account, target: int, rc: int)
  {
    && Shape(h) && Shape(h') && k'.Later(k)
    && (k'.shortWrites == k.shortWrites && (target < 0 || 0 <= CInt(target)) ==>
          && Coherent(h')
          && Contents(h') == Contents(h)
          && (rc == APR_SUCCESS ==> Reported(h') == target && (Stays(h, target) || 0 <= target))
          && (rc == APR_SUCCESS ==> Drift(h') == if Stays(h, target) then Drift(h) else 0)
          && (rc != APR_SUCCESS ==> Flat(h') == Flat(h) && Drift(h') == Drift(h))
          && (rc != APR_SUCCESS ==> (target < 0 && !Stays(h, target)) || k'.faults > k.faults))
  }

  /** Setting the position to `pos`: through `mid`, the handle as it is once out of write mode. */
  ghost predicate SetPtrPost(h: State, mid: State, h': State, k: Account, k': Account, pos: int, rv: int)
  {
    && Coherent(h) && Shape(h') && h.buffered && h'.buffered && k'.Later(k)
    // The flush in front failed: nothing moved.
    && (h'.direction == 1 ==> rv == APR_EINVAL && h' == h && k'.faults > k.faults && k'.shortWrites == k.shortWrites)
    && (h'.direction == 0 ==>
          && LeavePost(h, mid, k, k')
          && (InBuffer(mid, pos) ==> rv == APR_SUCCESS && h' == SeekInBuffer(mid, pos))
          && (!InBuffer(mid, pos) ==>
                || (0 <= pos && h' == SeekKernel(mid, pos) && (rv == APR_SUCCESS <==> 0 <= CInt(pos)))
                || (0 < rv < 4096 && h' == mid && (pos < 0 || k'.faults > k.faults))))
  }

  /** Out of write mode: `mid` is `h` in read mode, with every byte at the kernel. */
  ghost predicate LeavePost(h: State, mid: State, k: Account, k': Account) {
    && Coherent(h) && Coherent(mid) && mid.direction == 0 && mid.buffered == h.buffered && mid.disk == Contents(mid)
    && Drift(mid) == Drift(h) && k'.Later(k)
    && (h.direction == 0 ==> mid == h)
    && (h.direction == 1 ==> mid.dataRead == 0)
    && (k'.shortWrites == k.shortWrites ==> Flat(mid) == Flat(h))
  }

  lemma SetPtrIsSeek(h: State, mid: State, h': State, k: Account, k': Account, pos: int, rv: int)
    requires SetPtrPost(h, mid, h', k, k', pos, rv)
    ensures SeekPost(h, h', k, k', pos, rv)
  {
    if h'.direction == 0 { assert Pending(h') == [] && Contents(h') == h'.disk == mid.disk; }
  }

  /** A seek behind a size query, which may have flushed, is a seek. */
  lemma SeekBehindFlush(h: State, mid: State, h': State, k: Account, k1: Account, k': Account,
                        target: int, asked: int, rc: int)
    requires Coherent(h) && Coherent(mid) && k1.Later(k) && Drift(mid) == Drift(h)
    requires mid.direction == h.direction && (mid.direction == 0 ==> mid == h)
    requires k1.shortWrites == k.shortWrites ==> Flat(mid) == Flat(h) && asked == target
    requires SeekPost(mid, h', k1, k', asked, rc)
    ensures SeekPost(h, h', k, k', target, rc)
  {
    if k1.shortWrites == k.shortWrites {
      assert Pos(mid) == Pos(h) && Reported(mid) == Reported(h);
      assert Stays(mid, target) <==> Stays(h, target);
    }
  }

  /** A seek that ends in front of the kernel's answer, its flush or size query having failed. */
  lemma SeekRefused(h: State, mid: State, k: Account, k': Account, target: int, rc: int)
    requires Coherent(h) && Coherent(mid) && k'.Later(k) && Drift(mid) == Drift(h)
    requires k'.shortWrites == k.shortWrites ==> Flat(mid) == Flat(h)
    requires rc != APR_SUCCESS && k'.faults > k.faults
    ensures SeekPost(h, mid, k, k', target, rc)
  {
  }

  /** A read loop run from read mode, with the flush in front, is a read. */
  lemma FillIsRead(h: State, mid: State, h': State, k: Account, k1: Account, k': Account,
                   b: seq<byte>, b': seq<byte>, at: nat, size: nat, rv: int, done: nat)
    requires LeavePost(h, mid, k, k1) && 0 < size
    requires ReadPost(mid, h', k1, k', b, b', at, size, rv, done, done)
    ensures ReadPost(h, h', k, k', b, b', at, size, rv, done, done)
  {
  }

  /** Taking bytes into the buffer in write mode writes them at the flat position. */
  lemma AcceptIsWrite(h: State, h': State, s: seq<byte>)
    requires Coherent(h) && h.direction == 1 && h.bufpos + |s| <= BUFSIZE && h' == AcceptTo(h, s)
    ensures Coherent(h') && Flat(h') == FlatWrite(Flat(h), s) && Drift(h') == Drift(h)
  {
    assert Pending(h') == Pending(h) + s;
    OverwriteConcat(h.disk, h.kernelPos, Pending(h), s);
  }

  /** A run of write turns that took the handle from `h` to `h'` and made `data` part of the file. */
  ghost predicate WriteSoFar(h: State, h': State, k: Account, k': Account, data: seq<byte>) {
    && Coherent(h) && Coherent(h') && h.direction == 1 && h'.direction == 1 && k'.Later(k)
    && Drift(h') == Drift(h)
    && (k'.shortWrites == k.shortWrites ==> Flat(h') == FlatWrite(Flat(h), data))
  }

  lemma WriteSoFarStart(h: State, k: Account)
    requires Coherent(h) && h.direction == 1
    ensures WriteSoFar(h, h, k, k, [])
  {
  }

  lemma WriteSoFarStep(h: State, h1: State, h2: State, k: Account, k1: Account, k2: Account,
                       data: seq<byte>, done: nat, n: nat)
    requires done + n <= |data|
    requires WriteSoFar(h, h1, k, k1, data[..done]) && WriteSoFar(h1, h2, k1, k2, data[done..][..n])
    ensures WriteSoFar(h, h2, k, k2, data[..done + n])
  {
    FlatWriteStep(Flat(h), data, done, n);
  }

  // ---- what each single interaction does to the flat file --------------------------------------------------

  /** A flush keeps the flat file exactly when the kernel takes every pending byte. */
  lemma FlushKeepsFlatIff(h: State, w: nat)
    requires Coherent(h) && w <= |Pending(h)|
    ensures Coherent(FlushTo(h, w)) && Drift(FlushTo(h, w)) == Drift(h)
    ensures Flat(FlushTo(h, w)) == Flat(h) <==> w == |Pending(h)|
    ensures w == |Pending(h)| ==> FlushTo(h, w).disk == Contents(h)
  {
    var f := FlushTo(h, w);
    if Pending(h) != [] {
      assert Pos(f) == h.kernelPos + w && Pos(h) == h.kernelPos + |Pending(h)|;
      assert Pending(f) == [];
    }
  }

  /** Leaving write mode after a flush changes no byte and no position. */
  lemma SwitchToReadKeepsFlat(h: State)
    requires Coherent(h) && Pending(h) == []
    ensures Coherent(SwitchToRead(h)) && Drift(SwitchToRead(h)) == Drift(h)
    ensures Flat(SwitchToRead(h)) == Flat(h)
  {
  }

  /**
   * Entering write mode keeps the bytes and the place they go to exactly when nothing was buffered
   * unread or the handle was in step; otherwise they go where the handle says it is. The handle's
   * record of the position stays behind by what was unread, so it is in step afterwards exactly
   * when it was before and nothing was unread.
   */
  lemma SwitchToWriteKeepsFlatIff(h: State)
    requires Coherent(h) && h.buffered && h.direction == 0
    ensures var s := SwitchToWrite(h, true);
      && Coherent(s)
      && (Flat(s) == Flat(h) <==> h.bufpos == h.dataRead || Drift(h) == 0)
      && (h.bufpos == h.dataRead || Reported(h) < 0 ==> Pos(s) == h.kernelPos && Drift(s) == Drift(h))
      && (h.bufpos != h.dataRead && 0 <= Reported(h) ==> Pos(s) == Reported(h) && Drift(s) == h.dataRead - h.bufpos)
      && (Synced(s) <==> Synced(h) && h.bufpos == h.dataRead)
  {
    var s := SwitchToWrite(h, true);
    assert Pending(s) == [] && Pending(h) == [];
  }

  /** The kernel refusing that seek, which nobody looks at, sends the bytes to the wrong place. */
  lemma IgnoredSeekFailureMovesPosition(h: State)
    requires Coherent(h) && h.buffered && h.direction == 0
    ensures Flat(SwitchToWrite(h, false)) == Flat(h) <==> h.bufpos == h.dataRead
  {
    var s := SwitchToWrite(h, false);
    assert Pending(s) == [] && Pending(h) == [];
  }

  /** Reading one byte of a two-byte file and then writing leaves the handle one byte off. */
  lemma DriftExample()
    ensures exists h :: (
      && Synced(h) && h.buffered && h.direction == 0 && Pos(h) == 1 && |h.disk| == 2
      && Reported(SwitchToWrite(h, true)) == 2 && Pos(SwitchToWrite(h, true)) == 1
      && !Synced(SwitchToWrite(h, true)))
  {
    var buffer := seq(BUFSIZE, i => if i == 0 then 65 as byte else 66);
    var h := State(true, buffer, 1, 2, 0, 2, [65, 66], 2);
    assert Synced(h) && Reported(SwitchToWrite(h, true)) == 2;
  }

  /** A handle just opened on the file "ABCDEFGH", with anything in its buffer. */
  function OnEightBytes(buffer: seq<byte>): State {
    State(true, buffer, 0, 0, 0, 0, [65, 66, 67, 68, 69, 70, 71, 72], 0)
  }

  /** Reading the next byte, the kernel filling the empty buffer with `n` bytes. */
  function ReadOne(h: State, n: nat): State
    requires n <= |h.buffer| && h.kernelPos + n <= |h.disk|
  {
    TakeTo(RefillTo(h, n), 1)
  }

  /** Read one byte, then write an 'X': it goes to the right place, but the handle is 7 bytes off. */
  lemma FirstSwitchExample(buffer: seq<byte>)
    requires |buffer| == BUFSIZE
    ensures Synced(OnEightBytes(buffer))
    ensures var written := AcceptTo(SwitchToWrite(ReadOne(OnEightBytes(buffer), 8), true), [88]);
      && Pos(written) == 2 && Reported(written) == 9 && written.filePtr == 8
      && Pending(written) == [88] && written.direction == 1 && written.buffered
      && |written.buffer| == BUFSIZE && written.kernelPos == 1
      && written.disk == OnEightBytes(buffer).disk
  {
  }

  /**
   * Read one byte, write one, read one, write one. The first write puts the handle out of step, and
   * the second, finding bytes unread again, goes to where the handle believes it is: its byte lands
   * at 10, behind the end of the file, and not at 3.
   */
  lemma SecondSwitchExample(buffer: seq<byte>)
    requires |buffer| == BUFSIZE
    ensures var written := AcceptTo(SwitchToWrite(ReadOne(OnEightBytes(buffer), 8), true), [88]);
      |Pending(written)| == 1 && FlushTo(written, 1).disk == [65, 88, 67, 68, 69, 70, 71, 72]
    ensures var written := AcceptTo(SwitchToWrite(ReadOne(OnEightBytes(buffer), 8), true), [88]);
      var again := ReadOne(SwitchToRead(FlushTo(written, 1)), 6);
      var last := AcceptTo(SwitchToWrite(again, true), [89]);
      && again.buffer[0] == 67 && Pos(again) == 3 && Reported(again) == 10
      && Contents(last) == [65, 88, 67, 68, 69, 70, 71, 72, 0, 0, 89]
  {
    FirstSwitchExample(buffer);
    var written := AcceptTo(SwitchToWrite(ReadOne(OnEightBytes(buffer), 8), true), [88]);
    hide RefillTo, ReadOne, AcceptTo, SwitchToWrite, OnEightBytes;
    FlushedExample(written);
    LastExample(SwitchToRead(FlushTo(written, 1)));
  }

  lemma FlushedExample(h: State)
    requires Shape(h) && h.direction == 1 && h.disk == [65, 66, 67, 68, 69, 70, 71, 72] && h.kernelPos == 1
    requires Pending(h) == [88] && h.filePtr == 8
    ensures var f := SwitchToRead(FlushTo(h, 1));
      && f.disk == [65, 88, 67, 68, 69, 70, 71, 72] && f.kernelPos == 2 && f.filePtr == 9 && f.direction == 0
      && f.bufpos == 0 && f.dataRead == 0 && f.buffer == h.buffer && f.buffered
  {
    OverwriteAt(h.disk, 1, [88]);
    assert Overwrite(h.disk, 1, [88]) == [65, 88, 67, 68, 69, 70, 71, 72];
  }

  lemma LastExample(h: State)
    requires Shape(h) && h.direction == 0 && h.buffered && h.kernelPos == 2 && h.filePtr == 9
    requires h.disk == [65, 88, 67, 68, 69, 70, 71, 72]
    ensures var again := ReadOne(h, 6);
      var last := AcceptTo(SwitchToWrite(again, true), [89]);
      && again.buffer[0] == 67 && Pos(again) == 3 && Reported(again) == 10
      && Contents(last) == [65, 88, 67, 68, 69, 70, 71, 72, 0, 0, 89]
  {
    var last := AcceptTo(SwitchToWrite(ReadOne(h, 6), true), [89]);
    assert Pending(last) == [89] && last.kernelPos == 10;
    OverwriteAt(h.disk, 10, [89]);
  }

  lemma SeeksFromDrift(h: State)
    requires Shape(h) && h.direction == 0 && h.buffered && h.kernelPos == 2 && h.filePtr == 9
    requires h.disk == [65, 88, 67, 68, 69, 70, 71, 72]
    ensures var again := ReadOne(h, 6);
      && Drift(again) == 7 && Pos(again) == 3
      && InBuffer(again, 12) && Reported(SeekInBuffer(again, 12)) == 12 && Pos(SeekInBuffer(again, 12)) == 5
      && var target := Reported(again) + 100;
         target == 110 && !InBuffer(again, target) && Pos(SeekKernel(again, target)) == 110
  {
  }

  /**
   * Two seeks that go wrong in the state the second write above finds, seven bytes off: to 12,
   * answered from the buffer, the handle stands at 5; 100 bytes on from 3, the kernel puts it at
   * 110.
   */
  lemma DriftedSeekExample(buffer: seq<byte>)
    requires |buffer| == BUFSIZE
    ensures var written := AcceptTo(SwitchToWrite(ReadOne(OnEightBytes(buffer), 8), true), [88]);
      |Pending(written)| == 1 && FlushTo(written, 1).disk == [65, 88, 67, 68, 69, 70, 71, 72]
    ensures var written := AcceptTo(SwitchToWrite(ReadOne(OnEightBytes(buffer), 8), true), [88]);
      var again := ReadOne(SwitchToRead(FlushTo(written, 1)), 6);
      && Drift(again) == 7 && Pos(again) == 3
      && InBuffer(again, 12) && Reported(SeekInBuffer(again, 12)) == 12 && Pos(SeekInBuffer(again, 12)) == 5
      && var target := Reported(again) + 100;
         target == 110 && !InBuffer(again, target) && Pos(SeekKernel(again, target)) == 110
  {
    FirstSwitchExample(buffer);
    var written := AcceptTo(SwitchToWrite(ReadOne(OnEightBytes(buffer), 8), true), [88]);
    hide RefillTo, ReadOne, AcceptTo, SwitchToWrite, OnEightBytes;
    FlushedExample(written);
    SeeksFromDrift(SwitchToRead(FlushTo(written, 1)));
  }

  /** A seek by the kernel reaches the target; one inside the buffer does exactly when the handle is in step. */
  lemma SeeksAgreeIff(h: State, pos: nat)
    requires Coherent(h) && h.direction == 0 && InBuffer(h, pos) && CInt(pos) >= 0
    ensures Synced(SeekKernel(h, pos)) && Flat(SeekKernel(h, pos)) == FlatFile(h.disk, pos)
    ensures Coherent(SeekInBuffer(h, pos)) && Drift(SeekInBuffer(h, pos)) == Drift(h)
    ensures Flat(SeekInBuffer(h, pos)) == FlatFile(h.disk, pos) <==> Drift(h) == 0
  {
    assert Pending(SeekInBuffer(h, pos)) == [] && Pending(SeekKernel(h, pos)) == [];
  }

  /** A kernel seek ends in step exactly when the offset survives the passage through an `int`. */
  lemma SeekKernelKeepsSyncIff(h: State, pos: nat)
    requires Coherent(h) && h.direction == 0 && !InBuffer(h, pos)
    ensures Synced(SeekKernel(h, pos)) <==> CInt(pos) >= 0
  {
    if CInt(pos) < 0 { assert pos != h.filePtr; }
  }

  /** A seek to 2^31 moves the kernel but is reported as a failure: here is a handle it puts out of step. */
  lemma LargeSeekExample(buffer: seq<byte>)
    requires |buffer| == BUFSIZE
    ensures CInt(0x8000_0000) < 0
    ensures forall h :: Synced(h) && h.direction == 0 && h.filePtr == 0 ==> !Synced(SeekKernel(h, 0x8000_0000))
    ensures var h := OnEightBytes(buffer); Synced(h) && h.direction == 0 && h.filePtr == 0
  {
  }
}
