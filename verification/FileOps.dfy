/** Buffered and unbuffered file I/O over one kernel descriptor. */
module FileOps {
  import opened Apr
  import opened Bytes
  import opened Handle
  import Kernel

  datatype Whence = Set | Cur | End

  /** The size of the file as a caller sees it, pending bytes included. */
  function LogicalSize(h: State): (n: nat)
    requires Shape(h)
    ensures n == |Contents(h)|
  {
    OverwriteAt(h.disk, h.kernelPos, Pending(h));
    if h.direction == 1 && h.bufpos > 0 then Max(|h.disk|, h.kernelPos + h.bufpos) else |h.disk|
  }

  /** The position a seek asks for. */
  function Target(h: State, whence: Whence, offset: int): int
    requires Shape(h)
  {
    match whence
    case Set => offset
    case Cur => Reported(h) + offset
    case End => LogicalSize(h) + offset
  }

  /** What a write puts into the file: the byte count goes through a C `int` on a buffered handle. */
  function Stored(buffered: bool, data: seq<byte>): seq<byte> {
    if buffered then data[..Max(0, CInt(|data|))] else data
  }

  /** A write keeps all of its data exactly when the length fits a C `int` (or nothing is buffered). */
  lemma StoredAllIff(buffered: bool, data: seq<byte>)
    ensures Stored(buffered, data) == data <==> !buffered || |data| < 0x8000_0000
  {
  }

  /** Where a full write stands in its data, and everything it has put into the file. */
  datatype Progress = Progress(at: int, sent: seq<byte>)

  /**
   * A full write on a handle without a buffer, from the kernel's answers: a count moves on by what
   * was taken, and a failure `-e`, which the loop adds like a count, moves back by `e`.
   */
  function Play(data: seq<byte>, answers: seq<int>): Progress {
    if answers == [] then Progress(0, [])
    else Advance(data, Play(data, answers[..|answers| - 1]), answers[|answers| - 1])
  }

  function Advance(data: seq<byte>, p: Progress, answer: int): Progress {
    Progress(p.at + answer,
             if 0 <= p.at && 0 <= answer <= |data| - p.at then p.sent + data[p.at..][..answer] else p.sent)
  }

  /** Each answer was given inside the data and took no more than was left of it. */
  ghost predicate Answered(data: seq<byte>, answers: seq<int>) {
    answers == [] ||
    var before := answers[..|answers| - 1];
    && Answered(data, before) && 0 <= Play(data, before).at <= |data|
    && answers[|answers| - 1] <= |data| - Play(data, before).at
  }

  /** How far the failures moved back. */
  function SteppedBack(answers: seq<int>): nat {
    if answers == [] then 0
    else SteppedBack(answers[..|answers| - 1]) + Max(0, -answers[|answers| - 1])
  }

  ghost predicate NoFailure(answers: seq<int>) {
    forall i :: 0 <= i < |answers| ==> 0 <= answers[i]
  }

  lemma PlayStep(data: seq<byte>, answers: seq<int>, a: int)
    requires Answered(data, answers) && 0 <= Play(data, answers).at <= |data| && a <= |data| - Play(data, answers).at
    ensures Answered(data, answers + [a])
    ensures Play(data, answers + [a]).at == Play(data, answers).at + a
    ensures Play(data, answers + [a]).sent == Play(data, answers).sent + data[Play(data, answers).at..][..Max(0, a)]
    ensures NoFailure(answers + [a]) <==> NoFailure(answers) && 0 <= a
  {
    assert (answers + [a])[..|answers|] == answers;
    assert forall i :: 0 <= i < |answers| ==> (answers + [a])[i] == answers[i];
  }

  /** What was sent is what was moved over, and what was stepped back over was sent twice. */
  lemma {:induction false} PlayConserves(data: seq<byte>, answers: seq<int>)
    requires Answered(data, answers)
    ensures |Play(data, answers).sent| == Play(data, answers).at + SteppedBack(answers)
    ensures SteppedBack(answers) == 0 <==> NoFailure(answers)
    ensures NoFailure(answers) ==> 0 <= Play(data, answers).at <= |data|
    ensures NoFailure(answers) ==> Play(data, answers).sent == data[..Play(data, answers).at]
  {
    if answers != [] {
      var before, a := answers[..|answers| - 1], answers[|answers| - 1];
      PlayConserves(data, before);
      assert answers == before + [a];
      var at := Play(data, before).at;
      if 0 <= a { assert data[..at] + data[at..][..a] == data[..at + a]; }
    }
  }

  /** The file after the kernel gave `answers` to a full write that stands at `at`. */
  ghost predicate Played(data: seq<byte>, answers: seq<int>, at: int,
                         c: seq<byte>, from: nat, contents: seq<byte>, writeAt: nat)
  {
    && Answered(data, answers) && Play(data, answers).at == at
    && contents == Overwrite(c, from, Play(data, answers).sent)
    && writeAt == from + |Play(data, answers).sent|
  }

  lemma NothingPlayed(data: seq<byte>, c: seq<byte>, from: nat)
    ensures Played(data, [], 0, c, from, c, from) && NoFailure([])
  {
    OverwriteNothing(c, from);
  }

  lemma PlayedStep(data: seq<byte>, answers: seq<int>, at: nat, c: seq<byte>, from: nat,
                   contents: seq<byte>, writeAt: nat, contents': seq<byte>, writeAt': nat, a: int)
    requires Played(data, answers, at, c, from, contents, writeAt) && at <= |data| && a <= |data| - at
    requires contents' == Overwrite(contents, writeAt, data[at..][..Max(0, a)]) && writeAt' == writeAt + Max(0, a)
    ensures Played(data, answers + [a], at + a, c, from, contents', writeAt')
    ensures NoFailure(answers + [a]) <==> NoFailure(answers) && 0 <= a
  {
    hide Play, Answered, Overwrite, NoFailure;
    PlayStep(data, answers, a);
    JoinedWrites(c, from, Play(data, answers).sent, data[at..][..Max(0, a)], contents, contents');
  }

  lemma JoinedWrites(c: seq<byte>, from: nat, sent: seq<byte>, piece: seq<byte>,
                     contents: seq<byte>, contents': seq<byte>)
    requires contents == Overwrite(c, from, sent) && contents' == Overwrite(contents, from + |sent|, piece)
    ensures contents' == Overwrite(c, from, sent + piece)
  {
    hide Overwrite;
    OverwriteConcat(c, from, sent, piece);
  }

  /** A full write that comes to its end has sent the data exactly when the kernel never failed. */
  lemma FullWriteIff(data: seq<byte>, answers: seq<int>)
    requires Answered(data, answers) && Play(data, answers).at == |data|
    ensures |Play(data, answers).sent| == |data| + SteppedBack(answers)
    ensures Play(data, answers).sent == data <==> NoFailure(answers)
  {
    PlayConserves(data, answers);
    assert data[..|data|] == data;
  }

  /** Six bytes of ten go through, the next write fails with EIO (5): five of the six are sent again. */
  lemma FullWriteExample(data: seq<byte>)
    requires |data| == 10
    ensures Answered(data, [6, -5, 9])
    ensures Play(data, [6, -5, 9]) == Progress(10, data[..6] + data[1..])
  {
    assert [] + [6] == [6] && [6] + [-5] == [6, -5] && [6, -5] + [9] == [6, -5, 9];
    PlayStep(data, [], 6);
    PlayStep(data, [6], -5);
    PlayStep(data, [6, -5], 9);
    assert [] + data[0..][..6] == data[..6] && data[1..][..9] == data[1..];
  }

  /** A length of 2^32 and more loses its high part: of so much data only what is beyond that is taken. */
  lemma StoredLaw(data: seq<byte>)
    ensures 0x8000_0000 <= |data| < 0x1_0000_0000 ==> Stored(true, data) == []
    ensures 0x1_0000_0000 <= |data| < 0x1_8000_0000 ==> Stored(true, data) == data[..|data| - 0x1_0000_0000]
  {
  }

  /** The `do ... while (written == -EINTR)` around a kernel write. */
  method WriteRetried(k: Kernel.Descriptor, data: seq<byte>) returns (n: int)
    modifies k
    ensures k.Books().Later(old(k.Books())) && k.open == old(k.open)
    ensures -4096 < n <= |data| && n != -Kernel.EINTR && (n < 0 ==> n == -k.errno)
    ensures n < 0 ==> k.contents == old(k.contents) && k.offset == old(k.offset)
    ensures n < 0 <==> k.faults != old(k.faults)
    ensures n >= 0 ==> k.contents == Overwrite(old(k.contents), old(k.WriteAt()), data[..n])
    ensures n >= 0 ==> k.offset == (if n == 0 then old(k.offset) else old(k.WriteAt()) + n)
    ensures k.shortWrites == old(k.shortWrites) + (if 0 <= n < |data| then 1 else 0)
    ensures k.readInterrupts == old(k.readInterrupts)
    ensures n < 0 || n == 0 < |data| ==> k.patience < old(k.patience)
    ensures k.patience <= old(k.patience)
  {
    n := k.Write(data);
    while n == -Kernel.EINTR
      invariant n < 0 ==> n == -k.errno
      invariant -4096 < n <= |data| && k.Books().Later(old(k.Books())) && k.open == old(k.open)
      invariant n < 0 ==> k.contents == old(k.contents) && k.offset == old(k.offset)
      invariant n < 0 && n != -Kernel.EINTR <==> k.faults != old(k.faults)
      invariant n >= 0 ==> k.contents == Overwrite(old(k.contents), old(k.WriteAt()), data[..n])
      invariant n >= 0 ==> k.offset == (if n == 0 then old(k.offset) else old(k.WriteAt()) + n)
      invariant k.shortWrites == old(k.shortWrites) + (if 0 <= n < |data| then 1 else 0)
      invariant k.readInterrupts == old(k.readInterrupts)
      invariant n < 0 || n == 0 < |data| ==> k.patience < old(k.patience)
      invariant k.patience <= old(k.patience)
      decreases k.patience, n == -Kernel.EINTR
    {
      n := k.Write(data);
    }
  }

  /** The same loop around a kernel read. */
  method ReadRetried(k: Kernel.Descriptor, buf: array<byte>, at: nat, count: nat) returns (n: int)
    requires at + count <= buf.Length
    modifies k, buf
    ensures k.Books().Later(old(k.Books())) && k.open == old(k.open) && k.contents == old(k.contents)
    ensures k.shortWrites == old(k.shortWrites)
    ensures -4096 < n <= Min(count, old(k.Left())) && n != -Kernel.EINTR && (n < 0 ==> n == -k.errno)
    ensures n < 0 <==> k.faults != old(k.faults)
    ensures n <= 0 ==> k.offset == old(k.offset)
    ensures n == 0 ==> Min(count, old(k.Left())) == 0
    ensures n >= 0 ==> k.offset == old(k.offset) + n
    ensures Copied(old(buf[..]), buf[..], at, k.contents, old(k.offset), Max(0, n))
  {
    n := k.Read(buf, at, count);
    while n == -Kernel.EINTR
      invariant k.Books().Later(old(k.Books())) && k.open == old(k.open) && k.contents == old(k.contents)
      invariant k.shortWrites == old(k.shortWrites)
      invariant -4096 < n <= Min(count, old(k.Left())) && (n < 0 ==> n == -k.errno)
      invariant n < 0 && n != -Kernel.EINTR <==> k.faults != old(k.faults)
      invariant n <= 0 ==> k.offset == old(k.offset)
      invariant n == 0 ==> Min(count, old(k.Left())) == 0
      invariant n >= 0 ==> k.offset == old(k.offset) + n
      invariant Copied(old(buf[..]), buf[..], at, k.contents, old(k.offset), Max(0, n))
      decreases k.patience, n == -Kernel.EINTR
    {
      n := k.Read(buf, at, count);
    }
  }

  /** memcpy between two different buffers. */
  method CopyBlock(src: array<byte>, from: nat, dst: array<byte>, to: nat, count: nat)
    requires src != dst && from + count <= src.Length && to + count <= dst.Length
    modifies dst
    ensures Copied(old(dst[..]), dst[..], to, src[..], from, count)
  {
    forall i | 0 <= i < count { dst[to + i] := src[from + i]; }
  }

  class LklFile {
    const kernel: Kernel.Descriptor
    const buffered: bool
    const buffer: array<byte>
    var bufpos: int
    var dataRead: int
    var direction: int
    var filePtr: int
    var eofHit: bool

    function View(): State
      reads this, buffer, kernel
    {
      State(buffered, buffer[..], bufpos, dataRead, direction, filePtr, kernel.contents, kernel.offset)
    }

    ghost predicate Valid()
      reads this, buffer, kernel
    {
      Coherent(View()) && (buffered ==> !kernel.append)
    }

    /** The file as its users see it, pending bytes included. */
    ghost function Text(): seq<byte>
      requires Valid()
      reads this, buffer, kernel
    {
      Contents(View())
    }

    /** Where the next byte is read or written. */
    ghost function At(): nat
      requires Valid()
      reads this, buffer, kernel
    {
      Pos(View())
    }

    constructor (kernel: Kernel.Descriptor, buffered: bool)
      ensures this.kernel == kernel && this.buffered == buffered && fresh(buffer)
      requires buffered ==> !kernel.append
      ensures Valid() && Contents(View()) == kernel.contents && Pos(View()) == kernel.offset
      ensures kernel.offset == 0 ==> Synced(View())
      ensures direction == 0 && !eofHit
    {
      this.kernel, this.buffered := kernel, buffered;
      buffer := new byte[if buffered then BUFSIZE else 0];
      bufpos, dataRead, direction, filePtr, eofHit := 0, 0, 0, 0, false;
    }

    method FlushLocked() returns (rv: int, ghost taken: nat)
      requires Valid() && buffered
      modifies this`bufpos, this`filePtr, kernel
      ensures kernel.Books().Later(old(kernel.Books())) && kernel.open == old(kernel.open)
      ensures rv == APR_SUCCESS || rv == APR_EINVAL
      ensures rv != APR_SUCCESS ==> View() == old(View()) && kernel.faults > old(kernel.faults)
      ensures rv != APR_SUCCESS ==> kernel.shortWrites == old(kernel.shortWrites)
      ensures rv != APR_SUCCESS ==> Pending(old(View())) != []
      ensures kernel.readInterrupts == old(kernel.readInterrupts)
      ensures rv == APR_SUCCESS ==> taken <= |Pending(old(View()))| && View() == FlushTo(old(View()), taken)
      ensures rv == APR_SUCCESS ==> kernel.faults == old(kernel.faults)
      ensures rv == APR_SUCCESS ==> (taken == |Pending(old(View()))| <==> kernel.shortWrites == old(kernel.shortWrites))
      ensures Valid() && Pending(View()) == (if rv == APR_SUCCESS then [] else Pending(old(View())))
    {
      rv := APR_SUCCESS;
      taken := 0;
      if 1 == direction && bufpos != 0 {
        var written := WriteRetried(kernel, buffer[..bufpos]);
        assert written >= 0 ==> buffer[..bufpos][..written] == buffer[..][..written];
        if written < 0 {
          rv := APR_EINVAL;
        } else {
          filePtr := filePtr + written;
          bufpos := 0;
          taken := written;
        }
      }
    }

    /** Empties the write buffer, if there is one in use, before a read or a seek. */
    method LeaveWriteMode() returns (rv: int)
      requires Valid() && buffered
      modifies this`bufpos, this`filePtr, this`direction, this`dataRead, kernel
      ensures Valid() && kernel.open == old(kernel.open)
      ensures rv == APR_SUCCESS || rv == APR_EINVAL
      ensures rv == APR_SUCCESS ==> LeavePost(old(View()), View(), old(kernel.Books()), kernel.Books())
      ensures rv == APR_SUCCESS ==> kernel.faults == old(kernel.faults)
      ensures old(direction) == 0 ==> rv == APR_SUCCESS && kernel.Books() == old(kernel.Books())
      ensures rv != APR_SUCCESS ==> View() == old(View()) && kernel.faults > old(kernel.faults)
      ensures kernel.readInterrupts == old(kernel.readInterrupts)
      ensures rv != APR_SUCCESS ==> kernel.shortWrites == old(kernel.shortWrites)
    {
      rv := APR_SUCCESS;
      if direction == 1 {
        ghost var h := View();
        ghost var taken;
        rv, taken := FlushLocked();
        if rv != 0 { return; }
        FlushKeepsFlatIff(h, taken);
        SwitchToReadKeepsFlat(View());
        bufpos, direction, dataRead := 0, 0, 0;
      }
    }

    /** Refills an exhausted buffer; `rv` is APR_EOF at the end of the file, the errno on a failure. */
    method Refill() returns (rv: int)
      requires Valid() && buffered && direction == 0 && bufpos >= dataRead
      modifies this`dataRead, this`filePtr, this`bufpos, this`eofHit, buffer
      modifies kernel`offset, kernel`patience, kernel`faults, kernel`readInterrupts, kernel`errno
      ensures Valid() && kernel.Books().Later(old(kernel.Books()))
      ensures Drift(View()) == old(Drift(View())) && Pos(View()) == old(Pos(View()))
      ensures rv == APR_EOF || rv == APR_SUCCESS || 0 < rv < 4096
      ensures rv == APR_SUCCESS ==> bufpos < dataRead && dataRead <= BUFSIZE && kernel.offset <= |kernel.contents|
      ensures rv == APR_SUCCESS ==> kernel.offset == old(kernel.offset) + dataRead
      ensures rv == APR_SUCCESS ==> View() == RefillTo(old(View()), dataRead)
      ensures rv != APR_SUCCESS ==> View() == old(View())
      ensures rv == APR_EOF ==> Pos(View()) >= |kernel.contents|
      ensures rv != APR_EOF && rv != APR_SUCCESS ==> kernel.Books() != old(kernel.Books()) && rv == kernel.errno
      ensures rv == Kernel.EINTR <==> kernel.readInterrupts != old(kernel.readInterrupts)
      ensures eofHit == (old(eofHit) || rv == APR_EOF)
    {
      ghost var h := View();
      var bytesread := kernel.Read(buffer, 0, BUFSIZE);
      if bytesread == 0 {
        eofHit := true;
        assert View() == h;
        return APR_EOF;
      } else if bytesread < 0 {
        assert View() == h;
        return -bytesread;
      }
      dataRead := bytesread;
      filePtr := filePtr + dataRead;
      bufpos := 0;
      RefillIsCoherent(h, buffer[..], dataRead);
      assert View() == RefillTo(h, dataRead);
      hide Coherent, Copied;
      return APR_SUCCESS;
    }

    /** Copies what is wanted of a non-exhausted buffer. */
    method TakeBlock(buf: array<byte>, at: nat, want: nat) returns (blocksize: nat)
      requires Valid() && direction == 0 && bufpos < dataRead && 0 < want
      requires at + want <= buf.Length && buf != buffer
      modifies this`bufpos, buf
      ensures Valid() && blocksize == Min(want, old(dataRead - bufpos)) && View() == TakeTo(old(View()), blocksize)
      ensures ReadSoFar(old(View()), View(), kernel.Books(), kernel.Books(), old(buf[..]), buf[..], at, blocksize)
    {
      blocksize := if want > dataRead - bufpos then dataRead - bufpos else want;
      ghost var h, b := View(), buf[..];
      CopyBlock(buffer, bufpos, buf, at, blocksize);
      bufpos := bufpos + blocksize;
      TakeIsRead(h, blocksize, kernel.Books(), b, buf[..], at);
      assert View() == TakeTo(h, blocksize) by { assert buffer[..] == h.buffer; }
      hide ReadSoFar, Coherent, Copied;
    }

    /** One turn of the read loop: refill an exhausted buffer, then copy what is wanted of it. */
    method ReadBlock(buf: array<byte>, at: nat, want: nat) returns (rv: int, blocksize: nat)
      requires Valid() && buffered && direction == 0 && 0 < want
      requires at + want <= buf.Length && buf != buffer
      modifies this`dataRead, this`filePtr, this`bufpos, this`eofHit, buffer
      modifies kernel`offset, kernel`patience, kernel`faults, kernel`readInterrupts, kernel`errno, buf
      ensures Valid() && blocksize <= want && (rv == APR_SUCCESS <==> 0 < blocksize)
      ensures ReadSoFar(old(View()), View(), old(kernel.Books()), kernel.Books(), old(buf[..]), buf[..], at, blocksize)
      ensures rv == APR_EOF || rv == APR_SUCCESS || 0 < rv < 4096
      ensures rv == APR_EOF ==> Pos(View()) >= |kernel.contents|
      ensures rv != APR_EOF && rv != APR_SUCCESS ==> kernel.Books() != old(kernel.Books()) && rv == kernel.errno
      ensures rv == Kernel.EINTR <==> kernel.readInterrupts != old(kernel.readInterrupts)
      ensures eofHit == (old(eofHit) || rv == APR_EOF)
    {
      hide ReadSoFar, Coherent;
      rv, blocksize := APR_SUCCESS, 0;
      ghost var h, k, b := View(), kernel.Books(), buf[..];
      ReadSoFarStart(h, k, b, at);
      if bufpos >= dataRead {
        rv := Refill();
        RefillReadsNothing(h, View(), k, kernel.Books(), b, at);
        if rv != APR_SUCCESS { return; }
      }
      ghost var h1, k1 := View(), kernel.Books();
      blocksize := TakeBlock(buf, at, want);
      ReadSoFarStep(h, h1, View(), k, k1, kernel.Books(), b, b, buf[..], at, 0, blocksize);
    }

    /** The read loop proper, entered in read mode: APR_EOF or an errno only when no byte came. */
    method FillFromBuffer(buf: array<byte>, at: nat, size: nat) returns (status: int, done: nat)
      requires Valid() && buffered && direction == 0 && 0 < size
      requires at + size <= buf.Length && buf != buffer
      modifies this`dataRead, this`filePtr, this`bufpos, this`eofHit, buffer
      modifies kernel`offset, kernel`patience, kernel`faults, kernel`readInterrupts, kernel`errno, buf
      ensures Valid()
      ensures ReadPost(old(View()), View(), old(kernel.Books()), kernel.Books(), old(buf[..]), buf[..],
                       at, size, status, done, done)
      ensures kernel.Books() == old(kernel.Books()) ==> done == Min(size, Max(0, |kernel.contents| - old(Pos(View()))))
      // An interruption comes back as an error exactly when no byte came before it.
      ensures status == APR_SUCCESS || status == APR_EOF || status == kernel.errno
      ensures status == Kernel.EINTR <==> done == 0 && kernel.readInterrupts != old(kernel.readInterrupts)
      ensures status == APR_EOF ==> eofHit
      ensures eofHit ==> old(eofHit) || (done < size && Pos(View()) >= |kernel.contents|)
    {
      hide ReadSoFar, Coherent;
      var rv;
      rv, done := APR_SUCCESS, 0;
      ghost var h, k, b := View(), kernel.Books(), buf[..];
      ReadSoFarStart(h, k, b, at);
      while rv == APR_SUCCESS && done < size
        invariant Valid() && direction == 0 && done <= size
        invariant ReadSoFar(h, View(), k, kernel.Books(), b, buf[..], at, done)
        invariant rv == APR_SUCCESS || rv == APR_EOF || 0 < rv < 4096
        invariant rv != APR_SUCCESS ==> done < size
        invariant rv == APR_EOF ==> Pos(View()) >= |kernel.contents|
        invariant rv != APR_EOF && rv != APR_SUCCESS ==> kernel.Books() != k && rv == kernel.errno
        invariant rv == Kernel.EINTR <==> kernel.readInterrupts != k.readInterrupts
        invariant eofHit == (old(eofHit) || rv == APR_EOF)
        decreases size - done, rv == APR_SUCCESS
      {
        ghost var h1, k1, b1 := View(), kernel.Books(), buf[..];
        var blocksize;
        rv, blocksize := ReadBlock(buf, at + done, size - done);
        ReadSoFarStep(h, h1, View(), k, k1, kernel.Books(), b, b1, buf[..], at, done, blocksize);
        done := done + blocksize;
        ReadSoFarInReadMode(h, View(), k, kernel.Books(), b, buf[..], at, done);
      }
      ReadSoFarInReadMode(h, View(), k, kernel.Books(), b, buf[..], at, done);
      status := if done != 0 then APR_SUCCESS else rv;
    }

    /**
     * Fills `buf[at..at + size]` from the buffer, refilling it from the kernel. `delivered` is the
     * number of bytes really copied: it is what `nbytes` says unless the flush in front failed,
     * after which `nbytes` still reads `size`.
     */
    method ReadBuffered(buf: array<byte>, at: nat, size: nat) returns (status: int, nbytes: nat, ghost delivered: nat)
      requires Valid() && buffered && 0 < size
      requires at + size <= buf.Length && buf != buffer
      modifies this, buffer, kernel, buf
      ensures ReadPost(old(View()), View(), old(kernel.Books()), kernel.Books(), old(buf[..]), buf[..],
                       at, size, status, nbytes, delivered)
      ensures kernel.open == old(kernel.open) && Valid()
      ensures status == APR_EOF ==> eofHit
      ensures eofHit ==> old(eofHit) || (delivered < size && Pos(View()) >= |Contents(View())|)
      ensures kernel.Books() == old(kernel.Books()) ==>
        delivered == Min(size, Max(0, |Contents(View())| - old(Pos(View()))))
      ensures status == Kernel.EINTR <==> delivered == 0 && kernel.readInterrupts != old(kernel.readInterrupts)
      // The count is wrong exactly when the flush failed, which leaves the handle in write mode.
      ensures nbytes != delivered <==> direction == 1
      ensures direction == 1 ==> nbytes == size
      ensures direction == 0 ==> status == APR_SUCCESS || status == APR_EOF || status == kernel.errno
    {
      ghost var h, k, b := View(), kernel.Books(), buf[..];
      var rv := LeaveWriteMode();
      if rv != APR_SUCCESS { return rv, size, 0; }
      ghost var mid, k1 := View(), kernel.Books();
      status, nbytes := FillFromBuffer(buf, at, size);
      delivered := nbytes;
      FillIsRead(h, mid, View(), k, k1, kernel.Books(), b, buf[..], at, size, status, nbytes);
    }

    method Read(buf: array<byte>, at: nat, size: nat) returns (status: int, nbytes: nat, ghost delivered: nat)
      requires Valid() && at + size <= buf.Length && buf != buffer
      modifies this, buffer, kernel, buf
      ensures ReadPost(old(View()), View(), old(kernel.Books()), kernel.Books(), old(buf[..]), buf[..],
                       at, size, status, nbytes, delivered)
      ensures kernel.open == old(kernel.open) && Valid()
      ensures status == APR_EOF ==> eofHit
      ensures eofHit ==> old(eofHit) || (delivered < size && Pos(View()) >= |Contents(View())|)
      ensures buffered && kernel.Books() == old(kernel.Books()) ==>
        delivered == Min(size, Max(0, |Contents(View())| - old(Pos(View()))))
      ensures status == Kernel.EINTR <==>
        buffered && delivered == 0 && kernel.readInterrupts != old(kernel.readInterrupts)
      ensures !buffered ==> status != -Kernel.EINTR
      // An error is the flush's EINVAL or the number the kernel gave, without a buffer its negative.
      ensures status == APR_SUCCESS || status == APR_EOF || direction == 1
              || status == if buffered then kernel.errno else -kernel.errno
      ensures !buffered ==> (status == APR_SUCCESS || status == APR_EOF <==> kernel.faults == old(kernel.faults))
      ensures nbytes != delivered <==> 0 < size && direction == 1
    {
      if size <= 0 { return APR_SUCCESS, 0, 0; }
      if buffered {
        status, nbytes, delivered := ReadBuffered(buf, at, size);
      } else {
        var rv := ReadRetried(kernel, buf, at, size);
        nbytes, delivered := 0, 0;
        if rv == 0 {
          eofHit := true;
          status := APR_EOF;
        } else if rv > 0 {
          nbytes := nbytes + rv;
          delivered := nbytes;
          status := APR_SUCCESS;
        } else {
          status := rv;
        }
      }
    }

    /** Turns the buffer over to writing, sending the kernel to the position last reported. */
    method EnterWriteMode() returns (ghost seekOk: bool)
      requires Valid() && buffered
      modifies this`bufpos, this`dataRead, this`direction, kernel`offset, kernel`faults, kernel`errno
      ensures Valid() && direction == 1 && kernel.Books().Later(old(kernel.Books()))
      ensures kernel.shortWrites == old(kernel.shortWrites)
      ensures View() == if old(direction) == 1 then old(View()) else SwitchToWrite(old(View()), seekOk)
      ensures seekOk <==> kernel.faults == old(kernel.faults)
    {
      seekOk := true;
      if direction == 0 {
        var offset := filePtr - dataRead + bufpos;
        if offset != filePtr {
          var r := kernel.Lseek(offset);
          seekOk := offset < 0 || r >= 0;
        }
        bufpos, dataRead, direction := 0, 0, 1;
      }
    }

    /** Takes as much of `data` as the buffer has room for. */
    method Accept(data: seq<byte>) returns (blocksize: nat)
      requires Valid() && buffered && direction == 1
      modifies this`bufpos, buffer
      ensures blocksize == Min(|data|, BUFSIZE - old(bufpos))
      ensures View() == AcceptTo(old(View()), data[..blocksize])
    {
      blocksize := if |data| > BUFSIZE - bufpos then BUFSIZE - bufpos else |data|;
      ghost var h := View();
      forall i | 0 <= i < blocksize { buffer[bufpos + i] := data[i]; }
      bufpos := bufpos + blocksize;
      assert View() == AcceptTo(h, data[..blocksize]);
    }

    /** One turn of the write loop: flush a full buffer, then take what fits of `data`. */
    method WriteBlock(data: seq<byte>) returns (rv: int, blocksize: nat)
      requires Valid() && buffered && direction == 1 && data != []
      modifies this`bufpos, this`filePtr, buffer, kernel
      ensures Valid() && kernel.open == old(kernel.open)
      ensures rv == APR_SUCCESS || rv == APR_EINVAL
      ensures rv == APR_SUCCESS <==> 0 < blocksize
      ensures rv == APR_SUCCESS <==> kernel.faults == old(kernel.faults)
      ensures blocksize <= |data|
      ensures WriteSoFar(old(View()), View(), old(kernel.Books()), kernel.Books(), data[..blocksize])
    {
      rv := APR_SUCCESS;
      ghost var h := View();
      if bufpos == BUFSIZE {
        ghost var taken;
        rv, taken := FlushLocked();
        if rv == APR_SUCCESS { FlushKeepsFlatIff(h, taken); }
      }
      ghost var f := View();
      blocksize := Accept(data);
      AcceptIsWrite(f, View(), data[..blocksize]);
    }

    /** The write loop proper, entered in write mode. */
    method WriteLoop(data: seq<byte>) returns (rv: int, done: nat)
      requires Valid() && buffered && direction == 1
      modifies this`bufpos, this`filePtr, buffer, kernel
      ensures Valid() && kernel.open == old(kernel.open)
      ensures rv == APR_SUCCESS || rv == APR_EINVAL
      ensures done <= |data| && (rv == APR_SUCCESS <==> done == |data|)
      ensures rv == APR_SUCCESS <==> kernel.faults == old(kernel.faults)
      ensures WriteSoFar(old(View()), View(), old(kernel.Books()), kernel.Books(), data[..done])
    {
      hide WriteSoFar, Coherent;
      ghost var h, k := View(), kernel.Books();
      WriteSoFarStart(h, k);
      rv, done := APR_SUCCESS, 0;
      while rv == APR_SUCCESS && done < |data|
        invariant Valid() && kernel.open == old(kernel.open)
        invariant done <= |data| && (rv != APR_SUCCESS ==> done < |data|)
        invariant rv == APR_SUCCESS || rv == APR_EINVAL
        invariant rv == APR_SUCCESS <==> kernel.faults == k.faults
        invariant WriteSoFar(h, View(), k, kernel.Books(), data[..done])
        decreases |data| - done, rv == APR_SUCCESS
      {
        ghost var h1, k1 := View(), kernel.Books();
        var blocksize;
        rv, blocksize := WriteBlock(data[done..]);
        WriteSoFarStep(h, h1, View(), k, k1, kernel.Books(), data, done, blocksize);
        done := done + blocksize;
      }
    }

    /** `nbytes` comes back as it went in, which is true of what was accepted exactly as the last clause says. */
    method WriteBuffered(data: seq<byte>) returns (status: int, nbytes: nat, ghost accepted: nat, ghost seekOk: bool)
      requires Valid() && buffered
      modifies this`bufpos, this`filePtr, this`dataRead, this`direction, buffer, kernel
      ensures WritePost(old(View()), View(), old(kernel.Books()), kernel.Books(),
                        Stored(true, data), status, accepted, seekOk)
      ensures kernel.open == old(kernel.open) && Valid()
      ensures accepted <= nbytes == |data|
      ensures nbytes == accepted <==> status == APR_SUCCESS && |data| < 0x8000_0000
    {
      nbytes := |data|;
      var size := CInt(|data|);
      seekOk := EnterWriteMode();
      status, accepted := WriteLoop(if size > 0 then data[..size] else []);
    }

    /** A handle without a buffer passes the kernel's answer on as an unsigned count, errors included. */
    method WriteUnbuffered(data: seq<byte>) returns (status: int, nbytes: nat, ghost taken: int)
      requires Valid() && !buffered
      modifies kernel
      ensures Valid() && kernel.Books().Later(old(kernel.Books())) && kernel.open == old(kernel.open)
      ensures status == APR_SUCCESS
      ensures taken < 0 ==> taken == -kernel.errno
      ensures -4096 < taken <= |data| && nbytes == (if taken < 0 then SIZE_MODULUS + taken else taken)
      ensures taken < 0 <==> kernel.faults != old(kernel.faults)
      // The count says how much was written exactly when the kernel did not fail.
      ensures |data| < SIZE_MODULUS / 2 ==> (nbytes == taken <==> kernel.faults == old(kernel.faults))
      ensures kernel.contents == Overwrite(old(kernel.contents), old(kernel.WriteAt()), data[..Max(0, taken)])
      ensures kernel.offset == if taken <= 0 then old(kernel.offset) else old(kernel.WriteAt()) + taken
      ensures kernel.WriteAt() == old(kernel.WriteAt()) + Max(0, taken)
      ensures kernel.patience <= old(kernel.patience)
      ensures taken <= 0 < |data| ==> kernel.patience < old(kernel.patience)
      ensures kernel.shortWrites == old(kernel.shortWrites) + (if 0 <= taken < |data| then 1 else 0)
    {
      var rv := WriteRetried(kernel, data);
      taken := rv;
      OverwriteAt(old(kernel.contents), old(kernel.WriteAt()), data[..Max(0, taken)]);
      nbytes := if rv < 0 then SIZE_MODULUS + rv else rv;
      status := APR_SUCCESS;
    }

    /**
     * The error of a seek that found the handle in read mode or brought it there: the kernel's,
     * EINVAL in front of the file, or, of a seek that did move the kernel, the target as an `int`.
     */
    ghost predicate RefusedSeek(pos: int, rv: int)
      reads this, kernel
    {
      || (rv == kernel.errno && (pos < 0 ==> rv == APR_EINVAL))
      || (0 <= pos == kernel.offset && CInt(pos) < 0 && rv == -CInt(pos))
    }

    method SetPtr(pos: int) returns (rv: int)
      requires Valid() && buffered
      modifies this`bufpos, this`filePtr, this`dataRead, this`direction, kernel
      ensures kernel.open == old(kernel.open)
      ensures exists mid :: SetPtrPost(old(View()), mid, View(), old(kernel.Books()), kernel.Books(), pos, rv)
      ensures pos < 0 || 0 <= CInt(pos) ==> Valid()
      ensures 0 <= rv && (rv != APR_SUCCESS && direction == 0 ==> RefusedSeek(pos, rv))
    {
      hide Overwrite;
      ghost var h := View();
      rv := LeaveWriteMode();
      if rv != APR_SUCCESS {
        assert SetPtrPost(h, h, View(), old(kernel.Books()), kernel.Books(), pos, rv);
        return;
      }
      ghost var mid := View();
      var newbufpos := pos - (filePtr - dataRead);
      if newbufpos >= 0 && newbufpos <= dataRead {
        bufpos := newbufpos;
        rv := APR_SUCCESS;
      } else {
        var r := kernel.Lseek(pos);
        rv := CInt(r);
        if rv >= 0 {
          bufpos, dataRead := 0, 0;
          filePtr := pos;
          rv := APR_SUCCESS;
        }
      }
      rv := -rv;
      assert SetPtrPost(h, mid, View(), old(kernel.Books()), kernel.Books(), pos, rv);
    }

    /** The size a caller is told, pending bytes included; the locked form reports the raw kernel answer. */
    method InfoGetLocked() returns (rc: int, size: nat)
      requires Valid()
      modifies this`bufpos, this`filePtr, kernel
      ensures Valid() && kernel.Books().Later(old(kernel.Books())) && kernel.open == old(kernel.open)
      ensures Drift(View()) == old(Drift(View()))
      ensures kernel.shortWrites == old(kernel.shortWrites) ==> Flat(View()) == old(Flat(View()))
      ensures rc == APR_SUCCESS ==> size == |Contents(View())| && kernel.contents == Contents(View())
      ensures size <= |old(Contents(View()))|
      ensures direction == 0 ==> View() == old(View())
      ensures rc != APR_SUCCESS ==> kernel.faults > old(kernel.faults)
      ensures rc == APR_SUCCESS ==> kernel.faults == old(kernel.faults)
      ensures rc == APR_SUCCESS || rc == APR_EINVAL || (-4096 < rc < 0 && rc == -kernel.errno)
    {
      size := 0;
      if buffered {
        ghost var h := View();
        ghost var taken;
        rc, taken := FlushLocked();
        if rc != APR_SUCCESS { return; }
        FlushKeepsFlatIff(h, taken);
        OverwriteAt(h.disk, h.kernelPos, Pending(h));
        if Pending(h) != [] { OverwriteAt(h.disk, h.kernelPos, h.buffer[..taken]); }
      }
      rc, size := kernel.Fstat();
    }

    /** The unlocked form, which reports errors as positive numbers. */
    method InfoGet() returns (rc: int, size: nat)
      requires Valid()
      modifies this`bufpos, this`filePtr, kernel
      ensures Valid() && kernel.Books().Later(old(kernel.Books())) && kernel.open == old(kernel.open)
      ensures Drift(View()) == old(Drift(View()))
      ensures kernel.shortWrites == old(kernel.shortWrites) ==> Flat(View()) == old(Flat(View()))
      ensures rc == APR_SUCCESS ==> size == |Contents(View())| && kernel.contents == Contents(View())
      ensures rc != APR_SUCCESS <==> kernel.faults > old(kernel.faults)
      ensures 0 <= rc < 4096 && (rc == APR_SUCCESS || rc == APR_EINVAL || rc == kernel.errno)
    {
      rc, size := InfoGetLocked();
      if rc < 0 { rc := -rc; }
    }

    method Seek(whence: Whence, offset: int) returns (rc: int, newOffset: int)
      requires Valid() && buffered
      modifies this`bufpos, this`filePtr, this`dataRead, this`direction, this`eofHit, kernel
      ensures kernel.open == old(kernel.open) && !eofHit
      ensures newOffset == Reported(View())
      ensures old(Target(View(), whence, offset)) < 0x8000_0000 ==> Valid()
      ensures whence != End && rc != APR_SUCCESS && direction == 0 ==>
        RefusedSeek(old(Target(View(), whence, offset)), rc)
      ensures whence != End && direction == 1 ==> rc == APR_EINVAL
      ensures rc < 0 ==> whence == End && rc == -kernel.errno
      ensures SeekPost(old(View()), View(), old(kernel.Books()), kernel.Books(),
                       old(Target(View(), whence, offset)), rc)
    {
      hide Overwrite, SeekPost, Stays;
      ghost var h, k, target := View(), kernel.Books(), Target(View(), whence, offset);
      eofHit := false;
      rc := -APR_EINVAL;
      match whence {
        case Set =>
          rc := SeekTo(offset);
        case Cur =>
          rc := SeekTo(filePtr - dataRead + bufpos + offset);
        case End =>
          var size;
          rc, size := InfoGetLocked();
          ghost var mid, k1 := View(), kernel.Books();
          if rc == APR_SUCCESS {
            rc := SeekTo(size + offset);
            SeekBehindFlush(h, mid, View(), k, k1, kernel.Books(), target, size + offset, rc);
          } else {
            SeekRefused(h, mid, k, k1, target, rc);
          }
      }
      newOffset := filePtr - dataRead + bufpos;
    }

    /** The call of `SetPtr` in a seek. */
    method SeekTo(pos: int) returns (rc: int)
      requires Valid() && buffered
      modifies this`bufpos, this`filePtr, this`dataRead, this`direction, kernel
      ensures kernel.open == old(kernel.open)
      ensures SeekPost(old(View()), View(), old(kernel.Books()), kernel.Books(), pos, rc)
      ensures pos < 0x8000_0000 ==> Valid()
      ensures rc != APR_SUCCESS && direction == 0 ==> RefusedSeek(pos, rc)
      ensures 0 <= rc && (direction == 1 ==> rc == APR_EINVAL)
    {
      rc := SetPtr(pos);
      ghost var mid :| SetPtrPost(old(View()), mid, View(), old(kernel.Books()), kernel.Books(), pos, rc);
      SetPtrIsSeek(old(View()), mid, View(), old(kernel.Books()), kernel.Books(), pos, rc);
    }

    /** Flush what is pending, then close the descriptor; the close error wins over the flush error. */
    method Close() returns (status: int)
      requires Valid()
      modifies this`bufpos, this`filePtr, kernel
      ensures kernel.Books().Later(old(kernel.Books()))
      ensures status == APR_SUCCESS ==> !kernel.open
      ensures status == APR_SUCCESS && kernel.shortWrites == old(kernel.shortWrites) ==>
        kernel.contents == old(Contents(View()))
      ensures status == APR_SUCCESS <==> kernel.faults == old(kernel.faults)
      // A failing close goes before a failing flush.
      ensures old(kernel.open) && kernel.open ==> status == kernel.errno
      ensures !kernel.open ==> status == APR_SUCCESS || status == APR_EINVAL || !old(kernel.open)
    {
      var flushRv := APR_SUCCESS;
      if buffered {
        ghost var h := View();
        ghost var taken;
        flushRv, taken := FlushLocked();
        if flushRv == APR_SUCCESS { FlushKeepsFlatIff(h, taken); }
      }
      var rc := kernel.Close();
      status := if -rc != APR_SUCCESS then -rc else flushRv;
    }

    /** Reads until `size` bytes came or a read did not succeed. */
    method ReadFull(buf: array<byte>, at: nat, size: nat) returns (status: int, total: nat, ghost delivered: nat)
      requires Valid() && at + size <= buf.Length && buf != buffer
      modifies this, buffer, kernel, buf
      ensures Valid() && kernel.open == old(kernel.open)
      ensures ReadSoFar(old(View()), View(), old(kernel.Books()), kernel.Books(), old(buf[..]), buf[..], at, delivered)
      ensures total == delivered || (total == size && status == APR_EINVAL && delivered == 0 && old(direction) == 1)
      ensures total != delivered <==> 0 < size && direction == 1
      ensures delivered <= size && (status == APR_SUCCESS <==> delivered == size)
      ensures status == APR_EOF ==> Pos(View()) >= |Contents(View())|
      ensures status != APR_SUCCESS && status != APR_EOF ==> kernel.Books() != old(kernel.Books())
      ensures status == Kernel.EINTR ==> buffered && kernel.readInterrupts != old(kernel.readInterrupts)
    {
      hide ReadSoFar, Coherent;
      total, delivered := 0, 0;
      ghost var h, k, b := View(), kernel.Books(), buf[..];
      ReadSoFarStart(h, k, b, at);
      while true
        invariant Valid() && kernel.open == old(kernel.open)
        invariant ReadSoFar(h, View(), k, kernel.Books(), b, buf[..], at, delivered)
        invariant total == delivered <= size
        invariant delivered == size ==> size == 0
        invariant delivered == 0 ==> View() == h
        invariant 0 < delivered ==> direction == 0
        invariant kernel.Books().Later(k)
        decreases size - delivered
      {
        ghost var h1, k1, b1 := View(), kernel.Books(), buf[..];
        var amt;
        ghost var got;
        status, amt, got := Read(buf, at + total, size - total);
        ReadSoFarStep(h, h1, View(), k, k1, kernel.Books(), b, b1, buf[..], at, delivered, got);
        total := total + amt;
        delivered := delivered + got;
        if status != APR_SUCCESS || size - total <= 0 { break; }
      }
    }

    method Write(data: seq<byte>) returns (status: int, nbytes: nat, ghost accepted: int, ghost seekOk: bool)
      requires Valid()
      modifies this`bufpos, this`filePtr, this`dataRead, this`direction, buffer, kernel
      ensures Valid() && kernel.open == old(kernel.open) && kernel.Books().Later(old(kernel.Books()))
      ensures buffered ==> 0 <= accepted <= nbytes == |data|
      ensures buffered ==> (nbytes == accepted <==> status == APR_SUCCESS && |data| < 0x8000_0000)
      ensures buffered ==> WritePost(old(View()), View(), old(kernel.Books()), kernel.Books(),
                                     Stored(true, data), status, accepted, seekOk)
      ensures !buffered ==> status == APR_SUCCESS && -4096 < accepted <= |data|
      ensures !buffered ==> nbytes == if accepted < 0 then SIZE_MODULUS + accepted else accepted
      ensures !buffered ==> (accepted < 0 <==> kernel.faults != old(kernel.faults))
      ensures !buffered ==>
        kernel.contents == Overwrite(old(kernel.contents), old(kernel.WriteAt()), data[..Max(0, accepted)])
      ensures !buffered ==>
        kernel.offset == if accepted <= 0 then old(kernel.offset) else old(kernel.WriteAt()) + accepted
      ensures !buffered ==> kernel.WriteAt() == old(kernel.WriteAt()) + Max(0, accepted)
      ensures !buffered ==> kernel.patience <= old(kernel.patience)
      ensures !buffered && accepted <= 0 < |data| ==> kernel.patience < old(kernel.patience)
    {
      if buffered {
        status, nbytes, accepted, seekOk := WriteBuffered(data);
      } else {
        seekOk := true;
        status, nbytes, accepted := WriteUnbuffered(data);
      }
    }

    /**
     * Writes until everything is written or a write does not succeed. On a handle without a buffer
     * a kernel failure `-e` comes back as a success of a huge count, and the pointer, the rest and
     * the total wrap around: the loop steps back by `e` and goes on. `overrun` says it stepped back
     * to in front of `data`, where the model ends.
     */
    method WriteFull(data: seq<byte>)
      returns (status: int, total: nat, overrun: bool, ghost accepted: int, ghost seekOk: bool, ghost answers: seq<int>)
      requires Valid() && |data| < SIZE_MODULUS / 2
      modifies this`bufpos, this`filePtr, this`dataRead, this`direction, buffer, kernel
      ensures Valid() && kernel.open == old(kernel.open) && kernel.Books().Later(old(kernel.Books()))
      ensures overrun ==> Play(data, answers).at == total - SIZE_MODULUS < 0
      ensures !overrun ==> total == |data| && (!buffered ==> Play(data, answers).at == total)
      ensures overrun ==> !buffered && kernel.faults != old(kernel.faults)
      // Without a buffer: every failure is passed over, and what it stepped back over is sent twice.
      ensures !buffered ==> status == APR_SUCCESS && Answered(data, answers)
      ensures !buffered ==> (NoFailure(answers) <==> kernel.faults == old(kernel.faults))
      ensures !buffered ==>
        && kernel.contents == Overwrite(old(kernel.contents), old(kernel.WriteAt()), Play(data, answers).sent)
        && kernel.WriteAt() == old(kernel.WriteAt()) + |Play(data, answers).sent|
      ensures !buffered && !overrun ==>
        && |Play(data, answers).sent| == |data| + SteppedBack(answers)
        && (Play(data, answers).sent == data <==> kernel.faults == old(kernel.faults))
      ensures buffered ==> 0 <= accepted && WritePost(old(View()), View(), old(kernel.Books()), kernel.Books(),
                                                      Stored(true, data), status, accepted, seekOk)
      ensures buffered ==> (total == accepted <==> status == APR_SUCCESS && |data| < 0x8000_0000)
    {
      hide Coherent, WritePost, Stored, Overwrite, Play, Answered, NoFailure;
      NothingPlayed(data, kernel.contents, kernel.WriteAt());
      total, overrun, answers := 0, false, [];
      ghost var c, at := kernel.contents, kernel.WriteAt();
      while true
        invariant Valid() && kernel.open == old(kernel.open) && kernel.Books().Later(old(kernel.Books()))
        invariant total <= |data| && (total == |data| ==> total == 0)
        invariant !buffered ==> Played(data, answers, total, c, at, kernel.contents, kernel.WriteAt())
        invariant !buffered ==> (NoFailure(answers) <==> kernel.faults == old(kernel.faults))
        invariant buffered ==> total == 0 && View() == old(View()) && kernel.Books() == old(kernel.Books())
        decreases kernel.patience, |data| - total
      {
        var amt;
        ghost var before, end := kernel.contents, kernel.WriteAt();
        status, amt, accepted, seekOk := Write(data[total..]);
        if !buffered {
          PlayedStep(data, answers, total, c, at, before, end, kernel.contents, kernel.WriteAt(), accepted);
          answers := answers + [accepted];
        } else {
          assert data[total..] == data;
        }
        total := (total + amt) % SIZE_MODULUS;
        if total > |data| {
          overrun := true;
          break;
        }
        if status != APR_SUCCESS || |data| - total <= 0 { break; }
      }
      if !buffered && !overrun { FullWriteIff(data, answers); }
    }

    /** Flush on request: a handle without a buffer has nothing to do. */
    method Flush() returns (rv: int)
      requires Valid()
      modifies this`bufpos, this`filePtr, kernel
      ensures Valid() && kernel.open == old(kernel.open) && kernel.Books().Later(old(kernel.Books()))
      ensures Drift(View()) == old(Drift(View()))
      ensures kernel.shortWrites == old(kernel.shortWrites) ==> Flat(View()) == old(Flat(View()))
      ensures rv == APR_SUCCESS ==> kernel.contents == Contents(View())
      ensures rv == APR_SUCCESS <==> kernel.faults == old(kernel.faults)
      ensures rv == APR_SUCCESS || rv == APR_EINVAL
    {
      rv := APR_SUCCESS;
      if buffered {
        ghost var h := View();
        ghost var taken;
        rv, taken := FlushLocked();
        if rv == APR_SUCCESS { FlushKeepsFlatIff(h, taken); }
      }
    }
  }
}
