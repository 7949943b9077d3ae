/** The data connection and the two transfer loops between it and a file. */
module Transfer {
  import opened Apr
  import opened Bytes
  import opened Handle
  import opened FileOps
  import AsciiCodec

  const DATA_BUFSIZE: nat := 65536
  const CHUNK_SIZE: nat := 4096

  /**
   * A connected data socket: what this side has sent, and what the peer sends before it closes.
   * `idle` bounds how many more receives may succeed without any byte; `failures` counts failing
   * answers, and `stalls` the sends that took nothing of what was offered.
   */
  class DataSocket {
    var sent: seq<byte>
    var incoming: seq<byte>
    var idle: nat
    ghost var failures: nat
    ghost var stalls: nat

    constructor (incoming: seq<byte>, idle: nat)
      ensures sent == [] && this.incoming == incoming && this.idle == idle && failures == 0 && stalls == 0
    {
      sent, this.incoming, this.idle := [], incoming, idle;
      failures, stalls := 0, 0;
    }

    /** Any leading part of `data`, or a failure that sends nothing. */
    method Send(data: seq<byte>) returns (rc: int, n: nat)
      modifies this`sent, this`failures, this`stalls
      ensures n <= |data| && sent == old(sent) + data[..n]
      ensures rc != APR_SUCCESS ==> n == 0
      ensures failures == old(failures) + (if rc != APR_SUCCESS then 1 else 0)
      ensures stalls == old(stalls) + (if rc == APR_SUCCESS && n == 0 < |data| then 1 else 0)
    {
      if * {
        var e: int :| 0 < e < 4096;
        rc, n := e, 0;
        failures := failures + 1;
      } else {
        var m: nat :| m <= |data|;
        rc, n := APR_SUCCESS, m;
        if n == 0 < |data| { stalls := stalls + 1; }
      }
      sent := sent + data[..n];
    }

    /** Any leading part of what is coming, APR_EOF once nothing is, or a failure. */
    method Recv(buf: array<byte>, at: nat, count: nat) returns (rc: int, n: nat)
      requires 0 < count && at + count <= buf.Length
      modifies this`incoming, this`idle, this`failures, buf
      ensures n <= count && n <= |old(incoming)| && incoming == old(incoming)[n..]
      ensures Copied(old(buf[..]), buf[..], at, old(incoming), 0, n)
      ensures n == 0 ==> incoming == old(incoming)
      ensures rc != APR_SUCCESS ==> n == 0
      ensures rc == APR_EOF ==> incoming == []
      ensures rc != APR_SUCCESS ==> idle == old(idle)
      ensures failures == old(failures) + (if rc != APR_SUCCESS && rc != APR_EOF then 1 else 0)
      ensures rc == APR_SUCCESS ==> if n == 0 then idle < old(idle) else idle == old(idle)
    {
      if * {
        var e: int :| 0 < e < 4096;
        failures := failures + 1;
        return e, 0;
      } else if * {
        if idle > 0 {
          idle := idle - 1;
          return APR_SUCCESS, 0;
        }
      }
      if incoming == [] { return APR_EOF, 0; }
      var most := Min(count, |incoming|);
      var m: nat :| 1 <= m <= most;
      rc, n := APR_SUCCESS, m;
      forall i | 0 <= i < n { buf[at + i] := incoming[i]; }
      incoming := incoming[n..];
    }
  }

  /** Sends until everything is sent, the socket takes nothing more, or it fails. */
  method SocketWriteFull(sock: DataSocket, data: seq<byte>) returns (rc: int, size: nat)
    modifies sock`sent, sock`failures, sock`stalls
    ensures size <= |data| && sock.sent == old(sock.sent) + data[..size]
    ensures rc != APR_SUCCESS <==> sock.failures != old(sock.failures)
    ensures rc != APR_SUCCESS ==> size < |data| || data == []
    ensures rc == APR_SUCCESS ==> (size < |data| <==> sock.stalls != old(sock.stalls))
  {
    size := 0;
    while true
      invariant size <= |data| && sock.sent == old(sock.sent) + data[..size]
      invariant sock.failures == old(sock.failures) && sock.stalls == old(sock.stalls)
      invariant size == |data| ==> data == []
      decreases |data| - size
    {
      var numWritten;
      rc, numWritten := sock.Send(data[size..]);
      assert data[..size] + data[size..][..numWritten] == data[..size + numWritten];
      if rc != APR_SUCCESS {
        return;
      } else if numWritten == 0 {
        return;
      }
      size := size + numWritten;
      if |data| - size == 0 { return; }
    }
  }

  lemma EncodeAtMostDouble(s: seq<byte>)
    ensures |AsciiCodec.Encode(s)| <= 2 * |s|
  {
  }

  /** One read of a file that is being read only. */
  method ReadChunk(file: LklFile, buf: array<byte>, count: nat) returns (rc: int, n: nat)
    requires file.Valid() && file.direction == 0 && count <= buf.Length && buf != file.buffer && 0 < count
    modifies file, file.buffer, file.kernel, buf
    ensures file.Valid() && file.direction == 0 && file.Text() == old(file.Text())
    ensures file.At() == old(file.At()) + n && n <= count
    ensures file.kernel.Books().Later(old(file.kernel.Books()))
    ensures rc == APR_SUCCESS ==> 0 < n && file.At() <= |file.Text()|
    ensures rc == APR_SUCCESS ==> buf[..n] == file.Text()[old(file.At())..file.At()]
    ensures rc != APR_SUCCESS ==> n == 0
    ensures rc == APR_EOF ==> file.At() >= |file.Text()|
    ensures rc != APR_SUCCESS && rc != APR_EOF ==> file.kernel.Books() != old(file.kernel.Books())
    ensures !file.buffered ==> (rc == APR_SUCCESS || rc == APR_EOF <==> file.kernel.faults == old(file.kernel.faults))
  {
    ghost var h, b := file.View(), buf[..];
    ghost var delivered;
    rc, n, delivered := file.Read(buf, 0, count);
    assert Flat(file.View()) == Flat(h).(pos := Pos(h) + delivered);
    if rc == APR_SUCCESS { CopiedSlice(b, buf[..], 0, Contents(file.View()), Pos(h), n); }
  }

  /** Sends the `n` bytes at the front of `readbuf`, encoded on the way in an ASCII transfer. */
  method SendBlock(sock: DataSocket, readbuf: array<byte>, asciibuf: array<byte>, n: nat,
                   isAscii: bool, length: AsciiCodec.SendLength)
    returns (sentAll: bool, written: nat)
    requires n <= readbuf.Length && 2 * n <= asciibuf.Length && readbuf != asciibuf
    modifies sock`sent, sock`failures, sock`stalls, asciibuf
    ensures var wire := AsciiCodec.Wire(old(readbuf[..n]), isAscii, length);
      && written <= |wire| && sock.sent == old(sock.sent) + wire[..written]
      && (sentAll ==> written == |wire|) && (wire != [] && !sentAll ==> written < |wire|)
    ensures n > 0 ==> (sentAll <==> sock.failures == old(sock.failures) && sock.stalls == old(sock.stalls))
  {
    ghost var block := readbuf[..n];
    EncodeAtMostDouble(block);
    AsciiCodec.EncodeNoShorter(block);
    var numToWrite, out := n, readbuf[..n];
    if isAscii {
      numToWrite := AsciiCodec.BinToAscii(readbuf, asciibuf, n);
      out := asciibuf[..if length == AsciiCodec.AsRead then n else numToWrite];
      assert out == asciibuf[..numToWrite][..|out|];
    }
    assert out == AsciiCodec.Wire(block, isAscii, length);
    var rc;
    rc, written := SocketWriteFull(sock, out);
    sentAll := rc == APR_SUCCESS && written == |out|;
  }

  /**
   * Sends a file from its position on. The source sends `AsRead`: of each encoded block as many
   * bytes as were read. `blocks` are the blocks that went out whole; `cut` is the block that did
   * not, if there is one, and `partial` what went out of it.
   */
  method DoFileSendRwloop(sock: DataSocket, file: LklFile, isAscii: bool, length: AsciiCodec.SendLength)
    returns (retval: int, transferred: nat,
             ghost blocks: seq<seq<byte>>, ghost cut: seq<byte>, ghost partial: seq<byte>)
    requires file.Valid() && file.direction == 0 && file.At() <= |file.Text()|
    modifies sock`sent, sock`failures, sock`stalls, file, file.buffer, file.kernel
    ensures file.Valid() && file.direction == 0 && file.Text() == old(file.Text())
    ensures retval in {0, -1, -2}
    ensures AsciiCodec.Flatten(blocks) + cut <= old(file.Text()[file.At()..])
    ensures sock.sent == old(sock.sent) + AsciiCodec.Flatten(AsciiCodec.WireEach(blocks, isAscii, length)) + partial
    ensures transferred == |AsciiCodec.Flatten(AsciiCodec.WireEach(blocks, isAscii, length))|
    ensures retval != -2 ==> cut == [] && partial == []
    ensures retval == -2 ==> cut != [] && partial < AsciiCodec.Wire(cut, isAscii, length)
    ensures retval == -2 <==> sock.failures != old(sock.failures) || sock.stalls != old(sock.stalls)
    ensures retval == 0 ==> AsciiCodec.Flatten(blocks) == old(file.Text()[file.At()..])
    ensures retval == -1 ==> file.kernel.Books() != old(file.kernel.Books())
    ensures !file.buffered ==> (retval == -1 <==> file.kernel.faults != old(file.kernel.faults))
  {
    hide Coherent, AsciiCodec.WireEach, AsciiCodec.Wire, AsciiCodec.Flatten, AsciiCodec.Encode;
    hide LklFile.Text, LklFile.At, LklFile.Valid;
    var readbuf := new byte[if isAscii then DATA_BUFSIZE * 2 else DATA_BUFSIZE];
    var asciibuf := new byte[DATA_BUFSIZE * 2];
    retval, transferred, blocks, cut, partial := 0, 0, [], [], [];
    NothingSent(isAscii, length);
    ghost var c, p, s := file.Text(), file.At(), sock.sent;
    while true
      invariant file.Valid() && file.direction == 0 && file.Text() == c
      invariant p <= file.At() <= |c|
      invariant AsciiCodec.Flatten(blocks) == c[p..file.At()] <= c[p..]
      invariant sock.sent == s + AsciiCodec.Flatten(AsciiCodec.WireEach(blocks, isAscii, length))
      invariant transferred == |AsciiCodec.Flatten(AsciiCodec.WireEach(blocks, isAscii, length))|
      invariant file.kernel.Books().Later(old(file.kernel.Books()))
      invariant !file.buffered ==> file.kernel.faults == old(file.kernel.faults)
      invariant sock.failures == old(sock.failures) && sock.stalls == old(sock.stalls)
      decreases |c| - file.At()
    {
      ghost var q := file.At();
      var rc, bytesRead := ReadChunk(file, readbuf, CHUNK_SIZE);
      if rc != APR_SUCCESS && rc != APR_EOF {
        retval := -1;
        return;
      } else if bytesRead == 0 {
        return;
      }
      ghost var block := readbuf[..bytesRead];
      SliceJoin(c, p, q, file.At());
      SliceJoin(c, p, file.At(), |c|);
      WireNotEmpty(block, isAscii, length);
      var sentAll, bytesWritten := SendBlock(sock, readbuf, asciibuf, bytesRead, isAscii, length);
      if !sentAll {
        retval := -2;
        cut := block;
        partial := AsciiCodec.Wire(block, isAscii, length)[..bytesWritten];
        return;
      }
      assert AsciiCodec.Wire(block, isAscii, length)[..bytesWritten] == AsciiCodec.Wire(block, isAscii, length);
      AsciiCodec.WireSnoc(blocks, block, isAscii, length);
      AsciiCodec.FlattenSnoc(AsciiCodec.WireEach(blocks, isAscii, length), AsciiCodec.Wire(block, isAscii, length));
      AsciiCodec.FlattenSnoc(blocks, block);
      AsciiCodec.Assoc(s, AsciiCodec.Flatten(AsciiCodec.WireEach(blocks, isAscii, length)),
                       AsciiCodec.Wire(block, isAscii, length));
      blocks := blocks + [block];
      transferred := transferred + bytesWritten;
    }
  }

  lemma WireNotEmpty(block: seq<byte>, isAscii: bool, length: AsciiCodec.SendLength)
    requires block != []
    ensures AsciiCodec.Wire(block, isAscii, length) != []
  {
    AsciiCodec.EncodeNoShorter(block);
  }

  lemma NothingSent(isAscii: bool, length: AsciiCodec.SendLength)
    ensures AsciiCodec.Flatten(AsciiCodec.WireEach([], isAscii, length)) == AsciiCodec.Flatten([]) == []
  {
  }

  /** What is stored of a list of received chunks. */
  function StoredOf(chunks: seq<seq<byte>>, isAscii: bool): seq<byte> {
    if isAscii then AsciiCodec.Out(false, chunks) else AsciiCodec.Flatten(chunks)
  }

  function StoredChunk(prevCr: bool, chunk: seq<byte>, isAscii: bool): seq<byte> {
    if isAscii then AsciiCodec.ChunkOut(prevCr, chunk) else chunk
  }

  lemma StoredSnoc(chunks: seq<seq<byte>>, chunk: seq<byte>, isAscii: bool)
    ensures StoredOf(chunks + [chunk], isAscii)
      == StoredOf(chunks, isAscii) + StoredChunk(AsciiCodec.Carry(false, chunks), chunk, isAscii)
  {
    if isAscii { AsciiCodec.OutSnoc(false, chunks, chunk); } else { AsciiCodec.FlattenSnoc(chunks, chunk); }
  }

  /**
   * One chunk: received behind the spare byte, decoded in an ASCII transfer, and written to the
   * file. `put` is what reaches the file: the chunk exactly when the kernel did not fail, and more
   * than it when the full write stepped back and still came to its end.
   */
  method StoreChunk(file: LklFile, recvbuf: array<byte>, n: nat, isAscii: bool, prevCr: bool)
    returns (ok: bool, overrun: bool, lastWasCr: bool, ghost put: seq<byte>)
    requires file.Valid() && !file.buffered && n + 1 <= recvbuf.Length <= DATA_BUFSIZE + 1 && recvbuf != file.buffer
    modifies file`bufpos, file`filePtr, file`dataRead, file`direction, file.buffer, file.kernel, recvbuf
    ensures file.Valid()
    ensures ok <==> !overrun
    ensures overrun ==> file.kernel.faults != old(file.kernel.faults)
    ensures file.kernel.Books().Later(old(file.kernel.Books()))
    ensures lastWasCr == if isAscii then AsciiCodec.EndsInCr(old(recvbuf[1..n + 1])) else prevCr
    ensures file.kernel.contents == Overwrite(old(file.kernel.contents), old(file.kernel.WriteAt()), put)
    ensures file.kernel.WriteAt() == old(file.kernel.WriteAt()) + |put|
    ensures var chunk := StoredChunk(prevCr, old(recvbuf[1..n + 1]), isAscii);
      ok ==> if file.kernel.faults == old(file.kernel.faults) then put == chunk else |put| > |chunk|
  {
    hide Overwrite, Play, Answered, NoFailure, SteppedBack, WritePost, Stored, Coherent, Shape;
    hide AsciiCodec.ChunkOut, AsciiCodec.EndsInCr;
    var start, numToWrite := 1, n;
    lastWasCr := prevCr;
    if isAscii {
      start, numToWrite, lastWasCr := AsciiCodec.AsciiToBin(recvbuf, n, prevCr);
    }
    var data := recvbuf[start..start + numToWrite];
    var rc, bytesWritten;
    ghost var accepted, seekOk, answers;
    rc, bytesWritten, overrun, accepted, seekOk, answers := file.WriteFull(data);
    put := Play(data, answers).sent;
    if !overrun { MoreUnlessData(data, answers); }
    ok := !overrun && rc == APR_SUCCESS && numToWrite == bytesWritten;
  }

  lemma MoreUnlessData(data: seq<byte>, answers: seq<int>)
    requires Answered(data, answers) && Play(data, answers).at == |data|
    ensures if NoFailure(answers) then Play(data, answers).sent == data else |Play(data, answers).sent| > |data|
  {
    PlayConserves(data, answers);
    FullWriteIff(data, answers);
  }

  /**
   * Receives until the peer closes and stores what came. `chunks` are the chunks received, in
   * order, a final empty one that releases a pending CR included, and `stored` is what reached the
   * file. `overrun` marks a failing kernel write that made the source step back to in front of its
   * chunk; after any other it sends part of the chunk again and goes on as if nothing were wrong.
   */
  method DoFileRecv(sock: DataSocket, file: LklFile, isAscii: bool)
    returns (retval: int, transferred: nat, overrun: bool, ghost chunks: seq<seq<byte>>, ghost stored: seq<byte>)
    requires file.Valid() && !file.buffered
    modifies sock`incoming, sock`idle, sock`failures, file, file.buffer, file.kernel
    ensures file.Valid()
    ensures retval == (if sock.failures != old(sock.failures) then -2 else 0)
    ensures overrun ==> file.kernel.faults != old(file.kernel.faults)
    ensures AsciiCodec.Flatten(chunks) + sock.incoming == old(sock.incoming)
    ensures transferred == |AsciiCodec.Flatten(chunks)|
    ensures file.kernel.contents == Overwrite(old(file.kernel.contents), old(file.kernel.WriteAt()), stored)
    // What is stored is what came, exactly when the kernel never failed.
    ensures !overrun ==> (stored == StoredOf(chunks, isAscii) <==> file.kernel.faults == old(file.kernel.faults))
    // The whole transfer came through: what came is the decoded stream, however it was cut.
    ensures retval == 0 && !overrun ==> sock.incoming == []
    ensures retval == 0 && !overrun && isAscii ==> StoredOf(chunks, isAscii) == AsciiCodec.Stream(false, chunks)
    ensures retval == 0 && !overrun && (!isAscii || sock.idle == old(sock.idle)) ==>
      StoredOf(chunks, isAscii) == if isAscii then AsciiCodec.Decode(old(sock.incoming)) else old(sock.incoming)
    ensures sock.idle <= old(sock.idle)
  {
    hide LklFile.Valid, Coherent, StoredOf, StoredSoFar, ReceivedSoFar, AsciiCodec.Flatten, AsciiCodec.Carry;
    hide AsciiCodec.EmptyOnlyAtEnd, Overwrite;
    var recvbuf := new byte[DATA_BUFSIZE + 1];
    var prevCr := false;
    retval, transferred, overrun, chunks, stored := 0, 0, false, [], [];
    ghost var c, at, all := file.kernel.contents, file.kernel.WriteAt(), sock.incoming;
    ghost var faults := file.kernel.faults;
    NothingStored(c, at, all, isAscii);
    while true
      invariant file.Valid() && !overrun && file.kernel.faults >= faults && sock.idle <= old(sock.idle)
      invariant retval == 0 && sock.failures == old(sock.failures)
      invariant ReceivedSoFar(all, sock.incoming, chunks, transferred)
      invariant StoredSoFar(c, at, file.kernel.contents, file.kernel.WriteAt(), stored)
      invariant Matches(stored, chunks, isAscii, file.kernel.faults == faults)
      invariant prevCr == (isAscii && AsciiCodec.Carry(false, chunks))
      invariant sock.idle == old(sock.idle) ==> AsciiCodec.EmptyOnlyAtEnd(chunks)
      invariant sock.idle == old(sock.idle) && chunks != [] && chunks[|chunks| - 1] == [] ==> sock.incoming == []
      decreases |sock.incoming|, sock.idle, prevCr
    {
      ghost var b, incoming := recvbuf[..], sock.incoming;
      var rc, bytesRecvd := sock.Recv(recvbuf, 1, DATA_BUFSIZE);
      if rc != APR_SUCCESS && rc != APR_EOF {
        retval := -2;
        ReceiveDone(c, at, file.kernel.contents, file.kernel.WriteAt(), stored, all, sock.incoming,
                    chunks, transferred, isAscii, file.kernel.faults == faults);
        return;
      } else if bytesRecvd == 0 && !prevCr && rc == APR_EOF {
        ReceiveDone(c, at, file.kernel.contents, file.kernel.WriteAt(), stored, all, sock.incoming,
                    chunks, transferred, isAscii, file.kernel.faults == faults);
        return;
      }
      ghost var chunk := recvbuf[1..bytesRecvd + 1];
      CopiedSlice(b, recvbuf[..], 1, incoming, 0, bytesRecvd);
      ReceiveStep(all, incoming, chunks, transferred, bytesRecvd);
      assert chunk == incoming[..bytesRecvd];
      transferred := transferred + bytesRecvd;
      ghost var contents, writeAt, clean := file.kernel.contents, file.kernel.WriteAt(), file.kernel.faults == faults;
      var ok, lastWasCr;
      ghost var put;
      ok, overrun, lastWasCr, put := StoreChunk(file, recvbuf, bytesRecvd, isAscii, prevCr);
      StoreStep(c, at, contents, writeAt, stored, file.kernel.contents, file.kernel.WriteAt(), put);
      if ok { MatchStep(stored, put, chunks, chunk, prevCr, isAscii, clean, file.kernel.faults == faults); }
      EmptyStep(chunks, chunk);
      prevCr := lastWasCr;
      chunks, stored := chunks + [chunk], stored + put;
      if !ok {
        ReceivedAll(all, sock.incoming, chunks, transferred);
        return;
      }
    }
  }

  // ---- what the receive loop keeps -----------------------------------------------------------------------

  ghost predicate ReceivedSoFar(all: seq<byte>, incoming: seq<byte>, chunks: seq<seq<byte>>, transferred: nat) {
    AsciiCodec.Flatten(chunks) + incoming == all && transferred == |AsciiCodec.Flatten(chunks)|
  }

  ghost predicate StoredSoFar(c: seq<byte>, at: nat, contents: seq<byte>, writeAt: nat, stored: seq<byte>) {
    contents == Overwrite(c, at, stored) && writeAt == at + |stored|
  }

  /** What is stored of the chunks: exactly them if the kernel never failed, and more if it did. */
  ghost predicate Matches(stored: seq<byte>, chunks: seq<seq<byte>>, isAscii: bool, clean: bool) {
    if clean then stored == StoredOf(chunks, isAscii) else |stored| > |StoredOf(chunks, isAscii)|
  }

  lemma NothingStored(c: seq<byte>, at: nat, all: seq<byte>, isAscii: bool)
    ensures StoredSoFar(c, at, c, at, []) && ReceivedSoFar(all, all, [], 0) && Matches([], [], isAscii, true)
    ensures !AsciiCodec.Carry(false, []) && AsciiCodec.EmptyOnlyAtEnd([])
  {
    assert [] + all == all;
  }

  lemma ReceiveStep(all: seq<byte>, incoming: seq<byte>, chunks: seq<seq<byte>>, transferred: nat, n: nat)
    requires ReceivedSoFar(all, incoming, chunks, transferred) && n <= |incoming|
    ensures ReceivedSoFar(all, incoming[n..], chunks + [incoming[..n]], transferred + n)
  {
    AsciiCodec.FlattenSnoc(chunks, incoming[..n]);
    assert incoming[..n] + incoming[n..] == incoming;
    AsciiCodec.Assoc(AsciiCodec.Flatten(chunks), incoming[..n], incoming[n..]);
  }

  lemma StoreStep(c: seq<byte>, at: nat, contents: seq<byte>, writeAt: nat, stored: seq<byte>,
                  contents': seq<byte>, writeAt': nat, put: seq<byte>)
    requires StoredSoFar(c, at, contents, writeAt, stored)
    requires contents' == Overwrite(contents, writeAt, put) && writeAt' == writeAt + |put|
    ensures StoredSoFar(c, at, contents', writeAt', stored + put)
  {
    OverwriteConcat(c, at, stored, put);
  }

  lemma MatchStep(stored: seq<byte>, put: seq<byte>, chunks: seq<seq<byte>>, chunk: seq<byte>, prevCr: bool,
                  isAscii: bool, clean: bool, clean': bool)
    requires Matches(stored, chunks, isAscii, clean) && (clean' ==> clean)
    requires prevCr == (isAscii && AsciiCodec.Carry(false, chunks))
    requires if clean == clean' && put == StoredChunk(prevCr, chunk, isAscii) then true
             else !clean' && |put| >= |StoredChunk(prevCr, chunk, isAscii)|
                  && (clean ==> |put| > |StoredChunk(prevCr, chunk, isAscii)|)
    ensures Matches(stored + put, chunks + [chunk], isAscii, clean')
    ensures AsciiCodec.Carry(false, chunks + [chunk]) == AsciiCodec.EndsInCr(chunk)
  {
    StoredSnoc(chunks, chunk, isAscii);
    PlainChunk(AsciiCodec.Carry(false, chunks), prevCr, chunk, isAscii);
  }

  lemma EmptyStep(chunks: seq<seq<byte>>, chunk: seq<byte>)
    ensures AsciiCodec.EmptyOnlyAtEnd(chunks) && (chunks != [] && chunks[|chunks| - 1] == [] ==> chunk == []) ==>
      AsciiCodec.EmptyOnlyAtEnd(chunks + [chunk])
  {
  }

  lemma ReceivedAll(all: seq<byte>, incoming: seq<byte>, chunks: seq<seq<byte>>, transferred: nat)
    requires ReceivedSoFar(all, incoming, chunks, transferred)
    ensures AsciiCodec.Flatten(chunks) + incoming == all && transferred == |AsciiCodec.Flatten(chunks)|
    ensures incoming == [] ==> AsciiCodec.Flatten(chunks) == all
  {
  }

  lemma ReceiveDone(c: seq<byte>, at: nat, contents: seq<byte>, writeAt: nat, stored: seq<byte>,
                    all: seq<byte>, incoming: seq<byte>, chunks: seq<seq<byte>>, transferred: nat,
                    isAscii: bool, clean: bool)
    requires ReceivedSoFar(all, incoming, chunks, transferred)
    requires StoredSoFar(c, at, contents, writeAt, stored) && Matches(stored, chunks, isAscii, clean)
    ensures AsciiCodec.Flatten(chunks) + incoming == all && transferred == |AsciiCodec.Flatten(chunks)|
    ensures contents == Overwrite(c, at, stored)
    ensures stored == StoredOf(chunks, isAscii) <==> clean
    ensures isAscii && !AsciiCodec.Carry(false, chunks) ==>
      StoredOf(chunks, isAscii) == AsciiCodec.Stream(false, chunks)
    ensures incoming == [] && !isAscii ==> StoredOf(chunks, isAscii) == all
    ensures incoming == [] && isAscii && !AsciiCodec.Carry(false, chunks) && AsciiCodec.EmptyOnlyAtEnd(chunks) ==>
      StoredOf(chunks, isAscii) == AsciiCodec.Decode(all)
  {
    ReceivedAll(all, incoming, chunks, transferred);
    if isAscii {
      AsciiCodec.StreamIsOut(false, chunks);
      AsciiCodec.ChunkingInvisibleIff(chunks);
    }
  }

  /** Without ASCII conversion nothing depends on a pending CR. */
  lemma PlainChunk(carried: bool, prevCr: bool, chunk: seq<byte>, isAscii: bool)
    requires isAscii ==> carried == prevCr
    ensures StoredChunk(carried, chunk, isAscii) == StoredChunk(prevCr, chunk, isAscii)
  {
  }

  // ---- both loops together ---------------------------------------------------------------------------------

  /**
   * One side sends a file from its position on, the other stores what arrives, however reads, sends
   * and receives are split. Both report success (`done`) if nothing fails and no send stalls; a
   * source without a buffer makes that exact, up to kernel writes that fail on the other side and
   * are passed over. `lost` counts failures and stalls of the connection, `empties` receives that
   * brought nothing. When all goes through, the file arrives as it was if whole encoded blocks are
   * sent; if only as many bytes as were read are sent, exactly when it has no LF.
   */
  method Relay(src: LklFile, dst: LklFile, isAscii: bool, length: AsciiCodec.SendLength, idle: nat)
    returns (done: bool, ghost lost: nat, ghost empties: nat, ghost stored: seq<byte>)
    requires src.Valid() && src.direction == 0 && src.At() <= |src.Text()|
    requires dst.Valid() && !dst.buffered && src != dst && src.kernel != dst.kernel && src.buffer != dst.buffer
    modifies src, src.buffer, src.kernel, dst, dst.buffer, dst.kernel
    ensures done ==> lost == 0
    ensures lost == 0 && src.kernel.Books() == old(src.kernel.Books()) ==>
      dst.kernel.faults == old(dst.kernel.faults) ==> done
    ensures !src.buffered && dst.kernel.faults == old(dst.kernel.faults) ==>
      (done <==> lost == 0 && src.kernel.faults == old(src.kernel.faults))
    ensures done ==> dst.kernel.contents == Overwrite(old(dst.kernel.contents), old(dst.kernel.WriteAt()), stored)
    ensures done && !isAscii ==>
      (stored == old(src.Text()[src.At()..]) <==> dst.kernel.faults == old(dst.kernel.faults))
    ensures done && isAscii && length == AsciiCodec.AsEncoded && empties == 0 ==>
      (stored == old(src.Text()[src.At()..]) <==> dst.kernel.faults == old(dst.kernel.faults))
    ensures done && isAscii && length == AsciiCodec.AsRead && empties == 0
            && dst.kernel.faults == old(dst.kernel.faults) ==>
      (stored == old(src.Text()[src.At()..]) <==> LF !in old(src.Text()[src.At()..]))
  {
    hide LklFile.Valid, LklFile.Text, LklFile.At, StoredOf, Coherent, Overwrite;
    ghost var file := src.Text()[src.At()..];
    stored, empties := [], 0;
    var up := new DataSocket([], 0);
    var retval, transferred;
    ghost var blocks, cut, partial, chunks;
    retval, transferred, blocks, cut, partial := DoFileSendRwloop(up, src, isAscii, length);
    lost := up.failures + up.stalls;
    if retval != 0 { return false, lost, 0, stored; }
    ghost var wire := AsciiCodec.Flatten(AsciiCodec.WireEach(blocks, isAscii, length));
    assert up.sent == wire;
    var down := new DataSocket(up.sent, idle);
    var overrun;
    retval, transferred, overrun, chunks, stored := DoFileRecv(down, dst, isAscii);
    lost, empties := lost + down.failures, idle - down.idle;
    done := retval == 0 && !overrun;
    if done && (!isAscii || empties == 0) {
      assert StoredOf(chunks, isAscii) == if isAscii then AsciiCodec.Decode(wire) else wire;
      Arrives(blocks, isAscii, length);
    }
  }

  lemma Arrives(blocks: seq<seq<byte>>, isAscii: bool, length: AsciiCodec.SendLength)
    ensures var wire := AsciiCodec.Flatten(AsciiCodec.WireEach(blocks, isAscii, length));
      var stored := if isAscii then AsciiCodec.Decode(wire) else wire;
      && (!isAscii || length == AsciiCodec.AsEncoded ==> stored == AsciiCodec.Flatten(blocks))
      && (isAscii && length == AsciiCodec.AsRead ==>
            (stored == AsciiCodec.Flatten(blocks) <==> LF !in AsciiCodec.Flatten(blocks)))
  {
    if !isAscii {
      AsciiCodec.PlainChunks(blocks, length);
    } else if length == AsciiCodec.AsEncoded {
      AsciiCodec.EncodeChunks(blocks);
      AsciiCodec.DecodeEncode(AsciiCodec.Flatten(blocks));
    } else {
      AsciiCodec.AsWrittenIff(blocks);
    }
  }
}
