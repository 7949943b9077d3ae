/**
 * ASCII transfer mode (RFC 959, section 3.1.1.1): on the wire a line ends in CR LF, in the file in
 * LF. The encoder puts a CR in front of every LF; the decoder drops each CR that an LF follows.
 */
module AsciiCodec {
  import opened Bytes

  /** The wire form of file bytes. */
  function Encode(s: seq<byte>): seq<byte> {
    if s == [] then [] else EncodeByte(s[0]) + Encode(s[1..])
  }

  function EncodeByte(b: byte): seq<byte> { if b == LF then [CR, LF] else [b] }

  /** The file form of a complete wire stream. */
  function Decode(s: seq<byte>): seq<byte> {
    if s == [] then [] else Kept(s) + Decode(s[1..])
  }

  /** The first byte, unless it is a CR in front of an LF. */
  function Kept(s: seq<byte>): seq<byte>
    requires s != []
  {
    if s[0] == CR && 1 < |s| && s[1] == LF then [] else [s[0]]
  }

  /** The decoder looks one byte ahead and no further. */
  lemma DecodeCons(b: byte, t: seq<byte>)
    ensures Decode([b] + t) == (if b == CR && t != [] && t[0] == LF then [] else [b]) + Decode(t)
  {
    assert ([b] + t)[1..] == t;
  }

  function Flatten(chunks: seq<seq<byte>>): seq<byte> {
    if chunks == [] then [] else chunks[0] + Flatten(chunks[1..])
  }

  lemma Assoc(a: seq<byte>, b: seq<byte>, c: seq<byte>)
    ensures (a + b) + c == a + (b + c)
  {
  }

  // ---- the two directions undo each other -------------------------------------------------------

  /** "a", LF, CR, "b" on the wire, and back. */
  lemma CodecExample()
    ensures Encode([97, 10, 13, 98]) == [97, 13, 10, 13, 98]
    ensures Decode([97, 13, 10, 13, 98]) == [97, 10, 13, 98]
  {
    assert [97 as byte, 10, 13, 98][1..] == [10, 13, 98] && [10 as byte, 13, 98][1..] == [13, 98];
    assert [13 as byte, 98][1..] == [98] && Encode([98]) == [98] && Encode([13, 98]) == [13, 98];
    assert Encode([10, 13, 98]) == [13, 10, 13, 98];
    DecodeEncode([97, 10, 13, 98]);
  }

  /** Decoding the wire form of a file gives the file back: for every byte string whatsoever. */
  lemma {:induction false} DecodeEncode(s: seq<byte>)
    ensures Decode(Encode(s)) == s
  {
    if s != [] {
      var t := Encode(s[1..]);
      DecodeEncode(s[1..]);
      EncodeNeverStartsWithLf(s[1..]);
      DecodeCons(s[0], t);
      if s[0] == LF {
        DecodeCons(CR, [LF] + t);
        assert Encode(s) == [CR] + ([LF] + t);
      }
    }
  }

  lemma EncodeNeverStartsWithLf(s: seq<byte>)
    ensures Encode(s) != [] ==> Encode(s)[0] != LF
  {
  }

  /** Every LF has a CR right in front of it. */
  predicate Canonical(t: seq<byte>) {
    forall i :: 0 <= i < |t| && t[i] == LF ==> 0 < i && t[i - 1] == CR
  }

  /** Encoding what was decoded gives the wire stream back exactly when every LF in it follows a CR. */
  lemma {:induction false} EncodeDecodeIff(t: seq<byte>)
    ensures Encode(Decode(t)) == t <==> Canonical(t)
  {
    if Canonical(t) {
      EncodeDecodeCanonical(t);
    } else if Encode(Decode(t)) == t {
      EncodeIsCanonical(Decode(t));
    }
  }

  lemma {:induction false} EncodeIsCanonical(s: seq<byte>)
    ensures Canonical(Encode(s))
  {
    if s != [] {
      EncodeIsCanonical(s[1..]);
      EncodeNeverStartsWithLf(s[1..]);
    }
  }

  lemma {:induction false} EncodeDecodeCanonical(t: seq<byte>)
    requires Canonical(t)
    ensures Encode(Decode(t)) == t
  {
    if t != [] {
      assert t[0] != LF;
      DecodeCons(t[0], t[1..]);
      assert t == [t[0]] + t[1..];
      if t[0] == CR && 1 < |t| && t[1] == LF {
        DecodeCons(LF, t[2..]);
        assert Decode(t) == [LF] + Decode(t[2..]);
        assert t[1..] == [LF] + t[2..] && t == [CR, LF] + t[2..];
        CanonicalSuffix(t, 2);
        EncodeDecodeCanonical(t[2..]);
        EncodeCons(LF, Decode(t[2..]));
      } else {
        CanonicalSuffix(t, 1);
        EncodeDecodeCanonical(t[1..]);
        EncodeCons(t[0], Decode(t[1..]));
      }
    }
  }

  lemma EncodeCons(b: byte, t: seq<byte>)
    ensures Encode([b] + t) == EncodeByte(b) + Encode(t)
  {
    assert ([b] + t)[1..] == t;
  }

  lemma CanonicalSuffix(t: seq<byte>, n: nat)
    requires Canonical(t) && n <= |t|
    requires n < |t| && t[n] == LF ==> false
    ensures Canonical(t[n..])
  {
    forall i | 0 <= i < |t[n..]| && t[n..][i] == LF ensures 0 < i && t[n..][i - 1] == CR {
      assert t[i + n] == LF;
    }
  }

  // ---- encoding piecewise --------------------------------------------------------------------------

  lemma {:induction false} EncodeConcat(a: seq<byte>, b: seq<byte>)
    ensures Encode(a + b) == Encode(a) + Encode(b)
  {
    if a == [] {
      assert a + b == b;
    } else {
      calc {
        Encode(a + b);
        { assert a + b == [a[0]] + (a[1..] + b); EncodeCons(a[0], a[1..] + b); }
        EncodeByte(a[0]) + Encode(a[1..] + b);
        { EncodeConcat(a[1..], b); }
        EncodeByte(a[0]) + (Encode(a[1..]) + Encode(b));
        { Assoc(EncodeByte(a[0]), Encode(a[1..]), Encode(b)); }
        Encode(a) + Encode(b);
      }
    }
  }

  lemma {:induction false} EncodeNoShorter(s: seq<byte>)
    ensures |Encode(s)| >= |s|
  {
    if s != [] { EncodeNoShorter(s[1..]); }
  }

  /** How much of an encoded block goes out: as many bytes as were read, or all that were encoded. */
  datatype SendLength = AsRead | AsEncoded

  /** What goes out for a block of the file. */
  function Wire(block: seq<byte>, isAscii: bool, length: SendLength): seq<byte> {
    if !isAscii then block
    else if length == AsEncoded then Encode(block)
    else EncodeNoShorter(block); Encode(block)[..|block|]
  }

  function WireEach(blocks: seq<seq<byte>>, isAscii: bool, length: SendLength): seq<seq<byte>> {
    if blocks == [] then [] else [Wire(blocks[0], isAscii, length)] + WireEach(blocks[1..], isAscii, length)
  }

  lemma {:induction false} WireSnoc(blocks: seq<seq<byte>>, block: seq<byte>, isAscii: bool, length: SendLength)
    ensures WireEach(blocks + [block], isAscii, length)
         == WireEach(blocks, isAscii, length) + [Wire(block, isAscii, length)]
  {
    if blocks != [] {
      WireSnoc(blocks[1..], block, isAscii, length);
      assert (blocks + [block])[1..] == blocks[1..] + [block];
    }
  }

  /** However a file is cut into reads, the wire stream is the same. */
  lemma {:induction false} EncodeChunks(blocks: seq<seq<byte>>)
    ensures Flatten(WireEach(blocks, true, AsEncoded)) == Encode(Flatten(blocks))
  {
    if blocks != [] {
      EncodeChunks(blocks[1..]);
      EncodeConcat(blocks[0], Flatten(blocks[1..]));
    }
  }

  lemma {:induction false} PlainChunks(blocks: seq<seq<byte>>, length: SendLength)
    ensures WireEach(blocks, false, length) == blocks
  {
    if blocks != [] { PlainChunks(blocks[1..], length); }
  }

  // ---- decoding chunk by chunk ---------------------------------------------------------------------

  predicate EndsInCr(chunk: seq<byte>) {
    chunk != [] && chunk[|chunk| - 1] == CR
  }

  /** What the decoder keeps of a chunk: neither a CR with an LF behind it nor a CR at the end. */
  function Body(chunk: seq<byte>): seq<byte> {
    if chunk == [] then []
    else (if chunk[0] == CR && (|chunk| == 1 || chunk[1] == LF) then [] else [chunk[0]]) + Body(chunk[1..])
  }

  /** A pending CR that this chunk shows to have been a plain one. */
  function Released(prevCr: bool, chunk: seq<byte>): seq<byte> {
    if prevCr && (chunk == [] || chunk[0] != LF) then [CR] else []
  }

  function ChunkOut(prevCr: bool, chunk: seq<byte>): seq<byte> {
    Released(prevCr, chunk) + Body(chunk)
  }

  /** What comes out of a stream of chunks, the final call with no input included. */
  function Stream(prevCr: bool, chunks: seq<seq<byte>>): seq<byte>
    decreases |chunks|
  {
    if chunks == [] then ChunkOut(prevCr, [])
    else ChunkOut(prevCr, chunks[0]) + Stream(EndsInCr(chunks[0]), chunks[1..])
  }

  function Pending(prevCr: bool): seq<byte> { if prevCr then [CR] else [] }

  /** A non-empty chunk takes from the stream in front of `rest` just what the decoder would. */
  lemma ChunkStep(prevCr: bool, chunk: seq<byte>, rest: seq<byte>)
    requires chunk != []
    ensures ChunkOut(prevCr, chunk) + Decode(Pending(EndsInCr(chunk)) + rest)
         == Decode(Pending(prevCr) + (chunk + rest))
  {
    hide Body, Decode;
    BodyStep(chunk, rest);
    Assoc(Released(prevCr, chunk), Body(chunk), Decode(Pending(EndsInCr(chunk)) + rest));
    if prevCr { DecodeCons(CR, chunk + rest); }
    assert Pending(false) + (chunk + rest) == chunk + rest;
  }

  lemma {:induction false} BodyStep(chunk: seq<byte>, rest: seq<byte>)
    requires chunk != []
    ensures Body(chunk) + Decode(Pending(EndsInCr(chunk)) + rest) == Decode(chunk + rest)
  {
    var b, t := chunk[0], chunk[1..];
    assert chunk == [b] + t;
    BodyCons(b, t);
    if t == [] {
      EmptyBody();
      assert chunk == [b];
      DecodeCons(b, rest);
      assert Pending(true) + rest == [CR] + rest && Pending(false) + rest == rest;
    } else {
      BodyStep(t, rest);
      var ahead := Decode(Pending(EndsInCr(t)) + rest);
      hide Body, Decode;
      assert EndsInCr(chunk) == EndsInCr(t);
      Assoc([b], t, rest);
      DecodeCons(b, t + rest);
      Assoc(if b == CR && t[0] == LF then [] else [b], Body(t), ahead);
    }
  }

  lemma EmptyBody()
    ensures Body([]) == []
  {
  }

  lemma BodyCons(b: byte, t: seq<byte>)
    ensures Body([b] + t) == (if b == CR && (t == [] || t[0] == LF) then [] else [b]) + Body(t)
  {
    assert ([b] + t)[1..] == t;
  }

  /**
   * Chunks with nothing in them that arrive while a CR is pending, with an LF coming up next:
   * each lets a CR through that the whole stream would have dropped.
   */
  function EarlyReleases(prevCr: bool, chunks: seq<seq<byte>>): nat
    decreases |chunks|
  {
    if chunks == [] then 0
    else
      var ahead := Flatten(chunks[1..]);
      (if prevCr && chunks[0] == [] && ahead != [] && ahead[0] == LF then 1 else 0)
      + EarlyReleases(EndsInCr(chunks[0]), chunks[1..])
  }

  /** The exact excess of a chunked stream over the whole one. */
  lemma {:induction false} StreamExcess(prevCr: bool, chunks: seq<seq<byte>>)
    ensures |Stream(prevCr, chunks)| == |Decode(Pending(prevCr) + Flatten(chunks))| + EarlyReleases(prevCr, chunks)
    ensures EarlyReleases(prevCr, chunks) == 0 ==> Stream(prevCr, chunks) == Decode(Pending(prevCr) + Flatten(chunks))
    decreases |chunks|
  {
    if chunks == [] {
      assert Pending(prevCr) + [] == Pending(prevCr);
      EmptyBody();
      DecodeCons(CR, []);
    } else {
      var c, ahead := chunks[0], Flatten(chunks[1..]);
      StreamExcess(EndsInCr(c), chunks[1..]);
      hide Body, Decode;
      if c != [] {
        ChunkStep(prevCr, c, ahead);
      } else {
        EmptyBody();
        assert [] + ahead == ahead && Pending(false) + ahead == ahead;
        if prevCr { DecodeCons(CR, ahead); }
      }
    }
  }

  /**
   * Chunking is invisible exactly when no empty chunk arrives between a CR and its LF; in
   * particular it is when empty chunks come only behind all the others, if at all.
   */
  lemma ChunkingInvisibleIff(chunks: seq<seq<byte>>)
    ensures Stream(false, chunks) == Decode(Flatten(chunks)) <==> EarlyReleases(false, chunks) == 0
    ensures EmptyOnlyAtEnd(chunks) ==> Stream(false, chunks) == Decode(Flatten(chunks))
  {
    StreamExcess(false, chunks);
    assert Pending(false) + Flatten(chunks) == Flatten(chunks);
    if EmptyOnlyAtEnd(chunks) { EmptyAtEndNeverEarly(false, chunks); }
  }

  /** An empty chunk between CR and LF lets the CR through. */
  lemma EarlyReleaseExample()
    ensures Stream(false, [[CR], [], [LF]]) == [CR, LF] && Decode(Flatten([[CR], [], [LF]])) == [LF]
  {
    var chunks := [[CR], [], [LF]];
    assert chunks[1..] == [[], [LF]] && chunks[1..][1..] == [[LF]] && chunks[1..][1..][1..] == [];
    assert Flatten(chunks[1..][1..]) == [LF] + [] == [LF];
    assert Flatten(chunks[1..]) == [] + [LF] == [LF];
    assert Flatten(chunks) == [CR] + [LF];
    DecodeCons(CR, [LF]);
    DecodeCons(LF, []);
    assert Stream(false, chunks[1..][1..]) == [LF] + [] == [LF];
    assert Stream(true, chunks[1..]) == [CR] + [LF];
    assert Stream(false, chunks) == [] + [CR, LF];
  }

  /** What has come out after `chunks`, a CR still pending left out. */
  function Out(prevCr: bool, chunks: seq<seq<byte>>): seq<byte>
    decreases |chunks|
  {
    if chunks == [] then [] else ChunkOut(prevCr, chunks[0]) + Out(EndsInCr(chunks[0]), chunks[1..])
  }

  /** Whether a CR is pending after `chunks`. */
  function Carry(prevCr: bool, chunks: seq<seq<byte>>): bool {
    if chunks == [] then prevCr else EndsInCr(chunks[|chunks| - 1])
  }

  lemma {:induction false} OutSnoc(prevCr: bool, chunks: seq<seq<byte>>, c: seq<byte>)
    ensures Out(prevCr, chunks + [c]) == Out(prevCr, chunks) + ChunkOut(Carry(prevCr, chunks), c)
    decreases |chunks|
  {
    hide ChunkOut;
    if chunks == [] {
      assert Out(EndsInCr(c), []) == [] && ([] + [c])[1..] == [];
    } else {
      var rest := chunks[1..];
      OutSnoc(EndsInCr(chunks[0]), rest, c);
      assert (chunks + [c])[1..] == rest + [c];
      assert Carry(EndsInCr(chunks[0]), rest) == Carry(prevCr, chunks);
      Assoc(ChunkOut(prevCr, chunks[0]), Out(EndsInCr(chunks[0]), rest), ChunkOut(Carry(prevCr, chunks), c));
    }
  }

  lemma {:induction false} StreamIsOut(prevCr: bool, chunks: seq<seq<byte>>)
    ensures Stream(prevCr, chunks) == Out(prevCr, chunks) + Pending(Carry(prevCr, chunks))
    decreases |chunks|
  {
    EmptyBody();
    hide Body;
    if chunks != [] {
      StreamIsOut(EndsInCr(chunks[0]), chunks[1..]);
      assert Carry(EndsInCr(chunks[0]), chunks[1..]) == Carry(prevCr, chunks);
      Assoc(ChunkOut(prevCr, chunks[0]), Out(EndsInCr(chunks[0]), chunks[1..]), Pending(Carry(prevCr, chunks)));
    }
  }

  lemma {:induction false} FlattenSnoc(chunks: seq<seq<byte>>, c: seq<byte>)
    ensures Flatten(chunks + [c]) == Flatten(chunks) + c
  {
    if chunks == [] {
      assert Flatten([]) == [] && ([] + [c])[1..] == [];
    } else {
      FlattenSnoc(chunks[1..], c);
      assert (chunks + [c])[1..] == chunks[1..] + [c];
    }
  }

  /** Empty chunks come only behind all the others. */
  predicate EmptyOnlyAtEnd(chunks: seq<seq<byte>>) {
    forall i, j :: 0 <= i <= j < |chunks| && chunks[i] == [] ==> chunks[j] == []
  }

  lemma {:induction false} EmptyAtEndNeverEarly(prevCr: bool, chunks: seq<seq<byte>>)
    requires EmptyOnlyAtEnd(chunks)
    ensures EarlyReleases(prevCr, chunks) == 0
    decreases |chunks|
  {
    if chunks != [] {
      var rest := chunks[1..];
      assert EmptyOnlyAtEnd(rest) by {
        forall i, j | 0 <= i <= j < |rest| && rest[i] == [] ensures rest[j] == [] {
          assert chunks[i + 1] == [] && chunks[j + 1] == rest[j];
        }
      }
      EmptyAtEndNeverEarly(EndsInCr(chunks[0]), rest);
      if chunks[0] == [] {
        assert forall i :: 0 <= i < |rest| ==> rest[i] == chunks[i + 1] == [];
        FlattenEmpty(rest);
      }
    }
  }

  lemma {:induction false} FlattenEmpty(chunks: seq<seq<byte>>)
    requires forall i :: 0 <= i < |chunks| ==> chunks[i] == []
    ensures Flatten(chunks) == []
  {
    if chunks != [] { FlattenEmpty(chunks[1..]); }
  }

  // ---- the loops over byte buffers ---------------------------------------------------------------------

  /** Writes the wire form of the first `inLen` bytes of `input` to the front of `out`. */
  method BinToAscii(input: array<byte>, out: array<byte>, inLen: nat) returns (written: nat)
    requires inLen <= input.Length && input != out && |Encode(input[..inLen])| <= out.Length
    modifies out
    ensures written <= out.Length && out[..written] == Encode(input[..inLen])
    ensures forall i :: written <= i < out.Length ==> out[i] == old(out[i])
  {
    hide Encode;
    ghost var s, wire := input[..inLen], Encode([]);
    EncodeNothing();
    var indexx := 0;
    written := 0;
    while indexx < inLen
      invariant indexx <= inLen && written == |wire| <= out.Length
      invariant wire == Encode(s[..indexx])
      invariant forall i :: 0 <= i < written ==> out[i] == wire[i]
      invariant forall i :: written <= i < out.Length ==> out[i] == old(out[i])
    {
      var theChar := input[indexx];
      EncodeStep(s, indexx);
      wire := wire + EncodeByte(theChar);
      if theChar == LF {
        out[written] := CR;
        written := written + 1;
      }
      out[written] := theChar;
      written := written + 1;
      indexx := indexx + 1;
    }
    assert s[..inLen] == s && out[..written] == wire;
  }

  lemma EncodeNothing()
    ensures Encode([]) == []
  {
  }

  lemma EncodeStep(s: seq<byte>, i: nat)
    requires i < |s|
    ensures Encode(s[..i + 1]) == Encode(s[..i]) + EncodeByte(s[i])
    ensures |Encode(s[..i + 1])| <= |Encode(s)|
  {
    assert s[..i + 1] == s[..i] + [s[i]] && s == s[..i + 1] + s[i + 1..];
    EncodeConcat(s[..i], [s[i]]);
    EncodeConcat(s[..i + 1], s[i + 1..]);
    EncodeCons(s[i], []);
  }

  /**
   * Decodes, in place, the chunk of `inLen` bytes that lies behind the spare byte at `buf[0]`; the
   * result may start at either of the first two bytes.
   */
  method AsciiToBin(buf: array<byte>, inLen: nat, prevCr: bool) returns (start: nat, stored: nat, lastWasCr: bool)
    requires inLen + 1 <= buf.Length
    modifies buf
    ensures start + stored <= inLen + 1
    ensures buf[start..start + stored] == ChunkOut(prevCr, old(buf[1..inLen + 1]))
    ensures lastWasCr == EndsInCr(old(buf[1..inLen + 1]))
    ensures buf[inLen + 1..] == old(buf[inLen + 1..])
  {
    hide Body;
    ghost var s, whole := buf[1..inLen + 1], buf[..];
    if prevCr && (inLen == 0 || buf[1] != LF) {
      buf[0] := CR;
      start := 0;
    } else {
      start := 1;
    }
    assert buf[1..inLen + 1] == s;
    var out;
    out, lastWasCr := DecodeBody(buf, inLen);
    stored := out - start;
    assert buf[start..out] == Released(prevCr, s) + buf[1..out];
    assert buf[inLen + 1..] == whole[inLen + 1..];
  }

  /**
   * The loop. The bytes still to be read, the one looked ahead at included, are those the second
   * invariant keeps; every write lands below them.
   */
  method DecodeBody(buf: array<byte>, inLen: nat) returns (out: nat, lastWasCr: bool)
    requires inLen + 1 <= buf.Length
    modifies buf
    ensures 1 <= out <= inLen + 1 && buf[1..out] == Body(old(buf[1..inLen + 1]))
    ensures lastWasCr == EndsInCr(old(buf[1..inLen + 1]))
    ensures buf[0] == old(buf[0]) && forall i :: inLen + 1 <= i < buf.Length ==> buf[i] == old(buf[i])
  {
    hide Body;
    ghost var s, whole := buf[1..inLen + 1], buf[..];
    ghost var kept: seq<byte> := [];
    var indexx := 0;
    out, lastWasCr := 1, false;
    assert s[0..] == s && [] + Body(s) == Body(s);
    while indexx < inLen
      invariant indexx <= inLen && 1 <= out <= indexx + 1 && out == |kept| + 1
      invariant forall i :: indexx + 1 <= i < buf.Length ==> buf[i] == whole[i]
      invariant forall i :: 0 <= i < |kept| ==> buf[i + 1] == kept[i]
      invariant buf[0] == whole[0]
      invariant kept + Body(s[indexx..]) == Body(s)
      invariant lastWasCr == (indexx == inLen && EndsInCr(s))
    {
      var theChar := buf[indexx + 1];
      BodyAt(s, indexx);
      Assoc(kept, KeptAt(s, indexx), Body(s[indexx + 1..]));
      kept := kept + KeptAt(s, indexx);
      if theChar != CR {
        buf[out] := theChar;
        out := out + 1;
      } else if indexx == inLen - 1 {
        lastWasCr := true;
      } else if buf[indexx + 2] != LF {
        buf[out] := theChar;
        out := out + 1;
      }
      indexx := indexx + 1;
    }
    assert s[inLen..] == [];
    EmptyBody();
    assert buf[1..out] == kept == Body(s);
  }

  /** What the decoder keeps of the byte at `i`. */
  function KeptAt(s: seq<byte>, i: nat): seq<byte>
    requires i < |s|
  {
    if s[i] == CR && (i == |s| - 1 || s[i + 1] == LF) then [] else [s[i]]
  }

  lemma BodyAt(s: seq<byte>, i: nat)
    requires i < |s|
    ensures Body(s[i..]) == KeptAt(s, i) + Body(s[i + 1..])
  {
    assert s[i..] == [s[i]] + s[i + 1..];
    BodyCons(s[i], s[i + 1..]);
  }

  // ---- end to end -------------------------------------------------------------------------------------

  /**
   * A file read in any blocks, encoded, sent, received in any non-empty pieces and decoded is
   * stored as it was.
   */
  lemma EndToEnd(blocks: seq<seq<byte>>, pieces: seq<seq<byte>>)
    requires Flatten(pieces) == Flatten(WireEach(blocks, true, AsEncoded))
    requires forall i :: 0 <= i < |pieces| ==> pieces[i] != []
    ensures Stream(false, pieces) == Flatten(blocks)
  {
    EncodeChunks(blocks);
    ChunkingInvisibleIff(pieces);
    DecodeEncode(Flatten(blocks));
  }

  /** Cutting the wire form to the length of the file form changes nothing exactly without an LF. */
  lemma {:induction false} TruncatedIsSelfIff(s: seq<byte>)
    requires |s| <= |Encode(s)|
    ensures Encode(s)[..|s|] == s <==> LF !in s
  {
    if s != [] {
      EncodeNoShorter(s[1..]);
      TruncatedIsSelfIff(s[1..]);
      var t := Encode(s[1..]);
      if s[0] != LF {
        assert Encode(s)[..|s|] == [s[0]] + t[..|s| - 1];
        assert s == [s[0]] + s[1..];
        if Encode(s)[..|s|] == s { assert t[..|s| - 1] == Encode(s)[..|s|][1..] == s[1..]; }
      } else {
        assert Encode(s)[..|s|][0] == CR;
      }
    }
  }

  lemma {:induction false} WireAsReadIsSelfIff(blocks: seq<seq<byte>>)
    ensures |Flatten(WireEach(blocks, true, AsRead))| == |Flatten(blocks)|
    ensures Flatten(WireEach(blocks, true, AsRead)) == Flatten(blocks) <==> LF !in Flatten(blocks)
  {
    if blocks != [] {
      var c, rest := blocks[0], Flatten(blocks[1..]);
      EncodeNoShorter(c);
      TruncatedIsSelfIff(c);
      WireAsReadIsSelfIff(blocks[1..]);
      var w, wRest := Encode(c)[..|c|], Flatten(WireEach(blocks[1..], true, AsRead));
      assert Flatten(WireEach(blocks, true, AsRead)) == w + wRest;
      if w + wRest == c + rest {
        assert w == (w + wRest)[..|c|] && c == (c + rest)[..|c|];
        assert wRest == (w + wRest)[|c|..] && rest == (c + rest)[|c|..];
      }
    }
  }

  /** Decoding never lengthens, and keeps the length only of what it leaves alone. */
  lemma {:induction false} DecodeNoLonger(t: seq<byte>)
    ensures |Decode(t)| <= |t| && (|Decode(t)| == |t| ==> Decode(t) == t)
  {
    if t != [] {
      DecodeNoLonger(t[1..]);
      assert t == [t[0]] + t[1..];
    }
  }

  lemma {:induction false} DecodeWithoutLf(t: seq<byte>)
    requires LF !in t
    ensures Decode(t) == t
  {
    if t != [] {
      DecodeWithoutLf(t[1..]);
      assert t == [t[0]] + t[1..];
    }
  }

  /**
   * Sending of each encoded block only as many bytes as were read, which is what the send loop
   * does, brings a file through exactly when there is no LF in it.
   */
  lemma AsWrittenIff(blocks: seq<seq<byte>>)
    ensures Decode(Flatten(WireEach(blocks, true, AsRead))) == Flatten(blocks) <==> LF !in Flatten(blocks)
  {
    var wire, file := Flatten(WireEach(blocks, true, AsRead)), Flatten(blocks);
    WireAsReadIsSelfIff(blocks);
    if Decode(wire) == file { DecodeNoLonger(wire); }
    if LF !in file { DecodeWithoutLf(file); }
  }

  lemma EndToEndAsWrittenIff(blocks: seq<seq<byte>>, pieces: seq<seq<byte>>)
    requires Flatten(pieces) == Flatten(WireEach(blocks, true, AsRead))
    requires forall i :: 0 <= i < |pieces| ==> pieces[i] != []
    ensures Stream(false, pieces) == Flatten(blocks) <==> LF !in Flatten(blocks)
  {
    ChunkingInvisibleIff(pieces);
    AsWrittenIff(blocks);
  }
}
