/** The SLIP-style framing of the sniffer's serial stream: the per-byte
    decoder that turns a byte stream into frames, and the encoder that wraps
    outgoing command frames. */
module Slip {
  import opened Prelude
  import opened Protocol

  /** The decoder's state: whether a START has opened a frame, whether the
      previous byte was an ESC, and the unescaped bytes of the open frame. */
  datatype DecoderState = DecoderState(inFrame: bool, escaped: bool, buf: seq<byte>)

  const FRESH: DecoderState := DecoderState(false, false, [])

  /** The literal an escape code stands for; any other byte after an ESC is
      kept as it is. */
  function Unescape(b: byte): byte
  {
    if b == SLIP_ESC_START then SLIP_START
    else if b == SLIP_ESC_END then SLIP_END
    else if b == SLIP_ESC_ESC then SLIP_ESC
    else b
  }

  /** One byte of the decoder: the new state and the frames the byte closes
      (none or one). END is tested before the escape flag, so an ESC right
      before END does not protect it, and the flag stays armed. A START inside
      a frame is ordinary data. */
  function Step(st: DecoderState, b: byte): (DecoderState, seq<seq<byte>>)
  {
    if !st.inFrame then (st.(inFrame := b == SLIP_START), [])
    else if b == SLIP_END then (st.(inFrame := false, buf := []), [st.buf])
    else if b == SLIP_ESC then (st.(escaped := true), [])
    else if st.escaped then (st.(escaped := false, buf := st.buf + [Unescape(b)]), [])
    else (st.(buf := st.buf + [b]), [])
  }

  datatype Decoded = Decoded(state: DecoderState, frames: seq<seq<byte>>)

  /** The decoder run over a whole byte sequence, from state `st`. */
  function Run(st: DecoderState, s: seq<byte>): Decoded
    decreases |s|
  {
    if |s| == 0 then Decoded(st, [])
    else
      var d := Run(st, s[..|s| - 1]);
      var (st', f) := Step(d.state, s[|s| - 1]);
      Decoded(st', d.frames + f)
  }

  /** Splitting the input anywhere changes nothing: running over `a` and then,
      from the state reached, over `b` gives the state and the frames of
      running over `a + b`. A frame may therefore span any number of reads. */
  lemma {:induction false} RunAppend(st: DecoderState, a: seq<byte>, b: seq<byte>)
    ensures Run(st, a + b).state == Run(Run(st, a).state, b).state
    ensures Run(st, a + b).frames == Run(st, a).frames + Run(Run(st, a).state, b).frames
    decreases |b|
  {
    if |b| == 0 {
      assert a + b == a;
    } else {
      var b' := b[..|b| - 1];
      assert (a + b)[..|a + b| - 1] == a + b';
      assert (a + b)[|a + b| - 1] == b[|b| - 1];
      RunAppend(st, a, b');
    }
  }

  /** One more byte: the step from the state reached so far. */
  lemma RunSnoc(st: DecoderState, s: seq<byte>, b: byte)
    ensures Run(st, s + [b]).state == Step(Run(st, s).state, b).0
    ensures Run(st, s + [b]).frames == Run(st, s).frames + Step(Run(st, s).state, b).1
  {
    assert (s + [b])[..|s + [b]| - 1] == s;
  }

  /** The decoder never holds bytes while it waits for a START. */
  lemma {:induction false} IdleBufferEmpty(s: seq<byte>)
    ensures !Run(FRESH, s).state.inFrame ==> Run(FRESH, s).state.buf == []
    decreases |s|
  {
    if |s| > 0 {
      IdleBufferEmpty(s[..|s| - 1]);
    }
  }

  /** Until a START arrives every byte is dropped and nothing is emitted. */
  lemma {:induction false} DiscardUntilStart(st: DecoderState, s: seq<byte>)
    requires !st.inFrame
    requires forall i :: 0 <= i < |s| ==> s[i] != SLIP_START
    ensures Run(st, s) == Decoded(st, [])
    decreases |s|
  {
    if |s| > 0 {
      DiscardUntilStart(st, s[..|s| - 1]);
    }
  }

  /** Inside a frame, ESC followed by an escape code appends the literal it
      stands for; ESC followed by any byte other than END or ESC appends that
      byte unchanged. */
  lemma EscapedByte(buf: seq<byte>, x: byte)
    requires x != SLIP_END && x != SLIP_ESC
    ensures Run(DecoderState(true, false, buf), [SLIP_ESC, x])
         == Decoded(DecoderState(true, false, buf + [if x == SLIP_ESC_START then SLIP_START
                                                     else if x == SLIP_ESC_END then SLIP_END
                                                     else if x == SLIP_ESC_ESC then SLIP_ESC
                                                     else x]), [])
  {
    var st := DecoderState(true, false, buf);
    RunSnoc(st, [], SLIP_ESC);
    RunSnoc(st, [SLIP_ESC], x);
  }

  /** `ESC, END` closes the frame (the ESC does not protect the END) and the
      escape flag stays armed for the first byte of the next frame. */
  lemma EscapeBeforeEnd(buf: seq<byte>)
    ensures Run(DecoderState(true, false, buf), [SLIP_ESC, SLIP_END])
         == Decoded(DecoderState(false, true, []), [buf])
  {
    var st := DecoderState(true, false, buf);
    RunSnoc(st, [], SLIP_ESC);
    RunSnoc(st, [SLIP_ESC], SLIP_END);
  }

  /** A START inside an open frame is stored as data. */
  lemma StartInsideFrame(buf: seq<byte>)
    ensures Run(DecoderState(true, false, buf), [SLIP_START])
         == Decoded(DecoderState(true, false, buf + [SLIP_START]), [])
  {
    assert [SLIP_START][..0] == [];
  }

  /** Frames are closed only by END: bytes without an END close none. */
  lemma {:induction false} NoEndNoFrame(st: DecoderState, s: seq<byte>)
    requires SLIP_END !in s
    ensures Run(st, s).frames == []
    decreases |s|
  {
    if |s| > 0 {
      var s' := s[..|s| - 1];
      assert forall x :: x in s' ==> x in s;
      NoEndNoFrame(st, s');
    }
  }

  /** At most one frame per END byte: an END outside a frame closes none. */
  lemma {:induction false} FramesAtMostEnds(st: DecoderState, s: seq<byte>)
    ensures |Run(st, s).frames| <= multiset(s)[SLIP_END]
    decreases |s|
  {
    if |s| > 0 {
      var s', b := s[..|s| - 1], s[|s| - 1];
      assert s == s' + [b];
      assert multiset(s) == multiset(s') + multiset{b};
      FramesAtMostEnds(st, s');
    }
  }

  /** An unterminated tail is dropped: bytes after the last END add no
      frame, whatever state the earlier bytes left. */
  lemma TailDropped(st: DecoderState, a: seq<byte>, tail: seq<byte>)
    requires SLIP_END !in tail
    ensures Run(st, a + tail).frames == Run(st, a).frames
  {
    RunAppend(st, a, tail);
    NoEndNoFrame(Run(st, a).state, tail);
  }

  // ---------------------------------------------------------------------
  // Decoding a whole buffer

  /** The frames of a byte buffer, decoded from the initial state. Bytes
      before the first START are dropped, one frame is emitted per END that
      closes an open frame, and an unterminated tail is dropped. The second
      result always equals the input length. */
  method GetPacketBytes(bytes: seq<byte>) returns (packetList: seq<seq<byte>>, readIndex: nat)
    ensures packetList == Run(FRESH, bytes).frames
    ensures readIndex == |bytes|
  {
    packetList := [];
    var packetBytes: seq<byte> := [];
    var packetStart := false;
    var previousByteIsEsc := false;
    readIndex := 0;
    while readIndex < |bytes|
      invariant readIndex <= |bytes|
      invariant Run(FRESH, bytes[..readIndex])
             == Decoded(DecoderState(packetStart, previousByteIsEsc, packetBytes), packetList)
    {
      var b := bytes[readIndex];
      assert bytes[..readIndex + 1][..readIndex] == bytes[..readIndex];
      readIndex := readIndex + 1;
      if !packetStart {
        packetStart := b == SLIP_START;
        continue;
      }
      if b == SLIP_END {
        packetStart := false;
        packetList := packetList + [packetBytes];
        packetBytes := [];
      } else if b == SLIP_ESC {
        previousByteIsEsc := true;
      } else if previousByteIsEsc {
        if b == SLIP_ESC_START {
          packetBytes := packetBytes + [SLIP_START];
        } else if b == SLIP_ESC_END {
          packetBytes := packetBytes + [SLIP_END];
        } else if b == SLIP_ESC_ESC {
          packetBytes := packetBytes + [SLIP_ESC];
        } else {
          packetBytes := packetBytes + [b];
        }
        previousByteIsEsc := false;
      } else {
        packetBytes := packetBytes + [b];
      }
    }
    assert bytes[..|bytes|] == bytes;
  }

  // ---------------------------------------------------------------------
  // Encoding

  /** The wire form of one content byte: START, END and ESC travel as ESC
      followed by the byte plus one; every other byte travels as it is. */
  function Escape(b: byte): seq<byte>
  {
    if b == SLIP_START || b == SLIP_END || b == SLIP_ESC then [SLIP_ESC, b + 1] else [b]
  }

  /** The wire form of a sequence of content bytes. */
  function EscapeAll(s: seq<byte>): seq<byte>
    decreases |s|
  {
    if |s| == 0 then [] else EscapeAll(s[..|s| - 1]) + Escape(s[|s| - 1])
  }

  /** One more content byte on an open wire frame: the wire form of the
      next byte of `frame` extends the wire form of the bytes before it. */
  lemma AppendNext(r: seq<byte>, frame: seq<byte>, n: nat)
    requires n < |frame| && r == [SLIP_START] + EscapeAll(frame[..n])
    ensures r + Escape(frame[n]) == [SLIP_START] + EscapeAll(frame[..n + 1])
  {
    assert frame[..n + 1][..n] == frame[..n];
  }

  /** A frame on the wire: START, the escaped bytes, END. */
  function Encode(frame: seq<byte>): seq<byte>
  {
    [SLIP_START] + EscapeAll(frame) + [SLIP_END]
  }

  /** Decoding undoes escaping, byte by byte: inside an open frame with no
      pending ESC, the wire form of `b` appends exactly `b`. */
  lemma EscapeDecodes(buf: seq<byte>, b: byte)
    ensures Run(DecoderState(true, false, buf), Escape(b))
         == Decoded(DecoderState(true, false, buf + [b]), [])
  {
    if b == SLIP_START || b == SLIP_END || b == SLIP_ESC {
      EscapedByte(buf, b + 1);
    } else {
      assert [b][..0] == [];
    }
  }

  lemma {:induction false} EscapeAllDecodes(buf: seq<byte>, s: seq<byte>)
    ensures Run(DecoderState(true, false, buf), EscapeAll(s))
         == Decoded(DecoderState(true, false, buf + s), [])
    decreases |s|
  {
    if |s| == 0 {
      assert buf + s == buf;
    } else {
      var s', x := s[..|s| - 1], s[|s| - 1];
      assert s == s' + [x];
      EscapeAllDecodes(buf, s');
      EscapeOneMore(buf, s', x);
    }
  }

  /** The inductive step of `EscapeAllDecodes`: one more escaped byte after
      a quiet run of escaped bytes. */
  lemma EscapeOneMore(buf: seq<byte>, s: seq<byte>, x: byte)
    requires Run(DecoderState(true, false, buf), EscapeAll(s))
          == Decoded(DecoderState(true, false, buf + s), [])
    ensures Run(DecoderState(true, false, buf), EscapeAll(s + [x]))
         == Decoded(DecoderState(true, false, buf + (s + [x])), [])
  {
    assert (s + [x])[..|s|] == s;
    assert EscapeAll(s + [x]) == EscapeAll(s) + Escape(x);
    EscapeDecodes(buf + s, x);
    assert buf + (s + [x]) == (buf + s) + [x];
    QuietChain(DecoderState(true, false, buf), DecoderState(true, false, buf + s),
      DecoderState(true, false, buf + (s + [x])), EscapeAll(s), Escape(x));
  }

  /** Two runs that close no frame chain into one that closes none. */
  lemma QuietChain(st: DecoderState, mid: DecoderState, last: DecoderState, a: seq<byte>, b: seq<byte>)
    requires Run(st, a) == Decoded(mid, []) && Run(mid, b) == Decoded(last, [])
    ensures Run(st, a + b) == Decoded(last, [])
  {
    RunAppend(st, a, b);
  }

  /** The round trip: from the initial state, the encoding of a frame decodes
      to exactly that one frame and leaves the decoder in its initial state. */
  lemma EncodeDecodes(frame: seq<byte>)
    ensures Run(FRESH, Encode(frame)) == Decoded(FRESH, [frame])
  {
    var open := DecoderState(true, false, []);
    assert Run(FRESH, [SLIP_START]) == Decoded(open, []) by {
      assert [SLIP_START][..0] == [];
    }
    EscapeAllDecodes([], frame);
    RunAppend(FRESH, [SLIP_START], EscapeAll(frame));
    RunAppend(FRESH, [SLIP_START] + EscapeAll(frame), [SLIP_END]);
    assert [SLIP_END][..0] == [];
    assert [] + frame == frame;
  }

  /** `add_bytes_to_slip`: append the wire form of one content byte. */
  method AddBytesToSlip(packetBytes: seq<byte>, contentByte: byte) returns (r: seq<byte>)
    ensures r == packetBytes + Escape(contentByte)
  {
    if contentByte == SLIP_START || contentByte == SLIP_END || contentByte == SLIP_ESC {
      r := packetBytes + [SLIP_ESC];
      r := r + [contentByte + 1];
    } else {
      r := packetBytes + [contentByte];
    }
  }

  /** The frame a command carries: the sniffer header (header length, the
      payload length truncated to a byte, protocol version 1, the packet
      counter least significant byte first, the command id), then the payload. */
  function CommandFrame(id: byte, payload: seq<byte>, packetCounter: u16): seq<byte>
  {
    [HEADER_LENGTH, |payload| % 0x100, PROTOVER_V1, packetCounter % 0x100, packetCounter / 0x100, id] + payload
  }

  /** `make_send_bytes`: a complete command on the wire. Decoding it yields
      exactly the command frame. */
  method MakeSendBytes(id: byte, payload: seq<byte>, packetCounter: u16) returns (r: seq<byte>)
    ensures r == Encode(CommandFrame(id, payload, packetCounter))
    ensures Run(FRESH, r) == Decoded(FRESH, [CommandFrame(id, payload, packetCounter)])
  {
    ghost var frame := CommandFrame(id, payload, packetCounter);
    r := [SLIP_START];
    assert frame[..0] == [];
    AppendNext(r, frame, 0);
    r := AddBytesToSlip(r, HEADER_LENGTH);
    AppendNext(r, frame, 1);
    r := AddBytesToSlip(r, |payload| % 0x100);
    AppendNext(r, frame, 2);
    r := AddBytesToSlip(r, PROTOVER_V1);
    AppendNext(r, frame, 3);
    r := AddBytesToSlip(r, packetCounter % 0x100);
    AppendNext(r, frame, 4);
    r := AddBytesToSlip(r, packetCounter / 0x100);
    AppendNext(r, frame, 5);
    r := AddBytesToSlip(r, id);
    for i := 0 to |payload|
      invariant r == [SLIP_START] + EscapeAll(frame[..6 + i])
    {
      assert frame[6 + i] == payload[i];
      AppendNext(r, frame, 6 + i);
      r := AddBytesToSlip(r, payload[i]);
    }
    r := r + [SLIP_END];
    assert frame[..|frame|] == frame;
    EncodeDecodes(frame);
  }

  /** The scan-configuration flag byte: bit 0 asks for scan responses, bit 1
      for auxiliary PDUs, bit 2 for scanning on the coded PHY. */
  function ScanFlags(findScanRsp: bool, findAux: bool, scanCoded: bool): byte
  {
    (if findScanRsp then 1 else 0) + (if findAux then 2 else 0) + (if scanCoded then 4 else 0)
  }

  /** Each option reads back from its own bit of the flag byte. */
  lemma ScanFlagsBits(findScanRsp: bool, findAux: bool, scanCoded: bool)
    ensures var f := ScanFlags(findScanRsp, findAux, scanCoded);
            && f < 8
            && (Bit(f, 0) <==> findScanRsp)
            && (Bit(f, 1) <==> findAux)
            && (Bit(f, 2) <==> scanCoded)
  {
    var f := ScanFlags(findScanRsp, findAux, scanCoded);
    if f == 0 { assert !Bit(0, 0) && !Bit(0, 1) && !Bit(0, 2); }
    else if f == 1 { assert Bit(1, 0) && !Bit(1, 1) && !Bit(1, 2); }
    else if f == 2 { assert !Bit(2, 0) && Bit(2, 1) && !Bit(2, 2); }
    else if f == 3 { assert Bit(3, 0) && Bit(3, 1) && !Bit(3, 2); }
    else if f == 4 { assert !Bit(4, 0) && !Bit(4, 1) && Bit(4, 2); }
    else if f == 5 { assert Bit(5, 0) && !Bit(5, 1) && Bit(5, 2); }
    else if f == 6 { assert !Bit(6, 0) && Bit(6, 1) && Bit(6, 2); }
    else { assert Bit(7, 0) && Bit(7, 1) && Bit(7, 2); }
  }

  /** `make_send_scan_bytes`: the REQ_SCAN_CONT command with its one flag byte. */
  method MakeSendScanBytes(findScanRsp: bool, findAux: bool, scanCoded: bool, packetCounter: u16)
    returns (r: seq<byte>)
    ensures r == Encode(CommandFrame(REQ_SCAN_CONT, [ScanFlags(findScanRsp, findAux, scanCoded)], packetCounter))
    ensures Run(FRESH, r) == Decoded(FRESH, [CommandFrame(REQ_SCAN_CONT, [ScanFlags(findScanRsp, findAux, scanCoded)], packetCounter)])
  {
    var flags: byte := 0;
    if findScanRsp {
      flags := 1;
    }
    if findAux {
      BitOrDisjoint(flags, 1, 1);
      flags := BitOr(flags, 2);
    }
    if scanCoded {
      assert Pow2(2) == 4;
      BitOrDisjoint(flags, 1, 2);
      flags := BitOr(flags, 4);
    }
    assert flags == ScanFlags(findScanRsp, findAux, scanCoded);
    r := MakeSendBytes(REQ_SCAN_CONT, [flags], packetCounter);
  }

  /** `make_send_tk_bytes`: the SET_TEMPORARY_KEY command, whose payload is
      sixteen copies of the key byte. */
  method MakeSendTkBytes(tk: byte, packetCounter: u16) returns (r: seq<byte>)
    ensures r == Encode([HEADER_LENGTH, 16, PROTOVER_V1, packetCounter % 0x100, packetCounter / 0x100,
                         SET_TEMPORARY_KEY] + seq(16, _ => tk))
    ensures Run(FRESH, r)
         == Decoded(FRESH, [[HEADER_LENGTH, 16, PROTOVER_V1, packetCounter % 0x100, packetCounter / 0x100,
                             SET_TEMPORARY_KEY] + seq(16, _ => tk)])
  {
    var payload := seq(16, _ => tk);
    r := MakeSendBytes(SET_TEMPORARY_KEY, payload, packetCounter);
  }
}
