/** The capture thread's byte handling: the serial stream is read in chunks
    of at most one receive buffer, every chunk goes through the same SLIP
    decoder state (so a frame may span any number of reads), each frame an
    END closes is decoded into a packet, and only valid packets are put on
    the channel to the consumer. */
module Ingest {
  import opened Prelude
  import opened Protocol
  import opened Slip
  import opened PacketFormat
  import opened PacketDecoder

  /** The size of the serial receive buffer: no read delivers more. */
  const RECV_BUFFER_SIZE: nat := 1024

  /** `f` applied to each element of `xs`, in order. */
  function Map<A, B>(f: A -> B, xs: seq<A>): seq<B>
    decreases |xs|
  {
    if |xs| == 0 then [] else Map(f, xs[..|xs| - 1]) + [f(xs[|xs| - 1])]
  }

  lemma MapSnoc<A, B>(f: A -> B, xs: seq<A>, x: A)
    ensures Map(f, xs + [x]) == Map(f, xs) + [f(x)]
  {
    assert (xs + [x])[..|xs|] == xs;
  }

  lemma {:induction false} MapAppend<A, B>(f: A -> B, xs: seq<A>, ys: seq<A>)
    ensures Map(f, xs + ys) == Map(f, xs) + Map(f, ys)
    decreases |ys|
  {
    if |ys| == 0 {
      assert xs + ys == xs;
    } else {
      var ys' := ys[..|ys| - 1];
      var y := ys[|ys| - 1];
      assert xs + ys == (xs + ys') + [y];
      assert ys == ys' + [y];
      MapAppend(f, xs, ys');
      MapSnoc(f, xs + ys', y);
      MapSnoc(f, ys', y);
    }
  }

  lemma {:induction false} MapIndex<A, B>(f: A -> B, xs: seq<A>)
    ensures |Map(f, xs)| == |xs|
    ensures forall i :: 0 <= i < |xs| ==> Map(f, xs)[i] == f(xs[i])
    decreases |xs|
  {
    if |xs| > 0 {
      MapIndex(f, xs[..|xs| - 1]);
    }
  }

  /** What the channel receives for one decoded packet. */
  function Keep(p: Packet): seq<Packet>
  {
    if p.valid then [p] else []
  }

  /** The valid packets among `ps`, in order. */
  function ValidOnly(ps: seq<Packet>): seq<Packet>
    decreases |ps|
  {
    if |ps| == 0 then [] else ValidOnly(ps[..|ps| - 1]) + Keep(ps[|ps| - 1])
  }

  lemma ValidOnlySnoc(ps: seq<Packet>, p: Packet)
    ensures ValidOnly(ps + [p]) == ValidOnly(ps) + Keep(p)
  {
    assert (ps + [p])[..|ps|] == ps;
  }

  lemma {:induction false} ValidOnlyAppend(ps: seq<Packet>, qs: seq<Packet>)
    ensures ValidOnly(ps + qs) == ValidOnly(ps) + ValidOnly(qs)
    decreases |qs|
  {
    if |qs| == 0 {
      assert ps + qs == ps;
    } else {
      var qs' := qs[..|qs| - 1];
      var q := qs[|qs| - 1];
      assert ps + qs == (ps + qs') + [q];
      assert qs == qs' + [q];
      ValidOnlyAppend(ps, qs');
      ValidOnlySnoc(ps + qs', q);
      ValidOnlySnoc(qs', q);
    }
  }

  /** Only valid packets pass and none is invented: there are at most as
      many as were offered, and each is one of them. (That the order is
      kept follows from `ValidOnlyAppend`.) */
  lemma {:induction false} ValidOnlySound(ps: seq<Packet>)
    ensures |ValidOnly(ps)| <= |ps|
    ensures forall i :: 0 <= i < |ValidOnly(ps)| ==> ValidOnly(ps)[i].valid && ValidOnly(ps)[i] in ps
    decreases |ps|
  {
    if |ps| > 0 {
      var init := ps[..|ps| - 1];
      ValidOnlySound(init);
      assert forall p :: p in init ==> p in ps;
    }
  }

  /** Every valid packet passes. */
  lemma {:induction false} ValidOnlyComplete(ps: seq<Packet>)
    ensures forall p :: p in ps && p.valid ==> p in ValidOnly(ps)
    decreases |ps|
  {
    if |ps| > 0 {
      var init := ps[..|ps| - 1];
      ValidOnlyComplete(init);
      assert ps == init + [ps[|ps| - 1]];
    }
  }

  /** The packets handed to the channel for a sequence of frames: each
      frame's decoded packet, in order, when it is valid. */
  function Forwarded(frames: seq<seq<byte>>): seq<Packet>
  {
    ValidOnly(Map(PacketOf, frames))
  }

  /** One more frame adds its packet exactly when the packet is valid. */
  lemma ForwardedSnoc(frames: seq<seq<byte>>, f: seq<byte>)
    ensures Forwarded(frames + [f]) == Forwarded(frames) + Keep(PacketOf(f))
  {
    MapSnoc(PacketOf, frames, f);
    ValidOnlySnoc(Map(PacketOf, frames), PacketOf(f));
  }

  /** Forwarding distributes over concatenation of the frame sequence. */
  lemma ForwardedAppend(a: seq<seq<byte>>, b: seq<seq<byte>>)
    ensures Forwarded(a + b) == Forwarded(a) + Forwarded(b)
  {
    MapAppend(PacketOf, a, b);
    ValidOnlyAppend(Map(PacketOf, a), Map(PacketOf, b));
  }

  /** Every forwarded packet is valid and is the decoding of one of the
      frames, and there is at most one per frame. */
  lemma ForwardedFromFrames(frames: seq<seq<byte>>)
    ensures |Forwarded(frames)| <= |frames|
    ensures forall i :: 0 <= i < |Forwarded(frames)| ==>
      Forwarded(frames)[i].valid && exists j :: 0 <= j < |frames| && Forwarded(frames)[i] == PacketOf(frames[j])
  {
    var ps := Map(PacketOf, frames);
    ValidOnlySound(ps);
    MapIndex(PacketOf, frames);
    forall i | 0 <= i < |Forwarded(frames)|
      ensures exists j :: 0 <= j < |frames| && Forwarded(frames)[i] == PacketOf(frames[j])
    {
      DecodedFrame(frames, Forwarded(frames)[i]);
    }
  }

  lemma DecodedFrame(frames: seq<seq<byte>>, p: Packet)
    requires p in Map(PacketOf, frames)
    ensures exists j :: 0 <= j < |frames| && p == PacketOf(frames[j])
  {
    MapIndex(PacketOf, frames);
    var j :| 0 <= j < |frames| && Map(PacketOf, frames)[j] == p;
  }

  /** Every frame that decodes to a valid packet has that packet forwarded. */
  lemma ForwardedComplete(frames: seq<seq<byte>>, j: nat)
    requires j < |frames| && PacketOf(frames[j]).valid
    ensures PacketOf(frames[j]) in Forwarded(frames)
  {
    var ps := Map(PacketOf, frames);
    MapIndex(PacketOf, frames);
    assert ps[j] == PacketOf(frames[j]);
    ValidOnlyComplete(ps);
  }

  /** Reading the stream in two pieces forwards the same packets as reading
      it in one: the decoder state carried between reads loses nothing. */
  lemma ChunkingIrrelevant(st: DecoderState, a: seq<byte>, b: seq<byte>)
    ensures Forwarded(Run(st, a + b).frames)
         == Forwarded(Run(st, a).frames) + Forwarded(Run(Run(st, a).state, b).frames)
  {
    RunAppend(st, a, b);
    ForwardedAppend(Run(st, a).frames, Run(Run(st, a).state, b).frames);
  }

  /** One more byte sends what its own step closes. */
  lemma ForwardedByte(st: DecoderState, s: seq<byte>, b: byte)
    ensures Run(st, s + [b]).state == Step(Run(st, s).state, b).0
    ensures Forwarded(Run(st, s + [b]).frames)
         == Forwarded(Run(st, s).frames) + Forwarded(Step(Run(st, s).state, b).1)
  {
    RunSnoc(st, s, b);
    ForwardedAppend(Run(st, s).frames, Step(Run(st, s).state, b).1);
  }

  /** The chunks of a stream, joined. */
  function Flatten(chunks: seq<seq<byte>>): seq<byte>
    decreases |chunks|
  {
    if |chunks| == 0 then [] else Flatten(chunks[..|chunks| - 1]) + chunks[|chunks| - 1]
  }

  /** The SLIP decoder as an object: its state, which outlives each read,
      and the frames it has emitted so far. */
  class SlipDecoder {
    var inFrame: bool
    var escaped: bool
    var buf: seq<byte>
    var frames: seq<seq<byte>>

    function State(): DecoderState
      reads this
    {
      DecoderState(inFrame, escaped, buf)
    }

    constructor ()
      ensures State() == FRESH && frames == []
    {
      inFrame := false;
      escaped := false;
      buf := [];
      frames := [];
    }

    /** One read of `chunk`: its bytes go through the decoder from the state
        the previous read left, and every frame an END closes is appended. */
    method Feed(chunk: seq<byte>)
      modifies this
      ensures State() == Run(old(State()), chunk).state
      ensures frames == old(frames) + Run(old(State()), chunk).frames
    {
      ghost var st0 := State();
      ghost var frames0 := frames;
      var readIndex := 0;
      while readIndex < |chunk|
        invariant readIndex <= |chunk|
        invariant State() == Run(st0, chunk[..readIndex]).state
        invariant frames == frames0 + Run(st0, chunk[..readIndex]).frames
      {
        var b := chunk[readIndex];
        assert chunk[..readIndex + 1] == chunk[..readIndex] + [b];
        RunSnoc(st0, chunk[..readIndex], b);
        readIndex := readIndex + 1;
        if !inFrame {
          inFrame := b == SLIP_START;
          continue;
        }
        if b == SLIP_END {
          inFrame := false;
          frames := frames + [buf];
          buf := [];
        } else if b == SLIP_ESC {
          escaped := true;
        } else if escaped {
          buf := buf + [Unescape(b)];
          escaped := false;
        } else {
          buf := buf + [b];
        }
      }
      assert chunk[..|chunk|] == chunk;
    }
  }

  /** The chunks fed one after another to one decoder. */
  method FeedAll(chunks: seq<seq<byte>>) returns (frames: seq<seq<byte>>)
    ensures frames == Run(FRESH, Flatten(chunks)).frames
  {
    var decoder := new SlipDecoder();
    for i := 0 to |chunks|
      invariant decoder.State() == Run(FRESH, Flatten(chunks[..i])).state
      invariant decoder.frames == Run(FRESH, Flatten(chunks[..i])).frames
    {
      assert chunks[..i + 1][..i] == chunks[..i];
      assert Flatten(chunks[..i + 1]) == Flatten(chunks[..i]) + chunks[i];
      RunAppend(FRESH, Flatten(chunks[..i]), chunks[i]);
      decoder.Feed(chunks[i]);
    }
    assert chunks[..|chunks|] == chunks;
    frames := decoder.frames;
  }

  /** The end-to-end agreement of the two decoders: running the capture
      loop's persistent decoder over the chunks one after another, and
      running `get_packet_bytes` once over their concatenation, yield the
      same frames. It computes nothing of its own; it exists to state this
      for the two methods themselves, not only for the fold `Run`. */
  method ChunkedMatchesWhole(chunks: seq<seq<byte>>) returns (chunked: seq<seq<byte>>, whole: seq<seq<byte>>)
    ensures chunked == whole
  {
    chunked := FeedAll(chunks);
    var readIndex;
    whole, readIndex := GetPacketBytes(Flatten(chunks));
  }

  /** Decodes one frame and returns what is sent for it: its packet if
      valid, nothing otherwise. */
  method Deliver(frame: seq<byte>) returns (out: seq<Packet>)
    ensures out == Forwarded([frame])
  {
    ForwardedSnoc([], frame);
    assert [] + [frame] == [frame];
    var blePacket := BlePacketFrom(frame);
    out := [];
    if blePacket.valid {
      out := [blePacket];
    }
  }

  /** The inner loop of the capture thread over one read of at most one
      receive buffer: the decoder state comes from the previous read, each
      frame an END closes is decoded at once, and its packet is sent if it
      is valid. */
  method AnalyzeRead(st: DecoderState, recv: seq<byte>) returns (st': DecoderState, sent: seq<Packet>)
    requires |recv| <= RECV_BUFFER_SIZE
    ensures st' == Run(st, recv).state
    ensures sent == Forwarded(Run(st, recv).frames)
  {
    var packetStart, previousByteIsEsc, packetBytes := st.inFrame, st.escaped, st.buf;
    sent := [];
    var readIndex := 0;
    while readIndex < |recv|
      invariant readIndex <= |recv|
      invariant DecoderState(packetStart, previousByteIsEsc, packetBytes) == Run(st, recv[..readIndex]).state
      invariant sent == Forwarded(Run(st, recv[..readIndex]).frames)
    {
      var b := recv[readIndex];
      assert recv[..readIndex + 1] == recv[..readIndex] + [b];
      ForwardedByte(st, recv[..readIndex], b);
      readIndex := readIndex + 1;
      if !packetStart {
        packetStart := b == SLIP_START;
        continue;
      }
      if b == SLIP_END {
        packetStart := false;
        var out := Deliver(packetBytes);
        sent := sent + out;
        packetBytes := [];
      } else if b == SLIP_ESC {
        previousByteIsEsc := true;
      } else if previousByteIsEsc {
        if b == SLIP_ESC_START {
          packetBytes := packetBytes + [SLIP_START];
        } else if b == SLIP_ESC_END {
          packetBytes := packetBytes + [SLIP_END];
        } else if b == SLIP_ESC_ESC {
          packetBytes := packetBytes + [SLIP_ESC];
        } else {
          packetBytes := packetBytes + [b];
        }
        previousByteIsEsc := false;
      } else {
        packetBytes := packetBytes + [b];
      }
    }
    assert recv[..|recv|] == recv;
    st' := DecoderState(packetStart, previousByteIsEsc, packetBytes);
  }

  /** The capture thread over a sequence of successful reads: the decoder
      state lives outside the read loop, and what is sent is the valid
      packets of the frames `get_packet_bytes` finds in the joined stream. */
  method AnalyzeSerialPackets(chunks: seq<seq<byte>>) returns (sent: seq<Packet>)
    requires forall i :: 0 <= i < |chunks| ==> |chunks[i]| <= RECV_BUFFER_SIZE
    ensures sent == Forwarded(Run(FRESH, Flatten(chunks)).frames)
  {
    var st := FRESH;
    sent := [];
    for i := 0 to |chunks|
      invariant st == Run(FRESH, Flatten(chunks[..i])).state
      invariant sent == Forwarded(Run(FRESH, Flatten(chunks[..i])).frames)
    {
      assert chunks[..i + 1][..i] == chunks[..i];
      assert Flatten(chunks[..i + 1]) == Flatten(chunks[..i]) + chunks[i];
      RunAppend(FRESH, Flatten(chunks[..i]), chunks[i]);
      ChunkingIrrelevant(FRESH, Flatten(chunks[..i]), chunks[i]);
      var out;
      st, out := AnalyzeRead(st, chunks[i]);
      sent := sent + out;
    }
    assert chunks[..|chunks|] == chunks;
  }

  /** The two commands written once the port is open: start scanning with
      every option off under packet counter 0, then set the temporary key
      to 0 under packet counter 1. */
  method OpenSession() returns (scan: seq<byte>, tk: seq<byte>)
    ensures scan == Encode([HEADER_LENGTH, 1, PROTOVER_V1, 0, 0, REQ_SCAN_CONT, 0])
    ensures tk == Encode([HEADER_LENGTH, 16, PROTOVER_V1, 1, 0, SET_TEMPORARY_KEY] + seq(16, _ => 0))
    ensures Run(FRESH, scan) == Decoded(FRESH, [[HEADER_LENGTH, 1, PROTOVER_V1, 0, 0, REQ_SCAN_CONT, 0]])
    ensures Run(FRESH, tk) == Decoded(FRESH, [[HEADER_LENGTH, 16, PROTOVER_V1, 1, 0, SET_TEMPORARY_KEY] + seq(16, _ => 0)])
  {
    var sendPacketCounter: u16 := 0;
    scan := MakeSendScanBytes(false, false, false, sendPacketCounter);
    sendPacketCounter := sendPacketCounter + 1;
    tk := MakeSendTkBytes(0, sendPacketCounter);
    assert CommandFrame(REQ_SCAN_CONT, [ScanFlags(false, false, false)], 0)
        == [HEADER_LENGTH, 1, PROTOVER_V1, 0, 0, REQ_SCAN_CONT, 0];
  }
}
