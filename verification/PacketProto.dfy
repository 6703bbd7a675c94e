/** PacketProto framing: flow/PacketProtoEncoder.c and flow/PacketProtoDecoder.c. */
module PacketProto {
  import opened Wrappers
  import opened ByteOrder

  const MAXPAYLOAD := 0xffff

  /** A packet behind its header. */
  function Frame(packet: seq<byte>): seq<byte> {
    ToLE(|packet|, 2) + packet
  }

  /** By position: the length, low byte first, and the payload. */
  lemma FrameBytes(packet: seq<byte>)
    requires |packet| <= MAXPAYLOAD
    ensures var s := Frame(packet);
      |s| == 2 + |packet| && s[0] as nat + 0x100 * s[1] as nat == |packet| && s[2..] == packet
  {
    ToLEBytes(|packet|);
  }

  function FrameAll(packets: seq<seq<byte>>): seq<byte> {
    if packets == [] then [] else Frame(packets[0]) + FrameAll(packets[1..])
  }

  /** What a stream starts with: not a whole packet yet, a packet that is too large, or a packet. */
  datatype Head = Short | TooLarge | Whole(packet: seq<byte>, rest: seq<byte>)

  function HeadOf(mtu: nat, s: seq<byte>): (h: Head)
    ensures h.Whole? ==> |h.rest| < |s|
  {
    if |s| < 2 then Short
    else
      var len := FromLE(s[..2]);
      if len > mtu then TooLarge
      else if |s| - 2 < len then Short
      else Whole(s[2..2 + len], s[2 + len..])
  }

  /** The packets a stream holds, up to its end or to a packet that is too large. */
  function Packets(mtu: nat, s: seq<byte>): seq<seq<byte>>
    decreases |s|
  {
    match HeadOf(mtu, s)
    case Whole(packet, rest) => [packet] + Packets(mtu, rest)
    case _ => []
  }

  /** What follows them. */
  function Leftover(mtu: nat, s: seq<byte>): seq<byte>
    decreases |s|
  {
    match HeadOf(mtu, s)
    case Whole(packet, rest) => Leftover(mtu, rest)
    case _ => s
  }

  ghost predicate Fit(mtu: nat, packets: seq<seq<byte>>) {
    forall i | 0 <= i < |packets| :: |packets[i]| <= mtu
  }

  lemma HeadFramed(mtu: nat, packet: seq<byte>, rest: seq<byte>)
    requires |packet| <= mtu <= MAXPAYLOAD
    ensures HeadOf(mtu, Frame(packet) + rest) == Whole(packet, rest)
  {
    Widths();
    FromToLE(|packet|, 2);
    var s := Frame(packet) + rest;
    assert s[..2] == ToLE(|packet|, 2);
    assert s[2..2 + |packet|] == packet && s[2 + |packet|..] == rest;
  }

  lemma WholeIsFramed(mtu: nat, s: seq<byte>)
    requires HeadOf(mtu, s).Whole?
    ensures s == Frame(HeadOf(mtu, s).packet) + HeadOf(mtu, s).rest && |HeadOf(mtu, s).packet| <= mtu
  {
    ToFromLE(s[..2]);
  }

  lemma {:induction false} PacketsStep(mtu: nat, packet: seq<byte>, rest: seq<byte>, s: seq<byte>)
    requires |packet| <= mtu <= MAXPAYLOAD && s == Frame(packet) + rest
    ensures Packets(mtu, s) == [packet] + Packets(mtu, rest) && Leftover(mtu, s) == Leftover(mtu, rest)
  {
    HeadFramed(mtu, packet, rest);
  }

  /** Framed packets in front of a stream come out first, whatever follows. */
  lemma {:induction false} FramedFirst(mtu: nat, packets: seq<seq<byte>>, s: seq<byte>)
    requires Fit(mtu, packets) && mtu <= MAXPAYLOAD
    ensures Packets(mtu, FrameAll(packets) + s) == packets + Packets(mtu, s)
    ensures Leftover(mtu, FrameAll(packets) + s) == Leftover(mtu, s)
  {
    if packets == [] {
      assert FrameAll(packets) + s == s && [] + Packets(mtu, s) == Packets(mtu, s);
    } else {
      var p, ps := packets[0], packets[1..];
      assert packets == [p] + ps;
      var rest := FrameAll(ps) + s;
      FramedFirst(mtu, ps, s);
      Concat(Frame(p), FrameAll(ps), s);
      PacketsStep(mtu, p, rest, FrameAll(packets) + s);
      Concat([p], ps, Packets(mtu, s));
    }
  }

  lemma {:induction false} FrameAllSnoc(packets: seq<seq<byte>>, p: seq<byte>)
    ensures FrameAll(packets + [p]) == FrameAll(packets) + Frame(p)
  {
    if packets == [] {
      assert [p][1..] == [] && packets + [p] == [p];
      assert FrameAll([p]) == Frame(p) + [];
    } else {
      FrameAllSnoc(packets[1..], p);
      assert (packets + [p])[1..] == packets[1..] + [p];
    }
  }

  /** The decoder: a buffer for one frame, with the bytes received and not yet passed on at
      bufStart. It is receiving into the rest of the buffer, or waiting for a submitted packet. */
  class Decoder {
    const outputMtu: nat
    const bufSize: nat
    const buf: array<byte>
    var bufStart: nat
    var bufUsed: nat
    /** a packet has been submitted to output and is not done; where it is */
    var sending: bool
    var packetStart: nat
    var packetLen: nat

    // the bytes in the buffer, and the submitted packet
    ghost var held: seq<byte>
    ghost var packet: seq<byte>
    // since the start, the last error or the last reset
    ghost var received: seq<byte>
    ghost var emitted: seq<seq<byte>>

    /** The buffer holds what it should. */
    ghost predicate Buffered()
      reads `bufStart, `bufUsed, `held, buf
    {
      && outputMtu <= MAXPAYLOAD && bufSize == 2 + outputMtu == buf.Length
      && bufStart + bufUsed <= bufSize && held == buf[bufStart..bufStart + bufUsed]
    }

    /** Nothing received is lost, repeated or reordered. */
    ghost predicate Conserved()
      reads `held, `received, `emitted
    {
      Fit(outputMtu, emitted) && received == FrameAll(emitted) + held
    }

    /** What an outstanding receive or send relies on. */
    ghost predicate Outstanding()
      reads `sending, `packetStart, `packetLen, `packet, `bufStart, `bufUsed, `held, buf
    {
      if sending then
        packetStart + packetLen <= bufStart <= buf.Length && packet == buf[packetStart..packetStart + packetLen]
      else
        bufStart + bufUsed < bufSize && HeadOf(outputMtu, held).Short?
    }

    ghost predicate Valid()
      reads this, buf
    {
      Buffered() && Conserved() && Outstanding()
    }

    /** PacketProtoDecoder_Init */
    constructor (mtu: nat)
      ensures Valid() && !sending && received == [] && emitted == [] && held == [] && fresh(buf)
      ensures outputMtu == if mtu < MAXPAYLOAD then mtu else MAXPAYLOAD
    {
      var limit: nat := if mtu < MAXPAYLOAD then mtu else MAXPAYLOAD;
      outputMtu, bufSize := limit, 2 + limit;
      bufStart, bufUsed := 0, 0;
      buf := new byte[2 + limit];
      sending, packetStart, packetLen := false, 0, 0;
      received, emitted, held, packet := [], [], [], [];
    }

    /** The size of the receive that is outstanding. */
    function Space(): int
      reads this
    {
      bufSize - (bufStart + bufUsed)
    }

    lemma ReceivesSomething()
      requires Valid() && !sending
      ensures 0 < Space()
    {
    }

    /** Independence of how the stream arrived in pieces: what has been passed on is what the
        reference finds in the bytes received. */
    lemma EmittedArePackets()
      requires Valid() && !sending
      ensures emitted == Packets(outputMtu, received) && held == Leftover(outputMtu, received)
    {
      FramedFirst(outputMtu, emitted, held);
      assert emitted + [] == emitted;
    }

    /** What process_data makes of held0, the bytes in the buffer. */
    ghost predicate Processed(held0: seq<byte>, emitted0: seq<seq<byte>>, received0: seq<byte>, wasError: bool)
      reads `sending, `packet, `held, `emitted, `received
    {
      match HeadOf(outputMtu, held0)
      case Whole(p, rest) =>
        && !wasError && sending && packet == p && held == rest && emitted == emitted0 + [p] && received == received0
      case Short =>
        !wasError && !sending && held == held0 && emitted == emitted0 && received == received0
      case TooLarge =>
        wasError && !sending && held == [] && emitted == [] && received == []
    }

    /** process_data: passes on a packet, or asks for more, after an error from scratch. */
    method ProcessData() returns (wasError: bool)
      requires Buffered() && Conserved()
      modifies this, buf
      ensures Valid() && Processed(old(held), old(emitted), old(received), wasError)
    {
      sending := false;
      var whole, dataLen;
      whole, wasError, dataLen := ReadHeader();
      if whole {
        HeldParts(dataLen);
        Submit(dataLen, held[2..2 + dataLen], held[2 + dataLen..]);
      } else {
        AskForMore(wasError);
      }
    }

    /** The header and its checks. */
    method ReadHeader() returns (whole: bool, wasError: bool, dataLen: nat)
      requires Buffered()
      ensures match HeadOf(outputMtu, held)
        case Whole(p, rest) =>
          whole && !wasError && 2 + dataLen <= bufUsed && p == held[2..2 + dataLen] && rest == held[2 + dataLen..]
        case Short => !whole && !wasError
        case TooLarge => !whole && wasError
    {
      whole, wasError, dataLen := false, false, 0;
      var left := bufUsed;
      if left < 2 {
        return;
      }
      assert buf[bufStart..bufStart + 2] == held[..2];
      dataLen := FromLE(buf[bufStart..bufStart + 2]);
      left := left - 2;
      if dataLen > outputMtu {
        wasError := true;
        return;
      }
      whole := !(left < dataLen);
    }

    /** Where a whole packet was received. */
    method Submit(dataLen: nat, ghost p: seq<byte>, ghost rest: seq<byte>)
      requires Buffered() && Conserved() && 2 + dataLen <= bufUsed && HeadOf(outputMtu, held) == Whole(p, rest)
      requires p == buf[bufStart + 2..bufStart + 2 + dataLen]
      requires rest == buf[bufStart + (2 + dataLen)..bufStart + (2 + dataLen) + (bufUsed - (2 + dataLen))]
      modifies `bufStart, `bufUsed, `held, `sending, `packetStart, `packetLen, `packet, `emitted
      ensures Valid() && Processed(old(held), old(emitted), received, false)
    {
      Emit(p, rest);
      PassOn(dataLen, p, rest);
    }

    method PassOn(dataLen: nat, ghost p: seq<byte>, ghost rest: seq<byte>)
      requires Buffered() && 2 + dataLen <= bufUsed
      requires p == buf[bufStart + 2..bufStart + 2 + dataLen]
      requires rest == buf[bufStart + (2 + dataLen)..bufStart + (2 + dataLen) + (bufUsed - (2 + dataLen))]
      modifies `bufStart, `bufUsed, `held, `sending, `packetStart, `packetLen, `packet
      ensures Buffered() && Outstanding() && sending && packet == p && held == rest
    {
      var data := bufStart + 2;
      bufStart := bufStart + (2 + dataLen);
      bufUsed := bufUsed - (2 + dataLen);
      sending, packetStart, packetLen := true, data, dataLen;
      packet, held := p, rest;
    }

    lemma HeldParts(dataLen: nat)
      requires Buffered() && 2 + dataLen <= bufUsed
      ensures |held| == bufUsed && held[2..2 + dataLen] == buf[bufStart + 2..bufStart + 2 + dataLen]
      ensures held[2 + dataLen..] == buf[bufStart + (2 + dataLen)..bufStart + (2 + dataLen) + (bufUsed - (2 + dataLen))]
    {
      SliceOfSlice(buf[..], bufStart, bufStart + bufUsed, 2, 2 + dataLen);
      SliceOfSlice(buf[..], bufStart, bufStart + bufUsed, 2 + dataLen, bufUsed);
      assert buf[..][bufStart..bufStart + bufUsed] == held;
    }

    ghost method Emit(p: seq<byte>, rest: seq<byte>)
      requires Conserved() && HeadOf(outputMtu, held) == Whole(p, rest)
      modifies `emitted
      ensures emitted == old(emitted) + [p] && Fit(outputMtu, emitted) && received == FrameAll(emitted) + rest
    {
      WholeIsFramed(outputMtu, held);
      FrameAllSnoc(emitted, p);
      Concat(FrameAll(emitted), Frame(p), rest);
      emitted := emitted + [p];
    }

    /** Where it was not. */
    method AskForMore(wasError: bool)
      requires Buffered() && Conserved() && !sending
      requires if wasError then HeadOf(outputMtu, held).TooLarge? else HeadOf(outputMtu, held).Short?
      modifies buf, `bufStart, `bufUsed, `held, `received, `emitted
      ensures Valid() && Processed(old(held), old(emitted), old(received), wasError)
    {
      if wasError {
        bufStart, bufUsed := 0, 0;
        held, received, emitted := [], [], [];
      } else {
        if bufStart + bufUsed == bufSize {
          Wrap();
        }
      }
    }

    /** memmove(enc->buf, enc->buf + enc->buf_start, enc->buf_used) */
    method Wrap()
      requires Buffered()
      modifies buf, `bufStart
      ensures Buffered() && bufStart == 0
    {
      forall i | 0 <= i < bufUsed {
        buf[i] := buf[bufStart + i];
      }
      bufStart := 0;
    }

    /** An error is in the stream, not in how it was cut. */
    lemma ErrorInStream()
      requires Conserved() && HeadOf(outputMtu, held).TooLarge? && outputMtu <= MAXPAYLOAD
      ensures HeadOf(outputMtu, Leftover(outputMtu, received)).TooLarge?
    {
      FramedFirst(outputMtu, emitted, held);
    }

    /** input_handler_done, for bytes that the stream has put into the space it was given. */
    method InputDone(data: seq<byte>) returns (wasError: bool)
      requires Valid() && !sending && 0 < |data| <= Space()
      modifies this, buf
      ensures Valid() && Processed(old(held) + data, old(emitted), old(received) + data, wasError)
      ensures wasError ==> HeadOf(outputMtu, Leftover(outputMtu, old(received) + data)).TooLarge?
    {
      Append(data);
      if HeadOf(outputMtu, held).TooLarge? { ErrorInStream(); }
      wasError := ProcessData();
    }

    method Append(data: seq<byte>)
      requires Buffered() && Conserved() && |data| <= Space()
      modifies buf, `bufUsed, `held, `received
      ensures Buffered() && Conserved() && held == old(held) + data && received == old(received) + data
    {
      forall i | 0 <= i < |data| {
        buf[bufStart + bufUsed + i] := data[i];
      }
      bufUsed := bufUsed + |data|;
      Concat(FrameAll(emitted), held, data);
      held, received := held + data, received + data;
    }

    /** output_handler_done */
    method OutputDone() returns (wasError: bool)
      requires Valid() && sending
      modifies this, buf
      ensures Valid() && Processed(old(held), old(emitted), old(received), wasError)
      ensures wasError ==> HeadOf(outputMtu, Leftover(outputMtu, old(received))).TooLarge?
    {
      if HeadOf(outputMtu, held).TooLarge? { ErrorInStream(); }
      wasError := ProcessData();
    }

    /** PacketProtoDecoder_Reset: forgets what is buffered; an outstanding receive goes on where it is. */
    method Reset()
      requires Valid()
      modifies this
      ensures Valid() && sending == old(sending)
      ensures bufStart + bufUsed == old(bufStart + bufUsed) && Space() == old(Space())
      ensures sending ==> packet == old(packet)
      ensures held == [] && received == [] && emitted == []
    {
      bufStart := bufStart + bufUsed;
      bufUsed := 0;
      held, received, emitted := [], [], [];
    }
  }

  // ----- whole streams -----

  /** No start of a stream of framed packets looks like an error, wherever it ends. */
  lemma {:induction false} StartsFine(mtu: nat, packets: seq<seq<byte>>, s: seq<byte>)
    requires Fit(mtu, packets) && mtu <= MAXPAYLOAD && s <= FrameAll(packets)
    ensures !HeadOf(mtu, Leftover(mtu, s)).TooLarge?
  {
    if packets != [] {
      var p, ps := packets[0], packets[1..];
      var n := |Frame(p)|;
      if |s| < n {
        CutShort(mtu, p, s, FrameAll(ps));
      } else {
        assert s[..n] == Frame(p) && s == Frame(p) + s[n..];
        assert s[n..] <= FrameAll(ps);
        PacketsStep(mtu, p, s[n..], s);
        StartsFine(mtu, ps, s[n..]);
      }
    }
  }

  lemma {:induction false} CutShort(mtu: nat, p: seq<byte>, s: seq<byte>, rest: seq<byte>)
    requires |p| <= mtu <= MAXPAYLOAD && |s| < |Frame(p)| && s <= Frame(p) + rest
    ensures HeadOf(mtu, s).Short?
  {
    Widths();
    FromToLE(|p|, 2);
    if |s| >= 2 {
      assert s[..2] == (Frame(p) + rest)[..2] == ToLE(|p|, 2);
    }
  }

  /** Feeds the decoder a stream, cut in any way; cut(k) chooses the size of the k-th receive. */
  method DecodeStream(d: Decoder, stream: seq<byte>, cut: nat -> nat, ghost packets: seq<seq<byte>>)
    requires d.Valid() && !d.sending && d.received == [] && d.emitted == []
    requires Fit(d.outputMtu, packets) && stream == FrameAll(packets)
    modifies d, d.buf
    ensures d.Valid() && !d.sending && d.emitted == packets && d.held == []
  {
    var sent, k: nat := 0, 0;
    while sent < |stream| || d.sending
      invariant d.Valid() && sent <= |stream| && d.received == stream[..sent]
      decreases |stream| - sent, |d.held|, d.sending
    {
      var wasError;
      StartsFine(d.outputMtu, packets, stream[..sent]);
      if d.sending {
        wasError := d.OutputDone();
      } else {
        d.ReceivesSomething();
        var limit := if d.Space() < |stream| - sent then d.Space() else |stream| - sent;
        var n := 1 + cut(k) % limit;
        assert stream[..sent] + stream[sent..sent + n] == stream[..sent + n];
        StartsFine(d.outputMtu, packets, stream[..sent + n]);
        wasError := d.InputDone(stream[sent..sent + n]);
        sent, k := sent + n, k + 1;
      }
    }
    assert stream[..sent] == stream && stream == stream + [];
    d.EmittedArePackets();
    FramedFirst(d.outputMtu, packets, []);
    assert packets + [] == packets;
  }

  /** The encoder: the buffer it was given to fill, while its input fills the payload. */
  class Encoder {
    var outputPacket: array?<byte>

    constructor ()
      ensures outputPacket == null
    {
      outputPacket := null;
    }

    /** output_handler_recv: the input receives behind the room for the header. */
    method OutputRecv(data: array<byte>) returns (from: nat)
      requires outputPacket == null
      modifies this
      ensures outputPacket == data && from == 2
    {
      outputPacket := data;
      from := 2;
    }

    /** input_handler_done: the packet passed on is the frame of the payload received. */
    method InputDone(inLen: nat) returns (len: nat)
      requires outputPacket != null && inLen <= MAXPAYLOAD && 2 + inLen <= outputPacket.Length
      modifies this, outputPacket
      ensures outputPacket == null && len == 2 + inLen
      ensures old(outputPacket)[..len] == Frame(old(outputPacket[2..2 + inLen]))
      ensures old(outputPacket)[len..] == old(outputPacket[2 + inLen..])
    {
      var p := outputPacket;
      ghost var payload := p[2..2 + inLen];
      var header := ToLE(inLen, 2);
      p[0], p[1] := header[0], header[1];
      outputPacket := null;
      len := 2 + inLen;
      assert p[2..len] == payload && p[..2] == header;
      assert p[..len] == p[..2] + p[2..len];
    }
  }
}
