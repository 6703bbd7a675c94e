/** flow/LineBuffer.c: cuts a byte stream into lines for a packet output. */
module LineBuffer {
  import opened Wrappers

  /** The position of the first newline, or the length where there is none. */
  function NewlineAt(nl: byte, s: seq<byte>): (i: nat)
    ensures i <= |s| && nl !in s[..i] && (i < |s| ==> s[i] == nl)
  {
    if s == [] || s[0] == nl then 0 else 1 + NewlineAt(nl, s[1..])
  }

  /** The length of the first piece of s: up to a newline that is among the first size bytes,
      otherwise size bytes; None while s is too short to tell. */
  function PieceLength(nl: byte, size: nat, s: seq<byte>): (n: Option<nat>)
    requires size > 0
    ensures n.Some? ==> 0 < n.value <= |s| && n.value <= size
  {
    var i := NewlineAt(nl, s);
    if i < |s| && i < size then Some(i + 1) else if |s| >= size then Some(size) else None
  }

  /** The greedy segmentation of a stream. */
  function Pieces(nl: byte, size: nat, s: seq<byte>): seq<seq<byte>>
    requires size > 0
    decreases |s|
  {
    match PieceLength(nl, size, s)
    case None => []
    case Some(n) => [s[..n]] + Pieces(nl, size, s[n..])
  }

  /** What it leaves over. */
  function Rest(nl: byte, size: nat, s: seq<byte>): seq<byte>
    requires size > 0
    decreases |s|
  {
    match PieceLength(nl, size, s)
    case None => s
    case Some(n) => Rest(nl, size, s[n..])
  }

  function Join(pieces: seq<seq<byte>>): seq<byte> {
    if pieces == [] then [] else pieces[0] + Join(pieces[1..])
  }

  /** A piece is complete: it ends at its only newline, or has the full size and no earlier one. */
  predicate Complete(nl: byte, size: nat, piece: seq<byte>) {
    && 0 < |piece| <= size && nl !in piece[..|piece| - 1]
    && (piece[|piece| - 1] == nl || |piece| == size)
  }

  ghost predicate AllComplete(nl: byte, size: nat, pieces: seq<seq<byte>>) {
    forall i | 0 <= i < |pieces| :: Complete(nl, size, pieces[i])
  }

  lemma {:induction false} NewlineIs(nl: byte, s: seq<byte>, i: nat)
    requires i <= |s| && nl !in s[..i] && (i < |s| ==> s[i] == nl)
    ensures NewlineAt(nl, s) == i
  {
    if i > 0 {
      assert s[0] in s[..i] && s[1..][..i - 1] == s[..i][1..];
      NewlineIs(nl, s[1..], i - 1);
    }
  }

  lemma PieceIsComplete(nl: byte, size: nat, s: seq<byte>)
    requires size > 0 && PieceLength(nl, size, s).Some?
    ensures Complete(nl, size, s[..PieceLength(nl, size, s).value])
  {
    var n, i := PieceLength(nl, size, s).value, NewlineAt(nl, s);
    assert s[..n][..n - 1] == s[..n - 1] == s[..i][..n - 1];
  }

  /** A complete piece is what the segmentation starts with, whatever follows it. */
  lemma CompleteFirst(nl: byte, size: nat, piece: seq<byte>, s: seq<byte>)
    requires size > 0 && Complete(nl, size, piece)
    ensures PieceLength(nl, size, piece + s) == Some(|piece|)
  {
    var k := |piece| - 1;
    assert (piece + s)[..k] == piece[..k];
    if piece[k] == nl {
      NewlineIs(nl, piece + s, k);
    }
  }

  /** The greedy segmentation is the only way to write a stream as complete pieces and a rest
      without a complete piece. */
  lemma {:induction false} PiecesUnique(nl: byte, size: nat, pieces: seq<seq<byte>>, rest: seq<byte>)
    requires size > 0 && AllComplete(nl, size, pieces)
    ensures Pieces(nl, size, Join(pieces) + rest) == pieces + Pieces(nl, size, rest)
    ensures Rest(nl, size, Join(pieces) + rest) == Rest(nl, size, rest)
  {
    if pieces == [] {
      assert Join(pieces) + rest == rest && [] + Pieces(nl, size, rest) == Pieces(nl, size, rest);
    } else {
      var p, ps := pieces[0], pieces[1..];
      assert pieces == [p] + ps;
      PiecesUnique(nl, size, ps, rest);
      Concat(p, Join(ps), rest);
      FirstPiece(nl, size, p, Join(ps) + rest);
      Concat([p], ps, Pieces(nl, size, rest));
    }
  }

  lemma {:induction false} FirstPiece(nl: byte, size: nat, p: seq<byte>, s: seq<byte>)
    requires size > 0 && Complete(nl, size, p)
    ensures Pieces(nl, size, p + s) == [p] + Pieces(nl, size, s) && Rest(nl, size, p + s) == Rest(nl, size, s)
  {
    CompleteFirst(nl, size, p, s);
    assert (p + s)[..|p|] == p && (p + s)[|p|..] == s;
  }

  lemma {:induction false} JoinSnoc(pieces: seq<seq<byte>>, p: seq<byte>)
    ensures Join(pieces + [p]) == Join(pieces) + p
  {
    if pieces == [] {
      assert [p][1..] == [] && pieces + [p] == [p];
      assert p + [] == p;
    } else {
      JoinSnoc(pieces[1..], p);
      assert (pieces + [p])[1..] == pieces[1..] + [p];
    }
  }

  class LineSplitter {
    const bufSize: nat
    const nlChar: byte
    const buf: array<byte>
    var bufUsed: nat
    var bufConsumed: nat
    /** a line has been passed to output and is not done */
    var sending: bool

    ghost var received: seq<byte>
    ghost var outputs: seq<seq<byte>>

    ghost function Held(): seq<byte>
      requires bufUsed <= buf.Length
      reads `bufUsed, buf
    {
      buf[..bufUsed]
    }

    /** Nothing received is lost, repeated or reordered; outputs are complete lines. */
    ghost predicate Conserved(held: seq<byte>)
      reads `received, `outputs
    {
      AllComplete(nlChar, bufSize, outputs) && received == Join(outputs) + held
    }

    ghost predicate Sized()
      reads `bufUsed
    {
      0 < bufSize == buf.Length && bufUsed <= bufSize
    }

    ghost predicate Valid()
      reads this, buf
    {
      && Sized()
      && if sending then
           && 0 < bufConsumed <= bufUsed && outputs != [] && outputs[|outputs| - 1] == buf[..bufConsumed]
           && Conserved(buf[bufConsumed..bufUsed])
         else
           bufUsed < bufSize && nlChar !in Held() && Conserved(Held())
    }

    /** LineBuffer_Init */
    constructor (bufSize: nat, nlChar: byte)
      requires 0 < bufSize
      ensures Valid() && !sending && received == [] && outputs == [] && fresh(buf)
      ensures this.bufSize == bufSize && this.nlChar == nlChar
    {
      this.bufSize, this.nlChar := bufSize, nlChar;
      buf := new byte[bufSize];
      bufUsed, bufConsumed, sending := 0, 0, false;
      received, outputs := [], [];
    }

    /** For any cutting of the stream the outputs are its greedy segmentation, and the buffer
        holds what that leaves. */
    lemma OutputsArePieces()
      requires Valid() && !sending
      ensures outputs == Pieces(nlChar, bufSize, received) && Held() == Rest(nlChar, bufSize, received)
    {
      PiecesUnique(nlChar, bufSize, outputs, Held());
      NewlineIs(nlChar, Held(), |Held()|);
      assert Held()[..|Held()|] == Held();
      assert outputs + [] == outputs;
    }

    /** The common end of both handlers, after looking for a newline from a position before which
        there is none. */
    method FindLine(from: nat)
      requires Sized() && !sending && from <= bufUsed && nlChar !in buf[..from] && Conserved(Held())
      modifies `sending, `bufConsumed, `outputs
      ensures Valid() && sending == PieceLength(nlChar, bufSize, Held()).Some?
      ensures sending ==> bufConsumed == PieceLength(nlChar, bufSize, Held()).value
      ensures sending ==> outputs == old(outputs) + [buf[..bufConsumed]]
      ensures !sending ==> outputs == old(outputs)
    {
      var i := from;
      while i < bufUsed && buf[i] != nlChar
        invariant from <= i <= bufUsed && nlChar !in buf[..i]
      {
        assert buf[..i + 1] == buf[..i] + [buf[i]];
        i := i + 1;
      }
      assert Held()[..i] == buf[..i];
      NewlineIs(nlChar, Held(), i);
      if i < bufUsed || bufUsed == bufSize {
        bufConsumed := if i < bufUsed then i + 1 else i;
        PassOn();
      }
    }

    method PassOn()
      requires Sized() && !sending && Conserved(Held()) && PieceLength(nlChar, bufSize, Held()) == Some(bufConsumed)
      modifies `sending, `outputs
      ensures Valid() && sending && outputs == old(outputs) + [buf[..bufConsumed]]
    {
      PieceIsComplete(nlChar, bufSize, Held());
      ghost var piece := buf[..bufConsumed];
      assert Held()[..bufConsumed] == piece;
      JoinSnoc(outputs, piece);
      assert Held() == piece + buf[bufConsumed..bufUsed];
      Concat(Join(outputs), piece, buf[bufConsumed..bufUsed]);
      outputs := outputs + [piece];
      sending := true;
    }

    /** input_handler_done, for bytes that the stream has put behind those in the buffer. Only
        the new bytes need to be searched. */
    method InputDone(data: seq<byte>)
      requires Valid() && !sending && 0 < |data| <= bufSize - bufUsed
      modifies this, buf
      ensures Valid() && received == old(received) + data && old(outputs) <= outputs
    {
      ghost var held := Held();
      forall i | 0 <= i < |data| {
        buf[bufUsed + i] := data[i];
      }
      bufUsed := bufUsed + |data|;
      received := received + data;
      assert Held() == held + data && buf[..bufUsed - |data|] == held;
      Concat(Join(outputs), held, data);
      FindLine(bufUsed - |data|);
    }

    /** output_handler_done */
    method OutputDone()
      requires Valid() && sending
      modifies this, buf
      ensures Valid() && received == old(received) && old(outputs) <= outputs
      ensures bufUsed < old(bufUsed)
    {
      ghost var rest := buf[bufConsumed..bufUsed];
      forall i | 0 <= i < bufUsed - bufConsumed {
        buf[i] := buf[bufConsumed + i];
      }
      bufUsed := bufUsed - bufConsumed;
      sending := false;
      assert Held() == rest;
      FindLine(0);
    }
  }

  /** Feeds the splitter a stream, cut in any way; cut(k) chooses the size of the k-th receive. */
  method SplitStream(b: LineSplitter, stream: seq<byte>, cut: nat -> nat)
    requires b.Valid() && !b.sending && b.received == [] && b.outputs == []
    modifies b, b.buf
    ensures b.Valid() && !b.sending
    ensures b.outputs == Pieces(b.nlChar, b.bufSize, stream) && b.Held() == Rest(b.nlChar, b.bufSize, stream)
  {
    var sent, k: nat := 0, 0;
    while sent < |stream| || b.sending
      invariant b.Valid() && sent <= |stream| && b.received == stream[..sent]
      decreases |stream| - sent, b.bufUsed
    {
      if b.sending {
        b.OutputDone();
      } else {
        var space := b.bufSize - b.bufUsed;
        var limit := if space < |stream| - sent then space else |stream| - sent;
        var n := 1 + cut(k) % limit;
        assert stream[..sent] + stream[sent..sent + n] == stream[..sent + n];
        b.InputDone(stream[sent..sent + n]);
        sent, k := sent + n, k + 1;
      }
    }
    assert stream[..sent] == stream;
    b.OutputsArePieces();
  }
}
