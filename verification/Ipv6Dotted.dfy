/** IPv6 texts that end in the dotted form of an IPv4 address (section 2.2 of RFC 4291): which
    endings misc/ipaddr6.h accepts, and what the whole text stands for. */
module Ipv6Dotted {
  import opened Wrappers
  import opened ParseNumber
  import opened Ipv6

  /** Decimal numbers, without leading zeros, with dots between them. */
  function DotText(bs: seq<nat>): string {
    if bs == [] then ""
    else if |bs| == 1 then Repr(bs[0])
    else Repr(bs[0]) + "." + DotText(bs[1..])
  }

  predicate IsQuad(bs: seq<nat>) {
    |bs| == 4 && forall k | 0 <= k < 4 :: bs[k] <= 255
  }

  // ----- the ending -----

  lemma {:induction false} ReadOctet(s: string, i: nat, bytes: seq<nat>, b: nat)
    requires b <= 255 && At(s, i, Repr(b))
    ensures Dotted(s, i, bytes, 0, true) == Dotted(s, i + |Repr(b)|, bytes, b, false)
    decreases b
  {
    var c := ('0' as int + b % 10) as char;
    if b < 10 {
      AtOne(s, i, c);
    } else {
      AtParts(s, i, Repr(b / 10), [c]);
      ReadOctet(s, i, bytes, b / 10);
      AtOne(s, i + |Repr(b / 10)|, c);
    }
  }

  lemma {:induction false} ReadDots(s: string, i: nat, bytes: seq<nat>, bs: seq<nat>)
    requires bs != [] && |bytes| + |bs| == 4 && forall k | 0 <= k < |bs| :: bs[k] <= 255
    requires At(s, i, DotText(bs)) && i + |DotText(bs)| == |s|
    ensures Dotted(s, i, bytes, 0, true) == Some(bytes + bs)
    decreases |bs|
  {
    if |bs| == 1 {
      ReadOctet(s, i, bytes, bs[0]);
      assert bs == [bs[0]];
    } else {
      var j := FirstNumber(s, i, bs);
      ReadOctet(s, i, bytes, bs[0]);
      ReadDots(s, j + 1, bytes + [bs[0]], bs[1..]);
      assert bytes + [bs[0]] + bs[1..] == bytes + bs;
    }
  }

  /** The first number, a dot and the others. */
  lemma {:induction false} FirstNumber(s: string, i: nat, bs: seq<nat>) returns (j: nat)
    requires |bs| > 1 && At(s, i, DotText(bs))
    ensures j == i + |Repr(bs[0])| && At(s, i, Repr(bs[0])) && j < |s| && s[j] == '.' && At(s, j + 1, DotText(bs[1..]))
    ensures i + |DotText(bs)| == j + 1 + |DotText(bs[1..])|
  {
    var first, rest := Repr(bs[0]), DotText(bs[1..]);
    j := i + |first|;
    Concat(first, ".", rest);
    AtParts(s, i, first, "." + rest);
    AtParts(s, j, ".", rest);
    AtOne(s, j, '.');
  }

  /** What has been read of the current number. */
  function Typed(b: nat, empty: bool): string {
    if empty then "" else Repr(b)
  }

  /** Whatever the loop accepts is such a text. */
  lemma {:induction false} DottedMeans(s: string, i: nat, bytes: seq<nat>, b: nat, empty: bool, r: seq<nat>)
    requires i <= |s| && |bytes| <= 3 && b <= 255 && (empty ==> b == 0) && Dotted(s, i, bytes, b, empty) == Some(r)
    ensures |r| == 4 && r[..|bytes|] == bytes && forall k | |bytes| <= k < 4 :: r[k] <= 255
    ensures Typed(b, empty) + s[i..] == DotText(r[|bytes|..])
    decreases |s| - i
  {
    if i == |s| {
      assert s[i..] == "" && r == bytes + [b] && r[|bytes|..] == [b];
    } else if s[i] == '.' {
      DottedMeans(s, i + 1, bytes + [b], 0, true, r);
      NextNumber(s, i, bytes, b, r);
    } else {
      var d := DecimalDigit(s[i]).value;
      DottedMeans(s, i + 1, bytes, b * 10 + d, false, r);
      NextDigit(s, i, b, empty, d);
    }
  }

  lemma NextNumber(s: string, i: nat, bytes: seq<nat>, b: nat, r: seq<nat>)
    requires i < |s| && s[i] == '.' && |bytes| < 3 && |r| == 4 && r[..|bytes| + 1] == bytes + [b]
    requires "" + s[i + 1..] == DotText(r[|bytes| + 1..])
    ensures r[..|bytes|] == bytes && r[|bytes|] == b && Repr(b) + s[i..] == DotText(r[|bytes|..])
  {
    assert r[..|bytes| + 1][..|bytes|] == r[..|bytes|];
    assert r[..|bytes| + 1][|bytes|] == r[|bytes|];
    var rest := r[|bytes|..];
    assert rest[0] == b && rest[1..] == r[|bytes| + 1..];
    assert "" + s[i + 1..] == s[i + 1..];
    assert s[i..] == "." + s[i + 1..];
    Concat(Repr(b), ".", s[i + 1..]);
  }

  lemma NextDigit(s: string, i: nat, b: nat, empty: bool, d: nat)
    requires i < |s| && DecimalDigit(s[i]) == Some(d) && (if empty then b == 0 else b > 0)
    ensures Typed(b, empty) + s[i..] == Typed(b * 10 + d, false) + s[i + 1..]
  {
    var c := ('0' as int + d) as char;
    assert c == s[i] && s[i..] == [c] + s[i + 1..];
    Concat(Typed(b, empty), [c], s[i + 1..]);
    assert (b * 10 + d) / 10 == b && (b * 10 + d) % 10 == d;
    assert Repr(b * 10 + d) == Typed(b, empty) + [c];
  }

  /** The dotted ending is read exactly when it is four numbers up to 255, without leading zeros,
      with dots between them; then those are what is read. */
  lemma DottedIff(s: string, i: nat, bs: seq<nat>)
    requires i <= |s|
    ensures Dotted(s, i, [], 0, true) == Some(bs) <==> IsQuad(bs) && s[i..] == DotText(bs)
  {
    if Dotted(s, i, [], 0, true) == Some(bs) {
      DottedMeans(s, i, [], 0, true, bs);
      assert "" + s[i..] == s[i..] && bs[0..] == bs;
    }
    if IsQuad(bs) && s[i..] == DotText(bs) {
      assert s[i..|s|] == s[i..];
      ReadDots(s, i, [], bs);
      assert [] + bs == bs;
    }
  }

  // ----- the whole text -----

  /** An address whose last two blocks are written as bs; a run of zeros before them may be
      collapsed. */
  function DottedText(blocks: seq<Block>, from: nat, len: nat, bs: seq<nat>): string
    requires |blocks| == 8 && from + len <= 6
  {
    if len > 0 then Colons(blocks[..from]) + "::" + DottedRear(blocks[from + len..6], bs)
    else DottedRear(blocks[..6], bs)
  }

  function DottedRear(front: seq<Block>, bs: seq<nat>): string {
    if front == [] then DotText(bs) else Colons(front) + ":" + DotText(bs)
  }

  /** What the first loop makes of a decimal number: its digits as hexadecimal ones. */
  function AsHex(b: nat): nat {
    if b < 10 then b else 16 * AsHex(b / 10) + b % 10
  }

  lemma {:induction false} AsHexSmall(b: nat)
    requires b < 100
    ensures AsHex(b) <= 0x99
  {
    if b >= 10 { assert AsHex(b / 10) == b / 10; }
  }

  lemma {:induction false} ReadAsHex(s: string, i: nat, done: seq<Block>, compress: Option<nat>, b: nat)
    requires b <= 255 && At(s, i, Repr(b))
    ensures Run(s, i, State(done, compress, 0, true)) == Run(s, i + |Repr(b)|, State(done, compress, AsHex(b), false))
    decreases b
  {
    var c := ('0' as int + b % 10) as char;
    if b < 10 {
      AtOne(s, i, c);
    } else {
      AtParts(s, i, Repr(b / 10), [c]);
      ReadAsHex(s, i, done, compress, b / 10);
      AtOne(s, i + |Repr(b / 10)|, c);
      LastAsHex(s, i + |Repr(b / 10)|, done, compress, b, b / 10);
    }
  }

  lemma {:induction false} LastAsHex(s: string, j: nat, done: seq<Block>, compress: Option<nat>, b: nat, q: nat)
    requires 10 <= b <= 255 && q == b / 10 && j < |s| && s[j] == ('0' as int + b % 10) as char
    ensures Run(s, j, State(done, compress, AsHex(q), false)) == Run(s, j + 1, State(done, compress, AsHex(b), false))
  {
    AsHexSmall(q);
    assert AsHex(b) == 16 * AsHex(q) + b % 10;
    assert HexDigit(s[j]) == Some(b % 10);
  }

  /** The dotted part starts where it should. */
  lemma {:induction false} StartsBehindColon(s: string, i: nat, b: nat)
    requires 0 < i && At(s, i, Repr(b)) && s[i - 1] == ':'
    ensures DottedStart(s, i + |Repr(b)|) == i
    decreases b
  {
    var c := ('0' as int + b % 10) as char;
    if b < 10 {
      AtOne(s, i, c);
    } else {
      AtParts(s, i, Repr(b / 10), [c]);
      StartsBehindColon(s, i, b / 10);
      AtOne(s, i + |Repr(b / 10)|, c);
    }
  }

  /** From the colon in front of the dotted part to the end. */
  lemma {:induction false} ReadQuad(s: string, i: nat, done: seq<Block>, compress: Option<nat>, bs: seq<nat>)
    requires 0 < i <= |s| && s[i - 1] == ':' && |done| <= 6 && (done != [] || compress.Some?)
    requires IsQuad(bs) && s[i..] == DotText(bs)
    ensures Result(s, Run(s, i, State(done, compress, 0, true)))
         == Expand(done + [256 * bs[0] + bs[1], 256 * bs[2] + bs[3]], compress)
  {
    assert s[i..|s|] == s[i..];
    var j := FirstNumber(s, i, bs);
    ReadAsHex(s, i, done, compress, bs[0]);
    StartsBehindColon(s, i, bs[0]);
    DottedIff(s, i, bs);
  }

  /** From the start of some blocks, with a colon behind each, to the end. */
  lemma {:induction false} ReadDottedRear(s: string, i: nat, done: seq<Block>, compress: Option<nat>,
                                          front: seq<Block>, bs: seq<nat>)
    requires i <= |s| && |done| + |front| <= 6 && forall k | 0 <= k < |front| :: front[k] < 0x1_0000
    requires front == [] ==> 0 < i && s[i - 1] == ':' && compress.Some?
    requires IsQuad(bs) && s[i..] == DottedRear(front, bs)
    ensures Result(s, Run(s, i, State(done, compress, 0, true)))
         == Expand(done + front + [256 * bs[0] + bs[1], 256 * bs[2] + bs[3]], compress)
  {
    if front == [] {
      assert done + front == done;
      ReadQuad(s, i, done, compress, bs);
    } else {
      var j := i + |Colons(front)|;
      DottedBehind(s, i, front, bs);
      ReadColonsAndColon(s, i, done, compress, front, j);
      ReadQuad(s, j + 1, done + front, compress, bs);
    }
  }

  lemma {:induction false} ReadColonsAndColon(s: string, i: nat, done: seq<Block>, compress: Option<nat>, front: seq<Block>, j: nat)
    requires front != [] && |done| + |front| <= 7 && (forall k | 0 <= k < |front| :: front[k] < 0x1_0000)
    requires At(s, i, Colons(front)) && j == i + |Colons(front)| && 0 < j < |s| && s[j] == ':' && !Double(s, j)
    ensures Run(s, i, State(done, compress, 0, true)) == Run(s, j + 1, State(done + front, compress, 0, true))
  {
    var n := |front| - 1;
    ReadColons(s, i, done, compress, front);
    ReadColon(s, j, done + front[..n], compress, front[n]);
    assert done + front[..n] + [front[n]] == done + front;
  }

  lemma {:induction false} DottedBehind(s: string, i: nat, front: seq<Block>, bs: seq<nat>)
    requires i <= |s| && front != [] && IsQuad(bs) && s[i..] == Colons(front) + ":" + DotText(bs)
    ensures var j := i + |Colons(front)|;
      && At(s, i, Colons(front)) && 0 < j < |s| && s[j] == ':' && !Double(s, j) && s[j + 1..] == DotText(bs)
  {
    var a, rest, j := Colons(front), DotText(bs), i + |Colons(front)|;
    assert s[i..|s|] == s[i..];
    Concat(a, ":", rest);
    AtParts(s, i, a, ":" + rest);
    AtParts(s, j, ":", rest);
    AtOne(s, j, ':');
    FirstChar(front);
    FirstDigit(bs[0]);
    assert rest[0] == Repr(bs[0])[0];
    AtFirst(s, j + 1, rest);
  }

  lemma {:induction false} FirstDigit(b: nat)
    ensures '0' <= Repr(b)[0] <= '9'
    decreases b
  {
    if b >= 10 { FirstDigit(b / 10); }
  }

  lemma {:induction false} ParseCollapsed(s: string, front: seq<Block>, rear: seq<Block>, bs: seq<nat>)
    requires |front| + |rear| <= 6 && (forall k | 0 <= k < |front| :: front[k] < 0x1_0000)
    requires (forall k | 0 <= k < |rear| :: rear[k] < 0x1_0000) && IsQuad(bs)
    requires s == Colons(front) + "::" + DottedRear(rear, bs)
    ensures Parse(s) == Expand(front + rear + [256 * bs[0] + bs[1], 256 * bs[2] + bs[3]], Some(|front|))
  {
    var head := Colons(front) + "::";
    assert s[..|head|] == head && s[|head|..] == DottedRear(rear, bs);
    assert At(s, 0, head) && head[|head| - 1] == ':';
    ReadFront(s, front);
    ReadDottedRear(s, |head|, front, Some(|front|), rear, bs);
  }

  /** An address whose ending is written in dotted form is parsed back to it, whichever run of zeros
      before the ending is collapsed, if any. */
  lemma {:induction false} ParseDottedText(blocks: seq<Block>, from: nat, len: nat, bs: seq<nat>)
    requires IsAddress(blocks) && from + len <= 6 && ZeroRun(blocks, from, len)
    requires IsQuad(bs) && blocks[6] == 256 * bs[0] + bs[1] && blocks[7] == 256 * bs[2] + bs[3]
    ensures Parse(DottedText(blocks, from, len, bs)) == Some(blocks)
  {
    var s := DottedText(blocks, from, len, bs);
    var last := [256 * bs[0] + bs[1], 256 * bs[2] + bs[3]];
    assert blocks[6..] == last;
    if len > 0 {
      var front, rear := blocks[..from], blocks[from + len..6];
      ParseCollapsed(s, front, rear, bs);
      assert front + rear + last == blocks[..from] + blocks[from + len..];
      Collapsed(blocks, from, len);
    } else {
      ReadDottedRear(s, 0, [], None, blocks[..6], bs);
      assert [] + blocks[..6] + last == blocks;
    }
  }
}
