/** The text form of IPv6 addresses, misc/ipaddr6.h (section 2.2 of RFC 4291, section 4 of RFC 5952). */
module Ipv6 {
  import opened Wrappers
  import opened ParseNumber

  /** A 16-bit block of an address. */
  type Block = nat

  predicate IsAddress(blocks: seq<Block>) {
    |blocks| == 8 && forall i | 0 <= i < 8 :: blocks[i] < 0x1_0000
  }

  // ----- printing -----

  function HexChar(d: nat): (c: char)
    requires d < 16
    ensures HexDigit(c) == Some(d)
  {
    if d < 10 then ('0' as int + d) as char else ('a' as int + (d - 10)) as char
  }

  /** PRIx16 */
  function Hex(b: nat): (s: string)
    ensures s != "" && HexDigit(s[0]).Some?
  {
    if b < 16 then [HexChar(b)] else Hex(b / 16) + [HexChar(b % 16)]
  }

  /** The blocks with colons between them. */
  function Colons(blocks: seq<Block>): string {
    if blocks == [] then ""
    else if |blocks| == 1 then Hex(blocks[0])
    else Hex(blocks[0]) + ":" + Colons(blocks[1..])
  }

  predicate ZeroRun(blocks: seq<Block>, from: nat, len: nat) {
    from + len <= |blocks| && forall i | from <= i < from + len :: blocks[i] == 0
  }

  /** The run of zero blocks that is longest, and the leftmost of those. */
  ghost predicate LongestRun(blocks: seq<Block>, from: nat, len: nat) {
    && ZeroRun(blocks, from, len)
    && forall f: nat, n: nat | ZeroRun(blocks, f, n) && n > 0 :: n <= len && (n == len ==> from <= f)
  }

  /** The text of an address whose longest run of zero blocks is known: a run of one is not
      collapsed. */
  function Text(blocks: seq<Block>, from: nat, len: nat): string
    requires from + len <= |blocks|
  {
    if len > 1 then Colons(blocks[..from]) + "::" + Colons(blocks[from + len..]) else Colons(blocks)
  }

  // ----- parsing: the blocks -----

  /** num_blocks and the bytes written, compress_pos, block and empty. */
  datatype State = State(done: seq<Block>, compress: Option<nat>, block: Block, empty: bool)

  /** How the first loop ends: with an error, at the end of the text, or at a dot. */
  datatype Ending = Failed | AtEnd(st: State) | AtDot(st: State, i: nat)

  const START := State([], None, 0, true)

  predicate Double(s: string, i: nat) {
    i + 1 < |s| && s[i + 1] == ':'
  }

  /** A colon at position i. */
  function AfterColon(s: string, i: nat, st: State): Option<State> {
    if i > 0 then
      if st.empty || |st.done| == 7 then None
      else if Double(s, i) && st.compress.Some? then None
      else
        var done := st.done + [st.block];
        Some(State(done, if Double(s, i) then Some(|done|) else st.compress, 0, true))
    else if !Double(s, i) then None
    else Some(st.(compress := Some(0)))
  }

  /** Any other character but a dot. */
  function AfterDigit(c: char, st: State): Option<State> {
    var digit := HexDigit(c);
    if digit.None? || st.block > 0xffff / 16 then None
    else Some(st.(block := st.block * 16 + digit.value, empty := false))
  }

  function Run(s: string, i: nat, st: State): Ending
    decreases |s| - i
  {
    if i >= |s| then AtEnd(st)
    else if s[i] == '.' then AtDot(st, i)
    else if s[i] == ':' then
      var next := AfterColon(s, i, st);
      if next.None? then Failed
      else if Double(s, i) then Run(s, i + 2, next.value)
      else Run(s, i + 1, next.value)
    else
      var next := AfterDigit(s[i], st);
      if next.None? then Failed else Run(s, i + 1, next.value)
  }

  // ----- parsing: a dotted ending -----

  /** Where the dotted part starts: behind the last colon before i. */
  function DottedStart(s: string, i: nat): (r: nat)
    requires i <= |s|
    ensures r <= i
  {
    if i == 0 || s[i - 1] == ':' then i else DottedStart(s, i - 1)
  }

  function Dotted(s: string, i: nat, bytes: seq<nat>, b: nat, empty: bool): Option<seq<nat>>
    decreases |s| - i
  {
    if i >= |s| then
      if |bytes| != 3 || empty then None else Some(bytes + [b])
    else if s[i] == '.' then
      if empty || |bytes| == 3 then None else Dotted(s, i + 1, bytes + [b], 0, true)
    else
      var digit := DecimalDigit(s[i]);
      if (!empty && b == 0) || digit.None? || b > 0xff / 10 || digit.value > 0xff - b * 10 then None
      else Dotted(s, i + 1, bytes, b * 10 + digit.value, false)
  }

  // ----- parsing: the result -----

  /** What the label ipv4_done does with the blocks found. */
  function Expand(done: seq<Block>, compress: Option<nat>): Option<seq<Block>> {
    match compress
    case None => if |done| == 8 then Some(done) else None
    case Some(c) =>
      if c <= |done| <= 8 then Some(done[..c] + seq(8 - |done|, _ => 0) + done[c..]) else None
  }

  function Result(s: string, e: Ending): Option<seq<Block>> {
    match e
    case Failed => None
    case AtEnd(st) =>
      if !st.empty then Expand(st.done + [st.block], st.compress)
      else if st.compress != Some(|st.done|) then None
      else Expand(st.done, st.compress)
    case AtDot(st, i) =>
      if st.empty || (st.done == [] && st.compress.None?) || i > |s| then None
      else
        var bytes := Dotted(s, DottedStart(s, i), [], 0, true);
        if bytes.None? || |bytes.value| != 4 || 8 - |st.done| < 2 then None
        else
          Expand(st.done + [256 * bytes.value[0] + bytes.value[1], 256 * bytes.value[2] + bytes.value[3]], st.compress)
  }

  /** The address that a text stands for, if any. */
  function Parse(s: string): Option<seq<Block>> {
    Result(s, Run(s, 0, START))
  }

  // ----- the printer's output is read back -----

  predicate At(s: string, i: nat, t: string) {
    i + |t| <= |s| && s[i..i + |t|] == t
  }

  lemma AtParts(s: string, i: nat, t: string, u: string)
    ensures At(s, i, t + u) <==> At(s, i, t) && At(s, i + |t|, u)
  {
    if i + |t + u| <= |s| {
      var w := s[i..i + |t + u|];
      assert w == s[i..i + |t|] + s[i + |t|..i + |t| + |u|];
      assert s[i..i + |t|] == w[..|t|] && s[i + |t|..i + |t| + |u|] == w[|t|..];
      assert (t + u)[..|t|] == t && (t + u)[|t|..] == u;
    }
  }

  lemma AtOne(s: string, i: nat, c: char)
    ensures At(s, i, [c]) <==> i < |s| && s[i] == c
  {
    if i < |s| { assert s[i..i + 1] == [s[i]]; }
  }

  lemma {:induction false} ReadHex(s: string, i: nat, done: seq<Block>, compress: Option<nat>, b: Block)
    requires b < 0x1_0000 && At(s, i, Hex(b))
    ensures Run(s, i, State(done, compress, 0, true)) == Run(s, i + |Hex(b)|, State(done, compress, b, false))
    decreases b
  {
    if b < 16 {
      AtOne(s, i, HexChar(b));
      assert Hex(b) == [HexChar(b)];
    } else {
      AtParts(s, i, Hex(b / 16), [HexChar(b % 16)]);
      ReadHex(s, i, done, compress, b / 16);
      AtOne(s, i + |Hex(b / 16)|, HexChar(b % 16));
    }
  }

  /** Reads blocks up to the last digit of the last one. */
  lemma {:induction false} ReadColons(s: string, i: nat, done: seq<Block>, compress: Option<nat>, bs: seq<Block>)
    requires bs != [] && |done| + |bs| <= 8 && (forall k | 0 <= k < |bs| :: bs[k] < 0x1_0000)
    requires At(s, i, Colons(bs))
    ensures Run(s, i, State(done, compress, 0, true)) == Run(s, i + |Colons(bs)|, LastRead(done, compress, bs))
    decreases |bs|
  {
    if |bs| == 1 {
      ReadHex(s, i, done, compress, bs[0]);
      assert done + bs[..0] == done;
    } else {
      var j := ReadBlock(s, i, done, compress, bs);
      var rest := bs[1..];
      ReadColons(s, j, done + [bs[0]], compress, rest);
      LastReadStep(done, compress, bs);
    }
  }

  /** One block and the colon behind it. */
  lemma {:induction false} ReadBlock(s: string, i: nat, done: seq<Block>, compress: Option<nat>, bs: seq<Block>)
    returns (j: nat)
    requires |bs| > 1 && |done| < 7 && bs[0] < 0x1_0000 && At(s, i, Colons(bs))
    ensures At(s, j, Colons(bs[1..])) && i + |Colons(bs)| == j + |Colons(bs[1..])|
    ensures Run(s, i, State(done, compress, 0, true)) == Run(s, j, State(done + [bs[0]], compress, 0, true))
  {
    ReadHexFirst(s, i, done, compress, bs);
    j := i + |Hex(bs[0])| + 1;
    ReadColon(s, j - 1, done, compress, bs[0]);
  }

  /** The state behind the last digit of the blocks bs. */
  function LastRead(done: seq<Block>, compress: Option<nat>, bs: seq<Block>): State
    requires bs != []
  {
    State(done + bs[..|bs| - 1], compress, bs[|bs| - 1], false)
  }

  lemma LastReadStep(done: seq<Block>, compress: Option<nat>, bs: seq<Block>)
    requires |bs| > 1
    ensures LastRead(done + [bs[0]], compress, bs[1..]) == LastRead(done, compress, bs)
  {
    assert done + [bs[0]] + bs[1..][..|bs| - 2] == done + bs[..|bs| - 1];
  }

  lemma {:induction false} ReadHexFirst(s: string, i: nat, done: seq<Block>, compress: Option<nat>, bs: seq<Block>)
    requires bs != [] && bs[0] < 0x1_0000 && At(s, i, Colons(bs))
    ensures var j := i + |Hex(bs[0])|;
      && Run(s, i, State(done, compress, 0, true)) == Run(s, j, State(done, compress, bs[0], false))
      && (|bs| > 1 ==> j < |s| && s[j] == ':' && !Double(s, j) && At(s, j + 1, Colons(bs[1..]))
                       && i + |Colons(bs)| == j + 1 + |Colons(bs[1..])|)
      && j > 0
  {
    var h, j := Hex(bs[0]), i + |Hex(bs[0])|;
    if |bs| > 1 {
      var rest := Colons(bs[1..]);
      Concat(h, ":", rest);
      AtParts(s, i, h, ":" + rest);
      AtParts(s, j, ":", rest);
      AtOne(s, j, ':');
      FirstChar(bs[1..]);
      AtFirst(s, j + 1, rest);
    }
    ReadHex(s, i, done, compress, bs[0]);
  }

  lemma {:induction false} FirstChar(bs: seq<Block>)
    requires bs != []
    ensures Colons(bs) != "" && HexDigit(Colons(bs)[0]).Some?
  {
  }

  lemma AtFirst(s: string, i: nat, t: string)
    requires At(s, i, t) && t != ""
    ensures i < |s| && s[i] == t[0]
  {
    assert s[i..i + |t|][0] == s[i];
  }

  lemma {:induction false} ReadColon(s: string, j: nat, done: seq<Block>, compress: Option<nat>, b: Block)
    requires 0 < j < |s| && s[j] == ':' && !Double(s, j) && |done| < 7
    ensures Run(s, j, State(done, compress, b, false)) == Run(s, j + 1, State(done + [b], compress, 0, true))
  {
  }

  lemma {:induction false} ReadDouble(s: string, j: nat, done: seq<Block>, b: Block)
    requires 0 < j && At(s, j, "::") && |done| < 7
    ensures Run(s, j, State(done, None, b, false)) == Run(s, j + 2, State(done + [b], Some(|done| + 1), 0, true))
  {
    assert s[j..j + 2][0] == s[j] && s[j..j + 2][1] == s[j + 1];
  }

  lemma {:induction false} ReadLeadingDouble(s: string)
    requires At(s, 0, "::")
    ensures Run(s, 0, START) == Run(s, 2, State([], Some(0), 0, true))
  {
    assert s[0..2][0] == s[0] && s[0..2][1] == s[1];
  }

  /** Up to and including the double colon. */
  lemma {:induction false} ReadFront(s: string, bs: seq<Block>)
    requires |bs| < 7 && (forall k | 0 <= k < |bs| :: bs[k] < 0x1_0000) && At(s, 0, Colons(bs) + "::")
    ensures Run(s, 0, START) == Run(s, |Colons(bs)| + 2, State(bs, Some(|bs|), 0, true))
  {
    AtParts(s, 0, Colons(bs), "::");
    if bs == [] {
      ReadLeadingDouble(s);
    } else {
      var n := |bs| - 1;
      FirstChar(bs);
      ReadColons(s, 0, [], None, bs);
      assert [] + bs[..n] == bs[..n] && bs[..n] + [bs[n]] == bs;
      ReadDouble(s, |Colons(bs)|, bs[..n], bs[n]);
    }
  }

  /** The rest, up to the end. */
  lemma {:induction false} ReadRear(s: string, i: nat, done: seq<Block>, compress: Option<nat>, bs: seq<Block>)
    requires |done| + |bs| <= 8 && forall k | 0 <= k < |bs| :: bs[k] < 0x1_0000
    requires At(s, i, Colons(bs)) && i + |Colons(bs)| == |s| && (bs == [] ==> compress == Some(|done|))
    ensures Result(s, Run(s, i, State(done, compress, 0, true))) == Expand(done + bs, compress)
  {
    if bs == [] {
      assert done + bs == done;
    } else {
      var n := |bs| - 1;
      ReadColons(s, i, done, compress, bs);
      assert done + bs[..n] + [bs[n]] == done + bs;
    }
  }

  /** Printing an address and parsing the text gives the address, whichever run of zeros of at
      least two blocks was collapsed. */
  lemma {:induction false} ParseText(blocks: seq<Block>, from: nat, len: nat)
    requires IsAddress(blocks) && ZeroRun(blocks, from, len)
    ensures Parse(Text(blocks, from, len)) == Some(blocks)
  {
    var s := Text(blocks, from, len);
    if len > 1 {
      var front, rear := blocks[..from], blocks[from + len..];
      var head := Colons(front) + "::";
      assert s[..|head|] == head && s[|head|..] == Colons(rear);
      assert At(s, 0, head) && At(s, |head|, Colons(rear));
      ReadFront(s, front);
      ReadRear(s, |head|, front, Some(|front|), rear);
      Collapsed(blocks, from, len);
    } else {
      assert At(s, 0, Colons(blocks));
      ReadRear(s, 0, [], None, blocks);
      assert [] + blocks == blocks;
    }
  }

  lemma Collapsed(blocks: seq<Block>, from: nat, len: nat)
    requires IsAddress(blocks) && ZeroRun(blocks, from, len)
    ensures Expand(blocks[..from] + blocks[from + len..], Some(from)) == Some(blocks)
  {
    var done := blocks[..from] + blocks[from + len..];
    assert done[..from] == blocks[..from] && done[from..] == blocks[from + len..];
    var zeros := seq(8 - |done|, _ => 0);
    assert zeros == blocks[from..from + len];
    assert blocks == blocks[..from] + blocks[from..from + len] + blocks[from + len..];
  }
}
