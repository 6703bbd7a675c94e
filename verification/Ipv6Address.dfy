/** The parser and printer of misc/ipaddr6.h as they work, on the 16 bytes of an address. */
module Ipv6Address {
  import opened Wrappers
  import opened Arithmetic
  import opened ParseNumber
  import opened Ipv6
  import opened Ipv6Dotted
  import opened Ipv6Form
  import opened Ipv6Grammar

  /** (bytes[2 * i] << 8) | bytes[2 * i + 1] */
  function BlockAt(bytes: seq<byte>, i: nat): Block
    requires 2 * i + 1 < |bytes|
  {
    256 * bytes[2 * i] as nat + bytes[2 * i + 1] as nat
  }

  function BlocksOf(bytes: seq<byte>): (blocks: seq<Block>)
    requires |bytes| == 16
    ensures IsAddress(blocks) && forall i | 0 <= i < 8 :: blocks[i] == BlockAt(bytes, i)
  {
    seq(8, i requires 0 <= i < 8 => BlockAt(bytes, i))
  }

  /** The first bytes are those of the given blocks. */
  ghost predicate Written(bytes: seq<byte>, blocks: seq<Block>) {
    2 * |blocks| <= |bytes| && forall i: nat | i < |blocks| :: BlockAt(bytes, i) == blocks[i]
  }

  lemma {:induction false} WrittenIs(bytes: seq<byte>, blocks: seq<Block>)
    requires |bytes| == 16 && |blocks| == 8 && Written(bytes, blocks)
    ensures BlocksOf(bytes) == blocks
  {
  }

  /** The bytes determine the blocks and the blocks the bytes. */
  lemma {:induction false} BlocksInjective(a: seq<byte>, b: seq<byte>)
    requires |a| == 16 && |b| == 16 && BlocksOf(a) == BlocksOf(b)
    ensures a == b
  {
    forall k | 0 <= k < 16 ensures a[k] == b[k] {
      var i := k / 2;
      assert BlocksOf(a)[i] == BlockAt(a, i) && BlocksOf(b)[i] == BlockAt(b, i);
      assert k == 2 * i || k == 2 * i + 1;
    }
  }

  // ----- printing -----

  /** The loop that looks for the zeros to collapse. */
  method FindLongestRun(addr: seq<byte>) returns (largestStart: nat, largestLen: nat)
    requires |addr| == 16
    ensures LongestRun(BlocksOf(addr), largestStart, largestLen)
  {
    ghost var blocks := BlocksOf(addr);
    largestStart, largestLen := 0, 0;
    var currentStart, currentLen: nat := 0, 0;
    var i: nat := 0;
    while i < 8
      invariant i <= 8 && currentStart + currentLen == i && ZeroRun(blocks, currentStart, currentLen)
      invariant currentStart > 0 ==> blocks[currentStart - 1] != 0
      invariant largestStart + largestLen <= i && ZeroRun(blocks, largestStart, largestLen)
      invariant forall f: nat, n: nat | ZeroRun(blocks, f, n) && n > 0 && f + n <= i ::
        n <= largestLen && (n == largestLen ==> largestStart <= f)
    {
      assert blocks[i] == BlockAt(addr, i);
      if addr[2 * i] == 0 && addr[2 * i + 1] == 0 {
        currentLen := currentLen + 1;
        forall f: nat, n: nat | ZeroRun(blocks, f, n) && n > 0 && f + n == i + 1 ensures currentStart <= f {
        }
        if currentLen > largestLen {
          largestStart := currentStart;
          largestLen := currentLen;
        }
      } else {
        forall f: nat, n: nat | ZeroRun(blocks, f, n) && n > 0 ensures f + n != i + 1 {
        }
        currentStart := i + 1;
        currentLen := 0;
      }
      i := i + 1;
    }
  }

  lemma {:induction false} ColonsSnoc(bs: seq<Block>, b: Block)
    requires bs != []
    ensures Colons(bs + [b]) == Colons(bs) + ":" + Hex(b)
  {
    if |bs| == 1 {
      assert (bs + [b])[1..] == [b];
    } else {
      ColonsSnoc(bs[1..], b);
      assert (bs + [b])[1..] == bs[1..] + [b];
    }
  }

  lemma {:induction false} PrefixSnoc(bs: seq<Block>, from: nat, i: nat)
    requires from <= i < |bs|
    ensures Colons(bs[from..i + 1]) == (if i == from then "" else Colons(bs[from..i]) + ":") + Hex(bs[i])
  {
    assert bs[from..i + 1] == bs[from..i] + [bs[i]];
    if i > from { ColonsSnoc(bs[from..i], bs[i]); }
  }

  /** The collapsed text is the front, the rear, and a colon of its own for either that is empty. */
  lemma TextParts(blocks: seq<Block>, from: nat, len: nat)
    requires |blocks| == 8 && from + len <= 8 && len > 1
    ensures var front := if from == 0 then "" else Colons(blocks[..from]) + ":";
      var rear := if from + len == 8 then "" else ":" + Colons(blocks[from + len..]);
      Text(blocks, from, len)
        == front + (if from == 0 then ":" else "") + rear + (if from + len == 8 then ":" else "")
  {
    var a, b := Colons(blocks[..from]), Colons(blocks[from + len..]);
    assert from == 0 ==> a == "";
    assert from + len == 8 ==> b == "";
    assert a + "::" + b == (a + ":") + (":" + b);
  }

  /** ipaddr6_print_addr */
  method PrintAddr(addr: seq<byte>) returns (text: string, ghost from: nat, ghost len: nat)
    requires |addr| == 16
    ensures LongestRun(BlocksOf(addr), from, len) && text == Text(BlocksOf(addr), from, len)
    ensures Lower(text) && Unpadded(text) && (Doubled(text) <==> AdjacentZeros(BlocksOf(addr)))
  {
    var largestStart, largestLen := FindLongestRun(addr);
    TextForm(BlocksOf(addr), largestStart, largestLen);
    from, len := largestStart, largestLen;
    if largestLen > 1 {
      text := PrintCollapsed(addr, largestStart, largestLen);
    } else {
      text := PrintAll(addr);
    }
  }

  method PrintCollapsed(addr: seq<byte>, largestStart: nat, largestLen: nat) returns (text: string)
    requires |addr| == 16 && largestStart + largestLen <= 8 && largestLen > 1
    ensures text == Text(BlocksOf(addr), largestStart, largestLen)
  {
    TextParts(BlocksOf(addr), largestStart, largestLen);
    text := PrintFront(addr, largestStart);
    text := text + if largestStart == 0 then ":" else "";
    var rear := PrintRear(addr, largestStart + largestLen);
    text := text + rear + if largestStart + largestLen == 8 then ":" else "";
  }

  method PrintFront(addr: seq<byte>, end: nat) returns (text: string)
    requires |addr| == 16 && end <= 8
    ensures text == if end == 0 then "" else Colons(BlocksOf(addr)[..end]) + ":"
  {
    ghost var blocks := BlocksOf(addr);
    text := "";
    var i: nat := 0;
    while i < end
      invariant i <= end && text == if i == 0 then "" else Colons(blocks[..i]) + ":"
    {
      PrefixSnoc(blocks, 0, i);
      assert blocks[0..i] == blocks[..i] && blocks[0..i + 1] == blocks[..i + 1];
      text := text + Hex(BlockAt(addr, i)) + ":";
      i := i + 1;
    }
  }

  method PrintRear(addr: seq<byte>, start: nat) returns (text: string)
    requires |addr| == 16 && start <= 8
    ensures text == if start == 8 then "" else ":" + Colons(BlocksOf(addr)[start..])
  {
    ghost var blocks := BlocksOf(addr);
    text := "";
    var i: nat := start;
    while i < 8
      invariant start <= i <= 8 && text == if i == start then "" else ":" + Colons(blocks[start..i])
    {
      PrefixSnoc(blocks, start, i);
      text := text + ":" + Hex(BlockAt(addr, i));
      i := i + 1;
    }
    assert blocks[start..8] == blocks[start..];
  }

  method PrintAll(addr: seq<byte>) returns (text: string)
    requires |addr| == 16
    ensures text == Colons(BlocksOf(addr))
  {
    ghost var blocks := BlocksOf(addr);
    text := "";
    var prefix := "";
    var i: nat := 0;
    while i < 8
      invariant i <= 8 && text == Colons(blocks[..i]) && prefix == if i == 0 then "" else ":"
    {
      PrefixSnoc(blocks, 0, i);
      assert blocks[0..i] == blocks[..i] && blocks[0..i + 1] == blocks[..i + 1];
      text := text + prefix + Hex(BlockAt(addr, i));
      prefix := ":";
      i := i + 1;
    }
    assert blocks[..8] == blocks;
  }

  lemma {:induction false} HexShort(b: Block, n: nat)
    requires b < 0x1_0000 && n == |Hex(b)|
    ensures n <= 4
  {
    if b >= 16 {
      HexAtMost(b / 16, 3);
    }
  }

  lemma {:induction false} HexAtMost(b: Block, n: nat)
    requires b < Power(16, n) && n > 0
    ensures |Hex(b)| <= n
  {
    if b >= 16 { HexAtMost(b / 16, n - 1); }
  }

  lemma {:induction false} ColonsShort(bs: seq<Block>)
    requires forall i | 0 <= i < |bs| :: bs[i] < 0x1_0000
    ensures |Colons(bs)| <= if bs == [] then 0 else 5 * |bs| - 1
  {
    if bs != [] {
      HexShort(bs[0], |Hex(bs[0])|);
      ColonsShort(bs[1..]);
    }
  }

  /** IPADDR6_PRINT_MAX */
  const PRINT_MAX := 44

  /** The text has at most 39 characters; with a prefix of up to three digits, the slash and the
      terminating null that is 44. */
  lemma {:induction false} TextFits(blocks: seq<Block>, from: nat, len: nat)
    requires IsAddress(blocks) && ZeroRun(blocks, from, len)
    ensures |Text(blocks, from, len)| + |"/128"| + 1 <= PRINT_MAX
  {
    ColonsShort(blocks);
    ColonsShort(blocks[..from]);
    ColonsShort(blocks[from + len..]);
  }

  // ----- parsing -----

  /** The parser's variables stand for the state st. */
  ghost predicate Tracks(out: seq<byte>, numBlocks: nat, compressPos: int, block: nat, empty: bool, st: State) {
    && |out| == 16 && numBlocks == |st.done| && Written(out, st.done)
    && compressPos == (if st.compress.Some? then st.compress.value else -1) && compressPos <= numBlocks
    && block == st.block < 0x1_0000 && empty == st.empty
  }

  lemma {:induction false} WrittenMore(out: seq<byte>, out': seq<byte>, done: seq<Block>, block: Block)
    requires |out| == |out'| && Written(out, done) && block < 0x1_0000 && 2 * |done| + 1 < |out|
    requires forall k | 0 <= k < |out| && k != 2 * |done| && k != 2 * |done| + 1 :: out'[k] == out[k]
    requires out'[2 * |done|] as nat == block / 256 && out'[2 * |done| + 1] as nat == block % 256
    ensures Written(out', done + [block])
  {
    forall i: nat | i < |done| + 1 ensures BlockAt(out', i) == (done + [block])[i] {
      if i < |done| { assert BlockAt(out, i) == done[i]; }
    }
  }

  /** out_addr->bytes[2 * num_blocks] = block >> 8; out_addr->bytes[2 * num_blocks + 1] = block & 0xFF */
  method WriteBlock(out: array<byte>, numBlocks: nat, block: Block, ghost done: seq<Block>)
    requires out.Length == 16 && numBlocks == |done| < 8 && Written(out[..], done) && block < 0x1_0000
    modifies out
    ensures Written(out[..], done + [block])
  {
    ghost var before := out[..];
    out[2 * numBlocks] := (block / 256) as byte;
    out[2 * numBlocks + 1] := (block % 256) as byte;
    WrittenMore(before, out[..], done, block);
  }

  /** A colon was seen: the text so far has one whenever blocks or the double colon have been read. */
  predicate ColonSeen(name: string, i: nat, numBlocks: nat, compressPos: int) {
    (numBlocks == 0 && compressPos == -1) || (i <= |name| && ':' in name[..i])
  }

  /** The case of a colon. */
  method ReadColonAt(name: string, i: nat, out: array<byte>, numBlocks: nat, compressPos: int, block: Block, empty: bool,
                     ghost st: State)
    returns (ok: bool, numBlocks': nat, compressPos': int, block': Block, empty': bool)
    requires i < |name| && name[i] == ':' && out.Length == 16 && numBlocks <= 7
    requires Tracks(out[..], numBlocks, compressPos, block, empty, st)
    requires i == 0 ==> st == START
    modifies out
    ensures ok == AfterColon(name, i, st).Some?
    ensures ok ==> Tracks(out[..], numBlocks', compressPos', block', empty', AfterColon(name, i, st).value) && numBlocks' <= 7
  {
    ok, numBlocks', compressPos', block', empty' := false, numBlocks, compressPos, block, empty;
    var isDouble := i + 1 < |name| && name[i + 1] == ':';
    if i > 0 {
      if empty || numBlocks == 7 {
        return;
      }
      WriteBlock(out, numBlocks, block, st.done);
      numBlocks', block', empty' := numBlocks + 1, 0, true;
    } else if !isDouble {
      return;
    }
    if isDouble {
      if compressPos != -1 {
        return;
      }
      compressPos' := numBlocks';
    }
    ok := true;
  }

  /** The case of any other character but a dot. */
  method ReadDigit(c: char, block: Block, ghost st: State) returns (ok: bool, block': Block)
    requires block == st.block < 0x1_0000
    ensures ok == AfterDigit(c, st).Some?
    ensures ok ==> block' < 0x1_0000 && AfterDigit(c, st).value == st.(block := block', empty := false)
  {
    ok, block' := false, block;
    var digit := HexDigit(c);
    if digit.None? {
      return;
    }
    if block > 0xffff / 16 {
      return;
    }
    block' := block * 16;
    if digit.value > 0xffff - block' {
      return;
    }
    block' := block' + digit.value;
    ok := true;
  }

  datatype Next = Reject | Finish | Ipv4Ending

  lemma SeenFurther(name: string, i: nat, j: nat, numBlocks: nat, compressPos: int)
    requires i <= j <= |name| && ColonSeen(name, i, numBlocks, compressPos)
    ensures ColonSeen(name, j, numBlocks, compressPos)
  {
    if i <= |name| && ':' in name[..i] {
      var k :| 0 <= k < i && name[..i][k] == ':';
      assert name[..j][k] == ':';
    }
  }

  lemma SeenHere(name: string, i: nat, j: nat)
    requires i < j <= |name| && name[i] == ':'
    ensures ':' in name[..j]
  {
    assert name[..j][i] == ':';
  }

  /** The first loop of ipaddr6_parse_ipv6_addr. */
  method ReadBlocks(name: string, out: array<byte>)
    returns (next: Next, i: nat, numBlocks: nat, compressPos: int, block: Block, empty: bool, ghost st: State)
    requires out.Length == 16
    modifies out
    ensures Run(name, 0, START) == (match next case Reject => Failed case Finish => AtEnd(st) case Ipv4Ending => AtDot(st, i))
    ensures !next.Reject? ==> Tracks(out[..], numBlocks, compressPos, block, empty, st) && numBlocks <= 7
    ensures next.Ipv4Ending? ==> i < |name| && ColonSeen(name, i, numBlocks, compressPos)
  {
    numBlocks, compressPos, block, empty, i := 0, -1, 0, true, 0;
    st := START;
    while i < |name|
      invariant Run(name, 0, START) == Run(name, i, st) && i <= |name| && numBlocks <= 7
      invariant Tracks(out[..], numBlocks, compressPos, block, empty, st)
      invariant ColonSeen(name, i, numBlocks, compressPos) && (i == 0 ==> st == START)
    {
      if name[i] == '.' {
        return Ipv4Ending, i, numBlocks, compressPos, block, empty, st;
      } else if name[i] == ':' {
        var isDouble := i + 1 < |name| && name[i + 1] == ':';
        var ok;
        ok, numBlocks, compressPos, block, empty := ReadColonAt(name, i, out, numBlocks, compressPos, block, empty, st);
        if !ok {
          return Reject, i, numBlocks, compressPos, block, empty, st;
        }
        st := AfterColon(name, i, st).value;
        SeenHere(name, i, if isDouble then i + 2 else i + 1);
        i := i + 1 + (if isDouble then 1 else 0);
      } else {
        var ok;
        ok, block := ReadDigit(name[i], block, st);
        if !ok {
          return Reject, i, numBlocks, compressPos, block, empty, st;
        }
        empty := false;
        st := AfterDigit(name[i], st).value;
        SeenFurther(name, i, i + 1, numBlocks, compressPos);
        i := i + 1;
      }
    }
    next := Finish;
  }

  /** The four numbers that bytes hold. */
  ghost predicate Hold(bytes: seq<byte>, bs: seq<nat>) {
    |bytes| == 4 && IsQuad(bs) && forall k | 0 <= k < 4 :: bytes[k] as nat == bs[k]
  }

  /** The loop of ipv4_ending: accepts exactly four numbers up to 255, without leading zeros, with
      dots between them, and returns those. */
  method ReadDotted(name: string, from: nat) returns (bytes: Option<seq<byte>>)
    requires from <= |name|
    ensures forall bs: seq<nat> | IsQuad(bs) :: name[from..] == DotText(bs) <==> bytes.Some? && Hold(bytes.value, bs)
    ensures bytes.Some? == Dotted(name, from, [], 0, true).Some?
    ensures bytes.Some? ==> Hold(bytes.value, Dotted(name, from, [], 0, true).value)
  {
    bytes := ReadNumbers(name, from);
    forall bs: seq<nat> | IsQuad(bs)
      ensures name[from..] == DotText(bs) <==> bytes.Some? && Hold(bytes.value, bs)
    {
      DottedIff(name, from, bs);
      if bytes.Some? {
        DottedIff(name, from, Dotted(name, from, [], 0, true).value);
        assert Hold(bytes.value, bs) ==> bs == Dotted(name, from, [], 0, true).value;
      }
    }
    if bytes.Some? {
      DottedIff(name, from, Dotted(name, from, [], 0, true).value);
    }
  }

  method ReadNumbers(name: string, from: nat) returns (bytes: Option<seq<byte>>)
    requires from <= |name|
    ensures bytes.Some? == Dotted(name, from, [], 0, true).Some?
    ensures bytes.Some? ==>
      && |bytes.value| == |Dotted(name, from, [], 0, true).value| == 4
      && forall k | 0 <= k < 4 :: bytes.value[k] as nat == Dotted(name, from, [], 0, true).value[k]
  {
    var cells := new byte[4](_ => 0);
    var curByte: nat := 0;
    var b: nat := 0;
    var empty := true;
    var i := from;
    ghost var read: seq<nat> := [];
    while i < |name|
      invariant from <= i <= |name| && Dotted(name, from, [], 0, true) == Dotted(name, i, read, b, empty)
      invariant curByte == |read| <= 3 && b <= 0xff
      invariant forall k | 0 <= k < curByte :: cells[k] as nat == read[k]
    {
      if name[i] == '.' {
        if empty || curByte == 3 {
          return None;
        }
        cells[curByte] := b as byte;
        read := read + [b];
        curByte := curByte + 1;
        b := 0;
        empty := true;
      } else {
        if !empty && b == 0 {
          return None;
        }
        var digit := DecimalDigit(name[i]);
        if digit.None? {
          return None;
        }
        if b > 0xff / 10 {
          return None;
        }
        if digit.value > 0xff - b * 10 {
          return None;
        }
        b := b * 10 + digit.value;
        empty := false;
      }
      i := i + 1;
    }
    if curByte != 3 || empty {
      return None;
    }
    cells[curByte] := b as byte;
    bytes := Some(cells[..]);
  }

  /** The label ipv4_done. */
  method ExpandInPlace(out: array<byte>, numBlocks: nat, compressPos: int, ghost done: seq<Block>, ghost compress: Option<nat>)
    returns (ok: bool)
    requires out.Length == 16 && numBlocks == |done| <= 8 && Written(out[..], done)
    requires compressPos == (if compress.Some? then compress.value else -1) && compressPos <= numBlocks
    modifies out
    ensures ok == Expand(done, compress).Some?
    ensures ok ==> BlocksOf(out[..]) == Expand(done, compress).value
  {
    var c: nat := 0;
    if compressPos == -1 {
      if numBlocks != 8 {
        return false;
      }
    } else {
      c := compressPos;
    }
    var numRear := numBlocks - c;
    ghost var before := out[..];
    forall k | 0 <= k < 2 * numRear {
      out[2 * (8 - numRear) + k] := out[2 * c + k];
    }
    ghost var moved := out[..];
    forall k | 0 <= k < 2 * (8 - numRear - c) {
      out[2 * c + k] := 0;
    }
    assert out[2 * c..2 * (8 - numRear)] == seq(2 * (8 - numRear) - 2 * c, _ => 0);
    Expanded(before, moved, out[..], done, c);
    if compress.None? {
      assert done[..0] + seq(0, _ => 0) + done[0..] == done;
    }
    ok := true;
  }

  lemma {:induction false} Expanded(before: seq<byte>, moved: seq<byte>, after: seq<byte>, done: seq<Block>, c: nat)
    requires |before| == |moved| == |after| == 16 && c <= |done| <= 8 && Written(before, done)
    requires var rear := 2 * (8 - (|done| - c));
      && moved[..rear] == before[..rear] && moved[rear..] == before[2 * c..2 * |done|]
      && after[..2 * c] == moved[..2 * c] && after[2 * c..rear] == seq(rear - 2 * c, _ => 0) && after[rear..] == moved[rear..]
    ensures BlocksOf(after) == done[..c] + seq(8 - |done|, _ => 0) + done[c..]
  {
    var r := |done| - c;
    var rear := 2 * (8 - r);
    var blocks := done[..c] + seq(8 - |done|, _ => 0) + done[c..];
    forall i: nat | i < 8 ensures BlockAt(after, i) == blocks[i] {
      if i < c {
        FrontKept(before, moved, after, done, c, rear, i);
      } else if i < 8 - r {
        SamePair(after[2 * c..rear], after, c, i - c);
      } else {
        RearMoved(before, moved, after, done, c, rear, 8 - r, i - (8 - r));
      }
    }
    WrittenIs(after, blocks);
  }

  lemma FrontKept(before: seq<byte>, moved: seq<byte>, after: seq<byte>, done: seq<Block>, c: nat, rear: nat, i: nat)
    requires |before| == |moved| == |after| == 16 && i < c <= |done| <= 8 && 2 * c <= rear <= 16 && Written(before, done)
    requires moved[..rear] == before[..rear] && after[..2 * c] == moved[..2 * c]
    ensures BlockAt(after, i) == done[i]
  {
    assert BlockAt(before, i) == done[i];
    SamePair(after[..2 * c], after, 0, i);
    SamePair(moved[..2 * c], moved, 0, i);
    SamePair(moved[..rear], moved, 0, i);
    SamePair(before[..rear], before, 0, i);
  }

  lemma RearMoved(before: seq<byte>, moved: seq<byte>, after: seq<byte>, done: seq<Block>, c: nat, rear: nat, at: nat, j: nat)
    requires |before| == |moved| == |after| == 16 && c + j < |done| <= 8 && Written(before, done)
    requires rear == 2 * at && at + |done| - c == 8
    requires moved[rear..] == before[2 * c..2 * |done|] && after[rear..] == moved[rear..]
    ensures BlockAt(after, at + j) == done[c + j]
  {
    SamePair(after[rear..], after, at, j);
    SamePair(moved[rear..], moved, at, j);
    SamePair(before[2 * c..2 * |done|], before, c, j);
    assert BlockAt(before, c + j) == done[c + j];
  }

  lemma SamePair(part: seq<byte>, whole: seq<byte>, at: nat, j: nat)
    requires 2 * at + |part| <= |whole| && part == whole[2 * at..2 * at + |part|] && 2 * j + 1 < |part|
    ensures BlockAt(part, j) == BlockAt(whole, at + j)
  {
  }

  /** ipaddr6_parse_ipv6_addr: accepts exactly the texts that stand for an address, and then all 16
      bytes are that address's, whatever they were before. */
  method ParseAddr(name: string, out: array<byte>) returns (ok: bool)
    requires out.Length == 16
    modifies out
    ensures forall blocks: seq<Block> :: StandsFor(name, blocks) <==> ok && BlocksOf(out[..]) == blocks
    ensures ok == Parse(name).Some?
    ensures ok ==> BlocksOf(out[..]) == Parse(name).value
  {
    ok := ParseBlocks(name, out);
    forall blocks: seq<Block> ensures StandsFor(name, blocks) <==> ok && BlocksOf(out[..]) == blocks {
      ParseIff(name, blocks);
    }
  }

  method ParseBlocks(name: string, out: array<byte>) returns (ok: bool)
    requires out.Length == 16
    modifies out
    ensures ok == Parse(name).Some?
    ensures ok ==> BlocksOf(out[..]) == Parse(name).value
  {
    var next, i, numBlocks, compressPos, block, empty;
    ghost var st;
    next, i, numBlocks, compressPos, block, empty, st := ReadBlocks(name, out);
    match next {
      case Reject =>
        ok := false;
      case Finish =>
        ghost var done := st.done;
        if !empty {
          WriteBlock(out, numBlocks, block, st.done);
          numBlocks, done := numBlocks + 1, st.done + [block];
        } else if numBlocks != compressPos {
          return false;
        }
        ok := ExpandInPlace(out, numBlocks, compressPos, done, st.compress);
      case Ipv4Ending =>
        ok := ParseIpv4Ending(name, i, out, numBlocks, compressPos, empty, block, st);
    }
  }

  method ParseIpv4Ending(name: string, dot: nat, out: array<byte>, numBlocks: nat, compressPos: int, empty: bool,
                         ghost block: Block, ghost st: State)
    returns (ok: bool)
    requires dot < |name| && ColonSeen(name, dot, numBlocks, compressPos) && numBlocks <= 7
    requires out.Length == 16 && Tracks(out[..], numBlocks, compressPos, block, empty, st)
    modifies out
    ensures ok == Result(name, AtDot(st, dot)).Some?
    ensures ok ==> BlocksOf(out[..]) == Result(name, AtDot(st, dot)).value
  {
    if empty || (numBlocks == 0 && compressPos == -1) {
      return false;
    }
    var i := FindDottedStart(name, dot);
    var bytes := ReadDotted(name, i);
    if bytes.None? {
      return false;
    }
    if 8 - numBlocks < 2 {
      return false;
    }
    var b := bytes.value;
    WriteBytes(out, numBlocks, b, st.done);
    ghost var last := [256 * b[0] as nat + b[1] as nat, 256 * b[2] as nat + b[3] as nat];
    DottedResult(name, dot, st, i, Dotted(name, i, [], 0, true).value, last);
    ok := ExpandInPlace(out, numBlocks + 2, compressPos, st.done + last, st.compress);
  }

  lemma DottedResult(name: string, dot: nat, st: State, i: nat, bs: seq<nat>, last: seq<Block>)
    requires dot < |name| && i == DottedStart(name, dot) && Dotted(name, i, [], 0, true) == Some(bs) && |bs| == 4
    requires !st.empty && (st.done != [] || st.compress.Some?) && |st.done| <= 6
    requires last == [256 * bs[0] + bs[1], 256 * bs[2] + bs[3]]
    ensures Result(name, AtDot(st, dot)) == Expand(st.done + last, st.compress)
  {
  }

  /** Back to the character behind the last colon. */
  method FindDottedStart(name: string, dot: nat) returns (i: nat)
    requires dot <= |name| && ':' in name[..dot]
    ensures i == DottedStart(name, dot)
  {
    i := dot;
    while name[i - 1] != ':'
      invariant 0 < i <= dot && ':' in name[..i] && DottedStart(name, dot) == DottedStart(name, i)
      decreases i
    {
      assert name[..i] == name[..i - 1] + [name[i - 1]];
      i := i - 1;
    }
  }

  /** memcpy(out_addr->bytes + 2 * num_blocks, bytes, 4) */
  method WriteBytes(out: array<byte>, numBlocks: nat, b: seq<byte>, ghost done: seq<Block>)
    requires out.Length == 16 && numBlocks == |done| <= 6 && Written(out[..], done) && |b| == 4
    modifies out
    ensures Written(out[..], done + [256 * b[0] as nat + b[1] as nat, 256 * b[2] as nat + b[3] as nat])
  {
    ghost var high, low := 256 * b[0] as nat + b[1] as nat, 256 * b[2] as nat + b[3] as nat;
    WritePair(out, numBlocks, b[0], b[1], done);
    WritePair(out, numBlocks + 1, b[2], b[3], done + [high]);
    assert done + [high] + [low] == done + [high, low];
  }

  method WritePair(out: array<byte>, numBlocks: nat, hi: byte, lo: byte, ghost done: seq<Block>)
    requires out.Length == 16 && numBlocks == |done| < 8 && Written(out[..], done)
    modifies out
    ensures Written(out[..], done + [256 * hi as nat + lo as nat])
  {
    ghost var before := out[..];
    out[2 * numBlocks] := hi;
    out[2 * numBlocks + 1] := lo;
    WrittenMore(before, out[..], done, 256 * hi as nat + lo as nat);
  }

  /** Printing any address and parsing the text gives the address back. */
  method RoundTrip(addr: seq<byte>, out: array<byte>) returns (ok: bool)
    requires |addr| == 16 && out.Length == 16
    modifies out
    ensures ok && out[..] == addr
  {
    var text;
    ghost var from, len;
    text, from, len := PrintAddr(addr);
    ParseText(BlocksOf(addr), from, len);
    ok := ParseAddr(text, out);
    BlocksInjective(out[..], addr);
  }

  // ----- addresses with a prefix -----

  /** ipaddr6_parse_ipv6_prefix */
  method ParsePrefix(str: string) returns (prefix: Option<nat>)
    ensures prefix.Some? <==> str != "" && Digits(10, str) && Value(10, str) <= 128
    ensures prefix.Some? ==> prefix.value == Value(10, str)
  {
    var d := ParseUnsignedInteger(str);
    if d.None? || d.value > 128 {
      return None;
    }
    prefix := d;
  }

  /** The position of the first c, or the length. */
  function FindChar(s: string, c: char): (i: nat)
    ensures i <= |s| && c !in s[..i] && (i < |s| ==> s[i] == c)
  {
    if s == "" || s[0] == c then 0 else 1 + FindChar(s[1..], c)
  }

  /** ipaddr6_parse_ipv6_ifaddr */
  method ParseIfaddr(str: string, out: array<byte>) returns (prefix: Option<nat>)
    requires out.Length == 16
    modifies out
    ensures var slash := FindChar(str, '/');
      && (prefix.Some? <==>
            && slash < |str| && Parse(str[..slash]).Some?
            && str[slash + 1..] != "" && Digits(10, str[slash + 1..]) && Value(10, str[slash + 1..]) <= 128)
      && (prefix.Some? ==> BlocksOf(out[..]) == Parse(str[..slash]).value && prefix.value == Value(10, str[slash + 1..]))
  {
    var slash := FindChar(str, '/');
    if slash == |str| {
      return None;
    }
    var ok := ParseAddr(str[..slash], out);
    if !ok {
      return None;
    }
    prefix := ParsePrefix(str[slash + 1..]);
  }

  /** ipaddr6_print_ifaddr */
  method PrintIfaddr(addr: seq<byte>, prefix: nat) returns (text: string, ghost from: nat, ghost len: nat)
    requires |addr| == 16 && prefix <= 128
    ensures LongestRun(BlocksOf(addr), from, len)
    ensures text == Text(BlocksOf(addr), from, len) + "/" + Repr(prefix) && |text| + 1 <= PRINT_MAX
  {
    text, from, len := PrintAddr(addr);
    TextFits(BlocksOf(addr), from, len);
    PrefixShort(prefix);
    text := text + "/" + Repr(prefix);
  }

  lemma {:induction false} PrefixShort(prefix: nat)
    requires prefix < 1000
    ensures |Repr(prefix)| <= 3
  {
    if prefix >= 10 {
      assert |Repr(prefix)| == |Repr(prefix / 10)| + 1;
      if prefix / 10 >= 10 {
        assert |Repr(prefix / 10)| == |Repr(prefix / 10 / 10)| + 1;
      }
    }
  }

  lemma {:induction false} NoSlash(bs: seq<Block>)
    ensures '/' !in Colons(bs)
  {
    if bs != [] {
      NoSlashHex(bs[0]);
      NoSlash(bs[1..]);
    }
  }

  lemma {:induction false} NoSlashHex(b: Block)
    ensures '/' !in Hex(b)
  {
    if b >= 16 { NoSlashHex(b / 16); }
  }

  lemma {:induction false} FirstSlash(text: string, rest: string)
    requires '/' !in text
    ensures FindChar(text + "/" + rest, '/') == |text|
  {
    var s := text + "/" + rest;
    if text != "" {
      assert s[1..] == text[1..] + "/" + rest && text[0] in text;
      FirstSlash(text[1..], rest);
    }
  }

  /** The same for an address with a prefix from 0 to 128. */
  method IfaddrRoundTrip(addr: seq<byte>, prefix: nat, out: array<byte>) returns (back: Option<nat>)
    requires |addr| == 16 && out.Length == 16 && prefix <= 128
    modifies out
    ensures back == Some(prefix) && out[..] == addr
  {
    var text;
    ghost var from, len;
    text, from, len := PrintIfaddr(addr, prefix);
    ghost var blocks := BlocksOf(addr);
    ghost var head := Text(blocks, from, len);
    ParseText(blocks, from, len);
    NoSlash(blocks);
    NoSlash(blocks[..from]);
    NoSlash(blocks[from + len..]);
    FirstSlash(head, Repr(prefix));
    ReprValue(prefix);
    assert text[..|head|] == head && text[|head| + 1..] == Repr(prefix);
    back := ParseIfaddr(text, out);
    BlocksInjective(out[..], addr);
  }
}
