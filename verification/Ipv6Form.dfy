/** What the text of an IPv6 address looks like, character by character (section 4 of RFC 5952). */
module Ipv6Form {
  import opened Wrappers
  import opened ParseNumber
  import opened Ipv6

  /** Colons and digits, the letters in lower case (section 4.3). */
  predicate Lower(s: string) {
    forall i | 0 <= i < |s| :: s[i] == ':' || '0' <= s[i] <= '9' || 'a' <= s[i] <= 'f'
  }

  /** A zero at the start of a field is all of the field (section 4.1). */
  predicate Unpadded(s: string) {
    forall i | 0 <= i < |s| && LeadingZero(s, i) :: i + 1 == |s| || s[i + 1] == ':'
  }

  predicate LeadingZero(s: string, i: nat)
    requires i < |s|
  {
    s[i] == '0' && (i == 0 || s[i - 1] == ':')
  }

  /** There is a double colon. */
  predicate Doubled(s: string) {
    exists i :: 0 <= i < |s| - 1 && s[i] == ':' && s[i + 1] == ':'
  }

  predicate Fields(s: string) {
    Lower(s) && Unpadded(s) && !Doubled(s) && (s != "" ==> s[0] != ':' && s[|s| - 1] != ':')
  }

  /** A field is hexadecimal digits, the most significant first, and starts with a zero only if it is
      zero. */
  lemma {:induction false} HexDigits(b: nat)
    ensures Lower(Hex(b)) && (forall i | 0 <= i < |Hex(b)| :: Hex(b)[i] != ':')
    ensures Hex(b)[|Hex(b)| - 1] == "0123456789abcdef"[b % 16]
    ensures Hex(b)[..|Hex(b)| - 1] == if b < 16 then "" else Hex(b / 16)
    ensures Hex(b)[0] == '0' <==> b == 0
    ensures b == 0 ==> |Hex(b)| == 1
  {
    var d := b % 16;
    assert HexChar(d) == "0123456789abcdef"[d] by {
      if d < 10 { assert "0123456789abcdef"[d] as int == '0' as int + d; }
      else { assert "0123456789abcdef"[d] as int == 'a' as int + (d - 10); }
    }
    if b >= 16 {
      HexDigits(b / 16);
      assert Hex(b) == Hex(b / 16) + [HexChar(d)];
    }
  }

  lemma {:induction false} HexFields(b: nat)
    ensures Fields(Hex(b)) && Hex(b) != ""
  {
    HexDigits(b);
  }

  lemma JoinLower(a: string, b: string)
    requires Lower(a) && Lower(b)
    ensures Lower(a + ":" + b)
  {
  }

  lemma JoinUnpadded(a: string, b: string)
    requires Unpadded(a) && Unpadded(b)
    ensures Unpadded(a + ":" + b)
  {
    var s := a + ":" + b;
    forall i | 0 <= i < |s| && LeadingZero(s, i) ensures i + 1 == |s| || s[i + 1] == ':' {
      if i < |a| {
        assert LeadingZero(a, i);
      } else {
        assert LeadingZero(b, i - |a| - 1);
      }
    }
  }

  lemma JoinFields(a: string, b: string)
    requires Fields(a) && Fields(b) && a != "" && b != ""
    ensures Fields(a + ":" + b)
  {
    var s := a + ":" + b;
    JoinLower(a, b);
    JoinUnpadded(a, b);
    forall i | 0 <= i < |s| - 1 ensures s[i] != ':' || s[i + 1] != ':' {
      if i + 1 < |a| {
        assert a[i] != ':' || a[i + 1] != ':';
      } else if i > |a| {
        assert b[i - |a| - 1] != ':' || b[i - |a|] != ':';
      }
    }
  }

  lemma JoinDoubled(a: string, b: string)
    requires Fields(a) && Fields(b)
    ensures var s := a + "::" + b; Lower(s) && Unpadded(s) && Doubled(s)
  {
    var s := a + "::" + b;
    assert s == a + ":" + ("" + ":" + b);
    JoinLower("", b);
    JoinLower(a, "" + ":" + b);
    JoinUnpadded("", b);
    JoinUnpadded(a, "" + ":" + b);
    assert s[|a|] == ':' && s[|a| + 1] == ':';
  }

  lemma {:induction false} ColonsFields(bs: seq<Block>)
    ensures Fields(Colons(bs)) && (bs != [] ==> Colons(bs) != "")
  {
    if bs != [] {
      HexFields(bs[0]);
      if |bs| > 1 {
        ColonsFields(bs[1..]);
        JoinFields(Hex(bs[0]), Colons(bs[1..]));
      }
    }
  }

  /** Two zero blocks next to each other. */
  predicate AdjacentZeros(blocks: seq<Block>) {
    exists k :: 0 <= k < |blocks| - 1 && blocks[k] == 0 && blocks[k + 1] == 0
  }

  lemma {:induction false} LongIffAdjacent(blocks: seq<Block>, from: nat, len: nat)
    requires LongestRun(blocks, from, len)
    ensures len > 1 <==> AdjacentZeros(blocks)
  {
    if len > 1 {
      assert blocks[from] == 0 && blocks[from + 1] == 0;
    }
    if AdjacentZeros(blocks) {
      var k :| 0 <= k < |blocks| - 1 && blocks[k] == 0 && blocks[k + 1] == 0;
      assert ZeroRun(blocks, k, 2);
    }
  }

  /** The text of an address: lower case, no padding, and a double colon exactly where there are two
      zero blocks next to each other. */
  lemma {:induction false} TextForm(blocks: seq<Block>, from: nat, len: nat)
    requires LongestRun(blocks, from, len)
    ensures var s := Text(blocks, from, len);
      Lower(s) && Unpadded(s) && (Doubled(s) <==> AdjacentZeros(blocks))
  {
    LongIffAdjacent(blocks, from, len);
    if len > 1 {
      ColonsFields(blocks[..from]);
      ColonsFields(blocks[from + len..]);
      JoinDoubled(Colons(blocks[..from]), Colons(blocks[from + len..]));
    } else {
      ColonsFields(blocks);
    }
  }
}
