/** Number parsing and printing, misc/parse_number.h. */
module ParseNumber {
  import opened Wrappers
  import opened Arithmetic

  /** UINTMAX_MAX */
  const UINTMAX: nat := 18446744073709551615

  const UINTMAX_STR: string := "18446744073709551615"

  /** The value an assignment to a uintmax_t leaves. */
  function Wrap(n: int): nat { n % (UINTMAX + 1) }

  /** decode_decimal_digit; None stands for -1. */
  function DecimalDigit(c: char): Option<nat> {
    if '0' <= c <= '9' then Some(c as int - '0' as int) else None
  }

  /** decode_hex_digit */
  function HexDigit(c: char): Option<nat> {
    if '0' <= c <= '9' then Some(c as int - '0' as int)
    else if 'A' <= c <= 'F' then Some(c as int - 'A' as int + 10)
    else if 'a' <= c <= 'f' then Some(c as int - 'a' as int + 10)
    else None
  }

  /** Which characters are which digits. */
  lemma DecimalDigitIff(c: char, d: nat)
    requires d < 10
    ensures DecimalDigit(c) == Some(d) <==> c == "0123456789"[d]
  {
    assert c == "0123456789"[d] ==> c as int == '0' as int + d;
  }

  /** A letter counts the same in either case. */
  lemma HexDigitIff(c: char, d: nat)
    requires d < 16
    ensures HexDigit(c) == Some(d) <==> c == "0123456789abcdef"[d] || c == "0123456789ABCDEF"[d]
  {
    if d < 10 {
      assert "0123456789abcdef"[d] as int == '0' as int + d && "0123456789ABCDEF"[d] as int == '0' as int + d;
    } else {
      assert "0123456789abcdef"[d] as int == 'a' as int + (d - 10);
      assert "0123456789ABCDEF"[d] as int == 'A' as int + (d - 10);
    }
  }

  function DigitIn(base: nat, c: char): (d: Option<nat>)
    requires base == 10 || base == 16
    ensures d.Some? ==> d.value < base
  {
    if base == 10 then DecimalDigit(c) else HexDigit(c)
  }

  predicate Digits(base: nat, s: string)
    requires base == 10 || base == 16
  {
    forall i | 0 <= i < |s| :: DigitIn(base, s[i]).Some?
  }

  /** The number that the digits s continue, after acc. */
  function Eval(base: nat, acc: nat, s: string): nat
    requires (base == 10 || base == 16) && Digits(base, s)
    decreases |s|
  {
    if s == "" then acc else Eval(base, base * acc + DigitIn(base, s[0]).value, s[1..])
  }

  function Value(base: nat, s: string): nat
    requires (base == 10 || base == 16) && Digits(base, s)
  {
    Eval(base, 0, s)
  }

  function Power(base: nat, n: nat): nat {
    if n == 0 then 1 else base * Power(base, n - 1)
  }

  lemma {:induction false} EvalConcat(base: nat, acc: nat, s: string, t: string)
    requires (base == 10 || base == 16) && Digits(base, s) && Digits(base, t)
    ensures Digits(base, s + t) && Eval(base, acc, s + t) == Eval(base, Eval(base, acc, s), t)
    decreases |s|
  {
    if s == "" {
      assert s + t == t;
    } else {
      EvalConcat(base, base * acc + DigitIn(base, s[0]).value, s[1..], t);
      assert s + t == [s[0]] + (s[1..] + t);
    }
  }

  lemma {:induction false} EvalBounds(base: nat, acc: nat, s: string)
    requires (base == 10 || base == 16) && Digits(base, s)
    ensures Power(base, |s|) * acc <= Eval(base, acc, s) < Power(base, |s|) * (acc + 1)
    decreases |s|
  {
    if s != "" {
      var d := DigitIn(base, s[0]).value;
      EvalBounds(base, base * acc + d, s[1..]);
      OneDigit(base, acc, d, Power(base, |s| - 1), Eval(base, base * acc + d, s[1..]));
    }
  }

  lemma OneDigit(base: nat, acc: nat, d: nat, p: nat, e: nat)
    requires d < base && p * (base * acc + d) <= e < p * (base * acc + d + 1)
    ensures (base * p) * acc <= e < (base * p) * (acc + 1)
  {
    MulMonotone(p, base * acc, base * acc + d);
    Regroup(base, acc, p);
    Regroup(base, acc + 1, p);
    MulAddOne(base, acc);
    MulMonotone(p, base * acc + d + 1, base * (acc + 1));
  }

  lemma Regroup(base: nat, n: nat, p: nat)
    ensures p * (base * n) == (base * p) * n
  {
  }

  /** memcmp > 0 for strings of equal length. */
  predicate Above(s: string, t: string)
    requires |s| == |t|
  {
    s != "" && (s[0] > t[0] || (s[0] == t[0] && Above(s[1..], t[1..])))
  }

  /** For digit strings of equal length byte order is numeric order. */
  lemma {:induction false} AboveIsGreater(acc: nat, s: string, t: string)
    requires |s| == |t| && Digits(10, s) && Digits(10, t)
    ensures Above(s, t) <==> Eval(10, acc, s) > Eval(10, acc, t)
    decreases |s|
  {
    if s != "" {
      var c, d := DigitIn(10, s[0]).value, DigitIn(10, t[0]).value;
      if c == d {
        AboveIsGreater(10 * acc + c, s[1..], t[1..]);
      } else if c < d {
        Separated(10 * acc + c, 10 * acc + d, s[1..], t[1..]);
      } else {
        Separated(10 * acc + d, 10 * acc + c, t[1..], s[1..]);
      }
    }
  }

  lemma {:induction false} Separated(a: nat, b: nat, s: string, t: string)
    requires a < b && |s| == |t| && Digits(10, s) && Digits(10, t)
    ensures Eval(10, a, s) < Eval(10, b, t)
  {
    EvalBounds(10, a, s);
    EvalBounds(10, b, t);
    MulMonotone(Power(10, |s|), a + 1, b);
  }

  lemma Powers()
    ensures Power(10, 19) == 10000000000000000000
  {
    assert Power(10, 5) == 100000;
    assert Power(10, 10) == 10000000000;
    assert Power(10, 15) == 1000000000000000;
  }

  lemma {:induction false} EvalOne(acc: nat, c: char)
    requires DigitIn(10, c).Some?
    ensures Digits(10, [c]) && Eval(10, acc, [c]) == 10 * acc + DigitIn(10, c).value
  {
    assert [c][1..] == "";
  }

  lemma {:induction false} EvalSnoc(acc: nat, s: string, c: char)
    requires Digits(10, s) && DigitIn(10, c).Some?
    ensures Digits(10, s + [c]) && Eval(10, acc, s + [c]) == 10 * Eval(10, acc, s) + DigitIn(10, c).value
  {
    EvalOne(Eval(10, acc, s), c);
    EvalConcat(10, acc, s, [c]);
  }

  lemma {:induction false} EvalFive(acc: nat, a: char, b: char, c: char, d: char, e: char)
    requires DigitIn(10, a).Some? && DigitIn(10, b).Some? && DigitIn(10, c).Some?
    requires DigitIn(10, d).Some? && DigitIn(10, e).Some?
    ensures Digits(10, [a, b, c, d, e]) && Eval(10, acc, [a, b, c, d, e])
         == 100000 * acc + 10000 * DigitIn(10, a).value + 1000 * DigitIn(10, b).value
            + 100 * DigitIn(10, c).value + 10 * DigitIn(10, d).value + DigitIn(10, e).value
  {
    var s := [a, b, c, d, e];
    assert s[0] == a && s[1] == b && s[2] == c && s[3] == d && s[4] == e;
    EvalOne(acc, a);
    EvalSnoc(acc, [a], b);
    assert [a] + [b] == [a, b];
    EvalSnoc(acc, [a, b], c);
    assert [a, b] + [c] == [a, b, c];
    EvalSnoc(acc, [a, b, c], d);
    assert [a, b, c] + [d] == [a, b, c, d];
    EvalSnoc(acc, [a, b, c, d], e);
    assert [a, b, c, d] + [e] == s;
  }

  const UPPER: string := ['1', '8', '4', '4', '6'] + ['7', '4', '4', '0', '7']
  const LOWER: string := ['3', '7', '0', '9', '5'] + ['5', '1', '6', '1', '5']

  lemma {:induction false} UpperValue()
    ensures Digits(10, UPPER) && Eval(10, 0, UPPER) == 1844674407
  {
    EvalFive(0, '1', '8', '4', '4', '6');
    EvalFive(18446, '7', '4', '4', '0', '7');
    EvalConcat(10, 0, ['1', '8', '4', '4', '6'], ['7', '4', '4', '0', '7']);
  }

  lemma {:induction false} LowerValue()
    ensures Digits(10, LOWER) && Eval(10, 1844674407, LOWER) == UINTMAX
  {
    EvalFive(1844674407, '3', '7', '0', '9', '5');
    EvalFive(184467440737095, '5', '1', '6', '1', '5');
    EvalConcat(10, 1844674407, ['3', '7', '0', '9', '5'], ['5', '1', '6', '1', '5']);
  }

  lemma {:induction false} MaxValue()
    ensures Digits(10, UINTMAX_STR) && Value(10, UINTMAX_STR) == UINTMAX
  {
    UpperValue();
    LowerValue();
    assert UINTMAX_STR == UPPER + LOWER;
    EvalConcat(10, 0, UPPER, LOWER);
  }

  // ----- parsing -----

  /** Nineteen digits always fit. */
  lemma {:induction false} ShortFits(s: string)
    requires |s| <= 19 && Digits(10, s)
    ensures Value(10, s) <= UINTMAX
  {
    EvalBounds(10, 0, s);
    PowerMonotone(|s|, 19);
    Powers();
  }

  lemma {:induction false} PowerMonotone(m: nat, n: nat)
    requires m <= n
    ensures 0 < Power(10, m) <= Power(10, n)
    decreases n
  {
    if m < n {
      PowerMonotone(m, n - 1);
    } else if n > 0 {
      PowerMonotone(n - 1, n - 1);
    }
  }

  lemma {:induction false} TooLong(s: string)
    requires Digits(10, s) && 20 < |s| && s[0] != '0'
    ensures Value(10, s) > UINTMAX
  {
    var d := DigitIn(10, s[0]).value;
    EvalBounds(10, d, s[1..]);
    PowerMonotone(20, |s| - 1);
    TwentyDigits();
    MulMonotone(Power(10, |s| - 1), 1, d);
  }

  lemma {:induction false} TwentyDigits()
    ensures Power(10, 20) > UINTMAX
  {
    Powers();
    assert Power(10, 20) == 10 * Power(10, 19);
  }

  /** Twenty digits fit when they are not above the greatest number's; more, after a digit that
      is not zero, never fit. */
  lemma {:induction false} LongFits(s: string)
    requires Digits(10, s) && 20 <= |s| && s[0] != '0'
    ensures Value(10, s) <= UINTMAX <==> |s| == 20 && !Above(s, UINTMAX_STR)
  {
    MaxValue();
    if |s| == 20 {
      AboveIsGreater(0, s, UINTMAX_STR);
    } else {
      TooLong(s);
    }
  }

  /** parse__no_overflow; the sum and product are those of uintmax_t. */
  method ParseNoOverflow(str: string) returns (out: Option<nat>)
    requires |str| <= 20 && (Digits(10, str) ==> Value(10, str) <= UINTMAX)
    ensures out == if Digits(10, str) then Some(Value(10, str)) else None
  {
    var n := 0;
    var i: nat := 0;
    while i < |str|
      invariant i <= |str| && Digits(10, str[..i]) && n == Value(10, str[..i]) <= UINTMAX
    {
      if str[i] < '0' || str[i] > '9' {
        return None;
      }
      assert str[..i + 1] == str[..i] + [str[i]];
      EvalSnoc(0, str[..i], str[i]);
      if i + 1 < 20 {
        ShortFits(str[..i + 1]);
      } else {
        assert str[..i + 1] == str;
      }
      n := Wrap(10 * n + (str[i] as int - '0' as int));
      i := i + 1;
    }
    assert str[..i] == str;
    out := Some(n);
  }

  /** parse_unsigned_integer: succeeds exactly for a nonempty string of digits whose value fits,
      and then gives the value. */
  method ParseUnsignedInteger(str: string) returns (out: Option<nat>)
    ensures out
         == if str != "" && Digits(10, str) && Value(10, str) <= UINTMAX then Some(Value(10, str)) else None
  {
    if |str| == 0 {
      return None;
    }
    var at: nat := 0;
    while at < |str| && str[at] == '0'
      invariant at <= |str|
      invariant Digits(10, str) <==> Digits(10, str[at..])
      invariant Digits(10, str) ==> Value(10, str) == Value(10, str[at..])
    {
      assert str[at..][1..] == str[at + 1..];
      assert str[at..] == [str[at]] + str[at + 1..];
      at := at + 1;
    }
    var rest := str[at..];
    if Digits(10, rest) {
      if |rest| >= 20 { LongFits(rest); } else { ShortFits(rest); }
    }
    if |rest| > 20 || (|rest| == 20 && Above(rest, UINTMAX_STR)) {
      return None;
    }
    out := ParseNoOverflow(rest);
  }

  lemma {:induction false} HexSnoc(s: string, c: char)
    requires Digits(16, s) && HexDigit(c).Some?
    ensures Digits(16, s + [c]) && Value(16, s + [c]) == 16 * Value(16, s) + HexDigit(c).value
  {
    assert [c][1..] == "";
    EvalConcat(16, 0, s, [c]);
  }

  lemma {:induction false} HexGrows(s: string, t: string)
    requires Digits(16, s) && Digits(16, t)
    ensures Digits(16, s + t) && Value(16, s) <= Value(16, s + t)
  {
    EvalConcat(16, 0, s, t);
    EvalBounds(16, Value(16, s), t);
    HexPower(|t|);
    MulMonotone(Value(16, s), 1, Power(16, |t|));
  }

  lemma {:induction false} HexPower(n: nat)
    ensures Power(16, n) >= 1
  {
    if n > 0 { HexPower(n - 1); }
  }

  /** parse_unsigned_hex_integer: the same for hexadecimal digits of either case. */
  method ParseUnsignedHexInteger(str: string) returns (out: Option<nat>)
    ensures out
         == if str != "" && Digits(16, str) && Value(16, str) <= UINTMAX then Some(Value(16, str)) else None
  {
    if |str| == 0 {
      return None;
    }
    var n := 0;
    var i: nat := 0;
    while i < |str|
      invariant i <= |str| && Digits(16, str[..i]) && n == Value(16, str[..i]) <= UINTMAX
    {
      assert str[..i + 1] == str[..i] + [str[i]];
      var digit := HexDigit(str[i]);
      if digit.None? {
        return None;
      }
      HexSnoc(str[..i], str[i]);
      if Digits(16, str) {
        assert str == str[..i + 1] + str[i + 1..];
        HexGrows(str[..i + 1], str[i + 1..]);
      }
      if n > UINTMAX / 16 {
        return None;
      }
      n := Wrap(n * 16);
      if digit.value > UINTMAX - n {
        return None;
      }
      n := Wrap(n + digit.value);
      i := i + 1;
    }
    assert str[..i] == str;
    out := Some(n);
  }

  /** parse_signmag_integer */
  method ParseSignmagInteger(str: string) returns (sign: int, mag: Option<nat>)
    ensures var signed := str != "" && (str[0] == '+' || str[0] == '-');
      var digits := if signed then str[1..] else str;
      && sign == (if str != "" && str[0] == '-' then -1 else 1)
      && mag == if digits != "" && Digits(10, digits) && Value(10, digits) <= UINTMAX then Some(Value(10, digits)) else None
  {
    sign := 1;
    var rest := str;
    if |str| > 0 && (str[0] == '+' || str[0] == '-') {
      sign := 1 - 2 * (if str[0] == '-' then 1 else 0);
      rest := str[1..];
    }
    mag := ParseUnsignedInteger(rest);
  }

  // ----- printing -----

  function Repr(x: nat): (s: string)
    ensures s != ""
  {
    if x < 10 then [('0' as int + x) as char] else Repr(x / 10) + [('0' as int + x % 10) as char]
  }

  /** The digits of a number, the most significant first. */
  lemma {:induction false} ReprDigits(x: nat)
    ensures Repr(x)[|Repr(x)| - 1] == "0123456789"[x % 10]
    ensures Repr(x)[..|Repr(x)| - 1] == if x < 10 then "" else Repr(x / 10)
  {
    var c := ('0' as int + x % 10) as char;
    assert "0123456789"[x % 10] as int == '0' as int + x % 10;
    if x >= 10 { assert Repr(x) == Repr(x / 10) + [c]; }
  }

  lemma {:induction false} ReprValue(x: nat)
    ensures Digits(10, Repr(x)) && Value(10, Repr(x)) == x
  {
    if x < 10 {
      EvalOne(0, Repr(x)[0]);
    } else {
      ReprValue(x / 10);
      EvalSnoc(0, Repr(x / 10), ('0' as int + x % 10) as char);
    }
  }

  /** compute_decimal_repr_size: the least number of digits that can show x. */
  method ComputeDecimalReprSize(x: nat) returns (size: nat)
    ensures size == |Repr(x)|
  {
    var left := x;
    size := 1;
    while left / 10 > 0
      invariant size + |Repr(left)| == |Repr(x)| + 1
      decreases left
    {
      left := left / 10;
      size := size + 1;
    }
  }

  /** No shorter string of digits has the value x, and only 0 starts with a zero. */
  lemma {:induction false} ReprMinimal(x: nat, s: string)
    requires s != "" && Digits(10, s) && Value(10, s) == x
    ensures |Repr(x)| <= |s| && (x > 0 ==> Repr(x)[0] != '0')
    decreases x
  {
    if x >= 10 {
      var n := |s| - 1;
      assert s == s[..n] + [s[n]];
      EvalSnoc(0, s[..n], s[n]);
      DivUnique(x, 10, Value(10, s[..n]), DigitIn(10, s[n]).value);
      ReprMinimal(x / 10, s[..n]);
    }
  }

  /** generate_decimal_repr, which fills the array from the back */
  method GenerateDecimalRepr(x: nat, out: array<char>, reprSize: nat)
    requires reprSize == |Repr(x)| <= out.Length
    modifies out
    ensures out[..reprSize] == Repr(x) && out[reprSize..] == old(out[reprSize..])
  {
    var left, at: nat := x, reprSize - 1;
    ghost var after := out[reprSize..];
    out[at] := ('0' as int + left % 10) as char;
    left := left / 10;
    while left > 0
      invariant at < reprSize && left >= 0 && out[reprSize..] == after
      invariant (if left > 0 then Repr(left) else "") + out[at..reprSize] == Repr(x)
      invariant at == if left > 0 then |Repr(left)| else 0
      decreases left
    {
      at := at - 1;
      ghost var tail := out[at + 1..reprSize];
      out[at] := ('0' as int + left % 10) as char;
      assert out[at..reprSize] == [out[at]] + tail;
      left := left / 10;
    }
    assert out[..reprSize] == out[0..reprSize];
  }

  /** Parsing what was printed gives the number back. */
  method RoundTrip(x: nat) returns (back: Option<nat>)
    requires x <= UINTMAX
    ensures back == Some(x)
  {
    var size := ComputeDecimalReprSize(x);
    var out := new char[size];
    GenerateDecimalRepr(x, out, size);
    ReprValue(x);
    back := ParseUnsignedInteger(out[..size]);
  }
}
