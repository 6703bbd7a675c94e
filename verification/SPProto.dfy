/** Packet sizes of SPProto: misc/balign.h and the MTU functions of protocol/spproto.h, in the
    arithmetic of size_t and int. */
module SPProto {
  import opened Arithmetic

  const SIZE_MODULUS: nat := 0x1_0000_0000_0000_0000
  const INT_MAX: int := 0x7fff_ffff

  /** A size_t after arithmetic that may wrap. */
  function Size(x: int): nat { x % SIZE_MODULUS }

  /** A size_t converted to int. */
  function AsInt(x: nat): int { (x + 0x8000_0000) % 0x1_0000_0000 - 0x8000_0000 }

  /** balign_up_overflows */
  predicate AlignUpOverflows(x: nat, n: nat)
    requires 0 < n
  {
    x % n != 0 && x > SIZE_MODULUS - 1 - (n - x % n)
  }

  /** balign_up */
  function AlignUp(x: nat, n: nat): nat
    requires 0 < n
  {
    if x % n != 0 then Size(x + (n - x % n)) else x
  }

  /** balign_down */
  function AlignDown(x: nat, n: nat): nat
    requires 0 < n
  {
    Size(x - x % n)
  }

  /** bdivide_up */
  function DivideUp(a: nat, b: nat): nat
    requires 0 < b
  {
    if a % b > 0 then a / b + 1 else a / b
  }

  predicate MultipleOf(x: int, n: int)
    requires 0 < n
  {
    x % n == 0
  }

  /** Aligned up is the least multiple not below, where it does not overflow. */
  lemma AlignUpIsLeast(x: nat, n: nat, m: nat)
    requires 0 < n && x < SIZE_MODULUS && !AlignUpOverflows(x, n)
    ensures MultipleOf(AlignUp(x, n), n) && x <= AlignUp(x, n) < x + n
    ensures MultipleOf(m, n) && x <= m ==> AlignUp(x, n) <= m
  {
    var q, r := x / n, x % n;
    assert x == n * q + r;
    if r != 0 {
      MulAddOne(n, q);
      DivUnique(n * (q + 1), n, q + 1, 0);
    }
    if MultipleOf(m, n) && x <= m { NextMultiple(n, q, r, m); }
  }

  lemma NextMultiple(n: nat, q: int, r: nat, m: nat)
    requires 0 < n && m % n == 0 && n * q + r <= m && r < n
    ensures r != 0 ==> n * q + n <= m
  {
    var k := m / n;
    assert m == n * k;
    if r != 0 && k <= q {
      MulMonotone(n, k, q);
    } else if k > q {
      MulMonotone(n, q + 1, k);
      MulAddOne(n, q);
    }
  }

  /** Aligned down is the greatest multiple not above. */
  lemma AlignDownIsGreatest(x: nat, n: nat, m: nat)
    requires 0 < n && x < SIZE_MODULUS
    ensures MultipleOf(AlignDown(x, n), n) && AlignDown(x, n) <= x < AlignDown(x, n) + n
    ensures MultipleOf(m, n) && m <= x ==> m <= AlignDown(x, n)
  {
    var q, r := x / n, x % n;
    assert x == n * q + r;
    assert 0 <= n * q;
    DivUnique(n * q, n, q, 0);
    if MultipleOf(m, n) && m <= x {
      var k := m / n;
      assert m == n * k;
      if k > q {
        MulMonotone(n, q + 1, k);
        MulAddOne(n, q);
      } else {
        MulMonotone(n, k, q);
      }
    }
  }

  /** The quotient rounded up is the number of blocks that aligning up covers. */
  lemma DivideUpBlocks(a: nat, b: nat)
    requires 0 < b && a < SIZE_MODULUS && !AlignUpOverflows(a, b)
    ensures b * DivideUp(a, b) == AlignUp(a, b)
  {
    assert a == b * (a / b) + a % b;
    MulAddOne(b, a / b);
    AlignUpIsLeast(a, b, 0);
  }

  /** What the security parameters come down to: the header's length and, with encryption, the
      cipher's block size. */
  datatype Params = Plain(header: nat) | Encrypted(header: nat, block: nat) {
    predicate Valid() {
      match this
      case Plain(h) => h <= INT_MAX
      case Encrypted(h, b) => 0 < b && b + h + b <= INT_MAX
    }
  }

  /** spproto_payload_mtu_for_carrier_mtu */
  function PayloadMtu(params: Params, carrier: nat): int
    requires params.Valid() && carrier <= INT_MAX
  {
    match params
    case Plain(h) => AsInt(Size(carrier - h))
    case Encrypted(h, b) => AsInt(Size(Size(Size(AlignDown(carrier, b) - b) - h) - 1))
  }

  /** spproto_carrier_mtu_for_payload_mtu */
  function CarrierMtu(params: Params, payload: nat): int
    requires params.Valid() && payload <= INT_MAX
  {
    match params
    case Plain(h) =>
      if payload > Size(INT_MAX - h) then -1 else AsInt(Size(h + payload))
    case Encrypted(h, b) =>
      if payload > Size(INT_MAX - Size(b + h + b)) then -1
      else AsInt(Size(b + AlignUp(Size(h + payload + 1), b)))
  }

  lemma WrapsBack(x: int)
    requires -0x8000_0000 <= x <= INT_MAX
    ensures AsInt(Size(x)) == x
  {
  }

  /** No conversion or wrap-around shows in the results. */
  lemma PayloadExact(params: Params, carrier: nat)
    requires params.Valid() && carrier <= INT_MAX
    ensures PayloadMtu(params, carrier)
         == match params
            case Plain(h) => carrier - h
            case Encrypted(h, b) => AlignDown(carrier, b) - b - h - 1
  {
    match params
    case Plain(h) => WrapsBack(carrier - h);
    case Encrypted(h, b) =>
      AlignDownIsGreatest(carrier, b, 0);
      SizesChain(AlignDown(carrier, b), b, h);
      WrapsBack(AlignDown(carrier, b) - b - h - 1);
  }

  lemma SizesChain(a: nat, b: nat, h: nat)
    requires a <= INT_MAX && b <= INT_MAX && h <= INT_MAX
    ensures Size(Size(Size(a - b) - h) - 1) == Size(a - b - h - 1)
  {
  }

  lemma CarrierExact(params: Params, payload: nat)
    requires params.Valid() && payload <= INT_MAX
    ensures CarrierMtu(params, payload)
         == match params
            case Plain(h) => if payload > INT_MAX - h then -1 else h + payload
            case Encrypted(h, b) =>
              if payload > INT_MAX - (b + h + b) then -1 else b + AlignUp(h + payload + 1, b)
  {
    match params
    case Plain(h) =>
      if payload <= INT_MAX - h { WrapsBack(h + payload); }
    case Encrypted(h, b) => CarrierEncrypted(h, b, payload);
  }

  lemma CarrierEncrypted(h: nat, b: nat, payload: nat)
    requires Encrypted(h, b).Valid() && payload <= INT_MAX
    ensures CarrierMtu(Encrypted(h, b), payload)
         == if payload > INT_MAX - (b + h + b) then -1 else b + AlignUp(h + payload + 1, b)
  {
    SmallSize(b + h + b);
    SmallSize(INT_MAX - (b + h + b));
    if payload <= INT_MAX - (b + h + b) {
      SmallSize(h + payload + 1);
      AlignedCarrier(h + payload + 1, b);
    }
  }

  lemma SmallSize(x: nat)
    requires x <= INT_MAX
    ensures Size(x) == x
  {
  }

  lemma AlignedCarrier(x: nat, b: nat)
    requires 0 < b && x + b + b <= INT_MAX + 1
    ensures !AlignUpOverflows(x, b) && AsInt(Size(b + AlignUp(x, b))) == b + AlignUp(x, b)
  {
    AlignUpIsLeast(x, b, 0);
    WrapsBack(b + AlignUp(x, b));
  }

  lemma MultiplesShift(x: int, n: int)
    requires 0 < n
    ensures MultipleOf(x + n, n) <==> MultipleOf(x, n)
  {
    DivMinusOne(x + n, n);
    assert x + n == n * ((x + n) / n) + (x + n) % n && x == n * (x / n) + x % n;
    MulAddOne(n, x / n);
  }

  /** The two functions are adjoint: a payload fits the carrier exactly when the carrier size it
      needs does, wherever that size is defined. */
  lemma Adjoint(params: Params, carrier: nat, payload: nat)
    requires params.Valid() && carrier <= INT_MAX && payload <= INT_MAX && CarrierMtu(params, payload) != -1
    ensures payload <= PayloadMtu(params, carrier) <==> CarrierMtu(params, payload) <= carrier
  {
    PayloadExact(params, carrier);
    CarrierExact(params, payload);
    if params.Encrypted? {
      var h, b := params.header, params.block;
      var need, have := AlignUp(h + payload + 1, b), AlignDown(carrier, b);
      AlignedCarrier(h + payload + 1, b);
      AlignUpIsLeast(h + payload + 1, b, 0);
      MultiplesShift(need, b);
      AlignDownIsGreatest(carrier, b, need + b);
      if have >= b {
        MultiplesShift(have - b, b);
        AlignUpIsLeast(h + payload + 1, b, have - b);
      }
    }
  }
}
