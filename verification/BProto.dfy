/** Little-endian integers, misc/byteorder.h. */
module ByteOrder {
  import opened Arithmetic
  import opened Wrappers

  function Pow256(n: nat): (r: nat)
    ensures r > 0
  {
    if n == 0 then 1 else 256 * Pow256(n - 1)
  }

  /** htol8, htol16, htol32, htol64: the n bytes of v. */
  function ToLE(v: nat, n: nat): (s: seq<byte>)
    ensures |s| == n
  {
    if n == 0 then [] else [(v % 256) as byte] + ToLE(v / 256, n - 1)
  }

  /** ltoh8, ltoh16, ltoh32, ltoh64 */
  function FromLE(s: seq<byte>): nat {
    if s == [] then 0 else s[0] as nat + 256 * FromLE(s[1..])
  }

  lemma {:induction false} FromToLE(v: nat, n: nat)
    requires v < Pow256(n)
    ensures FromLE(ToLE(v, n)) == v
  {
    if n > 0 {
      FromToLE(v / 256, n - 1);
      assert ToLE(v, n)[1..] == ToLE(v / 256, n - 1);
    }
  }

  lemma {:induction false} ToFromLE(s: seq<byte>)
    ensures FromLE(s) < Pow256(|s|) && ToLE(FromLE(s), |s|) == s
  {
    if s != [] {
      ToFromLE(s[1..]);
      assert s == [s[0]] + s[1..];
    }
  }

  /** The least significant byte comes first: byte i is the i-th digit of v to the base 256. */
  lemma {:induction false} ToLEAt(v: nat, n: nat, i: nat)
    requires i < n
    ensures ToLE(v, n)[i] as nat == (v / Pow256(i)) % 256
    decreases n
  {
    if i > 0 {
      assert ToLE(v, n)[i] == ToLE(v / 256, n - 1)[i - 1];
      ToLEAt(v / 256, n - 1, i - 1);
      DivTwice(v, 256, Pow256(i - 1));
    }
  }

  lemma DivTwice(v: nat, a: nat, b: nat)
    requires a > 0 && b > 0
    ensures a * b > 0 && v / a / b == v / (a * b)
  {
    var q := v / a;
    var r := q / b;
    assert v == a * q + v % a && q == b * r + q % b;
    assert a * q == a * (b * r) + a * (q % b);
    assert a * (b * r) == (a * b) * r;
    var rem := a * (q % b) + v % a;
    assert a * (q % b) <= a * (b - 1) by { MulMonotone(a, q % b, b - 1); }
    assert a * (b - 1) == a * b - a;
    DivUnique(v, a * b, r, rem);
  }

  /** The bytes of small numbers, one by one. */
  lemma ToLEBytes(v: nat)
    ensures v < 0x1_0000 ==> ToLE(v, 2)[0] as nat + 0x100 * ToLE(v, 2)[1] as nat == v
    ensures v < 0x1_0000_0000 ==>
      var s := ToLE(v, 4);
      s[0] as nat + 0x100 * s[1] as nat + 0x1_0000 * s[2] as nat + 0x100_0000 * s[3] as nat == v
  {
    var v1 := v / 256;
    var v2 := v1 / 256;
    var v3 := v2 / 256;
    FirstByte(v, 2);
    FirstByte(v1, 1);
    FirstByte(v, 4);
    FirstByte(v1, 3);
    FirstByte(v2, 2);
    FirstByte(v3, 1);
    assert v == 256 * v1 + v % 256 && v1 == 256 * v2 + v1 % 256 && v2 == 256 * v3 + v2 % 256;
  }

  lemma {:induction false} FirstByte(v: nat, n: nat)
    requires n > 0
    ensures ToLE(v, n)[0] as nat == v % 256 && forall i | 1 <= i < n :: ToLE(v, n)[i] == ToLE(v / 256, n - 1)[i - 1]
  {
  }

  lemma SliceOfSlice(buf: seq<byte>, p: nat, q: nat, i: nat, j: nat)
    requires p + j <= q <= |buf| && i <= j
    ensures buf[p + i..p + j] == buf[p..q][i..j]
  {
    var a, b := buf[p + i..p + j], buf[p..q][i..j];
    forall k | 0 <= k < j - i ensures a[k] == b[k] {
      assert buf[p..q][i + k] == buf[p + (i + k)];
    }
  }

  lemma Widths()
    ensures Pow256(1) == 0x100 && Pow256(2) == 0x1_0000 && Pow256(4) == 0x1_0000_0000
    ensures Pow256(8) == 0x1_0000_0000_0000_0000
  {
    assert Pow256(3) == 256 * Pow256(2);
    assert Pow256(4) == 256 * Pow256(3);
    assert Pow256(5) == 256 * Pow256(4);
    assert Pow256(6) == 256 * Pow256(5);
    assert Pow256(7) == 256 * Pow256(6);
  }
}

/** The messages of the bproto generator: generated/bproto_msgproto.h, generated/bproto_addr.h.

    The generated files repeat one parser and one writer for each list of fields; here the list
    is a parameter, the schema. */
module BProto {
  import opened Wrappers
  import opened ByteOrder

  datatype Kind = Uint8 | Uint16 | Uint32 | Uint64 | Data | ConstData {
    predicate IsData() { Data? || ConstData? }

    /** Size of the value of an integer kind. */
    function Width(): nat {
      match this
      case Uint8 => 1
      case Uint16 => 2
      case Uint32 => 4
      case Uint64 => 8
      case _ => 0
    }

    /** The type member of the header. */
    function Tag(): nat {
      match this
      case Uint8 => 1
      case Uint16 => 2
      case Uint32 => 3
      case Uint64 => 4
      case Data => 5
      case ConstData => 6
    }
  }

  function KindOf(tag: nat): (k: Option<Kind>)
    ensures k.Some? ==> k.value.Tag() == tag
    ensures forall kind: Kind :: kind.Tag() == tag ==> k == Some(kind)
  {
    match tag
    case 1 => Some(Uint8)
    case 2 => Some(Uint16)
    case 3 => Some(Uint32)
    case 4 => Some(Uint64)
    case 5 => Some(Data)
    case 6 => Some(ConstData)
    case _ => None
  }

  /** A field of a message type: const data has a fixed size; max is None for a repeated field. */
  datatype Field = Field(id: nat, kind: Kind, size: nat, min: nat, max: Option<nat>)

  type Schema = seq<Field>

  predicate ValidSchema(schema: Schema) {
    && (forall i | 0 <= i < |schema| :: schema[i].id < 0x1_0000 && schema[i].size < 0x1_0000_0000)
    && forall i, j | 0 <= i < j < |schema| :: schema[i].id != schema[j].id
  }

  const MSG_YOUCONNECT: Schema := [
    Field(1, Data, 0, 1, None),      // addr
    Field(2, Data, 0, 0, Some(1)),   // key
    Field(3, Uint64, 0, 0, Some(1))  // password
  ]

  const ADDR: Schema := [
    Field(1, Uint8, 0, 1, Some(1)),       // type
    Field(2, ConstData, 2, 0, Some(1)),   // ip_port
    Field(3, ConstData, 4, 0, Some(1)),   // ipv4_addr
    Field(4, ConstData, 16, 0, Some(1))   // ipv6_addr
  ]

  // ----- entries and their encoding -----

  datatype Entry = Entry(id: nat, kind: Kind, value: seq<byte>) {
    predicate WellFormed() {
      id < 0x1_0000 && if kind.IsData() then |value| < 0x1_0000_0000 else |value| == kind.Width()
    }
  }

  function Prefix(e: Entry): (s: seq<byte>)
    ensures |s| == if e.kind.IsData() then 8 else 4
  {
    ToLE(e.id, 2) + ToLE(e.kind.Tag(), 2) + if e.kind.IsData() then ToLE(|e.value|, 4) else []
  }

  function Encode(e: Entry): seq<byte> {
    Prefix(e) + e.value
  }

  /** An entry by position: the id, the type, the length of a data value, the value. */
  lemma EntryBytes(e: Entry)
    requires e.WellFormed()
    ensures var s := Encode(e);
      && s[0] as nat + 0x100 * s[1] as nat == e.id && s[2] as nat + 0x100 * s[3] as nat == e.kind.Tag()
      && (!e.kind.IsData() ==> s[4..] == e.value && |s| == 4 + e.kind.Width())
      && (e.kind.IsData() ==>
            && s[4] as nat + 0x100 * s[5] as nat + 0x1_0000 * s[6] as nat + 0x100_0000 * s[7] as nat == |e.value|
            && s[8..] == e.value && |s| == 8 + |e.value|)
  {
    ToLEBytes(e.id);
    ToLEBytes(e.kind.Tag());
    ToLEBytes(|e.value|);
  }

  function EncodeAll(es: seq<Entry>): seq<byte> {
    if es == [] then [] else Encode(es[0]) + EncodeAll(es[1..])
  }

  lemma {:induction false} EncodeAllConcat(a: seq<Entry>, b: seq<Entry>)
    ensures EncodeAll(a + b) == EncodeAll(a) + EncodeAll(b)
  {
    if a == [] {
      assert a + b == b;
    } else {
      EncodeAllConcat(a[1..], b);
      assert a + b == [a[0]] + (a[1..] + b);
      EncodeAllCons(a[0], a[1..] + b);
      Concat(Encode(a[0]), EncodeAll(a[1..]), EncodeAll(b));
    }
  }

  lemma {:induction false} EncodeAllCons(e: Entry, es: seq<Entry>)
    ensures EncodeAll([e] + es) == Encode(e) + EncodeAll(es)
  {
    assert ([e] + es)[1..] == es;
  }

  /** Where the value of the entry at p is, and where the entry ends; None where what is there up
      to end is cut short or of an unknown type. */
  function ValueAt(buf: seq<byte>, p: nat, end: nat): (r: Option<(nat, nat)>)
    requires p <= end <= |buf|
    ensures r.Some? ==> p + 4 <= r.value.0 <= r.value.1 <= end
  {
    if end - p < 4 then
      None
    else
      var kind := KindOf(FromLE(buf[p + 2..p + 4]));
      if kind.None? then
        None
      else if kind.value.IsData() then
        if end - p < 8 || end - p - 8 < FromLE(buf[p + 4..p + 8]) then None
        else Some((p + 8, p + 8 + FromLE(buf[p + 4..p + 8])))
      else
        if end - p - 4 < kind.value.Width() then None
        else Some((p + 4, p + 4 + kind.value.Width()))
  }

  function EntryAt(buf: seq<byte>, p: nat, end: nat): Entry
    requires p <= end <= |buf| && ValueAt(buf, p, end).Some?
  {
    var v := ValueAt(buf, p, end).value;
    Entry(FromLE(buf[p..p + 2]), KindOf(FromLE(buf[p + 2..p + 4])).value, buf[v.0..v.1])
  }

  /** The entries between p and end. */
  function Scan(buf: seq<byte>, p: nat, end: nat): Option<seq<Entry>>
    requires p <= end <= |buf|
    decreases end - p
  {
    if p == end then
      Some([])
    else
      var v := ValueAt(buf, p, end);
      if v.None? then
        None
      else
        var rest := Scan(buf, v.value.1, end);
        if rest.None? then None else Some([EntryAt(buf, p, end)] + rest.value)
  }

  // ----- reading and encoding are inverses -----

  lemma Slices(buf: seq<byte>, p: nat, e: Entry)
    requires p + |Encode(e)| <= |buf| && buf[p..p + |Encode(e)|] == Encode(e)
    ensures buf[p..p + 2] == ToLE(e.id, 2) && buf[p + 2..p + 4] == ToLE(e.kind.Tag(), 2)
    ensures e.kind.IsData() ==> buf[p + 4..p + 8] == ToLE(|e.value|, 4)
    ensures buf[p + |Prefix(e)|..p + |Encode(e)|] == e.value
  {
    var s := Encode(e);
    var n := |s|;
    SliceOfSlice(buf, p, p + n, 0, 2);
    SliceOfSlice(buf, p, p + n, 2, 4);
    SliceOfSlice(buf, p, p + n, |Prefix(e)|, n);
    if e.kind.IsData() {
      SliceOfSlice(buf, p, p + n, 4, 8);
      assert s[4..8] == ToLE(|e.value|, 4);
    }
    assert s[0..2] == ToLE(e.id, 2) && s[2..4] == ToLE(e.kind.Tag(), 2) && s[|Prefix(e)|..n] == e.value;
  }

  lemma ReadEncoded(buf: seq<byte>, p: nat, end: nat, e: Entry)
    requires e.WellFormed() && p + |Encode(e)| <= end <= |buf| && buf[p..p + |Encode(e)|] == Encode(e)
    ensures ValueAt(buf, p, end) == Some((p + |Prefix(e)|, p + |Encode(e)|)) && EntryAt(buf, p, end) == e
  {
    Slices(buf, p, e);
    Widths();
    FromToLE(e.id, 2);
    FromToLE(e.kind.Tag(), 2);
    if e.kind.IsData() { FromToLE(|e.value|, 4); }
  }

  lemma ReadIsEncoded(buf: seq<byte>, p: nat, end: nat)
    requires p <= end <= |buf| && ValueAt(buf, p, end).Some?
    ensures EntryAt(buf, p, end).WellFormed()
    ensures buf[p..ValueAt(buf, p, end).value.1] == Encode(EntryAt(buf, p, end))
  {
    var e, v := EntryAt(buf, p, end), ValueAt(buf, p, end).value;
    Widths();
    ToFromLE(buf[p..p + 2]);
    ToFromLE(buf[p + 2..p + 4]);
    if e.kind.IsData() {
      ToFromLE(buf[p + 4..p + 8]);
      assert Prefix(e) == buf[p..p + 2] + buf[p + 2..p + 4] + buf[p + 4..p + 8] == buf[p..p + 8];
    } else {
      assert Prefix(e) == buf[p..p + 2] + buf[p + 2..p + 4] == buf[p..p + 4];
    }
    assert buf[p..v.1] == buf[p..v.0] + buf[v.0..v.1];
  }

  ghost predicate AllWellFormed(es: seq<Entry>) {
    forall i | 0 <= i < |es| :: es[i].WellFormed()
  }

  lemma {:induction false} FirstEncoded(buf: seq<byte>, p: nat, end: nat, es: seq<Entry>)
    requires p <= end <= |buf| && es != [] && buf[p..end] == EncodeAll(es)
    ensures var q := p + |Encode(es[0])|;
      p < q <= end && buf[p..q] == Encode(es[0]) && buf[q..end] == EncodeAll(es[1..])
  {
    var n := |Encode(es[0])|;
    SliceOfSlice(buf, p, end, 0, n);
    SliceOfSlice(buf, p, end, n, end - p);
  }

  lemma {:induction false} FirstRead(buf: seq<byte>, p: nat, end: nat, es: seq<Entry>) returns (q: nat)
    requires p <= end <= |buf| && es != [] && AllWellFormed(es) && buf[p..end] == EncodeAll(es)
    ensures ValueAt(buf, p, end).Some? && ValueAt(buf, p, end).value.1 == q && EntryAt(buf, p, end) == es[0]
    ensures p < q <= end && buf[q..end] == EncodeAll(es[1..]) && AllWellFormed(es[1..])
  {
    q := p + |Encode(es[0])|;
    FirstEncoded(buf, p, end, es);
    ReadEncoded(buf, p, end, es[0]);
  }

  lemma {:induction false} ScanEncoded(buf: seq<byte>, p: nat, end: nat, es: seq<Entry>)
    requires p <= end <= |buf| && AllWellFormed(es) && buf[p..end] == EncodeAll(es)
    ensures Scan(buf, p, end) == Some(es)
    decreases |es|
  {
    if es != [] {
      var q := FirstRead(buf, p, end, es);
      ScanEncoded(buf, q, end, es[1..]);
      ScanStep(buf, p, end);
      assert es == [es[0]] + es[1..];
    }
  }

  lemma {:induction false} ScanIsEncoded(buf: seq<byte>, p: nat, end: nat)
    requires p <= end <= |buf| && Scan(buf, p, end).Some?
    ensures AllWellFormed(Scan(buf, p, end).value) && buf[p..end] == EncodeAll(Scan(buf, p, end).value)
    decreases end - p
  {
    if p != end {
      var q := ValueAt(buf, p, end).value.1;
      ReadIsEncoded(buf, p, end);
      ScanIsEncoded(buf, q, end);
      assert buf[p..end] == buf[p..q] + buf[q..end];
      assert Scan(buf, p, end).value[1..] == Scan(buf, q, end).value;
    }
  }

  /** The bytes determine the entries and the entries the bytes. */
  lemma ScanIff(buf: seq<byte>, es: seq<Entry>)
    ensures Scan(buf, 0, |buf|) == Some(es) <==> AllWellFormed(es) && buf == EncodeAll(es)
  {
    assert buf[0..|buf|] == buf;
    if AllWellFormed(es) && buf == EncodeAll(es) { ScanEncoded(buf, 0, |buf|, es); }
    if Scan(buf, 0, |buf|) == Some(es) { ScanIsEncoded(buf, 0, |buf|); }
  }

  // ----- scanning in pieces -----

  lemma ValueAtLonger(buf: seq<byte>, p: nat, mid: nat, end: nat)
    requires p <= mid <= end <= |buf| && ValueAt(buf, p, mid).Some?
    ensures ValueAt(buf, p, end) == ValueAt(buf, p, mid) && EntryAt(buf, p, end) == EntryAt(buf, p, mid)
  {
  }

  function Joined(a: seq<Entry>, b: Option<seq<Entry>>): Option<seq<Entry>> {
    if b.None? then None else Some(a + b.value)
  }

  lemma JoinedTwice(e: Entry, a: seq<Entry>, b: Option<seq<Entry>>)
    ensures Joined([e] + a, b) == Joined([e], Joined(a, b)) && Joined([], b) == b
  {
    if b.Some? {
      assert ([e] + a) + b.value == [e] + (a + b.value);
      assert [] + b.value == b.value;
    }
  }

  lemma {:induction false} ScanStep(buf: seq<byte>, p: nat, end: nat)
    requires p < end <= |buf| && ValueAt(buf, p, end).Some?
    ensures Scan(buf, p, end) == Joined([EntryAt(buf, p, end)], Scan(buf, ValueAt(buf, p, end).value.1, end))
  {
  }

  lemma {:induction false} ScanSplit(buf: seq<byte>, p: nat, mid: nat, end: nat)
    requires p <= mid <= end <= |buf| && Scan(buf, p, mid).Some?
    ensures Scan(buf, p, end) == Joined(Scan(buf, p, mid).value, Scan(buf, mid, end))
    decreases mid - p
  {
    if p == mid {
      if Scan(buf, mid, end).Some? { assert [] + Scan(buf, mid, end).value == Scan(buf, mid, end).value; }
    } else {
      var q, e := ValueAt(buf, p, mid).value.1, EntryAt(buf, p, mid);
      ValueAtLonger(buf, p, mid, end);
      ScanStep(buf, p, mid);
      ScanStep(buf, p, end);
      ScanSplit(buf, q, mid, end);
      JoinedTwice(e, Scan(buf, q, mid).value, Scan(buf, mid, end));
    }
  }

  // ----- fields of a message -----

  predicate Named(field: Field, e: Entry) {
    e.kind == field.kind && e.id == field.id
  }

  /** The values of a field, in the order of the message. */
  function Select(field: Field, es: seq<Entry>): seq<seq<byte>> {
    if es == [] then [] else (if Named(field, es[0]) then [es[0].value] else []) + Select(field, es[1..])
  }

  lemma {:induction false} SelectConcat(field: Field, a: seq<Entry>, b: seq<Entry>)
    ensures Select(field, a + b) == Select(field, a) + Select(field, b)
  {
    if a == [] {
      assert a + b == b;
    } else {
      SelectConcat(field, a[1..], b);
      assert (a + b)[1..] == a[1..] + b;
    }
  }

  lemma SelectOne(field: Field, e: Entry)
    ensures Select(field, [e]) == if Named(field, e) then [e.value] else []
  {
    assert [e][1..] == [];
  }

  predicate Belongs(field: Field, e: Entry) {
    Named(field, e) && (field.kind.ConstData? ==> |e.value| == field.size)
  }

  ghost predicate Known(schema: Schema, e: Entry) {
    exists f | 0 <= f < |schema| :: Belongs(schema[f], e)
  }

  predicate CountAllowed(field: Field, n: nat) {
    field.min <= n && (field.max.Some? ==> n <= field.max.value)
  }

  /** What the generated Parser_Init checks, said of the entries. */
  ghost predicate LegalMessage(schema: Schema, es: seq<Entry>) {
    && (forall i | 0 <= i < |es| :: Known(schema, es[i]))
    && forall f | 0 <= f < |schema| :: CountAllowed(schema[f], |Select(schema[f], es)|)
  }

  ghost predicate Accepts(schema: Schema, buf: seq<byte>) {
    Scan(buf, 0, |buf|).Some? && LegalMessage(schema, Scan(buf, 0, |buf|).value)
  }

  /** The youconnect message: addresses, at least one; at most one key; at most one password. */
  lemma {:induction false} YouConnectMessage(es: seq<Entry>)
    ensures LegalMessage(MSG_YOUCONNECT, es)
       <==> && (forall i | 0 <= i < |es| ::
                  (es[i].kind == Data && (es[i].id == 1 || es[i].id == 2)) || (es[i].kind == Uint64 && es[i].id == 3))
            && |Select(MSG_YOUCONNECT[0], es)| >= 1
            && |Select(MSG_YOUCONNECT[1], es)| <= 1 && |Select(MSG_YOUCONNECT[2], es)| <= 1
  {
    forall i | 0 <= i < |es|
      ensures Known(MSG_YOUCONNECT, es[i])
         <==> (es[i].kind == Data && (es[i].id == 1 || es[i].id == 2)) || (es[i].kind == Uint64 && es[i].id == 3)
    {
      KnownThree(MSG_YOUCONNECT, es[i]);
    }
    if LegalMessage(MSG_YOUCONNECT, es) {
      assert CountAllowed(MSG_YOUCONNECT[0], |Select(MSG_YOUCONNECT[0], es)|);
      assert CountAllowed(MSG_YOUCONNECT[1], |Select(MSG_YOUCONNECT[1], es)|);
      assert CountAllowed(MSG_YOUCONNECT[2], |Select(MSG_YOUCONNECT[2], es)|);
    }
  }

  lemma KnownThree(schema: Schema, e: Entry)
    requires |schema| == 3
    ensures Known(schema, e) <==> Belongs(schema[0], e) || Belongs(schema[1], e) || Belongs(schema[2], e)
  {
  }

  /** The accepted buffers are exactly the encodings of the legal messages. */
  lemma AcceptsIff(schema: Schema, buf: seq<byte>)
    ensures Accepts(schema, buf)
       <==> exists es: seq<Entry> :: AllWellFormed(es) && LegalMessage(schema, es) && buf == EncodeAll(es)
  {
    if Accepts(schema, buf) {
      ScanIff(buf, Scan(buf, 0, |buf|).value);
    }
    forall es: seq<Entry> | AllWellFormed(es) && LegalMessage(schema, es) && buf == EncodeAll(es)
      ensures Accepts(schema, buf)
    {
      ScanIff(buf, es);
    }
  }

  // ----- what one validating pass leaves for the getters -----

  /** Where entry k of the message starts. */
  function Offset(es: seq<Entry>, k: nat): nat
    requires k <= |es|
  {
    |EncodeAll(es[..k])|
  }

  lemma {:induction false} OffsetNext(es: seq<Entry>, k: nat)
    requires k < |es|
    ensures Offset(es, k + 1) == Offset(es, k) + |Encode(es[k])|
    ensures EncodeAll(es[..k + 1]) == EncodeAll(es[..k]) + Encode(es[k])
  {
    assert es[..k + 1] == es[..k] + [es[k]];
    EncodeAllConcat(es[..k], [es[k]]);
    assert [es[k]][1..] == [];
    assert EncodeAll([es[k]]) == Encode(es[k]) + [];
  }

  lemma {:induction false} OffsetMonotone(es: seq<Entry>, j: nat, k: nat)
    requires j < k <= |es|
    ensures Offset(es, j) < Offset(es, k)
    decreases k
  {
    OffsetNext(es, k - 1);
    if j < k - 1 { OffsetMonotone(es, j, k - 1); }
  }

  lemma {:induction false} OffsetGrown(es: seq<Entry>, e: Entry, k: nat)
    requires k <= |es|
    ensures Offset(es + [e], k) == Offset(es, k)
  {
    assert (es + [e])[..k] == es[..k];
  }

  /** A message read entry by entry: entry k is at its offset. */
  lemma {:induction false} EntryIn(buf: seq<byte>, es: seq<Entry>, k: nat)
    requires AllWellFormed(es) && buf == EncodeAll(es) && k < |es|
    ensures Offset(es, k) <= Offset(es, k + 1) <= |buf|
    ensures ValueAt(buf, Offset(es, k), |buf|) == Some((Offset(es, k) + |Prefix(es[k])|, Offset(es, k + 1)))
    ensures EntryAt(buf, Offset(es, k), |buf|) == es[k]
  {
    var a, m, z := EncodeAll(es[..k]), Encode(es[k]), EncodeAll(es[k + 1..]);
    OffsetNext(es, k);
    assert es == es[..k + 1] + es[k + 1..];
    EncodeAllConcat(es[..k + 1], es[k + 1..]);
    assert buf == (a + m) + z;
    assert buf[|a|..|a| + |m|] == m;
    ReadEncoded(buf, |a|, |buf|, es[k]);
  }

  /** From entry a up to entry b is all there is of the field, and both ends are. */
  ghost predicate Spans(field: Field, es: seq<Entry>, a: nat, b: nat) {
    && a < b <= |es| && Named(field, es[a]) && Named(field, es[b - 1])
    && Select(field, es[..a]) == [] && Select(field, es[b..]) == []
  }

  /** start and span say so of the field; n, the size of the buffer, stands for not found. */
  ghost predicate Recorded(n: nat, field: Field, es: seq<Entry>, start: int, span: int, a: nat, b: nat) {
    if Select(field, es) == [] then
      start == n && span == 0
    else
      Spans(field, es, a, b) && start == Offset(es, a) && start + span == Offset(es, b)
  }

  lemma {:induction false} RecordOther(n: nat, field: Field, es: seq<Entry>, start: int, span: int, a: nat, b: nat, e: Entry)
    requires Recorded(n, field, es, start, span, a, b) && !Named(field, e)
    ensures Recorded(n, field, es + [e], start, span, a, b)
    ensures Select(field, es + [e]) == Select(field, es)
  {
    SelectOne(field, e);
    SelectConcat(field, es, [e]);
    assert Select(field, es) + [] == Select(field, es);
    if Select(field, es) != [] {
      OffsetGrown(es, e, a);
      OffsetGrown(es, e, b);
      assert (es + [e])[..a] == es[..a] && (es + [e])[b..] == es[b..] + [e];
      SelectConcat(field, es[b..], [e]);
    }
  }

  lemma {:induction false} RecordMatch(n: nat, field: Field, es: seq<Entry>, start: int, span: int, a: nat, b: nat, e: Entry)
    requires Recorded(n, field, es, start, span, a, b) && Named(field, e) && Offset(es, |es|) < n
    ensures Select(field, es) == [] <==> start == n
    ensures var es' := es + [e];
      var first := start == n;
      var start' := if first then Offset(es, |es|) else start;
      Recorded(n, field, es', start', Offset(es', |es'|) - start', if first then |es| else a, |es'|)
    ensures Select(field, es + [e]) == Select(field, es) + [e.value]
  {
    var es' := es + [e];
    SelectOne(field, e);
    SelectConcat(field, es, [e]);
    OffsetGrown(es, e, |es|);
    assert es'[|es'|..] == [];
    if Select(field, es) == [] {
      assert es'[..|es|] == es;
    } else {
      OffsetGrown(es, e, a);
      OffsetMonotone(es, a, |es|);
      assert es'[..a] == es[..a];
    }
  }

  lemma {:induction false} SpansAll(field: Field, es: seq<Entry>, a: nat, b: nat)
    requires Spans(field, es, a, b)
    ensures Select(field, es[a..b]) == Select(field, es)
  {
    assert es == es[..a] + (es[a..b] + es[b..]);
    SelectConcat(field, es[..a], es[a..b] + es[b..]);
    SelectConcat(field, es[a..b], es[b..]);
    assert [] + (Select(field, es[a..b]) + []) == Select(field, es[a..b]);
  }

  lemma {:induction false} SelectLast(field: Field, es: seq<Entry>)
    requires es != [] && Named(field, es[|es| - 1])
    ensures Select(field, es) != []
  {
    var n := |es| - 1;
    assert es == es[..n] + [es[n]];
    SelectConcat(field, es[..n], [es[n]]);
    SelectOne(field, es[n]);
  }
}
