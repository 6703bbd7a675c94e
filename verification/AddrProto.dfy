/** The address encoding of protocol/addr.h, on top of the generated addr writer and parser. */
module AddrProto {
  import opened Wrappers
  import opened Addresses
  import opened ByteOrder
  import opened BProto
  import opened BProtoParser
  import opened BProtoWriter

  const ADDR_TYPE_IPV4 := 1
  const ADDR_TYPE_IPV6 := 2
  // positions in the schema
  const TYPE := 0
  const IP_PORT := 1
  const IPV4_ADDR := 2
  const IPV6_ADDR := 3

  /** addr_supported */
  predicate Supported(addr: BAddr) {
    addr.IPv4? || addr.IPv6?
  }

  /** addr_size */
  function SizeOf(addr: BAddr): nat
    requires Supported(addr)
  {
    // addr_SIZEtype + addr_SIZEip_port + addr_SIZEipv4_addr or addr_SIZEipv6_addr
    (4 + 1) + (8 + 2) + if addr.IPv4? then 8 + 4 else 8 + 16
  }

  /** The entries that stand for an address. */
  function Message(addr: BAddr): seq<Entry>
    requires Supported(addr)
  {
    if addr.IPv4? then
      [Entry(1, Uint8, ToLE(ADDR_TYPE_IPV4, 1)), Entry(2, ConstData, addr.port), Entry(3, ConstData, addr.ip)]
    else
      [Entry(1, Uint8, ToLE(ADDR_TYPE_IPV6, 1)), Entry(2, ConstData, addr.port), Entry(4, ConstData, addr.ip)]
  }

  /** addr_read said of the entries of an accepted message. */
  function Meaning(es: seq<Entry>): Option<BAddr> {
    var types, ports := Select(ADDR[TYPE], es), Select(ADDR[IP_PORT], es);
    var v4, v6 := Select(ADDR[IPV4_ADDR], es), Select(ADDR[IPV6_ADDR], es);
    if types == [] || ports == [] then None
    else if FromLE(types[0]) == ADDR_TYPE_IPV4 && v4 != [] then Some(IPv4(v4[0], ports[0]))
    else if FromLE(types[0]) == ADDR_TYPE_IPV6 && v6 != [] then Some(IPv6(v6[0], ports[0]))
    else None
  }

  /** The bytes of an address by position: its type, 1 or 2, the port and the ip as they are. */
  lemma AddressBytes(addr: BAddr)
    requires Supported(addr) && addr.Valid()
    ensures var s := EncodeAll(Message(addr));
      && |s| == SizeOf(addr) && s[4] == (if addr.IPv4? then 1 else 2)
      && s[13..15] == addr.port && s[23..] == addr.ip
  {
    var es := Message(addr);
    var a, b, c := Encode(es[0]), Encode(es[1]), Encode(es[2]);
    EntryBytes(es[0]);
    EntryBytes(es[1]);
    EntryBytes(es[2]);
    EncodeThree(es[0], es[1], es[2]);
    PartsAt(a, b, c);
    FirstByte(if addr.IPv4? then ADDR_TYPE_IPV4 else ADDR_TYPE_IPV6, 1);
  }

  lemma {:induction false} EncodeThree(e: Entry, f: Entry, g: Entry)
    ensures EncodeAll([e, f, g]) == Encode(e) + (Encode(f) + (Encode(g) + []))
  {
    assert [e, f, g][1..] == [f, g] && [f, g][1..] == [g] && [g][1..] == [];
    assert EncodeAll([g]) == Encode(g) + EncodeAll([]);
    assert EncodeAll([f, g]) == Encode(f) + EncodeAll([g]);
  }

  lemma PartsAt(a: seq<byte>, b: seq<byte>, c: seq<byte>)
    requires |a| == 5 && |b| == 10 && |c| >= 8
    ensures var s := a + (b + (c + []));
      |s| == 15 + |c| && s[4] == a[4] && s[13..15] == b[8..] && s[23..] == c[8..]
  {
  }

  /** addr_write */
  method Write(out: array<byte>, addr: BAddr) returns (len: nat)
    requires Supported(addr) && addr.Valid() && SizeOf(addr) <= out.Length
    modifies out
    ensures len == SizeOf(addr) && Accepts(ADDR, out[..len]) && Scan(out[..len], 0, len) == Some(Message(addr))
    ensures out[len..] == old(out[SizeOf(addr)..])
  {
    Widths();
    var writer := new Writer(ADDR, out);
    if addr.IPv4? {
      WriteFields(writer, ADDR_TYPE_IPV4, addr.port, IPV4_ADDR, addr.ip);
    } else {
      WriteFields(writer, ADDR_TYPE_IPV6, addr.port, IPV6_ADDR, addr.ip);
    }
    len := writer.Finish();
  }

  method WriteFields(writer: Writer, tag: nat, port: seq<byte>, f: nat, ip: seq<byte>)
    requires writer.Valid() && writer.schema == ADDR && writer.entries == [] && writer.used == 0 && writer.count == [0, 0, 0, 0]
    requires tag < 0x100 && |port| == 2 && IPV4_ADDR <= f <= IPV6_ADDR && |ip| == ADDR[f].size
    requires 5 + 10 + (8 + |ip|) <= writer.out.Length
    modifies writer, writer.out
    ensures writer.Valid() && writer.used == 5 + 10 + (8 + |ip|)
    ensures writer.entries == [Entry(1, Uint8, ToLE(tag, 1)), Entry(2, ConstData, port), Entry(f + 1, ConstData, ip)]
    ensures forall g | 0 <= g < |ADDR| :: ADDR[g].min <= writer.count[g]
    ensures writer.out[writer.used..] == old(writer.out[5 + 10 + (8 + |ip|)..])
  {
    Widths();
    ghost var before := writer.out[..];
    assert writer.out[5..] == before[5..];
    writer.AddUint(TYPE, tag);
    assert writer.out[5..][10..] == writer.out[15..] == before[15..];
    assert writer.out[15..][8 + |ip|..] == writer.out[15 + (8 + |ip|)..] == before[15 + (8 + |ip|)..];
    var e1 := Entry(1, Uint8, ToLE(tag, 1));
    assert writer.entries == [e1];
    var dest := writer.AddData(IP_PORT, 2);
    writer.Fill(dest, port, 1);
    dest := writer.AddData(f, |ip|);
    writer.Fill(dest, ip, 2);
  }

  /** addr_read */
  method Read(data: seq<byte>) returns (addr: Option<BAddr>)
    ensures addr == if Accepts(ADDR, data) then Meaning(Scan(data, 0, |data|).value) else None
    ensures addr.Some? ==> addr.value.Valid() && Supported(addr.value)
  {
    var parser := new Parser(ADDR);
    var ok := parser.Init(data);
    if !ok {
      return None;
    }
    ghost var es := parser.entries;
    TypeGiven(es);
    var tag;
    ok, tag := parser.GetUint(TYPE);
    if tag == ADDR_TYPE_IPV4 {
      addr := ReadParts(parser, IPV4_ADDR);
    } else if tag == ADDR_TYPE_IPV6 {
      addr := ReadParts(parser, IPV6_ADDR);
    } else {
      addr := None;
    }
    if addr.Some? { ConstSizes(data, es); }
  }

  method ReadParts(parser: Parser, f: nat) returns (addr: Option<BAddr>)
    requires parser.Valid() && parser.schema == ADDR && IPV4_ADDR <= f <= IPV6_ADDR
    modifies parser`pos, parser`next
    ensures addr == (if old(parser.Remaining(IP_PORT)) == [] || old(parser.Remaining(f)) == [] then None
                     else Some(Address(f, old(parser.Remaining(f))[0], old(parser.Remaining(IP_PORT))[0])))
  {
    var ok, at, end := parser.Get(IP_PORT);
    if !ok {
      return None;
    }
    var port := parser.buf[at..end];
    ok, at, end := parser.Get(f);
    if !ok {
      return None;
    }
    addr := Some(Address(f, parser.buf[at..end], port));
  }

  function Address(f: nat, ip: seq<byte>, port: seq<byte>): BAddr {
    if f == IPV4_ADDR then IPv4(ip, port) else IPv6(ip, port)
  }

  lemma TypeGiven(es: seq<Entry>)
    requires LegalMessage(ADDR, es)
    ensures Select(ADDR[TYPE], es) != []
  {
    assert CountAllowed(ADDR[TYPE], |Select(ADDR[TYPE], es)|);
  }

  /** Validation has checked the sizes of const data. */
  lemma ConstSizes(data: seq<byte>, es: seq<Entry>)
    requires LegalMessage(ADDR, es) && Meaning(es).Some?
    ensures Meaning(es).value.Valid()
  {
    SelectedSize(es, IP_PORT);
    SelectedSize(es, IPV4_ADDR);
    SelectedSize(es, IPV6_ADDR);
  }

  lemma {:induction false} SelectedSize(es: seq<Entry>, f: nat)
    requires IP_PORT <= f <= IPV6_ADDR && forall i | 0 <= i < |es| :: Known(ADDR, es[i])
    ensures forall v | v in Select(ADDR[f], es) :: |v| == ADDR[f].size
  {
    if es != [] {
      SelectedSize(es[1..], f);
      assert Known(ADDR, es[0]);
    }
  }

  function OneValue(field: Field, e: Entry): seq<seq<byte>> {
    if Named(field, e) then [e.value] else []
  }

  lemma {:induction false} SelectThree(field: Field, a: Entry, b: Entry, c: Entry)
    ensures Select(field, [a, b, c]) == OneValue(field, a) + (OneValue(field, b) + OneValue(field, c))
  {
    assert [a, b, c] == [a] + ([b] + [c]);
    SelectConcat(field, [a], [b] + [c]);
    SelectConcat(field, [b], [c]);
    SelectOne(field, a);
    SelectOne(field, b);
    SelectOne(field, c);
  }

  lemma {:induction false} MessageFields(a: Entry, b: Entry, c: Entry, f: nat)
    requires a.id == 1 && a.kind == Uint8 && b.id == 2 && b.kind == ConstData
    requires IPV4_ADDR <= f <= IPV6_ADDR && c.id == f + 1 && c.kind == ConstData
    ensures Select(ADDR[TYPE], [a, b, c]) == [a.value] && Select(ADDR[IP_PORT], [a, b, c]) == [b.value]
    ensures Select(ADDR[f], [a, b, c]) == [c.value]
  {
    SelectThree(ADDR[TYPE], a, b, c);
    SelectThree(ADDR[IP_PORT], a, b, c);
    SelectThree(ADDR[f], a, b, c);
  }

  /** Reading what was written gives the address back, whatever the address. */
  lemma {:induction false} MessageMeans(addr: BAddr)
    requires Supported(addr) && addr.Valid()
    ensures Meaning(Message(addr)) == Some(addr)
  {
    Widths();
    FromToLE(ADDR_TYPE_IPV4, 1);
    FromToLE(ADDR_TYPE_IPV6, 1);
    var es := Message(addr);
    MessageFields(es[0], es[1], es[2], if addr.IPv4? then IPV4_ADDR else IPV6_ADDR);
  }

  /** addr_write, then addr_read of the bytes written. */
  method RoundTrip(out: array<byte>, addr: BAddr) returns (back: Option<BAddr>)
    requires Supported(addr) && addr.Valid() && SizeOf(addr) <= out.Length
    modifies out
    ensures back == Some(addr)
  {
    var len := Write(out, addr);
    MessageMeans(addr);
    back := Read(out[..len]);
  }
}
