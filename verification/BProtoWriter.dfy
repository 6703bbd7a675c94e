/** The generated writers, for any list of fields, and their exchange with the parsers. */
module BProtoWriter {
  import opened Wrappers
  import opened ByteOrder
  import opened BProto
  import opened BProtoParser

  lemma {:induction false} EncodeAllSnoc(es: seq<Entry>, e: Entry)
    ensures EncodeAll(es + [e]) == EncodeAll(es) + Encode(e)
  {
    assert (es + [e])[..|es|] == es && (es + [e])[..|es| + 1] == es + [e];
    OffsetNext(es + [e], |es|);
  }

  /** Other bytes in the payload of entry k give the message with another value there. */
  lemma {:induction false} EncodeAllFill(es: seq<Entry>, k: nat, data: seq<byte>)
    requires k < |es| && es[k].kind.IsData() && |data| == |es[k].value|
    ensures var at := Offset(es, k) + 8;
      && at + |data| <= |EncodeAll(es)|
      && EncodeAll(es[k := es[k].(value := data)]) == EncodeAll(es)[..at] + data + EncodeAll(es)[at + |data|..]
  {
    var e' := es[k].(value := data);
    var es' := es[k := e'];
    EncodeAllAt(es, k);
    EncodeAllAt(es', k);
    assert es'[..k] == es[..k] && es'[k + 1..] == es[k + 1..];
    FillOne(EncodeAll(es[..k]), Prefix(es[k]), es[k].value, data, EncodeAll(es[k + 1..]));
  }

  lemma {:induction false} EncodeAllAt(es: seq<Entry>, k: nat)
    requires k < |es|
    ensures EncodeAll(es) == EncodeAll(es[..k]) + (Encode(es[k]) + EncodeAll(es[k + 1..]))
  {
    assert es == es[..k] + es[k..];
    EncodeAllConcat(es[..k], es[k..]);
    assert es[k..][1..] == es[k + 1..];
  }

  lemma FillOne(a: seq<byte>, p: seq<byte>, v: seq<byte>, data: seq<byte>, z: seq<byte>)
    requires |v| == |data|
    ensures var s := a + ((p + v) + z);
      var at := |a| + |p|;
      a + ((p + data) + z) == s[..at] + data + s[at + |data|..]
  {
    var s, at := a + ((p + v) + z), |a| + |p|;
    assert s[..at] == a + p;
    assert s[at + |data|..] == z;
  }

  predicate RoomFor(field: Field, n: nat) {
    field.max.Some? ==> n < field.max.value
  }

  class Writer {
    const schema: Schema
    const out: array<byte>
    var used: nat
    var count: seq<nat>
    ghost var entries: seq<Entry>

    ghost predicate Valid()
      reads this, out
    {
      && ValidSchema(schema) && used <= out.Length && |count| == |schema|
      && AllWellFormed(entries) && out[..used] == EncodeAll(entries)
      && (forall i | 0 <= i < |entries| :: Known(schema, entries[i]))
      && forall f | 0 <= f < |schema| :: Counted(schema[f], count[f])
    }

    ghost predicate Counted(field: Field, n: nat)
      reads `entries
    {
      n == |Select(field, entries)| && (field.max.Some? ==> n <= field.max.value)
    }

    /** Writer_Init */
    constructor (schema: Schema, out: array<byte>)
      requires ValidSchema(schema)
      ensures Valid() && entries == [] && used == 0 && count == seq(|schema|, _ => 0) && this.schema == schema && this.out == out
    {
      this.schema, this.out, used, count, entries := schema, out, 0, seq(|schema|, _ => 0), [];
      new;
      assert out[..0] == [];
    }

    /** memcpy(o->out + o->used, ...); o->used += ... */
    method Put(s: seq<byte>)
      requires used + |s| <= out.Length
      modifies `used, out
      ensures used == old(used) + |s| && out[..used] == old(out[..used]) + s
      ensures out[used..] == old(out[used + |s|..])
    {
      forall i | 0 <= i < |s| {
        out[used + i] := s[i];
      }
      used := used + |s|;
    }

    lemma AddedKnown(f: nat, e: Entry)
      requires f < |schema| && Belongs(schema[f], e)
      ensures Known(schema, e)
    {
    }

    /** The bookkeeping of all Add functions. */
    method Added(f: nat, ghost e: Entry)
      requires ValidSchema(schema) && used <= out.Length && |count| == |schema| && AllWellFormed(entries)
      requires forall i | 0 <= i < |entries| :: Known(schema, entries[i])
      requires forall g | 0 <= g < |schema| :: Counted(schema[g], count[g])
      requires f < |schema| && Belongs(schema[f], e) && e.WellFormed() && RoomFor(schema[f], count[f])
      requires out[..used] == EncodeAll(entries) + Encode(e)
      modifies `count, `entries
      ensures Valid() && entries == old(entries) + [e] && count == old(count)[f := old(count)[f] + 1]
    {
      ghost var es, count0 := entries, count;
      EncodeAllSnoc(es, e);
      AddedKnown(f, e);
      count := count[f := count[f] + 1];
      entries := entries + [e];
      forall g | 0 <= g < |schema| ensures Counted(schema[g], count[g]) {
        assert old(Counted(schema[g], count0[g]));
        SelectAdded(f, g, es, e);
      }
    }

    lemma SelectAdded(f: nat, g: nat, es: seq<Entry>, e: Entry)
      requires ValidSchema(schema) && f < |schema| && g < |schema| && Belongs(schema[f], e)
      ensures |Select(schema[g], es + [e])| == |Select(schema[g], es)| + if g == f then 1 else 0
    {
      assert g != f ==> schema[g].id != schema[f].id;
      SelectConcat(schema[g], es, [e]);
      SelectOne(schema[g], e);
    }

    /** Add for an integer field. */
    method AddUint(f: nat, v: nat)
      requires Valid() && f < |schema| && !schema[f].kind.IsData() && RoomFor(schema[f], count[f])
      requires v < Pow256(schema[f].kind.Width()) && used + 4 + schema[f].kind.Width() <= out.Length
      modifies this, out
      ensures Valid() && used == old(used) + 4 + schema[f].kind.Width()
      ensures entries == old(entries) + [Entry(schema[f].id, schema[f].kind, ToLE(v, schema[f].kind.Width()))]
      ensures count == old(count)[f := old(count)[f] + 1]
      ensures out[used..] == old(out[used + 4 + schema[f].kind.Width()..])
    {
      var kind := schema[f].kind;
      ghost var e := Entry(schema[f].id, kind, ToLE(v, kind.Width()));
      ghost var before := out[..used];
      PutHeader(f, e);
      assert out[used..][kind.Width()..] == out[used + kind.Width()..];
      Put(ToLE(v, kind.Width()));
      Concat(before, Prefix(e), e.value);
      Added(f, e);
    }

    /** struct BProto_header_s */
    method PutHeader(f: nat, ghost e: Entry)
      requires f < |schema| && used + 4 <= out.Length && e.id == schema[f].id && e.kind == schema[f].kind
      modifies `used, out
      ensures used == old(used) + 4 && out[used..] == old(out[used + 4..])
      ensures out[..used] == old(out[..used]) + Prefix(e)[..4]
      ensures !e.kind.IsData() ==> out[..used] == old(out[..used]) + Prefix(e)
    {
      Put(ToLE(schema[f].id, 2) + ToLE(schema[f].kind.Tag(), 2));
      assert Prefix(e)[..4] == ToLE(e.id, 2) + ToLE(e.kind.Tag(), 2);
      assert !e.kind.IsData() ==> Prefix(e)[..4] == Prefix(e);
    }

    /** ... followed by struct BProto_data_header_s */
    method PutDataHeader(f: nat, len: nat, ghost e: Entry)
      requires f < |schema| && used + 8 <= out.Length && e.id == schema[f].id && e.kind == schema[f].kind
      requires e.kind.IsData() && len == |e.value|
      modifies `used, out
      ensures used == old(used) + 8 && out[used..] == old(out[used + 8..])
      ensures out[..used] == old(out[..used]) + Prefix(e)
    {
      ghost var before := out[..used];
      PutHeader(f, e);
      Put(ToLE(len, 4));
      assert Prefix(e) == Prefix(e)[..4] + ToLE(len, 4);
      Concat(before, Prefix(e)[..4], ToLE(len, 4));
    }

    /** Add for a data field: returns where the caller puts the payload; until then it is
        whatever the memory held. */
    method AddData(f: nat, len: nat) returns (dest: nat)
      requires Valid() && f < |schema| && schema[f].kind.IsData() && RoomFor(schema[f], count[f])
      requires len < 0x1_0000_0000 && (schema[f].kind.ConstData? ==> len == schema[f].size)
      requires used + 8 + len <= out.Length
      modifies this, out
      ensures Valid() && used == old(used) + 8 + len && dest == old(used) + 8
      ensures entries == old(entries) + [Entry(schema[f].id, schema[f].kind, out[dest..used])]
      ensures count == old(count)[f := old(count)[f] + 1] && dest == Offset(entries, |old(entries)|) + 8
      ensures out[used..] == old(out[used + 8 + len..])
    {
      ghost var e := Entry(schema[f].id, schema[f].kind, out[used + 8..used + 8 + len]);
      dest := Reserve(f, len, e);
      OffsetGrown(entries, e, |entries|);
      assert entries[..|entries|] == entries;
      Added(f, e);
    }

    /** The header, and room for a payload of which nothing is written yet. */
    method Reserve(f: nat, len: nat, ghost e: Entry) returns (dest: nat)
      requires f < |schema| && used + 8 + len <= out.Length && e.id == schema[f].id && e.kind == schema[f].kind
      requires e.kind.IsData() && e.value == out[used + 8..used + 8 + len]
      modifies `used, out
      ensures used == old(used) + 8 + len && dest == old(used) + 8 && out[dest..used] == e.value
      ensures out[..used] == old(out[..used]) + Encode(e) && out[used..] == old(out[used + 8 + len..])
    {
      ghost var before := out[..used];
      assert out[used + 8..][..len] == e.value && out[used + 8..][len..] == out[used + 8 + len..];
      PutDataHeader(f, len, e);
      dest := used;
      assert out[dest..][..len] == out[dest..dest + len] == e.value && out[dest..][len..] == out[dest + len..];
      used := used + len;
      assert out[..used] == out[..dest] + out[dest..used];
      Concat(before, Prefix(e), e.value);
    }

    /** The caller's memcpy to the place an Add function returned for entry k. */
    method Fill(dest: nat, data: seq<byte>, ghost k: nat)
      requires Valid() && k < |entries| && entries[k].kind.IsData() && |data| == |entries[k].value|
      requires dest == Offset(entries, k) + 8
      modifies out, `entries
      ensures Valid() && entries == old(entries)[k := Entry(old(entries)[k].id, old(entries)[k].kind, data)]
      ensures out[used..] == old(out[used..])
    {
      ghost var es := entries;
      EncodeAllFill(es, k, data);
      Overwrite(dest, data);
      entries := es[k := es[k].(value := data)];
      Filled(k, es, es[k].(value := data));
    }

    lemma Filled(k: nat, es: seq<Entry>, e: Entry)
      requires k < |es| && e.id == es[k].id && e.kind == es[k].kind && |e.value| == |es[k].value|
      requires ValidSchema(schema) && used <= out.Length && |count| == |schema| && AllWellFormed(es)
      requires forall i | 0 <= i < |es| :: Known(schema, es[i])
      requires forall f | 0 <= f < |schema| ::
        count[f] == |Select(schema[f], es)| && (schema[f].max.Some? ==> count[f] <= schema[f].max.value)
      requires entries == es[k := e] && out[..used] == EncodeAll(entries)
      ensures Valid()
    {
      SameNames(k, es, e, entries);
    }

    method Overwrite(dest: nat, data: seq<byte>)
      requires dest + |data| <= used <= out.Length
      modifies out
      ensures out[..used] == old(out[..used])[..dest] + data + old(out[..used])[dest + |data|..]
      ensures out[used..] == old(out[used..])
    {
      forall i | 0 <= i < |data| {
        out[dest + i] := data[i];
      }
    }

    lemma SameNames(k: nat, es: seq<Entry>, e: Entry, es': seq<Entry>)
      requires k < |es| && es' == es[k := e] && e.id == es[k].id && e.kind == es[k].kind && |e.value| == |es[k].value|
      requires AllWellFormed(es) && forall i | 0 <= i < |es| :: Known(schema, es[i])
      ensures AllWellFormed(es') && forall i | 0 <= i < |es'| :: Known(schema, es'[i])
      ensures forall f | 0 <= f < |schema| :: |Select(schema[f], es')| == |Select(schema[f], es)|
    {
      var f :| 0 <= f < |schema| && Belongs(schema[f], es[k]);
      assert Belongs(schema[f], e);
      forall f | 0 <= f < |schema| ensures |Select(schema[f], es')| == |Select(schema[f], es)| {
        SelectSame(schema[f], es, k, e);
      }
    }

    /** Writer_Finish */
    method Finish() returns (len: nat)
      requires Valid() && forall f | 0 <= f < |schema| :: schema[f].min <= count[f]
      ensures len == used && LegalMessage(schema, entries)
      ensures Accepts(schema, out[..len]) && Scan(out[..len], 0, len) == Some(entries)
    {
      len := used;
      forall f | 0 <= f < |schema| ensures CountAllowed(schema[f], |Select(schema[f], entries)|) {
        assert Counted(schema[f], count[f]);
      }
      ScanIff(out[..len], entries);
    }
  }

  lemma {:induction false} SelectSame(field: Field, es: seq<Entry>, k: nat, e: Entry)
    requires k < |es| && e.id == es[k].id && e.kind == es[k].kind
    ensures |Select(field, es[k := e])| == |Select(field, es)|
  {
    assert es == es[..k] + ([es[k]] + es[k + 1..]);
    assert es[k := e] == es[..k] + ([e] + es[k + 1..]);
    SelectConcat(field, es[..k], [es[k]] + es[k + 1..]);
    SelectConcat(field, es[..k], [e] + es[k + 1..]);
    SelectConcat(field, [es[k]], es[k + 1..]);
    SelectConcat(field, [e], es[k + 1..]);
    SelectOne(field, es[k]);
    SelectOne(field, e);
  }

  /** What a writer's user wrote is what a parser's user reads, field by field and in order. */
  method Exchange(writer: Writer, parser: Parser) returns (ok: bool)
    requires writer.Valid() && parser.schema == writer.schema
    requires forall f | 0 <= f < |writer.schema| :: writer.schema[f].min <= writer.count[f]
    modifies parser
    ensures ok && parser.Valid()
    ensures forall f: nat | f < |parser.schema| :: parser.Remaining(f) == Select(parser.schema[f], old(writer.entries))
  {
    ghost var es := writer.entries;
    var len := writer.Finish();
    ok := parser.Init(writer.out[..len]);
  }
}
