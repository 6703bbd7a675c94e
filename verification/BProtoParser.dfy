/** The generated parsers: one validating pass, then a resumable getter per field. */
module BProtoParser {
  import opened Wrappers
  import opened ByteOrder
  import opened BProto

  /** The field whose case of the switch an entry takes, or None for default. */
  function FieldOf(schema: Schema, e: Entry): (f: Option<nat>)
    ensures f.Some? ==> f.value < |schema| && Belongs(schema[f.value], e)
    ensures f.None? ==> !Known(schema, e)
  {
    FieldFrom(schema, e, 0)
  }

  function FieldFrom(schema: Schema, e: Entry, from: nat): (f: Option<nat>)
    requires from <= |schema|
    ensures f.Some? ==> f.value < |schema| && Belongs(schema[f.value], e)
    ensures f.None? ==> forall g | from <= g < |schema| :: !Belongs(schema[g], e)
    decreases |schema| - from
  {
    if from == |schema| then None
    else if Belongs(schema[from], e) then Some(from)
    else FieldFrom(schema, e, from + 1)
  }

  /** Field f's start, span and pos members, where entries a up to b are its window and c is next. */
  ghost predicate Ready(field: Field, es: seq<Entry>, start: int, span: int, pos: int, a: nat, b: nat, c: nat) {
    && a <= c <= b <= |es| && start == Offset(es, a)
    && 0 <= pos <= span && start + pos == Offset(es, c) && start + span == Offset(es, b)
    && (a < b ==> Named(field, es[b - 1]))
    && Select(field, es[a..b]) == Select(field, es)
  }

  /** The first loop of Parser_Init has read the entries es, up to p, and they are all known. */
  ghost predicate Progress(schema: Schema, buf: seq<byte>, p: nat, es: seq<Entry>) {
    && p <= |buf| && AllWellFormed(es) && buf[..p] == EncodeAll(es)
    && forall i | 0 <= i < |es| :: Known(schema, es[i])
  }

  lemma {:induction false} ProgressScanned(schema: Schema, buf: seq<byte>, p: nat, es: seq<Entry>)
    requires Progress(schema, buf, p, es)
    ensures p == Offset(es, |es|) && Scan(buf, 0, |buf|) == Joined(es, Scan(buf, p, |buf|))
  {
    assert es[..|es|] == es && buf[0..p] == buf[..p];
    ScanEncoded(buf, 0, p, es);
    ScanSplit(buf, 0, p, |buf|);
  }

  lemma {:induction false} RejectShort(schema: Schema, buf: seq<byte>, p: nat, es: seq<Entry>)
    requires Progress(schema, buf, p, es) && p < |buf| && ValueAt(buf, p, |buf|).None?
    ensures !Accepts(schema, buf)
  {
    ProgressScanned(schema, buf, p, es);
  }

  lemma {:induction false} RejectUnknown(schema: Schema, buf: seq<byte>, p: nat, es: seq<Entry>)
    requires Progress(schema, buf, p, es) && p < |buf| && ValueAt(buf, p, |buf|).Some?
    requires !Known(schema, EntryAt(buf, p, |buf|))
    ensures !Accepts(schema, buf)
  {
    ProgressScanned(schema, buf, p, es);
    ScanStep(buf, p, |buf|);
    if Scan(buf, p, |buf|).Some? {
      assert Scan(buf, 0, |buf|).value[|es|] == EntryAt(buf, p, |buf|);
    }
  }

  lemma {:induction false} ProgressNext(schema: Schema, buf: seq<byte>, p: nat, es: seq<Entry>, end: nat, e: Entry)
    requires Progress(schema, buf, p, es) && ValueAt(buf, p, |buf|).Some? && end == ValueAt(buf, p, |buf|).value.1
    requires e == EntryAt(buf, p, |buf|) && Known(schema, e)
    ensures Progress(schema, buf, end, es + [e]) && p == Offset(es, |es|) && end == Offset(es + [e], |es| + 1)
  {
    ReadIsEncoded(buf, p, |buf|);
    assert es[..|es|] == es;
    assert (es + [e])[..|es|] == es && (es + [e])[..|es| + 1] == es + [e];
    OffsetNext(es + [e], |es|);
    assert buf[..end] == buf[..p] + buf[p..end];
  }

  lemma {:induction false} Finished(schema: Schema, buf: seq<byte>, es: seq<Entry>)
    requires Progress(schema, buf, |buf|, es)
    ensures buf == EncodeAll(es) && Scan(buf, 0, |buf|) == Some(es)
    ensures Accepts(schema, buf) <==> forall f | 0 <= f < |schema| :: CountAllowed(schema[f], |Select(schema[f], es)|)
  {
    assert buf[..|buf|] == buf;
    ScanIff(buf, es);
  }

  lemma {:induction false} ReadyFound(field: Field, es: seq<Entry>, n: nat, start: int, span: int, a: nat, b: nat)
    requires Recorded(n, field, es, start, span, a, b) && Select(field, es) != []
    ensures Ready(field, es, start, span, 0, a, b, a)
  {
    OffsetMonotone(es, a, b);
    SpansAll(field, es, a, b);
  }

  lemma {:induction false} ReadyMissing(field: Field, es: seq<Entry>, n: nat, start: int, span: int)
    requires Recorded(n, field, es, start, span, |es|, |es|) && Select(field, es) == [] && n == |EncodeAll(es)|
    ensures Ready(field, es, start, span, 0, |es|, |es|, |es|)
  {
    assert es[..|es|] == es && es[|es|..|es|] == [];
  }

  /** A getter that stops short of its window's end has a value of the field before it. */
  lemma {:induction false} Exhausted(field: Field, es: seq<Entry>, start: int, span: int, pos: int, a: nat, b: nat, c: nat)
    requires Ready(field, es, start, span, pos, a, b, c)
    ensures pos == span <==> Select(field, es[c..b]) == []
    ensures pos == span <==> c == b
  {
    if c < b {
      OffsetMonotone(es, c, b);
      assert es[c..b][b - c - 1] == es[b - 1];
      SelectLast(field, es[c..b]);
    }
  }

  /** What a getter's ASSERTs rely on: the rest of its window, p up to hi, starts with a whole entry. */
  lemma {:induction false} GetterAt(buf: seq<byte>, es: seq<Entry>, b: nat, c: nat, p: nat, hi: nat)
    requires AllWellFormed(es) && buf == EncodeAll(es) && c < b <= |es|
    requires p == Offset(es, c) && hi == Offset(es, b)
    ensures p < hi <= |buf| && ValueAt(buf, p, hi).Some? && EntryAt(buf, p, hi) == es[c]
    ensures ValueAt(buf, p, hi).value.1 == Offset(es, c + 1) > p
  {
    EntryIn(buf, es, c);
    EntryIn(buf, es, b - 1);
    OffsetMonotone(es, c, b);
    OffsetMonotone(es, c, c + 1);
    if c + 1 < b { OffsetMonotone(es, c + 1, b); }
    ValueAtShorter(buf, p, hi, |buf|);
  }

  lemma {:induction false} ReadyNext(field: Field, es: seq<Entry>, start: int, span: int, pos: int,
                                     a: nat, b: nat, c: nat, end: nat)
    requires Ready(field, es, start, span, pos, a, b, c) && c < b && end == Offset(es, c + 1)
    ensures Ready(field, es, start, span, end - start, a, b, c + 1) && end - start > pos
  {
    OffsetMonotone(es, c, c + 1);
    if c + 1 < b { OffsetMonotone(es, c + 1, b); }
  }

  lemma {:induction false} ValueAtShorter(buf: seq<byte>, p: nat, mid: nat, end: nat)
    requires p <= mid <= end <= |buf| && ValueAt(buf, p, end).Some? && ValueAt(buf, p, end).value.1 <= mid
    ensures ValueAt(buf, p, mid) == ValueAt(buf, p, end) && EntryAt(buf, p, mid) == EntryAt(buf, p, end)
  {
  }

  lemma {:induction false} SelectStep(field: Field, es: seq<Entry>, c: nat, b: nat)
    requires c < b <= |es|
    ensures Select(field, es[c..b]) == (if Named(field, es[c]) then [es[c].value] else []) + Select(field, es[c + 1..b])
  {
    assert es[c..b][1..] == es[c + 1..b];
  }

  class Parser {
    const schema: Schema
    var buf: seq<byte>
    var start: seq<int>
    var span: seq<int>
    var pos: seq<int>

    ghost var entries: seq<Entry>
    ghost var first: seq<nat>
    ghost var last: seq<nat>
    ghost var next: seq<nat>

    ghost predicate Sized()
      reads `start, `span, `pos, `first, `last, `next
    {
      && |start| == |schema| && |span| == |schema| && |pos| == |schema|
      && |first| == |schema| && |last| == |schema| && |next| == |schema|
    }

    /** What acceptance establishes and every getter keeps. */
    ghost predicate Valid()
      reads this
    {
      && ValidSchema(schema) && Sized() && AllWellFormed(entries) && buf == EncodeAll(entries)
      && forall f | 0 <= f < |schema| ::
           Ready(schema[f], entries, start[f], span[f], pos[f], first[f], last[f], next[f])
    }

    /** The values of field f that its getter has yet to return. */
    ghost function Remaining(f: nat): seq<seq<byte>>
      requires Valid() && f < |schema|
      reads this
    {
      Select(schema[f], entries[next[f]..last[f]])
    }

    constructor (schema: Schema)
      ensures this.schema == schema
    {
      this.schema := schema;
    }

    /** The part of the loops that reads an entry's header and finds its value and its end. */
    method ReadEntry(p: nat, left: nat) returns (ok: bool, id: nat, kind: Kind, at: nat, end: nat)
      requires p + left <= |buf|
      ensures ok == ValueAt(buf, p, p + left).Some?
      ensures ok ==>
        && ValueAt(buf, p, p + left) == Some((at, end)) && at <= end
        && EntryAt(buf, p, p + left) == Entry(id, kind, buf[at..end])
    {
      ok, id, kind, at, end := false, 0, Uint8, p, p;
      var rest := left;
      if !(rest >= 4) {
        return;
      }
      id := FromLE(buf[p..p + 2]);
      var known := KindOf(FromLE(buf[p + 2..p + 4]));
      at, rest := at + 4, rest - 4;
      match known {
        case None =>
        case Some(k) =>
          kind := k;
          if kind.IsData() {
            if !(rest >= 4) {
              return;
            }
            var payloadLen := FromLE(buf[at..at + 4]);
            at, rest := at + 4, rest - 4;
            if !(rest >= payloadLen) {
              return;
            }
            ok, end := true, at + payloadLen;
          } else {
            if !(rest >= kind.Width()) {
              return;
            }
            ok, end := true, at + kind.Width();
          }
      }
    }

    /** What the first loop knows of field f after the entries es. */
    ghost predicate Seen(f: nat, es: seq<Entry>, count: seq<nat>)
      requires Sized() && |count| == |schema| && f < |schema|
      reads `buf, `start, `span, `pos, `first, `last, `next
    {
      && Recorded(|buf|, schema[f], es, start[f], span[f], first[f], last[f])
      && count[f] == |Select(schema[f], es)|
    }

    /** The assignments in the case of field f, for an entry from entryPos up to end. */
    method Record(f: nat, entryPos: nat, end: nat, count: seq<nat>, ghost es: seq<Entry>, ghost e: Entry)
      returns (count': seq<nat>)
      requires ValidSchema(schema) && Sized() && |count| == |schema| && f < |schema|
      requires forall g: nat | g < |schema| :: Seen(g, es, count)
      requires Named(schema[f], e) && entryPos == Offset(es, |es|) && entryPos < |buf| && end == Offset(es + [e], |es| + 1)
      modifies `start, `span, `first, `last
      ensures Sized() && |count'| == |schema|
      ensures forall g: nat | g < |schema| :: Seen(g, es + [e], count')
    {
      ghost var start0, span0, first0, last0 := start, span, first, last;
      if start[f] == |buf| {
        start := start[f := entryPos];
        first := first[f := |es|];
      }
      span := span[f := end - start[f]];
      last := last[f := |es| + 1];
      count' := count[f := count[f] + 1];
      forall g: nat | g < |schema| ensures Seen(g, es + [e], count') {
        assert old(Seen(g, es, count));
        if g == f {
          RecordMatch(|buf|, schema[f], es, start0[f], span0[f], first0[f], last0[f], e);
        } else {
          assert schema[g].id != schema[f].id;
          RecordOther(|buf|, schema[g], es, start0[g], span0[g], first0[g], last0[g], e);
        }
      }
    }

    /** Parser_Init */
    method Init(buffer: seq<byte>) returns (ok: bool)
      requires ValidSchema(schema)
      modifies this
      ensures buf == buffer && ok == Accepts(schema, buffer)
      ensures ok ==>
        && Valid() && Scan(buf, 0, |buf|) == Some(entries)
        && forall f: nat | f < |schema| :: Remaining(f) == Select(schema[f], entries)
    {
      var n := |schema|;
      buf := buffer;
      start, span, pos := seq(n, _ => |buffer|), seq(n, _ => 0), seq(n, _ => 0);
      first, last, next := seq(n, _ => 0), seq(n, _ => 0), seq(n, _ => 0);
      entries := [];
      ok := Parse();
    }

    method Parse() returns (ok: bool)
      requires ValidSchema(schema) && Sized() && entries == []
      requires forall f | 0 <= f < |schema| :: start[f] == |buf| && span[f] == 0 && pos[f] == 0
      modifies `start, `span, `first, `last, `next, `entries
      ensures ok == Accepts(schema, buf)
      ensures ok ==>
        && Valid() && Scan(buf, 0, |buf|) == Some(entries)
        && forall f: nat | f < |schema| :: Remaining(f) == Select(schema[f], entries)
    {
      var count;
      ok, count := ReadAll();
      if !ok {
        return;
      }
      Finished(schema, buf, entries);
      CountsAgree(count);
      ok := CheckCounts(count);
      if ok {
        Open(count);
      }
    }

    /** Its loop. */
    method ReadAll() returns (ok: bool, count: seq<nat>)
      requires ValidSchema(schema) && Sized() && entries == []
      requires forall f | 0 <= f < |schema| :: start[f] == |buf| && span[f] == 0
      modifies `start, `span, `first, `last, `entries
      ensures Sized() && |count| == |schema|
      ensures !ok ==> !Accepts(schema, buf)
      ensures ok ==> Progress(schema, buf, |buf|, entries) && forall g: nat | g < |schema| :: Seen(g, entries, count)
    {
      count := seq(|schema|, _ => 0);
      var p, left := 0, |buf|;
      while left > 0
        invariant 0 <= p && p + left == |buf| && Sized() && |count| == |schema|
        invariant Progress(schema, buf, p, entries)
        invariant forall g: nat | g < |schema| :: Seen(g, entries, count)
      {
        var entryPos := p;
        var good, id, kind, at, end := ReadEntry(p, left);
        if !good {
          RejectShort(schema, buf, p, entries);
          return false, count;
        }
        p, left := end, left - (end - p);
        ghost var e := EntryAt(buf, entryPos, |buf|);
        var f := FieldOf(schema, Entry(id, kind, buf[at..end]));
        if f.None? {
          RejectUnknown(schema, buf, entryPos, entries);
          return false, count;
        }
        ProgressNext(schema, buf, entryPos, entries, end, e);
        count := Record(f.value, entryPos, end, count, entries, e);
        entries := entries + [e];
      }
      ok := true;
    }

    lemma CountsAgree(count: seq<nat>)
      requires Sized() && |count| == |schema| && forall g: nat | g < |schema| :: Seen(g, entries, count)
      ensures (forall f | 0 <= f < |schema| :: CountAllowed(schema[f], count[f]))
         <==> forall f | 0 <= f < |schema| :: CountAllowed(schema[f], |Select(schema[f], entries)|)
    {
      assert forall f: nat | f < |schema| :: Seen(f, entries, count) && count[f] == |Select(schema[f], entries)|;
    }

    /** The checks that follow the loop. */
    method CheckCounts(count: seq<nat>) returns (ok: bool)
      requires |count| == |schema|
      ensures ok <==> forall f | 0 <= f < |schema| :: CountAllowed(schema[f], count[f])
    {
      var i := 0;
      while i < |schema|
        invariant i <= |schema| && forall f | 0 <= f < i :: CountAllowed(schema[f], count[f])
      {
        if !CountAllowed(schema[i], count[i]) {
          return false;
        }
        i := i + 1;
      }
      ok := true;
    }

    /** The getters start at the first entry of their fields. */
    ghost method Open(count: seq<nat>)
      requires ValidSchema(schema) && Sized() && |count| == |schema| && AllWellFormed(entries) && buf == EncodeAll(entries)
      requires forall f | 0 <= f < |schema| :: pos[f] == 0
      requires forall f: nat | f < |schema| :: Seen(f, entries, count)
      modifies `first, `last, `next
      ensures Valid() && forall f: nat | f < |schema| :: Remaining(f) == Select(schema[f], entries)
    {
      var first0, last0, es := first, last, entries;
      first := seq(|schema|, f requires 0 <= f < |schema| => if Select(schema[f], es) == [] then |es| else first0[f]);
      last := seq(|schema|, f requires 0 <= f < |schema| => if Select(schema[f], es) == [] then |es| else last0[f]);
      next := first;
      forall f | 0 <= f < |schema|
        ensures Ready(schema[f], entries, start[f], span[f], pos[f], first[f], last[f], next[f])
      {
        assert old(Seen(f, entries, count));
        if Select(schema[f], es) == [] {
          ReadyMissing(schema[f], es, |buf|, start[f], span[f]);
        } else {
          ReadyFound(schema[f], es, |buf|, start[f], span[f], first[f], last[f]);
        }
      }
    }

    /** GotEverything: every field has been read to its end. */
    method GotEverything() returns (r: bool)
      requires Valid()
      ensures r <==> forall f: nat | f < |schema| :: Remaining(f) == []
    {
      var i: nat := 0;
      while i < |schema|
        invariant i <= |schema| && forall f: nat | f < i :: Remaining(f) == []
      {
        Exhausted(schema[i], entries, start[i], span[i], pos[i], first[i], last[i], next[i]);
        if pos[i] != span[i] {
          assert Remaining(i) != [];
          return false;
        }
        i := i + 1;
      }
      r := true;
    }

    /** The getter of field f: the next value, at from at up to end, or false when there is none. */
    method Get(f: nat) returns (ok: bool, at: nat, end: nat)
      requires Valid() && f < |schema|
      modifies `pos, `next
      ensures Valid() && forall g: nat | g < |schema| && g != f :: Remaining(g) == old(Remaining(g))
      ensures ok == (old(Remaining(f)) != [])
      ensures !ok ==> Remaining(f) == []
      ensures ok ==>
        && at <= end <= |buf| && [buf[at..end]] + Remaining(f) == old(Remaining(f))
    {
      ghost var pos0, next0 := pos, next;
      var left := span[f] - pos[f];
      ok, at, end := false, 0, 0;
      while left > 0
        invariant Valid() && left == span[f] - pos[f]
        invariant Others(f, pos0, next0) && Remaining(f) == old(Remaining(f))
        decreases left
      {
        ok, at, end := Step(f, left);
        left := span[f] - pos[f];
        if ok {
          return;
        }
      }
      Exhausted(schema[f], entries, start[f], span[f], pos[f], first[f], last[f], next[f]);
    }

    ghost predicate Others(f: nat, pos0: seq<int>, next0: seq<nat>)
      reads `pos, `next
    {
      && |pos| == |pos0| && |next| == |next0|
      && (forall g | 0 <= g < |pos| && g != f :: pos[g] == pos0[g])
      && (forall g | 0 <= g < |next| && g != f :: next[g] == next0[g])
    }

    /** One turn of the getter's loop. */
    method Step(f: nat, left: nat) returns (ok: bool, at: nat, end: nat)
      requires Valid() && f < |schema| && 0 < left == span[f] - pos[f]
      modifies `pos, `next
      ensures Valid() && Others(f, old(pos), old(next)) && pos[f] > old(pos[f])
      ensures ok ==> at <= end <= |buf| && [buf[at..end]] + Remaining(f) == old(Remaining(f))
      ensures !ok ==> Remaining(f) == old(Remaining(f))
    {
      ghost var c := next[f];
      var id, kind;
      id, kind, at, end := ReadNext(f, left);
      SelectStep(schema[f], entries, c, last[f]);
      Advance(f, end);
      ok := kind == schema[f].kind && id == schema[f].id;
    }

    method Advance(f: nat, end: nat)
      requires Valid() && f < |schema| && next[f] < last[f] && end == Offset(entries, next[f] + 1)
      modifies `pos, `next
      ensures Valid() && Others(f, old(pos), old(next))
      ensures pos[f] > old(pos[f]) && next[f] == old(next[f]) + 1
    {
      ReadyNext(schema[f], entries, start[f], span[f], pos[f], first[f], last[f], next[f], end);
      pos := pos[f := end - start[f]];
      next := next[f := next[f] + 1];
    }

    /** Where it reads the entry the getter has come to; the reads stay in the window. */
    method ReadNext(f: nat, left: nat) returns (id: nat, kind: Kind, at: nat, end: nat)
      requires Valid() && f < |schema| && 0 < left == span[f] - pos[f]
      ensures next[f] < last[f] <= |entries| && at <= end == Offset(entries, next[f] + 1) && end <= start[f] + span[f] <= |buf|
      ensures entries[next[f]] == Entry(id, kind, buf[at..end])
    {
      ghost var c := next[f];
      var p := start[f] + pos[f];
      Exhausted(schema[f], entries, start[f], span[f], pos[f], first[f], last[f], c);
      GetterAt(buf, entries, last[f], c, p, p + left);
      var good;
      good, id, kind, at, end := ReadEntry(p, left);
      assert good;
    }

    /** A getter of an integer field. */
    method GetUint(f: nat) returns (ok: bool, v: nat)
      requires Valid() && f < |schema| && !schema[f].kind.IsData()
      modifies `pos, `next
      ensures Valid() && forall g: nat | g < |schema| && g != f :: Remaining(g) == old(Remaining(g))
      ensures ok == (old(Remaining(f)) != [])
      ensures if ok then v == FromLE(old(Remaining(f))[0]) && Remaining(f) == old(Remaining(f))[1..] else Remaining(f) == []
    {
      var at, end;
      ok, at, end := Get(f);
      v := if ok then FromLE(buf[at..end]) else 0;
    }

    /** The Reset function of field f. */
    method Reset(f: nat)
      requires Valid() && f < |schema|
      modifies `pos, `next
      ensures Valid() && Remaining(f) == Select(schema[f], entries)
      ensures forall g: nat | g < |schema| && g != f :: Remaining(g) == old(Remaining(g))
    {
      pos := pos[f := 0];
      next := next[f := first[f]];
    }

    /** The Forward function of field f. */
    method Forward(f: nat)
      requires Valid() && f < |schema|
      modifies `pos, `next
      ensures Valid() && Remaining(f) == []
      ensures forall g: nat | g < |schema| && g != f :: Remaining(g) == old(Remaining(g))
    {
      pos := pos[f := span[f]];
      next := next[f := last[f]];
      assert entries[last[f]..last[f]] == [];
    }
  }
}
