/** flow/RouteBuffer.c: packets routed to output buffers by handing over their memory.

    Packet memory is an arena of cells; a cell is named by its index. Buffers and sources are
    named by index too, so that any number of sources may route to any number of buffers. */
module RouteBuffer {
  import opened Wrappers

  type Cell = nat

  /** Where a cell is. */
  datatype Place = Free(buffer: nat) | Used(buffer: nat) | Current(source: nat)

  function Overwrite(s: seq<byte>, at: nat, bytes: seq<byte>): (r: seq<byte>)
    requires at + |bytes| <= |s|
    ensures |r| == |s|
  {
    s[..at] + bytes + s[at + |bytes|..]
  }

  function PacketIn(data: seq<seq<byte>>, len: seq<nat>, c: Cell): seq<byte> {
    if c < |data| && c < |len| && len[c] <= |data[c]| then data[c][..len[c]] else []
  }

  /** The list of a place holds the cells that are there, each once. */
  ghost predicate Holds(place: seq<Place>, list: seq<Cell>, p: Place) {
    Once(list) && forall c: Cell :: c in list <==> c < |place| && place[c] == p
  }

  /** A buffer still holds the last packets routed to it, unchanged; all before them and the first
      of them have been passed on. */
  ghost predicate Delivers(data: seq<seq<byte>>, len: seq<nat>, used: seq<Cell>,
                           routed: seq<seq<byte>>, sent: seq<seq<byte>>) {
    var n := |routed| - |used|;
    && 0 <= n
    && (forall i | 0 <= i < |used| :: routed[n + i] == PacketIn(data, len, used[i]))
    && sent == routed[..if used == [] then n else n + 1]
  }

  /** Cells that are not in the list may change. */
  lemma DeliversFrame(data: seq<seq<byte>>, len: seq<nat>, data': seq<seq<byte>>, len': seq<nat>, used: seq<Cell>,
                      routed: seq<seq<byte>>, sent: seq<seq<byte>>)
    requires Delivers(data, len, used, routed, sent)
    requires forall c | c in used :: PacketIn(data', len', c) == PacketIn(data, len, c)
    ensures Delivers(data', len', used, routed, sent)
  {
    forall i | 0 <= i < |used| ensures PacketIn(data', len', used[i]) == PacketIn(data, len, used[i]) {
      assert used[i] in used;
    }
  }

  /** A packet routed goes to the end of the buffer, and is passed on if it was alone. */
  lemma DeliversRouted(data: seq<seq<byte>>, len: seq<nat>, used: seq<Cell>, c: Cell,
                       routed: seq<seq<byte>>, sent: seq<seq<byte>>)
    requires Delivers(data, len, used, routed, sent)
    ensures var packet := PacketIn(data, len, c);
      Delivers(data, len, used + [c], routed + [packet], if used == [] then sent + [packet] else sent)
  {
    var packet := PacketIn(data, len, c);
    var n := |routed| - |used|;
    forall i | 0 <= i < |used| + 1
      ensures (routed + [packet])[n + i] == PacketIn(data, len, (used + [c])[i])
    {
      assert i < |used| ==> (routed + [packet])[n + i] == routed[n + i];
    }
  }

  /** A packet done leaves the front, and the next one, if any, is passed on. */
  lemma DeliversDone(data: seq<seq<byte>>, len: seq<nat>, used: seq<Cell>, routed: seq<seq<byte>>, sent: seq<seq<byte>>)
    requires Delivers(data, len, used, routed, sent) && used != []
    ensures Delivers(data, len, used[1..], routed,
                     if used[1..] == [] then sent else sent + [PacketIn(data, len, used[1])])
  {
    var n := |routed| - |used|;
    forall i | 0 <= i < |used| - 1 ensures routed[n + 1 + i] == PacketIn(data, len, used[1..][i]) {
      assert routed[n + (1 + i)] == PacketIn(data, len, used[1 + i]);
    }
    if used[1..] != [] {
      assert routed[n + 1] == PacketIn(data, len, used[1]);
      assert routed[..n + 2] == routed[..n + 1] + [routed[n + 1]];
    }
  }

  lemma HoldsElsewhere(place: seq<Place>, list: seq<Cell>, p: Place, c: Cell, q: Place)
    requires Holds(place, list, p) && c < |place| && place[c] != p && q != p
    ensures Holds(place[c := q], list, p)
  {
  }

  lemma HoldsAdded(place: seq<Place>, list: seq<Cell>, p: Place, c: Cell)
    requires Holds(place, list, p) && c < |place| && place[c] != p
    ensures Holds(place[c := p], list + [c], p)
  {
    assert c !in list;
  }

  lemma HoldsFirst(place: seq<Place>, list: seq<Cell>, p: Place, q: Place)
    requires Holds(place, list, p) && list != [] && q != p
    ensures list[0] < |place| && place[list[0]] == p && Holds(place[list[0] := q], list[1..], p)
  {
    var c, rest := list[0], list[1..];
    assert c in list;
    forall i, j | 0 <= i < j < |rest| ensures rest[i] != rest[j] {
      assert rest[i] == list[i + 1] && rest[j] == list[j + 1];
    }
    assert c !in rest;
    assert list == [c] + rest;
    assert forall x :: x in rest <==> x in list && x != c;
  }

  lemma HoldsLast(place: seq<Place>, list: seq<Cell>, p: Place, q: Place)
    requires Holds(place, list, p) && list != [] && q != p
    ensures var c := list[|list| - 1];
      c < |place| && place[c] == p && Holds(place[c := q], list[..|list| - 1], p)
  {
    var c := list[|list| - 1];
    var rest := list[..|list| - 1];
    assert c in list;
    assert c !in rest;
    assert list == rest + [c];
    assert forall x :: x in rest <==> x in list && x != c;
  }

  lemma HoldsReplaced(place: seq<Place>, c: Cell, p: Place, q: Place, c': Cell)
    requires Holds(place, [c], p) && c' < |place| && place[c'] != p && q != p
    ensures c < |place| && Holds(place[c := q][c' := p], [c'], p)
  {
    assert c in [c];
  }

  lemma HoldsNew(place: seq<Place>, list: seq<Cell>, p: Place)
    requires Holds(place, list, p)
    ensures Holds(place + [p], list + [|place|], p)
  {
    assert |place| !in list;
  }

  /** New cells elsewhere. */
  lemma HoldsGrown(place: seq<Place>, place': seq<Place>, list: seq<Cell>, p: Place)
    requires Holds(place, list, p) && |place| <= |place'| && place'[..|place|] == place
    requires forall c: Cell | |place| <= c < |place'| :: place'[c] != p
    ensures Holds(place', list, p)
  {
    forall c: Cell | c < |place| ensures place'[c] == place[c] {
      assert place'[..|place|][c] == place'[c];
    }
  }

  lemma DeliversGrown(data: seq<seq<byte>>, len: seq<nat>, data': seq<seq<byte>>, len': seq<nat>, place: seq<Place>,
                      p: Place, used: seq<Cell>, routed: seq<seq<byte>>, sent: seq<seq<byte>>)
    requires Delivers(data, len, used, routed, sent) && Holds(place, used, p)
    requires |place| == |data| == |len| <= |data'| && |data| <= |len'| && data'[..|data|] == data && len'[..|len|] == len
    ensures Delivers(data', len', used, routed, sent)
  {
    forall c | c in used ensures PacketIn(data', len', c) == PacketIn(data, len, c) {
      assert data'[..|data|][c] == data'[c] && len'[..|len|][c] == len'[c];
    }
    DeliversFrame(data, len, data', len', used, routed, sent);
  }

  // the places after p has gone from source s to buffer b, and np the other way

  lemma RouteFree(place: seq<Place>, list: seq<Cell>, x: nat, s: nat, b: nat, p: Cell, np: Cell)
    requires Holds(place, list, Free(x)) && p < |place| && place[p] == Current(s) && np < |place| && place[np] == Free(b)
    requires x == b ==> list != [] && np == list[|list| - 1]
    ensures Holds(place[p := Used(b)][np := Current(s)], if x == b then list[..|list| - 1] else list, Free(x))
  {
    HoldsElsewhere(place, list, Free(x), p, Used(b));
    if x == b {
      HoldsLast(place[p := Used(b)], list, Free(x), Current(s));
    } else {
      HoldsElsewhere(place[p := Used(b)], list, Free(x), np, Current(s));
    }
  }

  lemma RouteUsed(place: seq<Place>, list: seq<Cell>, x: nat, s: nat, b: nat, p: Cell, np: Cell)
    requires Holds(place, list, Used(x)) && p < |place| && place[p] == Current(s) && np < |place| && place[np] == Free(b)
    ensures Holds(place[p := Used(b)][np := Current(s)], if x == b then list + [p] else list, Used(x))
  {
    if x == b {
      HoldsAdded(place, list, Used(x), p);
    } else {
      HoldsElsewhere(place, list, Used(x), p, Used(b));
    }
    HoldsElsewhere(place[p := Used(b)], if x == b then list + [p] else list, Used(x), np, Current(s));
  }

  lemma RouteCurrent(place: seq<Place>, c: Cell, x: nat, s: nat, b: nat, p: Cell, np: Cell)
    requires Holds(place, [c], Current(x)) && p < |place| && place[p] == Current(s) && np < |place| && place[np] == Free(b)
    requires x == s ==> c == p
    ensures Holds(place[p := Used(b)][np := Current(s)], [if x == s then np else c], Current(x))
  {
    if x == s {
      HoldsReplaced(place, p, Current(x), Used(b), np);
    } else {
      HoldsElsewhere(place, [c], Current(x), p, Used(b));
      HoldsElsewhere(place[p := Used(b)], [c], Current(x), np, Current(s));
    }
  }

  class Routing {
    var bufferMtu: seq<nat>
    var sourceMtu: seq<nat>
    /** the number of packets a buffer was made with */
    ghost var bufferSize: seq<nat>

    // the memory of the packets
    var data: seq<seq<byte>>
    var len: seq<nat>
    // packets_free and packets_used of every buffer, current_packet of every source
    var free: seq<seq<Cell>>
    var used: seq<seq<Cell>>
    var current: seq<Cell>

    ghost var place: seq<Place>
    /** the packets routed to a buffer, as they were then, and those passed to its output */
    ghost var routed: seq<seq<seq<byte>>>
    ghost var sent: seq<seq<seq<byte>>>

    ghost predicate Sized()
      reads this
    {
      && |bufferSize| == |free| == |used| == |routed| == |sent| == |bufferMtu| && |current| == |sourceMtu|
      && |data| == |len| == |place|
      && forall s | 0 <= s < |current| :: current[s] < |data| && |data[current[s]]| == sourceMtu[s]
    }

    ghost function MtuOf(p: Place): nat
      reads `bufferMtu, `sourceMtu
    {
      match p
      case Current(s) => if s < |sourceMtu| then sourceMtu[s] else 0
      case _ => if p.buffer < |bufferMtu| then bufferMtu[p.buffer] else 0
    }

    ghost predicate Exists(p: Place)
      reads `current, `free
    {
      match p
      case Current(s) => s < |current|
      case _ => p.buffer < |free|
    }

    /** Every cell is in exactly one place. */
    ghost predicate Placed()
      requires Sized()
      reads this
    {
      && (forall c: Cell | c < |place| :: Exists(place[c]))
      && (forall b: nat | b < |free| :: Holds(place, free[b], Free(b)))
      && (forall b: nat | b < |used| :: Holds(place, used[b], Used(b)))
      && (forall s: nat | s < |current| :: Holds(place, [current[s]], Current(s)))
    }

    /** A cell has its place's size; a buffer keeps its number of cells. */
    ghost predicate Fits()
      requires Sized()
      reads this
    {
      && (forall c: Cell | c < |place| :: |data[c]| == MtuOf(place[c]))
      && (forall b: nat | b < |free| :: |free[b]| + |used[b]| == bufferSize[b])
    }

    ghost predicate Delivering()
      requires Sized()
      reads this
    {
      forall b: nat | b < |used| :: Delivers(data, len, used[b], routed[b], sent[b])
    }

    ghost predicate Valid()
      reads this
    {
      Sized() && Placed() && Fits() && Delivering()
    }

    constructor ()
      ensures Valid() && data == [] && free == [] && current == []
    {
      bufferMtu, sourceMtu, bufferSize, data, len, free, used, current := [], [], [], [], [], [], [], [];
      place, routed, sent := [], [], [];
    }

    /** alloc_packet: memory that holds anything. */
    method AllocPacket(mtu: nat, memory: seq<byte>, ghost p: Place) returns (c: Cell)
      requires Sized() && |memory| == mtu
      modifies `data, `len, `place
      ensures Sized() && c == |old(data)| && data == old(data) + [memory] && len == old(len) + [0]
      ensures place == old(place) + [p]
    {
      c := |data|;
      data, len := data + [memory], len + [0];
      place := place + [p];
    }

    /** RouteBufferSource_Init */
    method AddSource(mtu: nat, memory: seq<byte>) returns (s: nat)
      requires Valid() && |memory| == mtu
      modifies this
      ensures Valid() && s == |old(current)| && |current| == s + 1 && sourceMtu == old(sourceMtu) + [mtu]
      ensures free == old(free) && used == old(used) && routed == old(routed) && data == old(data) + [memory]
    {
      ghost var data0, len0, place0, current0 := data, len, place, current;
      s := |current|;
      NoPlace(Current(s));
      var c := AllocPacket(mtu, memory, Current(s));
      sourceMtu := sourceMtu + [mtu];
      current := current + [c];
      SourcePlaced(s, place0, current0);
      StillDelivering(data0, len0, place0);
    }

    /** The new source has the new cell; everything else is where it was. */
    lemma SourcePlaced(s: nat, place0: seq<Place>, current0: seq<Cell>)
      requires Sized() && place == place0 + [Current(s)] && current == current0 + [|place0|] && |current0| == s
      requires Current(s) !in place0 && forall c: Cell | c < |place0| :: Exists(place0[c])
      requires forall b: nat | b < |free| :: Holds(place0, free[b], Free(b)) && Holds(place0, used[b], Used(b))
      requires forall x: nat | x < s :: Holds(place0, [current0[x]], Current(x))
      ensures Placed()
    {
      forall b: nat | b < |free| ensures Holds(place, free[b], Free(b)) && Holds(place, used[b], Used(b)) {
        HoldsGrown(place0, place, free[b], Free(b));
        HoldsGrown(place0, place, used[b], Used(b));
      }
      forall x: nat | x < |current| ensures Holds(place, [current[x]], Current(x)) {
        if x < s {
          HoldsGrown(place0, place, [current0[x]], Current(x));
        }
      }
    }

    /** New cells behind the old ones change no queued packet. */
    lemma StillDelivering(data0: seq<seq<byte>>, len0: seq<nat>, place0: seq<Place>)
      requires Sized() && |place0| == |data0| == |len0| <= |data|
      requires data[..|data0|] == data0 && len[..|len0|] == len0
      requires forall b: nat | b < |used| :: Holds(place0, used[b], Used(b))
      requires forall b: nat | b < |used| :: Delivers(data0, len0, used[b], routed[b], sent[b])
      ensures Delivering()
    {
      forall b: nat | b < |used| ensures Delivers(data, len, used[b], routed[b], sent[b]) {
        DeliversGrown(data0, len0, data, len, place0, Used(b), used[b], routed[b], sent[b]);
      }
    }

    /** RouteBuffer_Init: all packets are free. */
    method AddBuffer(mtu: nat, memory: seq<seq<byte>>) returns (b: nat)
      requires Valid() && forall i | 0 <= i < |memory| :: |memory[i]| == mtu
      modifies this
      ensures Valid() && b == |old(free)| && |free| == b + 1 && |free[b]| == |memory| && used[b] == []
      ensures bufferMtu == old(bufferMtu) + [mtu] && free[..b] == old(free) && used[..b] == old(used)
      ensures current == old(current) && data == old(data) + memory
    {
      ghost var data0, len0, place0, free0, used0 := data, len, place, free, used;
      ghost var routed0, sent0 := routed, sent;
      b := |free|;
      NoPlace(Free(b));
      NoPlace(Used(b));
      bufferMtu, bufferSize := bufferMtu + [mtu], bufferSize + [|memory|];
      free, used, routed, sent := free + [[]], used + [[]], routed + [[]], sent + [[]];
      AllocFreePackets(b, memory);
      forall x: nat | x < b ensures |free0[x]| + |used0[x]| == bufferSize[x] {
      }
      Added(b, mtu, memory, data0, len0, place0, free0, used0, routed0, sent0);
    }

    method AllocFreePackets(b: nat, memory: seq<seq<byte>>)
      requires Sized() && |free| == b + 1 && free[b] == [] && Free(b) !in place
      modifies `data, `len, `place, `free
      ensures Sized() && |free| == b + 1 && free[..b] == old(free)[..b] && |free[b]| == |memory|
      ensures data == old(data) + memory && len[..|old(len)|] == old(len) && place[..|old(place)|] == old(place)
      ensures forall c: Cell | |old(place)| <= c < |place| :: place[c] == Free(b)
      ensures Holds(place, free[b], Free(b))
    {
      ghost var data0, len0, place0, free0 := data, len, place, free;
      var i := 0;
      while i < |memory|
        invariant 0 <= i <= |memory| && Sized() && |free| == b + 1 && free[..b] == free0[..b] && |free[b]| == i
        invariant data == data0 + memory[..i] && |len0| <= |len| && len[..|len0|] == len0
        invariant |place0| <= |place| && place[..|place0|] == place0
        invariant forall c: Cell | |place0| <= c < |place| :: place[c] == Free(b)
        invariant Holds(place, free[b], Free(b))
      {
        HoldsNew(place, free[b], Free(b));
        var c := AllocPacket(|memory[i]|, memory[i], Free(b));
        free := free[b := free[b] + [c]];
        i := i + 1;
      }
    }

    /** What was there before stays as it was. */
    lemma Added(b: nat, mtu: nat, memory: seq<seq<byte>>, data0: seq<seq<byte>>, len0: seq<nat>, place0: seq<Place>,
                free0: seq<seq<Cell>>, used0: seq<seq<Cell>>, routed0: seq<seq<seq<byte>>>, sent0: seq<seq<seq<byte>>>)
      requires Sized() && |free| == b + 1 && |free0| == b && free[..b] == free0 && |free[b]| == |memory|
      requires |used0| == |routed0| == |sent0| == b
      requires used == used0 + [[]] && routed == routed0 + [[]] && sent == sent0 + [[]]
      requires |place0| == |data0| == |len0| <= |data| && place[..|place0|] == place0
      requires data[..|data0|] == data0 && len[..|len0|] == len0
      requires forall c: Cell | c < |place0| :: Exists(place0[c]) && place0[c] != Free(b) && place0[c] != Used(b)
      requires forall c: Cell | |place0| <= c < |place| :: place[c] == Free(b) && |data[c]| == mtu
      requires Holds(place, free[b], Free(b)) && bufferMtu[b] == mtu && bufferSize[b] == |memory|
      requires forall x: nat | x < b :: Holds(place0, free0[x], Free(x)) && Holds(place0, used0[x], Used(x))
      requires forall x: nat | x < b :: Delivers(data0, len0, used0[x], routed0[x], sent0[x])
      requires forall x: nat | x < b :: |free0[x]| + |used0[x]| == bufferSize[x]
      requires forall s: nat | s < |current| :: Holds(place0, [current[s]], Current(s))
      requires forall c: Cell | c < |place0| :: |data0[c]| == MtuOf(place0[c])
      ensures Valid()
    {
      forall c: Cell | c < |place| ensures Exists(place[c]) && |data[c]| == MtuOf(place[c]) {
        if c < |place0| {
          assert place[..|place0|][c] == place[c] && data[..|data0|][c] == data[c];
        }
      }
      forall x: nat | x < |free| ensures Holds(place, free[x], Free(x)) && |free[x]| + |used[x]| == bufferSize[x] {
        if x < b {
          assert free[..b][x] == free[x];
          HoldsGrown(place0, place, free0[x], Free(x));
        }
      }
      forall x: nat | x < |used| ensures Holds(place, used[x], Used(x)) {
        if x < b {
          HoldsGrown(place0, place, used0[x], Used(x));
        } else {
          forall c: Cell | c < |place| ensures place[c] != Used(b) {
            if c < |place0| { assert place[..|place0|][c] == place[c]; }
          }
        }
      }
      forall s: nat | s < |current| ensures Holds(place, [current[s]], Current(s)) {
        HoldsGrown(place0, place, [current[s]], Current(s));
      }
      forall x: nat | x < |used| ensures Delivers(data, len, used[x], routed[x], sent[x]) {
        if x < b { DeliversGrown(data0, len0, data, len, place0, Used(x), used0[x], routed0[x], sent0[x]); }
      }
    }

    /** Nothing is in a place that does not exist yet. */
    lemma NoPlace(p: Place)
      requires Valid() && !Exists(p)
      ensures p !in place
    {
    }

    /** RouteBufferSource_Pointer, and a write through it. */
    method Write(s: nat, offset: nat, bytes: seq<byte>)
      requires Valid() && s < |current| && offset + |bytes| <= sourceMtu[s]
      modifies `data
      ensures Valid()
      ensures data == old(data)[current[s] := Overwrite(old(data[current[s]]), offset, bytes)]
    {
      var c := current[s];
      assert Holds(place, [current[s]], Current(s)) && c in [current[s]];
      ghost var data0 := data;
      data := data[c := Overwrite(data[c], offset, bytes)];
      forall b: nat | b < |used| ensures Delivers(data, len, used[b], routed[b], sent[b]) {
        assert Holds(place, used[b], Used(b)) && Delivers(data0, len, used[b], routed[b], sent[b]);
        DeliversFrame(data0, len, data, len, used[b], routed[b], sent[b]);
      }
    }

    /** RouteBufferSource_Route. On success the packet that the source held is at the end of the
        buffer's queue; the source holds a free one, with the given part copied. */
    method Route(s: nat, length: nat, b: nat, copyOffset: nat, copyLen: nat) returns (ok: bool)
      requires Valid() && s < |current| && b < |used| && bufferMtu[b] == sourceMtu[s]
      requires length <= sourceMtu[s] && copyOffset + copyLen <= sourceMtu[s]
      modifies `data, `len, `free, `used, `current, `place, `routed, `sent
      ensures Valid() && ok == (old(free[b]) != [])
      ensures !ok ==> unchanged(this)
      ensures ok ==>
        && used == old(used)[b := old(used[b]) + [old(current[s])]]
        && free == old(free)[b := old(free[b])[..|old(free[b])| - 1]]
        && current == old(current)[s := old(free[b])[|old(free[b])| - 1]]
        && routed == old(routed)[b := old(routed[b]) + [old(data[current[s]])[..length]]]
        && data[current[s]][copyOffset..copyOffset + copyLen] == old(data[current[s]])[copyOffset..copyOffset + copyLen]
        && |data| == |old(data)| && forall c: Cell | c < |data| && c != current[s] :: data[c] == old(data)[c]
    {
      if free[b] == [] {
        return false;
      }
      ok := true;
      var wasEmpty := used[b] == [];
      var p := current[s];
      var np := free[b][|free[b]| - 1];
      ghost var used0, packet := used, data[p][..length];
      SetLength(s, p, length);
      MoveCells(s, b, p, np);
      CopyPart(p, np, copyOffset, copyLen, used0);
      Enqueue(b, p, wasEmpty, used0, packet);
    }

    method SetLength(s: nat, p: Cell, length: nat)
      requires Valid() && s < |current| && p == current[s] && length <= sourceMtu[s]
      modifies `len
      ensures Valid() && p < |data| && length <= |data[p]| && PacketIn(data, len, p) == data[p][..length]
    {
      assert Holds(place, [current[s]], Current(s)) && p in [current[s]];
      ghost var len0 := len;
      len := len[p := length];
      forall b: nat | b < |used| ensures Delivers(data, len, used[b], routed[b], sent[b]) {
        assert Holds(place, used[b], Used(b)) && Delivers(data, len0, used[b], routed[b], sent[b]);
        DeliversFrame(data, len0, data, len, used[b], routed[b], sent[b]);
      }
    }

    /** The list operations: p to the used packets, a free one to the source. */
    method MoveCells(s: nat, b: nat, p: Cell, np: Cell)
      requires Sized() && Placed() && Fits() && s < |current| && b < |used| && bufferMtu[b] == sourceMtu[s]
      requires p == current[s] && free[b] != [] && np == free[b][|free[b]| - 1]
      modifies `free, `used, `current, `place
      ensures Sized() && Placed() && Fits()
      ensures np < |data| && p < |data| && np != p && np == current[s] && place[np] == Current(s) && place[p] == Used(b)
      ensures used == old(used)[b := old(used[b]) + [p]]
      ensures free == old(free)[b := old(free[b])[..|old(free[b])| - 1]]
      ensures current == old(current)[s := np]
    {
      ghost var free0, used0, current0, place0 := free, used, current, place;
      assert Holds(place, free[b], Free(b)) && np in free[b];
      assert Holds(place, [current[s]], Current(s)) && p in [current[s]];
      used := used[b := used[b] + [p]];
      free := free[b := free[b][..|free[b]| - 1]];
      current := current[s := np];
      place := place[p := Used(b)][np := Current(s)];
      forall x: nat | x < |free| ensures Holds(place, free[x], Free(x)) {
        RouteFree(place0, free0[x], x, s, b, p, np);
      }
      forall x: nat | x < |used| ensures Holds(place, used[x], Used(x)) {
        RouteUsed(place0, used0[x], x, s, b, p, np);
      }
      forall x: nat | x < |current| ensures Holds(place, [current[x]], Current(x)) {
        RouteCurrent(place0, current0[x], x, s, b, p, np);
      }
    }

    /** The memcpy to the source's new packet, which is in no queue. */
    method CopyPart(p: Cell, np: Cell, copyOffset: nat, copyLen: nat, ghost used0: seq<seq<Cell>>)
      requires p < |data| && np < |data| && p != np
      requires copyOffset + copyLen <= |data[p]| && copyOffset + copyLen <= |data[np]|
      requires |used0| == |routed| == |sent| && forall x: nat | x < |used0| :: np !in used0[x]
      requires forall x: nat | x < |used0| :: Delivers(data, len, used0[x], routed[x], sent[x])
      modifies `data
      ensures |data| == |old(data)| && |data[np]| == |old(data[np])|
      ensures forall c: Cell | c < |data| && c != np :: data[c] == old(data)[c]
      ensures data[np][copyOffset..copyOffset + copyLen] == data[p][copyOffset..copyOffset + copyLen]
      ensures forall x: nat | x < |used0| :: Delivers(data, len, used0[x], routed[x], sent[x])
    {
      ghost var data0 := data;
      if copyLen > 0 {
        data := data[np := Overwrite(data[np], copyOffset, data[p][copyOffset..copyOffset + copyLen])];
      }
      forall x: nat | x < |used0| ensures Delivers(data, len, used0[x], routed[x], sent[x]) {
        DeliversFrame(data0, len, data, len, used0[x], routed[x], sent[x]);
      }
    }

    method Enqueue(b: nat, p: Cell, wasEmpty: bool, ghost used0: seq<seq<Cell>>, ghost packet: seq<byte>)
      requires Sized() && Placed() && Fits() && b < |used| == |used0| && p < |data|
      requires used == used0[b := used0[b] + [p]] && wasEmpty == (used0[b] == []) && packet == PacketIn(data, len, p)
      requires forall x: nat | x < |used0| :: Delivers(data, len, used0[x], routed[x], sent[x])
      modifies `routed, `sent
      ensures Valid() && routed == old(routed)[b := old(routed[b]) + [packet]]
    {
      ghost var routed0, sent0 := routed, sent;
      DeliversRouted(data, len, used0[b], p, routed[b], sent[b]);
      routed := routed[b := routed[b] + [packet]];
      if wasEmpty {
        SendUsedPacket(b);
      }
      forall x: nat | x < |used| ensures Delivers(data, len, used[x], routed[x], sent[x]) {
        assert Delivers(data, len, used0[x], routed0[x], sent0[x]);
      }
    }

    /** send_used_packet */
    method SendUsedPacket(b: nat)
      requires b < |used| == |sent| && used[b] != []
      modifies `sent
      ensures sent == old(sent)[b := old(sent[b]) + [PacketIn(data, len, used[b][0])]]
    {
      sent := sent[b := sent[b] + [PacketIn(data, len, used[b][0])]];
    }

    /** output_handler_done: the packet at the front has been sent. */
    method OutputDone(b: nat)
      requires Valid() && b < |used| && used[b] != []
      modifies this
      ensures Valid() && routed == old(routed) && data == old(data) && current == old(current)
      ensures used == old(used)[b := old(used[b])[1..]]
      ensures free == old(free)[b := old(free[b]) + [old(used[b][0])]]
    {
      ghost var used0, sent0 := used, sent;
      ReleaseUsedPacket(b);
      DeliversDone(data, len, used0[b], routed[b], sent[b]);
      if used[b] != [] {
        SendUsedPacket(b);
      }
      forall x: nat | x < |used| ensures Delivers(data, len, used[x], routed[x], sent[x]) {
        assert Delivers(data, len, used0[x], routed[x], sent0[x]);
      }
    }

    /** release_used_packet */
    method ReleaseUsedPacket(b: nat)
      requires Sized() && Placed() && Fits() && b < |used| && used[b] != []
      modifies `free, `used, `place
      ensures Sized() && Placed() && Fits()
      ensures used == old(used)[b := old(used[b])[1..]]
      ensures free == old(free)[b := old(free[b]) + [old(used[b][0])]]
    {
      ghost var free0, used0, place0 := free, used, place;
      var p := used[b][0];
      assert Holds(place, used[b], Used(b)) && p in used[b];
      used := used[b := used[b][1..]];
      free := free[b := free[b] + [p]];
      place := place[p := Free(b)];
      forall x: nat | x < |free| ensures Holds(place, free[x], Free(x)) {
        assert Holds(place0, free0[x], Free(x));
        if x == b {
          HoldsAdded(place0, free0[x], Free(x), p);
        } else {
          HoldsElsewhere(place0, free0[x], Free(x), p, Free(b));
        }
      }
      forall x: nat | x < |used| ensures Holds(place, used[x], Used(x)) {
        assert Holds(place0, used0[x], Used(x));
        if x == b {
          HoldsFirst(place0, used0[x], Used(x), Free(b));
        } else {
          HoldsElsewhere(place0, used0[x], Used(x), p, Free(b));
        }
      }
      forall x: nat | x < |current| ensures Holds(place, [current[x]], Current(x)) {
        assert Holds(place0, [current[x]], Current(x));
        HoldsElsewhere(place0, [current[x]], Current(x), p, Free(b));
      }
    }
  }
}
