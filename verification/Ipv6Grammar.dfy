/** Which texts misc/ipaddr6.h takes for an address, as a grammar, and what each stands for. It is
    that of section 2.2 of RFC 4291, with any padding of a field, and a double colon that may stand
    for no field at all. */
module Ipv6Grammar {
  import opened Wrappers
  import opened Arithmetic
  import opened ParseNumber
  import opened Ipv6
  import opened Ipv6Dotted

  /** Hexadecimal digits whose value fits 16 bits. */
  predicate IsField(g: string) {
    g != "" && Digits(16, g) && Value(16, g) < 0x1_0000
  }

  predicate AreFields(gs: seq<string>) {
    forall k | 0 <= k < |gs| :: IsField(gs[k])
  }

  function Join(gs: seq<string>): string {
    if gs == [] then "" else if |gs| == 1 then gs[0] else gs[0] + ":" + Join(gs[1..])
  }

  function Values(gs: seq<string>): (bs: seq<Block>)
    requires AreFields(gs)
    ensures |bs| == |gs|
  {
    seq(|gs|, k requires 0 <= k < |gs| => Value(16, gs[k]))
  }

  /** Fields in front of a double colon, if there is one, and behind it, and the four numbers of a
      dotted ending, if there is one. Without a double colon all fields are in front. */
  datatype Form = Form(front: seq<string>, double: bool, rear: seq<string>, quad: seq<nat>) {
    predicate Valid() {
      && AreFields(front) && AreFields(rear) && (quad == [] || IsQuad(quad))
      && if double then |front| <= 7 && Count() <= 8 else rear == [] && Count() == 8
    }

    /** The number of blocks written out. */
    function Count(): nat {
      |front| + |rear| + if quad == [] then 0 else 2
    }

    function Text(): string {
      if double then Join(front) + "::" + Tail(rear, quad) else Tail(front, quad)
    }

    function Blocks(): seq<Block>
      requires Valid()
    {
      Values(front) + (if double then seq(8 - Count(), _ => 0) else []) + Values(rear) + Last(quad)
    }
  }

  function Tail(gs: seq<string>, quad: seq<nat>): string {
    if quad == [] then Join(gs) else if gs == [] then DotText(quad) else Join(gs) + ":" + DotText(quad)
  }

  function Last(quad: seq<nat>): seq<Block>
    requires quad == [] || IsQuad(quad)
  {
    if quad == [] then [] else [256 * quad[0] + quad[1], 256 * quad[2] + quad[3]]
  }

  // ----- every such text is read -----

  lemma {:induction false} EvalGrows(b: nat, t: string)
    requires Digits(16, t)
    ensures b <= Eval(16, b, t)
    decreases |t|
  {
    if t != "" { EvalGrows(16 * b + DigitIn(16, t[0]).value, t[1..]); }
  }

  lemma {:induction false} ReadDigits(s: string, i: nat, done: seq<Block>, compress: Option<nat>, b: Block, empty: bool, t: string)
    requires Digits(16, t) && Eval(16, b, t) < 0x1_0000 && At(s, i, t)
    ensures Run(s, i, State(done, compress, b, empty))
         == Run(s, i + |t|, State(done, compress, Eval(16, b, t), empty && t == ""))
    decreases |t|
  {
    if t != "" {
      var d := DigitIn(16, t[0]).value;
      AtParts(s, i, [t[0]], t[1..]);
      assert [t[0]] + t[1..] == t;
      AtOne(s, i, t[0]);
      EvalGrows(16 * b + d, t[1..]);
      ReadDigits(s, i + 1, done, compress, 16 * b + d, false, t[1..]);
      FirstDigitRead(s, i, done, compress, b, empty, d);
    }
  }

  lemma {:induction false} FirstDigitRead(s: string, i: nat, done: seq<Block>, compress: Option<nat>, b: Block, empty: bool, d: nat)
    requires i < |s| && HexDigit(s[i]) == Some(d) && d < 16 && 16 * b + d < 0x1_0000
    ensures Run(s, i, State(done, compress, b, empty)) == Run(s, i + 1, State(done, compress, 16 * b + d, false))
  {
  }

  lemma {:induction false} ReadField(s: string, i: nat, done: seq<Block>, compress: Option<nat>, g: string)
    requires IsField(g) && At(s, i, g)
    ensures Run(s, i, State(done, compress, 0, true)) == Run(s, i + |g|, State(done, compress, Value(16, g), false))
  {
    ReadDigits(s, i, done, compress, 0, true, g);
  }

  /** The state behind the last digit of the fields gs. */
  function Read(done: seq<Block>, compress: Option<nat>, gs: seq<string>): State
    requires gs != [] && AreFields(gs)
  {
    State(done + Values(gs[..|gs| - 1]), compress, Value(16, gs[|gs| - 1]), false)
  }

  lemma {:induction false} JoinAt(s: string, i: nat, gs: seq<string>)
    requires |gs| > 1 && AreFields(gs) && At(s, i, Join(gs))
    ensures var j := i + |gs[0]|;
      && At(s, i, gs[0]) && 0 < j < |s| && s[j] == ':' && At(s, j + 1, Join(gs[1..]))
      && i + |Join(gs)| == j + 1 + |Join(gs[1..])| && !Double(s, j)
  {
    var rest, j := Join(gs[1..]), i + |gs[0]|;
    Concat(gs[0], ":", rest);
    AtParts(s, i, gs[0], ":" + rest);
    AtParts(s, j, ":", rest);
    AtOne(s, j, ':');
    JoinStarts(gs[1..]);
    AtFirst(s, j + 1, rest);
  }

  lemma {:induction false} JoinStarts(gs: seq<string>)
    requires gs != [] && AreFields(gs)
    ensures Join(gs) != "" && HexDigit(Join(gs)[0]).Some?
  {
    assert IsField(gs[0]);
    assert DigitIn(16, gs[0][0]).Some?;
  }

  lemma {:induction false} ReadJoined(s: string, i: nat, done: seq<Block>, compress: Option<nat>, gs: seq<string>)
    requires gs != [] && AreFields(gs) && |done| + |gs| <= 8 && At(s, i, Join(gs))
    ensures Run(s, i, State(done, compress, 0, true)) == Run(s, i + |Join(gs)|, Read(done, compress, gs))
    decreases |gs|
  {
    assert IsField(gs[0]);
    if |gs| == 1 {
      ReadField(s, i, done, compress, gs[0]);
      assert done + Values(gs[..0]) == done;
    } else {
      var j := i + |gs[0]|;
      JoinAt(s, i, gs);
      ReadField(s, i, done, compress, gs[0]);
      ReadColon(s, j, done, compress, Value(16, gs[0]));
      ReadJoined(s, j + 1, done + [Value(16, gs[0])], compress, gs[1..]);
      ReadStep(done, compress, gs);
    }
  }

  lemma ReadStep(done: seq<Block>, compress: Option<nat>, gs: seq<string>)
    requires |gs| > 1 && AreFields(gs)
    ensures AreFields(gs[1..]) && Read(done + [Value(16, gs[0])], compress, gs[1..]) == Read(done, compress, gs)
  {
    assert done + [Value(16, gs[0])] + Values(gs[1..][..|gs| - 2]) == done + Values(gs[..|gs| - 1]);
  }

  lemma ValuesSnoc(gs: seq<string>)
    requires gs != [] && AreFields(gs)
    ensures Values(gs[..|gs| - 1]) + [Value(16, gs[|gs| - 1])] == Values(gs)
  {
  }

  /** From behind a colon, or from the start, to the end. */
  lemma {:induction false} ReadTail(s: string, i: nat, done: seq<Block>, compress: Option<nat>, gs: seq<string>, quad: seq<nat>)
    requires i <= |s| && AreFields(gs) && (quad == [] || IsQuad(quad)) && s[i..] == Tail(gs, quad)
    requires |done| + |gs| + |Last(quad)| <= 8
    requires gs == [] ==> 0 < i && s[i - 1] == ':' && compress == Some(|done|)
    ensures Result(s, Run(s, i, State(done, compress, 0, true))) == Expand(done + Values(gs) + Last(quad), compress)
  {
    assert s[i..|s|] == s[i..];
    if quad == [] {
      if gs == [] {
        assert done + Values(gs) + [] == done;
      } else {
        ReadJoined(s, i, done, compress, gs);
        ValuesSnoc(gs);
        var n := |gs| - 1;
        assert done + Values(gs[..n]) + [Value(16, gs[n])] == done + Values(gs) + [];
      }
    } else if gs == [] {
      ReadQuad(s, i, done, compress, quad);
      assert done + Values(gs) == done;
    } else {
      ReadFieldsAndQuad(s, i, done, compress, gs, quad);
    }
  }

  lemma {:induction false} ReadFieldsAndQuad(s: string, i: nat, done: seq<Block>, compress: Option<nat>,
                                             gs: seq<string>, quad: seq<nat>)
    requires i <= |s| && gs != [] && AreFields(gs) && IsQuad(quad) && s[i..] == Join(gs) + ":" + DotText(quad)
    requires |done| + |gs| <= 6
    ensures Result(s, Run(s, i, State(done, compress, 0, true))) == Expand(done + Values(gs) + Last(quad), compress)
  {
    var j := BehindFields(s, i, gs, quad);
    ReadFieldsAndColon(s, i, done, compress, gs, j);
    ReadQuad(s, j + 1, done + Values(gs), compress, quad);
  }

  lemma {:induction false} BehindFields(s: string, i: nat, gs: seq<string>, quad: seq<nat>) returns (j: nat)
    requires i <= |s| && gs != [] && AreFields(gs) && IsQuad(quad) && s[i..] == Join(gs) + ":" + DotText(quad)
    ensures j == i + |Join(gs)| && At(s, i, Join(gs)) && 0 < j < |s| && s[j] == ':' && !Double(s, j)
    ensures s[j + 1..] == DotText(quad)
  {
    var a, rest := Join(gs), DotText(quad);
    j := i + |a|;
    assert s[i..|s|] == s[i..];
    Concat(a, ":", rest);
    AtParts(s, i, a, ":" + rest);
    AtParts(s, j, ":", rest);
    AtOne(s, j, ':');
    JoinStarts(gs);
    FirstDigit(quad[0]);
    assert rest[0] == Repr(quad[0])[0];
    AtFirst(s, j + 1, rest);
  }

  lemma {:induction false} ReadFieldsAndColon(s: string, i: nat, done: seq<Block>, compress: Option<nat>, gs: seq<string>, j: nat)
    requires gs != [] && AreFields(gs) && |done| + |gs| <= 7 && At(s, i, Join(gs)) && j == i + |Join(gs)|
    requires 0 < j < |s| && s[j] == ':' && !Double(s, j)
    ensures Run(s, i, State(done, compress, 0, true)) == Run(s, j + 1, State(done + Values(gs), compress, 0, true))
  {
    var n := |gs| - 1;
    ReadJoined(s, i, done, compress, gs);
    ReadColon(s, j, done + Values(gs[..n]), compress, Value(16, gs[n]));
    ValuesSnoc(gs);
    assert done + Values(gs[..n]) + [Value(16, gs[n])] == done + Values(gs);
  }

  /** Up to and including the double colon. */
  lemma {:induction false} ReadFieldsFront(s: string, gs: seq<string>)
    requires |gs| <= 7 && AreFields(gs) && At(s, 0, Join(gs) + "::")
    ensures Run(s, 0, START) == Run(s, |Join(gs)| + 2, State(Values(gs), Some(|gs|), 0, true))
  {
    AtParts(s, 0, Join(gs), "::");
    if gs == [] {
      ReadLeadingDouble(s);
      assert Values(gs) == [];
    } else {
      var n := |gs| - 1;
      JoinStarts(gs);
      ReadJoined(s, 0, [], None, gs);
      ValuesSnoc(gs);
      assert [] + Values(gs[..n]) == Values(gs[..n]);
      ReadDouble(s, |Join(gs)|, Values(gs[..n]), Value(16, gs[n]));
    }
  }

  lemma {:induction false} FormIsRead(f: Form)
    requires f.Valid()
    ensures Parse(f.Text()) == Some(f.Blocks())
  {
    var s := f.Text();
    if f.double {
      var head := Join(f.front) + "::";
      assert s[..|head|] == head && s[|head|..] == Tail(f.rear, f.quad);
      assert At(s, 0, head) && head[|head| - 1] == ':';
      ReadFieldsFront(s, f.front);
      ReadRearForm(s, |head|, f);
    } else {
      ReadTail(s, 0, [], None, f.front, f.quad);
      assert [] + Values(f.front) + Last(f.quad) == f.Blocks();
    }
  }

  lemma {:induction false} ReadRearForm(s: string, i: nat, f: Form)
    requires f.Valid() && f.double && 0 < i <= |s| && s[i - 1] == ':' && s[i..] == Tail(f.rear, f.quad)
    ensures Result(s, Run(s, i, State(Values(f.front), Some(|f.front|), 0, true))) == Some(f.Blocks())
  {
    ReadTail(s, i, Values(f.front), Some(|f.front|), f.rear, f.quad);
    var done := Values(f.front) + Values(f.rear) + Last(f.quad);
    assert done[..|f.front|] == Values(f.front) && done[|f.front|..] == Values(f.rear) + Last(f.quad);
    var zeros := seq(8 - f.Count(), _ => 0);
    Concat(Values(f.front) + zeros, Values(f.rear), Last(f.quad));
  }

  // ----- nothing else is accepted -----

  /** Inside the text at i, with the digits typed of the current field read. */
  ghost predicate Typing(s: string, i: nat, st: State, typed: string) {
    && 0 < i <= |s| && |typed| <= i && s[i - |typed|..i] == typed && Digits(16, typed)
    && st.empty == (typed == "") && st.block == Value(16, typed) < 0x1_0000
    && |st.done| <= 7 && (st.compress.Some? ==> st.compress.value <= |st.done|)
    && (st.done != [] || st.compress.Some? ==> i > |typed| && s[i - |typed| - 1] == ':')
  }

  /** What is typed and what follows is a text with the given fields, and gives their values. */
  ghost predicate Means(s: string, i: nat, st: State, typed: string, f: Form)
    requires i <= |s|
  {
    && AreFields(f.front) && AreFields(f.rear) && (f.quad == [] || IsQuad(f.quad))
    && (if f.double then st.compress.None? && f.front != [] && |st.done| + |f.front| <= 7 else f.rear == [])
    && (f.front == [] && f.quad == [] && !f.double ==> st.compress == Some(|st.done|))
    && typed + s[i..] == f.Text()
    && Result(s, Run(s, i, st)) == Expand(st.done + Values(f.front) + Values(f.rear) + Last(f.quad), CompressAt(st, f))
  }

  function CompressAt(st: State, f: Form): Option<nat> {
    if f.double then Some(|st.done| + |f.front|) else st.compress
  }

  lemma {:induction false} EndMeans(s: string, i: nat, st: State, typed: string) returns (f: Form)
    requires Typing(s, i, st, typed) && i == |s| && Result(s, Run(s, i, st)).Some?
    ensures Means(s, i, st, typed, f)
  {
    assert s[i..] == "";
    if typed == "" {
      f := Form([], false, [], []);
      assert st.done + Values([]) + Values([]) + [] == st.done;
    } else {
      f := Form([typed], false, [], []);
      assert Values([typed]) == [st.block];
      assert st.done + Values([typed]) + Values([]) + [] == st.done + [st.block];
      assert typed + "" == typed;
    }
  }

  lemma {:induction false} NoColonBack(s: string, from: nat, i: nat)
    requires 0 < from <= i <= |s| && s[from - 1] == ':' && Digits(16, s[from..i])
    ensures DottedStart(s, i) == from
    decreases i
  {
    if i > from {
      assert s[from..i][i - 1 - from] == s[i - 1];
      assert DigitIn(16, s[i - 1]).Some?;
      assert s[from..i - 1] == s[from..i][..i - 1 - from];
      NoColonBack(s, from, i - 1);
    }
  }

  lemma {:induction false} DotMeans(s: string, i: nat, st: State, typed: string) returns (f: Form)
    requires Typing(s, i, st, typed) && i < |s| && s[i] == '.' && Result(s, Run(s, i, st)).Some?
    ensures Means(s, i, st, typed, f)
  {
    var from := i - |typed|;
    NoColonBack(s, from, i);
    var bs := Dotted(s, from, [], 0, true).value;
    DottedIff(s, from, bs);
    f := Form([], false, [], bs);
    assert s[from..] == typed + s[i..];
    assert st.done + Values([]) + Values([]) + Last(bs) == st.done + Last(bs);
  }

  lemma {:induction false} DigitTyped(s: string, i: nat, st: State, typed: string)
    requires Typing(s, i, st, typed) && i < |s| && AfterDigit(s[i], st).Some?
    ensures Typing(s, i + 1, AfterDigit(s[i], st).value, typed + [s[i]])
    ensures typed + s[i..] == (typed + [s[i]]) + s[i + 1..]
  {
    var c := s[i];
    assert s[i - |typed|..i + 1] == s[i - |typed|..i] + [c];
    assert [c][1..] == "";
    EvalConcat(16, 0, typed, [c]);
    assert s[i..] == [c] + s[i + 1..];
  }

  /** Behind a colon. */
  lemma {:induction false} ColonTyped(s: string, i: nat, st: State, typed: string, j: nat, next: State)
    requires Typing(s, i, st, typed) && i < |s| && s[i] == ':' && AfterColon(s, i, st) == Some(next)
    requires j == if Double(s, i) then i + 2 else i + 1
    ensures Typing(s, j, next, "") && IsField(typed) && next.done == st.done + [Value(16, typed)]
    ensures next.compress == if Double(s, i) then Some(|next.done|) else st.compress
    ensures typed + s[i..] == typed + (if Double(s, i) then "::" else ":") + s[j..]
  {
    assert s[j - 0..j] == "";
    assert s[i..j] == if Double(s, i) then "::" else ":";
    assert s[i..] == s[i..j] + s[j..];
  }

  lemma JoinCons(g: string, gs: seq<string>)
    ensures Join([g] + gs) == if gs == [] then g else g + ":" + Join(gs)
  {
    assert ([g] + gs)[1..] == gs;
  }

  lemma ValuesCons(g: string, gs: seq<string>)
    requires IsField(g) && AreFields(gs)
    ensures AreFields([g] + gs) && Values([g] + gs) == [Value(16, g)] + Values(gs)
  {
  }

  /** One field, a colon, and the rest. */
  lemma {:induction false} ColonMeans(s: string, i: nat, st: State, typed: string, next: State, r: Form) returns (f: Form)
    requires Typing(s, i, st, typed) && i < |s| && s[i] == ':' && !Double(s, i) && AfterColon(s, i, st) == Some(next)
    requires i + 1 <= |s| && Typing(s, i + 1, next, "") && Means(s, i + 1, next, "", r)
    ensures Means(s, i, st, typed, f)
  {
    ColonTyped(s, i, st, typed, i + 1, next);
    f := r.(front := [typed] + r.front);
    ValuesCons(typed, r.front);
    assert "" + s[i + 1..] == s[i + 1..];
    FormText(typed, r, s[i + 1..]);
    ColonRuns(s, i, st, next);
    ColonValues(st, typed, next, r, f);
  }

  lemma {:induction false} ColonRuns(s: string, i: nat, st: State, next: State)
    requires i < |s| && s[i] == ':' && AfterColon(s, i, st) == Some(next)
    ensures Run(s, i, st) == Run(s, if Double(s, i) then i + 2 else i + 1, next)
  {
  }

  lemma ColonValues(st: State, typed: string, next: State, r: Form, f: Form)
    requires IsField(typed) && AreFields(r.front) && AreFields(r.rear) && (r.quad == [] || IsQuad(r.quad))
    requires next.done == st.done + [Value(16, typed)] && f == r.(front := [typed] + r.front)
    requires r.double || next.compress == st.compress
    ensures AreFields(f.front)
    ensures st.done + Values(f.front) + Values(f.rear) + Last(f.quad)
         == next.done + Values(r.front) + Values(r.rear) + Last(r.quad)
    ensures CompressAt(st, f) == CompressAt(next, r)
  {
    ValuesCons(typed, r.front);
    assert st.done + ([Value(16, typed)] + Values(r.front)) == next.done + Values(r.front);
  }

  lemma FormText(g: string, r: Form, rest: string)
    requires rest == r.Text() && (r.double ==> r.front != []) && (!r.double ==> r.front != [] || r.quad != [])
    ensures g + ":" + rest == r.(front := [g] + r.front).Text()
  {
    JoinCons(g, r.front);
    if r.double {
      var tail := Tail(r.rear, r.quad);
      assert g + ":" + (Join(r.front) + "::" + tail) == (g + ":" + Join(r.front)) + "::" + tail;
    } else if r.quad != [] && r.front != [] {
      assert g + ":" + (Join(r.front) + ":" + DotText(r.quad)) == (g + ":" + Join(r.front)) + ":" + DotText(r.quad);
    }
  }

  /** One field, the double colon, and the rest. */
  lemma {:induction false} DoubleMeans(s: string, i: nat, st: State, typed: string, next: State, r: Form) returns (f: Form)
    requires Typing(s, i, st, typed) && i < |s| && s[i] == ':' && Double(s, i) && AfterColon(s, i, st) == Some(next)
    requires Typing(s, i + 2, next, "") && Means(s, i + 2, next, "", r)
    ensures Means(s, i, st, typed, f)
  {
    ColonTyped(s, i, st, typed, i + 2, next);
    f := Form([typed], true, r.front, r.quad);
    ValuesCons(typed, []);
    assert [typed] + [] == [typed] && Values([typed]) == [Value(16, typed)];
    assert "" + s[i + 2..] == s[i + 2..];
    assert Values(r.rear) == [];
    assert st.done + Values(f.front) + Values(f.rear) + Last(f.quad)
        == next.done + Values(r.front) + Values(r.rear) + Last(r.quad);
  }

  lemma {:induction false} RunMeans(s: string, i: nat, st: State, typed: string) returns (f: Form)
    requires Typing(s, i, st, typed) && Result(s, Run(s, i, st)).Some?
    ensures Means(s, i, st, typed, f)
    decreases |s| - i
  {
    if i == |s| {
      f := EndMeans(s, i, st, typed);
    } else if s[i] == '.' {
      f := DotMeans(s, i, st, typed);
    } else if s[i] == ':' {
      var j, next := ColonGoesOn(s, i, st, typed);
      var r := RunMeans(s, j, next, "");
      if Double(s, i) {
        f := DoubleMeans(s, i, st, typed, next, r);
      } else {
        f := ColonMeans(s, i, st, typed, next, r);
      }
    } else {
      var next := DigitGoesOn(s, i, st, typed);
      f := RunMeans(s, i + 1, next, typed + [s[i]]);
      DigitMeans(s, i, st, typed, next, f);
    }
  }

  lemma {:induction false} DigitMeans(s: string, i: nat, st: State, typed: string, next: State, f: Form)
    requires i < |s| && Means(s, i + 1, next, typed + [s[i]], f) && Run(s, i, st) == Run(s, i + 1, next)
    requires next.done == st.done && next.compress == st.compress && typed + s[i..] == (typed + [s[i]]) + s[i + 1..]
    ensures Means(s, i, st, typed, f)
  {
  }

  lemma {:induction false} ColonGoesOn(s: string, i: nat, st: State, typed: string) returns (j: nat, next: State)
    requires Typing(s, i, st, typed) && i < |s| && s[i] == ':' && Result(s, Run(s, i, st)).Some?
    ensures AfterColon(s, i, st) == Some(next) && j == (if Double(s, i) then i + 2 else i + 1)
    ensures Typing(s, j, next, "") && Run(s, i, st) == Run(s, j, next)
  {
    next, j := AfterColon(s, i, st).value, if Double(s, i) then i + 2 else i + 1;
    ColonTyped(s, i, st, typed, j, next);
  }

  lemma {:induction false} DigitGoesOn(s: string, i: nat, st: State, typed: string) returns (next: State)
    requires Typing(s, i, st, typed) && i < |s| && s[i] != ':' && s[i] != '.' && Result(s, Run(s, i, st)).Some?
    ensures Typing(s, i + 1, next, typed + [s[i]]) && Run(s, i, st) == Run(s, i + 1, next)
    ensures next.done == st.done && next.compress == st.compress && typed + s[i..] == (typed + [s[i]]) + s[i + 1..]
  {
    next := AfterDigit(s[i], st).value;
    DigitTyped(s, i, st, typed);
  }

  lemma {:induction false} ParseMeans(s: string) returns (f: Form)
    requires Parse(s).Some?
    ensures f.Valid() && f.Text() == s && Parse(s) == Some(f.Blocks())
  {
    if s[0] == ':' {
      f := LeadingMeans(s);
    } else {
      f := InnerMeans(s);
    }
  }

  lemma {:induction false} LeadingMeans(s: string) returns (f: Form)
    requires s != "" && s[0] == ':' && Parse(s).Some?
    ensures f.Valid() && f.Text() == s && Parse(s) == Some(f.Blocks())
  {
    LeadingRuns(s);
    var r := RunMeans(s, 2, AFTER_LEADING, "");
    f := Form([], true, r.front, r.quad);
    LeadingText(s, r, f);
    LeadingBlocks(r, f);
  }

  lemma LeadingText(s: string, r: Form, f: Form)
    requires |s| >= 2 && s[0] == ':' && s[1] == ':' && "" + s[2..] == r.Text() && !r.double
    requires f == Form([], true, r.front, r.quad)
    ensures f.Text() == s
  {
    assert s == "::" + s[2..] && "" + s[2..] == s[2..];
  }

  lemma {:induction false} InnerMeans(s: string) returns (f: Form)
    requires s != "" && s[0] != ':' && Parse(s).Some?
    ensures f.Valid() && f.Text() == s && Parse(s) == Some(f.Blocks())
  {
    StartTyped(s);
    f := RunMeans(s, 1, AfterDigit(s[0], START).value, [s[0]]);
    assert [s[0]] + s[1..] == s;
    InnerBlocks(f);
  }

  /** Behind a double colon at the very start. */
  const AFTER_LEADING := State([], Some(0), 0, true)

  lemma {:induction false} LeadingRuns(s: string)
    requires s != "" && s[0] == ':' && Parse(s).Some?
    ensures |s| >= 2 && s[1] == ':' && Run(s, 0, START) == Run(s, 2, AFTER_LEADING) && Typing(s, 2, AFTER_LEADING, "")
  {
    assert s[2 - 0..2] == "";
  }

  lemma {:induction false} StartTyped(s: string)
    requires s != "" && s[0] != ':' && Parse(s).Some?
    ensures AfterDigit(s[0], START).Some? && Typing(s, 1, AfterDigit(s[0], START).value, [s[0]])
    ensures Run(s, 0, START) == Run(s, 1, AfterDigit(s[0], START).value)
  {
    OneDigitValue(s[0]);
    assert s[0..1] == [s[0]];
  }

  lemma {:induction false} OneDigitValue(c: char)
    requires HexDigit(c).Some?
    ensures Digits(16, [c]) && Value(16, [c]) == HexDigit(c).value < 16
  {
    assert [c][1..] == "" && DigitIn(16, [c][0]).Some?;
    assert Eval(16, 0, [c]) == Eval(16, 16 * 0 + HexDigit(c).value, "");
  }

  lemma LeadingBlocks(r: Form, f: Form)
    requires AreFields(r.front) && r.rear == [] && (r.quad == [] || IsQuad(r.quad)) && f == Form([], true, r.front, r.quad)
    requires Expand([] + Values(r.front) + Values(r.rear) + Last(r.quad), Some(0)).Some?
    ensures f.Valid() && Expand([] + Values(r.front) + Values(r.rear) + Last(r.quad), Some(0)) == Some(f.Blocks())
  {
    var done := [] + Values(r.front) + Values(r.rear) + Last(r.quad);
    assert Values(r.rear) == [] && Values(f.front) == [];
    assert done[..0] == [] && done[0..] == done == Values(r.front) + Last(r.quad);
    var zeros := seq(8 - f.Count(), _ => 0);
    assert [] + zeros + done == [] + zeros + Values(r.front) + Last(r.quad);
  }

  lemma InnerBlocks(f: Form)
    requires AreFields(f.front) && AreFields(f.rear) && (f.quad == [] || IsQuad(f.quad))
    requires if f.double then |f.front| <= 7 else f.rear == []
    requires var at := if f.double then Some(|f.front|) else None;
      Expand([] + Values(f.front) + Values(f.rear) + Last(f.quad), at).Some?
    ensures f.Valid()
    ensures var at := if f.double then Some(|f.front|) else None;
      Expand([] + Values(f.front) + Values(f.rear) + Last(f.quad), at) == Some(f.Blocks())
  {
    var a, b, l := Values(f.front), Values(f.rear), Last(f.quad);
    var done := [] + a + b + l;
    assert done == a + (b + l);
    if f.double {
      assert done[..|f.front|] == a && done[|f.front|..] == b + l;
      var zeros := seq(8 - f.Count(), _ => 0);
      Concat(a + zeros, b, l);
    } else {
      assert b == [] && a + [] + b + l == done;
    }
  }

  /** The text stands for the address. */
  ghost predicate StandsFor(s: string, blocks: seq<Block>) {
    exists f: Form :: f.Valid() && f.Text() == s && f.Blocks() == blocks
  }

  /** The texts accepted are exactly those of the grammar, and mean what it says. */
  lemma {:induction false} ParseIff(s: string, blocks: seq<Block>)
    ensures Parse(s) == Some(blocks) <==> StandsFor(s, blocks)
  {
    if Parse(s).Some? {
      var f := ParseMeans(s);
    }
    forall f: Form | f.Valid() && f.Text() == s && f.Blocks() == blocks ensures Parse(s) == Some(blocks) {
      FormIsRead(f);
    }
  }
}
