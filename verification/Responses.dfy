/**
 The slice parser for replies: it walks the header and the body of a packet once, allocates nothing, and points
 into the packet. Beside it, what it finds in terms of the trees of the packet and of the fully unpacked maps.
 */
module Responses {
  import opened ByteStrings
  import opened MsgPuck
  import opened Wire
  import opened PhpValues
  import opened RoundTrip
  import opened Unpacker
  import opened Proto

  /** A pointer into the buffer with a length: `at` is what lies from the pointer to the end of the buffer. */
  datatype Pointer = Pointer(at: Bytes, len: nat)

  type Slice = s: Pointer | s.len <= |s.at| witness Pointer([], 0)

  datatype Response = Response(code: nat, sync: nat, error: Option<Bytes>, data: Option<Slice>)

  /** The slice is one element, this one. */
  ghost predicate Holds(s: Slice, t: Tree) {
    Parse(s.at).Some? && Parse(s.at).value.0 == t && s.len + |Parse(s.at).value.1| == |s.at|
  }

  /**
   `Malformed` is the result -1. `Fault` is where the C code leaves defined behaviour: a read past the buffer, a body
   key that is no unsigned number, or a record that is freed before it is allocated.
   */
  datatype Outcome = Parsed(len: nat) | Malformed | Fault

  // ---- the trees of a packet ----

  predicate IsUint(t: Tree) { t.head.kind.Uint? && t.head.num >= 0 }

  /** Keys are cut to 32 bits before they are compared. */
  predicate KeyIs(k: Tree, key: nat) { IsUint(k) && k.head.num % TWO_32 == key }

  /** Keys that differ by a multiple of 2^32 count as the same. */
  lemma KeysAreCut(k: Tree, key: nat, m: nat)
    requires IsUint(k) && key < 0x1_0000_0000 && k.head.num == key + m * 0x1_0000_0000
    ensures KeyIs(k, key) && forall other: nat :: KeyIs(k, other) ==> other == key
  {
    assert (key + m * TWO_32) % TWO_32 == key;
  }

  /** The value of the last of the first `i` pairs whose key is `key`. */
  function LastValue(items: seq<Tree>, i: nat, key: nat): Option<Tree>
    requires 2 * i <= |items|
  {
    if i == 0 then None
    else if KeyIs(items[2 * i - 2], key) then Some(items[2 * i - 1])
    else LastValue(items, i - 1, key)
  }

  lemma {:induction false} LastValuePrefix(xs: seq<Tree>, ys: seq<Tree>, i: nat, key: nat)
    requires 2 * i <= |xs| && 2 * i <= |ys| && xs[..2 * i] == ys[..2 * i]
    ensures LastValue(xs, i, key) == LastValue(ys, i, key)
  {
    if i > 0 {
      assert xs[2 * i - 2] == xs[..2 * i][2 * i - 2] && xs[2 * i - 1] == xs[..2 * i][2 * i - 1];
      assert xs[..2 * i - 2] == xs[..2 * i][..2 * i - 2] == ys[..2 * i - 2];
      LastValuePrefix(xs, ys, i - 1, key);
    }
  }

  function Number(t: Option<Tree>): nat {
    if t.Some? && t.value.head.num >= 0 then t.value.head.num % TWO_32 else 0
  }

  /** Header keys and values are all unsigned numbers. */
  predicate HeaderShape(items: seq<Tree>) {
    forall j :: 0 <= j < |items| ==> IsUint(items[j])
  }

  predicate BodyPair(k: Tree, v: Tree) {
    IsUint(k) && (KeyIs(k, ERROR) ==> v.head.kind.Str?) && (KeyIs(k, DATA) ==> v.head.kind.Array?)
  }

  /** Body keys are unsigned numbers, an error is a string and data is an array. */
  predicate BodyShape(items: seq<Tree>) {
    forall i :: 0 <= i < |items| / 2 ==> BodyPair(items[2 * i], items[2 * i + 1])
  }

  ghost predicate WellFormedReply(buf: Bytes) {
    && Parse(buf).Some?
    && var (h, rest) := Parse(buf).value;
    && h.head.kind.Map? && HeaderShape(h.items)
    && Parse(rest).Some?
    && var (b, _) := Parse(rest).value;
    && b.head.kind.Map? && BodyShape(b.items)
  }

  /** A well-formed reply is one whatever follows it, with the same two trees. */
  lemma WellFormedMore(buf: Bytes, more: Bytes)
    requires WellFormedReply(buf)
    ensures WellFormedReply(buf + more) && Parse(buf + more).value.0 == Parse(buf).value.0
    ensures Parse(Parse(buf + more).value.1).value.0 == Parse(Parse(buf).value.1).value.0
  {
    hide Parse, HeaderShape, BodyShape;
    ParseMore(buf, more);
    ParseMore(Parse(buf).value.1, more);
  }

  // ---- the parser ----

  datatype Step = Done | Stop(why: Outcome)

  function Typeof(p: Bytes): Option<Kind> {
    if p == [] then None else Some(FormOf(p[0]).kind)
  }

  /** There is an element at the cursor, of another kind than this. */
  predicate OtherThan(p: Bytes, kind: Kind) {
    p != [] && Typeof(p) != Some(kind)
  }

  lemma FirstOfMany(s: Bytes, k: nat)
    requires k > 0 && ParseMany(s, k).Some?
    ensures Parse(s).Some? && ParseMany(s, k).value.0[0] == Parse(s).value.0
  {
  }

  /** The `i`-th pair of a complete run of pairs: its key at the cursor, its value after it. */
  lemma PairHere(rest: Bytes, n: nat, i: nat, xs: seq<Tree>, p: Bytes)
    requires ParseMany(rest, 2 * n).Some? && i < n && ParseMany(rest, 2 * i) == Some((xs, p))
    ensures Parse(p).Some? && Parse(Parse(p).value.1).Some?
    ensures var items := ParseMany(rest, 2 * n).value.0;
      items[2 * i] == Parse(p).value.0 && items[2 * i + 1] == Parse(Parse(p).value.1).value.0
  {
    hide Parse, ParseMany;
    ParseManySplit(rest, 2 * i, 2 * n);
    FirstOfMany(p, 2 * n - 2 * i);
    ParseManyStep(rest, 2 * i);
    ParseManySplit(rest, 2 * i + 1, 2 * n);
    FirstOfMany(Parse(p).value.1, 2 * n - 2 * i - 1);
  }

  lemma PairRead(rest: Bytes, i: nat, xs: seq<Tree>, p: Bytes)
    requires ParseMany(rest, 2 * i) == Some((xs, p)) && Parse(p).Some? && Parse(Parse(p).value.1).Some?
    ensures var (k, q) := Parse(p).value; var (v, q') := Parse(q).value;
      ParseMany(rest, 2 * (i + 1)) == Some((xs + [k] + [v], q'))
  {
    hide Parse, ParseMany;
    ParseManyStep(rest, 2 * i);
    ParseManyStep(rest, 2 * i + 1);
  }

  /** What the type of the next byte says about the element there. */
  lemma TypeofParse(p: Bytes)
    ensures Typeof(p).None? ==> Parse(p).None?
    ensures Parse(p).Some? ==> Typeof(p) == Some(Parse(p).value.0.head.kind)
  {
    hide FormOf;
  }

  /** `mp_decode_uint`: reads an unsigned number; `None` where there is none. */
  function DecodeUint(p: Bytes): (r: Option<(nat, Bytes)>)
    ensures r.Some? ==> |r.value.1| < |p|
  {
    match ReadToken(p)
    case None => None
    case Some((t, rest)) => if t.kind.Uint? then Some((t.num, rest)) else None
  }

  lemma DecodeUintParse(p: Bytes)
    ensures DecodeUint(p).Some? <==> Parse(p).Some? && IsUint(Parse(p).value.0)
    ensures DecodeUint(p).Some? ==> var (t, rest) := Parse(p).value; DecodeUint(p).value == (t.head.num, rest)
  {
    hide ReadToken;
    if DecodeUint(p).Some? {
      ParseScalarToken(p);
    }
  }

  ghost predicate UintPair(p: Bytes) {
    && Parse(p).Some? && IsUint(Parse(p).value.0)
    && Parse(Parse(p).value.1).Some? && IsUint(Parse(Parse(p).value.1).value.0)
  }

  /** The pair is refused for the kind of its key or of its value. */
  ghost predicate UintPairRefused(p: Bytes) {
    OtherThan(p, Uint) || (Parse(p).Some? && IsUint(Parse(p).value.0) && OtherThan(Parse(p).value.1, Uint))
  }

  /** After `j` complete unsigned numbers an element of another kind starts. */
  ghost predicate HeaderGap(rest: Bytes, j: nat) {
    ParseMany(rest, j).Some? && HeaderShape(ParseMany(rest, j).value.0) && OtherThan(ParseMany(rest, j).value.1, Uint)
  }

  /** The header is refused: among its keys and values an element of another kind starts where no byte is missing. */
  ghost predicate HeaderRefused(rest: Bytes, n: nat) {
    exists j :: 0 <= j < 2 * n && HeaderGap(rest, j)
  }

  /** Where the run of unsigned numbers ends, there is the only place for a gap. */
  lemma OneHeaderGap(rest: Bytes, j: nat, xs: seq<Tree>, p: Bytes, k: nat)
    requires ParseMany(rest, j) == Some((xs, p)) && HeaderShape(xs)
    requires Parse(p).None? || !IsUint(Parse(p).value.0)
    ensures HeaderGap(rest, k) ==> k == j
  {
    hide Parse, ParseMany, FormOf;
    if k < j {
      ParseManySplit(rest, k, j);
      var (ys, q) := ParseMany(rest, k).value;
      FirstOfMany(q, j - k);
      assert xs[k] == Parse(q).value.0;
      TypeofParse(q);
    } else if k > j && ParseMany(rest, k).Some? {
      ParseManySplit(rest, j, k);
      FirstOfMany(p, k - j);
      assert ParseMany(rest, k).value.0[j] == Parse(p).value.0;
    }
  }

  lemma UintStartsNoGap(p: Bytes)
    requires Parse(p).Some? && IsUint(Parse(p).value.0)
    ensures !OtherThan(p, Uint)
  {
    hide Parse, FormOf;
    TypeofParse(p);
  }

  lemma GapHere(rest: Bytes, j: nat, xs: seq<Tree>, p: Bytes)
    requires ParseMany(rest, j) == Some((xs, p)) && HeaderShape(xs)
    ensures HeaderGap(rest, j) <==> OtherThan(p, Uint)
  {
  }

  lemma HeaderStops(rest: Bytes, n: nat, i: nat, xs: seq<Tree>, p: Bytes)
    requires i < n && ParseMany(rest, 2 * i) == Some((xs, p)) && HeaderShape(xs) && !UintPair(p)
    ensures HeaderRefused(rest, n) <==> UintPairRefused(p)
  {
    hide Parse, ParseMany, FormOf, HeaderGap, OtherThan, IsUint;
    if Parse(p).Some? && IsUint(Parse(p).value.0) {
      ParseManyStep(rest, 2 * i);
      var ys, q := xs + [Parse(p).value.0], Parse(p).value.1;
      assert HeaderShape(ys);
      UintStartsNoGap(p);
      forall k | HeaderGap(rest, k) ensures k == 2 * i + 1 {
        OneHeaderGap(rest, 2 * i + 1, ys, q, k);
      }
      assert HeaderGap(rest, 2 * i + 1) <==> OtherThan(q, Uint) by { GapHere(rest, 2 * i + 1, ys, q); }
    } else {
      forall k | HeaderGap(rest, k) ensures k == 2 * i {
        OneHeaderGap(rest, 2 * i, xs, p, k);
      }
      assert HeaderGap(rest, 2 * i) <==> OtherThan(p, Uint) by { GapHere(rest, 2 * i, xs, p); }
    }
  }

  /** An element whose type byte says unsigned number is one. */
  lemma UintTypeIsUint(p: Bytes)
    requires Parse(p).Some? && Typeof(p) == Some(Uint)
    ensures IsUint(Parse(p).value.0)
  {
    hide FormOf;
  }

  /** One header pair; the value is read only under the keys of interest and skipped under any other. */
  method HeaderPair(p: Bytes, code0: nat, sync0: nat) returns (step: Step, code: nat, sync: nat, next: Bytes)
    ensures step.Done? <==> UintPair(p)
    ensures step.Stop? ==> step == Stop(if UintPairRefused(p) then Malformed else Fault)
    ensures step.Stop? ==> code == code0 && sync == sync0
    ensures step.Done? ==>
      var (k, q) := Parse(p).value; var (v, q') := Parse(q).value;
      && next == q'
      && code == (if KeyIs(k, CODE) then v.head.num % TWO_32 else code0)
      && sync == (if KeyIs(k, SYNC) then v.head.num % TWO_32 else sync0)
  {
    hide ReadToken, Parse, FormOf, DecodeUint;
    code, sync, next := code0, sync0, p;
    TypeofParse(p);
    DecodeUintParse(p);
    if Typeof(p) != Some(Uint) {
      return Stop(if p == [] then Fault else Malformed), code, sync, p;
    }
    var key := DecodeUint(p);
    if key.None? {
      return Stop(Fault), code, sync, p;
    }
    var q := key.value.1;
    TypeofParse(q);
    DecodeUintParse(q);
    if Typeof(q) != Some(Uint) {
      return Stop(if q == [] then Fault else Malformed), code, sync, p;
    }
    var k := key.value.0 % TWO_32;
    if k == SYNC || k == CODE {
      var val := DecodeUint(q);
      if val.None? {
        return Stop(Fault), code, sync, p;
      }
      if k == SYNC {
        sync := val.value.0 % TWO_32;
      } else {
        code := val.value.0 % TWO_32;
      }
      next := val.value.1;
    } else {
      var skipped := Next(q);
      if skipped.None? {
        return Stop(Fault), code, sync, p;
      }
      UintTypeIsUint(q);
      next := skipped.value;
    }
    step := Done;
  }

  method ParseHeader(rest: Bytes, n: nat) returns (step: Step, code: nat, sync: nat, p: Bytes)
    ensures step.Done? <==> ParseMany(rest, 2 * n).Some? && HeaderShape(ParseMany(rest, 2 * n).value.0)
    ensures step.Stop? ==> step == Stop(if HeaderRefused(rest, n) then Malformed else Fault)
    ensures step.Done? ==>
      var (items, end) := ParseMany(rest, 2 * n).value;
      p == end && code == Number(LastValue(items, n, CODE)) && sync == Number(LastValue(items, n, SYNC))
  {
    hide Parse, ParseMany, HeaderRefused, UintPairRefused;
    code, sync := 0, 0;
    p := rest;
    var left := n;
    ghost var xs: seq<Tree> := [];
    ManyNone(rest);
    while left > 0
      invariant 0 <= left <= n && |xs| == 2 * (n - left)
      invariant ParseMany(rest, 2 * (n - left)) == Some((xs, p))
      invariant HeaderShape(xs)
      invariant code == Number(LastValue(xs, n - left, CODE)) && sync == Number(LastValue(xs, n - left, SYNC))
    {
      ghost var i := n - left;
      if ParseMany(rest, 2 * n).Some? {
        PairHere(rest, n, i, xs, p);
      }
      ghost var here := p;
      step, code, sync, p := HeaderPair(p, code, sync);
      if step.Stop? {
        HeaderStops(rest, n, i, xs, here);
        return;
      }
      PairRead(rest, i, xs, here);
      ghost var xs' := xs + [Parse(here).value.0] + [Parse(Parse(here).value.1).value.0];
      LastValuePrefix(xs, xs', i, CODE);
      LastValuePrefix(xs, xs', i, SYNC);
      xs := xs';
      left := left - 1;
    }
    step := Done;
  }

  // ---- the body ----

  /** What the body pairs seen so far leave in the response. */
  ghost predicate BodyState(items: seq<Tree>, i: nat, error: Option<Bytes>, data: Option<Slice>)
    requires 2 * i <= |items|
  {
    && error == (match LastValue(items, i, ERROR) case Some(t) => Some(t.head.payload) case None => None)
    && (data.Some? <==> LastValue(items, i, DATA).Some?)
    && (data.Some? ==> Holds(data.value, LastValue(items, i, DATA).value))
  }

  ghost predicate GoodPair(p: Bytes) {
    && Parse(p).Some? && Parse(Parse(p).value.1).Some?
    && BodyPair(Parse(p).value.0, Parse(Parse(p).value.1).value.0)
  }

  /** The pair is refused: its key is that of an error or of data, and its value is of another kind than that. */
  ghost predicate PairRefused(p: Bytes) {
    && Parse(p).Some? && IsUint(Parse(p).value.0)
    && var (k, q) := Parse(p).value;
    (KeyIs(k, 0x31) && OtherThan(q, Str)) || (KeyIs(k, 0x30) && OtherThan(q, Array))
  }

  ghost predicate BodyGap(rest: Bytes, i: nat) {
    && ParseMany(rest, 2 * i).Some? && BodyShape(ParseMany(rest, 2 * i).value.0)
    && PairRefused(ParseMany(rest, 2 * i).value.1)
  }

  /** The body is refused: after good pairs comes one with a value of the wrong kind. */
  ghost predicate BodyRefused(rest: Bytes, n: nat) {
    exists i :: 0 <= i < n && BodyGap(rest, i)
  }

  lemma GoodNotRefused(p: Bytes)
    requires GoodPair(p)
    ensures !PairRefused(p)
  {
    hide Parse, FormOf;
    TypeofParse(Parse(p).value.1);
  }

  lemma PairIsGood(rest: Bytes, n: nat, i: nat, xs: seq<Tree>, p: Bytes)
    requires ParseMany(rest, 2 * n).Some? && i < n && ParseMany(rest, 2 * i) == Some((xs, p))
    requires BodyShape(ParseMany(rest, 2 * n).value.0)
    ensures GoodPair(p)
  {
    hide Parse, ParseMany, BodyPair;
    PairHere(rest, n, i, xs, p);
    var items := ParseMany(rest, 2 * n).value.0;
    assert BodyPair(items[2 * i], items[2 * i + 1]);
  }

  lemma BodyStops(rest: Bytes, n: nat, i: nat, xs: seq<Tree>, p: Bytes)
    requires i < n && ParseMany(rest, 2 * i) == Some((xs, p)) && BodyShape(xs) && !GoodPair(p)
    ensures BodyRefused(rest, n) <==> PairRefused(p)
  {
    hide Parse, ParseMany, GoodPair, PairRefused, BodyShape;
    forall k | 0 <= k < n && BodyGap(rest, k) ensures k == i {
      var (ys, q) := ParseMany(rest, 2 * k).value;
      if k < i {
        PairIsGood(rest, i, k, ys, q);
        GoodNotRefused(q);
      } else if k > i {
        PairIsGood(rest, k, i, xs, p);
      }
    }
    assert BodyGap(rest, i) <==> PairRefused(p);
  }

  lemma ParseShorter(p: Bytes)
    requires Parse(p).Some?
    ensures |Parse(p).value.1| < |p|
  {
    hide ReadToken;
  }

  lemma HeadRead(p: Bytes)
    requires Parse(p).Some?
    ensures ReadToken(p).Some? && Parse(p).value.0.head == ReadToken(p).value.0
    ensures |Parse(p).value.1| <= |p|
  {
    hide ReadToken;
  }

  method BodyStep(p: Bytes, code0: nat, error0: Option<Bytes>, data0: Option<Slice>)
    returns (step: Step, code: nat, error: Option<Bytes>, data: Option<Slice>, next: Bytes)
    ensures step.Done? <==> GoodPair(p)
    ensures step.Stop? ==> step == Stop(if PairRefused(p) then Malformed else Fault) && code == code0
    ensures step.Done? ==>
      var (k, q) := Parse(p).value; var (v, q') := Parse(q).value;
      && next == q'
      && code == (if KeyIs(k, ERROR) then code0 % 0x8000 else code0)
      && error == (if KeyIs(k, ERROR) then Some(v.head.payload) else error0)
      && (if KeyIs(k, DATA) then data.Some? && Holds(data.value, v) else data == data0)
  {
    hide ReadToken, Parse, FormOf, DecodeUint;
    code, error, data, next := code0, error0, data0, p;
    DecodeUintParse(p);
    var key := DecodeUint(p);
    if key.None? {
      return Stop(Fault), code, error, data, p;
    }
    var q := key.value.1;
    TypeofParse(q);
    var k := key.value.0 % TWO_32;
    if k == ERROR && Typeof(q) != Some(Str) {
      return Stop(if q == [] then Fault else Malformed), code, error, data, p;
    }
    if k == DATA && Typeof(q) != Some(Array) {
      return Stop(if q == [] then Fault else Malformed), code, error, data, p;
    }
    var skipped := Next(q);
    if skipped.None? {
      return Stop(Fault), code, error, data, p;
    }
    if k == ERROR {
      HeadRead(q);
      error := Some(ReadToken(q).value.0.payload);
      code := code % 0x8000;
    } else if k == DATA {
      ParseShorter(q);
      data := Some(Pointer(q, |q| - |skipped.value|));
    }
    next := skipped.value;
    step := Done;
  }

  lemma BodyStateStep(xs: seq<Tree>, xs': seq<Tree>, i: nat, k: Tree, v: Tree, error: Option<Bytes>,
      data: Option<Slice>,
                      error': Option<Bytes>, data': Option<Slice>)
    requires |xs| == 2 * i && xs' == xs + [k] + [v] && BodyState(xs, i, error, data)
    requires error' == if KeyIs(k, ERROR) then Some(v.head.payload) else error
    requires if KeyIs(k, DATA) then data'.Some? && Holds(data'.value, v) else data' == data
    ensures BodyState(xs', i + 1, error', data')
  {
    hide Parse, KeyIs;
    LastValuePrefix(xs, xs', i, ERROR);
    LastValuePrefix(xs, xs', i, DATA);
    assert xs'[2 * i] == k && xs'[2 * i + 1] == v;
  }

  lemma BodyShapeStep(xs: seq<Tree>, i: nat, k: Tree, v: Tree)
    requires |xs| == 2 * i && BodyShape(xs) && BodyPair(k, v)
    ensures BodyShape(xs + [k] + [v])
  {
    hide BodyPair;
    var ys := xs + [k] + [v];
    forall j | 0 <= j < |ys| / 2 ensures BodyPair(ys[2 * j], ys[2 * j + 1]) {
      if j < i {
        assert ys[2 * j] == xs[2 * j] && ys[2 * j + 1] == xs[2 * j + 1];
      }
    }
  }

  lemma BodyStateNone()
    ensures BodyState([], 0, None, None)
  {
  }

  method ParseBody(rest: Bytes, n: nat, code0: nat)
    returns (step: Step, code: nat, error: Option<Bytes>, data: Option<Slice>, p: Bytes)
    ensures step.Done? <==> ParseMany(rest, 2 * n).Some? && BodyShape(ParseMany(rest, 2 * n).value.0)
    ensures step.Stop? ==> step == Stop(if BodyRefused(rest, n) then Malformed else Fault)
    ensures step.Done? ==>
      var (items, end) := ParseMany(rest, 2 * n).value;
      p == end && BodyState(items, n, error, data) && code == (if error.Some? then code0 % 0x8000 else code0)
  {
    hide Parse, ParseMany, BodyPair, BodyState, BodyRefused, PairRefused;
    code, error, data := code0, None, None;
    p := rest;
    var left := n;
    ghost var xs: seq<Tree> := [];
    ManyNone(rest);
    BodyStateNone();
    while left > 0
      invariant 0 <= left <= n && |xs| == 2 * (n - left)
      invariant ParseMany(rest, 2 * (n - left)) == Some((xs, p))
      invariant BodyShape(xs)
      invariant BodyState(xs, n - left, error, data)
      invariant code == if error.Some? then code0 % 0x8000 else code0
    {
      ghost var i := n - left;
      if ParseMany(rest, 2 * n).Some? {
        PairHere(rest, n, i, xs, p);
      }
      ghost var here, error0, data0 := p, error, data;
      step, code, error, data, p := BodyStep(p, code, error, data);
      if step.Stop? {
        BodyStops(rest, n, i, xs, here);
        return;
      }
      ghost var k := Parse(here).value.0;
      ghost var v := Parse(Parse(here).value.1).value.0;
      PairRead(rest, i, xs, here);
      BodyStateStep(xs, xs + [k] + [v], i, k, v, error0, data0, error, data);
      BodyShapeStep(xs, i, k, v);
      xs := xs + [k] + [v];
      left := left - 1;
    }
    step := Done;
  }

  /** What a parsed reply holds, in terms of the header tree and the body tree of the packet. */
  ghost predicate Describes(buf: Bytes, r: Response, len: nat)
    requires WellFormedReply(buf)
  {
    var (h, rest) := Parse(buf).value;
    var (b, rest') := Parse(rest).value;
    var n, m := |h.items| / 2, |b.items| / 2;
    && len == |buf| - |rest'|
    && r.sync == Number(LastValue(h.items, n, SYNC))
    && var code := Number(LastValue(h.items, n, CODE));
    && r.code == (if r.error.Some? then code % 0x8000 else code)
    && BodyState(b.items, m, r.error, r.data)
  }

  ghost predicate MapHeadAt(p: Bytes) {
    ReadToken(p).Some? && ReadToken(p).value.0.kind.Map?
  }

  /** The reply is refused: where a map should start or in one of the two maps, something of another kind stands. */
  ghost predicate ReplyRefused(buf: Bytes) {
    || OtherThan(buf, Map)
    || (MapHeadAt(buf) && var (head, rest) := ReadToken(buf).value; HeaderRefused(rest, head.Children() / 2))
    || (&& Parse(buf).Some? && Parse(buf).value.0.head.kind.Map? && HeaderShape(Parse(buf).value.0.items)
        && var p := Parse(buf).value.1;
        || OtherThan(p, Map)
        || (MapHeadAt(p) && var (head, rest) := ReadToken(p).value; BodyRefused(rest, head.Children() / 2)))
  }

  lemma WholeHeaderNotRefused(rest: Bytes, n: nat)
    requires ParseMany(rest, 2 * n).Some? && HeaderShape(ParseMany(rest, 2 * n).value.0)
    ensures !HeaderRefused(rest, n)
  {
    hide Parse, ParseMany, FormOf;
    forall j | 0 <= j < 2 * n ensures !HeaderGap(rest, j) {
      ParseManySplit(rest, j, 2 * n);
      var (ys, q) := ParseMany(rest, j).value;
      FirstOfMany(q, 2 * n - j);
      assert ParseMany(rest, 2 * n).value.0[j] == Parse(q).value.0;
      TypeofParse(q);
    }
  }

  lemma MapHeadIsMap(p: Bytes)
    requires MapHeadAt(p)
    ensures !OtherThan(p, Map)
  {
    hide FormOf;
  }

  /** Opens a map at the cursor: the number of its pairs and the cursor after its head. */
  method OpenPairs(p: Bytes) returns (step: Step, n: nat, rest: Bytes)
    ensures step.Done? ==> ReadToken(p).Some?
    ensures step.Done? ==> ReadToken(p).value.0.kind.Map? && ReadToken(p).value.0.Children() == 2 * n
    ensures step.Done? ==> ReadToken(p).value.1 == rest
    ensures step.Stop? ==> step == Stop(if OtherThan(p, Map) then Malformed else Fault)
    ensures step.Stop? ==> !MapHeadAt(p) && (Parse(p).None? || !Parse(p).value.0.head.kind.Map?)
  {
    hide FormOf;
    n, rest := 0, p;
    if Typeof(p) != Some(Map) {
      return Stop(if p == [] then Fault else Malformed), n, rest;
    }
    var head := ReadToken(p);
    if head.None? {
      return Stop(Fault), n, rest;
    }
    return Done, head.value.0.num, head.value.1;
  }

  /** A map or array parses exactly when all its elements do. */
  lemma ListParsed(s: Bytes)
    requires ReadToken(s).Some?
    ensures var (t, rest) := ReadToken(s).value;
      && (Parse(s).Some? <==> ParseMany(rest, t.Children()).Some?)
      && (Parse(s).Some? ==>
            var (items, more) := ParseMany(rest, t.Children()).value;
            Parse(s).value == (Tree(t, items), more))
  {
    hide ReadToken, ParseMany;
  }

  /** Parses a reply. It succeeds exactly on well-formed packets, and then tells what the two trees say. */
  method ParseResponse(buf: Bytes) returns (r: Response, outcome: Outcome)
    ensures outcome.Parsed? <==> WellFormedReply(buf)
    ensures outcome.Parsed? ==> Describes(buf, r, outcome.len)
    ensures !outcome.Parsed? ==> outcome == if ReplyRefused(buf) then Malformed else Fault
  {
    hide ReadToken, FormOf, ParseMany, HeaderShape, BodyShape, BodyState, LastValue, Token.Children, HeaderRefused,
      BodyRefused, OtherThan;
    r := Response(0, 0, None, None);
    var head, n, rest := OpenPairs(buf);
    if head.Stop? {
      return r, head.why;
    }
    var step, code, sync, p := ParseHeader(rest, n);
    r := Response(code, sync, None, None);
    ListParsed(buf);
    MapHeadIsMap(buf);
    if step.Stop? {
      return r, step.why;
    }
    WholeHeaderNotRefused(rest, n);
    var head', m, rest' := OpenPairs(p);
    if head'.Stop? {
      return r, head'.why;
    }
    var step', code', error, data, q := ParseBody(rest', m, code);
    r := Response(code', sync, error, data);
    ListParsed(p);
    MapHeadIsMap(p);
    if step'.Stop? {
      return r, step'.why;
    }
    outcome := Parsed(|buf| - |q|);
  }

  // ---- agreement with the full decoder ----

  /** Keys that a 32-bit comparison does not confuse. */
  ghost predicate SmallKeys(items: seq<Tree>) {
    forall i :: 0 <= i < |items| / 2 ==> IsUint(items[2 * i]) && items[2 * i].head.num < TWO_32
  }

  lemma WrapSmall(n: nat)
    ensures n < TWO_32 ==> Wrap64(n) == n
    ensures Wrap64(n) % TWO_32 == n % TWO_32
  {
  }

  lemma StoreFinds(p: PVal, k: int, v: PVal, key: int)
    requires p.PTable? && Distinct(KeysOf(p.entries))
    ensures var q := Store(p, IntKey(k), v).entries;
      Distinct(KeysOf(q)) && Find(q, IntKey(key)) == if key == k then Some(v) else Find(p.entries, IntKey(key))
  {
    hide Put, Find, KeysOf, NextAfter;
    PutFinds(p.entries, IntKey(k), v, IntKey(key));
  }

  lemma EmptyFinds(k: Key)
    ensures Find([], k) == None && Distinct(KeysOf<PVal>([]))
  {
  }

  lemma UintKeyStores(p: PVal, k: Tree, v: Unpacked)
    requires p.PTable? && IsUint(k) && k.head.num < TWO_32
    ensures v.Value? ==> StorePair(p, FromTree(k), v) == Value(Store(p, IntKey(k.head.num), v.v))
    ensures !v.Value? ==> !StorePair(p, FromTree(k), v).Value?
  {
    hide Store;
    WrapSmall(k.head.num);
  }

  /** A lookup in the unpacked map finds the value of the last pair with that key. */
  lemma {:induction false} LookupIsLast(t: Tree, i: nat, key: U32)
    requires 2 * i <= |t.items| && SmallKeys(t.items) && FromPairs(t, i).Value?
    ensures Distinct(KeysOf(FromPairs(t, i).v.entries))
    ensures match LastValue(t.items, i, key)
      case Some(v) => FromTree(v).Value? && Find(FromPairs(t, i).v.entries, IntKey(key)) == Some(FromTree(v).v)
      case None => Find(FromPairs(t, i).v.entries, IntKey(key)) == None
    decreases i
  {
    hide FromTree, Store, StorePair, Find, KeysOf;
    if i == 0 {
      EmptyFinds(IntKey(key));
    } else {
      var k, v := t.items[2 * i - 2], t.items[2 * i - 1];
      assert k == t.items[2 * (i - 1)];
      LookupIsLast(t, i - 1, key);
      UintKeyStores(FromPairs(t, i - 1).v, k, FromTree(v));
      StoreFinds(FromPairs(t, i - 1).v, k.head.num, FromTree(v).v, key);
    }
  }

  lemma HeaderUnpacks(t: Tree, i: nat)
    requires 2 * i <= |t.items| && HeaderShape(t.items)
    ensures FromPairs(t, i).Value?
    decreases i
  {
    hide Store;
    if i > 0 {
      HeaderUnpacks(t, i - 1);
      assert IsUint(t.items[2 * i - 2]) && IsUint(t.items[2 * i - 1]);
    }
  }

  ghost predicate NumberAt(p: PVal, key: U32, n: nat)
    requires p.PTable?
  {
    match Find(p.entries, IntKey(key))
    case Some(v) => v.PLong? && v.n % TWO_32 == n
    case None => n == 0
  }

  ghost predicate AgreesWithHeader(h: PVal, r: Response)
    requires h.PTable?
  {
    && NumberAt(h, 0x01, r.sync)
    && exists code: nat :: NumberAt(h, 0x00, code) && r.code == if r.error.Some? then code % 0x8000 else code
  }

  ghost predicate AgreesWithBody(b: PVal, r: Response)
    requires b.PTable?
  {
    && Find(b.entries, IntKey(0x31)) == (match r.error case Some(text) => Some(PStr(text)) case None => None)
    && match r.data
       case Some(s) =>
         var u := Unpack(s.at[..s.len]);
         u.Got? && u.rest == [] && Find(b.entries, IntKey(0x30)) == Some(u.v)
       case None => Find(b.entries, IntKey(0x30)) == None
  }

  lemma {:induction false} LastValueFrom(items: seq<Tree>, i: nat, key: nat)
    requires 2 * i <= |items|
    ensures LastValue(items, i, key).Some? ==>
      exists j :: 0 <= j < i && KeyIs(items[2 * j], key) && items[2 * j + 1] == LastValue(items, i, key).value
  {
    if i > 0 {
      if KeyIs(items[2 * i - 2], key) {
        var j := i - 1;
        assert KeyIs(items[2 * j], key) && items[2 * j + 1] == LastValue(items, i, key).value;
      } else {
        LastValueFrom(items, i - 1, key);
      }
    }
  }

  lemma NumberIsLast(h: Tree, n: nat, key: U32)
    requires 2 * n <= |h.items| && HeaderShape(h.items) && SmallKeys(h.items) && FromPairs(h, n).Value?
    ensures NumberAt(FromPairs(h, n).v, key, Number(LastValue(h.items, n, key)))
  {
    hide FromPairs, Find;
    LookupIsLast(h, n, key);
    LastValueFrom(h.items, n, key);
    match LastValue(h.items, n, key)
    case Some(v) => WrapSmall(v.head.num);
    case None =>
  }

  lemma HeaderAgrees(h: Tree)
    requires h.head.kind.Map? && HeaderShape(h.items) && SmallKeys(h.items)
    ensures var n := |h.items| / 2;
      && FromPairs(h, n).Value?
      && NumberAt(FromPairs(h, n).v, SYNC, Number(LastValue(h.items, n, SYNC)))
      && NumberAt(FromPairs(h, n).v, CODE, Number(LastValue(h.items, n, CODE)))
  {
    hide FromPairs, Find;
    var n := |h.items| / 2;
    HeaderUnpacks(h, n);
    NumberIsLast(h, n, SYNC);
    NumberIsLast(h, n, CODE);
  }

  /** The bytes of a slice are the element and nothing else. */
  lemma SliceParses(s: Slice, t: Tree)
    requires Holds(s, t)
    ensures Parse(s.at[..s.len]) == Some((t, []))
  {
    hide Parse;
    ParseSlice(s.at);
  }

  lemma BodyAgrees(b: Tree, r: Response)
    requires b.head.kind.Map? && SmallKeys(b.items) && FromPairs(b, |b.items| / 2).Value?
    requires BodyState(b.items, |b.items| / 2, r.error, r.data) && BodyShape(b.items)
    ensures AgreesWithBody(FromPairs(b, |b.items| / 2).v, r)
  {
    hide FromPairs, Find, Parse;
    var n := |b.items| / 2;
    LookupIsLast(b, n, ERROR);
    LastValueFrom(b.items, n, ERROR);
    LookupIsLast(b, n, DATA);
    if r.data.Some? {
      SliceParses(r.data.value, LastValue(b.items, n, DATA).value);
    }
  }

  /**
   The slice parser agrees with the full decoder: sync and code are the header map's entries cut to 32 bits (the
   code to 15 bits when there is an error), the error text is the body map's entry, and the data slice unpacks to
   the body map's entry. With duplicates the last one counts on both sides.
   */
  lemma SlicesAgree(buf: Bytes, r: Response, len: nat)
    requires WellFormedReply(buf) && Describes(buf, r, len)
    requires var (h, rest) := Parse(buf).value; var (b, _) := Parse(rest).value;
      SmallKeys(h.items) && SmallKeys(b.items) && FromTree(b).Value?
    ensures var (h, rest) := Parse(buf).value; var (b, _) := Parse(rest).value;
      && FromTree(h).Value? && FromTree(h).v.PTable? && FromTree(b).v.PTable?
      && AgreesWithHeader(FromTree(h).v, r)
      && AgreesWithBody(FromTree(b).v, r)
  {
    hide Parse, LastValue, FromTree, Find, HeaderShape, BodyShape;
    var (h, rest) := Parse(buf).value;
    var (b, _) := Parse(rest).value;
    FromTreeList(h);
    FromTreeList(b);
    HeaderAgrees(h);
    BodyAgrees(b, r);
  }
}
