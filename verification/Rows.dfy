/** The rows of the two system spaces as the schema loader reads them, field by field, from a moving cursor. */
module Rows {
  import opened ByteStrings
  import opened MsgPuck
  import opened Wire
  import opened PhpValues
  import opened Codec
  import opened RoundTrip
  import opened Unpacker
  import opened Proto
  import opened Responses
  import opened PairTables

  /** A space row: the name, the number cut to 32 bits, and the cursor after the fields read. */
  datatype SpaceRow = SpaceRow(name: Bytes, number: U32, rest: Bytes)
  /** An index row: its space, its name, its number, and the cursor after the fields read. */
  datatype IndexRow = IndexRow(space: U32, name: Bytes, number: U32, rest: Bytes)

  /** An unsigned number cut to 32 bits. */
  function Low32(t: Tree): (n: U32)
    ensures IsUint(t) ==> (t.head.num - n) % 0x1_0000_0000 == 0
    ensures IsUint(t) && t.head.num < 0x1_0000_0000 ==> n == t.head.num
  {
    if IsUint(t) then t.head.num % TWO_32 else 0
  }

  /** The row announces at least six fields; the number asked for is the same for both kinds of row. */
  ghost predicate RowHead(s: Bytes) {
    ReadToken(s).Some? && ReadToken(s).value.0.kind.Array? && ReadToken(s).value.0.num >= 6
  }

  /** The elements a row reader takes after a row's head, whatever number of fields the head announces. */
  ghost function FieldsRead(s: Bytes, n: nat): Option<(seq<Tree>, Bytes)>
    requires RowHead(s)
  {
    ParseMany(ReadToken(s).value.1, n)
  }

  ghost function SpaceRowAt(s: Bytes): Option<SpaceRow> {
    if !RowHead(s) then None
    else
      match FieldsRead(s, 7)
      case None => None
      case Some((f, rest)) =>
        if IsUint(f[0]) && f[2].head.kind.Str? then Some(SpaceRow(f[2].head.payload, Low32(f[0]), rest)) else None
  }

  ghost function IndexRowAt(s: Bytes): Option<IndexRow> {
    if !RowHead(s) then None
    else
      match FieldsRead(s, 6)
      case None => None
      case Some((f, rest)) =>
        if IsUint(f[0]) && IsUint(f[1]) && f[2].head.kind.Str?
        then Some(IndexRow(Low32(f[0]), f[2].head.payload, Low32(f[1]), rest)) else None
  }

  // ---- reading fields ----

  /** The next field of a run of fields that is complete. */
  lemma FieldHere(rest: Bytes, n: nat, i: nat, xs: seq<Tree>, p: Bytes)
    requires ParseMany(rest, n).Some? && i < n && ParseMany(rest, i) == Some((xs, p))
    ensures Parse(p).Some? && ParseMany(rest, n).value.0[i] == Parse(p).value.0
  {
    hide Parse, ParseMany;
    ParseManySplit(rest, i, n);
    FirstOfMany(p, n - i);
  }

  /**
   Opens a row. Where it is no array that announces enough fields, the code frees a record that it has not allocated
   yet, through a pointer that was never set.
   */
  method OpenRow(s: Bytes) returns (step: Step, p: Bytes)
    ensures step.Done? <==> RowHead(s)
    ensures step.Done? ==> p == ReadToken(s).value.1
    ensures step.Stop? ==> step == Stop(Fault)
  {
    hide FormOf, ReadBody;
    p := s;
    if Typeof(s) != Some(Array) {
      return Stop(Fault), p;
    }
    var head := ReadToken(s);
    if head.None? {
      return Stop(Fault), p;
    }
    if head.value.0.num < 6 {
      return Stop(Fault), p;
    }
    return Done, head.value.1;
  }

  method UintField(p: Bytes) returns (step: Step, n: U32, q: Bytes)
    ensures step.Done? <==> Parse(p).Some? && IsUint(Parse(p).value.0)
    ensures step.Done? ==> n == Low32(Parse(p).value.0) && q == Parse(p).value.1
    ensures step.Done? ==> !OtherThan(p, Uint)
    ensures step.Stop? ==> step == Stop(if OtherThan(p, Uint) then Malformed else Fault)
  {
    hide FormOf, ReadToken, Parse, DecodeUint;
    TypeofParse(p);
    DecodeUintParse(p);
    n, q := 0, p;
    if Typeof(p) != Some(Uint) {
      return Stop(if p == [] then Fault else Malformed), n, q;
    }
    var v := DecodeUint(p);
    if v.None? {
      return Stop(Fault), n, q;
    }
    return Done, v.value.0 % TWO_32, v.value.1;
  }

  method StrField(p: Bytes) returns (step: Step, s: Bytes, q: Bytes)
    ensures step.Done? <==> Parse(p).Some? && Parse(p).value.0.head.kind.Str?
    ensures step.Done? ==> s == Parse(p).value.0.head.payload && q == Parse(p).value.1
    ensures step.Done? ==> !OtherThan(p, Str)
    ensures step.Stop? ==> step == Stop(if OtherThan(p, Str) then Malformed else Fault)
  {
    hide FormOf, ReadToken, Parse;
    TypeofParse(p);
    s, q := [], p;
    if Typeof(p) != Some(Str) {
      return Stop(if p == [] then Fault else Malformed), s, q;
    }
    var skipped := Next(p);
    if skipped.None? {
      return Stop(Fault), s, q;
    }
    HeadRead(p);
    return Done, ReadToken(p).value.0.payload, skipped.value;
  }

  /** Skips `n` elements; `None` is a read past the end. */
  method SkipFields(p: Bytes, n: nat) returns (q: Option<Bytes>)
    ensures q == match ParseMany(p, n) case None => None case Some((_, rest)) => Some(rest)
  {
    hide Parse, ParseMany;
    ManyNone(p);
    var at := p;
    var i := 0;
    while i < n
      invariant 0 <= i <= n && ParseMany(p, i).Some? && at == ParseMany(p, i).value.1
    {
      if ParseMany(p, n).Some? {
        FieldHere(p, n, i, ParseMany(p, i).value.0, at);
      }
      var next := Next(at);
      if next.None? {
        return None;
      }
      ParseManyStep(p, i);
      at := next.value;
      i := i + 1;
    }
    q := Some(at);
  }

  lemma OneField(p: Bytes)
    requires ParseMany(p, 1).Some?
    ensures Parse(p).Some? && ParseMany(p, 1).value.1 == Parse(p).value.1
  {
    FirstOfMany(p, 1);
    ParseManyOne(p);
  }

  /** The row is opened and then refused for the kind of its first or its third field. */
  ghost predicate SpaceRowRefused(s: Bytes) {
    && RowHead(s)
    && (OtherThan(ReadToken(s).value.1, Uint)
        || (FieldsRead(s, 2).Some? && IsUint(FieldsRead(s, 2).value.0[0]) && OtherThan(FieldsRead(s, 2).value.1, Str)))
  }

  /** Reads a space row: it is there, it is refused, or the code leaves defined behaviour. */
  method ReadSpaceRow(s: Bytes) returns (step: Step, row: SpaceRow)
    ensures step.Done? <==> SpaceRowAt(s).Some?
    ensures step.Done? ==> row == SpaceRowAt(s).value
    ensures step.Stop? ==> step == Stop(if SpaceRowRefused(s) then Malformed else Fault)
  {
    hide FormOf, ReadToken, Parse, ParseMany;
    row := SpaceRow([], 0, s);
    var open, p0 := OpenRow(s);
    if open.Stop? {
      return open, row;
    }
    ghost var whole := FieldsRead(s, 7);
    ManyNone(p0);
    if ParseMany(p0, 2).Some? {
      FirstOfMany(p0, 2);
    }
    var f0, number, p1 := UintField(p0);
    if whole.Some? {
      FieldHere(p0, 7, 0, [], p0);
    }
    if f0.Stop? {
      return f0, row;
    }
    ParseManyStep(p0, 0);
    // the owner
    var p2 := SkipFields(p1, 1);
    if whole.Some? {
      FieldHere(p0, 7, 1, ParseMany(p0, 1).value.0, p1);
      ParseManyOne(p1);
    }
    if ParseMany(p0, 2).Some? {
      ParseManySplit(p0, 1, 2);
    }
    if p2.None? {
      return Stop(Fault), row;
    }
    OneField(p1);
    ParseManyStep(p0, 1);
    var f2, name, p3 := StrField(p2.value);
    if whole.Some? {
      FieldHere(p0, 7, 2, ParseMany(p0, 2).value.0, p2.value);
    }
    if f2.Stop? {
      return f2, row;
    }
    ParseManyStep(p0, 2);
    // the engine name, the field count, and the format twice
    var p7 := SkipFields(p3, 4);
    if whole.Some? {
      ParseManySplit(p0, 3, 7);
    }
    if p7.None? {
      return Stop(Fault), row;
    }
    ParseManyAdd(p0, 3, 4);
    return Done, SpaceRow(name, number, p7.value);
  }

  /** The index row is opened and has the number of its space, and an unsigned number seems to come next. */
  ghost predicate IndexHeadAt(s: Bytes) {
    && RowHead(s) && FieldsRead(s, 1).Some? && IsUint(FieldsRead(s, 1).value.0[0])
    && Typeof(FieldsRead(s, 1).value.1) == Some(Uint)
  }

  /**
   Reads an index row up to the number of its space, and looks at the type of the field after it. Up to here no record
   is allocated, so every refusal frees a pointer that was never set.
   */
  method ReadIndexHead(s: Bytes) returns (step: Step, space: U32, p: Bytes)
    ensures step.Done? <==> IndexHeadAt(s)
    ensures step.Done? ==> space == Low32(FieldsRead(s, 1).value.0[0]) && p == FieldsRead(s, 1).value.1
    ensures step.Stop? ==> step == Stop(Fault)
  {
    hide FormOf, ReadToken, Parse, ParseMany;
    space := 0;
    step, p := OpenRow(s);
    if step.Stop? {
      return;
    }
    DecodeUintParse(p);
    if FieldsRead(s, 1).Some? {
      FirstOfMany(p, 1);
    }
    var v := DecodeUint(p);
    if v.None? {
      return Stop(Fault), space, p;
    }
    ParseManyOne(p);
    space, p := v.value.0 % TWO_32, v.value.1;
    if Typeof(p) != Some(Uint) {
      return Stop(Fault), space, p;
    }
  }

  /** The rest of an index row is refused for the kind of its number or of its name. */
  ghost predicate IndexTailRefused(p1: Bytes) {
    || OtherThan(p1, Uint)
    || (ParseMany(p1, 1).Some? && IsUint(ParseMany(p1, 1).value.0[0]) && OtherThan(ParseMany(p1, 1).value.1, Str))
  }

  /** Reads the rest of an index row: its number, its name, and three fields that are skipped. */
  method ReadIndexTail(p1: Bytes) returns (step: Step, number: U32, name: Bytes, rest: Bytes)
    ensures step.Done? <==>
      ParseMany(p1, 5).Some? && IsUint(ParseMany(p1, 5).value.0[0]) && ParseMany(p1, 5).value.0[1].head.kind.Str?
    ensures step.Done? ==>
      var (f, end) := ParseMany(p1, 5).value; number == Low32(f[0]) && name == f[1].head.payload && rest == end
    ensures step.Stop? ==> step == Stop(if IndexTailRefused(p1) then Malformed else Fault)
  {
    hide FormOf, ReadToken, Parse, ParseMany;
    name, rest := [], p1;
    ghost var whole := ParseMany(p1, 5);
    ManyNone(p1);
    if ParseMany(p1, 1).Some? {
      FirstOfMany(p1, 1);
    }
    if whole.Some? {
      FieldHere(p1, 5, 0, [], p1);
    }
    var p2;
    step, number, p2 := UintField(p1);
    if step.Stop? {
      return;
    }
    ParseManyStep(p1, 0);
    if whole.Some? {
      FieldHere(p1, 5, 1, ParseMany(p1, 1).value.0, p2);
    }
    var p3;
    step, name, p3 := StrField(p2);
    if step.Stop? {
      return;
    }
    ParseManyStep(p1, 1);
    if whole.Some? {
      ParseManySplit(p1, 2, 5);
    }
    // the index type, the unique flag and the parts
    var p6 := SkipFields(p3, 3);
    if p6.None? {
      return Stop(Fault), number, name, rest;
    }
    ParseManyAdd(p1, 2, 3);
    rest := p6.value;
  }

  /** The row is opened and then refused: its space is not known, or its number or its name is of another kind. */
  ghost predicate IndexRowRefused(s: Bytes, known: set<Bytes>) {
    && IndexHeadAt(s)
    && var (f, p) := FieldsRead(s, 1).value;
    (NumberKey(Low32(f[0])) !in known || IndexTailRefused(p))
  }

  /** An index row is its space number followed by the rest. */
  lemma IndexRowParts(s: Bytes)
    ensures IndexRowAt(s).Some? <==>
      && RowHead(s) && FieldsRead(s, 1).Some? && IsUint(FieldsRead(s, 1).value.0[0])
      && var p := FieldsRead(s, 1).value.1;
      && Typeof(p) == Some(Uint)
      && ParseMany(p, 5).Some? && IsUint(ParseMany(p, 5).value.0[0]) && ParseMany(p, 5).value.0[1].head.kind.Str?
    ensures IndexRowAt(s).Some? ==>
      var (f, p) := FieldsRead(s, 1).value; var (g, rest) := ParseMany(p, 5).value;
      IndexRowAt(s) == Some(IndexRow(Low32(f[0]), g[1].head.payload, Low32(g[0]), rest))
  {
    hide ReadToken, Parse, ParseMany, FormOf;
    if RowHead(s) {
      var p0 := ReadToken(s).value.1;
      if ParseMany(p0, 6).Some? {
        ParseManySplit(p0, 1, 6);
      }
      if ParseMany(p0, 1).Some? && ParseMany(ParseMany(p0, 1).value.1, 5).Some? {
        ParseManyAdd(p0, 1, 5);
        FirstOfMany(ParseMany(p0, 1).value.1, 5);
        TypeofParse(ParseMany(p0, 1).value.1);
      }
    }
  }

  /** A row of five fields or fewer is neither read nor refused: it leads out of defined behaviour. */
  lemma ShortRowsBreak(s: Bytes, known: set<Bytes>)
    requires ReadToken(s).Some? && ReadToken(s).value.0.num <= 5
    ensures SpaceRowAt(s).None? && !SpaceRowRefused(s)
    ensures IndexRowAt(s).None? && !IndexRowRefused(s, known)
  {
    hide ReadToken;
  }

  // ---- runs of rows ----

  /** `i` rows from the cursor on, and where they end. */
  ghost function SpaceRowsTo(p: Bytes, i: nat): (r: Option<(seq<SpaceRow>, Bytes)>)
    ensures r.Some? ==> |r.value.0| == i
  {
    if i == 0 then Some(([], p))
    else
      match SpaceRowsTo(p, i - 1)
      case None => None
      case Some((rows, q)) =>
        match SpaceRowAt(q)
        case None => None
        case Some(row) => Some((rows + [row], row.rest))
  }

  ghost function IndexRowsTo(p: Bytes, i: nat): (r: Option<(seq<IndexRow>, Bytes)>)
    ensures r.Some? ==> |r.value.0| == i
  {
    if i == 0 then Some(([], p))
    else
      match IndexRowsTo(p, i - 1)
      case None => None
      case Some((rows, q)) =>
        match IndexRowAt(q)
        case None => None
        case Some(row) => Some((rows + [row], row.rest))
  }

  lemma {:induction false} SpaceRowsFail(p: Bytes, i: nat, n: nat)
    requires i <= n && SpaceRowsTo(p, i).None?
    ensures SpaceRowsTo(p, n).None?
    decreases n
  {
    hide SpaceRowAt;
    if i < n {
      SpaceRowsFail(p, i, n - 1);
    }
  }

  lemma {:induction false} IndexRowsFail(p: Bytes, i: nat, n: nat)
    requires i <= n && IndexRowsTo(p, i).None?
    ensures IndexRowsTo(p, n).None?
    decreases n
  {
    hide IndexRowAt;
    if i < n {
      IndexRowsFail(p, i, n - 1);
    }
  }

  lemma {:induction false} IndexRowsPrefix(p: Bytes, i: nat, n: nat)
    requires i <= n && IndexRowsTo(p, n).Some?
    ensures IndexRowsTo(p, i).Some? && IndexRowsTo(p, n).value.0[..i] == IndexRowsTo(p, i).value.0
    decreases n
  {
    hide IndexRowAt;
    if i < n {
      IndexRowsPrefix(p, i, n - 1);
      var rows, init := IndexRowsTo(p, n).value.0, IndexRowsTo(p, n - 1).value.0;
      assert rows[..i] == rows[..n - 1][..i] && rows[..n - 1] == init;
    }
  }

  function NameField(t: Tree): Bytes { if |t.items| > 2 then t.items[2].head.payload else [] }

  function NumberField(t: Tree, i: nat): U32 { if i < |t.items| then Low32(t.items[i]) else 0 }

  lemma LastOfMany(p: Bytes, i: nat)
    requires i > 0 && ParseMany(p, i).Some?
    ensures ParseMany(p, i - 1).Some? && Parse(ParseMany(p, i - 1).value.1).Some?
    ensures ParseMany(p, i).value.0 == ParseMany(p, i - 1).value.0 + [Parse(ParseMany(p, i - 1).value.1).value.0]
    ensures ParseMany(p, i).value.1 == Parse(ParseMany(p, i - 1).value.1).value.1
  {
    hide Parse, ParseMany;
    ParseManySplit(p, i - 1, i);
    FieldHere(p, i, i - 1, ParseMany(p, i - 1).value.0, ParseMany(p, i - 1).value.1);
    ParseManyStep(p, i - 1);
  }

  /** A tuple of the space system table: seven fields, the number first and the name third. */
  predicate SpaceTuple(t: Tree) {
    && t.head.kind.Array? && |t.items| == 7 && t.head.num == 7
    && IsUint(t.items[0]) && t.items[2].head.kind.Str?
  }

  /** A complete tuple of seven fields is read to its end. */
  lemma SpaceTupleRead(s: Bytes)
    requires Parse(s).Some? && SpaceTuple(Parse(s).value.0)
    ensures var (t, rest) := Parse(s).value;
      SpaceRowAt(s) == Some(SpaceRow(t.items[2].head.payload, Low32(t.items[0]), rest))
  {
    hide ReadToken, ParseMany;
  }

  /** A complete array of space tuples is one run of rows that ends where the array ends. */
  lemma {:induction false} SpaceTuplesRead(p: Bytes, ts: seq<Tree>, end: Bytes)
    requires ParseMany(p, |ts|) == Some((ts, end)) && forall j :: 0 <= j < |ts| ==> SpaceTuple(ts[j])
    ensures SpaceRowsTo(p, |ts|).Some? && SpaceRowsTo(p, |ts|).value.1 == end
    ensures forall j :: 0 <= j < |ts| ==>
      var row := SpaceRowsTo(p, |ts|).value.0[j]; row.name == NameField(ts[j]) && row.number == NumberField(ts[j], 0)
    decreases |ts|
  {
    hide Parse, ParseMany, SpaceRowAt;
    ManyNone(p);
    var n := |ts|;
    if n > 0 {
      LastOfMany(p, n);
      var (init, q) := ParseMany(p, n - 1).value;
      assert ts == init + [Parse(q).value.0] && Parse(q).value.0 == ts[n - 1];
      assert forall j :: 0 <= j < n - 1 ==> init[j] == ts[j];
      SpaceTuplesRead(p, init, q);
      SpaceTupleRead(q);
    }
  }

  /** A tuple of the index system table: six fields, the space and the index number first and the name third. */
  predicate IndexTuple(t: Tree) {
    t.head.kind.Array? && |t.items| == 6 && t.head.num == 6
    && IsUint(t.items[0]) && IsUint(t.items[1]) && t.items[2].head.kind.Str?
  }

  lemma IndexTupleRead(s: Bytes)
    requires Parse(s).Some? && IndexTuple(Parse(s).value.0)
    ensures var (t, rest) := Parse(s).value;
      IndexRowAt(s) == Some(IndexRow(Low32(t.items[0]), t.items[2].head.payload, Low32(t.items[1]), rest))
  {
    hide ReadToken, ParseMany;
  }

  lemma {:induction false} IndexTuplesRead(p: Bytes, ts: seq<Tree>, end: Bytes)
    requires ParseMany(p, |ts|) == Some((ts, end)) && forall j :: 0 <= j < |ts| ==> IndexTuple(ts[j])
    ensures IndexRowsTo(p, |ts|).Some? && IndexRowsTo(p, |ts|).value.1 == end
    ensures forall j :: 0 <= j < |ts| ==>
      var row := IndexRowsTo(p, |ts|).value.0[j];
      row.space == NumberField(ts[j], 0) && row.name == NameField(ts[j]) && row.number == NumberField(ts[j], 1)
    decreases |ts|
  {
    hide Parse, ParseMany, IndexRowAt;
    ManyNone(p);
    var n := |ts|;
    if n > 0 {
      LastOfMany(p, n);
      var (init, q) := ParseMany(p, n - 1).value;
      assert ts == init + [Parse(q).value.0] && Parse(q).value.0 == ts[n - 1];
      assert forall j :: 0 <= j < n - 1 ==> init[j] == ts[j];
      IndexTuplesRead(p, init, q);
      IndexTupleRead(q);
    }
  }

  // ---- rows as the server writes them ----

  /** Reading elements strictly moves the cursor. */
  lemma {:induction false} ParseManyMoves(s: Bytes, a: nat, b: nat)
    requires a < b && ParseMany(s, b).Some?
    ensures ParseMany(s, a).Some? && |ParseMany(s, a).value.1| > |ParseMany(s, b).value.1|
  {
    hide Parse;
    ParseManySplit(s, a, b);
    var p := ParseMany(s, a).value.1;
    assert |ParseMany(p, b - a).value.1| < |p| by {
      FirstOfMany(p, b - a);
    }
  }

  /**
   The reader takes seven fields whatever the row announces: on a complete row the cursor ends at the end of the row
   exactly when the row has seven fields. Rows of six fields pass the length check and are misread.
   */
  lemma RowEndExactlyWhenSeven(s: Bytes)
    requires Parse(s).Some? && SpaceRowAt(s).Some?
    ensures SpaceRowAt(s).value.rest == Parse(s).value.1 <==> |Parse(s).value.0.items| == 7
  {
    hide ReadToken;
    var (head, p) := ReadToken(s).value;
    var k := head.Children();
    if k < 7 {
      ParseManyMoves(p, k, 7);
    } else if k > 7 {
      ParseManyMoves(p, 7, k);
    }
  }

  /** After a complete row of six fields the reader takes the next element of the data as the seventh field. */
  lemma SixFieldsOverrun(s: Bytes)
    requires Parse(s).Some? && Parse(Parse(s).value.1).Some?
    requires var t := Parse(s).value.0;
      t.head.kind.Array? && |t.items| == 6 && t.head.num == 6 && IsUint(t.items[0]) && t.items[2].head.kind.Str?
    ensures var (t, rest) := Parse(s).value;
      SpaceRowAt(s) == Some(SpaceRow(t.items[2].head.payload, Low32(t.items[0]), Parse(rest).value.1))
  {
    hide ReadToken, ParseMany;
    var p := ReadToken(s).value.1;
    ParseManyStep(p, 6);
  }

  lemma RowSlot(row: PVal, fields: seq<PVal>, k: nat)
    requires k < 6 && |fields| == 6 && row == PTable(seq(6, i requires 0 <= i < 6 => Entry(IntKey(i), fields[i])), 6)
    ensures WireSlot(row, k) == WireTree(fields[k])
  {
    hide WireTree;
    var j := IndexOf(KeysOf(row.entries), IntKey(k));
    assert KeysOf(row.entries)[k] == IntKey(k);
  }

  lemma {:induction false} SlotsAre(p: PVal, n: nat)
    requires p.PTable?
    ensures forall k :: 0 <= k < n ==> WireSlots(p, n)[k] == WireSlot(p, k)
  {
    hide WireSlot;
    if n > 0 {
      SlotsAre(p, n - 1);
    }
  }

  /** The wire tree of a list is the trees of its values. */
  lemma RowTree(row: PVal, fields: seq<PVal>)
    requires |fields| == 6 && row == PTable(seq(6, i requires 0 <= i < 6 => Entry(IntKey(i), fields[i])), 6)
    ensures WireTree(row).head == Token(Array, 6, []) && |WireTree(row).items| == 6
    ensures forall i :: 0 <= i < 6 ==> WireTree(row).items[i] == WireTree(fields[i])
  {
    hide WireSlot;
    forall k | 0 <= k < 6 ensures WireSlot(row, k) == WireTree(fields[k]) {
      RowSlot(row, fields, k);
    }
    assert forall k :: 0 <= k < 6 ==> KeysOf(row.entries)[k].IntKey?;
    SlotsAre(row, 6);
  }

  /** Such a row: its six fields are 1, 1, "a", "", 0 and an empty list, and a nil follows that is swallowed. */
  lemma SixFieldsRow()
    ensures var fields := [PLong(1), PLong(1), PStr([0x61]), PStr([]), PLong(0), PTable([], 0)];
      var row := PTable(seq(6, i requires 0 <= i < 6 => Entry(IntKey(i), fields[i])), 6);
      var s := Encode(row) + Encode(PNull);
      && Parse(s).Some? && Parse(s).value.1 == Encode(PNull) && Encode(PNull) != []
      && SpaceRowAt(s) == Some(SpaceRow([0x61], 1, []))
  {
    hide ReadToken, Parse, SpaceRowAt, Encode;
    var fields := [PLong(1), PLong(1), PStr([0x61]), PStr([]), PLong(0), PTable([], 0)];
    var row := PTable(seq(6, i requires 0 <= i < 6 => Entry(IntKey(i), fields[i])), 6);
    var nil := Encode(PNull);
    ParseEncoded(row, nil);
    ParseEncoded(PNull, []);
    assert nil + [] == nil;
    RowTree(row, fields);
    SixFieldsOverrun(Encode(row) + nil);
  }
}
