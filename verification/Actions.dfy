/** The requests of commands before their names are resolved, with the encoder each of them takes. */
module Actions {
  import opened ByteStrings
  import opened PhpValues
  import opened Codec
  import opened RoundTrip
  import opened Formats
  import opened ZendHeap
  import opened HeapPaths
  import opened SmartStrings
  import opened Proto
  import opened Encoders

  /** What a command asks for once its names are resolved; the values it carries live in the heap. */
  datatype Action =
    | Ping
    | Select(limit: U32, offset: U32, iter: U32, key: ZVal)
    | Insert(tuple: ZVal)
    | Replace(tuple: ZVal)
    | Delete(key: ZVal)
    | Call(proc: Bytes, args: ZVal)
    | Eval(expr: Bytes, args: ZVal)
    | Update(key: ZVal, ops: ZVal)
    | Upsert(tuple: ZVal, ops: ZVal)

  ghost predicate Carries(g: Graph, v: ZVal) {
    Inside(g, v) && SaneZ(v)
  }

  /** The values of the action are in the heap. */
  ghost predicate CarriesAction(g: Graph, t: Action) {
    match t
    case Ping => true
    case Select(_, _, _, key) => Carries(g, key)
    case Insert(tuple) => Carries(g, tuple)
    case Replace(tuple) => Carries(g, tuple)
    case Delete(key) => Carries(g, key)
    case Call(_, args) => Carries(g, args)
    case Eval(_, args) => Carries(g, args)
    case Update(key, ops) => Carries(g, key) && Carries(g, ops)
    case Upsert(tuple, ops) => Carries(g, tuple) && Carries(g, ops)
  }

  /** The request of an action, given the numbers its names resolved to. */
  ghost function RequestOf(t: Action, space: U32, index: U32, g: Graph, c: Counts): Request
    requires Closed(g) && c.Keys == g.Keys && CarriesAction(g, t)
  {
    match t
    case Ping => Request.Ping
    case Select(limit, offset, iter, key) => Request.Select(space, index, limit, offset, iter, Unfold(g, c, key))
    case Insert(tuple) => Request.Insert(space, Unfold(g, c, tuple))
    case Replace(tuple) => Request.Replace(space, Unfold(g, c, tuple))
    case Delete(key) => Request.Delete(space, index, Unfold(g, c, key))
    case Call(proc, args) => Request.Call(proc, Unfold(g, c, args))
    case Eval(expr, args) => Request.Eval(expr, Unfold(g, c, args))
    case Update(key, ops) => Request.Update(space, index, Unfold(g, c, key), Unfold(g, c, ops))
    case Upsert(tuple, ops) => Request.Upsert(space, Unfold(g, c, tuple), Unfold(g, c, ops))
  }

  // ---- what the server reads of an action ----

  /** What a field of a body holds: a number, a string, or what a value of the heap is packed to. */
  datatype Part = Number(n: int) | Text(s: Bytes) | Packed(v: ZVal)

  /** A length prefix of five bytes, and a header with the type of the request and the sync. */
  ghost predicate Announces(f: Bytes, type_: int, sync: int) {
    && |f| >= 5 && f[0] == 0xce && Four(f, 1) == (|f| - 5) % 0x1_0000_0000
    && var header := Unpack(f[5..]);
    && header.Got? && header.v.PTable?
    && header.v.entries == [Entry(IntKey(0x00), PLong(type_)), Entry(IntKey(0x01), PLong(sync))]
  }

  /** The bytes behind the header. */
  ghost function Behind(f: Bytes): Bytes {
    if |f| >= 5 && Unpack(f[5..]).Got? then Unpack(f[5..]).rest else []
  }

  ghost predicate Shown(part: Part, w: PVal, g: Graph, c: Counts)
    requires Closed(g) && c.Keys == g.Keys
  {
    match part
    case Number(n) => w == PLong(n)
    case Text(s) => w == PStr(s)
    case Packed(v) => Inside(g, v) && Mirrors(g, c, v, w)
  }

  /** Behind the header stands one map, with exactly the given keys in this order and the given parts under them. */
  ghost predicate Holds(f: Bytes, fields: seq<(int, Part)>, g: Graph, c: Counts)
    requires Closed(g) && c.Keys == g.Keys
  {
    var body := Unpack(Behind(f));
    && body.Got? && body.rest == [] && body.v.PTable? && |body.v.entries| == |fields|
    && forall i :: 0 <= i < |fields| ==>
         body.v.entries[i].key == IntKey(fields[i].0) && Shown(fields[i].1, body.v.entries[i].val, g, c)
  }

  /** The body of an action, in the numbers of the protocol. */
  ghost function PartsOnWire(t: Action, space: int, index: int): seq<(int, Part)> {
    match t
    case Ping => []
    case Select(limit, offset, iter, key) =>
      [(0x10, Number(space)), (0x11, Number(index)), (0x13, Number(offset)), (0x12, Number(limit)),
       (0x14, Number(iter)), (0x20, Packed(key))]
    case Insert(tuple) => [(0x10, Number(space)), (0x21, Packed(tuple))]
    case Replace(tuple) => [(0x10, Number(space)), (0x21, Packed(tuple))]
    case Update(key, ops) =>
      [(0x10, Number(space)), (0x11, Number(index)), (0x20, Packed(key)), (0x21, Packed(ops))]
    case Delete(key) => [(0x10, Number(space)), (0x11, Number(index)), (0x20, Packed(key))]
    case Call(proc, args) => [(0x22, Text(proc)), (0x21, Packed(args))]
    case Eval(expr, args) => [(0x27, Text(expr)), (0x21, Packed(args))]
    case Upsert(tuple, ops) => [(0x10, Number(space)), (0x21, Packed(tuple)), (0x28, Packed(ops))]
  }

  /** The type of request an action goes out as. */
  function TypeOnWire(t: Action): int {
    match t
    case Ping => 0x40
    case Select(_, _, _, _) => 1
    case Insert(_) => 2
    case Replace(_) => 3
    case Update(_, _) => 4
    case Delete(_) => 5
    case Call(_, _) => 6
    case Eval(_, _) => 8
    case Upsert(_, _) => 9
  }

  /** The frame of an action: its type and the sync in the header, and behind it its fields. */
  ghost predicate SaysOnWire(f: Bytes, sync: int, t: Action, space: int, index: int, g: Graph, c: Counts)
    requires Closed(g) && c.Keys == g.Keys
  {
    && Announces(f, TypeOnWire(t), sync)
    && if t.Ping? then Behind(f) == [] else Holds(f, PartsOnWire(t, space, index), g, c)
  }

  /** A name or an expression whose length the string format can tell. */
  predicate TextFits(t: Action) {
    (t.Call? ==> |t.proc| < 0x1_0000_0000) && (t.Eval? ==> |t.expr| < 0x1_0000_0000)
  }

  lemma PrefixRead(payload: Bytes)
    ensures var f := FrameOf(payload); |f| == |payload| + 5 && f[0] == 0xce && f[5..] == payload
    ensures Four(FrameOf(payload), 1) == |payload| % 0x1_0000_0000
  {
    hide BigEndian, FromBigEndian, Pow256;
    var f, n := FrameOf(payload), |payload| % TWO_32;
    Widths();
    BigEndianRoundTrip(n, 4);
    assert f[1..5] == BigEndian(n, 4);
    FourRead(f, 1);
  }

  lemma HeaderAnnounced(r: Request, sync: U32)
    ensures Announces(Frame(r, sync), TypeOf(r), sync)
    ensures Behind(Frame(r, sync)) == if r.Ping? then [] else Encode(FieldTable(Fields(r)))
  {
    hide FrameOf, Encode, Unpack, Fields, TypeOf, Four;
    var payload := Payload(r, sync);
    PrefixRead(payload);
    HeaderBack(TypeOf(r), sync, if r.Ping? then [] else Encode(FieldTable(Fields(r))));
  }

  /** The part that a field of a request is. */
  ghost predicate Fits(part: Part, v: PVal, g: Graph, c: Counts)
    requires Closed(g) && c.Keys == g.Keys
  {
    match part
    case Number(n) => v == PLong(n) && -TWO_63 <= n < TWO_63
    case Text(s) => v == PStr(s) && |s| < TWO_32
    case Packed(z) => Inside(g, z) && SaneZ(z) && v == Unfold(g, c, z)
  }

  lemma PartShown(part: Part, v: PVal, g: Graph, c: Counts)
    requires SaneHeap(g) && c.Keys == g.Keys && Fits(part, v, g, c)
    ensures Sane(v) && Shown(part, Decoded(v), g, c)
  {
    hide Mirrors, Unfold, SaneZ;
    if part.Packed? {
      UnfoldSane(g, c, part.v);
      WalkMirrors(g, c, part.v);
    }
  }

  ghost predicate FieldsFit(r: Request, fields: seq<(int, Part)>, g: Graph, c: Counts)
    requires Closed(g) && c.Keys == g.Keys
  {
    && |Fields(r)| == |fields|
    && forall i :: 0 <= i < |fields| ==>
         Fields(r)[i].key == IntKey(fields[i].0) && Fits(fields[i].1, Fields(r)[i].val, g, c)
  }

  lemma HeapClosed(g: Graph)
    requires SaneHeap(g)
    ensures Closed(g)
  {
  }

  lemma FieldsHeld(r: Request, sync: U32, fields: seq<(int, Part)>, g: Graph, c: Counts)
    requires !r.Ping? && SaneHeap(g) && c.Keys == g.Keys && FieldsFit(r, fields, g, c)
    ensures Holds(Frame(r, sync), fields, g, c)
  {
    hide Frame, Fits, Shown, Sane, Encode, Unpack, Fields, Behind, SaneHeap;
    var es := Fields(r);
    HeaderAnnounced(r, sync);
    FieldsAreKeyed(r);
    assert Closed(g) by { HeapClosed(g); }
    forall i | 0 <= i < |es| ensures Sane(es[i].val) && Shown(fields[i].1, Decoded(es[i].val), g, c) {
      PartShown(fields[i].1, es[i].val, g, c);
    }
    FieldTableBack(es, []);
    assert Encode(FieldTable(es)) + [] == Encode(FieldTable(es));
  }

  lemma ActionFits(t: Action, space: U32, index: U32, g: Graph, c: Counts)
    requires SaneHeap(g) && c.Keys == g.Keys && CarriesAction(g, t) && TextFits(t) && !t.Ping?
    ensures FieldsFit(RequestOf(t, space, index, g, c), PartsOnWire(t, space, index), g, c)
    ensures TypeOf(RequestOf(t, space, index, g, c)) == TypeOnWire(t)
  {
    hide SaneHeap, SaneZ, Unfold, Inside;
  }

  /** On every heap: the frame of an action says the action, whatever the size of its values. */
  lemma FrameSays(t: Action, sync: U32, space: U32, index: U32, g: Graph, c: Counts)
    requires SaneHeap(g) && c.Keys == g.Keys && CarriesAction(g, t) && TextFits(t)
    ensures SaysOnWire(Frame(RequestOf(t, space, index, g, c), sync), sync, t, space, index, g, c)
  {
    hide SaneHeap, CarriesAction, FieldsFit, Announces, Holds, Frame, Behind, Encode, FieldTable, Fields, PartsOnWire;
    assert Closed(g) by { HeapClosed(g); }
    var r := RequestOf(t, space, index, g, c);
    HeaderAnnounced(r, sync);
    if !t.Ping? {
      ActionFits(t, space, index, g, c);
      FieldsHeld(r, sync, PartsOnWire(t, space, index), g, c);
    }
  }

  // ---- encoding ----

  /** Appends the frame of the action's request, which says the action in the numbers of the protocol. */
  method EncodeAction(str: SmartString, sync: U32, t: Action, space: U32, index: U32, ghost g: Graph, ghost c: Counts)
    requires str.Valid() && Matches(g, c) && SaneHeap(g) && CarriesAction(g, t)
    modifies str, str.c, g.Keys`applyCount
    ensures str.Valid() && (str.c == old(str.c) || fresh(str.c))
    ensures Matches(g, c)
    ensures str.Contents() == old(str.Contents()) + Frame(RequestOf(t, space, index, g, c), sync)
    ensures TextFits(t) ==> SaysOnWire(str.Contents()[|old(str.Contents())|..], sync, t, space, index, g, c)
  {
    hide SaysOnWire, TextFits, Frame, Unfold, SaneHeap, SaneZ;
    match t {
      case Ping => EncodePing(str, sync);
      case Select(limit, offset, iter, key) => EncodeSelect(str, sync, space, index, limit, offset, iter, key, g, c);
      case Insert(tuple) => EncodeInsertOrReplace(str, sync, space, tuple, INSERT, g, c);
      case Replace(tuple) => EncodeInsertOrReplace(str, sync, space, tuple, REPLACE, g, c);
      case Delete(key) => EncodeDelete(str, sync, space, index, key, g, c);
      case Call(proc, args) => EncodeCall(str, sync, proc, args, g, c);
      case Eval(expr, args) => EncodeEval(str, sync, expr, args, g, c);
      case Update(key, ops) => EncodeUpdate(str, sync, space, index, key, ops, g, c);
      case Upsert(tuple, ops) => EncodeUpsert(str, sync, space, tuple, ops, g, c);
    }
    if TextFits(t) {
      FrameSays(t, sync, space, index, g, c);
    }
  }
}
