/** Requests as bytes: every packet is a length prefix computed beforehand, a header map and a body map. */
module Proto {
  import opened ByteStrings
  import opened MsgPuck
  import opened PhpValues
  import opened Codec
  import opened RoundTrip

  type U32 = n: int | 0 <= n < TWO_32

  // header keys
  const CODE := 0x00
  const SYNC := 0x01
  // request body keys
  const SPACE := 0x10
  const INDEX := 0x11
  const LIMIT := 0x12
  const OFFSET := 0x13
  const ITERATOR := 0x14
  const KEY := 0x20
  const TUPLE := 0x21
  const FUNCTION := 0x22
  const EXPRESSION := 0x27
  const OPS := 0x28
  // response body keys
  const DATA := 0x30
  const ERROR := 0x31
  // request types
  const OK := 0x00
  const SELECT := 0x01
  const INSERT := 0x02
  const REPLACE := 0x03
  const UPDATE := 0x04
  const DELETE := 0x05
  const CALL := 0x06
  const EVAL := 0x08
  const UPSERT := 0x09
  const PING := 0x40

  /** Every protocol key is below this bound. */
  const KEY_BOUND := 64

  datatype Request =
    | Ping
    | Select(space: U32, index: U32, limit: U32, offset: U32, iter: U32, key: PVal)
    | Insert(space: U32, tuple: PVal)
    | Replace(space: U32, tuple: PVal)
    | Delete(space: U32, index: U32, key: PVal)
    | Call(proc: Bytes, args: PVal)
    | Eval(expr: Bytes, args: PVal)
    | Update(space: U32, index: U32, key: PVal, ops: PVal)
    | Upsert(space: U32, tuple: PVal, ops: PVal)

  function TypeOf(r: Request): U32 {
    match r
    case Ping => PING
    case Select(_, _, _, _, _, _) => SELECT
    case Insert(_, _) => INSERT
    case Replace(_, _) => REPLACE
    case Delete(_, _, _) => DELETE
    case Call(_, _) => CALL
    case Eval(_, _) => EVAL
    case Update(_, _, _, _) => UPDATE
    case Upsert(_, _, _) => UPSERT
  }

  function Field(k: int, v: PVal): Entry<PVal> { Entry(IntKey(k), v) }

  /** The fields a request carries, in the order they are written. */
  function Fields(r: Request): seq<Entry<PVal>> {
    match r
    case Ping => []
    case Select(space, index, limit, offset, iter, key) =>
      [Field(SPACE, PLong(space)), Field(INDEX, PLong(index)), Field(OFFSET, PLong(offset)), Field(LIMIT, PLong(limit)),
       Field(ITERATOR, PLong(iter)), Field(KEY, key)]
    case Insert(space, tuple) => [Field(SPACE, PLong(space)), Field(TUPLE, tuple)]
    case Replace(space, tuple) => [Field(SPACE, PLong(space)), Field(TUPLE, tuple)]
    case Delete(space, index, key) => [Field(SPACE, PLong(space)), Field(INDEX, PLong(index)), Field(KEY, key)]
    case Call(proc, args) => [Field(FUNCTION, PStr(proc)), Field(TUPLE, args)]
    case Eval(expr, args) => [Field(EXPRESSION, PStr(expr)), Field(TUPLE, args)]
    case Update(space, index, key, ops) =>
      [Field(SPACE, PLong(space)), Field(INDEX, PLong(index)), Field(KEY, key), Field(TUPLE, ops)]
    case Upsert(space, tuple, ops) => [Field(SPACE, PLong(space)), Field(TUPLE, tuple), Field(OPS, ops)]
  }

  /** A table of protocol fields; with the key bound as its next free index it is always packed as a map. */
  function FieldTable(es: seq<Entry<PVal>>): PVal { PTable(es, KEY_BOUND) }

  function HeaderTable(type_: U32, sync: U32): PVal {
    FieldTable([Field(CODE, PLong(type_)), Field(SYNC, PLong(sync))])
  }

  function Payload(r: Request, sync: U32): Bytes {
    Encode(HeaderTable(TypeOf(r), sync)) + if r.Ping? then [] else Encode(FieldTable(Fields(r)))
  }

  /** The five bytes before a packet: a 32-bit unsigned number in its full width, whatever its value. */
  function PackageSize(n: nat): (s: Bytes)
    ensures |s| == 5
  {
    [0xce] + BigEndian(n % TWO_32, 4)
  }

  /** What the receiving side makes of those five bytes; `None` if they do not hold one unsigned number. */
  function UnpackPackageSize(s: Bytes): Option<nat> {
    match ReadToken(s)
    case Some((t, _)) => if t.kind.Uint? then Some(t.num) else None
    case None => None
  }

  function FrameOf(payload: Bytes): Bytes {
    PackageSize(|payload|) + payload
  }

  function Frame(r: Request, sync: U32): Bytes {
    FrameOf(Payload(r, sync))
  }

  lemma PackageSizeRoundTrip(n: nat)
    ensures UnpackPackageSize(PackageSize(n)) == Some(n % TWO_32)
  {
    hide BigEndian, Pow256, ReadToken;
    Widths();
    ReadHead(Form(Uint, 4, 0), n % TWO_32, [], [], PackageSize(n));
  }

  /** The prefix announces the payload exactly when the payload is shorter than 2^32 bytes. */
  lemma FrameDelimits(payload: Bytes, tail: Bytes)
    ensures var f := FrameOf(payload) + tail;
      && UnpackPackageSize(f[..5]) == Some(|payload| % TWO_32)
      && (UnpackPackageSize(f[..5]) == Some(|payload|) <==> |payload| < TWO_32)
      && f[5..5 + |payload|] == payload
      && f[5 + |payload|..] == tail
  {
    hide PackageSize, UnpackPackageSize;
    PackageSizeRoundTrip(|payload|);
    assert (FrameOf(payload) + tail)[..5] == PackageSize(|payload|);
  }

  // ---- what a frame means ----

  ghost predicate SaneRequest(r: Request) {
    forall i :: 0 <= i < |Fields(r)| ==> Sane(Fields(r)[i].val)
  }

  /** Protocol keys: integers below the bound, each at most once. */
  ghost predicate FieldKeys(es: seq<Entry<PVal>>) {
    && |es| < KEY_BOUND && Distinct(KeysOf(es))
    && forall i :: 0 <= i < |es| ==> es[i].key.IntKey? && 0 <= es[i].key.n < KEY_BOUND
  }

  lemma FieldsAreKeyed(r: Request)
    ensures FieldKeys(Fields(r))
  {
  }

  lemma FieldTableIsMap(es: seq<Entry<PVal>>)
    requires FieldKeys(es)
    ensures IsHash(KeysOf(es), KEY_BOUND) && TableOk(KeysOf(es), KEY_BOUND)
    ensures forall j :: 0 <= j < |es| ==> DecodedKey(es[j].key) == es[j].key
  {
  }

  /** A packed field table unpacks to a table with the same keys in the same order, each with its decoded value. */
  lemma FieldTableBack(es: seq<Entry<PVal>>, tail: Bytes)
    requires FieldKeys(es) && forall i :: 0 <= i < |es| ==> Sane(es[i].val)
    ensures var u := Unpack(Encode(FieldTable(es)) + tail);
      && u.Got? && u.rest == tail && u.v.PTable? && |u.v.entries| == |es|
      && forall j :: 0 <= j < |es| ==> u.v.entries[j] == Entry(es[j].key, Decoded(es[j].val))
  {
    hide Encode, Unpack, IsHash, KeysOf, DecodedKey;
    var p := FieldTable(es);
    FieldTableIsMap(es);
    PackUnpack(p, tail);
    DecodedMapForm(p);
    DecodedPairsInOrder(p, |es|);
  }

  lemma HeaderBack(type_: U32, sync: U32, body: Bytes)
    ensures var u := Unpack(Encode(HeaderTable(type_, sync)) + body);
      && u.Got? && u.rest == body && u.v.PTable?
      && u.v.entries == [Field(CODE, PLong(type_)), Field(SYNC, PLong(sync))]
  {
    hide Encode, Unpack, IsHash;
    var es := [Field(CODE, PLong(type_)), Field(SYNC, PLong(sync))];
    assert FieldKeys(es);
    FieldTableBack(es, body);
  }

  /**
   Every request frame is self-delimiting: its first five bytes give the number of bytes of header and body after
   them, the header unpacks to the request type and the sync, and the body to exactly the request's fields.
   */
  lemma FrameMeaning(r: Request, sync: U32, tail: Bytes)
    requires SaneRequest(r) && |Payload(r, sync)| < TWO_32
    ensures var f, n := Frame(r, sync) + tail, |Payload(r, sync)|;
      && UnpackPackageSize(f[..5]) == Some(n) && f[5 + n..] == tail
      && var header := Unpack(f[5..5 + n]);
      && header.Got? && header.v.PTable?
      && header.v.entries == [Field(CODE, PLong(TypeOf(r))), Field(SYNC, PLong(sync))]
      && if r.Ping? then header.rest == [] else
           var body := Unpack(header.rest);
           && body.Got? && body.rest == [] && body.v.PTable? && |body.v.entries| == |Fields(r)|
           && forall j :: 0 <= j < |Fields(r)| ==>
                body.v.entries[j] == Entry(Fields(r)[j].key, Decoded(Fields(r)[j].val))
  {
    hide Encode, Unpack, Fields, TypeOf, FrameOf, UnpackPackageSize, Decoded, Sane;
    var payload := Payload(r, sync);
    FrameDelimits(payload, tail);
    var body := if r.Ping? then [] else Encode(FieldTable(Fields(r)));
    HeaderBack(TypeOf(r), sync, body);
    if !r.Ping? {
      FieldsAreKeyed(r);
      FieldTableBack(Fields(r), []);
      assert body + [] == body;
    }
  }
}
