/** The request encoders: the packet size is computed first, written as the prefix, and then the fields follow. */
module Encoders {
  import opened ByteStrings
  import opened MsgPuck
  import opened PhpValues
  import opened Codec
  import opened RoundTrip
  import opened ZendHeap
  import opened SmartStrings
  import opened Packer
  import opened HeapPaths
  import opened Sizer
  import opened Proto

  // ---- sizes, field by field ----

  function SizeofHeader(request: U32, sync: U32): nat {
    SizeofMap(2) + SizeofLong(CODE) + SizeofLong(request) + SizeofLong(SYNC) + SizeofLong(sync)
  }

  function SizeofPing(sync: U32): nat { SizeofHeader(PING, sync) }

  /** `key` is the size of the packed key. */
  function SizeofSelect(sync: U32, space: U32, index: U32, limit: U32, offset: U32, iter: U32, key: nat): nat {
    SizeofHeader(SELECT, sync) + SizeofMap(6) + SizeofLong(SPACE) + SizeofLong(space)
    + SizeofLong(INDEX) + SizeofLong(index)
    + SizeofLong(OFFSET) + SizeofLong(offset) + SizeofLong(LIMIT) + SizeofLong(limit)
    + SizeofLong(ITERATOR) + SizeofLong(iter) + SizeofLong(KEY) + key
  }

  function SizeofInsertOrReplace(sync: U32, space: U32, tuple: nat, type_: U32): nat {
    SizeofHeader(type_, sync) + SizeofMap(2) + SizeofLong(SPACE) + SizeofLong(space) + SizeofLong(TUPLE) + tuple
  }

  function SizeofDelete(sync: U32, space: U32, index: U32, key: nat): nat {
    SizeofHeader(DELETE, sync) + SizeofMap(3) + SizeofLong(SPACE) + SizeofLong(space)
    + SizeofLong(INDEX) + SizeofLong(index)
    + SizeofLong(KEY) + key
  }

  function SizeofCall(sync: U32, procLen: nat, args: nat): nat {
    SizeofHeader(CALL, sync) + SizeofMap(2) + SizeofLong(FUNCTION) + SizeofStr(procLen) + SizeofLong(TUPLE) + args
  }

  function SizeofEval(sync: U32, exprLen: nat, args: nat): nat {
    SizeofHeader(EVAL, sync) + SizeofMap(2) + SizeofLong(EXPRESSION) + SizeofStr(exprLen) + SizeofLong(TUPLE) + args
  }

  function SizeofUpdate(sync: U32, space: U32, index: U32, key: nat, ops: nat): nat {
    SizeofHeader(UPDATE, sync) + SizeofMap(4) + SizeofLong(SPACE) + SizeofLong(space)
    + SizeofLong(INDEX) + SizeofLong(index)
    + SizeofLong(KEY) + key + SizeofLong(TUPLE) + ops
  }

  function SizeofUpsert(sync: U32, space: U32, tuple: nat, ops: nat): nat {
    SizeofHeader(UPSERT, sync) + SizeofMap(3) + SizeofLong(SPACE) + SizeofLong(space) + SizeofLong(TUPLE) + tuple
    + SizeofLong(OPS) + ops
  }

  /** The size a request's own size function computes from the sizes of its values. */
  function SizeofRequest(r: Request, sync: U32): nat {
    match r
    case Ping => SizeofPing(sync)
    // the call passes offset and limit in each other's place
    case Select(space, index, limit, offset, iter, key) =>
      SizeofSelect(sync, space, index, offset, limit, iter, Sizeof(key))
    case Insert(space, tuple) => SizeofInsertOrReplace(sync, space, Sizeof(tuple), INSERT)
    case Replace(space, tuple) => SizeofInsertOrReplace(sync, space, Sizeof(tuple), REPLACE)
    case Delete(space, index, key) => SizeofDelete(sync, space, index, Sizeof(key))
    case Call(proc, args) => SizeofCall(sync, |proc|, Sizeof(args))
    case Eval(expr, args) => SizeofEval(sync, |expr|, Sizeof(args))
    case Update(space, index, key, ops) => SizeofUpdate(sync, space, index, Sizeof(key), Sizeof(ops))
    case Upsert(space, tuple, ops) => SizeofUpsert(sync, space, Sizeof(tuple), Sizeof(ops))
  }

  lemma FieldTableSize(es: seq<Entry<PVal>>)
    requires FieldKeys(es) && forall i :: 0 <= i < |es| ==> WideDoubles(es[i].val)
    ensures |Encode(FieldTable(es))| == SizeofMap(|es|) + SizeofPairs(FieldTable(es), |es|)
  {
    hide Encode, SizeofMap, SizeofPairs, IsHash;
    FieldTableIsMap(es);
    SizeofIsLength(FieldTable(es));
  }

  lemma HeaderSize(request: U32, sync: U32)
    ensures |Encode(HeaderTable(request, sync))| == SizeofHeader(request, sync)
  {
    hide Encode, SizeofMap, SizeofLong;
    var es := [Field(CODE, PLong(request)), Field(SYNC, PLong(sync))];
    var p := FieldTable(es);
    assert FieldKeys(es);
    FieldTableSize(es);
    assert SizeofPairs(p, 1) == SizeofLong(CODE) + SizeofLong(request);
  }

  ghost predicate WideRequest(r: Request) {
    forall i :: 0 <= i < |Fields(r)| ==> WideDoubles(Fields(r)[i].val)
  }

  function FieldSize(e: Entry<PVal>): nat { SizeofKey(e.key) + Sizeof(e.val) }

  /** The sizes of a body's fields add up. */
  lemma BodySize(es: seq<Entry<PVal>>)
    ensures var total := SizeofPairs(FieldTable(es), |es|);
      && (|es| == 0 ==> total == 0)
      && (|es| == 2 ==> total == FieldSize(es[0]) + FieldSize(es[1]))
      && (|es| == 3 ==> total == FieldSize(es[0]) + FieldSize(es[1]) + FieldSize(es[2]))
      && (|es| == 4 ==> total == FieldSize(es[0]) + FieldSize(es[1]) + FieldSize(es[2]) + FieldSize(es[3]))
      && (|es| == 6 ==> total == FieldSize(es[0]) + FieldSize(es[1]) + FieldSize(es[2]) + FieldSize(es[3])
                                 + FieldSize(es[4]) + FieldSize(es[5]))
  {
    hide SizeofKey, Sizeof;
    var p := FieldTable(es);
    forall i | 0 < i <= |es| ensures SizeofPairs(p, i) == SizeofPairs(p, i - 1) + FieldSize(es[i - 1]) {
    }
  }

  /** The size computed for a request is the length of its payload; swapping limit and offset does not change it. */
  lemma SizeIsPayload(r: Request, sync: U32)
    requires WideRequest(r)
    ensures SizeofRequest(r, sync) == |Payload(r, sync)|
  {
    hide SizeofLong, SizeofStr, SizeofMap, Encode, SizeofPairs, SizeofHeader;
    HeaderSize(TypeOf(r), sync);
    if !r.Ping? {
      FieldsAreKeyed(r);
      FieldTableSize(Fields(r));
      BodySize(Fields(r));
    }
  }

  // ---- encoding ----

  method PackPackageSize(str: SmartString, val: nat)
    requires str.Valid()
    modifies str, str.c
    ensures str.Valid() && (str.c == old(str.c) || fresh(str.c))
    ensures str.Contents() == old(str.Contents()) + PackageSize(val)
  {
    hide PackageSize;
    str.Ensure(5);
    str.Append(PackageSize(val));
  }

  /** `str` holds `pre` and then a map of `|p.entries|` fields of which the first `i` are written. */
  ghost predicate Written(str: SmartString, pre: Bytes, p: PVal, i: nat)
    requires p.PTable? && i <= |p.entries|
    reads str, str.c
  {
    str.Valid() && str.Contents() == pre + (EncodeMap(|p.entries|) + EncodePairs(p, i))
  }

  /** What `before` becomes once the size prefix and the header of a request are written. */
  ghost function WithHeader(before: Bytes, r: Request, sync: U32): Bytes {
    before + (PackageSize(|Payload(r, sync)|) + Encode(HeaderTable(TypeOf(r), sync)))
  }

  method OpenMap(str: SmartString, n: nat, ghost pre: Bytes, ghost p: PVal)
    requires str.Valid() && str.Contents() == pre && p.PTable? && n == |p.entries|
    modifies str, str.c
    ensures str.c == old(str.c) || fresh(str.c)
    ensures Written(str, pre, p, 0)
  {
    hide EncodeMap;
    PackMapHead(str, n);
    assert EncodePairs(p, 0) == [];
  }

  lemma OneMoreField(pre: Bytes, p: PVal, i: nat, k: Key, v: PVal)
    requires p.PTable? && i < |p.entries| && p.entries[i] == Entry(k, v)
    ensures pre + (EncodeMap(|p.entries|) + EncodePairs(p, i)) + EncodeKey(k) + Encode(v)
         == pre + (EncodeMap(|p.entries|) + EncodePairs(p, i + 1))
  {
    hide EncodeMap, Encode, EncodeKey;
    Regroup(pre, EncodeMap(|p.entries|), EncodePairs(p, i), EncodeKey(k));
    Regroup(pre, EncodeMap(|p.entries|), EncodePairs(p, i) + EncodeKey(k), Encode(v));
  }

  method LongField(str: SmartString, k: int, n: int, ghost pre: Bytes, ghost p: PVal, ghost i: nat)
    requires p.PTable? && i < |p.entries| && p.entries[i] == Field(k, PLong(n)) && Written(str, pre, p, i)
    modifies str, str.c
    ensures str.c == old(str.c) || fresh(str.c)
    ensures Written(str, pre, p, i + 1)
  {
    hide EncodeMap, EncodeLong, EncodePairs;
    PackLong(str, k);
    PackLong(str, n);
    OneMoreField(pre, p, i, IntKey(k), PLong(n));
  }

  method StringField(str: SmartString, k: int, s: Bytes, ghost pre: Bytes, ghost p: PVal, ghost i: nat)
    requires p.PTable? && i < |p.entries| && p.entries[i] == Field(k, PStr(s)) && Written(str, pre, p, i)
    modifies str, str.c
    ensures str.c == old(str.c) || fresh(str.c)
    ensures Written(str, pre, p, i + 1)
  {
    hide EncodeMap, EncodeLong, EncodeStr, EncodePairs;
    PackLong(str, k);
    PackString(str, s);
    OneMoreField(pre, p, i, IntKey(k), PStr(s));
  }

  lemma MatchesClosed(g: Graph, c: Counts)
    requires Matches(g, c)
    ensures Closed(g) && c.Keys == g.Keys
  {
  }

  method ValueField(str: SmartString, k: int, v: ZVal, ghost g: Graph, ghost c: Counts, ghost pre: Bytes,
      ghost p: PVal, ghost i: nat)
    requires Matches(g, c) && Inside(g, v) && HeapDoubles(g, v)
    requires p.PTable? && i < |p.entries| && p.entries[i] == Field(k, Unfold(g, c, v)) && Written(str, pre, p, i)
    modifies str, str.c, g.Keys`applyCount
    ensures str.c == old(str.c) || fresh(str.c)
    ensures Matches(g, c) && Written(str, pre, p, i + 1)
  {
    hide EncodeMap, EncodeLong, Encode, EncodePairs, Unfold, Matches, HeapDoubles;
    PackLong(str, k);
    MatchesClosed(g, c);
    Pack(str, v, g, c);
    OneMoreField(pre, p, i, IntKey(k), Unfold(g, c, v));
  }

  method PackHeader(str: SmartString, size: nat, request: U32, sync: U32)
    requires str.Valid()
    modifies str, str.c
    ensures str.Valid() && (str.c == old(str.c) || fresh(str.c))
    ensures str.Contents() == old(str.Contents()) + (PackageSize(size) + Encode(HeaderTable(request, sync)))
  {
    hide EncodeMap, EncodePairs, PackageSize, IsHash;
    ghost var before := str.Contents();
    PackPackageSize(str, size);
    ghost var es := [Field(CODE, PLong(request)), Field(SYNC, PLong(sync))];
    ghost var p, pre := FieldTable(es), before + PackageSize(size);
    OpenMap(str, 2, pre, p);
    LongField(str, CODE, request, pre, p, 0);
    LongField(str, SYNC, sync, pre, p, 1);
    assert FieldKeys(es);
    FieldTableIsMap(es);
    assert Encode(p) == EncodeMap(2) + EncodePairs(p, 2);
    assert pre + Encode(p) == before + (PackageSize(size) + Encode(p));
  }

  /** The common start of every encoder with a body: the reservation, the prefix, the header and the body's head. */
  method Begin(str: SmartString, size: nat, type_: U32, sync: U32, fields: nat, ghost r: Request)
    requires str.Valid() && size == |Payload(r, sync)| && type_ == TypeOf(r) && fields == |Fields(r)|
    modifies str, str.c
    ensures str.c == old(str.c) || fresh(str.c)
    ensures Written(str, WithHeader(old(str.Contents()), r, sync), FieldTable(Fields(r)), 0)
  {
    hide Payload, PackageSize, Encode, Fields, TypeOf, Written;
    ghost var before := str.Contents();
    str.Ensure(size + 5);
    PackHeader(str, size, type_, sync);
    OpenMap(str, fields, WithHeader(before, r, sync), FieldTable(Fields(r)));
  }

  /** After the header and all fields, the buffer has grown by exactly the frame of the request. */
  lemma FrameComplete(str: SmartString, before: Bytes, r: Request, sync: U32)
    requires !r.Ping? && Written(str, WithHeader(before, r, sync), FieldTable(Fields(r)), |Fields(r)|)
    ensures str.Valid() && str.Contents() == before + Frame(r, sync)
  {
    hide PackageSize, EncodeMap, EncodePairs, IsHash, Fields, TypeOf;
    FieldsAreKeyed(r);
    FieldTableIsMap(Fields(r));
    var p, size := FieldTable(Fields(r)), PackageSize(|Payload(r, sync)|);
    var head, body := Encode(HeaderTable(TypeOf(r), sync)), EncodeMap(|Fields(r)|) + EncodePairs(p, |Fields(r)|);
    assert Encode(p) == body;
    assert before + (size + head) + body == before + (size + (head + body));
  }

  method EncodePing(str: SmartString, sync: U32)
    requires str.Valid()
    modifies str, str.c
    ensures str.Valid() && (str.c == old(str.c) || fresh(str.c))
    ensures str.Contents() == old(str.Contents()) + Frame(Ping, sync)
  {
    hide PackageSize, Encode, SizeofHeader;
    SizeIsPayload(Ping, sync);
    var size := SizeofPing(sync);
    str.Ensure(size + 5);
    PackHeader(str, size, PING, sync);
    assert Payload(Ping, sync) == Encode(HeaderTable(PING, sync));
  }

  /** What an encoder needs of the heap a value lives in. */
  lemma HeapReady(g: Graph, c: Counts, v: ZVal)
    requires Matches(g, c) && Inside(g, v) && SaneHeap(g) && SaneZ(v)
    ensures Closed(g) && c.Keys == g.Keys && HeapDoubles(g, v) && WideDoubles(Unfold(g, c, v)) && Sane(Unfold(g, c, v))
  {
    hide Unfold;
    UnfoldSane(g, c, v);
  }

  /** The five numbers of a select. */
  method SelectNumbers(str: SmartString, space: U32, index: U32, limit: U32, offset: U32, iter: U32, ghost pre: Bytes,
      ghost p: PVal)
    requires p.PTable? && |p.entries| == 6 && Written(str, pre, p, 0)
    requires p.entries[0] == Field(SPACE, PLong(space)) && p.entries[1] == Field(INDEX, PLong(index))
    requires p.entries[2] == Field(OFFSET, PLong(offset)) && p.entries[3] == Field(LIMIT, PLong(limit))
    requires p.entries[4] == Field(ITERATOR, PLong(iter))
    modifies str, str.c
    ensures str.c == old(str.c) || fresh(str.c)
    ensures Written(str, pre, p, 5)
  {
    hide Written;
    LongField(str, SPACE, space, pre, p, 0);
    LongField(str, INDEX, index, pre, p, 1);
    LongField(str, OFFSET, offset, pre, p, 2);
    LongField(str, LIMIT, limit, pre, p, 3);
    LongField(str, ITERATOR, iter, pre, p, 4);
  }

  method EncodeSelect(str: SmartString, sync: U32, space: U32, index: U32, limit: U32, offset: U32, iter: U32,
      key: ZVal, ghost g: Graph, ghost c: Counts)
    requires str.Valid() && Matches(g, c) && SaneHeap(g) && Inside(g, key) && SaneZ(key)
    modifies str, str.c, g.Keys`applyCount
    ensures str.Valid() && (str.c == old(str.c) || fresh(str.c))
    ensures Matches(g, c)
    ensures str.Contents()
      == old(str.Contents()) + Frame(Select(space, index, limit, offset, iter, Unfold(g, c, key)), sync)
  {
    hide Written, WithHeader, Unfold, Sizeof, SizeofSelect, SizeofUpdate, SizeofUpsert, SizeofDelete, SizeofCall,
      SizeofEval, SizeofInsertOrReplace, Matches, SaneHeap, HeapDoubles, Payload, Frame;
    HeapReady(g, c, key);
    ghost var r := Select(space, index, limit, offset, iter, Unfold(g, c, key));
    SizeIsPayload(r, sync);
    ghost var before, p := str.Contents(), FieldTable(Fields(r));
    ghost var pre := WithHeader(before, r, sync);
    var keySize := SizeofAny(key, g, c);
    // the call passes offset and limit in each other's place
    var size := SizeofSelect(sync, space, index, offset, limit, iter, keySize);
    Begin(str, size, SELECT, sync, 6, r);
    SelectNumbers(str, space, index, limit, offset, iter, pre, p);
    ValueField(str, KEY, key, g, c, pre, p, 5);
    FrameComplete(str, before, r, sync);
  }

  function StoreRequest(space: U32, tuple: PVal, type_: U32): Request {
    if type_ == INSERT then Insert(space, tuple) else Replace(space, tuple)
  }

  method EncodeInsertOrReplace(str: SmartString, sync: U32, space: U32, tuple: ZVal, type_: U32, ghost g: Graph,
      ghost c: Counts)
    requires str.Valid() && Matches(g, c) && SaneHeap(g) && Inside(g, tuple) && SaneZ(tuple)
    requires type_ == INSERT || type_ == REPLACE
    modifies str, str.c, g.Keys`applyCount
    ensures str.Valid() && (str.c == old(str.c) || fresh(str.c))
    ensures Matches(g, c)
    ensures str.Contents() == old(str.Contents()) + Frame(StoreRequest(space, Unfold(g, c, tuple), type_), sync)
  {
    hide Written, WithHeader, Unfold, Sizeof, SizeofSelect, SizeofUpdate, SizeofUpsert, SizeofDelete, SizeofCall,
      SizeofEval, SizeofInsertOrReplace, Matches, SaneHeap, HeapDoubles, Payload, Frame;
    HeapReady(g, c, tuple);
    ghost var r := StoreRequest(space, Unfold(g, c, tuple), type_);
    SizeIsPayload(r, sync);
    ghost var before, p := str.Contents(), FieldTable(Fields(r));
    ghost var pre := WithHeader(before, r, sync);
    var tupleSize := SizeofAny(tuple, g, c);
    var size := SizeofInsertOrReplace(sync, space, tupleSize, type_);
    Begin(str, size, type_, sync, 2, r);
    LongField(str, SPACE, space, pre, p, 0);
    ValueField(str, TUPLE, tuple, g, c, pre, p, 1);
    FrameComplete(str, before, r, sync);
  }

  method EncodeDelete(str: SmartString, sync: U32, space: U32, index: U32, key: ZVal, ghost g: Graph, ghost c: Counts)
    requires str.Valid() && Matches(g, c) && SaneHeap(g) && Inside(g, key) && SaneZ(key)
    modifies str, str.c, g.Keys`applyCount
    ensures str.Valid() && (str.c == old(str.c) || fresh(str.c))
    ensures Matches(g, c)
    ensures str.Contents() == old(str.Contents()) + Frame(Delete(space, index, Unfold(g, c, key)), sync)
  {
    hide Written, WithHeader, Unfold, Sizeof, SizeofSelect, SizeofUpdate, SizeofUpsert, SizeofDelete, SizeofCall,
      SizeofEval, SizeofInsertOrReplace, Matches, SaneHeap, HeapDoubles, Payload, Frame;
    HeapReady(g, c, key);
    ghost var r := Delete(space, index, Unfold(g, c, key));
    SizeIsPayload(r, sync);
    ghost var before, p := str.Contents(), FieldTable(Fields(r));
    ghost var pre := WithHeader(before, r, sync);
    var keySize := SizeofAny(key, g, c);
    var size := SizeofDelete(sync, space, index, keySize);
    Begin(str, size, DELETE, sync, 3, r);
    LongField(str, SPACE, space, pre, p, 0);
    LongField(str, INDEX, index, pre, p, 1);
    ValueField(str, KEY, key, g, c, pre, p, 2);
    FrameComplete(str, before, r, sync);
  }

  method EncodeCall(str: SmartString, sync: U32, proc: Bytes, args: ZVal, ghost g: Graph, ghost c: Counts)
    requires str.Valid() && Matches(g, c) && SaneHeap(g) && Inside(g, args) && SaneZ(args)
    modifies str, str.c, g.Keys`applyCount
    ensures str.Valid() && (str.c == old(str.c) || fresh(str.c))
    ensures Matches(g, c)
    ensures str.Contents() == old(str.Contents()) + Frame(Call(proc, Unfold(g, c, args)), sync)
  {
    hide Written, WithHeader, Unfold, Sizeof, SizeofSelect, SizeofUpdate, SizeofUpsert, SizeofDelete, SizeofCall,
      SizeofEval, SizeofInsertOrReplace, Matches, SaneHeap, HeapDoubles, Payload, Frame;
    HeapReady(g, c, args);
    ghost var r := Call(proc, Unfold(g, c, args));
    SizeIsPayload(r, sync);
    ghost var before, p := str.Contents(), FieldTable(Fields(r));
    ghost var pre := WithHeader(before, r, sync);
    var argsSize := SizeofAny(args, g, c);
    var size := SizeofCall(sync, |proc|, argsSize);
    Begin(str, size, CALL, sync, 2, r);
    StringField(str, FUNCTION, proc, pre, p, 0);
    ValueField(str, TUPLE, args, g, c, pre, p, 1);
    FrameComplete(str, before, r, sync);
  }

  method EncodeEval(str: SmartString, sync: U32, expr: Bytes, args: ZVal, ghost g: Graph, ghost c: Counts)
    requires str.Valid() && Matches(g, c) && SaneHeap(g) && Inside(g, args) && SaneZ(args)
    modifies str, str.c, g.Keys`applyCount
    ensures str.Valid() && (str.c == old(str.c) || fresh(str.c))
    ensures Matches(g, c)
    ensures str.Contents() == old(str.Contents()) + Frame(Eval(expr, Unfold(g, c, args)), sync)
  {
    hide Written, WithHeader, Unfold, Sizeof, SizeofSelect, SizeofUpdate, SizeofUpsert, SizeofDelete, SizeofCall,
      SizeofEval, SizeofInsertOrReplace, Matches, SaneHeap, HeapDoubles, Payload, Frame;
    HeapReady(g, c, args);
    ghost var r := Eval(expr, Unfold(g, c, args));
    SizeIsPayload(r, sync);
    ghost var before, p := str.Contents(), FieldTable(Fields(r));
    ghost var pre := WithHeader(before, r, sync);
    var argsSize := SizeofAny(args, g, c);
    var size := SizeofEval(sync, |expr|, argsSize);
    Begin(str, size, EVAL, sync, 2, r);
    StringField(str, EXPRESSION, expr, pre, p, 0);
    ValueField(str, TUPLE, args, g, c, pre, p, 1);
    FrameComplete(str, before, r, sync);
  }

  method EncodeUpdate(str: SmartString, sync: U32, space: U32, index: U32, key: ZVal, ops: ZVal, ghost g: Graph,
      ghost c: Counts)
    requires str.Valid() && Matches(g, c) && SaneHeap(g) && Inside(g, key) && SaneZ(key) && Inside(g, ops) && SaneZ(ops)
    modifies str, str.c, g.Keys`applyCount
    ensures str.Valid() && (str.c == old(str.c) || fresh(str.c))
    ensures Matches(g, c)
    ensures str.Contents()
      == old(str.Contents()) + Frame(Update(space, index, Unfold(g, c, key), Unfold(g, c, ops)), sync)
  {
    hide Written, WithHeader, Unfold, Sizeof, SizeofSelect, SizeofUpdate, SizeofUpsert, SizeofDelete, SizeofCall,
      SizeofEval, SizeofInsertOrReplace, Matches, SaneHeap, HeapDoubles, Payload, Frame;
    HeapReady(g, c, key);
    HeapReady(g, c, ops);
    ghost var r := Update(space, index, Unfold(g, c, key), Unfold(g, c, ops));
    SizeIsPayload(r, sync);
    ghost var before, p := str.Contents(), FieldTable(Fields(r));
    ghost var pre := WithHeader(before, r, sync);
    var keySize := SizeofAny(key, g, c);
    var opsSize := SizeofAny(ops, g, c);
    var size := SizeofUpdate(sync, space, index, keySize, opsSize);
    Begin(str, size, UPDATE, sync, 4, r);
    LongField(str, SPACE, space, pre, p, 0);
    LongField(str, INDEX, index, pre, p, 1);
    ValueField(str, KEY, key, g, c, pre, p, 2);
    ValueField(str, TUPLE, ops, g, c, pre, p, 3);
    FrameComplete(str, before, r, sync);
  }

  method EncodeUpsert(str: SmartString, sync: U32, space: U32, tuple: ZVal, ops: ZVal, ghost g: Graph, ghost c: Counts)
    requires str.Valid() && Matches(g, c) && SaneHeap(g)
    requires Inside(g, tuple) && SaneZ(tuple) && Inside(g, ops) && SaneZ(ops)
    modifies str, str.c, g.Keys`applyCount
    ensures str.Valid() && (str.c == old(str.c) || fresh(str.c))
    ensures Matches(g, c)
    ensures str.Contents() == old(str.Contents()) + Frame(Upsert(space, Unfold(g, c, tuple), Unfold(g, c, ops)), sync)
  {
    hide Written, WithHeader, Unfold, Sizeof, SizeofSelect, SizeofUpdate, SizeofUpsert, SizeofDelete, SizeofCall,
      SizeofEval, SizeofInsertOrReplace, Matches, SaneHeap, HeapDoubles, Payload, Frame;
    HeapReady(g, c, tuple);
    HeapReady(g, c, ops);
    ghost var r := Upsert(space, Unfold(g, c, tuple), Unfold(g, c, ops));
    SizeIsPayload(r, sync);
    ghost var before, p := str.Contents(), FieldTable(Fields(r));
    ghost var pre := WithHeader(before, r, sync);
    var tupleSize := SizeofAny(tuple, g, c);
    var opsSize := SizeofAny(ops, g, c);
    var size := SizeofUpsert(sync, space, tupleSize, opsSize);
    Begin(str, size, UPSERT, sync, 3, r);
    LongField(str, SPACE, space, pre, p, 0);
    ValueField(str, TUPLE, tuple, g, c, pre, p, 1);
    ValueField(str, OPS, ops, g, c, pre, p, 2);
    FrameComplete(str, before, r, sync);
  }
}
