/**
 What becomes of a reply: the verdict on the bytes in the buffer, as a function of the unpacked header and body.
 A verdict tells whether the reply is delivered, refused with the stream kept, or refused with the stream closed.
 */
module Receive {
  import opened ByteStrings
  import opened MsgPuck
  import opened Wire
  import opened PhpValues
  import opened RoundTrip
  import opened Proto
  import opened Unpacker

  /**
   `Crash` is where the C code leaves defined behaviour. `Garbled` stands for a refusal or a crash: a 16-bit map head
   without its count passes validation and cannot be unpacked.
   */
  datatype Verdict =
    | Accept(header: PVal, body: PVal)
    | QueryError(code: nat, text: Bytes)
    | Refuse
    | RefuseAndClose
    | Crash
    | Garbled

  /** What reading the integer slot of a value gives when the value is no integer and no boolean. */
  datatype Junk = Junk(sync: int, code: int)

  function LongOf(v: PVal, junk: int): int {
    match v
    case PLong(n) => n
    case PBool(b) => if b then 1 else 0
    case _ => junk
  }

  /** The comparison of a signed with an unsigned 64-bit number. */
  predicate SameWord(a: int, b: int) { a % TWO_64 == b % TWO_64 }

  /** The header carries no sync, or the one given. */
  predicate SyncMatches(header: PVal, sync: int, junk: Junk): (matches: bool)
    requires header.PTable?
    ensures Find(header.entries, IntKey(0x01)).None? ==> matches
    ensures forall n :: Find(header.entries, IntKey(0x01)) == Some(PLong(n)) ==>
      (matches <==> (n - sync) % 0x1_0000_0000_0000_0000 == 0)
  {
    match Find(header.entries, IntKey(SYNC))
    case None => true
    case Some(v) => SameWord(LongOf(v, junk.sync), sync)
  }

  const ERROR_CODE_BOUND := 0x8000

  function JudgeMaps(header: PVal, body: PVal, sync: int, junk: Junk): Verdict
    requires header.PTable?
  {
    if !SyncMatches(header, sync, junk) then RefuseAndClose
    else
      match Find(header.entries, IntKey(CODE))
      case None => RefuseAndClose
      case Some(c) =>
        var code := LongOf(c, junk.code);
        if code == OK then Accept(header, body)
        else if !body.PTable? then Crash
        else
          match Find(body.entries, IntKey(ERROR))
          case Some(PStr(text)) => QueryError(code % ERROR_CODE_BOUND, text)
          case _ => Crash
  }

  /** The second validation looks at as many bytes as the whole packet has, from the cursor after the header on. */
  function JudgeBody(header: PVal, rest: Bytes, size: nat, sync: int, junk: Junk): Verdict
    requires header.PTable?
  {
    if Scan(if size <= |rest| then rest[..size] else rest, 1).Truncated?
    then if size <= |rest| then RefuseAndClose else Crash
    else
      match Unpack(rest)
      case Overrun => Garbled
      case Failed(_) => Refuse
      case Got(body, _) => JudgeMaps(header, body, sync, junk)
  }

  /** The verdict on a buffer that starts with a packet of `size` bytes; `window` is the whole allocation. */
  function Judge(window: Bytes, size: nat, sync: int, junk: Junk): Verdict
    requires size <= |window|
  {
    if Scan(window[..size], 1).Truncated? then Refuse
    else
      match Unpack(window)
      case Overrun => Garbled
      case Failed(_) => Refuse
      case Got(header, rest) =>
        if !header.PTable? then Refuse else JudgeBody(header, rest, size, sync, junk)
  }

  // ---- replies that are complete ----

  /** A packet holding a header and a body, nothing less; anything may follow inside the packet. */
  ghost predicate TwoElements(p: Bytes) {
    Parse(p).Some? && Parse(Parse(p).value.1).Some?
  }

  /** The verdict on a complete reply in terms of the two elements of the packet alone. */
  ghost function JudgeReply(p: Bytes, sync: int, junk: Junk): Verdict
    requires TwoElements(p)
  {
    match Unpack(p)
    case Got(header, rest) =>
      if !header.PTable? then Refuse
      else
        (match Unpack(rest)
         case Got(body, _) => JudgeMaps(header, body, sync, junk)
         case _ => Refuse)
    case _ => Refuse
  }

  lemma UnpackMore(p: Bytes, more: Bytes)
    requires Parse(p).Some?
    ensures match Unpack(p)
      case Got(v, rest) => Unpack(p + more) == Got(v, rest + more) && rest == Parse(p).value.1
      case Failed(why) => Unpack(p + more) == Failed(why)
      case Overrun => false
  {
    hide Parse, FromTree;
    ParseMore(p, more);
  }

  lemma ScanMore(p: Bytes, more: Bytes)
    requires Parse(p).Some?
    ensures !Scan(p + more, 1).Truncated?
  {
    hide Parse, Scan;
    ParseMore(p, more);
    ScanOne(p + more);
  }

  lemma ParseShrinks(p: Bytes)
    requires Parse(p).Some?
    ensures |Parse(p).value.1| < |p|
  {
  }

  /** A complete reply is judged by its two elements, whatever else lies in the buffer and after it. */
  lemma CompleteReplyJudged(p: Bytes, more: Bytes, sync: int, junk: Junk)
    requires TwoElements(p)
    ensures Judge(p + more, |p|, sync, junk) == JudgeReply(p, sync, junk)
  {
    hide Parse, Scan, FromTree, JudgeMaps, Unpack;
    assert (p + more)[..|p|] == p;
    ScanMore(p, []);
    assert p + [] == p;
    UnpackMore(p, more);
    match Unpack(p)
    case Got(header, rest) =>
      UnpackMore(rest, more);
      var seen := if |p| <= |rest + more| then (rest + more)[..|p|] else rest + more;
      ParseShrinks(p);
      assert seen == rest + seen[|rest|..];
      ScanMore(rest, seen[|rest|..]);
    case _ =>
  }

  // ---- what holds of every accepted reply ----

  /** Whatever bytes the server sends: a reply with an integer sync is delivered only if it is the sync expected. */
  lemma AcceptedSync(window: Bytes, size: nat, sync: int, junk: Junk)
    requires size <= |window|
    ensures var v := Judge(window, size, sync, junk);
      v.Accept? ==>
        && v.header.PTable? && SyncMatches(v.header, sync, junk)
        && Find(v.header.entries, IntKey(0x00)).Some?
        && LongOf(Find(v.header.entries, IntKey(0x00)).value, junk.code) == 0
  {
    hide Scan, Unpack;
  }

  /**
   Whatever bytes arrive: once the header is unpacked with a wrong sync, the reply is not delivered. It closes the
   stream exactly when the body that lies behind can be unpacked, or fails to validate with enough bytes left in the
   buffer to look at.
   */
  lemma MismatchClosesExactly(window: Bytes, size: nat, sync: int, junk: Junk)
    requires size <= |window| && !Scan(window[..size], 1).Truncated?
    requires Unpack(window).Got? && Unpack(window).v.PTable? && !SyncMatches(Unpack(window).v, sync, junk)
    ensures var v, rest := Judge(window, size, sync, junk), Unpack(window).rest;
      && !v.Accept? && !v.QueryError?
      && (size <= |rest| ==> (v.RefuseAndClose? <==> Scan(rest[..size], 1).Truncated? || Unpack(rest).Got?))
      && (size > |rest| ==> (v.RefuseAndClose? <==> !Scan(rest, 1).Truncated? && Unpack(rest).Got?))
  {
    hide Parse, FromTree, Find, Scan, Unpack;
  }

  /**
   A complete reply with the wrong sync never reaches the caller, but it closes the stream exactly when its body can
   be unpacked: the body is unpacked before the syncs are compared.
   */
  lemma MismatchClosesExactlyWhenBodyUnpacks(p: Bytes, sync: int, junk: Junk)
    requires TwoElements(p) && Unpack(p).Got? && Unpack(p).v.PTable? && !SyncMatches(Unpack(p).v, sync, junk)
    ensures JudgeReply(p, sync, junk) == if Unpack(Unpack(p).rest).Got? then RefuseAndClose else Refuse
  {
    hide Parse, FromTree, Find;
  }

  ghost predicate HasText(body: PVal) {
    body.PTable? && Find(body.entries, IntKey(0x31)).Some? && Find(body.entries, IntKey(0x31)).value.PStr?
  }

  /**
   A complete reply whose header is no table, or whose body holds what cannot be unpacked, is refused and the stream
   kept; with its header in order, one without a code closes the stream, and an error without a text is read where there
   is nothing.
   */
  lemma IncompleteReplyJudged(p: Bytes, sync: int, junk: Junk)
    requires TwoElements(p)
    ensures !(Unpack(p).Got? && Unpack(p).v.PTable?) ==> JudgeReply(p, sync, junk) == Refuse
    ensures Unpack(p).Got? && Unpack(Unpack(p).rest).Failed? ==> JudgeReply(p, sync, junk) == Refuse
    ensures
      && Unpack(p).Got? && Unpack(p).v.PTable? && Unpack(Unpack(p).rest).Got?
      && SyncMatches(Unpack(p).v, sync, junk) ==>
      var code := Find(Unpack(p).v.entries, IntKey(0x00));
      && (code.None? ==> JudgeReply(p, sync, junk) == RefuseAndClose)
      && (code.Some? && code.value.PLong? && code.value.n != 0 && !HasText(Unpack(Unpack(p).rest).v) ==>
            JudgeReply(p, sync, junk) == Crash)
      && (code.Some? && code.value.PBool? ==> (JudgeReply(p, sync, junk).Accept? <==> !code.value.b))
  {
    hide Parse, Unpack, Find;
  }

  /**
   Bytes that do not hold a whole header leave the stream open. Bytes that do not hold a whole body close it, unless the
   second validation, which looks at as many bytes again, leaves the buffer.
   */
  lemma CutReplyJudged(window: Bytes, size: nat, sync: int, junk: Junk)
    requires size <= |window|
    ensures Scan(window[..size], 1).Truncated? ==> Judge(window, size, sync, junk) == Refuse
    ensures
      && !Scan(window[..size], 1).Truncated? && Unpack(window).Got? && Unpack(window).v.PTable?
      && size <= |Unpack(window).rest| && Scan(Unpack(window).rest[..size], 1).Truncated? ==>
      Judge(window, size, sync, junk) == RefuseAndClose
    ensures
      && !Scan(window[..size], 1).Truncated? && Unpack(window).Got? && Unpack(window).v.PTable?
      && size > |Unpack(window).rest| && Scan(Unpack(window).rest, 1).Truncated? ==>
      Judge(window, size, sync, junk) == Crash
    ensures !Scan(window[..size], 1).Truncated? && Unpack(window).Overrun? ==>
      Judge(window, size, sync, junk) == Garbled
  {
    hide Parse, Unpack, Scan;
  }

  lemma SmallUintToken(n: Byte, rest: Bytes)
    requires n <= 0x7f
    ensures ReadToken([n] + rest) == Some((Token(Uint, n, []), rest))
  {
    hide Parse, ParseMany, Unpack, Pow256, FromBigEndian;
    assert ([n] + rest)[1..] == rest;
    assert FormOf(n) == Form(Uint, 0, n);
    hide FormOf;
    assert ReadBody(Form(Uint, 0, n), rest) == Some((Token(Uint, n, []), rest));
  }

  lemma OnePairToken(rest: Bytes)
    ensures ReadToken([0x81] + rest) == Some((Token(Map, 1, []), rest))
  {
    hide Parse, ParseMany, Unpack, Pow256, FromBigEndian;
    assert ([0x81] + rest)[1..] == rest;
    assert FormOf(0x81) == Form(Map, 0, 1);
    hide FormOf;
    assert ReadBody(Form(Map, 0, 1), rest) == Some((Token(Map, 1, []), rest));
  }

  lemma ExtToken(rest: Bytes)
    requires |rest| == 2
    ensures ReadToken([0xd4] + rest) == Some((Token(Ext, 0, rest), []))
  {
    hide Parse, ParseMany, Unpack, Pow256, FromBigEndian;
    assert ([0xd4] + rest)[1..] == rest && rest[0..2] == rest && rest[2..] == [];
    assert FormOf(0xd4) == Form(Ext, 0, 2);
    hide FormOf;
    assert ReadBody(Form(Ext, 0, 2), rest) == Some((Token(Ext, 0, rest), []));
  }

  lemma SmallUint(n: Byte, rest: Bytes)
    requires n <= 0x7f
    ensures Parse([n] + rest) == Some((Leaf(Uint, n, []), rest))
  {
    hide ReadToken, FormOf;
    SmallUintToken(n, rest);
    ParseScalarToken([n] + rest);
  }

  /** A map of one pair of small numbers. */
  lemma OnePair(k: Byte, v: Byte, rest: Bytes)
    requires k <= 0x7f && v <= 0x7f
    ensures var t := Tree(Token(Map, 1, []), [Leaf(Uint, k, []), Leaf(Uint, v, [])]);
      Parse([0x81] + ([k] + ([v] + rest))) == Some((t, rest))
  {
    hide ReadToken, FormOf, FromTree, FromPairs;
    OnePairToken([k] + ([v] + rest));
    SmallUint(k, [v] + rest);
    SmallUint(v, rest);
    ParseManyOne([v] + rest);
    assert [Leaf(Uint, k, [])] + [Leaf(Uint, v, [])] == [Leaf(Uint, k, []), Leaf(Uint, v, [])];
  }

  lemma OnePairTable(k: Byte, v: Byte)
    ensures var t := Tree(Token(Map, 1, []), [Leaf(Uint, k, []), Leaf(Uint, v, [])]);
      FromTree(t) == Value(PTable([Entry(IntKey(k), PLong(v))], NextAfter(0, IntKey(k))))
  {
    hide ReadToken, FormOf;
    var t := Tree(Token(Map, 1, []), [Leaf(Uint, k, []), Leaf(Uint, v, [])]);
    assert FromPairs(t, 0) == Value(PTable([], 0));
    assert FromTree(t.items[0]) == Value(PLong(k)) && FromTree(t.items[1]) == Value(PLong(v));
  }

  lemma ExtRefused(s: Bytes)
    requires s == [0xd4, 0x00, 0x00]
    ensures Parse(s).Some? && Unpack(s) == Failed(ExtFound)
  {
    hide ReadToken, FormOf;
    assert s == [0xd4] + [0x00, 0x00];
    ExtToken([0x00, 0x00]);
    ParseScalarToken(s);
  }

  /** A header with sync 7 before an ext value, for a request with sync 8: refused, and the stream is kept. */
  lemma StaleReplyKept(junk: Junk)
    ensures var p := [0x81, SYNC, 0x07, 0xd4, 0x00, 0x00];
      TwoElements(p) && Unpack(p).Got? && Unpack(p).v.PTable? && !SyncMatches(Unpack(p).v, 8, junk)
      && JudgeReply(p, 8, junk) == Refuse
  {
    hide Parse, FromTree, NextAfter;
    var p := [0x81, SYNC, 0x07, 0xd4, 0x00, 0x00];
    var ext: Bytes := [0xd4, 0x00, 0x00];
    assert p == [0x81] + ([SYNC] + ([0x07] + ext));
    OnePair(SYNC, 0x07, ext);
    OnePairTable(SYNC, 0x07);
    ExtRefused(ext);
  }
}
