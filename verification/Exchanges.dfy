/** One request and its reply: the counter of syncs, the verdict on what was read, and the history of exchanges. */
module Exchanges {
  import opened ByteStrings
  import opened Wire
  import opened PhpValues
  import opened Codec
  import opened RoundTrip
  import opened Unpacker
  import opened Proto
  import opened Network
  import opened Receive
  import opened SchemaReplies

  /** Every number below `next` was handed out once, in order. */
  ghost predicate Issued(issued: seq<nat>, next: nat) {
    |issued| == next && forall k :: 0 <= k < next ==> issued[k] == k
  }

  /** The process-wide counter of syncs, which all connections share. */
  class Counter {
    var next: nat
    /** The syncs issued so far. */
    ghost var issued: seq<nat>

    ghost predicate Valid()
      reads this
    {
      Issued(issued, next)
    }

    constructor ()
      ensures Valid() && next == 0 && issued == []
    {
      next, issued := 0, [];
    }

    method Take() returns (sync: nat)
      requires Valid()
      modifies this
      ensures Valid() && sync == old(next) && next == old(next) + 1
      ensures issued == old(issued) + [sync]
    {
      sync := next;
      issued := issued + [sync];
      next := next + 1;
    }
  }

  /** How a write goes: it takes all bytes, or it stops after some of them; a flush may fail. */
  datatype Net = Through | Cut(written: nat, flushed: bool) {
    predicate Takes(n: nat) { Through? || (written >= n && flushed) }

    function Written(n: nat): (w: nat)
      ensures w <= n
    {
      if Through? || written > n then n else written
    }
  }

  /** A request that was answered or refused, and what became of it. */
  datatype Exchange = Exchange(sync: nat, verdict: Verdict)

  /** The reply delivered for `e`, if any, bears no integer sync but the one issued to `e`. */
  ghost predicate OwnReply(e: Exchange) {
    e.verdict.Accept? && e.verdict.header.PTable? ==>
      forall n :: Find(e.verdict.header.entries, IntKey(0x01)) == Some(PLong(n)) ==> SameWord(n, e.sync)
  }

  /** Syncs were issued in increasing order, all below `next`, and every delivered reply is its own. */
  ghost predicate History(log: seq<Exchange>, next: nat) {
    && (forall i :: 0 <= i < |log| ==> log[i].sync < next && OwnReply(log[i]))
    && forall i, j :: 0 <= i < j < |log| ==> log[i].sync < log[j].sync
  }

  lemma HistoryGrows(log: seq<Exchange>, next: nat, e: Exchange)
    requires History(log, e.sync) && e.sync < next && OwnReply(e)
    ensures History(log + [e], next)
  {
  }

  lemma HistoryLater(log: seq<Exchange>, next: nat, later: nat)
    requires History(log, next) && next <= later
    ensures History(log, later)
  {
  }

  /**
   No stale reply: while fewer than 2^32 syncs were issued, a reply delivered with an integer sync bears the number
   that went out with that very request, and no other request that drew a sync from the counter, on whatever
   connection, went out with that number.
   */
  lemma NoStaleReply(log: seq<Exchange>, issued: seq<nat>, next: nat, i: nat, n: int)
    requires Issued(issued, next) && History(log, next) && next <= TWO_32
    requires i < |log| && log[i].verdict.Accept? && log[i].verdict.header.PTable?
    requires Find(log[i].verdict.header.entries, IntKey(0x01)) == Some(PLong(n)) && -TWO_63 <= n < TWO_63
    ensures log[i].sync < |issued| && issued[log[i].sync] == n == n % TWO_32
    ensures forall k :: 0 <= k < |issued| && k != log[i].sync ==> issued[k] % TWO_32 != n
    ensures forall j :: 0 <= j < |log| && j != i ==> log[j].sync != log[i].sync
  {
    assert OwnReply(log[i]);
  }

  lemma UnpackOverruns(s: Bytes)
    ensures Unpack(s).Overrun? <==> Parse(s).None?
  {
    hide Parse, FromTree;
  }

  /** Judges the packet of `size` bytes at the start of the buffer. */
  method JudgeBuffer(window: Bytes, size: nat, sync: int, junk: Junk) returns (v: Verdict)
    requires size <= |window|
    ensures var w := Judge(window, size, sync, junk); v == w || (w.Garbled? && (v.Refuse? || v.Crash?))
  {
    hide Scan, Unpack, JudgeMaps, Parse;
    var badHeader, _ := Check(window[..size]);
    if badHeader {
      return Refuse;
    }
    var h := UnpackAny(window);
    UnpackOverruns(window);
    if h.Overrun? {
      return Crash;
    }
    if h.Failed? || !h.v.PTable? {
      return Refuse;
    }
    var seen := if size <= |h.rest| then h.rest[..size] else h.rest;
    var badBody, _ := Check(seen);
    if badBody {
      return if size <= |h.rest| then RefuseAndClose else Crash;
    }
    var b := UnpackAny(h.rest);
    UnpackOverruns(h.rest);
    if b.Overrun? {
      return Crash;
    }
    if b.Failed? {
      return Refuse;
    }
    return JudgeMaps(h.v, b.v, sync, junk);
  }

  /** What a received packet comes to; `window` is the buffer it was read into. */
  ghost predicate Judged(p: Packet, window: Bytes, sync: int, junk: Junk, v: Verdict) {
    match p
    case ShortLength => v == RefuseAndClose
    case BadLength(head) => v == if Scan(head, 1).Truncated? then RefuseAndClose else Crash
    case ShortBody => v == Refuse
    case TooLong(_) => v == Refuse
    case Body(payload) =>
      && |payload| <= |window|
      && var w := Judge(window, |payload|, sync, junk);
      v == w || (w.Garbled? && (v.Refuse? || v.Crash?))
  }

  /** The verdict is that on the packet, read to the start of the buffer `window`. */
  ghost predicate JudgedAtStart(p: Packet, window: Bytes, sync: int, junk: Junk, v: Verdict) {
    Judged(p, window, sync, junk, v) && LiesIn(p, window)
  }

  /** What becomes of a reply that does not arrive, in terms of the bytes that were to come. */
  ghost predicate Withheld(ahead: Bytes, v: Verdict) {
    if |ahead| < 5 then v == RefuseAndClose
    else
      match AnnouncedSize(ahead)
      case Some(n) => |ahead| < 5 + n || n >= 0x8000_0000 ==> v == Refuse
      case None => v == if Scan(ahead[..5], 1).Truncated? then RefuseAndClose else Crash
  }

  lemma JudgedWithheld(ahead: Bytes, window: Bytes, sync: int, junk: Junk, v: Verdict)
    requires Judged(NextPacket(ahead), window, sync, junk, v)
    ensures Withheld(ahead, v)
  {
    hide Judge, Scan, NextPacket, AnnouncedSize;
    NextPacketExact(ahead);
  }

  lemma JudgedOwn(p: Packet, window: Bytes, sync: int, junk: Junk, v: Verdict)
    requires Judged(p, window, sync, junk, v) && sync >= 0
    ensures OwnReply(Exchange(sync, v))
  {
    hide Judge, Scan;
    if v.Accept? {
      AcceptedSync(window, |p.payload|, sync, junk);
    }
  }

  /** The server's answer to a request: two elements, a header with its sync and a code, an error with its text. */
  ghost predicate Answers(payload: Bytes, sync: nat) {
    && TwoElements(payload)
    && match Unpack(payload)
       case Got(header, rest) =>
         && header.PTable?
         && Find(header.entries, IntKey(0x01)) == Some(PLong(sync))
         && Find(header.entries, IntKey(0x00)).Some? && Find(header.entries, IntKey(0x00)).value.PLong?
         && (match Unpack(rest)
             case Got(body, _) =>
               Find(header.entries, IntKey(0x00)).value.n != 0 ==>
                 && body.PTable? && Find(body.entries, IntKey(0x31)).Some?
                 && Find(body.entries, IntKey(0x31)).value.PStr?
             case _ => true)
       case _ => true
  }

  /**
   What an answer comes to: delivered exactly when its code is 0, and else an error with the code cut to 15 bits and the
   text under 0x31; refused if it holds what cannot be unpacked.
   */
  ghost predicate Reports(payload: Bytes, v: Verdict) {
    match Unpack(payload)
    case Got(header, rest) =>
      (match Unpack(rest)
       case Got(body, _) =>
         && header.PTable? && Find(header.entries, IntKey(0x00)).Some?
         && Find(header.entries, IntKey(0x00)).value.PLong?
         && var code := Find(header.entries, IntKey(0x00)).value.n;
         if code == 0 then v == Accept(header, body)
         else
           && v.QueryError? && v.code == code % 0x8000
           && body.PTable? && Find(body.entries, IntKey(0x31)) == Some(PStr(v.text))
       case _ => v == Refuse)
    case _ => v == Refuse
  }

  lemma AnswerReported(payload: Bytes, sync: nat, junk: Junk)
    requires Answers(payload, sync)
    ensures Reports(payload, JudgeReply(payload, sync, junk))
  {
    hide Parse, Unpack, Find;
  }

  /** An answer is delivered, reported as a query error, or refused for what it holds; it never closes the stream. */
  lemma AnswerJudged(payload: Bytes, window: Bytes, sync: nat, junk: Junk, v: Verdict)
    requires Answers(payload, sync) && |payload| <= |window| && window[..|payload|] == payload
    requires Judged(Body(payload), window, sync, junk, v)
    ensures v == JudgeReply(payload, sync, junk) && (v.Accept? || v.QueryError? || v.Refuse?)
    ensures Reports(payload, v)
  {
    hide Judge, Scan, Parse, Unpack, Find;
    AnswerReported(payload, sync, junk);
    CompleteReplyJudged(payload, window[|payload|..], sync, junk);
    assert payload + window[|payload|..] == window;
  }

  /**
   End to end: a reply packed from a header with code OK and the request's sync and from any body is an answer, and
   what is delivered is the body as packing and unpacking leave it.
   */
  lemma PackedReplyDelivered(sync: U32, body: PVal, junk: Junk)
    requires Sane(body)
    ensures var p := Encode(HeaderTable(OK, sync)) + Encode(body);
      && Answers(p, sync)
      && JudgeReply(p, sync, junk).Accept? && JudgeReply(p, sync, junk).body == Decoded(body)
  {
    hide Encode, Parse, FromTree, Decoded, Sane;
    var p := Encode(HeaderTable(OK, sync)) + Encode(body);
    HeaderBack(OK, sync, Encode(body));
    PackUnpack(body, []);
    assert Encode(body) + [] == Encode(body);
    var es := Unpack(p).v.entries;
    assert KeysOf(es) == [IntKey(CODE), IntKey(0x01)];
    assert Find(es, IntKey(CODE)) == Some(PLong(OK)) && Find(es, IntKey(0x01)) == Some(PLong(sync));
  }

  lemma OneFieldKey(v: PVal)
    ensures FieldKeys([Entry(IntKey(0x31), v)])
  {
  }

  lemma TwoHeaderFields(es: seq<Entry<PVal>>)
    requires |es| == 2 && es[0].key == IntKey(0x00) && es[1].key == IntKey(0x01)
    ensures Find(es, IntKey(0x00)) == Some(es[0].val) && Find(es, IntKey(0x01)) == Some(es[1].val)
  {
    assert KeysOf(es) == [IntKey(0x00), IntKey(0x01)];
  }

  lemma OneBodyField(es: seq<Entry<PVal>>)
    requires |es| == 1 && es[0].key == IntKey(0x31)
    ensures Find(es, IntKey(0x31)) == Some(es[0].val)
  {
    assert KeysOf(es) == [IntKey(0x31)];
  }

  /**
   A reply packed from a header with code 0x8024 and the request's sync and from a body with a text under 0x31 is
   reported with the code 36 and the text.
   */
  lemma PackedErrorReported(sync: U32, text: Bytes, junk: Junk)
    requires |text| < TWO_32
    ensures var header := PTable([Entry(IntKey(0x00), PLong(0x8024)), Entry(IntKey(0x01), PLong(sync))], 64);
      var p := Encode(header) + Encode(PTable([Entry(IntKey(0x31), PStr(text))], 64));
      Answers(p, sync) && JudgeReply(p, sync, junk) == QueryError(36, text)
  {
    hide Encode, Parse, FromTree, Find;
    var header := HeaderTable(0x8024, sync);
    var fields := [Entry(IntKey(0x31), PStr(text))];
    var p := Encode(header) + Encode(FieldTable(fields));
    HeaderBack(0x8024, sync, Encode(FieldTable(fields)));
    assert FieldKeys(fields) by { OneFieldKey(PStr(text)); }
    FieldTableBack(fields, []);
    assert Encode(FieldTable(fields)) + [] == Encode(FieldTable(fields));
    var (es, bs) := (Unpack(p).v.entries, Unpack(Unpack(p).rest).v.entries);
    TwoHeaderFields(es);
    OneBodyField(bs);
    AnswerReported(p, sync, junk);
  }
}
