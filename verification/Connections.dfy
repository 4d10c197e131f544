/**
 A connection: its stream, its one reusable buffer, its schema cache, and the counter all requests draw syncs from.
 */
module Connections {
  import opened ByteStrings
  import opened Wire
  import opened PhpValues
  import opened ZendHeap
  import opened HeapPaths
  import opened SmartStrings
  import opened Proto
  import opened Actions
  import opened Responses
  import opened Network
  import opened Receive
  import opened PairTables
  import opened Rows
  import opened Schema
  import opened Catalogue
  import opened Coherence
  import opened SchemaReplies
  import opened SchemaLoads
  import opened Exchanges

  class Connection {
    var stream: Stream?
    const value: SmartString
    const schema: SchemaCache
    const counter: Counter
    /** The server's catalogue, taken not to change while the connection lives. */
    ghost const cat: Catalog
    ghost var log: seq<Exchange>
    /** What has happened to the cache so far. */
    ghost var past: seq<Event>

    ghost predicate Valid()
      reads this, value, counter
    {
      value.Valid() && counter.Valid() && History(log, counter.next)
    }

    /** The history of the cache explains its contents, for as long as what the server sends is catalogued. */
    ghost predicate Tracked()
      reads this`past, schema, schema.Tables()
    {
      Explains(past, cat, Tidy(schema, cat), Abs(schema))
    }

    constructor (stream: Stream, counter: Counter, ghost cat: Catalog)
      requires counter.Valid()
      ensures Valid() && this.stream == stream && this.counter == counter && this.cat == cat
      ensures fresh(value) && fresh(value.c) && fresh(schema)
      ensures value.Contents() == [] && log == [] && schema.Valid() && schema.nodes == map[]
      ensures past == [] && Tracked()
    {
      this.cat := cat;
      past := [];
      this.stream := stream;
      this.counter := counter;
      value := new SmartString();
      schema := new SchemaCache();
      log := [];
    }

    // ---- one exchange ----

    /** Sends the buffer. A request that went out empties it; after a failed send its bytes stay. */
    method SendBuffer(net: Net) returns (ok: bool)
      requires stream != null && value.Valid()
      modifies stream`out, value`len, value.c
      ensures value.Valid()
      ensures ok <==> net.Takes(|old(value.Contents())|)
      ensures net.Cut? && (!net.flushed || net.written < |old(value.Contents())|) ==> !ok
      ensures ok ==> value.Contents() == [] && stream.out == old(stream.out) + old(value.Contents())
      ensures !ok ==> value.Contents() == old(value.Contents())
      ensures !ok ==>
        stream.out == old(stream.out) + old(value.Contents())[..net.Written(|old(value.Contents())|)]
    {
      var request := value.c[..value.len];
      var written := net.Written(value.len);
      ok := stream.Send(request, written, net.Through? || net.flushed);
      if ok {
        assert request[..written] == request;
        value.Reset();
      }
    }

    /** Reads and judges the reply to the request with the given sync. */
    method StepRecv(sync: int, junk: Junk) returns (v: Verdict, ghost p: Packet, ghost window: Bytes)
      requires stream != null && value.Valid()
      modifies this`stream, stream`chunks, value`len, value`c, value.c
      ensures value.Valid() && (value.c == old(value.c) || fresh(value.c))
      ensures p == NextPacket(old(Yield(stream.chunks))) && Judged(p, window, sync, junk, v)
      ensures p.Body? ==>
        var at := old(value.len);
        && at + |p.payload| <= |window|
        && window[..at] == old(value.Contents()) && window[at..at + |p.payload|] == p.payload
      ensures !v.Crash? ==> value.Contents() == []
      ensures p.TooLong? ==> v.Refuse?
      ensures Withheld(old(Yield(stream.chunks)), v)
      ensures stream == if v.RefuseAndClose? then null else old(stream)
      ensures (p.Body? || p.TooLong?) && stream != null ==>
        Yield(stream.chunks) == AfterPacket(old(Yield(stream.chunks)))
    {
      hide Judge, Scan, NextPacket, AfterPacket, Yield, Withheld;
      ghost var before, ahead := value.Contents(), Yield(stream.chunks);
      var got := ReadPacket(stream, value, value.len);
      p, window := got, value.c[..];
      match got {
      case ShortLength => v := RefuseAndClose;
      case ShortBody => v := Refuse;
      case TooLong(_) => v := Refuse;
      case BadLength(head) =>
        var bad, _ := Check(head);
        v := if bad then RefuseAndClose else Crash;
      case Body(payload) =>
        v := JudgeBuffer(value.c[..], |payload|, sync, junk);
      }
      JudgedWithheld(ahead, window, sync, junk, v);
      if v.RefuseAndClose? {
        stream := null;
      }
      if !v.Crash? {
        value.Reset();
      }
    }

    /** The stream stands behind `n` packets of what it was to yield, and the buffer is empty. */
    ghost predicate Behind(s: Stream, ahead: Bytes, n: nat)
      requires value.Valid()
      reads value, value.c, s
    {
      value.Contents() == [] && Yield(s.chunks) == Packets(ahead, n).1
    }

    /**
     Sends the request in the buffer and takes the reply. `None` is a failed send. Whatever bytes come back, the
     history stays in order; after a well-formed answer the stream is at the next packet and the buffer is empty.
     */
    method Finish(sync: nat, net: Net, junk: Junk) returns (v: Option<Verdict>, ghost window: Bytes)
      requires Valid() && stream != null
      requires sync < counter.next && History(log, sync)
      requires schema.Valid() && Tracked()
      modifies this`stream, this`log, stream, value`len, value`c, value.c
      ensures Valid() && (value.c == old(value.c) || fresh(value.c))
      ensures v.None? <==> !net.Takes(|old(value.Contents())|)
      ensures v.None? ==> log == old(log) && stream == old(stream) && value.Contents() == old(value.Contents())
      ensures v.None? ==> Yield(stream.chunks) == old(Yield(stream.chunks))
      ensures v.Some? ==> log == old(log) + [Exchange(sync, v.value)] && (v.value.Crash? || value.Contents() == [])
      ensures v.Some? ==> old(stream).out == old(stream.out) + old(value.Contents())
      ensures v.Some? ==> stream == if v.value.RefuseAndClose? then null else old(stream)
      ensures v.Some? ==> JudgedAtStart(NextPacket(old(Yield(stream.chunks))), window, sync, junk, v.value)
      ensures v.Some? ==>
        var p := NextPacket(old(Yield(stream.chunks)));
        p.Body? && Answers(p.payload, sync) ==>
          && v.value == JudgeReply(p.payload, sync, junk) && Reports(p.payload, v.value) && stream == old(stream)
          && Behind(old(stream), old(Yield(stream.chunks)), 1)
      ensures v.Some? ==> Withheld(old(Yield(stream.chunks)), v.value)
      ensures v.Some? && NextPacket(old(Yield(stream.chunks))).TooLong? ==>
        v.value == Refuse && stream == old(stream) && Behind(old(stream), old(Yield(stream.chunks)), 1)
      ensures schema.Valid() && Tracked()
    {
      hide NextPacket, AfterPacket, Yield, Judged, Answers, Reports, Withheld, History, OwnReply, SchemaCache.Valid,
        Tracked, Packets;
      ghost var ahead := Yield(stream.chunks);
      OnePacket(ahead);
      var ok := SendBuffer(net);
      assert schema.Tables() == old(schema.Tables());
      if !ok {
        HistoryLater(log, sync, counter.next);
        return None, [];
      }
      var verdict;
      ghost var p;
      verdict, p, window := StepRecv(sync, junk);
      assert schema.Tables() == old(schema.Tables());
      JudgedOwn(p, window, sync, junk, verdict);
      HistoryGrows(log, counter.next, Exchange(sync, verdict));
      log := log + [Exchange(sync, verdict)];
      v := Some(verdict);
      if p.Body? && Answers(p.payload, sync) {
        AnswerJudged(p.payload, window, sync, junk, verdict);
      }
    }

    /** Draws a sync and appends the request of the action to the buffer. */
    method PutRequest(action: Action, space: U32, index: U32, ghost g: Graph, ghost c: Counts) returns (sync: nat)
      requires Valid() && Matches(g, c) && SaneHeap(g) && CarriesAction(g, action)
      requires schema.Valid() && Tracked()
      modifies value, value.c, counter, g.Keys`applyCount
      ensures Valid() && (value.c == old(value.c) || fresh(value.c))
      ensures sync == old(counter.next) && counter.next == sync + 1 && History(log, sync)
      ensures Matches(g, c)
      ensures value.Contents() == old(value.Contents()) + Frame(RequestOf(action, space, index, g, c), sync % TWO_32)
      ensures schema.Valid() && Tracked()
    {
      hide History, Frame, SaneHeap, CarriesAction, RequestOf, SaysOnWire, TextFits, SchemaCache.Valid, Tracked;
      sync := counter.Take();
      EncodeAction(value, sync % TWO_32, action, space, index, g, c);
      assert schema.Tables() == old(schema.Tables());
      HistoryLater(log, sync, counter.next);
    }

    /**
     Encodes the request of an action, sends it and takes the reply: the one exchange of a ping, and the last one of
     every other command. Bytes of a request that could not be sent before go out ahead of it.
     */
    method Submit(action: Action, space: U32, index: U32, net: Net, junk: Junk, ghost g: Graph, ghost c: Counts)
      returns (v: Option<Verdict>, ghost window: Bytes)
      requires Valid() && stream != null
      requires Matches(g, c) && SaneHeap(g) && CarriesAction(g, action)
      requires schema.Valid() && Tracked()
      modifies this`stream, this`log, stream, value, value.c, counter, g.Keys`applyCount
      ensures Valid() && (value.c == old(value.c) || fresh(value.c))
      ensures counter.next == old(counter.next) + 1 && Matches(g, c)
      ensures net.Through? ==> v.Some?
      ensures v.Some? ==> stream == if v.value.RefuseAndClose? then null else old(stream)
      ensures v.None? ==> log == old(log) && stream == old(stream) && Yield(stream.chunks) == old(Yield(stream.chunks))
      ensures v.None? ==>
        value.Contents()
        == old(value.Contents()) + Frame(RequestOf(action, space, index, g, c), old(counter.next) % TWO_32)
      ensures v.Some? ==> log == old(log) + [Exchange(old(counter.next), v.value)]
      ensures v.Some? ==>
        var request := Frame(RequestOf(action, space, index, g, c), old(counter.next) % TWO_32);
        old(stream).out == old(stream.out) + (old(value.Contents()) + request)
      ensures v.Some? ==>
        JudgedAtStart(NextPacket(old(Yield(stream.chunks))), window, old(counter.next), junk, v.value)
      ensures v.Some? ==>
        var p := NextPacket(old(Yield(stream.chunks)));
        p.Body? && Answers(p.payload, old(counter.next)) ==>
          && v.value == JudgeReply(p.payload, old(counter.next), junk) && Reports(p.payload, v.value)
          && stream == old(stream) && Behind(old(stream), old(Yield(stream.chunks)), 1)
      ensures schema.Valid() && Tracked()
    {
      hide NextPacket, AfterPacket, Yield, JudgeReply, JudgedAtStart, Answers, Reports, History, Frame, SaneHeap,
        CarriesAction, RequestOf, SchemaCache.Valid, Tracked, Packets;
      var sync := PutRequest(action, space, index, g, c);
      v, window := Finish(sync, net, junk);
    }

    // ---- resolving names ----

    /** Writes a request over the buffer from its start and sends it. */
    method SendRequest(request: Bytes, net: Net) returns (ok: bool)
      requires stream != null && value.Valid()
      modifies stream`out, value`len, value`c, value.c
      ensures value.Valid() && (value.c == old(value.c) || fresh(value.c))
      ensures ok <==> net.Takes(|request|)
      ensures net.Cut? && (!net.flushed || net.written < |request|) ==> !ok
      ensures ok ==> value.Contents() == [] && stream.out == old(stream.out) + request
    {
      value.len := 0;
      value.Ensure(|request|);
      value.Append(request);
      assert value.Contents() == request;
      ok := SendBuffer(net);
    }

    /** Reads one packet to the start of the buffer and parses what lies there. */
    method ReadReply() returns (p: Packet, r: Response, outcome: Outcome, ghost window: Bytes)
      requires stream != null && value.Valid()
      modifies stream`chunks, value`c, value.c
      ensures value.Valid() && (value.c == old(value.c) || fresh(value.c))
      ensures p == NextPacket(old(Yield(stream.chunks)))
      ensures p.Body? ==> Yield(stream.chunks) == AfterPacket(old(Yield(stream.chunks)))
      ensures Replied(p, if outcome.Parsed? then Some(r) else None)
      ensures outcome.Fault? ==> p.BadLength? || (p.Body? && !WellFormedReply(p.payload))
      ensures outcome.Fault? ==> !TameSpaces(p) && !TameIndexes(p)
      ensures p.BadLength? ==> outcome.Fault?
      ensures LiesIn(p, window) && (outcome.Fault? <==> Breaks(p, window))
    {
      hide NextPacket, AfterPacket, Yield, WellFormedReply, Describes, DataTree, SpaceTuple, IndexTuple, ReplyRefused;
      p := ReadPacket(stream, value, 0);
      window := value.c[..];
      r, outcome := Response(0, 0, None, None), Malformed;
      match p {
        case Body(payload) =>
          r, outcome := ParseResponse(value.c[..]);
          if WellFormedReply(payload) {
            WellFormedInWindow(p, window);
          }
        case BadLength(_) => outcome := Fault;
        case _ =>
      }
      assert ReplyFrom(p, window, if outcome.Parsed? then Some(r) else None);
    }

    /**
     The outcome of an exchange on a stream that was to yield `ahead`: the reply is what the next packet holds. When
     the request went out and there was a packet, the stream is now at the packet after it and the buffer is empty.
     */
    ghost predicate Asked(request: Bytes, net: Net, ahead: Bytes, reply: Option<Response>)
      requires stream != null && value.Valid()
      reads this`stream, value, value.c, stream
    {
      if net.Takes(|request|) then
        && Replied(NextPacket(ahead), reply) && value.Contents() == []
        && (NextPacket(ahead).Body? ==> Yield(stream.chunks) == AfterPacket(ahead))
      else reply.None? && Yield(stream.chunks) == ahead
    }

    /** One exchange of a resolver: draws a sync, sends the request, reads and parses one packet. */
    method AskServer(request: Bytes, net: Net)
      returns (reply: Option<Response>, crashed: bool, ghost window: Bytes)
      requires Valid() && stream != null
      modifies stream, value, value.c, counter
      ensures Valid() && (value.c == old(value.c) || fresh(value.c)) && counter.next == old(counter.next) + 1
      ensures Asked(request, net, old(Yield(stream.chunks)), reply)
      ensures net.Takes(|request|) ==> stream.out == old(stream.out) + request
      ensures crashed ==>
        var p := NextPacket(old(Yield(stream.chunks))); p.BadLength? || (p.Body? && !WellFormedReply(p.payload))
      ensures crashed ==>
        var p := NextPacket(old(Yield(stream.chunks))); reply.None? && !TameSpaces(p) && !TameIndexes(p)
      ensures LiesIn(NextPacket(old(Yield(stream.chunks))), window) || !net.Takes(|request|)
      ensures crashed <==> net.Takes(|request|) && Breaks(NextPacket(old(Yield(stream.chunks))), window)
      ensures schema.nodes == old(schema.nodes) && schema.Inner() == old(schema.Inner())
    {
      hide NextPacket, AfterPacket, Yield, Replied, History, OwnReply, WellFormedReply, Issued, SchemaCache.Valid,
        TameSpaces, TameIndexes, Breaks, LiesIn;
      var _ := counter.Take();
      HistoryLater(log, old(counter.next), counter.next);
      reply, crashed, window := None, false, [];
      var ok := SendRequest(request, net);
      assert schema.Inner() == old(schema.Inner());
      if ok {
        var r, outcome;
        ghost var p;
        p, r, outcome, window := ReadReply();
        reply, crashed := if outcome.Parsed? then Some(r) else None, outcome.Fault?;
      }
    }

    /** A space name that is not cached: asks the server, loads what it sends, and looks again. */
    method AskSpace(name: Bytes, request: Bytes, net: Net, ghost cat: Catalog)
      returns (no: int, crashed: bool, ghost e: Event, ghost reply: Option<Response>)
      requires Valid() && schema.Valid() && stream != null
      modifies stream, value, value.c, counter, schema
      ensures Valid() && schema.Valid() && (value.c == old(value.c) || fresh(value.c))
      ensures counter.next == old(counter.next) + 1
      ensures Asked(request, net, old(Yield(stream.chunks)), reply)
      ensures net.Takes(|request|) ==> stream.out == old(stream.out) + request
      ensures e.AskSpace? && e.name == name && SpacesFrom(reply, e.spaces, e.complete)
      ensures no == if e.complete then schema.Sid(name) else -1
      ensures reply.None? || reply.value.error.Some? ==> no == -1 && schema.nodes == old(schema.nodes)
      ensures crashed ==> !e.complete && !TameSpaces(NextPacket(old(Yield(stream.chunks))))
      ensures reply.Some? && reply.value.error.None? ==>
        (crashed <==> !e.complete && SpaceRowBreaks(DataOf(reply.value), |e.spaces|))
      ensures Good(cat) && old(Tidy(schema, cat)) && FaithfulSpaces(e.spaces, cat) ==>
        Tidy(schema, cat) && Abs(schema) == LoadSpaces(old(Abs(schema)), e.spaces)
      ensures forall t :: t in schema.Tables() ==> t in old(schema.Tables()) || fresh(t)
    {
      hide Yield, History, Good, AbsOf, TidyOf, LoadSpaces, SpacesRead, FaithfulSpaces, Shelved, Owned, ViewsOf,
        NextPacket, Replied, AfterPacket, WellFormedReply, IsArrayOf, SpaceRowBreaks, TameSpaces, TameIndexes;
      var r;
      ghost var p := NextPacket(Yield(stream.chunks));
      ghost var window;
      r, crashed, window := AskServer(request, net);
      e, reply, no := Event.AskSpace(name, [], false), r, -1;
      if r.None? || r.value.error.Some? {
        NoRows(schema, reply);
        return;
      }
      var done;
      ghost var rows;
      done, crashed, rows := TakeSpaces(schema, DataOf(r.value), cat);
      if crashed {
        BrokenSpacesNotTame(p, r.value, rows);
      }
      e := Event.AskSpace(name, rows, done);
      if done {
        no := schema.GetSid(name);
      }
    }

    /**
     The space number for an argument: an integer as it is, a name from the cache or else from the server. Seen from
     the catalogue, the lookup of a name does what the event says and returns the reply to it.
     */
    method LookUpSpace(name: PVal, request: Bytes, net: Net)
      returns (no: int, crashed: bool, ghost e: Event, ghost reply: Option<Response>)
      requires Valid() && schema.Valid() && stream != null
      modifies stream, value, value.c, counter, schema
      ensures Valid() && schema.Valid() && (value.c == old(value.c) || fresh(value.c))
      ensures e.AskSpace? && (name.PStr? ==> e.name == name.s)
      ensures crashed ==> no == -1 && !TameSpaces(NextPacket(old(Yield(stream.chunks))))
      ensures !name.PStr? ==> Tidy(schema, cat) == old(Tidy(schema, cat)) && Abs(schema) == old(Abs(schema))
      ensures name.PLong? ==> no == ToInt32(name.n % TWO_32)
      ensures !name.PLong? && !name.PStr? ==> no == -1
      ensures !name.PStr? || old(schema.Sid(name.s)) != -1 ==>
        && unchanged(stream) && unchanged(value) && unchanged(value.c) && unchanged(counter) && unchanged(schema)
        && !crashed && (name.PStr? ==> no == old(schema.Sid(name.s)))
      ensures name.PStr? && old(schema.Sid(name.s)) == -1 ==>
        && counter.next == old(counter.next) + 1
        && Asked(request, net, old(Yield(stream.chunks)), reply) && SpacesFrom(reply, e.spaces, e.complete)
        && (net.Takes(|request|) ==> stream.out == old(stream.out) + request)
        && no == if e.complete then schema.Sid(name.s) else -1
      ensures name.PStr? && Good(cat) && old(Tidy(schema, cat)) && FaithfulSpaces(e.spaces, cat) ==>
        Tidy(schema, cat) && Abs(schema) == After(old(Abs(schema)), e) && no == Reply(old(Abs(schema)), e)
      ensures forall t :: t in schema.Tables() ==> t in old(schema.Tables()) || fresh(t)
    {
      hide Asked, Yield, History, Good, AbsOf, TidyOf, ViewsOf, LoadSpaces, SpacesRead, FaithfulSpaces, Answer,
        SpacesFrom, Shelved, Owned, NextPacket, TameSpaces;
      e, reply, crashed := Event.AskSpace([], [], false), None, false;
      if name.PLong? {
        return ToInt32(name.n % TWO_32), false, e, reply;
      }
      if !name.PStr? {
        return -1, false, e, reply;
      }
      e := Event.AskSpace(name.s, [], false);
      SidIsAnswer(schema, name.s);
      no := schema.GetSid(name.s);
      if no != -1 {
        return;
      }
      no, crashed, e, reply := AskSpace(name.s, request, net, cat);
      SidIsAnswer(schema, name.s);
    }

    /**
     The same, kept in the history of the cache: the lookup of a name is one more event, and what it returns is the
     reply to that event in the run so far.
     */
    method GetSpaceNo(name: PVal, request: Bytes, net: Net)
      returns (no: int, crashed: bool, ghost e: Event, ghost reply: Option<Response>)
      requires Valid() && stream != null
      requires schema.Valid() && Tracked()
      modifies this`past, stream, value, value.c, counter, schema
      ensures past == if name.PStr? then old(past) + [e] else old(past)
      ensures Valid() && (value.c == old(value.c) || fresh(value.c))
      ensures e.AskSpace? && (name.PStr? ==> e.name == name.s)
      ensures name.PLong? ==> no == ToInt32(name.n % TWO_32)
      ensures !name.PLong? && !name.PStr? ==> no == -1
      ensures !name.PStr? || old(schema.Sid(name.s)) != -1 ==>
        && unchanged(stream) && unchanged(value) && unchanged(value.c) && unchanged(counter) && unchanged(schema)
        && !crashed && (name.PStr? ==> no == old(schema.Sid(name.s)))
      ensures name.PStr? && old(schema.Sid(name.s)) == -1 ==>
        && counter.next == old(counter.next) + 1
        && Asked(request, net, old(Yield(stream.chunks)), reply) && SpacesFrom(reply, e.spaces, e.complete)
        && (net.Takes(|request|) ==> stream.out == old(stream.out) + request)
        && no == if e.complete then schema.Sid(name.s) else -1
      ensures crashed ==> no == -1 && !TameSpaces(NextPacket(old(Yield(stream.chunks))))
      ensures name.PStr? && InStep(past, cat) ==> no == Reply(Run(old(past), |old(past)|), e)
      ensures forall t :: t in schema.Tables() ==> t in old(schema.Tables()) || fresh(t)
      ensures schema.Valid() && Tracked()
    {
      hide Asked, Yield, History, Explains, Abs, Tidy, SpacesFrom, SchemaCache.Valid, NextPacket, Run, Reply, After,
        InStep, TameSpaces;
      ghost var tidy, c := Tidy(schema, cat), Abs(schema);
      no, crashed, e, reply := LookUpSpace(name, request, net);
      if name.PStr? {
        ExplainsMore(past, e, cat, tidy, c, Tidy(schema, cat), Abs(schema));
        label Looked:
        past := past + [e];
        assert schema.Tables() == old@Looked(schema.Tables());
      }
    }

    /** An index name that is not cached: asks the server, loads what it sends, and looks again. */
    method AskIndex(space: U32, name: Bytes, request: Bytes, net: Net, ghost cat: Catalog)
      returns (no: int, crashed: bool, ghost e: Event, ghost reply: Option<Response>)
      requires Valid() && schema.Valid() && stream != null
      modifies stream, value, value.c, counter, schema.Tables()
      ensures Valid() && schema.Valid() && (value.c == old(value.c) || fresh(value.c))
      ensures counter.next == old(counter.next) + 1 && schema.nodes == old(schema.nodes)
      ensures Asked(request, net, old(Yield(stream.chunks)), reply)
      ensures net.Takes(|request|) ==> stream.out == old(stream.out) + request
      ensures e.AskIndex? && e.space == space && e.name == name
      ensures IndexesFrom(reply, e.indexes, e.complete, schema.nodes.Keys)
      ensures no == if e.complete then schema.Iid(space, name) else -1
      ensures reply.None? || reply.value.error.Some? ==> no == -1 && schema.Inner() == old(schema.Inner())
      ensures crashed ==> !e.complete && !TameIndexes(NextPacket(old(Yield(stream.chunks))))
      ensures reply.Some? && reply.value.error.None? ==>
        (crashed <==> !e.complete && IndexRowBreaks(DataOf(reply.value), |e.indexes|, schema.nodes.Keys))
      ensures Good(cat) && old(Tidy(schema, cat)) && FaithfulIndexes(e.indexes, cat) ==>
        Tidy(schema, cat) && Abs(schema) == LoadIndexes(old(Abs(schema)), e.indexes)
    {
      hide Yield, History, Good, AbsOf, TidyOf, LoadIndexes, IndexesRead, FaithfulIndexes, Shelved, Owned, ViewsOf,
        NextPacket, IsArrayOf, IndexRowsTo, SpacesFrom, NumberKey, LoadSpaces, Replied, AfterPacket, WellFormedReply,
        IndexRowBreaks, TameSpaces, TameIndexes;
      var r;
      ghost var p := NextPacket(Yield(stream.chunks));
      ghost var window;
      r, crashed, window := AskServer(request, net);
      e, reply, no := Event.AskIndex(space, name, [], false), r, -1;
      if r.None? || r.value.error.Some? {
        NoRows(schema, reply);
        return;
      }
      var done;
      ghost var rows;
      done, crashed, rows := TakeIndexes(schema, DataOf(r.value), cat);
      if crashed {
        BrokenIndexesNotTame(p, r.value);
      }
      e := Event.AskIndex(space, name, rows, done);
      if done {
        no := schema.GetIid(space, name);
      }
    }

    /** The index number for an argument: 0 for none, an integer as it is, a name from the cache or from the server. */
    method LookUpIndex(space: U32, name: PVal, request: Bytes, net: Net)
      returns (no: int, crashed: bool, ghost e: Event, ghost reply: Option<Response>)
      requires Valid() && schema.Valid() && stream != null
      modifies stream, value, value.c, counter, schema.Tables()
      ensures Valid() && schema.Valid() && (value.c == old(value.c) || fresh(value.c))
      ensures e.AskIndex? && e.space == space && (name.PStr? ==> e.name == name.s)
      ensures crashed ==> no == -1 && !TameIndexes(NextPacket(old(Yield(stream.chunks))))
      ensures !name.PStr? ==> Tidy(schema, cat) == old(Tidy(schema, cat)) && Abs(schema) == old(Abs(schema))
      ensures name.PNull? ==> no == 0
      ensures name.PLong? ==> no == ToInt32(name.n % TWO_32)
      ensures !name.PNull? && !name.PLong? && !name.PStr? ==> no == -1
      ensures !name.PStr? || old(schema.Iid(space, name.s)) != -1 ==>
        && unchanged(stream) && unchanged(value) && unchanged(value.c) && unchanged(counter)
        && schema.Inner() == old(schema.Inner()) && !crashed
        && (name.PStr? ==> no == old(schema.Iid(space, name.s)))
      ensures schema.nodes == old(schema.nodes)
      ensures name.PStr? && old(schema.Iid(space, name.s)) == -1 ==>
        && counter.next == old(counter.next) + 1
        && Asked(request, net, old(Yield(stream.chunks)), reply)
        && IndexesFrom(reply, e.indexes, e.complete, schema.nodes.Keys)
        && (net.Takes(|request|) ==> stream.out == old(stream.out) + request)
        && no == if e.complete then schema.Iid(space, name.s) else -1
      ensures
        && name.PStr? && Good(cat) && old(Tidy(schema, cat)) && FaithfulIndexes(e.indexes, cat)
        && NumberKey(space) !in cat.spaces ==>
        Tidy(schema, cat) && Abs(schema) == After(old(Abs(schema)), e) && no == Reply(old(Abs(schema)), e)
    {
      hide Asked, Yield, History, Good, AbsOf, TidyOf, ViewsOf, LoadIndexes, LoadSpaces, IndexesRead, FaithfulIndexes,
        Answer, IndexesFrom, Shelved, Owned, NextPacket, NumberKey, IndexView, SpacesFrom, IsArrayOf, IndexRowsTo,
        TameIndexes;
      e, reply, crashed := Event.AskIndex(space, [], [], false), None, false;
      if name.PNull? {
        return 0, false, e, reply;
      }
      if name.PLong? {
        return ToInt32(name.n % TWO_32), false, e, reply;
      }
      if !name.PStr? {
        return -1, false, e, reply;
      }
      e := Event.AskIndex(space, name.s, [], false);
      if Tidy(schema, cat) && NumberKey(space) !in cat.spaces {
        IidIsAnswer(schema, space, name.s, cat);
      }
      no := schema.GetIid(space, name.s);
      if no != -1 {
        return;
      }
      no, crashed, e, reply := AskIndex(space, name.s, request, net, cat);
      if Tidy(schema, cat) && NumberKey(space) !in cat.spaces {
        IidIsAnswer(schema, space, name.s, cat);
      }
    }

    /** The same, kept in the history of the cache. */
    method GetIndexNo(space: U32, name: PVal, request: Bytes, net: Net)
      returns (no: int, crashed: bool, ghost e: Event, ghost reply: Option<Response>)
      requires Valid() && stream != null
      requires schema.Valid() && Tracked()
      modifies this`past, stream, value, value.c, counter, schema.Tables()
      ensures past == if name.PStr? then old(past) + [e] else old(past)
      ensures Valid() && (value.c == old(value.c) || fresh(value.c))
      ensures e.AskIndex? && e.space == space && (name.PStr? ==> e.name == name.s)
      ensures name.PNull? ==> no == 0
      ensures name.PLong? ==> no == ToInt32(name.n % TWO_32)
      ensures !name.PNull? && !name.PLong? && !name.PStr? ==> no == -1
      ensures !name.PStr? || old(schema.Iid(space, name.s)) != -1 ==>
        && unchanged(stream) && unchanged(value) && unchanged(value.c) && unchanged(counter)
        && schema.Inner() == old(schema.Inner()) && !crashed
        && (name.PStr? ==> no == old(schema.Iid(space, name.s)))
      ensures schema.nodes == old(schema.nodes)
      ensures name.PStr? && old(schema.Iid(space, name.s)) == -1 ==>
        && counter.next == old(counter.next) + 1
        && Asked(request, net, old(Yield(stream.chunks)), reply)
        && IndexesFrom(reply, e.indexes, e.complete, schema.nodes.Keys)
        && (net.Takes(|request|) ==> stream.out == old(stream.out) + request)
        && no == if e.complete then schema.Iid(space, name.s) else -1
      ensures crashed ==> no == -1 && !TameIndexes(NextPacket(old(Yield(stream.chunks))))
      ensures name.PStr? && InStep(past, cat) ==> no == Reply(Run(old(past), |old(past)|), e)
      ensures schema.Valid() && Tracked()
    {
      hide Asked, Yield, History, Explains, Abs, Tidy, IndexesFrom, NumberKey, SchemaCache.Valid, NextPacket, Run,
        Reply, After, InStep, TameIndexes, SchemaCache.Iid;
      ghost var tidy, c := Tidy(schema, cat), Abs(schema);
      no, crashed, e, reply := LookUpIndex(space, name, request, net);
      if name.PStr? {
        ExplainsMore(past, e, cat, tidy, c, Tidy(schema, cat), Abs(schema));
        label Looked:
        past := past + [e];
        assert schema.Tables() == old@Looked(schema.Tables());
      }
    }

    // ---- authentication ----

    /** Forgets the whole schema. */
    method FlushSchema()
      requires schema.Valid() && Tracked()
      modifies this`past, schema, schema.Tables()
      ensures schema.nodes == map[] && past == old(past) + [FlushAll]
      ensures schema.Valid() && Tracked() && Tidy(schema, cat)
    {
      hide Explains, Abs, Tidy, Shelved, Owned, FlushedNames, IsOrder, FlushTo, AllFlushed;
      ghost var tidy, c := Tidy(schema, cat), Abs(schema);
      var _, _, _ := schema.Flush();
      EmptyTidy(schema, cat);
      ExplainsMore(past, FlushAll, cat, tidy, c, true, EMPTY);
      past := past + [FlushAll];
      EmptyTidy(schema, cat);
    }

    /** Reads one reply of the batch; once a reply has failed, the remaining ones are only read. */
    method BatchTurn(ok: bool, auth: U32, space: U32, index: U32)
      returns (read: bool, ok': bool, crashed: bool, ghost window: Bytes, ghost r: Response, ghost load: Option<Event>,
        ghost done: bool)
      requires value.Valid() && stream != null && schema.Valid() && auth != space && auth != index && space != index
      modifies stream`chunks, value`c, value.c, schema, schema.Tables()
      ensures value.Valid() && (value.c == old(value.c) || fresh(value.c))
      ensures load.Some? ==> load.value.BulkSpaces? || load.value.BulkIndexes?
      ensures read && ok && !crashed ==> LoadOf(r, space, index, schema.nodes.Keys, load, done)
      ensures !(read && ok) ==> load.None?
      ensures Good(cat) && old(Tidy(schema, cat)) && (load.Some? ==> Faithful(load.value, cat)) ==>
        Tidy(schema, cat) && Abs(schema) == if load.Some? then After(old(Abs(schema)), load.value) else old(Abs(schema))
      ensures var p := NextPacket(old(Yield(stream.chunks)));
        && (read <==> p.Body?)
        && (read ==> Yield(stream.chunks) == AfterPacket(old(Yield(stream.chunks))) && LiesIn(p, window))
        && (read && ok && WellFormedReply(window) ==> exists len :: Describes(window, r, len))
        && (ok' <==> read && ok && !crashed && done && NoError(window))
        && (OrderlyPacket(p, space, index) ==> !crashed)
        && (read && ok && Good(cat) && old(Tidy(schema, cat)) ==>
              && (GoodReply(p.payload, auth) ==> ok' && Tidy(schema, cat) && Abs(schema) == old(Abs(schema)))
              && (SpaceAnswer(p.payload, space, cat) ==> ok' && Tidy(schema, cat) && HoldsSpaces(Abs(schema), cat))
              && (old(HoldsSpaces(Abs(schema), cat)) && IndexAnswer(p.payload, index, cat) ==>
                    ok' && Tidy(schema, cat) && HoldsSpaces(Abs(schema), cat) && HoldsIndexes(Abs(schema), cat)))
      ensures schema.Valid() && forall t :: t in schema.Tables() ==> t in old(schema.Tables()) || fresh(t)
    {
      hide NextPacket, AfterPacket, Yield, Good, AbsOf, TidyOf, Shelved, Owned, ViewsOf, HoldsSpaces, HoldsIndexes,
        NoError, SpaceAnswer, IndexAnswer, Orderly, GoodReply, LoadOf, Faithful, After, WellFormedReply, Describes;
      var p := ReadPacket(stream, value, 0);
      assert schema.Inner() == old(schema.Inner());
      read, ok', crashed := p.Body?, false, p.BadLength?;
      window, r, load, done := value.c[..], Response(0, 0, None, None), None, true;
      if read && ok {
        ReplyInWindow(p.payload, window, auth, space, index, cat);
        ok', crashed, r, load, done := TakeBatchReply(schema, value.c[..], auth, space, index, cat);
      }
    }

    /** Enters a load into the history. */
    ghost method Remember(tidy: bool, c: Cache, load: Option<Event>, before: seq<Event>) returns (loads: seq<Event>)
      requires Explains(past, cat, tidy, c) && schema.Valid()
      requires load.Some? ==> load.value.BulkSpaces? || load.value.BulkIndexes?
      requires Good(cat) && tidy && (load.Some? ==> Faithful(load.value, cat)) ==>
        Tidy(schema, cat) && Abs(schema) == if load.Some? then After(c, load.value) else c
      modifies this`past
      ensures Tracked() && schema.Valid()
      ensures Tidy(schema, cat) == old(Tidy(schema, cat)) && Abs(schema) == old(Abs(schema))
      ensures loads == before + (if load.Some? then [load.value] else []) && past == old(past) + loads[|before|..]
    {
      hide Explains, Abs, Tidy, SchemaCache.Valid, Good, Faithful, After;
      loads := before + (if load.Some? then [load.value] else []);
      ghost var tables := schema.Tables();
      match load
      case None =>
        ExplainsStill(past, cat, tidy, c, Tidy(schema, cat), Abs(schema));
        assert past + [] == past;
      case Some(e) =>
        ExplainsMore(past, e, cat, tidy, c, Tidy(schema, cat), Abs(schema));
        past := past + [e];
        assert schema.Tables() == tables;
    }

    /** The same turn, kept in the history of the cache. */
    method RememberedTurn(ok: bool, auth: U32, space: U32, index: U32, ghost before: seq<Event>)
      returns (read: bool, ok': bool, crashed: bool, ghost loads: seq<Event>)
      requires value.Valid() && stream != null && auth != space && auth != index && space != index
      requires schema.Valid() && Tracked()
      modifies this`past, stream`chunks, value`c, value.c, schema, schema.Tables()
      ensures value.Valid() && (value.c == old(value.c) || fresh(value.c))
      ensures before <= loads && past == old(past) + loads[|before|..]
      ensures var p := NextPacket(old(Yield(stream.chunks)));
        && (read <==> p.Body?)
        && (read ==> Yield(stream.chunks) == AfterPacket(old(Yield(stream.chunks))))
        && (ok' ==> read && ok && !crashed && Passes(p))
        && (OrderlyPacket(p, space, index) ==> !crashed)
        && (read && ok && Good(cat) && old(Tidy(schema, cat)) ==>
              && (GoodReply(p.payload, auth) ==> ok' && Tidy(schema, cat) && Abs(schema) == old(Abs(schema)))
              && (SpaceAnswer(p.payload, space, cat) ==> ok' && Tidy(schema, cat) && HoldsSpaces(Abs(schema), cat))
              && (old(HoldsSpaces(Abs(schema), cat)) && IndexAnswer(p.payload, index, cat) ==>
                    ok' && Tidy(schema, cat) && HoldsSpaces(Abs(schema), cat) && HoldsIndexes(Abs(schema), cat)))
      ensures forall t :: t in schema.Tables() ==> t in old(schema.Tables()) || fresh(t)
      ensures schema.Valid() && Tracked()
    {
      hide NextPacket, AfterPacket, Yield, Good, Abs, Tidy, HoldsSpaces, HoldsIndexes, GoodReply, SpaceAnswer,
        IndexAnswer, NoError, OrderlyPacket, SchemaCache.Valid, Explains, LoadOf, After, Faithful, WellFormedReply,
        Describes, LiesIn;
      ghost var tidy, c := Tidy(schema, cat), Abs(schema);
      ghost var window, r, load, done;
      read, ok', crashed, window, r, load, done := BatchTurn(ok, auth, space, index);
      loads := Remember(tidy, c, load, before);
    }

    /** Takes the three replies. */
    method Drain(auth: U32, space: U32, index: U32, ghost order: Order)
      returns (ok: bool, crashed: bool, ghost loads: seq<Event>)
      requires value.Valid() && stream != null && auth != space && auth != index && space != index
      requires schema.Valid() && Tidy(schema, cat) && Tracked()
      modifies this`past, stream`chunks, value`c, value.c, schema, schema.Tables()
      ensures value.Valid() && (value.c == old(value.c) || fresh(value.c))
      ensures past == old(past) + loads
      ensures var ps := Packets(old(Yield(stream.chunks)), 3).0;
        && |ps| == 3 && (!crashed && AllBodies(ps) ==> Yield(stream.chunks) == Packets(old(Yield(stream.chunks)), 3).1)
        && (AllOrderly(ps, space, index) ==> !crashed)
        && (ok ==> forall k :: 0 <= k < 3 ==> Passes(ps[k]))
        && (Good(cat) && BatchAnswered(ps, order, auth, space, index, cat) ==>
              ok && !crashed && Tidy(schema, cat) && HoldsSpaces(Abs(schema), cat) && HoldsIndexes(Abs(schema), cat))
      ensures forall t :: t in schema.Tables() ==> t in old(schema.Tables()) || fresh(t)
      ensures schema.Valid() && Tracked()
    {
      hide NextPacket, AfterPacket, Yield, Good, Abs, Tidy, HoldsSpaces, HoldsIndexes, GoodReply, SpaceAnswer,
        IndexAnswer, Packets, OrderlyPacket, SchemaCache.Valid, Explains, BatchAnswered, Passes, AllBodies, AllOrderly,
        SchemaCache.Tables, Tracked;
      ghost var ahead := Yield(stream.chunks);
      ghost var ps := Packets(ahead, 3).0;
      ok, crashed, loads := true, false, [];
      var n := 0;
      PacketsNone(ahead);
      PacketAt(ahead, 0, 3);
      if BatchAnswered(ps, order, auth, space, index, cat) {
        AnsweredIsOrderly(ps, order, auth, space, index, cat);
        BatchAt(ps, order, auth, space, index, cat, 0);
      }
      while n < 3
        invariant 0 <= n <= 3 && !crashed
        invariant value.Valid() && (value.c == old(value.c) || fresh(value.c))
        invariant past == old(past) + loads
        invariant forall t :: t in schema.Tables() ==> t in old(schema.Tables()) || fresh(t)
        invariant Yield(stream.chunks) == Packets(ahead, n).1
        invariant ok ==> forall k :: 0 <= k < n ==> Passes(ps[k])
        invariant Good(cat) && BatchAnswered(ps, order, auth, space, index, cat) ==>
          ok && Tidy(schema, cat) && (order.space < n ==> HoldsSpaces(Abs(schema), cat))
          && (order.index < n ==> HoldsIndexes(Abs(schema), cat))
        invariant schema.Valid() && Tracked()
      {
        PacketsMore(ahead, n);
        PacketAt(ahead, n, 3);
        EachPacket(ps, space, index, n);
        if BatchAnswered(ps, order, auth, space, index, cat) {
          BatchAt(ps, order, auth, space, index, cat, n);
        }
        var read;
        ghost var before := loads;
        read, ok, crashed, loads := RememberedTurn(ok, auth, space, index, before);
        assert (old(past) + before) + loads[|before|..] == old(past) + loads;
        if !read || crashed {
          return false, crashed, loads;
        }
        n := n + 1;
      }
    }

    /**
     Authenticates and loads the whole schema: three requests in one write, then three replies in whatever order.
     On every path without a failed send or a short read exactly three packets are taken off the stream. When all
     three replies are good and the spaces come before the indexes, the cache holds the full catalogue, wherever the
     authentication reply falls. In the history of the cache it is a flush and the loads that came with the replies.
     */
    method Authenticate(request: Bytes, net: Net, ghost order: Order)
      returns (ok: bool, crashed: bool, ghost loads: seq<Event>)
      requires Valid() && stream != null
      requires schema.Valid() && Tracked()
      modifies this`past, stream, value, value.c, counter, schema, schema.Tables()
      ensures Valid() && (value.c == old(value.c) || fresh(value.c))
      ensures counter.next == old(counter.next) + 3
      ensures past == old(past) + [FlushAll] + loads
      ensures !net.Takes(|request|) ==> !ok && !crashed && schema.nodes == map[]
      ensures net.Takes(|request|) ==> value.Contents() == [] && stream.out == old(stream.out) + request
      ensures net.Takes(|request|) && !crashed && AllBodies(Packets(old(Yield(stream.chunks)), 3).0) ==>
        Yield(stream.chunks) == Packets(old(Yield(stream.chunks)), 3).1
      ensures var n, ps := old(counter.next), Packets(old(Yield(stream.chunks)), 3).0;
        && |ps| == 3
        && (AllOrderly(ps, (n + 1) % TWO_32, (n + 2) % TWO_32) ==> !crashed)
        && (ok ==> net.Takes(|request|) && forall k :: 0 <= k < 3 ==> Passes(ps[k]))
        && (net.Takes(|request|) && Good(cat)
            && BatchAnswered(ps, order, n % TWO_32, (n + 1) % TWO_32, (n + 2) % TWO_32, cat) ==>
              ok && !crashed && Tidy(schema, cat) && HoldsSpaces(Abs(schema), cat) && HoldsIndexes(Abs(schema), cat))
      ensures forall t :: t in schema.Tables() ==> fresh(t)
      ensures schema.Valid() && Tracked()
    {
      hide NextPacket, AfterPacket, Yield, Good, Abs, Tidy, HoldsSpaces, HoldsIndexes, BatchAnswered, AllOrderly,
        AllBodies, History, Packets, SchemaCache.Valid, Explains, Passes;
      loads := [];
      PacketAt(Yield(stream.chunks), 0, 3);
      FlushSchema();
      var auth := counter.Take();
      var space := counter.Take();
      var index := counter.Take();
      HistoryLater(log, old(counter.next), counter.next);
      ok, crashed := false, false;
      var sent := SendRequest(request, net);
      assert schema.Tables() == {};
      if !sent {
        return;
      }
      ok, crashed, loads := Drain(auth % TWO_32, space % TWO_32, index % TWO_32, order);
    }
  }
}
