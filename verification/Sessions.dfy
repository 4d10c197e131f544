/** Whole commands: the lookups of the names they carry and the exchange that follows; and runs of commands. */
module Sessions {
  import opened ByteStrings
  import opened PhpValues
  import opened ZendHeap
  import opened HeapPaths
  import opened Proto
  import opened Actions
  import opened Responses
  import opened Network
  import opened Receive
  import opened PairTables
  import opened Schema
  import opened Catalogue
  import opened Coherence
  import opened SchemaReplies
  import opened Exchanges
  import opened Connections

  /** An argument that names a space or an index, with the request that looks the name up on the server. */
  datatype Name = Name(arg: PVal, request: Bytes)

  /**
   A command; `refused` tells that what is checked between the lookups and the request is bad: the name of an
   iterator, or a list of update operations.
   */
  datatype Command = Command(space: Option<Name>, index: Option<Name>, refused: bool, action: Action)

  /** What a packet is taken for: a lookup, the request of a command, or the batch of an authentication. */
  datatype Use = ForSpace(request: Bytes) | ForIndex(request: Bytes) | ForAction | ForBatch(space: U32, index: U32)

  /** How the writes of a command go. */
  datatype Nets = Nets(space: Net, index: Net, action: Net) {
    predicate Carry(u: Use) {
      match u
      case ForSpace(request) => space.Takes(|request|)
      case ForIndex(request) => index.Takes(|request|)
      case _ => true
    }
  }

  const ALL_THROUGH := Nets(Through, Through, Through)

  /** A connection seen from the wire: the bytes to come, the bytes written, and the bytes held in the buffer. */
  datatype Line = Line(ahead: Bytes, out: Bytes, held: Bytes)

  ghost function LineOf(conn: Connection): Line
    requires conn.stream != null && conn.value.Valid()
    reads conn`stream, conn.stream, conn.value, conn.value.c
  {
    Line(Yield(conn.stream.chunks), conn.stream.out, conn.value.Contents())
  }

  // ---- lookups on the wire ----

  function RequestBytes(u: Use): Bytes {
    match u
    case ForSpace(request) => request
    case ForIndex(request) => request
    case _ => []
  }

  function Sent(used: seq<Use>): Bytes {
    if used == [] then [] else RequestBytes(used[0]) + Sent(used[1..])
  }

  /** The line after lookups: one packet and one request each, and an empty buffer after the first of them. */
  function Past(l: Line, used: seq<Use>): Line {
    Line(Packets(l.ahead, |used|).1, l.out + Sent(used), if used == [] then l.held else [])
  }

  ghost predicate AllCarried(nets: Nets, used: seq<Use>) {
    forall k :: 0 <= k < |used| ==> nets.Carry(used[k])
  }

  /** Every request goes out and every reply is a packet. */
  ghost predicate Goes(nets: Nets, ahead: Bytes, used: seq<Use>) {
    AllBodies(Packets(ahead, |used|).0) && AllCarried(nets, used)
  }

  /** The packet does not lead a load out of defined behaviour. */
  ghost predicate Tame(p: Packet, u: Use) {
    match u
    case ForSpace(_) => TameSpaces(p)
    case ForIndex(_) => TameIndexes(p)
    case ForAction => true
    case ForBatch(space, index) => OrderlyPacket(p, space, index)
  }

  ghost predicate AllTame(ps: seq<Packet>, used: seq<Use>) {
    |ps| == |used| && forall k :: 0 <= k < |ps| ==> Tame(ps[k], used[k])
  }

  lemma {:induction false} SentMore(a: seq<Use>, b: seq<Use>)
    ensures Sent(a + b) == Sent(a) + Sent(b)
  {
    if a == [] {
      assert a + b == b;
    } else {
      assert (a + b)[1..] == a[1..] + b;
      SentMore(a[1..], b);
    }
  }

  lemma PastNone(l: Line)
    ensures Past(l, []) == l
  {
    PacketsNone(l.ahead);
  }

  /** Lookups one after another. */
  lemma PastMore(l: Line, a: seq<Use>, b: seq<Use>)
    ensures Past(Past(l, a), b) == Past(l, a + b)
  {
    hide Packets, Sent;
    SentMore(a, b);
    PacketsSplit(l.ahead, |a|, |b|);
    assert (l.out + Sent(a)) + Sent(b) == l.out + (Sent(a) + Sent(b));
  }

  lemma BodiesMore(p: seq<Packet>, q: seq<Packet>)
    ensures AllBodies(p + q) <==> AllBodies(p) && AllBodies(q)
  {
    assert forall k :: 0 <= k < |p| ==> (p + q)[k] == p[k];
    assert forall k :: 0 <= k < |q| ==> (p + q)[|p| + k] == q[k];
  }

  lemma CarriedMore(nets: Nets, a: seq<Use>, b: seq<Use>)
    ensures AllCarried(nets, a + b) <==> AllCarried(nets, a) && AllCarried(nets, b)
  {
    hide Nets.Carry;
    assert forall k :: 0 <= k < |a| ==> (a + b)[k] == a[k];
    assert forall k :: 0 <= k < |b| ==> (a + b)[|a| + k] == b[k];
  }

  lemma GoesMore(nets: Nets, ahead: Bytes, a: seq<Use>, b: seq<Use>)
    ensures Goes(nets, ahead, a + b) <==> Goes(nets, ahead, a) && Goes(nets, Packets(ahead, |a|).1, b)
  {
    hide Packets, AllBodies, AllCarried;
    PacketsSplit(ahead, |a|, |b|);
    BodiesMore(Packets(ahead, |a|).0, Packets(Packets(ahead, |a|).1, |b|).0);
    CarriedMore(nets, a, b);
  }

  lemma TameSplit(p: seq<Packet>, q: seq<Packet>, a: seq<Use>, b: seq<Use>)
    requires |p| == |a| && |q| == |b| && AllTame(p + q, a + b)
    ensures AllTame(p, a) && AllTame(q, b)
  {
    hide Tame;
    assert forall k :: 0 <= k < |p| ==> (p + q)[k] == p[k] && (a + b)[k] == a[k];
    assert forall k :: 0 <= k < |q| ==> (p + q)[|p| + k] == q[k] && (a + b)[|a| + k] == b[k];
  }

  lemma TameMore(ahead: Bytes, a: seq<Use>, b: seq<Use>)
    requires AllTame(Packets(ahead, |a + b|).0, a + b)
    ensures AllTame(Packets(ahead, |a|).0, a) && AllTame(Packets(Packets(ahead, |a|).1, |b|).0, b)
  {
    hide Packets, AllTame;
    PacketsSplit(ahead, |a|, |b|);
    PacketsCount(ahead, |a|);
    PacketsCount(Packets(ahead, |a|).1, |b|);
    TameSplit(Packets(ahead, |a|).0, Packets(Packets(ahead, |a|).1, |b|).0, a, b);
  }

  // ---- names ----

  /** What an argument for a space may resolve to: for a name, -1 or exactly the catalogue's number. */
  ghost predicate SpaceNumber(name: Name, no: int, cat: Catalog) {
    match name.arg
    case PLong(n) => no == ToInt32(n % TWO_32)
    case PStr(s) => ImageOf(cat.spaces, s) || Right(no, cat.spaces, s)
    case _ => no == -1
  }

  ghost predicate IndexNumber(name: Name, space: U32, no: int, cat: Catalog) {
    match name.arg
    case PNull => no == 0
    case PLong(n) => no == ToInt32(n % TWO_32)
    case PStr(s) => ImageOf(IndexesOf(cat, space), s) || Right(no, IndexesOf(cat, space), s)
    case _ => no == -1
  }

  /** One lookup: an exchange that went out and got a packet leaves the line behind both. */
  lemma OneLookup(conn: Connection, start: Line, net: Net, nets: Nets, u: Use, reply: Option<Response>)
    requires conn.stream != null && conn.value.Valid()
    requires (u.ForSpace? && net == nets.space) || (u.ForIndex? && net == nets.index)
    requires conn.Asked(u.request, net, start.ahead, reply)
    requires net.Takes(|u.request|) ==> conn.stream.out == start.out + u.request
    ensures net.Takes(|u.request|) && NextPacket(start.ahead).Body? ==> LineOf(conn) == Past(start, [u])
    ensures Goes(nets, start.ahead, [u]) <==> net.Takes(|u.request|) && NextPacket(start.ahead).Body?
    ensures Packets(start.ahead, 1).0 == [NextPacket(start.ahead)]
  {
    hide WellFormedReply, Describes, NextPacket, AfterPacket, Yield, Packets, Replied;
    OnePacket(start.ahead);
    assert [u][1..] == [];
    assert RequestBytes(u) + Sent([]) == u.request;
    assert [u][0] == u && [NextPacket(start.ahead)][0] == NextPacket(start.ahead);
  }

  /** A load that went through came with a reply. */
  lemma LoadCame(conn: Connection, request: Bytes, net: Net, ahead: Bytes, reply: Option<Response>, e: Event)
    requires conn.stream != null && conn.value.Valid() && conn.Asked(request, net, ahead, reply)
    requires e.AskSpace? && SpacesFrom(reply, e.spaces, e.complete) && e.complete
    ensures net.Takes(|request|) && NextPacket(ahead).Body?
  {
    hide SpacesRead, NextPacket, AfterPacket, WellFormedReply, Describes;
  }

  lemma IndexLoadCame(conn: Connection, request: Bytes, net: Net, ahead: Bytes, reply: Option<Response>, e: Event)
    requires conn.stream != null && conn.value.Valid() && conn.Asked(request, net, ahead, reply)
    requires e.AskIndex? && IndexesFrom(reply, e.indexes, e.complete, conn.schema.nodes.Keys) && e.complete
    ensures net.Takes(|request|) && NextPacket(ahead).Body?
  {
    hide IndexesRead, NextPacket, AfterPacket, WellFormedReply, Describes;
  }

  /**
   Resolves the space of a command. Behind the packet, if one was taken, the stream is at the next and the buffer is
   empty, whether or not the name was found.
   */
  method SpaceFor(conn: Connection, name: Name, nets: Nets) returns (no: int, crashed: bool, ghost used: seq<Use>)
    requires conn.Valid() && conn.stream != null
    requires conn.schema.Valid() && conn.Tracked()
    modifies conn`past, conn.stream, conn.value, conn.value.c, conn.counter, conn.schema
    ensures conn.Valid() && (conn.value.c == old(conn.value.c) || fresh(conn.value.c))
    ensures used == if name.arg.PStr? && old(conn.schema.Sid(name.arg.s)) == -1 then [ForSpace(name.request)] else []
    ensures conn.counter.next == old(conn.counter.next) + |used| && old(conn.past) <= conn.past
    ensures name.arg.PStr? && used == [] ==> no == old(conn.schema.Sid(name.arg.s))
    ensures no != -1 || Goes(nets, old(LineOf(conn)).ahead, used) ==> LineOf(conn) == Past(old(LineOf(conn)), used)
    ensures crashed ==> no == -1 && !AllTame(Packets(old(LineOf(conn)).ahead, |used|).0, used)
    ensures forall t :: t in conn.schema.Tables() ==> t in old(conn.schema.Tables()) || fresh(t)
    ensures InStep(conn.past, conn.cat) ==> SpaceNumber(name, no, conn.cat)
    ensures conn.schema.Valid() && conn.Tracked()
  {
    hide Yield, History, InStep, Abs, Tidy, SpacesFrom, Packets, Reply, Run, NextPacket, AfterPacket,
      TameSpaces, ImageOf, Right, Explains, SchemaCache.Valid, Connection.Asked, Sent, SchemaCache.Sid;
    ghost var start, before := LineOf(conn), conn.past;
    used := if name.arg.PStr? && conn.schema.Sid(name.arg.s) == -1 then [ForSpace(name.request)] else [];
    ghost var e, reply;
    no, crashed, e, reply := conn.GetSpaceNo(name.arg, name.request, nets.space);
    PastNone(start);
    if used != [] {
      OneLookup(conn, start, nets.space, nets, used[0], reply);
      if no != -1 {
        LoadCame(conn, name.request, nets.space, start.ahead, reply, e);
      }
    }
    if name.arg.PStr? && InStep(conn.past, conn.cat) && !ImageOf(conn.cat.spaces, name.arg.s) {
      ResolvedIsRight(before, e, conn.cat);
    }
  }

  /** Resolves the index of a command; the same holds of the stream and the buffer. */
  method IndexFor(conn: Connection, space: U32, name: Name, nets: Nets)
    returns (no: int, crashed: bool, ghost used: seq<Use>)
    requires conn.Valid() && conn.stream != null
    requires conn.schema.Valid() && conn.Tracked()
    modifies conn`past, conn.stream, conn.value, conn.value.c, conn.counter, conn.schema.Tables()
    ensures conn.Valid() && (conn.value.c == old(conn.value.c) || fresh(conn.value.c))
    ensures used
      == if name.arg.PStr? && old(conn.schema.Iid(space, name.arg.s)) == -1 then [ForIndex(name.request)] else []
    ensures conn.counter.next == old(conn.counter.next) + |used| && old(conn.past) <= conn.past
    ensures name.arg.PStr? && used == [] ==> no == old(conn.schema.Iid(space, name.arg.s))
    ensures no != -1 || Goes(nets, old(LineOf(conn)).ahead, used) ==> LineOf(conn) == Past(old(LineOf(conn)), used)
    ensures crashed ==> no == -1 && !AllTame(Packets(old(LineOf(conn)).ahead, |used|).0, used)
    ensures conn.schema.nodes == old(conn.schema.nodes)
    ensures InStep(conn.past, conn.cat) ==> IndexNumber(name, space, no, conn.cat)
    ensures conn.schema.Valid() && conn.Tracked()
  {
    hide Yield, History, InStep, Abs, Tidy, IndexesFrom, IndexesOf, NumberKey, Packets, Reply, Run, NextPacket,
      AfterPacket, TameIndexes, ImageOf, Right, Explains, SchemaCache.Valid, Connection.Asked, Sent, SchemaCache.Iid;
    ghost var start, before := LineOf(conn), conn.past;
    used := if name.arg.PStr? && conn.schema.Iid(space, name.arg.s) == -1 then [ForIndex(name.request)] else [];
    ghost var e, reply;
    no, crashed, e, reply := conn.GetIndexNo(space, name.arg, name.request, nets.index);
    PastNone(start);
    if used != [] {
      OneLookup(conn, start, nets.index, nets, used[0], reply);
      if no != -1 {
        IndexLoadCame(conn, name.request, nets.index, start.ahead, reply, e);
      }
    }
    if name.arg.PStr? && InStep(conn.past, conn.cat) && !ImageOf(IndexesOf(conn.cat, space), name.arg.s) {
      ResolvedIsRight(before, e, conn.cat);
    }
  }

  /** The numbers of a command are those its arguments may resolve to, and none of them is -1. */
  ghost predicate NumbersRight(cmd: Command, space: int, index: int, cat: Catalog) {
    && (cmd.space.Some? ==> space != -1 && SpaceNumber(cmd.space.value, space, cat))
    && (cmd.space.Some? && cmd.index.Some? ==>
          index != -1 && IndexNumber(cmd.index.value, space % TWO_32, index, cat))
    && (cmd.space.None? || cmd.index.None? ==> index == 0)
  }

  lemma PastAhead(l: Line, used: seq<Use>)
    ensures Past(l, used).ahead == Packets(l.ahead, |used|).1
  {
  }

  /** The lookups of a command: at most two; the numbers found are the catalogue's. */
  method NumbersFor(conn: Connection, cmd: Command, nets: Nets)
    returns (found: bool, space: int, index: int, crashed: bool, ghost used: seq<Use>)
    requires conn.Valid() && conn.stream != null
    requires conn.schema.Valid() && conn.Tracked()
    modifies conn`past, conn.stream, conn.value, conn.value.c, conn.counter, conn.schema, conn.schema.Tables()
    ensures conn.Valid() && (conn.value.c == old(conn.value.c) || fresh(conn.value.c))
    ensures |used| <= 2 && conn.counter.next == old(conn.counter.next) + |used| && old(conn.past) <= conn.past
    ensures found <==> space != -1 && index != -1
    ensures found || Goes(nets, old(LineOf(conn)).ahead, used) ==> LineOf(conn) == Past(old(LineOf(conn)), used)
    ensures crashed ==> !found && !AllTame(Packets(old(LineOf(conn)).ahead, |used|).0, used)
    ensures forall t :: t in conn.schema.Tables() ==> t in old(conn.schema.Tables()) || fresh(t)
    ensures found && InStep(conn.past, conn.cat) ==> NumbersRight(cmd, space, index, conn.cat)
    ensures conn.schema.Valid() && conn.Tracked()
  {
    hide History, InStep, Abs, Tidy, Packets, Explains, SchemaCache.Valid, SpaceNumber, IndexNumber, LineOf, Past, Goes,
      AllTame;
    ghost var start := LineOf(conn);
    found, space, index, crashed, used := true, 0, 0, false, [];
    PastNone(start);
    if cmd.space.None? {
      return;
    }
    space, crashed, used := SpaceFor(conn, cmd.space.value, nets);
    found := space != -1;
    if !found || cmd.index.None? {
      return;
    }
    ghost var mid, asked, more := LineOf(conn), conn.past, [];
    index, crashed, more := IndexFor(conn, space % TWO_32, cmd.index.value, nets);
    found := index != -1;
    PastMore(start, used, more);
    GoesMore(nets, start.ahead, used, more);
    if AllTame(Packets(start.ahead, |used + more|).0, used + more) {
      TameMore(start.ahead, used, more);
    }
    assert mid.ahead == Packets(start.ahead, |used|).1 by { PastAhead(start, used); }
    used := used + more;
    if InStep(conn.past, conn.cat) {
      assert conn.past == asked + conn.past[|asked|..];
      InStepPrefix(asked, conn.past[|asked|..], conn.cat);
    }
  }

  /** A space name that resolved goes into the request as exactly the catalogue's number. */
  lemma SpaceOnWire(name: Name, no: int, cat: Catalog)
    requires name.arg.PStr? && !ImageOf(cat.spaces, name.arg.s) && no != -1 && SpaceNumber(name, no, cat)
    ensures name.arg.s in cat.spaces && no % TWO_32 == cat.spaces[name.arg.s]
  {
    hide ImageOf;
  }

  // ---- commands ----

  /** What goes out for a command with the given numbers, behind what the buffer still held. */
  ghost function Written(l: Line, cmd: Command, space: int, index: int, sync: nat, g: Graph, c: Counts): Bytes
    requires Closed(g) && c.Keys == g.Keys && CarriesAction(g, cmd.action)
  {
    l.held + Frame(RequestOf(cmd.action, space % TWO_32, index % TWO_32, g, c), sync % TWO_32)
  }

  /**
   Performs a command: its lookups, and then one exchange, unless a lookup fails or an argument is refused. Behind
   the packets taken the stream is at the next one and the buffer is empty, however the command ends.
   */
  method Perform(conn: Connection, cmd: Command, nets: Nets, junk: Junk, ghost g: Graph, ghost c: Counts)
    returns (v: Option<Verdict>, crashed: bool, tried: bool, space: int, index: int, ghost asked: seq<Use>,
      ghost window: Bytes)
    requires conn.Valid() && conn.stream != null
    requires Matches(g, c) && SaneHeap(g) && CarriesAction(g, cmd.action)
    requires conn.schema.Valid() && conn.Tracked()
    modifies conn`stream, conn`log, conn`past, conn.stream, conn.value, conn.value.c, conn.counter, conn.schema,
      conn.schema.Tables(), g.Keys`applyCount
    ensures conn.Valid() && (conn.value.c == old(conn.value.c) || fresh(conn.value.c)) && Matches(g, c)
    ensures conn.counter.next == old(conn.counter.next) + |asked| + if tried then 1 else 0
    ensures |asked| <= 2 && old(conn.past) <= conn.past
    ensures tried <==> space != -1 && index != -1 && !cmd.refused
    ensures (v.Some? ==> tried) && (tried && nets.action.Through? ==> v.Some?)
    ensures crashed ==> !tried && !AllTame(Packets(old(LineOf(conn)).ahead, |asked|).0, asked)
    ensures v.None? ==> conn.log == old(conn.log)
    ensures conn.stream == if v.Some? && v.value.RefuseAndClose? then null else old(conn.stream)
    ensures !tried && Goes(nets, old(LineOf(conn)).ahead, asked) ==> LineOf(conn) == Past(old(LineOf(conn)), asked)
    ensures tried && v.None? ==>
      var mid, sync := Past(old(LineOf(conn)), asked), old(conn.counter.next) + |asked|;
      && LineOf(conn).ahead == mid.ahead && LineOf(conn).held == Written(mid, cmd, space, index, sync, g, c)
    ensures v.Some? ==>
      var mid, sync := Past(old(LineOf(conn)), asked), old(conn.counter.next) + |asked|;
      var p := NextPacket(mid.ahead);
      && conn.log == old(conn.log) + [Exchange(sync, v.value)]
      && old(conn.stream).out == mid.out + Written(mid, cmd, space, index, sync, g, c)
      && JudgedAtStart(p, window, sync, junk, v.value)
      && (p.Body? && Answers(p.payload, sync) ==>
            && v.value == JudgeReply(p.payload, sync, junk) && Reports(p.payload, v.value)
            && conn.stream == old(conn.stream)
            && conn.Behind(old(conn.stream), old(LineOf(conn)).ahead, |asked| + 1))
    ensures tried && InStep(conn.past, conn.cat) ==> NumbersRight(cmd, space, index, conn.cat)
    ensures forall t :: t in conn.schema.Tables() ==> t in old(conn.schema.Tables()) || fresh(t)
    ensures conn.schema.Valid() && conn.Tracked()
  {
    hide History, InStep, Packets, Explains, SchemaCache.Valid, Goes, AllTame, SaneHeap, CarriesAction, RequestOf,
      Frame, NextPacket, JudgedAtStart, JudgeReply, Answers, Reports, NumbersRight, Yield, Sent, Abs, Tidy;
    ghost var start := LineOf(conn);
    v, tried, window := None, false, [];
    var found;
    found, space, index, crashed, asked := NumbersFor(conn, cmd, nets);
    if !found || cmd.refused {
      return;
    }
    tried := true;
    PacketsSplit(start.ahead, |asked|, 1);
    v, window := conn.Submit(cmd.action, space % TWO_32, index % TWO_32, nets.action, junk, g, c);
  }

  // ---- runs ----

  /** A command, or one of the two operations on the whole schema. */
  datatype Step = Do(command: Command, junk: Junk) | Flush | Login(request: Bytes)

  ghost predicate CarriesStep(g: Graph, step: Step) {
    step.Do? ==> CarriesAction(g, step.command.action)
  }

  /** The server answers requests in order: the packets bear the syncs from `first` on. */
  ghost predicate Served(ps: seq<Packet>, first: nat) {
    forall k :: 0 <= k < |ps| ==> ps[k].Body? && Answers(ps[k].payload, first + k)
  }

  lemma ServedAreBodies(ps: seq<Packet>, first: nat)
    requires Served(ps, first)
    ensures AllBodies(ps)
  {
    hide Answers;
  }

  /** What holds when all packets of a command but the last are taken for lookups. */
  lemma ServedLast(ahead: Bytes, asked: seq<Use>, u: Use, first: nat)
    requires var ps := Packets(ahead, |asked + [u]|).0; Served(ps, first)
    ensures Goes(ALL_THROUGH, ahead, asked)
    ensures var p := NextPacket(Packets(ahead, |asked|).1); p.Body? && Answers(p.payload, first + |asked|)
  {
    hide NextPacket, AfterPacket, Answers, Packets;
    PacketsMore(ahead, |asked|);
    var ps, qs := Packets(ahead, |asked + [u]|).0, Packets(ahead, |asked|).0;
    assert ps == qs + [NextPacket(Packets(ahead, |asked|).1)];
    assert forall k :: 0 <= k < |qs| ==> qs[k] == ps[k];
    assert ps[|asked|] == NextPacket(Packets(ahead, |asked|).1);
  }

  lemma ServedGoes(ahead: Bytes, used: seq<Use>, first: nat)
    requires Served(Packets(ahead, |used|).0, first)
    ensures Goes(ALL_THROUGH, ahead, used)
  {
    hide Answers, Packets;
  }

  lemma TameBatch(ps: seq<Packet>, u: Use)
    requires u.ForBatch? && AllTame(ps, [u, u, u])
    ensures AllOrderly(ps, u.space, u.index)
  {
    hide OrderlyPacket;
    assert forall k :: 0 <= k < 3 ==> [u, u, u][k] == u;
  }

  /** The line is behind the packets used, and the buffer is empty if there were any. */
  ghost predicate AtPacket(after: Line, before: Line, used: seq<Use>) {
    after.ahead == Packets(before.ahead, |used|).1 && after.held == if used == [] then before.held else []
  }

  /** A command on a connection whose writes all go through. */
  method Obey(conn: Connection, command: Command, junk: Junk, ghost g: Graph, ghost c: Counts)
    returns (crashed: bool, ghost used: seq<Use>)
    requires conn.Valid() && conn.stream != null
    requires Matches(g, c) && SaneHeap(g) && CarriesAction(g, command.action)
    requires conn.schema.Valid() && conn.Tracked()
    modifies conn`stream, conn`log, conn`past, conn.stream, conn.value, conn.value.c, conn.counter, conn.schema,
      conn.schema.Tables(), g.Keys`applyCount
    ensures conn.Valid() && (conn.value.c == old(conn.value.c) || fresh(conn.value.c)) && Matches(g, c)
    ensures conn.counter.next == old(conn.counter.next) + |used|
    ensures conn.stream == old(conn.stream) || conn.stream == null
    ensures var ps := Packets(old(LineOf(conn)).ahead, |used|).0;
      && (AllTame(ps, used) ==> !crashed)
      && (!crashed && Served(ps, old(conn.counter.next)) ==>
            conn.stream == old(conn.stream) && AtPacket(LineOf(conn), old(LineOf(conn)), used))
    ensures forall t :: t in conn.schema.Tables() ==> t in old(conn.schema.Tables()) || fresh(t)
    ensures conn.schema.Valid() && conn.Tracked()
  {
    hide History, Packets, Explains, SchemaCache.Valid, AllTame, SaneHeap, CarriesAction, NextPacket, JudgedAtStart,
      JudgeReply, Answers, Reports, NumbersRight, Yield, Abs, Tidy, Served, Goes, Sent, InStep, Written;
    ghost var start, first := LineOf(conn), conn.counter.next;
    var v, tried, space, index;
    ghost var window;
    v, crashed, tried, space, index, used, window := Perform(conn, command, ALL_THROUGH, junk, g, c);
    if tried {
      if Served(Packets(start.ahead, |used + [ForAction]|).0, first) {
        ServedLast(start.ahead, used, ForAction, first);
      }
      used := used + [ForAction];
    } else if Served(Packets(start.ahead, |used|).0, first) {
      ServedGoes(start.ahead, used, first);
    }
  }

  /** One step on a connection whose writes all go through. */
  method Take(conn: Connection, step: Step, ghost g: Graph, ghost c: Counts)
    returns (crashed: bool, ghost used: seq<Use>)
    requires conn.Valid() && conn.stream != null
    requires Matches(g, c) && SaneHeap(g) && CarriesStep(g, step)
    requires conn.schema.Valid() && conn.Tracked()
    modifies conn`stream, conn`log, conn`past, conn.stream, conn.value, conn.value.c, conn.counter, conn.schema,
      conn.schema.Tables(), g.Keys`applyCount
    ensures conn.Valid() && (conn.value.c == old(conn.value.c) || fresh(conn.value.c)) && Matches(g, c)
    ensures conn.counter.next == old(conn.counter.next) + |used|
    ensures conn.stream == old(conn.stream) || conn.stream == null
    ensures var ps := Packets(old(LineOf(conn)).ahead, |used|).0;
      && (AllTame(ps, used) ==> !crashed)
      && (!crashed && Served(ps, old(conn.counter.next)) ==>
            conn.stream == old(conn.stream) && AtPacket(LineOf(conn), old(LineOf(conn)), used))
    ensures forall t :: t in conn.schema.Tables() ==> t in old(conn.schema.Tables()) || fresh(t)
    ensures conn.schema.Valid() && conn.Tracked()
  {
    hide History, Packets, Explains, SchemaCache.Valid, AllTame, SaneHeap, CarriesAction, NextPacket, Passes, Yield,
      Abs, Tidy, Served, InStep, BatchAnswered, Good, HoldsSpaces, HoldsIndexes, AllOrderly, AllBodies;
    ghost var start, first := LineOf(conn), conn.counter.next;
    crashed, used := false, [];
    match step
    case Flush =>
      PacketsNone(start.ahead);
      conn.FlushSchema();
    case Do(command, junk) =>
      crashed, used := Obey(conn, command, junk, g, c);
    case Login(request) =>
      var ok;
      ghost var loads;
      ok, crashed, loads := conn.Authenticate(request, Through, Order(0, 1, 2));
      var u := ForBatch((first + 1) % TWO_32, (first + 2) % TWO_32);
      used := [u, u, u];
      if AllTame(Packets(start.ahead, 3).0, used) {
        TameBatch(Packets(start.ahead, 3).0, u);
      }
      if Served(Packets(start.ahead, 3).0, first) {
        ServedAreBodies(Packets(start.ahead, 3).0, first);
      }
  }

  // ---- against a stream of framed answers ----

  /** The first `n` packets are short enough to be received and answer, in order, the requests from `first` on. */
  ghost predicate Answered(payloads: seq<Bytes>, n: nat, first: nat)
    requires n <= |payloads|
  {
    forall k :: 0 <= k < n ==> |payloads[k]| < TWO_31 && Answers(payloads[k], first + k)
  }

  ghost predicate TamePayloads(payloads: seq<Bytes>, used: seq<Use>)
    requires |used| <= |payloads|
  {
    forall k :: 0 <= k < |used| ==> Tame(Received(payloads[k]), used[k])
  }

  /** The stream is to yield these payloads in their frames and then the tail; the buffer is empty. */
  ghost predicate Faces(l: Line, payloads: seq<Bytes>, tail: Bytes) {
    Framed(payloads) && l.ahead == Frames(payloads) + tail && l.held == []
  }

  /** Packets taken off a stream of frames are the first of its payloads. */
  lemma StepOnFrames(payloads: seq<Bytes>, tail: Bytes, used: seq<Use>, first: nat)
    requires Framed(payloads) && |used| <= |payloads|
    ensures var (ps, rest) := Packets(Frames(payloads) + tail, |used|);
      && rest == Frames(payloads[|used|..]) + tail
      && (Answered(payloads, |used|, first) ==> Served(ps, first))
      && (TamePayloads(payloads, used) ==> AllTame(ps, used))
  {
    hide Packets, Answers, Tame, Frames;
    BoundaryAfter(payloads, tail, |used|);
  }

  lemma AnsweredJoin(payloads: seq<Bytes>, m: nat, n: nat, first: nat)
    requires m + n <= |payloads| && Answered(payloads, m + n, first)
    ensures Answered(payloads, m, first) && Answered(payloads[m..], n, first + m)
  {
    hide Answers;
    forall k | 0 <= k < n ensures |payloads[m..][k]| < TWO_31 && Answers(payloads[m..][k], first + m + k) {
      assert payloads[m..][k] == payloads[m + k] && first + m + k == first + (m + k);
    }
  }

  lemma TameJoin(payloads: seq<Bytes>, a: seq<Use>, b: seq<Use>)
    requires |a + b| <= |payloads| && TamePayloads(payloads, a + b)
    ensures TamePayloads(payloads, a) && TamePayloads(payloads[|a|..], b)
  {
    hide Tame, Received;
    forall k | 0 <= k < |a| ensures Tame(Received(payloads[k]), a[k]) {
      assert (a + b)[k] == a[k];
    }
    forall k | 0 <= k < |b| ensures Tame(Received(payloads[|a|..][k]), b[k]) {
      assert (a + b)[|a| + k] == b[k] && payloads[|a|..][k] == payloads[|a| + k];
    }
  }

  /** Two runs one after the other. */
  lemma RunsJoin(payloads: seq<Bytes>, a: seq<Use>, b: seq<Use>, first: nat)
    requires |a + b| <= |payloads|
    ensures Answered(payloads, |a + b|, first) ==>
      Answered(payloads, |a|, first) && Answered(payloads[|a|..], |b|, first + |a|)
    ensures TamePayloads(payloads, a + b) ==> TamePayloads(payloads, a) && TamePayloads(payloads[|a|..], b)
    ensures payloads[|a|..][|b|..] == payloads[|a + b|..]
  {
    hide Answered, TamePayloads;
    if Answered(payloads, |a + b|, first) {
      AnsweredJoin(payloads, |a|, |b|, first);
    }
    if TamePayloads(payloads, a + b) {
      TameJoin(payloads, a, b);
    }
  }

  /**
   A run of commands whose writes all go through, against a server that answers every request in order: its answers
   stand on the stream as a list of frames. However the commands end, with a query error, a name that is not found or
   a body that cannot be unpacked: after the run the stream is at a packet boundary and the buffer is empty. The run
   stops early only when a load leaves defined behaviour, and tuples of the right kind never make a load do that.
   */
  method Session(conn: Connection, steps: seq<Step>, ghost payloads: seq<Bytes>, ghost tail: Bytes, ghost g: Graph,
      ghost c: Counts)
    returns (crashed: bool, ghost used: seq<Use>)
    requires conn.Valid() && conn.stream != null
    requires Matches(g, c) && SaneHeap(g) && forall i :: 0 <= i < |steps| ==> CarriesStep(g, steps[i])
    requires conn.schema.Valid() && conn.Tracked()
    modifies conn`stream, conn`log, conn`past, conn.stream, conn.value, conn.value.c, conn.counter, conn.schema,
      conn.schema.Tables(), g.Keys`applyCount
    ensures conn.Valid() && (conn.value.c == old(conn.value.c) || fresh(conn.value.c)) && Matches(g, c)
    ensures
      && Faces(old(LineOf(conn)), payloads, tail)
      && |used| <= |payloads| && Answered(payloads, |used|, old(conn.counter.next)) ==>
      && (TamePayloads(payloads, used) ==> !crashed)
      && (!crashed ==>
            && conn.stream == old(conn.stream) && conn.counter.next == old(conn.counter.next) + |used|
            && Faces(LineOf(conn), payloads[|used|..], tail))
    ensures forall t :: t in conn.schema.Tables() ==> t in old(conn.schema.Tables()) || fresh(t)
    ensures conn.schema.Valid() && conn.Tracked()
    decreases |steps|
  {
    hide History, Packets, Explains, SchemaCache.Valid, AllTame, SaneHeap, CarriesStep, Yield, Abs, Tidy, Served,
      Frames, Answered, TamePayloads;
    crashed, used := false, [];
    if steps == [] {
      assert payloads[0..] == payloads;
      return;
    }
    ghost var first := conn.counter.next;
    ghost var start := LineOf(conn);
    crashed, used := Take(conn, steps[0], g, c);
    if Faces(start, payloads, tail) && |used| <= |payloads| {
      StepOnFrames(payloads, tail, used, first);
    }
    if crashed || conn.stream == null {
      return;
    }
    ghost var more;
    ghost var rest := if |used| <= |payloads| then payloads[|used|..] else [];
    crashed, more := Session(conn, steps[1..], rest, tail, g, c);
    if |used + more| <= |payloads| {
      RunsJoin(payloads, used, more, first);
    }
    used := used + more;
  }
}
