/** The schema cache: spaces and, below each of them, indexes, filled from rows and emptied by the flush. */
module Schema {
  import opened ByteStrings
  import opened MsgPuck
  import opened Wire
  import opened Proto
  import opened Responses
  import opened Rows
  import opened PairTables

  /** An allocated copy of a name. */
  class NameBuffer {
    const bytes: Bytes

    constructor (bytes: Bytes)
      ensures this.bytes == bytes
    {
      this.bytes := bytes;
    }
  }

  class IndexTable {
    var nodes: Table<NameBuffer>

    constructor ()
      ensures nodes == map[]
    {
      nodes := map[];
    }
  }

  /** What one space addition allocates and its two halves share. */
  datatype SpaceRes = SpaceRes(buffer: NameBuffer, index: IndexTable)

  /** The names and numbers of a table, without the allocations behind them. */
  type View = map<Bytes, (Bytes, U32)>

  ghost function ViewOf<R>(t: Table<R>): View {
    map k | k in t :: (t[k].name, t[k].number)
  }

  function AddView(v: View, name: Bytes, number: U32): View {
    v[name := (name, number)][NumberKey(number) := (name, number)]
  }

  /** The slots of a table in whatever order they lie. */
  method SlotOrder<R>(t: Table<R>) returns (order: seq<Bytes>)
    ensures IsOrder(order, t)
  {
    order := [];
    var left := t.Keys;
    while left != {}
      invariant forall k :: k in t <==> k in order || k in left
      invariant forall i :: 0 <= i < |order| ==> order[i] !in left
      invariant forall i, j :: 0 <= i < j < |order| ==> order[i] != order[j]
      decreases |left|
    {
      var k :| k in left;
      order := order + [k];
      left := left - {k};
    }
  }

  /** Deletes the entries under a node's number and name, where there are any. */
  method DeletePair<R>(t: Table<R>, node: Node<R>) returns (u: Table<R>)
    ensures u == t - {NumberKey(node.number), node.name}
  {
    hide NumberKey;
    u := t;
    if NumberKey(node.number) in u {
      u := u - {NumberKey(node.number)};
    }
    if node.name in u {
      u := u - {node.name};
    }
  }

  ghost predicate NoRepeat<T>(s: seq<T>) {
    forall i, j :: 0 <= i < j < |s| ==> s[i] != s[j]
  }

  /** The flush loop over one table: each occupied slot costs two entries and releases one record. */
  method FlushTable<R>(t: Table<R>) returns (order: seq<Bytes>, released: seq<R>)
    requires Shelved(t)
    ensures IsOrder(order, t)
    ensures FlushTo(t, order, |order|) == (map[], released) && NoRepeat(released)
  {
    order := SlotOrder(t);
    released := [];
    var u := t;
    var pos := 0;
    while pos < |order|
      invariant 0 <= pos <= |order|
      invariant FlushTo(t, order, pos) == (u, released)
    {
      var k := order[pos];
      if k in u {
        var node := u[k];
        u := DeletePair(u, node);
        released := released + [node.res];
      }
      pos := pos + 1;
    }
    FlushEmpties(t, order);
    FlushSafe(t, order, |order|);
  }

  /** Name buffers and index tables belong to one space addition each. */
  ghost predicate Owned(t: Table<SpaceRes>) {
    forall k, l :: k in t && l in t && (t[k].res.index == t[l].res.index || t[k].res.buffer == t[l].res.buffer) ==>
      t[k].res == t[l].res
  }

  ghost predicate Unshared(t: Table<SpaceRes>, res: SpaceRes) {
    forall k :: k in t ==> t[k].res.index != res.index && t[k].res.buffer != res.buffer
  }

  lemma AddOwned(t: Table<SpaceRes>, node: Node<SpaceRes>)
    requires Owned(t) && Unshared(t, node.res)
    ensures Owned(Add(t, node)) && Fresh(t, node.res)
  {
    hide NumberKey;
  }

  // ---- loading as a fold ----

  type Named = (Bytes, U32)

  /** The view after a run of names and numbers was added. */
  function AddNamed(v: View, names: seq<Named>): View {
    if names == [] then v
    else AddView(AddNamed(v, names[..|names| - 1]), names[|names| - 1].0, names[|names| - 1].1)
  }

  lemma ViewOfAdd<R>(t: Table<R>, node: Node<R>)
    ensures ViewOf(Add(t, node)) == AddView(ViewOf(t), node.name, node.number)
  {
    hide NumberKey;
  }

  /** The nodes that a run of names adds: one for each, in order. */
  ghost predicate NodesOf<R>(added: seq<Node<R>>, names: seq<Named>) {
    && |added| == |names|
    && forall i :: 0 <= i < |names| ==> (added[i].name, added[i].number) == names[i]
  }

  lemma {:induction false} ViewOfAddAll<R>(t: Table<R>, added: seq<Node<R>>, names: seq<Named>)
    requires NodesOf(added, names)
    ensures ViewOf(AddAll(t, added)) == AddNamed(ViewOf(t), names)
  {
    hide ViewOf, AddView, Add;
    if added != [] {
      var n := |names| - 1;
      ViewOfAddAll(t, added[..n], names[..n]);
      ViewOfAdd(AddAll(t, added[..n]), added[n]);
    }
  }

  function SpaceNames(rows: seq<SpaceRow>): (names: seq<Named>)
    ensures |names| == |rows|
  {
    seq(|rows|, i requires 0 <= i < |rows| => (rows[i].name, rows[i].number))
  }

  /** The index names a run of rows brings to a table that lies under the keys `ks`. */
  function NamesUnder(rows: seq<IndexRow>, ks: set<Bytes>): seq<Named> {
    if rows == [] then []
    else
      var init, row := NamesUnder(rows[..|rows| - 1], ks), rows[|rows| - 1];
      if NumberKey(row.space) in ks then init + [(row.name, row.number)] else init
  }

  lemma NamesUnderMore(rows: seq<IndexRow>, row: IndexRow, ks: set<Bytes>)
    ensures NamesUnder(rows + [row], ks) ==
      if NumberKey(row.space) in ks then NamesUnder(rows, ks) + [(row.name, row.number)] else NamesUnder(rows, ks)
  {
    hide NumberKey;
    assert (rows + [row])[..|rows|] == rows;
  }

  lemma NothingAdded<R>(t: Table<R>)
    ensures t == AddAll(t, []) && Freshly(t, [])
  {
  }

  lemma FreshlyMore<R>(t: Table<R>, added: seq<Node<R>>, node: Node<R>)
    requires Freshly(t, added)
    requires forall k :: k in t ==> t[k].res != node.res
    requires forall i :: 0 <= i < |added| ==> added[i].res != node.res
    ensures Freshly(t, added + [node])
  {
  }

  lemma NodesOfMore<R>(added: seq<Node<R>>, names: seq<Named>, node: Node<R>)
    requires NodesOf(added, names)
    ensures NodesOf(added + [node], names + [(node.name, node.number)])
  {
  }

  /** The slice passes validation and starts as an array. */
  ghost predicate IsArrayOf(data: Slice) {
    !Scan(data.at[..data.len], 1).Truncated? && ReadToken(data.at).Some? && ReadToken(data.at).value.0.kind.Array?
  }

  ghost function ArrayCount(data: Slice): nat
    requires IsArrayOf(data)
  {
    ReadToken(data.at).value.0.Children()
  }

  ghost function ArrayStart(data: Slice): Bytes
    requires IsArrayOf(data)
  {
    ReadToken(data.at).value.1
  }

  /** `names` is what the flush of an index table releases in some slot order. */
  ghost predicate FlushedNames(t: Table<NameBuffer>, names: seq<NameBuffer>) {
    && NoRepeat(names)
    && exists order :: IsOrder(order, t) && FlushTo(t, order, |order|).1 == names
  }

  /** The flush of an index table. */
  method FlushIndexes(index: IndexTable) returns (freed: seq<NameBuffer>)
    requires Shelved(index.nodes)
    modifies index
    ensures index.nodes == map[] && FlushedNames(old(index.nodes), freed)
  {
    hide Shelved, IsOrder, FlushTo;
    var order;
    order, freed := FlushTable(index.nodes);
    index.nodes := map[];
  }

  lemma WithinOwned(u: Table<SpaceRes>, t: Table<SpaceRes>, gone: SpaceRes)
    requires Owned(t) && Within(u, t) && !Fresh(t, gone) && Fresh(u, gone)
    ensures Owned(u) && Unshared(u, gone)
  {
    var l :| l in t && t[l].res == gone;
    assert forall k :: k in u ==> u[k] == t[k];
  }

  lemma FlushToStep<R>(t: Table<R>, order: seq<Bytes>, i: nat, u: Table<R>, released: seq<R>)
    requires i < |order| && FlushTo(t, order, i) == (u, released)
    ensures var k := order[i];
      FlushTo(t, order, i + 1) == (Visit(u, k), if k in u then released + [u[k].res] else released)
  {
    hide Visit;
  }

  lemma WithinShelved<R>(u: Table<R>, t: Table<R>)
    requires Shelved(t) && Within(u, t)
    ensures Shelved(u)
  {
    hide NumberKey;
  }

  /** Distinct released records share neither buffer nor index table. */
  lemma ReleasedApart(t: Table<SpaceRes>, released: seq<SpaceRes>)
    requires Owned(t) && NoRepeat(released) && forall r :: r in released ==> !Fresh(t, r)
    ensures forall i, j :: 0 <= i < j < |released| ==>
      released[i].buffer != released[j].buffer && released[i].index != released[j].index
  {
    forall i, j | 0 <= i < j < |released|
      ensures released[i].buffer != released[j].buffer && released[i].index != released[j].index
    {
      assert released[i] in released && released[j] in released;
      var k :| k in t && t[k].res == released[i];
      var l :| l in t && t[l].res == released[j];
    }
  }

  /** A table the flush has emptied, and what it released from it. */
  ghost predicate FlushedTable(was: map<IndexTable, Table<NameBuffer>>, t: IndexTable, names: seq<NameBuffer>)
    reads t
  {
    t in was && t.nodes == map[] && FlushedNames(was[t], names)
  }

  ghost predicate AllFlushed(was: map<IndexTable, Table<NameBuffer>>, released: seq<SpaceRes>,
      names: seq<seq<NameBuffer>>)
    reads set r | r in released :: r.index
  {
    |names| == |released| && forall i :: 0 <= i < |names| ==> FlushedTable(was, released[i].index, names[i])
  }

  lemma VisitEmpty<R>(t: Table<R>, k: Bytes)
    requires k !in t
    ensures Visit(t, k) == t
  {
  }

  lemma EmptyShelved<R>()
    ensures Shelved<R>(map[])
  {
  }

  /** A slice that passes validation and starts as an array has a complete head. */
  lemma ArrayHeadFits(data: Slice)
    requires !Scan(data.at[..data.len], 1).Truncated? && Typeof(data.at) == Some(Array)
    ensures ReadToken(data.at).Some?
  {
    hide ReadToken;
    var s := data.at[..data.len];
    if s != [] {
      assert s[0] == data.at[0];
    }
    ReadMore(s, data.at[data.len..]);
    assert data.at == s + data.at[data.len..];
  }

  /**
   The prologue of a bulk load: validation, the type of the element, and its head. Only validation knows where the
   slice ends; reading goes on in the buffer.
   */
  method OpenArray(data: Slice) returns (step: Step, count: nat, p: Bytes)
    ensures step.Done? <==> IsArrayOf(data)
    ensures step.Done? ==> count == ArrayCount(data) && p == ArrayStart(data)
    ensures step.Stop? ==> step == Stop(Malformed)
  {
    hide FormOf, ReadBody, Parse, ParseMany;
    count, p := 0, data.at;
    var bad, _ := Check(data.at[..data.len]);
    if bad || Typeof(data.at) != Some(Array) {
      return Stop(Malformed), count, p;
    }
    ArrayHeadFits(data);
    var head := ReadToken(data.at).value;
    return Done, head.0.Children(), head.1;
  }

  /** A slice that is one complete array passes. */
  lemma HeldArray(data: Slice, t: Tree)
    requires Holds(data, t) && t.head.kind.Array?
    ensures IsArrayOf(data) && ArrayCount(data) == |t.items|
    ensures ParseMany(ArrayStart(data), |t.items|) == Some((t.items, Parse(data.at).value.1))
  {
    hide ReadToken, ParseMany, Scan;
    SliceParses(data, t);
    ScanOne(data.at[..data.len]);
  }

  /** A complete array of space tuples is loaded in full, and the cursor ends where the array ends. */
  lemma SpaceArrayLoads(data: Slice, t: Tree)
    requires Holds(data, t) && t.head.kind.Array? && forall j :: 0 <= j < |t.items| ==> SpaceTuple(t.items[j])
    ensures IsArrayOf(data) && ArrayCount(data) == |t.items| && SpaceRowsTo(ArrayStart(data), ArrayCount(data)).Some?
    ensures var (rows, end) := SpaceRowsTo(ArrayStart(data), ArrayCount(data)).value;
      && |end| == |data.at| - data.len
      && forall j :: 0 <= j < |t.items| ==>
        rows[j].name == NameField(t.items[j]) && rows[j].number == NumberField(t.items[j], 0)
  {
    hide Parse, ParseMany, SpaceTuple, SpaceRowAt, NameField, NumberField, IsArrayOf;
    HeldArray(data, t);
    SpaceTuplesRead(ArrayStart(data), t.items, Parse(data.at).value.1);
  }

  /** A complete array of index tuples reads in full, and the cursor ends where the array ends. */
  lemma IndexArrayLoads(data: Slice, t: Tree)
    requires Holds(data, t) && t.head.kind.Array? && forall j :: 0 <= j < |t.items| ==> IndexTuple(t.items[j])
    ensures IsArrayOf(data) && ArrayCount(data) == |t.items| && IndexRowsTo(ArrayStart(data), ArrayCount(data)).Some?
    ensures var (rows, end) := IndexRowsTo(ArrayStart(data), ArrayCount(data)).value;
      && |end| == |data.at| - data.len
      && forall j :: 0 <= j < |t.items| ==>
          && rows[j].space == NumberField(t.items[j], 0) && rows[j].name == NameField(t.items[j])
          && rows[j].number == NumberField(t.items[j], 1)
  {
    hide Parse, ParseMany, IndexTuple, IndexRowAt, NameField, NumberField, IsArrayOf;
    HeldArray(data, t);
    IndexTuplesRead(ArrayStart(data), t.items, Parse(data.at).value.1);
  }

  /** The row after the first `i` cannot be read, or names a space that is not known. */
  ghost predicate NextRefused(start: Bytes, i: nat, known: set<Bytes>) {
    match IndexRowsTo(start, i + 1)
    case None => true
    case Some((rows, _)) => NumberKey(rows[i].space) !in known
  }

  class SchemaCache {
    var nodes: Table<SpaceRes>

    ghost function Tables(): set<IndexTable>
      reads this
    {
      set k | k in nodes :: nodes[k].res.index
    }

    /** Both levels are well shelved, and what an addition allocates belongs to it alone. */
    ghost predicate Valid()
      reads this, Tables()
    {
      && Shelved(nodes)
      && Owned(nodes)
      && forall k :: k in nodes ==> Shelved(nodes[k].res.index.nodes)
    }

    constructor ()
      ensures Valid() && nodes == map[]
    {
      nodes := map[];
    }

    // ---- lookups ----

    /** What the cache knows as the number of a space name; -1 for nothing. */
    ghost function Sid(name: Bytes): int
      reads this
    {
      if name in nodes then ToInt32(nodes[name].number) else -1
    }

    /** What the cache knows as the number of an index name below a space number; -1 for nothing. */
    ghost function Iid(space: U32, name: Bytes): int
      reads this, Tables()
    {
      if NumberKey(space) !in nodes then -1
      else
        var t := nodes[NumberKey(space)].res.index.nodes;
        if name in t then ToInt32(t[name].number) else -1
    }

    /** Looks up a space by name. */
    method GetSid(name: Bytes) returns (sid: int)
      ensures sid == Sid(name)
    {
      if name !in nodes {
        return -1;
      }
      return ToInt32(nodes[name].number);
    }

    /** Looks up an index by its space number and its name. */
    method GetIid(space: U32, name: Bytes) returns (iid: int)
      ensures iid == Iid(space, name)
    {
      hide NumberKey;
      var key := NumberKey(space);
      if key !in nodes {
        return -1;
      }
      var index := nodes[key].res.index;
      if name !in index.nodes {
        return -1;
      }
      return ToInt32(index.nodes[name].number);
    }

    // ---- loading ----

    /** Adds the space row at the cursor, or nothing. */
    method AddSpace(s: Bytes) returns (step: Step, rest: Bytes, ghost node: Node<SpaceRes>)
      requires Valid()
      modifies this
      ensures Valid()
      ensures step.Done? <==> SpaceRowAt(s).Some?
      ensures step.Stop? ==> step == Stop(if SpaceRowRefused(s) then Malformed else Fault) && nodes == old(nodes)
      ensures step.Done? ==>
        var row := SpaceRowAt(s).value;
        && rest == row.rest
        && node.name == row.name && node.number == row.number
        && fresh(node.res.index) && fresh(node.res.buffer) && node.res.index.nodes == map[]
        && nodes == Add(old(nodes), node)
    {
      hide SpaceRowAt, NumberKey, Shelved, Owned;
      var row;
      step, row := ReadSpaceRow(s);
      rest := row.rest;
      var buffer := new NameBuffer(row.name);
      var index := new IndexTable();
      node := Node(row.name, row.number, SpaceRes(buffer, index));
      if step.Stop? {
        return;
      }
      AddOwned(nodes, node);
      AddShelved(nodes, node);
      ghost var before := nodes;
      nodes := Add(nodes, Node(row.name, row.number, SpaceRes(buffer, index)));
      EmptyShelved<NameBuffer>();
      assert forall k :: k in nodes ==> nodes[k] == node || (k in before && nodes[k] == before[k]);
    }

    /** Puts one index under its name and its number. */
    method InsertIndex(target: IndexTable, name: Bytes, number: U32) returns (ghost node: Node<NameBuffer>)
      requires Valid() && target in Tables()
      modifies target
      ensures Valid()
      ensures node.name == name && node.number == number && fresh(node.res)
      ensures target.nodes == Add(old(target.nodes), node)
    {
      hide NumberKey, Shelved, Owned;
      var buffer := new NameBuffer(name);
      node := Node(name, number, buffer);
      assert Fresh(target.nodes, node.res);
      AddShelved(target.nodes, node);
      target.nodes := Add(target.nodes, Node(name, number, buffer));
    }

    /** Adds the index row at the cursor to its space, or nothing; the space must be known by its number. */
    method AddIndex(s: Bytes) returns (step: Step, rest: Bytes, ghost node: Option<Node<NameBuffer>>)
      requires Valid()
      modifies Tables()
      ensures Valid() && nodes == old(nodes)
      ensures step.Done? <==> IndexRowAt(s).Some? && NumberKey(IndexRowAt(s).value.space) in nodes
      ensures step.Stop? ==> forall t :: t in Tables() ==> t.nodes == old(t.nodes)
      ensures step.Stop? ==> step == Stop(if IndexRowRefused(s, nodes.Keys) then Malformed else Fault)
      ensures step == Stop(Fault) ==> IndexRowAt(s).None?
      ensures step.Done? ==>
        var row := IndexRowAt(s).value; var target := nodes[NumberKey(row.space)].res.index;
        && rest == row.rest && node.Some?
        && node.value.name == row.name && node.value.number == row.number && fresh(node.value.res)
        && target.nodes == Add(old(target.nodes), node.value)
        && forall t :: t in Tables() && t != target ==> t.nodes == old(t.nodes)
    {
      hide FormOf, ReadToken, Parse, ParseMany, NumberKey, Shelved, Owned, IndexRowAt, Add;
      IndexRowParts(s);
      rest, node := s, None;
      var space, p1;
      step, space, p1 := ReadIndexHead(s);
      if step.Stop? {
        return;
      }
      var key := NumberKey(space);
      if key !in nodes {
        return Stop(Malformed), s, None;
      }
      var number, name, end;
      step, number, name, end := ReadIndexTail(p1);
      if step.Stop? {
        return;
      }
      rest := end;
      ghost var inserted := InsertIndex(nodes[key].res.index, name, number);
      node := Some(inserted);
    }

    /** Loads an array of space rows; rows before one that cannot be read stay loaded. */
    method AddSpaces(data: Slice) returns (step: Step, loaded: nat, p: Bytes, ghost added: seq<Node<SpaceRes>>)
      requires Valid()
      modifies this
      ensures Valid()
      ensures step.Done? <==> IsArrayOf(data) && SpaceRowsTo(ArrayStart(data), ArrayCount(data)).Some?
      ensures step.Stop? ==> step == Stop(if !IsArrayOf(data) || SpaceRowRefused(p) then Malformed else Fault)
      ensures step.Done? ==> loaded == ArrayCount(data)
      ensures step.Stop? && IsArrayOf(data) ==>
        loaded < ArrayCount(data) && SpaceRowsTo(ArrayStart(data), loaded + 1).None?
      ensures !IsArrayOf(data) ==> loaded == 0 && added == []
      ensures IsArrayOf(data) ==>
        && loaded <= ArrayCount(data)
        && SpaceRowsTo(ArrayStart(data), loaded).Some?
        && var (rows, end) := SpaceRowsTo(ArrayStart(data), loaded).value;
        && p == end && NodesOf(added, SpaceNames(rows))
      ensures nodes == AddAll(old(nodes), added) && Freshly(old(nodes), added)
      ensures forall i :: 0 <= i < |added| ==> fresh(added[i].res.index) && added[i].res.index.nodes == map[]
    {
      hide FormOf, ReadToken, Parse, ParseMany, NumberKey, Shelved, Owned, SpaceRowAt, Scan, IsArrayOf, Add, Freshly,
        SpaceRowRefused, Fresh, AddAll;
      var count;
      loaded, added := 0, [];
      NothingAdded(nodes);
      step, count, p := OpenArray(data);
      if step.Stop? {
        return;
      }
      ghost var start := p;
      while loaded < count
        invariant 0 <= loaded <= count
        invariant Valid() && step.Done?
        invariant SpaceRowsTo(start, loaded).Some? && p == SpaceRowsTo(start, loaded).value.1
        invariant NodesOf(added, SpaceNames(SpaceRowsTo(start, loaded).value.0))
        invariant nodes == AddAll(old(nodes), added) && Freshly(old(nodes), added)
        invariant forall i :: 0 <= i < |added| ==> fresh(added[i].res.index) && added[i].res.index.nodes == map[]
      {
        var rest;
        ghost var node;
        step, rest, node := AddSpace(p);
        if step.Stop? {
          SpaceRowsFail(start, loaded + 1, count);
          return;
        }
        AddAllMore(old(nodes), added, node);
        FreshlyMore(old(nodes), added, node);
        added := added + [node];
        p := rest;
        loaded := loaded + 1;
      }
    }

    /** The keys of the space entries that share one index table. */
    ghost function KeysOfTable(t: IndexTable): set<Bytes>
      reads this
    {
      set k | k in nodes && nodes[k].res.index == t
    }

    /** Every space an index row names is known. */
    ghost predicate Known(rows: seq<IndexRow>)
      reads this
    {
      forall i :: 0 <= i < |rows| ==> NumberKey(rows[i].space) in nodes
    }

    ghost function Inner(): map<IndexTable, Table<NameBuffer>>
      reads this, Tables()
    {
      map t | t in Tables() :: t.nodes
    }

    /** Every index table is what it was with the rows of its space added, each with a fresh record. */
    ghost predicate Follows(was: map<IndexTable, Table<NameBuffer>>, rows: seq<IndexRow>,
        added: map<IndexTable, seq<Node<NameBuffer>>>)
      reads this, Tables()
    {
      && was.Keys == Tables() && added.Keys == Tables() && Known(rows)
      && forall t :: t in Tables() ==>
          t.nodes == AddAll(was[t], added[t]) && Freshly(was[t], added[t])
          && NodesOf(added[t], NamesUnder(rows, KeysOfTable(t)))
    }

    /** One turn of the load: the row at the cursor joins the rows loaded, or nothing changes. */
    method FollowRow(p: Bytes, ghost was: map<IndexTable, Table<NameBuffer>>, ghost rows: seq<IndexRow>,
        ghost before: map<IndexTable, seq<Node<NameBuffer>>>)
      returns (step: Step, rest: Bytes, ghost added: map<IndexTable, seq<Node<NameBuffer>>>)
      requires Valid() && Follows(was, rows, before)
      modifies Tables()
      ensures Valid() && nodes == old(nodes)
      ensures step.Done? <==> IndexRowAt(p).Some? && NumberKey(IndexRowAt(p).value.space) in nodes
      ensures step.Done? ==> rest == IndexRowAt(p).value.rest && Follows(was, rows + [IndexRowAt(p).value], added)
      ensures step.Stop? ==> added == before && Follows(was, rows, added)
      ensures step.Stop? ==> step == Stop(if IndexRowRefused(p, nodes.Keys) then Malformed else Fault)
      ensures step == Stop(Fault) ==> IndexRowAt(p).None?
    {
      hide NumberKey, Shelved, Owned, IndexRowAt, IndexRowRefused, Add, AddAll, Freshly, NodesOf, NamesUnder, Valid;
      ghost var node;
      step, rest, node := AddIndex(p);
      added := before;
      if step.Done? {
        ghost var row := IndexRowAt(p).value;
        ghost var target := nodes[NumberKey(row.space)].res.index;
        added := before[target := before[target] + [node.value]];
        forall t | t in Tables()
          ensures t.nodes == AddAll(was[t], added[t]) && Freshly(was[t], added[t])
          ensures NodesOf(added[t], NamesUnder(rows + [row], KeysOfTable(t)))
        {
          NamesUnderMore(rows, row, KeysOfTable(t));
          if t == target {
            AddAllMore(was[t], before[t], node.value);
            FreshlyMore(was[t], before[t], node.value);
            NodesOfMore(before[t], NamesUnder(rows, KeysOfTable(t)), node.value);
          }
        }
      }
    }

    lemma NothingFollows(added: map<IndexTable, seq<Node<NameBuffer>>>)
      requires added.Keys == Tables() && forall t :: t in added ==> added[t] == []
      ensures Follows(Inner(), [], added)
    {
    }

    lemma RowsKnown(was: map<IndexTable, Table<NameBuffer>>, rows: seq<IndexRow>, added: map<IndexTable,
        seq<Node<NameBuffer>>>)
      requires Follows(was, rows, added)
      ensures Known(rows)
    {
    }

    /** A run of rows with one that is unreadable or names an unknown space is not loaded in full. */
    lemma RowsRefused(start: Bytes, i: nat, n: nat, p: Bytes)
      requires i < n && IndexRowsTo(start, i).Some? && p == IndexRowsTo(start, i).value.1
      requires IndexRowAt(p).None? || NumberKey(IndexRowAt(p).value.space) !in nodes
      ensures IndexRowsTo(start, n).None? || !Known(IndexRowsTo(start, n).value.0)
      ensures IndexRowAt(p).None? ==> IndexRowsTo(start, n).None?
      ensures NextRefused(start, i, nodes.Keys)
    {
      hide IndexRowAt, NumberKey;
      if IndexRowAt(p).None? {
        IndexRowsFail(start, i + 1, n);
      } else if IndexRowsTo(start, n).Some? {
        IndexRowsPrefix(start, i + 1, n);
        var rows := IndexRowsTo(start, n).value.0;
        assert rows[i] == rows[..i + 1][i] == IndexRowAt(p).value;
      }
    }

    /** Loads an array of index rows; rows before one that cannot be read, or names an unknown space, stay loaded. */
    method AddIndexes(data: Slice)
      returns (step: Step, loaded: nat, p: Bytes, ghost added: map<IndexTable, seq<Node<NameBuffer>>>)
      requires Valid()
      modifies Tables()
      ensures Valid() && nodes == old(nodes)
      ensures step.Done? <==>
        && IsArrayOf(data) && IndexRowsTo(ArrayStart(data), ArrayCount(data)).Some?
        && Known(IndexRowsTo(ArrayStart(data), ArrayCount(data)).value.0)
      ensures step.Stop? ==>
        step == Stop(if !IsArrayOf(data) || IndexRowRefused(p, nodes.Keys) then Malformed else Fault)
      ensures step == Stop(Fault) ==> IsArrayOf(data) && IndexRowsTo(ArrayStart(data), ArrayCount(data)).None?
      ensures step.Stop? && IsArrayOf(data) ==>
        loaded < ArrayCount(data) && NextRefused(ArrayStart(data), loaded, nodes.Keys)
      ensures step.Done? ==> loaded == ArrayCount(data)
      ensures !IsArrayOf(data) ==> loaded == 0 && Follows(old(Inner()), [], added)
      ensures IsArrayOf(data) ==>
        && loaded <= ArrayCount(data)
        && IndexRowsTo(ArrayStart(data), loaded).Some?
        && p == IndexRowsTo(ArrayStart(data), loaded).value.1
        && Follows(old(Inner()), IndexRowsTo(ArrayStart(data), loaded).value.0, added)
    {
      hide FormOf, ReadToken, Parse, ParseMany, NumberKey, Shelved, Owned, IndexRowAt, IndexRowRefused, Scan, Valid,
        IsArrayOf, Follows, Known, NextRefused;
      ghost var was := Inner();
      loaded, added := 0, map t | t in Tables() :: [];
      NothingFollows(added);
      var count;
      step, count, p := OpenArray(data);
      if step.Stop? {
        return;
      }
      ghost var start := p;
      while loaded < count
        invariant 0 <= loaded <= count
        invariant Valid() && nodes == old(nodes) && step.Done?
        invariant IndexRowsTo(start, loaded).Some? && p == IndexRowsTo(start, loaded).value.1
        invariant Follows(was, IndexRowsTo(start, loaded).value.0, added)
      {
        var rest;
        step, rest, added := FollowRow(p, was, IndexRowsTo(start, loaded).value.0, added);
        if step.Stop? {
          RowsRefused(start, loaded, count, p);
          return;
        }
        p := rest;
        loaded := loaded + 1;
      }
      RowsKnown(was, IndexRowsTo(start, loaded).value.0, added);
    }

    // ---- the flush ----

    /** One step of the flush: an occupied slot costs two entries and releases its record with the whole index table. */
    method FlushSlot(k: Bytes) returns (freed: seq<NameBuffer>)
      requires Valid() && k in nodes
      modifies this, nodes[k].res.index
      ensures Valid() && nodes == Visit(old(nodes), k)
      ensures old(nodes[k].res.index).nodes == map[] && FlushedNames(old(nodes[k].res.index.nodes), freed)
      ensures old(nodes[k].res.index) !in Tables() && Tables() <= old(Tables())
    {
      hide NumberKey, Shelved, Owned, FlushedNames;
      var node := nodes[k];
      ghost var before := nodes;
      VisitWithin(nodes, nodes, k);
      nodes := DeletePair(nodes, node);
      assert nodes == Visit(before, k);
      WithinShelved(nodes, before);
      WithinOwned(nodes, before, node.res);
      freed := FlushIndexes(node.res.index);
    }

    /** The index tables still in the cache are as they were when the flush began. */
    ghost predicate Untouched(was: map<IndexTable, Table<NameBuffer>>)
      reads this, Tables()
    {
      Tables() <= was.Keys && forall t :: t in Tables() ==> t.nodes == was[t]
    }

    /** One turn of the flush loop. */
    method FlushTurn(k: Bytes, ghost was: map<IndexTable, Table<NameBuffer>>, before: seq<SpaceRes>,
        beforeNames: seq<seq<NameBuffer>>)
      returns (released: seq<SpaceRes>, names: seq<seq<NameBuffer>>)
      requires Valid() && Untouched(was) && AllFlushed(was, before, beforeNames)
      modifies this, Tables()
      ensures Valid() && Untouched(was) && AllFlushed(was, released, names)
      ensures nodes == Visit(old(nodes), k) && Tables() <= old(Tables())
      ensures released == if k in old(nodes) then before + [old(nodes)[k].res] else before
    {
      hide NumberKey, Shelved, Owned, Visit, FlushedNames, Valid;
      released, names := before, beforeNames;
      if k in nodes {
        var res := nodes[k].res;
        var freed := FlushSlot(k);
        released, names := before + [res], beforeNames + [freed];
      } else {
        VisitEmpty(nodes, k);
      }
    }

    lemma NothingFlushed(order: seq<Bytes>)
      ensures Untouched(Inner()) && AllFlushed(Inner(), [], []) && FlushTo(nodes, order, 0) == (nodes, [])
    {
    }

    /**
     Empties the cache. Every space record is released at most once, whatever the slot order, together with its index
     table, whose own records are released at most once as well; nothing released is still in a table.
     */
    method Flush() returns (order: seq<Bytes>, released: seq<SpaceRes>, names: seq<seq<NameBuffer>>)
      requires Valid()
      modifies this, Tables()
      ensures Valid() && nodes == map[]
      ensures IsOrder(order, old(nodes)) && FlushTo(old(nodes), order, |order|).1 == released
      ensures forall i, j :: 0 <= i < j < |released| ==>
        released[i].buffer != released[j].buffer && released[i].index != released[j].index
      ensures AllFlushed(old(Inner()), released, names)
    {
      hide NumberKey, Visit, Shelved, Owned, FlushTo, FlushedNames, AllFlushed, IsOrder, Untouched, Fresh;
      order := SlotOrder(nodes);
      released, names := [], [];
      ghost var all, was := nodes, Inner();
      NothingFlushed(order);
      var pos := 0;
      while pos < |order|
        invariant 0 <= pos <= |order|
        invariant Valid() && Owned(all) && Shelved(all)
        invariant FlushTo(all, order, pos) == (nodes, released)
        invariant Tables() <= old(Tables()) && Untouched(was) && AllFlushed(was, released, names)
      {
        FlushToStep(all, order, pos, nodes, released);
        released, names := FlushTurn(order[pos], was, released, names);
        pos := pos + 1;
      }
      FlushSafe(all, order, |order|);
      FlushEmpties(all, order);
      ReleasedApart(all, released);
    }
  }
}
