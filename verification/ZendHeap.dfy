/**
 PHP tables on the heap, possibly shared and cyclic, and the finite value that a walk guarded by the per-table
 recursion counter sees.
 */
module ZendHeap {
  import opened ByteStrings
  import opened PhpValues

  datatype ZVal =
    | ZNull
    | ZBool(b: bool)
    | ZLong(n: int)
    | ZDouble(bits: Bytes)
    | ZStr(s: Bytes)
    | ZArr(ht: HashTable)
    | ZOther

  class HashTable {
    var entries: seq<Entry<ZVal>>
    var next: int
    var applyCount: nat

    constructor (entries: seq<Entry<ZVal>>, next: int)
      ensures this.entries == entries && this.next == next && applyCount == 0
    {
      this.entries, this.next, applyCount := entries, next, 0;
    }
  }

  /** The part of a table that packing does not change. */
  datatype Image = Image(entries: seq<Entry<ZVal>>, next: int)

  type Graph = map<HashTable, Image>
  type Counts = map<HashTable, nat>

  ghost predicate Inside(g: Graph, v: ZVal) {
    v.ZArr? ==> v.ht in g
  }

  /** Every table stored in a table of the heap is in the heap. */
  ghost predicate Closed(g: Graph) {
    forall t, i :: t in g && 0 <= i < |g[t].entries| ==> Inside(g, g[t].entries[i].val)
  }

  /** `g` and `c` are what the heap holds. */
  ghost predicate Matches(g: Graph, c: Counts)
    reads g.Keys
  {
    && Closed(g) && c.Keys == g.Keys
    && forall t :: t in g ==> t.entries == g[t].entries && t.next == g[t].next && t.applyCount == c[t]
  }

  // ---- the guard ----

  ghost function AtMost(g: Graph, c: Counts, n: nat): set<HashTable>
    requires c.Keys == g.Keys
  {
    set t | t in g && c[t] <= n
  }

  /** The sum over the tables of how often the guard still lets a walk enter each of them. */
  ghost function Budget(g: Graph, c: Counts): nat
    requires c.Keys == g.Keys
  {
    |AtMost(g, c, 0)| + |AtMost(g, c, 1)|
  }

  ghost function Enter(c: Counts, t: HashTable): Counts
    requires t in c
  {
    c[t := c[t] + 1]
  }

  lemma EnterSpends(g: Graph, c: Counts, t: HashTable)
    requires c.Keys == g.Keys && t in g && c[t] <= 1
    ensures Budget(g, Enter(c, t)) == Budget(g, c) - 1
  {
    var d := Enter(c, t);
    if c[t] == 0 {
      assert AtMost(g, d, 0) == AtMost(g, c, 0) - {t};
      assert AtMost(g, d, 1) == AtMost(g, c, 1);
    } else {
      assert AtMost(g, d, 0) == AtMost(g, c, 0);
      assert AtMost(g, d, 1) == AtMost(g, c, 1) - {t};
    }
  }

  /** A value is entered unless it is a table that the guard has already let in twice. */
  predicate Barred(c: Counts, v: ZVal)
    requires v.ZArr? ==> v.ht in c
  {
    v.ZArr? && c[v.ht] > 1
  }

  /** The finite value a guarded walk sees: a barred table reads as null. */
  ghost function Unfold(g: Graph, c: Counts, v: ZVal): (p: PVal)
    requires Closed(g) && c.Keys == g.Keys && Inside(g, v)
    ensures v.ZArr? ==> p.PTable? && p.next == g[v.ht].next
    decreases Budget(g, c), if v.ZArr? then 3 else 0
  {
    match v
    case ZNull => PNull
    case ZBool(b) => PBool(b)
    case ZLong(n) => PLong(n)
    case ZDouble(bits) => PDouble(bits)
    case ZStr(s) => PStr(s)
    case ZOther => POther
    case ZArr(t) => PTable(UnfoldEntries(g, c, t, |g[t].entries|), g[t].next)
  }

  ghost function UnfoldEntries(g: Graph, c: Counts, t: HashTable, i: nat): (es: seq<Entry<PVal>>)
    requires Closed(g) && c.Keys == g.Keys && t in g && i <= |g[t].entries|
    ensures |es| == i
    ensures forall j :: 0 <= j < i ==> es[j] == Entry(g[t].entries[j].key, UnfoldSlot(g, c, g[t].entries[j].val))
    decreases Budget(g, c), 2, i
  {
    if i == 0 then []
    else
      UnfoldEntries(g, c, t, i - 1) + [Entry(g[t].entries[i - 1].key, UnfoldSlot(g, c, g[t].entries[i - 1].val))]
  }

  ghost function UnfoldSlot(g: Graph, c: Counts, v: ZVal): PVal
    requires Closed(g) && c.Keys == g.Keys && Inside(g, v)
    decreases Budget(g, c), 1
  {
    if Barred(c, v) then PNull
    else if v.ZArr? then
      EnterSpends(g, c, v.ht);
      Unfold(g, Enter(c, v.ht), v)
    else Unfold(g, c, v)
  }

  /** The unfolded table has the keys of the heap table in the same order. */
  lemma UnfoldKeys(g: Graph, c: Counts, t: HashTable)
    requires Closed(g) && c.Keys == g.Keys && t in g
    ensures var p := Unfold(g, c, ZArr(t));
      KeysOf(p.entries) == KeysOf(g[t].entries) && |p.entries| == |g[t].entries|
  {
  }

  // ---- acyclic heaps ----

  /** Tables only hold tables of smaller rank. */
  ghost predicate Ranked(g: Graph, rank: map<HashTable, nat>) {
    && Closed(g) && rank.Keys == g.Keys
    && forall t, i :: t in g && 0 <= i < |g[t].entries| && g[t].entries[i].val.ZArr? ==>
      rank[g[t].entries[i].val.ht] < rank[t]
  }

  ghost function RankOf(rank: map<HashTable, nat>, v: ZVal): nat
    requires v.ZArr? ==> v.ht in rank
  {
    if v.ZArr? then rank[v.ht] + 1 else 0
  }

  /** The whole value, for an acyclic heap. */
  ghost function Whole(g: Graph, rank: map<HashTable, nat>, v: ZVal): PVal
    requires Ranked(g, rank) && Inside(g, v)
    decreases RankOf(rank, v)
  {
    match v
    case ZNull => PNull
    case ZBool(b) => PBool(b)
    case ZLong(n) => PLong(n)
    case ZDouble(bits) => PDouble(bits)
    case ZStr(s) => PStr(s)
    case ZOther => POther
    case ZArr(t) =>
      PTable(seq(|g[t].entries|, i requires 0 <= i < |g[t].entries| =>
        Entry(g[t].entries[i].key, Whole(g, rank, g[t].entries[i].val))), g[t].next)
  }

  /** On an acyclic heap the guard never bars anything: the walk sees the whole value. */
  lemma {:induction false} AcyclicSeesAll(g: Graph, rank: map<HashTable, nat>, c: Counts, v: ZVal)
    requires Ranked(g, rank) && Inside(g, v) && c.Keys == g.Keys
    requires forall t :: t in g && rank[t] + 1 < RankOf(rank, v) ==> c[t] <= 1
    ensures Unfold(g, c, v) == Whole(g, rank, v)
    decreases RankOf(rank, v)
  {
    if v.ZArr? {
      var es := g[v.ht].entries;
      forall i | 0 <= i < |es| ensures UnfoldSlot(g, c, es[i].val) == Whole(g, rank, es[i].val) {
        if es[i].val.ZArr? {
          var t := es[i].val.ht;
          EnterSpends(g, c, t);
          AcyclicSeesAll(g, rank, Enter(c, t), es[i].val);
        }
      }
    }
  }
}
