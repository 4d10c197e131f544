/** The cursor-driven unpacker: one element at a time, tables filled in a loop. */
module Unpacker {
  import opened ByteStrings
  import opened MsgPuck
  import opened Wire
  import opened PhpValues
  import opened RoundTrip

  /** Whatever was unpacked first decides the first part of the table; later elements do not matter. */
  lemma {:induction false} FromPairsPrefix(t: Tree, t': Tree, i: nat)
    requires 2 * i <= |t.items| && 2 * i <= |t'.items| && t.items[..2 * i] == t'.items[..2 * i]
    ensures FromPairs(t, i) == FromPairs(t', i)
    decreases i
  {
    hide FromTree, StorePair;
    if i > 0 {
      assert t.items[..2 * i - 2] == t.items[..2 * i][..2 * i - 2] == t'.items[..2 * i - 2];
      assert t.items[2 * i - 2] == t.items[..2 * i][2 * i - 2] && t.items[2 * i - 1] == t.items[..2 * i][2 * i - 1];
      FromPairsPrefix(t, t', i - 1);
    }
  }

  lemma {:induction false} FromPairsFails(t: Tree, i: nat, n: nat)
    requires i <= n && 2 * n <= |t.items| && !FromPairs(t, i).Value?
    ensures FromPairs(t, n) == FromPairs(t, i)
    decreases n - i
  {
    hide FromTree, StorePair;
    if i < n {
      FromPairsFails(t, i + 1, n);
    }
  }

  lemma {:induction false} FromItemsPrefix(t: Tree, t': Tree, i: nat)
    requires i <= |t.items| && i <= |t'.items| && t.items[..i] == t'.items[..i]
    ensures FromItems(t, i) == FromItems(t', i)
    decreases i
  {
    hide FromTree;
    if i > 0 {
      assert t.items[..i - 1] == t.items[..i][..i - 1] == t'.items[..i - 1];
      assert t.items[i - 1] == t.items[..i][i - 1];
      FromItemsPrefix(t, t', i - 1);
    }
  }

  lemma {:induction false} FromItemsFails(t: Tree, i: nat, n: nat)
    requires i <= n <= |t.items| && !FromItems(t, i).Value?
    ensures FromItems(t, n) == FromItems(t, i)
    decreases n - i
  {
    hide FromTree;
    if i < n {
      FromItemsFails(t, i + 1, n);
    }
  }

  /** `k` complete elements lie before cursor `p`, and they start any longer run of elements. */
  lemma {:induction false} ParseManySplit(s: Bytes, a: nat, n: nat)
    requires a <= n && ParseMany(s, n).Some?
    ensures ParseMany(s, a).Some? && ParseMany(s, n).value.0[..a] == ParseMany(s, a).value.0
    ensures ParseMany(ParseMany(s, a).value.1, n - a).Some?
    ensures ParseMany(s, n).value.0 == ParseMany(s, a).value.0 + ParseMany(ParseMany(s, a).value.1, n - a).value.0
    ensures ParseMany(s, n).value.1 == ParseMany(ParseMany(s, a).value.1, n - a).value.1
    decreases a
  {
    hide Parse;
    if a == 0 {
      assert [] + ParseMany(s, n).value.0 == ParseMany(s, n).value.0;
    } else {
      var (t, rest) := Parse(s).value;
      ParseManySplit(rest, a - 1, n - 1);
    }
  }

  lemma ParseManyStep(s: Bytes, a: nat)
    requires ParseMany(s, a).Some? && Parse(ParseMany(s, a).value.1).Some?
    ensures var (t, rest) := Parse(ParseMany(s, a).value.1).value;
      ParseMany(s, a + 1) == Some((ParseMany(s, a).value.0 + [t], rest))
  {
    hide Parse;
    ParseManyOne(ParseMany(s, a).value.1);
    ParseManyAdd(s, a, 1);
  }

  /** The elements of a complete array or map: those before the `i`-th, the `i`-th, and where it starts. */
  lemma ItemAt(s: Bytes, head: Token, rest: Bytes, i: nat)
    requires ReadToken(s) == Some((head, rest)) && Parse(s).Some? && i < head.Children()
    ensures ParseMany(rest, i).Some? && Parse(ParseMany(rest, i).value.1).Some?
    ensures Parse(s).value.0.items[..i] == ParseMany(rest, i).value.0
    ensures Parse(s).value.0.items[i] == Parse(ParseMany(rest, i).value.1).value.0
  {
    hide ReadToken, Token.Children;
    ParseManySplit(rest, i, head.Children());
  }

  lemma FromTreeList(t: Tree)
    ensures t.head.kind.Array? ==> FromTree(t) == FromItems(t, |t.items|)
    ensures t.head.kind.Map? ==> FromTree(t) == FromPairs(t, |t.items| / 2)
  {
    hide FromItems, FromPairs;
  }

  lemma ItemFails(s: Bytes, head: Token, rest: Bytes, i: nat, why: Unpacked)
    requires ReadToken(s) == Some((head, rest)) && head.kind.Array? && Parse(s).Some? && i < head.Children()
    requires ParseMany(rest, i).Some? && FromItems(Tree(head, ParseMany(rest, i).value.0), i).Value?
    requires Unpack(ParseMany(rest, i).value.1) == Failed(why)
    ensures Unpack(s) == Failed(why)
  {
    hide ReadToken, Token.Children, FromTree;
    var t := Parse(s).value.0;
    ItemAt(s, head, rest, i);
    FromItemsPrefix(t, Tree(head, ParseMany(rest, i).value.0), i);
    assert FromItems(t, i + 1) == why;
    FromItemsFails(t, i + 1, |t.items|);
    FromTreeList(t);
  }

  /** The key and the value of the `i`-th pair of a complete map. */
  lemma PairAt(s: Bytes, head: Token, rest: Bytes, i: nat)
    requires ReadToken(s) == Some((head, rest)) && head.kind.Map? && Parse(s).Some? && i < head.Children() / 2
    ensures ParseMany(rest, 2 * i).Some? && Parse(ParseMany(rest, 2 * i).value.1).Some?
    ensures var (k, more) := Parse(ParseMany(rest, 2 * i).value.1).value;
      && Parse(more).Some?
      && Parse(s).value.0.items[2 * i] == k
      && Parse(s).value.0.items[2 * i + 1] == Parse(more).value.0
    ensures Parse(s).value.0.items[..2 * i] == ParseMany(rest, 2 * i).value.0
  {
    hide ReadToken, Parse, ParseMany;
    ItemAt(s, head, rest, 2 * i);
    ItemAt(s, head, rest, 2 * i + 1);
    ParseManyStep(rest, 2 * i);
  }

  lemma TreeHead(s: Bytes)
    requires Parse(s).Some?
    ensures ReadToken(s).Some? && Parse(s).value.0.head == ReadToken(s).value.0
  {
    hide ReadToken, ParseMany;
  }

  lemma PairStep(t: Tree, i: nat, table: PVal)
    requires 2 * i + 2 <= |t.items| && table.PTable? && FromPairs(t, i) == Value(table)
    ensures FromPairs(t, i + 1) == StorePair(table, FromTree(t.items[2 * i]), FromTree(t.items[2 * i + 1]))
  {
    hide FromTree, StorePair;
  }

  /** A pair whose key or value cannot be unpacked, or whose key is no integer or string, spoils the map. */
  lemma PairFails(s: Bytes, head: Token, rest: Bytes, i: nat, table: PVal)
    requires ReadToken(s) == Some((head, rest)) && head.kind.Map? && Parse(s).Some? && i < head.Children() / 2
    requires ParseMany(rest, 2 * i).Some? && table.PTable?
    requires FromPairs(Tree(head, ParseMany(rest, 2 * i).value.0), i) == Value(table)
    ensures Parse(ParseMany(rest, 2 * i).value.1).Some?
    ensures var (k, more) := Parse(ParseMany(rest, 2 * i).value.1).value;
      && Parse(more).Some?
      && var stored := StorePair(table, FromTree(k), FromTree(Parse(more).value.0));
         !stored.Value? ==> Unpack(s) == Failed(stored)
  {
    hide ReadToken, FromTree, FromPairs, StorePair, Token.Children, Parse, ParseMany;
    var t := Parse(s).value.0;
    TreeHead(s);
    PairAt(s, head, rest, i);
    FromPairsPrefix(t, Tree(head, ParseMany(rest, 2 * i).value.0), i);
    FromTreeList(t);
    PairStep(t, i, table);
    if !FromPairs(t, i + 1).Value? {
      FromPairsFails(t, i + 1, |t.items| / 2);
    }
  }

  lemma ListDone(s: Bytes, head: Token, rest: Bytes, xs: seq<Tree>, p: Bytes)
    requires ReadToken(s) == Some((head, rest)) && ParseMany(rest, head.Children()) == Some((xs, p))
    ensures Parse(s) == Some((Tree(head, xs), p))
    ensures head.kind.Array? && FromItems(Tree(head, xs), |xs|).Value?
      ==> Unpack(s) == Got(FromItems(Tree(head, xs), |xs|).v, p)
    ensures head.kind.Map? && FromPairs(Tree(head, xs), |xs| / 2).Value?
      ==> Unpack(s) == Got(FromPairs(Tree(head, xs), |xs| / 2).v, p)
  {
    hide ReadToken, FromTree, FromItems, FromPairs, ParseMany, Token.Children;
    FromTreeList(Tree(head, xs));
  }

  lemma ParseScalarToken(s: Bytes)
    requires ReadToken(s).Some? && !ReadToken(s).value.0.kind.Array? && !ReadToken(s).value.0.kind.Map?
    ensures var (t, rest) := ReadToken(s).value; Parse(s) == Some((Leaf(t.kind, t.num, t.payload), rest))
  {
    hide ReadToken;
    var (t, rest) := ReadToken(s).value;
    ParseLeaf(s, t.kind, t.num, t.payload, rest);
  }

  /**
   Unpacks the element at the cursor `s`. A complete element is unpacked to what it stands for, with the cursor
   after it, or refused for the reason found first; an incomplete one is never unpacked.
   */
  method UnpackAny(s: Bytes) returns (u: UnpackResult)
    ensures u.Got? ==> u == Unpack(s)
    ensures u.Failed? && Parse(s).Some? ==> u == Unpack(s)
    ensures u.Overrun? ==> Parse(s).None?
    decreases |s|, 1
  {
    hide ReadToken, FromPairs, FromItems, Token.Children;
    var head := ReadToken(s);
    if head.None? {
      return Overrun;
    }
    var (t, rest) := head.value;
    match t.kind {
      case Array => u := UnpackArray(s, t, rest);
      case Map => u := UnpackMap(s, t, rest);
      case Ext => u := Failed(ExtFound);
      case _ =>
        ParseScalarToken(s);
        u := Got(FromTree(Leaf(t.kind, t.num, t.payload)).v, rest);
    }
  }

  lemma ManyNone(s: Bytes)
    ensures ParseMany(s, 0) == Some(([], s))
  {
  }

  method UnpackArray(s: Bytes, head: Token, rest: Bytes) returns (u: UnpackResult)
    requires ReadToken(s) == Some((head, rest)) && head.kind.Array?
    ensures u.Got? ==> u == Unpack(s)
    ensures u.Failed? && Parse(s).Some? ==> u == Unpack(s)
    ensures u.Overrun? ==> Parse(s).None?
    decreases |s|, 0
  {
    hide ReadToken, FromTree, Parse, ParseMany, Token.Children, KeysOf;
    var table := PTable([], 0);
    var p := rest;
    var n := head.Children();
    var len := n;
    ghost var xs: seq<Tree> := [];
    ManyNone(rest);
    while len > 0
      invariant 0 <= len <= n && |p| <= |rest| && |xs| == n - len
      invariant ParseMany(rest, n - len) == Some((xs, p))
      invariant table.PTable? && FromItems(Tree(head, xs), n - len) == Value(table)
    {
      ghost var i := n - len;
      if Parse(s).Some? {
        ItemAt(s, head, rest, i);
      }
      var v := UnpackAny(p);
      if !v.Got? {
        if v.Failed? && Parse(s).Some? {
          ItemFails(s, head, rest, i, v.why);
        }
        return if v.Failed? then v else Overrun;
      }
      ParseManyStep(rest, i);
      ghost var xs' := xs + [Parse(p).value.0];
      FromItemsPrefix(Tree(head, xs), Tree(head, xs'), i);
      xs := xs';
      table := PTable(table.entries + [Entry(IntKey(table.next), v.v)], table.next + 1);
      p := v.rest;
      len := len - 1;
    }
    ListDone(s, head, rest, xs, p);
    u := Got(table, p);
  }

  lemma NoPairs(head: Token)
    ensures FromPairs(Tree(head, []), 0) == Value(PTable([], 0))
  {
  }

  lemma NextPair(head: Token, xs: seq<Tree>, xs': seq<Tree>, i: nat, table: PVal)
    requires |xs| == 2 * i && |xs'| == 2 * i + 2 && xs'[..2 * i] == xs && table.PTable?
    requires FromPairs(Tree(head, xs), i) == Value(table)
    ensures FromPairs(Tree(head, xs'), i + 1) == StorePair(table, FromTree(xs'[2 * i]), FromTree(xs'[2 * i + 1]))
  {
    hide FromTree, FromPairs, StorePair;
    FromPairsPrefix(Tree(head, xs), Tree(head, xs'), i);
    PairStep(Tree(head, xs'), i, table);
  }

  method UnpackMap(s: Bytes, head: Token, rest: Bytes) returns (u: UnpackResult)
    requires ReadToken(s) == Some((head, rest)) && head.kind.Map?
    ensures u.Got? ==> u == Unpack(s)
    ensures u.Failed? && Parse(s).Some? ==> u == Unpack(s)
    ensures u.Overrun? ==> Parse(s).None?
    decreases |s|, 0
  {
    hide ReadToken, FromTree, Parse, ParseMany, Store, SymKey, KeysOf, FromPairs;
    var table := PTable([], 0);
    var p := rest;
    var n := head.Children() / 2;
    var len := n;
    ghost var xs: seq<Tree> := [];
    ManyNone(rest);
    NoPairs(head);
    while len > 0
      invariant 0 <= len <= n && |p| <= |rest| && |xs| == 2 * (n - len)
      invariant ParseMany(rest, 2 * (n - len)) == Some((xs, p))
      invariant table.PTable? && FromPairs(Tree(head, xs), n - len) == Value(table)
    {
      ghost var i := n - len;
      if Parse(s).Some? {
        PairFails(s, head, rest, i, table);
      }
      var key := UnpackAny(p);
      if !key.Got? {
        return if key.Failed? then key else Overrun;
      }
      var val := UnpackAny(key.rest);
      if !val.Got? {
        return if val.Failed? then val else Overrun;
      }
      ParseManyStep(rest, 2 * i);
      ParseManyStep(rest, 2 * i + 1);
      ghost var xs' := xs + [Parse(p).value.0] + [Parse(key.rest).value.0];
      NextPair(head, xs, xs', i, table);
      xs := xs';
      match key.v {
        case PLong(k) => table := Store(table, IntKey(k), val.v);
        case PStr(k) => table := Store(table, SymKey(k), val.v);
        case _ => return Failed(BadKey);
      }
      p := val.rest;
      len := len - 1;
    }
    ListDone(s, head, rest, xs, p);
    u := Got(table, p);
  }
}
