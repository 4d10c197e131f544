/**
 Whole MessagePack elements: the tree an element stands for, and the two counting scanners of the driver
 (validate, skip) that walk an element without building anything.
 A cursor into a buffer is represented by the bytes from the cursor to the end of the buffer.
 */
module Wire {
  import opened ByteStrings
  import opened MsgPuck

  /** One element: its head and, for an array or a map, the elements after it (a map has keys and values in turn). */
  datatype Tree = Tree(head: Token, items: seq<Tree>)

  function Parse(s: Bytes): (r: Option<(Tree, Bytes)>)
    ensures r.Some? ==> |r.value.1| < |s|
    ensures r.Some? ==> |r.value.0.items| == r.value.0.head.Children()
    decreases |s|, 0
  {
    match ReadToken(s)
    case None => None
    case Some((t, rest)) =>
      match ParseMany(rest, t.Children())
      case None => None
      case Some((items, rest')) => Some((Tree(t, items), rest'))
  }

  function ParseMany(s: Bytes, k: nat): (r: Option<(seq<Tree>, Bytes)>)
    ensures r.Some? ==> |r.value.0| == k && |r.value.1| <= |s|
    decreases |s|, 1
  {
    if k == 0 then Some(([], s))
    else
      match Parse(s)
      case None => None
      case Some((t, rest)) =>
        match ParseMany(rest, k - 1)
        case None => None
        case Some((ts, rest')) => Some(([t] + ts, rest'))
  }

  datatype Scanned = Clean(rest: Bytes) | Truncated | TruncatedMap16

  /** What counting down `k` pending elements meets: the end of them, or a head that does not fit. */
  function Scan(s: Bytes, k: nat): (r: Scanned)
    decreases |s|
  {
    if k == 0 then Clean(s)
    else
      match ReadToken(s)
      case None => if s != [] && s[0] == 0xde then TruncatedMap16 else Truncated
      case Some((t, rest)) => Scan(rest, k - 1 + t.Children())
  }

  lemma {:induction false} ScanAdd(s: Bytes, a: nat, b: nat)
    ensures Scan(s, a + b) == (match Scan(s, a) case Clean(rest) => Scan(rest, b) case bad => bad)
    decreases |s|
  {
    hide ReadToken, Token.Children;
    if a > 0 && ReadToken(s).Some? {
      var (t, rest) := ReadToken(s).value;
      ScanAdd(rest, a - 1 + t.Children(), b);
    }
  }

  lemma ParseManyHead(s: Bytes, k: nat)
    requires k > 0 && ReadToken(s).Some?
    ensures var (t, rest) := ReadToken(s).value;
      match ParseMany(rest, t.Children())
      case None => ParseMany(s, k).None?
      case Some((_, more)) =>
        && (ParseMany(s, k).Some? <==> ParseMany(more, k - 1).Some?)
        && (ParseMany(s, k).Some? ==> ParseMany(s, k).value.1 == ParseMany(more, k - 1).value.1)
  {
    hide ReadToken, Token.Children;
  }

  /** With nothing to read, or a head that does not fit, both end at once. */
  lemma NoHead(s: Bytes, k: nat)
    requires k == 0 || ReadToken(s).None?
    ensures ParseMany(s, k).Some? <==> Scan(s, k).Clean?
    ensures ParseMany(s, k).Some? ==> Scan(s, k).rest == ParseMany(s, k).value.1
  {
    hide ReadToken;
  }

  /** The counting scanner accepts exactly the element sequences that parse, and stops where the parse stops. */
  lemma {:induction false} ScanIsParse(s: Bytes, k: nat)
    ensures ParseMany(s, k).Some? <==> Scan(s, k).Clean?
    ensures ParseMany(s, k).Some? ==> Scan(s, k).rest == ParseMany(s, k).value.1
    decreases |s|
  {
    hide ReadToken, Token.Children, ParseMany;
    if k == 0 || ReadToken(s).None? {
      NoHead(s, k);
    } else {
      var (t, rest) := ReadToken(s).value;
      ParseManyHead(s, k);
      ScanAdd(rest, t.Children(), k - 1);
      ScanIsParse(rest, t.Children());
      if ParseMany(rest, t.Children()).Some? {
        ScanIsParse(ParseMany(rest, t.Children()).value.1, k - 1);
      }
    }
  }

  lemma ScanOne(s: Bytes)
    ensures Parse(s).Some? <==> Scan(s, 1).Clean?
    ensures Parse(s).Some? ==> Scan(s, 1).rest == Parse(s).value.1
  {
    hide ReadToken, Token.Children;
    ScanIsParse(s, 1);
    if Parse(s).Some? {
      assert ParseMany(Parse(s).value.1, 0).Some?;
    }
  }

  /** A scan that does not come to the end stops at a head that does not fit; one kind of head is told apart. */
  lemma {:induction false} ScanStops(s: Bytes, k: nat) returns (at: nat)
    requires !Scan(s, k).Clean?
    ensures at <= |s| && ReadToken(s[at..]).None?
    ensures Scan(s, k).TruncatedMap16? <==> at < |s| && s[at] == 0xde
    decreases |s|
  {
    hide ReadToken, Token.Children;
    at := 0;
    assert s[0..] == s;
    if ReadToken(s).Some? {
      var (t, rest) := ReadToken(s).value;
      ReadSuffix(s);
      var next := ScanStops(rest, k - 1 + t.Children());
      at := |s| - |rest| + next;
      assert s[at..] == rest[next..];
    }
  }

  /**
   Validates one element. `bad` is the C result being nonzero. A well-formed element is always accepted; the one
   malformed kind that is accepted too is a scan stopped by a 16-bit map head without its count.
   */
  method Check(s: Bytes) returns (bad: bool, p: Bytes)
    ensures bad <==> Scan(s, 1).Truncated?
    ensures Parse(s).Some? ==> !bad && p == Parse(s).value.1
    ensures !bad ==> Parse(s).Some? || Scan(s, 1).TruncatedMap16?
  {
    hide ReadToken, Token.Children;
    ScanOne(s);
    var k := 1;
    p := s;
    while k > 0
      invariant k >= 0 && Scan(p, k) == Scan(s, 1)
      decreases |p|
    {
      var t := ReadToken(p);
      if t.None? {
        return p == [] || p[0] != 0xde, p;
      }
      p := t.value.1;
      k := k - 1 + t.value.0.Children();
    }
    bad := false;
  }

  /** Skips one element without looking for the end of the buffer; `None` is a read past that end. */
  method Next(s: Bytes) returns (p: Option<Bytes>)
    ensures p == match Parse(s) case None => None case Some((_, rest)) => Some(rest)
  {
    hide ReadToken, Token.Children;
    ScanOne(s);
    var k := 1;
    var q := s;
    while k > 0
      invariant k >= 0 && Scan(q, k) == Scan(s, 1)
      decreases |q|
    {
      var t := ReadToken(q);
      if t.None? {
        return None;
      }
      q := t.value.1;
      k := k - 1 + t.value.0.Children();
    }
    p := Some(q);
  }

  /** An element that is complete is read the same way whatever follows it. */
  lemma {:induction false} ParseManyMore(s: Bytes, k: nat, more: Bytes)
    requires ParseMany(s, k).Some?
    ensures ParseMany(s + more, k) == Some((ParseMany(s, k).value.0, ParseMany(s, k).value.1 + more))
    decreases |s|, 1
  {
    hide ReadToken, Token.Children;
    if k > 0 {
      ParseMore(s, more);
      ParseManyMore(Parse(s).value.1, k - 1, more);
    }
  }

  lemma {:induction false} ParseMore(s: Bytes, more: Bytes)
    requires Parse(s).Some?
    ensures Parse(s + more) == Some((Parse(s).value.0, Parse(s).value.1 + more))
    decreases |s|, 0
  {
    hide ReadToken, Token.Children;
    ReadMore(s, more);
    var (t, rest) := ReadToken(s).value;
    ParseManyMore(rest, t.Children(), more);
  }

  /** What a parse leaves is the end of what it was given. */
  lemma {:induction false} ParseManySuffix(s: Bytes, k: nat)
    requires ParseMany(s, k).Some?
    ensures var rest := ParseMany(s, k).value.1; rest == s[|s| - |rest|..]
    decreases |s|, 1
  {
    hide ReadToken, Token.Children;
    if k > 0 {
      ParseSuffix(s);
      ParseManySuffix(Parse(s).value.1, k - 1);
    }
  }

  lemma {:induction false} ParseSuffix(s: Bytes)
    requires Parse(s).Some?
    ensures var rest := Parse(s).value.1; rest == s[|s| - |rest|..]
    decreases |s|, 0
  {
    hide ReadToken, Token.Children;
    ReadSuffix(s);
    var (t, rest) := ReadToken(s).value;
    ParseManySuffix(rest, t.Children());
  }

  /** Bytes after an element can be cut off. */
  lemma {:induction false} ParseManyTrim(s: Bytes, k: nat, more: Bytes)
    requires ParseMany(s + more, k).Some? && |ParseMany(s + more, k).value.1| >= |more|
    ensures ParseMany(s, k).Some? && ParseMany(s, k).value.0 == ParseMany(s + more, k).value.0
    ensures ParseMany(s + more, k).value.1 == ParseMany(s, k).value.1 + more
    decreases |s|, 1, k
  {
    hide ReadToken, Token.Children;
    if k > 0 {
      ParseTrim(s, more);
      ParseManyTrim(Parse(s).value.1, k - 1, more);
    }
  }

  lemma {:induction false} ParseTrim(s: Bytes, more: Bytes)
    requires Parse(s + more).Some? && |Parse(s + more).value.1| >= |more|
    ensures Parse(s).Some? && Parse(s).value.0 == Parse(s + more).value.0
    ensures Parse(s + more).value.1 == Parse(s).value.1 + more
    decreases |s|, 0, 0
  {
    hide ReadToken, Token.Children;
    ReadTrim(s, more);
    var (t, rest) := ReadToken(s).value;
    ParseManyTrim(rest, t.Children(), more);
  }

  /** The bytes of one element, on their own. */
  lemma ParseSlice(s: Bytes)
    requires Parse(s).Some?
    ensures Parse(s[..|s| - |Parse(s).value.1|]) == Some((Parse(s).value.0, []))
  {
    hide Parse;
    var rest := Parse(s).value.1;
    ParseSuffix(s);
    assert s == s[..|s| - |rest|] + rest;
    ParseTrim(s[..|s| - |rest|], rest);
  }
}
