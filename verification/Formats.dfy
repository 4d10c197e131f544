/**
 The wire formats in literal bytes: what each first byte is unpacked to, and that the formats the packer picks are the
 shortest there are.
 */
module Formats {
  import opened ByteStrings
  import opened MsgPuck
  import opened Wire
  import opened PhpValues
  import opened Codec
  import opened RoundTrip
  import opened Unpacker

  // ---- numbers in big-endian order ----

  function At(s: Bytes, i: nat): int
    requires i < |s|
  {
    s[i]
  }

  function Two(s: Bytes, at: nat): (n: int)
    requires at + 2 <= |s|
    ensures 0 <= n < 0x1_0000
  {
    At(s, at) * 0x100 + At(s, at + 1)
  }

  function Four(s: Bytes, at: nat): (n: int)
    requires at + 4 <= |s|
    ensures 0 <= n < TWO_32
  {
    At(s, at) * 0x100_0000 + At(s, at + 1) * 0x1_0000 + At(s, at + 2) * 0x100 + At(s, at + 3)
  }

  function Eight(s: Bytes, at: nat): (n: int)
    requires at + 8 <= |s|
    ensures 0 <= n < TWO_64
  {
    Four(s, at) * 0x1_0000_0000 + Four(s, at + 4)
  }

  lemma TwoRead(s: Bytes, at: nat)
    requires at + 2 <= |s|
    ensures FromBigEndian(s[at..at + 1]) == At(s, at) && FromBigEndian(s[at..at + 2]) == Two(s, at)
  {
    assert FromBigEndian([]) == 0;
    assert s[at..at + 1] == [] + [s[at]] && s[at..at + 1][..0] == [];
    assert s[at..at + 2][..1] == s[at..at + 1];
  }

  lemma OneMore(s: Bytes, at: nat, n: nat)
    requires at + n + 1 <= |s|
    ensures FromBigEndian(s[at..at + n + 1]) == FromBigEndian(s[at..at + n]) * 0x100 + At(s, at + n)
  {
    assert s[at..at + n + 1][..n] == s[at..at + n];
  }

  lemma FourRead(s: Bytes, at: nat)
    requires at + 4 <= |s|
    ensures FromBigEndian(s[at..at + 4]) == Four(s, at)
  {
    hide FromBigEndian;
    TwoRead(s, at);
    OneMore(s, at, 2);
    OneMore(s, at, 3);
  }

  lemma EightRead(s: Bytes, at: nat)
    requires at + 8 <= |s|
    ensures FromBigEndian(s[at..at + 8]) == Eight(s, at)
  {
    hide FromBigEndian;
    FourRead(s, at);
    OneMore(s, at, 4);
    OneMore(s, at, 5);
    OneMore(s, at, 6);
    OneMore(s, at, 7);
  }

  // ---- what each format is unpacked to ----

  /** A head without elements below it, `arg` being the number in it. */
  lemma Scalar(s: Bytes, f: Form, arg: int)
    requires s != [] && FormOf(s[0]) == f && !f.kind.Array? && !f.kind.Map?
    requires |s| >= 1 + f.width && arg == if f.width == 0 then f.imm else FromBigEndian(s[1..1 + f.width])
    requires |s| >= 1 + f.width + PayloadLen(f, arg)
    ensures var start, end := 1 + f.width, 1 + f.width + PayloadLen(f, arg);
      var u := FromTree(Leaf(f.kind, Meaning(f, arg), s[start..end]));
      Unpack(s) == if u.Value? then Got(u.v, s[end..]) else Failed(u)
  {
    hide FormOf, Meaning, PayloadLen, FromBigEndian, FromTree, Parse;
    var body, end := s[1..], f.width + PayloadLen(f, arg);
    assert body[..f.width] == s[1..1 + f.width];
    assert body[f.width..end] == s[1 + f.width..1 + end];
    assert body[end..] == s[1 + end..];
    assert ReadToken(s) == Some((Token(f.kind, Meaning(f, arg), s[1 + f.width..1 + end]), s[1 + end..]));
    hide ReadToken;
    ParseScalarToken(s);
  }

  lemma LeafMeans(kind: Kind, num: int, payload: Bytes)
    ensures FromTree(Leaf(Nil, num, payload)) == Value(PNull)
    ensures FromTree(Leaf(Bool, num, payload)) == Value(PBool(num == 1))
    ensures -TWO_63 <= num < TWO_64 ==>
      FromTree(Leaf(Uint, num, payload)) == Value(PLong(if num < TWO_63 then num else num - TWO_64))
    ensures FromTree(Leaf(Int, num, payload)) == Value(PLong(num))
    ensures FromTree(Leaf(Str, num, payload)) == Value(PStr(payload))
    ensures FromTree(Leaf(Bin, num, payload)) == Value(PStr(payload))
    ensures FromTree(Leaf(Float, num, payload)) == Value(PDouble(payload))
    ensures FromTree(Leaf(Double, num, payload)) == Value(PDouble(payload))
    ensures FromTree(Leaf(Ext, num, payload)) == ExtFound
  {
  }

  /** Nil, the truth values, and the integers that are their own first byte. */
  lemma OneByteFormats(s: Bytes)
    requires s != []
    ensures s[0] <= 0x7f ==> Unpack(s) == Got(PLong(s[0]), s[1..])
    ensures s[0] >= 0xe0 ==> Unpack(s) == Got(PLong(At(s, 0) - 0x100), s[1..])
    ensures s[0] == 0xc0 ==> Unpack(s) == Got(PNull, s[1..])
    ensures s[0] == 0xc2 ==> Unpack(s) == Got(PBool(false), s[1..])
    ensures s[0] == 0xc3 ==> Unpack(s) == Got(PBool(true), s[1..])
  {
    hide Unpack, FromTree;
    var f := FormOf(s[0]);
    if s[0] <= 0x7f || s[0] >= 0xe0 || s[0] == 0xc0 || s[0] == 0xc2 || s[0] == 0xc3 {
      Scalar(s, f, f.imm);
      LeafMeans(f.kind, f.imm, s[1..1]);
    }
  }

  lemma NothingRead()
    ensures FromBigEndian([]) == 0
  {
  }

  lemma Numbers(s: Bytes)
    ensures |s| >= 2 ==> FromBigEndian(s[1..2]) == At(s, 1)
    ensures |s| >= 3 ==> FromBigEndian(s[1..3]) == Two(s, 1)
    ensures |s| >= 5 ==> FromBigEndian(s[1..5]) == Four(s, 1)
    ensures |s| >= 9 ==> FromBigEndian(s[1..9]) == Eight(s, 1)
  {
    hide FromBigEndian;
    if |s| >= 2 {
      OneMore(s, 1, 0);
      assert FromBigEndian(s[1..1]) == 0 by { NothingRead(); }
    }
    if |s| >= 3 {
      TwoRead(s, 1);
    }
    if |s| >= 5 {
      FourRead(s, 1);
    }
    if |s| >= 9 {
      EightRead(s, 1);
    }
  }

  /** Unsigned integers; one of 2^63 and more wraps to a negative `long`. */
  lemma UintFormats(s: Bytes)
    ensures |s| >= 2 && s[0] == 0xcc ==> Unpack(s) == Got(PLong(s[1]), s[2..])
    ensures |s| >= 3 && s[0] == 0xcd ==> Unpack(s) == Got(PLong(Two(s, 1)), s[3..])
    ensures |s| >= 5 && s[0] == 0xce ==> Unpack(s) == Got(PLong(Four(s, 1)), s[5..])
    ensures |s| >= 9 && s[0] == 0xcf ==>
      var n := Eight(s, 1); Unpack(s) == Got(PLong(if n < TWO_63 then n else n - TWO_64), s[9..])
  {
    hide Unpack, FromTree, FromBigEndian;
    if s != [] {
      var f := FormOf(s[0]);
      Numbers(s);
      if 0xcc <= s[0] <= 0xcf && |s| >= 1 + f.width {
        var n := FromBigEndian(s[1..1 + f.width]);
        Scalar(s, f, n);
        LeafMeans(f.kind, n, s[1 + f.width..1 + f.width]);
      }
    }
  }

  /** Signed integers, positive ones included. */
  lemma IntFormats(s: Bytes)
    ensures |s| >= 2 && s[0] == 0xd0 ==>
      Unpack(s) == Got(PLong(if s[1] < 0x80 then At(s, 1) else At(s, 1) - 0x100), s[2..])
    ensures |s| >= 3 && s[0] == 0xd1 ==>
      var n := Two(s, 1); Unpack(s) == Got(PLong(if n < 0x8000 then n else n - 0x1_0000), s[3..])
    ensures |s| >= 5 && s[0] == 0xd2 ==>
      var n := Four(s, 1); Unpack(s) == Got(PLong(if n < 0x8000_0000 then n else n - 0x1_0000_0000), s[5..])
    ensures |s| >= 9 && s[0] == 0xd3 ==>
      var n := Eight(s, 1); Unpack(s) == Got(PLong(if n < TWO_63 then n else n - TWO_64), s[9..])
  {
    hide Unpack, FromTree, FromBigEndian, Pow256;
    Widths();
    if s != [] {
      var f := FormOf(s[0]);
      Numbers(s);
      if 0xd0 <= s[0] <= 0xd3 && |s| >= 1 + f.width {
        var n := FromBigEndian(s[1..1 + f.width]);
        Scalar(s, f, n);
        LeafMeans(f.kind, Meaning(f, n), s[1 + f.width..1 + f.width]);
      }
    }
  }

  /** The bytes of a string of `n` bytes behind a head of `h` bytes. */
  ghost predicate StringAt(s: Bytes, h: nat, n: nat) {
    |s| >= h + n ==> Unpack(s) == Got(PStr(s[h..h + n]), s[h + n..])
  }

  lemma StringHead(s: Bytes, f: Form)
    requires s != [] && FormOf(s[0]) == f && (f.kind.Str? || f.kind.Bin?) && |s| >= 1 + f.width
    ensures StringAt(s, 1 + f.width, if f.width == 0 then f.imm else FromBigEndian(s[1..1 + f.width]))
  {
    hide Unpack, FromTree, FromBigEndian, Meaning, FormOf;
    var n := if f.width == 0 then f.imm else FromBigEndian(s[1..1 + f.width]);
    if |s| >= 1 + f.width + n {
      Scalar(s, f, n);
      LeafMeans(f.kind, Meaning(f, n), s[1 + f.width..1 + f.width + n]);
    }
  }

  /** Strings and binary data, which become strings alike. */
  lemma StringFormats(s: Bytes)
    ensures |s| >= 1 && 0xa0 <= s[0] <= 0xbf ==> StringAt(s, 1, At(s, 0) - 0xa0)
    ensures |s| >= 2 && (s[0] == 0xd9 || s[0] == 0xc4) ==> StringAt(s, 2, At(s, 1))
    ensures |s| >= 3 && (s[0] == 0xda || s[0] == 0xc5) ==> StringAt(s, 3, Two(s, 1))
    ensures |s| >= 5 && (s[0] == 0xdb || s[0] == 0xc6) ==> StringAt(s, 5, Four(s, 1))
  {
    hide StringAt, FromBigEndian, Two, Four, Eight;
    if s != [] {
      var f := FormOf(s[0]);
      Numbers(s);
      if (f.kind.Str? || f.kind.Bin?) && |s| >= 1 + f.width {
        StringHead(s, f);
      }
    }
  }

  lemma PlainHead(s: Bytes, f: Form)
    requires s != [] && FormOf(s[0]) == f && (f.kind.Float? || f.kind.Double? || f.kind.Ext?) && |s| >= 1 + f.width
    ensures var n := if f.width == 0 then f.imm else FromBigEndian(s[1..1 + f.width]);
      var start, end := 1 + f.width, 1 + f.width + PayloadLen(f, n);
      |s| >= end ==> Unpack(s) == if f.kind.Ext? then Failed(ExtFound) else Got(PDouble(s[start..end]), s[end..])
  {
    hide Unpack, FromTree, FromBigEndian, Meaning, FormOf, PayloadLen;
    var n := if f.width == 0 then f.imm else FromBigEndian(s[1..1 + f.width]);
    var len := PayloadLen(f, n);
    if |s| >= 1 + f.width + len {
      Scalar(s, f, n);
      LeafMeans(f.kind, Meaning(f, n), s[1 + f.width..1 + f.width + len]);
    }
  }

  /** Floating-point numbers with their bits. */
  lemma FloatFormats(s: Bytes)
    ensures |s| >= 5 && s[0] == 0xca ==> Unpack(s) == Got(PDouble(s[1..5]), s[5..])
    ensures |s| >= 9 && s[0] == 0xcb ==> Unpack(s) == Got(PDouble(s[1..9]), s[9..])
  {
    hide Unpack;
    if s != [] && (s[0] == 0xca || s[0] == 0xcb) {
      PlainHead(s, FormOf(s[0]));
    }
  }

  /** The extension formats are refused. */
  lemma ExtFormats(s: Bytes)
    ensures |s| >= 3 && s[0] == 0xd4 ==> Unpack(s) == Failed(ExtFound)
    ensures |s| >= 4 && s[0] == 0xd5 ==> Unpack(s) == Failed(ExtFound)
    ensures |s| >= 6 && s[0] == 0xd6 ==> Unpack(s) == Failed(ExtFound)
    ensures |s| >= 10 && s[0] == 0xd7 ==> Unpack(s) == Failed(ExtFound)
    ensures |s| >= 18 && s[0] == 0xd8 ==> Unpack(s) == Failed(ExtFound)
    ensures |s| >= 2 && s[0] == 0xc7 && |s| >= 3 + At(s, 1) ==> Unpack(s) == Failed(ExtFound)
    ensures |s| >= 3 && s[0] == 0xc8 && |s| >= 4 + Two(s, 1) ==> Unpack(s) == Failed(ExtFound)
    ensures |s| >= 5 && s[0] == 0xc9 && |s| >= 6 + Four(s, 1) ==> Unpack(s) == Failed(ExtFound)
  {
    hide Unpack, FromBigEndian, Two, Four, Eight;
    if s != [] {
      var f := FormOf(s[0]);
      Numbers(s);
      if f.kind.Ext? && |s| >= 1 + f.width {
        PlainHead(s, f);
      }
    }
  }

  lemma ListHead(s: Bytes, f: Form)
    requires s != [] && FormOf(s[0]) == f && (f.kind.Array? || f.kind.Map?) && |s| >= 1 + f.width
    ensures ReadToken(s)
      == Some((Token(f.kind, if f.width == 0 then f.imm else FromBigEndian(s[1..1 + f.width]), []), s[1 + f.width..]))
  {
    hide FormOf, FromBigEndian;
    var body := s[1..];
    assert body[..f.width] == s[1..1 + f.width];
    assert body[f.width..] == s[1 + f.width..];
    assert body[f.width..f.width] == [];
  }

  /** The heads of arrays: how many elements follow. */
  lemma ArrayFormats(s: Bytes)
    ensures |s| >= 1 && 0x90 <= s[0] <= 0x9f ==> ReadToken(s) == Some((Token(Array, At(s, 0) - 0x90, []), s[1..]))
    ensures |s| >= 3 && s[0] == 0xdc ==> ReadToken(s) == Some((Token(Array, Two(s, 1), []), s[3..]))
    ensures |s| >= 5 && s[0] == 0xdd ==> ReadToken(s) == Some((Token(Array, Four(s, 1), []), s[5..]))
  {
    hide FromBigEndian, ReadToken, Two, Four, Eight;
    if s != [] {
      var f := FormOf(s[0]);
      Numbers(s);
      if f.kind.Array? && |s| >= 1 + f.width {
        ListHead(s, f);
      }
    }
  }

  /** The heads of maps: how many pairs follow. */
  lemma MapFormats(s: Bytes)
    ensures |s| >= 1 && 0x80 <= s[0] <= 0x8f ==> ReadToken(s) == Some((Token(Map, At(s, 0) - 0x80, []), s[1..]))
    ensures |s| >= 3 && s[0] == 0xde ==> ReadToken(s) == Some((Token(Map, Two(s, 1), []), s[3..]))
    ensures |s| >= 5 && s[0] == 0xdf ==> ReadToken(s) == Some((Token(Map, Four(s, 1), []), s[5..]))
  {
    hide FromBigEndian, ReadToken, Two, Four, Eight;
    if s != [] {
      var f := FormOf(s[0]);
      Numbers(s);
      if f.kind.Map? && |s| >= 1 + f.width {
        ListHead(s, f);
      }
    }
  }

  /** An array becomes a table with its elements under 0, 1, 2 and so on. */
  lemma {:induction false} ItemsInOrder(t: Tree, n: nat)
    requires n <= |t.items| && FromItems(t, n).Value?
    ensures var w := FromItems(t, n).v;
      && |w.entries| == n && w.next == n
      && forall i :: 0 <= i < n ==>
           FromTree(t.items[i]).Value? && w.entries[i] == Entry(IntKey(i), FromTree(t.items[i]).v)
  {
    hide FromTree;
    if n > 0 {
      ItemsInOrder(t, n - 1);
    }
  }

  // ---- the formats the packer picks ----

  lemma WidthBounds(f: Form, arg: int)
    requires f.width > 0 && f.width <= 8 && (f.width == 1 || f.width == 2 || f.width == 4 || f.width == 8)
    requires 0 <= arg < Pow256(f.width) && (f.kind.Uint? || f.kind.Int?)
    ensures Meaning(f, arg) >= 0 ==> 1 + f.width >= |EncodeLong(Meaning(f, arg))|
    ensures Meaning(f, arg) < 0 ==> 1 + f.width >= |EncodeLong(Meaning(f, arg))|
  {
    hide Pow256, BigEndian;
    Widths();
  }

  lemma Immediate(c: Byte)
    requires FormOf(c).width == 0 && (FormOf(c).kind.Uint? || FormOf(c).kind.Int?)
    ensures -0x20 <= FormOf(c).imm <= 0x7f && Meaning(FormOf(c), FormOf(c).imm) == FormOf(c).imm
  {
  }

  lemma OneByteLong(n: int)
    ensures -0x20 <= n <= 0x7f ==> |EncodeLong(n)| == 1
  {
  }

  /** No head of an integer is shorter than the one the packer writes for it. */
  lemma SmallestLong(s: Bytes)
    requires ReadToken(s).Some? && (ReadToken(s).value.0.kind.Uint? || ReadToken(s).value.0.kind.Int?)
    ensures |EncodeLong(ReadToken(s).value.0.num)| <= |s| - |ReadToken(s).value.1|
  {
    hide FromBigEndian, EncodeLong, Meaning, FormOf;
    var f := FormOf(s[0]);
    if f.width > 0 {
      WidthBounds(f, FromBigEndian(s[1..][..f.width]));
      assert s[1..][f.width..] == s[1 + f.width..];
    } else {
      OneByteLong(f.imm);
      assert Meaning(f, f.imm) == f.imm && -0x20 <= f.imm <= 0x7f by { Immediate(s[0]); }
    }
  }

  /** The same for strings, and for the heads of arrays and maps. */
  lemma SmallestRest(s: Bytes)
    requires ReadToken(s).Some?
    ensures var (t, rest) := ReadToken(s).value;
      && (t.kind.Str? ==> |EncodeStr(t.payload)| <= |s| - |rest|)
      && (t.kind.Array? ==> |EncodeArray(t.num)| <= |s| - |rest|)
      && (t.kind.Map? ==> |EncodeMap(t.num)| <= |s| - |rest|)
  {
    hide FromBigEndian, Pow256, BigEndian;
    Widths();
    var f := FormOf(s[0]);
    if f.width > 0 {
      assert FromBigEndian(s[1..][..f.width]) < Pow256(f.width);
    }
  }
}
