/**
 The MessagePack primitives: which first byte announces which format, how one element head is read,
 and the smallest-format encoders with their separately written size functions.
 */
module MsgPuck {
  import opened ByteStrings

  datatype Kind = Nil | Uint | Int | Str | Bin | Array | Map | Bool | Float | Double | Ext

  /** What a first byte announces: its kind, the width of the number after it, and the number it carries itself. */
  datatype Form = Form(kind: Kind, width: nat, imm: int)

  function FormOf(c: Byte): (f: Form)
    ensures f.width == 0 || f.width == 1 || f.width == 2 || f.width == 4 || f.width == 8
    ensures f.imm < 0 ==> f.kind.Int?
  {
    if c <= 0x7f then Form(Uint, 0, c)
    else if c <= 0x8f then Form(Map, 0, c - 0x80)
    else if c <= 0x9f then Form(Array, 0, c - 0x90)
    else if c <= 0xbf then Form(Str, 0, c - 0xa0)
    else if c == 0xc0 then Form(Nil, 0, 0)
    else if c == 0xc1 then Form(Ext, 0, 0)
    else if c <= 0xc3 then Form(Bool, 0, c - 0xc2)
    else if c == 0xc4 then Form(Bin, 1, 0)
    else if c == 0xc5 then Form(Bin, 2, 0)
    else if c == 0xc6 then Form(Bin, 4, 0)
    else if c == 0xc7 then Form(Ext, 1, 0)
    else if c == 0xc8 then Form(Ext, 2, 0)
    else if c == 0xc9 then Form(Ext, 4, 0)
    else if c == 0xca then Form(Float, 0, 4)
    else if c == 0xcb then Form(Double, 0, 8)
    else if c == 0xcc then Form(Uint, 1, 0)
    else if c == 0xcd then Form(Uint, 2, 0)
    else if c == 0xce then Form(Uint, 4, 0)
    else if c == 0xcf then Form(Uint, 8, 0)
    else if c == 0xd0 then Form(Int, 1, 0)
    else if c == 0xd1 then Form(Int, 2, 0)
    else if c == 0xd2 then Form(Int, 4, 0)
    else if c == 0xd3 then Form(Int, 8, 0)
    else if c == 0xd4 then Form(Ext, 0, 2)
    else if c == 0xd5 then Form(Ext, 0, 3)
    else if c == 0xd6 then Form(Ext, 0, 5)
    else if c == 0xd7 then Form(Ext, 0, 9)
    else if c == 0xd8 then Form(Ext, 0, 17)
    else if c == 0xd9 then Form(Str, 1, 0)
    else if c == 0xda then Form(Str, 2, 0)
    else if c == 0xdb then Form(Str, 4, 0)
    else if c == 0xdc then Form(Array, 2, 0)
    else if c == 0xdd then Form(Array, 4, 0)
    else if c == 0xde then Form(Map, 2, 0)
    else if c == 0xdf then Form(Map, 4, 0)
    else Form(Int, 0, c - 256)
  }

  /** Bytes of payload after the head, given the number `arg` in it. */
  function PayloadLen(f: Form, arg: int): (n: nat)
    requires f.width > 0 ==> arg >= 0
    requires f.width == 0 ==> arg == f.imm && (arg < 0 ==> f.kind.Int?)
  {
    match f.kind
    case Str => arg
    case Bin => arg
    case Ext => if f.width == 0 then arg else arg + 1
    case Float => arg
    case Double => arg
    case _ => 0
  }

  /** The value a head stands for: an integer, a truth value or an element count; 0 where there is none. */
  function Meaning(f: Form, arg: int): (n: int)
    requires f.width > 0 ==> arg >= 0
    requires f.width == 0 ==> arg == f.imm && (arg < 0 ==> f.kind.Int?)
    ensures n < 0 ==> f.kind.Int?
  {
    match f.kind
    case Uint => arg
    case Array => arg
    case Map => arg
    case Bool => arg
    case Int => if f.width > 0 && 2 * arg >= Pow256(f.width) then arg - Pow256(f.width) else arg
    case _ => 0
  }

  /** One element head with its payload. An array or a map is followed by its `Children()`. */
  datatype Token = Token(kind: Kind, num: int, payload: Bytes) {
    function Children(): nat {
      if kind.Array? && num >= 0 then num else if kind.Map? && num >= 0 then 2 * num else 0
    }
  }

  /** Reads what a first byte of form `f` announces from the bytes `s` after it; `None` if it does not fit. */
  function ReadBody(f: Form, s: Bytes): (r: Option<(Token, Bytes)>)
    requires f.imm < 0 ==> f.kind.Int?
    ensures r.Some? ==> |r.value.1| <= |s|
    ensures r.Some? ==> r.value.0.kind == f.kind
    ensures r.Some? && r.value.0.num < 0 ==> r.value.0.kind.Int?
  {
    if |s| < f.width then None
    else
      var arg := if f.width == 0 then f.imm else FromBigEndian(s[..f.width]);
      var end := f.width + PayloadLen(f, arg);
      if |s| < end then None
      else Some((Token(f.kind, Meaning(f, arg), s[f.width..end]), s[end..]))
  }

  /** Reads one head at the start of `s`; `None` if it does not fit. */
  function ReadToken(s: Bytes): (r: Option<(Token, Bytes)>)
    ensures r.Some? ==> |r.value.1| < |s|
    ensures r.Some? ==> r.value.0.kind == FormOf(s[0]).kind
    ensures r.Some? && r.value.0.num < 0 ==> r.value.0.kind.Int?
  {
    if s == [] then None else ReadBody(FormOf(s[0]), s[1..])
  }

  /** A head that fits is read the same way whatever follows it. */
  lemma ReadBodyMore(f: Form, s: Bytes, more: Bytes)
    requires f.imm < 0 ==> f.kind.Int?
    requires ReadBody(f, s).Some?
    ensures ReadBody(f, s + more) == Some((ReadBody(f, s).value.0, ReadBody(f, s).value.1 + more))
  {
    hide Meaning, PayloadLen, FromBigEndian;
    assert (s + more)[..f.width] == s[..f.width];
    var arg := if f.width == 0 then f.imm else FromBigEndian(s[..f.width]);
    var end := f.width + PayloadLen(f, arg);
    assert (s + more)[f.width..end] == s[f.width..end];
    assert (s + more)[end..] == s[end..] + more;
  }

  lemma ReadMore(s: Bytes, more: Bytes)
    requires ReadToken(s).Some?
    ensures ReadToken(s + more) == Some((ReadToken(s).value.0, ReadToken(s).value.1 + more))
  {
    hide FormOf, ReadBody;
    ReadBodyMore(FormOf(s[0]), s[1..], more);
    assert (s + more)[1..] == s[1..] + more;
  }

  /** Bytes that a head does not reach can be cut off. */
  lemma ReadBodyTrim(f: Form, s: Bytes, more: Bytes)
    requires f.imm < 0 ==> f.kind.Int?
    requires ReadBody(f, s + more).Some? && |ReadBody(f, s + more).value.1| >= |more|
    ensures ReadBody(f, s).Some? && ReadBody(f, s).value.0 == ReadBody(f, s + more).value.0
    ensures ReadBody(f, s + more).value.1 == ReadBody(f, s).value.1 + more
  {
    hide Meaning, FromBigEndian;
    var all := s + more;
    assert f.width <= |s|;
    assert all[..f.width] == s[..f.width];
    var arg := if f.width == 0 then f.imm else FromBigEndian(s[..f.width]);
    var end := f.width + PayloadLen(f, arg);
    assert end <= |s|;
    assert all[f.width..end] == s[f.width..end];
    assert all[end..] == s[end..] + more;
  }

  lemma ReadTrim(s: Bytes, more: Bytes)
    requires ReadToken(s + more).Some? && |ReadToken(s + more).value.1| >= |more|
    ensures ReadToken(s).Some? && ReadToken(s).value.0 == ReadToken(s + more).value.0
    ensures ReadToken(s + more).value.1 == ReadToken(s).value.1 + more
  {
    hide FormOf, ReadBody;
    assert (s + more)[1..] == s[1..] + more;
    ReadBodyTrim(FormOf(s[0]), s[1..], more);
  }

  lemma ReadSuffix(s: Bytes)
    requires ReadToken(s).Some?
    ensures var rest := ReadToken(s).value.1; rest == s[|s| - |rest|..]
  {
    hide FormOf, Meaning, PayloadLen, FromBigEndian;
    var f, body := FormOf(s[0]), s[1..];
    var arg := if f.width == 0 then f.imm else FromBigEndian(body[..f.width]);
    assert ReadBody(f, body).value.1 == body[f.width + PayloadLen(f, arg)..];
  }

  // ---- encoders ----

  function EncodeNil(): Bytes { [0xc0] }

  function EncodeBool(b: bool): Bytes { [if b then 0xc3 else 0xc2] }

  function EncodeDouble(bits: Bytes): Bytes { [0xcb] + bits }

  function EncodeUint(n: nat): Bytes {
    if n <= 0x7f then [n]
    else if n <= 0xff then [0xcc] + BigEndian(n, 1)
    else if n <= 0xffff then [0xcd] + BigEndian(n, 2)
    else if n < TWO_32 then [0xce] + BigEndian(n, 4)
    else [0xcf] + BigEndian(n, 8)
  }

  function EncodeInt(n: int): Bytes
    requires n < 0
  {
    if n >= -0x20 then [n + 0x100]
    else if n >= -0x80 then [0xd0] + BigEndian(n + 0x100, 1)
    else if n >= -0x8000 then [0xd1] + BigEndian(n + 0x1_0000, 2)
    else if n >= -0x8000_0000 then [0xd2] + BigEndian(n + TWO_32, 4)
    else [0xd3] + BigEndian(n % TWO_64, 8)
  }

  function EncodeStr(s: Bytes): Bytes {
    (if |s| <= 31 then [0xa0 + |s|]
     else if |s| <= 0xff then [0xd9] + BigEndian(|s|, 1)
     else if |s| <= 0xffff then [0xda] + BigEndian(|s|, 2)
     else [0xdb] + BigEndian(|s|, 4)) + s
  }

  function EncodeArray(n: nat): Bytes {
    if n <= 15 then [0x90 + n]
    else if n <= 0xffff then [0xdc] + BigEndian(n, 2)
    else [0xdd] + BigEndian(n, 4)
  }

  function EncodeMap(n: nat): Bytes {
    if n <= 15 then [0x80 + n]
    else if n <= 0xffff then [0xde] + BigEndian(n, 2)
    else [0xdf] + BigEndian(n, 4)
  }

  // ---- sizes, written apart from the encoders ----

  function SizeofUint(n: nat): (size: nat)
    ensures size == |EncodeUint(n)|
  {
    if n <= 0x7f then 1 else if n <= 0xff then 2 else if n <= 0xffff then 3 else if n < TWO_32 then 5 else 9
  }

  function SizeofInt(n: int): (size: nat)
    requires n < 0
    ensures size == |EncodeInt(n)|
  {
    if n >= -0x20 then 1 else if n >= -0x80 then 2 else if n >= -0x8000 then 3 else if n >= -0x8000_0000 then 5 else 9
  }

  function SizeofStr(len: nat): (size: nat)
    ensures forall s: Bytes :: |s| == len ==> size == |EncodeStr(s)|
  {
    (if len <= 31 then 1 else if len <= 0xff then 2 else if len <= 0xffff then 3 else 5) + len
  }

  function SizeofArray(n: nat): (size: nat)
    ensures size == |EncodeArray(n)|
  {
    if n <= 15 then 1 else if n <= 0xffff then 3 else 5
  }

  function SizeofMap(n: nat): (size: nat)
    ensures size == |EncodeMap(n)|
  {
    if n <= 15 then 1 else if n <= 0xffff then 3 else 5
  }

  // ---- reading back what was encoded, whatever follows it ----

  lemma ReadBodyBack(f: Form, arg: int, payload: Bytes, tail: Bytes)
    requires f.imm < 0 ==> f.kind.Int?
    requires if f.width == 0 then arg == f.imm else 0 <= arg < Pow256(f.width)
    requires |payload| == PayloadLen(f, arg)
    ensures ReadBody(f, (if f.width == 0 then [] else BigEndian(arg, f.width)) + payload + tail)
         == Some((Token(f.kind, Meaning(f, arg), payload), tail))
  {
    hide Meaning, PayloadLen, FromBigEndian, BigEndian, Pow256;
    var head := if f.width == 0 then [] else BigEndian(arg, f.width);
    var s := head + payload + tail;
    assert s[..f.width] == head;
    if f.width > 0 {
      BigEndianRoundTrip(arg, f.width);
    }
    assert s[f.width..f.width + |payload|] == payload;
    assert s[f.width + |payload|..] == tail;
  }

  lemma ReadHead(f: Form, arg: int, payload: Bytes, tail: Bytes, s: Bytes)
    requires s != [] && FormOf(s[0]) == f
    requires if f.width == 0 then arg == f.imm else 0 <= arg < Pow256(f.width)
    requires |payload| == PayloadLen(f, arg)
    requires s[1..] == (if f.width == 0 then [] else BigEndian(arg, f.width)) + payload + tail
    ensures ReadToken(s) == Some((Token(f.kind, Meaning(f, arg), payload), tail))
  {
    hide FormOf, ReadBody, Meaning, PayloadLen, BigEndian;
    ReadBodyBack(f, arg, payload, tail);
  }

  lemma ReadNil(tail: Bytes)
    ensures ReadToken(EncodeNil() + tail) == Some((Token(Nil, 0, []), tail))
  {
    ReadHead(Form(Nil, 0, 0), 0, [], tail, EncodeNil() + tail);
  }

  lemma ReadBool(b: bool, tail: Bytes)
    ensures ReadToken(EncodeBool(b) + tail) == Some((Token(Bool, if b then 1 else 0, []), tail))
  {
    if b {
      ReadHead(Form(Bool, 0, 1), 1, [], tail, EncodeBool(b) + tail);
    } else {
      ReadHead(Form(Bool, 0, 0), 0, [], tail, EncodeBool(b) + tail);
    }
  }

  lemma ReadDouble(bits: Bytes, tail: Bytes)
    requires |bits| == 8
    ensures ReadToken(EncodeDouble(bits) + tail) == Some((Token(Double, 0, bits), tail))
  {
    ReadHead(Form(Double, 0, 8), 8, bits, tail, EncodeDouble(bits) + tail);
  }

  lemma ReadUint(n: nat, tail: Bytes)
    requires n < TWO_64
    ensures ReadToken(EncodeUint(n) + tail) == Some((Token(Uint, n, []), tail))
  {
    hide Pow256, BigEndian, ReadToken;
    Widths();
    var s := EncodeUint(n) + tail;
    if n <= 0x7f {
      ReadHead(Form(Uint, 0, n), n, [], tail, s);
    } else if n <= 0xff {
      ReadHead(Form(Uint, 1, 0), n, [], tail, s);
    } else if n <= 0xffff {
      ReadHead(Form(Uint, 2, 0), n, [], tail, s);
    } else if n < TWO_32 {
      ReadHead(Form(Uint, 4, 0), n, [], tail, s);
    } else {
      ReadHead(Form(Uint, 8, 0), n, [], tail, s);
    }
  }

  lemma ReadWideInt(n: int, tail: Bytes)
    requires -TWO_63 <= n < -0x8000
    ensures ReadToken(EncodeInt(n) + tail) == Some((Token(Int, n, []), tail))
  {
    hide Pow256, BigEndian, ReadToken;
    Widths();
    if n >= -0x8000_0000 {
      ReadHead(Form(Int, 4, 0), n + TWO_32, [], tail, EncodeInt(n) + tail);
    } else {
      ReadHead(Form(Int, 8, 0), n + TWO_64, [], tail, EncodeInt(n) + tail);
    }
  }

  lemma ReadInt(n: int, tail: Bytes)
    requires -TWO_63 <= n < 0
    ensures ReadToken(EncodeInt(n) + tail) == Some((Token(Int, n, []), tail))
  {
    hide Pow256, BigEndian, ReadToken;
    Widths();
    if n >= -0x20 {
      ReadHead(Form(Int, 0, n), n, [], tail, EncodeInt(n) + tail);
    } else if n >= -0x80 {
      ReadHead(Form(Int, 1, 0), n + 0x100, [], tail, EncodeInt(n) + tail);
    } else if n >= -0x8000 {
      ReadHead(Form(Int, 2, 0), n + 0x1_0000, [], tail, EncodeInt(n) + tail);
    } else {
      ReadWideInt(n, tail);
    }
  }

  lemma ReadStr(s: Bytes, tail: Bytes)
    requires |s| < TWO_32
    ensures ReadToken(EncodeStr(s) + tail) == Some((Token(Str, 0, s), tail))
  {
    hide Pow256, BigEndian, ReadToken;
    Widths();
    var e := EncodeStr(s) + tail;
    if |s| <= 31 {
      ReadHead(Form(Str, 0, |s|), |s|, s, tail, e);
    } else if |s| <= 0xff {
      ReadHead(Form(Str, 1, 0), |s|, s, tail, e);
    } else if |s| <= 0xffff {
      ReadHead(Form(Str, 2, 0), |s|, s, tail, e);
    } else {
      ReadHead(Form(Str, 4, 0), |s|, s, tail, e);
    }
  }

  lemma ReadArray(n: nat, tail: Bytes)
    requires n < TWO_32
    ensures ReadToken(EncodeArray(n) + tail) == Some((Token(Array, n, []), tail))
  {
    hide Pow256, BigEndian, ReadToken;
    Widths();
    var s := EncodeArray(n) + tail;
    if n <= 15 {
      ReadHead(Form(Array, 0, n), n, [], tail, s);
    } else if n <= 0xffff {
      ReadHead(Form(Array, 2, 0), n, [], tail, s);
    } else {
      ReadHead(Form(Array, 4, 0), n, [], tail, s);
    }
  }

  lemma ReadMap(n: nat, tail: Bytes)
    requires n < TWO_32
    ensures ReadToken(EncodeMap(n) + tail) == Some((Token(Map, n, []), tail))
  {
    hide Pow256, BigEndian, ReadToken;
    Widths();
    var s := EncodeMap(n) + tail;
    if n <= 15 {
      ReadHead(Form(Map, 0, n), n, [], tail, s);
    } else if n <= 0xffff {
      ReadHead(Form(Map, 2, 0), n, [], tail, s);
    } else {
      ReadHead(Form(Map, 4, 0), n, [], tail, s);
    }
  }
}
