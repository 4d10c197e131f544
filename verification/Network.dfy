/** The incoming byte stream in chunks, the read loop that hides the chunks, and packets read one after another. */
module Network {
  import opened ByteStrings
  import opened Formats
  import opened SmartStrings
  import opened Proto

  function Flatten(chunks: seq<Bytes>): Bytes {
    if chunks == [] then [] else chunks[0] + Flatten(chunks[1..])
  }

  /** The bytes that reads yield before one of them yields nothing (no more data, a timeout or a closed peer). */
  function Yield(chunks: seq<Bytes>): Bytes {
    if chunks == [] || chunks[0] == [] then [] else chunks[0] + Yield(chunks[1..])
  }

  lemma {:induction false} YieldIsAll(chunks: seq<Bytes>)
    requires forall i :: 0 <= i < |chunks| ==> chunks[i] != []
    ensures Yield(chunks) == Flatten(chunks)
  {
    if chunks != [] {
      YieldIsAll(chunks[1..]);
    }
  }

  /** A connected stream: what single reads will yield, in order, and what was written to it. */
  class Stream {
    var chunks: seq<Bytes>
    var out: Bytes

    constructor (chunks: seq<Bytes>)
      ensures this.chunks == chunks && out == []
    {
      this.chunks := chunks;
      out := [];
    }

    /** One send: it is good only if all bytes were written and the flush went through. */
    method Send(s: Bytes, written: nat, flushed: bool) returns (ok: bool)
      requires written <= |s|
      modifies this`out
      ensures out == old(out) + s[..written]
      ensures ok <==> written == |s| && flushed
    {
      out := out + s[..written];
      ok := written == |s| && flushed;
    }

    /** One read: at most `n` bytes of the next chunk. */
    method Read(n: nat) returns (s: Bytes)
      requires n > 0
      modifies this`chunks
      ensures |s| <= n
      ensures old(Yield(chunks)) != [] ==> s != [] && old(Yield(chunks)) == s + Yield(chunks)
      ensures old(Yield(chunks)) == [] ==> s == []
      ensures old(Flatten(chunks)) == s + Flatten(chunks)
    {
      if chunks == [] {
        return [];
      }
      var c := chunks[0];
      if |c| <= n {
        chunks := chunks[1..];
        return c;
      }
      chunks := [c[n..]] + chunks[1..];
      assert c == c[..n] + c[n..];
      return c[..n];
    }
  }

  /** `b` with `s` written over it from `at` on. */
  function Overwrite(b: Bytes, at: nat, s: Bytes): (r: Bytes)
    requires at + |s| <= |b|
    ensures |r| == |b| && r[at..at + |s|] == s && r[..at] == b[..at]
  {
    b[..at] + s + b[at + |s|..]
  }

  lemma OverwriteMore(b: Bytes, at: nat, s: Bytes, t: Bytes)
    requires at + |s| + |t| <= |b|
    ensures Overwrite(Overwrite(b, at, s), at + |s|, t) == Overwrite(b, at, s + t)
  {
  }

  method Store(buf: array<Byte>, at: nat, s: Bytes)
    requires at + |s| <= buf.Length
    modifies buf
    ensures buf[..] == Overwrite(old(buf[..]), at, s)
  {
    forall i | 0 <= i < |s| {
      buf[at + i] := s[i];
    }
  }

  lemma OverwriteNothing(b: Bytes, at: nat)
    requires at <= |b|
    ensures Overwrite(b, at, []) == b
  {
  }

  /**
   Fills `size` bytes of `buf` from `at` on, however the bytes are chunked. It takes fewer only when a read yields
   nothing, and no byte is lost or taken beyond those counted. The result is the count as an `int` holds it.
   */
  method ReadExact(stream: Stream, buf: array<Byte>, at: nat, size: nat) returns (n: int, ghost total: nat)
    requires at + size <= buf.Length
    modifies stream`chunks, buf
    ensures n == ToInt32(total % TWO_32)
    ensures total == if size <= |old(Yield(stream.chunks))| then size else |old(Yield(stream.chunks))|
    ensures buf[..] == Overwrite(old(buf[..]), at, old(Yield(stream.chunks))[..total])
    ensures total == size ==> Yield(stream.chunks) == old(Yield(stream.chunks))[size..]
    ensures old(Flatten(stream.chunks)) == old(Yield(stream.chunks))[..total] + Flatten(stream.chunks)
  {
    hide Yield, Flatten, Overwrite;
    var count := 0;
    ghost var all := Yield(stream.chunks);
    OverwriteNothing(buf[..], at);
    while count < size
      invariant count <= size && count <= |all|
      invariant Yield(stream.chunks) == all[count..]
      invariant buf[..] == Overwrite(old(buf[..]), at, all[..count])
      invariant old(Flatten(stream.chunks)) == all[..count] + Flatten(stream.chunks)
    {
      var s := stream.Read(size - count);
      if s == [] {
        assert [] + Flatten(stream.chunks) == Flatten(stream.chunks);
        break;
      }
      Store(buf, at + count, s);
      OverwriteMore(old(buf[..]), at, all[..count], s);
      assert all[..count] + s == all[..count + |s|];
      assert all[..count] + (s + Flatten(stream.chunks)) == all[..count] + s + Flatten(stream.chunks);
      count := count + |s|;
    }
    n, total := ToInt32(count % TWO_32), count;
  }

  /** A count that comes back as an `int` and is compared as a `size_t` is the size asked for only below 2^31. */
  lemma CountKept(total: nat, size: nat)
    requires total <= size < TWO_32
    ensures ToInt32(total % TWO_32) % TWO_64 == size <==> total == size < TWO_31
    ensures ToInt32(total % TWO_32) == ToInt32(size) <==> total == size
  {
  }

  // ---- packets ----

  /**
   What reading one packet gives: its body; a short read, either of the length or of the body; five bytes that are no
   length; or a body so long that the count of its bytes does not fit an `int`. A short read has taken what there was.
   A body that is too long has been taken in full, but it counts as not read.
   */
  datatype Packet =
    | Body(payload: Bytes)
    | ShortLength
    | ShortBody
    | BadLength(head: Bytes)
    | TooLong(size: nat)

  /** The number that five bytes hold, and after which the body is read; `None` if they are no length. */
  function AnnouncedSize(s: Bytes): Option<nat>
    requires |s| >= 5
  {
    if s[0] <= 0x7f then Some(s[0])
    else if s[0] == 0xcc then Some(s[1])
    else if s[0] == 0xcd then Some(Two(s, 1))
    else if s[0] == 0xce then Some(Four(s, 1))
    else None
  }

  lemma AnnouncedIsRead(s: Bytes)
    requires |s| >= 5
    ensures UnpackPackageSize(s[..5]) == AnnouncedSize(s)
  {
    hide FromBigEndian, Two, Four;
    var head := s[..5];
    Numbers(s);
    assert head[1..][..1] == s[1..2] && head[1..][..2] == s[1..3] && head[1..][..4] == s[1..5];
  }

  function NextPacket(s: Bytes): Packet {
    if |s| < 5 then ShortLength
    else
      match UnpackPackageSize(s[..5])
      case None => BadLength(s[..5])
      case Some(n) =>
        if |s| < 5 + n then ShortBody
        else if n >= TWO_31 then TooLong(n)
        else Body(s[5..5 + n])
  }

  /** The next packet in terms of the bytes that hold its length. */
  lemma NextPacketExact(s: Bytes)
    ensures |s| < 5 ==> NextPacket(s) == ShortLength
    ensures |s| >= 5 && AnnouncedSize(s).None? ==> NextPacket(s) == BadLength(s[..5])
    ensures |s| >= 5 && AnnouncedSize(s).Some? ==>
      var n := AnnouncedSize(s).value;
      NextPacket(s) == if |s| < 5 + n then ShortBody else if n < 0x8000_0000 then Body(s[5..5 + n]) else TooLong(n)
  {
    hide UnpackPackageSize, AnnouncedSize;
    if |s| >= 5 {
      AnnouncedIsRead(s);
    }
  }

  /** The bytes left after one packet. */
  function AfterPacket(s: Bytes): Bytes {
    match NextPacket(s)
    case Body(p) => s[5 + |p|..]
    case TooLong(n) => s[5 + n..]
    case BadLength(_) => s[5..]
    case ShortLength => []
    case ShortBody => []
  }

  function Frames(ps: seq<Bytes>): Bytes {
    if ps == [] then [] else FrameOf(ps[0]) + Frames(ps[1..])
  }

  lemma FrameLength(p: Bytes)
    ensures |FrameOf(p)| == 5 + |p|
  {
    hide PackageSize;
  }

  /** What the reader makes of a framed packet. */
  function Received(p: Bytes): Packet {
    if |p| < TWO_31 then Body(p) else TooLong(|p|)
  }

  /** A framed packet is read back exactly when it is shorter than 2^31 bytes; reading stops right after it. */
  lemma NextOfFrame(p: Bytes, tail: Bytes)
    requires |p| < TWO_32
    ensures NextPacket(FrameOf(p) + tail) == Received(p) && AfterPacket(FrameOf(p) + tail) == tail
    ensures NextPacket(FrameOf(p) + tail) == Body(p) <==> |p| < TWO_31
  {
    hide FrameOf, UnpackPackageSize;
    FrameDelimits(p, tail);
    assert |FrameOf(p)| == 5 + |p| by { FrameLength(p); }
  }

  /** Five bytes hold no number of 2^32 or more. */
  lemma SizeFits(s: Bytes)
    requires |s| == 5 && UnpackPackageSize(s).Some?
    ensures UnpackPackageSize(s).value < TWO_32
  {
    hide Pow256, FromBigEndian;
    Widths();
  }

  function Least(a: nat, b: nat): nat { if a <= b then a else b }

  /**
   Reads a block and compares the count with its size: `ok` if they agree. `taken` tells whether the whole block is off
   the stream; a block of 2^31 bytes or more is taken and yet not found to be read.
   */
  method ReadBlock(stream: Stream, buf: array<Byte>, at: nat, size: nat) returns (ok: bool, taken: bool)
    requires at + size <= buf.Length && size < TWO_32
    modifies stream`chunks, buf
    ensures taken <==> size <= |old(Yield(stream.chunks))|
    ensures ok <==> taken && size < TWO_31
    ensures taken ==>
      && Yield(stream.chunks) == old(Yield(stream.chunks))[size..]
      && buf[at..at + size] == old(Yield(stream.chunks))[..size]
    ensures buf[..at] == old(buf[..at])
    ensures var taken := Least(size, |old(Yield(stream.chunks))|);
      old(Flatten(stream.chunks)) == old(Yield(stream.chunks))[..taken] + Flatten(stream.chunks)
  {
    hide Yield, Flatten, ToInt32;
    var n;
    ghost var total;
    n, total := ReadExact(stream, buf, at, size);
    CountKept(total, size);
    ok, taken := n % TWO_64 == size, n == ToInt32(size);
    assert buf[..at] == buf[..][..at];
    assert old(buf[..])[..at] == old(buf[..at]);
    if taken {
      assert buf[at..at + size] == buf[..][at..at + size];
    }
  }

  lemma TakenInTurn(all: Bytes, n: nat, rest: Bytes, last: Bytes)
    requires 5 + n <= |all| && rest == all[5..][..n] + last
    ensures all[..5] + rest == all[..5 + n] + last
  {
    assert all[..5] + all[5..][..n] == all[..5 + n];
  }

  /** How many bytes the reading of one packet takes: the five of the length, and of the body what there is. */
  function BytesTaken(s: Bytes): (n: nat)
    ensures n <= |s|
  {
    if |s| < 5 then |s|
    else
      match AnnouncedSize(s)
      case Some(n) => Least(5 + n, |s|)
      case None => 5
  }

  /** Reads a body of known size into the buffer at `at`, which is made large enough before. */
  method ReadBody(stream: Stream, str: SmartString, at: nat, size: nat) returns (ok: bool, taken: bool)
    requires str.Valid() && at <= str.len && size < TWO_32
    modifies stream`chunks, str`c, str.c
    ensures str.Valid() && (str.c == old(str.c) || fresh(str.c))
    ensures taken <==> size <= |old(Yield(stream.chunks))|
    ensures ok <==> taken && size < TWO_31
    ensures taken ==>
      && Yield(stream.chunks) == old(Yield(stream.chunks))[size..]
      && at + size < str.c.Length && str.c[at..at + size] == old(Yield(stream.chunks))[..size]
    ensures str.c[..at] == old(str.c[..at])
    ensures var taken := Least(size, |old(Yield(stream.chunks))|);
      old(Flatten(stream.chunks)) == old(Yield(stream.chunks))[..taken] + Flatten(stream.chunks)
  {
    hide Yield, Flatten;
    ghost var kept := str.Contents();
    str.Ensure(size);
    assert str.c[..at] == kept[..at] == old(str.c[..at]);
    ok, taken := ReadBlock(stream, str.c, at, size);
  }

  /** Reads one packet into the buffer at `at`; the body is what lies there afterwards. */
  method ReadPacket(stream: Stream, str: SmartString, at: nat) returns (p: Packet)
    requires str.Valid() && at <= str.len
    modifies stream`chunks, str`c, str.c
    ensures str.Valid() && (str.c == old(str.c) || fresh(str.c))
    ensures p == NextPacket(old(Yield(stream.chunks)))
    ensures p.Body? || p.TooLong? || p.BadLength? ==> Yield(stream.chunks) == AfterPacket(old(Yield(stream.chunks)))
    ensures p.Body? ==> at + |p.payload| < str.c.Length && str.c[at..at + |p.payload|] == p.payload
    ensures str.c[..at] == old(str.c[..at])
    ensures var all := old(Yield(stream.chunks));
      old(Flatten(stream.chunks)) == all[..BytesTaken(all)] + Flatten(stream.chunks)
  {
    hide UnpackPackageSize, Yield, Flatten, AnnouncedSize;
    ghost var all := Yield(stream.chunks);
    var packLen := new Byte[5](_ => 0);
    var got, _ := ReadBlock(stream, packLen, 0, 5);
    if !got {
      return ShortLength;
    }
    assert packLen[..] == packLen[0..5] == all[..5];
    var size := UnpackPackageSize(packLen[..]);
    AnnouncedIsRead(all);
    if size.None? {
      return BadLength(packLen[..]);
    }
    SizeFits(packLen[..]);
    ghost var rest := Flatten(stream.chunks);
    var ok, taken := ReadBody(stream, str, at, size.value);
    TakenInTurn(all, Least(size.value, |all| - 5), rest, Flatten(stream.chunks));
    if !taken {
      return ShortBody;
    }
    assert all[5..][..size.value] == all[5..5 + size.value];
    assert all[5..][size.value..] == all[5 + size.value..];
    // a body that was not taken in full and one that is too long are reported alike
    p := if ok then Body(str.c[at..at + size.value]) else TooLong(size.value);
  }

  /** The first `n` packets of a byte stream, and what is left of it. */
  function Packets(s: Bytes, n: nat): (seq<Packet>, Bytes)
    decreases n
  {
    if n == 0 then ([], s)
    else
      var (ps, rest) := Packets(AfterPacket(s), n - 1);
      ([NextPacket(s)] + ps, rest)
  }

  /** One more packet. */
  lemma {:induction false} PacketsMore(s: Bytes, n: nat)
    ensures |Packets(s, n).0| == n
    ensures Packets(s, n + 1) == (Packets(s, n).0 + [NextPacket(Packets(s, n).1)], AfterPacket(Packets(s, n).1))
    decreases n
  {
    hide NextPacket, AfterPacket;
    if n == 0 {
      assert Packets(AfterPacket(s), 0) == ([], AfterPacket(s));
      var none: seq<Packet> := [];
      assert [NextPacket(s)] + none == none + [NextPacket(s)];
    } else {
      PacketsMore(AfterPacket(s), n - 1);
      var (init, rest) := Packets(AfterPacket(s), n - 1);
      assert [NextPacket(s)] + (init + [NextPacket(rest)]) == [NextPacket(s)] + init + [NextPacket(rest)];
    }
  }

  lemma PacketsNone(s: Bytes)
    ensures Packets(s, 0) == ([], s)
  {
  }

  lemma PacketsCount(s: Bytes, n: nat)
    ensures |Packets(s, n).0| == n
  {
    PacketsMore(s, n);
  }

  lemma OnePacket(s: Bytes)
    ensures Packets(s, 1) == ([NextPacket(s)], AfterPacket(s))
  {
    hide NextPacket, AfterPacket;
    PacketsNone(s);
    PacketsMore(s, 0);
    var none: seq<Packet> := [];
    assert none + [NextPacket(s)] == [NextPacket(s)];
  }

  /** Packets taken one run after another are the packets of one run. */
  lemma {:induction false} PacketsSplit(s: Bytes, m: nat, n: nat)
    ensures var rest := Packets(s, m).1;
      Packets(s, m + n) == (Packets(s, m).0 + Packets(rest, n).0, Packets(rest, n).1)
    decreases n
  {
    hide NextPacket, AfterPacket;
    if n == 0 {
      PacketsNone(Packets(s, m).1);
      assert Packets(s, m).0 + [] == Packets(s, m).0;
    } else {
      var rest := Packets(s, m).1;
      PacketsSplit(s, m, n - 1);
      PacketsMore(s, m + (n - 1));
      PacketsMore(rest, n - 1);
      var (a, b, x) := (Packets(s, m).0, Packets(rest, n - 1).0, [NextPacket(Packets(rest, n - 1).1)]);
      assert (a + b) + x == a + (b + x);
    }
  }

  ghost predicate AllBodies(ps: seq<Packet>) {
    forall k :: 0 <= k < |ps| ==> ps[k].Body?
  }

  lemma {:induction false} PacketAt(s: Bytes, n: nat, k: nat)
    requires n < k
    ensures |Packets(s, k).0| == k && Packets(s, k).0[n] == NextPacket(Packets(s, n).1)
    decreases k
  {
    hide NextPacket, AfterPacket;
    PacketsMore(s, k - 1);
    if n < k - 1 {
      PacketAt(s, n, k - 1);
    }
  }

  function Bodies(payloads: seq<Bytes>): (ps: seq<Packet>)
    ensures |ps| == |payloads|
  {
    seq(|payloads|, i requires 0 <= i < |payloads| => Body(payloads[i]))
  }

  function AllReceived(payloads: seq<Bytes>): (ps: seq<Packet>)
    ensures |ps| == |payloads|
  {
    seq(|payloads|, i requires 0 <= i < |payloads| => Received(payloads[i]))
  }

  /** The frames of these payloads announce their lengths. */
  ghost predicate Framed(payloads: seq<Bytes>) {
    forall i :: 0 <= i < |payloads| ==> |payloads[i]| < TWO_32
  }

  lemma ReceivedSplit(payloads: seq<Bytes>, n: nat)
    requires 0 < n <= |payloads|
    ensures AllReceived(payloads[..n]) == [Received(payloads[0])] + AllReceived(payloads[1..][..n - 1])
  {
    hide Received;
    assert forall i :: 0 < i < n ==> payloads[..n][i] == payloads[1..][..n - 1][i - 1];
  }

  /** Reading some of the packets of a run of frames stops at the next frame. */
  lemma {:induction false} BoundaryAfter(payloads: seq<Bytes>, tail: Bytes, n: nat)
    requires n <= |payloads| && Framed(payloads)
    ensures Packets(Frames(payloads) + tail, n) == (AllReceived(payloads[..n]), Frames(payloads[n..]) + tail)
  {
    hide NextPacket, AfterPacket, FrameOf, Received, AllReceived;
    if n == 0 {
      assert AllReceived(payloads[..0]) == [];
      assert payloads[0..] == payloads;
    } else {
      var more := Frames(payloads[1..]) + tail;
      assert Frames(payloads) + tail == FrameOf(payloads[0]) + more;
      NextOfFrame(payloads[0], more);
      BoundaryAfter(payloads[1..], tail, n - 1);
      assert payloads[1..][n - 1..] == payloads[n..];
      ReceivedSplit(payloads, n);
    }
  }

  /**
   Any list of framed packets is gone through, packet by packet, whatever follows it; it is recovered exactly when all
   its packets are shorter than 2^31 bytes.
   */
  lemma PacketsOfFrames(payloads: seq<Bytes>, tail: Bytes)
    requires Framed(payloads)
    ensures Packets(Frames(payloads) + tail, |payloads|) == (AllReceived(payloads), tail)
    ensures AllReceived(payloads) == Bodies(payloads) <==> forall i :: 0 <= i < |payloads| ==> |payloads[i]| < TWO_31
  {
    hide Packets;
    BoundaryAfter(payloads, tail, |payloads|);
    assert payloads[..|payloads|] == payloads && payloads[|payloads|..] == [];
    assert Frames([]) + tail == tail;
    forall i | 0 <= i < |payloads|
      ensures AllReceived(payloads)[i] == Bodies(payloads)[i] <==> |payloads[i]| < TWO_31
    {
    }
  }

  /** The same however the bytes that carry the packets are divided into non-empty chunks. */
  lemma ChunkedFrames(chunks: seq<Bytes>, payloads: seq<Bytes>, tail: Bytes)
    requires forall i :: 0 <= i < |chunks| ==> chunks[i] != []
    requires Flatten(chunks) == Frames(payloads) + tail && Framed(payloads)
    ensures Packets(Yield(chunks), |payloads|) == (AllReceived(payloads), tail)
    ensures Packets(Yield(chunks), |payloads|) == (Bodies(payloads), tail) <==>
      forall i :: 0 <= i < |payloads| ==> |payloads[i]| < TWO_31
  {
    YieldIsAll(chunks);
    PacketsOfFrames(payloads, tail);
  }
}
