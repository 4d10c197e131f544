/** The growable output buffer: reservation, appending, and clearing. */
module SmartStrings {
  import opened ByteStrings

  class SmartString {
    var c: array<Byte>
    var len: nat

    ghost predicate Valid()
      reads this
    {
      len <= c.Length
    }

    ghost function Contents(): (s: Bytes)
      requires Valid()
      reads this, c
      ensures |s| == len
    {
      c[..len]
    }

    constructor ()
      ensures Valid() && Contents() == [] && fresh(c)
    {
      c := new Byte[0];
      len := 0;
    }

    /** The engine's reallocation: room for `n` bytes above the used ones, which are kept. Its slack is not modelled. */
    method Reallocate(n: nat)
      requires Valid()
      modifies this`c
      ensures Valid() && Contents() == old(Contents())
      ensures len + n < c.Length && fresh(c)
    {
      var d := new Byte[len + n + 1];
      forall i | 0 <= i < len {
        d[i] := c[i];
      }
      assert d[..len] == c[..len];
      c := d;
    }

    /** Reserves room: after it, `n` more bytes fit and the used length stays below the capacity. */
    method Ensure(n: nat)
      requires Valid()
      modifies this`c
      ensures Valid() && Contents() == old(Contents())
      ensures len + n < c.Length
      ensures c == old(c) || fresh(c)
      ensures old(c.Length > len + n) ==> c == old(c)
      ensures old(c.Length) <= c.Length
    {
      if c.Length > len + n {
        return;
      }
      var needed := c.Length * 2;
      if len + n > needed {
        needed := len + n;
      }
      Reallocate(needed);
    }

    /** Writes at the current position and moves it; the caller has reserved the room. */
    method Append(s: Bytes)
      requires Valid() && len + |s| <= c.Length
      modifies this`len, c
      ensures Valid() && Contents() == old(Contents()) + s
      ensures c[len..] == old(c[len + |s|..])
    {
      var at := len;
      forall i | 0 <= i < |s| {
        c[at + i] := s[i];
      }
      len := at + |s|;
    }

    /** Zeroes the whole allocation. */
    method Nullify()
      requires Valid()
      modifies c
      ensures Valid() && forall i :: 0 <= i < c.Length ==> c[i] == 0
    {
      forall i | 0 <= i < c.Length {
        c[i] := 0;
      }
    }

    /** Forgets the contents, as is done after a request was sent or a reply was taken. */
    method Reset()
      requires Valid()
      modifies this`len, c
      ensures Valid() && Contents() == []
      ensures forall i :: 0 <= i < c.Length ==> c[i] == 0
    {
      len := 0;
      Nullify();
    }
  }
}
