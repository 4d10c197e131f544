/** PHP values as the driver sees them: ordered tables, the key rules of the engine, and the list/map test. */
module PhpValues {
  import opened ByteStrings

  const LONG_MAX: int := TWO_63 - 1

  datatype Key = IntKey(n: int) | StrKey(s: Bytes)

  /** One key of a table and what it holds. */
  datatype Entry<V> = Entry(key: Key, val: V)

  /** `POther` is a value MessagePack has no form for (an object or a resource). Doubles are kept as their bits. */
  datatype PVal =
    | PNull
    | PBool(b: bool)
    | PLong(n: int)
    | PDouble(bits: Bytes)
    | PStr(s: Bytes)
    | PTable(entries: seq<Entry<PVal>>, next: int)
    | POther

  function KeysOf<V>(es: seq<Entry<V>>): (keys: seq<Key>)
    ensures |keys| == |es| && forall i :: 0 <= i < |es| ==> keys[i] == es[i].key
  {
    seq(|es|, i requires 0 <= i < |es| => es[i].key)
  }

  /** The first position holding `k`, or the number of keys if there is none. */
  function IndexOf(keys: seq<Key>, k: Key): (i: nat)
    ensures i <= |keys|
    ensures i < |keys| ==> keys[i] == k
    ensures forall j :: 0 <= j < i ==> keys[j] != k
    ensures i < |keys| <==> k in keys
  {
    if keys == [] then 0 else if keys[0] == k then 0 else 1 + IndexOf(keys[1..], k)
  }

  function Find(es: seq<Entry<PVal>>, k: Key): (r: Option<PVal>)
    ensures r.Some? <==> k in KeysOf(es)
    ensures r.Some? ==> Entry(k, r.value) in es
  {
    var i := IndexOf(KeysOf(es), k);
    if i < |es| then Some(es[i].val) else None
  }

  ghost predicate Distinct(keys: seq<Key>) {
    forall i, j :: 0 <= i < j < |keys| ==> keys[i] != keys[j]
  }

  /** The engine's update: an existing key keeps its place, a new one goes to the end. */
  function Put(es: seq<Entry<PVal>>, k: Key, v: PVal): (r: seq<Entry<PVal>>)
    ensures k !in KeysOf(es) ==> r == es + [Entry(k, v)] && KeysOf(r) == KeysOf(es) + [k]
    ensures k in KeysOf(es) ==> KeysOf(r) == KeysOf(es)
    ensures Distinct(KeysOf(es)) ==> Distinct(KeysOf(r))
  {
    var i := IndexOf(KeysOf(es), k);
    if i < |es| then es[i := Entry(k, v)] else es + [Entry(k, v)]
  }

  /** The next free index after storing under `k`. */
  function NextAfter(next: int, k: Key): int {
    if k.IntKey? && k.n >= next then if k.n < LONG_MAX then k.n + 1 else LONG_MAX else next
  }

  lemma PutFinds(es: seq<Entry<PVal>>, k: Key, v: PVal, x: Key)
    requires Distinct(KeysOf(es))
    ensures Find(Put(es, k, v), x) == if x == k then Some(v) else Find(es, x)
  {
    var r := Put(es, k, v);
    if x in KeysOf(r) {
      var i := IndexOf(KeysOf(r), x);
      assert KeysOf(r)[i] == x;
      if x != k {
        assert KeysOf(es)[i] == x;
      }
    }
  }

  // ---- string keys that the engine turns into integer keys ----

  predicate Digits(s: Bytes) {
    forall i :: 0 <= i < |s| ==> 0x30 <= s[i] <= 0x39
  }

  function DigitsValue(s: Bytes): nat
    requires Digits(s)
  {
    if s == [] then 0 else DigitsValue(s[..|s| - 1]) * 10 + (s[|s| - 1] - 0x30)
  }

  /** The integer a string key denotes when it is written as PHP itself would print that integer. */
  function CanonicalDecimal(s: Bytes): Option<int> {
    var digits := if s != [] && s[0] == 0x2d then s[1..] else s;
    if digits == [] || !Digits(digits) || (digits[0] == 0x30 && |s| > 1) then None
    else
      var n: int := if |digits| < |s| then 0 - DigitsValue(digits) else DigitsValue(digits);
      if -TWO_63 <= n < TWO_63 then Some(n) else None
  }

  // ---- how PHP prints integers ----

  function PrintedNat(n: nat): (s: Bytes)
    ensures s != []
  {
    if n < 10 then [0x30 + n] else PrintedNat(n / 10) + [0x30 + n % 10]
  }

  /** An integer in decimal: a minus sign before a negative one, no leading zero, and "0" for 0. */
  function Printed(n: int): Bytes {
    if n < 0 then [0x2d] + PrintedNat(-n) else PrintedNat(n)
  }

  lemma {:induction false} PrintedDigits(n: nat)
    ensures Digits(PrintedNat(n)) && DigitsValue(PrintedNat(n)) == n
    ensures PrintedNat(n)[0] == 0x30 <==> n == 0
    ensures |PrintedNat(n)| == 1 <==> n < 10
  {
    if n >= 10 {
      PrintedDigits(n / 10);
      assert PrintedNat(n)[..|PrintedNat(n)| - 1] == PrintedNat(n / 10);
    }
  }

  lemma {:induction false} DigitsPrinted(s: Bytes)
    requires s != [] && Digits(s) && (s[0] == 0x30 ==> |s| == 1)
    ensures PrintedNat(DigitsValue(s)) == s
    ensures s[0] != 0x30 ==> DigitsValue(s) > 0
  {
    var init, d := s[..|s| - 1], s[|s| - 1] - 0x30;
    if init == [] {
      assert DigitsValue(init) == 0 && s == [0x30 + d];
    } else {
      DigitsPrinted(init);
      assert (DigitsValue(init) * 10 + d) / 10 == DigitsValue(init) && (DigitsValue(init) * 10 + d) % 10 == d;
      assert s == init + [0x30 + d];
    }
  }

  /** A string denotes an integer exactly when it is what PHP prints for it and the integer fits 64 bits. */
  lemma CanonicalExactlyWhenPrinted(s: Bytes, n: int)
    ensures CanonicalDecimal(s) == Some(n) <==> -TWO_63 <= n < TWO_63 && s == Printed(n)
  {
    hide DigitsValue;
    var digits := if s != [] && s[0] == 0x2d then s[1..] else s;
    if digits != [] && Digits(digits) && !(digits[0] == 0x30 && |s| > 1) {
      DigitsPrinted(digits);
    }
    if s == Printed(n) {
      PrintedDigits(if n < 0 then -n else n);
      assert n >= 0 ==> 0x30 <= s[0];
    }
  }

  /** The string is a 64-bit integer as PHP prints it. */
  ghost predicate PrintsLong(s: Bytes) {
    exists n :: -TWO_63 <= n < TWO_63 && s == Printed(n)
  }

  /** The key an associative store really uses. */
  function SymKey(s: Bytes): (k: Key)
    ensures k == StrKey(s) <==> CanonicalDecimal(s).None?
  {
    match CanonicalDecimal(s)
    case Some(n) => IntKey(n)
    case None => StrKey(s)
  }

  /** An associative store uses the integer that a string is the print of, and any other string as it is. */
  lemma SymKeyExact(s: Bytes)
    ensures forall n :: -TWO_63 <= n < TWO_63 && s == Printed(n) ==> SymKey(s) == IntKey(n)
    ensures !PrintsLong(s) ==> SymKey(s) == StrKey(s)
    ensures SymKey(s) == StrKey(s) <==> !PrintsLong(s)
  {
    hide CanonicalDecimal, Printed;
    forall n ensures CanonicalDecimal(s) == Some(n) <==> -TWO_63 <= n < TWO_63 && s == Printed(n) {
      CanonicalExactlyWhenPrinted(s, n);
    }
    if CanonicalDecimal(s).Some? {
      assert s == Printed(CanonicalDecimal(s).value);
    }
  }

  // ---- the list/map test ----

  /** A table is packed as a map unless its next free index is its size and its keys are all integers. */
  predicate IsHash(keys: seq<Key>, next: int) {
    |keys| != next || exists i :: 0 <= i < |keys| && keys[i].StrKey?
  }

  /**
   What the engine keeps true of a table: no key twice, a number of keys that fits an `int`, and the next free index
   above every integer key.
   */
  ghost predicate TableOk(keys: seq<Key>, next: int) {
    && Distinct(keys)
    && |keys| < TWO_31
    && forall i :: 0 <= i < |keys| && keys[i].IntKey? ==>
      -TWO_63 <= keys[i].n < TWO_63 && (keys[i].n < next || next >= LONG_MAX)
  }

  ghost predicate NonNegative(keys: seq<Key>) {
    forall i :: 0 <= i < |keys| && keys[i].IntKey? ==> keys[i].n >= 0
  }

  /** The keys are exactly the integers from 0 up to the number of keys. */
  ghost predicate ExactRange(keys: seq<Key>) {
    (forall k :: k in keys ==> k.IntKey? && 0 <= k.n < |keys|) &&
    (forall i :: 0 <= i < |keys| ==> IntKey(i) in keys)
  }

  function Range(n: nat): (s: set<int>)
    ensures |s| == n && forall i :: i in s <==> 0 <= i < n
  {
    if n == 0 then {} else Range(n - 1) + {n - 1}
  }

  lemma {:induction false} SubsetOfSameSize<T>(a: set<T>, b: set<T>)
    requires a <= b && |a| == |b|
    ensures a == b
  {
    if |a| > 0 {
      var x :| x in a;
      SubsetOfSameSize(a - {x}, b - {x});
      assert a == a - {x} + {x} && b == b - {x} + {x};
    }
  }

  ghost function Numbers(keys: seq<Key>): (s: set<int>)
    requires forall i :: 0 <= i < |keys| ==> keys[i].IntKey?
    ensures forall n :: n in s <==> IntKey(n) in keys
    ensures Distinct(keys) ==> |s| == |keys|
  {
    if keys == [] then {}
    else
      var last := |keys| - 1;
      var s := Numbers(keys[..last]);
      assert keys == keys[..last] + [keys[last]];
      s + {keys[last].n}
  }

  /** Pigeonhole: as many distinct non-negative integer keys below `|keys|` as there are keys leave no gap. */
  lemma NoGap(keys: seq<Key>)
    requires Distinct(keys)
    requires forall i :: 0 <= i < |keys| ==> keys[i].IntKey? && 0 <= keys[i].n < |keys|
    ensures ExactRange(keys)
  {
    var s := Numbers(keys);
    assert s <= Range(|keys|) by {
      forall n | n in s ensures n in Range(|keys|) {
        assert IntKey(n) in keys;
      }
    }
    SubsetOfSameSize(s, Range(|keys|));
    forall i | 0 <= i < |keys| ensures IntKey(i) in keys {
      assert i in s;
    }
  }

  /** With non-negative integer keys the test is exact: a list is a table whose keys are exactly 0 .. n-1. */
  lemma ListTestExact(keys: seq<Key>, next: int)
    requires TableOk(keys, next) && NonNegative(keys)
    ensures !IsHash(keys, next) <==> next == |keys| && ExactRange(keys)
  {
    if !IsHash(keys, next) {
      NoGap(keys);
    }
  }

  /** For a table classified as a list, every index below its size is present exactly when no key is negative. */
  lemma ListFormComplete(keys: seq<Key>, next: int)
    requires TableOk(keys, next) && !IsHash(keys, next)
    ensures ExactRange(keys) <==> NonNegative(keys)
  {
    if NonNegative(keys) {
      NoGap(keys);
    }
  }

  /** The keys -5 and 1 with next free index 2 pass the list test although index 0 is missing. */
  lemma NegativeKeyPassesListTest()
    ensures var keys := [IntKey(-5), IntKey(1)];
      TableOk(keys, 2) && !IsHash(keys, 2) && IntKey(0) !in keys
  {
  }

  // ---- what a value means, whatever the order of its keys ----

  datatype Content =
    | CNull
    | CBool(b: bool)
    | CLong(n: int)
    | CDouble(bits: Bytes)
    | CStr(s: Bytes)
    | CTable(m: map<Key, Content>)
    | COther

  function ContentOf(p: PVal): Content {
    match p
    case PNull => CNull
    case PBool(b) => CBool(b)
    case PLong(n) => CLong(n)
    case PDouble(bits) => CDouble(bits)
    case PStr(s) => CStr(s)
    case POther => COther
    case PTable(es, _) =>
      var keys := KeysOf(es);
      CTable(map k | k in keys :: ContentOf(es[IndexOf(keys, k)].val))
  }
}
