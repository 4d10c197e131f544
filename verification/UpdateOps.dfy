/**
 The list of update operations a caller passes: each operation is a map, checked and turned into its positional form.
 */
module UpdateOps {
  import opened ByteStrings
  import opened PhpValues
  import opened RoundTrip
  import opened Proto

  const OP: Bytes := [0x6f, 0x70]
  const FIELD: Bytes := [0x66, 0x69, 0x65, 0x6c, 0x64]
  const ARG: Bytes := [0x61, 0x72, 0x67]
  const OFFSET: Bytes := [0x6f, 0x66, 0x66, 0x73, 0x65, 0x74]
  const LENGTH: Bytes := [0x6c, 0x65, 0x6e, 0x67, 0x74, 0x68]
  const LIST: Bytes := [0x6c, 0x69, 0x73, 0x74]

  const SPLICE: Byte := 0x3a
  /** `+`, `-`, `&`, `|`, `^` and `#`: their argument is an integer. */
  const NUMERIC: set<Byte> := {0x2b, 0x2d, 0x26, 0x7c, 0x5e, 0x23}
  /** `=` and `!`: their argument is anything that can be packed. */
  const ASSIGNING: set<Byte> := {0x3d, 0x21}

  function Lookup(op: PVal, name: Bytes): Option<PVal> {
    if op.PTable? then Find(op.entries, StrKey(name)) else None
  }

  predicate IsLong(v: Option<PVal>) { v.Some? && v.value.PLong? }

  predicate IsString(v: Option<PVal>) { v.Some? && v.value.PStr? }

  predicate IsMap(op: PVal) { op.PTable? && IsHash(KeysOf(op.entries), op.next) }

  /** The one character that names the operation. */
  function OpOf(op: PVal): Option<Byte> {
    match Lookup(op, OP)
    case Some(PStr(s)) => if |s| == 1 then Some(s[0]) else None
    case _ => None
  }

  /** The arguments an operation of each kind needs, besides the field number; nothing else may be there. */
  predicate AcceptsArgs(op: PVal, c: Byte)
    requires op.PTable?
  {
    var n := |op.entries|;
    || (c == SPLICE && n == 5 && IsLong(Lookup(op, OFFSET)) && IsLong(Lookup(op, LENGTH)) && IsString(Lookup(op, LIST)))
    || (c in NUMERIC && n == 3 && IsLong(Lookup(op, ARG)))
    || (c in ASSIGNING && n == 3 && Lookup(op, ARG).Some? && !Lookup(op, ARG).value.POther?)
  }

  /** The operations that are accepted. */
  predicate Accepts(op: PVal) {
    IsMap(op) && OpOf(op).Some? && IsLong(Lookup(op, FIELD)) && AcceptsArgs(op, OpOf(op).value)
  }

  function ListOf(vs: seq<PVal>): (p: PVal)
    ensures p.PTable?
  {
    PTable(seq(|vs|, i requires 0 <= i < |vs| => Entry(IntKey(i), vs[i])), |vs|)
  }

  /** The values of an operation in the order of the positional form. */
  function Values(op: PVal): (vs: seq<PVal>)
    ensures |vs| == 3 || |vs| == 5
  {
    var value := (name: Bytes) => if Lookup(op, name).Some? then Lookup(op, name).value else PNull;
    if OpOf(op) == Some(SPLICE) then [value(OP), value(FIELD), value(OFFSET), value(LENGTH), value(LIST)]
    else [value(OP), value(FIELD), value(ARG)]
  }

  function Positional(op: PVal): (p: PVal)
    ensures p.PTable? && (|p.entries| == 3 || |p.entries| == 5)
  {
    ListOf(Values(op))
  }

  // ---- the two forms of an operation, literally ----

  ghost predicate NoKeyTwice(p: PVal) {
    p.PTable? ==> Distinct(KeysOf(p.entries))
  }

  function Ascii(s: string): (b: Bytes)
    ensures |b| == |s|
  {
    seq(|s|, i requires 0 <= i < |s| => s[i] as int % 256)
  }

  /** The table holds `v` under the name. */
  ghost predicate Has(p: PVal, name: string, v: PVal) {
    p.PTable? && Entry(StrKey(Ascii(name)), v) in p.entries
  }

  /** Exactly an "op" of one character, an integer "field", and an "arg" that suits the character. */
  ghost predicate ArgForm(op: PVal, c: char, field: int, arg: PVal) {
    && op.PTable? && |op.entries| == 3
    && Has(op, "op", PStr(Ascii([c]))) && Has(op, "field", PLong(field)) && Has(op, "arg", arg)
    && ((c in {'+', '-', '&', '|', '^', '#'} && arg.PLong?) || (c in {'=', '!'} && !arg.POther?))
  }

  /** Exactly the "op" `:`, an integer "field", "offset" and "length", and a string "list". */
  ghost predicate SpliceForm(op: PVal, field: int, offset: int, length: int, list: Bytes) {
    && op.PTable? && |op.entries| == 5
    && Has(op, "op", PStr(Ascii(":"))) && Has(op, "field", PLong(field))
    && Has(op, "offset", PLong(offset)) && Has(op, "length", PLong(length)) && Has(op, "list", PStr(list))
  }

  /** The operation has one of the two forms, and `out` is the list of its parts. */
  ghost predicate Becomes(op: PVal, out: PVal) {
    || (exists c, field, arg :: ArgForm(op, c, field, arg) &&
          out == PTable([Entry(IntKey(0), PStr(Ascii([c]))), Entry(IntKey(1), PLong(field)), Entry(IntKey(2), arg)], 3))
    || (exists field, offset, length, list :: SpliceForm(op, field, offset, length, list) &&
          out == PTable([Entry(IntKey(0), PStr(Ascii(":"))), Entry(IntKey(1), PLong(field)),
                         Entry(IntKey(2), PLong(offset)), Entry(IntKey(3), PLong(length)),
                         Entry(IntKey(4), PStr(list))], 5))
  }

  /** What is made of an operation: the list of its parts, and nothing only if it has neither form. */
  ghost predicate OpVerdict(op: PVal, arr: Option<PVal>) {
    match arr
    case Some(out) => Becomes(op, out)
    case None => forall out :: !Becomes(op, out)
  }

  lemma NamesInAscii()
    ensures Ascii("op") == OP && Ascii("field") == FIELD && Ascii("arg") == ARG
    ensures Ascii("offset") == OFFSET && Ascii("length") == LENGTH && Ascii("list") == LIST
    ensures Ascii(":") == [SPLICE]
  {
  }

  lemma CharacterOf(b: Byte) returns (c: char)
    ensures Ascii([c]) == [b]
    ensures b in NUMERIC <==> c in {'+', '-', '&', '|', '^', '#'}
    ensures b in ASSIGNING <==> c in {'=', '!'}
  {
    c := b as char;
  }

  lemma CharacterByte(c: char)
    requires c in {'+', '-', '&', '|', '^', '#', '=', '!'}
    ensures Ascii([c]) == [Ascii([c])[0]] && Ascii([c])[0] != SPLICE
    ensures Ascii([c])[0] in ASSIGNING <==> c in {'=', '!'}
    ensures Ascii([c])[0] in NUMERIC <==> c in {'+', '-', '&', '|', '^', '#'}
  {
  }

  lemma FindAt(es: seq<Entry<PVal>>, i: nat)
    requires i < |es| && Distinct(KeysOf(es))
    ensures Find(es, es[i].key) == Some(es[i].val)
  {
    var j := IndexOf(KeysOf(es), es[i].key);
    assert KeysOf(es)[j] == KeysOf(es)[i];
  }

  /** Under a key that is there once, looking up and holding are the same. */
  lemma HasFound(p: PVal, name: string, v: PVal)
    requires NoKeyTwice(p)
    ensures Has(p, name, v) <==> Lookup(p, Ascii(name)) == Some(v)
  {
    if Has(p, name, v) {
      var i :| 0 <= i < |p.entries| && p.entries[i] == Entry(StrKey(Ascii(name)), v);
      FindAt(p.entries, i);
    }
  }

  /** A table with a string key is a map. */
  lemma MapByKey(op: PVal, name: Bytes)
    requires op.PTable? && Find(op.entries, StrKey(name)).Some?
    ensures IsMap(op)
  {
    hide Find;
    var i :| 0 <= i < |KeysOf(op.entries)| && KeysOf(op.entries)[i] == StrKey(name);
  }

  lemma ArgFormAccepted(op: PVal, c: char, field: int, arg: PVal)
    requires NoKeyTwice(op) && ArgForm(op, c, field, arg)
    ensures Accepts(op) && Values(op) == [PStr(Ascii([c])), PLong(field), arg]
  {
    hide Find, IsHash, Has, Ascii;
    NamesInAscii();
    CharacterByte(c);
    HasFound(op, "op", PStr(Ascii([c])));
    HasFound(op, "field", PLong(field));
    HasFound(op, "arg", arg);
    MapByKey(op, OP);
  }

  lemma SpliceFormAccepted(op: PVal, field: int, offset: int, length: int, list: Bytes)
    requires NoKeyTwice(op) && SpliceForm(op, field, offset, length, list)
    ensures Accepts(op)
    ensures Values(op) == [PStr(Ascii(":")), PLong(field), PLong(offset), PLong(length), PStr(list)]
  {
    hide Find, IsHash, Has, Ascii;
    NamesInAscii();
    HasFound(op, "op", PStr(Ascii(":")));
    HasFound(op, "field", PLong(field));
    HasFound(op, "offset", PLong(offset));
    HasFound(op, "length", PLong(length));
    HasFound(op, "list", PStr(list));
    MapByKey(op, OP);
  }

  lemma AcceptedArgForm(op: PVal)
    requires NoKeyTwice(op) && Accepts(op) && OpOf(op).value != SPLICE
    ensures Becomes(op, Positional(op))
  {
    hide Find, IsHash, Has, Ascii;
    NamesInAscii();
    var b, field, arg := OpOf(op).value, Lookup(op, FIELD).value.n, Lookup(op, ARG).value;
    var c := CharacterOf(b);
    assert Lookup(op, OP).value.s == [b];
    HasFound(op, "op", PStr([b]));
    HasFound(op, "field", PLong(field));
    HasFound(op, "arg", arg);
    assert ArgForm(op, c, field, arg);
    assert Positional(op).entries
        == [Entry(IntKey(0), PStr([b])), Entry(IntKey(1), PLong(field)), Entry(IntKey(2), arg)];
  }

  lemma AcceptedSpliceForm(op: PVal)
    requires NoKeyTwice(op) && Accepts(op) && OpOf(op).value == SPLICE
    ensures Becomes(op, Positional(op))
  {
    hide Find, IsHash, Has, Ascii;
    NamesInAscii();
    var field, list := Lookup(op, FIELD).value.n, Lookup(op, LIST).value.s;
    var offset, length := Lookup(op, OFFSET).value.n, Lookup(op, LENGTH).value.n;
    assert Lookup(op, OP).value.s == [SPLICE];
    HasFound(op, "op", PStr([SPLICE]));
    HasFound(op, "field", PLong(field));
    HasFound(op, "offset", PLong(offset));
    HasFound(op, "length", PLong(length));
    HasFound(op, "list", PStr(list));
    assert SpliceForm(op, field, offset, length, list);
    assert Positional(op).entries == [Entry(IntKey(0), PStr([SPLICE])), Entry(IntKey(1), PLong(field)),
      Entry(IntKey(2), PLong(offset)), Entry(IntKey(3), PLong(length)), Entry(IntKey(4), PStr(list))];
  }

  /** An operation is accepted exactly when it has one of the two forms. */
  lemma AcceptsExactly(op: PVal)
    requires NoKeyTwice(op)
    ensures OpVerdict(op, if Accepts(op) then Some(Positional(op)) else None)
  {
    hide AcceptsArgs, Positional, ArgForm, SpliceForm, Ascii, IsHash, Lookup;
    if Accepts(op) {
      if OpOf(op).value == SPLICE {
        AcceptedSpliceForm(op);
      } else {
        AcceptedArgForm(op);
      }
    } else {
      forall c, field, arg ensures !ArgForm(op, c, field, arg) {
        if ArgForm(op, c, field, arg) {
          ArgFormAccepted(op, c, field, arg);
        }
      }
      forall field, offset, length, list ensures !SpliceForm(op, field, offset, length, list) {
        if SpliceForm(op, field, offset, length, list) {
          SpliceFormAccepted(op, field, offset, length, list);
        }
      }
    }
  }

  // ---- the checks ----

  /** Appends to a list table under its next free index. */
  function AddNext(p: PVal, v: PVal): (r: PVal)
    requires p.PTable?
    ensures r.PTable?
  {
    PTable(p.entries + [Entry(IntKey(p.next), v)], p.next + 1)
  }

  /** Checks one operation and builds its positional form. */
  method VerifyOp(op: PVal) returns (arr: Option<PVal>)
    ensures arr == if Accepts(op) then Some(Positional(op)) else None
    ensures NoKeyTwice(op) ==> OpVerdict(op, arr)
  {
    hide Lookup, IsHash, OpVerdict, NoKeyTwice;
    if NoKeyTwice(op) {
      AcceptsExactly(op);
    }
    if !op.PTable? || !IsHash(KeysOf(op.entries), op.next) {
      return None;
    }
    var n := |op.entries|;
    var opstr := Lookup(op, OP);
    if !IsString(opstr) || |opstr.value.s| != 1 {
      return None;
    }
    var oppos := Lookup(op, FIELD);
    if !IsLong(oppos) {
      return None;
    }
    var c := opstr.value.s[0];
    var built := AddNext(AddNext(PTable([], 0), opstr.value), oppos.value);
    if c == SPLICE {
      if n != 5 {
        return None;
      }
      var offset, length, list := Lookup(op, OFFSET), Lookup(op, LENGTH), Lookup(op, LIST);
      if !IsLong(offset) || !IsLong(length) || !IsString(list) {
        return None;
      }
      built := AddNext(AddNext(AddNext(built, offset.value), length.value), list.value);
    } else if c in NUMERIC || c in ASSIGNING {
      if n != 3 {
        return None;
      }
      var arg := Lookup(op, ARG);
      if arg.None? || (if c in NUMERIC then !arg.value.PLong? else arg.value.POther?) {
        return None;
      }
      built := AddNext(built, arg.value);
    } else {
      return None;
    }
    assert built == Positional(op);
    arr := Some(built);
  }

  function ItemAt(args: PVal, i: nat): PVal
    requires args.PTable?
  {
    if Find(args.entries, IntKey(i)).Some? then Find(args.entries, IntKey(i)).value else PNull
  }

  predicate AcceptsAt(args: PVal, i: nat)
    requires args.PTable?
  {
    Find(args.entries, IntKey(i)).Some? && Accepts(ItemAt(args, i))
  }

  /** The operations of a list are all there, and all accepted. */
  predicate AcceptsAll(args: PVal) {
    && args.PTable? && !IsHash(KeysOf(args.entries), args.next)
    && forall i :: 0 <= i < |args.entries| ==> AcceptsAt(args, i)
  }

  /** The list of the positional forms of the first `n` operations. */
  function PositionalList(args: PVal, n: nat): PVal
    requires args.PTable?
  {
    ListOf(seq(n, i requires 0 <= i < n => Positional(ItemAt(args, i))))
  }

  lemma PositionalListMore(args: PVal, n: nat)
    requires args.PTable?
    ensures PositionalList(args, n + 1) == AddNext(PositionalList(args, n), Positional(ItemAt(args, n)))
  {
    hide ItemAt, Positional;
  }

  /** `out` is what becomes of the operation under index `i`. */
  ghost predicate BecomesAt(args: PVal, i: nat, out: PVal) {
    args.PTable? && exists op :: Entry(IntKey(i), op) in args.entries && Becomes(op, out)
  }

  ghost predicate ReadyAt(args: PVal, i: nat) {
    exists out :: BecomesAt(args, i, out)
  }

  /** A list by its keys and its next free index, with an operation of one of the two forms under every index. */
  ghost predicate OpsList(args: PVal) {
    && args.PTable? && args.next == |args.entries|
    && (forall i :: 0 <= i < |args.entries| ==> args.entries[i].key.IntKey?)
    && forall i :: 0 <= i < |args.entries| ==> ReadyAt(args, i)
  }

  /** What is made of a list: the list of what becomes of its operations in order, and nothing only if it is none. */
  ghost predicate ListVerdict(args: PVal, arr: Option<PVal>) {
    match arr
    case Some(out) =>
      && OpsList(args) && out.PTable? && |out.entries| == |args.entries| == out.next
      && forall i :: 0 <= i < |out.entries| ==>
           out.entries[i].key == IntKey(i) && BecomesAt(args, i, out.entries[i].val)
    case None => !OpsList(args)
  }

  /** No key twice, in the list and in its operations. */
  ghost predicate KeysOnce(args: PVal) {
    && NoKeyTwice(args)
    && (args.PTable? ==> forall i :: 0 <= i < |args.entries| ==> NoKeyTwice(args.entries[i].val))
  }

  lemma KeysDiffer(p: PVal)
    requires p.PTable? && NoKeyTwice(p)
    ensures Distinct(KeysOf(p.entries))
  {
  }

  lemma ItemHeld(args: PVal, i: nat, op: PVal)
    requires KeysOnce(args) && args.PTable?
    ensures Entry(IntKey(i), op) in args.entries <==> Find(args.entries, IntKey(i)) == Some(op)
    ensures Entry(IntKey(i), op) in args.entries ==> NoKeyTwice(op)
  {
    hide Find, NoKeyTwice;
    if Entry(IntKey(i), op) in args.entries {
      var j :| 0 <= j < |args.entries| && args.entries[j] == Entry(IntKey(i), op);
      assert Distinct(KeysOf(args.entries)) by { KeysDiffer(args); }
      FindAt(args.entries, j);
    }
  }

  lemma AcceptedAt(args: PVal, i: nat)
    requires KeysOnce(args) && args.PTable?
    ensures AcceptsAt(args, i) <==> ReadyAt(args, i)
    ensures AcceptsAt(args, i) ==> BecomesAt(args, i, Positional(ItemAt(args, i)))
  {
    hide Find, Accepts, Positional, Becomes, KeysOnce;
    var item := ItemAt(args, i);
    forall op ensures Entry(IntKey(i), op) in args.entries <==> Find(args.entries, IntKey(i)) == Some(op) {
      ItemHeld(args, i, op);
    }
    if Find(args.entries, IntKey(i)).Some? {
      ItemHeld(args, i, item);
      AcceptsExactly(item);
    }
    if AcceptsAt(args, i) {
      assert Becomes(item, Positional(item));
      assert BecomesAt(args, i, Positional(item));
    } else {
      forall out ensures !BecomesAt(args, i, out) {
      }
    }
  }

  /** A list is accepted exactly when it is one of operations of the two forms. */
  lemma AcceptsAllExactly(args: PVal)
    requires KeysOnce(args)
    ensures ListVerdict(args, if AcceptsAll(args) then Some(PositionalList(args, |args.entries|)) else None)
  {
    hide Find, AcceptsAt, Positional, BecomesAt, KeysOnce, ItemAt, ReadyAt;
    if args.PTable? {
      var keys := KeysOf(args.entries);
      assert (forall i :: 0 <= i < |keys| ==> !keys[i].StrKey?)
          <==> (forall i :: 0 <= i < |args.entries| ==> args.entries[i].key.IntKey?);
      forall i | 0 <= i < |args.entries|
        ensures AcceptsAt(args, i) <==> ReadyAt(args, i)
        ensures AcceptsAt(args, i) ==> BecomesAt(args, i, Positional(ItemAt(args, i)))
      {
        AcceptedAt(args, i);
      }
      if AcceptsAll(args) {
        var out := PositionalList(args, |args.entries|);
        assert forall i :: 0 <= i < |args.entries| ==> out.entries[i] == Entry(IntKey(i), Positional(ItemAt(args, i)));
      }
    }
  }

  /** Accepts a list exactly when it accepts every operation; output `i` is the positional form of input `i`. */
  method VerifyArgs(args: PVal) returns (arr: Option<PVal>)
    ensures arr.Some? <==> AcceptsAll(args)
    ensures arr.Some? ==> arr.value == PositionalList(args, |args.entries|)
    ensures KeysOnce(args) ==> ListVerdict(args, arr)
  {
    hide Find, IsHash, Accepts, Positional, KeysOnce, ListVerdict, OpVerdict;
    if KeysOnce(args) {
      AcceptsAllExactly(args);
    }
    if !args.PTable? || IsHash(KeysOf(args.entries), args.next) {
      return None;
    }
    var n := |args.entries|;
    var i := 0;
    var built := PTable([], 0);
    while i < n
      invariant 0 <= i <= n
      invariant forall j :: 0 <= j < i ==> AcceptsAt(args, j)
      invariant built == PositionalList(args, i)
    {
      var op := Find(args.entries, IntKey(i));
      if op.None? {
        assert !AcceptsAt(args, i);
        return None;
      }
      var form := VerifyOp(op.value);
      if form.None? {
        assert !AcceptsAt(args, i);
        return None;
      }
      assert AcceptsAt(args, i);
      PositionalListMore(args, i);
      built := AddNext(built, form.value);
      i := i + 1;
    }
    arr := Some(built);
  }

  // ---- what acceptance means ----

  lemma {:induction false} KeySetSize(keys: seq<Key>)
    requires Distinct(keys)
    ensures |set k | k in keys| == |keys|
  {
    if keys != [] {
      var init, last := keys[..|keys| - 1], keys[|keys| - 1];
      KeySetSize(init);
      assert keys == init + [last] && last !in init;
      assert (set k | k in keys) == (set k | k in init) + {last};
    }
  }

  /** As many distinct keys as there are names, each name among them: there are no others. */
  lemma NoOtherKeys(keys: seq<Key>, names: set<Key>)
    requires Distinct(keys) && |names| == |keys| && forall k :: k in names ==> k in keys
    ensures forall k :: k in keys ==> k in names
  {
    KeySetSize(keys);
    SubsetOfSameSize(names, set k | k in keys);
    assert forall k :: k in keys ==> k in (set k | k in keys);
  }

  ghost function KeySet(c: Byte): set<Key> {
    if c == SPLICE then {StrKey(OP), StrKey(FIELD), StrKey(OFFSET), StrKey(LENGTH), StrKey(LIST)}
    else {StrKey(OP), StrKey(FIELD), StrKey(ARG)}
  }

  lemma NamesDiffer()
    ensures OP != FIELD && OP != ARG && OP != OFFSET && OP != LENGTH && OP != LIST
    ensures FIELD != ARG && FIELD != OFFSET && FIELD != LENGTH && FIELD != LIST
    ensures OFFSET != LENGTH && OFFSET != LIST && LENGTH != LIST
  {
    assert |OP| == 2 && |FIELD| == 5 && |ARG| == 3 && |LIST| == 4;
    assert |OFFSET| == 6 && |LENGTH| == 6 && OFFSET[0] != LENGTH[0];
  }

  /** An accepted operation has exactly the keys its kind calls for. */
  lemma AcceptedKeys(op: PVal)
    requires Accepts(op) && Distinct(KeysOf(op.entries))
    ensures forall k :: k in KeysOf(op.entries) <==> k in KeySet(OpOf(op).value)
  {
    hide IsHash, IndexOf;
    var c := OpOf(op).value;
    NamesDiffer();
    assert |KeySet(c)| == |op.entries|;
    NoOtherKeys(KeysOf(op.entries), KeySet(c));
  }

  /** The map a positional form stands for. */
  function Rebuild(p: PVal): (op: PVal)
    requires p.PTable? && (|p.entries| == 3 || |p.entries| == 5)
    ensures op.PTable? && |op.entries| == |p.entries|
  {
    var es := p.entries;
    if |es| == 5 then
      PTable([Entry(StrKey(OP), es[0].val), Entry(StrKey(FIELD), es[1].val), Entry(StrKey(OFFSET), es[2].val),
              Entry(StrKey(LENGTH), es[3].val), Entry(StrKey(LIST), es[4].val)], 0)
    else PTable([Entry(StrKey(OP), es[0].val), Entry(StrKey(FIELD), es[1].val), Entry(StrKey(ARG), es[2].val)], 0)
  }

  /** Tables with the same values under the same keys, whatever the order of the keys. */
  ghost predicate SameTable(a: PVal, b: PVal) {
    a.PTable? && b.PTable? && forall k :: Find(a.entries, k) == Find(b.entries, k)
  }

  lemma RebuiltKeys(op: PVal)
    requires Accepts(op)
    ensures var keys := KeysOf(Rebuild(Positional(op)).entries);
      Distinct(keys) && forall k :: k in keys <==> k in KeySet(OpOf(op).value)
  {
    hide IsHash, Lookup, AcceptsArgs;
    NamesDiffer();
    var keys := KeysOf(Rebuild(Positional(op)).entries);
    if OpOf(op).value == SPLICE {
      assert keys == [StrKey(OP), StrKey(FIELD), StrKey(OFFSET), StrKey(LENGTH), StrKey(LIST)];
    } else {
      assert keys == [StrKey(OP), StrKey(FIELD), StrKey(ARG)];
    }
  }

  lemma RebuiltValue(op: PVal, i: nat)
    requires Accepts(op) && i < |Positional(op).entries|
    ensures var p := Rebuild(Positional(op)); Find(op.entries, p.entries[i].key) == Some(p.entries[i].val)
  {
    hide IsHash, Find;
  }

  /** The operation can be rebuilt from its positional form. */
  lemma PositionalRebuilds(op: PVal)
    requires Accepts(op) && Distinct(KeysOf(op.entries))
    ensures SameTable(Rebuild(Positional(op)), op)
  {
    hide IsHash, Find, AcceptsArgs, KeySet, Values, Rebuild, Positional;
    AcceptedKeys(op);
    RebuiltKeys(op);
    var p := Rebuild(Positional(op));
    forall k ensures Find(p.entries, k) == Find(op.entries, k) {
      if k in KeysOf(p.entries) {
        var i :| 0 <= i < |KeysOf(p.entries)| && KeysOf(p.entries)[i] == k;
        FindAt(p.entries, i);
        RebuiltValue(op, i);
      }
    }
  }

  /** Different operations have different positional forms. */
  lemma PositionalInjective(a: PVal, b: PVal)
    requires Accepts(a) && Accepts(b) && Distinct(KeysOf(a.entries)) && Distinct(KeysOf(b.entries))
    requires Positional(a) == Positional(b)
    ensures SameTable(a, b)
  {
    hide Accepts, Positional, Rebuild, Find;
    PositionalRebuilds(a);
    PositionalRebuilds(b);
  }

  /** Lists with equal outputs have equal operations, place by place. */
  lemma OutputDeterminesOps(a: PVal, b: PVal, i: nat)
    requires AcceptsAll(a) && AcceptsAll(b) && i < |a.entries| && i < |b.entries|
    requires PositionalList(a, |a.entries|) == PositionalList(b, |b.entries|)
    requires NoKeyTwice(ItemAt(a, i)) && NoKeyTwice(ItemAt(b, i))
    ensures |a.entries| == |b.entries| && SameTable(ItemAt(a, i), ItemAt(b, i))
  {
    hide IsHash, Find, AcceptsArgs, Positional, SameTable, Distinct, ItemAt;
    assert AcceptsAt(a, i) && AcceptsAt(b, i);
    assert PositionalList(a, |a.entries|).entries[i].val == Positional(ItemAt(a, i));
    assert PositionalList(b, |b.entries|).entries[i].val == Positional(ItemAt(b, i));
    PositionalInjective(ItemAt(a, i), ItemAt(b, i));
  }

  /** A positional form is a list, and is packed as one. */
  lemma PositionalIsList(op: PVal)
    requires Accepts(op)
    ensures var p := Positional(op); !IsHash(KeysOf(p.entries), p.next) && ExactRange(KeysOf(p.entries))
  {
    hide Find;
    var p := Positional(op);
    assert forall i :: 0 <= i < |p.entries| ==> KeysOf(p.entries)[i] == IntKey(i);
  }

  // ---- on the wire ----

  lemma FoundMember(es: seq<Entry<PVal>>, k: Key)
    requires Find(es, k).Some?
    ensures exists i :: 0 <= i < |es| && es[i].val == Find(es, k).value
  {
    var i :| 0 <= i < |es| && es[i] == Entry(k, Find(es, k).value);
    assert es[i].val == Find(es, k).value;
  }

  /** What is looked up in a sane and clean table is so too. */
  lemma LookupClean(op: PVal, name: Bytes)
    requires Sane(op) && Clean(op) && Lookup(op, name).Some?
    ensures Sane(Lookup(op, name).value) && Clean(Lookup(op, name).value)
  {
    hide Find;
    FoundMember(op.entries, StrKey(name));
  }

  lemma ListOfClean(vs: seq<PVal>)
    requires |vs| < TWO_31 && forall i :: 0 <= i < |vs| ==> Sane(vs[i]) && Clean(vs[i])
    ensures Sane(ListOf(vs)) && Clean(ListOf(vs))
  {
    var p := ListOf(vs);
    assert forall i :: 0 <= i < |vs| ==> KeysOf(p.entries)[i] == IntKey(i) && p.entries[i].val == vs[i];
  }

  lemma PositionalClean(op: PVal)
    requires Accepts(op) && Sane(op) && Clean(op)
    ensures Sane(Positional(op)) && Clean(Positional(op))
  {
    hide IsHash, Lookup, Sane, Clean;
    LookupClean(op, OP);
    LookupClean(op, FIELD);
    if OpOf(op).value == SPLICE {
      LookupClean(op, OFFSET);
      LookupClean(op, LENGTH);
      LookupClean(op, LIST);
    } else {
      LookupClean(op, ARG);
    }
    ListOfClean(Values(op));
  }

  /** Positional forms of sane and clean operations are sane and clean. */
  lemma OutputClean(args: PVal)
    requires AcceptsAll(args) && Sane(args) && Clean(args)
    ensures Sane(PositionalList(args, |args.entries|)) && Clean(PositionalList(args, |args.entries|))
  {
    hide IsHash, Find, Accepts, Positional;
    var n := |args.entries|;
    var vs := seq(n, i requires 0 <= i < n => Positional(ItemAt(args, i)));
    forall i | 0 <= i < n ensures Sane(vs[i]) && Clean(vs[i]) {
      assert AcceptsAt(args, i);
      FoundMember(args.entries, IntKey(i));
      PositionalClean(ItemAt(args, i));
    }
    ListOfClean(vs);
  }

  lemma SaneUpdate(space: U32, index: U32, key: PVal, ops: PVal)
    requires Sane(key) && Sane(ops)
    ensures SaneRequest(Update(space, index, key, ops))
  {
  }

  /**
   End to end: the frame of an update with checked operations unpacks to a body whose tuple field means exactly the
   positional forms, one for each operation in order.
   */
  lemma UpdateCarriesPositionalForms(args: PVal, sync: U32, space: U32, index: U32, key: PVal, tail: Bytes)
    requires AcceptsAll(args) && Sane(args) && Clean(args) && Sane(key)
    requires |Payload(Update(space, index, key, PositionalList(args, |args.entries|)), sync)| < TWO_32
    ensures var ops := PositionalList(args, |args.entries|);
      var r := Update(space, index, key, ops);
      var f, n := Frame(r, sync) + tail, |Payload(r, sync)|;
      && UnpackPackageSize(f[..5]) == Some(n)
      && var header := Unpack(f[5..5 + n]);
      && header.Got?
      && var body := Unpack(header.rest);
      && body.Got? && body.rest == [] && body.v.PTable? && |body.v.entries| == 4
      && body.v.entries[3].key == IntKey(0x21) && ContentOf(body.v.entries[3].val) == ContentOf(ops)
  {
    hide Sane, Clean, AcceptsAt, PositionalList, Payload, Frame, UnpackPackageSize, Unpack, ContentOf, Decoded;
    OutputClean(args);
    var ops := PositionalList(args, |args.entries|);
    var r := Update(space, index, key, ops);
    assert SaneRequest(r) by { SaneUpdate(space, index, key, ops); }
    FrameMeaning(r, sync, tail);
    SurvivesExactlyWhenClean(ops);
  }
}
