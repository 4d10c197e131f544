/**
 Tables that hold every record twice, under its name and under the four bytes of its number, in one key space; and
 the flush that walks the slots and deletes two entries per step while it walks.
 */
module PairTables {
  import opened ByteStrings
  import opened Proto

  /** One stored half of a record. Both halves of one addition share `res`: its name buffer and what hangs off it. */
  datatype Node<R> = Node(name: Bytes, number: U32, res: R)

  type Table<R> = map<Bytes, Node<R>>

  function NumberKey(n: U32): Bytes { Image32(n) }

  /** Stores both halves; a half already under one of the keys is replaced, its other half stays behind. */
  function Add<R>(t: Table<R>, node: Node<R>): Table<R> {
    t[node.name := node][NumberKey(node.number) := node]
  }

  /** Every half lies under its own name or its own number, and halves of one addition have one name and number. */
  ghost predicate Shelved<R>(t: Table<R>) {
    && (forall k :: k in t ==> k == t[k].name || k == NumberKey(t[k].number))
    && forall k, l :: k in t && l in t && t[k].res == t[l].res ==> t[k] == t[l]
  }

  ghost predicate Fresh<R>(t: Table<R>, res: R) {
    forall k :: k in t ==> t[k].res != res
  }

  lemma AddShelved<R>(t: Table<R>, node: Node<R>)
    requires Shelved(t) && Fresh(t, node.res)
    ensures Shelved(Add(t, node))
  {
    hide NumberKey;
  }

  // ---- the flush ----

  /** The slots of a table in some order: every key once. */
  ghost predicate IsOrder<R>(order: seq<Bytes>, t: Table<R>) {
    && (forall i, j :: 0 <= i < j < |order| ==> order[i] != order[j])
    && forall k :: k in t <==> k in order
  }

  /** What visiting one slot leaves: an occupied slot costs the entries under the node's number and name. */
  function Visit<R>(t: Table<R>, k: Bytes): Table<R> {
    if k in t then t - {NumberKey(t[k].number), t[k].name} else t
  }

  /** The table and the resources released after the first `i` slots. */
  function FlushTo<R>(t: Table<R>, order: seq<Bytes>, i: nat): (r: (Table<R>, seq<R>))
    requires i <= |order|
    decreases i
  {
    if i == 0 then (t, [])
    else
      var (u, released) := FlushTo(t, order, i - 1);
      var k := order[i - 1];
      (Visit(u, k), if k in u then released + [u[k].res] else released)
  }

  /** `u` is `t` with some entries missing. */
  ghost predicate Within<R>(u: Table<R>, t: Table<R>) {
    forall k :: k in u ==> k in t && u[k] == t[k]
  }

  lemma VisitWithin<R>(u: Table<R>, t: Table<R>, k: Bytes)
    requires Shelved(t) && Within(u, t)
    ensures Within(Visit(u, k), u) && Within(Visit(u, k), t) && k !in Visit(u, k)
    ensures k in u ==> Fresh(Visit(u, k), u[k].res)
  {
    hide NumberKey;
    if k in u {
      var v := Visit(u, k);
      forall l | l in v ensures v[l].res != u[k].res {
        assert t[l] == v[l] && t[k] == u[k];
      }
    }
  }

  /**
   While the flush runs, whatever the slot order: the slots visited are empty, no resource is released twice, what
   is released belonged to the table, and no entry left in the table holds a released resource.
   */
  lemma {:induction false} FlushSafe<R>(t: Table<R>, order: seq<Bytes>, i: nat)
    requires Shelved(t) && i <= |order|
    ensures var (u, released) := FlushTo(t, order, i);
      && Within(u, t)
      && (forall j :: 0 <= j < i ==> order[j] !in u)
      && (forall a, b :: 0 <= a < b < |released| ==> released[a] != released[b])
      && (forall r :: r in released ==> !Fresh(t, r) && Fresh(u, r))
    decreases i
  {
    if i > 0 {
      hide NumberKey, Visit;
      FlushSafe(t, order, i - 1);
      var (u, released) := FlushTo(t, order, i - 1);
      VisitWithin(u, t, order[i - 1]);
      assert forall a :: 0 <= a < |released| ==> released[a] in released && Fresh(u, released[a]);
    }
  }

  /** The flush leaves the table empty. */
  lemma FlushEmpties<R>(t: Table<R>, order: seq<Bytes>)
    requires Shelved(t) && IsOrder(order, t)
    ensures FlushTo(t, order, |order|).0 == map[]
  {
    FlushSafe(t, order, |order|);
    hide FlushTo;
    assert forall k :: k in FlushTo(t, order, |order|).0 ==> k in order;
  }

  // ---- exactly once ----

  /** `f` is an entry of another record whose visit deletes the entry under `k`. */
  ghost predicate Foreign<R>(t: Table<R>, f: Bytes, k: Bytes) {
    && f in t && k in t && t[f].res != t[k].res
    && (k == t[f].name || k == NumberKey(t[f].number))
  }

  ghost predicate Exposed<R>(t: Table<R>, k: Bytes) {
    exists f :: Foreign(t, f, k)
  }

  /** Every entry a record has left can be deleted by the visit of some other record. */
  ghost predicate AllExposed<R>(t: Table<R>, r: R) {
    forall l :: l in t && t[l].res == r ==> Exposed(t, l)
  }

  ghost predicate LeakProne<R>(t: Table<R>) {
    exists k :: k in t && AllExposed(t, t[k].res)
  }

  ghost predicate ReleasesAll<R>(t: Table<R>, order: seq<Bytes>) {
    forall k :: k in t ==> t[k].res in FlushTo(t, order, |order|).1
  }

  /** An entry that no other record points at stays until its own record is released. */
  lemma {:induction false} SafeHalf<R>(t: Table<R>, order: seq<Bytes>, i: nat, k: Bytes)
    requires Shelved(t) && i <= |order| && k in t
    requires !Exposed(t, k)
    ensures var (u, released) := FlushTo(t, order, i); k in u || t[k].res in released
    decreases i
  {
    if i > 0 {
      hide NumberKey;
      SafeHalf(t, order, i - 1, k);
      FlushSafe(t, order, i - 1);
      var (u, released) := FlushTo(t, order, i - 1);
      var f := order[i - 1];
      if f in u && k in u && k !in Visit(u, f) {
        assert u[f] == t[f] && !Foreign(t, f, k);
      }
    }
  }

  lemma NotProneReleasesAll<R>(t: Table<R>, order: seq<Bytes>)
    requires Shelved(t) && IsOrder(order, t) && !LeakProne(t)
    ensures ReleasesAll(t, order)
  {
    hide FlushTo, Exposed, Shelved, IsOrder;
    FlushEmpties(t, order);
    forall k | k in t ensures t[k].res in FlushTo(t, order, |order|).1 {
      assert !AllExposed(t, t[k].res);
      var l :| l in t && t[l].res == t[k].res && !Exposed(t, l);
      SafeHalf(t, order, |order|, l);
    }
  }

  // ---- a slot order that leaks, for every table that is prone to it ----

  ghost function Enumerate(s: set<Bytes>): (order: seq<Bytes>)
    ensures forall k :: k in s <==> k in order
    ensures forall i, j :: 0 <= i < j < |order| ==> order[i] != order[j]
  {
    if s == {} then []
    else
      var k :| k in s;
      [k] + Enumerate(s - {k})
  }

  /** Once no entry of a record is left, the rest of the flush does not release it. */
  lemma {:induction false} GoneStaysGone<R>(t: Table<R>, order: seq<Bytes>, i: nat, n: nat, r: R)
    requires Shelved(t) && i <= n <= |order|
    requires Fresh(FlushTo(t, order, i).0, r) && r !in FlushTo(t, order, i).1
    ensures r !in FlushTo(t, order, n).1 && Fresh(FlushTo(t, order, n).0, r)
    decreases n
  {
    hide NumberKey;
    if i < n {
      GoneStaysGone(t, order, i, n - 1, r);
    }
  }

  /** A slot order that starts with one or two given keys. */
  lemma StartWith<R>(t: Table<R>, front: seq<Bytes>) returns (order: seq<Bytes>)
    requires forall i :: 0 <= i < |front| ==> front[i] in t
    requires forall i, j :: 0 <= i < j < |front| ==> front[i] != front[j]
    ensures IsOrder(order, t) && |front| <= |order| && order[..|front|] == front
  {
    var back := Enumerate(t.Keys - (set k | k in front));
    order := front + back;
    forall i, j | 0 <= i < j < |order| ensures order[i] != order[j] {
      if i < |front| <= j {
        assert order[j] == back[j - |front|] && back[j - |front|] in back;
        assert order[i] in front;
      }
    }
  }

  lemma FirstVisit<R>(t: Table<R>, order: seq<Bytes>)
    requires |order| > 0 && order[0] in t
    ensures FlushTo(t, order, 1).0 == Visit(t, order[0]) && FlushTo(t, order, 1).1 == [t[order[0]].res]
  {
    hide Visit;
    assert FlushTo(t, order, 0) == (t, []);
  }

  lemma VisitKeeps<R>(t: Table<R>, k: Bytes)
    ensures Within(Visit(t, k), t)
  {
  }

  lemma SecondVisit<R>(t: Table<R>, order: seq<Bytes>)
    requires |order| > 1 && order[0] in t && order[1] in Visit(t, order[0])
    ensures FlushTo(t, order, 2).0 == Visit(Visit(t, order[0]), order[1])
    ensures order[1] in t && FlushTo(t, order, 2).1 == [t[order[0]].res, t[order[1]].res]
  {
    hide Visit;
    VisitKeeps(t, order[0]);
    FirstVisit(t, order);
  }

  /** The visit of a foreign entry deletes just itself and the entry it points at. */
  lemma ForeignVisit<R>(t: Table<R>, f: Bytes, l: Bytes)
    requires Shelved(t) && Foreign(t, f, l)
    ensures forall k :: k in t && k != f && k != l ==> k in Visit(t, f)
    ensures l !in Visit(t, f)
  {
    hide NumberKey;
  }

  /** After the visit of a foreign entry another foreign entry of the same record is still there. */
  lemma OtherForeign<R>(t: Table<R>, f1: Bytes, l1: Bytes, f2: Bytes, l2: Bytes)
    requires Shelved(t) && Foreign(t, f1, l1) && Foreign(t, f2, l2) && t[l1].res == t[l2].res
    requires l2 in Visit(t, f1)
    ensures f2 != f1 && f2 in Visit(t, f1) && Visit(t, f1)[f2] == t[f2]
  {
    hide NumberKey;
    ForeignVisit(t, f1, l1);
    VisitKeeps(t, f1);
  }

  lemma LeakAfterOne<R>(t: Table<R>, f: Bytes, r: R) returns (order: seq<Bytes>)
    requires Shelved(t) && f in t && t[f].res != r && Fresh(Visit(t, f), r)
    ensures IsOrder(order, t) && r !in FlushTo(t, order, |order|).1
  {
    hide IsOrder, FlushTo, Visit, Enumerate, Shelved;
    order := StartWith(t, [f]);
    assert order[0] == order[..1][0];
    FirstVisit(t, order);
    GoneStaysGone(t, order, 1, |order|, r);
  }

  lemma LeakAfterTwo<R>(t: Table<R>, f1: Bytes, f2: Bytes, r: R) returns (order: seq<Bytes>)
    requires Shelved(t) && f1 in t && f2 in Visit(t, f1) && f1 != f2
    requires f2 in t && t[f1].res != r && t[f2].res != r && Fresh(Visit(Visit(t, f1), f2), r)
    ensures IsOrder(order, t) && r !in FlushTo(t, order, |order|).1
  {
    hide IsOrder, FlushTo, Visit, Enumerate, Shelved;
    order := StartWith(t, [f1, f2]);
    assert order[0] == order[..2][0] && order[1] == order[..2][1];
    SecondVisit(t, order);
    GoneStaysGone(t, order, 2, |order|, r);
  }

  lemma ForeignGone<R>(t: Table<R>, f: Bytes, l: Bytes)
    requires f in t && l in t && (l == t[f].name || l == NumberKey(t[f].number))
    ensures l !in Visit(t, f)
  {
    hide NumberKey;
  }

  /** A record has at most two entries. */
  lemma TwoEntries<R>(t: Table<R>, a: Bytes, b: Bytes)
    requires Shelved(t) && a in t && b in t && a != b && t[a].res == t[b].res
    ensures forall k :: k in t && t[k].res == t[a].res ==> k == a || k == b
  {
    hide NumberKey;
  }

  /** A table prone to leaking has a slot order under which some record is never released. */
  lemma ProneLeaks<R>(t: Table<R>) returns (order: seq<Bytes>)
    requires Shelved(t) && LeakProne(t)
    ensures IsOrder(order, t) && !ReleasesAll(t, order)
  {
    hide IsOrder, FlushTo, Visit, NumberKey, Shelved;
    var l1 :| l1 in t && AllExposed(t, t[l1].res);
    var r := t[l1].res;
    assert Exposed(t, l1);
    var f1 :| Foreign(t, f1, l1);
    var u1 := Visit(t, f1);
    VisitKeeps(t, f1);
    if Fresh(u1, r) {
      order := LeakAfterOne(t, f1, r);
    } else {
      var l2 :| l2 in u1 && u1[l2].res == r;
      assert Exposed(t, l2);
      var f2 :| Foreign(t, f2, l2);
      OtherForeign(t, f1, l1, f2, l2);
      ForeignVisit(t, f1, l1);
      VisitKeeps(u1, f2);
      ForeignGone(u1, f2, l2);
      TwoEntries(t, l1, l2);
      order := LeakAfterTwo(t, f1, f2, r);
    }
  }

  /**
   The flush releases every record of a table once, in every slot order, exactly when the table is not prone to leaking.
   */
  lemma ReleasesAllExactlyWhenNotProne<R>(t: Table<R>)
    requires Shelved(t)
    ensures (forall order :: IsOrder(order, t) ==> ReleasesAll(t, order)) <==> !LeakProne(t)
  {
    hide IsOrder, ReleasesAll, LeakProne, Shelved;
    if LeakProne(t) {
      var order := ProneLeaks(t);
    } else {
      forall order | IsOrder(order, t) ensures ReleasesAll(t, order) {
        NotProneReleasesAll(t, order);
      }
    }
  }

  // ---- what every sequence of additions keeps ----

  /** No name is the four bytes of a number: both kinds of key share one table. */
  ghost predicate NoClash<R>(t: Table<R>) {
    forall k, l :: k in t && l in t ==> t[k].name != NumberKey(t[l].number)
  }

  /**
   Every entry under a name has an entry under its number, and where that one is of the same name the two are
   halves of one addition.
   */
  ghost predicate Backed<R>(t: Table<R>) {
    forall k :: k in t && k == t[k].name ==>
      var n := NumberKey(t[k].number);
      n in t && (t[n].name == k && t[n].number == t[k].number ==> t[n] == t[k])
  }

  lemma AddBacked<R>(t: Table<R>, node: Node<R>)
    requires Shelved(t) && Backed(t) && NoClash(Add(t, node))
    ensures Backed(Add(t, node))
    ensures Add(t, node)[node.name] == node && Add(t, node)[NumberKey(node.number)] == node
  {
    var u := Add(t, node);
    assert u[NumberKey(node.number)] == node;
    forall k | k in u && k == u[k].name
      ensures NumberKey(u[k].number) in u
      ensures u[NumberKey(u[k].number)].name == k && u[NumberKey(u[k].number)].number == u[k].number
        ==> u[NumberKey(u[k].number)] == u[k]
    {
      Image32Injective(u[k].number, node.number);
    }
  }

  /** The table after a run of additions. */
  function AddAll<R>(t: Table<R>, added: seq<Node<R>>): Table<R> {
    if added == [] then t else Add(AddAll(t, added[..|added| - 1]), added[|added| - 1])
  }

  lemma AddAllMore<R>(t: Table<R>, added: seq<Node<R>>, node: Node<R>)
    ensures AddAll(t, added + [node]) == Add(AddAll(t, added), node)
  {
    assert (added + [node])[..|added|] == added;
  }

  /** Loads one after another are one run of additions. */
  lemma {:induction false} AddAllAppend<R>(t: Table<R>, a: seq<Node<R>>, b: seq<Node<R>>)
    ensures AddAll(AddAll(t, a), b) == AddAll(t, a + b)
    decreases |b|
  {
    if b == [] {
      assert a + b == a;
    } else {
      AddAllAppend(t, a, b[..|b| - 1]);
      assert (a + b)[..|a + b| - 1] == a + b[..|b| - 1];
    }
  }

  /** Every entry was there before or is one of the additions. */
  lemma {:induction false} AddAllFrom<R>(t: Table<R>, added: seq<Node<R>>)
    ensures forall k :: k in AddAll(t, added) ==>
      (k in t && AddAll(t, added)[k] == t[k]) || AddAll(t, added)[k] in added
  {
    hide NumberKey;
    if added != [] {
      AddAllFrom(t, added[..|added| - 1]);
    }
  }

  /** Every addition allocates its own record. */
  ghost predicate Freshly<R>(t: Table<R>, added: seq<Node<R>>) {
    && (forall i :: 0 <= i < |added| ==> Fresh(t, added[i].res))
    && forall i, j :: 0 <= i < j < |added| ==> added[i].res != added[j].res
  }

  /** All names come from `names` and all numbers from `numbers`. */
  ghost predicate Over<R>(t: Table<R>, names: set<Bytes>, numbers: set<U32>) {
    forall k :: k in t ==> t[k].name in names && t[k].number in numbers
  }

  ghost predicate Apart(names: set<Bytes>, numbers: set<U32>) {
    forall name, number :: name in names && number in numbers ==> name != NumberKey(number)
  }

  lemma {:induction false} AddAllOver<R>(t: Table<R>, added: seq<Node<R>>, names: set<Bytes>, numbers: set<U32>)
    requires Shelved(t) && Freshly(t, added) && Over(t, names, numbers)
    requires forall i :: 0 <= i < |added| ==> added[i].name in names && added[i].number in numbers
    ensures Shelved(AddAll(t, added)) && Over(AddAll(t, added), names, numbers)
  {
    hide NumberKey, Shelved;
    if added != [] {
      var init, node := added[..|added| - 1], added[|added| - 1];
      AddAllOver(t, init, names, numbers);
      AddAllFrom(t, init);
      AddShelved(AddAll(t, init), node);
    }
  }

  /**
   Every run of additions, when no name is the four bytes of a number: each entry under a name keeps an entry under
   its number, and the two entries of the newest addition are halves of one record.
   */
  lemma {:induction false} AddAllBacked<R>(t: Table<R>, added: seq<Node<R>>, names: set<Bytes>, numbers: set<U32>)
    requires Shelved(t) && Freshly(t, added) && Over(t, names, numbers) && Apart(names, numbers) && Backed(t)
    requires forall i :: 0 <= i < |added| ==> added[i].name in names && added[i].number in numbers
    ensures Backed(AddAll(t, added)) && NoClash(AddAll(t, added))
    ensures added != [] ==>
      var u, newest := AddAll(t, added), added[|added| - 1];
      && newest.name in u && u[newest.name] == newest
      && NumberKey(newest.number) in u && u[NumberKey(newest.number)] == newest
  {
    hide NumberKey, Shelved, Backed;
    AddAllOver(t, added, names, numbers);
    if added != [] {
      var init, node := added[..|added| - 1], added[|added| - 1];
      AddAllBacked(t, init, names, numbers);
      AddAllOver(t, init, names, numbers);
      AddBacked(AddAll(t, init), node);
    }
  }

  /** Names and numbers of the records in the table determine each other. */
  ghost predicate Bijective<R>(t: Table<R>) {
    forall k, l :: k in t && l in t ==> (t[k].name == t[l].name <==> t[k].number == t[l].number)
  }

  lemma NoneForeign<R>(t: Table<R>, f: Bytes, k: Bytes)
    requires Shelved(t) && Backed(t) && NoClash(t) && Bijective(t)
    ensures !Foreign(t, f, k)
  {
    if Foreign(t, f, k) {
      Image32Injective(t[f].number, t[k].number);
    }
  }

  /** Loaded names and numbers in bijection: the flush releases every record exactly once in every slot order. */
  lemma BijectiveReleasesAll<R>(t: Table<R>, order: seq<Bytes>)
    requires Shelved(t) && Backed(t) && NoClash(t) && Bijective(t) && IsOrder(order, t)
    ensures ReleasesAll(t, order)
  {
    hide IsOrder, ReleasesAll, Shelved, Backed, NoClash, Bijective, Foreign;
    assert !LeakProne(t) by {
      forall k | k in t ensures !AllExposed(t, t[k].res) {
        if Exposed(t, k) {
          var f :| Foreign(t, f, k);
          NoneForeign(t, f, k);
        }
      }
    }
    NotProneReleasesAll(t, order);
  }

  lemma NumberKeys()
    ensures NumberKey(1) != NumberKey(2) && |NumberKey(1)| == 4 && |NumberKey(2)| == 4
  {
    Image32Injective(1, 2);
  }

  // ---- what the flush releases of a whole history of additions ----

  /** Equal names and equal numbers go together. */
  ghost predicate Paired<R>(added: seq<Node<R>>) {
    forall i, j :: 0 <= i < |added| && 0 <= j < |added| ==>
      (added[i].name == added[j].name <==> added[i].number == added[j].number)
  }

  /** All names and numbers come from sets that do not clash. */
  ghost predicate Drawn<R>(added: seq<Node<R>>, names: set<Bytes>, numbers: set<U32>) {
    Apart(names, numbers) && forall i :: 0 <= i < |added| ==> added[i].name in names && added[i].number in numbers
  }

  /** No later addition has the name of this one. */
  ghost predicate Newest<R>(added: seq<Node<R>>, i: nat)
    requires i < |added|
  {
    forall j :: i < j < |added| ==> added[j].name != added[i].name
  }

  lemma EmptyTable<R>(names: set<Bytes>, numbers: set<U32>)
    ensures var t: Table<R> := map[]; Shelved(t) && Backed(t) && Over(t, names, numbers)
  {
  }

  lemma HistoryShelved<R>(added: seq<Node<R>>, names: set<Bytes>, numbers: set<U32>)
    requires Drawn(added, names, numbers) && Freshly(map[], added)
    ensures var t := AddAll(map[], added); Shelved(t) && Backed(t) && NoClash(t)
  {
    hide NumberKey, Shelved, AddAll;
    EmptyTable<R>(names, numbers);
    AddAllOver(map[], added, names, numbers);
    AddAllBacked(map[], added, names, numbers);
  }

  lemma Shorter<R>(added: seq<Node<R>>, names: set<Bytes>, numbers: set<U32>)
    requires added != [] && Drawn(added, names, numbers) && Freshly(map[], added) && Paired(added)
    ensures var init := added[..|added| - 1]; Drawn(init, names, numbers) && Freshly(map[], init) && Paired(init)
  {
    hide Apart;
  }

  /** The newest addition of a name is found under it. */
  lemma {:induction false} NewestHeld<R>(added: seq<Node<R>>, names: set<Bytes>, numbers: set<U32>, i: nat)
    requires Drawn(added, names, numbers) && i < |added| && Newest(added, i)
    ensures added[i].name in AddAll(map[], added) && AddAll(map[], added)[added[i].name] == added[i]
  {
    hide NumberKey;
    if i < |added| - 1 {
      var init := added[..|added| - 1];
      NewestHeld(init, names, numbers, i);
    }
  }

  /** Every entry is the newest addition of its name. */
  lemma {:induction false} HeldIsNewest<R>(added: seq<Node<R>>, names: set<Bytes>, numbers: set<U32>, k: Bytes)
      returns (i: nat)
    requires Drawn(added, names, numbers) && Freshly(map[], added) && Paired(added) && k in AddAll(map[], added)
    ensures i < |added| && Newest(added, i) && AddAll(map[], added)[k] == added[i]
  {
    hide NumberKey, Freshly, Drawn;
    var init, node := added[..|added| - 1], added[|added| - 1];
    if k == node.name || k == NumberKey(node.number) {
      i := |added| - 1;
    } else {
      Shorter(added, names, numbers);
      HistoryShelved(init, names, numbers);
      i := HeldIsNewest(init, names, numbers, k);
      assert added[i] == init[i];
    }
  }

  /** A record is in the table exactly when it is the newest addition of its name. */
  lemma HeldExactlyWhenNewest<R>(added: seq<Node<R>>, names: set<Bytes>, numbers: set<U32>, i: nat)
    requires Drawn(added, names, numbers) && Freshly(map[], added) && Paired(added) && i < |added|
    ensures !Fresh(AddAll(map[], added), added[i].res) <==> Newest(added, i)
  {
    hide NumberKey, AddAll, Drawn, Newest, Paired;
    var t := AddAll(map[], added);
    if Newest(added, i) {
      NewestHeld(added, names, numbers, i);
    }
    if !Fresh(t, added[i].res) {
      var k :| k in t && t[k].res == added[i].res;
      var j := HeldIsNewest(added, names, numbers, k);
    }
  }

  /**
   Names and numbers in bijection over a whole history of additions to an empty table: in every slot order the flush
   releases a record exactly when it is the newest addition of its name, and then once.
   */
  lemma HistoryReleases<R>(added: seq<Node<R>>, names: set<Bytes>, numbers: set<U32>, order: seq<Bytes>, i: nat)
    requires Drawn(added, names, numbers) && Freshly(map[], added) && Paired(added) && i < |added|
    requires IsOrder(order, AddAll(map[], added))
    ensures var released := FlushTo(AddAll(map[], added), order, |order|).1;
      && (added[i].res in released <==> Newest(added, i))
      && forall a, b :: 0 <= a < b < |released| ==> released[a] != released[b]
  {
    hide NumberKey, AddAll, Drawn, Newest, FlushTo, IsOrder, Shelved, Backed, NoClash;
    var t := AddAll(map[], added);
    HistoryShelved(added, names, numbers);
    AddAllFrom(map[], added);
    BijectiveReleasesAll(t, order);
    FlushSafe(t, order, |order|);
    HeldExactlyWhenNewest(added, names, numbers, i);
  }

  /** Every record ever added is released exactly once if and only if no name was added twice. */
  lemma HistoryReleasesAllExactlyWithoutRepeats<R>(added: seq<Node<R>>, names: set<Bytes>, numbers: set<U32>,
      order: seq<Bytes>)
    requires Drawn(added, names, numbers) && Freshly(map[], added) && Paired(added)
    requires IsOrder(order, AddAll(map[], added))
    ensures (forall i :: 0 <= i < |added| ==> added[i].res in FlushTo(AddAll(map[], added), order, |order|).1) <==>
      forall i, j :: 0 <= i < j < |added| ==> added[i].name != added[j].name
  {
    hide AddAll, Drawn, FlushTo, IsOrder, Paired, Freshly;
    var released := FlushTo(AddAll(map[], added), order, |order|).1;
    forall i | 0 <= i < |added| ensures added[i].res in released <==> Newest(added, i) {
      HistoryReleases(added, names, numbers, order, i);
    }
    if i, j :| 0 <= i < j < |added| && added[i].name == added[j].name {
      assert !Newest(added, i);
    }
  }

  /** The same record loaded twice: the first copy is never released, whatever the slot order. */
  lemma OverwrittenLeaks(order: seq<Bytes>)
    requires var t: Table<nat> := AddAll(map[], [Node([0x61], 1, 0), Node([0x61], 1, 1)]); IsOrder(order, t)
    ensures var t: Table<nat> := AddAll(map[], [Node([0x61], 1, 0), Node([0x61], 1, 1)]);
      0 !in FlushTo(t, order, |order|).1 && 1 in FlushTo(t, order, |order|).1
  {
    hide NumberKey, AddAll, FlushTo, IsOrder;
    var added: seq<Node<nat>> := [Node([0x61], 1, 0), Node([0x61], 1, 1)];
    assert |NumberKey(1)| == 4 by { NumberKeys(); }
    assert Apart({[0x61]}, {1});
    HistoryReleases(added, {[0x61]}, {1}, order, 0);
    HistoryReleases(added, {[0x61]}, {1}, order, 1);
    assert added[1].name == added[0].name;
  }

  /** Loading a record again under another number can leak: after these three additions the last one can be lost. */
  lemma StaleHalvesLeak(t: Table<nat>)
    requires t == Add(Add(Add(map[], Node([0x61], 1, 0)), Node([0x62], 2, 1)), Node([0x61], 2, 2))
    ensures Shelved(t) && LeakProne(t)
  {
    hide NumberKey;
    Image32Injective(1, 2);
    assert NumberKey(1) != NumberKey(2) && |NumberKey(1)| == 4 && |NumberKey(2)| == 4 by { NumberKeys(); }
    assert Foreign(t, NumberKey(1), [0x61]);
    assert Foreign(t, [0x62], NumberKey(2));
    assert AllExposed(t, 2);
    assert [0x61] in t && t[[0x61]].res == 2;
  }
}
