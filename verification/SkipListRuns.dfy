// Whole runs of the skip list against the finite map, and the shape of its chains.
module SkipListRuns {
  import opened SortedMap
  import opened SkipLists
  import opened LibSkipList
  import opened RandomSource

  // ---------- The chain of every level ----------

  /** The towers from position a on that reach level i, and the footer. */
  ghost function TowersFrom(ns: seq<Node>, i: nat, a: nat): seq<Node>
    requires a < |ns|
    decreases |ns| - a
  {
    if a == |ns| - 1 then [ns[a]]
    else if ns[a].nodeLevel >= i then [ns[a]] + TowersFrom(ns, i, a + 1)
    else TowersFrom(ns, i, a + 1)
  }

  /** The nodes met by following slot i from n, at most fuel of them, within a pool. */
  ghost function Follow(n: Node, i: nat, pool: seq<Node>, fuel: nat): seq<Node>
    reads set m | m in pool :: m.forward
  {
    if fuel == 0 || n !in pool || n == pool[|pool| - 1] || i >= n.forward.Length then []
    else
      match n.forward[i]
      case null => []
      case m => [m] + Follow(m, i, pool, fuel - 1)
  }

  lemma {:induction false} SkipLower(ns: seq<Node>, i: nat, a: nat)
    requires a < |ns| - 1
    ensures TowersFrom(ns, i, a + 1) == TowersFrom(ns, i, NextAt(ns, i, a))
    decreases |ns| - a
  {
    if NextAt(ns, i, a) != a + 1 {
      SkipLower(ns, i, a + 1);
    }
  }

  lemma {:induction false} FollowTowers(ns: seq<Node>, i: nat, a: nat, fuel: nat)
    requires Linked(ns, i) && Apart(ns) && a < |ns| - 1 && ns[a].nodeLevel >= i
    requires fuel >= |ns| - 1 - a
    ensures Follow(ns[a], i, ns, fuel) == TowersFrom(ns, i, a + 1)
    decreases fuel
  {
    var b := NextAt(ns, i, a);
    assert LinkOf(ns, i, a);
    SkipLower(ns, i, a);
    ApartEnds(ns, a);
    ApartEnds(ns, b);
    if b < |ns| - 1 {
      FollowTowers(ns, i, b, fuel - 1);
    } else {
      assert Follow(ns[b], i, ns, fuel - 1) == [];
    }
  }

  lemma {:induction false} TowersIn(ns: seq<Node>, i: nat, a: nat, n: Node)
    requires a < |ns|
    ensures n in TowersFrom(ns, i, a) <==>
              exists b :: a <= b < |ns| && ns[b] == n && (b == |ns| - 1 || ns[b].nodeLevel >= i)
    decreases |ns| - a
  {
    if a < |ns| - 1 {
      TowersIn(ns, i, a + 1, n);
    }
  }

  lemma TowersAreThose(ns: seq<Node>, i: nat)
    requires |ns| >= 2 && Apart(ns)
    ensures forall n | n in ns[1..] :: n in TowersFrom(ns, i, 1) <==> n == ns[|ns| - 1] || n.nodeLevel >= i
  {
    forall n | n in ns[1..]
      ensures n in TowersFrom(ns, i, 1) <==> n == ns[|ns| - 1] || n.nodeLevel >= i
    {
      TowersIn(ns, i, 1, n);
      var a :| 0 <= a < |ns[1..]| && ns[1..][a] == n;
      assert ns[a + 1] == n;
    }
  }

  /** Following level i from the header meets exactly the nodes of the level-0 chain whose
      towers reach level i, in order, and then the footer. */
  lemma ChainsAreFiltered(list: SkipList, i: nat)
    requires list.Valid() && i < MAX_LEVEL
    ensures Follow(list.header, i, list.nodes, |list.nodes|) == TowersFrom(list.nodes, i, 1)
    ensures forall n | n in list.nodes[1..] ::
              n in Follow(list.header, i, list.nodes, |list.nodes|) <==> n == list.footer || n.nodeLevel >= i
    ensures i > list.level ==> list.header.forward.Length > i && list.header.forward[i] == list.footer
  {
    var ns := list.nodes;
    TowersAreThose(ns, i);
    assert Linked(ns, i) && LinkOf(ns, i, 0);
    FollowTowers(ns, i, 0, |ns|);
  }

  /** The level is the largest height in use, and 0 exactly for the empty list. */
  lemma LevelIsHighest(list: SkipList)
    requires list.Valid()
    ensures forall a | 0 < a < |list.nodes| - 1 :: list.nodes[a].nodeLevel <= list.level
    ensures list.level == 0 <==> list.entries == []
    ensures list.level > 0 ==>
              exists a :: 0 < a < |list.nodes| - 1 && list.nodes[a].nodeLevel == list.level
  {
    var ns := list.nodes;
    if list.level > 0 {
      var a := NextAt(ns, list.level, 0);
      assert 0 < a < |ns| - 1 && ns[a].nodeLevel == list.level;
    }
    if list.entries != [] {
      assert 1 <= ns[1].nodeLevel;
    }
  }

  // ---------- Node conservation ----------

  lemma {:induction false} DistinctCount<T>(s: seq<T>, elements: set<T>)
    requires forall a, b | 0 <= a < b < |s| :: s[a] != s[b]
    requires elements == set x | x in s
    ensures |elements| == |s|
  {
    if s != [] {
      var last := s[|s| - 1];
      var rest := s[..|s| - 1];
      DistinctCount(rest, set x | x in rest);
      assert s == rest + [last];
      assert elements == (set x | x in rest) + {last};
    }
  }

  /** Created minus deleted is the number of stored pairs plus header and footer. */
  lemma NodeConservation(list: SkipList)
    requires list.Valid()
    ensures |list.created| == list.nodeCount + 2 + |list.deleted|
  {
    var ns, gone := list.nodes, list.deleted;
    forall a, b | 0 <= a < b < |ns|
      ensures ns[a] != ns[b]
    {
      assert Differ(ns[a], ns[b]);
    }
    var live, dead := set n | n in ns, set n | n in gone;
    DistinctCount(ns, live);
    DistinctCount(gone, dead);
    assert list.created == live + dead && live !! dead;
  }

  // ---------- Runs ----------

  function Stored(m: map<int, int>, k: int): int { if k in m then m[k] else 0 }

  function Clamp(n: int, size: nat): nat { if n < 0 then 0 else if n < size then n else size }

  // unset is what the wrapper's local holds before the call.
  datatype Op =
    | Insert(key: int, value: int, updateIfExists: bool)
    | Remove(key: int, unset: int)
    | Search(key: int)
    | Top(n: int)
    | Enumerate
    | Size

  datatype Result =
    | Changed(changed: bool)
    | Value(value: int)
    | Pairs(pairs: seq<Entry>)
    | Count(count: int)

  /** The key an operation names does not lie behind the footer's; removing the footer's own
      key would follow a slot that is never set. */
  predicate InRange(forward: bool, footerKey: int, op: Op)
  {
    match op
    case Insert(k, _, _) => !Before(forward, footerKey, k)
    case Remove(k, _) => Before(forward, k, footerKey)
    case Search(k) => !Before(forward, footerKey, k)
    case _ => true
  }

  /** The reference state: a map, and the value found under the footer's own key, which is
      never listed nor counted. */
  datatype Ref = Ref(m: map<int, int>, atFooter: int)

  ghost function RefOf(list: SkipList): Ref
    reads list, list.footer
  {
    Ref(list.Model(), list.footer.value)
  }

  /** One operation on the reference. */
  ghost function RefStep(forward: bool, footerKey: int, ref: Ref, op: Op): (Ref, Result)
  {
    var Ref(m, atFooter) := ref;
    match op
    case Insert(k, v, u) =>
      if k == footerKey then (if u then Ref(m, v) else ref, Changed(u))
      else (if k in m && !u then ref else Ref(m[k := v], atFooter), Changed(u || k !in m))
    case Remove(k, _) => (Ref(m - {k}, atFooter), Value(Stored(m, k)))
    case Search(k) => (ref, Value(if k == footerKey then atFooter else Stored(m, k)))
    case Top(n) => var l := Listing(forward, m); (ref, Pairs(l[..Clamp(n, |l|)]))
    case Enumerate => (ref, Pairs(Listing(forward, m)))
    case Size => (ref, Count(|m|))
  }

  ghost function RefRun(forward: bool, footerKey: int, ref: Ref, ops: seq<Op>): (Ref, seq<Result>)
  {
    if ops == [] then (ref, [])
    else
      var before := RefRun(forward, footerKey, ref, ops[..|ops| - 1]);
      var last := RefStep(forward, footerKey, before.0, ops[|ops| - 1]);
      (last.0, before.1 + [last.1])
  }

  /** The nodes an operation creates: one for a key not yet there. */
  function Creates(footerKey: int, ref: Ref, op: Op): nat
  {
    if op.Insert? && op.key !in ref.m && op.key != footerKey then 1 else 0
  }

  ghost function CreatedBy(forward: bool, footerKey: int, ref: Ref, ops: seq<Op>): nat
  {
    if ops == [] then 0
    else
      CreatedBy(forward, footerKey, ref, ops[..|ops| - 1])
      + Creates(footerKey, RefRun(forward, footerKey, ref, ops[..|ops| - 1]).0, ops[|ops| - 1])
  }

  lemma {:induction false} MapSize(forward: bool, s: seq<Entry>)
    requires Sorted(forward, s)
    ensures |ToMap(s)| == |s|
  {
    if s != [] {
      TailMap(forward, s);
      MapSize(forward, s[1..]);
      assert s[0].key in ToMap(s);
      assert ToMap(s).Keys == ToMap(s[1..]).Keys + {s[0].key};
    }
  }

  /** What a list stores is the listing of its map in its direction. */
  lemma EntriesAreListing(list: SkipList)
    requires list.Valid()
    ensures list.entries == Listing(list.isForward, list.Model())
    ensures forall i, j | 0 <= i < j < |list.entries| ::
              if list.isForward then list.entries[i].key < list.entries[j].key
              else list.entries[i].key > list.entries[j].key
    ensures list.nodeCount == |list.Model()|
  {
    list.KeysInOrder();
    EntriesSorted(list.isForward, list.nodes, list.entries);
    ListingUnique(list.isForward, list.entries, Listing(list.isForward, list.Model()));
    MapSize(list.isForward, list.entries);
  }

  /** Every operation of the list is the operation on the map. */
  method Step(list: SkipList, op: Op) returns (r: Result)
    requires list.Valid() && InRange(list.isForward, list.footer.key, op)
    modifies list, list.Repr, list.rnd
    ensures list.Valid() && (forall o | o in list.Repr :: o in old(list.Repr) || fresh(o))
    ensures (RefOf(list), r) == RefStep(list.isForward, list.footer.key, old(RefOf(list)), op)
    ensures op.Search? && op.key != list.footer.key ==>
              r == Value(if op.key in old(list.Model()) then old(list.Model())[op.key] else 0)
    ensures op.Remove? ==> r == Value(if op.key in old(list.Model()) then old(list.Model())[op.key] else 0)
    ensures old(list.created) <= list.created
    ensures |list.created| == |old(list.created)| + Creates(list.footer.key, old(RefOf(list)), op)
  {
    EntriesAreListing(list);
    match op
    case Insert(k, v, u) =>
      var changed := list.Insert(k, v, u);
      r := Changed(changed);
    case Remove(k, unset) =>
      var v := SeqRemove(list, k, unset);
      r := Value(v);
    case Search(k) =>
      var v := SeqSearch(list, k);
      r := Value(v);
    case Top(n) =>
      var v := list.TopN(n, []);
      assert v == list.entries[..Clamp(n, |list.entries|)];
      r := Pairs(v);
    case Enumerate =>
      var v := list.Enumerate();
      r := Pairs(v);
    case Size =>
      r := Count(list.nodeCount);
  }

  /** For every run the list refines the finite map. */
  method Run(list: SkipList, ops: seq<Op>) returns (results: seq<Result>)
    requires list.Valid()
    requires forall op | op in ops :: InRange(list.isForward, list.footer.key, op)
    modifies list, list.Repr, list.rnd
    ensures list.Valid() && (forall o | o in list.Repr :: o in old(list.Repr) || fresh(o))
    ensures (RefOf(list), results) == RefRun(list.isForward, list.footer.key, old(RefOf(list)), ops)
    ensures old(list.created) <= list.created
    ensures |list.created| == |old(list.created)| + CreatedBy(list.isForward, list.footer.key, old(RefOf(list)), ops)
  {
    results := [];
    for i := 0 to |ops|
      invariant list.Valid() && (forall o | o in list.Repr :: o in old(list.Repr) || fresh(o))
      invariant (RefOf(list), results) == RefRun(list.isForward, list.footer.key, old(RefOf(list)), ops[..i])
      invariant old(list.created) <= list.created
      invariant |list.created|
             == |old(list.created)| + CreatedBy(list.isForward, list.footer.key, old(RefOf(list)), ops[..i])
    {
      var r := Step(list, ops[i]);
      results := results + [r];
      assert ops[..i + 1][..i] == ops[..i];
    }
    assert ops[..|ops|] == ops;
  }

  /** A run and then the destructor: every node ever created is deleted, and none twice. */
  method RunAndFree(list: SkipList, ops: seq<Op>) returns (results: seq<Result>)
    requires list.Valid()
    requires forall op | op in ops :: InRange(list.isForward, list.footer.key, op)
    modifies list, list.Repr, list.rnd
    ensures results == RefRun(list.isForward, list.footer.key, old(RefOf(list)), ops).1
    ensures old(list.created) <= list.created
    ensures |list.created| == |old(list.created)| + CreatedBy(list.isForward, list.footer.key, old(RefOf(list)), ops)
    ensures forall n | n in list.created :: n in list.deleted
    ensures forall a, b | 0 <= a < b < |list.deleted| :: list.deleted[a] != list.deleted[b]
  {
    results := Run(list, ops);
    list.FreeList();
  }

  /** Tower heights cannot be observed: two lists of one direction with the same map, whatever
      their towers and random seeds, answer every run alike and store the same chain after it. */
  method LevelsUnobservable(a: SkipList, b: SkipList, ops: seq<Op>)
    returns (ra: seq<Result>, rb: seq<Result>)
    requires a.Valid() && b.Valid() && a != b && a.rnd != b.rnd && a.Repr !! b.Repr
    requires a !in b.Repr && b !in a.Repr && a.rnd !in b.Repr && b.rnd !in a.Repr
    requires a.isForward == b.isForward && a.footer.key == b.footer.key && RefOf(a) == RefOf(b)
    requires forall op | op in ops :: InRange(a.isForward, a.footer.key, op)
    modifies a, a.Repr, a.rnd, b, b.Repr, b.rnd
    ensures a.Valid() && b.Valid()
    ensures ra == rb && a.entries == b.entries
  {
    ra := Run(a, ops);
    rb := Run(b, ops);
    EntriesAreListing(a);
    EntriesAreListing(b);
  }
}
