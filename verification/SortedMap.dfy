// The reference for the skip list: a finite map, listed in one of two key orders.
module SortedMap {
  datatype Entry = Entry(key: int, value: int)

  /** Strict list order: ascending when forward, descending when backward. */
  predicate Before(forward: bool, a: int, b: int)
  {
    if forward then a < b else a > b
  }

  ghost predicate Sorted(forward: bool, s: seq<Entry>)
  {
    forall i, j | 0 <= i < j < |s| :: Before(forward, s[i].key, s[j].key)
  }

  function ToMap(s: seq<Entry>): map<int, int>
  {
    if s == [] then map[] else ToMap(s[1..])[s[0].key := s[0].value]
  }

  ghost predicate HasKey(s: seq<Entry>, key: int)
  {
    exists i :: 0 <= i < |s| && s[i].key == key
  }

  lemma {:induction false} ToMapKeys(s: seq<Entry>, key: int)
    ensures key in ToMap(s) <==> HasKey(s, key)
  {
    if s != [] {
      ToMapKeys(s[1..], key);
      if HasKey(s[1..], key) {
        var i :| 0 <= i < |s[1..]| && s[1..][i].key == key;
        assert s[i + 1].key == key;
      }
      if HasKey(s, key) && s[0].key != key {
        var i :| 0 <= i < |s| && s[i].key == key;
        assert s[1..][i - 1].key == key;
      }
    }
  }

  lemma {:induction false} ToMapValue(forward: bool, s: seq<Entry>, i: nat)
    requires Sorted(forward, s) && i < |s|
    ensures s[i].key in ToMap(s) && ToMap(s)[s[i].key] == s[i].value
  {
    if i > 0 {
      ToMapValue(forward, s[1..], i - 1);
    }
  }

  lemma PairIn(forward: bool, s: seq<Entry>, e: Entry)
    requires Sorted(forward, s)
    ensures e in s <==> e.key in ToMap(s) && ToMap(s)[e.key] == e.value
  {
    ToMapKeys(s, e.key);
    if e in s {
      var i :| 0 <= i < |s| && s[i] == e;
      ToMapValue(forward, s, i);
    }
    if e.key in ToMap(s) {
      var i :| 0 <= i < |s| && s[i].key == e.key;
      ToMapValue(forward, s, i);
      assert s[i] == Entry(e.key, ToMap(s)[e.key]);
    }
  }

  /** A map has one sorted listing: its order is fixed by the direction alone. */
  lemma {:induction false} ListingUnique(forward: bool, s: seq<Entry>, t: seq<Entry>)
    requires Sorted(forward, s) && Sorted(forward, t) && ToMap(s) == ToMap(t)
    ensures s == t
  {
    if s == [] || t == [] {
      EmptyMap(s);
      EmptyMap(t);
    } else {
      SameHead(forward, s, t);
      TailMap(forward, s);
      TailMap(forward, t);
      ListingUnique(forward, s[1..], t[1..]);
    }
  }

  lemma EmptyMap(s: seq<Entry>)
    ensures s == [] <==> ToMap(s) == map[]
  {
    if s != [] {
      assert s[0].key in ToMap(s);
    }
  }

  lemma SameHead(forward: bool, s: seq<Entry>, t: seq<Entry>)
    requires Sorted(forward, s) && Sorted(forward, t) && ToMap(s) == ToMap(t)
    requires s != [] && t != []
    ensures s[0] == t[0]
  {
    ToMapValue(forward, s, 0);
    ToMapValue(forward, t, 0);
    ToMapKeys(s, t[0].key);
    ToMapKeys(t, s[0].key);
    var i :| 0 <= i < |t| && t[i].key == s[0].key;
    var j :| 0 <= j < |s| && s[j].key == t[0].key;
    assert i > 0 ==> Before(forward, t[0].key, t[i].key);
  }

  lemma TailMap(forward: bool, s: seq<Entry>)
    requires Sorted(forward, s) && s != []
    ensures ToMap(s[1..]) == ToMap(s) - {s[0].key}
  {
    ToMapKeys(s[1..], s[0].key);
  }

  /** Listing a new entry at any place adds it to the map. */
  lemma {:induction false} InsertInto(s: seq<Entry>, p: nat, e: Entry)
    requires p <= |s| && !HasKey(s, e.key)
    ensures ToMap(s[..p] + [e] + s[p..]) == ToMap(s)[e.key := e.value]
  {
    var t := s[..p] + [e] + s[p..];
    if p == 0 {
      assert t[1..] == s;
    } else {
      assert t[1..] == s[1..][..p - 1] + [e] + s[1..][p - 1..];
      assert forall i | 0 <= i < |s[1..]| :: s[1..][i] == s[i + 1];
      InsertInto(s[1..], p - 1, e);
    }
  }

  /** Dropping the entry at a place removes its key from the map. */
  lemma {:induction false} RemoveFrom(forward: bool, s: seq<Entry>, p: nat)
    requires Sorted(forward, s) && p < |s|
    ensures ToMap(s[..p] + s[p + 1..]) == ToMap(s) - {s[p].key}
  {
    var t := s[..p] + s[p + 1..];
    if p == 0 {
      assert t == s[1..];
      TailMap(forward, s);
    } else {
      assert t[1..] == s[1..][..p - 1] + s[1..][p..];
      RemoveFrom(forward, s[1..], p - 1);
      assert s[0].key != s[p].key;
    }
  }

  /** Overwriting the value at a place updates the map at its key. */
  lemma {:induction false} UpdateAt(forward: bool, s: seq<Entry>, p: nat, value: int)
    requires Sorted(forward, s) && p < |s|
    ensures ToMap(s[p := Entry(s[p].key, value)]) == ToMap(s)[s[p].key := value]
  {
    var t := s[p := Entry(s[p].key, value)];
    if p == 0 {
      assert t[1..] == s[1..];
    } else {
      assert t[1..] == s[1..][p - 1 := Entry(s[p].key, value)];
      UpdateAt(forward, s[1..], p - 1, value);
      assert s[0].key != s[p].key;
    }
  }

  lemma WithoutAbsent(m: map<int, int>, key: int)
    requires key !in m
    ensures m - {key} == m
  {
  }

  // ---------- The listing of a map ----------

  ghost predicate Lists(forward: bool, m: map<int, int>, s: seq<Entry>)
  {
    Sorted(forward, s) && ToMap(s) == m
  }

  /** A new entry has a place in a sorted listing. */
  lemma {:induction false} PlaceFor(forward: bool, s: seq<Entry>, e: Entry) returns (p: nat)
    requires Sorted(forward, s) && !HasKey(s, e.key)
    ensures p <= |s| && Sorted(forward, s[..p] + [e] + s[p..])
  {
    p := 0;
    while p < |s| && Before(forward, s[p].key, e.key)
      invariant p <= |s| && forall i | 0 <= i < p :: Before(forward, s[i].key, e.key)
    {
      p := p + 1;
    }
  }

  lemma Pick<T>(s: set<T>) returns (x: T)
    requires s != {}
    ensures x in s
  {
    x :| x in s;
  }

  lemma {:induction false} ListingExists(forward: bool, m: map<int, int>)
    ensures exists s :: Lists(forward, m, s)
    decreases |m|
  {
    if m.Keys == {} {
      assert |m| == 0 && m == map[];
      assert Lists(forward, m, []);
    } else {
      var k := Pick(m.Keys);
      var rest := m - {k};
      ListingExists(forward, rest);
      var s :| Lists(forward, rest, s);
      ToMapKeys(s, k);
      var p := PlaceFor(forward, s, Entry(k, m[k]));
      InsertInto(s, p, Entry(k, m[k]));
      assert rest[k := m[k]] == m;
      assert Lists(forward, m, s[..p] + [Entry(k, m[k])] + s[p..]);
    }
  }

  /** The pairs of a map in list order. */
  ghost function Listing(forward: bool, m: map<int, int>): (s: seq<Entry>)
    ensures Lists(forward, m, s)
  {
    ListingExists(forward, m);
    var s :| Lists(forward, m, s);
    s
  }
}
