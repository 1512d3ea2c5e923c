// The exported skip-list functions (libskiplist.cpp): lists whose footer keys are parsed from
// decimal text, and results handed out as plain numbers and arrays.
module LibSkipList {
  import opened Decimal
  import opened FixedText
  import opened FixedParser
  import opened SortedMap
  import opened SkipLists

  /** The largest key the text format has room for, and the smallest. */
  const LAST_FORWARD: int := 999_999_999_999_999_999
  const LAST_BACKWARD: int := 0

  lemma ForwardFooter(unsetI: int, unsetF: int)
    ensures InRange("999999.999999999999", unsetI, unsetF)
    ensures Parse("999999.999999999999", unsetI, unsetF) == LAST_FORWARD
  {
    var whole, fraction := "999999", "999999999999";
    assert Text(false, whole, fraction) == "999999.999999999999";
    Pow10Small();
    Nines(whole);
    Nines(fraction);
    ShortUnits(fraction, 0);
    TextInRange(false, whole, fraction, unsetI, unsetF);
    ParseText(false, whole, fraction, unsetI, unsetF);
  }

  lemma BackwardFooter(unsetI: int, unsetF: int)
    ensures InRange("0.0", unsetI, unsetF) && Parse("0.0", unsetI, unsetF) == LAST_BACKWARD
  {
    var zero := "0";
    assert Text(false, zero, zero) == "0.0";
    assert zero == Zeros(1);
    ValueOfZeros(1);
    ValueOfZeros(12);
    assert zero + Zeros(11) == Zeros(12);
    PaddedUnits(zero, 0);
    TextInRange(false, zero, zero, unsetI, unsetF);
    ParseText(false, zero, zero, unsetI, unsetF);
  }

  method SeqNew(isForward: bool, unsetI: int, unsetF: int) returns (list: SkipList)
    ensures fresh(list) && list.Valid() && fresh(list.Repr) && fresh(list.rnd)
    ensures list.isForward == isForward && list.Model() == map[] && list.footer.value == 0
    ensures list.footer.key == if isForward then 999_999_999_999_999_999 else 0
    ensures forall key :: Before(isForward, key, list.footer.key)
                     <==> if isForward then key < 999_999_999_999_999_999 else key > 0
  {
    var f;
    if isForward {
      ForwardFooter(unsetI, unsetF);
      f := NewStringView("999999.999999999999", unsetI, unsetF);
    } else {
      BackwardFooter(unsetI, unsetF);
      f := NewStringView("0.0", unsetI, unsetF);
    }
    list := new SkipList(f, isForward);
  }

  /** unset is what the local holds before the call. */
  method SeqRemove(list: SkipList, key: int, unset: int) returns (r: int)
    requires list.Valid() && Before(list.isForward, key, list.footer.key)
    modifies list, list.Repr
    ensures list.Valid() && list.Repr == old(list.Repr)
    ensures r == if key in old(list.Model()) then old(list.Model())[key] else 0
    ensures list.Model() == old(list.Model()) - {key}
    ensures list.footer.value == old(list.footer.value) && list.created == old(list.created)
  {
    var ok, value := list.Remove(key, unset);
    r := if ok then value else 0;
  }

  /** The footer's own key finds the footer. */
  method SeqSearch(list: SkipList, key: int) returns (r: int)
    requires list.Valid() && !Before(list.isForward, list.footer.key, key)
    ensures r == if key == list.footer.key then list.footer.value
                 else if key in list.Model() then list.Model()[key] else 0
  {
    var node := list.Search(key);
    r := if node != null then node.value else 0;
  }

  /** Fills the caller's arrays with the first n pairs and returns how many there are. */
  method SeqTopN(list: SkipList, n: int, keys: array<int>, values: array<int>) returns (size: nat)
    requires list.Valid() && keys != values && keys !in list.Repr && values !in list.Repr
    requires n <= keys.Length || list.nodeCount <= keys.Length
    requires n <= values.Length || list.nodeCount <= values.Length
    modifies keys, values
    ensures list.Valid() && list.entries == old(list.entries)
    ensures size == (if n < 0 then 0 else if n < list.nodeCount then n else list.nodeCount) <= |list.entries|
    ensures forall i | 0 <= i < size :: Entry(keys[i], values[i]) == list.entries[i]
    ensures forall i, j | 0 <= i < j < size :: if list.isForward then keys[i] < keys[j] else keys[i] > keys[j]
    ensures forall i | size <= i < keys.Length :: keys[i] == old(keys[i])
    ensures forall i | size <= i < values.Length :: values[i] == old(values[i])
  {
    list.KeysInOrder();
    var v := list.TopN(n, []);
    size := |v|;
    for i := 0 to size
      invariant forall j | 0 <= j < i :: Entry(keys[j], values[j]) == v[j]
      invariant forall j | i <= j < keys.Length :: keys[j] == old(keys[j])
      invariant forall j | i <= j < values.Length :: values[j] == old(values[j])
    {
      keys[i] := v[i].key;
      values[i] := v[i].value;
    }
  }
}
