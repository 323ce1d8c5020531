/**
 * The order in which `Object.keys` lists the own string-keyed properties of
 * an ordinary object (OrdinaryOwnPropertyKeys in the ECMAScript language
 * specification): first every array index in ascending numeric order, then
 * the other keys in the order they were created.
 */
module PropertyOrder {
  import opened Text

  /** A canonical decimal numeral whose value is at most 2^32 - 2. */
  predicate IsArrayIndex(key: string) {
    |key| > 0 && AllDigits(key) && (key[0] != '0' || |key| == 1) && DigitsValue(key) < 4294967295
  }

  function IndexValue(key: string): nat
    requires IsArrayIndex(key)
  {
    DigitsValue(key)
  }

  /** The array-index keys of `keys`, in their order there. */
  function IndexKeys(keys: seq<string>): (r: seq<string>)
    ensures forall k :: k in r <==> k in keys && IsArrayIndex(k)
    ensures forall i :: 0 <= i < |r| ==> IsArrayIndex(r[i])
  {
    if keys == [] then []
    else (if IsArrayIndex(keys[0]) then [keys[0]] else []) + IndexKeys(keys[1..])
  }

  /** The other keys of `keys`, in their order there. */
  function NamedKeys(keys: seq<string>): (r: seq<string>)
    ensures forall k :: k in r <==> k in keys && !IsArrayIndex(k)
  {
    if keys == [] then []
    else (if IsArrayIndex(keys[0]) then [] else [keys[0]]) + NamedKeys(keys[1..])
  }

  /** Splitting a key list into its index keys and its other keys loses and adds nothing. */
  lemma {:induction false} SplitPermutes(keys: seq<string>)
    ensures multiset(IndexKeys(keys)) + multiset(NamedKeys(keys)) == multiset(keys)
  {
    if keys != [] {
      SplitPermutes(keys[1..]);
      assert keys == [keys[0]] + keys[1..];
    }
  }

  /** Without array indices, the other keys are all the keys, in order. */
  lemma {:induction false} NamedKeysOfNames(keys: seq<string>)
    requires forall i :: 0 <= i < |keys| ==> !IsArrayIndex(keys[i])
    ensures NamedKeys(keys) == keys && IndexKeys(keys) == []
  {
    if keys != [] {
      NamedKeysOfNames(keys[1..]);
    }
  }

  predicate Ascending(keys: seq<string>) {
    && (forall i :: 0 <= i < |keys| ==> IsArrayIndex(keys[i]))
    && (forall i, j :: 0 <= i < j < |keys| ==> IndexValue(keys[i]) <= IndexValue(keys[j]))
  }

  lemma AscendingCons(key: string, rest: seq<string>)
    requires IsArrayIndex(key) && Ascending(rest)
    requires forall i :: 0 <= i < |rest| ==> IndexValue(key) <= IndexValue(rest[i])
    ensures Ascending([key] + rest)
  {
    var r := [key] + rest;
    assert forall i :: 1 <= i < |r| ==> r[i] == rest[i - 1];
  }

  /** A lower bound of a key and of a list is a lower bound of any rearrangement of both. */
  lemma LowerBoundKept(lo: nat, key: string, tail: seq<string>, rest: seq<string>)
    requires IsArrayIndex(key) && lo <= IndexValue(key) && Ascending(tail)
    requires forall j :: 0 <= j < |tail| ==> lo <= IndexValue(tail[j])
    requires Ascending(rest) && multiset(rest) == multiset(tail) + multiset{key}
    ensures forall i :: 0 <= i < |rest| ==> lo <= IndexValue(rest[i])
  {
    forall i | 0 <= i < |rest| ensures lo <= IndexValue(rest[i]) {
      assert rest[i] in multiset(rest);
      if rest[i] != key {
        assert rest[i] in multiset(tail);
        var j :| 0 <= j < |tail| && tail[j] == rest[i];
      }
    }
  }

  /** Places an array index into an ascending list of array indices. */
  function InsertIndex(key: string, sorted: seq<string>): (r: seq<string>)
    requires IsArrayIndex(key) && Ascending(sorted)
    ensures Ascending(r)
    ensures multiset(r) == multiset(sorted) + multiset{key}
  {
    if sorted == [] || IndexValue(key) <= IndexValue(sorted[0]) then
      AscendingCons(key, sorted);
      [key] + sorted
    else
      var rest := InsertIndex(key, sorted[1..]);
      assert sorted == [sorted[0]] + sorted[1..];
      LowerBoundKept(IndexValue(sorted[0]), key, sorted[1..], rest);
      AscendingCons(sorted[0], rest);
      [sorted[0]] + rest
  }

  /** The array indices of `keys` in ascending numeric order. */
  function SortIndices(keys: seq<string>): (r: seq<string>)
    requires forall i :: 0 <= i < |keys| ==> IsArrayIndex(keys[i])
    ensures Ascending(r)
    ensures multiset(r) == multiset(keys)
  {
    if keys == [] then []
    else
      assert keys == [keys[0]] + keys[1..];
      InsertIndex(keys[0], SortIndices(keys[1..]))
  }

  /** `Object.keys(o)` for an object whose own keys were created in the order `created`. */
  function OwnKeys(created: seq<string>): (r: seq<string>)
    ensures multiset(r) == multiset(created)
  {
    SplitPermutes(created);
    SortIndices(IndexKeys(created)) + NamedKeys(created)
  }

  /**
   * `Object.keys` lists the array indices first, ascending, and then every
   * other key in creation order.
   */
  lemma OwnKeysShape(created: seq<string>)
    ensures var r := OwnKeys(created);
      var m := |IndexKeys(created)|;
      && m <= |r|
      && Ascending(r[..m])
      && r[m..] == NamedKeys(created)
  {
    var sorted := SortIndices(IndexKeys(created));
    assert |sorted| == |multiset(sorted)| == |IndexKeys(created)|;
    assert OwnKeys(created)[..|sorted|] == sorted;
  }

  /** When no key is an array index, `Object.keys` gives the creation order. */
  lemma OwnKeysCreationOrder(created: seq<string>)
    requires forall i :: 0 <= i < |created| ==> !IsArrayIndex(created[i])
    ensures OwnKeys(created) == created
  {
    NamedKeysOfNames(created);
  }
}
