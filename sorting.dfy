/** The slice sorts the core relies on (`sort_by` for the angular order at a vertex,
    `sort_unstable_by` for the points along a segment), both ordering a list of
    indices by a real-valued key. Modelled as one stable insertion sort, which is one
    of the outcomes either library sort may produce. */
module Sorting {

  ghost predicate SortedBy(s: seq<nat>, key: nat -> real) {
    forall i, j | 0 <= i < j < |s| :: key(s[i]) <= key(s[j])
  }

  /** Inserts `x` after every element whose key is at most `key(x)`. */
  function InsertByKey(x: nat, s: seq<nat>, key: nat -> real): (r: seq<nat>)
    requires SortedBy(s, key)
    ensures multiset(r) == multiset(s) + multiset{x}
    ensures |r| == |s| + 1
    ensures SortedBy(r, key)
  {
    if s == [] then [x]
    else if key(x) < key(s[0]) then [x] + s
    else
      var rest := InsertByKey(x, s[1..], key);
      assert multiset(s) == multiset{s[0]} + multiset(s[1..]) by {
        assert s == [s[0]] + s[1..];
      }
      HeadBelow(s[0], s[1..], x, rest, key);
      ConsSorted(s[0], rest, key);
      [s[0]] + rest
  }

  /** A lower bound on the keys of `s` and on `key(x)` bounds every element of a
      sequence holding the elements of `s` and `x`. */
  lemma HeadBelow(y: nat, s: seq<nat>, x: nat, rest: seq<nat>, key: nat -> real)
    requires forall k | 0 <= k < |s| :: key(y) <= key(s[k])
    requires key(y) <= key(x)
    requires multiset(rest) == multiset(s) + multiset{x}
    ensures forall k | 0 <= k < |rest| :: key(y) <= key(rest[k])
  {
    forall k | 0 <= k < |rest| ensures key(y) <= key(rest[k]) {
      assert rest[k] in multiset(rest);
      if rest[k] != x {
        assert rest[k] in multiset(s);
      }
    }
  }

  lemma ConsSorted(y: nat, s: seq<nat>, key: nat -> real)
    requires SortedBy(s, key)
    requires forall k | 0 <= k < |s| :: key(y) <= key(s[k])
    ensures SortedBy([y] + s, key)
  {
    var r := [y] + s;
    forall i, j | 0 <= i < j < |r| ensures key(r[i]) <= key(r[j]) {
      assert r[j] == s[j - 1];
      if i > 0 {
        assert r[i] == s[i - 1];
      }
    }
  }

  /** Sorts by key; the result is a permutation of the input. */
  function SortByKey(s: seq<nat>, key: nat -> real): (r: seq<nat>)
    ensures multiset(r) == multiset(s)
    ensures |r| == |s|
    ensures SortedBy(r, key)
  {
    if s == [] then []
    else
      var init := SortByKey(s[..|s| - 1], key);
      assert s == s[..|s| - 1] + [s[|s| - 1]];
      InsertByKey(s[|s| - 1], init, key)
  }
}
