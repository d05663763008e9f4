/** Sorting by a lexicographic key, largest first. This stands for the
    library sorts the service calls (`slices.SortFunc`, `sort.Slice`): those
    promise an order that is sorted and a permutation of the input, and
    this is one such order. */
module Sorting {

  /** An ordering key compared on `major` first, then on `minor`. */
  datatype Key = Key(major: int, minor: int)

  predicate KeyGe(a: Key, b: Key) {
    a.major > b.major || (a.major == b.major && a.minor >= b.minor)
  }

  /** Non-increasing by key. */
  predicate SortedDesc<T>(s: seq<T>, key: T -> Key) {
    forall i, j :: 0 <= i < j < |s| ==> KeyGe(key(s[i]), key(s[j]))
  }

  /** Places `x` before the first element whose key it is at least. */
  function Insert<T>(x: T, s: seq<T>, key: T -> Key): (r: seq<T>)
    ensures multiset(r) == multiset(s) + multiset{x}
    ensures |r| == |s| + 1
    ensures SortedDesc(s, key) ==> SortedDesc(r, key)
  {
    if |s| == 0 then [x]
    else if KeyGe(key(x), key(s[0])) then
      [x] + s
    else
      var rest := Insert(x, s[1..], key);
      assert s == [s[0]] + s[1..];
      assert SortedDesc(s, key) ==> SortedDesc([s[0]] + rest, key) by {
        if SortedDesc(s, key) {
          HeadStaysFirst(s, x, rest, key);
        }
      }
      [s[0]] + rest
  }

  /** When `x` goes after the head of a sorted `s`, the head still leads. */
  lemma HeadStaysFirst<T>(s: seq<T>, x: T, rest: seq<T>, key: T -> Key)
    requires |s| > 0 && SortedDesc(s, key) && !KeyGe(key(x), key(s[0]))
    requires SortedDesc(rest, key) && multiset(rest) == multiset(s[1..]) + multiset{x}
    ensures SortedDesc([s[0]] + rest, key)
  {
    var r := [s[0]] + rest;
    forall j | 1 <= j < |r| ensures KeyGe(key(s[0]), key(r[j])) {
      assert r[j] == rest[j - 1];
      assert rest[j - 1] in multiset(rest);
      if r[j] != x {
        assert r[j] in multiset(s[1..]);
        var k :| 0 <= k < |s[1..]| && s[1..][k] == r[j];
        assert s[k + 1] == r[j];
      }
    }
    forall i, j | 0 <= i < j < |r| ensures KeyGe(key(r[i]), key(r[j])) {
      if i > 0 {
        assert r[i] == rest[i - 1] && r[j] == rest[j - 1];
      }
    }
  }

  /** A non-increasing permutation of `s`. */
  function Sort<T>(s: seq<T>, key: T -> Key): (r: seq<T>)
    ensures multiset(r) == multiset(s)
    ensures SortedDesc(r, key)
  {
    if |s| == 0 then []
    else
      assert s == [s[0]] + s[1..];
      Insert(s[0], Sort(s[1..], key), key)
  }
}
