/** The part of `std::multimap<int, V>` the selection uses: insertion, which
    places a new element at the upper end of the range of elements with an
    equal key (ISO C++11 [associative.reqmts]), and `rbegin()`, the last
    element in key order. A multimap is modelled as its elements in
    iteration order. */
module Multimap {

  /** One key/value element of a multimap. */
  datatype Entry<V> = Entry(key: int, value: V)

  /** Keys never decrease in iteration order. */
  predicate Sorted<V>(m: seq<Entry<V>>) {
    forall i, j :: 0 <= i < j < |m| ==> m[i].key <= m[j].key
  }

  /** The position of the first element whose key is greater than `key`. */
  function UpperBound<V>(m: seq<Entry<V>>, key: int): (pos: nat)
    requires Sorted(m)
    ensures pos <= |m|
    ensures forall j :: 0 <= j < pos ==> m[j].key <= key
    ensures forall j :: pos <= j < |m| ==> key < m[j].key
  {
    if |m| == 0 || m[|m| - 1].key <= key then |m|
    else UpperBound(m[..|m| - 1], key)
  }

  /** `r` is `m` with `e` placed at `pos`, the upper end of the range of
      elements whose key equals `e.key`. */
  ghost predicate InsertedAt<V>(m: seq<Entry<V>>, e: Entry<V>, pos: int, r: seq<Entry<V>>) {
    && 0 <= pos <= |m|
    && r == m[..pos] + [e] + m[pos..]
    && (forall j :: 0 <= j < pos ==> m[j].key <= e.key)
    && (forall j :: pos <= j < |m| ==> e.key < m[j].key)
  }

  /** `insert`: the new element goes after every element whose key is not
      greater than its own and before every element whose key is greater.
      The multimap stays sorted and gains exactly that one element. */
  function Insert<V>(m: seq<Entry<V>>, e: Entry<V>): (r: seq<Entry<V>>)
    requires Sorted(m)
    ensures Sorted(r)
    ensures |r| == |m| + 1
    ensures multiset(r) == multiset(m) + multiset{e}
    ensures exists pos :: InsertedAt(m, e, pos, r)
  {
    var pos := UpperBound(m, e.key);
    assert m == m[..pos] + m[pos..];
    assert InsertedAt(m, e, pos, m[..pos] + [e] + m[pos..]);
    m[..pos] + [e] + m[pos..]
  }

  /** `*rbegin()`: an element whose key is at least every key present. */
  function Rbegin<V>(m: seq<Entry<V>>): (e: Entry<V>)
    requires Sorted(m) && |m| > 0
    ensures e in m
    ensures forall i :: 0 <= i < |m| ==> m[i].key <= e.key
  {
    m[|m| - 1]
  }

  /** How `rbegin()` moves on insertion: a new element whose key is at least
      the current greatest key becomes the last element, ties included;
      otherwise the last element stays. */
  lemma RbeginAfterInsert<V>(m: seq<Entry<V>>, e: Entry<V>)
    requires Sorted(m)
    ensures |m| == 0 ==> Insert(m, e) == [e]
    ensures |m| > 0 && Rbegin(m).key <= e.key ==> Rbegin(Insert(m, e)) == e
    ensures |m| > 0 && e.key < Rbegin(m).key ==> Rbegin(Insert(m, e)) == Rbegin(m)
  {
    var r := Insert(m, e);
    var pos :| InsertedAt(m, e, pos, r);
    if |m| > 0 {
      if Rbegin(m).key <= e.key {
        assert pos == |m|;
      } else {
        assert pos < |m|;
        assert r[|r| - 1] == m[|m| - 1];
      }
    }
  }
}
