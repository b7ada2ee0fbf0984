/** Sequence utilities shared by the summariser and the classifier. */
module Seqs {

  datatype Option<T> = None | Some(value: T)

  /** A CSV record: its cells, in column order. */
  type Row = seq<string>

  /** No element occurs twice. */
  predicate Distinct<T(==)>(s: seq<T>) {
    forall i, j :: 0 <= i < j < |s| ==> s[i] != s[j]
  }

  /** The position of the first occurrence of `x` in `s` (Python's `list.index`). */
  function FirstIndex<T(==)>(s: seq<T>, x: T): (i: nat)
    requires x in s
    ensures i < |s| && s[i] == x
    ensures x !in s[..i]
  {
    var init := s[..|s| - 1];
    if x in init then FirstIndex(init, x) else |s| - 1
  }

  /** The distinct elements of `s`, each kept at its first occurrence. */
  function Dedup<T(==,!new)>(s: seq<T>): (r: seq<T>)
    ensures Distinct(r)
    ensures forall x :: x in r <==> x in s
    ensures |r| <= |s|
  {
    if s == [] then []
    else
      var init := s[..|s| - 1];
      assert s == init + [s[|s| - 1]];
      var p := Dedup(init);
      if s[|s| - 1] in p then p else p + [s[|s| - 1]]
  }

  /** Extending `s` at the end does not move the first occurrence of an element already in `s`. */
  lemma FirstIndexAppend<T>(s: seq<T>, y: T, x: T)
    requires x in s
    ensures FirstIndex(s + [y], x) == FirstIndex(s, x)
  {
    assert (s + [y])[..|s|] == s;
  }

  /** `Dedup` lists the distinct elements in the order in which each first appears. */
  lemma {:induction false} DedupOrder<T(!new)>(s: seq<T>)
    ensures forall i, j :: 0 <= i < j < |Dedup(s)| ==>
              FirstIndex(s, Dedup(s)[i]) < FirstIndex(s, Dedup(s)[j])
  {
    if s != [] {
      var init, y := s[..|s| - 1], s[|s| - 1];
      assert s == init + [y];
      DedupOrder(init);
      var p := Dedup(init);
      forall x | x in p ensures FirstIndex(s, x) == FirstIndex(init, x) && FirstIndex(s, x) < |init| {
        FirstIndexAppend(init, y, x);
      }
      if y !in p {
        assert y !in init;
        assert FirstIndex(s, y) == |init|;
      }
    }
  }

  /** A sequence has at most as many distinct elements as it has elements, and at least one if it is not empty. */
  lemma {:induction false} DistinctCountBounds<T>(s: seq<T>)
    ensures |set x | x in s| <= |s|
    ensures s != [] ==> |set x | x in s| >= 1
  {
    if s != [] {
      var init, y := s[..|s| - 1], s[|s| - 1];
      assert s == init + [y];
      DistinctCountBounds(init);
      assert (set x | x in s) == (set x | x in init) + {y};
      assert y in (set x | x in s);
    }
  }

  /** A sequence without repetitions has as many distinct elements as it has elements. */
  lemma {:induction false} DistinctCard<T>(s: seq<T>)
    requires Distinct(s)
    ensures |set x | x in s| == |s|
  {
    if s != [] {
      var init, y := s[..|s| - 1], s[|s| - 1];
      assert s == init + [y];
      DistinctCard(init);
      assert (set x | x in s) == (set x | x in init) + {y};
    }
  }
}
