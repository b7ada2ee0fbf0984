/**
 * Python's `collections.Counter` as the summariser uses it: `ctr[cell] += 1`
 * on raw cells, `len(ctr)` and `ctr.most_common(n)`.
 */
module Counters {
  import opened Seqs

  /** A counter: its keys in insertion order (a Python dict keeps that order) and the count of each key. */
  datatype Counter = Counter(keys: seq<string>, counts: map<string, nat>)

  /** Keys are distinct, the map's domain is exactly the keys, and a present key was counted at least once. */
  ghost predicate Valid(c: Counter) {
    Distinct(c.keys) &&
    (forall x :: x in c.counts <==> x in c.keys) &&
    (forall x :: x in c.counts ==> c.counts[x] >= 1)
  }

  const Empty := Counter([], map[])

  /** `c[x] += 1`: a missing key starts at 0 and is appended to the insertion order. */
  function Add(c: Counter, x: string): Counter {
    if x in c.counts then Counter(c.keys, c.counts[x := c.counts[x] + 1])
    else Counter(c.keys + [x], c.counts[x := 1])
  }

  /** The counter after adding each item of `items` in turn to an empty counter. */
  function CounterOf(items: seq<string>): Counter {
    if items == [] then Empty else Add(CounterOf(items[..|items| - 1]), items[|items| - 1])
  }

  /**
   * Counting a sequence yields a valid counter whose keys are the distinct items
   * in first-occurrence order and whose counts are the items' multiplicities.
   */
  lemma {:induction false} CounterOfSpec(items: seq<string>)
    ensures Valid(CounterOf(items))
    ensures CounterOf(items).keys == Dedup(items)
    ensures forall x :: x in CounterOf(items).counts <==> x in items
    ensures forall x :: x in CounterOf(items).counts ==> CounterOf(items).counts[x] == multiset(items)[x]
  {
    if items != [] {
      var init, y := items[..|items| - 1], items[|items| - 1];
      assert items == init + [y];
      CounterOfSpec(init);
    }
  }

  /**
   * `ctr[x] += 1` counts `x` once more and leaves every other count alone; a
   * new key goes to the end of the insertion order.
   */
  lemma AddSpec(c: Counter, x: string)
    requires Valid(c)
    ensures Valid(Add(c, x))
    ensures Get(Add(c, x), x) == Get(c, x) + 1
    ensures forall y :: y != x ==> Get(Add(c, x), y) == Get(c, y)
    ensures Add(c, x).keys == if x in c.keys then c.keys else c.keys + [x]
  {
  }

  /** `len(ctr)` is the number of distinct counted items. */
  lemma CounterSize(items: seq<string>)
    ensures |CounterOf(items).keys| == |set x | x in items|
  {
    CounterOfSpec(items);
    var ks := CounterOf(items).keys;
    DistinctCard(ks);
    assert (set x | x in ks) == (set x | x in items);
  }

  // ---------------------------------------------------------------------------
  // most_common(n): the counter's items sorted by count, largest first, with a
  // stable sort (equal counts stay in insertion order), cut to the first n.

  /** One counter item together with its place in the insertion order. */
  datatype Entry = Entry(value: string, count: nat, first: nat)

  /** `a` comes before `b` in a stable descending sort by count. */
  predicate Before(a: Entry, b: Entry) {
    a.count > b.count || (a.count == b.count && a.first < b.first)
  }

  predicate InInsertionOrder(l: seq<Entry>) {
    forall i, j :: 0 <= i < j < |l| ==> l[i].first < l[j].first
  }

  /** `ctr[x]`: a key never counted reads as 0. */
  function Get(c: Counter, x: string): nat {
    if x in c.counts then c.counts[x] else 0
  }

  /** The counter's items, in insertion order. */
  function Entries(c: Counter): (l: seq<Entry>)
    ensures |l| == |c.keys|
    ensures forall i :: 0 <= i < |l| ==> l[i] == Entry(c.keys[i], Get(c, c.keys[i]), i)
  {
    seq(|c.keys|, i requires 0 <= i < |c.keys| => Entry(c.keys[i], Get(c, c.keys[i]), i))
  }

  /** The position of the first entry with the largest count. */
  function FirstMax(l: seq<Entry>): (m: nat)
    requires l != []
    ensures m < |l|
    ensures forall j :: 0 <= j < |l| ==> l[j].count <= l[m].count
    ensures forall j :: 0 <= j < m ==> l[j].count < l[m].count
  {
    if |l| == 1 then 0
    else
      var m := FirstMax(l[..|l| - 1]);
      if l[|l| - 1].count > l[m].count then |l| - 1 else m
  }

  /** The first `n` entries of `l` in a stable descending sort by count, found by repeated selection. */
  function Top(l: seq<Entry>, n: nat): seq<Entry>
    decreases n
  {
    if n == 0 || l == [] then []
    else
      var m := FirstMax(l);
      [l[m]] + Top(l[..m] + l[m + 1..], n - 1)
  }

  /** In a list kept in insertion order, the first maximum comes before every other entry. */
  lemma FirstMaxIsLeast(l: seq<Entry>)
    requires l != [] && InInsertionOrder(l)
    ensures forall e :: e in l && e != l[FirstMax(l)] ==> Before(l[FirstMax(l)], e)
  {
    var m := FirstMax(l);
    forall e | e in l && e != l[m] ensures Before(l[m], e) {
      var j :| 0 <= j < |l| && l[j] == e;
    }
  }

  /** The entries left after removing the one at `m`, each at its new position. */
  lemma RemoveAtIndices(l: seq<Entry>, m: nat)
    requires m < |l|
    ensures |l[..m] + l[m + 1..]| == |l| - 1
    ensures forall k :: 0 <= k < |l| - 1 ==> (l[..m] + l[m + 1..])[k] == if k < m then l[k] else l[k + 1]
  {
  }

  /** Removing one entry keeps the insertion order and loses exactly that entry. */
  lemma RemoveAtSpec(l: seq<Entry>, m: nat)
    requires m < |l| && InInsertionOrder(l)
    ensures InInsertionOrder(l[..m] + l[m + 1..])
    ensures forall e :: e in l[..m] + l[m + 1..] <==> e in l && e != l[m]
  {
    var rest := l[..m] + l[m + 1..];
    RemoveAtIndices(l, m);
    forall e | e in l && e != l[m] ensures e in rest {
      var j :| 0 <= j < |l| && l[j] == e;
      if j < m { assert rest[j] == e; } else { assert rest[j - 1] == e; }
    }
    forall e | e in rest ensures e in l && e != l[m] {
      var k :| 0 <= k < |rest| && rest[k] == e;
      var j := if k < m then k else k + 1;
      assert l[j] == e && j != m;
    }
  }

  /**
   * `t` is a correct answer for the first `n` of `l`: min(n, |l|) entries of
   * `l`, each before the next, and every entry of `l` left out comes after all
   * of them.
   */
  ghost predicate SelectsTop(l: seq<Entry>, n: nat, t: seq<Entry>) {
    |t| == (if n <= |l| then n else |l|) &&
    (forall e :: e in t ==> e in l) &&
    (forall i, j :: 0 <= i < j < |t| ==> Before(t[i], t[j])) &&
    (forall e, i :: e in l && e !in t && 0 <= i < |t| ==> Before(t[i], e))
  }

  lemma {:induction false} TopSpec(l: seq<Entry>, n: nat)
    requires InInsertionOrder(l)
    ensures SelectsTop(l, n, Top(l, n))
    decreases n
  {
    if n != 0 && l != [] {
      var m := FirstMax(l);
      FirstMaxIsLeast(l);
      var rest := l[..m] + l[m + 1..];
      RemoveAtSpec(l, m);
      TopSpec(rest, n - 1);
      var tr := Top(rest, n - 1);
      var t := [l[m]] + tr;
      assert Top(l, n) == t;
      assert forall e :: e in t <==> e == l[m] || e in tr;
      forall i, j | 0 <= i < j < |t| ensures Before(t[i], t[j]) {
        if i > 0 {
          assert t[i] == tr[i - 1] && t[j] == tr[j - 1];
        } else {
          assert t[j] == tr[j - 1] && tr[j - 1] in tr;
        }
      }
      forall e, i | e in l && e !in t && 0 <= i < |t| ensures Before(t[i], e) {
        if i > 0 {
          assert t[i] == tr[i - 1];
        }
      }
    }
  }

  /** `ctr.most_common(n)`: (value, count) pairs. */
  function MostCommon(c: Counter, n: nat): seq<(string, nat)> {
    var t := Top(Entries(c), n);
    seq(|t|, i requires 0 <= i < |t| => (t[i].value, t[i].count))
  }

  /** The keys that a list of (value, count) pairs names. */
  function Named(r: seq<(string, nat)>): set<string> {
    set p | p in r :: p.0
  }

  /** `ctr.most_common(n)` ranks `a` ahead of `b`: a larger count, or an equal count and an earlier first insertion. */
  predicate Ahead(c: Counter, a: (string, nat), b: (string, nat))
    requires a.0 in c.keys && b.0 in c.keys
  {
    a.1 > b.1 || (a.1 == b.1 && FirstIndex(c.keys, a.0) < FirstIndex(c.keys, b.0))
  }

  lemma DistinctFirstIndex(s: seq<string>, i: nat)
    requires Distinct(s) && i < |s|
    ensures FirstIndex(s, s[i]) == i
  {
  }

  /** Each pair `most_common(n)` returns is the value and count of an entry chosen by `Top`, in the same place. */
  lemma MostCommonEntries(c: Counter, n: nat)
    requires Valid(c)
    ensures |MostCommon(c, n)| == |Top(Entries(c), n)|
    ensures SelectsTop(Entries(c), n, Top(Entries(c), n))
    ensures forall i :: 0 <= i < |MostCommon(c, n)| ==>
              var e := Top(Entries(c), n)[i];
              e.first < |c.keys| && e == Entries(c)[e.first] && FirstIndex(c.keys, e.value) == e.first &&
              MostCommon(c, n)[i] == (e.value, e.count)
  {
    var l := Entries(c);
    TopSpec(l, n);
    var t := Top(l, n);
    forall i | 0 <= i < |t| ensures t[i].first < |c.keys| && t[i] == l[t[i].first] && FirstIndex(c.keys, t[i].value) == t[i].first {
      assert t[i] in l;
      var k :| 0 <= k < |l| && l[k] == t[i];
      DistinctFirstIndex(c.keys, k);
    }
  }

  /** A key that `most_common(n)` leaves out ranks behind every pair it returns. */
  lemma MostCommonOmitted(c: Counter, n: nat, x: string)
    requires Valid(c) && x in c.counts && x !in Named(MostCommon(c, n))
    ensures x in c.keys
    ensures forall i :: 0 <= i < |MostCommon(c, n)| ==>
              MostCommon(c, n)[i].0 in c.keys && Ahead(c, MostCommon(c, n)[i], (x, c.counts[x]))
  {
    var l := Entries(c);
    MostCommonEntries(c, n);
    var t := Top(l, n);
    var r := MostCommon(c, n);
    var k := FirstIndex(c.keys, x);
    assert l[k] == Entry(x, c.counts[x], k);
    assert l[k] in l;
    if l[k] in t {
      assert false;
    }
  }

  /** `most_common(n)` returns min(n, len(ctr)) of the counter's own (key, count) pairs. */
  lemma MostCommonCounts(c: Counter, n: nat)
    requires Valid(c)
    ensures |MostCommon(c, n)| == if n <= |c.keys| then n else |c.keys|
    ensures forall p :: p in MostCommon(c, n) ==> p.0 in c.counts && p.1 == c.counts[p.0]
  {
    MostCommonEntries(c, n);
    var r := MostCommon(c, n);
    forall p | p in r ensures p.0 in c.counts && p.1 == c.counts[p.0] {
      var i :| 0 <= i < |r| && r[i] == p;
    }
  }

  /** Each pair `most_common(n)` returns ranks ahead of the next. */
  lemma MostCommonRanked(c: Counter, n: nat)
    requires Valid(c)
    ensures forall i, j :: 0 <= i < j < |MostCommon(c, n)| ==>
              MostCommon(c, n)[i].0 in c.keys && MostCommon(c, n)[j].0 in c.keys &&
              Ahead(c, MostCommon(c, n)[i], MostCommon(c, n)[j])
  {
    MostCommonEntries(c, n);
  }

  /** `most_common` on counted items ranks `a` ahead of `b`: a larger count, or an equal count and an earlier first occurrence. */
  predicate RankedAhead(items: seq<string>, a: (string, nat), b: (string, nat))
    requires a.0 in items && b.0 in items
  {
    a.1 > b.1 || (a.1 == b.1 && FirstIndex(items, a.0) < FirstIndex(items, b.0))
  }

  /** The counter's insertion order is the order of first occurrence in the counted items. */
  lemma AheadIsRankedAhead(items: seq<string>, a: (string, nat), b: (string, nat))
    requires a.0 in CounterOf(items).keys && b.0 in CounterOf(items).keys
    requires Ahead(CounterOf(items), a, b)
    ensures a.0 in items && b.0 in items && RankedAhead(items, a, b)
  {
    var ks := CounterOf(items).keys;
    CounterOfSpec(items);
    DedupOrder(items);
    var i, j := FirstIndex(ks, a.0), FirstIndex(ks, b.0);
    if i < j {
      assert ks[i] == a.0 && ks[j] == b.0;
    }
  }

  /**
   * Counting `items` and asking for the `n` most common gives min(n, number of
   * distinct items) pairs, each an item and its multiplicity.
   */
  lemma MostCommonOfItemsCounts(items: seq<string>, n: nat)
    ensures |MostCommon(CounterOf(items), n)| == var u := |set x | x in items|; if n <= u then n else u
    ensures forall p :: p in MostCommon(CounterOf(items), n) ==> p.0 in items && p.1 == multiset(items)[p.0]
  {
    CounterOfSpec(items);
    CounterSize(items);
    MostCommonCounts(CounterOf(items), n);
  }

  /**
   * The pairs `most_common(n)` gives for counted items come each ranked ahead
   * of the next, and every item left out ranks behind all of them.
   */
  lemma MostCommonOfItemsRanked(items: seq<string>, n: nat)
    ensures forall i, j :: 0 <= i < j < |MostCommon(CounterOf(items), n)| ==>
              var r := MostCommon(CounterOf(items), n);
              r[i].0 in items && r[j].0 in items && RankedAhead(items, r[i], r[j])
    ensures forall x :: x in items && x !in Named(MostCommon(CounterOf(items), n)) ==>
              var r := MostCommon(CounterOf(items), n);
              forall i :: 0 <= i < |r| ==> r[i].0 in items && RankedAhead(items, r[i], (x, multiset(items)[x]))
  {
    var c := CounterOf(items);
    CounterOfSpec(items);
    MostCommonRanked(c, n);
    var r := MostCommon(c, n);
    forall i, j | 0 <= i < j < |r| ensures r[i].0 in items && r[j].0 in items && RankedAhead(items, r[i], r[j]) {
      AheadIsRankedAhead(items, r[i], r[j]);
    }
    forall x, i | x in items && x !in Named(r) && 0 <= i < |r|
      ensures r[i].0 in items && RankedAhead(items, r[i], (x, multiset(items)[x]))
    {
      MostCommonOmitted(c, n, x);
      AheadIsRankedAhead(items, r[i], (x, c.counts[x]));
    }
  }
}
