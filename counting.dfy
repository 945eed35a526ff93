/**
 * The counting dictionaries of `print_data` and `show_request_statistics`:
 * `d[k] = d[k] + w if k in d else w`, kept in insertion order as Python's
 * dict does, then `sorted(d.items(), key=lambda x: x[1], reverse=True)`.
 */
module Counting {

  /** A dict from keys to counts, as its `items()` in insertion order. */
  type Table<K> = seq<(K, nat)>

  function Keys<K>(t: Table<K>): (r: seq<K>)
    ensures |r| == |t|
    ensures forall i :: 0 <= i < |t| ==> r[i] == t[i].0
  {
    seq(|t|, i requires 0 <= i < |t| => t[i].0)
  }

  predicate DistinctKeys<K(==)>(t: Table<K>) {
    forall i, j :: 0 <= i < j < |t| ==> t[i].0 != t[j].0
  }

  /** `d.get(k, 0)` */
  function Get<K(==,!new)>(t: Table<K>, k: K): nat
    decreases |t|
  {
    if |t| == 0 then 0 else if t[0].0 == k then t[0].1 else Get(t[1..], k)
  }

  /** The sum of the counts. */
  function Sum<K>(t: Table<K>): nat
    decreases |t|
  {
    if |t| == 0 then 0 else t[0].1 + Sum(t[1..])
  }

  predicate Positive<K>(t: Table<K>) {
    forall i :: 0 <= i < |t| ==> t[i].1 >= 1
  }

  lemma {:induction false} SumSnoc<K>(t: Table<K>, x: (K, nat))
    ensures Sum(t + [x]) == Sum(t) + x.1
    decreases |t|
  {
    if |t| > 0 {
      assert (t + [x])[1..] == t[1..] + [x];
      SumSnoc(t[1..], x);
    }
  }

  /**
   * `d[k] = d[k] + w if k in d else w`: an existing key keeps its place and
   * gains `w`, a new key goes at the end with count `w`.
   */
  function Add<K(==,!new)>(t: Table<K>, k: K, w: nat): (r: Table<K>)
    ensures Sum(r) == Sum(t) + w
    ensures Keys(r) == if k in Keys(t) then Keys(t) else Keys(t) + [k]
    decreases |t|
  {
    if |t| == 0 then [(k, w)]
    else
      ConsPair(t[0], t[1..]);
      assert [t[0]] + t[1..] == t;
      if t[0].0 == k then
        var r := [(k, t[0].1 + w)] + t[1..];
        ConsPair(r[0], t[1..]);
        r
      else
        var rest := Add(t[1..], k, w);
        var r := [t[0]] + rest;
        ConsPair(t[0], rest);
        assert k in Keys(t) <==> k in Keys(t[1..]);
        r
  }

  /** A table with one pair in front: its keys and its sum. */
  lemma ConsPair<K>(p: (K, nat), t: Table<K>)
    ensures Keys([p] + t) == [p.0] + Keys(t)
    ensures Sum([p] + t) == p.1 + Sum(t)
  {
    var l := [p] + t;
    assert Sum(l) == p.1 + Sum(t) by {
      assert l[1..] == t;
    }
    assert Keys(l) == [p.0] + Keys(t) by {
      forall i | 0 <= i < |l| ensures Keys(l)[i] == ([p.0] + Keys(t))[i] {
        if i > 0 {
          assert l[i] == t[i - 1];
        }
      }
    }
  }

  /** `Add` with a positive weight keeps every count positive. */
  lemma {:induction false} AddPositive<K(!new)>(t: Table<K>, k: K, w: nat)
    ensures Positive(t) && w >= 1 ==> Positive(Add(t, k, w))
    decreases |t|
  {
    var r := Add(t, k, w);
    if !(Positive(t) && w >= 1) {
    } else if |t| > 0 && t[0].0 != k {
      AddPositive(t[1..], k, w);
      assert r[1..] == Add(t[1..], k, w);
      forall i | 0 <= i < |r| ensures r[i].1 >= 1 {
        if i > 0 {
          assert r[i] == r[1..][i - 1];
        }
      }
    } else if |t| > 0 {
      forall i | 0 <= i < |r| ensures r[i].1 >= 1 {
        if i > 0 {
          assert r[i] == t[i];
        }
      }
    }
  }

  /** `Add` changes the count of `k` only, by `w`. */
  lemma {:induction false} AddGet<K(!new)>(t: Table<K>, k: K, w: nat, k': K)
    ensures Get(Add(t, k, w), k') == Get(t, k') + (if k' == k then w else 0)
    decreases |t|
  {
    if |t| > 0 && t[0].0 != k {
      AddGet(t[1..], k, w, k');
      assert Add(t, k, w)[1..] == Add(t[1..], k, w);
    }
  }

  /** The keys of `xs` in order of first occurrence. */
  function Dedup<K(==,!new)>(xs: seq<K>): (r: seq<K>)
    ensures forall x :: x in r <==> x in xs
    ensures forall i, j :: 0 <= i < j < |r| ==> r[i] != r[j]
    decreases |xs|
  {
    if |xs| == 0 then []
    else
      var d := Dedup(xs[..|xs| - 1]);
      assert xs == xs[..|xs| - 1] + [xs[|xs| - 1]];
      if xs[|xs| - 1] in d then d else d + [xs[|xs| - 1]]
  }

  /** The total weight paired with `k` in `ps`. */
  function WeightOf<K(==)>(ps: seq<(K, nat)>, k: K): nat
    decreases |ps|
  {
    if |ps| == 0 then 0 else (if ps[0].0 == k then ps[0].1 else 0) + WeightOf(ps[1..], k)
  }

  /** Putting one pair in front adds its weight to its own key only. */
  lemma ConsWeight<K>(p: (K, nat), ps: seq<(K, nat)>, k: K)
    ensures WeightOf([p] + ps, k) == (if p.0 == k then p.1 else 0) + WeightOf(ps, k)
  {
    assert ([p] + ps)[1..] == ps;
  }

  lemma {:induction false} WeightOfSnoc<K>(ps: seq<(K, nat)>, x: (K, nat), k: K)
    ensures WeightOf(ps + [x], k) == WeightOf(ps, k) + (if x.0 == k then x.1 else 0)
    decreases |ps|
  {
    if |ps| > 0 {
      assert (ps + [x])[1..] == ps[1..] + [x];
      WeightOfSnoc(ps[1..], x, k);
    }
  }

  lemma AddGetAll<K(!new)>(t: Table<K>, k: K, w: nat)
    ensures forall k' :: Get(Add(t, k, w), k') == Get(t, k') + (if k' == k then w else 0)
  {
    forall k' ensures Get(Add(t, k, w), k') == Get(t, k') + (if k' == k then w else 0) {
      AddGet(t, k, w, k');
    }
  }

  lemma WeightOfSnocAll<K>(ps: seq<(K, nat)>, x: (K, nat))
    ensures forall k :: WeightOf(ps + [x], k) == WeightOf(ps, k) + (if x.0 == k then x.1 else 0)
  {
    forall k ensures WeightOf(ps + [x], k) == WeightOf(ps, k) + (if x.0 == k then x.1 else 0) {
      WeightOfSnoc(ps, x, k);
    }
  }

  /** A table whose keys are a list without repetitions has distinct keys. */
  lemma DedupKeysDistinct<K(!new)>(t: Table<K>, xs: seq<K>)
    requires Keys(t) == Dedup(xs)
    ensures DistinctKeys(t)
  {
    forall i, j | 0 <= i < j < |t| ensures t[i].0 != t[j].0 {
      assert Keys(t)[i] == t[i].0 && Keys(t)[j] == t[j].0;
    }
  }

  /**
   * The dict built by adding the weighted keys of `ps` one after the other:
   * each key once, in first-seen order, holding the total weight paired with it.
   */
  function Weighted<K(==,!new)>(ps: seq<(K, nat)>): (r: Table<K>)
    ensures Sum(r) == Sum(ps)
    ensures Keys(r) == Dedup(Keys(ps))
    ensures DistinctKeys(r)
    ensures forall k :: Get(r, k) == WeightOf(ps, k)
    ensures Positive(ps) ==> Positive(r)
    decreases |ps|
  {
    if |ps| == 0 then []
    else
      var init := ps[..|ps| - 1];
      var last := ps[|ps| - 1];
      var t := Weighted(init);
      assert init + [last] == ps;
      SumSnoc(init, last);
      KeysStep(init, t, last);
      GetStep(init, t, last);
      PositiveStep(init, t, last);
      Add(t, last.0, last.1)
  }

  /** One more `Add` keeps the keys those of the longer list, each once, in first-seen order. */
  lemma KeysStep<K(!new)>(ps: seq<(K, nat)>, t: Table<K>, x: (K, nat))
    requires Keys(t) == Dedup(Keys(ps))
    ensures Keys(Add(t, x.0, x.1)) == Dedup(Keys(ps + [x]))
    ensures DistinctKeys(Add(t, x.0, x.1))
  {
    var qs := ps + [x];
    assert Keys(qs)[..|qs| - 1] == Keys(ps);
    DedupKeysDistinct(Add(t, x.0, x.1), Keys(qs));
  }

  /** One more `Add` keeps every key's count the total weight the longer list pairs with it. */
  lemma GetStep<K(!new)>(ps: seq<(K, nat)>, t: Table<K>, x: (K, nat))
    requires forall k :: Get(t, k) == WeightOf(ps, k)
    ensures forall k :: Get(Add(t, x.0, x.1), k) == WeightOf(ps + [x], k)
  {
    AddGetAll(t, x.0, x.1);
    WeightOfSnocAll(ps, x);
  }

  /** One more `Add` of a positive weight keeps every count positive. */
  lemma PositiveStep<K(!new)>(ps: seq<(K, nat)>, t: Table<K>, x: (K, nat))
    requires Positive(ps) ==> Positive(t)
    ensures Positive(ps + [x]) ==> Positive(Add(t, x.0, x.1))
  {
    var qs := ps + [x];
    assert forall i :: 0 <= i < |ps| ==> qs[i] == ps[i];
    assert Positive(qs) ==> qs[|ps|].1 >= 1;
    AddPositive(t, x.0, x.1);
  }

  /** Each element with weight one. */
  function Ones<K>(xs: seq<K>): (ps: seq<(K, nat)>)
    ensures |ps| == |xs| && Keys(ps) == xs && Positive(ps)
  {
    seq(|xs|, i requires 0 <= i < |xs| => (xs[i], 1))
  }

  /** The occurrence count of every element of `xs`, keys in first-seen order. */
  function Tally<K(==,!new)>(xs: seq<K>): Table<K> {
    Weighted(Ones(xs))
  }

  lemma {:induction false} SumOnes<K>(xs: seq<K>)
    ensures Sum(Ones(xs)) == |xs|
    decreases |xs|
  {
    if |xs| > 0 {
      assert Ones(xs)[1..] == Ones(xs[1..]);
      SumOnes(xs[1..]);
    }
  }

  /**
   * The tally counts every element exactly as often as it occurs, has one
   * entry per distinct element in first-seen order, every count at least 1,
   * and counts summing to the length of the input.
   */
  lemma {:induction false} TallyMeaning<K(!new)>(xs: seq<K>)
    ensures forall k :: Get(Tally(xs), k) == multiset(xs)[k]
    ensures Keys(Tally(xs)) == Dedup(xs)
    ensures Positive(Tally(xs))
    ensures Sum(Tally(xs)) == |xs|
  {
    SumOnes(xs);
    TallyKeys(xs);
    forall k ensures Get(Tally(xs), k) == multiset(xs)[k] {
      TallyGet(xs, k);
    }
  }

  lemma TallyGet<K(!new)>(xs: seq<K>, k: K)
    ensures Get(Tally(xs), k) == multiset(xs)[k]
  {
    OnesWeight(xs, k);
  }

  /** Weight one per element adds up, for each key, to its number of occurrences. */
  lemma {:induction false} OnesWeight<K>(xs: seq<K>, k: K)
    ensures WeightOf(Ones(xs), k) == multiset(xs)[k]
    decreases |xs|
  {
    if |xs| > 0 {
      OnesWeight(xs[1..], k);
      assert Ones(xs) == [(xs[0], 1)] + Ones(xs[1..]);
      ConsWeight((xs[0], 1), Ones(xs[1..]), k);
      assert xs == [xs[0]] + xs[1..];
    }
  }

  /** Adding one more weighted key to the input adds it to the dict. */
  lemma WeightedSnoc<K(!new)>(ps: seq<(K, nat)>, x: (K, nat))
    ensures Weighted(ps + [x]) == Add(Weighted(ps), x.0, x.1)
  {
    assert (ps + [x])[..|ps|] == ps;
  }

  /** Counting one more element adds one to its count. */
  lemma TallySnoc<K(!new)>(xs: seq<K>, x: K)
    ensures Tally(xs + [x]) == Add(Tally(xs), x, 1)
  {
    assert Ones(xs + [x]) == Ones(xs) + [(x, 1)];
    WeightedSnoc(Ones(xs), (x, 1));
  }

  lemma TallyPrefix<K(!new)>(xs: seq<K>, i: nat)
    requires i < |xs|
    ensures Tally(xs[..i + 1]) == Add(Tally(xs[..i]), xs[i], 1)
  {
    assert xs[..i + 1] == xs[..i] + [xs[i]];
    TallySnoc(xs[..i], xs[i]);
  }

  /** The keys of a tally are the elements of `xs` in first-seen order. */
  lemma TallyKeys<K(!new)>(xs: seq<K>)
    ensures Keys(Tally(xs)) == Dedup(xs)
    ensures forall k :: k in Keys(Tally(xs)) <==> k in xs
  {
  }

  /** The loop of `print_data` (and the first loop of `show_request_statistics`) that counts keys into a dict. */
  method CountOccurrences<K(==,!new)>(xs: seq<K>) returns (t: Table<K>)
    ensures t == Tally(xs)
  {
    t := [];
    for i := 0 to |xs|
      invariant t == Tally(xs[..i])
    {
      TallyPrefix(xs, i);
      t := Add(t, xs[i], 1);
    }
    assert xs[..|xs|] == xs;
  }

  predicate NonIncreasing<K>(t: Table<K>) {
    forall i, j :: 0 <= i < j < |t| ==> t[i].1 >= t[j].1
  }

  /** Insert before the first entry whose count is not larger, so equal counts keep their order. */
  function InsertDesc<K>(x: (K, nat), s: Table<K>): (r: Table<K>)
    ensures multiset(r) == multiset(s) + multiset{x}
    ensures Sum(r) == Sum(s) + x.1
    decreases |s|
  {
    if |s| == 0 || s[0].1 <= x.1 then
      assert ([x] + s)[1..] == s;
      [x] + s
    else
      var rest := InsertDesc(x, s[1..]);
      assert s == [s[0]] + s[1..];
      assert ([s[0]] + rest)[1..] == rest;
      [s[0]] + rest
  }

  predicate AllAtMost<K>(t: Table<K>, b: nat) {
    forall i :: 0 <= i < |t| ==> t[i].1 <= b
  }

  lemma {:induction false} InsertDescAtMost<K>(x: (K, nat), s: Table<K>, b: nat)
    requires AllAtMost(s, b) && x.1 <= b
    ensures AllAtMost(InsertDesc(x, s), b)
    decreases |s|
  {
    if |s| > 0 && s[0].1 > x.1 {
      InsertDescAtMost(x, s[1..], b);
      var rest := InsertDesc(x, s[1..]);
      assert InsertDesc(x, s) == [s[0]] + rest;
    }
  }

  /** An entry whose count bounds a sorted list can be put in front of it. */
  lemma ConsSorted<K>(h: (K, nat), rest: Table<K>)
    requires NonIncreasing(rest) && AllAtMost(rest, h.1)
    ensures NonIncreasing([h] + rest)
  {
    var r := [h] + rest;
    forall i, j | 0 <= i < j < |r| ensures r[i].1 >= r[j].1 {
      assert r[j] == rest[j - 1];
      if i > 0 {
        assert r[i] == rest[i - 1];
      }
    }
  }

  /** Inserting into a list sorted by count keeps it sorted. */
  lemma {:induction false} InsertDescSorted<K>(x: (K, nat), s: Table<K>)
    requires NonIncreasing(s)
    ensures NonIncreasing(InsertDesc(x, s))
    decreases |s|
  {
    if |s| == 0 || s[0].1 <= x.1 {
      assert AllAtMost(s, x.1);
      ConsSorted(x, s);
    } else {
      var rest := InsertDesc(x, s[1..]);
      InsertDescSorted(x, s[1..]);
      InsertDescAtMost(x, s[1..], s[0].1);
      ConsSorted(s[0], rest);
    }
  }

  /** `sorted(t, key=lambda x: x[1], reverse=True)`: Python's sort is stable, also in reverse. */
  function SortDesc<K>(t: Table<K>): (r: Table<K>)
    ensures multiset(r) == multiset(t)
    ensures Sum(r) == Sum(t)
    ensures NonIncreasing(r)
    decreases |t|
  {
    if |t| == 0 then []
    else
      assert t == [t[0]] + t[1..];
      InsertDescSorted(t[0], SortDesc(t[1..]));
      InsertDesc(t[0], SortDesc(t[1..]))
  }

  /** The entries of `t` whose count is `c`, in order. */
  function WithCount<K>(t: Table<K>, c: nat): Table<K>
    decreases |t|
  {
    if |t| == 0 then [] else (if t[0].1 == c then [t[0]] else []) + WithCount(t[1..], c)
  }

  lemma {:induction false} WithCountInsert<K>(x: (K, nat), s: Table<K>, c: nat)
    requires NonIncreasing(s)
    ensures WithCount(InsertDesc(x, s), c) == (if x.1 == c then [x] else []) + WithCount(s, c)
    decreases |s|
  {
    if |s| == 0 || s[0].1 <= x.1 {
      assert ([x] + s)[1..] == s;
    } else {
      assert NonIncreasing(s[1..]);
      WithCountInsert(x, s[1..], c);
      var rest := InsertDesc(x, s[1..]);
      assert ([s[0]] + rest)[1..] == rest;
      if x.1 == c {
        assert s[0].1 != c;
      }
    }
  }

  /** Ties keep their first-seen order: the entries of each count appear as in the input. */
  lemma {:induction false} SortDescStable<K>(t: Table<K>, c: nat)
    ensures WithCount(SortDesc(t), c) == WithCount(t, c)
    decreases |t|
  {
    if |t| > 0 {
      SortDescStable(t[1..], c);
      WithCountInsert(t[0], SortDesc(t[1..]), c);
    }
  }

  /** Sorting keeps every entry, so counts stay positive. */
  lemma SortDescPositive<K>(t: Table<K>)
    requires Positive(t)
    ensures Positive(SortDesc(t))
  {
    var r := SortDesc(t);
    forall i | 0 <= i < |r| ensures r[i].1 >= 1 {
      assert r[i] in multiset(t);
    }
  }

  /** Inserting an entry with a new key gives that key its count and leaves the others. */
  lemma {:induction false} InsertDescGet<K(!new)>(x: (K, nat), s: Table<K>, k: K)
    requires x.0 !in Keys(s)
    ensures Get(InsertDesc(x, s), k) == if x.0 == k then x.1 else Get(s, k)
    decreases |s|
  {
    if |s| == 0 || s[0].1 <= x.1 {
      assert ([x] + s)[1..] == s;
    } else {
      assert Keys(s)[0] == s[0].0;
      assert Keys(s[1..]) == Keys(s)[1..];
      InsertDescGet(x, s[1..], k);
      var rest := InsertDesc(x, s[1..]);
      assert ([s[0]] + rest)[1..] == rest;
    }
  }

  /** Sorting a dict's items keeps the count of every key. */
  lemma {:induction false} SortDescGet<K(!new)>(t: Table<K>, k: K)
    requires DistinctKeys(t)
    ensures Get(SortDesc(t), k) == Get(t, k)
    decreases |t|
  {
    if |t| > 0 {
      var rest := t[1..];
      assert DistinctKeys(rest) by {
        forall i, j | 0 <= i < j < |rest| ensures rest[i].0 != rest[j].0 {
          assert rest[i] == t[i + 1] && rest[j] == t[j + 1];
        }
      }
      assert t[0].0 !in Keys(rest) by {
        forall i | 0 <= i < |rest| ensures Keys(rest)[i] != t[0].0 {
          assert rest[i] == t[i + 1];
        }
      }
      SortDescGet(rest, k);
      SortDescKeys(rest, t[0].0);
      InsertDescGet(t[0], SortDesc(rest), k);
    }
  }

  /** Sorting keeps the set of keys. */
  lemma SortDescKeys<K>(t: Table<K>, k: K)
    ensures k in Keys(SortDesc(t)) <==> k in Keys(t)
  {
    var r := SortDesc(t);
    if k in Keys(r) {
      var i :| 0 <= i < |r| && r[i].0 == k;
      assert r[i] in multiset(t);
      var j :| 0 <= j < |t| && t[j] == r[i];
      assert Keys(t)[j] == k;
    }
    if k in Keys(t) {
      var j :| 0 <= j < |t| && t[j].0 == k;
      assert t[j] in multiset(r);
      var i :| 0 <= i < |r| && r[i] == t[j];
      assert Keys(r)[i] == k;
    }
  }
}
