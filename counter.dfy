/** Python's `collections.Counter` as the statistics code uses it: `c[k] += 1` and `most_common()`. A counter
    is a `dict`, so its entries keep the order in which their keys were first counted. */
module Counters {

  datatype Entry<K> = Entry(key: K, count: nat)

  /** Keys are distinct and every count is positive: what `+= 1` from an empty counter can build. */
  predicate Valid<K(==)>(c: seq<Entry<K>>)
  {
    && (forall i, j :: 0 <= i < j < |c| ==> c[i].key != c[j].key)
    && (forall i :: 0 <= i < |c| ==> c[i].count > 0)
  }

  /** The position of `k` among the entries, or `|c|` when it has none. */
  function KeyIndex<K(==)>(c: seq<Entry<K>>, k: K): (i: nat)
    ensures i <= |c|
    ensures i < |c| ==> c[i].key == k
    ensures forall j :: 0 <= j < i ==> c[j].key != k
  {
    if c == [] then 0 else if c[0].key == k then 0 else 1 + KeyIndex(c[1..], k)
  }

  /** `c[k]`: the count of `k`, zero when it was never counted. */
  function Count<K(==)>(c: seq<Entry<K>>, k: K): nat
  {
    var i := KeyIndex(c, k);
    if i < |c| then c[i].count else 0
  }

  /** `c[k] += 1`: a known key is counted in place, a new one is appended with count 1. */
  function Increment<K(==)>(c: seq<Entry<K>>, k: K): (r: seq<Entry<K>>)
  {
    var i := KeyIndex(c, k);
    if i < |c| then c[i := Entry(k, c[i].count + 1)] else c + [Entry(k, 1)]
  }

  /** The keys of the entries, in order. */
  function Keys<K>(c: seq<Entry<K>>): (ks: seq<K>)
    ensures |ks| == |c|
  {
    seq(|c|, i requires 0 <= i < |c| => c[i].key)
  }

  /** Where a key sits depends only on the sequence of keys. */
  lemma {:induction false} KeyIndexOfKeys<K>(c: seq<Entry<K>>, d: seq<Entry<K>>, k: K)
    requires Keys(c) == Keys(d)
    ensures KeyIndex(c, k) == KeyIndex(d, k)
  {
    if c != [] {
      assert c[0].key == Keys(c)[0] == Keys(d)[0] == d[0].key;
      assert Keys(c[1..]) == Keys(c)[1..];
      assert Keys(d[1..]) == Keys(d)[1..];
      KeyIndexOfKeys(c[1..], d[1..], k);
    }
  }

  /** A key absent from `c` is found at the end of `c + [e]` exactly when it is `e`'s key. */
  lemma {:induction false} KeyIndexAppend<K>(c: seq<Entry<K>>, e: Entry<K>, k: K)
    requires KeyIndex(c, k) == |c|
    ensures KeyIndex(c + [e], k) == if e.key == k then |c| else |c| + 1
  {
    if c != [] {
      assert (c + [e])[1..] == c[1..] + [e];
      KeyIndexAppend(c[1..], e, k);
    }
  }

  /** Counting `k` adds one to `k` and leaves every other key alone; the entries stay distinct and positive, and
      those already present keep their places. */
  lemma IncrementCount<K>(c: seq<Entry<K>>, k: K, j: K)
    ensures Count(Increment(c, k), j) == Count(c, j) + (if j == k then 1 else 0)
    ensures |Increment(c, k)| >= |c| && Keys(Increment(c, k))[..|c|] == Keys(c)
  {
    var i := KeyIndex(c, k);
    var r := Increment(c, k);
    if i < |c| {
      assert Keys(r) == Keys(c);
      KeyIndexOfKeys(r, c, j);
    } else {
      assert Keys(r)[..|c|] == Keys(c);
      var ij := KeyIndex(c, j);
      if ij < |c| {
        assert KeyIndex(r, j) <= ij by {
          assert r[ij] == c[ij];
        }
        assert KeyIndex(r, j) == ij by {
          forall m | 0 <= m < ij
            ensures r[m].key != j
          {
            assert r[m] == c[m];
          }
        }
      } else {
        KeyIndexAppend(c, Entry(k, 1), j);
      }
    }
  }

  /** Counting keeps a counter valid. */
  lemma IncrementValid<K>(c: seq<Entry<K>>, k: K)
    requires Valid(c)
    ensures Valid(Increment(c, k))
  {
  }

  /** The counter after counting each of `keys` in turn. */
  function AddAll<K(==)>(c: seq<Entry<K>>, keys: seq<K>): seq<Entry<K>>
  {
    if keys == [] then c else Increment(AddAll(c, keys[..|keys| - 1]), keys[|keys| - 1])
  }

  /** Counting one more key. */
  lemma AddAllSnoc<K>(c: seq<Entry<K>>, keys: seq<K>, k: K)
    ensures AddAll(c, keys + [k]) == Increment(AddAll(c, keys), k)
  {
    assert (keys + [k])[..|keys|] == keys;
  }

  /** Counting two runs of keys one after the other. */
  lemma {:induction false} AddAllConcat<K>(c: seq<Entry<K>>, a: seq<K>, b: seq<K>)
    ensures AddAll(c, a + b) == AddAll(AddAll(c, a), b)
  {
    if b == [] {
      assert a + b == a;
    } else {
      var init := b[..|b| - 1];
      AddAllConcat(c, a, init);
      assert (a + b)[..|a + b| - 1] == a + init;
    }
  }

  /** After counting `keys`, each key's count has grown by the number of times it occurs in `keys`. */
  lemma {:induction false} AddAllCount<K>(c: seq<Entry<K>>, keys: seq<K>, k: K)
    ensures Count(AddAll(c, keys), k) == Count(c, k) + multiset(keys)[k]
  {
    if keys != [] {
      var init := keys[..|keys| - 1];
      var last := keys[|keys| - 1];
      AddAllCount(c, init, k);
      IncrementCount(AddAll(c, init), last, k);
      assert keys == init + [last];
    }
  }

  /** Counting keeps a counter valid. */
  lemma {:induction false} AddAllValid<K>(c: seq<Entry<K>>, keys: seq<K>)
    requires Valid(c)
    ensures Valid(AddAll(c, keys))
  {
    if keys != [] {
      AddAllValid(c, keys[..|keys| - 1]);
      IncrementValid(AddAll(c, keys[..|keys| - 1]), keys[|keys| - 1]);
    }
  }

  /** Counts never increase from front to back. */
  predicate Descending<K>(s: seq<Entry<K>>)
  {
    forall i, j :: 0 <= i < j < |s| ==> s[i].count >= s[j].count
  }

  /** The entries with count `n`, in order. */
  function WithCount<K>(s: seq<Entry<K>>, n: nat): seq<Entry<K>>
  {
    if s == [] then []
    else WithCount(s[..|s| - 1], n) + (if s[|s| - 1].count == n then [s[|s| - 1]] else [])
  }

  /** Places `e` after every entry whose count is at least its own. */
  function InsertByCount<K>(e: Entry<K>, s: seq<Entry<K>>): (r: seq<Entry<K>>)
    ensures multiset(r) == multiset(s) + multiset{e}
  {
    if s == [] then [e]
    else if s[0].count >= e.count then
      assert s == [s[0]] + s[1..];
      [s[0]] + InsertByCount(e, s[1..])
    else [e] + s
  }

  /** `Counter.most_common()`: the entries by descending count; `sorted` is stable, so ties keep insertion
      order. */
  function MostCommon<K>(c: seq<Entry<K>>): (r: seq<Entry<K>>)
    ensures multiset(r) == multiset(c)
  {
    if c == [] then []
    else
      assert c == c[..|c| - 1] + [c[|c| - 1]];
      InsertByCount(c[|c| - 1], MostCommon(c[..|c| - 1]))
  }

  /** `Counter.most_common(n)`: the first `n` entries of `most_common()`. */
  function Top<K>(c: seq<Entry<K>>, n: nat): (r: seq<Entry<K>>)
    ensures |r| <= n && |r| <= |c|
  {
    var s := MostCommon(c);
    assert |s| == |multiset(s)| == |multiset(c)| == |c|;
    if n <= |s| then s[..n] else s
  }

  /** The entries with a given count, after putting one entry at the front. */
  lemma WithCountCons<K>(e: Entry<K>, s: seq<Entry<K>>, n: nat)
    ensures WithCount([e] + s, n) == (if e.count == n then [e] else []) + WithCount(s, n)
    decreases |s|
  {
    if s != [] {
      var init := s[..|s| - 1];
      assert ([e] + s)[..|s|] == [e] + init;
      WithCountCons(e, init, n);
    } else {
      assert [e] + s == [e];
      assert [e][..0] == [];
    }
  }

  /** The entry an insertion puts at the front. */
  lemma InsertHead<K>(e: Entry<K>, s: seq<Entry<K>>)
    ensures InsertByCount(e, s)[0] == if s == [] || s[0].count < e.count then e else s[0]
  {
  }

  /** Inserting keeps counts descending. */
  lemma {:induction false} InsertDescending<K>(e: Entry<K>, s: seq<Entry<K>>)
    requires Descending(s)
    ensures Descending(InsertByCount(e, s))
  {
    if s != [] && s[0].count >= e.count {
      var tail := s[1..];
      var r := InsertByCount(e, tail);
      assert InsertByCount(e, s) == [s[0]] + r;
      InsertDescending(e, tail);
      InsertHead(e, tail);
      ConsDescending(s[0], r);
    } else if s != [] {
      ConsDescending(e, s);
    }
  }

  /** An entry put in front of a descending sequence whose first count it reaches keeps it descending. */
  lemma ConsDescending<K>(x: Entry<K>, r: seq<Entry<K>>)
    requires Descending(r) && (r == [] || x.count >= r[0].count)
    ensures Descending([x] + r)
  {
    var out := [x] + r;
    forall i, j | 0 <= i < j < |out|
      ensures out[i].count >= out[j].count
    {
      assert out[j] == r[j - 1];
      if i > 0 {
        assert out[i] == r[i - 1];
      }
    }
  }

  /** Inserting `e` puts it after every entry with the same count. */
  lemma {:induction false} InsertWithCount<K>(e: Entry<K>, s: seq<Entry<K>>, n: nat)
    requires Descending(s)
    ensures WithCount(InsertByCount(e, s), n) == WithCount(s, n) + (if e.count == n then [e] else [])
  {
    if s == [] {
      assert [e][..0] == [];
    } else if s[0].count >= e.count {
      var tail := s[1..];
      assert Descending(tail) by {
        assert forall i :: 0 <= i < |tail| ==> tail[i] == s[i + 1];
      }
      InsertWithCount(e, tail, n);
      InsertBehind(e, s, n);
    } else {
      WithCountCons(e, s, n);
      if e.count == n {
        NoneWithCount(s, n);
      }
    }
  }

  /** The step of `InsertWithCount` where `e` goes behind the front entry. */
  lemma InsertBehind<K>(e: Entry<K>, s: seq<Entry<K>>, n: nat)
    requires s != [] && s[0].count >= e.count
    requires WithCount(InsertByCount(e, s[1..]), n) == WithCount(s[1..], n) + (if e.count == n then [e] else [])
    ensures WithCount(InsertByCount(e, s), n) == WithCount(s, n) + (if e.count == n then [e] else [])
  {
    var tag := if e.count == n then [e] else [];
    var tail := s[1..];
    var front := if s[0].count == n then [s[0]] else [];
    var inserted := InsertByCount(e, tail);
    HeadTail(s);
    calc {
      WithCount(InsertByCount(e, s), n);
      WithCount([s[0]] + inserted, n);
      { WithCountCons(s[0], inserted, n); }
      front + WithCount(inserted, n);
      front + (WithCount(tail, n) + tag);
      { Associative(front, WithCount(tail, n), tag); }
      (front + WithCount(tail, n)) + tag;
      { WithCountCons(s[0], tail, n); }
      WithCount(s, n) + tag;
    }
  }

  /** A non-empty sequence is its first element followed by the rest. */
  lemma HeadTail<T>(s: seq<T>)
    requires s != []
    ensures s == [s[0]] + s[1..]
  {
  }

  /** Concatenation regroups. */
  lemma Associative<T>(a: seq<T>, b: seq<T>, c: seq<T>)
    ensures a + (b + c) == (a + b) + c
  {
  }

  /** In a descending run whose front count is below `n`, no entry has count `n`. */
  lemma {:induction false} NoneWithCount<K>(s: seq<Entry<K>>, n: nat)
    requires Descending(s) && s != [] && s[0].count < n
    ensures WithCount(s, n) == []
  {
    if |s| > 1 {
      NoneWithCount(s[..|s| - 1], n);
    }
  }

  /** `most_common()` is sorted by descending count, and among equal counts the entries keep the order of the
      counter. */
  lemma {:induction false} MostCommonOrder<K>(c: seq<Entry<K>>, n: nat)
    ensures Descending(MostCommon(c))
    ensures WithCount(MostCommon(c), n) == WithCount(c, n)
  {
    if c != [] {
      var init := c[..|c| - 1];
      MostCommonOrder(init, n);
      InsertDescending(c[|c| - 1], MostCommon(init));
      InsertWithCount(c[|c| - 1], MostCommon(init), n);
    }
  }

  /** `most_common(n)` is the `n` entries with the highest counts: the first `n` of the whole ordering (all of it
      when there are fewer), each counted at least as often as every entry left out, all taken from the counter. */
  lemma TopIsHighest<K>(c: seq<Entry<K>>, n: nat)
    ensures |MostCommon(c)| == |c|
    ensures n <= |c| ==> Top(c, n) == MostCommon(c)[..n]
    ensures n > |c| ==> Top(c, n) == MostCommon(c)
    ensures forall i, j :: 0 <= i < |Top(c, n)| <= j < |c| ==> Top(c, n)[i].count >= MostCommon(c)[j].count
    ensures multiset(Top(c, n)) <= multiset(c)
  {
    var s := MostCommon(c);
    assert |s| == |multiset(s)| == |multiset(c)| == |c|;
    var k := if n <= |s| then n else |s|;
    assert Top(c, n) == s[..k];
    PrefixMultiset(s, k);
    MostCommonOrder(c, 0);
  }

  /** A prefix holds no more of any element than the whole sequence. */
  lemma PrefixMultiset<T>(s: seq<T>, k: nat)
    requires k <= |s|
    ensures multiset(s[..k]) <= multiset(s)
  {
    assert s == s[..k] + s[k..];
  }
}
