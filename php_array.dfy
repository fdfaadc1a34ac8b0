/**
 * The PHP array operations the protection manager relies on. A PHP array is
 * an ordered dictionary; it is modelled as the sequence of its (key, value)
 * entries in iteration order. PHP never holds a key twice, which is the
 * invariant `DistinctKeys`.
 */
module PhpArray {
  import opened Wrappers

  predicate HasKey<K(==), V>(a: seq<(K, V)>, k: K)
  {
    exists i :: 0 <= i < |a| && a[i].0 == k
  }

  predicate DistinctKeys<K(==), V>(a: seq<(K, V)>)
  {
    forall i, j :: 0 <= i < j < |a| ==> a[i].0 != a[j].0
  }

  /** `$a[$k] ?? null`; `isset($a[$k])` is `Get(a, k).Some?`. */
  function Get<K(==), V>(a: seq<(K, V)>, k: K): (r: Option<V>)
    ensures r.None? <==> !HasKey(a, k)
    ensures DistinctKeys(a) ==> forall i :: 0 <= i < |a| && a[i].0 == k ==> r == Some(a[i].1)
  {
    if a == [] then None
    else if a[0].0 == k then Some(a[0].1)
    else
      assert forall i :: 1 <= i < |a| ==> a[1..][i - 1] == a[i];
      Get(a[1..], k)
  }

  /**
   * `$a[$k] = $v`: an existing key keeps its place and takes the new value,
   * a new key is appended after all others.
   */
  function Set<K(==,!new), V>(a: seq<(K, V)>, k: K, v: V): (r: seq<(K, V)>)
    ensures !HasKey(a, k) ==> r == a + [(k, v)]
    ensures HasKey(a, k) && DistinctKeys(a) ==>
      |r| == |a| && forall i :: 0 <= i < |a| ==> r[i] == (if a[i].0 == k then (k, v) else a[i])
    ensures DistinctKeys(a) ==> DistinctKeys(r)
  {
    if a == [] then [(k, v)]
    else if a[0].0 == k then [(k, v)] + a[1..]
    else
      var tail := a[1..];
      var rest := Set(tail, k, v);
      assert HasKey(a, k) <==> HasKey(tail, k) by {
        if HasKey(a, k) {
          var i :| 0 <= i < |a| && a[i].0 == k;
          assert tail[i - 1].0 == k;
        }
        if HasKey(tail, k) {
          var i :| 0 <= i < |tail| && tail[i].0 == k;
          assert a[i + 1].0 == k;
        }
      }
      assert DistinctKeys(a) ==> DistinctKeys([a[0]] + rest) by {
        if DistinctKeys(a) {
          SuffixDistinct(a, 1);
          forall q | 0 <= q < |rest| ensures rest[q].0 != a[0].0 {
            if q < |tail| {
              assert tail[q] == a[q + 1];
            }
          }
          ConsDistinct(a[0], rest);
        }
      }
      [a[0]] + rest
  }

  /** After `$a[$k] = $v`, the key reads back `v` and every other key reads as before. */
  lemma SetReadBack<K(!new), V>(a: seq<(K, V)>, k: K, v: V, j: K)
    requires DistinctKeys(a)
    ensures Get(Set(a, k, v), k) == Some(v)
    ensures j != k ==> Get(Set(a, k, v), j) == Get(a, j)
  {
    var r := Set(a, k, v);
    if HasKey(a, k) {
      var i := KeyIndex(a, k);
      assert r[i] == (k, v);
    } else {
      assert r[|a|] == (k, v);
    }
    if j != k {
      SetOtherKey(a, k, v, j);
    }
  }

  /** The position of a present key. */
  lemma KeyIndex<K, V>(a: seq<(K, V)>, k: K) returns (i: int)
    requires HasKey(a, k)
    ensures 0 <= i < |a| && a[i].0 == k
  {
    i :| 0 <= i < |a| && a[i].0 == k;
  }

  lemma SetOtherKey<K(!new), V>(a: seq<(K, V)>, k: K, v: V, j: K)
    requires DistinctKeys(a) && j != k
    ensures Get(Set(a, k, v), j) == Get(a, j)
  {
    var r := Set(a, k, v);
    assert forall q :: 0 <= q < |a| && a[q].0 != k ==> r[q] == a[q];
    if HasKey(a, j) {
      var q := KeyIndex(a, j);
      assert r[q] == a[q];
    }
    if HasKey(r, j) {
      var q := KeyIndex(r, j);
      assert r[q] == a[q];
    }
  }

  lemma ConsDistinct<K, V>(x: (K, V), rest: seq<(K, V)>)
    requires DistinctKeys(rest)
    requires forall q :: 0 <= q < |rest| ==> rest[q].0 != x.0
    ensures DistinctKeys([x] + rest)
  {
    assert forall q :: 1 <= q < |rest| + 1 ==> ([x] + rest)[q] == rest[q - 1];
  }

  /** Dropping entries from the front keeps the keys distinct. */
  lemma SuffixDistinct<K, V>(a: seq<(K, V)>, n: nat)
    requires DistinctKeys(a) && n <= |a|
    ensures DistinctKeys(a[n..])
  {
    forall i, j | 0 <= i < j < |a| - n ensures a[n..][i].0 != a[n..][j].0 {
      assert a[n..][i] == a[n + i] && a[n..][j] == a[n + j];
    }
  }

  /** `unset($a[$k])`: every entry for `k` is dropped, the others keep their order. */
  function Unset<K(==), V>(a: seq<(K, V)>, k: K): (r: seq<(K, V)>)
    ensures !HasKey(a, k) ==> r == a
  {
    if a == [] then []
    else
      assert !HasKey(a, k) ==> !HasKey(a[1..], k) by {
        if HasKey(a[1..], k) {
          var i :| 0 <= i < |a[1..]| && a[1..][i].0 == k;
          assert a[i + 1].0 == k;
        }
      }
      (if a[0].0 == k then [] else [a[0]]) + Unset(a[1..], k)
  }

  /** With distinct keys, `unset` removes exactly the one position that holds `k`. */
  lemma {:induction false} UnsetAt<K, V>(a: seq<(K, V)>, k: K, i: int)
    requires DistinctKeys(a)
    requires 0 <= i < |a| && a[i].0 == k
    ensures Unset(a, k) == a[..i] + a[i + 1..]
  {
    var tail := a[1..];
    SuffixDistinct(a, 1);
    if i == 0 {
      assert !HasKey(tail, k) by {
        forall j | 0 <= j < |tail| ensures tail[j].0 != k {
          assert tail[j] == a[j + 1];
        }
      }
      assert Unset(a, k) == Unset(tail, k);
      assert a[..0] + a[1..] == tail;
    } else {
      assert a[0].0 != k;
      assert tail[i - 1].0 == k;
      UnsetAt(tail, k, i - 1);
      assert Unset(a, k) == [a[0]] + Unset(tail, k);
      assert a[..i] + a[i + 1..] == [a[0]] + (tail[..i - 1] + tail[i..]);
    }
  }

  /** After `unset`, the keys stay distinct, `k` is absent and every other key reads as before. */
  lemma {:induction false} UnsetKeepsOthers<K, V>(a: seq<(K, V)>, k: K, j: K)
    requires DistinctKeys(a)
    ensures DistinctKeys(Unset(a, k))
    ensures !HasKey(Unset(a, k), k)
    ensures j != k ==> Get(Unset(a, k), j) == Get(a, j)
  {
    var r := Unset(a, k);
    if HasKey(a, k) {
      var i :| 0 <= i < |a| && a[i].0 == k;
      UnsetShift(a, k, i);
      assert DistinctKeys(r) by {
        forall p, q | 0 <= p < q < |r| ensures r[p].0 != r[q].0 {
          assert r[p] == a[if p < i then p else p + 1];
          assert r[q] == a[if q < i then q else q + 1];
        }
      }
      assert !HasKey(r, k);
      if j != k {
        assert HasKey(a, j) ==> HasKey(r, j) by {
          if HasKey(a, j) {
            var q :| 0 <= q < |a| && a[q].0 == j;
            assert r[if q < i then q else q - 1] == a[q];
          }
        }
        assert HasKey(r, j) ==> Get(r, j) == Get(a, j) by {
          if HasKey(r, j) {
            var p :| 0 <= p < |r| && r[p].0 == j;
            assert r[p] == a[if p < i then p else p + 1];
          }
        }
      }
    }
  }

  /** Position `p` of the unset array holds the entry that followed the removed one by `p`'s offset. */
  lemma UnsetShift<K, V>(a: seq<(K, V)>, k: K, i: int)
    requires DistinctKeys(a)
    requires 0 <= i < |a| && a[i].0 == k
    ensures |Unset(a, k)| == |a| - 1
    ensures forall p :: 0 <= p < |a| - 1 ==> Unset(a, k)[p] == a[if p < i then p else p + 1]
  {
    UnsetAt(a, k, i);
  }

  /**
   * `array_slice($a, $offset, $length, true)`: a negative offset counts
   * from the end, an omitted length runs to the end, a negative length
   * stops that many entries before the end; keys are preserved.
   */
  function Slice<T>(a: seq<T>, offset: int, length: Option<int>): (r: seq<T>)
    ensures |r| <= |a|
    ensures offset < 0 && length.None? ==> r == a[|a| - Min(-offset, |a|)..]
    ensures 0 <= offset && length.None? ==> r == a[Min(offset, |a|)..]
    ensures 0 <= offset && length.Some? && 0 <= length.value ==>
      r == a[Min(offset, |a|)..Min(offset + length.value, |a|)]
  {
    var n := |a|;
    var start := if offset < 0 then Max(0, n + offset) else Min(offset, n);
    var end := match length
      case None => n
      case Some(l) => if l < 0 then Max(start, n + l) else Min(n, start + l);
    a[start..end]
  }
}
