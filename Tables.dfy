/**
 * Word-frequency tables (Python Counters keyed by words) and the
 * brute-force quantities the merge engines are specified against:
 * the weighted pair recount, the words-containing-a-pair index and the
 * re-keying of a table by the greedy merge (the effect of update_counts).
 * Sums over a map are folds that remove an arbitrary key; the "Remove"
 * lemmas show that the key chosen does not matter.
 */
module Tables {
  import opened Words

  /** Counter lookup: a missing key reads as 0. */
  function Get<K>(m: map<K, int>, k: K): int
  {
    if k in m then m[k] else 0
  }

  /** `m[k] += v` on a Counter. */
  function AddTo<K>(m: map<K, int>, k: K, v: int): (r: map<K, int>)
    ensures r.Keys == m.Keys + {k}
    ensures Get(r, k) == Get(m, k) + v
    ensures forall j :: j in m && j != k ==> r[j] == m[j]
  {
    m[k := Get(m, k) + v]
  }

  lemma GetAddTo<K>(m: map<K, int>, k: K, v: int, j: K)
    ensures Get(AddTo(m, k, v), j) == Get(m, j) + (if j == k then v else 0)
  {
  }

  /** The table restricted to the words in s. */
  function Restrict<T(==)>(m: map<seq<T>, int>, s: set<seq<T>>): (r: map<seq<T>, int>)
    ensures r.Keys == m.Keys * s
    ensures forall w :: w in r ==> r[w] == m[w]
  {
    map w | w in m && w in s :: m[w]
  }

  /** Brute-force recount: sum over the words of the table of
    * (occurrences of q in the word) * (count of the word). */
  ghost function Weighted<T>(m: map<seq<T>, int>, q: (T, T)): int
    decreases m.Keys
  {
    if m == map[] then 0
    else
      var w :| w in m;
      m[w] * PairCount(w, q) + Weighted(m - {w}, q)
  }

  /** Sum of all counts of a table. */
  ghost function SumValues<K>(m: map<K, int>): int
    decreases m.Keys
  {
    if m == map[] then 0
    else
      var k :| k in m;
      m[k] + SumValues(m - {k})
  }

  /** The distinct words of the table that contain q. */
  ghost function IndexOf<T>(m: map<seq<T>, int>, q: (T, T)): set<seq<T>>
  {
    set w | w in m && HasPair(w, q)
  }

  /** Every pair occurring in some word of the table. */
  ghost function AllPairs<T>(m: map<seq<T>, int>): set<(T, T)>
  {
    set w, i | w in m && 0 <= i < |w| - 1 :: PairAt(w, i)
  }

  /** Add the count of every word of m to the key its greedy merge
    * produces, starting from acc (new_counts[k] = new_counts.get(k, 0) + v). */
  ghost function Rekey<T>(acc: map<seq<T>, int>, m: map<seq<T>, int>, p: (T, T), t: T): map<seq<T>, int>
    decreases m.Keys
  {
    if m == map[] then acc
    else
      var w :| w in m;
      AddTo(Rekey(acc, m - {w}, p, t), Merge(w, p, t), m[w])
  }

  /** The table that merging p into t produces from m: every word is
    * re-keyed by its merge, counts of words landing on one key summed. */
  ghost function MergedCounts<T>(m: map<seq<T>, int>, p: (T, T), t: T): map<seq<T>, int>
  {
    Rekey(map[], m, p, t)
  }

  /** The words of m whose merge is x, with their counts. */
  ghost function Preimage<T>(m: map<seq<T>, int>, p: (T, T), t: T, x: seq<T>): map<seq<T>, int>
  {
    map w | w in m && Merge(w, p, t) == x :: m[w]
  }

  /** `a.update(b)` on Counters: counts of b are added, keys of both kept
    * (zero and negative values included). */
  function CounterUpdate<K>(a: map<K, int>, b: map<K, int>): (r: map<K, int>)
    ensures r.Keys == a.Keys + b.Keys
    ensures forall k :: k in r ==> r[k] == Get(a, k) + Get(b, k)
  {
    map k | k in a.Keys + b.Keys :: Get(a, k) + Get(b, k)
  }

  /** Distributivity for one more occurrence, kept out of the loops' contexts. */
  lemma MulSucc(v: int, c: int)
    ensures v * (c + 1) == v * c + v
  {
  }

  // ---------------------------------------------------------------------
  // Order independence of the folds

  lemma {:induction false} WeightedRemove<T>(m: map<seq<T>, int>, q: (T, T), x: seq<T>)
    requires x in m
    ensures Weighted(m, q) == m[x] * PairCount(x, q) + Weighted(m - {x}, q)
    decreases m.Keys
  {
    var w :| w in m && Weighted(m, q) == m[w] * PairCount(w, q) + Weighted(m - {w}, q);
    if w != x {
      WeightedRemove(m - {w}, q, x);
      WeightedRemove(m - {x}, q, w);
      assert m - {w} - {x} == m - {x} - {w};
    }
  }

  lemma {:induction false} SumValuesRemove<K>(m: map<K, int>, x: K)
    requires x in m
    ensures SumValues(m) == m[x] + SumValues(m - {x})
    decreases m.Keys
  {
    var k :| k in m && SumValues(m) == m[k] + SumValues(m - {k});
    if k != x {
      SumValuesRemove(m - {k}, x);
      SumValuesRemove(m - {x}, k);
      assert m - {k} - {x} == m - {x} - {k};
    }
  }

  lemma AddToCommute<K>(m: map<K, int>, k1: K, v1: int, k2: K, v2: int)
    ensures AddTo(AddTo(m, k1, v1), k2, v2) == AddTo(AddTo(m, k2, v2), k1, v1)
  {
    var a := AddTo(AddTo(m, k1, v1), k2, v2);
    var b := AddTo(AddTo(m, k2, v2), k1, v1);
    assert a.Keys == b.Keys;
    forall k | k in a ensures a[k] == b[k] {
      assert a[k] == Get(a, k) && b[k] == Get(b, k);
    }
  }

  lemma RekeyUnfold<T>(acc: map<seq<T>, int>, m: map<seq<T>, int>, p: (T, T), t: T) returns (w: seq<T>)
    requires m != map[]
    ensures w in m && Rekey(acc, m, p, t) == AddTo(Rekey(acc, m - {w}, p, t), Merge(w, p, t), m[w])
  {
    w :| w in m && Rekey(acc, m, p, t) == AddTo(Rekey(acc, m - {w}, p, t), Merge(w, p, t), m[w]);
  }

  lemma {:induction false} RekeyRemove<T>(acc: map<seq<T>, int>, m: map<seq<T>, int>, p: (T, T), t: T, x: seq<T>)
    requires x in m
    ensures Rekey(acc, m, p, t) == AddTo(Rekey(acc, m - {x}, p, t), Merge(x, p, t), m[x])
    decreases m.Keys
  {
    var w := RekeyUnfold(acc, m, p, t);
    if w != x {
      var both := m - {w} - {x};
      assert both == m - {x} - {w};
      RekeyRemove(acc, m - {w}, p, t, x);
      RekeyRemove(acc, m - {x}, p, t, w);
      AddToCommute(Rekey(acc, both, p, t), Merge(x, p, t), m[x], Merge(w, p, t), m[w]);
    }
  }


  // ---------------------------------------------------------------------
  // The recount

  /** Adding v to the count of k changes every recount by v times the
    * occurrences of the pair in k. */
  lemma WeightedAddTo<T>(m: map<seq<T>, int>, k: seq<T>, v: int, q: (T, T))
    ensures Weighted(AddTo(m, k, v), q) == Weighted(m, q) + v * PairCount(k, q)
  {
    var r := AddTo(m, k, v);
    WeightedRemove(r, q, k);
    assert r - {k} == m - {k};
    if k in m {
      WeightedRemove(m, q, k);
    } else {
      assert m - {k} == m;
    }
    assert (Get(m, k) + v) * PairCount(k, q) == Get(m, k) * PairCount(k, q) + v * PairCount(k, q);
  }

  /** Re-keying one word w (of count n) to x changes every recount by n
    * times the change in occurrences from w to x. */
  lemma WeightedMove<T>(m: map<seq<T>, int>, w: seq<T>, x: seq<T>, q: (T, T))
    requires w in m
    ensures Weighted(AddTo(m - {w}, x, m[w]), q) == Weighted(m, q) + m[w] * (PairCount(x, q) - PairCount(w, q))
  {
    WeightedAddTo(m - {w}, x, m[w], q);
    WeightedRemove(m, q, w);
    assert m[w] * (PairCount(x, q) - PairCount(w, q)) == m[w] * PairCount(x, q) - m[w] * PairCount(w, q);
  }

  /** A pair that occurs in no word has recount 0. */
  lemma {:induction false} WeightedAbsent<T>(m: map<seq<T>, int>, q: (T, T))
    requires forall w :: w in m ==> !HasPair(w, q)
    ensures Weighted(m, q) == 0
    decreases m.Keys
  {
    if m != map[] {
      var w :| w in m;
      WeightedRemove(m, q, w);
      HasPairIffCount(w, q);
      WeightedAbsent(m - {w}, q);
    }
  }

  /** With positive counts the recount is never negative, and it is
    * positive exactly when the pair occurs in some word. */
  lemma {:induction false} WeightedSign<T>(m: map<seq<T>, int>, q: (T, T))
    requires forall w :: w in m ==> m[w] > 0
    ensures Weighted(m, q) >= 0
    ensures Weighted(m, q) > 0 <==> exists w :: w in m && HasPair(w, q)
    decreases m.Keys
  {
    if m != map[] {
      var w :| w in m;
      WeightedRemove(m, q, w);
      HasPairIffCount(w, q);
      WeightedSign(m - {w}, q);
      assert m[w] * PairCount(w, q) >= 0;
      if HasPair(w, q) {
        assert m[w] * PairCount(w, q) >= PairCount(w, q);
      }
      if exists y :: y in m && HasPair(y, q) {
        var y :| y in m && HasPair(y, q);
        if y != w {
          assert y in m - {w};
        }
      }
    }
  }

  /** AllPairs is the set of pairs occurring in some word. */
  lemma AllPairsIff<T>(m: map<seq<T>, int>, q: (T, T))
    ensures q in AllPairs(m) <==> exists w :: w in m && HasPair(w, q)
  {
    if exists w :: w in m && HasPair(w, q) {
      var w :| w in m && HasPair(w, q);
      var i :| 0 <= i < |w| - 1 && w[i] == q.0 && w[i + 1] == q.1;
      assert PairAt(w, i) == q;
    }
  }

  // ---------------------------------------------------------------------
  // Growing a restriction by one word (one round of a loop over a table)

  lemma RestrictAll<T>(m: map<seq<T>, int>)
    ensures Restrict(m, m.Keys) == m
  {
  }

  lemma RestrictAddWord<T>(m: map<seq<T>, int>, d: set<seq<T>>, k: seq<T>)
    requires k in m && k !in d
    ensures k in Restrict(m, d + {k}) && Restrict(m, d + {k})[k] == m[k]
    ensures Restrict(m, d + {k}) - {k} == Restrict(m, d)
  {
  }

  lemma WeightedRestrictAdd<T>(m: map<seq<T>, int>, d: set<seq<T>>, k: seq<T>, q: (T, T))
    requires k in m && k !in d
    ensures Weighted(Restrict(m, d + {k}), q) == Weighted(Restrict(m, d), q) + m[k] * PairCount(k, q)
  {
    RestrictAddWord(m, d, k);
    WeightedRemove(Restrict(m, d + {k}), q, k);
  }

  lemma AllPairsRestrictAdd<T>(m: map<seq<T>, int>, d: set<seq<T>>, k: seq<T>)
    requires k in m && k !in d
    ensures AllPairs(Restrict(m, d + {k})) == AllPairs(Restrict(m, d)) + PairSet(k)
  {
    var big := Restrict(m, d + {k});
    var small := Restrict(m, d);
    forall q | q in AllPairs(big) ensures q in AllPairs(small) + PairSet(k) {
      var w, i :| w in big && 0 <= i < |w| - 1 && PairAt(w, i) == q;
      if w != k {
        assert w in small;
      }
    }
    forall q | q in AllPairs(small) + PairSet(k) ensures q in AllPairs(big) {
      if q in AllPairs(small) {
        var w, i :| w in small && 0 <= i < |w| - 1 && PairAt(w, i) == q;
        assert w in big;
      } else {
        var i :| 0 <= i < |k| - 1 && PairAt(k, i) == q;
        assert k in big;
      }
    }
  }

  lemma IndexRestrictAdd<T>(m: map<seq<T>, int>, d: set<seq<T>>, k: seq<T>, q: (T, T))
    requires k in m && k !in d
    ensures IndexOf(Restrict(m, d + {k}), q) == IndexOf(Restrict(m, d), q) + (if HasPair(k, q) then {k} else {})
  {
  }

  // ---------------------------------------------------------------------
  // Re-keying by the merge

  /** The keys the merge produces from the words of m. */
  ghost function MergedKeys<T>(m: map<seq<T>, int>, p: (T, T), t: T): set<seq<T>>
  {
    set y | y in m :: Merge(y, p, t)
  }

  lemma MergedKeysRemove<T>(m: map<seq<T>, int>, p: (T, T), t: T, w: seq<T>)
    requires w in m
    ensures MergedKeys(m, p, t) == MergedKeys(m - {w}, p, t) + {Merge(w, p, t)}
  {
    var all := MergedKeys(m, p, t);
    var rest := MergedKeys(m - {w}, p, t);
    forall z | z in all ensures z in rest + {Merge(w, p, t)} {
      var y :| y in m && Merge(y, p, t) == z;
      if y != w {
        assert y in m - {w};
      }
    }
  }

  /** The keys of the re-keyed table: those of acc and the merge of every word. */
  lemma {:induction false} RekeyKeys<T>(acc: map<seq<T>, int>, m: map<seq<T>, int>, p: (T, T), t: T)
    ensures Rekey(acc, m, p, t).Keys == acc.Keys + MergedKeys(m, p, t)
    decreases m.Keys
  {
    if m == map[] {
      assert MergedKeys(m, p, t) == {};
    } else {
      var w :| w in m;
      RekeyRemove(acc, m, p, t, w);
      RekeyKeys(acc, m - {w}, p, t);
      MergedKeysRemove(m, p, t, w);
    }
  }

  /** The count of x after re-keying: its count in acc plus the counts of
    * all words whose merge is x. */
  lemma {:induction false} RekeyValue<T>(acc: map<seq<T>, int>, m: map<seq<T>, int>, p: (T, T), t: T, x: seq<T>)
    ensures Get(Rekey(acc, m, p, t), x) == Get(acc, x) + SumValues(Preimage(m, p, t, x))
    decreases m.Keys
  {
    if m == map[] {
      assert Preimage(m, p, t, x) == map[];
    } else {
      var w :| w in m;
      RekeyRemove(acc, m, p, t, w);
      RekeyValue(acc, m - {w}, p, t, x);
      GetAddTo(Rekey(acc, m - {w}, p, t), Merge(w, p, t), m[w], x);
      PreimageRemove(m, p, t, x, w);
    }
  }

  lemma PreimageRemove<T>(m: map<seq<T>, int>, p: (T, T), t: T, x: seq<T>, w: seq<T>)
    requires w in m
    ensures SumValues(Preimage(m, p, t, x)) == SumValues(Preimage(m - {w}, p, t, x)) + (if Merge(w, p, t) == x then m[w] else 0)
  {
    var pre := Preimage(m, p, t, x);
    if Merge(w, p, t) == x {
      SumValuesRemove(pre, w);
      assert pre - {w} == Preimage(m - {w}, p, t, x);
    } else {
      assert pre == Preimage(m - {w}, p, t, x);
    }
  }


  /** Re-keying preserves the total number of occurrences. */
  lemma {:induction false} RekeyTotal<T>(acc: map<seq<T>, int>, m: map<seq<T>, int>, p: (T, T), t: T)
    ensures SumValues(Rekey(acc, m, p, t)) == SumValues(acc) + SumValues(m)
    decreases m.Keys
  {
    if m != map[] {
      var w :| w in m;
      RekeyRemove(acc, m, p, t, w);
      RekeyTotal(acc, m - {w}, p, t);
      SumValuesRemove(m, w);
      SumValuesAddTo(Rekey(acc, m - {w}, p, t), Merge(w, p, t), m[w]);
    }
  }

  lemma SumValuesAddTo<K>(m: map<K, int>, k: K, v: int)
    ensures SumValues(AddTo(m, k, v)) == SumValues(m) + v
  {
    var r := AddTo(m, k, v);
    SumValuesRemove(r, k);
    assert r - {k} == m - {k};
    if k in m {
      SumValuesRemove(m, k);
    } else {
      assert m - {k} == m;
    }
  }

  /** Removing a key that no merge produces commutes with re-keying. */
  lemma {:induction false} RekeyDropKey<T>(acc: map<seq<T>, int>, m: map<seq<T>, int>, p: (T, T), t: T, x: seq<T>)
    requires forall w :: w in m ==> Merge(w, p, t) != x
    ensures Rekey(acc - {x}, m, p, t) == Rekey(acc, m, p, t) - {x}
    decreases m.Keys
  {
    if m == map[] {
    } else {
      var w :| w in m;
      RekeyRemove(acc - {x}, m, p, t, w);
      RekeyRemove(acc, m, p, t, w);
      RekeyDropKey(acc, m - {w}, p, t, x);
      var r := Rekey(acc, m - {w}, p, t);
      var y := Merge(w, p, t);
      var lhs := AddTo(r - {x}, y, m[w]);
      var rhs := AddTo(r, y, m[w]) - {x};
      assert lhs.Keys == rhs.Keys;
      forall z | z in lhs ensures lhs[z] == rhs[z] {
        if z == y {
          assert Get(r - {x}, y) == Get(r, y);
        }
      }
      assert lhs == rhs;
    }
  }

  /** Re-keying two disjoint tables one after the other is re-keying their union. */
  lemma {:induction false} RekeySplit<T>(acc: map<seq<T>, int>, a: map<seq<T>, int>, b: map<seq<T>, int>, p: (T, T), t: T)
    requires a.Keys !! b.Keys
    ensures Rekey(acc, a + b, p, t) == Rekey(Rekey(acc, a, p, t), b, p, t)
    decreases b.Keys
  {
    if b == map[] {
      assert a + b == a;
    } else {
      var w :| w in b;
      RekeyRemove(acc, a + b, p, t, w);
      assert (a + b) - {w} == a + (b - {w});
      RekeySplit(acc, a, b - {w}, p, t);
      RekeyRemove(Rekey(acc, a, p, t), b, p, t, w);
    }
  }

  /** A table none of whose words contains the pair is its own re-keying. */
  lemma {:induction false} RekeyFixed<T>(m: map<seq<T>, int>, p: (T, T), t: T)
    requires forall w :: w in m ==> !HasPair(w, p)
    ensures MergedCounts(m, p, t) == m
    decreases m.Keys
  {
    if m != map[] {
      var w :| w in m;
      RekeyRemove(map[], m, p, t, w);
      RekeyFixed(m - {w}, p, t);
      MergeFixed(w, p, t);
      assert AddTo(m - {w}, w, m[w]) == m;
    }
  }

  /** Merging preserves the total number of word occurrences. */
  lemma MergedCountsTotal<T>(m: map<seq<T>, int>, p: (T, T), t: T)
    ensures SumValues(MergedCounts(m, p, t)) == SumValues(m)
  {
    RekeyTotal(map[], m, p, t);
  }

  /** The count of each key after merging is the sum of the counts of the
    * distinct words that merge onto it. */
  lemma MergedCountsValue<T>(m: map<seq<T>, int>, p: (T, T), t: T, x: seq<T>)
    ensures x in MergedCounts(m, p, t) <==> exists w :: w in m && Merge(w, p, t) == x
    ensures Get(MergedCounts(m, p, t), x) == SumValues(Preimage(m, p, t, x))
  {
    RekeyKeys(map[], m, p, t);
    RekeyValue(map[], m, p, t, x);
    if exists w :: w in m && Merge(w, p, t) == x {
      var w :| w in m && Merge(w, p, t) == x;
      assert x in MergedKeys(m, p, t);
    }
  }

  /** One round of the incremental update: moving a word that no merge
    * produces from the untouched part of the table to the merged part. */
  lemma RekeyMove<T>(m: map<seq<T>, int>, d: set<seq<T>>, w: seq<T>, p: (T, T), t: T)
    requires w in m && w !in d
    requires forall x :: x in m ==> Merge(x, p, t) != w
    ensures w in Rekey(m - d, Restrict(m, d), p, t)
    ensures Rekey(m - d, Restrict(m, d), p, t)[w] == m[w]
    ensures Rekey(m - (d + {w}), Restrict(m, d + {w}), p, t)
         == AddTo(Rekey(m - d, Restrict(m, d), p, t) - {w}, Merge(w, p, t), m[w])
  {
    var r := Restrict(m, d);
    var cur := Rekey(m - d, r, p, t);
    RekeyKeys(m - d, r, p, t);
    RekeyValue(m - d, r, p, t, w);
    assert Preimage(r, p, t, w) == map[];
    RestrictAddWord(m, d, w);
    var r' := Restrict(m, d + {w});
    assert m - (d + {w}) == (m - d) - {w};
    RekeyRemove(m - (d + {w}), r', p, t, w);
    assert r' - {w} == r;
    RekeyDropKey(m - d, r, p, t, w);
  }

  /** Once every word containing the pair has been moved, the table is
    * the merged table. */
  lemma RekeyAffected<T>(m: map<seq<T>, int>, affected: set<seq<T>>, p: (T, T), t: T)
    requires affected == IndexOf(m, p)
    ensures Rekey(m - affected, Restrict(m, affected), p, t) == MergedCounts(m, p, t)
  {
    var a := m - affected;
    var b := Restrict(m, affected);
    assert a + b == m;
    RekeySplit(map[], a, b, p, t);
    RekeyFixed(a, p, t);
  }

  /** The index after moving w to the key x. */
  lemma IndexMove<T>(m: map<seq<T>, int>, w: seq<T>, x: seq<T>, n: int, q: (T, T))
    requires w != x
    ensures IndexOf(AddTo(m - {w}, x, n), q) == IndexOf(m, q) - {w} + (if HasPair(x, q) then {x} else {})
  {
  }

  /** A word without the pair keeps its key, and its count can only grow
    * by the counts of the words that merge onto it. */
  lemma MergedCountsKeeps<T>(m: map<seq<T>, int>, p: (T, T), t: T, x: seq<T>)
    requires x in m && !HasPair(x, p)
    ensures x in MergedCounts(m, p, t)
    ensures MergedCounts(m, p, t)[x] == m[x] + SumValues(Preimage(m, p, t, x) - {x})
  {
    RekeyKeys(map[], m, p, t);
    MergeFixed(x, p, t);
    assert Merge(x, p, t) in MergedKeys(m, p, t);
    RekeyValue(map[], m, p, t, x);
    SumValuesRemove(Preimage(m, p, t, x), x);
  }
}
