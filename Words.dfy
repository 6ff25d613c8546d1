/**
 * Words (sequences of tokens), their adjacent pairs, and the greedy
 * left-to-right, non-overlapping pair merge shared by the incremental
 * trainer and the full-recount reference merger.  The token type is a
 * parameter: the trainer uses integer ids, the reference merger strings.
 */
module Words {

  /** Number of positions i with (w[i], w[i+1]) == q, i.e. the number of
    * times q is produced by zip(w, w[1:]); overlapping occurrences count. */
  function PairCount<T(==)>(w: seq<T>, q: (T, T)): nat
    decreases |w|
  {
    if |w| < 2 then 0
    else (if w[0] == q.0 && w[1] == q.1 then 1 else 0) + PairCount(w[1..], q)
  }

  /** q occurs between two adjacent elements of w. */
  predicate HasPair<T(==)>(w: seq<T>, q: (T, T))
  {
    exists i :: 0 <= i < |w| - 1 && w[i] == q.0 && w[i + 1] == q.1
  }

  /** The set of adjacent pairs of w: set(zip(w, w[1:])). */
  function PairSet<T(==)>(w: seq<T>): set<(T, T)>
  {
    set i | 0 <= i < |w| - 1 :: PairAt(w, i)
  }

  /** The adjacent pair starting at position i. */
  function PairAt<T>(w: seq<T>, i: int): (T, T)
    requires 0 <= i < |w| - 1
  {
    (w[i], w[i + 1])
  }

  /** A pair is in the pair set exactly when it occurs in the word. */
  lemma PairSetIff<T>(w: seq<T>, q: (T, T))
    ensures q in PairSet(w) <==> HasPair(w, q)
  {
    if HasPair(w, q) {
      var i :| 0 <= i < |w| - 1 && w[i] == q.0 && w[i + 1] == q.1;
      assert PairAt(w, i) == q;
    }
  }

  /** The greedy, left-to-right, non-overlapping rewrite of w that replaces
    * each occurrence of the pair p by the single token t. */
  function Merge<T(==)>(w: seq<T>, p: (T, T), t: T): seq<T>
    decreases |w|
  {
    if |w| < 2 then w
    else if w[0] == p.0 && w[1] == p.1 then [t] + Merge(w[2..], p, t)
    else [w[0]] + Merge(w[1..], p, t)
  }

  /** Number of replacements the greedy merge performs. */
  function Replacements<T(==)>(w: seq<T>, p: (T, T)): nat
    decreases |w|
  {
    if |w| < 2 then 0
    else if w[0] == p.0 && w[1] == p.1 then 1 + Replacements(w[2..], p)
    else Replacements(w[1..], p)
  }

  /** Occurrence counting agrees with occurrence existence. */
  lemma {:induction false} HasPairIffCount<T>(w: seq<T>, q: (T, T))
    ensures HasPair(w, q) <==> PairCount(w, q) > 0
    decreases |w|
  {
    if |w| >= 2 {
      HasPairIffCount(w[1..], q);
      if HasPair(w[1..], q) {
        var i :| 0 <= i < |w[1..]| - 1 && w[1..][i] == q.0 && w[1..][i + 1] == q.1;
        assert w[i + 1] == q.0 && w[i + 2] == q.1;
      }
      if HasPair(w, q) && !(w[0] == q.0 && w[1] == q.1) {
        var i :| 0 <= i < |w| - 1 && w[i] == q.0 && w[i + 1] == q.1;
        assert i > 0;
        assert w[1..][i - 1] == q.0 && w[1..][i] == q.1;
      }
    } else {
      assert !HasPair(w, q);
    }
  }

  /** Pairs of a sequence with one element put in front. */
  lemma HasPairCons<T>(x: T, s: seq<T>, q: (T, T))
    ensures HasPair([x] + s, q) <==> (|s| > 0 && x == q.0 && s[0] == q.1) || HasPair(s, q)
  {
    var w := [x] + s;
    if HasPair(w, q) && !(|s| > 0 && x == q.0 && s[0] == q.1) {
      var i :| 0 <= i < |w| - 1 && w[i] == q.0 && w[i + 1] == q.1;
      assert i > 0 && s[i - 1] == q.0 && s[i] == q.1;
    }
    if HasPair(s, q) {
      var i :| 0 <= i < |s| - 1 && s[i] == q.0 && s[i + 1] == q.1;
      assert w[i + 1] == q.0 && w[i + 2] == q.1;
    }
    if |s| > 0 && x == q.0 && s[0] == q.1 {
      assert w[0] == q.0 && w[1] == q.1;
    }
  }

  /** Pairs of a sequence with one element put at the end. */
  lemma HasPairSnoc<T>(s: seq<T>, x: T, q: (T, T))
    ensures HasPair(s + [x], q) <==> HasPair(s, q) || (|s| > 0 && s[|s| - 1] == q.0 && x == q.1)
  {
    var w := s + [x];
    if HasPair(w, q) && !HasPair(s, q) {
      var i :| 0 <= i < |w| - 1 && w[i] == q.0 && w[i + 1] == q.1;
    }
    if HasPair(s, q) {
      var i :| 0 <= i < |s| - 1 && s[i] == q.0 && s[i + 1] == q.1;
      assert w[i] == q.0 && w[i + 1] == q.1;
    }
    if |s| > 0 && s[|s| - 1] == q.0 && x == q.1 {
      assert w[|s| - 1] == q.0 && w[|s|] == q.1;
    }
  }

  /** The first n elements of w, or all of w when it is shorter. */
  function Take<T>(w: seq<T>, n: nat): seq<T>
  {
    if n <= |w| then w[..n] else w
  }

  /** Extending a prefix by one element adds (at most) one new pair. */
  lemma PrefixStep<T>(w: seq<T>, i: nat, q: (T, T))
    requires i + 1 < |w|
    ensures Take(w, i + 2) == Take(w, i + 1) + [w[i + 1]]
    ensures PairCount(Take(w, i + 2), q) == PairCount(Take(w, i + 1), q) + (if w[i] == q.0 && w[i + 1] == q.1 then 1 else 0)
    ensures PairSet(Take(w, i + 2)) == PairSet(Take(w, i + 1)) + {(w[i], w[i + 1])}
    ensures HasPair(Take(w, i + 2), q) <==> HasPair(Take(w, i + 1), q) || (w[i] == q.0 && w[i + 1] == q.1)
  {
    var a := Take(w, i + 1);
    assert Take(w, i + 2) == a + [w[i + 1]];
    PairCountConcat(a, [w[i + 1]], q);
    HasPairSnoc(a, w[i + 1], q);
    var b := a + [w[i + 1]];
    forall r | r in PairSet(b) ensures r in PairSet(a) + {(w[i], w[i + 1])} {
      PairSetIff(b, r);
      PairSetIff(a, r);
      HasPairSnoc(a, w[i + 1], r);
    }
    forall r | r in PairSet(a) ensures r in PairSet(b) {
      PairSetIff(b, r);
      PairSetIff(a, r);
      HasPairSnoc(a, w[i + 1], r);
    }
    PairSetIff(b, (w[i], w[i + 1]));
    HasPairSnoc(a, w[i + 1], (w[i], w[i + 1]));
  }

  /** Counting the pairs of a concatenation: those of each part plus the
    * one pair that bridges them. */
  lemma {:induction false} PairCountConcat<T>(a: seq<T>, b: seq<T>, q: (T, T))
    ensures PairCount(a + b, q) == PairCount(a, q) + PairCount(b, q)
      + (if |a| > 0 && |b| > 0 && a[|a| - 1] == q.0 && b[0] == q.1 then 1 else 0)
    decreases |a|
  {
    if |a| == 0 {
      assert a + b == b;
    } else if |a| == 1 {
      if |b| >= 1 {
        assert (a + b)[1..] == b;
      }
    } else {
      PairCountConcat(a[1..], b, q);
      assert (a + b)[1..] == a[1..] + b;
    }
  }

  /** The greedy merge leaves a word without the pair untouched. */
  lemma {:induction false} MergeFixed<T>(w: seq<T>, p: (T, T), t: T)
    requires !HasPair(w, p)
    ensures Merge(w, p, t) == w
    decreases |w|
  {
    if |w| >= 2 {
      HasPairCons(w[0], w[1..], p);
      assert [w[0]] + w[1..] == w;
      MergeFixed(w[1..], p, t);
    }
  }

  /** Every token of the merged word was in the word or is the new token. */
  lemma {:induction false} MergeTokens<T>(w: seq<T>, p: (T, T), t: T)
    ensures forall x :: x in Merge(w, p, t) ==> x in w || x == t
    decreases |w|
  {
    if |w| >= 2 {
      if w[0] == p.0 && w[1] == p.1 {
        MergeTokens(w[2..], p, t);
        forall x | x in w[2..] ensures x in w {
          var k :| 0 <= k < |w[2..]| && w[2..][k] == x;
          assert w[k + 2] == x;
        }
      } else {
        MergeTokens(w[1..], p, t);
        forall x | x in w[1..] ensures x in w {
          var k :| 0 <= k < |w[1..]| && w[1..][k] == x;
          assert w[k + 1] == x;
        }
      }
    }
  }

  /** The first token of a merged non-empty word is its first token or t. */
  lemma MergeHead<T>(w: seq<T>, p: (T, T), t: T)
    requires |w| > 0
    ensures |Merge(w, p, t)| > 0
    ensures Merge(w, p, t)[0] == (if |w| >= 2 && w[0] == p.0 && w[1] == p.1 then t else w[0])
  {
  }

  /** When the new token differs from both halves of the pair, the merged
    * word no longer contains the pair. */
  lemma {:induction false} MergeRemovesPair<T>(w: seq<T>, p: (T, T), t: T)
    requires t != p.0 && t != p.1
    ensures !HasPair(Merge(w, p, t), p)
    decreases |w|
  {
    if |w| < 2 {
      assert !HasPair(w, p);
    } else if w[0] == p.0 && w[1] == p.1 {
      MergeRemovesPair(w[2..], p, t);
      HasPairCons(t, Merge(w[2..], p, t), p);
    } else {
      MergeRemovesPair(w[1..], p, t);
      HasPairCons(w[0], Merge(w[1..], p, t), p);
      MergeHead(w[1..], p, t);
    }
  }

  /** One step of the greedy scan at position i. */
  lemma MergeAt<T>(w: seq<T>, i: nat, p: (T, T), t: T)
    requires i + 1 < |w|
    ensures Merge(w[i..], p, t) ==
      if w[i] == p.0 && w[i + 1] == p.1 then [t] + Merge(w[i + 2..], p, t)
      else [w[i]] + Merge(w[i + 1..], p, t)
  {
    assert w[i..][2..] == w[i + 2..];
    assert w[i..][1..] == w[i + 1..];
  }

  /** Loop state of a left-to-right scan of w that has looked at the pairs
    * before position i and emitted `out`; `skip` says that w[i] was already
    * consumed as the second half of a merge.  The scan is on track when
    * `out` followed by the merge of what is left is the merge of w. */
  ghost predicate GreedyScan<T>(w: seq<T>, p: (T, T), t: T, i: nat, out: seq<T>, skip: bool)
  {
    && (i == 0 || i < |w|)
    && (skip ==> i < |w| && |out| > 0 && out[|out| - 1] == t)
    && Merge(w, p, t) == out + Merge(w[(if skip then i + 1 else i)..], p, t)
  }

  lemma GreedyScanStart<T>(w: seq<T>, p: (T, T), t: T)
    ensures GreedyScan(w, p, t, 0, [], false)
  {
    assert w[0..] == w;
  }

  /** Looking at the pair (w[i], w[i+1]) keeps the scan on track. */
  lemma GreedyScanStep<T>(w: seq<T>, p: (T, T), t: T, i: nat, out: seq<T>, skip: bool)
    requires GreedyScan(w, p, t, i, out, skip) && i + 1 < |w|
    ensures skip ==> GreedyScan(w, p, t, i + 1, out, false)
    ensures !skip && w[i] == p.0 && w[i + 1] == p.1 ==> GreedyScan(w, p, t, i + 1, out + [t], true)
    ensures !skip && !(w[i] == p.0 && w[i + 1] == p.1) ==> GreedyScan(w, p, t, i + 1, out + [w[i]], false)
  {
    if !skip {
      MergeAt(w, i, p, t);
      var rest := Merge(w[i..], p, t);
      if w[i] == p.0 && w[i + 1] == p.1 {
        assert out + rest == (out + [t]) + Merge(w[i + 2..], p, t);
      } else {
        assert out + rest == (out + [w[i]]) + Merge(w[i + 1..], p, t);
      }
    }
  }

  /** One step of the scan, with the emitted prefix and the skip flag it
    * leaves named. */
  lemma GreedyScanNext<T>(w: seq<T>, p: (T, T), t: T, i: nat, out: seq<T>, skip: bool, out': seq<T>, skip': bool)
    requires GreedyScan(w, p, t, i, out, skip) && i + 1 < |w|
    requires skip' == (!skip && w[i] == p.0 && w[i + 1] == p.1)
    requires out' == if skip then out else if skip' then out + [t] else out + [w[i]]
    ensures GreedyScan(w, p, t, i + 1, out', skip')
  {
    GreedyScanStep(w, p, t, i, out, skip);
  }

  /** When no pair is left, the last element is emitted unless consumed. */
  lemma GreedyScanEnd<T>(w: seq<T>, p: (T, T), t: T, i: nat, out: seq<T>, skip: bool)
    requires GreedyScan(w, p, t, i, out, skip) && i + 1 >= |w|
    ensures skip ==> Merge(w, p, t) == out
    ensures !skip && |w| > 0 ==> Merge(w, p, t) == out + [w[|w| - 1]]
    ensures |w| == 0 ==> Merge(w, p, t) == out
  {
    if !skip && |w| > 0 {
      assert w[i..] == [w[|w| - 1]];
    }
  }

  /** The merged word is shorter by exactly the number of replacements,
    * and there are at most as many replacements as occurrences. */
  lemma {:induction false} MergeLength<T>(w: seq<T>, p: (T, T), t: T)
    ensures |Merge(w, p, t)| == |w| - Replacements(w, p)
    ensures Replacements(w, p) <= PairCount(w, p)
    decreases |w|
  {
    if |w| >= 2 {
      if w[0] == p.0 && w[1] == p.1 {
        MergeLength(w[2..], p, t);
        assert w[1..][1..] == w[2..];
        if |w| >= 3 {
          assert PairCount(w[1..], p) >= PairCount(w[2..], p);
        }
      } else {
        MergeLength(w[1..], p, t);
      }
    }
  }

  /** The two worked examples of the greedy rule: A B A B becomes T T and
    * A A B becomes A T. */
  lemma MergeExamples<T>(a: T, b: T, t: T)
    requires a != b
    ensures Merge([a, b, a, b], (a, b), t) == [t, t]
    ensures Merge([a, a, b], (a, b), t) == [a, t]
  {
    assert [a, b, a, b][2..] == [a, b];
    assert [a, b][2..] == [];
    assert Merge([a, b], (a, b), t) == [t];
    assert Merge([a, b, a, b], (a, b), t) == [t] + [t];
    assert [a, a, b][1..] == [a, b];
    assert Merge([a, a, b], (a, b), t) == [a] + [t];
  }
}
