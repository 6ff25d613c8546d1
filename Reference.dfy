/**
 * The full-recount reference merger of cs336_basics/experimental.py.
 * Tokens are strings; merging a pair joins its two strings, and after
 * every merge every pair frequency is recounted from the new table.
 */
module Reference {
  import opened Wrappers
  import opened Words
  import opened Tables

  type Pair = (string, string)

  /** One (pair, frequency) item of the candidate list. */
  type Item = (Pair, int)

  /** Python's ordering of str: character by character, a proper prefix first. */
  predicate StrLess(a: string, b: string)
    decreases |a|
  {
    if |a| == 0 then |b| > 0
    else |b| > 0 && (a[0] < b[0] || (a[0] == b[0] && StrLess(a[1..], b[1..])))
  }

  lemma {:induction false} StrLessIrreflexive(a: string)
    ensures !StrLess(a, a)
    decreases |a|
  {
    if |a| > 0 {
      StrLessIrreflexive(a[1..]);
    }
  }

  lemma {:induction false} StrLessTransitive(a: string, b: string, c: string)
    requires StrLess(a, b) && StrLess(b, c)
    ensures StrLess(a, c)
    decreases |a|
  {
    if |a| > 0 && a[0] == b[0] && b[0] == c[0] {
      StrLessTransitive(a[1..], b[1..], c[1..]);
    }
  }

  lemma {:induction false} StrLessTotal(a: string, b: string)
    requires a != b
    ensures StrLess(a, b) || StrLess(b, a)
    decreases |a|
  {
    if |a| > 0 && |b| > 0 && a[0] == b[0] {
      assert a == [a[0]] + a[1..] && b == [b[0]] + b[1..];
      StrLessTotal(a[1..], b[1..]);
    }
  }

  /** Python's ordering of a tuple of two strings. */
  predicate PairLess(x: Pair, y: Pair)
  {
    StrLess(x.0, y.0) || (x.0 == y.0 && StrLess(x.1, y.1))
  }

  /** x precedes y in sorted(items, key=lambda x: (x[1], x[0]), reverse=True):
    * larger frequency first, then the greater pair. */
  predicate Above(x: Item, y: Item)
  {
    x.1 > y.1 || (x.1 == y.1 && PairLess(y.0, x.0))
  }

  lemma AboveTransitive(x: Item, y: Item, z: Item)
    requires Above(x, y) && Above(y, z)
    ensures Above(x, z)
  {
    if x.1 == y.1 == z.1 {
      if StrLess(z.0.0, y.0.0) && StrLess(y.0.0, x.0.0) {
        StrLessTransitive(z.0.0, y.0.0, x.0.0);
      } else if StrLess(z.0.1, y.0.1) && StrLess(y.0.1, x.0.1) {
        StrLessTransitive(z.0.1, y.0.1, x.0.1);
      }
    }
  }

  lemma AboveTotal(x: Item, y: Item)
    requires x.0 != y.0
    ensures Above(x, y) || Above(y, x)
  {
    if x.0.0 != y.0.0 {
      StrLessTotal(x.0.0, y.0.0);
    } else {
      StrLessTotal(x.0.1, y.0.1);
    }
  }

  /** Strictly descending in the order of the sort. */
  predicate SortedDesc(r: seq<Item>)
  {
    forall i, j :: 0 <= i < j < |r| ==> Above(r[i], r[j])
  }

  /** Insert one item into a descending list of items with other pairs. */
  function InsertDesc(x: Item, s: seq<Item>): (r: seq<Item>)
    requires SortedDesc(s)
    requires forall i :: 0 <= i < |s| ==> s[i].0 != x.0
    ensures SortedDesc(r)
    ensures multiset(r) == multiset(s) + multiset{x}
    decreases |s|
  {
    if |s| == 0 then [x]
    else if Above(x, s[0]) then
      forall j | 0 <= j < |s| ensures Above(x, s[j]) {
        if j > 0 {
          AboveTransitive(x, s[0], s[j]);
        }
      }
      PrependDesc(x, s);
      [x] + s
    else
      AboveTotal(x, s[0]);
      var rest := InsertDesc(x, s[1..]);
      InsertDescHead(x, s, rest);
      PrependDesc(s[0], rest);
      assert s == [s[0]] + s[1..];
      [s[0]] + rest
  }

  lemma PrependDesc(y: Item, s: seq<Item>)
    requires SortedDesc(s) && forall j :: 0 <= j < |s| ==> Above(y, s[j])
    ensures SortedDesc([y] + s)
  {
    var r := [y] + s;
    forall i, j | 0 <= i < j < |r| ensures Above(r[i], r[j]) {
      assert r[j] == s[j - 1];
      if i > 0 {
        assert r[i] == s[i - 1];
      }
    }
  }

  /** Every item of the rest of an insertion is below the head it follows. */
  lemma InsertDescHead(x: Item, s: seq<Item>, rest: seq<Item>)
    requires |s| > 0 && SortedDesc(s) && Above(s[0], x)
    requires multiset(rest) == multiset(s[1..]) + multiset{x}
    ensures forall j :: 0 <= j < |rest| ==> Above(s[0], rest[j])
  {
    forall j | 0 <= j < |rest| ensures Above(s[0], rest[j]) {
      assert rest[j] in multiset(rest);
      if rest[j] != x {
        assert rest[j] in multiset(s[1..]);
        var k :| 0 <= k < |s[1..]| && s[1..][k] == rest[j];
        assert s[k + 1] == rest[j];
      }
    }
  }

  /** r is what find_merge_candidates returns for counts: every pair that
    * occurs in some word, exactly once, with its brute-force frequency,
    * sorted in descending order of (frequency, pair). */
  ghost predicate IsCandidateList(counts: map<seq<string>, int>, r: seq<Item>)
  {
    && SortedDesc(r)
    && (forall i :: 0 <= i < |r| ==> r[i].1 == Weighted(counts, r[i].0))
    && (forall q :: q in AllPairs(counts) <==> exists i :: 0 <= i < |r| && r[i].0 == q)
  }

  /** p is the pair a full recount puts first: it occurs, and it beats every
    * other occurring pair on (frequency, pair). */
  ghost predicate IsTop(counts: map<seq<string>, int>, p: Pair)
  {
    && p in AllPairs(counts)
    && forall q :: q in AllPairs(counts) && q != p ==>
         Above((p, Weighted(counts, p)), (q, Weighted(counts, q)))
  }

  /** The head of the candidate list is the top pair; the list is empty
    * exactly when no word has two tokens left. */
  lemma CandidateListTop(counts: map<seq<string>, int>, r: seq<Item>)
    requires IsCandidateList(counts, r)
    ensures |r| == 0 <==> AllPairs(counts) == {}
    ensures |r| > 0 ==> IsTop(counts, r[0].0)
  {
    if |r| > 0 {
      assert r[0].0 in AllPairs(counts);
      forall q | q in AllPairs(counts) && q != r[0].0
        ensures Above((r[0].0, Weighted(counts, r[0].0)), (q, Weighted(counts, q)))
      {
        var j :| 0 <= j < |r| && r[j].0 == q;
        assert j > 0;
      }
    }
  }

  /** find_merge_candidates: count every adjacent pair of every word,
    * weighted by the word's count, then sort the items descending. */
  method FindMergeCandidates(counts: map<seq<string>, int>) returns (r: seq<Item>)
    ensures IsCandidateList(counts, r)
  {
    var mc: map<Pair, int> := map[];
    var todo := counts.Keys;
    while todo != {}
      invariant todo <= counts.Keys
      invariant forall q :: Get(mc, q) == Weighted(Restrict(counts, counts.Keys - todo), q)
      invariant mc.Keys == AllPairs(Restrict(counts, counts.Keys - todo))
      decreases todo
    {
      var k :| k in todo;
      ghost var done := counts.Keys - todo;
      mc := CountWordPairs(mc, k, counts[k]);
      forall q ensures Get(mc, q) == Weighted(Restrict(counts, done + {k}), q) {
        WeightedRestrictAdd(counts, done, k, q);
      }
      AllPairsRestrictAdd(counts, done, k);
      assert counts.Keys - (todo - {k}) == done + {k};
      todo := todo - {k};
    }
    assert counts.Keys - todo == counts.Keys;
    RestrictAll(counts);
    r := SortDescending(mc);
    forall q ensures q in AllPairs(counts) <==> exists i :: 0 <= i < |r| && r[i].0 == q {
      if exists i :: 0 <= i < |r| && r[i].0 == q {
        var i :| 0 <= i < |r| && r[i].0 == q;
        assert q in mc;
      }
    }
  }

  /** The inner loop of find_merge_candidates over zip(k, k[1:]):
    * merge_candidates[(c1, c2)] = merge_candidates.get((c1, c2), 0) + v. */
  method CountWordPairs(mc: map<Pair, int>, k: seq<string>, v: int) returns (mc': map<Pair, int>)
    ensures forall q :: Get(mc', q) == Get(mc, q) + v * PairCount(k, q)
    ensures mc'.Keys == mc.Keys + PairSet(k)
  {
    mc' := mc;
    var i := 0;
    forall q ensures Get(mc', q) == Get(mc, q) + v * PairCount(Take(k, 1), q) {
      assert |Take(k, 1)| < 2;
    }
    while i + 1 < |k|
      invariant i == 0 || i + 1 <= |k|
      invariant forall q :: Get(mc', q) == Get(mc, q) + v * PairCount(Take(k, i + 1), q)
      invariant mc'.Keys == mc.Keys + PairSet(Take(k, i + 1))
    {
      mc' := AddTo(mc', (k[i], k[i + 1]), v);
      forall q ensures Get(mc', q) == Get(mc, q) + v * PairCount(Take(k, i + 2), q) {
        PrefixStep(k, i, q);
        MulSucc(v, PairCount(Take(k, i + 1), q));
      }
      PrefixStep(k, i, (k[i], k[i + 1]));
      i := i + 1;
    }
    assert Take(k, i + 1) == k;
  }

  /** sorted(merge_candidates.items(), key=lambda x: (x[1], x[0]), reverse=True):
    * the items of the table in strictly descending order. */
  method SortDescending(mc: map<Pair, int>) returns (r: seq<Item>)
    ensures SortedDesc(r)
    ensures forall i :: 0 <= i < |r| ==> r[i].0 in mc && r[i].1 == mc[r[i].0]
    ensures forall q :: q in mc ==> exists i :: 0 <= i < |r| && r[i].0 == q
  {
    r := [];
    var left := mc.Keys;
    while left != {}
      invariant left <= mc.Keys && SortedDesc(r) && Listed(mc, left, r)
      decreases left
    {
      var q :| q in left;
      ghost var prev := r;
      r := InsertDesc((q, mc[q]), r);
      ListedStep(mc, left, q, prev, r);
      left := left - {q};
    }
  }

  /** The items listed so far: those of the keys no longer left, each once. */
  ghost predicate Listed(mc: map<Pair, int>, left: set<Pair>, r: seq<Item>)
  {
    && (forall i :: 0 <= i < |r| ==> r[i].0 in mc && r[i].0 !in left && r[i].1 == mc[r[i].0])
    && (forall q :: q in mc && q !in left ==> exists i :: 0 <= i < |r| && r[i].0 == q)
  }

  lemma ListedStep(mc: map<Pair, int>, left: set<Pair>, q: Pair, prev: seq<Item>, r: seq<Item>)
    requires Listed(mc, left, prev) && q in left && q in mc
    requires multiset(r) == multiset(prev) + multiset{(q, mc[q])}
    ensures Listed(mc, left - {q}, r)
  {
    forall i | 0 <= i < |r|
      ensures r[i].0 in mc && r[i].0 !in left - {q} && r[i].1 == mc[r[i].0]
    {
      assert r[i] in multiset(r);
      if r[i] != (q, mc[q]) {
        assert r[i] in multiset(prev);
        var k :| 0 <= k < |prev| && prev[k] == r[i];
      }
    }
    forall x | x in mc && x !in left - {q} ensures exists i :: 0 <= i < |r| && r[i].0 == x {
      if x == q {
        assert (q, mc[q]) in multiset(r);
        var i :| 0 <= i < |r| && r[i] == (q, mc[q]);
      } else {
        var k :| 0 <= k < |prev| && prev[k].0 == x;
        assert prev[k] in multiset(r);
        var i :| 0 <= i < |r| && r[i] == prev[k];
      }
    }
  }

  /** The state of the rewrite loop before position i: the greedy scan of
    * Merge so far, and the update flag recording whether the pair occurs in
    * the part of the word scanned. */
  ghost predicate Rewriting(k: seq<string>, p: Pair, t: string, i: nat, newK: seq<string>, skip: bool, update: bool)
  {
    && GreedyScan(k, p, t, i, newK, skip)
    && (skip ==> update)
    && (update ==> |k| >= 2)
    && (|k| > 0 ==> (update <==> HasPair(Take(k, i + 1), p)))
  }

  lemma RewritingNext(k: seq<string>, p: Pair, t: string, i: nat, newK: seq<string>, skip: bool, update: bool,
                      i': nat, newK': seq<string>, skip': bool, update': bool)
    requires Rewriting(k, p, t, i, newK, skip, update) && i + 1 < |k| && i' == i + 1
    requires skip' == (!skip && k[i] == p.0 && k[i + 1] == p.1)
    requires update' == (update || skip')
    requires newK' == if skip then newK else if skip' then newK + [t] else newK + [k[i]]
    ensures Rewriting(k, p, t, i', newK', skip', update')
  {
    PrefixStep(k, i, p);
    GreedyScanNext(k, p, t, i, newK, skip, newK', skip');
  }

  lemma RewritingEnd(k: seq<string>, p: Pair, t: string, i: nat, newK: seq<string>, skip: bool, update: bool)
    requires Rewriting(k, p, t, i, newK, skip, update) && i + 1 >= |k|
    ensures update <==> HasPair(k, p)
    ensures update && skip ==> newK == Merge(k, p, t)
    ensures update && !skip ==> |k| > 0 && newK + [k[|k| - 1]] == Merge(k, p, t)
  {
    GreedyScanEnd(k, p, t, i, newK, skip);
    assert |k| > 0 ==> Take(k, i + 1) == k;
  }

  /** The inner loop of update_counts: rewrite one key greedily, left to
    * right, non-overlapping; `update` records whether anything merged. */
  method RewriteKey(k: seq<string>, p: Pair, t: string) returns (newK: seq<string>, update: bool)
    ensures update <==> HasPair(k, p)
    ensures update ==> newK == Merge(k, p, t)
  {
    newK := [];
    var skip := false;
    update := false;
    var i := 0;
    GreedyScanStart(k, p, t);
    while i + 1 < |k|
      invariant Rewriting(k, p, t, i, newK, skip, update)
    {
      ghost var i0, newK0, skip0, update0 := i, newK, skip, update;
      if skip {
        skip := false;
      } else if k[i] == p.0 && k[i + 1] == p.1 {
        newK := newK + [t];
        skip := true;
        update := true;
      } else {
        newK := newK + [k[i]];
      }
      i := i + 1;
      RewritingNext(k, p, t, i0, newK0, skip0, update0, i, newK, skip, update);
    }
    RewritingEnd(k, p, t, i, newK, skip, update);
    if update && !skip {
      newK := newK + [k[|k| - 1]];
    }
  }

  /** update_counts: re-key every word by merging new_merge into the joined
    * string; words that land on one key have their counts summed.  The
    * input table is a value and is left as it was. */
  method UpdateCounts(counts: map<seq<string>, int>, newMerge: Pair) returns (newCounts: map<seq<string>, int>)
    ensures newCounts == MergedCounts(counts, newMerge, newMerge.0 + newMerge.1)
  {
    var newToken := newMerge.0 + newMerge.1;
    newCounts := map[];
    var todo := counts.Keys;
    while todo != {}
      invariant todo <= counts.Keys
      invariant newCounts == Rekey(map[], Restrict(counts, counts.Keys - todo), newMerge, newToken)
      decreases todo
    {
      var k :| k in todo;
      ghost var done := counts.Keys - todo;
      var newK, update := RewriteKey(k, newMerge, newToken);
      if !update {
        MergeFixed(k, newMerge, newToken);
        newK := k;
      }
      RestrictAddWord(counts, done, k);
      RekeyRemove(map[], Restrict(counts, done + {k}), newMerge, newToken, k);
      newCounts := AddTo(newCounts, newK, counts[k]);
      assert counts.Keys - (todo - {k}) == done + {k};
      todo := todo - {k};
    }
    assert counts.Keys - todo == counts.Keys;
    RestrictAll(counts);
  }

  /** The table after applying the merges in order, each into its joined
    * string. The incremental trainer's CountsAfter differs: there a merge
    * creates a fresh integer id rather than the concatenated string. */
  ghost function CountsAfter(counts: map<seq<string>, int>, merges: seq<Pair>): map<seq<string>, int>
    decreases |merges|
  {
    if merges == [] then counts
    else
      var last := merges[|merges| - 1];
      MergedCounts(CountsAfter(counts, merges[..|merges| - 1]), last, last.0 + last.1)
  }

  /** merge_pairs: take the head of the candidate list, merge it, recount,
    * num_merges times.  An empty candidate list raises (IndexError), reported
    * here as Err(round); `applied` are the merges made before that. */
  method MergePairs(candidates: seq<Item>, numMerges: int, counts: map<seq<string>, int>)
    returns (r: Result<seq<Pair>, nat>, ghost applied: seq<Pair>)
    ensures r.Ok? ==> |r.value| == (if numMerges > 0 then numMerges else 0)
    ensures r.Err? ==> r.error < numMerges
    ensures r.Ok? ==> r.value == applied
    ensures r.Err? ==>
              && r.error == |applied| < numMerges
              && (if |applied| == 0 then candidates == [] else AllPairs(CountsAfter(counts, applied)) == {})
    ensures |applied| > 0 ==> |candidates| > 0 && applied[0] == candidates[0].0
    ensures forall i :: 1 <= i < |applied| ==> IsTop(CountsAfter(counts, applied[..i]), applied[i])
  {
    var merges: seq<Pair> := [];
    var cands := candidates;
    var cur := counts;
    while |merges| < numMerges
      invariant cur == CountsAfter(counts, merges)
      invariant |merges| == 0 ==> cands == candidates
      invariant |merges| > 0 ==> IsCandidateList(cur, cands) && |candidates| > 0 && merges[0] == candidates[0].0
      invariant forall i :: 1 <= i < |merges| ==> IsTop(CountsAfter(counts, merges[..i]), merges[i])
      invariant |merges| <= (if numMerges > 0 then numMerges else 0)
      decreases numMerges - |merges|
    {
      if |merges| > 0 {
        CandidateListTop(cur, cands);
      }
      if |cands| == 0 {
        return Err(|merges|), merges;
      }
      var newMerge := cands[0].0;
      ghost var prev := merges;
      merges := merges + [newMerge];
      assert merges[..|merges| - 1] == prev;
      forall i | 1 <= i < |merges| ensures IsTop(CountsAfter(counts, merges[..i]), merges[i]) {
        if i < |prev| {
          assert merges[..i] == prev[..i];
        }
      }
      cur := UpdateCounts(cur, newMerge);
      cands := FindMergeCandidates(cur);
    }
    return Ok(merges), merges;
  }
}
