/**
 * The incremental BPE trainer of cs336_basics/train_bpe.py. Tokens are
 * integer ids, words are sequences of ids, and three tables are kept in step
 * across merges: the word counts, the pair counts ("candidates") and, for
 * each pair, the set of words that contain it ("used words"). Instead of
 * recounting every pair after a merge, only the words containing the merged
 * pair are rewritten and the pair counts are corrected by the difference.
 */
module Trainer {
  import opened Wrappers
  import opened Words
  import opened Tables
  import Pretokenization

  type Token = int
  type Word = seq<Token>
  type Pair = (Token, Token)
  type Bytes = Pretokenization.Bytes
  type Byte = Pretokenization.Byte

  /** Why training ends with an exception instead of a vocabulary. */
  datatype Failure =
    | NoCandidates      // `max_pair[0]` on an empty list: IndexError
    | MissingUsedWords  // `used_words[best_pair]` on a missing key: KeyError

  /** `used_words.get(pair, set())` */
  function UsedGet(used: map<Pair, set<Word>>, q: Pair): (r: set<Word>)
    ensures q !in used ==> r == {}
    ensures q in used ==> r == used[q]
  {
    if q in used then used[q] else {}
  }

  // ---------------------------------------------------------------------
  // The invariant tying the three tables together
  // ---------------------------------------------------------------------

  /** Every pair's candidate count is its weighted number of occurrences. */
  ghost predicate Exact(counts: map<Word, int>, candidates: map<Pair, int>)
  {
    forall q :: Get(candidates, q) == Weighted(counts, q)
  }

  /** Every pair indexes exactly the words that contain it. */
  ghost predicate Indexed(counts: map<Word, int>, used: map<Pair, set<Word>>)
  {
    forall q :: UsedGet(used, q) == IndexOf(counts, q)
  }

  ghost predicate Positive(counts: map<Word, int>)
  {
    forall w :: w in counts ==> counts[w] > 0
  }

  ghost predicate Valid(counts: map<Word, int>, candidates: map<Pair, int>, used: map<Pair, set<Word>>)
  {
    Positive(counts) && Exact(counts, candidates) && Indexed(counts, used)
  }

  /** Every token of every word is below `bound`. */
  ghost predicate TokensBelow(counts: map<Word, int>, bound: int)
  {
    forall w :: w in counts ==> forall x :: x in w ==> 0 <= x < bound
  }

  // ---------------------------------------------------------------------
  // find_initial_merge_candidates
  // ---------------------------------------------------------------------

  /** The pair counts after the pairs of the first j tokens of k were added v times. */
  ghost predicate CountedThrough(mc: map<Pair, int>, k: Word, v: int, j: nat, mc': map<Pair, int>)
    requires j <= |k|
  {
    && (forall q :: Get(mc', q) == Get(mc, q) + v * PairCount(Take(k, j), q))
    && mc'.Keys == mc.Keys + PairSet(Take(k, j))
  }

  /** The index after k was linked from the pairs of its first j tokens. */
  ghost predicate LinkedThrough(used: map<Pair, set<Word>>, k: Word, j: nat, used': map<Pair, set<Word>>)
    requires j <= |k|
  {
    && (forall q :: UsedGet(used', q) == UsedGet(used, q) + (if HasPair(Take(k, j), q) then {k} else {}))
    && used'.Keys == used.Keys + PairSet(Take(k, j))
  }

  lemma IndexingStart(mc: map<Pair, int>, used: map<Pair, set<Word>>, k: Word, v: int)
    requires |k| >= 1
    ensures CountedThrough(mc, k, v, 1, mc) && LinkedThrough(used, k, 1, used)
  {
    assert |Take(k, 1)| < 2;
    assert PairSet(Take(k, 1)) == {};
    forall q ensures PairCount(Take(k, 1), q) == 0 && !HasPair(Take(k, 1), q) {
    }
  }

  lemma CountPrefixStep(mc: map<Pair, int>, cur: map<Pair, int>, k: Word, i: nat, v: int, j: nat, cur': map<Pair, int>)
    requires i + 1 < |k| && CountedThrough(mc, k, v, i + 1, cur)
    requires j == i + 2 && cur' == AddTo(cur, (k[i], k[i + 1]), v)
    ensures CountedThrough(mc, k, v, j, cur')
  {
    forall q ensures Get(cur', q) == Get(mc, q) + v * PairCount(Take(k, i + 2), q) {
      PrefixStep(k, i, q);
      MulSucc(v, PairCount(Take(k, i + 1), q));
    }
    PrefixStep(k, i, (k[i], k[i + 1]));
  }

  lemma IndexPrefixStep(used: map<Pair, set<Word>>, cur: map<Pair, set<Word>>, k: Word, i: nat, j: nat,
                        cur': map<Pair, set<Word>>)
    requires i + 1 < |k| && LinkedThrough(used, k, i + 1, cur)
    requires j == i + 2 && cur' == cur[(k[i], k[i + 1]) := UsedGet(cur, (k[i], k[i + 1])) + {k}]
    ensures LinkedThrough(used, k, j, cur')
  {
    forall q ensures UsedGet(cur', q) == UsedGet(used, q) + (if HasPair(Take(k, i + 2), q) then {k} else {}) {
      IndexPrefixAt(used, cur, k, i, cur', q);
    }
    PrefixStep(k, i, (k[i], k[i + 1]));
  }

  lemma IndexPrefixAt(used: map<Pair, set<Word>>, cur: map<Pair, set<Word>>, k: Word, i: nat,
                      cur': map<Pair, set<Word>>, q: Pair)
    requires i + 1 < |k|
    requires UsedGet(cur, q) == UsedGet(used, q) + (if HasPair(Take(k, i + 1), q) then {k} else {})
    requires cur' == cur[(k[i], k[i + 1]) := UsedGet(cur, (k[i], k[i + 1])) + {k}]
    ensures UsedGet(cur', q) == UsedGet(used, q) + (if HasPair(Take(k, i + 2), q) then {k} else {})
  {
    PrefixStep(k, i, q);
  }

  /** The inner loop over the adjacent pairs of one word: the word's count
    * is added to each pair, and the word is linked from each pair. */
  method IndexWordPairs(mc: map<Pair, int>, used: map<Pair, set<Word>>, k: Word, v: int)
    returns (mc': map<Pair, int>, used': map<Pair, set<Word>>)
    ensures forall q :: Get(mc', q) == Get(mc, q) + v * PairCount(k, q)
    ensures forall q :: UsedGet(used', q) == UsedGet(used, q) + (if HasPair(k, q) then {k} else {})
    ensures mc'.Keys == mc.Keys + PairSet(k)
    ensures used'.Keys == used.Keys + PairSet(k)
  {
    mc', used' := mc, used;
    if |k| < 2 {
      assert PairSet(k) == {};
      forall q ensures PairCount(k, q) == 0 && !HasPair(k, q) {
      }
      return;
    }
    var i := 0;
    IndexingStart(mc, used, k, v);
    while i + 1 < |k|
      invariant i + 1 <= |k|
      invariant CountedThrough(mc, k, v, i + 1, mc') && LinkedThrough(used, k, i + 1, used')
    {
      ghost var i0, mc0, used0 := i, mc', used';
      var pair := (k[i], k[i + 1]);
      mc' := AddTo(mc', pair, v);
      used' := used'[pair := UsedGet(used', pair) + {k}];
      i := i + 1;
      CountPrefixStep(mc, mc0, k, i0, v, i + 1, mc');
      IndexPrefixStep(used, used0, k, i0, i + 1, used');
    }
    assert Take(k, i + 1) == k;
  }

  /** The candidate table holds every pair's weighted count and the index
    * links every pair to exactly the words containing it; both are keyed by
    * exactly the pairs that occur. */
  method FindInitialMergeCandidates(counts: map<Word, int>)
    returns (candidates: map<Pair, int>, usedWords: map<Pair, set<Word>>)
    ensures Exact(counts, candidates)
    ensures Indexed(counts, usedWords)
    ensures candidates.Keys == AllPairs(counts)
    ensures usedWords.Keys == AllPairs(counts)
  {
    candidates, usedWords := map[], map[];
    var todo := counts.Keys;
    while todo != {}
      invariant todo <= counts.Keys
      invariant Exact(Restrict(counts, counts.Keys - todo), candidates)
      invariant Indexed(Restrict(counts, counts.Keys - todo), usedWords)
      invariant candidates.Keys == AllPairs(Restrict(counts, counts.Keys - todo))
      invariant usedWords.Keys == AllPairs(Restrict(counts, counts.Keys - todo))
      decreases todo
    {
      var wordTuple :| wordTuple in todo;
      ghost var done := counts.Keys - todo;
      candidates, usedWords := IndexWordPairs(candidates, usedWords, wordTuple, counts[wordTuple]);
      forall q
        ensures Get(candidates, q) == Weighted(Restrict(counts, done + {wordTuple}), q)
        ensures UsedGet(usedWords, q) == IndexOf(Restrict(counts, done + {wordTuple}), q)
      {
        WeightedRestrictAdd(counts, done, wordTuple, q);
        IndexRestrictAdd(counts, done, wordTuple, q);
      }
      AllPairsRestrictAdd(counts, done, wordTuple);
      assert counts.Keys - (todo - {wordTuple}) == done + {wordTuple};
      todo := todo - {wordTuple};
    }
    assert counts.Keys - todo == counts.Keys;
    RestrictAll(counts);
  }

  // ---------------------------------------------------------------------
  // find_best_pair
  // ---------------------------------------------------------------------

  /** Python's ordering of bytes: byte by byte, a proper prefix first. */
  predicate BytesLess(a: Bytes, b: Bytes)
    decreases |a|
  {
    if |a| == 0 then |b| > 0
    else |b| > 0 && (a[0] < b[0] || (a[0] == b[0] && BytesLess(a[1..], b[1..])))
  }

  lemma {:induction false} BytesLessIrreflexive(a: Bytes)
    ensures !BytesLess(a, a)
    decreases |a|
  {
    if |a| > 0 {
      BytesLessIrreflexive(a[1..]);
    }
  }

  lemma {:induction false} BytesLessTransitive(a: Bytes, b: Bytes, c: Bytes)
    requires BytesLess(a, b) && BytesLess(b, c)
    ensures BytesLess(a, c)
    decreases |a|
  {
    if |a| > 0 && a[0] == b[0] && b[0] == c[0] {
      BytesLessTransitive(a[1..], b[1..], c[1..]);
    }
  }

  lemma {:induction false} BytesLessTotal(a: Bytes, b: Bytes)
    requires a != b
    ensures BytesLess(a, b) || BytesLess(b, a)
    decreases |a|
  {
    if |a| > 0 && |b| > 0 && a[0] == b[0] {
      assert a == [a[0]] + a[1..] && b == [b[0]] + b[1..];
      BytesLessTotal(a[1..], b[1..]);
    }
  }

  /** The sort key of a pair: the bytes of its two tokens. */
  function Key(vocab: map<Token, Bytes>, q: Pair): (Bytes, Bytes)
    requires q.0 in vocab && q.1 in vocab
  {
    (vocab[q.0], vocab[q.1])
  }

  /** Python's ordering of a tuple of two bytes objects. */
  predicate KeyLess(x: (Bytes, Bytes), y: (Bytes, Bytes))
  {
    BytesLess(x.0, y.0) || (x.0 == y.0 && BytesLess(x.1, y.1))
  }

  lemma KeyLessIrreflexive(x: (Bytes, Bytes))
    ensures !KeyLess(x, x)
  {
    BytesLessIrreflexive(x.0);
    BytesLessIrreflexive(x.1);
  }

  lemma KeyLessTransitive(x: (Bytes, Bytes), y: (Bytes, Bytes), z: (Bytes, Bytes))
    requires KeyLess(x, y) && KeyLess(y, z)
    ensures KeyLess(x, z)
  {
    if BytesLess(x.0, y.0) && BytesLess(y.0, z.0) {
      BytesLessTransitive(x.0, y.0, z.0);
    } else if x.0 == y.0 == z.0 {
      BytesLessTransitive(x.1, y.1, z.1);
    }
  }

  lemma KeyLessTotal(x: (Bytes, Bytes), y: (Bytes, Bytes))
    requires x != y
    ensures KeyLess(x, y) || KeyLess(y, x)
  {
    if x.0 != y.0 {
      BytesLessTotal(x.0, y.0);
    } else {
      BytesLessTotal(x.1, y.1);
    }
  }

  /** The pairs of s, in order, whose count is n. */
  function Tied(candidates: map<Pair, int>, s: seq<Pair>, n: int): seq<Pair>
    requires forall q :: q in s ==> q in candidates
  {
    if s == [] then []
    else
      var last := s[|s| - 1];
      Tied(candidates, s[..|s| - 1], n) + (if candidates[last] == n then [last] else [])
  }

  /** A pair is tied exactly when it is listed and has the count. */
  lemma {:induction false} TiedMember(candidates: map<Pair, int>, s: seq<Pair>, n: int, q: Pair)
    requires forall x :: x in s ==> x in candidates
    ensures q in Tied(candidates, s, n) <==> q in s && candidates[q] == n
  {
    if s != [] {
      TiedMember(candidates, s[..|s| - 1], n, q);
      assert s == s[..|s| - 1] + [s[|s| - 1]];
    }
  }

  /** Tied keeps the relative order of s, and repeats nothing s does not. */
  lemma {:induction false} TiedOrder(candidates: map<Pair, int>, s: seq<Pair>, n: int, j: int, k: int)
    requires forall x :: x in s ==> x in candidates
    requires Distinct(s)
    requires 0 <= j < k < |s| && candidates[s[j]] == n && candidates[s[k]] == n
    ensures Precedes(Tied(candidates, s, n), s[j], s[k])
  {
    var init := s[..|s| - 1];
    assert forall x :: x in init ==> x in candidates;
    if k < |s| - 1 {
      TiedOrder(candidates, init, n, j, k);
      var a, b :| 0 <= a < b < |Tied(candidates, init, n)|
        && Tied(candidates, init, n)[a] == init[j] && Tied(candidates, init, n)[b] == init[k];
      assert Tied(candidates, s, n)[a] == s[j] && Tied(candidates, s, n)[b] == s[k];
    } else {
      TiedMember(candidates, init, n, s[j]);
      var t := Tied(candidates, init, n);
      var a :| 0 <= a < |t| && t[a] == s[j];
      assert Tied(candidates, s, n) == t + [s[k]];
      assert Tied(candidates, s, n)[a] == s[j] && Tied(candidates, s, n)[|t|] == s[k];
    }
  }

  lemma {:induction false} TiedDistinct(candidates: map<Pair, int>, s: seq<Pair>, n: int)
    requires forall x :: x in s ==> x in candidates
    requires Distinct(s)
    ensures Distinct(Tied(candidates, s, n))
  {
    if s != [] {
      var init := s[..|s| - 1];
      TiedDistinct(candidates, init, n);
      TiedMember(candidates, init, n, s[|s| - 1]);
    }
  }

  /** x occurs in t before y. */
  ghost predicate Precedes(t: seq<Pair>, x: Pair, y: Pair)
  {
    exists a, b :: 0 <= a < b < |t| && t[a] == x && t[b] == y
  }

  predicate Distinct(s: seq<Pair>)
  {
    forall i, j :: 0 <= i < j < |s| ==> s[i] != s[j]
  }

  /** One pass over the candidates keeps the pairs with the largest count
    * that is at least 0; among several, `sorted(..., reverse=True)[0]`
    * picks the one with the greatest byte key, and of pairs with equal
    * keys the first in `order` (the sort is stable). `order` is the
    * dictionary's iteration order. */
  method FindBestPair(candidates: map<Pair, int>, order: seq<Pair>, vocab: map<Token, Bytes>)
    returns (r: Result<Pair, Failure>)
    requires forall q :: q in candidates <==> q in order
    requires Distinct(order)
    requires forall q :: q in candidates ==> q.0 in vocab && q.1 in vocab
    ensures r.Err? <==> forall q :: q in candidates ==> candidates[q] < 0
    ensures r.Err? ==> r.error == NoCandidates
    ensures r.Ok? ==> r.value in candidates && candidates[r.value] >= 0
    ensures r.Ok? ==> forall q :: q in candidates ==> candidates[q] <= candidates[r.value]
    ensures r.Ok? ==> forall q :: q in candidates && candidates[q] == candidates[r.value] ==>
      !KeyLess(Key(vocab, r.value), Key(vocab, q))
    ensures r.Ok? ==> forall j, k :: 0 <= j < k < |order| && order[k] == r.value && candidates[order[j]] == candidates[r.value] ==>
      KeyLess(Key(vocab, order[j]), Key(vocab, r.value))
  {
    var maxNum, maxPair := MaxCountPairs(candidates, order);
    forall q | q in candidates && candidates[q] == maxNum ensures q in maxPair {
      TiedMember(candidates, order, maxNum, q);
    }
    if |maxPair| == 0 {
      return Err(NoCandidates);
    }
    forall q | q in maxPair ensures q in candidates {
      TiedMember(candidates, order, maxNum, q);
    }
    var best := 0;
    if |maxPair| > 1 {
      best := GreatestKey(maxPair, vocab);
    } else {
      KeyLessIrreflexive(Key(vocab, maxPair[0]));
    }
    r := Ok(maxPair[best]);
    TiedMember(candidates, order, maxNum, r.value);
    forall q | q in candidates && candidates[q] == candidates[r.value]
      ensures !KeyLess(Key(vocab, r.value), Key(vocab, q))
    {
      TiedMember(candidates, order, maxNum, q);
    }
    TiedDistinct(candidates, order, maxNum);
    forall j, k | 0 <= j < k < |order| && order[k] == r.value && candidates[order[j]] == candidates[r.value]
      ensures KeyLess(Key(vocab, order[j]), Key(vocab, r.value))
    {
      TiedOrder(candidates, order, maxNum, j, k);
    }
  }

  /** The state of the loop over the candidates after the first i pairs of
    * `order`: the largest count so far (at least 0) and the pairs having it. */
  ghost predicate MaxSoFar(candidates: map<Pair, int>, order: seq<Pair>, i: nat, maxNum: int, maxPair: seq<Pair>)
  {
    && (forall q :: q in order ==> q in candidates)
    && i <= |order|
    && maxNum >= 0
    && (forall j :: 0 <= j < i ==> candidates[order[j]] <= maxNum)
    && maxPair == Tied(candidates, order[..i], maxNum)
    && (maxNum > 0 ==> exists j :: 0 <= j < i && candidates[order[j]] == maxNum)
  }

  lemma MaxSoFarStep(candidates: map<Pair, int>, order: seq<Pair>, i: nat, maxNum: int, maxPair: seq<Pair>,
                     i': nat, maxNum': int, maxPair': seq<Pair>)
    requires MaxSoFar(candidates, order, i, maxNum, maxPair) && i < |order| && i' == i + 1
    requires candidates[order[i]] < maxNum ==> maxNum' == maxNum && maxPair' == maxPair
    requires candidates[order[i]] == maxNum ==> maxNum' == maxNum && maxPair' == maxPair + [order[i]]
    requires candidates[order[i]] > maxNum ==> maxNum' == candidates[order[i]] && maxPair' == [order[i]]
    ensures MaxSoFar(candidates, order, i', maxNum', maxPair')
  {
    assert order[..i + 1] == order[..i] + [order[i]];
    if candidates[order[i]] > maxNum {
      TiedNone(candidates, order[..i], candidates[order[i]]);
    }
  }

  /** The loop over `candidates.items()`: the largest count that is at
    * least 0 and, in order, the pairs that have it. */
  method MaxCountPairs(candidates: map<Pair, int>, order: seq<Pair>) returns (maxNum: int, maxPair: seq<Pair>)
    requires forall q :: q in order ==> q in candidates
    ensures maxNum >= 0
    ensures forall j :: 0 <= j < |order| ==> candidates[order[j]] <= maxNum
    ensures maxPair == Tied(candidates, order, maxNum)
    ensures maxNum > 0 ==> exists j :: 0 <= j < |order| && candidates[order[j]] == maxNum
  {
    maxNum := 0;
    maxPair := [];
    var i := 0;
    while i < |order|
      invariant MaxSoFar(candidates, order, i, maxNum, maxPair)
    {
      ghost var i0, maxNum0, maxPair0 := i, maxNum, maxPair;
      var pair := order[i];
      var num := candidates[pair];
      if num < maxNum {
      } else if num == maxNum {
        maxPair := maxPair + [pair];
      } else {
        maxNum := num;
        maxPair := [pair];
      }
      i := i + 1;
      MaxSoFarStep(candidates, order, i0, maxNum0, maxPair0, i, maxNum, maxPair);
    }
    assert order[..i] == order;
  }

  lemma {:induction false} TiedNone(candidates: map<Pair, int>, s: seq<Pair>, n: int)
    requires forall x :: x in s ==> x in candidates
    requires forall j :: 0 <= j < |s| ==> candidates[s[j]] < n
    ensures Tied(candidates, s, n) == []
  {
    if s != [] {
      TiedNone(candidates, s[..|s| - 1], n);
    }
  }

  /** The index of the first element with the greatest byte key: what the
    * stable `sorted(max_pair, key=..., reverse=True)[0]` returns. */
  method GreatestKey(s: seq<Pair>, vocab: map<Token, Bytes>) returns (best: nat)
    requires |s| > 1
    requires forall q :: q in s ==> q.0 in vocab && q.1 in vocab
    ensures best < |s|
    ensures forall k :: 0 <= k < |s| ==> !KeyLess(Key(vocab, s[best]), Key(vocab, s[k]))
    ensures forall k :: 0 <= k < best ==> KeyLess(Key(vocab, s[k]), Key(vocab, s[best]))
  {
    best := 0;
    KeyLessIrreflexive(Key(vocab, s[0]));
    var j := 1;
    while j < |s|
      invariant 1 <= j <= |s| && best < j
      invariant forall k :: 0 <= k < j ==> !KeyLess(Key(vocab, s[best]), Key(vocab, s[k]))
      invariant forall k :: 0 <= k < best ==> KeyLess(Key(vocab, s[k]), Key(vocab, s[best]))
    {
      var kb, kj := Key(vocab, s[best]), Key(vocab, s[j]);
      if KeyLess(kb, kj) {
        forall k | 0 <= k < j ensures KeyLess(Key(vocab, s[k]), kj) && !KeyLess(kj, Key(vocab, s[k])) {
          var kk := Key(vocab, s[k]);
          if kk != kb {
            KeyLessTotal(kk, kb);
            if KeyLess(kk, kb) {
              KeyLessTransitive(kk, kb, kj);
            }
          }
          if KeyLess(kj, kk) {
            KeyLessTransitive(kj, kk, kj);
            KeyLessIrreflexive(kj);
          }
        }
        KeyLessIrreflexive(kj);
        best := j;
      }
      j := j + 1;
    }
  }

  // ---------------------------------------------------------------------
  // update_dictionaries: rewriting one word
  // ---------------------------------------------------------------------

  function Ind(b: bool): int
  {
    if b then 1 else 0
  }

  /** The occurrences of q the scan of w accounts for when it stands at
    * position i having emitted `out`: after a merge (`skip`) the token at i
    * is already inside `out`, so the two parts are not joined. */
  ghost function Tracked(w: Word, i: nat, out: Word, skip: bool, q: Pair): int
    requires i <= |w|
  {
    if skip then PairCount(out, q) + PairCount(w[i..], q)
    else PairCount(out + w[i..], q)
  }

  /** How each of the three branches of the scan changes the tracked count:
    * exactly by the corrections the source writes to new_candidates. */
  lemma TrackStep(w: Word, p: Pair, t: Token, i: nat, out: Word, skip: bool, q: Pair)
    requires i + 1 < |w|
    requires skip ==> |out| > 0 && out[|out| - 1] == t
    ensures TrackedStep(w, p, t, i, out, skip, q)
  {
    var rest := w[i + 1..];
    assert w[i..] == [w[i]] + rest;
    PairCountConcat([w[i]], rest, q);
    PairCountConcat(out, rest, q);
    PairCountConcat(out, w[i..], q);
    PairCountConcat(out, [t], q);
    assert out + [w[i]] + rest == out + w[i..];
  }

  /** nc is n times `unit` away from base. */
  ghost predicate Scaled(nc: map<Pair, int>, base: map<Pair, int>, unit: map<Pair, int>, n: int)
  {
    forall q :: Get(nc, q) == Get(base, q) + n * Get(unit, q)
  }

  /** The scaling survives moving both tables at one key, by s*n and by s. */
  lemma ScaledAddTo(nc: map<Pair, int>, base: map<Pair, int>, unit: map<Pair, int>, n: int, k: Pair, s: int)
    requires Scaled(nc, base, unit, n)
    ensures Scaled(AddTo(nc, k, s * n), base, AddTo(unit, k, s), n)
  {
    var u := Get(unit, k);
    assert n * (u + s) == n * u + s * n;
  }

  /** The ghost correction table `unit` (the corrections for a word of
    * count 1) accounts for the scan so far. */
  ghost predicate Tracks(unit: map<Pair, int>, w: Word, i: nat, out: Word, skip: bool)
    requires i <= |w|
  {
    forall q :: Get(unit, q) == Tracked(w, i, out, skip, q) - PairCount(w, q)
  }

  /** Every pair's count in nc is its count in base plus n times the
    * change in its occurrences from w to newK. */
  ghost predicate Corrected(nc: map<Pair, int>, base: map<Pair, int>, n: int, w: Word, newK: Word)
  {
    forall q :: Get(nc, q) == Get(base, q) + n * (PairCount(newK, q) - PairCount(w, q))
  }

  /** Every key the corrections add is made of tokens of w or of t. */
  ghost predicate KeysFrom(nc: map<Pair, int>, base: map<Pair, int>, w: Word, t: Token)
  {
    forall q :: q in nc ==> q in base || (q.0 in w + [t] && q.1 in w + [t])
  }

  /** The state of the scan over the adjacent pairs of w, standing at
    * position i: the tokens emitted so far, whether the token at i was
    * consumed by a merge, the previous pair, and the corrections so far. */
  ghost predicate Scan(w: Word, p: Pair, t: Token, n: int, base: map<Pair, int>, i: nat, out: Word, skip: bool,
                       lastPair: Option<Pair>, nc: map<Pair, int>, unit: map<Pair, int>)
  {
    && |w| >= 2 && i < |w|
    && GreedyScan(w, p, t, i, out, skip)
    && (out == []) == (i == 0)
    && (!skip ==> lastPair == (if out == [] then None else Some((out[|out| - 1], w[i]))))
    && (forall x :: x in out ==> x in w + [t])
    && Tracks(unit, w, i, out, skip)
    && Scaled(nc, base, unit, n)
    && KeysFrom(nc, base, w, t)
  }

  lemma ScanStart(w: Word, p: Pair, t: Token, n: int, base: map<Pair, int>)
    requires |w| >= 2
    ensures Scan(w, p, t, n, base, 0, [], false, None, base, map[])
  {
    GreedyScanStart(w, p, t);
    assert [] + w[0..] == w;
  }

  /** The pair after a merge: its left token was merged, so the pair is
    * replaced by one starting with the new token. */
  lemma ScanSkip(w: Word, p: Pair, t: Token, n: int, base: map<Pair, int>, i: nat, out: Word,
                 lastPair: Option<Pair>, nc: map<Pair, int>, unit: map<Pair, int>)
    requires Scan(w, p, t, n, base, i, out, true, lastPair, nc, unit) && i + 1 < |w|
    ensures var (a, b) := (w[i], w[i + 1]);
      Scan(w, p, t, n, base, i + 1, out, false, Some((t, b)),
           AddTo(AddTo(nc, (a, b), -1 * n), (t, b), 1 * n), AddTo(AddTo(unit, (a, b), -1), (t, b), 1))
  {
    var (a, b) := (w[i], w[i + 1]);
    GreedyScanStep(w, p, t, i, out, true);
    var u1 := AddTo(unit, (a, b), -1);
    ScaledAddTo(nc, base, unit, n, (a, b), -1);
    ScaledAddTo(AddTo(nc, (a, b), -1 * n), base, u1, n, (t, b), 1);
    forall q ensures Get(AddTo(u1, (t, b), 1), q) == Tracked(w, i + 1, out, false, q) - PairCount(w, q) {
      TrackStep(w, p, t, i, out, true, q);
      GetAddTo(unit, (a, b), -1, q);
      GetAddTo(u1, (t, b), 1, q);
    }
  }

  /** The corrections around a merged occurrence: with a previous pair
    * (l, a), it becomes (l, t); the occurrence (a, b) itself is removed. */
  ghost function MergeCorrection(m: map<Pair, int>, lastPair: Option<Pair>, p: Pair, t: Token, s: int): map<Pair, int>
  {
    var m' := if lastPair.Some? then AddTo(AddTo(m, lastPair.value, -1 * s), (lastPair.value.0, t), 1 * s) else m;
    AddTo(m', p, -1 * s)
  }

  lemma ScanMerge(w: Word, p: Pair, t: Token, n: int, base: map<Pair, int>, i: nat, out: Word,
                  lastPair: Option<Pair>, nc: map<Pair, int>, unit: map<Pair, int>)
    requires Scan(w, p, t, n, base, i, out, false, lastPair, nc, unit) && i + 1 < |w| && (w[i], w[i + 1]) == p
    ensures Scan(w, p, t, n, base, i + 1, out + [t], true, Some(p),
                 MergeCorrection(nc, lastPair, p, t, n), MergeCorrection(unit, lastPair, p, t, 1))
  {
    GreedyScanStep(w, p, t, i, out, false);
    var u := if lastPair.Some? then AddTo(AddTo(unit, lastPair.value, -1), (lastPair.value.0, t), 1) else unit;
    var c := if lastPair.Some? then AddTo(AddTo(nc, lastPair.value, -1 * n), (lastPair.value.0, t), 1 * n) else nc;
    if lastPair.Some? {
      var (l, a) := lastPair.value;
      ScaledAddTo(nc, base, unit, n, (l, a), -1);
      ScaledAddTo(AddTo(nc, (l, a), -1 * n), base, AddTo(unit, (l, a), -1), n, (l, t), 1);
    }
    ScaledAddTo(c, base, u, n, p, -1);
    MergeTracks(w, p, t, i, out, lastPair, unit);
  }

  /** The merge corrections account for the scan one step further. */
  lemma MergeTracks(w: Word, p: Pair, t: Token, i: nat, out: Word, lastPair: Option<Pair>, unit: map<Pair, int>)
    requires i + 1 < |w| && (w[i], w[i + 1]) == p && Tracks(unit, w, i, out, false)
    requires lastPair == if out == [] then None else Some((out[|out| - 1], w[i]))
    ensures Tracks(MergeCorrection(unit, lastPair, p, t, 1), w, i + 1, out + [t], true)
  {
    var u := if lastPair.Some? then AddTo(AddTo(unit, lastPair.value, -1), (lastPair.value.0, t), 1) else unit;
    forall q ensures Get(AddTo(u, p, -1), q) == Tracked(w, i + 1, out + [t], true, q) - PairCount(w, q) {
      TrackStep(w, p, t, i, out, false, q);
      if |out| > 0 {
        var l := out[|out| - 1];
        GetAddTo(unit, (l, w[i]), -1, q);
        GetAddTo(AddTo(unit, (l, w[i]), -1), (l, t), 1, q);
      }
      GetAddTo(u, p, -1, q);
    }
  }

  /** A pair that is not merged: its left token is emitted unchanged. */
  lemma ScanPlain(w: Word, p: Pair, t: Token, n: int, base: map<Pair, int>, i: nat, out: Word,
                  lastPair: Option<Pair>, nc: map<Pair, int>, unit: map<Pair, int>)
    requires Scan(w, p, t, n, base, i, out, false, lastPair, nc, unit) && i + 1 < |w| && (w[i], w[i + 1]) != p
    ensures Scan(w, p, t, n, base, i + 1, out + [w[i]], false, Some((w[i], w[i + 1])), nc, unit)
  {
    GreedyScanStep(w, p, t, i, out, false);
    forall q ensures Get(unit, q) == Tracked(w, i + 1, out + [w[i]], false, q) - PairCount(w, q) {
      TrackStep(w, p, t, i, out, false, q);
    }
  }

  /** One step of the scan, whichever branch it takes, with the new state
    * named. */
  lemma ScanNext(w: Word, p: Pair, t: Token, n: int, base: map<Pair, int>,
                 i: nat, out: Word, skip: bool, lastPair: Option<Pair>, nc: map<Pair, int>, unit: map<Pair, int>,
                 i': nat, out': Word, skip': bool, lastPair': Option<Pair>, nc': map<Pair, int>, unit': map<Pair, int>)
    requires Scan(w, p, t, n, base, i, out, skip, lastPair, nc, unit) && i + 1 < |w| && i' == i + 1
    requires skip ==> && !skip' && out' == out && lastPair' == Some((t, w[i + 1]))
                      && nc' == AddTo(AddTo(nc, (w[i], w[i + 1]), -1 * n), (t, w[i + 1]), 1 * n)
                      && unit' == AddTo(AddTo(unit, (w[i], w[i + 1]), -1), (t, w[i + 1]), 1)
    requires !skip && (w[i], w[i + 1]) == p ==>
               && skip' && out' == out + [t] && lastPair' == Some(p)
               && nc' == MergeCorrection(nc, lastPair, p, t, n) && unit' == MergeCorrection(unit, lastPair, p, t, 1)
    requires !skip && (w[i], w[i + 1]) != p ==>
               && !skip' && out' == out + [w[i]] && lastPair' == Some((w[i], w[i + 1])) && nc' == nc && unit' == unit
    ensures Scan(w, p, t, n, base, i', out', skip', lastPair', nc', unit')
  {
    if skip {
      ScanSkip(w, p, t, n, base, i, out, lastPair, nc, unit);
    } else if (w[i], w[i + 1]) == p {
      ScanMerge(w, p, t, n, base, i, out, lastPair, nc, unit);
    } else {
      ScanPlain(w, p, t, n, base, i, out, lastPair, nc, unit);
    }
  }

  /** When the scan ends, the emitted tokens (plus the last token of w
    * unless it was merged) are the merge, and the corrections are n times
    * the change in pair counts from w to its merge. */
  lemma ScanEnd(w: Word, p: Pair, t: Token, n: int, base: map<Pair, int>, i: nat, out: Word, skip: bool,
                lastPair: Option<Pair>, nc: map<Pair, int>, unit: map<Pair, int>, newK: Word)
    requires Scan(w, p, t, n, base, i, out, skip, lastPair, nc, unit) && i + 1 >= |w|
    requires newK == if skip then out else out + [w[|w| - 1]]
    ensures newK == Merge(w, p, t)
    ensures Corrected(nc, base, n, w, newK)
    ensures KeysFrom(nc, base, w, t)
  {
    GreedyScanEnd(w, p, t, i, out, skip);
    assert i == |w| - 1;
    assert w[i..] == [w[|w| - 1]];
    forall q ensures Get(unit, q) == PairCount(Merge(w, p, t), q) - PairCount(w, q) {
      assert PairCount([w[|w| - 1]], q) == 0;
    }
  }

  /** The body of the loop over `used_words[best_pair]` for one word: the
    * scan that rewrites the word and corrects the pair counts around each
    * merged occurrence. `n` is the word's count. */
  method RewriteWord(w: Word, p: Pair, t: Token, n: int, newCandidates: map<Pair, int>)
    returns (newK: Word, nc: map<Pair, int>)
    requires |w| >= 2
    ensures newK == Merge(w, p, t)
    ensures Corrected(nc, newCandidates, n, w, newK)
    ensures KeysFrom(nc, newCandidates, w, t)
  {
    var wordTokenization: Word := [];
    var skip := false;
    var lastPair: Option<Pair> := None;
    nc := newCandidates;
    ghost var unit: map<Pair, int> := map[];
    ScanStart(w, p, t, n, newCandidates);
    var i := 0;
    while i + 1 < |w|
      invariant Scan(w, p, t, n, newCandidates, i, wordTokenization, skip, lastPair, nc, unit)
      decreases |w| - i
    {
      ghost var i0, out0, skip0, lastPair0, nc0, unit0 := i, wordTokenization, skip, lastPair, nc, unit;
      var c1, c2 := w[i], w[i + 1];
      if skip {
        skip := false;
        nc := AddTo(nc, (c1, c2), -1 * n);
        nc := AddTo(nc, (t, c2), 1 * n);
        unit := AddTo(AddTo(unit, (c1, c2), -1), (t, c2), 1);
        lastPair := Some((t, c2));
      } else {
        if p == (c1, c2) {
          unit := MergeCorrection(unit, lastPair, p, t, 1);
          if lastPair.Some? {
            var (c1Old, c2Old) := lastPair.value;
            nc := AddTo(nc, (c1Old, c2Old), -1 * n);
            nc := AddTo(nc, (c1Old, t), 1 * n);
          }
          nc := AddTo(nc, (c1, c2), -1 * n);
          wordTokenization := wordTokenization + [t];
          skip := true;
        } else {
          wordTokenization := wordTokenization + [c1];
        }
        lastPair := Some((c1, c2));
      }
      i := i + 1;
      ScanNext(w, p, t, n, newCandidates, i0, out0, skip0, lastPair0, nc0, unit0,
               i, wordTokenization, skip, lastPair, nc, unit);
    }
    ghost var emitted := wordTokenization;
    if !skip {
      wordTokenization := wordTokenization + [w[|w| - 1]];
    }
    newK := wordTokenization;
    ScanEnd(w, p, t, n, newCandidates, i, emitted, skip, lastPair, nc, unit, newK);
  }

  /** TrackStep, stated for the branch the scan takes. */
  ghost predicate TrackedStep(w: Word, p: Pair, t: Token, i: nat, out: Word, skip: bool, q: Pair)
    requires i + 1 < |w|
  {
    && (skip ==>
          Tracked(w, i + 1, out, false, q)
          == Tracked(w, i, out, true, q) - Ind((w[i], w[i + 1]) == q) + Ind((t, w[i + 1]) == q))
    && (!skip && (w[i], w[i + 1]) == p ==>
          Tracked(w, i + 1, out + [t], true, q)
          == Tracked(w, i, out, false, q)
             - Ind(|out| > 0 && (out[|out| - 1], w[i]) == q) + Ind(|out| > 0 && (out[|out| - 1], t) == q)
             - Ind((w[i], w[i + 1]) == q))
    && (!skip && (w[i], w[i + 1]) != p ==>
          Tracked(w, i + 1, out + [w[i]], false, q) == Tracked(w, i, out, false, q))
  }

  // ---------------------------------------------------------------------
  // update_dictionaries
  // ---------------------------------------------------------------------

  /** The three tables returned by update_dictionaries. */
  datatype Dictionaries = Dictionaries(counts: map<Word, int>, candidates: map<Pair, int>, usedWords: map<Pair, set<Word>>)

  /** The words a pair links to once `wordTuple` is unlinked from the
    * pairs in oldPairs other than bestPair. */
  function Unlinked(used: map<Pair, set<Word>>, oldPairs: set<Pair>, bestPair: Pair, wordTuple: Word, q: Pair): set<Word>
  {
    if q in oldPairs && q != bestPair then UsedGet(used, q) - {wordTuple} else UsedGet(used, q)
  }

  /** The loop over old_pairs: every pair of the rewritten word other than
    * the merged one stops linking to it (`set.remove`, which would raise
    * KeyError if the word were not linked). */
  method Unlink(used: map<Pair, set<Word>>, oldPairs: set<Pair>, bestPair: Pair, wordTuple: Word)
    returns (used': map<Pair, set<Word>>)
    requires forall q :: q in oldPairs && q != bestPair ==> q in used && wordTuple in used[q]
    ensures used'.Keys == used.Keys
    ensures forall q :: UsedGet(used', q) == Unlinked(used, oldPairs, bestPair, wordTuple, q)
  {
    used' := used;
    var todo := oldPairs;
    while todo != {}
      invariant todo <= oldPairs
      invariant used'.Keys == used.Keys
      invariant forall q :: UsedGet(used', q) == Unlinked(used, oldPairs - todo, bestPair, wordTuple, q)
      decreases todo
    {
      var tup :| tup in todo;
      assert oldPairs - (todo - {tup}) == (oldPairs - todo) + {tup};
      ghost var prev := used';
      if tup != bestPair {
        used' := used'[tup := used'[tup] - {wordTuple}];
      }
      forall q ensures UsedGet(used', q) == Unlinked(used, oldPairs - (todo - {tup}), bestPair, wordTuple, q) {
        assert UsedGet(prev, q) == Unlinked(used, oldPairs - todo, bestPair, wordTuple, q);
      }
      todo := todo - {tup};
    }
  }

  /** The loop over new_pairs: every pair of the new word links to it. */
  method Link(used: map<Pair, set<Word>>, newPairs: set<Pair>, newK: Word)
    returns (used': map<Pair, set<Word>>)
    ensures used'.Keys == used.Keys + newPairs
    ensures forall q :: UsedGet(used', q) == UsedGet(used, q) + (if q in newPairs then {newK} else {})
  {
    used' := used;
    var todo := newPairs;
    while todo != {}
      invariant todo <= newPairs
      invariant used'.Keys == used.Keys + (newPairs - todo)
      invariant forall q :: UsedGet(used', q) == UsedGet(used, q) + (if q in newPairs - todo then {newK} else {})
      decreases todo
    {
      var ntup :| ntup in todo;
      used' := used'[ntup := UsedGet(used', ntup)];
      used' := used'[ntup := used'[ntup] + {newK}];
      todo := todo - {ntup};
    }
  }

  /** Moving one word containing the pair from the untouched part of the
    * table to the merged part (no merge can produce it). */
  lemma MoveWord(counts: map<Word, int>, done: set<Word>, w: Word, p: Pair, t: Token)
    requires w in counts && HasPair(w, p) && w !in done && t != p.0 && t != p.1
    ensures w in Rekey(counts - done, Restrict(counts, done), p, t)
    ensures Rekey(counts - done, Restrict(counts, done), p, t)[w] == counts[w]
    ensures Rekey(counts - (done + {w}), Restrict(counts, done + {w}), p, t)
         == AddTo(Rekey(counts - done, Restrict(counts, done), p, t) - {w}, Merge(w, p, t), counts[w])
  {
    forall x | x in counts ensures Merge(x, p, t) != w {
      MergeRemovesPair(x, p, t);
    }
    RekeyMove(counts, done, w, p, t);
  }

  /** What relinking the rewritten word relies on: every other pair of the
    * word still links to it, and its merge no longer contains the pair. */
  lemma LinkFacts(counts: map<Word, int>, used: map<Pair, set<Word>>, w: Word, p: Pair, t: Token)
    requires w in counts && HasPair(w, p) && t != p.0 && t != p.1
    requires forall q :: q != p ==> UsedGet(used, q) == IndexOf(counts, q)
    ensures forall q :: q in PairSet(w) && q != p ==> q in used && w in used[q]
    ensures p !in PairSet(Merge(w, p, t)) && w != Merge(w, p, t)
  {
    forall q | q in PairSet(w) && q != p ensures q in used && w in used[q] {
      PairSetIff(w, q);
      assert w in IndexOf(counts, q);
      assert UsedGet(used, q) == IndexOf(counts, q);
    }
    MergeRemovesPair(w, p, t);
    PairSetIff(Merge(w, p, t), p);
  }

  /** The invariant of the loop over the words linked from the merged
    * pair p: the words of `affected` not in `todo` have been moved to their
    * merge in c, nc holds the corrections of all moves so far, u indexes c
    * (for every pair but p, whose entry is not touched), and the words
    * still to move are those of c that contain p. */
  ghost predicate Progress(counts: map<Word, int>, candidates: map<Pair, int>, p: Pair, t: Token,
                           affected: set<Word>, todo: set<Word>,
                           c: map<Word, int>, nc: map<Pair, int>, u: map<Pair, set<Word>>)
  {
    && affected == IndexOf(counts, p)
    && 0 <= p.0 < t && 0 <= p.1 < t
    && todo <= affected
    && c == Rekey(counts - (affected - todo), Restrict(counts, affected - todo), p, t)
    && (forall q :: Get(candidates, q) + Get(nc, q) == Weighted(c, q))
    && (forall q :: q != p ==> UsedGet(u, q) == IndexOf(c, q))
    && p in u && u[p] == affected
    && todo == IndexOf(c, p)
    && Positive(c)
    && TokensBelow(c, t + 1)
    && (forall q :: q in nc ==> 0 <= q.0 <= t && 0 <= q.1 <= t)
  }

  lemma ProgressStart(counts: map<Word, int>, candidates: map<Pair, int>, usedWords: map<Pair, set<Word>>, p: Pair, t: Token)
    requires Valid(counts, candidates, usedWords) && p in usedWords
    requires TokensBelow(counts, t) && 0 <= p.0 < t && 0 <= p.1 < t
    ensures Progress(counts, candidates, p, t, usedWords[p], usedWords[p], counts, map[], usedWords)
  {
    assert UsedGet(usedWords, p) == IndexOf(counts, p);
    assert counts - {} == counts && Restrict(counts, {}) == map[];
  }

  /** A word still to move is in the table, contains the pair, and so has
    * at least two tokens. */
  lemma ProgressPick(counts: map<Word, int>, candidates: map<Pair, int>, p: Pair, t: Token,
                     affected: set<Word>, todo: set<Word>,
                     c: map<Word, int>, nc: map<Pair, int>, u: map<Pair, set<Word>>, w: Word)
    requires Progress(counts, candidates, p, t, affected, todo, c, nc, u) && w in todo
    ensures w in c && HasPair(w, p) && |w| >= 2
  {
  }

  /** One word moved: rewritten, re-keyed, corrected and relinked. */
  lemma ProgressStep(counts: map<Word, int>, candidates: map<Pair, int>, p: Pair, t: Token,
                     affected: set<Word>, todo: set<Word>,
                     c: map<Word, int>, nc: map<Pair, int>, u: map<Pair, set<Word>>,
                     w: Word, newK: Word, nc': map<Pair, int>, u': map<Pair, set<Word>>)
    requires Progress(counts, candidates, p, t, affected, todo, c, nc, u) && w in todo
    requires w in c && newK == Merge(w, p, t)
    requires Corrected(nc', nc, c[w], w, newK) && KeysFrom(nc', nc, w, t)
    requires u'.Keys >= u.Keys
    requires forall q :: UsedGet(u', q) == Unlinked(u, PairSet(w), p, w, q) + (if q in PairSet(newK) then {newK} else {})
    ensures Progress(counts, candidates, p, t, affected, todo - {w}, AddTo(c - {w}, newK, c[w]), nc', u')
  {
    var done := affected - todo;
    MoveWord(counts, done, w, p, t);
    assert affected - (todo - {w}) == done + {w};
    var c' := AddTo(c - {w}, newK, c[w]);
    StepCounts(candidates, c, nc, w, newK, nc');
    StepIndex(c, u, p, t, w, newK, u');
    MovedBounds(c, w, p, t, newK);
    CorrectionKeys(nc, nc', w, t);
  }

  /** Moving a word to its merge keeps every count positive and every
    * token at most t. */
  lemma MovedBounds(c: map<Word, int>, w: Word, p: Pair, t: Token, newK: Word)
    requires Positive(c) && TokensBelow(c, t + 1) && w in c && 0 <= t && newK == Merge(w, p, t)
    ensures Positive(AddTo(c - {w}, newK, c[w]))
    ensures TokensBelow(AddTo(c - {w}, newK, c[w]), t + 1)
  {
    var c' := AddTo(c - {w}, newK, c[w]);
    MergeTokens(w, p, t);
    forall v | v in c' ensures c'[v] > 0 && forall x :: x in v ==> 0 <= x < t + 1 {
      if v != newK {
        assert v in c && c'[v] == c[v];
      } else {
        assert Get(c - {w}, newK) >= 0;
      }
    }
  }

  /** The corrections add keys made of tokens at most t. */
  lemma CorrectionKeys(nc: map<Pair, int>, nc': map<Pair, int>, w: Word, t: Token)
    requires forall q :: q in nc ==> 0 <= q.0 <= t && 0 <= q.1 <= t
    requires forall x :: x in w ==> 0 <= x < t + 1
    requires KeysFrom(nc', nc, w, t) && 0 <= t
    ensures forall q :: q in nc' ==> 0 <= q.0 <= t && 0 <= q.1 <= t
  {
    forall q | q in nc' && q !in nc ensures 0 <= q.0 <= t && 0 <= q.1 <= t {
      assert q.0 in w + [t] && q.1 in w + [t];
    }
  }

  lemma StepCounts(candidates: map<Pair, int>, c: map<Word, int>, nc: map<Pair, int>, w: Word, newK: Word, nc': map<Pair, int>)
    requires w in c
    requires forall q :: Get(candidates, q) + Get(nc, q) == Weighted(c, q)
    requires Corrected(nc', nc, c[w], w, newK)
    ensures forall q :: Get(candidates, q) + Get(nc', q) == Weighted(AddTo(c - {w}, newK, c[w]), q)
  {
    forall q ensures Get(candidates, q) + Get(nc', q) == Weighted(AddTo(c - {w}, newK, c[w]), q) {
      WeightedMove(c, w, newK, q);
    }
  }

  lemma StepIndex(c: map<Word, int>, u: map<Pair, set<Word>>, p: Pair, t: Token, w: Word, newK: Word, u': map<Pair, set<Word>>)
    requires w in c && HasPair(w, p) && t != p.0 && t != p.1 && newK == Merge(w, p, t)
    requires forall q :: q != p ==> UsedGet(u, q) == IndexOf(c, q)
    requires forall q :: UsedGet(u', q) == Unlinked(u, PairSet(w), p, w, q) + (if q in PairSet(newK) then {newK} else {})
    ensures forall q :: q != p ==> UsedGet(u', q) == IndexOf(AddTo(c - {w}, newK, c[w]), q)
    ensures UsedGet(u', p) == UsedGet(u, p)
    ensures IndexOf(AddTo(c - {w}, newK, c[w]), p) == IndexOf(c, p) - {w}
  {
    LinkFacts(c, u, w, p, t);
    forall q | q != p ensures UsedGet(u', q) == IndexOf(AddTo(c - {w}, newK, c[w]), q) {
      IndexMove(c, w, newK, c[w], q);
      PairSetIff(w, q);
      PairSetIff(newK, q);
    }
    IndexMove(c, w, newK, c[w], p);
    PairSetIff(newK, p);
  }

  /** When no affected word is left, the word table is the merged table,
    * the merged pair occurs nowhere, and the tables update_dictionaries
    * returns are consistent. */
  lemma ProgressEnd(counts: map<Word, int>, candidates: map<Pair, int>, p: Pair, t: Token, affected: set<Word>,
                    c: map<Word, int>, nc: map<Pair, int>, u: map<Pair, set<Word>>)
    requires Progress(counts, candidates, p, t, affected, {}, c, nc, u)
    ensures c == MergedCounts(counts, p, t)
    ensures Get(CounterUpdate(candidates, nc), p) == 0
    ensures var cands := CounterUpdate(candidates, nc) - {p};
      && Valid(c, cands, u - {p})
      && p !in cands && p !in u - {p}
      && TokensBelow(c, t + 1)
      && forall q :: q in cands ==> q in candidates || (0 <= q.0 <= t && 0 <= q.1 <= t)
  {
    assert affected - {} == affected;
    RekeyAffected(counts, affected, p, t);
    forall w | w in c ensures !HasPair(w, p) {
      assert w !in IndexOf(c, p);
    }
    WeightedAbsent(c, p);
    var cands := CounterUpdate(candidates, nc) - {p};
    forall q ensures Get(cands, q) == Weighted(c, q) && UsedGet(u - {p}, q) == IndexOf(c, q) {
      if q != p {
        assert Get(cands, q) == Get(candidates, q) + Get(nc, q);
      }
    }
  }


  /** Merging bestPair into the new token tokenId. Only the words linked
    * from bestPair are rewritten; the pair counts are corrected by the
    * difference and the index relinked. The word table becomes exactly the
    * merged table, and the three tables stay consistent. The merged pair is
    * dropped from both pair tables, after its corrected count has reached
    * 0. A pair missing from used_words (a stale entry of the candidates,
    * whose count is 0) raises KeyError. */
  method UpdateDictionaries(counts: map<Word, int>, candidates: map<Pair, int>, usedWords: map<Pair, set<Word>>,
                            bestPair: Pair, tokenId: Token)
    returns (r: Result<Dictionaries, Failure>)
    requires Valid(counts, candidates, usedWords)
    requires bestPair in candidates
    requires TokensBelow(counts, tokenId) && 0 <= bestPair.0 < tokenId && 0 <= bestPair.1 < tokenId
    ensures r.Err? <==> bestPair !in usedWords
    ensures r.Err? ==> r.error == MissingUsedWords
    ensures r.Ok? ==> r.value.counts == MergedCounts(counts, bestPair, tokenId)
    ensures r.Ok? ==> Valid(r.value.counts, r.value.candidates, r.value.usedWords)
    ensures r.Ok? ==> bestPair !in r.value.candidates && bestPair !in r.value.usedWords
    ensures r.Ok? ==> TokensBelow(r.value.counts, tokenId + 1)
    ensures r.Ok? ==> forall q :: q in r.value.candidates ==> q in candidates || (0 <= q.0 <= tokenId && 0 <= q.1 <= tokenId)
  {
    if bestPair !in usedWords {
      return Err(MissingUsedWords);
    }
    var newCandidates: map<Pair, int> := map[];
    var counts', usedWords' := counts, usedWords;
    var affected := usedWords[bestPair];
    ProgressStart(counts, candidates, usedWords, bestPair, tokenId);
    var todo := affected;
    while todo != {}
      invariant Progress(counts, candidates, bestPair, tokenId, affected, todo, counts', newCandidates, usedWords')
      decreases todo
    {
      var wordTuple :| wordTuple in todo;
      ProgressPick(counts, candidates, bestPair, tokenId, affected, todo, counts', newCandidates, usedWords', wordTuple);
      ghost var (counts0, candidates0, used0) := (counts', newCandidates, usedWords');
      var numOccurences := counts'[wordTuple];
      var newK, nc := RewriteWord(wordTuple, bestPair, tokenId, numOccurences, newCandidates);
      newCandidates := nc;
      counts' := counts' - {wordTuple};
      counts' := AddTo(counts', newK, numOccurences);
      var oldPairs := PairSet(wordTuple);
      var newPairs := PairSet(newK);
      LinkFacts(counts0, usedWords', wordTuple, bestPair, tokenId);
      usedWords' := Unlink(usedWords', oldPairs, bestPair, wordTuple);
      usedWords' := Link(usedWords', newPairs, newK);
      ProgressStep(counts, candidates, bestPair, tokenId, affected, todo, counts0, candidates0, used0,
                   wordTuple, newK, newCandidates, usedWords');
      todo := todo - {wordTuple};
    }
    ProgressEnd(counts, candidates, bestPair, tokenId, affected, counts', newCandidates, usedWords');
    // candidates.update(new_candidates)
    var updated := CounterUpdate(candidates, newCandidates);
    assert Get(updated, bestPair) == 0;
    var candidates' := updated - {bestPair};
    usedWords' := usedWords' - {bestPair};
    r := Ok(Dictionaries(counts', candidates', usedWords'));
  }

  // ---------------------------------------------------------------------
  // train_bpe
  // ---------------------------------------------------------------------

  /** The vocabulary before any merge, restricted to ids below n: id i < 256
    * is the single byte i, id 256 + i the i-th special token. */
  function InitialVocab(special: seq<Bytes>, n: nat): (v: map<Token, Bytes>)
    requires n <= 256 + |special|
    ensures forall i :: i in v <==> 0 <= i < n
    ensures forall i :: 0 <= i < n && i < 256 ==> v[i] == [i as Byte]
    ensures forall i :: 0 <= i < |special| && 256 + i < n ==> v[256 + i] == special[i]
    ensures |v| == n
  {
    if n == 0 then map[]
    else
      var v := InitialVocab(special, n - 1);
      v[n - 1 := if n - 1 < 256 then [(n - 1) as Byte] else special[n - 1 - 256]]
  }

  /** The word table after the given merges, the k-th creating token base + k.
    * Unlike the reference trainer, where a merge yields the joined string,
    * the new token here is a fresh id, so the history needs the base id. */
  ghost function CountsAfter(counts: map<Word, int>, merges: seq<Pair>, base: int): map<Word, int>
    decreases |merges|
  {
    if merges == [] then counts
    else
      var k := |merges| - 1;
      MergedCounts(CountsAfter(counts, merges[..k], base), merges[k], base + k)
  }

  /** p is a best merge for the table: no pair is counted more often, and
    * among the occurring pairs counted as often none has a greater byte key. */
  ghost predicate IsBest(counts: map<Word, int>, vocab: map<Token, Bytes>, p: Pair)
  {
    && (forall q :: Weighted(counts, q) <= Weighted(counts, p))
    && (forall q :: q in AllPairs(counts) && Weighted(counts, q) == Weighted(counts, p) ==>
          && q.0 in vocab && q.1 in vocab && p.0 in vocab && p.1 in vocab
          && !KeyLess(Key(vocab, p), Key(vocab, q)))
  }

  /** No pair occurs in the table any more. */
  ghost predicate Exhausted(counts: map<Word, int>)
  {
    forall q :: Weighted(counts, q) == 0
  }

  /** What find_best_pair promises, read through the invariant of the
    * tables: its pair is a best merge of the word table. */
  lemma ChosenIsBest(counts: map<Word, int>, candidates: map<Pair, int>, usedWords: map<Pair, set<Word>>,
                     vocab: map<Token, Bytes>, best: Pair)
    requires Valid(counts, candidates, usedWords)
    requires forall q :: q in candidates ==> q.0 in vocab && q.1 in vocab
    requires best in candidates && candidates[best] >= 0
    requires forall q :: q in candidates ==> candidates[q] <= candidates[best]
    requires forall q :: q in candidates && candidates[q] == candidates[best] ==> !KeyLess(Key(vocab, best), Key(vocab, q))
    ensures IsBest(counts, vocab, best)
  {
    assert Get(candidates, best) == Weighted(counts, best);
    forall q ensures Weighted(counts, q) <= Weighted(counts, best) {
      assert Get(candidates, q) == Weighted(counts, q);
    }
    forall q | q in AllPairs(counts) && Weighted(counts, q) == Weighted(counts, best)
      ensures q in candidates
    {
      AllPairsIff(counts, q);
      WeightedSign(counts, q);
      assert Get(candidates, q) == Weighted(counts, q);
    }
  }

  /** A best merge stays one when the vocabulary gains a new id. */
  lemma IsBestGrow(counts: map<Word, int>, vocab: map<Token, Bytes>, p: Pair, id: Token, bytes: Bytes)
    requires id !in vocab && IsBest(counts, vocab, p)
    ensures IsBest(counts, vocab[id := bytes], p)
  {
    forall q | q in AllPairs(counts) && Weighted(counts, q) == Weighted(counts, p)
      ensures Key(vocab[id := bytes], q) == Key(vocab, q) && Key(vocab[id := bytes], p) == Key(vocab, p)
    {
    }
  }

  /** With positive counts every candidate count is at least 0, so an
    * empty result of find_best_pair means no pair occurs at all. */
  lemma NoneOccurs(counts: map<Word, int>, candidates: map<Pair, int>, usedWords: map<Pair, set<Word>>)
    requires Valid(counts, candidates, usedWords)
    requires forall q :: q in candidates ==> candidates[q] < 0
    ensures Exhausted(counts)
  {
    forall q ensures Weighted(counts, q) == 0 {
      WeightedSign(counts, q);
      assert Get(candidates, q) == Weighted(counts, q);
    }
  }

  /** A best pair missing from used_words occurs nowhere, so no pair occurs. */
  lemma BestAbsent(counts: map<Word, int>, candidates: map<Pair, int>, usedWords: map<Pair, set<Word>>,
                   vocab: map<Token, Bytes>, best: Pair)
    requires Valid(counts, candidates, usedWords) && best !in usedWords && IsBest(counts, vocab, best)
    ensures Exhausted(counts)
  {
    assert UsedGet(usedWords, best) == IndexOf(counts, best);
    forall w | w in counts ensures !HasPair(w, best) {
      assert w !in IndexOf(counts, best);
    }
    WeightedAbsent(counts, best);
    forall q ensures Weighted(counts, q) == 0 {
      WeightedSign(counts, q);
    }
  }

  /** Every pair occurring in a table with tokens below a bound has its
    * tokens below the bound. */
  lemma AllPairsBelow(counts: map<Word, int>, bound: int)
    requires TokensBelow(counts, bound)
    ensures forall q :: q in AllPairs(counts) ==> 0 <= q.0 < bound && 0 <= q.1 < bound
  {
    forall q | q in AllPairs(counts) ensures 0 <= q.0 < bound && 0 <= q.1 < bound {
      var w, i :| w in counts && 0 <= i < |w| - 1 && PairAt(w, i) == q;
      assert w[i] in w && w[i + 1] in w;
    }
  }

  /** The keys of the candidate table, in the order of `candidates.items()`
    * (any order: the dictionary's is not modelled). */
  method ListKeys(candidates: map<Pair, int>) returns (order: seq<Pair>)
    ensures forall q :: q in candidates <==> q in order
    ensures Distinct(order)
  {
    order := [];
    var todo := candidates.Keys;
    while todo != {}
      invariant todo <= candidates.Keys
      invariant forall q :: q in order <==> q in candidates && q !in todo
      invariant Distinct(order)
      decreases todo
    {
      var q :| q in todo;
      order := order + [q];
      todo := todo - {q};
    }
  }

  /** The vocabulary holds ids 0 .. base + n - 1, with the byte and
    * special-token entries below base. */
  ghost predicate VocabLayout(special: seq<Bytes>, vocab: map<Token, Bytes>, n: nat)
  {
    && (forall i :: i in vocab <==> 0 <= i < 256 + |special| + n)
    && (forall i :: 0 <= i < 256 ==> vocab[i] == [i as Byte])
    && (forall i :: 0 <= i < |special| ==> vocab[256 + i] == special[i])
  }

  /** Merge k made id base + k from the two ids chosen[k] below it, and the
    * merge list records their bytes. */
  ghost predicate MergeAt(base: int, vocab: map<Token, Bytes>, merges: seq<(Bytes, Bytes)>, chosen: seq<Pair>, k: int)
    requires 0 <= k < |merges| == |chosen|
  {
    && base + k in vocab && vocab[base + k] == merges[k].0 + merges[k].1
    && 0 <= chosen[k].0 < base + k && 0 <= chosen[k].1 < base + k
    && chosen[k].0 in vocab && chosen[k].1 in vocab
    && merges[k] == (vocab[chosen[k].0], vocab[chosen[k].1])
  }

  ghost predicate MergeLayout(base: int, vocab: map<Token, Bytes>, merges: seq<(Bytes, Bytes)>, chosen: seq<Pair>)
  {
    && |merges| == |chosen|
    && (forall k :: 0 <= k < |merges| ==> MergeAt(base, vocab, merges, chosen, k))
  }


  /** Each merge was a best merge of the word table the earlier ones left. */
  ghost predicate BestHistory(counts: map<Word, int>, base: int, vocab: map<Token, Bytes>, chosen: seq<Pair>)
  {
    forall k :: 0 <= k < |chosen| ==> IsBest(CountsAfter(counts, chosen[..k], base), vocab, chosen[k])
  }

  /** What train_bpe has built after |merges| rounds. */
  ghost predicate Trained(counts: map<Word, int>, special: seq<Bytes>, vocab: map<Token, Bytes>,
                          merges: seq<(Bytes, Bytes)>, chosen: seq<Pair>)
  {
    && VocabLayout(special, vocab, |merges|)
    && MergeLayout(256 + |special|, vocab, merges, chosen)
    && BestHistory(counts, 256 + |special|, vocab, chosen)
  }

  lemma VocabStep(special: seq<Bytes>, vocab: map<Token, Bytes>, n: nat, bytes: Bytes, vocab': map<Token, Bytes>)
    requires VocabLayout(special, vocab, n) && vocab' == vocab[256 + |special| + n := bytes]
    ensures VocabLayout(special, vocab', n + 1)
  {
  }

  lemma MergeStep(base: int, vocab: map<Token, Bytes>, merges: seq<(Bytes, Bytes)>, chosen: seq<Pair>, best: Pair,
                  vocab': map<Token, Bytes>, merges': seq<(Bytes, Bytes)>, chosen': seq<Pair>)
    requires MergeLayout(base, vocab, merges, chosen) && base + |merges| !in vocab
    requires 0 <= best.0 < base + |merges| && 0 <= best.1 < base + |merges|
    requires best.0 in vocab && best.1 in vocab
    requires vocab' == vocab[base + |merges| := vocab[best.0] + vocab[best.1]]
    requires merges' == merges + [(vocab[best.0], vocab[best.1])] && chosen' == chosen + [best]
    ensures MergeLayout(base, vocab', merges', chosen')
  {
    forall k | 0 <= k < |merges'| ensures MergeAt(base, vocab', merges', chosen', k) {
      if k < |merges| {
        assert MergeAt(base, vocab, merges, chosen, k);
        assert merges'[k] == merges[k] && chosen'[k] == chosen[k];
      }
    }
  }


  lemma {:induction false} HistoryStep(counts: map<Word, int>, base: int, vocab: map<Token, Bytes>,
                                       chosen: seq<Pair>, best: Pair, id: Token, bytes: Bytes,
                                       vocab': map<Token, Bytes>, chosen': seq<Pair>)
    requires BestHistory(counts, base, vocab, chosen) && id !in vocab
    requires IsBest(CountsAfter(counts, chosen, base), vocab, best)
    requires vocab' == vocab[id := bytes] && chosen' == chosen + [best]
    ensures BestHistory(counts, base, vocab', chosen')
  {
    forall k | 0 <= k < |chosen'|
      ensures IsBest(CountsAfter(counts, chosen'[..k], base), vocab', chosen'[k])
    {
      if k < |chosen| {
        assert chosen'[..k] == chosen[..k];
        IsBestGrow(CountsAfter(counts, chosen[..k], base), vocab, chosen[k], id, bytes);
      } else {
        assert chosen'[..k] == chosen;
        IsBestGrow(CountsAfter(counts, chosen, base), vocab, best, id, bytes);
      }
    }
  }

  lemma TrainedStart(counts: map<Word, int>, special: seq<Bytes>)
    ensures Trained(counts, special, InitialVocab(special, 256 + |special|), [], [])
  {
    var vocab := InitialVocab(special, 256 + |special|);
    InitialLayout(special, vocab);
    assert MergeLayout(256 + |special|, vocab, [], []);
    assert BestHistory(counts, 256 + |special|, vocab, []);
  }

  lemma InitialLayout(special: seq<Bytes>, vocab: map<Token, Bytes>)
    requires forall i :: i in vocab <==> 0 <= i < 256 + |special|
    requires forall i :: 0 <= i < 256 + |special| && i < 256 ==> vocab[i] == [i as Byte]
    requires forall i :: 0 <= i < |special| && 256 + i < 256 + |special| ==> vocab[256 + i] == special[i]
    ensures VocabLayout(special, vocab, 0)
  {
  }

  /** One round of train_bpe keeps Trained: the new merge is a best merge
    * of the current table and the new id is fresh. */
  lemma TrainedStep(counts: map<Word, int>, special: seq<Bytes>, vocab: map<Token, Bytes>,
                    merges: seq<(Bytes, Bytes)>, chosen: seq<Pair>, current: map<Word, int>, best: Pair, id: int,
                    vocab': map<Token, Bytes>, merges': seq<(Bytes, Bytes)>, chosen': seq<Pair>)
    requires Trained(counts, special, vocab, merges, chosen)
    requires current == CountsAfter(counts, chosen, 256 + |special|) && IsBest(current, vocab, best)
    requires id == 256 + |special| + |merges|
    requires 0 <= best.0 < id && 0 <= best.1 < id
    requires vocab' == vocab[id := vocab[best.0] + vocab[best.1]]
    requires merges' == merges + [(vocab[best.0], vocab[best.1])] && chosen' == chosen + [best]
    ensures Trained(counts, special, vocab', merges', chosen')
  {
    var base := 256 + |special|;
    var bytes := vocab[best.0] + vocab[best.1];
    assert |merges'| == |merges| + 1;
    VocabStep(special, vocab, |merges|, bytes, vocab');
    MergeStep(base, vocab, merges, chosen, best, vocab', merges', chosen');
    HistoryStep(counts, base, vocab, chosen, best, base + |merges|, bytes, vocab', chosen');
  }

  /** The word table after one more merge. */
  lemma CountsAfterStep(counts: map<Word, int>, chosen: seq<Pair>, best: Pair, base: int, id: int,
                        before: map<Word, int>, after: map<Word, int>)
    requires id == base + |chosen| && before == CountsAfter(counts, chosen, base)
    requires after == MergedCounts(before, best, id)
    ensures after == CountsAfter(counts, chosen + [best], base)
  {
    assert (chosen + [best])[..|chosen|] == chosen;
  }

  /** train_bpe on the word counts of the corpus: byte tokens 0..255, then
    * the special tokens, then one token per merge. Each merge is a best
    * merge of the word table as the earlier merges left it; training ends
    * with an exception only when no pair occurs any more. `chosen` names
    * the merged pairs by token id. */
  method TrainBpe(counts: map<Word, int>, vocabSize: int, specialTokens: seq<Bytes>)
    returns (r: Result<(map<Token, Bytes>, seq<(Bytes, Bytes)>), Failure>, ghost chosen: seq<Pair>)
    requires Positive(counts) && TokensBelow(counts, 256)
    ensures r.Ok? ==> |r.value.1| == (if vocabSize - 256 - |specialTokens| > 0 then vocabSize - 256 - |specialTokens| else 0)
    ensures r.Ok? ==> Trained(counts, specialTokens, r.value.0, r.value.1, chosen)
    ensures r.Err? ==> |chosen| < vocabSize - 256 - |specialTokens|
    ensures r.Err? ==> Exhausted(CountsAfter(counts, chosen, 256 + |specialTokens|))
  {
    var numMerges := vocabSize - 256 - |specialTokens|;
    ghost var base := 256 + |specialTokens|;
    var vocab := InitialVocab(specialTokens, 256 + |specialTokens|);
    var candidates, usedWords := FindInitialMergeCandidates(counts);
    AllPairsBelow(counts, 256);
    var merges: seq<(Bytes, Bytes)> := [];
    var tokenId := |vocab|;
    var counts' := counts;
    chosen := [];
    TrainedStart(counts, specialTokens);
    while |merges| < numMerges
      invariant numMerges > 0 ==> |merges| <= numMerges
      invariant numMerges <= 0 ==> |merges| == 0
      invariant tokenId == base + |merges| && |merges| == |chosen|
      invariant Trained(counts, specialTokens, vocab, merges, chosen)
      invariant counts' == CountsAfter(counts, chosen, base)
      invariant Valid(counts', candidates, usedWords)
      invariant TokensBelow(counts', tokenId)
      invariant forall q :: q in candidates ==> 0 <= q.0 < tokenId && 0 <= q.1 < tokenId
    {
      var order := ListKeys(candidates);
      var found := FindBestPair(candidates, order, vocab);
      if found.Err? {
        NoneOccurs(counts', candidates, usedWords);
        return Err(found.error), chosen;
      }
      var bestPair := found.value;
      ChosenIsBest(counts', candidates, usedWords, vocab, bestPair);
      var (tokenA, tokenB) := bestPair;
      assert tokenA == bestPair.0 && tokenB == bestPair.1;
      var bytesA, bytesB := vocab[tokenA], vocab[tokenB];
      ghost var (vocab0, merges0, counts0) := (vocab, merges, counts');
      vocab := vocab[tokenId := bytesA + bytesB];
      merges := merges + [(bytesA, bytesB)];
      var updated := UpdateDictionaries(counts', candidates, usedWords, bestPair, tokenId);
      if updated.Err? {
        BestAbsent(counts', candidates, usedWords, vocab0, bestPair);
        return Err(updated.error), chosen;
      }
      counts', candidates, usedWords := updated.value.counts, updated.value.candidates, updated.value.usedWords;
      TrainedStep(counts, specialTokens, vocab0, merges0, chosen, counts0, bestPair, tokenId, vocab, merges, chosen + [bestPair]);
      CountsAfterStep(counts, chosen, bestPair, base, tokenId, counts0, counts');
      chosen := chosen + [bestPair];
      tokenId := tokenId + 1;
    }
    r := Ok((vocab, merges));
  }
}
