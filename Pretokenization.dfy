/**
 * The parallel set-up of cs336_basics/pretokenization.py: where the corpus
 * file is cut into chunks that workers can pretokenize independently, and
 * how the word counts the workers return are added up. The file is a
 * sequence of bytes; a read at a position returns the slice that starts
 * there.
 */
module Pretokenization {
  import opened Wrappers
  import opened Tables

  /** A byte of the corpus file. */
  newtype Byte = x: int | 0 <= x < 256

  type Bytes = seq<Byte>

  /** A pretokenized word, as the tuple of its byte values. */
  type Word = seq<int>

  /** How far each boundary search reads ahead at a time. */
  const MiniChunkSize: nat := 4096

  /** The fallback separator ".\n", in UTF-8. */
  const BackupToken: Bytes := [46, 10]

  // ---------------------------------------------------------------------
  // Byte search
  // ---------------------------------------------------------------------

  /** needle occurs in hay starting at offset j. */
  predicate OccursAt(hay: Bytes, needle: Bytes, j: int)
  {
    0 <= j && j + |needle| <= |hay| && hay[j..j + |needle|] == needle
  }

  function FindFrom(hay: Bytes, needle: Bytes, i: nat): (r: int)
    requires i <= |hay|
    ensures r == -1 || (i <= r && OccursAt(hay, needle, r))
    ensures forall j :: i <= j && (r == -1 || j < r) ==> !OccursAt(hay, needle, j)
    decreases |hay| - i
  {
    if i + |needle| > |hay| then -1
    else if hay[i..i + |needle|] == needle then i
    else FindFrom(hay, needle, i + 1)
  }

  /** `bytes.find`: the first offset where needle occurs in hay, or -1. */
  function Find(hay: Bytes, needle: Bytes): (r: int)
    ensures r == -1 || OccursAt(hay, needle, r)
    ensures forall j :: 0 <= j && (r == -1 || j < r) ==> !OccursAt(hay, needle, j)
  {
    FindFrom(hay, needle, 0)
  }

  /** `file.read(MiniChunkSize)` after `file.seek(pos)`: at most 4096 bytes,
    * nothing at or past the end of the file. */
  function Window(file: Bytes, pos: nat): (w: Bytes)
    ensures |w| <= MiniChunkSize
    ensures pos >= |file| <==> w == []
    ensures pos < |file| ==> pos + |w| <= |file| && w == file[pos..pos + |w|]
    ensures pos < |file| && |w| < MiniChunkSize ==> pos + |w| == |file|
  {
    if pos >= |file| then []
    else file[pos..if pos + MiniChunkSize < |file| then pos + MiniChunkSize else |file|]
  }

  // ---------------------------------------------------------------------
  // find_chunk_boundaries: specification
  // ---------------------------------------------------------------------

  /** Where the boundary search that starts at pos ends: at the first
    * separator found inside one of the windows pos, pos + 4096, ..., or at
    * the end of the file. */
  function Snap(file: Bytes, token: Bytes, pos: nat): int
    decreases |file| - pos
  {
    var w := Window(file, pos);
    if w == [] then |file|
    else
      var found := Find(w, token);
      if found != -1 then pos + found else Snap(file, token, pos + MiniChunkSize)
  }

  /** The fallback boundary the same search records: the first ".\n" in a
    * window read before the separator was found, or dflt when there is none. */
  function BackupFrom(file: Bytes, token: Bytes, pos: nat, dflt: int): int
    decreases |file| - pos
  {
    var w := Window(file, pos);
    if w == [] || Find(w, token) != -1 then dflt
    else if Find(w, BackupToken) != -1 then pos + Find(w, BackupToken)
    else BackupFrom(file, token, pos + MiniChunkSize, dflt)
  }

  /** An occurrence at j, of length len, does not fit in the window
    * (counted from pos) in which it starts. */
  predicate Straddles(pos: int, j: int, len: int)
    requires pos <= j
  {
    j + len > pos + ((j - pos) / MiniChunkSize + 1) * MiniChunkSize
  }

  /** An occurrence that fits in the window starting at pos is found there. */
  lemma WindowOccurs(file: Bytes, token: Bytes, pos: nat, j: int)
    requires pos < |file| && pos <= j && OccursAt(file, token, j)
    requires j + |token| <= pos + MiniChunkSize
    ensures OccursAt(Window(file, pos), token, j - pos)
  {
    var w := Window(file, pos);
    forall t | 0 <= t < |token| ensures w[j - pos + t] == token[t] {
      assert file[j..j + |token|][t] == file[j + t];
    }
    assert w[j - pos..j - pos + |token|] == token;
  }

  /** An occurrence in the window starting at pos is one in the file. */
  lemma OccursInFile(file: Bytes, token: Bytes, pos: nat, f: int)
    requires Window(file, pos) != [] && OccursAt(Window(file, pos), token, f)
    ensures OccursAt(file, token, pos + f)
  {
    var w := Window(file, pos);
    forall t | 0 <= t < |token| ensures file[pos + f + t] == token[t] {
      assert w[f..f + |token|][t] == w[f + t];
    }
    assert file[pos + f..pos + f + |token|] == token;
  }

  lemma {:induction false} SnapBounds(file: Bytes, token: Bytes, pos: nat)
    ensures 0 <= Snap(file, token, pos) <= |file|
    decreases |file| - pos
  {
    var w := Window(file, pos);
    if w != [] && Find(w, token) == -1 {
      SnapBounds(file, token, pos + MiniChunkSize);
    }
  }

  /** The search stops in the window at pos: the separator found there lies
    * wholly in it, and the occurrences before it do not. */
  lemma SnapHere(file: Bytes, token: Bytes, pos: nat)
    requires Window(file, pos) != [] && Find(Window(file, pos), token) != -1
    ensures var r := Snap(file, token, pos);
      pos <= r && OccursAt(file, token, r) && !Straddles(pos, r, |token|)
    ensures forall j :: pos <= j < Snap(file, token, pos) && OccursAt(file, token, j) ==> Straddles(pos, j, |token|)
  {
    var w := Window(file, pos);
    var found := Find(w, token);
    if |token| == 0 {
      assert OccursAt(w, token, 0);
    }
    assert found + |token| <= MiniChunkSize;
    OccursInFile(file, token, pos, found);
    forall j | pos <= j < pos + found ensures !OccursAt(file, token, j) {
      if OccursAt(file, token, j) {
        WindowOccurs(file, token, pos, j);
      }
    }
  }

  /** The search moves past the window at pos: every occurrence starting in
    * that window runs past its end. */
  lemma SnapPast(file: Bytes, token: Bytes, pos: nat, j: int)
    requires Window(file, pos) != [] && Find(Window(file, pos), token) == -1
    requires pos <= j && OccursAt(file, token, j)
    requires pos + MiniChunkSize <= j ==> Straddles(pos + MiniChunkSize, j, |token|)
    ensures Straddles(pos, j, |token|)
  {
    var next := pos + MiniChunkSize;
    if j < next {
      if j + |token| <= next {
        WindowOccurs(file, token, pos, j);
        assert false;
      }
    } else {
      StraddlesNext(pos, j, |token|);
    }
  }

  /** Past the first window, straddling is measured the same from either start. */
  lemma StraddlesNext(pos: int, j: int, len: int)
    requires pos + MiniChunkSize <= j
    ensures Straddles(pos, j, len) == Straddles(pos + MiniChunkSize, j, len)
  {
    assert (j - pos) / MiniChunkSize == (j - (pos + MiniChunkSize)) / MiniChunkSize + 1;
  }

  /** The boundary search from pos ends at the end of the file or at an
    * occurrence of the separator at or after pos that lies wholly inside
    * its window; every occurrence it passes over straddles two windows. */
  lemma {:induction false} SnapSpec(file: Bytes, token: Bytes, pos: nat)
    ensures var r := Snap(file, token, pos);
      r == |file| || (pos <= r && OccursAt(file, token, r) && !Straddles(pos, r, |token|))
    ensures forall j :: pos <= j < Snap(file, token, pos) && OccursAt(file, token, j) ==> Straddles(pos, j, |token|)
    decreases |file| - pos
  {
    var w := Window(file, pos);
    if w != [] {
      if Find(w, token) != -1 {
        SnapHere(file, token, pos);
      } else {
        var next := pos + MiniChunkSize;
        SnapSpec(file, token, next);
        var r := Snap(file, token, next);
        assert Snap(file, token, pos) == r;
        if r != |file| {
          StraddlesNext(pos, r, |token|);
        }
        forall j | pos <= j < r && OccursAt(file, token, j)
          ensures Straddles(pos, j, |token|)
        {
          SnapPast(file, token, pos, j);
        }
      }
    }
  }

  /** The initial guess for boundary i: i times the even chunk size. */
  function Guess(size: nat, n: nat, i: nat): nat
    requires 0 < n
  {
    i * (size / n)
  }

  /** The value `chunk_boundaries[i]` ends with: the two ends stay, each
    * interior guess i * chunk_size is moved to where its search ends. */
  function Boundary(file: Bytes, n: nat, token: Bytes, i: nat): int
    requires 0 < n
  {
    if i == 0 then 0
    else if i >= n then |file|
    else Snap(file, token, Guess(|file|, n, i))
  }

  /** The value `chunk_bu_boundaries[i]` ends with. */
  function BackupBoundary(file: Bytes, n: nat, token: Bytes, i: nat): int
    requires 0 < n
  {
    if i == 0 then 0
    else if i >= n then |file|
    else BackupFrom(file, token, Guess(|file|, n, i), Guess(|file|, n, i))
  }

  // ---------------------------------------------------------------------
  // sorted(set(...))
  // ---------------------------------------------------------------------

  predicate Increasing(s: seq<int>)
  {
    forall i, j :: 0 <= i < j < |s| ==> s[i] < s[j]
  }

  function Insert(s: seq<int>, x: int): (r: seq<int>)
    requires Increasing(s)
    ensures Increasing(r)
    ensures forall y :: y in r <==> y in s || y == x
    ensures |r| <= |s| + 1
  {
    if s == [] then [x]
    else if x < s[0] then [x] + s
    else if x == s[0] then s
    else
      var tail := Insert(s[1..], x);
      assert forall y :: y in tail ==> s[0] < y;
      PrependIncreasing(s[0], tail);
      [s[0]] + tail
  }

  lemma PrependIncreasing(x: int, s: seq<int>)
    requires Increasing(s) && forall y :: y in s ==> x < y
    ensures Increasing([x] + s)
  {
    var r := [x] + s;
    forall i, j | 0 <= i < j < |r| ensures r[i] < r[j] {
      assert r[j] == s[j - 1] && s[j - 1] in s;
      if i > 0 {
        assert r[i] == s[i - 1];
      }
    }
  }

  /** `sorted(set(s))`: the distinct elements of s in increasing order. */
  function SortedUnique(s: seq<int>): (r: seq<int>)
    ensures Increasing(r)
    ensures forall y :: y in r <==> y in s
    ensures |r| <= |s|
  {
    if s == [] then []
    else Insert(SortedUnique(s[..|s| - 1]), s[|s| - 1])
  }

  /** An increasing sequence is fixed by its elements, so SortedUnique is
    * the only answer `sorted(set(s))` can give. */
  lemma {:induction false} IncreasingUnique(a: seq<int>, b: seq<int>)
    requires Increasing(a) && Increasing(b)
    requires forall y :: y in a <==> y in b
    ensures a == b
    decreases |a|
  {
    if a != [] {
      assert a[0] in a;
    }
    if b != [] {
      assert b[0] in b;
    }
    if a != [] && b != [] {
      assert a[0] == b[0] by {
        assert a[0] in b && b[0] in a;
      }
      forall y ensures y in a[1..] <==> y in b[1..] {
        if y in a[1..] {
          assert y in b && y != b[0];
        }
        if y in b[1..] {
          assert y in a && y != a[0];
        }
      }
      IncreasingUnique(a[1..], b[1..]);
      assert a == [a[0]] + a[1..] && b == [b[0]] + b[1..];
    }
  }

  // ---------------------------------------------------------------------
  // find_chunk_boundaries
  // ---------------------------------------------------------------------

  /** Cuts the file into at most n chunks. The interior guesses i * chunk_size
    * are moved forward to the separator, and the ends 0 and the file size
    * stay. The result is the sorted list of distinct boundaries, so chunks
    * whose boundaries coincide are merged. `backups` is the list of ".\n"
    * fallbacks the search also records; it never reaches the result. */
  method FindChunkBoundaries(file: Bytes, n: nat, token: Bytes) returns (boundaries: seq<int>, backups: seq<int>)
    requires 0 < n
    ensures Increasing(boundaries)
    ensures forall x :: x in boundaries <==> exists i :: 0 <= i <= n && x == Boundary(file, n, token, i)
    ensures 1 <= |boundaries| <= n + 1
    ensures boundaries[0] == 0 && boundaries[|boundaries| - 1] == |file|
    ensures |backups| == n + 1 && forall i :: 0 <= i <= n ==> backups[i] == BackupBoundary(file, n, token, i)
  {
    var fileSize := |file|;
    var chunkBoundaries := new int[n + 1](i requires 0 <= i => Guess(fileSize, n, i));
    chunkBoundaries[n] := fileSize;
    var buBoundaries := new int[n + 1](i reads chunkBoundaries requires 0 <= i < chunkBoundaries.Length => chunkBoundaries[i]);
    for bi := 1 to n
      invariant Searched(file, n, token, chunkBoundaries[..], buBoundaries[..], bi)
    {
      ghost var chunks, backups := chunkBoundaries[..], buBoundaries[..];
      var boundary, backup := SearchFrom(file, token, chunkBoundaries[bi]);
      chunkBoundaries[bi] := boundary;
      buBoundaries[bi] := backup;
      SearchedStep(file, n, token, chunks, backups, bi, boundary, backup);
      assert chunkBoundaries[..] == chunks[bi := boundary];
      assert buBoundaries[..] == backups[bi := backup];
    }
    assert Searched(file, n, token, chunkBoundaries[..], buBoundaries[..], n);
    boundaries := SortedUnique(chunkBoundaries[..]);
    backups := buBoundaries[..];
    BoundariesSpec(file, n, token, chunkBoundaries[..], boundaries);
    SearchedEnd(file, n, token, chunkBoundaries[..], backups);
  }

  /** The two lists after the guesses before k were searched: those are
    * final, the later interior ones still hold their guess, and both lists
    * end with the file size. */
  ghost predicate Searched(file: Bytes, n: nat, token: Bytes, chunks: seq<int>, backups: seq<int>, k: nat)
    requires 0 < n
  {
    |chunks| == |backups| == n + 1 && 1 <= k <= n
    && (forall i :: 0 <= i < k ==> chunks[i] == Boundary(file, n, token, i))
    && (forall i :: 0 <= i < k ==> backups[i] == BackupBoundary(file, n, token, i))
    && (forall i :: k <= i < n ==> chunks[i] == Guess(|file|, n, i) && backups[i] == Guess(|file|, n, i))
    && chunks[n] == backups[n] == |file|
  }

  lemma SearchedStep(file: Bytes, n: nat, token: Bytes, chunks: seq<int>, backups: seq<int>, k: nat,
                     boundary: int, backup: int)
    requires 0 < n && Searched(file, n, token, chunks, backups, k) && k < n
    requires boundary == Snap(file, token, Guess(|file|, n, k))
    requires backup == BackupFrom(file, token, Guess(|file|, n, k), Guess(|file|, n, k))
    ensures Searched(file, n, token, chunks[k := boundary], backups[k := backup], k + 1)
  {
  }

  lemma SearchedEnd(file: Bytes, n: nat, token: Bytes, chunks: seq<int>, backups: seq<int>)
    requires 0 < n && Searched(file, n, token, chunks, backups, n)
    ensures |backups| == n + 1 && forall i :: 0 <= i <= n ==> backups[i] == BackupBoundary(file, n, token, i)
    ensures |chunks| == n + 1 && forall i :: 0 <= i <= n ==> chunks[i] == Boundary(file, n, token, i)
  {
  }

  /** The inner loop's state after reading up to position: the boundary and
    * the backup it will reach are those of the search from guess. */
  ghost predicate Searching(file: Bytes, token: Bytes, guess: nat, position: nat, noBackup: bool, backup: int)
  {
    && guess <= position
    && Snap(file, token, position) == Snap(file, token, guess)
    && (noBackup ==> backup == guess && BackupFrom(file, token, position, guess) == BackupFrom(file, token, guess, guess))
    && (!noBackup ==> backup == BackupFrom(file, token, guess, guess))
  }

  /** One more window without the separator keeps the search state. */
  lemma SearchingNext(file: Bytes, token: Bytes, guess: nat, position: nat, noBackup: bool, backup: int,
                      position': nat, noBackup': bool, backup': int)
    requires Searching(file, token, guess, position, noBackup, backup)
    requires Window(file, position) != [] && Find(Window(file, position), token) == -1
    requires position' == position + MiniChunkSize
    requires noBackup' == (noBackup && Find(Window(file, position), BackupToken) == -1)
    requires backup' == if noBackup && !noBackup' then position + Find(Window(file, position), BackupToken) else backup
    ensures Searching(file, token, guess, position', noBackup', backup')
  {
    assert Snap(file, token, position) == Snap(file, token, position');
    if noBackup {
      assert BackupFrom(file, token, position, guess) ==
        if !noBackup' then backup' else BackupFrom(file, token, position', guess);
    }
  }

  /** Where the search state stops: at the end of the file or at the window
    * holding the separator, with the backup already final. */
  lemma SearchingEnd(file: Bytes, token: Bytes, guess: nat, position: nat, noBackup: bool, backup: int)
    requires Searching(file, token, guess, position, noBackup, backup)
    requires Window(file, position) == [] || Find(Window(file, position), token) != -1
    ensures Window(file, position) == [] ==> Snap(file, token, guess) == |file|
    ensures Window(file, position) != [] ==> Snap(file, token, guess) == position + Find(Window(file, position), token)
    ensures backup == BackupFrom(file, token, guess, guess)
  {
    if noBackup {
      assert BackupFrom(file, token, position, guess) == guess;
    }
  }

  /** The inner loop of find_chunk_boundaries: reads the file 4096 bytes at
    * a time from the guess on, stops at the first window holding the
    * separator (or at the end of the file), and remembers where ".\n" was
    * first seen on the way. */
  method SearchFrom(file: Bytes, token: Bytes, guess: nat) returns (boundary: int, backup: int)
    ensures boundary == Snap(file, token, guess)
    ensures backup == BackupFrom(file, token, guess, guess)
  {
    var fileSize := |file|;
    var noBackup := true;
    var position: nat := guess;
    backup := guess;
    while true
      invariant Searching(file, token, guess, position, noBackup, backup)
      decreases fileSize - position
    {
      var miniChunk := Window(file, position);
      if miniChunk == [] {
        SearchingEnd(file, token, guess, position, noBackup, backup);
        boundary := fileSize;
        break;
      }
      var foundAt := Find(miniChunk, token);
      if foundAt != -1 {
        SearchingEnd(file, token, guess, position, noBackup, backup);
        boundary := position + foundAt;
        break;
      }
      ghost var position0, noBackup0, backup0 := position, noBackup, backup;
      if noBackup {
        var foundBu := Find(miniChunk, BackupToken);
        if foundBu != -1 {
          backup := position + foundBu;
          noBackup := false;
        }
      }
      position := position + MiniChunkSize;
      SearchingNext(file, token, guess, position0, noBackup0, backup0, position, noBackup, backup);
    }
  }

  /** What sorting the distinct final guesses yields. */
  lemma BoundariesSpec(file: Bytes, n: nat, token: Bytes, all: seq<int>, boundaries: seq<int>)
    requires 0 < n && |all| == n + 1
    requires forall i :: 0 <= i <= n ==> all[i] == Boundary(file, n, token, i)
    requires boundaries == SortedUnique(all)
    ensures Increasing(boundaries)
    ensures forall x :: x in boundaries <==> exists i :: 0 <= i <= n && x == Boundary(file, n, token, i)
    ensures 1 <= |boundaries| <= n + 1
    ensures boundaries[0] == 0 && boundaries[|boundaries| - 1] == |file|
  {
    BoundariesEnds(file, n, token, all, boundaries);
    forall x ensures x in boundaries <==> exists i :: 0 <= i <= n && x == Boundary(file, n, token, i) {
      if x in boundaries {
        assert x in all;
        var i :| 0 <= i < |all| && all[i] == x;
        assert 0 <= i <= n && x == Boundary(file, n, token, i);
      }
      if exists i :: 0 <= i <= n && x == Boundary(file, n, token, i) {
        var i :| 0 <= i <= n && x == Boundary(file, n, token, i);
        assert all[i] in all;
      }
    }
  }

  lemma BoundaryBounds(file: Bytes, n: nat, token: Bytes, i: nat)
    requires 0 < n
    ensures 0 <= Boundary(file, n, token, i) <= |file|
  {
    if 0 < i < n {
      SnapBounds(file, token, Guess(|file|, n, i));
    }
  }

  /** The sorted boundaries start at 0 and end at the file size. */
  lemma BoundariesEnds(file: Bytes, n: nat, token: Bytes, all: seq<int>, boundaries: seq<int>)
    requires 0 < n && |all| == n + 1
    requires forall i :: 0 <= i <= n ==> all[i] == Boundary(file, n, token, i)
    requires Increasing(boundaries) && forall y :: y in boundaries <==> y in all
    ensures |boundaries| >= 1 && boundaries[0] == 0 && boundaries[|boundaries| - 1] == |file|
  {
    forall i | 0 <= i <= n ensures 0 <= all[i] <= |file| {
      BoundaryBounds(file, n, token, i);
    }
    assert all[0] == 0 && all[n] == |file|;
    assert all[0] in all && all[n] in all;
    var k :| 0 <= k < |boundaries| && boundaries[k] == 0;
    var m :| 0 <= m < |boundaries| && boundaries[m] == |file|;
    var first := boundaries[0];
    var last := boundaries[|boundaries| - 1];
    assert first in all && last in all;
  }

  // ---------------------------------------------------------------------
  // Adding up the workers' word counts
  // ---------------------------------------------------------------------

  /** The word occurs in one of the tables. */
  predicate InSome(tables: seq<map<Word, int>>, w: Word)
    decreases |tables|
  {
    tables != [] && (InSome(tables[..|tables| - 1], w) || w in tables[|tables| - 1])
  }

  /** The total count of the word over all tables. */
  function SumAt(tables: seq<map<Word, int>>, w: Word): int
    decreases |tables|
  {
    if tables == [] then 0 else SumAt(tables[..|tables| - 1], w) + Get(tables[|tables| - 1], w)
  }

  lemma {:induction false} InSomeIff(tables: seq<map<Word, int>>, w: Word)
    ensures InSome(tables, w) <==> exists i :: 0 <= i < |tables| && w in tables[i]
    decreases |tables|
  {
    if tables != [] {
      var front := tables[..|tables| - 1];
      InSomeIff(front, w);
      if exists i :: 0 <= i < |front| && w in front[i] {
        var i :| 0 <= i < |front| && w in front[i];
        assert w in tables[i];
      }
    }
  }

  lemma {:induction false} SumAtAbsent(tables: seq<map<Word, int>>, w: Word)
    requires !InSome(tables, w)
    ensures SumAt(tables, w) == 0
    decreases |tables|
  {
    if tables != [] {
      SumAtAbsent(tables[..|tables| - 1], w);
    }
  }

  /** The table at position j can be taken out of the sum first. */
  lemma {:induction false} SumAtRemove(tables: seq<map<Word, int>>, j: nat, w: Word)
    requires j < |tables|
    ensures SumAt(tables, w) == Get(tables[j], w) + SumAt(tables[..j] + tables[j + 1..], w)
    decreases |tables|
  {
    var last := |tables| - 1;
    if j < last {
      var front := tables[..last];
      SumAtRemove(front, j, w);
      var rest := tables[..j] + tables[j + 1..];
      assert rest[..|rest| - 1] == front[..j] + front[j + 1..];
      assert rest[|rest| - 1] == tables[last];
    } else {
      assert tables[..j] + tables[j + 1..] == tables[..last];
    }
  }

  lemma MultisetRemoveAt(s: seq<map<Word, int>>, j: nat)
    requires j < |s|
    ensures multiset(s[..j] + s[j + 1..]) == multiset(s) - multiset{s[j]}
  {
    assert s == s[..j] + [s[j]] + s[j + 1..];
  }

  /** The order in which the workers' tables are added does not matter. */
  lemma {:induction false} SumAtPermutation(a: seq<map<Word, int>>, b: seq<map<Word, int>>, w: Word)
    requires multiset(a) == multiset(b)
    ensures SumAt(a, w) == SumAt(b, w)
    decreases |a|
  {
    if a != [] {
      var last := |a| - 1;
      assert a[last] in multiset(b);
      var j :| 0 <= j < |b| && b[j] == a[last];
      var rest := b[..j] + b[j + 1..];
      MultisetRemoveAt(b, j);
      MultisetRemoveAt(a, last);
      assert a[..last] + a[last + 1..] == a[..last];
      SumAtPermutation(a[..last], rest, w);
      SumAtRemove(b, j, w);
    } else {
      assert |b| == |multiset(b)| == 0;
    }
  }

  /** The merge at the end of pretokenize_file: start from the first
    * worker's table and add every other table into it, key by key. With no
    * tables (an empty file gives no chunks) indexing the first one fails. */
  method AggregateCounts(collected: seq<map<Word, int>>) returns (r: Option<map<Word, int>>)
    ensures r.None? <==> collected == []
    ensures r.Some? ==> forall w :: w in r.value <==> InSome(collected, w)
    ensures r.Some? ==> forall w :: w in r.value ==> r.value[w] == SumAt(collected, w)
  {
    if collected == [] {
      return None;
    }
    var counts := collected[0];
    assert collected[..1][..0] == [];
    for i := 1 to |collected|
      invariant forall w :: w in counts <==> InSome(collected[..i], w)
      invariant forall w :: w in counts ==> counts[w] == SumAt(collected[..i], w)
    {
      var d := collected[i];
      ghost var before := counts;
      var todo := d.Keys;
      while todo != {}
        invariant todo <= d.Keys
        invariant forall w :: w in counts <==> w in before || (w in d && w !in todo)
        invariant forall w :: w in counts ==> counts[w] == Get(before, w) + (if w in d && w !in todo then d[w] else 0)
        decreases todo
      {
        var k :| k in todo;
        counts := counts[k := Get(counts, k) + d[k]];
        todo := todo - {k};
      }
      assert collected[..i + 1][..i] == collected[..i];
      forall w | w in counts ensures counts[w] == SumAt(collected[..i + 1], w) {
        if w !in before {
          SumAtAbsent(collected[..i], w);
        }
      }
    }
    assert collected[..|collected|] == collected;
    return Some(counts);
  }
}
