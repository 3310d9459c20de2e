/**
 The resume similarity store: an index of embedding vectors kept in lockstep
 with a list of metadata records, one record per vector, addressed by position.

 A store is an immutable value; every mutating operation returns the new
 store. Persistence to disk is not part of the model.
 */
module VectorStore {
  import opened FlatIndex
  import opened Scoring

  /** Characters kept of a resume's text in its record. */
  const PREVIEW_LENGTH: nat := 1000

  /** Default relevance threshold of a search. */
  const MIN_SCORE: real := 0.4

  /** How many candidates are fetched per requested result. */
  const OVERFETCH: int := 5

  /** One metadata record: `{id, filename, text}`. */
  datatype Record = Record(id: nat, filename: string, text: string)

  /** The index (one vector per position) and the metadata list. */
  datatype Store = Store(index: seq<Embedding>, meta: seq<Record>)

  /** One search result: a copy of the record with its score attached. */
  datatype Hit = Hit(record: Record, score: real)

  datatype Error =
    | DimensionMismatch  // a vector whose length is not DIMENSION reached the index
    | NonPositiveCount   // the index was asked for k <= 0 neighbours

  datatype Result<T> = Ok(value: T) | Err(error: Error)

  /** Outcome of a deletion: whether anything was removed, and the new store. */
  datatype Deletion = Deletion(deleted: bool, store: Store)

  /** The store invariant: as many records as vectors, and record `i`
      carries id `i`. */
  predicate Valid(s: Store) {
    && |s.index| == |s.meta|
    && forall i :: 0 <= i < |s.meta| ==> s.meta[i].id == i
  }

  function Min(a: int, b: int): int {
    if a < b then a else b
  }

  /** `text[:1000]` */
  function Preview(text: string): (p: string)
    ensures |p| == Min(|text|, PREVIEW_LENGTH)
    ensures p == text[..|p|]
  {
    if |text| <= PREVIEW_LENGTH then text else text[..PREVIEW_LENGTH]
  }

  /** An empty index and an empty metadata list. */
  function Empty(): (s: Store)
    ensures Valid(s)
    ensures |s.index| == 0 && |s.meta| == 0
  {
    Store([], [])
  }

  /* ---------------------------------------------------------------------- */
  /* add_resume                                                             */
  /* ---------------------------------------------------------------------- */

  /** `add_resume`: appends the vector and a record whose id is the new
      vector's position. A vector of the wrong length is refused by the index
      before anything changes. */
  function Add(s: Store, filename: string, text: string, embedding: seq<real>): (r: Result<Store>)
    ensures r.Err? <==> |embedding| != DIMENSION
    ensures r.Err? ==> r.error == DimensionMismatch
    ensures r.Ok? ==>
      && |r.value.index| == |s.index| + 1
      && |r.value.meta| == |s.meta| + 1
      && r.value.index[..|s.index|] == s.index
      && r.value.meta[..|s.meta|] == s.meta
      && r.value.index[|s.index|] == embedding
      && r.value.meta[|s.meta|].id == |r.value.index| - 1
      && r.value.meta[|s.meta|].filename == filename
      && r.value.meta[|s.meta|].text == Preview(text)
    ensures r.Ok? && Valid(s) ==> Valid(r.value) && r.value.meta[|s.meta|].id == |s.meta|
  {
    if |embedding| != DIMENSION then Err(DimensionMismatch)
    else
      var index' := s.index + [embedding];
      Ok(Store(index', s.meta + [Record(|index'| - 1, filename, Preview(text))]))
  }

  /* ---------------------------------------------------------------------- */
  /* search_resumes                                                         */
  /* ---------------------------------------------------------------------- */

  /** `min(top_k * 5, index.ntotal)` */
  function FetchCount(topK: int, n: nat): (k: int)
    ensures k <= n
    ensures k <= OVERFETCH * topK
    ensures k == n || k == OVERFETCH * topK
  {
    Min(topK * OVERFETCH, n)
  }

  /** The answer of the index's own k-nearest search, as the store receives
      it: only asked for when the store is non-empty, the query has the right
      length and the count is positive. */
  predicate CandidatesFor(s: Store, q: Vector, topK: int, cands: seq<Neighbor>) {
    |s.index| == 0 || |q| != DIMENSION || FetchCount(topK, |s.index|) <= 0 ||
    IsKNearest(s.index, q, FetchCount(topK, |s.index|), cands)
  }

  /** Candidates that point into the metadata list with a valid distance. */
  predicate InRange(meta: seq<Record>, cands: seq<Neighbor>) {
    forall j :: 0 <= j < |cands| ==> cands[j].pos < |meta| && cands[j].dist >= 0.0
  }

  /** Candidates come nearest first. */
  predicate NearestFirst(cands: seq<Neighbor>) {
    forall i, j :: 0 <= i < j < |cands| ==> cands[i].dist <= cands[j].dist
  }

  /** Results come in non-increasing score order. */
  predicate SortedByScore(hs: seq<Hit>) {
    forall i, j :: 0 <= i < j < |hs| ==> hs[i].score >= hs[j].score
  }

  predicate AllAtLeast(hs: seq<Hit>, minScore: real) {
    forall i :: 0 <= i < |hs| ==> hs[i].score >= minScore
  }

  /** The result row for one candidate. */
  function HitFor(meta: seq<Record>, c: Neighbor): Hit
    requires c.pos < |meta| && c.dist >= 0.0
  {
    Hit(meta[c.pos], Score(c.dist))
  }

  /** Reference filter: the result row of every candidate that reaches the
      threshold, in candidate order, with no cap. */
  function Qualifying(meta: seq<Record>, cands: seq<Neighbor>, minScore: real): (hs: seq<Hit>)
    requires InRange(meta, cands)
    ensures |hs| <= |cands|
    ensures AllAtLeast(hs, minScore)
    decreases |cands|
  {
    if |cands| == 0 then []
    else
      var h := HitFor(meta, cands[0]);
      (if h.score >= minScore then [h] else []) + Qualifying(meta, cands[1..], minScore)
  }

  /** The first `topK` qualifying rows (all of them when there are fewer). */
  function FirstQualifying(meta: seq<Record>, cands: seq<Neighbor>, topK: nat, minScore: real): seq<Hit>
    requires InRange(meta, cands)
  {
    var qs := Qualifying(meta, cands, minScore);
    qs[..Min(topK, |qs|)]
  }

  /** The loop of `search_resumes`: visit the candidates in order, keep those
      whose score reaches `minScore`, and stop as soon as `topK` are kept. */
  function Collect(meta: seq<Record>, cands: seq<Neighbor>, topK: int, minScore: real,
                   acc: seq<Hit>): (hs: seq<Hit>)
    requires InRange(meta, cands)
    requires |acc| < topK
    ensures |hs| <= topK
    ensures |acc| <= |hs| && hs[..|acc|] == acc
    ensures AllAtLeast(acc, minScore) ==> AllAtLeast(hs, minScore)
    decreases |cands|
  {
    if |cands| == 0 then acc
    else
      var h := HitFor(meta, cands[0]);
      var acc' := if h.score >= minScore then acc + [h] else acc;
      if |acc'| >= topK then acc'
      else Collect(meta, cands[1..], topK, minScore, acc')
  }

  /** Inserts `h` before the first element whose score is not above it, which
      keeps equal scores in their original order. */
  function InsertByScore(h: Hit, hs: seq<Hit>): (r: seq<Hit>)
    requires SortedByScore(hs)
    ensures SortedByScore(r)
    ensures multiset(r) == multiset(hs) + multiset{h}
    ensures |r| == |hs| + 1
    ensures |hs| > 0 ==> r[0] == h || r[0] == hs[0]
    ensures (|hs| == 0 || h.score >= hs[0].score) ==> r == [h] + hs
    decreases |hs|
  {
    if |hs| == 0 || h.score >= hs[0].score then
      SortedCons(h, hs);
      [h] + hs
    else
      var rest := InsertByScore(h, hs[1..]);
      assert hs == [hs[0]] + hs[1..];
      SortedCons(hs[0], rest);
      [hs[0]] + rest
  }

  /** A row scoring at least the head of a sorted list may go in front. */
  lemma SortedCons(x: Hit, hs: seq<Hit>)
    requires SortedByScore(hs)
    requires |hs| > 0 ==> x.score >= hs[0].score
    ensures SortedByScore([x] + hs)
  {
    var r := [x] + hs;
    forall i, j | 0 <= i < j < |r| ensures r[i].score >= r[j].score {
      assert r[j] == hs[j - 1];
      if i > 0 {
        assert r[i] == hs[i - 1];
      }
    }
  }

  /** `results.sort(key=score, reverse=True)`: a sort into descending score
      order. */
  function SortByScore(hs: seq<Hit>): (r: seq<Hit>)
    ensures SortedByScore(r)
    ensures multiset(r) == multiset(hs)
    ensures |r| == |hs|
    decreases |hs|
  {
    if |hs| == 0 then []
    else
      var rest := SortByScore(hs[1..]);
      assert hs == [hs[0]] + hs[1..];
      InsertByScore(hs[0], rest)
  }

  /** The rows of a search: `search_resumes` after its early returns. */
  function Rows(s: Store, topK: int, minScore: real, cands: seq<Neighbor>): seq<Hit>
    requires InRange(s.meta, cands)
    requires topK >= 1
  {
    SortByScore(Collect(s.meta, cands, topK, minScore, []))
  }

  /** `search_resumes`. The candidates are the index's answer to a search for
      the `min(top_k * 5, N)` nearest vectors. */
  function Search(s: Store, q: Vector, topK: int, minScore: real, cands: seq<Neighbor>): (r: Result<seq<Hit>>)
    requires Valid(s)
    requires CandidatesFor(s, q, topK, cands)
    ensures |s.index| == 0 ==> r == Ok([])
    ensures |s.index| > 0 && |q| != DIMENSION ==> r == Err(DimensionMismatch)
    ensures |s.index| > 0 && |q| == DIMENSION && topK <= 0 ==> r == Err(NonPositiveCount)
    ensures |s.index| > 0 && |q| == DIMENSION && topK > 0 ==> r.Ok?
    ensures r.Ok? ==> |r.value| <= topK || r.value == []
    ensures r.Ok? ==> AllAtLeast(r.value, minScore)
    ensures r.Ok? ==> SortedByScore(r.value)
    ensures r.Ok? ==> forall h :: h in r.value ==>
              && h.record.id < |s.meta|
              && s.meta[h.record.id] == h.record
              && h.score == Score(SqDist(q, s.index[h.record.id]))
    ensures r.Ok? && |s.index| > 0 ==>
              topK > 0 && InRange(s.meta, cands) && r.value == FirstQualifying(s.meta, cands, topK, minScore)
  {
    if |s.index| == 0 then Ok([])
    else if |q| != DIMENSION then Err(DimensionMismatch)
    else
      var k := FetchCount(topK, |s.index|);
      if k <= 0 then Err(NonPositiveCount)
      else
        assert InRange(s.meta, cands) by {
          CandidatesAreInRange(s, q, k, cands);
        }
        var hs := Rows(s, topK, minScore, cands);
        assert hs == FirstQualifying(s.meta, cands, topK, minScore) &&
               SortedByScore(hs) && AllAtLeast(hs, minScore) && |hs| <= topK by {
          SortKeepsCollected(s.meta, cands, topK, minScore);
        }
        assert forall h :: h in hs ==>
          && h.record.id < |s.meta|
          && s.meta[h.record.id] == h.record
          && h.score == Score(SqDist(q, s.index[h.record.id])) by {
          HitsAreTrue(s, q, topK, minScore, cands);
        }
        Ok(hs)
  }

  /* ---------------------------------------------------------------------- */
  /* Properties of search                                                   */
  /* ---------------------------------------------------------------------- */

  lemma CandidatesAreInRange(s: Store, q: Vector, k: nat, cands: seq<Neighbor>)
    requires Valid(s) && IsKNearest(s.index, q, k, cands)
    ensures InRange(s.meta, cands)
  {
  }

  /** The capped loop equals "filter, then keep the first `topK`". */
  lemma {:induction false} CollectIsCappedFilter(meta: seq<Record>, cands: seq<Neighbor>, topK: int,
                                                 minScore: real, acc: seq<Hit>)
    requires InRange(meta, cands)
    requires |acc| < topK
    ensures var q := Qualifying(meta, cands, minScore);
            Collect(meta, cands, topK, minScore, acc) == acc + q[..Min(topK - |acc|, |q|)]
    decreases |cands|
  {
    if |cands| == 0 {
      assert acc + [][..0] == acc;
    } else {
      var h := HitFor(meta, cands[0]);
      if h.score >= minScore && |acc| + 1 >= topK {
        CollectLastStep(meta, cands, topK, minScore, acc);
      } else if h.score >= minScore {
        CollectIsCappedFilter(meta, cands[1..], topK, minScore, acc + [h]);
        CollectKeepStep(meta, cands, topK, minScore, acc);
      } else {
        CollectIsCappedFilter(meta, cands[1..], topK, minScore, acc);
        CollectSkipStep(meta, cands, topK, minScore, acc);
      }
    }
  }

  /** The candidate that fills the last free place ends the loop. */
  lemma CollectLastStep(meta: seq<Record>, cands: seq<Neighbor>, topK: int, minScore: real, acc: seq<Hit>)
    requires InRange(meta, cands) && |cands| > 0
    requires |acc| < topK && |acc| + 1 >= topK
    requires HitFor(meta, cands[0]).score >= minScore
    ensures var q := Qualifying(meta, cands, minScore);
            Collect(meta, cands, topK, minScore, acc) == acc + q[..Min(topK - |acc|, |q|)]
  {
    var h := HitFor(meta, cands[0]);
    var q := Qualifying(meta, cands, minScore);
    assert q == [h] + Qualifying(meta, cands[1..], minScore);
    assert q[..1] == [h];
  }

  /** A kept candidate with places still free: the loop goes on. */
  lemma CollectKeepStep(meta: seq<Record>, cands: seq<Neighbor>, topK: int, minScore: real, acc: seq<Hit>)
    requires InRange(meta, cands) && |cands| > 0
    requires |acc| + 1 < topK
    requires HitFor(meta, cands[0]).score >= minScore
    requires var q' := Qualifying(meta, cands[1..], minScore);
             Collect(meta, cands[1..], topK, minScore, acc + [HitFor(meta, cands[0])])
               == acc + [HitFor(meta, cands[0])] + q'[..Min(topK - |acc| - 1, |q'|)]
    ensures var q := Qualifying(meta, cands, minScore);
            Collect(meta, cands, topK, minScore, acc) == acc + q[..Min(topK - |acc|, |q|)]
  {
    var h := HitFor(meta, cands[0]);
    var q' := Qualifying(meta, cands[1..], minScore);
    var n' := Min(topK - |acc| - 1, |q'|);
    assert Collect(meta, cands, topK, minScore, acc) == Collect(meta, cands[1..], topK, minScore, acc + [h]);
    assert Qualifying(meta, cands, minScore) == [h] + q';
    assert Min(topK - |acc|, |q'| + 1) == n' + 1;
    ExtendPrefix(acc, h, q', n');
  }

  lemma ExtendPrefix<T>(acc: seq<T>, h: T, q: seq<T>, n: nat)
    requires n <= |q|
    ensures acc + [h] + q[..n] == acc + ([h] + q)[..n + 1]
  {
    assert ([h] + q)[..n + 1] == [h] + q[..n];
  }

  /** A candidate below the threshold is passed over. */
  lemma CollectSkipStep(meta: seq<Record>, cands: seq<Neighbor>, topK: int, minScore: real, acc: seq<Hit>)
    requires InRange(meta, cands) && |cands| > 0
    requires |acc| < topK
    requires HitFor(meta, cands[0]).score < minScore
    requires var q' := Qualifying(meta, cands[1..], minScore);
             Collect(meta, cands[1..], topK, minScore, acc) == acc + q'[..Min(topK - |acc|, |q'|)]
    ensures var q := Qualifying(meta, cands, minScore);
            Collect(meta, cands, topK, minScore, acc) == acc + q[..Min(topK - |acc|, |q|)]
  {
    assert Collect(meta, cands, topK, minScore, acc) == Collect(meta, cands[1..], topK, minScore, acc);
    var q' := Qualifying(meta, cands[1..], minScore);
    assert [] + q' == q';
    assert Qualifying(meta, cands, minScore) == q';
  }

  /** No kept row scores above a distance that every candidate reaches. */
  lemma {:induction false} QualifyingScoresAtMost(meta: seq<Record>, cands: seq<Neighbor>,
                                                  minScore: real, d: real)
    requires InRange(meta, cands) && d >= 0.0
    requires forall j :: 0 <= j < |cands| ==> d <= cands[j].dist
    ensures forall h :: h in Qualifying(meta, cands, minScore) ==> h.score <= Score(d)
    decreases |cands|
  {
    if |cands| > 0 {
      ScoreAntitone(d, cands[0].dist);
      QualifyingScoresAtMost(meta, cands[1..], minScore, d);
    }
  }

  /** Candidates nearest first give rows in non-increasing score order. */
  lemma {:induction false} QualifyingSorted(meta: seq<Record>, cands: seq<Neighbor>, minScore: real)
    requires InRange(meta, cands) && NearestFirst(cands)
    ensures SortedByScore(Qualifying(meta, cands, minScore))
    decreases |cands|
  {
    if |cands| > 0 {
      var rest := cands[1..];
      var h := HitFor(meta, cands[0]);
      var q' := Qualifying(meta, rest, minScore);
      QualifyingSorted(meta, rest, minScore);
      QualifyingScoresAtMost(meta, rest, minScore, cands[0].dist);
      var q := (if h.score >= minScore then [h] else []) + q';
      assert Qualifying(meta, cands, minScore) == q;
      if h.score >= minScore {
        forall i, j | 0 <= i < j < |q| ensures q[i].score >= q[j].score {
          assert q[j] == q'[j - 1];
          if i > 0 {
            assert q[i] == q'[i - 1];
          }
        }
      }
    }
  }

  lemma SortedPrefix(hs: seq<Hit>, n: nat)
    requires SortedByScore(hs) && n <= |hs|
    ensures SortedByScore(hs[..n])
  {
  }

  lemma {:induction false} SortFixesSorted(hs: seq<Hit>)
    requires SortedByScore(hs)
    ensures SortByScore(hs) == hs
    decreases |hs|
  {
    if |hs| > 0 {
      SortFixesSorted(hs[1..]);
      assert hs == [hs[0]] + hs[1..];
    }
  }

  /** The final sort never reorders anything: the kept rows already come in
      descending score order because candidates come nearest first and the
      score falls as distance grows. The search result is exactly the first
      `topK` qualifying candidates. */
  lemma SortKeepsCollected(meta: seq<Record>, cands: seq<Neighbor>, topK: int, minScore: real)
    requires InRange(meta, cands) && NearestFirst(cands) && topK >= 1
    ensures var q := Qualifying(meta, cands, minScore);
            SortByScore(Collect(meta, cands, topK, minScore, [])) == q[..Min(topK, |q|)]
    ensures SortedByScore(SortByScore(Collect(meta, cands, topK, minScore, [])))
    ensures AllAtLeast(SortByScore(Collect(meta, cands, topK, minScore, [])), minScore)
    ensures |SortByScore(Collect(meta, cands, topK, minScore, []))| <= topK
  {
    var q := Qualifying(meta, cands, minScore);
    CollectIsCappedFilter(meta, cands, topK, minScore, []);
    assert [] + q[..Min(topK, |q|)] == q[..Min(topK, |q|)];
    QualifyingSorted(meta, cands, minScore);
    SortedPrefix(q, Min(topK, |q|));
    SortFixesSorted(q[..Min(topK, |q|)]);
  }

  lemma {:induction false} QualifyingAreTrue(s: Store, q: Vector, k: nat, cands: seq<Neighbor>, minScore: real)
    requires Valid(s) && SameDimension(s.index, q) && InRange(s.meta, cands)
    requires forall j :: 0 <= j < |cands| ==>
               cands[j].pos < |s.index| && cands[j].dist == SqDist(q, s.index[cands[j].pos])
    ensures forall h :: h in Qualifying(s.meta, cands, minScore) ==>
              && h.record.id < |s.meta|
              && s.meta[h.record.id] == h.record
              && h.score == Score(SqDist(q, s.index[h.record.id]))
    decreases |cands|
  {
    if |cands| > 0 {
      QualifyingAreTrue(s, q, k, cands[1..], minScore);
    }
  }

  /** Every row of a search is a stored record, unchanged, with the score
      of its own vector's distance to the query. */
  lemma HitsAreTrue(s: Store, q: Vector, topK: int, minScore: real, cands: seq<Neighbor>)
    requires Valid(s) && |s.index| > 0 && |q| == DIMENSION && FetchCount(topK, |s.index|) > 0
    requires IsKNearest(s.index, q, FetchCount(topK, |s.index|), cands)
    ensures topK >= 1 && InRange(s.meta, cands)
    ensures forall h :: h in Rows(s, topK, minScore, cands) ==>
              && h.record.id < |s.meta|
              && s.meta[h.record.id] == h.record
              && h.score == Score(SqDist(q, s.index[h.record.id]))
  {
    var qs := Qualifying(s.meta, cands, minScore);
    SortKeepsCollected(s.meta, cands, topK, minScore);
    QualifyingAreTrue(s, q, FetchCount(topK, |s.index|), cands, minScore);
    assert forall h :: h in qs[..Min(topK, |qs|)] ==> h in qs;
  }

  /** Threshold completeness: when fewer than `topK` rows come back, every
      fetched candidate whose score reaches the threshold is among them. */
  lemma SearchMissesNothingBelowCap(s: Store, q: Vector, topK: int, minScore: real,
                                    cands: seq<Neighbor>, j: nat)
    requires Valid(s) && CandidatesFor(s, q, topK, cands)
    requires Search(s, q, topK, minScore, cands).Ok?
    requires |Search(s, q, topK, minScore, cands).value| < topK
    requires j < |cands| && cands[j].pos < |s.meta| && cands[j].dist >= 0.0
    requires Score(cands[j].dist) >= minScore
    ensures HitFor(s.meta, cands[j]) in Search(s, q, topK, minScore, cands).value
  {
    var k := FetchCount(topK, |s.index|);
    assert IsKNearest(s.index, q, k, cands);
    CandidatesAreInRange(s, q, k, cands);
    var qs := Qualifying(s.meta, cands, minScore);
    var rows := Rows(s, topK, minScore, cands);
    assert Search(s, q, topK, minScore, cands) == Ok(rows);
    SortKeepsCollected(s.meta, cands, topK, minScore);
    assert rows == qs[..Min(topK, |qs|)];
    assert Min(topK, |qs|) == |qs|;
    assert qs[..|qs|] == qs;
    QualifyingContains(s.meta, cands, minScore, j);
  }

  lemma {:induction false} QualifyingContains(meta: seq<Record>, cands: seq<Neighbor>, minScore: real, j: nat)
    requires InRange(meta, cands) && j < |cands|
    requires Score(cands[j].dist) >= minScore
    ensures HitFor(meta, cands[j]) in Qualifying(meta, cands, minScore)
    decreases |cands|
  {
    if j > 0 {
      QualifyingContains(meta, cands[1..], minScore, j - 1);
      assert cands[1..][j - 1] == cands[j];
    }
  }

  /* ---------------------------------------------------------------------- */
  /* get_all_resumes, delete_resume, clear_all                              */
  /* ---------------------------------------------------------------------- */

  /** `get_all_resumes`: the metadata list itself. */
  function AllRecords(s: Store): (r: seq<Record>)
    requires Valid(s)
    ensures |r| == |s.index|
    ensures forall i :: 0 <= i < |r| ==> r[i].id == i
  {
    s.meta
  }

  /** `[m for m in meta if m["filename"] != filename]` */
  function Without(meta: seq<Record>, filename: string): (r: seq<Record>)
    ensures |r| <= |meta|
    ensures forall i :: 0 <= i < |r| ==> r[i].filename != filename
    ensures forall x :: x in r ==> x in meta
    decreases |meta|
  {
    if |meta| == 0 then []
    else (if meta[0].filename == filename then [] else [meta[0]]) + Without(meta[1..], filename)
  }

  /** Number of records carrying `filename`. */
  function Count(meta: seq<Record>, filename: string): nat
    decreases |meta|
  {
    if |meta| == 0 then 0
    else (if meta[0].filename == filename then 1 else 0) + Count(meta[1..], filename)
  }

  predicate Mentions(meta: seq<Record>, filename: string) {
    exists i :: 0 <= i < |meta| && meta[i].filename == filename
  }

  /** Re-assigns ids `0..n-1` in order (`entry["id"] = i`). */
  function Renumber(meta: seq<Record>): (r: seq<Record>)
    ensures |r| == |meta|
    ensures forall i :: 0 <= i < |r| ==> r[i] == meta[i].(id := i)
  {
    seq(|meta|, i requires 0 <= i < |meta| => meta[i].(id := i))
  }

  /** Embeds every record's stored preview text, in order. */
  function Reembed(meta: seq<Record>, embed: string -> Embedding): (vs: seq<Embedding>)
    ensures |vs| == |meta|
    ensures forall i :: 0 <= i < |vs| ==> vs[i] == embed(meta[i].text)
  {
    var vs := seq(|meta|, i requires 0 <= i < |meta| => embed(meta[i].text));
    assert forall i :: 0 <= i < |vs| ==> |vs[i]| == DIMENSION by {
      forall i | 0 <= i < |vs| ensures |vs[i]| == DIMENSION {
        var e: Embedding := embed(meta[i].text);
      }
    }
    vs
  }

  /** `delete_resume`: drops every record with the filename and rebuilds the
      index by re-embedding the surviving records' stored text. When nothing
      matches, the answer is `false` and the store is left as it was. */
  function Delete(s: Store, filename: string, embed: string -> Embedding): (r: Deletion)
    ensures r.deleted <==> Mentions(s.meta, filename)
    ensures !r.deleted ==> r.store == s
    ensures r.deleted ==> Valid(r.store)
    ensures r.deleted ==> |r.store.meta| == |s.meta| - Count(s.meta, filename)
    ensures r.deleted ==> !Mentions(r.store.meta, filename)
    ensures r.deleted ==> forall i :: 0 <= i < |r.store.meta| ==>
              r.store.index[i] == embed(r.store.meta[i].text)
  {
    var survivors := Without(s.meta, filename);
    WithoutLength(s.meta, filename);
    if |survivors| == |s.meta| then Deletion(false, s)
    else
      var meta' := Renumber(survivors);
      Deletion(true, Store(Reembed(meta', embed), meta'))
  }

  /** `clear_all`: an empty index and an empty metadata list. */
  function Clear(): (s: Store)
    ensures Valid(s)
    ensures |s.index| == 0 && |s.meta| == 0
  {
    Empty()
  }

  /* ---------------------------------------------------------------------- */
  /* Properties of delete                                                   */
  /* ---------------------------------------------------------------------- */

  /** The filter drops exactly the records with the filename, so the length
      is unchanged exactly when none carries it. */
  lemma {:induction false} WithoutLength(meta: seq<Record>, filename: string)
    ensures |Without(meta, filename)| == |meta| - Count(meta, filename)
    ensures Count(meta, filename) > 0 <==> Mentions(meta, filename)
    decreases |meta|
  {
    if |meta| > 0 {
      WithoutLength(meta[1..], filename);
      if Mentions(meta[1..], filename) {
        var i :| 0 <= i < |meta[1..]| && meta[1..][i].filename == filename;
        assert meta[i + 1].filename == filename;
      }
      if Mentions(meta, filename) && meta[0].filename != filename {
        var i :| 0 <= i < |meta| && meta[i].filename == filename;
        assert meta[1..][i - 1].filename == filename;
      }
    }
  }

  /** The filter keeps survivors in their original order: filtering a
      concatenation filters each part. */
  lemma {:induction false} WithoutDistributes(a: seq<Record>, b: seq<Record>, filename: string)
    ensures Without(a + b, filename) == Without(a, filename) + Without(b, filename)
    decreases |a|
  {
    if |a| == 0 {
      assert a + b == b;
    } else {
      assert (a + b)[1..] == a[1..] + b;
      WithoutDistributes(a[1..], b, filename);
    }
  }

  /** Every record with another filename survives a deletion (with a new id). */
  lemma {:induction false} WithoutKeepsOthers(meta: seq<Record>, filename: string, x: Record)
    requires x in meta && x.filename != filename
    ensures x in Without(meta, filename)
    decreases |meta|
  {
    if meta[0] != x {
      assert x in meta[1..];
      WithoutKeepsOthers(meta[1..], filename, x);
    }
  }

  /** The filter changes nothing when no record carries the name. */
  lemma {:induction false} WithoutAbsent(meta: seq<Record>, filename: string)
    requires !Mentions(meta, filename)
    ensures Without(meta, filename) == meta
    decreases |meta|
  {
    if |meta| > 0 {
      assert meta[0].filename != filename;
      forall i | 0 <= i < |meta| - 1 ensures meta[1..][i].filename != filename {
        assert meta[1..][i] == meta[i + 1];
      }
      WithoutAbsent(meta[1..], filename);
      assert meta == [meta[0]] + meta[1..];
    }
  }

  /** Deleting the resume just added under a new file name gives back the
      metadata list as it was before the add. */
  lemma AddThenDeleteRestoresRecords(s: Store, filename: string, text: string, v: Embedding,
                                     embed: string -> Embedding)
    requires Valid(s) && !Mentions(s.meta, filename)
    ensures Add(s, filename, text, v).Ok?
    ensures var d := Delete(Add(s, filename, text, v).value, filename, embed);
            d.deleted && d.store.meta == s.meta
  {
    var t := Add(s, filename, text, v).value;
    var x := t.meta[|s.meta|];
    assert t.meta == s.meta + [x];
    assert Mentions(t.meta, filename) by {
      assert t.meta[|s.meta|].filename == filename;
    }
    WithoutDistributes(s.meta, [x], filename);
    WithoutAbsent(s.meta, filename);
    assert Without([x], filename) == [];
    var d := Delete(t, filename, embed);
    assert d.store.meta == Renumber(s.meta);
    assert Renumber(s.meta) == s.meta;
  }

  /** Every record with another file name survives a deletion, and
      survivors keep their relative order: records `i < j` of the old list
      reappear, renumbered, at positions `a < b` of the new one. */
  lemma DeleteKeepsOrder(s: Store, filename: string, embed: string -> Embedding, i: nat, j: nat)
    requires Valid(s)
    requires i < j < |s.meta|
    requires s.meta[i].filename != filename && s.meta[j].filename != filename
    ensures var t := Delete(s, filename, embed).store;
            exists a, b :: 0 <= a < b < |t.meta| &&
              t.meta[a] == s.meta[i].(id := a) && t.meta[b] == s.meta[j].(id := b)
  {
    var t := Delete(s, filename, embed).store;
    if !Delete(s, filename, embed).deleted {
      assert t.meta[i] == s.meta[i].(id := i) && t.meta[j] == s.meta[j].(id := j);
    } else {
      var front, back := s.meta[..j], s.meta[j..];
      assert s.meta == front + back;
      WithoutDistributes(front, back, filename);
      assert s.meta[i] in front;
      WithoutKeepsOthers(front, filename, s.meta[i]);
      var wf := Without(front, filename);
      var a :| 0 <= a < |wf| && wf[a] == s.meta[i];
      var b := |wf|;
      assert back[0] == s.meta[j];
      assert Without(back, filename)[0] == s.meta[j];
      var survivors := Without(s.meta, filename);
      assert survivors[a] == s.meta[i] && survivors[b] == s.meta[j];
      assert t.meta[a] == s.meta[i].(id := a) && t.meta[b] == s.meta[j].(id := b);
    }
  }

  /** Every record with another file name survives a deletion, renumbered
      by its new position. */
  lemma DeleteKeepsSurvivor(s: Store, filename: string, embed: string -> Embedding, i: nat)
    requires Valid(s)
    requires i < |s.meta| && s.meta[i].filename != filename
    ensures var t := Delete(s, filename, embed).store;
            exists a :: 0 <= a < |t.meta| && t.meta[a] == s.meta[i].(id := a)
  {
    var t := Delete(s, filename, embed).store;
    if !Delete(s, filename, embed).deleted {
      assert t.meta[i] == s.meta[i].(id := i);
    } else {
      WithoutKeepsOthers(s.meta, filename, s.meta[i]);
      var survivors := Without(s.meta, filename);
      var a :| 0 <= a < |survivors| && survivors[a] == s.meta[i];
      assert t.meta[a] == s.meta[i].(id := a);
    }
  }

  /** Every record after a deletion is an old record with another file name,
      renumbered by its new position. */
  lemma DeleteKeepsOnlySurvivors(s: Store, filename: string, embed: string -> Embedding, a: nat)
    requires Valid(s)
    requires a < |Delete(s, filename, embed).store.meta|
    ensures var t := Delete(s, filename, embed).store;
            exists i :: 0 <= i < |s.meta| && s.meta[i].filename != filename && t.meta[a] == s.meta[i].(id := a)
  {
    var t := Delete(s, filename, embed).store;
    if !Delete(s, filename, embed).deleted {
      assert s.meta[a].filename != filename;
      assert t.meta[a] == s.meta[a].(id := a);
    } else {
      var survivors := Without(s.meta, filename);
      assert survivors[a] in s.meta;
      var i :| 0 <= i < |s.meta| && s.meta[i] == survivors[a];
      assert t.meta[a] == s.meta[i].(id := a);
    }
  }

  /** After a deletion every surviving record sits at distance zero from the
      embedding of its own text, so searching with that embedding scores it
      1.0. */
  lemma DeletedStoreScoresSelfAsOne(s: Store, filename: string, embed: string -> Embedding, i: nat)
    requires Delete(s, filename, embed).deleted
    requires i < |Delete(s, filename, embed).store.meta|
    ensures var t := Delete(s, filename, embed).store;
            Score(SqDist(embed(t.meta[i].text), t.index[i])) == 1.0
  {
    var t := Delete(s, filename, embed).store;
    SqDistSelf(t.index[i]);
  }

  /* ---------------------------------------------------------------------- */
  /* A whole scenario                                                       */
  /* ---------------------------------------------------------------------- */

  /** A resume added to an empty store is found by a search with its own
      vector, at score 1.0, as the only result. */
  lemma AddThenSearchOwnVector(filename: string, text: string, v: Embedding, topK: int,
                               minScore: real, cands: seq<Neighbor>)
    requires topK >= 1 && minScore <= 1.0
    requires Add(Empty(), filename, text, v).Ok?
    requires CandidatesFor(Add(Empty(), filename, text, v).value, v, topK, cands)
    ensures Search(Add(Empty(), filename, text, v).value, v, topK, minScore, cands)
            == Ok([Hit(Record(0, filename, Preview(text)), 1.0)])
  {
    var s := Add(Empty(), filename, text, v).value;
    assert FetchCount(topK, 1) == 1;
    assert IsKNearest(s.index, v, 1, cands);
    assert s.index[0] == v;
    SqDistSelf(v);
    assert cands[0] == Neighbor(0.0, 0);
    var h := Hit(Record(0, filename, Preview(text)), 1.0);
    assert HitFor(s.meta, cands[0]) == h;
    assert cands[1..] == [];
    assert Qualifying(s.meta, cands, minScore) == [h];
    SortKeepsCollected(s.meta, cands, topK, minScore);
  }
}
