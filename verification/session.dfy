/**
 The single-page application's copy of the store, kept in the user's session
 rather than on disk, and its upload path.

 The session starts without a store; `_init_store` creates an empty one on
 first use. Searches use the fixed threshold `MIN_SCORE`, text is prepared
 with a cap of 512 words, and a resume is only added when no resume with the
 same file name is already in the pool.
 */
module Session {
  import opened Text
  import opened FlatIndex
  import opened VectorStore
  import opened Scoring

  /** The word cap the application prepares text with. */
  const MAX_WORDS: int := 512

  /** The session's store slot: absent until first use. */
  datatype SessionState = Fresh | Ready(store: Store)

  /** Every record of a session store holds its own id. */
  predicate SessionValid(st: SessionState) {
    st.Ready? ==> Valid(st.store)
  }

  /** `_init_store`: creates an empty store if the session has none, and
      leaves an existing one alone. */
  function InitStore(st: SessionState): (r: SessionState)
    ensures r.Ready?
    ensures st.Ready? ==> r == st
    ensures st.Fresh? ==> |r.store.index| == 0 && |r.store.meta| == 0
    ensures SessionValid(st) ==> Valid(r.store)
  {
    if st.Ready? then st else Ready(Empty())
  }

  /** The store every operation works on after `_init_store`. */
  function Current(st: SessionState): Store {
    InitStore(st).store
  }

  /** `clean_text` / `truncate_text` / `preprocess` as the application uses
      them: the shared text pipeline with the default cap of 512 words. */
  function PrepareText(text: string): (r: string)
    ensures Canonical(r)
    ensures |Words(r)| <= MAX_WORDS
    ensures |Words(r)| <= |Words(CleanText(text))|
    ensures Words(r) == Words(CleanText(text))[..|Words(r)|]
    ensures |Words(CleanText(text))| <= MAX_WORDS ==> NonSpace(r) == LettersOf(text)
    ensures Words(r) == Words(CleanText(text))[..SliceEnd(|Words(CleanText(text))|, MAX_WORDS)]
  {
    Preprocess(text, MAX_WORDS)
  }

  /** `add_resume` on the session store. */
  function SessionAdd(st: SessionState, filename: string, text: string, embedding: seq<real>): (r: Result<SessionState>)
    ensures r.Err? <==> |embedding| != DIMENSION
    ensures r.Ok? ==> r.value.Ready?
    ensures r.Ok? ==>
      && |r.value.store.meta| == |Current(st).meta| + 1
      && |r.value.store.index| == |Current(st).index| + 1
      && r.value.store.meta[..|Current(st).meta|] == Current(st).meta
      && r.value.store.meta[|Current(st).meta|] == Record(|r.value.store.index| - 1, filename, Preview(text))
    ensures r.Ok? ==> r.value.store.index == Current(st).index + [embedding]
    ensures r.Ok? && SessionValid(st) ==> SessionValid(r.value)
  {
    match Add(Current(st), filename, text, embedding)
    case Ok(s) =>
      assert s.index == Current(st).index + [embedding];
      Ok(Ready(s))
    case Err(e) => Err(e)
  }

  /** `search_resumes` on the session store, always with the threshold
      `MIN_SCORE`. */
  function SessionSearch(st: SessionState, q: Vector, topK: int, cands: seq<Neighbor>): (r: Result<seq<Hit>>)
    requires SessionValid(st)
    requires CandidatesFor(Current(st), q, topK, cands)
    ensures |Current(st).index| == 0 ==> r == Ok([])
    ensures |Current(st).index| > 0 && |q| != DIMENSION ==> r == Err(DimensionMismatch)
    ensures |Current(st).index| > 0 && |q| == DIMENSION && topK <= 0 ==> r == Err(NonPositiveCount)
    ensures |Current(st).index| > 0 && |q| == DIMENSION && topK > 0 ==> r.Ok?
    ensures r.Ok? ==> |r.value| <= topK || r.value == []
    ensures r.Ok? ==> AllAtLeast(r.value, MIN_SCORE) && SortedByScore(r.value)
    ensures r.Ok? ==> forall h :: h in r.value ==>
              && h.record.id < |Current(st).meta|
              && Current(st).meta[h.record.id] == h.record
              && h.score == Score(SqDist(q, Current(st).index[h.record.id]))
    ensures r.Ok? && |Current(st).index| > 0 ==>
              topK > 0 && InRange(Current(st).meta, cands) &&
              r.value == FirstQualifying(Current(st).meta, cands, topK, MIN_SCORE)
  {
    Search(Current(st), q, topK, MIN_SCORE, cands)
  }

  /** `get_all_resumes` on the session store. */
  function SessionRecords(st: SessionState): (r: seq<Record>)
    requires SessionValid(st)
    ensures st.Fresh? ==> r == []
    ensures |r| == |Current(st).index|
    ensures forall i :: 0 <= i < |r| ==> r[i].id == i
  {
    AllRecords(Current(st))
  }

  /** `delete_resume` on the session store: the rebuilt store replaces the
      old one only when something was deleted. */
  function SessionDelete(st: SessionState, filename: string, embed: string -> Embedding): (r: (bool, SessionState))
    ensures r.1.Ready?
    ensures r.0 <==> Mentions(Current(st).meta, filename)
    ensures !r.0 ==> r.1.store == Current(st)
    ensures r.0 ==> SessionValid(r.1) && !Mentions(r.1.store.meta, filename)
    ensures r.0 ==> |r.1.store.meta| == |Current(st).meta| - Count(Current(st).meta, filename)
    ensures r.0 ==> forall i :: 0 <= i < |r.1.store.meta| ==>
              r.1.store.index[i] == embed(r.1.store.meta[i].text)
  {
    var d := Delete(Current(st), filename, embed);
    (d.deleted, Ready(d.store))
  }

  /** The session delete keeps the survivors in their original order,
      renumbered by position. */
  lemma SessionDeleteKeepsOrder(st: SessionState, filename: string, embed: string -> Embedding, i: nat, j: nat)
    requires SessionValid(st)
    requires i < j < |Current(st).meta|
    requires Current(st).meta[i].filename != filename && Current(st).meta[j].filename != filename
    ensures var t := SessionDelete(st, filename, embed).1.store;
            exists a, b :: 0 <= a < b < |t.meta| &&
              t.meta[a] == Current(st).meta[i].(id := a) && t.meta[b] == Current(st).meta[j].(id := b)
  {
    DeleteKeepsOrder(Current(st), filename, embed, i, j);
  }

  /** Every record with another file name is still in the session store
      after a delete, renumbered by its new position. */
  lemma SessionDeleteKeepsSurvivor(st: SessionState, filename: string, embed: string -> Embedding, i: nat)
    requires SessionValid(st)
    requires i < |Current(st).meta| && Current(st).meta[i].filename != filename
    ensures var t := SessionDelete(st, filename, embed).1.store;
            exists a :: 0 <= a < |t.meta| && t.meta[a] == Current(st).meta[i].(id := a)
  {
    DeleteKeepsSurvivor(Current(st), filename, embed, i);
  }

  /** Every record in the session store after a delete is an earlier record
      with another file name, renumbered by its new position. */
  lemma SessionDeleteKeepsOnlySurvivors(st: SessionState, filename: string, embed: string -> Embedding, a: nat)
    requires SessionValid(st)
    requires a < |SessionDelete(st, filename, embed).1.store.meta|
    ensures var t := SessionDelete(st, filename, embed).1.store;
            exists i :: 0 <= i < |Current(st).meta| && Current(st).meta[i].filename != filename &&
              t.meta[a] == Current(st).meta[i].(id := a)
  {
    DeleteKeepsOnlySurvivors(Current(st), filename, embed, a);
  }

  /** `clear_all` on the session store. */
  function SessionClear(st: SessionState): (r: SessionState)
    ensures r.Ready? && SessionValid(r)
    ensures |r.store.meta| == 0 && |r.store.index| == 0
  {
    Ready(Clear())
  }

  /* ---------------------------------------------------------------------- */
  /* The upload path                                                        */
  /* ---------------------------------------------------------------------- */

  /** A chosen file: its name and the text extracted from it. */
  datatype Upload = Upload(name: string, text: string)

  datatype Option<T> = None | Some(value: T)

  datatype Outcome =
    | NoFile           // the button was pressed with no file chosen
    | AlreadyInSystem  // a resume with the same file name is in the pool
    | NoText           // nothing but whitespace could be extracted
    | Submitted

  function FileNames(meta: seq<Record>): (names: seq<string>)
    ensures |names| == |meta|
    ensures forall i :: 0 <= i < |meta| ==> names[i] == meta[i].filename
  {
    seq(|meta|, i requires 0 <= i < |meta| => meta[i].filename)
  }

  /** No two records of the pool carry the same file name. */
  predicate UniqueNames(meta: seq<Record>) {
    forall i, j :: 0 <= i < j < |meta| ==> meta[i].filename != meta[j].filename
  }

  /** "Submit Resume": refuse a missing file, a file name already in the pool
      and a file with no text; otherwise embed the prepared text and add the
      resume with its original text. */
  function Submit(st: SessionState, upload: Option<Upload>, embed: string -> Embedding): (r: (Outcome, SessionState))
    ensures upload.None? ==> r == (NoFile, st)
    ensures r.0 == NoFile <==> upload.None?
    ensures r.0 == AlreadyInSystem <==> upload.Some? && Mentions(Current(st).meta, upload.value.name)
    ensures r.0 == Submitted <==>
              upload.Some? && !Mentions(Current(st).meta, upload.value.name) && Strip(upload.value.text) != []
    ensures r.0 != NoFile ==> r.1.Ready?
    ensures r.0 != Submitted && r.0 != NoFile ==> r.1 == InitStore(st)
    ensures r.0 == Submitted ==>
              && r.1.store.meta == Current(st).meta + [Record(|Current(st).index|, upload.value.name, Preview(upload.value.text))]
              && r.1.store.index == Current(st).index + [embed(PrepareText(upload.value.text))]
    ensures SessionValid(st) ==> SessionValid(r.1)
  {
    if upload.None? then (NoFile, st)
    else
      var cur := InitStore(st);
      if upload.value.name in FileNames(cur.store.meta) then (AlreadyInSystem, cur)
      else if Strip(upload.value.text) == [] then (NoText, cur)
      else
        var added := Add(cur.store, upload.value.name, upload.value.text, embed(PrepareText(upload.value.text)));
        (Submitted, Ready(added.value))
  }

  /* ---------------------------------------------------------------------- */
  /* File names stay unique along the application's paths                   */
  /* ---------------------------------------------------------------------- */

  /** Appending a record whose name is new keeps names unique. */
  lemma AppendKeepsNamesUnique(meta: seq<Record>, x: Record)
    requires UniqueNames(meta) && !Mentions(meta, x.filename)
    ensures UniqueNames(meta + [x])
  {
    var m := meta + [x];
    forall i, j | 0 <= i < j < |m| ensures m[i].filename != m[j].filename {
      assert m[i] == meta[i];
      if j < |meta| {
        assert m[j] == meta[j];
      }
    }
  }

  /** The duplicate guard: submitting never puts a second record with the
      same file name into the pool. */
  lemma SubmitKeepsNamesUnique(st: SessionState, upload: Option<Upload>, embed: string -> Embedding)
    requires UniqueNames(Current(st).meta)
    ensures UniqueNames(Current(Submit(st, upload, embed).1).meta)
  {
    var r := Submit(st, upload, embed);
    if r.0 == Submitted {
      var x := Record(|Current(st).index|, upload.value.name, Preview(upload.value.text));
      assert r.1.store.meta == Current(st).meta + [x];
      AppendKeepsNamesUnique(Current(st).meta, x);
    }
  }

  /** Filtering a pool with unique names keeps them unique. */
  lemma {:induction false} WithoutKeepsNamesUnique(meta: seq<Record>, filename: string)
    requires UniqueNames(meta)
    ensures UniqueNames(Without(meta, filename))
    decreases |meta|
  {
    if |meta| > 0 {
      var tail := meta[1..];
      assert UniqueNames(tail) by {
        forall i, j | 0 <= i < j < |tail| ensures tail[i].filename != tail[j].filename {
          assert tail[i] == meta[i + 1] && tail[j] == meta[j + 1];
        }
      }
      WithoutKeepsNamesUnique(tail, filename);
      var w := Without(tail, filename);
      if meta[0].filename != filename {
        var r := [meta[0]] + w;
        assert Without(meta, filename) == r;
        forall j | 0 <= j < |w| ensures w[j].filename != meta[0].filename {
          assert w[j] in tail;
          var k :| 0 <= k < |tail| && tail[k] == w[j];
          assert tail[k] == meta[k + 1];
        }
        forall i, j | 0 <= i < j < |r| ensures r[i].filename != r[j].filename {
          if i == 0 {
            assert r[j] == w[j - 1];
          } else {
            assert r[i] == w[i - 1] && r[j] == w[j - 1];
          }
        }
      } else {
        assert Without(meta, filename) == w;
      }
    }
  }

  /** Deleting keeps file names unique. */
  lemma DeleteKeepsNamesUnique(st: SessionState, filename: string, embed: string -> Embedding)
    requires UniqueNames(Current(st).meta)
    ensures UniqueNames(Current(SessionDelete(st, filename, embed).1).meta)
  {
    var cur := Current(st);
    if Mentions(cur.meta, filename) {
      WithoutKeepsNamesUnique(cur.meta, filename);
      var w := Without(cur.meta, filename);
      var m := Current(SessionDelete(st, filename, embed).1).meta;
      assert forall i :: 0 <= i < |m| ==> m[i].filename == w[i].filename;
    }
  }

  /** Clearing leaves no names at all; any sequence of uploads, deletions and
      clears starting from a fresh session keeps file names unique. */
  lemma ClearKeepsNamesUnique(st: SessionState)
    ensures UniqueNames(Current(SessionClear(st)).meta)
  {
  }
}
