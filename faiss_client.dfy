/** The persistent vector store: a matrix of unit-length rows, a position to
    id list that names each row, an id to metadata table, and (when the FAISS
    library is present) an inner-product index mirroring the rows.

    The store's state is given as a value (`Store`), its operations as
    functions on that value, and the class `VectorStore` carries the same
    fields and implements each operation imperatively against its function.
    The files on disk are the `files` component: `Init` reads them, a
    non-empty `Upsert` overwrites them. The FAISS search itself is an oracle:
    the `(score, index)` pairs it returns are a parameter of `Query`. */
module FaissClient {
  import opened Wrappers
  import opened Numbers
  import opened PyText
  import opened PyValues
  import opened Dicts
  import opened Sorting

  /** id -> metadata, in insertion order. */
  type Meta = seq<(string, Value)>

  /** One element of the `items` list: `{"id", "embedding", "metadata"?}`. */
  datatype Item = Item(id: Value, embedding: seq<Num>, metadata: Option<Value>)

  /** What is on disk: the saved embedding matrix, whether a FAISS index file
      exists, the saved metadata and the saved index map. */
  datatype Files = Files(
    embeddings: Option<seq<seq<real>>>,
    faissIndex: bool,
    metadata: Option<Meta>,
    indexMap: Option<seq<string>>)

  datatype Store = Store(
    dim: Option<nat>,
    rows: seq<seq<real>>,
    indexMap: seq<string>,
    metadata: Meta,
    files: Files)

  datatype UpsertError =
    | NotInitialized  // RuntimeError: upsert before init_index
    | ShapeMismatch   // ValueError from stacking rows of different widths

  datatype QueryError = QueryShapeMismatch

  predicate Rectangular(rows: seq<seq<real>>) {
    forall i :: 0 <= i < |rows| ==> |rows[i]| == |rows[0]|
  }

  /** `_embeddings.size == 0`: no rows, or rows of width zero. */
  predicate SizeZero(rows: seq<seq<real>>) {
    forall i :: 0 <= i < |rows| ==> rows[i] == []
  }

  /** The files are absent, or they are a snapshot as `Upsert` writes it. */
  predicate Snapshot(f: Files, hasFaiss: bool) {
    f == Files(None, false, None, None)
    || (f.embeddings.Some? && f.metadata.Some? && f.indexMap.Some? && (hasFaiss ==> f.faissIndex)
        && Rectangular(f.embeddings.value) && |f.indexMap.value| == |f.embeddings.value|
        && DistinctKeys(f.metadata.value))
  }

  /** The store invariant: a proper matrix, one index-map entry per row, a
      well-formed metadata table, and a consistent snapshot on disk. */
  predicate Valid(s: Store, hasFaiss: bool) {
    Rectangular(s.rows) && |s.indexMap| == |s.rows| && DistinctKeys(s.metadata) && Snapshot(s.files, hasFaiss)
  }

  // ---------------------------------------------------------------- loading

  /** `_load_metadata`: the saved table, or an empty one. */
  function LoadedMeta(f: Files): Meta {
    f.metadata.GetOr([])
  }

  /** `_load_metadata`: the saved index map, or else the metadata keys in
      their saved order. */
  function LoadedIndexMap(f: Files): seq<string> {
    if f.indexMap.Some? then f.indexMap.value else Keys(LoadedMeta(f))
  }

  /** The rows `init_index` starts from: with FAISS, the saved matrix only
      when the index file is also there; without it, the saved matrix; an
      empty matrix otherwise. */
  function LoadedRows(f: Files, hasFaiss: bool): seq<seq<real>> {
    if hasFaiss then (if f.faissIndex && f.embeddings.Some? then f.embeddings.value else [])
    else f.embeddings.GetOr([])
  }

  /** `init_index(d)`. */
  function InitSpec(s: Store, d: nat, hasFaiss: bool): Store {
    Store(Some(d), LoadedRows(s.files, hasFaiss), LoadedIndexMap(s.files), LoadedMeta(s.files), s.files)
  }

  /** Initialising from absent files or from a snapshot gives a valid store
      with that dimension. */
  lemma InitValid(s: Store, d: nat, hasFaiss: bool)
    requires Snapshot(s.files, hasFaiss)
    ensures Valid(InitSpec(s, d, hasFaiss), hasFaiss)
    ensures InitSpec(s, d, hasFaiss).dim == Some(d)
  {
    if s.files == Files(None, false, None, None) {
      assert Keys(LoadedMeta(s.files)) == [];
    }
  }

  /** Files saved without FAISS and read with it: the matrix is left behind
      (there is no index file) while the saved index map is loaded, so the
      index map names rows that are not there. */
  lemma InitWithoutIndexFileMisaligns(s: Store, d: nat)
    requires s.files == Files(Some([[1.0]]), false, Some([("a", Dict([]))]), Some(["a"]))
    ensures InitSpec(s, d, true).rows == [] && InitSpec(s, d, true).indexMap == ["a"]
  {
  }

  // ----------------------------------------------------------------- upsert

  predicate Accepts(it: Item, d: nat) {
    |it.embedding| == d
  }

  /** The items whose embedding has the store's dimension, in input order. */
  function Accepted(items: seq<Item>, d: nat): (acc: seq<Item>)
    ensures |acc| <= |items|
    ensures forall x :: x in acc <==> x in items && Accepts(x, d)
    ensures forall j :: 0 <= j < |acc| ==> Accepts(acc[j], d)
  {
    if items == [] then []
    else
      var init := items[..|items| - 1];
      var last := items[|items| - 1];
      assert items == init + [last];
      Accepted(init, d) + (if Accepts(last, d) then [last] else [])
  }

  /** The stored rows for the accepted items: each embedding normalised. */
  function NewRows(acc: seq<Item>): seq<seq<real>> {
    if acc == [] then [] else NewRows(acc[..|acc| - 1]) + [RowOf(acc[|acc| - 1])]
  }

  /** `vec = _normalize(np.array(it["embedding"]))`. */
  function RowOf(it: Item): seq<real> {
    Normalize(it.embedding)
  }

  /** `str(it["id"])` for each accepted item. */
  function NewIds(acc: seq<Item>): seq<string> {
    if acc == [] then [] else NewIds(acc[..|acc| - 1]) + [PyStr(acc[|acc| - 1].id)]
  }

  /** The metadata table after the loop: `_metadata[iid] = it.get("metadata",
      {})` for each accepted item, in order. */
  function MetaAfter(m: Meta, items: seq<Item>, d: nat): Meta {
    if items == [] then m
    else
      var before := MetaAfter(m, items[..|items| - 1], d);
      var last := items[|items| - 1];
      if Accepts(last, d) then Set(before, PyStr(last.id), last.metadata.GetOr(Dict([]))) else before
  }

  /** Stacking new rows under the old ones, as the evident intent of
      faiss_client.py:105-108 is. */
  function AppendRows(rows: seq<seq<real>>, vecs: seq<seq<real>>): (r: seq<seq<real>>)
    ensures |r| == |rows| + |vecs|
    ensures r[..|rows|] == rows && r[|rows|..] == vecs
  {
    rows + vecs
  }

  /** faiss_client.py:105-108 as written: an `(n, 0)` matrix has size 0, so
      its n rows are replaced instead of kept. */
  function AppendRowsAsWritten(rows: seq<seq<real>>, vecs: seq<seq<real>>): seq<seq<real>> {
    if SizeZero(rows) then vecs else rows + vecs
  }

  /** The two agree unless the store holds rows of width zero. */
  lemma AppendRowsAgree(rows: seq<seq<real>>, vecs: seq<seq<real>>)
    requires Rectangular(rows) && (rows == [] || rows[0] != [])
    ensures AppendRowsAsWritten(rows, vecs) == AppendRows(rows, vecs)
  {
    if rows != [] {
      assert !SizeZero(rows);
    }
  }

  /** With dimension 0, a second upsert as written replaces the first row
      while the index map keeps both ids: rows and ids fall out of step. */
  lemma AppendRowsAsWrittenMisaligns()
    ensures var it := Item(Str("b"), [], None);
      var rows := AppendRowsAsWritten([[]], NewRows([it]));
      var ids := ["a"] + NewIds([it]);
      |rows| == 1 && |ids| == 2
  {
    var it := Item(Str("b"), [], None);
    assert [it][..0] == [];
    assert NewRows([it]) == [Normalize([])];
    assert SizeZero([[]]);
  }

  /** Stacking fails (in numpy or in FAISS) when stored rows have another width. */
  predicate ShapeClash(rows: seq<seq<real>>, d: nat) {
    |rows| > 0 && |rows[0]| != d
  }

  /** `upsert_items(items)`: the new state and the outcome. */
  function UpsertSpec(s: Store, items: seq<Item>, hasFaiss: bool): (Store, Result<(), UpsertError>) {
    match s.dim
    case None => (s, Err(NotInitialized))
    case Some(d) =>
      var acc := Accepted(items, d);
      var meta := MetaAfter(s.metadata, items, d);
      if acc == [] then (s.(metadata := meta), Ok(()))
      else if ShapeClash(s.rows, d) then (s.(metadata := meta), Err(ShapeMismatch))
      else (Appended(s, acc, meta, hasFaiss), Ok(()))
  }

  /** The store after appending the accepted items and saving every file. */
  function Appended(s: Store, acc: seq<Item>, meta: Meta, hasFaiss: bool): Store {
    var rows := AppendRows(s.rows, NewRows(acc));
    var ids := s.indexMap + NewIds(acc);
    Store(s.dim, rows, ids, meta, Files(Some(rows), s.files.faissIndex || hasFaiss, Some(meta), Some(ids)))
  }

  lemma {:induction false} NewRowsFacts(acc: seq<Item>)
    ensures |NewRows(acc)| == |acc|
    ensures forall j :: 0 <= j < |acc| ==> NewRows(acc)[j] == RowOf(acc[j])
  {
    if acc != [] {
      NewRowsFacts(acc[..|acc| - 1]);
    }
  }

  /** Every new row has the store's dimension. */
  lemma NewRowsWidth(acc: seq<Item>, d: nat)
    requires forall j :: 0 <= j < |acc| ==> Accepts(acc[j], d)
    ensures forall j :: 0 <= j < |NewRows(acc)| ==> |NewRows(acc)[j]| == d
  {
    NewRowsFacts(acc);
    forall j | 0 <= j < |NewRows(acc)| ensures |NewRows(acc)[j]| == d {
      assert |Normalize(acc[j].embedding)| == |acc[j].embedding|;
    }
  }

  lemma {:induction false} NewIdsFacts(acc: seq<Item>)
    ensures |NewIds(acc)| == |acc|
    ensures forall j :: 0 <= j < |acc| ==> NewIds(acc)[j] == PyStr(acc[j].id)
  {
    if acc != [] {
      NewIdsFacts(acc[..|acc| - 1]);
    }
  }

  lemma {:induction false} MetaAfterDistinct(m: Meta, items: seq<Item>, d: nat)
    requires DistinctKeys(m)
    ensures DistinctKeys(MetaAfter(m, items, d))
  {
    if items != [] {
      MetaAfterDistinct(m, items[..|items| - 1], d);
      var last := items[|items| - 1];
      if Accepts(last, d) {
        SetDistinct(MetaAfter(m, items[..|items| - 1], d), PyStr(last.id), last.metadata.GetOr(Dict([])));
      }
    }
  }

  /** Metadata is written only for accepted items: with none accepted the
      table is unchanged. */
  lemma {:induction false} MetaAfterNoneAccepted(m: Meta, items: seq<Item>, d: nat)
    requires Accepted(items, d) == []
    ensures MetaAfter(m, items, d) == m
  {
    if items != [] {
      var init := items[..|items| - 1];
      assert Accepted(init, d) == [];
      MetaAfterNoneAccepted(m, init, d);
    }
  }

  /** The filter keeps order and multiplicity: filtering a concatenation
      filters each part, and a single item is kept exactly when it has the
      store's width. */
  lemma {:induction false} AcceptedAppend(a: seq<Item>, b: seq<Item>, d: nat)
    ensures Accepted(a + b, d) == Accepted(a, d) + Accepted(b, d)
    decreases |b|
  {
    if b != [] {
      var init := b[..|b| - 1];
      assert (a + b)[..|a + b| - 1] == a + init;
      assert (a + b)[|a + b| - 1] == b[|b| - 1];
      var x := b[|b| - 1];
      var tail := if Accepts(x, d) then [x] else [];
      assert Accepted(b, d) == Accepted(init, d) + tail;
      assert Accepted(a + b, d) == Accepted(a + init, d) + tail;
      AcceptedAppend(a, init, d);
    } else {
      assert a + b == a;
    }
  }

  lemma AcceptedOne(it: Item, d: nat)
    ensures Accepted([it], d) == if Accepts(it, d) then [it] else []
  {
    assert [it][..0] == [];
  }

  /** The metadata writes of a concatenation are those of the first part
      followed by those of the second. */
  lemma {:induction false} MetaAfterAppend(m: Meta, a: seq<Item>, b: seq<Item>, d: nat)
    ensures MetaAfter(m, a + b, d) == MetaAfter(MetaAfter(m, a, d), b, d)
    decreases |b|
  {
    if b != [] {
      var init := b[..|b| - 1];
      assert (a + b)[..|a + b| - 1] == a + init;
      assert (a + b)[|a + b| - 1] == b[|b| - 1];
      MetaAfterAppend(m, a, init, d);
      assert MetaAfter(m, a + b, d) == MetaAfter(MetaAfter(m, a, d), b, d);
    } else {
      assert a + b == a;
    }
  }

  lemma SkippedNotAccepted(a: seq<Item>, it: Item, b: seq<Item>, d: nat)
    requires !Accepts(it, d)
    ensures Accepted(a + [it] + b, d) == Accepted(a + b, d)
  {
    AcceptedAppend(a + [it], b, d);
    AcceptedAppend(a, [it], d);
    AcceptedAppend(a, b, d);
    AcceptedOne(it, d);
  }

  lemma SkippedNotWritten(m: Meta, a: seq<Item>, it: Item, b: seq<Item>, d: nat)
    requires !Accepts(it, d)
    ensures MetaAfter(m, a + [it] + b, d) == MetaAfter(m, a + b, d)
  {
    MetaAfterAppend(m, a + [it], b, d);
    MetaAfterAppend(m, a, [it], d);
    MetaAfterAppend(m, a, b, d);
    assert [it][..0] == [];
  }

  /** Only the accepted items and the metadata writes of a batch matter. */
  lemma SameBatch(s: Store, x: seq<Item>, y: seq<Item>, hasFaiss: bool)
    requires s.dim.Some?
    requires Accepted(x, s.dim.value) == Accepted(y, s.dim.value)
    requires MetaAfter(s.metadata, x, s.dim.value) == MetaAfter(s.metadata, y, s.dim.value)
    ensures UpsertSpec(s, x, hasFaiss) == UpsertSpec(s, y, hasFaiss)
  {
  }

  /** An item of the wrong length, wherever it stands in the batch, adds no
      row, no id and no metadata write. */
  lemma SkippedItem(s: Store, a: seq<Item>, it: Item, b: seq<Item>, hasFaiss: bool)
    requires s.dim.Some? && !Accepts(it, s.dim.value)
    ensures UpsertSpec(s, a + [it] + b, hasFaiss) == UpsertSpec(s, a + b, hasFaiss)
  {
    SkippedNotAccepted(a, it, b, s.dim.value);
    SkippedNotWritten(s.metadata, a, it, b, s.dim.value);
    SameBatch(s, a + [it] + b, a + b, hasFaiss);
  }

  /** Upserting before `init_index` raises and changes nothing. */
  lemma UpsertBeforeInit(s: Store, items: seq<Item>, hasFaiss: bool)
    requires s.dim.None?
    ensures UpsertSpec(s, items, hasFaiss) == (s, Err(NotInitialized))
  {
  }

  /** A batch with no accepted item returns early and leaves the whole store,
      metadata and files included, as it was. */
  lemma UpsertNothingAccepted(s: Store, items: seq<Item>, hasFaiss: bool)
    requires s.dim.Some? && Accepted(items, s.dim.value) == []
    ensures UpsertSpec(s, items, hasFaiss) == (s, Ok(()))
  {
    MetaAfterNoneAccepted(s.metadata, items, s.dim.value);
  }

  /** A successful upsert appends one normalised row and one id per
      accepted item, in input order, and persists the new state. */
  lemma UpsertAppends(s: Store, items: seq<Item>, hasFaiss: bool)
    requires s.dim.Some?
    requires UpsertSpec(s, items, hasFaiss).1.Ok?
    ensures var s2 := UpsertSpec(s, items, hasFaiss).0;
      var acc := Accepted(items, s.dim.value);
      |s2.rows| == |s.rows| + |acc| && |s2.indexMap| == |s.indexMap| + |acc|
      && s2.rows[..|s.rows|] == s.rows && s2.indexMap[..|s.indexMap|] == s.indexMap
      && (forall j :: 0 <= j < |acc| ==>
            s2.rows[|s.rows| + j] == Normalize(acc[j].embedding) && s2.indexMap[|s.indexMap| + j] == PyStr(acc[j].id))
  {
    var d := s.dim.value;
    var acc := Accepted(items, d);
    if acc == [] {
      MetaAfterNoneAccepted(s.metadata, items, d);
    } else {
      AppendedRows(s, acc, MetaAfter(s.metadata, items, d), hasFaiss);
    }
  }

  /** Appending places each accepted item's row and id after the old ones. */
  lemma AppendedRows(s: Store, acc: seq<Item>, meta: Meta, hasFaiss: bool)
    ensures var s2 := Appended(s, acc, meta, hasFaiss);
      |s2.rows| == |s.rows| + |acc| && |s2.indexMap| == |s.indexMap| + |acc|
      && s2.rows[..|s.rows|] == s.rows && s2.indexMap[..|s.indexMap|] == s.indexMap
      && (forall j :: 0 <= j < |acc| ==>
            s2.rows[|s.rows| + j] == Normalize(acc[j].embedding) && s2.indexMap[|s.indexMap| + j] == PyStr(acc[j].id))
  {
    var s2 := Appended(s, acc, meta, hasFaiss);
    var rows, ids := NewRows(acc), NewIds(acc);
    NewRowsFacts(acc);
    NewIdsFacts(acc);
    forall j | 0 <= j < |acc|
      ensures s2.rows[|s.rows| + j] == Normalize(acc[j].embedding)
      ensures s2.indexMap[|s.indexMap| + j] == PyStr(acc[j].id)
    {
      assert s2.rows[|s.rows| + j] == rows[j];
      assert s2.indexMap[|s.indexMap| + j] == ids[j];
    }
  }

  /** Every upsert outcome keeps the store invariant. */
  lemma UpsertPreservesValid(s: Store, items: seq<Item>, hasFaiss: bool)
    requires Valid(s, hasFaiss)
    ensures Valid(UpsertSpec(s, items, hasFaiss).0, hasFaiss)
  {
    if s.dim.Some? {
      var d := s.dim.value;
      var acc := Accepted(items, d);
      MetaAfterDistinct(s.metadata, items, d);
      if acc != [] && !ShapeClash(s.rows, d) {
        NewRowsFacts(acc);
        NewRowsWidth(acc, d);
        NewIdsFacts(acc);
        var rows := AppendRows(s.rows, NewRows(acc));
        forall i | 0 <= i < |rows| ensures |rows[i]| == |rows[0]| {
          if i >= |s.rows| { assert rows[i] == NewRows(acc)[i - |s.rows|]; }
          if |s.rows| > 0 { assert |rows[0]| == d; } else { assert rows[0] == NewRows(acc)[0]; }
        }
      }
    }
  }

  /** Upserting an id that is already indexed appends a second row and
      index-map entry for it and overwrites its metadata. */
  lemma ReupsertKeepsBoth(s: Store, it: Item, hasFaiss: bool, p: nat)
    requires s.dim.Some? && Accepts(it, s.dim.value) && !ShapeClash(s.rows, s.dim.value)
    requires p < |s.indexMap| && s.indexMap[p] == PyStr(it.id)
    ensures var s2 := UpsertSpec(s, [it], hasFaiss).0;
      |s2.indexMap| == |s.indexMap| + 1 && s2.indexMap[p] == PyStr(it.id) && s2.indexMap[|s.indexMap|] == PyStr(it.id)
      && Get(s2.metadata, PyStr(it.id)) == Some(it.metadata.GetOr(Dict([])))
      && |s2.rows| == |s.rows| + 1 && s2.rows[|s.rows|] == Normalize(it.embedding)
  {
    var d := s.dim.value;
    assert [it][..0] == [];
    assert Accepted([it], d) == [it];
    var m2 := Set(s.metadata, PyStr(it.id), it.metadata.GetOr(Dict([])));
    assert MetaAfter(s.metadata, [it], d) == m2;
    assert NewIds([it]) == [PyStr(it.id)];
    assert NewRows([it]) == [Normalize(it.embedding)];
    var s2 := UpsertSpec(s, [it], hasFaiss).0;
    assert s2.metadata == m2;
    assert s2.indexMap == s.indexMap + [PyStr(it.id)];
    assert s2.rows == s.rows + [Normalize(it.embedding)];
    GetSetSame(s.metadata, PyStr(it.id), it.metadata.GetOr(Dict([])));
  }

  /** A restart after a persisted upsert reloads exactly the state that was
      saved. */
  lemma PersistRoundTrip(s: Store, items: seq<Item>, hasFaiss: bool, d: nat)
    requires UpsertSpec(s, items, hasFaiss).1.Ok?
    requires var s2 := UpsertSpec(s, items, hasFaiss).0; s2.files != s.files
    ensures var s2 := UpsertSpec(s, items, hasFaiss).0;
      InitSpec(s2, d, hasFaiss) == s2.(dim := Some(d))
  {
  }

  // ------------------------------------------------------------------ query

  /** `float(score)`, then 0.0 for NaN and infinities. */
  function Finite0(x: Num): (r: real)
    ensures x.Finite? ==> r == x.r
    ensures !x.Finite? ==> r == 0.0
  {
    if x.Finite? then x.r else 0.0
  }

  /** The id for a row position: its index-map entry, or `str(idx)`. */
  function IdAt(idx: nat, indexMap: seq<string>): string {
    if idx < |indexMap| then indexMap[idx] else IntText(idx)
  }

  function MakeHit(idx: nat, score: real, indexMap: seq<string>, meta: Meta): Hit {
    var iid := IdAt(idx, indexMap);
    Hit(iid, score, Get(meta, iid).GetOr(Dict([])))
  }

  /** The FAISS branch: one record per returned pair with a non-negative
      index, in the order FAISS returned them. */
  function FaissHits(hits: seq<(Num, int)>, indexMap: seq<string>, meta: Meta): (r: seq<Hit>)
    ensures |r| <= |hits|
  {
    if hits == [] then []
    else
      var last := hits[|hits| - 1];
      FaissHits(hits[..|hits| - 1], indexMap, meta)
        + (if last.1 < 0 then [] else [MakeHit(last.1, Finite0(last.0), indexMap, meta)])
  }

  /** The non-negative indices FAISS returned, in order. */
  function HitIndices(hits: seq<(Num, int)>): seq<nat> {
    if hits == [] then []
    else
      var last := hits[|hits| - 1];
      HitIndices(hits[..|hits| - 1]) + (if last.1 < 0 then [] else [last.1 as nat])
  }

  /** The pairs naming a row carry finite scores, best first. */
  predicate ScoresDescending(hits: seq<(Num, int)>) {
    (forall i :: 0 <= i < |hits| && hits[i].1 >= 0 ==> hits[i].0.Finite?)
    && (forall i, j :: 0 <= i < j < |hits| && hits[i].1 >= 0 && hits[j].1 >= 0 ==> hits[i].0.r >= hits[j].0.r)
  }

  /** What an exact inner-product index promises: at most `topK` pairs, each
      index -1 or a row position, no row twice, scores in descending order. */
  predicate FaissContract(hits: seq<(Num, int)>, topK: int, n: nat) {
    |hits| <= topK
    && (forall i :: 0 <= i < |hits| ==> -1 <= hits[i].1 < n)
    && (forall i, j :: 0 <= i < j < |hits| && hits[i].1 >= 0 ==> hits[i].1 != hits[j].1)
    && ScoresDescending(hits)
  }

  predicate ByScoreDesc(r: seq<Hit>) {
    forall i, j :: 0 <= i < j < |r| ==> r[i].score >= r[j].score
  }

  /** The FAISS branch keeps the index's order, so its records come out by
      descending score; each score is one the index returned for a row. */
  lemma {:induction false} FaissHitsDescending(hits: seq<(Num, int)>, indexMap: seq<string>, meta: Meta)
    requires ScoresDescending(hits)
    ensures ByScoreDesc(FaissHits(hits, indexMap, meta))
    ensures forall h :: h in FaissHits(hits, indexMap, meta) ==>
      exists i :: 0 <= i < |hits| && hits[i].1 >= 0 && h.score == hits[i].0.r
  {
    if hits != [] {
      var init := hits[..|hits| - 1];
      var last := hits[|hits| - 1];
      assert forall i :: 0 <= i < |init| ==> init[i] == hits[i];
      FaissHitsDescending(init, indexMap, meta);
      var r0 := FaissHits(init, indexMap, meta);
      assert ByScoreDesc(r0);
      if last.1 >= 0 {
        var x := MakeHit(last.1, Finite0(last.0), indexMap, meta);
        assert FaissHits(hits, indexMap, meta) == r0 + [x];
        forall h | h in r0 ensures h.score >= x.score {
          var i :| 0 <= i < |init| && init[i].1 >= 0 && h.score == init[i].0.r;
          assert hits[i].0.r >= hits[|hits| - 1].0.r;
        }
        var r := r0 + [x];
        forall i, j | 0 <= i < j < |r| ensures r[i].score >= r[j].score {
          if j == |r0| {
            assert r[j] == x;
            assert r[i] == r0[i] && r0[i] in r0;
          } else {
            assert r[i] == r0[i] && r[j] == r0[j];
          }
        }
        forall h | h in r ensures exists i :: 0 <= i < |hits| && hits[i].1 >= 0 && h.score == hits[i].0.r {
          if h != x {
            assert h in r0;
            var i :| 0 <= i < |init| && init[i].1 >= 0 && h.score == init[i].0.r;
            assert hits[i] == init[i];
          } else {
            assert hits[|hits| - 1] == last;
          }
        }
      } else {
        assert FaissHits(hits, indexMap, meta) == r0;
        forall h | h in r0 ensures exists i :: 0 <= i < |hits| && hits[i].1 >= 0 && h.score == hits[i].0.r {
          var i :| 0 <= i < |init| && init[i].1 >= 0 && h.score == init[i].0.r;
          assert hits[i] == init[i];
        }
      }
    }
  }

  lemma {:induction false} FaissHitsShape(hits: seq<(Num, int)>, indexMap: seq<string>, meta: Meta)
    ensures |FaissHits(hits, indexMap, meta)| == |HitIndices(hits)|
    ensures forall j :: 0 <= j < |HitIndices(hits)| ==>
      var idx := HitIndices(hits)[j];
      exists i :: 0 <= i < |hits| && hits[i].1 == idx
        && FaissHits(hits, indexMap, meta)[j] == MakeHit(idx, Finite0(hits[i].0), indexMap, meta)
  {
    if hits != [] {
      var init := hits[..|hits| - 1];
      FaissHitsShape(init, indexMap, meta);
      forall j | 0 <= j < |HitIndices(init)|
        ensures var idx := HitIndices(init)[j];
          exists i :: 0 <= i < |hits| && hits[i].1 == idx
            && FaissHits(hits, indexMap, meta)[j] == MakeHit(idx, Finite0(hits[i].0), indexMap, meta)
      {
        var idx := HitIndices(init)[j];
        var i :| 0 <= i < |init| && init[i].1 == idx
          && FaissHits(init, indexMap, meta)[j] == MakeHit(idx, Finite0(init[i].0), indexMap, meta);
        assert hits[i] == init[i];
      }
    }
  }

  lemma {:induction false} HitIndicesDistinct(hits: seq<(Num, int)>, n: nat)
    requires forall i :: 0 <= i < |hits| ==> -1 <= hits[i].1 < n
    requires forall i, j :: 0 <= i < j < |hits| && hits[i].1 >= 0 ==> hits[i].1 != hits[j].1
    ensures forall j :: 0 <= j < |HitIndices(hits)| ==> HitIndices(hits)[j] < n
    ensures forall j, k :: 0 <= j < k < |HitIndices(hits)| ==> HitIndices(hits)[j] != HitIndices(hits)[k]
    ensures forall x :: x in HitIndices(hits) ==> exists i :: 0 <= i < |hits| && hits[i].1 == x
  {
    if hits != [] {
      var init := hits[..|hits| - 1];
      var last := hits[|hits| - 1];
      HitIndicesDistinct(init, n);
      var xs := HitIndices(init);
      forall x | x in xs ensures exists i :: 0 <= i < |hits| && hits[i].1 == x {
        var i :| 0 <= i < |init| && init[i].1 == x;
        assert hits[i] == init[i];
      }
      if last.1 >= 0 {
        forall j | 0 <= j < |xs| ensures xs[j] != last.1 {
          assert xs[j] in xs;
          var i :| 0 <= i < |init| && init[i].1 == xs[j];
          assert hits[i] == init[i];
        }
      }
    }
  }

  /** Distinct naturals below n number at most n. */
  lemma {:induction false} DistinctBelow(xs: seq<nat>, n: nat)
    requires forall j :: 0 <= j < |xs| ==> xs[j] < n
    requires forall j, k :: 0 <= j < k < |xs| ==> xs[j] != xs[k]
    ensures |xs| <= n
    decreases n
  {
    if xs != [] {
      assert xs[0] < n;
      var rest := Without(xs, n - 1);
      forall j | 0 <= j < |rest| ensures rest[j] < n - 1 {
        var k :| 0 <= k < |xs| && xs[k] == rest[j];
      }
      DistinctBelow(rest, n - 1);
    }
  }

  /** `xs` without the value `v`, which occurs in it at most once. */
  function Without(xs: seq<nat>, v: nat): (r: seq<nat>)
    requires forall j, k :: 0 <= j < k < |xs| ==> xs[j] != xs[k]
    ensures |r| >= |xs| - 1
    ensures forall j :: 0 <= j < |r| ==> r[j] in xs && r[j] != v
    ensures forall j, k :: 0 <= j < k < |r| ==> r[j] != r[k]
  {
    if xs == [] then []
    else if xs[0] == v then
      assert forall j :: 0 <= j < |xs| - 1 ==> xs[1..][j] != v by {
        forall j | 0 <= j < |xs| - 1 ensures xs[1..][j] != v { assert xs[1..][j] == xs[j + 1]; }
      }
      xs[1..]
    else
      var t := Without(xs[1..], v);
      assert forall j :: 0 <= j < |t| ==> t[j] != xs[0];
      [xs[0]] + t
  }

  /** The FAISS branch returns at most min(top_k, n) records. */
  lemma FaissHitsBound(hits: seq<(Num, int)>, topK: int, indexMap: seq<string>, meta: Meta)
    requires FaissContract(hits, topK, |indexMap|)
    ensures |FaissHits(hits, indexMap, meta)| <= topK
    ensures |FaissHits(hits, indexMap, meta)| <= |indexMap|
  {
    FaissHitsShape(hits, indexMap, meta);
    HitIndicesDistinct(hits, |indexMap|);
    DistinctBelow(HitIndices(hits), |indexMap|);
  }

  /** In the FAISS branch each record is named by the index map, carries
      the coerced score FAISS gave, and the stored metadata (or `{}`). */
  lemma FaissHitsFromIndexMap(hits: seq<(Num, int)>, topK: int, indexMap: seq<string>, meta: Meta)
    requires FaissContract(hits, topK, |indexMap|)
    ensures forall h :: h in FaissHits(hits, indexMap, meta) ==>
      (exists i :: 0 <= i < |hits| && 0 <= hits[i].1 && h.id == indexMap[hits[i].1] && h.score == Finite0(hits[i].0))
      && h.metadata == Get(meta, h.id).GetOr(Dict([]))
  {
    FaissHitsShape(hits, indexMap, meta);
    HitIndicesDistinct(hits, |indexMap|);
    var r := FaissHits(hits, indexMap, meta);
    forall h | h in r
      ensures (exists i :: 0 <= i < |hits| && 0 <= hits[i].1 && h.id == indexMap[hits[i].1] && h.score == Finite0(hits[i].0))
        && h.metadata == Get(meta, h.id).GetOr(Dict([]))
    {
      var j :| 0 <= j < |r| && r[j] == h;
      var idx := HitIndices(hits)[j];
      var i :| 0 <= i < |hits| && hits[i].1 == idx && r[j] == MakeHit(idx, Finite0(hits[i].0), indexMap, meta);
    }
  }

  /** `_embeddings @ q.T`: each row's dot product with the query. */
  function Sims(rows: seq<seq<real>>, q: seq<real>): (sims: seq<real>)
    requires forall i :: 0 <= i < |rows| ==> |rows[i]| == |q|
    ensures |sims| == |rows| && forall i :: 0 <= i < |rows| ==> sims[i] == DotR(rows[i], q)
  {
    seq(|rows|, i requires 0 <= i < |rows| => DotR(rows[i], q))
  }

  function Range(n: nat): (r: seq<nat>)
    ensures |r| == n && forall i :: 0 <= i < n ==> r[i] == i
  {
    seq(n, i => i)
  }

  function SimOf(sims: seq<real>): nat -> real {
    (i: nat) => if i < |sims| then sims[i] else 0.0
  }

  lemma SortRangeBounded(n: nat, key: nat -> real)
    ensures |SortBy<nat>(Range(n), key)| == n
    ensures forall j :: 0 <= j < n ==> SortBy<nat>(Range(n), key)[j] < n
  {
    var a := SortBy<nat>(Range(n), key);
    SortByPermutation(Range(n), key);
    SortByLength(Range(n), key);
    forall j | 0 <= j < n ensures a[j] < n {
      assert a[j] in multiset(a);
      assert a[j] in Range(n);
    }
  }

  /** `np.argsort(sims)`: the row positions by ascending similarity (ties in
      position order). */
  function Argsort(sims: seq<real>): (a: seq<nat>)
    ensures |a| == |sims| && forall j :: 0 <= j < |a| ==> a[j] < |sims|
  {
    SortRangeBounded(|sims|, SimOf(sims));
    SortBy<nat>(Range(|sims|), SimOf(sims))
  }

  /** `np.argsort(sims)[-top_k:][::-1]`. */
  function FallbackOrder(sims: seq<real>, topK: int): (order: seq<nat>)
    ensures forall j :: 0 <= j < |order| ==> order[j] < |sims|
  {
    var a := Argsort(sims);
    var t := PyTail(a, topK);
    assert forall j :: 0 <= j < |t| ==> t[j] == a[|a| - |t| + j];
    Reverse(t)
  }

  /** One record per position in `order`, scored by `sims`. */
  function HitsAt(order: seq<nat>, sims: seq<real>, indexMap: seq<string>, meta: Meta): (r: seq<Hit>)
    requires forall j :: 0 <= j < |order| ==> order[j] < |sims|
    ensures |r| == |order|
  {
    seq(|order|, j requires 0 <= j < |order| => MakeHit(order[j], sims[order[j]], indexMap, meta))
  }

  /** The fallback branch: one record per selected position, best first. */
  function FallbackHits(sims: seq<real>, topK: int, indexMap: seq<string>, meta: Meta): (r: seq<Hit>)
    ensures |r| == |FallbackOrder(sims, topK)|
  {
    HitsAt(FallbackOrder(sims, topK), sims, indexMap, meta)
  }

  lemma ArgsortFacts(sims: seq<real>)
    ensures multiset(Argsort(sims)) == multiset(Range(|sims|))
    ensures SortedBy(Argsort(sims), SimOf(sims))
  {
    SortByPermutation(Range(|sims|), SimOf(sims));
    SortBySorted(Range(|sims|), SimOf(sims));
  }

  /** The fallback returns min(top_k, n) records for top_k >= 1 and, because
      `[-0:]` is the whole array, all n records for top_k == 0. */
  lemma FallbackCount(sims: seq<real>, topK: int, indexMap: seq<string>, meta: Meta)
    ensures topK >= 1 ==> |FallbackHits(sims, topK, indexMap, meta)| == if topK < |sims| then topK else |sims|
    ensures topK == 0 ==> |FallbackHits(sims, topK, indexMap, meta)| == |sims|
  {
    ArgsortFacts(sims);
  }

  /** The fallback's records come best first. */
  lemma FallbackDescending(sims: seq<real>, topK: int, indexMap: seq<string>, meta: Meta)
    ensures var r := FallbackHits(sims, topK, indexMap, meta);
      forall i, j :: 0 <= i < j < |r| ==> r[i].score >= r[j].score
  {
    ArgsortFacts(sims);
    TailReversedDesc(Argsort(sims), topK, SimOf(sims));
    var order := FallbackOrder(sims, topK);
    var r := FallbackHits(sims, topK, indexMap, meta);
    forall i, j | 0 <= i < j < |r| ensures r[i].score >= r[j].score {
      assert SimOf(sims)(order[i]) >= SimOf(sims)(order[j]);
    }
  }

  /** The fallback returns a best set: no row left out scores above a row
      that was returned. */
  lemma FallbackBest(sims: seq<real>, topK: int, indexMap: seq<string>, meta: Meta)
    ensures var order := FallbackOrder(sims, topK);
      forall p, j :: 0 <= p < |sims| && p !in order && 0 <= j < |order| ==> sims[p] <= sims[order[j]]
  {
    var a := Argsort(sims);
    var key := SimOf(sims);
    ArgsortFacts(sims);
    TailReversedBest(a, topK, key);
    var order := FallbackOrder(sims, topK);
    assert order == Reverse(PyTail(a, topK));
    forall p, j | 0 <= p < |sims| && p !in order && 0 <= j < |order| ensures sims[p] <= sims[order[j]] {
      InArgsort(sims, p);
      assert key(p) <= key(order[j]);
    }
  }

  /** Every row position appears in the argsort. */
  lemma InArgsort(sims: seq<real>, p: nat)
    requires p < |sims|
    ensures p in Argsort(sims)
  {
    ArgsortFacts(sims);
    assert Range(|sims|)[p] == p;
    assert p in multiset(Range(|sims|));
  }

  /** Each fallback record is the row's index-map entry, its similarity and
      its stored metadata (or `{}`). */
  lemma FallbackRecordFields(sims: seq<real>, topK: int, indexMap: seq<string>, meta: Meta)
    requires |indexMap| == |sims|
    ensures var order := FallbackOrder(sims, topK);
      var r := FallbackHits(sims, topK, indexMap, meta);
      forall j :: 0 <= j < |r| ==>
        order[j] < |sims| && r[j].id == indexMap[order[j]] && r[j].score == sims[order[j]]
        && r[j].metadata == Get(meta, r[j].id).GetOr(Dict([]))
  {
  }

  /** A query that normalises to zero scores every row 0.0. */
  lemma DegenerateQueryScoresZero(rows: seq<seq<real>>, q: seq<Num>)
    requires forall i :: 0 <= i < |rows| ==> |rows[i]| == |q|
    requires !AllFinite(q) || AllZero(q)
    ensures forall i :: 0 <= i < |rows| ==> Sims(rows, Normalize(q))[i] == 0.0
  {
    forall i | 0 <= i < |rows| ensures DotR(rows[i], Normalize(q)) == 0.0 {
      DotRZero(rows[i], Normalize(q));
    }
  }

  /** The store after a query: the metadata and index map are reloaded when
      the index map is empty. */
  function QueryState(s: Store): Store {
    if s.indexMap == [] then s.(metadata := LoadedMeta(s.files), indexMap := LoadedIndexMap(s.files)) else s
  }

  predicate WidthsMatch(rows: seq<seq<real>>, n: nat) {
    forall i :: 0 <= i < |rows| ==> |rows[i]| == n
  }

  /** `query_vector(q, top_k)`: the new state and the records. */
  function QuerySpec(s: Store, q: seq<Num>, topK: int, hits: seq<(Num, int)>, hasFaiss: bool)
    : (Store, Result<seq<Hit>, QueryError>)
  {
    if SizeZero(s.rows) then (s, Ok([]))
    else if !WidthsMatch(s.rows, |q|) then (s, Err(QueryShapeMismatch))
    else
      var s2 := QueryState(s);
      if hasFaiss then (s2, Ok(FaissHits(hits, s2.indexMap, s2.metadata)))
      else (s2, Ok(FallbackHits(Sims(s.rows, Normalize(q)), topK, s2.indexMap, s2.metadata)))
  }

  /** A store of size 0 (no rows, or rows of width zero) answers every
      query with `[]`. */
  lemma QueryEmptyStore(s: Store, q: seq<Num>, topK: int, hits: seq<(Num, int)>, hasFaiss: bool)
    requires SizeZero(s.rows)
    ensures QuerySpec(s, q, topK, hits, hasFaiss) == (s, Ok([]))
  {
  }

  /** On a valid, non-empty store a query changes nothing: the index map is
      never empty there, so nothing is reloaded. */
  lemma QueryKeepsValidState(s: Store, q: seq<Num>, topK: int, hits: seq<(Num, int)>, hasFaiss: bool)
    requires Valid(s, hasFaiss) && |s.rows| > 0
    ensures QuerySpec(s, q, topK, hits, hasFaiss).0 == s
  {
  }

  // ------------------------------------------------------------ the module

  /** The loop of `upsert_items`: keeps the items of width `d`, normalises
      their embeddings, collects their ids and writes their metadata. */
  method CollectBatch(items: seq<Item>, d: nat, m: Meta) returns (vecs: seq<seq<real>>, ids: seq<string>, meta: Meta)
    ensures vecs == NewRows(Accepted(items, d)) && ids == NewIds(Accepted(items, d))
    ensures meta == MetaAfter(m, items, d)
  {
    vecs, ids, meta := [], [], m;
    ghost var acc: seq<Item> := [];
    var i := 0;
    while i < |items|
      invariant 0 <= i <= |items|
      invariant acc == Accepted(items[..i], d)
      invariant vecs == NewRows(acc) && ids == NewIds(acc)
      invariant meta == MetaAfter(m, items[..i], d)
    {
      var it := items[i];
      assert items[..i + 1][..i] == items[..i];
      if |it.embedding| == d {
        var iid := PyStr(it.id);
        ghost var before := acc;
        acc := acc + [it];
        assert acc[..|acc| - 1] == before;
        vecs := vecs + [Normalize(it.embedding)];
        ids := ids + [iid];
        meta := Set(meta, iid, it.metadata.GetOr(Dict([])));
      }
      i := i + 1;
    }
    assert items[..|items|] == items;
  }

  /** The FAISS branch of `query_vector`: turns the returned pairs into
      records. */
  method CollectFaissHits(hits: seq<(Num, int)>, indexMap: seq<string>, meta: Meta) returns (results: seq<Hit>)
    ensures results == FaissHits(hits, indexMap, meta)
  {
    results := [];
    var i := 0;
    while i < |hits|
      invariant 0 <= i <= |hits|
      invariant results == FaissHits(hits[..i], indexMap, meta)
    {
      var (score, idx) := hits[i];
      assert hits[..i + 1][..i] == hits[..i];
      if idx >= 0 {
        var iid := if idx < |indexMap| then indexMap[idx] else IntText(idx);
        var sc := if score.Finite? then score.r else 0.0;
        results := results + [Hit(iid, sc, Get(meta, iid).GetOr(Dict([])))];
      }
      i := i + 1;
    }
    assert hits[..|hits|] == hits;
  }

  /** The fallback branch of `query_vector`: one record per selected row. */
  method CollectFallbackHits(sims: seq<real>, topK: int, indexMap: seq<string>, meta: Meta) returns (results: seq<Hit>)
    ensures results == FallbackHits(sims, topK, indexMap, meta)
  {
    var order := FallbackOrder(sims, topK);
    results := CollectHitsAt(order, sims, indexMap, meta);
  }

  method CollectHitsAt(order: seq<nat>, sims: seq<real>, indexMap: seq<string>, meta: Meta) returns (results: seq<Hit>)
    requires forall j :: 0 <= j < |order| ==> order[j] < |sims|
    ensures results == HitsAt(order, sims, indexMap, meta)
  {
    ghost var all := HitsAt(order, sims, indexMap, meta);
    results := [];
    var j := 0;
    while j < |order|
      invariant 0 <= j <= |order|
      invariant results == all[..j]
    {
      var idx := order[j];
      var iid := if idx < |indexMap| then indexMap[idx] else IntText(idx);
      assert all[j] == Hit(iid, sims[idx], Get(meta, iid).GetOr(Dict([])));
      results := results + [Hit(iid, sims[idx], Get(meta, iid).GetOr(Dict([])))];
      assert all[..j + 1] == all[..j] + [all[j]];
      j := j + 1;
    }
    assert all[..|order|] == all;
  }

  /** The module globals `_dim`, `_embeddings`, `_index_map` and
      `_metadata`, the files on disk, and whether FAISS could be imported. */
  class VectorStore {
    var dim: Option<nat>
    var rows: seq<seq<real>>
    var indexMap: seq<string>
    var metadata: Meta
    var files: Files
    const hasFaiss: bool

    function State(): Store
      reads this
    {
      Store(dim, rows, indexMap, metadata, files)
    }

    /** Import time: nothing in memory, whatever is on disk. */
    constructor (hasFaiss: bool, files: Files)
      ensures this.hasFaiss == hasFaiss
      ensures State() == Store(None, [], [], [], files)
    {
      this.hasFaiss := hasFaiss;
      dim := None;
      rows := [];
      indexMap := [];
      metadata := [];
      this.files := files;
    }

    /** `_load_metadata()`. */
    method LoadMetadata()
      modifies this
      ensures State() == old(State()).(metadata := LoadedMeta(files), indexMap := LoadedIndexMap(files))
    {
      metadata := [];
      indexMap := [];
      if files.metadata.Some? {
        metadata := files.metadata.value;
      }
      if files.indexMap.Some? {
        indexMap := files.indexMap.value;
      } else {
        indexMap := Keys(metadata);
      }
    }

    /** `init_index(dim)`. */
    method Init(d: nat)
      modifies this
      ensures State() == InitSpec(old(State()), d, hasFaiss)
    {
      dim := Some(d);
      LoadMetadata();
      if hasFaiss {
        if files.faissIndex && files.embeddings.Some? {
          rows := files.embeddings.value;
        } else {
          rows := [];
        }
      } else {
        if files.embeddings.Some? {
          rows := files.embeddings.value;
        } else {
          rows := [];
        }
      }
    }

    /** `upsert_items(items)`. */
    method Upsert(items: seq<Item>) returns (r: Result<(), UpsertError>)
      modifies this
      ensures (State(), r) == UpsertSpec(old(State()), items, hasFaiss)
    {
      if dim.None? {
        return Err(NotInitialized);
      }
      var d := dim.value;
      var vecs, ids, meta := CollectBatch(items, d, metadata);
      metadata := meta;
      if |vecs| == 0 {
        NewRowsFacts(Accepted(items, d));
        return Ok(());
      }
      if ShapeClash(rows, d) {
        return Err(ShapeMismatch);
      }
      rows := AppendRows(rows, vecs);
      indexMap := indexMap + ids;
      files := Files(Some(rows), files.faissIndex || hasFaiss, Some(metadata), Some(indexMap));
      return Ok(());
    }

    /** `query_vector(q, top_k)`, with `hits` standing for what the FAISS
        index search returns when the library is present. */
    method Query(q: seq<Num>, topK: int, hits: seq<(Num, int)>) returns (r: Result<seq<Hit>, QueryError>)
      modifies this
      ensures (State(), r) == QuerySpec(old(State()), q, topK, hits, hasFaiss)
    {
      if SizeZero(rows) {
        return Ok([]);
      }
      if !WidthsMatch(rows, |q|) {
        return Err(QueryShapeMismatch);
      }
      var qn := Normalize(q);
      if indexMap == [] {
        LoadMetadata();
      }
      var results;
      if hasFaiss {
        results := CollectFaissHits(hits, indexMap, metadata);
      } else {
        results := CollectFallbackHits(Sims(rows, qn), topK, indexMap, metadata);
      }
      return Ok(results);
    }
  }
}
