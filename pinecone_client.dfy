/** The in-memory fallback store: a dict from id to `{embedding, metadata}`,
    searched by exhaustive cosine similarity. */
module PineconeClient {
  import opened Wrappers
  import opened Numbers
  import opened PyValues
  import opened Dicts
  import opened Sorting

  datatype LocalEntry = LocalEntry(embedding: seq<Num>, metadata: Value)

  /** An element of `items`; `metadata` is None when the key is missing. */
  datatype LocalItem = LocalItem(id: string, embedding: seq<Num>, metadata: Option<Value>)

  datatype LocalError =
    | MissingMetadata   // KeyError on it["metadata"]
    | ShapeMismatch     // ValueError from np.dot on vectors of different lengths

  type Entries = seq<(string, LocalEntry)>

  // ---------------------------------------------------------------- upsert

  /** `upsert_items_local(items)`: items are stored one by one, so a missing
      `metadata` key stops the loop with the earlier items already stored. */
  function UpsertLocalSpec(es: Entries, items: seq<LocalItem>): (Entries, Result<(), LocalError>)
    decreases |items|
  {
    if items == [] then (es, Ok(()))
    else if items[0].metadata.None? then (es, Err(MissingMetadata))
    else UpsertLocalSpec(Set(es, items[0].id, LocalEntry(items[0].embedding, items[0].metadata.value)), items[1..])
  }

  /** The entry the last item with id `k` writes, if any does. */
  function LastWrite(items: seq<LocalItem>, k: string): Option<LocalEntry>
  {
    if items == [] then None
    else
      var last := items[|items| - 1];
      if last.id == k && last.metadata.Some? then Some(LocalEntry(last.embedding, last.metadata.value))
      else LastWrite(items[..|items| - 1], k)
  }

  predicate AllHaveMetadata(items: seq<LocalItem>) {
    forall i :: 0 <= i < |items| ==> items[i].metadata.Some?
  }

  /** The upsert fails exactly when some item lacks metadata, and then the
      items before the first such one are stored. */
  lemma {:induction false} UpsertLocalOutcome(es: Entries, items: seq<LocalItem>)
    ensures UpsertLocalSpec(es, items).1.Ok? <==> AllHaveMetadata(items)
    ensures forall i :: 0 <= i < |items| && items[i].metadata.None? && (forall j :: 0 <= j < i ==> items[j].metadata.Some?) ==>
      UpsertLocalSpec(es, items).0 == UpsertLocalSpec(es, items[..i]).0
    decreases |items|
  {
    if items != [] {
      var t := items[1..];
      if items[0].metadata.Some? {
        var es2 := Set(es, items[0].id, LocalEntry(items[0].embedding, items[0].metadata.value));
        UpsertLocalOutcome(es2, t);
        assert AllHaveMetadata(items) <==> AllHaveMetadata(t) by {
          assert forall i :: 0 <= i < |t| ==> t[i] == items[i + 1];
        }
        forall i | 0 <= i < |items| && items[i].metadata.None? && (forall j :: 0 <= j < i ==> items[j].metadata.Some?)
          ensures UpsertLocalSpec(es, items).0 == UpsertLocalSpec(es, items[..i]).0
        {
          assert i > 0;
          assert items[..i][0] == items[0] && items[..i][1..] == t[..i - 1];
          assert t[i - 1] == items[i];
          forall m | 0 <= m < i - 1 ensures t[m].metadata.Some? {
            assert t[m] == items[m + 1];
          }
        }
      }
    }
  }

  /** After a successful upsert each id holds what the last item with that
      id wrote, and every other id keeps its entry. */
  lemma {:induction false} UpsertLocalLastWins(es: Entries, items: seq<LocalItem>, k: string)
    requires AllHaveMetadata(items)
    ensures Get(UpsertLocalSpec(es, items).0, k) == (if LastWrite(items, k).Some? then LastWrite(items, k) else Get(es, k))
    decreases |items|
  {
    if items != [] {
      var t := items[1..];
      var e0 := LocalEntry(items[0].embedding, items[0].metadata.value);
      var es2 := Set(es, items[0].id, e0);
      assert AllHaveMetadata(t) by {
        forall i | 0 <= i < |t| ensures t[i].metadata.Some? { assert t[i] == items[i + 1]; }
      }
      UpsertLocalLastWins(es2, t, k);
      LastWriteCons(items, k);
      if k == items[0].id {
        GetSetSame(es, k, e0);
      } else {
        GetSetOther(es, items[0].id, e0, k);
      }
    }
  }

  /** `LastWrite` read from the front: the tail's last write, else the head's. */
  lemma {:induction false} LastWriteCons(items: seq<LocalItem>, k: string)
    requires items != [] && items[0].metadata.Some?
    ensures LastWrite(items, k) ==
      if LastWrite(items[1..], k).Some? then LastWrite(items[1..], k)
      else if items[0].id == k then Some(LocalEntry(items[0].embedding, items[0].metadata.value))
      else None
    decreases |items|
  {
    if |items| > 1 {
      var init := items[..|items| - 1];
      assert init[0] == items[0];
      LastWriteCons(init, k);
      assert init[1..] == items[1..][..|items[1..]| - 1];
      assert items[1..][|items[1..]| - 1] == items[|items| - 1];
    } else {
      assert items[1..] == [];
      assert items[..0] == [];
    }
  }

  /** The store never holds an id twice. */
  lemma {:induction false} UpsertLocalDistinct(es: Entries, items: seq<LocalItem>)
    requires DistinctKeys(es)
    ensures DistinctKeys(UpsertLocalSpec(es, items).0)
    decreases |items|
  {
    if items != [] && items[0].metadata.Some? {
      var e0 := LocalEntry(items[0].embedding, items[0].metadata.value);
      SetDistinct(es, items[0].id, e0);
      UpsertLocalDistinct(Set(es, items[0].id, e0), items[1..]);
    }
  }

  // ----------------------------------------------------------------- query

  /** `safe_cosine(a, b)`: 0.0 when the norm product is zero, an error when
      the dot product cannot be taken, otherwise the cosine with NaN and the
      infinities turned into 0.0. */
  function SafeCosine(a: seq<Num>, b: seq<Num>): (r: Result<real, LocalError>)
    ensures |a| == |b| ==> r.Ok?
    ensures r.Err? ==> |a| != |b| && r.error == ShapeMismatch
  {
    var denom := Mul(Norm(a), Norm(b));
    if denom == Finite(0.0) then Ok(0.0)
    else if |a| != |b| then Err(ShapeMismatch)
    else
      var s := Div(Dot(a, b), denom);
      Ok(if s.Finite? then s.r else 0.0)
  }

  /** A zero vector scores 0.0 against any finite vector, whatever its length. */
  lemma SafeCosineZero(a: seq<Num>, b: seq<Num>)
    requires AllFinite(a) && AllZero(a) && AllFinite(b)
    ensures SafeCosine(a, b) == Ok(0.0) && SafeCosine(b, a) == Ok(0.0)
  {
  }

  /** Vectors of different lengths that are finite and non-zero make the
      query fail. */
  lemma SafeCosineMismatch(a: seq<Num>, b: seq<Num>)
    requires |a| != |b| && AllFinite(a) && AllFinite(b) && !AllZero(a) && !AllZero(b)
    ensures SafeCosine(a, b) == Err(ShapeMismatch)
  {
    MulOfPositive(Norm(a), Norm(b));
  }

  lemma MulOfPositive(x: Num, y: Num)
    requires x.Finite? && y.Finite? && x.r > 0.0 && y.r > 0.0
    ensures Mul(x, y) == Finite(PosMul(x.r, y.r)) && Mul(x, y) != Finite(0.0)
  {
  }

  /** For finite, non-zero vectors of one length the score is the cosine of
      the angle between them. */
  lemma SafeCosineIsCosine(a: seq<Num>, b: seq<Num>)
    requires |a| == |b| && AllFinite(a) && AllFinite(b) && !AllZero(a) && !AllZero(b)
    ensures Norm(a).r > 0.0 && Norm(b).r > 0.0
    ensures SafeCosine(a, b) == Ok(DotR(Reals(a), Reals(b)) / PosMul(Norm(a).r, Norm(b).r))
  {
    DotFinite(a, b);
    MulOfPositive(Norm(a), Norm(b));
  }

  lemma {:induction false} DotSymmetric(a: seq<Num>, b: seq<Num>)
    requires |a| == |b|
    ensures Dot(a, b) == Dot(b, a)
  {
    if a != [] {
      DotSymmetric(a[1..], b[1..]);
      assert Mul(a[0], b[0]) == Mul(b[0], a[0]);
    }
  }

  /** The score does not depend on the order of its arguments. */
  lemma SafeCosineSymmetric(a: seq<Num>, b: seq<Num>)
    ensures SafeCosine(a, b) == SafeCosine(b, a)
  {
    assert Mul(Norm(a), Norm(b)) == Mul(Norm(b), Norm(a));
    if |a| == |b| {
      DotSymmetric(a, b);
    }
  }

  /** One `(id, score, metadata)` triple per stored entry. */
  type Scored = (string, real, Value)

  function ScoreOf(t: Scored): real {
    t.1
  }

  /** The triples in store order, or the first scoring error. */
  function ScoreAll(es: Entries, q: seq<Num>): (r: Result<seq<Scored>, LocalError>)
    ensures r.Ok? ==> |r.value| == |es| && forall i :: 0 <= i < |es| ==>
      SafeCosine(q, es[i].1.embedding).Ok? && r.value[i] == (es[i].0, SafeCosine(q, es[i].1.embedding).value, es[i].1.metadata)
    ensures r.Err? <==> exists i :: 0 <= i < |es| && SafeCosine(q, es[i].1.embedding).Err?
    ensures r.Err? ==> r.error == ShapeMismatch
  {
    if es == [] then Ok([])
    else
      var init := es[..|es| - 1];
      var last := es[|es| - 1];
      var head := ScoreAll(init, q);
      var c := SafeCosine(q, last.1.embedding);
      if head.Err? then
        var i :| 0 <= i < |init| && SafeCosine(q, init[i].1.embedding).Err?;
        assert es[i] == init[i];
        head
      else if c.Err? then Err(c.error)
      else
        assert forall i :: 0 <= i < |init| ==> es[i] == init[i];
        Ok(head.value + [(last.0, c.value, last.1.metadata)])
  }

  function ToHits(ts: seq<Scored>): (r: seq<Hit>)
    ensures |r| == |ts| && forall i :: 0 <= i < |ts| ==> r[i] == Hit(ts[i].0, ts[i].1, ts[i].2)
  {
    seq(|ts|, i requires 0 <= i < |ts| => Hit(ts[i].0, ts[i].1, ts[i].2))
  }

  /** `query_vector_local(embedding, top_k)`. */
  function QueryLocalSpec(es: Entries, q: seq<Num>, topK: int): Result<seq<Hit>, LocalError> {
    if es == [] then Ok([])
    else
      match ScoreAll(es, q)
      case Err(e) => Err(e)
      case Ok(ts) => Ok(ToHits(PyPrefix(SortDesc(ts, ScoreOf), topK)))
  }

  /** An empty store answers `[]` whatever the query. */
  lemma QueryLocalEmpty(q: seq<Num>, topK: int)
    ensures QueryLocalSpec([], q, topK) == Ok([])
  {
  }

  /** A query of the stored length never fails. */
  lemma QueryLocalSameLength(es: Entries, q: seq<Num>, topK: int)
    requires forall i :: 0 <= i < |es| ==> |es[i].1.embedding| == |q|
    ensures QueryLocalSpec(es, q, topK).Ok?
  {
  }

  /** A successful query returns min(top_k, n) records for top_k >= 0, best
      first, each one a stored id with its score and its metadata. */
  lemma QueryLocalResults(es: Entries, q: seq<Num>, topK: int)
    requires QueryLocalSpec(es, q, topK).Ok?
    ensures var r := QueryLocalSpec(es, q, topK).value;
      (topK >= 0 ==> |r| == if topK < |es| then topK else |es|)
      && (forall i, j :: 0 <= i < j < |r| ==> r[i].score >= r[j].score)
      && (forall h :: h in r ==>
            (exists i :: 0 <= i < |es| && h.id == es[i].0 && h.metadata == es[i].1.metadata
              && SafeCosine(q, es[i].1.embedding) == Ok(h.score)))
  {
    if es != [] {
      var ts := ScoreAll(es, q).value;
      var s := SortDesc(ts, ScoreOf);
      SortDescFacts(ts, ScoreOf);
      var p := PyPrefix(s, topK);
      var r := ToHits(p);
      assert forall m :: 0 <= m < |p| ==> p[m] == s[m];
      forall h | h in r
        ensures exists i :: (0 <= i < |es| && h.id == es[i].0 && h.metadata == es[i].1.metadata
          && SafeCosine(q, es[i].1.embedding) == Ok(h.score))
      {
        var j :| 0 <= j < |r| && r[j] == h;
        assert s[j] in multiset(ts);
        var i :| 0 <= i < |ts| && ts[i] == s[j];
      }
    }
  }

  /** The query keeps the best entries: a stored entry that was not returned
      scores no higher than any returned one. */
  lemma QueryLocalBest(es: Entries, q: seq<Num>, topK: int)
    requires QueryLocalSpec(es, q, topK).Ok?
    ensures var r := QueryLocalSpec(es, q, topK).value;
      forall i, j ::
        (0 <= i < |es| && 0 <= j < |r| && Hit(es[i].0, SafeCosine(q, es[i].1.embedding).value, es[i].1.metadata) !in r)
        ==> SafeCosine(q, es[i].1.embedding).value <= r[j].score
  {
    if es != [] {
      var ts := ScoreAll(es, q).value;
      var s := SortDesc(ts, ScoreOf);
      SortDescFacts(ts, ScoreOf);
      PrefixBest(s, topK, ScoreOf);
      var p := PyPrefix(s, topK);
      var r := ToHits(p);
      forall i, j | 0 <= i < |es| && 0 <= j < |r| && Hit(ts[i].0, ts[i].1, ts[i].2) !in r
        ensures ts[i].1 <= r[j].score
      {
        assert ts[i] in multiset(s);
        assert ts[i] !in p by {
          forall m | 0 <= m < |p| ensures p[m] != ts[i] {
            assert r[m] == Hit(p[m].0, p[m].1, p[m].2);
          }
        }
        assert ScoreOf(ts[i]) <= ScoreOf(p[j]);
      }
    }
  }

  function IdOf(t: Scored): string {
    t.0
  }

  /** A store whose ids are distinct (as every upsert leaves it) returns
      each id at most once. */
  lemma QueryLocalIdsDistinct(es: Entries, q: seq<Num>, topK: int)
    requires DistinctKeys(es) && QueryLocalSpec(es, q, topK).Ok?
    ensures var r := QueryLocalSpec(es, q, topK).value;
      forall i, j :: 0 <= i < j < |r| ==> r[i].id != r[j].id
  {
    if es != [] {
      var ts := ScoreAll(es, q).value;
      var s := SortDesc(ts, ScoreOf);
      SortDescFacts(ts, ScoreOf);
      DistinctUnderPermutation(ts, s, IdOf);
      var p := PyPrefix(s, topK);
      assert forall m :: 0 <= m < |p| ==> p[m] == s[m];
    }
  }

  /** Entries with equal scores come out in store order. */
  lemma QueryLocalTiesInStoreOrder(es: Entries, q: seq<Num>, topK: int, v: real)
    requires ScoreAll(es, q).Ok?
    ensures var ts := ScoreAll(es, q).value;
      WithKey(SortDesc(ts, ScoreOf), Neg(ScoreOf), v) == WithKey(ts, Neg(ScoreOf), v)
  {
    SortDescFacts(ScoreAll(es, q).value, ScoreOf);
  }

  /** The module-level `_LOCAL_STORE`. */
  class LocalStore {
    var entries: Entries

    constructor ()
      ensures entries == []
    {
      entries := [];
    }

    /** `upsert_items_local(items)`. */
    method UpsertLocal(items: seq<LocalItem>) returns (r: Result<(), LocalError>)
      modifies this
      ensures (entries, r) == UpsertLocalSpec(old(entries), items)
    {
      var i := 0;
      while i < |items|
        invariant 0 <= i <= |items|
        invariant UpsertLocalSpec(old(entries), items) == UpsertLocalSpec(entries, items[i..])
      {
        var it := items[i];
        assert items[i..][0] == it && items[i..][1..] == items[i + 1..];
        if it.metadata.None? {
          return Err(MissingMetadata);
        }
        entries := Set(entries, it.id, LocalEntry(it.embedding, it.metadata.value));
        i := i + 1;
      }
      return Ok(());
    }

    /** `query_vector_local(embedding, top_k)`. */
    method QueryLocal(q: seq<Num>, topK: int) returns (r: Result<seq<Hit>, LocalError>)
      ensures r == QueryLocalSpec(entries, q, topK)
    {
      if |entries| == 0 {
        return Ok([]);
      }
      var scored := ScoreEntries(entries, q);
      if scored.Err? {
        return Err(scored.error);
      }
      var sorted := SortDesc(scored.value, ScoreOf);
      var hits := BuildHits(PyPrefix(sorted, topK));
      return Ok(hits);
    }
  }

  /** The scoring loop of `query_vector_local`. */
  method ScoreEntries(es: Entries, q: seq<Num>) returns (r: Result<seq<Scored>, LocalError>)
    ensures r == ScoreAll(es, q)
  {
    var results: seq<Scored> := [];
    var i := 0;
    while i < |es|
      invariant 0 <= i <= |es|
      invariant ScoreAll(es[..i], q) == Ok(results)
    {
      var (id, e) := es[i];
      var c := SafeCosine(q, e.embedding);
      assert es[..i + 1][..i] == es[..i];
      if c.Err? {
        assert SafeCosine(q, es[i].1.embedding).Err?;
        return Err(c.error);
      }
      results := results + [(id, c.value, e.metadata)];
      i := i + 1;
    }
    assert es[..|es|] == es;
    return Ok(results);
  }

  /** The loop that turns the top triples into result records. */
  method BuildHits(top: seq<Scored>) returns (hits: seq<Hit>)
    ensures hits == ToHits(top)
  {
    hits := [];
    var j := 0;
    while j < |top|
      invariant 0 <= j <= |top|
      invariant hits == ToHits(top[..j])
    {
      var (sid, score, meta) := top[j];
      hits := hits + [Hit(sid, score, meta)];
      j := j + 1;
    }
    assert top[..|top|] == top;
  }
}
