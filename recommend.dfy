/** The recommendation endpoint: embed the prompt, fetch candidates from the
    vector store, keep the best record per id, rank, cut to `k`, attach a
    price display and a generated description, and scrub the response of
    floats JSON cannot carry. */
module Recommend {
  import opened Wrappers
  import opened Numbers
  import opened PyText
  import opened PyFloat
  import opened PyValues
  import opened Dicts
  import opened Sorting
  import opened GenAi
  import opened FaissClient

  // ------------------------------------------------------------ _safe_float

  /** The finite value of a parse, if any. */
  function FiniteOf(p: Option<Num>): (r: Option<real>)
    ensures r.Some? <==> p.Some? && p.value.Finite?
    ensures r.Some? ==> r.value == p.value.r
  {
    if p.Some? && p.value.Finite? then Some(p.value.r) else None
  }

  /** `_safe_float(x)`: a finite float, or None for None, NaN, the
      infinities and text that does not parse once commas are removed and
      whitespace stripped. Booleans count as the integers 0 and 1. */
  function SafeFloat(x: Value): (r: Option<real>)
    ensures x.Null? ==> r == None
    ensures x.Bool? ==> r == Some(if x.b then 1.0 else 0.0)
    ensures x.Int? ==> r == Some(x.i as real)
    ensures x.Float? ==> (r.Some? <==> x.x.Finite?) && (r.Some? ==> r.value == x.x.r)
  {
    match x
    case Null => None
    case Bool(b) => Some(if b then 1.0 else 0.0)
    case Int(i) => Some(i as real)
    case Float(n) => FiniteOf(Some(n))
    case _ => FiniteOf(ParseFloat(Strip(Replace(PyStr(x), ",", ""))))
  }

  /** For text, the value is what the comma-free, stripped text parses to,
      when that is finite. */
  lemma SafeFloatText(s: string)
    ensures SafeFloat(Str(s)) == FiniteOf(ParseFloat(Strip(Replace(s, ",", ""))))
  {
  }

  lemma NoCommaNotContained(s: string)
    requires forall k :: 0 <= k < |s| ==> s[k] != ','
    ensures !Contains(s, ",")
  {
    forall i | 0 <= i <= |s| ensures !OccursAt(s, ",", i) {
      if i + 1 <= |s| {
        assert s[i..i + 1][0] == s[i];
      }
    }
  }

  /** Text with no commas and no surrounding whitespace is parsed as it
      stands. */
  lemma SafeFloatPlain(s: string)
    requires s != [] && !IsSpace(s[0]) && !IsSpace(s[|s| - 1])
    requires forall k :: 0 <= k < |s| ==> s[k] != ','
    ensures SafeFloat(Str(s)) == FiniteOf(ParseFloat(s))
  {
    SafeFloatText(s);
    NoCommaNotContained(s);
    ReplaceAbsent(s, ",", "");
    StripNoSpace(s);
  }

  /** Commas in a price text make no difference: "1,299" reads as "1299". */
  lemma SafeFloatIgnoresCommas(s: string)
    ensures SafeFloat(Str(s)) == SafeFloat(Str(Replace(s, ",", "")))
  {
    var c := Replace(s, ",", "");
    SafeFloatText(s);
    SafeFloatText(c);
    RemoveCommasNone(s);
    NoCommaNotContained(c);
    ReplaceAbsent(c, ",", "");
  }

  /** Blank text (after removing commas) is not a price. */
  lemma SafeFloatBlank(s: string)
    requires AllSpace(Replace(s, ",", ""))
    ensures SafeFloat(Str(s)) == None
  {
    SafeFloatText(s);
    StripEmptyIff(Replace(s, ",", ""));
  }

  /** The texts Python prints for NaN and the infinities ("nan", "inf",
      "-inf") are rejected: they parse, but not to a finite value. */
  lemma SafeFloatRejectsSpecials(x: Num)
    requires !x.Finite?
    ensures SafeFloat(Str(FloatText(x))) == None
  {
    var s := FloatText(x);
    FloatTextRoundTrip(x);
    assert s != [] && !IsSpace(s[0]) && !IsSpace(s[|s| - 1]) && forall k :: 0 <= k < |s| ==> s[k] != ',' by {
      match x
      case NaN =>
      case PosInf =>
      case NegInf =>
    }
    SafeFloatPlain(s);
  }

  lemma IntTextPlain(i: int)
    ensures var s := IntText(i) + ".0";
      s != [] && !IsSpace(s[0]) && !IsSpace(s[|s| - 1]) && forall k :: 0 <= k < |s| ==> s[k] != ','
  {
    var s := IntText(i) + ".0";
    var d := NatText(if i < 0 then -i else i);
    assert AllDigits(d);
    forall k | 0 <= k < |s| ensures s[k] != ',' {
      if k < |IntText(i)| {
        if i < 0 {
          assert k == 0 || s[k] == d[k - 1];
        } else {
          assert s[k] == d[k];
        }
      }
    }
    if i < 0 {
      assert s[0] == '-';
    } else {
      assert s[0] == d[0];
    }
  }

  /** A non-negative whole number written as Python prints it reads back
      as itself. */
  lemma SafeFloatReadsWholeNumbers(i: nat)
    ensures SafeFloat(Str(IntText(i) + ".0")) == Some(i as real)
  {
    IntTextPlain(i);
    SafeFloatPlain(IntText(i) + ".0");
    ParseNatText(i);
  }

  /** Printing a float and reading the text back agrees with reading the
      float itself: NaN and the infinities are rejected either way, and a
      whole number keeps its value. */
  lemma SafeFloatAgreesWithText(x: Num)
    requires !x.Finite? || (x.r >= 0.0 && x.r == x.r.Floor as real)
    ensures SafeFloat(Str(FloatText(x))) == SafeFloat(Float(x))
  {
    if x.Finite? {
      assert FloatText(x) == IntText(x.r.Floor) + ".0";
      SafeFloatReadsWholeNumbers(x.r.Floor);
    } else {
      SafeFloatRejectsSpecials(x);
    }
  }

  // ----------------------------------------------------------------- dedupe

  /** `best_by_id` after the loop over `raw`: each id's first record with
      the highest score; a later record replaces the kept one only when its
      score is strictly greater. */
  function DedupeSpec(raw: seq<Hit>): seq<(string, Hit)> {
    if raw == [] then []
    else
      var before := DedupeSpec(raw[..|raw| - 1]);
      var h := raw[|raw| - 1];
      match Get(before, h.id)
      case None => Set(before, h.id, h)
      case Some(kept) => if h.score > kept.score then Set(before, h.id, h) else before
  }

  /** The ids of `raw` in order of first appearance. */
  function FirstSeen(raw: seq<Hit>): seq<string> {
    if raw == [] then []
    else
      var before := FirstSeen(raw[..|raw| - 1]);
      var id := raw[|raw| - 1].id;
      if id in before then before else before + [id]
  }

  /** What the dedupe keeps for one id: a record of `raw` with that id whose
      score no record with the id beats, and which no earlier record with the
      id ties. */
  predicate IsFirstBest(raw: seq<Hit>, k: string, h: Hit) {
    (exists i :: 0 <= i < |raw| && raw[i] == h && h.id == k
      && (forall j :: 0 <= j < i && raw[j].id == k ==> raw[j].score < h.score))
    && (forall j :: 0 <= j < |raw| && raw[j].id == k ==> raw[j].score <= h.score)
  }

  lemma KeysOfSet(es: seq<(string, Hit)>, k: string, v: Hit)
    ensures Keys(Set(es, k, v)) == if HasKey(es, k) then Keys(es) else Keys(es) + [k]
  {
    if !HasKey(es, k) {
      assert Set(es, k, v) == es + [(k, v)];
    }
  }

  lemma HasKeyIffInKeys(es: seq<(string, Hit)>, k: string)
    ensures HasKey(es, k) <==> k in Keys(es)
  {
    if k in Keys(es) {
      var i :| 0 <= i < |Keys(es)| && Keys(es)[i] == k;
      assert es[i].0 == k;
    }
  }

  /** The dict's keys are the raw ids, each once, in first-seen order. */
  lemma {:induction false} DedupeKeys(raw: seq<Hit>)
    ensures Keys(DedupeSpec(raw)) == FirstSeen(raw)
    ensures DistinctKeys(DedupeSpec(raw))
  {
    if raw != [] {
      var init := raw[..|raw| - 1];
      var h := raw[|raw| - 1];
      var before := DedupeSpec(init);
      DedupeKeys(init);
      HasKeyIffInKeys(before, h.id);
      KeysOfSet(before, h.id, h);
      SetDistinct(before, h.id, h);
    }
  }

  lemma {:induction false} DedupeValues(raw: seq<Hit>)
    ensures forall i :: 0 <= i < |DedupeSpec(raw)| ==>
      DedupeSpec(raw)[i].1.id == DedupeSpec(raw)[i].0 && DedupeSpec(raw)[i].1 in raw
  {
    if raw != [] {
      var init := raw[..|raw| - 1];
      var h := raw[|raw| - 1];
      var before := DedupeSpec(init);
      DedupeValues(init);
      var d := DedupeSpec(raw);
      forall i | 0 <= i < |d| ensures d[i].1.id == d[i].0 && d[i].1 in raw {
        if d != before {
          SetEntry(before, h.id, h, i);
        }
        if d[i].1 != h {
          assert d[i] == before[i];
          assert d[i].1 in init;
        }
      }
    }
  }

  /** Each entry of `d[k] = v` is the old entry or `(k, v)`. */
  lemma {:induction false} SetEntry(es: seq<(string, Hit)>, k: string, v: Hit, i: nat)
    requires i < |Set(es, k, v)|
    ensures Set(es, k, v)[i] == (k, v) || (i < |es| && Set(es, k, v)[i] == es[i])
  {
    if es != [] && es[0].0 != k && i > 0 {
      SetEntry(es[1..], k, v, i - 1);
    }
  }

  /** One step of the dedupe loop, for the id `k`. */
  lemma DedupeStep(raw: seq<Hit>, k: string)
    requires raw != []
    ensures var before := DedupeSpec(raw[..|raw| - 1]);
      var h := raw[|raw| - 1];
      Get(DedupeSpec(raw), k) ==
        if h.id != k then Get(before, k)
        else if Get(before, k).None? || h.score > Get(before, k).value.score then Some(h)
        else Get(before, k)
  {
    var before := DedupeSpec(raw[..|raw| - 1]);
    var h := raw[|raw| - 1];
    var kept := Get(before, h.id);
    if kept.None? || h.score > kept.value.score {
      assert DedupeSpec(raw) == Set(before, h.id, h);
      if h.id == k { GetSetSame(before, k, h); } else { GetSetOther(before, h.id, h, k); }
    } else {
      assert DedupeSpec(raw) == before;
    }
  }

  /** For every raw id, the kept record is its first best record. */
  lemma {:induction false} DedupeKeepsFirstBest(raw: seq<Hit>, k: string)
    requires exists i :: 0 <= i < |raw| && raw[i].id == k
    ensures Get(DedupeSpec(raw), k).Some? && IsFirstBest(raw, k, Get(DedupeSpec(raw), k).value)
  {
    var init := raw[..|raw| - 1];
    var h := raw[|raw| - 1];
    var before := Get(DedupeSpec(init), k);
    DedupeStep(raw, k);
    assert forall j :: 0 <= j < |init| ==> raw[j] == init[j];
    if forall j :: 0 <= j < |init| ==> init[j].id != k {
      DedupeNoneWhenAbsent(init, k);
      assert h.id == k;
      FirstBestLast(raw, k);
    } else {
      DedupeKeepsFirstBest(init, k);
      FirstBestExtend(raw, k, before.value);
    }
  }

  /** The first record with id `k` coming last is that id's first best. */
  lemma FirstBestLast(raw: seq<Hit>, k: string)
    requires raw != [] && raw[|raw| - 1].id == k
    requires forall j :: 0 <= j < |raw| - 1 ==> raw[j].id != k
    ensures IsFirstBest(raw, k, raw[|raw| - 1])
  {
    var init := raw[..|raw| - 1];
    assert forall j :: 0 <= j < |init| ==> raw[j] == init[j];
  }

  /** Appending a record keeps the first best, unless the record has the id
      and beats it, in which case the new record is the first best. */
  lemma FirstBestExtend(raw: seq<Hit>, k: string, kept: Hit)
    requires raw != [] && IsFirstBest(raw[..|raw| - 1], k, kept)
    ensures var h := raw[|raw| - 1];
      IsFirstBest(raw, k, if h.id == k && h.score > kept.score then h else kept)
  {
    var init := raw[..|raw| - 1];
    var h := raw[|raw| - 1];
    assert forall j :: 0 <= j < |init| ==> raw[j] == init[j];
    var i :| 0 <= i < |init| && init[i] == kept && kept.id == k
      && (forall j :: 0 <= j < i && init[j].id == k ==> init[j].score < kept.score);
    if h.id == k && h.score > kept.score {
      forall j | 0 <= j < |raw| - 1 && raw[j].id == k ensures raw[j].score < h.score {
        assert init[j].id == k;
      }
    } else {
      assert raw[i] == kept;
    }
  }

  lemma {:induction false} DedupeNoneWhenAbsent(raw: seq<Hit>, k: string)
    requires forall j :: 0 <= j < |raw| ==> raw[j].id != k
    ensures Get(DedupeSpec(raw), k).None?
  {
    if raw != [] {
      var init := raw[..|raw| - 1];
      var h := raw[|raw| - 1];
      DedupeNoneWhenAbsent(init, k);
      var before := DedupeSpec(init);
      if DedupeSpec(raw) != before {
        GetSetOther(before, h.id, h, k);
      }
    }
  }

  /** The records kept, in first-seen order (`best_by_id.values()`). */
  function Values(es: seq<(string, Hit)>): (vs: seq<Hit>)
    ensures |vs| == |es| && forall i :: 0 <= i < |es| ==> vs[i] == es[i].1
  {
    seq(|es|, i requires 0 <= i < |es| => es[i].1)
  }

  function HitId(h: Hit): string {
    h.id
  }

  function HitScore(h: Hit): real {
    h.score
  }

  /** `sorted(best_by_id.values(), key=score, reverse=True)[:k]`. */
  function Rank(raw: seq<Hit>, k: int): seq<Hit> {
    PyPrefix(SortDesc(Values(DedupeSpec(raw)), HitScore), k)
  }

  /** The ranked list: at most `k` records, best first, one per id, each the
      first best record for its id; with `k` at least the number of ids,
      every id is there. */
  lemma RankFacts(raw: seq<Hit>, k: int)
    ensures var r := Rank(raw, k);
      var n := |FirstSeen(raw)|;
      (k >= 0 ==> |r| == if k < n then k else n)
      && SortedDesc(r, HitScore)
      && (forall i, j :: 0 <= i < j < |r| ==> r[i].id != r[j].id)
      && (forall h :: h in r ==> IsFirstBest(raw, h.id, h))
  {
    var d := DedupeSpec(raw);
    var vs := Values(d);
    DedupeKeys(raw);
    DedupeValues(raw);
    SortDescFacts(vs, HitScore);
    var s := SortDesc(vs, HitScore);
    var r := Rank(raw, k);
    assert forall m :: 0 <= m < |r| ==> r[m] == s[m];
    forall h | h in vs ensures IsFirstBest(raw, h.id, h) {
      var i :| 0 <= i < |vs| && vs[i] == h;
      assert d[i].1 == h && d[i].0 == h.id && h in raw;
      GetAt(d, i);
      DedupeKeepsFirstBest(raw, h.id);
    }
    forall h | h in r ensures h in vs {
      var m :| 0 <= m < |r| && r[m] == h;
      assert s[m] in multiset(vs);
    }
    DistinctUnderPermutation(vs, s, HitId);
  }

  /** Records with equal scores keep the order in which their ids were first
      seen. */
  lemma RankTiesInFirstSeenOrder(raw: seq<Hit>, v: real)
    ensures var vs := Values(DedupeSpec(raw));
      WithKey(SortDesc(vs, HitScore), Neg(HitScore), v) == WithKey(vs, Neg(HitScore), v)
  {
    SortDescFacts(Values(DedupeSpec(raw)), HitScore);
  }

  // ------------------------------------------------------------------ price

  /** `int(x)`: truncation toward zero. */
  function Trunc(x: real): (n: int)
    ensures 0.0 <= x ==> n as real <= x < n as real + 1.0
    ensures x < 0.0 ==> n as real - 1.0 < x <= n as real
  {
    if x >= 0.0 then x.Floor else -((-x).Floor)
  }

  lemma TruncIntegral(x: real)
    ensures x == Trunc(x) as real <==> x == x.Floor as real
  {
    if x < 0.0 && x == x.Floor as real {
      assert (-x).Floor == -x.Floor;
    }
  }

  /** The price string: "N/A" for no price, `₹` and the whole number for an
      integral price, otherwise `₹` and the price rounded to 2 places. */
  function PriceDisplay(p: Option<real>): string {
    match p
    case None => "N/A"
    case Some(v) =>
      if v == Trunc(v) as real then "₹" + IntText(Trunc(v))
      else "₹" + FloatText(Finite(Round2(v)))
  }

  /** The display is "N/A" exactly when there is no price. */
  lemma PriceNAIff(p: Option<real>)
    ensures PriceDisplay(p) == "N/A" <==> p.None?
  {
    if p.Some? {
      assert PriceDisplay(p)[0] == '₹';
    }
  }

  /** An integral price is shown with no decimals, and the digits are the
      price. */
  lemma PriceIntegralShown(v: real)
    requires v == v.Floor as real
    ensures var d := PriceDisplay(Some(v));
      d == "₹" + IntText(v.Floor)
      && (v >= 0.0 ==> DigitsValue(d[1..]) == v.Floor)
      && (v < 0.0 ==> d[1] == '-' && DigitsValue(d[2..]) == -v.Floor)
  {
    TruncIntegral(v);
    if v < 0.0 {
      assert (-v).Floor == -v.Floor;
    }
    assert Trunc(v) == v.Floor;
    DisplayDigits(PriceDisplay(Some(v)), v.Floor);
  }

  lemma DisplayDigits(d: string, i: int)
    requires d == "₹" + IntText(i)
    ensures i >= 0 ==> DigitsValue(d[1..]) == i
    ensures i < 0 ==> d[1] == '-' && DigitsValue(d[2..]) == -i
  {
    if i >= 0 {
      assert d[1..] == NatText(i);
      NatTextRoundTrip(i);
    } else {
      assert d[2..] == NatText(-i);
      NatTextRoundTrip(-i);
    }
  }

  /** Any other price is shown as Python prints it after rounding to two
      places, which moves it by at most half a cent. */
  lemma PriceFractionShown(v: real)
    requires v != v.Floor as real
    ensures exists r :: PriceDisplay(Some(v)) == "₹" + FloatText(Finite(r)) && v - 0.005 <= r <= v + 0.005 && Round2(r) == r
  {
    TruncIntegral(v);
    Round2Idempotent(v);
    assert PriceDisplay(Some(v)) == "₹" + FloatText(Finite(Round2(v)));
  }

  // --------------------------------------------------------------- sanitize

  /** No NaN or infinite float anywhere in the value. */
  predicate Clean(v: Value)
    decreases v
  {
    match v
    case Float(x) => x.Finite?
    case List(xs) => forall i :: 0 <= i < |xs| ==> Clean(xs[i])
    case Dict(es) => forall i :: 0 <= i < |es| ==> Clean(es[i].1)
    case _ => true
  }

  /** `_sanitize(obj)`: NaN and infinities become 0.0, dicts and lists are
      rebuilt element by element, everything else is returned as is. */
  function Sanitize(v: Value): Value
    decreases v
  {
    match v
    case Float(x) => if x.Finite? then v else Float(Finite(0.0))
    case List(xs) => List(seq(|xs|, i requires 0 <= i < |xs| => Sanitize(xs[i])))
    case Dict(es) => Dict(seq(|es|, i requires 0 <= i < |es| => (es[i].0, Sanitize(es[i].1))))
    case _ => v
  }

  /** Sanitizing keeps the shape: the same kind of value, the same dict keys
      in the same order, the same list length, and other leaves untouched. */
  lemma SanitizeShape(v: Value)
    ensures var r := Sanitize(v);
      (v.List? <==> r.List?) && (v.Dict? <==> r.Dict?) && (v.Float? <==> r.Float?)
      && (v.List? ==> |r.items| == |v.items|)
      && (v.Dict? ==> Keys(r.entries) == Keys(v.entries))
      && (!v.List? && !v.Dict? && !v.Float? ==> r == v)
      && (v.Float? ==> r.x == if v.x.Finite? then v.x else Finite(0.0))
  {
  }

  /** The result is clean. */
  lemma {:induction false} SanitizeClean(v: Value)
    ensures Clean(Sanitize(v))
    decreases v
  {
    match v
    case List(xs) =>
      forall i | 0 <= i < |xs| ensures Clean(Sanitize(xs[i])) { SanitizeClean(xs[i]); }
    case Dict(es) =>
      forall i | 0 <= i < |es| ensures Clean(Sanitize(es[i].1)) { SanitizeClean(es[i].1); }
    case _ =>
  }

  /** A clean value is left exactly as it is. */
  lemma {:induction false} SanitizeKeepsClean(v: Value)
    requires Clean(v)
    ensures Sanitize(v) == v
    decreases v
  {
    match v
    case List(xs) =>
      forall i | 0 <= i < |xs| ensures Sanitize(xs[i]) == xs[i] { SanitizeKeepsClean(xs[i]); }
      assert Sanitize(v).items == xs;
    case Dict(es) =>
      forall i | 0 <= i < |es| ensures Sanitize(es[i].1) == es[i].1 { SanitizeKeepsClean(es[i].1); }
      assert Sanitize(v).entries == es;
    case _ =>
  }

  /** Sanitizing twice is sanitizing once. */
  lemma SanitizeIdempotent(v: Value)
    ensures Sanitize(Sanitize(v)) == Sanitize(v)
  {
    SanitizeClean(v);
    SanitizeKeepsClean(Sanitize(v));
  }

  // ----------------------------------------------------------------- enrich

  datatype HttpError = HttpError(status: int, detail: string)

  const InternalError := HttpError(500, "Internal Server Error")

  /** `round(price_val)` as stored in the record: a float or None. */
  function PriceValue(p: Option<real>): Value {
    if p.Some? then Float(Finite(p.value)) else Null
  }

  /** The description after the defensive "nan" replacement. */
  function CleanDescription(meta: Value, text: string): string {
    var d := GenerateDescription(meta, text);
    if Contains(d, "nan") then Replace(d, "nan", "N/A") else d
  }

  /** The record built for a hit whose metadata is the dict `meta`. */
  function Record(h: Hit, meta: Value, text: string): Value
    requires meta.Dict?
  {
    var priceVal := SafeFloat(Field(meta.entries, "price"));
    Dict([
      ("id", Str(h.id)),
      ("score", Float(Finite(Round6(h.score)))),
      ("metadata", meta),
      ("price", PriceValue(priceVal)),
      ("price_display", Str(PriceDisplay(priceVal))),
      ("generated_description", Str(CleanDescription(meta, text)))])
  }

  /** One enriched record, or the error a metadata value without `.get`
      raises; missing or falsy metadata counts as `{}`. */
  function EnrichSpec(h: Hit, text: string): (r: Result<Value, HttpError>)
    ensures r.Err? <==> !Or(h.metadata, Dict([])).Dict?
    ensures r.Err? ==> r.error == InternalError
  {
    var meta := Or(h.metadata, Dict([]));
    if !meta.Dict? then Err(InternalError) else Ok(Record(h, meta, text))
  }

  /** The generated description never contains "nan". */
  lemma DescriptionHasNoNan(meta: Value, text: string)
    ensures !Contains(CleanDescription(meta, text), "nan")
  {
    var d := GenerateDescription(meta, text);
    if Contains(d, "nan") {
      ReplaceNanGone(d);
    }
  }

  /** An enriched record carries the id, the score rounded to 6 places,
      the price `_safe_float` reads from the metadata, its display string
      (None exactly when the display is "N/A"), and the generated
      description free of "nan"; missing or falsy metadata becomes `{}`. */
  lemma EnrichFacts(h: Hit, text: string)
    requires !Truthy(h.metadata) || h.metadata.Dict?
    ensures EnrichSpec(h, text).Ok?
    ensures var es := EnrichSpec(h, text).value.entries;
      |es| == 6
      && es[0] == ("id", Str(h.id))
      && es[1].1.Float? && es[1].1.x.Finite? && h.score - 0.0000005 <= es[1].1.x.r <= h.score + 0.0000005
      && es[2].1 == (if Truthy(h.metadata) then h.metadata else Dict([]))
      && (es[3].1 == Null <==> es[4].1 == Str("N/A"))
      && es[5].1.Str? && !Contains(es[5].1.s, "nan")
  ensures var m := Or(h.metadata, Dict([]));
    var es := EnrichSpec(h, text).value.entries;
    var p := SafeFloat(Field(m.entries, "price"));
    es[3] == ("price", PriceValue(p))
      && es[4] == ("price_display", Str(PriceDisplay(p)))
      && es[5] == ("generated_description", Str(CleanDescription(m, text)))
  {
    var meta := Or(h.metadata, Dict([]));
    var p := SafeFloat(Field(meta.entries, "price"));
    PriceNAIff(p);
    DescriptionHasNoNan(meta, text);
  }

  /** The values of a run of steps that each may fail, or the first
      failure: what a loop that raises on its first bad element returns. */
  function Collect<V, E>(rs: seq<Result<V, E>>): Result<seq<V>, E> {
    if rs == [] then Ok([])
    else
      match Collect(rs[..|rs| - 1])
      case Err(e) => Err(e)
      case Ok(vs) =>
        match rs[|rs| - 1]
        case Err(e) => Err(e)
        case Ok(v) => Ok(vs + [v])
  }

  /** Collecting succeeds exactly when every step does, and then yields the
      steps' values in order. */
  lemma {:induction false} CollectOk<V, E>(rs: seq<Result<V, E>>)
    ensures Collect(rs).Ok? <==> forall i :: 0 <= i < |rs| ==> rs[i].Ok?
    ensures Collect(rs).Ok? ==> |Collect(rs).value| == |rs| && forall i :: 0 <= i < |rs| ==> rs[i] == Ok(Collect(rs).value[i])
  {
    if rs != [] {
      var init := rs[..|rs| - 1];
      CollectOk(init);
      assert forall i :: 0 <= i < |init| ==> rs[i] == init[i];
    }
  }

  /** One more step of the loop: its value is appended, or its failure is
      the result. */
  lemma CollectStep<V, E>(rs: seq<Result<V, E>>, i: nat)
    requires i < |rs| && Collect(rs[..i]).Ok?
    ensures Collect(rs[..i + 1]) == match rs[i]
      case Ok(v) => Ok(Collect(rs[..i]).value + [v])
      case Err(e) => Err(e)
  {
    assert rs[..i + 1][..i] == rs[..i];
  }

  /** Once a prefix has failed, the whole run fails the same way. */
  lemma {:induction false} CollectErrStays<V, E>(rs: seq<Result<V, E>>, n: nat)
    requires n <= |rs| && Collect(rs[..n]).Err?
    ensures Collect(rs) == Collect(rs[..n])
    decreases |rs| - n
  {
    if n < |rs| {
      assert rs[..n + 1][..n] == rs[..n];
      CollectErrStays(rs, n + 1);
    } else {
      assert rs[..n] == rs;
    }
  }

  /** A failure is the first failing step's. */
  lemma {:induction false} CollectFirstErr<V, E>(rs: seq<Result<V, E>>, n: nat)
    requires n < |rs| && rs[n].Err? && forall i :: 0 <= i < n ==> rs[i].Ok?
    ensures Collect(rs) == Err(rs[n].error)
  {
    var init := rs[..|rs| - 1];
    if n < |init| {
      CollectFirstErr(init, n);
    } else {
      CollectOk(init);
    }
  }

  /** The enrichment step for each ranked hit. */
  function EnrichSteps(hs: seq<Hit>, text: string): (rs: seq<Result<Value, HttpError>>)
    ensures |rs| == |hs| && forall i :: 0 <= i < |hs| ==> rs[i] == EnrichSpec(hs[i], text)
  {
    seq(|hs|, i requires 0 <= i < |hs| => EnrichSpec(hs[i], text))
  }

  /** The records for the ranked list, or the first error. */
  function EnrichAll(hs: seq<Hit>, text: string): Result<seq<Value>, HttpError> {
    Collect(EnrichSteps(hs, text))
  }

  /** Enriching fails exactly when some ranked hit has truthy metadata
      that is not a dict, and then with status 500; otherwise it yields one
      record per hit, in ranked order. */
  lemma EnrichAllFacts(hs: seq<Hit>, text: string)
    ensures var r := EnrichAll(hs, text);
      (r.Err? <==> exists i :: 0 <= i < |hs| && !Or(hs[i].metadata, Dict([])).Dict?)
      && (r.Err? ==> r.error == InternalError)
      && (r.Ok? ==> |r.value| == |hs| && forall i :: 0 <= i < |hs| ==> EnrichSpec(hs[i], text) == Ok(r.value[i]))
  {
    var rs := EnrichSteps(hs, text);
    CollectOk(rs);
    if Collect(rs).Err? {
      var n := FirstErr(rs);
      CollectFirstErr(rs, n);
    }
  }

  /** The position of the first failing step. */
  function FirstErr<V, E>(rs: seq<Result<V, E>>): (n: nat)
    requires exists i :: 0 <= i < |rs| && rs[i].Err?
    ensures n < |rs| && rs[n].Err? && forall i :: 0 <= i < n ==> rs[i].Ok?
  {
    if rs[0].Err? then 0 else 1 + FirstErr(rs[1..])
  }

  // ---------------------------------------------------------------- recommend

  const EmptyMessage: string := "No items indexed yet. Upload dataset first."

  /** The number of candidates fetched: `max(20, k * 3)`. */
  function FetchCount(k: int): (n: int)
    ensures n >= 20 && n >= 3 * k
    ensures n == 20 || n == 3 * k
  {
    if 20 >= k * 3 then 20 else k * 3
  }

  /** The reply body for a non-empty candidate list. */
  function ResultsBody(raw: seq<Hit>, k: int, text: string): (r: Result<Value, HttpError>)
    ensures r.Err? ==> r.error == InternalError
  {
    EnrichAllFacts(Rank(raw, k), text);
    match EnrichAll(Rank(raw, k), text)
    case Err(e) => Err(e)
    case Ok(vs) => Ok(Sanitize(Dict([("results", List(vs))])))
  }

  const EmptyReply: Value := Dict([("results", List([])), ("message", Str(EmptyMessage))])

  /** The reply for the outcome of the store query. */
  function Reply(qr: Result<seq<Hit>, QueryError>, k: int, text: string): (r: Result<Value, HttpError>)
    ensures r.Err? ==> r.error == InternalError
  {
    if qr.Err? then Err(InternalError)
    else if qr.value == [] then Ok(EmptyReply)
    else ResultsBody(qr.value, k, text)
  }

  /** Everything after the embedding: initialise the index for its width,
      fetch `FetchCount(k)` candidates and build the reply. */
  function Answer(s: Store, hasFaiss: bool, q: seq<Num>, k: int, text: string, hits: seq<(Num, int)>)
    : (r: (Store, Result<Value, HttpError>))
    ensures r.1.Err? ==> r.1.error == InternalError
  {
    var (s2, qr) := QuerySpec(InitSpec(s, |q|, hasFaiss), q, FetchCount(k), hits, hasFaiss);
    (s2, Reply(qr, k, text))
  }

  /** `recommend(prompt)`: the store after the call and the reply. The
      embedder's answer for the stripped prompt and the FAISS search answer
      are parameters. */
  function RecommendSpec(s: Store, hasFaiss: bool, prompt: string, k: int, embedding: Option<seq<Num>>, hits: seq<(Num, int)>)
    : (Store, Result<Value, HttpError>)
  {
    var text := Strip(prompt);
    if text == [] then (s, Err(HttpError(400, "Prompt must not be empty.")))
    else if embedding.None? then (s, Err(HttpError(500, "Failed to generate embedding.")))
    else Answer(s, hasFaiss, embedding.value, k, text, hits)
  }

  /** Exactly the blank prompts are rejected with status 400. */
  lemma BlankPromptIff(s: Store, hasFaiss: bool, prompt: string, k: int, embedding: Option<seq<Num>>, hits: seq<(Num, int)>)
    ensures var r := RecommendSpec(s, hasFaiss, prompt, k, embedding, hits).1;
      (r.Err? && r.error.status == 400) <==> AllSpace(prompt)
  {
    StripEmptyIff(prompt);
  }

  /** A store with nothing to return answers with an empty list and a
      message, not an error. */
  lemma EmptyIndexMessage(s: Store, hasFaiss: bool, prompt: string, k: int, q: seq<Num>, hits: seq<(Num, int)>)
    requires !AllSpace(prompt)
    requires LoadedRows(s.files, hasFaiss) == []
    ensures RecommendSpec(s, hasFaiss, prompt, k, Some(q), hits).1 == Ok(EmptyReply)
  {
    StripEmptyIff(prompt);
    QueryEmptyStore(InitSpec(s, |q|, hasFaiss), q, FetchCount(k), hits, hasFaiss);
  }

  /** A successful reply holds no NaN or infinite float, and when it lists
      results there are at most `k` of them, each an enriched record. */
  lemma ReplyClean(qr: Result<seq<Hit>, QueryError>, k: int, text: string)
    ensures var r := Reply(qr, k, text);
      r.Ok? ==> (Clean(r.value) && r.value.Dict? && |r.value.entries| >= 1 && r.value.entries[0].0 == "results"
        && r.value.entries[0].1.List? && (k >= 0 ==> |r.value.entries[0].1.items| <= k))
  {
    if qr.Ok? && qr.value != [] {
      var ranked := Rank(qr.value, k);
      var e := EnrichAll(ranked, text);
      if e.Ok? {
        EnrichAllFacts(ranked, text);
        var body := Dict([("results", List(e.value))]);
        SanitizeClean(body);
        SanitizeShape(body);
        SanitizeShape(List(e.value));
        assert |ranked| <= (if k >= 0 then k else 0) || k < 0;
      }
    }
  }

  lemma ReplyIsClean(s: Store, hasFaiss: bool, prompt: string, k: int, embedding: Option<seq<Num>>, hits: seq<(Num, int)>)
    ensures var r := RecommendSpec(s, hasFaiss, prompt, k, embedding, hits).1;
      r.Ok? ==> (Clean(r.value) && r.value.Dict? && |r.value.entries| >= 1 && r.value.entries[0].0 == "results"
        && r.value.entries[0].1.List? && (k >= 0 ==> |r.value.entries[0].1.items| <= k))
  {
    if Strip(prompt) != [] && embedding.Some? {
      var q := embedding.value;
      var qr := QuerySpec(InitSpec(s, |q|, hasFaiss), q, FetchCount(k), hits, hasFaiss).1;
      ReplyClean(qr, k, Strip(prompt));
      assert RecommendSpec(s, hasFaiss, prompt, k, embedding, hits).1 == Reply(qr, k, Strip(prompt));
    }
  }

  /** The dedupe loop of `recommend`. */
  method DedupeBest(raw: seq<Hit>) returns (best: seq<(string, Hit)>)
    ensures best == DedupeSpec(raw)
  {
    best := [];
    var i := 0;
    while i < |raw|
      invariant 0 <= i <= |raw|
      invariant best == DedupeSpec(raw[..i])
    {
      var r := raw[i];
      assert raw[..i + 1][..i] == raw[..i];
      var kept := Get(best, r.id);
      if kept.None? || r.score > kept.value.score {
        best := Set(best, r.id, r);
      }
      i := i + 1;
    }
    assert raw[..|raw|] == raw;
  }

  /** The enrichment loop of `recommend`. */
  method EnrichLoop(ranked: seq<Hit>, text: string) returns (r: Result<seq<Value>, HttpError>)
    ensures r == EnrichAll(ranked, text)
  {
    ghost var rs := EnrichSteps(ranked, text);
    var enriched: seq<Value> := [];
    var i := 0;
    while i < |ranked|
      invariant 0 <= i <= |ranked|
      invariant Collect(rs[..i]) == Ok(enriched)
    {
      var h := ranked[i];
      var meta := Or(h.metadata, Dict([]));
      if !meta.Dict? {
        assert rs[i] == Err(InternalError);
        CollectStep(rs, i);
        CollectErrStays(rs, i + 1);
        return Err(InternalError);
      }
      assert rs[i] == Ok(Record(h, meta, text));
      CollectStep(rs, i);
      enriched := enriched + [Record(h, meta, text)];
      i := i + 1;
    }
    assert rs[..|ranked|] == rs;
    return Ok(enriched);
  }

  /** The endpoint itself, run against the module-level store. */
  method RecommendCall(store: VectorStore, prompt: string, k: int, embedding: Option<seq<Num>>, hits: seq<(Num, int)>)
    returns (r: Result<Value, HttpError>)
    modifies store
    ensures (store.State(), r) == RecommendSpec(old(store.State()), store.hasFaiss, prompt, k, embedding, hits)
  {
    var text := Strip(prompt);
    if text == [] {
      return Err(HttpError(400, "Prompt must not be empty."));
    }
    if embedding.None? {
      return Err(HttpError(500, "Failed to generate embedding."));
    }
    var q := embedding.value;
    store.Init(|q|);
    var raw := store.Query(q, FetchCount(k), hits);
    if raw.Err? {
      return Err(InternalError);
    }
    if raw.value == [] {
      return Ok(EmptyReply);
    }
    var best := DedupeBest(raw.value);
    var deduped := PyPrefix(SortDesc(Values(best), HitScore), k);
    var enriched := EnrichLoop(deduped, text);
    if enriched.Err? {
      return Err(enriched.error);
    }
    return Ok(Sanitize(Dict([("results", List(enriched.value))])));
  }
}
