/** The description generator: a sentence assembled from a product's title,
    brand and price, each clause present only when its field is truthy. */
module GenAi {
  import opened Wrappers
  import opened PyText
  import opened PyValues
  import opened Dicts

  /** `metadata.get(key)`: the field's value, or None (`Null`). */
  function Field(es: seq<(string, Value)>, key: string): Value {
    Get(es, key).GetOr(Null)
  }

  /** The separator the source writes between brand and price: the UTF-8
      bytes of an em dash read back as Windows-1252, i.e. the three
      characters U+00E2 U+20AC U+201D. */
  const PriceLead: string := " \U{00E2}\U{20AC}\U{201D} priced at "

  const Ending: string := ". Great choice when you want "

  /** `title = metadata.get("title") or "Product"`, as interpolated. */
  function TitleText(es: seq<(string, Value)>): string {
    PyStr(Or(Field(es, "title"), Str("Product")))
  }

  /** The `" by {brand}"` clause, or nothing. */
  function BrandText(es: seq<(string, Value)>): string {
    var brand := Or(Field(es, "brand"), Str(""));
    if Truthy(brand) then " by " + PyStr(brand) else ""
  }

  /** The price clause, or nothing. */
  function PriceText(es: seq<(string, Value)>): string {
    var price := Or(Field(es, "price"), Str(""));
    if Truthy(price) then PriceLead + PyStr(price) else ""
  }

  /** The text returned when the metadata has no `.get` (the `except`
      branch). */
  function FallbackText(prompt: string): string {
    "A product suitable for '" + prompt + "'."
  }

  /** The closing recommendation that names the prompt. */
  function Closing(prompt: string): string {
    Ending + prompt + "."
  }

  /** `generate_description(metadata, user_prompt)`. */
  function GenerateDescription(meta: Value, prompt: string): string {
    if !meta.Dict? then FallbackText(prompt)
    else
      var es := meta.entries;
      TitleText(es) + BrandText(es) + PriceText(es) + Closing(prompt)
  }

  predicate StartsWith(s: string, p: string) {
    |p| <= |s| && s[..|p|] == p
  }

  /** Regrouping the four parts of the assembled sentence. */
  lemma Regroup(t: string, b: string, p: string, c: string)
    ensures t + b + p + c == t + (b + (p + c)) == (t + b) + (p + c)
  {
  }

  /** A concatenation starts with its first part, and dropping that part
      leaves the second. */
  lemma DropPrefix(t: string, x: string)
    ensures StartsWith(t + x, t) && (t + x)[|t|..] == x
  {
    assert (t + x)[..|t|] == t;
  }

  /** A concatenation ends with its second part. */
  lemma TakeSuffix(x: string, c: string)
    ensures |c| <= |x + c| && (x + c)[|x + c| - |c|..] == c
  {
  }

  /** Metadata that is not a dict yields the fixed fallback sentence, which
      quotes the prompt. */
  lemma FallbackQuotesPrompt(meta: Value, prompt: string)
    requires !meta.Dict?
    ensures var r := GenerateDescription(meta, prompt);
      r == FallbackText(prompt) && r[24..|r| - 2] == prompt
  {
  }

  /** The sentence opens with the title when the title is truthy, and with
      "Product" otherwise. */
  lemma TitleOpens(es: seq<(string, Value)>, prompt: string)
    ensures var t := Field(es, "title");
      StartsWith(GenerateDescription(Dict(es), prompt), if Truthy(t) then PyStr(t) else "Product")
  {
    var t, b, p, c := TitleText(es), BrandText(es), PriceText(es), Closing(prompt);
    Regroup(t, b, p, c);
    DropPrefix(t, b + (p + c));
  }

  /** On the normal path the sentence always ends with the recommendation
      naming the prompt. */
  lemma EndsWithPrompt(es: seq<(string, Value)>, prompt: string)
    ensures var r := GenerateDescription(Dict(es), prompt);
      var tail := Ending + prompt + ".";
      |tail| <= |r| && r[|r| - |tail|..] == tail
  {
    TakeSuffix(TitleText(es) + BrandText(es) + PriceText(es), Closing(prompt));
  }

  /** The closing never starts like a clause. */
  lemma ClosingStart(prompt: string)
    ensures var c := Closing(prompt);
      |c| >= 2 && c[1] != 'b' && c[1] != PriceLead[1]
  {
  }

  lemma BrandTextIs(es: seq<(string, Value)>)
    ensures var brand := Field(es, "brand");
      BrandText(es) == if Truthy(brand) then " by " + PyStr(brand) else ""
  {
  }

  lemma PriceTextIs(es: seq<(string, Value)>)
    ensures var price := Field(es, "price");
      PriceText(es) == if Truthy(price) then PriceLead + PyStr(price) else ""
  {
  }

  /** An optional clause `lead + x` followed by text that differs from
      `lead` in its second character: the whole starts with `lead` exactly
      when the clause is there. */
  lemma SlotIff(b: string, rest: string, on: bool, lead: string, x: string)
    requires b == if on then lead + x else ""
    requires |rest| >= 2 && |lead| >= 2 && rest[1] != lead[1]
    ensures (StartsWith(b + rest, lead) <==> on) && (on ==> StartsWith(b + rest, lead + x))
  {
    if on {
      assert (b + rest)[..|b|] == b;
      assert (b + rest)[..|lead|] == b[..|lead|];
    } else {
      assert (b + rest)[1] == rest[1];
    }
  }

  /** The text after the brand slot starts with the price clause or the
      closing, neither of which has a 'b' second. */
  lemma RestAfterBrand(es: seq<(string, Value)>, prompt: string)
    ensures var rest := PriceText(es) + Closing(prompt);
      |rest| >= 2 && rest[1] != 'b'
  {
    ClosingStart(prompt);
    var p := PriceText(es);
    if p != "" {
      assert p[1] == PriceLead[1];
    }
  }

  /** Right after the title comes `" by "` exactly when the brand is truthy,
      and then the brand. */
  lemma BrandClauseIff(es: seq<(string, Value)>, prompt: string)
    ensures var r := GenerateDescription(Dict(es), prompt);
      var after := r[|TitleText(es)|..];
      var brand := Field(es, "brand");
      (StartsWith(after, " by ") <==> Truthy(brand))
      && (Truthy(brand) ==> StartsWith(after, " by " + PyStr(brand)))
  {
    var brand := Field(es, "brand");
    var t, b, p, c := TitleText(es), BrandText(es), PriceText(es), Closing(prompt);
    Regroup(t, b, p, c);
    DropPrefix(t, b + (p + c));
    BrandTextIs(es);
    RestAfterBrand(es, prompt);
    SlotIff(b, p + c, Truthy(brand), " by ", PyStr(brand));
  }

  /** After the title and brand clause comes the price clause exactly when
      the price is truthy, so a price of 0 or "" is left out. */
  lemma PriceClauseIff(es: seq<(string, Value)>, prompt: string)
    ensures var r := GenerateDescription(Dict(es), prompt);
      var after := r[|TitleText(es)| + |BrandText(es)|..];
      var price := Field(es, "price");
      (StartsWith(after, PriceLead) <==> Truthy(price))
      && (Truthy(price) ==> StartsWith(after, PriceLead + PyStr(price)))
  {
    var price := Field(es, "price");
    var t, b, p, c := TitleText(es), BrandText(es), PriceText(es), Closing(prompt);
    Regroup(t, b, p, c);
    DropPrefix(t + b, p + c);
    PriceTextIs(es);
    ClosingStart(prompt);
    SlotIff(p, c, Truthy(price), PriceLead, PyStr(price));
  }
}
