/** The model list of `list_gemini_models`: from the decoded response of the
    models endpoint, the names of the models that support `generateContent`.
    The request and the JSON decoding are not part of this model; a response
    arrives as the part of the JSON value the filter looks at. */
module GeminiModels {
  import opened Chars

  /** One element of the `models` array: `name` when it is a string, and
      `supportedGenerationMethods` when it is an array, with each element's
      string value when it is a string. An element that is not an object has
      neither. */
  datatype ModelEntry = ModelEntry(name: Option<string>, supportedGenerationMethods: Option<seq<Option<string>>>)

  const GenerateContent := "generateContent"

  const UnexpectedResponse := "Unexpected response from models endpoint"

  /** A missing or non-array `supportedGenerationMethods` counts as not supported. */
  predicate Supports(m: ModelEntry)
  {
    m.supportedGenerationMethods.Some? && Some(GenerateContent) in m.supportedGenerationMethods.value
  }

  /** The name of the entry when the filter keeps it. */
  function Kept(m: ModelEntry): (r: Option<string>)
  {
    match m.name
    case None => None
    case Some(n) => if Supports(m) then Some(n) else None
  }

  /** The `filter_map` over the entries, in order. */
  function FilterModels(models: seq<ModelEntry>): (r: seq<string>)
    ensures |r| <= |models|
  {
    if models == [] then []
    else
      (match Kept(models[0]) case None => [] case Some(n) => [n]) + FilterModels(models[1..])
  }

  /** The result of `list_gemini_models`, given `json["models"].as_array()`. */
  function ListModels(models: Option<seq<ModelEntry>>): (r: Result<seq<string>>)
    ensures r.Err? <==> models.None?
    ensures r.Err? ==> r.reason == UnexpectedResponse
  {
    match models
    case None => Err(UnexpectedResponse)
    case Some(ms) => Ok(FilterModels(ms))
  }

  // ─── Properties ─────────────────────────────────────────────────────────

  /** Filtering a concatenation filters each part. */
  lemma {:induction false} FilterAppend(a: seq<ModelEntry>, b: seq<ModelEntry>)
    ensures FilterModels(a + b) == FilterModels(a) + FilterModels(b)
    decreases |a|
  {
    if a == [] {
      assert a + b == b;
    } else {
      assert (a + b)[0] == a[0];
      assert (a + b)[1..] == a[1..] + b;
      FilterAppend(a[1..], b);
    }
  }

  /** A name is listed exactly when some entry has it as its name and
      supports `generateContent`. */
  lemma {:induction false} FilterMembership(models: seq<ModelEntry>, n: string)
    ensures n in FilterModels(models) <==>
      exists i :: 0 <= i < |models| && models[i].name == Some(n) && Supports(models[i])
    decreases |models|
  {
    if models != [] {
      FilterMembership(models[1..], n);
      if n in FilterModels(models[1..]) {
        var i :| 0 <= i < |models[1..]| && models[1..][i].name == Some(n) && Supports(models[1..][i]);
        assert models[i + 1] == models[1..][i];
      }
      if exists i :: 0 <= i < |models| && models[i].name == Some(n) && Supports(models[i]) {
        var i :| 0 <= i < |models| && models[i].name == Some(n) && Supports(models[i]);
        if i > 0 {
          assert models[1..][i - 1] == models[i];
        }
      }
    }
  }

  /** Kept entries are listed in the order of the response: the names of two
      kept entries appear in the same order in the list. */
  lemma KeptInOrder(models: seq<ModelEntry>, i: nat, j: nat)
    requires i < j < |models|
    requires Kept(models[i]).Some? && Kept(models[j]).Some?
    ensures exists p, q ::
              && 0 <= p < q < |FilterModels(models)|
              && FilterModels(models)[p] == Kept(models[i]).value
              && FilterModels(models)[q] == Kept(models[j]).value
  {
    var r := FilterModels(models);
    var a, mid, b := models[..i], models[i + 1..j], models[j + 1..];
    assert models == a + [models[i]] + mid + [models[j]] + b;
    FilterAppend(a + [models[i]] + mid + [models[j]], b);
    FilterAppend(a + [models[i]] + mid, [models[j]]);
    FilterAppend(a + [models[i]], mid);
    FilterAppend(a, [models[i]]);
    var p := |FilterModels(a)|;
    var q := p + 1 + |FilterModels(mid)|;
    assert r[p] == Kept(models[i]).value;
    assert r[q] == Kept(models[j]).value;
  }

  /** An entry without a string name is never listed, whatever its methods. */
  lemma NamelessDropped(a: seq<ModelEntry>, m: ModelEntry, b: seq<ModelEntry>)
    requires m.name.None?
    ensures FilterModels(a + [m] + b) == FilterModels(a + b)
  {
    FilterAppend(a + [m], b);
    FilterAppend(a, [m]);
    FilterAppend(a, b);
  }
}
