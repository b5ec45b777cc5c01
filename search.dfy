/**
 * The semantic search: the query is lower-cased and the first key of the intent map, in
 * the map's own order, that occurs in it selects that key's intents; when no key occurs,
 * a single fallback hint is shown.
 */
module SemanticSearch {
  import opened Wrappers
  import opened Text

  /** The keys of the intent map, in the order the map literal declares them. */
  const Keys: seq<string> := ["db", "connect", "api", "auth", "cache"]

  const IntentMap: map<string, seq<string>> := map[
    "db" := ["Use SqlConnection with using-block and connection string.", "Repository pattern for data access isolation."],
    "connect" := ["Open connection asynchronously: await conn.OpenAsync();"],
    "api" := ["Use HttpClientFactory and typed clients for maintainability."],
    "auth" := ["Prefer JWT bearer with refresh token flow."],
    "cache" := ["Wrap expensive calls with IMemoryCache/GetOrCreate."]
  ]

  const Fallback: string := "No semantic match found. Try: DB, API, auth, cache."

  /** Every key has its intents, and no intent list is the fallback's. */
  lemma IntentMapShape()
    ensures forall k :: k in Keys <==> k in IntentMap
    ensures forall k :: k in IntentMap ==> IntentMap[k] != [] && IntentMap[k] != [Fallback]
  {
  }

  /** The first key from position i on that occurs in q. */
  function FindKeyFrom(q: string, i: nat): (r: Option<nat>)
    requires i <= |Keys|
    ensures r.Some? ==> i <= r.value < |Keys| && Contains(q, Keys[r.value])
    ensures r.Some? ==> forall j :: i <= j < r.value ==> !Contains(q, Keys[j])
    ensures r.None? ==> forall j :: i <= j < |Keys| ==> !Contains(q, Keys[j])
    decreases |Keys| - i
  {
    if i == |Keys| then None
    else if Contains(q, Keys[i]) then Some(i)
    else FindKeyFrom(q, i + 1)
  }

  /** `Object.keys(semanticIntentMap).find((k) => query.toLowerCase().includes(k))`, as an index into Keys. */
  function FindKey(query: string): (r: Option<nat>)
    ensures r.Some? ==> r.value < |Keys| && Contains(Lower(query), Keys[r.value])
    ensures r.Some? ==> forall j :: 0 <= j < r.value ==> !Contains(Lower(query), Keys[j])
    ensures r.None? <==> forall j :: 0 <= j < |Keys| ==> !Contains(Lower(query), Keys[j])
  {
    FindKeyFrom(Lower(query), 0)
  }

  /** `semanticSearch(query)`: the intents of the key found, or the fallback hint. */
  function Results(query: string): (r: seq<string>)
    ensures r != []
    ensures r == [Fallback] <==> forall j :: 0 <= j < |Keys| ==> !Contains(Lower(query), Keys[j])
    ensures r != [Fallback] ==> exists j :: 0 <= j < |Keys| && Contains(Lower(query), Keys[j]) && r == IntentMap[Keys[j]]
  {
    IntentMapShape();
    match FindKey(query)
    case None => [Fallback]
    case Some(j) => assert Keys[j] in Keys; IntentMap[Keys[j]]
  }

  /** A key that occurs wins over every key declared after it. */
  lemma FirstKeyWins(query: string, j: nat)
    requires j < |Keys| && Contains(Lower(query), Keys[j])
    requires forall i :: 0 <= i < j ==> !Contains(Lower(query), Keys[i])
    ensures Results(query) == IntentMap[Keys[j]]
  {
    var r := FindKey(query);
    assert r.Some?;
    assert r.value == j;
  }

  /** `db` comes first: any query mentioning it shows the data-access intents, whatever else it mentions. */
  lemma DbFirst(query: string)
    requires Contains(Lower(query), "db")
    ensures Results(query) == IntentMap["db"]
  {
    FirstKeyWins(query, 0);
  }

  lemma LowerCharIdempotent(c: char)
    ensures LowerChar(LowerChar(c)) == LowerChar(c)
  {
  }

  /** The search ignores ASCII case: a query and its lower-case form give the same results. */
  lemma ResultsIgnoreCase(query: string)
    ensures Results(Lower(query)) == Results(query)
  {
    forall k | 0 <= k < |query| ensures Lower(Lower(query))[k] == Lower(query)[k] {
      LowerCharIdempotent(query[k]);
    }
    assert Lower(Lower(query)) == Lower(query);
  }

  /** The search the page runs on load, for `db`. */
  lemma InitialSearch()
    ensures Results("db") == ["Use SqlConnection with using-block and connection string.", "Repository pattern for data access isolation."]
  {
    assert Lower("db") == "db";
    assert HasAt("db", 0, "db");
    DbFirst("db");
  }
}
