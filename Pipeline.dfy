/** The enrichment loop (`LLMProcessor.process_data`): for each entity, a
    templated query, a web search, one model call on the query and the
    search snippets, and a result row holding the entity and the fields
    extracted from the answer. The search engine and the model are
    oracles, indexed by the entity's position so that each call may answer
    differently. */
module Pipeline {
  import opened Strings
  import opened Rows
  import opened Templating
  import opened Extraction
  import opened Tables

  /** The column that names the entity in every result row. */
  const EntityKey: string := "Entity"

  /** What joins the query and the search text in the model's prompt. */
  const SearchLabel: string := "\nSearch Results: "

  /** One entry of the search engine's 'organic_results'. */
  datatype SearchHit = SearchHit(snippet: Option<string>)

  /** The search request raised, or answered with a JSON object whose
      'organic_results' entry may be absent. */
  datatype SearchReply = RequestFailed(message: string) | Answered(organic: Option<seq<SearchHit>>)

  /** The model call raised, returned a falsy response, or answered. */
  datatype LlmReply = LlmRaised(message: string) | LlmNoResponse | LlmText(text: string)

  /** The outside world the loop talks to. */
  datatype Services = Services(
    search: (nat, string) -> SearchReply,
    complete: (nat, string) -> LlmReply,
    findPhones: PhoneMatcher)

  /** `get_search_results`: the organic results, or none when the request
      fails or the answer has none. */
  function SearchResults(reply: SearchReply): (hits: seq<SearchHit>)
    ensures reply.Answered? && reply.organic.Some? ==> hits == reply.organic.value
    ensures !(reply.Answered? && reply.organic.Some?) ==> hits == []
  {
    match reply
    case RequestFailed(_) => []
    case Answered(None) => []
    case Answered(Some(hits)) => hits
  }

  /** A hit's snippet, or "" when it has none. */
  function Snippet(hit: SearchHit): string {
    match hit.snippet
    case None => ""
    case Some(s) => s
  }

  /** The snippets of the hits, in order. */
  function Snippets(hits: seq<SearchHit>): (r: seq<string>)
    ensures |r| == |hits|
    ensures forall t :: 0 <= t < |hits| ==> r[t] == Snippet(hits[t])
  {
    seq(|hits|, i requires 0 <= i < |hits| => Snippet(hits[i]))
  }

  /** `" ".join(result.get("snippet", "") for result in search_results)`. */
  function SearchText(hits: seq<SearchHit>): (r: string)
    ensures forall t :: 0 <= t < |hits| ==> ContainsSpec(r, Snippet(hits[t]))
  {
    SnippetsInSearchText(Snippets(hits));
    Join(Snippets(hits), " ")
  }

  /** The model's prompt: the query, the label, the search text. */
  function FullPrompt(query: string, searchText: string): (r: string)
    ensures |r| == |query| + |SearchLabel| + |searchText|
    ensures r[..|query|] == query && r[|query| + |SearchLabel|..] == searchText
    ensures r[|query|..|query| + |SearchLabel|] == SearchLabel
  {
    query + SearchLabel + searchText
  }

  /** The fields extracted for the entity at position i: none when the
      model call raises, those of "" when the model answers nothing. The
      extractor is given the template, not the rendered query. */
  function Extracted(prompt: string, entity: string, env: Services, i: nat): (r: Dict)
    ensures Valid(r)
  {
    var query := Render(prompt, entity);
    var full := FullPrompt(query, SearchText(SearchResults(env.search(i, query))));
    match env.complete(i, full)
    case LlmRaised(_) => Empty
    case LlmNoResponse => ExtractInformation("", prompt, env.findPhones)
    case LlmText(text) => ExtractInformation(text, prompt, env.findPhones)
  }

  /** `result = {"Entity": entity}; result.update(extracted_data)`. */
  function EntityRow(prompt: string, entity: string, env: Services, i: nat): (r: Dict)
    ensures Valid(r)
  {
    Update(Put(Empty, EntityKey, Text(entity)), Extracted(prompt, entity, env, i))
  }

  /** The rows `process_data` collects, one per entity. */
  function ResultRows(prompt: string, entities: seq<string>, env: Services): (rows: seq<Dict>)
    ensures |rows| == |entities|
    ensures forall d <- rows :: Valid(d)
  {
    seq(|entities|, i requires 0 <= i < |entities| => EntityRow(prompt, entities[i], env, i))
  }

  /** The progress reported after an entity: entities done out of all. */
  datatype Progress = Progress(done: nat, total: nat)

  lemma ResultRowsStep(prompt: string, entities: seq<string>, env: Services, idx: nat)
    requires idx < |entities|
    ensures ResultRows(prompt, entities[..idx + 1], env)
      == ResultRows(prompt, entities[..idx], env) + [EntityRow(prompt, entities[idx], env, idx)]
  {
    var a := ResultRows(prompt, entities[..idx + 1], env);
    var b := ResultRows(prompt, entities[..idx], env) + [EntityRow(prompt, entities[idx], env, idx)];
    var before := ResultRows(prompt, entities[..idx], env);
    forall t | 0 <= t < idx ensures a[t] == before[t] {
      assert entities[..idx + 1][t] == entities[t] == entities[..idx][t];
    }
    assert a[idx] == EntityRow(prompt, entities[idx], env, idx) by {
      assert entities[..idx + 1][idx] == entities[idx];
    }
    assert a == before + [a[idx]];
  }

  /** One pass of `process_data`'s loop: the query, the search, the model
      call and the row built from its answer. It computes step by step
      what `EntityRow` defines, so the loop below only has to collect rows. */
  method ProcessEntity(prompt: string, entity: string, env: Services, idx: nat)
    returns (result: Dict)
    ensures result == EntityRow(prompt, entity, env, idx)
  {
    var query := Render(prompt, entity);
    var hits := SearchResults(env.search(idx, query));
    var full := FullPrompt(query, SearchText(hits));
    var extracted: Dict;
    match env.complete(idx, full) {
      case LlmRaised(_) =>
        extracted := Empty;
      case LlmNoResponse =>
        extracted := ExtractInformation("", prompt, env.findPhones);
      case LlmText(text) =>
        extracted := ExtractInformation(text, prompt, env.findPhones);
    }
    assert extracted == Extracted(prompt, entity, env, idx);
    result := Put(Empty, EntityKey, Text(entity));
    result := Update(result, extracted);
  }

  /** `process_data`: the frame of result rows, and the progress reported
      after each entity. */
  method ProcessData(prompt: string, entities: seq<string>, env: Services)
    returns (frame: Frame, progress: seq<Progress>)
    ensures frame == ToFrame(ResultRows(prompt, entities, env))
    ensures |progress| == |entities|
    ensures forall t :: 0 <= t < |progress| ==> progress[t] == Progress(t + 1, |entities|)
  {
    var results: seq<Dict> := [];
    progress := [];
    for idx := 0 to |entities|
      invariant |results| == idx
      invariant results == ResultRows(prompt, entities[..idx], env)
      invariant |progress| == idx
      invariant forall t :: 0 <= t < idx ==> progress[t] == Progress(t + 1, |entities|)
    {
      var result := ProcessEntity(prompt, entities[idx], env, idx);
      ResultRowsStep(prompt, entities, env, idx);
      results := results + [result];
      progress := progress + [Progress(idx + 1, |entities|)];
    }
    assert entities[..|entities|] == entities;
    assert forall d <- results :: Valid(d);
    frame := ToFrame(results);
  }

  // ---------------------------------------------------------------------
  // Properties of the rows

  /** The extracted fields never include the entity's column. */
  lemma ExtractedSkipsEntity(prompt: string, entity: string, env: Services, i: nat)
    ensures EntityKey !in Extracted(prompt, entity, env, i).keys
  {
    var x := Extracted(prompt, entity, env, i);
    var query := Render(prompt, entity);
    var full := FullPrompt(query, SearchText(SearchResults(env.search(i, query))));
    match env.complete(i, full)
    case LlmRaised(_) =>
    case LlmNoResponse =>
      if EntityKey in x.keys {
        ExtractedKeysAreFields("", prompt, env.findPhones, EntityKey);
      }
    case LlmText(text) =>
      if EntityKey in x.keys {
        ExtractedKeysAreFields(text, prompt, env.findPhones, EntityKey);
      }
  }

  /** Every row starts with the entity's column holding the entity; the
      extracted fields follow in their order with their values. */
  lemma RowShape(prompt: string, entity: string, env: Services, i: nat)
    ensures var x := Extracted(prompt, entity, env, i);
      && EntityRow(prompt, entity, env, i).keys == [EntityKey] + x.keys
      && Get(EntityRow(prompt, entity, env, i), EntityKey) == Some(Text(entity))
      && forall k :: k != EntityKey ==> Get(EntityRow(prompt, entity, env, i), k) == Get(x, k)
  {
    var x := Extracted(prompt, entity, env, i);
    ExtractedSkipsEntity(prompt, entity, env, i);
    var start := Put(Empty, EntityKey, Text(entity));
    assert start.keys == [EntityKey];
    UpdateDisjoint(start, x);
  }

  /** When the model call raises, the row holds the entity and nothing
      else; in particular it has no 'Result' field. */
  lemma ModelFailureRow(prompt: string, entity: string, env: Services, i: nat)
    requires var query := Render(prompt, entity);
      env.complete(i, FullPrompt(query, SearchText(SearchResults(env.search(i, query))))).LlmRaised?
    ensures EntityRow(prompt, entity, env, i).keys == [EntityKey]
    ensures ResultKey !in EntityRow(prompt, entity, env, i).vals
  {
    RowShape(prompt, entity, env, i);
  }

  /** When the model answers, the row holds the entity and at least one
      extracted field: the matches asked for, or the 'Result' fallback. */
  lemma ModelAnswerRow(prompt: string, entity: string, env: Services, i: nat)
    requires var query := Render(prompt, entity);
      !env.complete(i, FullPrompt(query, SearchText(SearchResults(env.search(i, query))))).LlmRaised?
    ensures |EntityRow(prompt, entity, env, i).keys| >= 2
    ensures ResultKey in EntityRow(prompt, entity, env, i).vals <==>
      EmailKey !in EntityRow(prompt, entity, env, i).vals && PhoneKey !in EntityRow(prompt, entity, env, i).vals
  {
    RowShape(prompt, entity, env, i);
  }

  /** A failed search still yields a row: the model is then asked the
      query followed by the label and nothing else. */
  lemma SearchFailurePrompt(query: string, message: string)
    ensures FullPrompt(query, SearchText(SearchResults(RequestFailed(message)))) == query + SearchLabel
  {
  }

  /** Every part occurs in its space-join: every snippet reaches the model. */
  lemma {:induction false} SnippetsInSearchText(parts: seq<string>)
    ensures forall t :: 0 <= t < |parts| ==> ContainsSpec(Join(parts, " "), parts[t])
    decreases |parts|
  {
    var s := Join(parts, " ");
    if |parts| == 1 {
      assert OccursAt(s, parts[0], 0);
    } else if |parts| > 1 {
      var rest := Join(parts[1..], " ");
      var off := |parts[0]| + 1;
      assert s == parts[0] + " " + rest;
      assert s[..|parts[0]|] == parts[0];
      assert OccursAt(s, parts[0], 0);
      SnippetsInSearchText(parts[1..]);
      forall t | 1 <= t < |parts| ensures ContainsSpec(s, parts[t]) {
        assert parts[1..][t - 1] == parts[t];
        var k: nat :| OccursAt(rest, parts[t], k);
        assert s[off + k..off + k + |parts[t]|] == rest[k..k + |parts[t]|];
        assert OccursAt(s, parts[t], off + k);
      }
    }
  }

  /** The rows are the entities in order: as many rows as entities, and
      row i names entity i first. */
  lemma RowsFollowEntities(prompt: string, entities: seq<string>, env: Services, i: nat)
    requires i < |entities|
    ensures ResultRows(prompt, entities, env)[i].keys[0] == EntityKey
    ensures Get(ResultRows(prompt, entities, env)[i], EntityKey) == Some(Text(entities[i]))
  {
    RowShape(prompt, entities[i], env, i);
  }

  /** The processed frame's first column is the entity column. */
  lemma EntityColumnFirst(prompt: string, entities: seq<string>, env: Services)
    requires entities != []
    ensures ToFrame(ResultRows(prompt, entities, env)).columns != []
    ensures ToFrame(ResultRows(prompt, entities, env)).columns[0] == EntityKey
  {
    var rows := ResultRows(prompt, entities, env);
    RowsFollowEntities(prompt, entities, env, 0);
    FirstRowLeads(rows);
    assert rows[0].keys[0] == EntityKey;
  }

  /** Selecting the processed frame's entity column gives back the
      entities, in their input order, repeats included. */
  lemma {:induction false} EntityColumnValues(prompt: string, entities: seq<string>, env: Services)
    requires entities != []
    ensures var f := ToFrame(ResultRows(prompt, entities, env));
      && SelectColumn(f, EntityKey).Some?
      && |SelectColumn(f, EntityKey).value| == |entities|
      && forall i :: 0 <= i < |entities| ==> SelectColumn(f, EntityKey).value[i] == Some(Text(entities[i]))
  {
    var rows := ResultRows(prompt, entities, env);
    var f := ToFrame(rows);
    EntityColumnFirst(prompt, entities, env);
    SelectDistinctColumn(f, 0);
    forall i | 0 <= i < |entities|
      ensures SelectColumn(f, EntityKey).value[i] == Some(Text(entities[i]))
    {
      RowsFollowEntities(prompt, entities, env, i);
      CellOfFrame(rows, i, 0);
    }
  }

  /** With no entities the loop makes no call and the frame is empty. */
  lemma NoEntities(prompt: string, env: Services)
    ensures ToFrame(ResultRows(prompt, [], env)) == Frame([], [])
  {
  }

  // ---------------------------------------------------------------------
  // Progress

  /** The fraction shown by the progress bar. */
  function Fraction(p: Progress): real
    requires p.total > 0
  {
    p.done as real / p.total as real
  }

  /** The progress reported after each entity rises strictly and ends at
      1; it starts above 0. */
  lemma ProgressRises(progress: seq<Progress>, n: nat)
    requires |progress| == n
    requires forall t :: 0 <= t < n ==> progress[t] == Progress(t + 1, n)
    ensures forall t :: 0 <= t < n ==> 0.0 < Fraction(progress[t]) <= 1.0
    ensures forall t :: 0 <= t < n - 1 ==> Fraction(progress[t]) < Fraction(progress[t + 1])
    ensures n > 0 ==> Fraction(progress[n - 1]) == 1.0
  {
    forall t | 0 <= t < n ensures 0.0 < Fraction(progress[t]) <= 1.0 {
      FractionBounds(t + 1, n);
    }
    forall t | 0 <= t < n - 1 ensures Fraction(progress[t]) < Fraction(progress[t + 1]) {
      FractionGrows(t + 1, n);
    }
  }

  lemma FractionBounds(d: nat, n: nat)
    requires 0 < d <= n
    ensures 0.0 < d as real / n as real <= 1.0
  {
  }

  lemma FractionGrows(d: nat, n: nat)
    requires 0 < d < n
    ensures d as real / n as real < (d + 1) as real / n as real
  {
  }
}
