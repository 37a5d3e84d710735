/** Worked examples: a two-entity run, one e-mail
    scan step by step, and the sheet URLs of the validation step. */
module Examples {
  import opened Strings
  import opened Rows
  import opened Templating
  import opened EmailScan
  import opened Extraction
  import opened Tables
  import opened Pipeline
  import opened SheetId

  /** A prompt that asks for e-mail and names `{entity}`, which the
      pipeline leaves alone. */
  const Lead: string := "Get email of "
  const Prompt: string := Lead + "{entity}"

  lemma PromptAsksEmail() ensures Asks(Prompt, "email") {
    var l := Lower(Prompt);
    assert Prompt[4..9] == "email";
    assert l[4..9] == "email" by {
      forall t | 4 <= t < 9 ensures l[t] == Prompt[t] {
        assert l[t] == LowerChar(Prompt[t]);
      }
    }
    assert OccursAt(l, "email", 4);
  }

  lemma PromptHasNoPlaceholder(entity: string) ensures Render(Prompt, entity) == Prompt {
    assert '{' !in Lead;
    ReplaceSkipsLead(Lead, "{entity}", Placeholder, entity);
    assert ReplaceAll("{entity}", Placeholder, entity) == "{entity}" by {
      assert |"{entity}"| < |Placeholder|;
    }
  }

  /** The model's answer for the first entity. */
  const Answer: string := "reach us at " + "a@b.com"

  lemma RunA() ensures RunEnd(Answer, 12, Local) == 13 { RunEndUnique(Answer, 12, Local, 13); }
  lemma RunB() ensures RunEnd(Answer, 14, Domain) == 19 { RunEndUnique(Answer, 14, Domain, 19); }
  lemma RunC() ensures RunEnd(Answer, 16, Letter) == 19 { RunEndUnique(Answer, 16, Letter, 19); }
  lemma DotAt15() ensures LastTldDot(Answer, 15, 19) == Some(15) { }

  lemma MatchAt12() ensures MatchAt(Answer, 12) == Some(19) {
    RunA(); RunB(); RunC(); DotAt15();
  }

  /** A letter word followed by a space holds no match start. */
  lemma {:induction false} ScanSkipsWord(s: string, p: nat, q: nat)
    requires p <= q < |s| && s[q] == ' '
    requires AllIn(s, p, q, Letter)
    ensures Scan(s, p) == Scan(s, q + 1)
    decreases q - p
  {
    RunEndUnique(s, p, Local, q);
    assert MatchAt(s, p) == None;
    if p < q {
      ScanSkipsWord(s, p + 1, q);
    }
  }

  lemma ScanFrom12() ensures Scan(Answer, 12) == [Span(12, 19)] { MatchAt12(); }
  lemma ScanFrom9() ensures Scan(Answer, 9) == Scan(Answer, 12) { ScanSkipsWord(Answer, 9, 11); }
  lemma ScanFrom6() ensures Scan(Answer, 6) == Scan(Answer, 9) { ScanSkipsWord(Answer, 6, 8); }
  lemma ScanFrom0() ensures Scan(Answer, 0) == Scan(Answer, 6) { ScanSkipsWord(Answer, 0, 5); }

  lemma AnswerEmails() ensures FindEmails(Answer) == ["a@b.com"] {
    ScanFrom12(); ScanFrom9(); ScanFrom6(); ScanFrom0();
    assert EmailSpans(Answer) == [Span(12, 19)];
    var r := FindEmails(Answer);
    assert |r| == 1;
    assert r[0] == Answer[12..19];
    assert Answer[12..19] == "a@b.com";
  }

  lemma PromptAsksNoPhone() ensures !Asks(Prompt, "phone") {
    var l := Lower(Prompt);
    assert 'p' !in Lead && 'P' !in Lead;
    assert 'p' !in "{entity}" && 'P' !in "{entity}";
    assert forall t :: 0 <= t < |Prompt| ==> Prompt[t] != 'p' && Prompt[t] != 'P' by {
      forall t | 0 <= t < |Prompt| ensures Prompt[t] != 'p' && Prompt[t] != 'P' {
        if t < |Lead| {
          assert Prompt[t] == Lead[t];
        } else {
          assert Prompt[t] == "{entity}"[t - |Lead|];
        }
      }
    }
    forall k: nat ensures !OccursAt(l, "phone", k) {
      if k + 5 <= |l| {
        assert l[k] == LowerChar(Prompt[k]);
        assert l[k..k + 5][0] == l[k];
      }
    }
  }

  /** The model answers the first entity with `Answer` and the second one
      with an empty text, whatever the search engine says. */
  ghost predicate Scripted(env: Services) {
    && (forall q :: env.complete(0, q) == LlmText(Answer))
    && (forall q :: env.complete(1, q) == LlmText(""))
  }

  lemma AlphaFields(findPhones: PhoneMatcher)
    ensures ExtractInformation(Answer, Prompt, findPhones).keys == [EmailKey]
    ensures Get(ExtractInformation(Answer, Prompt, findPhones), EmailKey) == Some(Items(["a@b.com"]))
  {
    PromptAsksEmail();
    PromptAsksNoPhone();
    AnswerEmails();
  }

  /** A model that answers `text` to every prompt at position i gives the
      fields extracted from `text`. */
  lemma AnsweredFields(prompt: string, entity: string, env: Services, i: nat, text: string)
    requires forall q :: env.complete(i, q) == LlmText(text)
    ensures Extracted(prompt, entity, env, i) == ExtractInformation(text, prompt, env.findPhones)
  {
    var query := Render(prompt, entity);
    var full := FullPrompt(query, SearchText(SearchResults(env.search(i, query))));
    assert env.complete(i, full) == LlmText(text);
  }

  /** A single extracted field follows the entity in the row. */
  lemma RowOfOneField(prompt: string, entity: string, env: Services, i: nat, k: string, v: Value)
    requires Extracted(prompt, entity, env, i).keys == [k]
    requires Get(Extracted(prompt, entity, env, i), k) == Some(v)
    ensures EntityRow(prompt, entity, env, i).keys == [EntityKey, k]
    ensures Get(EntityRow(prompt, entity, env, i), EntityKey) == Some(Text(entity))
    ensures Get(EntityRow(prompt, entity, env, i), k) == Some(v)
  {
    RowShape(prompt, entity, env, i);
    ExtractedSkipsEntity(prompt, entity, env, i);
    assert k in Extracted(prompt, entity, env, i).keys;
  }

  lemma EmptyAnswerFields(findPhones: PhoneMatcher)
    ensures ExtractInformation("", Prompt, findPhones).keys == [ResultKey]
    ensures Get(ExtractInformation("", Prompt, findPhones), ResultKey) == Some(Text(""))
  {
    PromptAsksNoPhone();
    assert EmailSpans("") == [];
  }

  lemma AlphaRow(env: Services)
    requires Scripted(env)
    ensures var r := EntityRow(Prompt, "Alpha", env, 0);
      && r.keys == [EntityKey, EmailKey]
      && Get(r, EntityKey) == Some(Text("Alpha"))
      && Get(r, EmailKey) == Some(Items(["a@b.com"]))
  {
    AnsweredFields(Prompt, "Alpha", env, 0, Answer);
    AlphaFields(env.findPhones);
    RowOfOneField(Prompt, "Alpha", env, 0, EmailKey, Items(["a@b.com"]));
  }

  lemma BetaRow(env: Services)
    requires Scripted(env)
    ensures var r := EntityRow(Prompt, "Beta", env, 1);
      && r.keys == [EntityKey, ResultKey]
      && Get(r, EntityKey) == Some(Text("Beta"))
      && Get(r, ResultKey) == Some(Text(""))
  {
    AnsweredFields(Prompt, "Beta", env, 1, "");
    EmptyAnswerFields(env.findPhones);
    RowOfOneField(Prompt, "Beta", env, 1, ResultKey, Text(""));
  }

  lemma NewKeysOfPair(a: string, c: string, acc: seq<string>)
    requires a in acc && c !in acc
    ensures NewKeys([a, c], acc) == [c]
  {
    assert [a, c][1..] == [c] && [c][1..] == [];
  }

  lemma ColumnsFromOne(r: Dict, acc: seq<string>)
    requires Valid(r) && Distinct(acc)
    ensures ColumnsFrom([r], acc) == acc + NewKeys(r.keys, acc)
  {
    assert [r][1..] == [];
  }

  lemma ColumnsOfTwo(r0: Dict, r1: Dict)
    requires Valid(r0) && Valid(r1)
    ensures ColumnsOf([r0, r1]) == ColumnsFrom([r1], r0.keys)
  {
    assert [r0, r1][1..] == [r1];
    assert NewKeys(r0.keys, []) == r0.keys;
    assert [] + r0.keys == r0.keys;
  }

  lemma TwoRowColumns(r0: Dict, r1: Dict)
    requires Valid(r0) && Valid(r1)
    requires r0.keys == [EntityKey, EmailKey] && r1.keys == [EntityKey, ResultKey]
    ensures ColumnsOf([r0, r1]) == [EntityKey, EmailKey, ResultKey]
  {
    ColumnsOfTwo(r0, r1);
    ColumnsFromOne(r1, r0.keys);
    NewKeysOfPair(EntityKey, ResultKey, r0.keys);
  }

  lemma RowOfThree(rows: seq<Dict>, i: nat, a: string, b: string, c: string)
    requires forall d <- rows :: Valid(d)
    requires i < |rows| && ColumnsOf(rows) == [a, b, c]
    ensures ToFrame(rows).rows[i] == [Get(rows[i], a), Get(rows[i], b), Get(rows[i], c)]
  {
    CellOfFrame(rows, i, 0);
    CellOfFrame(rows, i, 1);
    CellOfFrame(rows, i, 2);
  }

  lemma TwoRowFrame(r0: Dict, r1: Dict)
    requires Valid(r0) && Valid(r1)
    requires r0.keys == [EntityKey, EmailKey] && r1.keys == [EntityKey, ResultKey]
    requires Get(r0, EntityKey) == Some(Text("Alpha")) && Get(r0, EmailKey) == Some(Items(["a@b.com"]))
    requires Get(r1, EntityKey) == Some(Text("Beta")) && Get(r1, ResultKey) == Some(Text(""))
    ensures ToFrame([r0, r1]).rows == [[Some(Text("Alpha")), Some(Items(["a@b.com"])), None],
                                       [Some(Text("Beta")), None, Some(Text(""))]]
  {
    TwoRowColumns(r0, r1);
    assert ResultKey !in r0.keys && EmailKey !in r1.keys;
    RowOfThree([r0, r1], 0, EntityKey, EmailKey, ResultKey);
    RowOfThree([r0, r1], 1, EntityKey, EmailKey, ResultKey);
  }

  lemma TwoRows(prompt: string, e0: string, e1: string, env: Services)
    ensures ResultRows(prompt, [e0, e1], env)
         == [EntityRow(prompt, e0, env, 0), EntityRow(prompt, e1, env, 1)]
  {
    var rows := ResultRows(prompt, [e0, e1], env);
    assert rows[0] == EntityRow(prompt, e0, env, 0);
    assert rows[1] == EntityRow(prompt, e1, env, 1);
  }

  /** The worked example: two entities, an e-mail found for the first and
      an empty answer for the second, give a frame with the columns
      Entity, Email Address and Result, and a missing cell in each row. */
  lemma TwoEntities(env: Services)
    requires Scripted(env)
    ensures var f := ToFrame(ResultRows(Prompt, ["Alpha", "Beta"], env));
      && f.columns == [EntityKey, EmailKey, ResultKey]
      && f.rows == [[Some(Text("Alpha")), Some(Items(["a@b.com"])), None],
                    [Some(Text("Beta")), None, Some(Text(""))]]
  {
    var r0, r1 := EntityRow(Prompt, "Alpha", env, 0), EntityRow(Prompt, "Beta", env, 1);
    TwoRows(Prompt, "Alpha", "Beta", env);
    AlphaRow(env);
    BetaRow(env);
    TwoRowColumns(r0, r1);
    TwoRowFrame(r0, r1);
  }

  // ---------------------------------------------------------------------
  // Sheet URLs

  const SheetUrl: string := "https://" + "docs.google.com" + Marker + "ABC123" + "/edit"

  lemma PatternStartsWithSlashS(url: string, q: nat)
    ensures PatternAt(url, q) ==> url[q] == '/' && url[q + 1] == 's'
  {
    if PatternAt(url, q) {
      assert url[q] == url[q..q + |Marker|][0];
      assert url[q + 1] == url[q..q + |Marker|][1];
    }
  }

  lemma HostHasNoPattern(q: nat)
    requires q < 23
    ensures !PatternAt(SheetUrl, q)
  {
    PatternStartsWithSlashS(SheetUrl, q);
    assert '/' !in "docs.google.com";
    if q < 8 {
      assert SheetUrl[q] == "https://"[q];
    } else {
      assert SheetUrl[q] == "docs.google.com"[q - 8];
    }
  }

  /** The usual sheet URL yields the id between the marker and "/edit". */
  lemma UsualSheetUrl()
    ensures ParseSheetId(SheetUrl) == Some("ABC123")
    ensures ValidateSheetUrl(SheetUrl) == UrlValid("ABC123")
  {
    forall q: nat | q < 23 ensures !PatternAt(SheetUrl, q) {
      HostHasNoPattern(q);
    }
    SearchSkips(SheetUrl, 0, 23);
    assert SheetUrl[23..39] == Marker;
    assert PatternAt(SheetUrl, 23);
    RunEndUnique(SheetUrl, 39, IdChar, 45);
    assert SheetUrl[39..45] == "ABC123";
  }

  /** A URL without the marker is refused. */
  lemma UrlWithoutMarker()
    ensures ValidateSheetUrl("https://x.com/") == UrlInvalid
  {
  }
}
