/** Prompt templating: `prompt.replace("{company}", entity)` and the
    default prompt the application offers. */
module Templating {
  import opened Strings

  /** The only placeholder the pipeline substitutes. */
  const Placeholder: string := "{company}"

  /** The words of the default prompt before its placeholder (written in
      pieces of at most 16 characters so that the verifier can inspect them). */
  const DefaultLead: string := "Get me the email" + " address and pho" + "ne numbers of "

  /** The default prompt as the application ships it: it names `{entity}`,
      a token that `Render` never touches. */
  const DefaultPrompt: string := DefaultLead + "{entity}"

  /** The default prompt with the placeholder the pipeline does substitute. */
  const CorrectedDefaultPrompt: string := DefaultLead + Placeholder

  /** Python's `s.replace(pat, rep)` for a non-empty `pat`: scans left to
      right and replaces non-overlapping occurrences. It is
      `rep.join(s.split(pat))`: every piece between two replaced
      occurrences is kept and every occurrence becomes `rep`. */
  function ReplaceAll(s: string, pat: string, rep: string): (r: string)
    requires |pat| > 0
    ensures r == Join(Split(s, pat), rep)
    decreases |s|
  {
    if |s| < |pat| then s
    else if s[..|pat|] == pat then
      var rest := Split(s[|pat|..], pat);
      assert Split(s, pat) == [""] + rest;
      assert ([""] + rest)[1..] == rest;
      assert Join([""] + rest, rep) == "" + rep + Join(rest, rep);
      rep + ReplaceAll(s[|pat|..], pat, rep)
    else
      var rest := Split(s[1..], pat);
      assert Split(s, pat) == [[s[0]] + rest[0]] + rest[1..];
      JoinConsHead(s[0], rest[0], rest[1..], rep);
      assert [rest[0]] + rest[1..] == rest;
      [s[0]] + ReplaceAll(s[1..], pat, rep)
  }

  /** The query sent for one entity; a prompt without the placeholder is
      sent as it is. */
  function Render(prompt: string, entity: string): (r: string)
    ensures !ContainsSpec(prompt, Placeholder) ==> r == prompt
  {
    ReplaceWithoutOccurrence(prompt, Placeholder, entity);
    ReplaceAll(prompt, Placeholder, entity)
  }

  /** Python's `s.split(pat)` for a non-empty `pat`: the pieces between the
      occurrences that `ReplaceAll` replaces. */
  function Split(s: string, pat: string): (parts: seq<string>)
    requires |pat| > 0
    ensures |parts| >= 1
    ensures parts[0] <= s
    decreases |s|
  {
    if |s| < |pat| then [s]
    else if s[..|pat|] == pat then [""] + Split(s[|pat|..], pat)
    else
      var rest := Split(s[1..], pat);
      [[s[0]] + rest[0]] + rest[1..]
  }

  /** Python's `sep.join(parts)`. */
  function Join(parts: seq<string>, sep: string): string
    decreases |parts|
  {
    if |parts| == 0 then ""
    else if |parts| == 1 then parts[0]
    else parts[0] + sep + Join(parts[1..], sep)
  }

  lemma JoinConsHead(c: char, x: string, ys: seq<string>, sep: string)
    ensures Join([[c] + x] + ys, sep) == [c] + Join([x] + ys, sep)
  {
    if |ys| > 0 {
      assert ([[c] + x] + ys)[1..] == ys;
      assert ([x] + ys)[1..] == ys;
    }
  }

  /** Splitting at the placeholder and joining with it again gives back the
      prompt: the pieces together with the occurrences cover the whole text. */
  lemma {:induction false} SplitJoin(s: string, pat: string)
    requires |pat| > 0
    ensures Join(Split(s, pat), pat) == s
    decreases |s|
  {
    if |s| < |pat| {
    } else if s[..|pat|] == pat {
      SplitJoin(s[|pat|..], pat);
      var rest := Split(s[|pat|..], pat);
      assert Split(s, pat) == [""] + rest;
      assert ([""] + rest)[1..] == rest;
      assert Join([""] + rest, pat) == "" + pat + Join(rest, pat);
      assert s == pat + s[|pat|..];
    } else {
      SplitJoin(s[1..], pat);
      var rest := Split(s[1..], pat);
      assert Split(s, pat) == [[s[0]] + rest[0]] + rest[1..];
      JoinConsHead(s[0], rest[0], rest[1..], pat);
      assert [rest[0]] + rest[1..] == rest;
      assert s == [s[0]] + s[1..];
    }
  }

  /** No piece of the split contains the placeholder: after `ReplaceAll`
      every original occurrence has been consumed. */
  lemma {:induction false} SplitPiecesAreFree(s: string, pat: string)
    requires |pat| > 0
    ensures forall q <- Split(s, pat) :: !ContainsSpec(q, pat)
    decreases |s|
  {
    if |s| < |pat| {
      forall k: nat ensures !OccursAt(s, pat, k) { }
    } else if s[..|pat|] == pat {
      SplitPiecesAreFree(s[|pat|..], pat);
      forall k: nat ensures !OccursAt("", pat, k) { }
    } else {
      SplitPiecesAreFree(s[1..], pat);
      var rest := Split(s[1..], pat);
      var head := [s[0]] + rest[0];
      assert head <= s;
      assert !OccursAt(s, pat, 0);
      assert head[1..] == rest[0];
      assert rest[0] in rest;
      assert !ContainsSpec(rest[0], pat);
      forall k: nat ensures !OccursAt(head, pat, k) {
        if k == 0 {
          OccursInPrefix(head, s, pat, 0);
        } else {
          OccursTail(head, pat, k - 1);
        }
      }
      assert forall q <- rest[1..] :: q in rest;
    }
  }

  /** A text with no occurrence of the placeholder comes back unchanged. */
  lemma {:induction false} ReplaceWithoutOccurrence(s: string, pat: string, rep: string)
    requires |pat| > 0
    ensures !ContainsSpec(s, pat) ==> ReplaceAll(s, pat, rep) == s
    decreases |s|
  {
    if !ContainsSpec(s, pat) && |s| >= |pat| {
      assert !OccursAt(s, pat, 0);
      forall k: nat ensures !OccursAt(s[1..], pat, k) {
        OccursTail(s, pat, k);
      }
      ReplaceWithoutOccurrence(s[1..], pat, rep);
      assert s == [s[0]] + s[1..];
    }
  }

  /** Replacing the placeholder by itself changes nothing. */
  lemma ReplaceByItself(s: string, pat: string)
    requires |pat| > 0
    ensures ReplaceAll(s, pat, pat) == s
  {
    SplitJoin(s, pat);
  }

  /** A lead that holds no '{' (the first character of the placeholder)
      passes through `ReplaceAll` untouched. */
  lemma {:induction false} ReplaceSkipsLead(a: string, b: string, pat: string, rep: string)
    requires |pat| > 0
    requires pat[0] !in a
    ensures ReplaceAll(a + b, pat, rep) == a + ReplaceAll(b, pat, rep)
    decreases |a|
  {
    if |a| > 0 {
      var s := a + b;
      if |s| < |pat| {
        assert |b| < |pat|;
      } else {
        assert s[0] == a[0];
        assert s[..|pat|][0] != pat[0];
        assert s[1..] == a[1..] + b;
        ReplaceSkipsLead(a[1..], b, pat, rep);
        assert a == [a[0]] + a[1..];
      }
    } else {
      assert a + b == b;
    }
  }

  /** Rendering a query that has no placeholder left is idempotent. */
  lemma RenderIdempotent(prompt: string, entity: string)
    requires !ContainsSpec(Render(prompt, entity), Placeholder)
    ensures Render(Render(prompt, entity), entity) == Render(prompt, entity)
  {
    ReplaceWithoutOccurrence(Render(prompt, entity), Placeholder, entity);
  }

  lemma DefaultLeadHasNoBrace()
    ensures '{' !in DefaultLead
  {
    assert '{' !in "Get me the email";
    assert '{' !in " address and pho";
    assert '{' !in "ne numbers of ";
  }

  /** As shipped, the default prompt is sent verbatim for every entity:
      the entity's name never reaches the search query. */
  lemma DefaultPromptIgnoresEntity(entity: string)
    ensures Render(DefaultPrompt, entity) == DefaultPrompt
  {
    DefaultLeadHasNoBrace();
    ReplaceSkipsLead(DefaultLead, "{entity}", Placeholder, entity);
  }

  /** With the placeholder the pipeline substitutes, the query ends with
      the entity's name. */
  lemma CorrectedDefaultPromptNamesEntity(entity: string)
    ensures Render(CorrectedDefaultPrompt, entity) == DefaultLead + entity
  {
    DefaultLeadHasNoBrace();
    ReplaceSkipsLead(DefaultLead, Placeholder, Placeholder, entity);
    assert Placeholder[..|Placeholder|] == Placeholder;
    assert Placeholder[|Placeholder|..] == "";
  }
}
