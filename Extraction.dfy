/** Field extraction from the model's answer (`LLMProcessor.extract_information`):
    which fields a result row receives, decided by the words of the prompt
    and by what the two patterns find in the answer. */
module Extraction {
  import opened Strings
  import opened Rows
  import EmailScan

  const EmailKey: string := "Email Address"
  const PhoneKey: string := "Phone Numbers"
  const ResultKey: string := "Result"

  /** How much of the answer the fallback field keeps. */
  const ResultLength: nat := 200

  /** `re.findall` with the phone-number pattern, left abstract. */
  type PhoneMatcher = string -> seq<string>

  /** A phone matcher that reports only pieces of the text it is given, as
      `re.findall` with a pattern without groups does. */
  ghost predicate ReportsSubstrings(findPhones: PhoneMatcher) {
    forall text, p :: p in findPhones(text) ==> ContainsSpec(text, p)
  }

  /** `word in prompt.lower()`. */
  predicate Asks(prompt: string, word: string) {
    Contains(Lower(prompt), word)
  }

  /** The extracted fields: the e-mail matches when the prompt asks for
      e-mail and there are some, the phone matches likewise, and the first
      200 characters of the answer when neither was added. */
  function ExtractInformation(text: string, prompt: string, findPhones: PhoneMatcher): (r: Dict)
    ensures Valid(r)
    ensures EmailKey in r.vals <==> Asks(prompt, "email") && EmailScan.FindEmails(text) != []
    ensures EmailKey in r.vals ==> r.vals[EmailKey] == Items(EmailScan.FindEmails(text))
    ensures PhoneKey in r.vals <==> Asks(prompt, "phone") && findPhones(text) != []
    ensures PhoneKey in r.vals ==> r.vals[PhoneKey] == Items(findPhones(text))
    ensures ResultKey in r.vals <==> EmailKey !in r.vals && PhoneKey !in r.vals
    ensures ResultKey in r.vals ==>
      && r.vals[ResultKey].Text?
      && r.vals[ResultKey].s <= text
      && |r.vals[ResultKey].s| == if |text| < ResultLength then |text| else ResultLength
    ensures r.keys == [ResultKey] || r.keys == [EmailKey] || r.keys == [PhoneKey]
         || r.keys == [EmailKey, PhoneKey]
  {
    var emails := EmailScan.FindEmails(text);
    var withEmails :=
      if Asks(prompt, "email") && emails != [] then Put(Empty, EmailKey, Items(emails)) else Empty;
    var phones := findPhones(text);
    var withPhones :=
      if Asks(prompt, "phone") && phones != [] then Put(withEmails, PhoneKey, Items(phones))
      else withEmails;
    if withPhones.keys == [] then Put(withPhones, ResultKey, Text(Prefix(text, ResultLength)))
    else withPhones
  }

  /** The extracted fields never include the entity's own column, so adding
      them to a row that holds only the entity appends them after it. */
  lemma ExtractedKeysAreFields(text: string, prompt: string, findPhones: PhoneMatcher, k: string)
    requires k in ExtractInformation(text, prompt, findPhones).keys
    ensures k == EmailKey || k == PhoneKey || k == ResultKey
  {
  }

  /** Every address in the 'Email Address' field is a piece of the answer
      with exactly one '@' that ends in '.' and two or more ASCII letters;
      the addresses come in text order without overlapping, and the field
      holds nothing else. */
  lemma {:induction false} ExtractedEmails(text: string, prompt: string, findPhones: PhoneMatcher)
    requires EmailKey in ExtractInformation(text, prompt, findPhones).vals
    ensures var emails := ExtractInformation(text, prompt, findPhones).vals[EmailKey].items;
      var spans := EmailScan.EmailSpans(text);
      && |emails| == |spans| > 0
      && (forall t :: 0 <= t < |emails| ==>
            && spans[t].start < spans[t].end <= |text|
            && emails[t] == text[spans[t].start..spans[t].end]
            && EmailScan.SingleAt(emails[t])
            && EmailScan.EndsInDotLetters(emails[t]))
      && (forall t :: 0 <= t < |emails| - 1 ==> spans[t].end <= spans[t + 1].start)
  {
    assert ExtractInformation(text, prompt, findPhones).vals[EmailKey].items
        == EmailScan.FindEmails(text);
    EmailScan.FindEmailsSpec(text);
  }

  /** Every number in the 'Phone Numbers' field is a piece of the answer,
      given a matcher that reports pieces of its input. */
  lemma ExtractedPhones(text: string, prompt: string, findPhones: PhoneMatcher)
    requires ReportsSubstrings(findPhones)
    requires PhoneKey in ExtractInformation(text, prompt, findPhones).vals
    ensures forall p <- ExtractInformation(text, prompt, findPhones).vals[PhoneKey].items ::
      ContainsSpec(text, p)
  {
  }

  /** The test on the prompt ignores case: a prompt and its lower-cased
      form ask for the same fields. */
  lemma {:induction false} AsksIgnoresCase(prompt: string, word: string)
    ensures Asks(Lower(prompt), word) == Asks(prompt, word)
  {
    var l := Lower(prompt);
    assert Lower(l) == l by {
      forall t | 0 <= t < |l| ensures Lower(l)[t] == l[t] {
        assert l[t] == LowerChar(prompt[t]);
      }
    }
  }

  /** An empty answer that yields no field falls back to an empty 'Result'. */
  lemma EmptyAnswer(prompt: string, findPhones: PhoneMatcher)
    requires findPhones("") == []
    ensures ExtractInformation("", prompt, findPhones) == Dict([ResultKey], map[ResultKey := Text("")])
  {
    assert EmailScan.EmailSpans("") == [];
  }
}
