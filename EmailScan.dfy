/** The e-mail matcher of the field extractor:
    `re.findall(r"[a-zA-Z0-9._%+-]+@[a-zA-Z0-9.-]+\.[a-zA-Z]{2,}", text)`,
    as a left-to-right scanner, with the regular expression's meaning stated
    declaratively and the scanner proved to produce exactly the matches
    Python's leftmost, greedy-with-backtracking engine reports. */
module EmailScan {
  import opened Strings

  /** A match occupies text[start..end]. */
  datatype Span = Span(start: nat, end: nat)

  /** s[i..j] reads local-part, '@' at a, domain, '.' at k, top-level
      domain: the pattern with its three repetitions fixed. */
  ghost predicate ShapeAt(s: string, i: nat, a: nat, k: nat, j: nat) {
    && i < a && a + 1 < k && k + 2 < j <= |s|
    && AllIn(s, i, a, Local) && s[a] == '@'
    && AllIn(s, a + 1, k, Domain) && s[k] == '.'
    && AllIn(s, k + 1, j, Letter)
  }

  /** s[i..j] matches the e-mail pattern. */
  ghost predicate EmailAt(s: string, i: nat, j: nat) {
    exists a: nat, k: nat :: ShapeAt(s, i, a, k, j)
  }

  /** s[i..j] is the longest match that starts at i: the one the greedy
      engine reports at i. */
  ghost predicate LongestEmailAt(s: string, i: nat, j: nat) {
    EmailAt(s, i, j) && forall j': nat :: EmailAt(s, i, j') ==> j' <= j
  }

  /** No match starts anywhere in [lo, hi). */
  ghost predicate NoEmailStartsIn(s: string, lo: nat, hi: nat) {
    forall p: nat, j: nat :: lo <= p < hi ==> !EmailAt(s, p, j)
  }

  /** '.' at k followed by two ASCII letters: where `\.[a-zA-Z]{2,}` can start. */
  predicate TldDotAt(s: string, k: nat) {
    k + 2 < |s| && s[k] == '.' && IsAsciiLetter(s[k + 1]) && IsAsciiLetter(s[k + 2])
  }

  /** The right-most k in [lo, hi) with TldDotAt(s, k): the greedy domain
      part gives back characters until `\.[a-zA-Z]{2,}` can follow. */
  function LastTldDot(s: string, lo: nat, hi: nat): (r: Option<nat>)
    ensures r.Some? ==> lo <= r.value < hi && TldDotAt(s, r.value)
    ensures r.Some? ==> forall k: nat :: r.value < k < hi ==> !TldDotAt(s, k)
    ensures r.None? ==> forall k: nat :: lo <= k < hi ==> !TldDotAt(s, k)
    decreases hi
  {
    if hi <= lo then None
    else if TldDotAt(s, hi - 1) then Some(hi - 1)
    else LastTldDot(s, lo, hi - 1)
  }

  /** The end of the match the engine reports at position i, if any. */
  function MatchAt(s: string, i: nat): (r: Option<nat>)
    requires i <= |s|
    ensures r.Some? ==> i < r.value <= |s|
  {
    var a := RunEnd(s, i, Local);
    if a == i || a == |s| || s[a] != '@' then None
    else
      var e := RunEnd(s, a + 1, Domain);
      match LastTldDot(s, a + 2, e)
      case None => None
      case Some(k) => Some(RunEnd(s, k + 1, Letter))
  }

  /** What MatchAt reports is a match. */
  lemma MatchAtSound(s: string, i: nat)
    requires i <= |s|
    requires MatchAt(s, i).Some?
    ensures EmailAt(s, i, MatchAt(s, i).value)
  {
    var a := RunEnd(s, i, Local);
    var e := RunEnd(s, a + 1, Domain);
    var k := LastTldDot(s, a + 2, e).value;
    var j := RunEnd(s, k + 1, Letter);
    RunEndCovers(s, k + 1, k + 3, Letter);
    assert ShapeAt(s, i, a, k, j);
  }

  /** Any match at i is reported, and what is reported is at least as long. */
  lemma MatchAtComplete(s: string, i: nat, a': nat, k': nat, j': nat)
    requires ShapeAt(s, i, a', k', j')
    ensures MatchAt(s, i).Some? && MatchAt(s, i).value >= j'
  {
    RunEndUnique(s, i, Local, a');
    var a := RunEnd(s, i, Local);
    assert a == a';
    assert AllIn(s, a + 1, j', Domain) by {
      forall t | a + 1 <= t < j' ensures InClass(s[t], Domain) {
        if t < k' {
          assert InClass(s[t], Domain);
        } else if t > k' {
          assert InClass(s[t], Letter);
        }
      }
    }
    RunEndCovers(s, a + 1, j', Domain);
    var e := RunEnd(s, a + 1, Domain);
    assert TldDotAt(s, k');
    var r := LastTldDot(s, a + 2, e);
    assert r.Some? && r.value >= k';
    var k := r.value;
    RunEndCovers(s, k + 1, k + 3, Letter);
    if k == k' {
      RunEndCovers(s, k + 1, j', Letter);
    } else {
      assert !InClass(s[k], Letter);
      assert k >= j';
    }
  }

  /** MatchAt meets the regular expression's meaning at one position:
      it reports exactly the longest match that starts there, and nothing
      exactly when no match starts there. */
  lemma MatchAtIsLongest(s: string, i: nat)
    requires i <= |s|
    ensures MatchAt(s, i).Some? ==> LongestEmailAt(s, i, MatchAt(s, i).value)
    ensures MatchAt(s, i).None? ==> forall j: nat :: !EmailAt(s, i, j)
  {
    forall j': nat | EmailAt(s, i, j')
      ensures MatchAt(s, i).Some? && MatchAt(s, i).value >= j'
    {
      var a', k' :| ShapeAt(s, i, a', k', j');
      MatchAtComplete(s, i, a', k', j');
    }
    if MatchAt(s, i).Some? {
      MatchAtSound(s, i);
    }
  }

  /** Python's `re.findall` from position i: try a match at each position
      left to right; after a match, continue where it ended. */
  function Scan(s: string, i: nat): (spans: seq<Span>)
    requires i <= |s|
    ensures forall sp <- spans :: i <= sp.start < sp.end <= |s|
    decreases |s| - i
  {
    if i == |s| then []
    else match MatchAt(s, i)
      case Some(j) => [Span(i, j)] + Scan(s, j)
      case None => Scan(s, i + 1)
  }

  /** The matches findall must report from position i: each one starts at
      the left-most position where some match starts and is the longest
      match there; the next search begins where it ends. */
  ghost predicate LeftmostLongest(s: string, i: nat, spans: seq<Span>)
    decreases |spans|
  {
    if spans == [] then NoEmailStartsIn(s, i, |s|)
    else
      && i <= spans[0].start < spans[0].end <= |s|
      && NoEmailStartsIn(s, i, spans[0].start)
      && LongestEmailAt(s, spans[0].start, spans[0].end)
      && LeftmostLongest(s, spans[0].end, spans[1..])
  }

  /** The scanner reports exactly the leftmost-longest matches. */
  lemma {:induction false} ScanIsLeftmostLongest(s: string, i: nat)
    requires i <= |s|
    ensures LeftmostLongest(s, i, Scan(s, i))
    decreases |s| - i
  {
    if i == |s| {
    } else {
      MatchAtIsLongest(s, i);
      match MatchAt(s, i)
      case Some(j) =>
        ScanIsLeftmostLongest(s, j);
        assert ([Span(i, j)] + Scan(s, j))[1..] == Scan(s, j);
      case None =>
        ScanIsLeftmostLongest(s, i + 1);
        var rest := Scan(s, i + 1);
        if rest == [] {
          assert NoEmailStartsIn(s, i, |s|);
        } else {
          assert NoEmailStartsIn(s, i, rest[0].start);
        }
    }
  }

  /** The leftmost-longest matches are unique: the specification pins the
      result of findall down completely. */
  lemma {:induction false} LeftmostLongestUnique(s: string, i: nat, x: seq<Span>, y: seq<Span>)
    requires LeftmostLongest(s, i, x) && LeftmostLongest(s, i, y)
    ensures x == y
    decreases |x|
  {
    if x != [] {
      assert EmailAt(s, x[0].start, x[0].end);
    }
    if y != [] {
      assert EmailAt(s, y[0].start, y[0].end);
    }
    if x != [] {
      if y != [] {
        assert x[0].start == y[0].start;
        assert x[0].end == y[0].end;
        LeftmostLongestUnique(s, x[0].end, x[1..], y[1..]);
        assert x == [x[0]] + x[1..] && y == [y[0]] + y[1..];
      }
    }
  }

  /** Matches come out left to right and do not overlap. */
  lemma {:induction false} LeftmostLongestOrdered(s: string, i: nat, spans: seq<Span>)
    requires LeftmostLongest(s, i, spans)
    ensures forall t :: 0 <= t < |spans| ==> i <= spans[t].start < spans[t].end
    ensures forall t :: 0 <= t < |spans| - 1 ==> spans[t].end <= spans[t + 1].start
    decreases |spans|
  {
    if spans != [] {
      LeftmostLongestOrdered(s, spans[0].end, spans[1..]);
      assert forall t :: 1 <= t < |spans| ==> spans[t] == spans[1..][t - 1];
    }
  }

  /** Every reported span is a longest match. */
  lemma {:induction false} LeftmostLongestMatches(s: string, i: nat, spans: seq<Span>)
    requires LeftmostLongest(s, i, spans)
    ensures forall sp <- spans :: sp.end <= |s| && LongestEmailAt(s, sp.start, sp.end)
    decreases |spans|
  {
    if spans != [] {
      LeftmostLongestMatches(s, spans[0].end, spans[1..]);
      assert forall sp <- spans :: sp == spans[0] || sp in spans[1..];
    }
  }

  /** The spans of `re.findall` over the whole text. */
  function EmailSpans(text: string): (spans: seq<Span>)
    ensures forall sp <- spans :: sp.start < sp.end <= |text|
  {
    Scan(text, 0)
  }

  /** The strings `re.findall` returns: each span cut out of the text. */
  function FindEmails(text: string): (emails: seq<string>)
    ensures |emails| == |EmailSpans(text)|
    ensures forall t :: 0 <= t < |emails| ==>
      emails[t] == text[EmailSpans(text)[t].start..EmailSpans(text)[t].end]
  {
    var spans := EmailSpans(text);
    seq(|spans|, t requires 0 <= t < |spans| => text[spans[t].start..spans[t].end])
  }

  /** m holds exactly one '@'. */
  ghost predicate SingleAt(m: string) {
    exists p :: 0 <= p < |m| && m[p] == '@' && forall q :: 0 <= q < |m| && m[q] == '@' ==> q == p
  }

  /** m ends in '.' followed by two or more ASCII letters. */
  ghost predicate EndsInDotLetters(m: string) {
    exists d :: 0 < d && d + 3 <= |m| && m[d] == '.' && forall q :: d < q < |m| ==> IsAsciiLetter(m[q])
  }

  /** A piece of text of the e-mail shape has one '@' and a letter suffix. */
  lemma ShapeFacts(s: string, i: nat, a: nat, k: nat, j: nat)
    requires ShapeAt(s, i, a, k, j)
    ensures SingleAt(s[i..j]) && EndsInDotLetters(s[i..j])
  {
    var m := s[i..j];
    assert forall q :: 0 <= q < |m| ==> m[q] == s[i + q];
    var p := a - i;
    assert m[p] == '@';
    forall q | 0 <= q < |m| && m[q] == '@' ensures q == p {
      assert !InClass('@', Local) && !InClass('@', Domain) && !InClass('@', Letter);
    }
    var d := k - i;
    assert m[d] == '.';
  }

  /** What each returned e-mail looks like: a piece of the text, with one
      '@' exactly, ending in '.' and two or more ASCII letters. */
  lemma FoundEmailShape(text: string, t: nat)
    requires t < |FindEmails(text)|
    ensures var sp := EmailSpans(text)[t];
      && FindEmails(text)[t] == text[sp.start..sp.end]
      && SingleAt(FindEmails(text)[t])
      && EndsInDotLetters(FindEmails(text)[t])
  {
    var spans := EmailSpans(text);
    ScanIsLeftmostLongest(text, 0);
    LeftmostLongestMatches(text, 0, spans);
    var sp := spans[t];
    assert sp in spans;
    var a: nat, k: nat :| ShapeAt(text, sp.start, a, k, sp.end);
    ShapeFacts(text, sp.start, a, k, sp.end);
  }

  /** findall's matches are the leftmost-longest ones, in text order and
      without overlap; the same address found twice is reported twice. */
  lemma EmailSpansSpec(text: string)
    ensures LeftmostLongest(text, 0, EmailSpans(text))
    ensures forall t :: 0 <= t < |EmailSpans(text)| - 1 ==>
      EmailSpans(text)[t].end <= EmailSpans(text)[t + 1].start
  {
    ScanIsLeftmostLongest(text, 0);
    LeftmostLongestOrdered(text, 0, EmailSpans(text));
  }
  /** What `re.findall` returns, all in one: pieces of the text, each with
      one '@' and a letter suffix, taken left to right without overlap. */
  lemma FindEmailsSpec(text: string)
    ensures var emails, spans := FindEmails(text), EmailSpans(text);
      && (forall t :: 0 <= t < |emails| ==>
            && spans[t].start < spans[t].end <= |text|
            && emails[t] == text[spans[t].start..spans[t].end]
            && SingleAt(emails[t])
            && EndsInDotLetters(emails[t]))
      && (forall t :: 0 <= t < |emails| - 1 ==> spans[t].end <= spans[t + 1].start)
  {
    var spans := EmailSpans(text);
    forall t | 0 <= t < |spans|
      ensures && SingleAt(FindEmails(text)[t])
              && EndsInDotLetters(FindEmails(text)[t])
    {
      FoundEmailShape(text, t);
    }
    EmailSpansSpec(text);
  }
}
