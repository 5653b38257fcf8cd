/** The plugin's key tokenizer: `re.findall` of the pattern
    `(\.?[A-Z]+(?:[.\-_][A-Z]+)*)` with `re.IGNORECASE`, written as a
    left-to-right scanner that takes the leftmost greedy match and resumes
    after it. */
module KeyTokens {

  import opened Wrappers

  /** `[A-Z]` under case-insensitive matching: an ASCII letter. */
  predicate IsLetter(c: char) {
    'a' <= c <= 'z' || 'A' <= c <= 'Z'
  }

  /** The joiners of `[.\-_]`. */
  predicate IsJoiner(c: char) {
    c == '.' || c == '-' || c == '_'
  }

  /** `[A-Za-z]+([.\-_][A-Za-z]+)*`: starts and ends with a letter, and every
      other character is a joiner directly followed by a letter. */
  predicate IsNameBody(t: string) {
    && |t| > 0
    && IsLetter(t[0])
    && IsLetter(t[|t| - 1])
    && forall k :: 0 <= k < |t| && !IsLetter(t[k]) ==> IsJoiner(t[k]) && k + 1 < |t| && IsLetter(t[k + 1])
  }

  /** A token as the pattern produces it: a name body, optionally after one dot. */
  predicate IsToken(t: string) {
    IsNameBody(t) || (|t| >= 2 && t[0] == '.' && IsNameBody(t[1..]))
  }

  /** The span `s[i..e]` has the shape of a name body. */
  predicate BodyAt(s: string, i: nat, e: nat)
    requires i < e <= |s|
  {
    && IsLetter(s[i])
    && IsLetter(s[e - 1])
    && forall k :: i <= k < e && !IsLetter(s[k]) ==> IsJoiner(s[k]) && k + 1 < e && IsLetter(s[k + 1])
  }

  /** A match ends at `e`: no letter follows, and no joiner followed by a letter
      could extend it. */
  predicate EndsMaximally(s: string, e: nat)
    requires e <= |s|
  {
    && (e == |s| || !IsLetter(s[e]))
    && !(e + 1 < |s| && IsJoiner(s[e]) && IsLetter(s[e + 1]))
  }

  /** End of the greedy `[A-Z]+` run starting at `i`. */
  function LetterRunEnd(s: string, i: nat): (e: nat)
    requires i <= |s|
    ensures i <= e <= |s|
    ensures forall k :: i <= k < e ==> IsLetter(s[k])
    ensures e == |s| || !IsLetter(s[e])
    decreases |s| - i
  {
    if i < |s| && IsLetter(s[i]) then LetterRunEnd(s, i + 1) else i
  }

  /** End of the greedy `[A-Z]+(?:[.\-_][A-Z]+)*` starting at the letter `s[i]`. */
  function NameEnd(s: string, i: nat): (e: nat)
    requires i < |s| && IsLetter(s[i])
    ensures i < e <= |s|
    ensures BodyAt(s, i, e)
    ensures EndsMaximally(s, e)
    decreases |s| - i
  {
    var j := LetterRunEnd(s, i);
    if j + 1 < |s| && IsJoiner(s[j]) && IsLetter(s[j + 1]) then NameEnd(s, j + 1) else j
  }

  /** The end of the match of the whole pattern at `i`, if one starts there:
      `\.?` takes a dot only when a letter follows it. */
  function MatchEnd(s: string, i: nat): (r: Option<nat>)
    requires i < |s|
    ensures r.Some? ==> i < r.value <= |s|
    ensures r.Some? <==> IsLetter(s[i]) || (s[i] == '.' && i + 1 < |s| && IsLetter(s[i + 1]))
  {
    if s[i] == '.' && i + 1 < |s| && IsLetter(s[i + 1]) then Some(NameEnd(s, i + 1))
    else if IsLetter(s[i]) then Some(NameEnd(s, i))
    else None
  }

  /** Where one match lies in the key string: `s[start..end]`. */
  datatype Span = Span(start: nat, end: nat)

  /** The spans `re.findall` reports from position `i` on: the leftmost match,
      then the search resumes at its end. */
  function Spans(s: string, i: nat): (r: seq<Span>)
    requires i <= |s|
    ensures forall k :: 0 <= k < |r| ==> i <= r[k].start < r[k].end <= |s|
    ensures forall k :: 0 <= k < |r| - 1 ==> r[k].end <= r[k + 1].start
    decreases |s| - i
  {
    if i == |s| then []
    else match MatchEnd(s, i)
      case Some(e) => [Span(i, e)] + Spans(s, e)
      case None => Spans(s, i + 1)
  }

  /** `re.findall(pattern, s)`: the matched substrings, in order. */
  function FindAll(s: string): (r: seq<string>)
    ensures forall t :: t in r ==> IsToken(t)
  {
    var sp := Spans(s, 0);
    SpansAreTokens(s, 0);
    seq(|sp|, k requires 0 <= k < |sp| => s[sp[k].start..sp[k].end])
  }

  /** A span found by the scanner whose characters form a token. */
  predicate TokenSpan(s: string, sp: Span)
  {
    sp.start < sp.end <= |s| && IsToken(s[sp.start..sp.end])
  }

  /** A span with the shape of a name body holds a name body. */
  lemma BodyAtIsNameBody(s: string, i: nat, e: nat)
    requires i < e <= |s| && BodyAt(s, i, e)
    ensures IsNameBody(s[i..e])
  {
    var t := s[i..e];
    forall k | 0 <= k < |t| && !IsLetter(t[k])
      ensures IsJoiner(t[k]) && k + 1 < |t| && IsLetter(t[k + 1])
    {
      assert t[k] == s[i + k];
    }
  }

  /** Every match of the scanner is a well-formed token that ends maximally. */
  lemma {:induction false} SpansAreTokens(s: string, i: nat)
    requires i <= |s|
    ensures forall sp :: sp in Spans(s, i) ==> TokenSpan(s, sp) && EndsMaximally(s, sp.end)
    decreases |s| - i
  {
    if i < |s| {
      match MatchEnd(s, i)
      case Some(e) =>
        SpansAreTokens(s, e);
        if s[i] == '.' && i + 1 < |s| && IsLetter(s[i + 1]) {
          BodyAtIsNameBody(s, i + 1, e);
          assert s[i..e][1..] == s[i + 1..e];
        } else {
          BodyAtIsNameBody(s, i, e);
        }
        assert TokenSpan(s, Span(i, e));
      case None =>
        SpansAreTokens(s, i + 1);
    }
  }

  /** The search may resume at `i` without a letter directly before the next
      match: either `s[i - 1]` is no letter or no match starts at `i`. */
  predicate Resumable(s: string, i: nat)
    requires i <= |s|
  {
    i == 0 || !IsLetter(s[i - 1]) || i == |s| || MatchEnd(s, i).None?
  }

  /** No letter directly precedes a match. */
  lemma {:induction false} SpansNotAfterLetter(s: string, i: nat)
    requires i <= |s| && Resumable(s, i)
    ensures forall sp :: sp in Spans(s, i) ==> sp.start == 0 || !IsLetter(s[sp.start - 1])
    decreases |s| - i
  {
    if i < |s| {
      match MatchEnd(s, i)
      case Some(e) =>
        // the match ends maximally, so none starts where it ends
        assert e < |s| ==> MatchEnd(s, e).None?;
        SpansNotAfterLetter(s, e);
      case None =>
        SpansNotAfterLetter(s, i + 1);
    }
  }

  /** Position `p` lies inside one of the spans. */
  predicate Covered(sp: seq<Span>, p: nat) {
    exists k :: 0 <= k < |sp| && sp[k].start <= p < sp[k].end
  }

  /** Every letter of the key string lies inside some match. */
  lemma {:induction false} SpansCoverLetters(s: string, i: nat, p: nat)
    requires i <= p < |s| && IsLetter(s[p])
    ensures Covered(Spans(s, i), p)
    decreases |s| - i
  {
    var r := Spans(s, i);
    match MatchEnd(s, i)
    case Some(e) =>
      if p < e {
        assert r[0].start <= p < r[0].end;
      } else {
        SpansCoverLetters(s, e, p);
        var k :| 0 <= k < |Spans(s, e)| && Spans(s, e)[k].start <= p < Spans(s, e)[k].end;
        assert r[k + 1] == Spans(s, e)[k];
      }
    case None =>
      SpansCoverLetters(s, i + 1, p);
  }

  /** Tokens are maximal: each match of `re.findall` is a well-formed token,
      and no letter stands directly before or after it in the key string. */
  lemma TokensAreMaximal(s: string)
    ensures |FindAll(s)| == |Spans(s, 0)|
    ensures forall k :: 0 <= k < |Spans(s, 0)| ==>
      var sp := Spans(s, 0)[k];
      && FindAll(s)[k] == s[sp.start..sp.end]
      && IsToken(FindAll(s)[k])
      && (sp.start == 0 || !IsLetter(s[sp.start - 1]))
      && (sp.end == |s| || !IsLetter(s[sp.end]))
  {
    SpansAreTokens(s, 0);
    SpansNotAfterLetter(s, 0);
    forall k | 0 <= k < |Spans(s, 0)|
      ensures Spans(s, 0)[k] in Spans(s, 0)
    {
    }
  }

  /** No letter is skipped: every letter position is covered by a match. */
  lemma TokensCoverLetters(s: string)
    ensures forall p :: 0 <= p < |s| && IsLetter(s[p]) ==> Covered(Spans(s, 0), p)
  {
    forall p | 0 <= p < |s| && IsLetter(s[p])
      ensures Covered(Spans(s, 0), p)
    {
      SpansCoverLetters(s, 0, p);
    }
  }

  /** A key yields no tokens exactly when it holds no letter. */
  lemma NoTokensIffNoLetters(s: string)
    ensures FindAll(s) == [] <==> forall p :: 0 <= p < |s| ==> !IsLetter(s[p])
  {
    var sp := Spans(s, 0);
    assert |FindAll(s)| == |sp|;
    if sp == [] {
      forall p | 0 <= p < |s|
        ensures !IsLetter(s[p])
      {
        if IsLetter(s[p]) {
          SpansCoverLetters(s, 0, p);
        }
      }
    } else {
      SpansAreTokens(s, 0);
      assert sp[0] in sp;
      var t := s[sp[0].start..sp[0].end];
      assert IsToken(t);
      TokenEndsInLetter(t);
      assert t[|t| - 1] == s[sp[0].end - 1];
    }
  }

  /** A token ends in a letter. */
  lemma TokenEndsInLetter(t: string)
    requires IsToken(t)
    ensures |t| > 0 && IsLetter(t[|t| - 1])
  {
    if !IsNameBody(t) {
      assert t[1..][|t| - 2] == t[|t| - 1];
    }
  }

  // Worked keys and the tokens the pattern yields for them.

  /** A key with exactly one match yields exactly its text. */
  lemma FindAllOne(s: string)
    requires |Spans(s, 0)| == 1
    ensures FindAll(s) == [s[Spans(s, 0)[0].start..Spans(s, 0)[0].end]]
  {
  }

  lemma ExampleNtilde()
    ensures FindAll("ntilde") == ["ntilde"]
  {
    var s := "ntilde";
    assert LetterRunEnd(s, 6) == 6;
    assert LetterRunEnd(s, 5) == 6;
    assert LetterRunEnd(s, 4) == 6;
    assert LetterRunEnd(s, 3) == 6;
    assert LetterRunEnd(s, 2) == 6;
    assert LetterRunEnd(s, 1) == 6;
    assert LetterRunEnd(s, 0) == 6;
    assert NameEnd(s, 0) == 6;
    assert Spans(s, 6) == [];
    assert Spans(s, 0) == [Span(0, 6)];
    FindAllOne(s);
    assert s[0..6] == s;
  }

  lemma ExampleOffset()
    ensures FindAll("n-20") == ["n"]
  {
    var s := "n-20";
    assert LetterRunEnd(s, 1) == 1;
    assert LetterRunEnd(s, 0) == 1;
    assert NameEnd(s, 0) == 1;
    assert Spans(s, 4) == [];
    assert Spans(s, 3) == [];
    assert Spans(s, 2) == [];
    assert Spans(s, 1) == [];
    assert Spans(s, 0) == [Span(0, 1)];
    FindAllOne(s);
    assert s[0..1] == "n";
  }

  lemma ExampleMirror()
    ensures FindAll("=|h") == ["h"]
  {
    var s := "=|h";
    assert LetterRunEnd(s, 3) == 3;
    assert LetterRunEnd(s, 2) == 3;
    assert NameEnd(s, 2) == 3;
    assert Spans(s, 3) == [];
    assert Spans(s, 2) == [Span(2, 3)];
    assert Spans(s, 1) == [Span(2, 3)];
    assert Spans(s, 0) == [Span(2, 3)];
    FindAllOne(s);
    assert s[2..3] == "h";
  }

  lemma ExampleSuffixedChain()
    ensures FindAll("A.sc-B.sc") == ["A.sc-B.sc"]
  {
    var s := "A.sc-B.sc";
    assert LetterRunEnd(s, 9) == 9;
    assert LetterRunEnd(s, 8) == 9;
    assert LetterRunEnd(s, 7) == 9;
    assert NameEnd(s, 7) == 9;
    assert LetterRunEnd(s, 6) == 6;
    assert LetterRunEnd(s, 5) == 6;
    assert NameEnd(s, 5) == 9;
    assert LetterRunEnd(s, 4) == 4;
    assert LetterRunEnd(s, 3) == 4;
    assert LetterRunEnd(s, 2) == 4;
    assert NameEnd(s, 2) == 9;
    assert LetterRunEnd(s, 1) == 1;
    assert LetterRunEnd(s, 0) == 1;
    assert NameEnd(s, 0) == 9;
    assert Spans(s, 9) == [];
    assert Spans(s, 0) == [Span(0, 9)];
    FindAllOne(s);
    assert s[0..9] == s;
  }

  lemma ExampleEmpty()
    ensures FindAll("") == []
  {
  }
}
