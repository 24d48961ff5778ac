/** What the chat engine promises, stated over all inputs: the shape of the
    keyword table, how the name pass splits its input, which pass answers, and
    how the random draw selects among the candidates. */
module ChatProperties {
  import opened Text
  import opened ChatEngine

  /** Every group of the keyword table has at least one pattern and at least
      one answer, no pattern is empty, and the fallback pool pairs three
      suggestions with three tips. */
  lemma TableWellFormed(originalText: string)
    ensures |Responses| == 8
    ensures forall g | g in Responses :: g.patterns != [] && g.answers != []
    ensures forall g, p | g in Responses && p in g.patterns :: p != []
    ensures |Suggestions(originalText)| == |FallbackTips| == 3
  {
    GroupsWellFormed();
  }

  /** Each group of the table, one by one. */
  lemma GroupsWellFormed()
    ensures forall k | 0 <= k < |Responses| ::
      Responses[k].patterns != [] && Responses[k].answers != [] &&
      forall p | p in Responses[k].patterns :: p != []
  {
  }

  /** A lower-case occurrence of an alternative is a case-insensitive match of it. */
  lemma {:induction false} OccurrenceIsMarker(s: string, i: nat, m: string)
    requires OccursAt(s, m, i)
    requires forall c | c in m :: !IsAsciiUpper(c)
    ensures MarkerMatchesAt(s, i, m)
    decreases |m|
  {
    if m != [] {
      assert s[i] == s[i..i + |m|][0];
      assert s[i + 1..i + 1 + |m[1..]|] == s[i..i + |m|][1..];
      OccurrenceIsMarker(s, i + 1, m[1..]);
    }
  }

  /** The marker at i, alternative by alternative: `my name is` is tried
      before `i am`. */
  lemma MarkerAtIs(s: string, i: nat)
    ensures MarkerAt(s, i) ==
      if MarkerMatchesAt(s, i, MyNameIs) then Some(|MyNameIs|)
      else if MarkerMatchesAt(s, i, IAm) then Some(|IAm|)
      else None
  {
    var rest := Alternatives[1..];
    assert Alternatives[0] == MyNameIs && rest[0] == IAm && rest[1..] == [];
    assert FirstAlternative(s, i, rest[1..]) == None;
    assert FirstAlternative(s, i, rest) ==
      if MarkerMatchesAt(s, i, IAm) then Some(|IAm|) else None;
  }

  /** A lower-case `i am` is a marker of length 4: `my name is` cannot start
      at an `i`. */
  lemma IAmMarkerAt(s: string, i: nat)
    requires OccursAt(s, IAm, i)
    ensures MarkerAt(s, i) == Some(|IAm|)
  {
    MarkerAtIs(s, i);
    OccurrenceIsMarker(s, i, IAm);
    assert s[i..i + |IAm|][0] == s[i];
    assert !MarkerMatchesAt(s, i, MyNameIs) by {
      assert AsciiToLower(s[i]) != MyNameIs[0];
    }
  }

  /** A lower-case `my name is` is a marker of length 10. */
  lemma MyNameIsMarkerAt(s: string, i: nat)
    requires OccursAt(s, MyNameIs, i)
    ensures MarkerAt(s, i) == Some(|MyNameIs|)
  {
    MarkerAtIs(s, i);
    OccurrenceIsMarker(s, i, MyNameIs);
  }

  /** A marker starts only at an `m` or an `i` of either case, with room for
      at least the four characters of `i am` after it. */
  lemma NoMarkerAt(s: string, j: nat)
    requires j + |IAm| <= |s| ==> AsciiToLower(s[j]) != 'm' && AsciiToLower(s[j]) != 'i'
    ensures MarkerAt(s, j).None?
  {
    MarkerAtIs(s, j);
    assert MyNameIs[0] == 'm' && IAm[0] == 'i';
  }

  /** No marker starts in [a, b) when no `m` or `i` of either case with room
      for `i am` after it does. */
  lemma NoMarkerBetween(s: string, a: nat, b: nat)
    requires forall j | a <= j < b && j + |IAm| <= |s| :: AsciiToLower(s[j]) != 'm' && AsciiToLower(s[j]) != 'i'
    ensures forall j | a <= j < b :: MarkerAt(s, j).None?
  {
    forall j | a <= j < b
      ensures MarkerAt(s, j).None?
    {
      NoMarkerAt(s, j);
    }
  }

  /** The name pass always finds a marker to split on: its guard mentions a
      lower-case form of one of the alternatives of the case-insensitive split,
      so the split yields a second part. */
  lemma NameTriggerSplits(input: string)
    requires NameTriggered(input)
    ensures SecondPart(input).Some?
  {
    var i: nat;
    if Contains(input, MyNameIs) {
      i :| i <= |input| && OccursAt(input, MyNameIs, i);
      MyNameIsMarkerAt(input, i);
    } else {
      i :| i <= |input| && OccursAt(input, IAm + " ", i);
      assert OccursAt(input, IAm, i) by {
        assert input[i..i + |IAm|] == input[i..i + |IAm + " "|][..|IAm|];
      }
      IAmMarkerAt(input, i);
    }
    NextMarkerNoLater(input, 0, i);
  }

  /** `parts[1]` of the split: the text from the end of the leftmost marker up
      to the start of the next marker, or to the end of the input. */
  lemma SecondPartBetweenMarkers(s: string, i: nat, n: nat, f: nat)
    requires IsLeftmostMarker(s, i, n) && EndsPiece(s, i + n, f)
    ensures SecondPart(s) == Some(s[i + n..f])
  {
    NextMarkerIs(s, 0, i);
    PieceEndFound(s, i + n, f);
    SecondPartFromSearches(s, i, n, f);
  }

  /** The search from the start of a piece stops where the piece ends. */
  lemma PieceEndFound(s: string, start: nat, f: nat)
    requires EndsPiece(s, start, f)
    ensures f < |s| ==> NextMarker(s, start).Some? && NextMarker(s, start).value.0 == f
    ensures f == |s| ==> NextMarker(s, start).None?
  {
    if f < |s| {
      NextMarkerIs(s, start, f);
    } else {
      NextMarkerNone(s, start);
    }
  }

  /** The second part, read off the two searches of the split. */
  lemma SecondPartFromSearches(s: string, i: nat, n: nat, f: nat)
    requires i + n <= f <= |s|
    requires NextMarker(s, 0) == Some((i, n))
    requires f < |s| ==> NextMarker(s, i + n).Some? && NextMarker(s, i + n).value.0 == f
    requires f == |s| ==> NextMarker(s, i + n).None?
    ensures SecondPart(s) == Some(s[i + n..f])
  {
  }

  /** The second part is a block of the input. */
  lemma SecondPartContained(s: string)
    requires SecondPart(s).Some?
    ensures Contains(s, SecondPart(s).value)
  {
    var first := NextMarker(s, 0).value;
    var next := NextMarker(s, first.0 + first.1);
    var end := if next.None? then |s| else next.value.0;
    ContainsSlice(s, first.0 + first.1, end);
  }

  /** The search stops at a marker where it starts. */
  lemma NextMarkerHere(s: string, i: nat)
    requires i < |s| && MarkerAt(s, i).Some?
    ensures NextMarker(s, i) == Some((i, MarkerAt(s, i).value))
  {
  }

  /** The search moves on past a position where no marker starts. */
  lemma NextMarkerSkip(s: string, from: nat)
    requires from < |s| && MarkerAt(s, from).None?
    ensures NextMarker(s, from) == NextMarker(s, from + 1)
  {
  }

  /** The search finds a marker, no later than any marker at or after `from`. */
  lemma {:induction false} NextMarkerNoLater(s: string, from: nat, j: nat)
    requires from <= j < |s| && MarkerAt(s, j).Some?
    ensures NextMarker(s, from).Some? && NextMarker(s, from).value.0 <= j
    decreases j - from
  {
    if MarkerAt(s, from).None? {
      NextMarkerSkip(s, from);
      NextMarkerNoLater(s, from + 1, j);
    } else {
      NextMarkerHere(s, from);
    }
  }

  /** The search from `from` stops at the first marker at or after it. */
  lemma NextMarkerIs(s: string, from: nat, i: nat)
    requires from <= i < |s| && MarkerAt(s, i).Some?
    requires forall j | from <= j < i :: MarkerAt(s, j).None?
    ensures NextMarker(s, from) == Some((i, MarkerAt(s, i).value))
  {
    NextMarkerNoLater(s, from, i);
  }

  /** With no marker at or after `from`, the search finds nothing. */
  lemma {:induction false} NextMarkerNone(s: string, from: nat)
    requires forall j | from <= j < |s| :: MarkerAt(s, j).None?
    ensures NextMarker(s, from).None?
    decreases |s| - from
  {
    if from < |s| {
      NextMarkerSkip(s, from);
      NextMarkerNone(s, from + 1);
    }
  }

  /** Every position the search passes over holds no marker. */
  lemma {:induction false} NextMarkerSkipsNone(s: string, from: nat)
    requires NextMarker(s, from).Some?
    ensures forall j | from <= j < NextMarker(s, from).value.0 :: MarkerAt(s, j).None?
    decreases |s| - from
  {
    if MarkerAt(s, from).None? {
      NextMarkerSkip(s, from);
      NextMarkerSkipsNone(s, from + 1);
    }
  }

  /** A search that finds nothing passed over no marker: the converse of
      `NextMarkerNone`. */
  lemma {:induction false} NextMarkerNoneMeans(s: string, from: nat)
    requires NextMarker(s, from).None?
    ensures forall j | from <= j < |s| :: MarkerAt(s, j).None?
    decreases |s| - from
  {
    if from < |s| {
      assert MarkerAt(s, from).None?;
      NextMarkerSkip(s, from);
      NextMarkerNoneMeans(s, from + 1);
    }
  }

  /** Whenever the guard holds, the split has a leftmost marker and a piece
      end, and `parts[1]` is the text between them: the positions that
      `SecondPartBetweenMarkers` and `NamePathPrecedence` ask for exist. */
  lemma SplitWitness(s: string) returns (i: nat, n: nat, f: nat)
    requires NameTriggered(s)
    ensures IsLeftmostMarker(s, i, n) && EndsPiece(s, i + n, f)
    ensures SecondPart(s) == Some(s[i + n..f])
  {
    NameTriggerSplits(s);
    i, n, f := SplitPositions(s);
  }

  /** The positions of a split that has a second part. */
  lemma SplitPositions(s: string) returns (i: nat, n: nat, f: nat)
    requires SecondPart(s).Some?
    ensures IsLeftmostMarker(s, i, n) && EndsPiece(s, i + n, f)
    ensures SecondPart(s) == Some(s[i + n..f])
  {
    var first := NextMarker(s, 0);
    i, n := first.value.0, first.value.1;
    NextMarkerSkipsNone(s, 0);
    f := PieceEnd(s, i + n);
  }

  /** Where the piece starting at `start` ends: at the next marker the search
      finds, or at the end of the input. */
  lemma PieceEnd(s: string, start: nat) returns (f: nat)
    requires start <= |s|
    ensures EndsPiece(s, start, f)
    ensures f == if NextMarker(s, start).None? then |s| else NextMarker(s, start).value.0
  {
    if NextMarker(s, start).None? {
      f := |s|;
      NextMarkerNoneMeans(s, start);
    } else {
      f := NextMarker(s, start).value.0;
      NextMarkerSkipsNone(s, start);
    }
  }

  /** The name pass takes precedence: once triggered, with a non-empty cleaned
      token after the leftmost marker, the reply greets that token capitalised
      and carries the weather tip, whatever keyword the input holds. */
  lemma NamePathPrecedence(input: string, originalText: string, rnd: real, i: nat, n: nat, f: nat)
    requires 0.0 <= rnd < 1.0
    requires NameTriggered(input)
    requires IsLeftmostMarker(input, i, n) && EndsPiece(input, i + n, f)
    requires CleanToken(input[i + n..f]) != []
    ensures GetBotResponse(input, originalText, rnd)
      == Answer(GreetingText(CleanToken(input[i + n..f])), NameTip)
  {
    SecondPartBetweenMarkers(input, i, n, f);
  }

  /** The name greeted is made of letters the learner said, in the lowered
      transcript: the pass invents no character. */
  lemma NameComesFromInput(input: string)
    requires NameToken(input).Some?
    ensures forall c | c in NameToken(input).value :: c in input && IsAsciiLetter(c)
  {
    var part := SecondPart(input).value;
    var t := CleanToken(part);
    assert NameToken(input).value == t;
    SecondPartContained(input);
    ContainsMembers(input, part);
    forall c | c in t
      ensures c in input && IsAsciiLetter(c)
    {
      var k :| 0 <= k < |t| && t[k] == c;
    }
  }

  /** A cleaned token that comes out empty does not answer: the keyword and
      fallback passes decide the reply. */
  lemma EmptyTokenFallsThrough(input: string, originalText: string, rnd: real, i: nat, n: nat, f: nat)
    requires 0.0 <= rnd < 1.0
    requires IsLeftmostMarker(input, i, n) && EndsPiece(input, i + n, f)
    requires CleanToken(input[i + n..f]) == []
    ensures NameToken(input).None?
    ensures GetBotResponse(input, originalText, rnd) == KeywordOrFallback(input, originalText, rnd)
  {
    SecondPartBetweenMarkers(input, i, n, f);
  }

  /** Without the guard's phrases the name pass is skipped altogether. */
  lemma UntriggeredFallsThrough(input: string, originalText: string, rnd: real)
    requires 0.0 <= rnd < 1.0
    requires !NameTriggered(input)
    ensures NameToken(input).None?
    ensures GetBotResponse(input, originalText, rnd) == KeywordOrFallback(input, originalText, rnd)
  {
  }

  /** Both phrases of the guard hold a space, so a one-word utterance never
      reaches the name pass. */
  lemma OneWordNeverNames(input: string)
    requires ' ' !in input
    ensures !NameTriggered(input) && NameToken(input).None?
  {
    AbsentCharExcludes(input, MyNameIs, ' ');
    AbsentCharExcludes(input, IAm + " ", ' ');
  }

  /** First match wins: when the name pass is silent and g is the lowest-index
      group holding a substring of the input, the reply is the answer of g that
      the draw selects, and the later groups are never consulted. */
  lemma FirstMatchWins(input: string, originalText: string, rnd: real, g: nat)
    requires 0.0 <= rnd < 1.0
    requires NameToken(input).None?
    requires g < |Responses| && GroupMatches(Responses[g], input)
    requires forall j | 0 <= j < g :: !GroupMatches(Responses[j], input)
    ensures Responses[g].answers != []
    ensures var r := GetBotResponse(input, originalText, rnd);
      r in Responses[g].answers && r == Responses[g].answers[PickIndex(rnd, |Responses[g].answers|)]
  {
    FirstMatchIs(Responses, input, g);
  }

  /** Every answer of the winning group is the reply for some draw: the
      draw j / n selects answer j of n. */
  lemma EveryAnswerReachable(input: string, originalText: string, g: nat, j: nat)
    requires NameToken(input).None?
    requires g < |Responses| && GroupMatches(Responses[g], input)
    requires forall k | 0 <= k < g :: !GroupMatches(Responses[k], input)
    requires j < |Responses[g].answers|
    ensures var rnd := j as real / |Responses[g].answers| as real;
      0.0 <= rnd < 1.0 && GetBotResponse(input, originalText, rnd) == Responses[g].answers[j]
  {
    var n := |Responses[g].answers|;
    PickIndexOfFraction(j, n);
    FirstMatchWins(input, originalText, j as real / n as real, g);
  }

  /** The draw j / n selects index j of n candidates. */
  lemma PickIndexOfFraction(j: nat, n: nat)
    requires j < n
    ensures var rnd := j as real / n as real;
      0.0 <= rnd < 1.0 && PickIndex(rnd, n) == j
  {
    var rnd := j as real / n as real;
    assert rnd * n as real == j as real;
  }

  /** The three suggestions differ from one another, whatever the transcript. */
  lemma SuggestionsDistinct(originalText: string)
    ensures forall a, b | 0 <= a < b < 3 :: Suggestions(originalText)[a] != Suggestions(originalText)[b]
  {
    var s := Suggestions(originalText);
    // they end in `you?"`, `name?"` and `.`
    assert s[0][|s[0]| - 3] == 'u' && s[0][|s[0]| - 1] == '"';
    assert s[1][|s[1]| - 3] == 'e' && s[1][|s[1]| - 1] == '"';
    assert s[2][|s[2]| - 1] == '.';
  }

  /** The three fallback tips differ from one another. */
  lemma FallbackTipsDistinct()
    ensures forall a, b | 0 <= a < b < 3 :: FallbackTips[a] != FallbackTips[b]
  {
    // they end in `?)`, `.)` and `r!`
    assert FallbackTips[0][|FallbackTips[0]| - 2] == '?';
    assert FallbackTips[1][|FallbackTips[1]| - 2] == '.';
    assert FallbackTips[2][|FallbackTips[2]| - 2] == 'r';
  }

  /** With no name and no keyword, the reply is the fallback suggestion that
      the draw selects, with the tip at the same position. */
  lemma FallbackReply(input: string, originalText: string, rnd: real)
    requires 0.0 <= rnd < 1.0
    requires NameToken(input).None?
    requires forall g | 0 <= g < |Responses| :: !GroupMatches(Responses[g], input)
    ensures var idx := PickIndex(rnd, 3);
      GetBotResponse(input, originalText, rnd) == Answer(Suggestions(originalText)[idx], FallbackTips[idx])
  {
    FirstMatchNone(Responses, input);
  }

  /** The suggestion and the tip of a fallback reply are picked by one shared
      draw: the reply's text is suggestion k exactly when its tip is tip k. */
  lemma FallbackPairing(input: string, originalText: string, rnd: real)
    requires 0.0 <= rnd < 1.0
    requires NameToken(input).None?
    requires forall g | 0 <= g < |Responses| :: !GroupMatches(Responses[g], input)
    ensures var r := GetBotResponse(input, originalText, rnd);
      forall k | 0 <= k < 3 :: r.text == Suggestions(originalText)[k] <==> r.tip == FallbackTips[k]
  {
    FallbackReply(input, originalText, rnd);
    SuggestionsDistinct(originalText);
    FallbackTipsDistinct();
  }

  /** The first suggestion quotes the transcript as spoken, not lowered. */
  lemma FallbackEchoesTranscript(input: string, originalText: string, rnd: real)
    requires 0.0 <= rnd < 1.0 / 3.0
    requires NameToken(input).None?
    requires forall g | 0 <= g < |Responses| :: !GroupMatches(Responses[g], input)
    ensures Contains(GetBotResponse(input, originalText, rnd).text, originalText)
  {
    FallbackReply(input, originalText, rnd);
    assert PickIndex(rnd, 3) == 0;
    assert Contains(originalText, originalText) by {
      ContainsAt(originalText, originalText, 0);
    }
    ContainsInContext("I'm not sure I understood \"", originalText,
      "\". Did you mean \"How are you?\"", originalText);
  }

  /** The transcript as spoken matters only for the echo: two transcripts that
      lower to the same text get the same reply unless both land on the
      first fallback suggestion. */
  lemma CaseOnlyReachesEcho(t1: string, t2: string, rnd: real)
    requires 0.0 <= rnd < 1.0
    requires ToLowerCase(t1) == ToLowerCase(t2)
    requires Reply(t1, rnd) != Reply(t2, rnd)
    ensures Reply(t1, rnd).tip == Reply(t2, rnd).tip == FallbackTips[0]
    ensures Contains(Reply(t1, rnd).text, t1) && Contains(Reply(t2, rnd).text, t2)
  {
    var input := ToLowerCase(t1);
    assert NameToken(input).None? && FirstMatch(Responses, input).None?;
    assert PickIndex(rnd, 3) == 0;
    FallbackEchoesTranscript(input, t1, rnd);
    FallbackEchoesTranscript(input, t2, rnd);
  }
}
