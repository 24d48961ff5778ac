/** Worked conversations: the replies the engine gives to particular
    transcripts, for every draw of the random number. */
module ChatScenarios {
  import opened Text
  import opened ChatEngine
  import opened ChatProperties

  /** A group does not match when each of its patterns holds a character the
      input lacks; `absent[k]` names that character for pattern k. */
  lemma GroupRuledOut(g: PatternGroup, input: string, absent: seq<char>)
    requires |absent| == |g.patterns|
    requires forall k | 0 <= k < |absent| :: absent[k] in g.patterns[k] && absent[k] !in input
    ensures !GroupMatches(g, input)
  {
    forall p | p in g.patterns
      ensures !Contains(input, p)
    {
      var k :| 0 <= k < |g.patterns| && g.patterns[k] == p;
      AbsentCharExcludes(input, p, absent[k]);
    }
  }

  /** A group matches when one of its patterns occurs at a known position. */
  lemma GroupHit(g: PatternGroup, input: string, p: string, i: nat)
    requires p in g.patterns && OccursAt(input, p, i)
    ensures GroupMatches(g, input)
  {
  }

  /** "hi" greets back: one of the two greeting answers, each with its own tip. */
  lemma ScenarioHi(s: string, rnd: real)
    requires s == "hi" && 0.0 <= rnd < 1.0
    ensures var r := GetBotResponse(s, s, rnd);
      || r == Answer("Hello! How are you today?", "Dica: Responda 'I am fine' (Ái ém fáin) ou 'I am good' (Ái ém gud).")
      || r == Answer("Hi! It's nice to see you. How are you doing?", "Dica: Diga 'I am great, thank you' (Ái ém grêit, ténc iú).")
  {
    HiFacts(s);
    FirstMatchWins(s, s, rnd, 0);
  }

  lemma HiFacts(s: string)
    requires s == "hi"
    ensures NameToken(s).None? && GroupMatches(Greetings, s)
  {
    OneWordNeverNames(s);
    GroupHit(Greetings, s, "hi", 0);
  }

  /** What "goodbye" holds and lacks. */
  lemma GoodbyeFacts(s: string)
    requires s == "goodbye"
    ensures NameToken(s).None?
    ensures !GroupMatches(Greetings, s) && !GroupMatches(HowAreYou, s) && GroupMatches(FeelingWell, s)
  {
    OneWordNeverNames(s);
    GoodbyeNotGreeting(s);
    GoodbyeNotHowAreYou(s);
    GroupHit(FeelingWell, s, "good", 0);
  }

  lemma GoodbyeNotGreeting(s: string)
    requires s == "goodbye"
    ensures !GroupMatches(Greetings, s)
  {
    GroupRuledOut(Greetings, s, "hhhmfn");
  }

  lemma GoodbyeNotHowAreYou(s: string)
    requires s == "goodbye"
    ensures !GroupMatches(HowAreYou, s)
  {
    GroupRuledOut(HowAreYou, s, "hhh");
  }

  /** Matching is by substring, not by word: "goodbye" holds "good", so the
      group about how the learner is feeling answers. */
  lemma ScenarioGoodbye(s: string, rnd: real)
    requires s == "goodbye" && 0.0 <= rnd < 1.0
    ensures GetBotResponse(s, s, rnd) in FeelingWell.answers
  {
    GoodbyeFacts(s);
    FirstMatchWins(s, s, rnd, 2);
  }

  /** "this" holds "hi", so the greeting group answers. */
  lemma ScenarioThis(s: string, rnd: real)
    requires s == "this" && 0.0 <= rnd < 1.0
    ensures GetBotResponse(s, s, rnd) in Greetings.answers
  {
    ThisFacts(s);
    FirstMatchWins(s, s, rnd, 0);
  }

  lemma ThisFacts(s: string)
    requires s == "this"
    ensures NameToken(s).None? && GroupMatches(Greetings, s)
  {
    OneWordNeverNames(s);
    GroupHit(Greetings, s, "hi", 1);
  }

  /** What "hello weather" holds and lacks. */
  lemma HelloWeatherFacts(s: string)
    requires s == "hello weather"
    ensures NameToken(s).None?
    ensures GroupMatches(Greetings, s) && GroupMatches(Weather, s)
  {
    AbsentCharExcludes(s, MyNameIs, 'm');
    AbsentCharExcludes(s, IAm + " ", 'i');
    HelloWeatherOccurrences(s);
    GroupHit(Weather, s, "weather", 6);
    GroupHit(Greetings, s, "hello", 0);
  }

  lemma HelloWeatherOccurrences(s: string)
    requires s == "hello weather"
    ensures OccursAt(s, "hello", 0) && OccursAt(s, "weather", 6)
  {
  }

  /** An input that holds patterns of two groups is answered by the group
      declared first: "hello weather" greets and does not talk about the weather. */
  lemma ScenarioGroupPrecedence(s: string, rnd: real)
    requires s == "hello weather" && 0.0 <= rnd < 1.0
    ensures GroupMatches(Weather, s)
    ensures GetBotResponse(s, s, rnd) in Greetings.answers
    ensures GetBotResponse(s, s, rnd) !in Weather.answers
  {
    HelloWeatherFacts(s);
    FirstMatchWins(s, s, rnd, 0);
  }

  /** Where "my name is bob123" splits: the marker at 0, and a second part
      running from 10 to the end. */
  lemma Bob123Markers(s: string)
    requires s == "my name is bob123"
    ensures NameTriggered(s)
    ensures IsLeftmostMarker(s, 0, 10) && EndsPiece(s, 10, 17)
  {
    Bob123Occurrence(s);
    ContainsAt(s, MyNameIs, 0);
    MyNameIsMarkerAt(s, 0);
    Bob123Letters(s);
    NoMarkerBetween(s, 10, 17);
  }

  lemma Bob123Letters(s: string)
    requires s == "my name is bob123"
    ensures forall j | 10 <= j < 17 && j + |IAm| <= |s| :: AsciiToLower(s[j]) != 'm' && AsciiToLower(s[j]) != 'i'
  {
  }

  lemma Bob123Occurrence(s: string)
    requires s == "my name is bob123"
    ensures OccursAt(s, MyNameIs, 0)
  {
  }

  /** " bob123" cleans to "bob": trimmed it is "bob123", which holds no space,
      and its letters are the leading "bob". */
  lemma Bob123Token(part: string)
    requires part == " bob123"
    ensures CleanToken(part) == "bob"
  {
    TrimIs(part, 1, 7);
    var word := part[1..7];
    Bob123Word(word);
  }

  lemma Bob123Word(word: string)
    requires word == "bob123"
    ensures FirstWord(word) == word && KeepLetters(word) == "bob"
  {
    FirstWordIs(word, 6);
    assert word[..6] == word;
    KeepLettersIs(word, 3);
  }

  /** The name pass answers for `input`: the guard holds, the leftmost marker
      is at i with length n, the piece after it ends at f, and its cleaned
      token is non-empty and capitalises to `cap`. */
  ghost predicate NameGreets(input: string, i: nat, n: nat, f: nat, cap: string) {
    && NameTriggered(input)
    && IsLeftmostMarker(input, i, n) && EndsPiece(input, i + n, f)
    && CleanToken(input[i + n..f]) != [] && Capitalize(CleanToken(input[i + n..f])) == cap
  }

  /** The name pass greets with the capitalised token written out as `cap`. */
  lemma GreetsAs(input: string, originalText: string, rnd: real, i: nat, n: nat, f: nat, cap: string)
    requires 0.0 <= rnd < 1.0
    requires NameGreets(input, i, n, f, cap)
    ensures GetBotResponse(input, originalText, rnd) == Answer(GreetingOpen + cap + GreetingClose, NameTip)
  {
    NamePathPrecedence(input, originalText, rnd, i, n, f);
  }

  lemma CapitalizeBob(name: string)
    requires name == "bob"
    ensures Capitalize(name) == "Bob"
  {
    assert AsciiToUpper(name[0]) == 'B' && name[1..] == "ob";
  }

  lemma CapitalizeFine(name: string)
    requires name == "fine"
    ensures Capitalize(name) == "Fine"
  {
    assert AsciiToUpper(name[0]) == 'F' && name[1..] == "ine";
  }

  lemma CapitalizeY(name: string)
    requires name == "y"
    ensures Capitalize(name) == "Y"
  {
    assert AsciiToUpper(name[0]) == 'Y';
  }

  /** The name keeps only its letters and is capitalised: "bob123" greets Bob. */
  lemma ScenarioNameWithDigits(s: string, originalText: string, rnd: real)
    requires s == "my name is bob123" && 0.0 <= rnd < 1.0
    ensures GetBotResponse(s, originalText, rnd)
      == Answer(GreetingOpen + "Bob" + GreetingClose, NameTip)
  {
    Bob123Markers(s);
    Bob123Name(s);
    GreetsAs(s, originalText, rnd, 0, 10, 17, "Bob");
  }

  lemma Bob123Name(s: string)
    requires s == "my name is bob123"
    ensures CleanToken(s[10..17]) != [] && Capitalize(CleanToken(s[10..17])) == "Bob"
  {
    var part := s[10..17];
    assert part == " bob123";
    Bob123Token(part);
    CapitalizeBob(CleanToken(part));
  }

  /** The name is read after the leftmost match of the split, not after the
      "i am " the guard may also find: "my name is ana i am bob" greets "Ana". */
  lemma ScenarioLeftmostNameWins(s: string, originalText: string, rnd: real)
    requires s == "my name is ana i am bob" && 0.0 <= rnd < 1.0
    ensures GetBotResponse(s, originalText, rnd)
      == Answer(GreetingOpen + "Ana" + GreetingClose, NameTip)
  {
    AnaGreets(s);
    GreetsAs(s, originalText, rnd, 0, 10, 15, "Ana");
  }

  lemma AnaGreets(s: string)
    requires s == "my name is ana i am bob"
    ensures NameGreets(s, 0, 10, 15, "Ana")
  {
    AnaMarkers(s);
    AnaName(s);
  }

  lemma AnaMarkers(s: string)
    requires s == "my name is ana i am bob"
    ensures NameTriggered(s)
    ensures IsLeftmostMarker(s, 0, 10) && EndsPiece(s, 10, 15)
  {
    AnaOccurrences(s);
    ContainsAt(s, MyNameIs, 0);
    MyNameIsMarkerAt(s, 0);
    IAmMarkerAt(s, 15);
    AnaLetters(s);
    NoMarkerBetween(s, 10, 15);
  }

  lemma AnaLetters(s: string)
    requires s == "my name is ana i am bob"
    ensures forall j | 10 <= j < 15 && j + |IAm| <= |s| :: AsciiToLower(s[j]) != 'm' && AsciiToLower(s[j]) != 'i'
  {
  }

  lemma AnaOccurrences(s: string)
    requires s == "my name is ana i am bob"
    ensures OccursAt(s, MyNameIs, 0) && OccursAt(s, IAm, 15)
  {
  }

  lemma AnaName(s: string)
    requires s == "my name is ana i am bob"
    ensures CleanToken(s[10..15]) != [] && Capitalize(CleanToken(s[10..15])) == "Ana"
  {
    var part := s[10..15];
    assert part == " ana ";
    AnaToken(part);
    CapitalizeAna(CleanToken(part));
  }

  lemma CapitalizeAna(name: string)
    requires name == "ana"
    ensures Capitalize(name) == "Ana"
  {
    assert AsciiToUpper(name[0]) == 'A' && name[1..] == "na";
  }

  /** " ana " cleans to "ana": both margins are trimmed away. */
  lemma AnaToken(part: string)
    requires part == " ana "
    ensures CleanToken(part) == "ana"
  {
    TrimIs(part, 1, 4);
    var word := part[1..4];
    AnaWord(word);
  }

  lemma AnaWord(word: string)
    requires word == "ana"
    ensures FirstWord(word) == word && KeepLetters(word) == word
  {
    FirstWordIs(word, 3);
    assert word[..3] == word;
    KeepLettersIs(word, 3);
  }

  /** "i am fine" splits after "i am": the learner is greeted as "Fine",
      although the group about feeling well holds "i am fine" too
      (FineHoldsKeyword). */
  lemma ScenarioFineIsAName(s: string, originalText: string, rnd: real)
    requires s == "i am fine" && 0.0 <= rnd < 1.0
    ensures GetBotResponse(s, originalText, rnd)
      == Answer(GreetingOpen + "Fine" + GreetingClose, NameTip)
  {
    FineMarkers(s);
    FineName(s);
    GreetsAs(s, originalText, rnd, 0, 4, 9, "Fine");
  }

  lemma FineName(s: string)
    requires s == "i am fine"
    ensures CleanToken(s[4..9]) != [] && Capitalize(CleanToken(s[4..9])) == "Fine"
  {
    var part := s[4..9];
    assert part == " fine";
    FineToken(part);
    CapitalizeFine(CleanToken(part));
  }

  lemma FineMarkers(s: string)
    requires s == "i am fine"
    ensures NameTriggered(s)
    ensures IsLeftmostMarker(s, 0, 4) && EndsPiece(s, 4, 9)
  {
    FineOccurrences(s);
    ContainsAt(s, IAm + " ", 0);
    IAmMarkerAt(s, 0);
    FineLetters(s);
    NoMarkerBetween(s, 4, 9);
  }

  lemma FineLetters(s: string)
    requires s == "i am fine"
    ensures forall j | 4 <= j < 9 && j + |IAm| <= |s| :: AsciiToLower(s[j]) != 'm' && AsciiToLower(s[j]) != 'i'
  {
  }

  lemma FineOccurrences(s: string)
    requires s == "i am fine"
    ensures OccursAt(s, IAm, 0) && OccursAt(s, IAm + " ", 0)
  {
  }

  /** "i am fine" is also a pattern of the group about feeling well. */
  lemma FineHoldsKeyword(s: string)
    requires s == "i am fine"
    ensures GroupMatches(FeelingWell, s)
  {
    GroupHit(FeelingWell, s, "i am fine", 0);
  }

  lemma FineToken(part: string)
    requires part == " fine"
    ensures CleanToken(part) == "fine"
  {
    TrimIs(part, 1, 5);
    var word := part[1..5];
    FineWord(word);
  }

  lemma FineWord(word: string)
    requires word == "fine"
    ensures FirstWord(word) == word && KeepLetters(word) == word
  {
    FirstWordIs(word, 4);
    assert word[..4] == word;
    KeepLettersIs(word, 4);
  }

  /** The guard and the split disagree on "hi amy i am bob": the guard sees
      "i am " at 7, but the case-insensitive split already cuts at the "i am"
      inside "hi amy", so the second part is "y " and the learner is greeted
      as "Y". */
  lemma ScenarioSplitInsideWord(s: string, originalText: string, rnd: real)
    requires s == "hi amy i am bob" && 0.0 <= rnd < 1.0
    ensures GetBotResponse(s, originalText, rnd)
      == Answer(GreetingOpen + "Y" + GreetingClose, NameTip)
  {
    AmyMarkers(s);
    AmyName(s);
    GreetsAs(s, originalText, rnd, 1, 4, 7, "Y");
  }

  lemma AmyName(s: string)
    requires s == "hi amy i am bob"
    ensures CleanToken(s[5..7]) != [] && Capitalize(CleanToken(s[5..7])) == "Y"
  {
    var part := s[5..7];
    assert part == "y ";
    AmyToken(part);
    CapitalizeY(CleanToken(part));
  }

  lemma AmyMarkers(s: string)
    requires s == "hi amy i am bob"
    ensures NameTriggered(s)
    ensures IsLeftmostMarker(s, 1, 4) && EndsPiece(s, 5, 7)
  {
    AmyOccurrences(s);
    ContainsAt(s, IAm + " ", 7);
    AmyLetters(s);
    NoMarkerBetween(s, 0, 1);
    IAmMarkerAt(s, 1);
    NoMarkerBetween(s, 5, 7);
    IAmMarkerAt(s, 7);
  }

  lemma AmyLetters(s: string)
    requires s == "hi amy i am bob"
    ensures forall j | 0 <= j < 1 && j + |IAm| <= |s| :: AsciiToLower(s[j]) != 'm' && AsciiToLower(s[j]) != 'i'
    ensures forall j | 5 <= j < 7 && j + |IAm| <= |s| :: AsciiToLower(s[j]) != 'm' && AsciiToLower(s[j]) != 'i'
  {
  }

  lemma AmyOccurrences(s: string)
    requires s == "hi amy i am bob"
    ensures OccursAt(s, IAm, 1) && OccursAt(s, IAm, 7) && OccursAt(s, IAm + " ", 7)
  {
  }

  lemma AmyToken(part: string)
    requires part == "y "
    ensures CleanToken(part) == "y"
  {
    TrimIs(part, 0, 1);
    var word := part[0..1];
    FirstWordIs(word, 1);
    assert word[..1] == word;
    KeepLettersIs(word, 1);
  }

  /** A name with no letters does not answer, and the keyword pass then finds
      "name" inside "my name is": the bot introduces itself and asks back. */
  lemma ScenarioNoLettersInName(s: string, originalText: string, rnd: real)
    requires s == "my name is !!!" && 0.0 <= rnd < 1.0
    ensures GetBotResponse(s, originalText, rnd) == AskName.answers[0]
  {
    BangFallsThrough(s, originalText, rnd);
    BangGroupsEarly(s);
    BangGroupsLate(s);
    AskNameAnswers(s, originalText, rnd);
  }

  lemma BangFallsThrough(s: string, originalText: string, rnd: real)
    requires s == "my name is !!!" && 0.0 <= rnd < 1.0
    ensures NameToken(s).None?
    ensures GetBotResponse(s, originalText, rnd) == KeywordOrFallback(s, originalText, rnd)
  {
    BangMarkers(s);
    BangToken(s[10..14]);
    EmptyTokenFallsThrough(s, originalText, rnd, 0, 10, 14);
  }

  /** The group about names has a single answer, so it is the reply for every
      draw once the groups before it are silent. */
  lemma AskNameAnswers(input: string, originalText: string, rnd: real)
    requires 0.0 <= rnd < 1.0
    requires NameToken(input).None?
    requires !GroupMatches(Greetings, input) && !GroupMatches(HowAreYou, input) && !GroupMatches(FeelingWell, input)
    requires !GroupMatches(Weather, input) && !GroupMatches(Food, input) && !GroupMatches(Travel, input)
    requires GroupMatches(AskName, input)
    ensures GetBotResponse(input, originalText, rnd) == AskName.answers[0]
  {
    FirstMatchWins(input, originalText, rnd, 6);
  }

  lemma BangMarkers(s: string)
    requires s == "my name is !!!"
    ensures IsLeftmostMarker(s, 0, 10) && EndsPiece(s, 10, 14)
  {
    BangOccurrence(s);
    MyNameIsMarkerAt(s, 0);
    BangLetters(s);
    NoMarkerBetween(s, 10, 14);
  }

  lemma BangLetters(s: string)
    requires s == "my name is !!!"
    ensures forall j | 10 <= j < 14 && j + |IAm| <= |s| :: AsciiToLower(s[j]) != 'm' && AsciiToLower(s[j]) != 'i'
  {
  }

  lemma BangOccurrence(s: string)
    requires s == "my name is !!!"
    ensures OccursAt(s, MyNameIs, 0)
  {
  }

  lemma BangToken(part: string)
    requires part == " !!!"
    ensures CleanToken(part) == []
  {
    TrimIs(part, 1, 4);
    var word := part[1..4];
    BangWord(word);
  }

  lemma BangWord(word: string)
    requires word == "!!!"
    ensures FirstWord(word) == word && KeepLetters(word) == []
  {
    FirstWordIs(word, 3);
    assert word[..3] == word;
    KeepLettersIs(word, 0);
  }

  /** None of the first three groups matches "my name is !!!". */
  lemma BangGroupsEarly(s: string)
    requires s == "my name is !!!"
    ensures !GroupMatches(Greetings, s) && !GroupMatches(HowAreYou, s) && !GroupMatches(FeelingWell, s)
  {
    BangNotGreeting(s);
    BangNotHowAreYou(s);
    BangNotFeelingWell(s);
  }

  lemma BangNotGreeting(s: string)
    requires s == "my name is !!!"
    ensures !GroupMatches(Greetings, s)
  {
    GroupRuledOut(Greetings, s, "hhhggg");
  }

  lemma BangNotHowAreYou(s: string)
    requires s == "my name is !!!"
    ensures !GroupMatches(HowAreYou, s)
  {
    GroupRuledOut(HowAreYou, s, "hhh");
  }

  lemma BangNotFeelingWell(s: string)
    requires s == "my name is !!!"
    ensures !GroupMatches(FeelingWell, s)
  {
    GroupRuledOut(FeelingWell, s, "fgwfgfg");
  }

  /** Nor do the next three, while the group about names does. */
  lemma BangGroupsLate(s: string)
    requires s == "my name is !!!"
    ensures !GroupMatches(Weather, s) && !GroupMatches(Food, s) && !GroupMatches(Travel, s)
    ensures GroupMatches(AskName, s)
  {
    BangNotWeather(s);
    BangNotFood(s);
    BangNotTravel(s);
    GroupHit(AskName, s, "name", 3);
  }

  lemma BangNotWeather(s: string)
    requires s == "my name is !!!"
    ensures !GroupMatches(Weather, s)
  {
    GroupRuledOut(Weather, s, "wurch");
  }

  lemma BangNotFood(s: string)
    requires s == "my name is !!!"
    ensures !GroupMatches(Food, s)
  {
    GroupRuledOut(Food, s, "fhtdlb");
  }

  lemma BangNotTravel(s: string)
    requires s == "my name is !!!"
    ensures !GroupMatches(Travel, s)
  {
    GroupRuledOut(Travel, s, "ttpvc");
  }

  /** An utterance with no name and no keyword: the reply, for a draw below
      one third, quotes the transcript as spoken, capitals included. */
  lemma ScenarioFallbackEcho(t: string, rnd: real)
    requires t == "Xyzzy Plugh" && 0.0 <= rnd < 1.0 / 3.0
    ensures Reply(t, rnd) == Answer("I'm not sure I understood \"" + t + "\". Did you mean \"How are you?\"", FallbackTips[0])
  {
    var s := ToLowerCase(t);
    XyzzyLowered(t);
    XyzzyNoName(s);
    XyzzyGroups(s);
    FirstSuggestion(t, rnd);
  }

  /** For a draw below one third, a transcript with no name and no keyword
      gets the first suggestion, which quotes it. */
  lemma FirstSuggestion(t: string, rnd: real)
    requires 0.0 <= rnd < 1.0 / 3.0
    requires NameToken(ToLowerCase(t)).None?
    requires forall g | 0 <= g < |Responses| :: !GroupMatches(Responses[g], ToLowerCase(t))
    ensures Reply(t, rnd) == Answer(Suggestions(t)[0], FallbackTips[0])
  {
    FallbackReply(ToLowerCase(t), t, rnd);
    assert PickIndex(rnd, 3) == 0;
  }

  lemma XyzzyLowered(t: string)
    requires t == "Xyzzy Plugh"
    ensures ToLowerCase(t) == "xyzzy plugh"
  {
  }

  lemma XyzzyNoName(s: string)
    requires s == "xyzzy plugh"
    ensures NameToken(s).None?
  {
    AbsentCharExcludes(s, MyNameIs, 'm');
    AbsentCharExcludes(s, IAm + " ", 'i');
  }

  /** No group of the table matches "xyzzy plugh". */
  lemma XyzzyGroups(s: string)
    requires s == "xyzzy plugh"
    ensures forall g | 0 <= g < |Responses| :: !GroupMatches(Responses[g], s)
  {
    XyzzyNotGreeting(s);
    XyzzyNotHowAreYou(s);
    XyzzyNotFeelingWell(s);
    XyzzyNotWeather(s);
    XyzzyNotFood(s);
    XyzzyNotTravel(s);
    XyzzyNotAskName(s);
    XyzzyNotThanks(s);
  }

  lemma XyzzyNotGreeting(s: string)
    requires s == "xyzzy plugh"
    ensures !GroupMatches(Greetings, s)
  {
    GroupRuledOut(Greetings, s, "eieooo");
  }

  lemma XyzzyNotHowAreYou(s: string)
    requires s == "xyzzy plugh"
    ensures !GroupMatches(HowAreYou, s)
  {
    GroupRuledOut(HowAreYou, s, "ooo");
  }

  lemma XyzzyNotFeelingWell(s: string)
    requires s == "xyzzy plugh"
    ensures !GroupMatches(FeelingWell, s)
  {
    GroupRuledOut(FeelingWell, s, "iiiiifo");
  }

  lemma XyzzyNotWeather(s: string)
    requires s == "xyzzy plugh"
    ensures !GroupMatches(Weather, s)
  {
    GroupRuledOut(Weather, s, "wsrco");
  }

  lemma XyzzyNotFood(s: string)
    requires s == "xyzzy plugh"
    ensures !GroupMatches(Food, s)
  {
    GroupRuledOut(Food, s, "fnednb");
  }

  lemma XyzzyNotTravel(s: string)
    requires s == "xyzzy plugh"
    ensures !GroupMatches(Travel, s)
  {
    GroupRuledOut(Travel, s, "ttavc");
  }

  lemma XyzzyNotAskName(s: string)
    requires s == "xyzzy plugh"
    ensures !GroupMatches(AskName, s)
  {
    GroupRuledOut(AskName, s, "n");
  }

  lemma XyzzyNotThanks(s: string)
    requires s == "xyzzy plugh"
    ensures !GroupMatches(Thanks, s)
  {
    GroupRuledOut(Thanks, s, "tt");
  }

  /** The engine sees the lowered transcript: "My name is BOB" greets Bob,
      with the name capitalised and the rest lowered. */
  lemma ScenarioSpokenCapitals(t: string, rnd: real)
    requires t == "My name is BOB" && 0.0 <= rnd < 1.0
    ensures Reply(t, rnd) == Answer(GreetingOpen + "Bob" + GreetingClose, NameTip)
  {
    BobLowered(t);
    BobGreeting(ToLowerCase(t), t, rnd);
  }

  lemma BobGreeting(s: string, originalText: string, rnd: real)
    requires s == "my name is bob" && 0.0 <= rnd < 1.0
    ensures GetBotResponse(s, originalText, rnd) == Answer(GreetingOpen + "Bob" + GreetingClose, NameTip)
  {
    BobMarkers(s);
    BobName(s);
    GreetsAs(s, originalText, rnd, 0, 10, 14, "Bob");
  }

  lemma BobName(s: string)
    requires s == "my name is bob"
    ensures CleanToken(s[10..14]) != [] && Capitalize(CleanToken(s[10..14])) == "Bob"
  {
    var part := s[10..14];
    assert part == " bob";
    BobToken(part);
    CapitalizeBob(CleanToken(part));
  }

  lemma BobLowered(t: string)
    requires t == "My name is BOB"
    ensures ToLowerCase(t) == "my name is bob"
  {
  }

  lemma BobMarkers(s: string)
    requires s == "my name is bob"
    ensures NameTriggered(s)
    ensures IsLeftmostMarker(s, 0, 10) && EndsPiece(s, 10, 14)
  {
    BobOccurrence(s);
    ContainsAt(s, MyNameIs, 0);
    MyNameIsMarkerAt(s, 0);
    BobLetters(s);
    NoMarkerBetween(s, 10, 14);
  }

  lemma BobLetters(s: string)
    requires s == "my name is bob"
    ensures forall j | 10 <= j < 14 && j + |IAm| <= |s| :: AsciiToLower(s[j]) != 'm' && AsciiToLower(s[j]) != 'i'
  {
  }

  lemma BobOccurrence(s: string)
    requires s == "my name is bob"
    ensures OccursAt(s, MyNameIs, 0)
  {
  }

  lemma BobToken(part: string)
    requires part == " bob"
    ensures CleanToken(part) == "bob"
  {
    TrimIs(part, 1, 4);
    var word := part[1..4];
    BobWord(word);
  }

  lemma BobWord(word: string)
    requires word == "bob"
    ensures FirstWord(word) == word && KeepLetters(word) == word
  {
    FirstWordIs(word, 3);
    assert word[..3] == word;
    KeepLettersIs(word, 3);
  }
}
