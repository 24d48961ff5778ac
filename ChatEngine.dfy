/** The conversation engine of EnglishFlow's "Conversar" mode: given the lowered
    transcript of what the learner said and the transcript as spoken, it picks the
    bot's reply and the mentor tip shown beside it. Three passes run in order:
    name extraction, a first-match table of keyword groups, and a fallback pool.

    `Math.random()` is the parameter `rnd`, a number in [0, 1); an index into a
    list of n candidates is `floor(rnd * n)`, computed on exact reals. */
module ChatEngine {
  import opened Text

  /** A reply utterance and the tip shown to the learner with it. */
  datatype Answer = Answer(text: string, tip: string)

  /** Keyword substrings that share a pool of candidate replies. */
  datatype PatternGroup = PatternGroup(patterns: seq<string>, answers: seq<Answer>)

  // ---------------------------------------------------------------------------
  // Pass 1: name extraction
  // ---------------------------------------------------------------------------

  const MyNameIs: string := "my name is"
  const IAm: string := "i am"

  /** The test that opens the name pass: the input mentions `my name is`, or
      `i am` followed by a space (both case-sensitive). */
  predicate NameTriggered(input: string) {
    Contains(input, MyNameIs) || Contains(input, IAm + " ")
  }

  /** The regular expression's alternative m matches at i, ignoring case:
      character by character, the text lowers to m. */
  predicate MarkerMatchesAt(s: string, i: nat, m: string)
    ensures MarkerMatchesAt(s, i, m) ==> i + |m| <= |s|
    decreases |m|
  {
    if m == [] then i <= |s|
    else i < |s| && AsciiToLower(s[i]) == m[0] && MarkerMatchesAt(s, i + 1, m[1..])
  }

  /** The alternatives of `/my name is|i am/i`, in the order they are tried. */
  const Alternatives: seq<string> := [MyNameIs, IAm]

  /** The length of the first of alts that matches at i, ignoring case. */
  function FirstAlternative(s: string, i: nat, alts: seq<string>): (r: Option<nat>)
    ensures r.Some? ==> i + r.value <= |s|
    ensures r.Some? && (forall k | 0 <= k < |alts| :: alts[k] != []) ==> 0 < r.value
  {
    if alts == [] then None
    else if MarkerMatchesAt(s, i, alts[0]) then Some(|alts[0]|)
    else FirstAlternative(s, i, alts[1..])
  }

  /** The length of what `/my name is|i am/i` matches when started at position i,
      trying its alternatives in order; None when neither matches there. */
  function MarkerAt(s: string, i: nat): (r: Option<nat>)
    ensures r.Some? ==> i + r.value <= |s| && 0 < r.value
  {
    assert forall k | 0 <= k < |Alternatives| :: Alternatives[k] != [];
    FirstAlternative(s, i, Alternatives)
  }

  /** The leftmost match of the marker at or after `from`, as (start, length). */
  function NextMarker(s: string, from: nat): (r: Option<(nat, nat)>)
    ensures r.Some? ==> from <= r.value.0 && MarkerAt(s, r.value.0) == Some(r.value.1)
    decreases |s| - from
  {
    if |s| <= from then None
    else if MarkerAt(s, from).Some? then Some((from, MarkerAt(s, from).value))
    else NextMarker(s, from + 1)
  }

  /** A marker of length n starts at i and none starts before it. */
  ghost predicate IsLeftmostMarker(s: string, i: nat, n: nat) {
    MarkerAt(s, i) == Some(n) && forall j | 0 <= j < i :: MarkerAt(s, j).None?
  }

  /** f ends the piece that starts at `start`: the next marker starts at f, or
      f is the end of s, and no marker starts in between. */
  ghost predicate EndsPiece(s: string, start: nat, f: nat) {
    && start <= f <= |s|
    && (f == |s| || MarkerAt(s, f).Some?)
    && forall j | start <= j < f :: MarkerAt(s, j).None?
  }

  /** `parts[1]` of `s.split(/my name is|i am/i)`: the text between the end of the
      leftmost marker and the start of the next one (or the end of s); None when
      the split yields a single part. */
  function SecondPart(s: string): (r: Option<string>)
    ensures r.Some? ==> |r.value| < |s|
  {
    var first := NextMarker(s, 0);
    if first.None? then None
    else
      var start := first.value.0 + first.value.1;
      var next := NextMarker(s, start);
      var end := if next.None? then |s| else next.value.0;
      Some(s[start..end])
  }

  /** `parts[1].trim().split(' ')[0].replace(/[^a-zA-Z]/g, '')`. */
  function CleanToken(part: string): (t: string)
    ensures forall i | 0 <= i < |t| :: IsAsciiLetter(t[i])
    ensures forall c | c in t :: c in part && !IsJsWhitespace(c)
  {
    TrimAddsNothing(part);
    KeepLettersMembers(FirstWord(Trim(part)));
    KeepLetters(FirstWord(Trim(part)))
  }

  /** The name the learner gave, when the name pass answers: the cleaned token
      of the second part, provided the pass was triggered and the token is
      not empty. */
  function NameToken(input: string): (r: Option<string>)
    ensures r.Some? ==> NameTriggered(input) && r.value != []
    ensures r.Some? ==> forall i | 0 <= i < |r.value| :: IsAsciiLetter(r.value[i])
  {
    if NameTriggered(input) then
      match SecondPart(input)
      case None => None
      case Some(part) =>
        var t := CleanToken(part);
        if t != [] then Some(t) else None
    else None
  }

  const NameTip: string := "Dica: Você pode me perguntar 'How is the weather?' (Rau is dâ ué-dhêr?)"

  const GreetingOpen: string := "Nice to meet you, "
  const GreetingClose: string := "! How can I help you today?"

  /** The greeting of the name pass, around the capitalised name. */
  function GreetingText(name: string): string {
    GreetingOpen + Capitalize(name) + GreetingClose
  }

  // ---------------------------------------------------------------------------
  // Pass 2: the keyword table
  // ---------------------------------------------------------------------------

  /** Greetings. */
  const Greetings: PatternGroup := PatternGroup(
    ["hello", "hi", "hey", "good morning", "good afternoon", "good evening"],
    [ Answer("Hello! How are you today?", "Dica: Responda 'I am fine' (Ái ém fáin) ou 'I am good' (Ái ém gud)."),
      Answer("Hi! It's nice to see you. How are you doing?", "Dica: Diga 'I am great, thank you' (Ái ém grêit, ténc iú).") ])

  /** Asking how the bot is. */
  const HowAreYou: PatternGroup := PatternGroup(
    ["how are you", "how you doing", "how about you"],
    [ Answer("I am doing great, thanks for asking! And you?", "Dica: Responda 'I am fine' (Ái ém fáin) ou 'I am okay' (Ái ém ôu-kêi)."),
      Answer("I'm excellent! Ready to practice more? How are you?", "Dica: Diga 'I am ready' (Ái ém ré-di) e conte como você está.") ])

  /** Saying how the learner is. */
  const FeelingWell: PatternGroup := PatternGroup(
    ["i am fine", "i am good", "i am well", "im fine", "im good", "fine", "good"],
    [ Answer("That's wonderful! What would you like to talk about today?", "Dica: Responda 'I want to talk about food' (Ái uónt tu tólc a-báut fud)."),
      Answer("Nice! Do you have any plans for today?", "Dica: Responda 'I am studying English' (Ái ém istã-dy-ing ínglish).") ])

  /** The weather. */
  const Weather: PatternGroup := PatternGroup(
    ["weather", "sunny", "rainy", "cold", "hot"],
    [ Answer("I see! Do you like this weather?", "Dica: Responda 'Yes, I do' (Iés, ái dú) ou 'No, I don't' (Nôu, ái dôunt)."),
      Answer("The weather is always a good topic! What's your favorite season?", "Dica: Responda 'I like summer' (Ái láic sã-mêr) ou 'I like winter' (Ái láic uín-têr).") ])

  /** Food and meals. */
  const Food: PatternGroup := PatternGroup(
    ["food", "hungry", "eat", "dinner", "lunch", "breakfast"],
    [ Answer("Yummy! What is your favorite food?", "Dica: Responda 'My favorite food is pizza' (Mái fêi-vo-rit fud is pí-tzâ)."),
      Answer("I love talking about food! Do you like to cook?", "Dica: Responda 'Yes, I like to cook' (Iés, ái láic tu cúc).") ])

  /** Travel. */
  const Travel: PatternGroup := PatternGroup(
    ["travel", "trip", "place", "visit", "country"],
    [ Answer("Traveling is so much fun! Where would you like to go?", "Dica: Responda 'I want to go to the beach' (Ái uónt tu góu tu dâ bítch)."),
      Answer("I love new places! Have you ever been to another country?", "Dica: Responda 'Yes, I have' (Iés, ái rév) ou 'No, I haven't' (Nôu, ái rê-vent).") ])

  /** Names. */
  const AskName: PatternGroup := PatternGroup(
    ["name"],
    [ Answer("My name is EnglishFlow AI. What is your name?", "Dica: Responda 'My name is...' (Mái nêim is...) e diga seu nome.") ])

  /** Thanks. */
  const Thanks: PatternGroup := PatternGroup(
    ["thank", "thanks"],
    [ Answer("You are very welcome! What else is on your mind?", "Dica: Responda 'I want to speak more' (Ái uónt tu spíc mór)."),
      Answer("My pleasure! Are you enjoying our conversation?", "Dica: Responda 'Yes, I am' (Iés, ái ém).") ])

  /** The keyword table, in declaration order: the first matching group answers. */
  const Responses: seq<PatternGroup> :=
    [Greetings, HowAreYou, FeelingWell, Weather, Food, Travel, AskName, Thanks]

  /** `group.patterns.some(p => input.includes(p))`. */
  predicate GroupMatches(group: PatternGroup, input: string) {
    exists p | p in group.patterns :: Contains(input, p)
  }

  /** Index of the first group of the table that matches the input. */
  function FirstMatch(groups: seq<PatternGroup>, input: string): (r: Option<nat>)
    ensures r.Some? ==> r.value < |groups| && GroupMatches(groups[r.value], input)
    ensures r.Some? ==> forall j | 0 <= j < r.value :: !GroupMatches(groups[j], input)
    ensures r.None? ==> forall j | 0 <= j < |groups| :: !GroupMatches(groups[j], input)
  {
    if groups == [] then None
    else if GroupMatches(groups[0], input) then Some(0)
    else match FirstMatch(groups[1..], input)
      case None => None
      case Some(j) => Some(j + 1)
  }

  /** The lowest-index matching group is the one FirstMatch returns. */
  lemma FirstMatchIs(groups: seq<PatternGroup>, input: string, g: nat)
    requires g < |groups| && GroupMatches(groups[g], input)
    requires forall j | 0 <= j < g :: !GroupMatches(groups[j], input)
    ensures FirstMatch(groups, input) == Some(g)
  {
  }

  /** When no group matches, FirstMatch returns None. */
  lemma FirstMatchNone(groups: seq<PatternGroup>, input: string)
    requires forall j | 0 <= j < |groups| :: !GroupMatches(groups[j], input)
    ensures FirstMatch(groups, input).None?
  {
  }

  /** `Math.floor(Math.random() * n)` with `rnd` standing for `Math.random()`. */
  function PickIndex(rnd: real, n: nat): (i: nat)
    requires 0.0 <= rnd < 1.0 && 0 < n
    ensures i < n
    ensures i as real <= rnd * n as real < i as real + 1.0
  {
    var x := rnd * n as real;
    ScaleBelow(rnd, n as real);
    var i := x.Floor;
    assert i as real <= x < n as real;
    i
  }

  /** A draw in [0, 1) scales n to a number in [0, n). */
  lemma ScaleBelow(rnd: real, n: real)
    requires 0.0 <= rnd < 1.0 && 0.0 < n
    ensures 0.0 <= rnd * n < n
  {
    assert n - rnd * n == (1.0 - rnd) * n;
  }

  // ---------------------------------------------------------------------------
  // Pass 3: the fallback pool
  // ---------------------------------------------------------------------------

  const EchoOpen: string := "I'm not sure I understood \""
  const EchoClose: string := "\". Did you mean \"How are you?\""
  const AskAgain: string := "I didn't catch that. Try saying \"Tell me about food\" or \"What is your name?\""
  const StillLearning: string := "Sorry, I'm still learning! You can try asking \"How is the weather?\" or just say \"Hi\"."

  /** The three generic suggestions; the first echoes the transcript as spoken. */
  function Suggestions(originalText: string): seq<string> {
    [EchoOpen + originalText + EchoClose, AskAgain, StillLearning]
  }

  /** The tips paired by position with the suggestions. */
  const FallbackTips: seq<string> := [
    "Dica: Responda 'How are you?' (Rau ár iú?)",
    "Dica: Responda 'My name is...' (Mái nêim is...)",
    "Dica: Tente dizer 'Hello' (Rêlou) para recomeçar!"
  ]

  // ---------------------------------------------------------------------------
  // The engine
  // ---------------------------------------------------------------------------

  /** Passes 2 and 3: the reply when the name pass does not answer. */
  function KeywordOrFallback(input: string, originalText: string, rnd: real): (r: Answer)
    requires 0.0 <= rnd < 1.0
    ensures IsGroupAnswer(r) || IsFallback(r, originalText)
  {
    match FirstMatch(Responses, input)
    case Some(g) =>
      assert Responses[g].answers != [];
      Responses[g].answers[PickIndex(rnd, |Responses[g].answers|)]
    case None =>
      var idx := PickIndex(rnd, 3);
      Answer(Suggestions(originalText)[idx], FallbackTips[idx])
  }

  /** A greeting of the name pass, for some non-empty name. */
  ghost predicate IsGreeting(r: Answer) {
    r.tip == NameTip && exists name: string | name != [] :: r.text == GreetingText(name)
  }

  /** One of the answers of some keyword group. */
  ghost predicate IsGroupAnswer(r: Answer) {
    exists g | g in Responses :: r in g.answers
  }

  /** A fallback suggestion with the tip at the same position. */
  ghost predicate IsFallback(r: Answer, originalText: string) {
    exists k | 0 <= k < 3 :: r.text == Suggestions(originalText)[k] && r.tip == FallbackTips[k]
  }

  /** A reply the script can produce for this transcript. */
  ghost predicate IsScripted(r: Answer, originalText: string) {
    IsGreeting(r) || IsGroupAnswer(r) || IsFallback(r, originalText)
  }

  /** `getBotResponse(input, originalText)`: total, and never an unrecognised reply. */
  function GetBotResponse(input: string, originalText: string, rnd: real): (r: Answer)
    requires 0.0 <= rnd < 1.0
    ensures IsScripted(r, originalText)
  {
    match NameToken(input)
    case Some(name) => Answer(GreetingText(name), NameTip)
    case None => KeywordOrFallback(input, originalText, rnd)
  }

  /** The caller in `handleUserSpeech`: the engine sees the lowered transcript
      and, for echoing, the transcript as spoken. */
  function Reply(transcript: string, rnd: real): (r: Answer)
    requires 0.0 <= rnd < 1.0
    ensures IsScripted(r, transcript)
  {
    GetBotResponse(ToLowerCase(transcript), transcript, rnd)
  }
}
