/** `handle_input`: one message in, one answer out, checked against a fixed
    list of patterns in priority order; the first pattern that matches
    decides the answer. Only the learn branch can change the table. */
module Router {
  import opened Basics
  import opened Strings
  import opened Tokens
  import opened Movies
  import opened Learn
  import opened Queries

  /** The canned replies, keyed by the phrase that triggers them, in the
      order they are tried. */
  const Greetings: seq<(string, string)> := [
    ("hi", "Hello! How can I assist you today?"),
    ("hello", "Hi there! How can I help you with movies?"),
    ("how are you", "I'm just a bot, but I'm here to assist you with your movie queries!"),
    ("how can you assist me", "I can provide information about movies, directors, genres, recommendations and more. Just ask me!"),
    ("what can you do", "I can answer questions about movies, provide plots, director info, genres, recommend movies and more!")
  ]

  /** The greeting phrases alone, in order. */
  function GreetingKeys(): seq<string>
  {
    seq(|Greetings|, k requires 0 <= k < |Greetings| => Greetings[k].0)
  }

  /** The genres a recommendation request is scanned for, in order. */
  const GenreKeywords: seq<string> := ["action", "comedy", "drama", "fantasy", "horror", "romance"]

  /** What the assistant answers; the wording around the data is not
      modelled. */
  datatype Response =
    | Learnt(reply: LearnReply)
    | Greeting(text: string)
    | ByDirector(director: string, titles: seq<string>)
    | Recommendation(genre: string, titles: seq<string>)
    | NeedGenre                                     // "Please specify a genre ..."
    | ByYear(year: string, titles: seq<string>)
    | AttributeOf(title: string, attr: Attr, value: Option<string>)
    | InfoOf(title: string, info: Option<Movie>, alsoEnjoy: seq<string>)
    | Fallback                                      // "I'm not sure how to help ..."

  datatype Reply = Reply(response: Response, table: Table)

  predicate AsksDirector(lower: string)
  {
    Contains(lower, "directed by") || Contains(lower, "has directed")
  }

  predicate AsksRecommendation(lower: string)
  {
    Contains(lower, "recommend") || Contains(lower, "suggest")
  }

  /** "movies" or "films", "released" and a number among the tokens. */
  predicate AsksYear(tokens: seq<string>)
  {
    && ("movies" in tokens || "films" in tokens)
    && "released" in tokens
    && exists k :: 0 <= k < |tokens| && IsDigits(tokens[k])
  }

  /** The position of the first all-digit token. */
  function FirstNumber(tokens: seq<string>): (r: Option<nat>)
    ensures r.Some? ==> r.value < |tokens| && IsDigits(tokens[r.value])
    ensures r.Some? ==> forall j :: 0 <= j < r.value ==> !IsDigits(tokens[j])
    ensures r.None? ==> forall j :: 0 <= j < |tokens| ==> !IsDigits(tokens[j])
  {
    if |tokens| == 0 then None
    else if IsDigits(tokens[0]) then Some(0)
    else match FirstNumber(tokens[1..])
      case Some(k) => Some(k + 1)
      case None => None
  }

  /** The director asked about: the original text after the first
      "directed by", or after the first "has directed" when there is no
      "directed by", with surrounding whitespace removed. */
  function DirectorName(input: string): (name: string)
    requires AsksDirector(Lower(input))
    ensures var lower := Lower(input);
      var phrase := if Contains(lower, "directed by") then "directed by" else "has directed";
      exists i :: && OccursAt(lower, phrase, i)
                  && (forall j :: 0 <= j < i ==> !OccursAt(lower, phrase, j))
                  && name == Trim(input[i + |phrase|..])
  {
    var lower := Lower(input);
    match IndexOf(lower, "directed by")
    case Some(i) => Trim(input[i + |"directed by"|..])
    case None => Trim(input[IndexOf(lower, "has directed").value + |"has directed"|..])
  }

  /** Which trivia test the handler runs: the one written at line 162,
      which looks for the phrase "fun fact" among the tokens, or the
      corrected one, which looks for it in the message. */
  datatype TriviaCheck = AsWritten | Corrected

  /** As written, the trivia check looks for the phrase "fun fact" among
      the tokens, where it can never be. */
  predicate AsksTriviaAsWritten(tokens: seq<string>)
  {
    "trivia" in tokens || "fun fact" in tokens
  }

  /** The trivia check as intended: the word "trivia", or the phrase
      "fun fact" anywhere in the message. */
  predicate AsksTriviaCorrected(tokens: seq<string>, lower: string)
  {
    "trivia" in tokens || Contains(lower, "fun fact")
  }

  predicate AsksTrivia(check: TriviaCheck, tokens: seq<string>, lower: string)
  {
    match check
    case AsWritten => AsksTriviaAsWritten(tokens)
    case Corrected => AsksTriviaCorrected(tokens, lower)
  }

  /** The keywords that ask for each column; the title is never asked for. */
  predicate AsksFor(check: TriviaCheck, tokens: seq<string>, lower: string, a: Attr)
  {
    match a
    case Plot => "plot" in tokens
    case Director => "director" in tokens || "directed" in tokens
    case Cast => "stars" in tokens || "actors" in tokens || "cast" in tokens
    case Genre => "genre" in tokens
    case Trivia => AsksTrivia(check, tokens, lower)
    case Year => "year" in tokens || "released" in tokens
    case Title => false
  }

  /** The order in which the columns are tested: plot first, year last. */
  function Rank(a: Attr): nat
  {
    match a
    case Plot => 0
    case Director => 1
    case Cast => 2
    case Genre => 3
    case Trivia => 4
    case Year => 5
    case Title => 6
  }

  /** Which column a question about a named movie asks for, testing the
      keywords in the fixed order plot, director, cast, genre, trivia,
      year. */
  function AskedAttribute(check: TriviaCheck, tokens: seq<string>, lower: string): Option<Attr>
  {
    if "plot" in tokens then Some(Plot)
    else if "director" in tokens || "directed" in tokens then Some(Director)
    else if "stars" in tokens || "actors" in tokens || "cast" in tokens then Some(Cast)
    else if "genre" in tokens then Some(Genre)
    else if AsksTrivia(check, tokens, lower) then Some(Trivia)
    else if "year" in tokens || "released" in tokens then Some(Year)
    else None
  }

  /** The column asked for is the first column, in the testing order,
      whose keywords the message holds; none exactly when it holds no
      column's keywords. */
  lemma AskedIsFirstRanked(check: TriviaCheck, tokens: seq<string>, lower: string)
    ensures var r := AskedAttribute(check, tokens, lower);
      && (r.Some? ==> AsksFor(check, tokens, lower, r.value))
      && (r.Some? ==> forall b: Attr :: Rank(b) < Rank(r.value) ==> !AsksFor(check, tokens, lower, b))
      && (r.None? <==> forall b: Attr :: !AsksFor(check, tokens, lower, b))
  {
    var r := AskedAttribute(check, tokens, lower);
    forall b: Attr | r.Some? && Rank(b) < Rank(r.value)
      ensures !AsksFor(check, tokens, lower, b)
    {
    }
    forall b: Attr | r.None?
      ensures !AsksFor(check, tokens, lower, b)
    {
    }
    if r.Some? {
      assert AsksFor(check, tokens, lower, r.value);
    }
  }

  /** Conversely, a column whose keywords occur, with no keyword of an
      earlier column, is the column asked for. */
  lemma FirstRankedIsAsked(check: TriviaCheck, tokens: seq<string>, lower: string, a: Attr)
    requires AsksFor(check, tokens, lower, a)
    requires forall b: Attr :: Rank(b) < Rank(a) ==> !AsksFor(check, tokens, lower, b)
    ensures AskedAttribute(check, tokens, lower) == Some(a)
  {
    AskedIsFirstRanked(check, tokens, lower);
    var r := AskedAttribute(check, tokens, lower);
    assert r.Some?;
    assert Rank(r.value) == Rank(a);
  }

  /** The lower-cased titles, in table order. */
  function TitleKeys(t: Table): (keys: seq<string>)
    ensures |keys| == |t| && forall j :: 0 <= j < |t| ==> keys[j] == Lower(t[j].title)
  {
    seq(|t|, i requires 0 <= i < |t| => Lower(t[i].title))
  }

  /** The answer about the movie whose lower-cased title is `key`: the
      asked-for column, or the whole record followed by recommendations
      from its genre. */
  function AboutTitle(check: TriviaCheck, t: Table, key: string, tokens: seq<string>, lower: string, rnd: seq<nat>): Response
  {
    match AskedAttribute(check, tokens, lower)
    case Some(a) => AttributeOf(key, a, MovieAttribute(t, key, a))
    case None =>
      var genre := MovieAttribute(t, key, Genre);
      InfoOf(key, FindMovie(t, key),
             if genre.Some? then RecommendByGenre(t, genre.value, DefaultCount, rnd) else [])
  }

  /** Every branch of `handle_input` after the learn branch. */
  function Answer(check: TriviaCheck, input: string, tokens: seq<string>, t: Table, rnd: seq<nat>): (r: Response)
    ensures !r.Learnt?
  {
    var lower := Lower(input);
    match FirstContained(lower, GreetingKeys())
    case Some(k) => Greeting(Greetings[k].1)
    case None =>
      if AsksDirector(lower) then
        var name := DirectorName(input);
        ByDirector(name, MoviesByDirector(t, name))
      else if AsksRecommendation(lower) then
        match FirstContained(lower, GenreKeywords)
        case Some(g) => Recommendation(GenreKeywords[g], RecommendByGenre(t, GenreKeywords[g], DefaultCount, rnd))
        case None => NeedGenre
      else if AsksYear(tokens) then
        var year := tokens[FirstNumber(tokens).value];
        ByYear(year, MoviesInYear(t, DigitsValue(year)))
      else
        match FirstContained(lower, TitleKeys(t))
        case Some(i) => AboutTitle(check, t, TitleKeys(t)[i], tokens, lower, rnd)
        case None => Fallback
  }

  /** What the answers past the learn branch mean: a greeting exactly when
      the message holds a greeting phrase; the question for a genre only
      for a recommendation request naming none of the genres; the fallback
      only when the message names no known title. */
  lemma AnswerMeaning(check: TriviaCheck, input: string, tokens: seq<string>, t: Table, rnd: seq<nat>)
    ensures var r := Answer(check, input, tokens, t, rnd);
      && (r.Greeting? <==> exists g :: 0 <= g < |Greetings| && Contains(Lower(input), Greetings[g].0))
      && (r.NeedGenre? ==>
            && AsksRecommendation(Lower(input))
            && forall g :: 0 <= g < |GenreKeywords| ==> !Contains(Lower(input), GenreKeywords[g]))
      && (r.Fallback? ==> forall j :: 0 <= j < |t| ==> !Contains(Lower(input), Lower(t[j].title)))
  {
    var lower := Lower(input);
    var keys := GreetingKeys();
    assert forall g :: 0 <= g < |Greetings| ==> keys[g] == Greetings[g].0;
    match FirstContained(lower, keys)
    case Some(k) =>
      assert Contains(lower, Greetings[k].0);
    case None =>
      var r := Answer(check, input, tokens, t, rnd);
      if !AsksDirector(lower) && !AsksRecommendation(lower) && !AsksYear(tokens) {
        match FirstContained(lower, TitleKeys(t))
        case Some(i) =>
          assert r == AboutTitle(check, t, TitleKeys(t)[i], tokens, lower, rnd);
        case None =>
      }
  }

  /** `handle_input`: `words` is the tokenizer's output for `input`, `stop`
      the stop words and `rnd` the random draws; `Handle(AsWritten, ...)`
      is the handler as written. A learn command is answered by the learn
      branch and nothing else; every other message leaves the table as it
      was, and so does a learn command that is refused. */
  function Handle(check: TriviaCheck, input: string, words: seq<string>, stop: set<string>, t: Table, rnd: seq<nat>): (r: Reply)
    ensures IsLearnCommand(Lower(input)) <==> r.response.Learnt?
    ensures !(r.response.Learnt? && (r.response.reply.Updated? || r.response.reply.Added?)) ==> r.table == t
  {
    var lower := Lower(input);
    if IsLearnCommand(lower) then
      var learned := LearnCommand(input, t);
      Reply(Learnt(learned.reply), learned.table)
    else
      Reply(Answer(check, input, Preprocess(words, stop), t, rnd), t)
  }

  /** No greeting phrase in the message: the greeting table is passed. */
  lemma NoGreeting(lower: string)
    requires forall g :: 0 <= g < |Greetings| ==> !Contains(lower, Greetings[g].0)
    ensures FirstContained(lower, GreetingKeys()).None?
  {
    var keys := GreetingKeys();
    assert forall j :: 0 <= j < |keys| ==> keys[j] == Greetings[j].0;
  }

  /** A learn command without `->` gets the usage text and changes nothing. */
  lemma LearnWithoutArrow(check: TriviaCheck, input: string, words: seq<string>, stop: set<string>, t: Table, rnd: seq<nat>)
    requires IsLearnCommand(Lower(input)) && !Contains(input, "->")
    ensures Handle(check, input, words, stop, t, rnd) == Reply(Learnt(Usage), t)
  {
  }

  /** The usage text of a learn command answers exactly two mistakes: no
      `->`, or no colon between title and attribute. The directive's colon
      is always found, so the split at line 95 never fails. */
  lemma LearnUsageExactly(check: TriviaCheck, input: string, words: seq<string>, stop: set<string>, t: Table, rnd: seq<nat>)
    requires IsLearnCommand(Lower(input))
    ensures |SplitOnce(Split(input, "->")[0], ":")| == 2
    ensures var head := SplitOnce(Split(input, "->")[0], ":");
      |head| == 2 ==>
        (Handle(check, input, words, stop, t, rnd).response == Learnt(Usage) <==>
           !Contains(input, "->") || !Contains(Trim(head[1]), ":"))
  {
    DirectiveHasColon(input);
  }

  /** Round trip through the router: once a learn command has set a column
      other than the title, that title's column reads back the answer, the
      trimmed text after the first `->`. */
  lemma LearnThenRead(check: TriviaCheck, input: string, words: seq<string>, stop: set<string>, t: Table, rnd: seq<nat>)
    requires var r := Handle(check, input, words, stop, t, rnd);
      r.response.Learnt? && (r.response.reply.Updated? || r.response.reply.Added?)
      && r.response.reply.attr != Title
    ensures var r := Handle(check, input, words, stop, t, rnd);
      MovieAttribute(r.table, r.response.reply.title, r.response.reply.attr) == Some(Trim(Split(input, "->")[1]))
  {
    var parts := Split(input, "->");
    var head := SplitOnce(parts[0], ":");
    LearnRoundTrip(t, Trim(head[1]), Trim(parts[1]));
  }

  /** A message holding a greeting phrase, and not a learn command, gets
      the reply of the first such phrase in the table's order. */
  lemma GreetingWins(check: TriviaCheck, input: string, words: seq<string>, stop: set<string>, t: Table, rnd: seq<nat>, k: nat)
    requires !IsLearnCommand(Lower(input))
    requires k < |Greetings| && Contains(Lower(input), Greetings[k].0)
    requires forall j :: 0 <= j < k ==> !Contains(Lower(input), Greetings[j].0)
    ensures Handle(check, input, words, stop, t, rnd) == Reply(Greeting(Greetings[k].1), t)
  {
    var keys := GreetingKeys();
    assert keys[k] == Greetings[k].0;
    assert forall j :: 0 <= j < k ==> keys[j] == Greetings[j].0;
  }

  /** Greeting phrases are matched anywhere in the text, inside words too:
      "this" contains "hi", so a question about "this movie" is greeted. */
  lemma GreetingInsideWord(check: TriviaCheck, words: seq<string>, stop: set<string>, t: Table, rnd: seq<nat>)
    ensures Handle(check, "Is this movie good", words, stop, t, rnd)
              == Reply(Greeting("Hello! How can I assist you today?"), t)
  {
    var input := "Is this movie good";
    assert Lower(input) == "is this movie good";
    assert OccursAt(Lower(input), "hi", 4);
    assert Lower(input)[..6][0] != "learn:"[0];
    assert Lower(input)[..9][0] != "add fact:"[0];
    GreetingWins(check, input, words, stop, t, rnd, 0);
  }

  /** Past the greetings, "directed by" (or else "has directed") lists the
      movies of the director named after the phrase. */
  lemma DirectorQuery(check: TriviaCheck, input: string, words: seq<string>, stop: set<string>, t: Table, rnd: seq<nat>, i: nat, phrase: string)
    requires !IsLearnCommand(Lower(input))
    requires forall k :: 0 <= k < |Greetings| ==> !Contains(Lower(input), Greetings[k].0)
    requires phrase == "directed by" || (phrase == "has directed" && !Contains(Lower(input), "directed by"))
    requires OccursAt(Lower(input), phrase, i) && forall j :: 0 <= j < i ==> !OccursAt(Lower(input), phrase, j)
    ensures var name := Trim(input[i + |phrase|..]);
      Handle(check, input, words, stop, t, rnd) == Reply(ByDirector(name, MoviesByDirector(t, name)), t)
  {
    NoGreeting(Lower(input));
    assert Contains(Lower(input), phrase);
    assert IndexOf(Lower(input), phrase) == Some(i);
  }

  /** Past greetings and director questions, a request for recommendations
      draws from the first listed genre the message mentions, or asks for a
      genre when it mentions none. */
  lemma RecommendationQuery(check: TriviaCheck, input: string, words: seq<string>, stop: set<string>, t: Table, rnd: seq<nat>)
    requires !IsLearnCommand(Lower(input))
    requires forall k :: 0 <= k < |Greetings| ==> !Contains(Lower(input), Greetings[k].0)
    requires !AsksDirector(Lower(input)) && AsksRecommendation(Lower(input))
    ensures var r := Handle(check, input, words, stop, t, rnd).response;
      && (r == NeedGenre <==> forall g :: 0 <= g < |GenreKeywords| ==> !Contains(Lower(input), GenreKeywords[g]))
      && (r != NeedGenre ==>
            exists g :: && 0 <= g < |GenreKeywords|
                        && Contains(Lower(input), GenreKeywords[g])
                        && (forall j :: 0 <= j < g ==> !Contains(Lower(input), GenreKeywords[j]))
                        && r == Recommendation(GenreKeywords[g], RecommendByGenre(t, GenreKeywords[g], DefaultCount, rnd)))
  {
    NoGreeting(Lower(input));
  }

  /** A question about the movies of a year takes the first number among
      the tokens as the year. */
  lemma YearQuery(check: TriviaCheck, input: string, words: seq<string>, stop: set<string>, t: Table, rnd: seq<nat>, k: nat)
    requires !IsLearnCommand(Lower(input))
    requires forall g :: 0 <= g < |Greetings| ==> !Contains(Lower(input), Greetings[g].0)
    requires !AsksDirector(Lower(input)) && !AsksRecommendation(Lower(input))
    requires var tokens := Preprocess(words, stop);
      && ("movies" in tokens || "films" in tokens) && "released" in tokens
      && k < |tokens| && IsDigits(tokens[k]) && forall j :: 0 <= j < k ==> !IsDigits(tokens[j])
    ensures var year := Preprocess(words, stop)[k];
      Handle(check, input, words, stop, t, rnd) == Reply(ByYear(year, MoviesInYear(t, DigitsValue(year))), t)
  {
    NoGreeting(Lower(input));
    var tokens := Preprocess(words, stop);
    assert FirstNumber(tokens) == Some(k);
  }

  /** Past the other patterns, the first row (in table order) whose title
      occurs in the message is the movie asked about, and every cell in the
      answer comes from that row. */
  lemma TitleQuery(check: TriviaCheck, input: string, words: seq<string>, stop: set<string>, t: Table, rnd: seq<nat>, i: nat)
    requires !IsLearnCommand(Lower(input))
    requires forall g :: 0 <= g < |Greetings| ==> !Contains(Lower(input), Greetings[g].0)
    requires !AsksDirector(Lower(input)) && !AsksRecommendation(Lower(input))
    requires !AsksYear(Preprocess(words, stop))
    requires i < |t| && Contains(Lower(input), Lower(t[i].title))
    requires forall j :: 0 <= j < i ==> !Contains(Lower(input), Lower(t[j].title))
    ensures var key := Lower(t[i].title);
      Handle(check, input, words, stop, t, rnd).response ==
        match AskedAttribute(check, Preprocess(words, stop), Lower(input))
        case Some(a) => AttributeOf(key, a, Some(Get(t[i], a)))
        case None => InfoOf(key, Some(t[i]), RecommendByGenre(t, t[i].genre, DefaultCount, rnd))
  {
    var tokens := Preprocess(words, stop);
    PastPatterns(check, input, tokens, t, rnd);
    FirstTitle(Lower(input), t, i);
    AboutFirstRow(check, t, i, tokens, Lower(input), rnd);
  }

  /** A message with no greeting, director, recommendation or year pattern
      is answered by the title lookup. */
  lemma PastPatterns(check: TriviaCheck, input: string, tokens: seq<string>, t: Table, rnd: seq<nat>)
    requires forall g :: 0 <= g < |Greetings| ==> !Contains(Lower(input), Greetings[g].0)
    requires !AsksDirector(Lower(input)) && !AsksRecommendation(Lower(input)) && !AsksYear(tokens)
    ensures Answer(check, input, tokens, t, rnd) ==
      match FirstContained(Lower(input), TitleKeys(t))
      case Some(i) => AboutTitle(check, t, TitleKeys(t)[i], tokens, Lower(input), rnd)
      case None => Fallback
  {
    NoGreeting(Lower(input));
  }

  /** The first title occurring in the message is found by the scan of the
      title keys. */
  lemma FirstTitle(lower: string, t: Table, i: nat)
    requires i < |t| && Contains(lower, Lower(t[i].title))
    requires forall j :: 0 <= j < i ==> !Contains(lower, Lower(t[j].title))
    ensures FirstContained(lower, TitleKeys(t)) == Some(i)
    ensures TitleKeys(t)[i] == Lower(t[i].title)
  {
    var titles := TitleKeys(t);
    assert titles[i] == Lower(t[i].title);
    assert forall j :: 0 <= j < i ==> titles[j] == Lower(t[j].title);
  }

  /** Looking up the lower-cased title of a row that no earlier row shares
      finds that very row. */
  lemma AboutFirstRow(check: TriviaCheck, t: Table, i: nat, tokens: seq<string>, lower: string, rnd: seq<nat>)
    requires i < |t|
    requires forall j :: 0 <= j < i ==> Lower(t[j].title) != Lower(t[i].title)
    ensures var key := Lower(t[i].title);
      AboutTitle(check, t, key, tokens, lower, rnd) ==
        match AskedAttribute(check, tokens, lower)
        case Some(a) => AttributeOf(key, a, Some(Get(t[i], a)))
        case None => InfoOf(key, Some(t[i]), RecommendByGenre(t, t[i].genre, DefaultCount, rnd))
  {
    RowByTitle(t, i);
    var key := Lower(t[i].title);
    match AskedAttribute(check, tokens, lower)
    case Some(a) =>
    case None =>
      assert MovieAttribute(t, key, Genre) == Some(t[i].genre);
  }

  /** The lower-cased title of a row that no earlier row shares finds that
      row. */
  lemma RowByTitle(t: Table, i: nat)
    requires i < |t|
    requires forall j :: 0 <= j < i ==> Lower(t[j].title) != Lower(t[i].title)
    ensures FindMovie(t, Lower(t[i].title)) == Some(t[i])
    ensures forall a :: MovieAttribute(t, Lower(t[i].title), a) == Some(Get(t[i], a))
  {
    var key := Lower(t[i].title);
    LowerIdempotent(t[i].title);
    FindIndexIs(t, key, i);
  }

  /** A message that matches no pattern and names no known title gets the
      fallback answer. */
  lemma NothingMatches(check: TriviaCheck, input: string, words: seq<string>, stop: set<string>, t: Table, rnd: seq<nat>)
    requires !IsLearnCommand(Lower(input))
    requires forall g :: 0 <= g < |Greetings| ==> !Contains(Lower(input), Greetings[g].0)
    requires !AsksDirector(Lower(input)) && !AsksRecommendation(Lower(input))
    requires !AsksYear(Preprocess(words, stop))
    requires forall j :: 0 <= j < |t| ==> !Contains(Lower(input), Lower(t[j].title))
    ensures Handle(check, input, words, stop, t, rnd) == Reply(Fallback, t)
  {
    NoGreeting(Lower(input));
  }

  /** The trivia check as written never sees "fun fact": it reduces to the
      check for the word "trivia" alone. */
  lemma FunFactAsWrittenIsDead(words: seq<string>, stop: set<string>)
    ensures AsksTriviaAsWritten(Preprocess(words, stop)) <==> "trivia" in Preprocess(words, stop)
  {
    assert "fun fact"[3] == ' ';
    NoPhraseIsAToken(words, stop, "fun fact");
  }

  /** "fun fact" on its own: the check as written misses it, the corrected
      check catches it. */
  lemma FunFactExample()
    ensures !AsksTriviaAsWritten(Preprocess(["fun", "fact"], {}))
    ensures AsksTriviaCorrected(Preprocess(["fun", "fact"], {}), "fun fact")
  {
    FunFactAsWrittenIsDead(["fun", "fact"], {});
    assert OccursAt("fun fact", "fun fact", 0);
  }

  /** The column keywords tested before the trivia check. */
  const EarlierKeywords: seq<string> := ["plot", "director", "directed", "stars", "actors", "cast", "genre"]

  /** As written, a question about a named movie that says "fun fact" but
      no column keyword gets the whole record and recommendations from its
      genre, not the trivia. */
  lemma FunFactMissedAsWritten(input: string, words: seq<string>, stop: set<string>, t: Table, rnd: seq<nat>, i: nat)
    requires !IsLearnCommand(Lower(input))
    requires forall g :: 0 <= g < |Greetings| ==> !Contains(Lower(input), Greetings[g].0)
    requires !AsksDirector(Lower(input)) && !AsksRecommendation(Lower(input))
    requires !AsksYear(Preprocess(words, stop))
    requires i < |t| && Contains(Lower(input), Lower(t[i].title))
    requires forall j :: 0 <= j < i ==> !Contains(Lower(input), Lower(t[j].title))
    requires forall k :: 0 <= k < |EarlierKeywords| ==> EarlierKeywords[k] !in Preprocess(words, stop)
    requires var tokens := Preprocess(words, stop);
      "trivia" !in tokens && "year" !in tokens && "released" !in tokens
    requires Contains(Lower(input), "fun fact")
    ensures Handle(AsWritten, input, words, stop, t, rnd).response
              == InfoOf(Lower(t[i].title), Some(t[i]), RecommendByGenre(t, t[i].genre, DefaultCount, rnd))
  {
    FunFactAsWrittenIsDead(words, stop);
    NoColumnAsked(Preprocess(words, stop), Lower(input));
    TitleQuery(AsWritten, input, words, stop, t, rnd, i);
  }

  /** With the check as written and none of the column keywords among the
      tokens, no column is asked for. */
  lemma NoColumnAsked(tokens: seq<string>, lower: string)
    requires forall k :: 0 <= k < |EarlierKeywords| ==> EarlierKeywords[k] !in tokens
    requires !AsksTriviaAsWritten(tokens) && "year" !in tokens && "released" !in tokens
    ensures AskedAttribute(AsWritten, tokens, lower).None?
  {
    var e := EarlierKeywords;
    assert e[0] !in tokens && e[1] !in tokens && e[2] !in tokens && e[3] !in tokens;
    assert e[4] !in tokens && e[5] !in tokens && e[6] !in tokens;
  }

  /** With the corrected check, a question about a named movie that says
      "fun fact" (and no earlier keyword) is answered with that movie's
      trivia. */
  lemma FunFactGetsTrivia(input: string, words: seq<string>, stop: set<string>, t: Table, rnd: seq<nat>, i: nat)
    requires !IsLearnCommand(Lower(input))
    requires forall g :: 0 <= g < |Greetings| ==> !Contains(Lower(input), Greetings[g].0)
    requires !AsksDirector(Lower(input)) && !AsksRecommendation(Lower(input))
    requires !AsksYear(Preprocess(words, stop))
    requires i < |t| && Contains(Lower(input), Lower(t[i].title))
    requires forall j :: 0 <= j < i ==> !Contains(Lower(input), Lower(t[j].title))
    requires forall k :: 0 <= k < |EarlierKeywords| ==> EarlierKeywords[k] !in Preprocess(words, stop)
    requires Contains(Lower(input), "fun fact")
    ensures Handle(Corrected, input, words, stop, t, rnd).response
              == AttributeOf(Lower(t[i].title), Trivia, Some(Get(t[i], Trivia)))
  {
    FunFactAsksTrivia(Preprocess(words, stop), Lower(input));
    TitleQuery(Corrected, input, words, stop, t, rnd, i);
  }

  /** With the corrected check, "fun fact" anywhere in the message selects
      the trivia column unless an earlier keyword is among the tokens. */
  lemma FunFactAsksTrivia(tokens: seq<string>, lower: string)
    requires forall k :: 0 <= k < |EarlierKeywords| ==> EarlierKeywords[k] !in tokens
    requires Contains(lower, "fun fact")
    ensures AskedAttribute(Corrected, tokens, lower) == Some(Trivia)
  {
    var e := EarlierKeywords;
    assert e[0] !in tokens && e[1] !in tokens && e[2] !in tokens && e[3] !in tokens;
    assert e[4] !in tokens && e[5] !in tokens && e[6] !in tokens;
  }
}
