# Movie assistant: a Dafny model of the message handler

The assistant answers one chat message at a time from a table of movies. The
table has seven text columns: title, year, director, cast, genre, plot and
trivia. A message is checked against a fixed list of patterns in priority
order:

1. a `Learn:` / `Add fact:` command that inserts or updates one cell;
2. canned greetings;
3. "directed by" / "has directed" questions;
4. genre recommendations (a random sample of matching titles);
5. "movies released in <year>" questions;
6. questions about a movie named in the message, answered by one column or by the whole record plus recommendations from its genre;
7. a fallback answer.

The model covers this handler, the token filter it uses, the table lookups
and queries, and the learn command. It proves:

- what each branch answers and when;
- that only a successful learn command changes the table;
- that a learned fact is read back (round trip);
- that sampling draws distinct matching rows and can draw any such choice.

Modules, in dependency order:

| file | module | contents |
|---|---|---|
| basics.dfy | `Basics` | `Option`, `Min`, duplicate-free sequences |
| strings.dfy | `Strings` | ASCII `lower`, `in`, `index`, `startswith`, `strip`, `split` |
| tokens.dfy | `Tokens` | the token filter `preprocess` |
| movies.dfy | `Movies` | columns, rows, case-insensitive title lookup, row filters |
| sampling.dfy | `Sampling` | `DataFrame.sample` driven by an explicit list of random draws |
| learn.dfy | `Learn` | `learn_new_fact` and the learn branch |
| queries.dfy | `Queries` | recommendations by genre, titles by director, titles by year |
| router.dfy | `Router` | `handle_input` and the lemmas about its branches |

Inputs the program gets from outside become parameters:

- `words` is the tokenizer's output for the message;
- `stop` is the stop-word set;
- `t` is the table loaded from the CSV file;
- `rnd` is the random draws.

`Handle` returns the answer together with the table to be written back.
Answers are tagged values (`Response`). The greeting texts are kept
verbatim. The wording of the other replies is not modelled.

`Handle`, `Answer` and `AskedAttribute` take one more parameter,
`check: TriviaCheck`. It chooses the trivia test of line 162:

- `Handle(AsWritten, ...)` is the handler as written, which looks for the
  phrase "fun fact" among the tokens;
- `Handle(Corrected, ...)` looks for the phrase in the message (see
  "## Findings").

Every lemma about the branches holds for both, unless it names one.

Behaviour of the code worth knowing, which the model keeps:

- `learn_new_fact` accepts `title` as an attribute, since it is a column.
- The learn branch splits the message on every `->` and takes the piece after the first one as the answer, whatever follows.
- A recommendation request that names a genre with no matching movie answers with an empty list, not with the "please specify a genre" text.
- Titles are unique up to case only as long as nobody teaches a new title: `Learn.TitleUpsertMovesKey` shows that teaching a title can move a key.

## Model

| member | source | states |
|---|---|---|
| Strings.IndexOf | movie_assistant.py:116 | the position found is an occurrence of the phrase and no earlier position is one; none means the phrase occurs nowhere |
| Strings.Contains | movie_assistant.py:111 | `pat in s` holds exactly when the phrase occurs at some position |
| Strings.Trim | movie_assistant.py:34-35 | the stripped text is no longer than the original and neither starts nor ends with whitespace |
| Strings.TrimStart | movie_assistant.py:34 | the result is a suffix of the input, everything dropped is whitespace and the result does not start with whitespace |
| Strings.TrimEnd | movie_assistant.py:35 | the result is a prefix of the input, everything dropped is whitespace and the result does not end with whitespace |
| Strings.Split | movie_assistant.py:94 | splitting on `->` gives at least one piece, exactly one when there is no separator, no piece contains it, and joining the pieces with it gives back the message |
| Strings.SplitHead | movie_assistant.py:94-95 | the first piece is a prefix of the message, followed by the separator when there are more pieces |
| Strings.SplitOnce | movie_assistant.py:33 | `split(":", 1)` gives one or two pieces, two exactly when there is a colon, the first piece has none, and joining gives back the text |
| Strings.FirstContained | movie_assistant.py:110-112 | a dictionary or list scan stops at the first key contained in the message; none means no key is contained |
| Tokens.Preprocess | movie_assistant.py:25-29 | every token is alphanumeric, lower-case and not a stop word, every such word of the input survives, every token is the lower-cased form of an alphanumeric input word, and there are no more tokens than words |
| Tokens.PreprocessAppend | movie_assistant.py:25-29 | the filter works word by word in order: the tokens of two pieces of text, one after the other, are the tokens of the whole |
| Tokens.PreprocessWord | movie_assistant.py:27-28 | one word gives its lower-cased form as the one token when it is alphanumeric and not a stop word, and no token otherwise |
| Tokens.NoPhraseIsAToken | movie_assistant.py:27 | a phrase with a blank in it is never a token |
| Movies.ParseAttr | movie_assistant.py:37 | a name is accepted exactly when it is a column's header, and then it denotes that column |
| Movies.Set | movie_assistant.py:42 | writing one cell sets that column and keeps every other column |
| Movies.Blank | movie_assistant.py:45-46 | a new row holds the title and the empty string in every other column |
| Movies.FindIndex | movie_assistant.py:40 | the index found is the first row whose title equals the given one ignoring case; none means no row's title does |
| Movies.FindIgnoresCase | movie_assistant.py:54-56 | two titles that agree after lower-casing find the same row |
| Movies.FindMovie | movie_assistant.py:54-56 | `find_movie` is none exactly when no title matches; the source returns every matching row as a frame, and the model keeps only the first, the one its callers read through `iloc[0]` at lines 61 and 69 |
| Movies.MovieAttribute | movie_assistant.py:66-71 | `get_movie_attribute` is none exactly when no title matches, and otherwise that column of the first matching row |
| Movies.Where | movie_assistant.py:74 | a boolean mask selects exactly the rows satisfying the condition, in increasing order |
| Movies.SelectTitles | movie_assistant.py:82 | one title per matching row, in table order (the rows the mask selects, in increasing order); empty exactly when no row matches |
| Sampling.Sample | movie_assistant.py:76 | a sample has `min(n, len)` elements, all from the pool, and no repeats when the pool has none |
| Sampling.SampleCovers | movie_assistant.py:76 | every repeat-free choice of the right size, in any order, is a possible sample |
| Sampling.SampleStep | movie_assistant.py:76 | drawing one position first leaves a sample of the rest of the pool |
| Learn.Upsert | movie_assistant.py:40-49 | an existing title gets the new value in that column only and every other row is kept; an unknown title adds one row with title, value and empty cells, after the old rows |
| Learn.LearnFact | movie_assistant.py:32-52 | no colon gives the usage answer; an unknown attribute is refused with its trimmed lower-cased name and no change; otherwise the table is upserted, reported as updated exactly when the title existed |
| Learn.DirectiveHasColon | movie_assistant.py:92-95 | in a learn command the directive's colon is always before the first `->`, so line 95 never fails |
| Learn.LearnCommand | movie_assistant.py:92-100 | without `->` the usage answer and an unchanged table; a refusal never changes the table; with `->`, the usage answer exactly when the question has no colon, and otherwise a refusal exactly when the name after that colon is no column; for a column, the title before that colon gets the trimmed text after the first `->`, as an update when the title is already in the table and as a new row when it is not |
| Learn.UpsertRoundTrip | movie_assistant.py:40-49 | after an upsert of any column but the title, `get_movie_attribute` returns the new value |
| Learn.LearnRoundTrip | movie_assistant.py:32-52 | after a successful `learn_new_fact` of any column but the title, the fact reads back |
| Learn.TitleUpsertMovesKey | movie_assistant.py:45-48 | teaching a new movie a different title stores that title as the key, so the first title no longer finds the row |
| Learn.UpsertKeepsKeysUnique | movie_assistant.py:40-49 | an upsert of any column but the title keeps titles unique up to case |
| Queries.GenreRows | movie_assistant.py:74 | exactly the rows whose genre contains the requested genre ignoring case, without repeats |
| Queries.RecommendRows | movie_assistant.py:73-79 | `min(n, k)` different rows, all with a matching genre |
| Queries.RecommendByGenre | movie_assistant.py:73-79 | `min(n, k)` titles of matching rows, empty (for n > 0) exactly when no genre matches; title k is the title of row k of `RecommendRows`, so the titles come from distinct rows and inherit its all-when-few and any-choice lemmas |
| Queries.RecommendAllWhenFew | movie_assistant.py:76 | with no more matches than asked for, every matching row is drawn |
| Queries.RecommendAnyChoice | movie_assistant.py:76 | any `min(n, k)` different matching rows, in any order, is a possible recommendation |
| Queries.MoviesByDirector | movie_assistant.py:81-86 | the titles of exactly the rows whose director contains the name ignoring case, one per row, in table order; empty exactly when there are none |
| Queries.MoviesInYear | movie_assistant.py:135-141 | the titles of exactly the rows whose year is the number asked for, one per row, in table order; empty exactly when there are none |
| Router.DirectorName | movie_assistant.py:114-122 | the director is the trimmed original text after the first "directed by", or after the first "has directed" when there is no "directed by" |
| Router.AskedIsFirstRanked | movie_assistant.py:154-166 | the column asked about is the first column, in the order plot, director, cast, genre, trivia, year, whose keywords the message holds; none exactly when it holds no column's keywords |
| Router.FirstRankedIsAsked | movie_assistant.py:154-166 | a column whose keywords occur, with no keyword of an earlier column, is the column asked about |
| Router.AnswerMeaning | movie_assistant.py:102-173 | past the learn branch, a greeting exactly when the message holds a greeting phrase; the request for a genre only when a recommendation names no genre; the fallback only when no known title occurs |
| Router.FirstNumber | movie_assistant.py:136 | the first all-digit token, or none when no token is all digits |
| Router.Handle | movie_assistant.py:88-100 | a message is answered by the learn branch exactly when it starts with a directive, and the table changes only through a successful learn |
| Router.LearnWithoutArrow | movie_assistant.py:92-100 | a learn command without `->` gets the usage answer and leaves the table alone |
| Router.LearnUsageExactly | movie_assistant.py:92-100 | a learn command gets the usage answer exactly when it lacks `->` or its question lacks the colon between title and attribute |
| Router.LearnThenRead | movie_assistant.py:92-98 | after a learn command updates or adds a fact, that title's column reads back the trimmed text after the first `->` |
| Router.GreetingWins | movie_assistant.py:102-112 | a message holding a greeting phrase gets the reply of the first such phrase, and the table is unchanged |
| Router.GreetingInsideWord | movie_assistant.py:110-112 | greeting phrases match inside words: "Is this movie good" contains "hi" and gets the first greeting, with the table unchanged |
| Router.DirectorQuery | movie_assistant.py:114-123 | "directed by" (or else "has directed") lists the movies of the director named by the trimmed original text after the first occurrence |
| Router.RecommendationQuery | movie_assistant.py:127-133 | a recommendation request asks for a genre exactly when it names none, and otherwise recommends from the first listed genre it names |
| Router.YearQuery | movie_assistant.py:135-141 | a year question takes the first all-digit token as the year and lists that year's movies |
| Router.TitleQuery | movie_assistant.py:152-171 | the first row whose title occurs in the message is the one answered about: the column `AskedAttribute` picks (with line 162 as written for `AsWritten`), or that row plus recommendations from its genre |
| Router.AboutFirstRow | movie_assistant.py:153-171 | looking up the lower-cased title of a row that no earlier row shares answers about that row, with the column picked by the chosen trivia test |
| Router.RowByTitle | movie_assistant.py:155-169 | the lower-cased title of a row that no earlier row shares finds that row and each of its cells |
| Router.NothingMatches | movie_assistant.py:173 | a message matching no pattern and naming no title gets the fallback answer |
| Router.FunFactAsWrittenIsDead | movie_assistant.py:162 | the trivia test as written reduces to the word "trivia" alone |
| Router.FunFactExample | movie_assistant.py:162 | for the message "fun fact" the test as written fails and the corrected test succeeds |
| Router.FunFactMissedAsWritten | movie_assistant.py:152-171 | as written, a question naming a movie and saying "fun fact", with no column keyword, gets the whole record and recommendations, not the trivia |
| Router.FunFactGetsTrivia | movie_assistant.py:162-163 | with the corrected test, a question naming a movie and saying "fun fact", with no earlier keyword, gets that movie's trivia |

## Left out

- The window, buttons and event loop (lines 175-219) are not modelled: they only pass text in and out.
- `resource_path` (lines 9-14), reading and writing `movies.csv` (lines 17 and 51) and the tokenizer and stop-word download (lines 20-23) are left out. The table, the tokenizer's output and the stop words are parameters. The table `Handle` returns is what would be saved.
- The randomness of `DataFrame.sample` is replaced by the parameter `rnd`. `SampleCovers` and `RecommendAnyChoice` show that this does not narrow the possible outcomes.
- Reply wording is not modelled: the f-string formatting, `', '.join`, `str.title()` capitalisation and the layout of `get_movie_info`. Answers are tagged values that carry the data.
- Unicode is not modelled: lower-casing, `isalnum`, `isdigit` and `strip` are ASCII only.
- `str.contains` treats the needle as a regular expression; the model matches it as a literal substring.
- Missing (NaN) cells and pandas type conversion of columns are not modelled. Every cell is text, and the year column is compared by the numeric value of its digits.
- The second, identical year block (lines 143-149) can never be reached, so it is not modelled.
- The `except` at lines 124-125, and the escape of the same error from the "directed by" path (line 119 catches only `ValueError`), are reached only through errors the model does not have: a director name that is not a valid regular expression, such as "who has directed (", or missing data. They are not modelled.
- Strings.Trim: states that the result has no whitespace at either end and is no longer than the input, not which slice is kept. `TrimStart` and `TrimEnd`, which it composes, state that.

## Findings

| source | as written | input that shows it | evidently intended | confidence | as-written member | corrected member |
|---|---|---|---|---|---|---|
| movie_assistant.py:162 | `"fun fact" in tokens` tests whether the two-word phrase is one of the tokens, but every token is a single alphanumeric word, so the test never holds | "Tell me a fun fact about Inception" names the movie and says "fun fact", yet gets the full record instead of the trivia | the phrase "fun fact" anywhere in the lower-cased message selects the trivia column | high; not executed | Router.FunFactMissedAsWritten | Router.FunFactGetsTrivia |
