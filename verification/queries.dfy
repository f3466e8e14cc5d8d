/** The read-only questions the assistant answers from the table: titles by
    genre (a random sample), by director and by year. Genre and director
    match by case-insensitive substring, the year by numeric value. */
module Queries {
  import opened Basics
  import opened Strings
  import opened Movies
  import opened Sampling

  /** How many titles a recommendation draws when the caller does not say. */
  const DefaultCount: nat := 5

  /** The rows whose genre contains `genre`, ignoring case, in table order. */
  function GenreRows(t: Table, genre: string): (rows: seq<nat>)
    ensures Distinct(rows)
    ensures forall k :: 0 <= k < |rows| ==> rows[k] < |t| && FieldHas(t[rows[k]], Genre, genre)
    ensures forall i :: 0 <= i < |t| && FieldHas(t[i], Genre, genre) ==> i in rows
  {
    var rows := Where(t, m => FieldHas(m, Genre, genre));
    IncreasingDistinct(rows);
    rows
  }

  /** The rows `get_recommendations_by_genre(genre, n)` draws: `Min(n, k)`
      different rows among the `k` whose genre matches. */
  function RecommendRows(t: Table, genre: string, n: nat, rnd: seq<nat>): (rows: seq<nat>)
    ensures |rows| == Min(n, |GenreRows(t, genre)|)
    ensures Distinct(rows)
    ensures forall k :: 0 <= k < |rows| ==> rows[k] < |t| && FieldHas(t[rows[k]], Genre, genre)
  {
    var pool := GenreRows(t, genre);
    var rows := Sample(pool, n, rnd);
    assert forall k :: 0 <= k < |rows| ==> rows[k] in pool;
    rows
  }

  /** `get_recommendations_by_genre(genre, n)`: the titles of `Min(n, k)`
      different matching rows; empty exactly when no genre matches (for a
      positive `n`). */
  function RecommendByGenre(t: Table, genre: string, n: nat, rnd: seq<nat>): (titles: seq<string>)
    ensures |titles| == Min(n, |GenreRows(t, genre)|)
    ensures n > 0 ==> (titles == [] <==> forall i :: 0 <= i < |t| ==> !FieldHas(t[i], Genre, genre))
    ensures forall x :: x in titles ==> exists i :: 0 <= i < |t| && FieldHas(t[i], Genre, genre) && t[i].title == x
    ensures var rows := RecommendRows(t, genre, n, rnd);
      |titles| == |rows| && forall k :: 0 <= k < |rows| ==> titles[k] == t[rows[k]].title
  {
    var rows := RecommendRows(t, genre, n, rnd);
    var titles := TitlesOf(t, rows);
    assert forall x :: x in titles ==> exists i :: 0 <= i < |t| && FieldHas(t[i], Genre, genre) && t[i].title == x by {
      forall x | x in titles
        ensures exists i :: 0 <= i < |t| && FieldHas(t[i], Genre, genre) && t[i].title == x
      {
        var k :| 0 <= k < |titles| && titles[k] == x;
        assert FieldHas(t[rows[k]], Genre, genre);
      }
    }
    titles
  }

  /** With no more matches than asked for, every matching row is drawn. */
  lemma RecommendAllWhenFew(t: Table, genre: string, n: nat, rnd: seq<nat>)
    requires |GenreRows(t, genre)| <= n
    ensures forall i :: 0 <= i < |t| && FieldHas(t[i], Genre, genre) ==> i in RecommendRows(t, genre, n, rnd)
  {
    var pool := GenreRows(t, genre);
    var rows := RecommendRows(t, genre, n, rnd);
    assert forall x :: x in rows ==> x in pool;
    SameSizeCovers(rows, pool);
  }

  /** Any choice of `Min(n, k)` different matching rows, in any order, is a
      possible draw: the randomness is modelled without narrowing it. */
  lemma RecommendAnyChoice(t: Table, genre: string, n: nat, choice: seq<nat>)
    requires Distinct(choice) && |choice| == Min(n, |GenreRows(t, genre)|)
    requires forall k :: 0 <= k < |choice| ==> choice[k] < |t| && FieldHas(t[choice[k]], Genre, genre)
    ensures exists rnd :: RecommendRows(t, genre, n, rnd) == choice
  {
    var pool := GenreRows(t, genre);
    SampleCovers(pool, n, choice);
    var rnd :| Sample(pool, n, rnd) == choice;
    assert RecommendRows(t, genre, n, rnd) == choice;
  }

  /** The mask of line 82: the director cell contains `name`, ignoring
      case. */
  function DirectedBy(name: string): Movie -> bool
  {
    m => FieldHas(m, Director, name)
  }

  /** `get_movies_by_director(name)`: the titles, in table order, of the
      rows whose director contains `name`, ignoring case. */
  function MoviesByDirector(t: Table, name: string): (titles: seq<string>)
    ensures |titles| == |Where(t, DirectedBy(name))|
    ensures forall k :: 0 <= k < |titles| ==> titles[k] == t[Where(t, DirectedBy(name))[k]].title
    ensures titles == [] <==> forall i :: 0 <= i < |t| ==> !FieldHas(t[i], Director, name)
    ensures forall i :: 0 <= i < |t| && FieldHas(t[i], Director, name) ==> t[i].title in titles
    ensures forall x :: x in titles ==> exists i :: 0 <= i < |t| && FieldHas(t[i], Director, name) && t[i].title == x
  {
    SelectTitles(t, DirectedBy(name))
  }

  /** The row's year cell holds the number `year`
      (`df['year'] == int(year)`). */
  predicate InYear(m: Movie, year: nat)
  {
    IsDigits(m.year) && DigitsValue(m.year) == year
  }

  /** The mask of line 137. */
  function ReleasedIn(year: nat): Movie -> bool
  {
    m => InYear(m, year)
  }

  /** The titles, in table order, of the movies released in `year`. */
  function MoviesInYear(t: Table, year: nat): (titles: seq<string>)
    ensures |titles| == |Where(t, ReleasedIn(year))|
    ensures forall k :: 0 <= k < |titles| ==> titles[k] == t[Where(t, ReleasedIn(year))[k]].title
    ensures titles == [] <==> forall i :: 0 <= i < |t| ==> !InYear(t[i], year)
    ensures forall i :: 0 <= i < |t| && InYear(t[i], year) ==> t[i].title in titles
    ensures forall x :: x in titles ==> exists i :: 0 <= i < |t| && InYear(t[i], year) && t[i].title == x
  {
    SelectTitles(t, ReleasedIn(year))
  }
}
