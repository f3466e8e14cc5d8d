/** The movie table: one record per row, seven text columns, rows in file
    order. Titles are compared case-insensitively. */
module Movies {
  import opened Basics
  import opened Strings

  /** The table's columns, in header order. */
  datatype Attr = Title | Year | Director | Cast | Genre | Plot | Trivia

  /** The column header naming an attribute. */
  function Name(a: Attr): string
  {
    match a
    case Title => "title"
    case Year => "year"
    case Director => "director"
    case Cast => "cast"
    case Genre => "genre"
    case Plot => "plot"
    case Trivia => "trivia"
  }

  /** `name in movies_df.columns`: the column a (lower-cased) name denotes,
      if any. Inverse of `Name`. */
  function ParseAttr(s: string): (r: Option<Attr>)
    ensures r.Some? ==> Name(r.value) == s
    ensures r.None? ==> forall a: Attr :: Name(a) != s
  {
    if s == "title" then Some(Title)
    else if s == "year" then Some(Year)
    else if s == "director" then Some(Director)
    else if s == "cast" then Some(Cast)
    else if s == "genre" then Some(Genre)
    else if s == "plot" then Some(Plot)
    else if s == "trivia" then Some(Trivia)
    else None
  }

  /** Every column name is recognised as that column. */
  lemma ParseName(a: Attr)
    ensures ParseAttr(Name(a)) == Some(a)
  {
  }

  /** One row of the table. The year is kept as the text of the cell. */
  datatype Movie = Movie(title: string, year: string, director: string, cast: string,
                         genre: string, plot: string, trivia: string)

  type Table = seq<Movie>

  function Get(m: Movie, a: Attr): string
  {
    match a
    case Title => m.title
    case Year => m.year
    case Director => m.director
    case Cast => m.cast
    case Genre => m.genre
    case Plot => m.plot
    case Trivia => m.trivia
  }

  /** Overwrite one cell of a row; every other cell keeps its value. */
  function Set(m: Movie, a: Attr, v: string): (r: Movie)
    ensures Get(r, a) == v
    ensures forall b: Attr :: b != a ==> Get(r, b) == Get(m, b)
  {
    match a
    case Title => m.(title := v)
    case Year => m.(year := v)
    case Director => m.(director := v)
    case Cast => m.(cast := v)
    case Genre => m.(genre := v)
    case Plot => m.(plot := v)
    case Trivia => m.(trivia := v)
  }

  /** A new row: the given title and an empty string in every other column. */
  function Blank(title: string): (m: Movie)
    ensures forall a: Attr :: Get(m, a) == if a == Title then title else ""
  {
    Movie(title, "", "", "", "", "", "")
  }

  /** The row's title equals `title` ignoring case
      (`df['title'].str.lower() == title.lower()`). */
  predicate TitleIs(m: Movie, title: string)
  {
    Lower(m.title) == Lower(title)
  }

  /** No two rows share a title up to case. */
  predicate UniqueKeys(t: Table)
  {
    forall i, j :: 0 <= i < j < |t| ==> Lower(t[i].title) != Lower(t[j].title)
  }

  function FindFrom(t: Table, title: string, from: nat): (r: Option<nat>)
    requires from <= |t|
    ensures r.Some? ==> from <= r.value < |t| && TitleIs(t[r.value], title)
    ensures r.Some? ==> forall j :: from <= j < r.value ==> !TitleIs(t[j], title)
    ensures r.None? ==> forall j :: from <= j < |t| ==> !TitleIs(t[j], title)
    decreases |t| - from
  {
    if from == |t| then None
    else if TitleIs(t[from], title) then Some(from)
    else FindFrom(t, title, from + 1)
  }

  /** The position of the first row whose title equals `title` ignoring
      case, or `None` when there is no such row. */
  function FindIndex(t: Table, title: string): (r: Option<nat>)
    ensures r.Some? ==> r.value < |t| && TitleIs(t[r.value], title)
    ensures r.Some? ==> forall j :: 0 <= j < r.value ==> !TitleIs(t[j], title)
    ensures r.None? ==> forall j :: 0 <= j < |t| ==> !TitleIs(t[j], title)
  {
    FindFrom(t, title, 0)
  }

  /** A matching row with no matching row before it is what `FindIndex`
      returns. */
  lemma FindIndexIs(t: Table, title: string, i: nat)
    requires i < |t| && TitleIs(t[i], title)
    requires forall j :: 0 <= j < i ==> !TitleIs(t[j], title)
    ensures FindIndex(t, title) == Some(i)
  {
  }

  /** Titles that agree after lower-casing find the same row. */
  lemma {:induction false} FindIgnoresCase(t: Table, a: string, b: string)
    requires Lower(a) == Lower(b)
    ensures FindIndex(t, a) == FindIndex(t, b)
  {
    match FindIndex(t, a)
    case Some(i) => FindIndexIs(t, b, i);
    case None =>
  }

  /** `find_movie`: the first row whose title equals `title` ignoring
      case; `None` exactly when no row's title does. The source returns
      every matching row; its callers read only the first. */
  function FindMovie(t: Table, title: string): (r: Option<Movie>)
    ensures r.None? <==> forall j :: 0 <= j < |t| ==> !TitleIs(t[j], title)
    ensures r.Some? ==> exists i :: 0 <= i < |t| && t[i] == r.value && TitleIs(t[i], title)
                                    && forall j :: 0 <= j < i ==> !TitleIs(t[j], title)
  {
    match FindIndex(t, title)
    case Some(i) => Some(t[i])
    case None => None
  }

  /** `get_movie_attribute`: one cell of the row `find_movie` finds, or
      `None` when the title is unknown. */
  function MovieAttribute(t: Table, title: string, a: Attr): (r: Option<string>)
    ensures r.None? <==> forall j :: 0 <= j < |t| ==> !TitleIs(t[j], title)
    ensures r.Some? ==> exists i :: 0 <= i < |t| && Get(t[i], a) == r.value && TitleIs(t[i], title)
                                    && forall j :: 0 <= j < i ==> !TitleIs(t[j], title)
  {
    match FindMovie(t, title)
    case Some(m) => Some(Get(m, a))
    case None => None
  }

  function WhereFrom(t: Table, p: Movie -> bool, from: nat): (rows: seq<nat>)
    requires from <= |t|
    ensures Increasing(rows)
    ensures forall k :: 0 <= k < |rows| ==> from <= rows[k] < |t| && p(t[rows[k]])
    ensures forall i :: from <= i < |t| && p(t[i]) ==> i in rows
    decreases |t| - from
  {
    if from == |t| then []
    else
      var rest := WhereFrom(t, p, from + 1);
      if p(t[from]) then [from] + rest else rest
  }

  /** The positions, in table order, of exactly the rows satisfying `p`
      (a boolean mask over the table). */
  function Where(t: Table, p: Movie -> bool): (rows: seq<nat>)
    ensures Increasing(rows)
    ensures forall k :: 0 <= k < |rows| ==> rows[k] < |t| && p(t[rows[k]])
    ensures forall i :: 0 <= i < |t| && p(t[i]) ==> i in rows
  {
    WhereFrom(t, p, 0)
  }

  /** `df[column].str.contains(needle, case=False)` for one row. */
  predicate FieldHas(m: Movie, a: Attr, needle: string)
  {
    Contains(Lower(Get(m, a)), Lower(needle))
  }

  /** `df.loc[rows]['title'].tolist()`. */
  function TitlesOf(t: Table, rows: seq<nat>): (titles: seq<string>)
    requires forall k :: 0 <= k < |rows| ==> rows[k] < |t|
  {
    seq(|rows|, k requires 0 <= k < |rows| => t[rows[k]].title)
  }

  /** `df[mask]['title'].tolist()`: the titles of exactly the rows
      satisfying `p`, in table order, one per matching row. */
  function SelectTitles(t: Table, p: Movie -> bool): (titles: seq<string>)
    ensures |titles| == |Where(t, p)|
    ensures forall k :: 0 <= k < |titles| ==> titles[k] == t[Where(t, p)[k]].title
    ensures titles == [] <==> forall i :: 0 <= i < |t| ==> !p(t[i])
    ensures forall i :: 0 <= i < |t| && p(t[i]) ==> t[i].title in titles
    ensures forall x :: x in titles ==> exists i :: 0 <= i < |t| && p(t[i]) && t[i].title == x
  {
    var rows := Where(t, p);
    var titles := TitlesOf(t, rows);
    forall i | 0 <= i < |t| && p(t[i])
      ensures t[i].title in titles
    {
      var k :| 0 <= k < |rows| && rows[k] == i;
      assert titles[k] == t[i].title;
    }
    forall x | x in titles
      ensures exists i :: 0 <= i < |t| && p(t[i]) && t[i].title == x
    {
      var k :| 0 <= k < |titles| && titles[k] == x;
      assert p(t[rows[k]]);
    }
    titles
  }
}
