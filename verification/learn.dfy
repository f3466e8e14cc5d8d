/** Teaching the assistant a fact: `Learn: <title>: <attribute> -> <answer>`
    parses into an insert-or-update of one cell of the movie table
    (`learn_new_fact` and the learn branch of `handle_input`). Saving the
    table to disk is not modelled: the returned table is what gets saved. */
module Learn {
  import opened Basics
  import opened Strings
  import opened Movies

  /** The answers of the learn branch. */
  datatype LearnReply =
    | Updated(title: string, attr: Attr)  // an existing row got the new value
    | Added(title: string, attr: Attr)    // a new row was appended
    | Unrecognized(name: string)          // the attribute names no column
    | Usage                               // the command could not be split

  datatype Learned = Learned(reply: LearnReply, table: Table)

  /** Insert-or-update: when a row's title equals `title` ignoring case, the
      first such row gets `answer` in column `a` and nothing else changes;
      otherwise one row is appended holding `title`, `answer` in column `a`
      and the empty string everywhere else. */
  function Upsert(t: Table, title: string, a: Attr, answer: string): (r: Table)
    ensures match FindIndex(t, title)
      case Some(i) =>
        && |r| == |t|
        && Get(r[i], a) == answer
        && (forall b: Attr :: b != a ==> Get(r[i], b) == Get(t[i], b))
        && (forall j :: 0 <= j < |t| && j != i ==> r[j] == t[j])
      case None =>
        && |r| == |t| + 1
        && r[..|t|] == t
        && forall b: Attr :: Get(r[|t|], b) == if b == a then answer else if b == Title then title else ""
  {
    match FindIndex(t, title)
    case Some(i) => t[i := Set(t[i], a, answer)]
    case None => t + [Set(Blank(title), a, answer)]
  }

  /** `learn_new_fact(question, answer)`: `question` is `<title>: <attribute>`.
      Without a colon the split fails and the caller answers with the usage
      text; an attribute that is not a column is refused and the table is
      left as it was; otherwise the table is upserted. */
  function LearnFact(t: Table, question: string, answer: string): (r: Learned)
    ensures r.reply.Usage? <==> !Contains(question, ":")
    ensures r.reply.Usage? || r.reply.Unrecognized? ==> r.table == t
    ensures r.reply.Unrecognized? ==> ParseAttr(r.reply.name).None?
    ensures Contains(question, ":") ==>
      var q := SplitOnce(question, ":");
      && (r.reply.Unrecognized? ==> r.reply.name == Lower(Trim(q[1])))
      && (r.reply.Updated? || r.reply.Added? ==>
            r.reply.title == Trim(q[0]) && Name(r.reply.attr) == Lower(Trim(q[1])))
    ensures r.reply.Updated? ==> FindIndex(t, r.reply.title).Some?
    ensures r.reply.Added? ==> FindIndex(t, r.reply.title).None?
    ensures r.reply.Updated? || r.reply.Added? ==> r.table == Upsert(t, r.reply.title, r.reply.attr, answer)
  {
    var q := SplitOnce(question, ":");
    if |q| < 2 then Learned(Usage, t)
    else
      var title := Trim(q[0]);
      var name := Lower(Trim(q[1]));
      match ParseAttr(name)
      case None => Learned(Unrecognized(name), t)
      case Some(a) =>
        var reply := if FindIndex(t, title).Some? then Updated(title, a) else Added(title, a);
        Learned(reply, Upsert(t, title, a, answer))
  }

  /** `Learn:` / `Add fact:` (any case) at the very start of the message. */
  predicate IsLearnCommand(lower: string)
  {
    StartsWith(lower, "learn:") || StartsWith(lower, "add fact:")
  }

  /** The directive's own colon always lies before the first `->`: the
      first piece of the split on `->` holds a colon, so taking the text
      after it never fails. */
  lemma DirectiveHasColon(input: string)
    requires IsLearnCommand(Lower(input))
    ensures Contains(Split(input, "->")[0], ":")
  {
    var directive := if StartsWith(Lower(input), "learn:") then "learn:" else "add fact:";
    var c := |directive| - 1;
    DirectivePrefix(input, directive);
    forall j | 0 <= j <= c
      ensures !OccursAt(input, "->", j)
    {
      assert input[j] != '-';
      assert j + 2 <= |input| ==> input[j..j + 2][0] == input[j];
    }
    SplitHead(input, "->");
    var p := Split(input, "->")[0];
    assert |p| > c;
    assert p[c] == input[c];
    assert p[c..c + 1] == ":";
    assert OccursAt(p, ":", c);
  }

  /** A message starting with a directive, in any case, has the directive's
      colon at the same place and no '-' before it. */
  lemma DirectivePrefix(input: string, directive: string)
    requires directive == "learn:" || directive == "add fact:"
    requires StartsWith(Lower(input), directive)
    ensures input[|directive| - 1] == ':'
    ensures forall j :: 0 <= j < |directive| ==> input[j] != '-'
  {
    var lower := Lower(input);
    assert lower[..|directive|] == directive;
    forall j | 0 <= j < |directive|
      ensures input[j] != '-'
    {
      assert lower[j] == LowerChar(input[j]) == directive[j] != '-';
    }
    assert lower[|directive| - 1] == LowerChar(input[|directive| - 1]) == ':';
  }

  /** The learn branch of `handle_input`: the text before the first `->`,
      after the directive's colon, is the question; the text between the
      first and second `->` is the answer. A message without `->` gets the
      usage text and leaves the table alone; a well-formed one teaches the
      trimmed answer to the column named after the question's colon of the
      movie named before it. */
  function LearnCommand(input: string, t: Table): (r: Learned)
    ensures !Contains(input, "->") ==> r == Learned(Usage, t)
    ensures r.reply.Usage? || r.reply.Unrecognized? ==> r.table == t
    ensures r.reply.Updated? || r.reply.Added? ==> Contains(input, "->")
    ensures var parts := Split(input, "->");
      var head := SplitOnce(parts[0], ":");
      |parts| >= 2 && |head| == 2 ==>
        var question := Trim(head[1]);
        && (r.reply.Usage? <==> !Contains(question, ":"))
        && (Contains(question, ":") ==>
              var q := SplitOnce(question, ":");
              && (r.reply.Unrecognized? ==> r.reply.name == Lower(Trim(q[1])))
              && (r.reply.Unrecognized? <==> ParseAttr(Lower(Trim(q[1]))).None?)
              && (r.reply.Updated? ==> FindIndex(t, r.reply.title).Some?)
              && (r.reply.Added? ==> FindIndex(t, r.reply.title).None?)
              && (r.reply.Updated? || r.reply.Added? ==>
                    && r.reply.title == Trim(q[0])
                    && Name(r.reply.attr) == Lower(Trim(q[1]))
                    && r.table == Upsert(t, r.reply.title, r.reply.attr, Trim(parts[1]))))
  {
    var parts := Split(input, "->");
    var head := SplitOnce(parts[0], ":");
    if |head| < 2 || |parts| < 2 then Learned(Usage, t)
    else LearnFact(t, Trim(head[1]), Trim(parts[1]))
  }

  /** Round trip: after an upsert of any column but the title, looking the
      title up finds the new value. */
  lemma UpsertRoundTrip(t: Table, title: string, a: Attr, answer: string)
    requires a != Title
    ensures MovieAttribute(Upsert(t, title, a, answer), title, a) == Some(answer)
  {
    var r := Upsert(t, title, a, answer);
    match FindIndex(t, title)
    case Some(i) =>
      assert r[i].title == Get(r[i], Title) == Get(t[i], Title);
      assert forall j :: 0 <= j < i ==> r[j] == t[j];
      FindIndexIs(r, title, i);
    case None =>
      assert Get(r[|t|], Title) == title;
      assert forall j :: 0 <= j < |t| ==> r[j] == t[j];
      FindIndexIs(r, title, |t|);
  }

  /** Round trip through `learn_new_fact`: a successful update of a column
      other than the title is read back by `get_movie_attribute`. */
  lemma LearnRoundTrip(t: Table, question: string, answer: string)
    requires LearnFact(t, question, answer).reply.Updated? || LearnFact(t, question, answer).reply.Added?
    requires LearnFact(t, question, answer).reply.attr != Title
    ensures var r := LearnFact(t, question, answer);
      MovieAttribute(r.table, r.reply.title, r.reply.attr) == Some(answer)
  {
    var r := LearnFact(t, question, answer);
    UpsertRoundTrip(t, r.reply.title, r.reply.attr, answer);
  }

  /** The round trip fails for the title column: teaching a new movie its
      own title stores the answer as the key, and the title first given
      can no longer be found. */
  lemma TitleUpsertMovesKey(t: Table, title: string, answer: string)
    requires FindIndex(t, title).None? && Lower(answer) != Lower(title)
    ensures FindIndex(Upsert(t, title, Title, answer), title).None?
    ensures FindIndex(Upsert(t, title, Title, answer), answer).Some?
  {
    var r := Upsert(t, title, Title, answer);
    assert Get(r[|t|], Title) == answer;
    assert forall j :: 0 <= j < |t| ==> r[j] == t[j];
  }

  /** Upserting a column other than the title keeps titles unique up to
      case: an update leaves every title alone and an insert only happens
      for a title not yet present. */
  lemma UpsertKeepsKeysUnique(t: Table, title: string, a: Attr, answer: string)
    requires UniqueKeys(t) && a != Title
    ensures UniqueKeys(Upsert(t, title, a, answer))
  {
    var r := Upsert(t, title, a, answer);
    match FindIndex(t, title)
    case Some(i) =>
      assert forall j :: 0 <= j < |t| ==> r[j].title == t[j].title by {
        forall j | 0 <= j < |t|
          ensures r[j].title == t[j].title
        {
          if j == i {
            assert Get(r[i], Title) == Get(t[i], Title);
          }
        }
      }
    case None =>
      assert Get(r[|t|], Title) == title;
      assert forall j :: 0 <= j < |t| ==> r[j] == t[j];
  }
}
