/*
  The "Web Search Tool": a CrossRef works query whose items are rendered
  one per line. The HTTP exchange is the input `HttpOutcome`: either the
  request raised (with the exception's text) or it returned a status and
  the parsed `message.items` list. The same tool is defined in the
  package and in both writer scripts, identically.

  A CrossRef item is modelled by the fields the tool reads. A missing
  `author`, `title` or `container-title` list behaves like an empty one,
  and a missing `given` or `family` like an empty string, so those are
  plain sequences and strings here.
*/
module WebSearch {
  import opened Wrappers
  import opened Text

  datatype Author = Author(given: string, family: string)

  /** The `published` entry: absent (or an empty object), or an object
      with its `date-parts`, which may itself be absent. */
  datatype Published = NotPublished | Published(dateParts: Option<seq<seq<int>>>)

  /** `DOI` may be absent. */
  datatype Item = Item(title: seq<string>, authors: seq<Author>, containerTitle: seq<string>,
                       published: Published, doi: Option<string>)

  datatype HttpOutcome = Raised(message: string) | Status(code: int, items: seq<Item>)

  const MaxItems: nat := 5
  const MaxAuthors: nat := 3
  const NoResults: string := "No results found"
  const Unavailable: string := "Web search unavailable. Using general knowledge for references."
  /** Python's text for an index into an empty list. */
  const IndexErrorText: string := "list index out of range"

  function UnavailableBecause(message: string): string {
    "Web search unavailable: " + message + ". Using general knowledge for references."
  }

  // ---------------------------------------------------------------------
  // Authors
  // ---------------------------------------------------------------------

  /** An author is usable when both names are non-empty. */
  predicate Usable(a: Author) {
    a.given != [] && a.family != []
  }

  /** `f"{given[0]}. {family}"`. */
  function AuthorName(a: Author): string
    requires Usable(a)
  {
    [a.given[0]] + ". " + a.family
  }

  /** The names of the usable authors of `xs`, in order. */
  function AuthorNames(xs: seq<Author>): seq<string>
    decreases |xs|
  {
    if xs == [] then []
    else
      var a := xs[|xs| - 1];
      AuthorNames(xs[..|xs| - 1]) + (if Usable(a) then [AuthorName(a)] else [])
  }

  /** The names are exactly those of the usable authors: each name comes
      from a usable author, and there are no names only when no author is
      usable. There are never more names than authors. */
  lemma {:induction false} AuthorNamesFaithful(xs: seq<Author>)
    ensures |AuthorNames(xs)| <= |xs|
    ensures forall n :: n in AuthorNames(xs) ==> exists a :: a in xs && Usable(a) && n == AuthorName(a)
    ensures AuthorNames(xs) == [] <==> forall a :: a in xs ==> !Usable(a)
    decreases |xs|
  {
    if xs != [] {
      var init, a := xs[..|xs| - 1], xs[|xs| - 1];
      AuthorNamesFaithful(init);
      assert xs == init + [a];
      forall n | n in AuthorNames(xs)
        ensures exists b :: b in xs && Usable(b) && n == AuthorName(b)
      {
        if n in AuthorNames(init) {
          var b :| b in init && Usable(b) && n == AuthorName(b);
          assert b in xs;
        } else {
          assert Usable(a) && n == AuthorName(a);
        }
      }
      if AuthorNames(xs) == [] {
        forall b | b in xs ensures !Usable(b) {
          if b != a { assert b in init; }
        }
      }
    }
  }

  /** The author part of a line: at most three names, from the first three
      authors, joined by ", "; "Unknown Authors" when none of those three
      is usable. */
  function AuthorsText(xs: seq<Author>): string {
    var names := AuthorNames(Take(xs, MaxAuthors));
    if names == [] then "Unknown Authors" else Join(", ", names)
  }

  lemma AuthorsTextFallback(xs: seq<Author>)
    ensures |AuthorNames(Take(xs, MaxAuthors))| <= 3
    ensures AuthorsText(xs) == "Unknown Authors" <==> forall i :: 0 <= i < Min(3, |xs|) ==> !Usable(xs[i])
  {
    var first := Take(xs, MaxAuthors);
    AuthorNamesFaithful(first);
    var names := AuthorNames(first);
    if names != [] {
      // A usable author's name has '.' at position 1, which the fallback
      // text does not.
      var n := names[0];
      assert n in names;
      var a :| a in first && Usable(a) && n == AuthorName(a);
      var i :| 0 <= i < |first| && first[i] == a;
      assert xs[i] == a;
      JoinHead(", ", names);
      var j := Join(", ", names);
      assert j[1] == n[1] == '.';
      assert "Unknown Authors"[1] == 'n';
    } else {
      forall i | 0 <= i < Min(3, |xs|) ensures !Usable(xs[i]) {
        assert xs[i] in first;
      }
    }
  }

  /** A join starts with its first part. */
  lemma JoinHead(sep: string, parts: seq<string>)
    requires parts != []
    ensures StartsWith(Join(sep, parts), parts[0])
  {
    if |parts| > 1 {
      assert Join(sep, parts) == parts[0] + (sep + Join(sep, parts[1..]));
    }
  }

  // ---------------------------------------------------------------------
  // Items
  // ---------------------------------------------------------------------

  /** `str(...)` of the publication year: "N/A" without a `published`
      entry, 0 when it has no `date-parts`, otherwise the first number of
      the first date; indexing an empty list raises. */
  function YearText(p: Published): Result<string, string> {
    match p
    case NotPublished => Ok("N/A")
    case Published(None) => Ok("0")
    case Published(Some(parts)) =>
      if parts == [] || parts[0] == [] then Err(IndexErrorText)
      else Ok(IntToString(parts[0][0]))
  }

  function TitleText(item: Item): string {
    if item.title != [] then item.title[0] else "Unknown"
  }

  function JournalText(item: Item): string {
    if item.containerTitle != [] then item.containerTitle[0] else "Unknown Journal"
  }

  function DoiText(item: Item): string {
    match item.doi
    case None => "N/A"
    case Some(d) => d
  }

  /** The layout of a line from its rendered parts. */
  function LineOf(idx: nat, authors: string, title: string, journal: string, year: string, doi: string): string {
    NatToString(idx) + ". " + authors + ", \"" + title + "\", " + journal + ", " + year + ". DOI: " + doi
  }

  /** A line starts with its number, ends with its DOI, and carries the
      quoted title and the year in fixed positions. */
  lemma LineOfShape(idx: nat, authors: string, title: string, journal: string, year: string, doi: string)
    ensures var line := LineOf(idx, authors, title, journal, year, doi);
      && StartsWith(line, NatToString(idx) + ". ")
      && EndsWith(line, ". DOI: " + doi)
      && Contains(line, ", \"" + title + "\", ")
      && Contains(line, ", " + year + ". DOI: ")
  {
    var line := LineOf(idx, authors, title, journal, year, doi);
    var num := NatToString(idx) + ". ";
    var mid := ", \"" + title + "\", ";
    var tail := ". DOI: " + doi;
    var yt := ", " + year + tail;
    assert line == num + authors + mid + journal + yt;
    assert line[..|num|] == num;
    assert line[|line| - |tail|..] == tail;
    var k := |num + authors|;
    assert line[k..] == mid + (journal + yt);
    assert StartsWith(line[k..], mid);
    var m := |num + authors + mid + journal|;
    assert line[m..] == yt;
    assert StartsWith(line[m..], ", " + year + ". DOI: ");
  }

  /** The line for item number `idx`. */
  function ItemLine(idx: nat, item: Item): Result<string, string> {
    match YearText(item.published)
    case Err(e) => Err(e)
    case Ok(year) => Ok(LineOf(idx, AuthorsText(item.authors), TitleText(item), JournalText(item), year, DoiText(item)))
  }

  /** An item's line is numbered and ends with its DOI (or "N/A"); it
      fails only on a `date-parts` list that is empty or has an empty
      first entry. */
  lemma ItemLineShape(idx: nat, item: Item)
    ensures ItemLine(idx, item).Err? <==>
      item.published.Published? && item.published.dateParts.Some?
      && (item.published.dateParts.value == [] || item.published.dateParts.value[0] == [])
    ensures ItemLine(idx, item).Ok? ==>
      && StartsWith(ItemLine(idx, item).value, NatToString(idx) + ". ")
      && EndsWith(ItemLine(idx, item).value, ". DOI: " + (if item.doi.Some? then item.doi.value else "N/A"))
  {
    var y := YearText(item.published);
    if y.Ok? {
      var a, t, j, d := AuthorsText(item.authors), TitleText(item), JournalText(item), DoiText(item);
      LineOfShape(idx, a, t, j, y.value, d);
    }
  }

  /** A missing or empty title shows as "Unknown" in its place. */
  lemma TitleFallback(idx: nat, item: Item)
    requires ItemLine(idx, item).Ok? && item.title == []
    ensures Contains(ItemLine(idx, item).value, ", \"Unknown\", ")
  {
    var y := YearText(item.published);
    var a, t, j, d := AuthorsText(item.authors), TitleText(item), JournalText(item), DoiText(item);
    LineOfShape(idx, a, t, j, y.value, d);
    assert ", \"" + t + "\", " == ", \"Unknown\", ";
  }

  /** A missing container title shows as "Unknown Journal" in its place. */
  lemma JournalFallback(idx: nat, item: Item)
    requires ItemLine(idx, item).Ok? && item.containerTitle == []
    ensures JournalText(item) == "Unknown Journal"
    ensures Contains(ItemLine(idx, item).value, "\", " + "Unknown Journal" + ", ")
  {
    var y := YearText(item.published);
    var a, t, j, d := AuthorsText(item.authors), TitleText(item), JournalText(item), DoiText(item);
    LineOfJournal(idx, a, t, j, y.value, d);
  }

  /** An item without a publication date shows "N/A" as its year. */
  lemma YearFallback(idx: nat, item: Item)
    requires item.published.NotPublished?
    ensures ItemLine(idx, item).Ok?
    ensures Contains(ItemLine(idx, item).value, ", N/A. DOI: ")
  {
    var y := YearText(item.published);
    var a, t, j, d := AuthorsText(item.authors), TitleText(item), JournalText(item), DoiText(item);
    LineOfShape(idx, a, t, j, y.value, d);
    assert ", " + y.value + ". DOI: " == ", N/A. DOI: ";
  }

  lemma LineOfJournal(idx: nat, authors: string, title: string, journal: string, year: string, doi: string)
    ensures Contains(LineOf(idx, authors, title, journal, year, doi), "\", " + journal + ", ")
  {
    var line := LineOf(idx, authors, title, journal, year, doi);
    var pre := NatToString(idx) + ". " + authors + ", \"" + title;
    var mid := "\", " + journal + ", ";
    var rest := year + ". DOI: " + doi;
    assert line == pre + mid + rest;
    assert line[|pre|..] == mid + rest;
    assert StartsWith(line[|pre|..], mid);
  }

  /** The lines for `items`, numbered from 1; the first item whose line
      fails makes the whole query fail. */
  function ItemLines(items: seq<Item>): Result<seq<string>, string> {
    NumberedLines(items, ItemLine)
  }

  /** `line(k, item)` for the items numbered from 1, stopping at the first
      error. */
  function NumberedLines(items: seq<Item>, line: (nat, Item) -> Result<string, string>): Result<seq<string>, string>
    decreases |items|
  {
    if items == [] then Ok([])
    else
      match NumberedLines(items[..|items| - 1], line)
      case Err(e) => Err(e)
      case Ok(prev) =>
        match line(|items|, items[|items| - 1])
        case Err(e) => Err(e)
        case Ok(l) => Ok(prev + [l])
  }

  /** When every line can be built, there is one line per item and line
      `j` is item `j`'s, numbered `j + 1`; otherwise some item's line
      fails. */
  lemma ItemLinesFaithful(items: seq<Item>)
    ensures ItemLines(items).Ok? <==> forall j :: 0 <= j < |items| ==> ItemLine(j + 1, items[j]).Ok?
    ensures ItemLines(items).Ok? ==>
      && |ItemLines(items).value| == |items|
      && forall j :: 0 <= j < |items| ==> ItemLines(items).value[j] == ItemLine(j + 1, items[j]).value
  {
    NumberedLinesFaithful(items, ItemLine);
  }

  lemma {:induction false} NumberedLinesFaithful(items: seq<Item>, line: (nat, Item) -> Result<string, string>)
    ensures NumberedLines(items, line).Ok? <==> forall j :: 0 <= j < |items| ==> line(j + 1, items[j]).Ok?
    ensures NumberedLines(items, line).Ok? ==>
      && |NumberedLines(items, line).value| == |items|
      && forall j :: 0 <= j < |items| ==> NumberedLines(items, line).value[j] == line(j + 1, items[j]).value
    decreases |items|
  {
    if items != [] {
      var init, last := items[..|items| - 1], items[|items| - 1];
      NumberedLinesFaithful(init, line);
      var prev := NumberedLines(init, line);
      var l := line(|items|, last);
      if prev.Ok? && l.Ok? {
        var r := prev.value + [l.value];
        assert NumberedLines(items, line) == Ok(r);
        forall j | 0 <= j < |items|
          ensures line(j + 1, items[j]).Ok? && r[j] == line(j + 1, items[j]).value
        {
          if j < |init| {
            assert items[j] == init[j];
            assert r[j] == prev.value[j];
          } else {
            assert items[j] == last;
          }
        }
      } else if prev.Err? {
        assert NumberedLines(items, line).Err?;
        var j :| 0 <= j < |init| && !line(j + 1, init[j]).Ok?;
        assert items[j] == init[j];
      } else {
        assert NumberedLines(items, line).Err?;
        assert items[|init|] == last;
      }
    }
  }

  /** The text the tool returns. */
  function WebSearchText(resp: HttpOutcome): string {
    match resp
    case Raised(m) => UnavailableBecause(m)
    case Status(code, items) =>
      if code != 200 then Unavailable
      else
        match ItemLines(Take(items, MaxItems))
        case Err(e) => UnavailableBecause(e)
        case Ok(lines) => if lines == [] then NoResults else Join("\n", lines)
  }

  /** A successful query shows one line per item, at most five, and says
      "No results found" exactly when there are no items. */
  lemma WebSearchAnswered(items: seq<Item>)
    requires forall j :: 0 <= j < |items| ==> ItemLine(j + 1, items[j]).Ok?
    ensures ItemLines(Take(items, MaxItems)).Ok?
    ensures |ItemLines(Take(items, MaxItems)).value| == Min(5, |items|) <= 5
    ensures WebSearchText(Status(200, items)) == NoResults <==> items == []
  {
    var first := Take(items, MaxItems);
    forall j | 0 <= j < |first| ensures ItemLine(j + 1, first[j]).Ok? {
      assert first[j] == items[j];
    }
    ItemLinesFaithful(first);
    if items != [] {
      var lines := ItemLines(first).value;
      JoinHead("\n", lines);
      ItemLineShape(1, first[0]);
      var t := Join("\n", lines);
      var one := NatToString(1);
      assert IsDigit(one[0]);
      assert lines[0] == ItemLine(1, first[0]).value;
      assert t[0] == lines[0][0] == one[0];
      assert !IsDigit(NoResults[0]);
    }
  }

  // ---------------------------------------------------------------------
  // The tool
  // ---------------------------------------------------------------------

  /** The inner loop: the names of the usable authors among the first
      three. */
  method CollectAuthors(authors: seq<Author>) returns (names: seq<string>)
    ensures names == AuthorNames(Take(authors, MaxAuthors))
  {
    var first := Take(authors, MaxAuthors);
    names := [];
    for i := 0 to |first|
      invariant names == AuthorNames(first[..i])
    {
      assert first[..i + 1][..i] == first[..i];
      var a := first[i];
      if a.given != [] && a.family != [] {
        names := names + [[a.given[0]] + ". " + a.family];
      }
    }
    assert first[..|first|] == first;
  }

  /** `web_search_tool`, given the outcome of the HTTP request. */
  method WebSearchTool(resp: HttpOutcome) returns (out: string)
    ensures out == WebSearchText(resp)
  {
    if resp.Raised? {
      return UnavailableBecause(resp.message);
    }
    if resp.code != 200 {
      return Unavailable;
    }
    var items := Take(resp.items, MaxItems);
    var results: seq<string> := [];
    for idx := 0 to |items|
      invariant ItemLines(items[..idx]) == Ok(results)
    {
      assert items[..idx + 1][..idx] == items[..idx];
      var item := items[idx];
      var year := YearText(item.published);
      if year.Err? {
        assert ItemLines(items[..idx + 1]).Err?;
        ErrorPersists(items, idx + 1);
        return UnavailableBecause(year.error);
      }
      var names := CollectAuthors(item.authors);
      var authorsStr := if names == [] then "Unknown Authors" else Join(", ", names);
      var line := LineOf(idx + 1, authorsStr, TitleText(item), JournalText(item), year.value, DoiText(item));
      results := results + [line];
    }
    assert items[..|items|] == items;
    out := if results == [] then NoResults else Join("\n", results);
  }

  /** Once a prefix of the items fails, the whole list fails with the same
      message. */
  lemma {:induction false} ErrorPersists(items: seq<Item>, n: nat)
    requires n <= |items| && ItemLines(items[..n]).Err?
    ensures ItemLines(items) == ItemLines(items[..n])
    decreases |items| - n
  {
    if n < |items| {
      assert items[..n + 1][..n] == items[..n];
      ErrorPersists(items, n + 1);
    } else {
      assert items[..n] == items;
    }
  }
}
