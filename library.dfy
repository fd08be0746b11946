/** The library page (app.py:757-805) and the two form rules (app.py:675-691, 846-849):
    the tag list offered for filtering, the keyword, tag and category filters, and how
    a registration or an edit turns form input into sheet writes. */
module Library {
  import opened Options
  import opened Seqs
  import opened Text
  import opened Books

  // ---- The tag list (app.py:762-767) ----

  /** The union of `f` over the elements of `xs`, taken left to right. */
  function UnionOf<T, U>(xs: seq<T>, f: T -> set<U>): set<U>
    decreases |xs|
  {
    if xs == [] then {} else UnionOf(xs[..|xs| - 1], f) + f(xs[|xs| - 1])
  }

  /** An element is in the union exactly when one of the parts holds it. */
  lemma {:induction false} UnionOfSpec<T, U>(xs: seq<T>, f: T -> set<U>, u: U)
    ensures u in UnionOf(xs, f) <==> exists k :: 0 <= k < |xs| && u in f(xs[k])
    decreases |xs|
  {
    if xs != [] {
      var init := xs[..|xs| - 1];
      UnionOfSpec(init, f, u);
      if exists k :: 0 <= k < |xs| && u in f(xs[k]) {
        var k :| 0 <= k < |xs| && u in f(xs[k]);
        if k < |init| {
          assert init[k] == xs[k];
        }
      }
      if exists k :: 0 <= k < |init| && u in f(init[k]) {
        var k :| 0 <= k < |init| && u in f(init[k]);
        assert xs[k] == init[k];
      }
    }
  }

  /** The tag one comma-separated piece contributes: its stripped text, if not empty. */
  function PieceTag(piece: string): set<string> {
    var t := Strip(piece);
    if t != "" then {t} else {}
  }

  /** The tags one `tags` cell contributes; an empty cell is dropped by `dropna`. */
  function TagsOfCell(c: Cell): set<string> {
    match c
    case Blank => {}
    case Str(s) => UnionOf(Split(s, ','), PieceTag)
  }

  function RowTags(r: Row): set<string> {
    TagsOfCell(r.tags)
  }

  /** The tags of all rows. */
  function AllTags(rows: seq<Row>): set<string> {
    UnionOf(rows, RowTags)
  }

  /** The nested loop of app.py:763-767 that fills `all_tags`. */
  method CollectTags(rows: seq<Row>) returns (all: set<string>)
    ensures all == AllTags(rows)
  {
    all := {};
    for i := 0 to |rows|
      invariant all == UnionOf(rows[..i], RowTags)
    {
      assert rows[..i + 1][..i] == rows[..i];
      match rows[i].tags
      case Blank =>
      case Str(text) =>
        var pieces := Split(text, ',');
        for j := 0 to |pieces|
          invariant all == UnionOf(rows[..i], RowTags) + UnionOf(pieces[..j], PieceTag)
        {
          assert pieces[..j + 1][..j] == pieces[..j];
          var t := Strip(pieces[j]);
          if t != "" {
            all := all + {t};
          }
        }
        assert pieces[..|pieces|] == pieces;
    }
    assert rows[..|rows|] == rows;
  }

  /** Every tag of one cell's text is the stripped text of a piece between its commas,
      is not empty, is already stripped and holds no comma. */
  lemma TextTagsSpec(text: string, t: string)
    ensures t in TagsOfCell(Str(text)) ==>
              && (exists k :: 0 <= k < |Split(text, ',')| && t == Strip(Split(text, ',')[k]))
              && t != "" && Strip(t) == t && ',' !in t
  {
    var pieces := Split(text, ',');
    UnionOfSpec(pieces, PieceTag, t);
    if t in TagsOfCell(Str(text)) {
      var k :| 0 <= k < |pieces| && t in PieceTag(pieces[k]);
      TagOfPiece(pieces[k], t);
    }
  }

  /** Conversely every non-empty stripped piece of a cell's text is one of its tags. */
  lemma EveryPieceIsTag(text: string, k: nat)
    requires k < |Split(text, ',')| && Strip(Split(text, ',')[k]) != ""
    ensures Strip(Split(text, ',')[k]) in TagsOfCell(Str(text))
  {
    var pieces := Split(text, ',');
    assert Strip(pieces[k]) in PieceTag(pieces[k]);
    UnionOfSpec(pieces, PieceTag, Strip(pieces[k]));
  }

  /** The tag of a piece without commas is stripped and has no comma. */
  lemma TagOfPiece(piece: string, t: string)
    requires ',' !in piece && t in PieceTag(piece)
    ensures t == Strip(piece) && t != "" && Strip(t) == t && ',' !in t
  {
    StripIdempotent(piece);
    assert Trimmed(piece, t, SpanStart(piece));
  }

  /** The offered tags are those of the rows' text cells, each non-empty, stripped and
      free of commas; a row whose `tags` cell is empty contributes none. */
  lemma TagListSpec(rows: seq<Row>, t: string)
    ensures t in AllTags(rows) <==> exists i :: 0 <= i < |rows| && rows[i].tags.Str? && t in TagsOfCell(rows[i].tags)
    ensures t in AllTags(rows) ==> t != "" && Strip(t) == t && ',' !in t
  {
    UnionOfSpec(rows, RowTags, t);
    if t in AllTags(rows) {
      var i :| 0 <= i < |rows| && t in RowTags(rows[i]);
      TextTagsSpec(rows[i].tags.s, t);
    }
  }

  // ---- The filters (app.py:782-805) ----

  /** has_any_tag (app.py:796-799): a non-text cell never matches; otherwise some
      stripped piece, empty pieces included, is one of the targets. */
  predicate HasAnyTag(c: Cell, targets: seq<string>) {
    match c
    case Blank => false
    case Str(s) => exists p :: p in Split(s, ',') && Strip(p) in targets
  }

  /** With no empty target, which the tag list never offers, has_any_tag holds exactly
      when the row has one of the targets among its tags. */
  lemma HasAnyTagSpec(c: Cell, targets: seq<string>)
    requires "" !in targets
    ensures HasAnyTag(c, targets) <==> exists t :: t in TagsOfCell(c) && t in targets
  {
    if c.Str? {
      var pieces := Split(c.s, ',');
      if HasAnyTag(c, targets) {
        var p :| p in pieces && Strip(p) in targets;
        var k :| 0 <= k < |pieces| && pieces[k] == p;
        UnionOfSpec(pieces, PieceTag, Strip(p));
      }
      if exists t :: t in TagsOfCell(c) && t in targets {
        var t :| t in TagsOfCell(c) && t in targets;
        UnionOfSpec(pieces, PieceTag, t);
      }
    }
  }

  /** `column.str.contains(q, case=False, na=False)`, as a literal match under ASCII case
      folding; an empty cell does not match. */
  predicate CellContains(c: Cell, q: string) {
    c.Str? && IsSubstring(Lower(q), Lower(c.s))
  }

  /** The keyword mask of app.py:785-792. */
  predicate MatchesQuery(r: Row, q: string) {
    CellContains(r.title, q) || CellContains(r.author, q) || CellContains(r.tags, q) || CellContains(r.notes, q)
  }

  /** `category.isin(filter_cats)`: an empty cell is in no list. */
  predicate InCategories(r: Row, cats: seq<string>) {
    r.category.Str? && r.category.s in cats
  }

  function QueryFilter(q: string): Row -> bool {
    (r: Row) => MatchesQuery(r, q)
  }

  function TagFilter(tags: seq<string>): Row -> bool {
    (r: Row) => HasAnyTag(r.tags, tags)
  }

  function CategoryFilter(cats: seq<string>): Row -> bool {
    (r: Row) => InCategories(r, cats)
  }

  /** `df = df[mask]` under `if on:`. */
  function Narrow<T>(xs: seq<T>, on: bool, p: T -> bool): seq<T> {
    if on then Keep(xs, p) else xs
  }

  /** The rows shown after the keyword, tag and category filters (app.py:782-805); an
      empty keyword or an empty selection leaves its filter off. */
  function LibraryView(rows: seq<Row>, q: string, tags: seq<string>, cats: seq<string>): seq<Row> {
    Narrow(Narrow(Narrow(rows, q != "", QueryFilter(q)), tags != [], TagFilter(tags)), cats != [], CategoryFilter(cats))
  }

  /** A row stays in view when it passes every filter that is on. */
  predicate Shown(r: Row, q: string, tags: seq<string>, cats: seq<string>) {
    && (q == "" || MatchesQuery(r, q))
    && (tags == [] || HasAnyTag(r.tags, tags))
    && (cats == [] || InCategories(r, cats))
  }

  function ShownFilter(q: string, tags: seq<string>, cats: seq<string>): Row -> bool {
    (r: Row) => Shown(r, q, tags, cats)
  }

  /** Three filters applied one after another are one filter by their conjunction. */
  lemma NarrowChain<T>(xs: seq<T>, onA: bool, a: T -> bool, onB: bool, b: T -> bool,
                       onC: bool, c: T -> bool, all: T -> bool)
    requires forall x :: all(x) == ((!onA || a(x)) && (!onB || b(x)) && (!onC || c(x)))
    ensures Narrow(Narrow(Narrow(xs, onA, a), onB, b), onC, c) == Keep(xs, all)
  {
    var pa := (x: T) => !onA || a(x);
    var pb := (x: T) => !onB || b(x);
    var pc := (x: T) => !onC || c(x);
    var pab := (x: T) => pa(x) && pb(x);
    var s1 := Narrow(xs, onA, a);
    var s2 := Narrow(s1, onB, b);
    if onA { KeepExt(xs, a, pa); } else { KeepAll(xs, pa); }
    if onB { KeepExt(s1, b, pb); } else { KeepAll(s1, pb); }
    KeepKeep(xs, pa, pb, pab);
    if onC { KeepExt(s2, c, pc); } else { KeepAll(s2, pc); }
    KeepKeep(xs, pab, pc, all);
  }

  /** The three filters together are one filter by `Shown`: they only narrow the rows,
      keep their order, and drop no row that passes them all. */
  lemma LibraryViewSpec(rows: seq<Row>, q: string, tags: seq<string>, cats: seq<string>)
    ensures var v := LibraryView(rows, q, tags, cats);
            && v == Keep(rows, ShownFilter(q, tags, cats))
            && IsSubsequence(v, rows)
            && (forall i :: 0 <= i < |v| ==> Shown(v[i], q, tags, cats))
            && (forall i :: 0 <= i < |rows| && Shown(rows[i], q, tags, cats) ==> rows[i] in v)
  {
    NarrowChain(rows, q != "", QueryFilter(q), tags != [], TagFilter(tags), cats != [], CategoryFilter(cats),
                ShownFilter(q, tags, cats));
  }

  /** No cell of the column holds text. pandas reads such a column as floats, and its
      `.str` accessor then raises. */
  predicate Textless(cells: seq<Cell>) {
    forall i :: 0 <= i < |cells| ==> cells[i].Blank?
  }

  function Titles(rows: seq<Row>): seq<Cell> { seq(|rows|, i requires 0 <= i < |rows| => rows[i].title) }
  function Authors(rows: seq<Row>): seq<Cell> { seq(|rows|, i requires 0 <= i < |rows| => rows[i].author) }
  function TagCells(rows: seq<Row>): seq<Cell> { seq(|rows|, i requires 0 <= i < |rows| => rows[i].tags) }
  function Notes(rows: seq<Row>): seq<Cell> { seq(|rows|, i requires 0 <= i < |rows| => rows[i].notes) }

  /** The keyword mask of app.py:785-792 raises: the table is not empty, the keyword is on,
      and one of the four columns it reads holds no text. */
  predicate SearchRaises(rows: seq<Row>, q: string) {
    && rows != [] && q != ""
    && (Textless(Titles(rows)) || Textless(Authors(rows)) || Textless(TagCells(rows)) || Textless(Notes(rows)))
  }

  /** The keyword leaves no row while the tag and category filters are both on. The tag
      mask that `apply` builds over the empty frame (app.py:801) has the column's object
      type rather than a boolean one, so pandas takes it for a list of column labels and
      the frame loses every column. `df['category']` at app.py:805 then raises `KeyError`. */
  predicate CategoryLookupRaises(rows: seq<Row>, q: string, tags: seq<string>, cats: seq<string>) {
    && rows != [] && q != "" && tags != [] && cats != []
    && (forall i :: 0 <= i < |rows| ==> !MatchesQuery(rows[i], q))
  }

  /** The rows the library page lists (app.py:782-805), or `None` when a filter raises;
      nothing handles either exception, so the page fails. An empty table is listed as it
      is, with no filter applied. */
  function LibraryPage(rows: seq<Row>, q: string, tags: seq<string>, cats: seq<string>): (r: Option<seq<Row>>)
    ensures r.None? <==> SearchRaises(rows, q) || CategoryLookupRaises(rows, q, tags, cats)
    ensures r.Some? ==> IsSubsequence(r.value, rows)
    ensures r.Some? ==> forall i :: 0 <= i < |r.value| ==> Shown(r.value[i], q, tags, cats)
    ensures r.Some? ==> forall i :: 0 <= i < |rows| && Shown(rows[i], q, tags, cats) ==> rows[i] in r.value
  {
    if rows == [] then Some([])
    else if SearchRaises(rows, q) || CategoryLookupRaises(rows, q, tags, cats) then None
    else
      LibraryViewSpec(rows, q, tags, cats);
      Some(LibraryView(rows, q, tags, cats))
  }

  /** A table none of whose books has notes, as when every book was registered from a
      lookup, which clears the notes: every non-empty keyword makes the page fail. */
  lemma NoNotesBreaksSearch(rows: seq<Row>, q: string, tags: seq<string>, cats: seq<string>)
    requires rows != [] && q != ""
    requires forall i :: 0 <= i < |rows| ==> rows[i].notes.Blank?
    ensures LibraryPage(rows, q, tags, cats) == None
  {
    assert Textless(Notes(rows));
  }

  /** A keyword that matches no book lists no book when the category filter is off, and
      makes the page fail when both the tag and the category filters are on. */
  lemma UnmatchedKeyword(rows: seq<Row>, q: string, tags: seq<string>, cats: seq<string>)
    requires q != "" && !SearchRaises(rows, q)
    requires forall i :: 0 <= i < |rows| ==> !MatchesQuery(rows[i], q)
    ensures LibraryPage(rows, q, tags, []) == Some([])
    ensures rows != [] && tags != [] && cats != [] ==> LibraryPage(rows, q, tags, cats) == None
  {
  }

  /** Filters that agree on every element keep the same elements. */
  lemma {:induction false} KeepExt<T>(xs: seq<T>, p: T -> bool, q: T -> bool)
    requires forall x :: p(x) == q(x)
    ensures Keep(xs, p) == Keep(xs, q)
    decreases |xs|
  {
    if xs != [] {
      KeepExt(xs[1..], p, q);
    }
  }

  lemma LowerIdempotent(s: string)
    ensures Lower(Lower(s)) == Lower(s)
  {
  }

  /** The keyword search ignores the case of the keyword, and a row whose title holds
      the keyword literally is found. */
  lemma SearchIgnoresCase(r: Row, q: string)
    ensures MatchesQuery(r, Lower(q)) <==> MatchesQuery(r, q)
    ensures r.title.Str? && IsSubstring(q, r.title.s) ==> MatchesQuery(r, q)
  {
    LowerIdempotent(q);
    if r.title.Str? && IsSubstring(q, r.title.s) {
      var i: nat :| OccursAt(q, r.title.s, i);
      LowerOccurs(q, r.title.s, i);
    }
  }

  lemma LowerOccurs(p: string, s: string, i: nat)
    requires OccursAt(p, s, i)
    ensures OccursAt(Lower(p), Lower(s), i)
  {
    assert Lower(s)[i..i + |p|] == Lower(p) by {
      assert s[i..i + |p|] == p;
      forall k | 0 <= k < |p| ensures Lower(s)[i..i + |p|][k] == Lower(p)[k] {
        assert s[i + k] == p[k];
      }
    }
  }

  // ---- The form rules ----

  /** A read date is kept only for a book marked read (app.py:681-682, 847-848). */
  function ReadDateFor(status: string, date: string): (d: string)
    ensures d != "" ==> status == "読了" && d == date
    ensures status == "読了" ==> d == date
  {
    if status == "読了" then date else ""
  }

  /** The registration form (app.py:654-673): the field values, the optional new
      category and the chosen date, already formatted as `%Y-%m-%d`. */
  datatype Form = Form(
    title: string, author: string, category: string, tags: string, status: string,
    notes: string, coverUrl: string, isbn: string, newCategory: string, date: string)

  /** The entry a submitted form adds: the new category replaces the chosen one when it
      is given, and the date is kept only for a read book. */
  function EntryOf(f: Form): (e: Entry)
    ensures e.category == (if f.newCategory != "" then f.newCategory else f.category)
    ensures e.readDate == ReadDateFor(f.status, f.date)
    ensures e.title == f.title && e.isbn == f.isbn && e.status == f.status && e.coverUrl == f.coverUrl
    ensures e.author == f.author && e.tags == f.tags && e.notes == f.notes
  {
    Entry(f.title, f.author, if f.newCategory != "" then f.newCategory else f.category,
          f.tags, f.status, f.notes, f.coverUrl, ReadDateFor(f.status, f.date), f.isbn)
  }

  /** Submitting the registration form (app.py:675-691): without a title nothing is
      written; otherwise the new category, if any, is added first and then the book. */
  method Register(db: Sheets, f: Form, now: string) returns (added: bool)
    modifies db
    ensures added <==> f.title != ""
    ensures !added ==> db.books == old(db.books) && db.categories == old(db.categories)
    ensures added ==> db.books == AfterAdd(old(db.books), EntryOf(f), now)
    ensures added ==> db.categories == old(db.categories) + (if f.newCategory != "" then [f.newCategory] else [])
  {
    if f.title == "" {
      return false;
    }
    var finalCat := f.category;
    if f.newCategory != "" {
      var ok := db.AddCategory(f.newCategory);
      if ok {
        finalCat := f.newCategory;
      }
    }
    var readDate := ReadDateFor(f.status, f.date);
    db.AddBook(Entry(f.title, f.author, finalCat, f.tags, f.status, f.notes, f.coverUrl, readDate, f.isbn), now);
    added := true;
  }

  /** Saving the edit form of a listed row (app.py:846-849): the row's fields are replaced
      through update_book, with the date kept only for a read book. */
  method SaveEdit(db: Sheets, id: int, title: string, author: string, category: string,
                  tags: string, status: string, notes: string, date: string)
    modifies db
    ensures db.books == AfterUpdate(old(db.books), id, Edit(title, author, category, tags, status, notes, ReadDateFor(status, date)))
    ensures db.categories == old(db.categories)
  {
    var readDate := ReadDateFor(status, date);
    db.UpdateBook(id, Edit(title, author, category, tags, status, notes, readDate));
  }
}
