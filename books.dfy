/** The `books` and `categories` worksheets and the operations of app.py:203-320 that
    read and rewrite them. A worksheet is held as the sequence of its rows; every
    operation reads the whole sheet, changes it and writes the whole sheet back. */
module Books {
  import opened Options
  import opened Seqs
  import opened Text
  import Isbn

  // ---- Cells and rows ----

  /** A text cell as the sheet hands it over: a string, or empty (`NaN`). */
  datatype Cell = Str(s: string) | Blank

  /** An `id` cell: an integer, a floating-point number, some text, or empty. */
  datatype IdCell = Whole(n: int) | Decimal(x: real) | Numeral(text: string) | Missing

  /** One row of the `books` sheet, with the columns of app.py:208. `isbn` is the cell
      already rendered by `astype(str)`. */
  datatype Row = Row(
    id: IdCell, title: Cell, author: Cell, category: Cell, tags: Cell, status: Cell,
    notes: Cell, coverUrl: Cell, readDate: Cell, isbn: string, createdAt: Cell)

  /** The arguments of add_book (app.py:259). */
  datatype Entry = Entry(
    title: string, author: string, category: string, tags: string, status: string,
    notes: string, coverUrl: string, readDate: string, isbn: string)

  /** The arguments of update_book after the id (app.py:286). */
  datatype Edit = Edit(
    title: string, author: string, category: string, tags: string, status: string,
    notes: string, readDate: string)

  // ---- Id coercion: pd.to_numeric(errors='coerce').fillna(0).astype(int) ----

  /** `astype(int)` on a float: truncation toward zero. */
  function Truncate(x: real): (n: int)
    ensures 0.0 <= x ==> 0 <= n && n as real <= x < n as real + 1.0
    ensures x < 0.0 ==> n <= 0 && n as real - 1.0 < x <= n as real
  {
    if x >= 0.0 then x.Floor else -((-x).Floor)
  }

  /** The value of a string of decimal digits. */
  function NatValue(d: string): nat
    requires AllDigits(d)
    decreases |d|
  {
    if d == [] then 0
    else
      Isbn.PrefixDigits(d, |d| - 1);
      NatValue(d[..|d| - 1]) * 10 + Isbn.DigitValue(d[|d| - 1])
  }

  /** The integer an optionally signed numeral such as `"42"`, `"-7"` or `"+3"` denotes. */
  function ParseInt(t: string): Option<int> {
    if |t| > 1 && (t[0] == '-' || t[0] == '+') && AllDigits(t[1..]) then
      Some(if t[0] == '-' then -(NatValue(t[1..]) as int) else NatValue(t[1..]))
    else if |t| > 0 && AllDigits(t) then Some(NatValue(t))
    else None
  }

  /** The id of a row after coercion: integers as they are, floats truncated, numerals
      parsed, and everything unparseable or empty 0. */
  function CoerceId(c: IdCell): int {
    match c
    case Whole(n) => n
    case Decimal(x) => Truncate(x)
    case Numeral(t) => ParseInt(t).GetOr(0)
    case Missing => 0
  }

  /** The decimal rendering of a natural number, as `str(n)` writes it. */
  function NatText(n: nat): (d: string)
    ensures |d| > 0 && AllDigits(d)
    decreases n
  {
    if n < 10 then [('0' as int + n) as char]
    else NatText(n / 10) + [('0' as int + n % 10) as char]
  }

  /** `str(n)` for an integer. */
  function IntText(n: int): string {
    if n < 0 then "-" + NatText(-n) else NatText(n)
  }

  lemma {:induction false} NatTextValue(n: nat)
    ensures NatValue(NatText(n)) == n
    decreases n
  {
    if n >= 10 {
      NatTextValue(n / 10);
      var d := NatText(n);
      assert d[..|d| - 1] == NatText(n / 10);
    }
  }

  /** Coercion recovers every integer id, whether the sheet hands it back as an
      integer, as a float or as its text; empty and unparseable cells become 0. */
  lemma CoerceIdSpec(n: int, t: string)
    ensures CoerceId(Whole(n)) == n
    ensures CoerceId(Decimal(n as real)) == n
    ensures CoerceId(Numeral(IntText(n))) == n
    ensures CoerceId(Missing) == 0
    ensures ParseInt(t).None? ==> CoerceId(Numeral(t)) == 0
  {
    if n < 0 {
      ParseNegative(-n);
    } else {
      ParseNatural(n);
    }
  }

  lemma ParseNatural(m: nat)
    ensures ParseInt(NatText(m)) == Some(m as int)
  {
    NatTextValue(m);
    assert IsDigit(NatText(m)[0]);
  }

  lemma ParseNegative(m: nat)
    requires m > 0
    ensures ParseInt("-" + NatText(m)) == Some(-(m as int))
  {
    NatTextValue(m);
    var t := "-" + NatText(m);
    assert t[1..] == NatText(m);
  }

  // ---- ISBN clean-up: str.replace(r'\.0$', '', regex=True) ----

  predicate EndsWith(s: string, suffix: string) {
    |suffix| <= |s| && s[|s| - |suffix|..] == suffix
  }

  /** Drops a `.0` at the end of the rendered cell, or just before a final newline, where
      a Python `$` also matches. The two places cannot both hold a match. */
  function DropPointZero(s: string): (r: string)
    ensures EndsWith(s, ".0") ==> s == r + ".0"
    ensures EndsWith(s, ".0\n") ==> |r| == |s| - 2 && s == r[..|r| - 1] + ".0\n" && r[|r| - 1] == '\n'
    ensures !EndsWith(s, ".0") && !EndsWith(s, ".0\n") ==> r == s
  {
    if EndsWith(s, ".0") then
      assert s[|s| - 2..][1] == s[|s| - 1];
      s[..|s| - 2]
    else if EndsWith(s, ".0\n") then s[..|s| - 3] + "\n"
    else s
  }

  /** A float ISBN rendered as `9784798132646.0` comes back as its digits, and a cell
      that is already a digit string is left alone. */
  lemma DropPointZeroSpec(d: string)
    requires AllDigits(d)
    ensures DropPointZero(d + ".0") == d
    ensures DropPointZero(d) == d
  {
    var f := d + ".0";
    assert f[|f| - 2..] == ".0";
    if |d| >= 2 {
      assert IsDigit(d[|d| - 2]);
      assert d[|d| - 2..][0] == d[|d| - 2];
    }
    if |d| >= 3 {
      assert IsDigit(d[|d| - 1]);
      assert d[|d| - 3..][2] == d[|d| - 1];
    }
  }

  // ---- The sort by created_at, newest first ----

  /** Python's `<` on strings: code point by code point, a proper prefix first. */
  predicate StrLess(a: string, b: string)
    decreases |a|
  {
    |b| > 0 && (|a| == 0 || a[0] < b[0] || (a[0] == b[0] && StrLess(a[1..], b[1..])))
  }

  lemma {:induction false} StrLessTransitive(a: string, b: string, c: string)
    requires StrLess(a, b) && StrLess(b, c)
    ensures StrLess(a, c)
    decreases |a|
  {
    if |a| > 0 && a[0] == b[0] && b[0] == c[0] {
      StrLessTransitive(a[1..], b[1..], c[1..]);
    }
  }

  lemma {:induction false} StrLessAsymmetric(a: string, b: string)
    requires StrLess(a, b)
    ensures !StrLess(b, a)
    decreases |a|
  {
    if |a| > 0 && a[0] == b[0] {
      StrLessAsymmetric(a[1..], b[1..]);
    }
  }

  /** In `sort_values("created_at", ascending=False)`, timestamp `a` goes strictly before
      timestamp `b`: a later string first, and empty cells last. */
  predicate Newer(a: Cell, b: Cell) {
    match a
    case Blank => false
    case Str(x) => b.Blank? || StrLess(b.s, x)
  }

  lemma NewerAsymmetric(a: Cell, b: Cell)
    requires Newer(a, b)
    ensures !Newer(b, a)
  {
    if b.Str? {
      StrLessAsymmetric(b.s, a.s);
    }
  }

  lemma NewerTransitive(a: Cell, b: Cell, c: Cell)
    requires Newer(a, b) && Newer(b, c)
    ensures Newer(a, c)
  {
    if c.Str? {
      StrLessTransitive(c.s, b.s, a.s);
    }
  }

  /** No row is followed by a strictly newer one. */
  predicate NewestFirst(rows: seq<Row>) {
    forall i, j :: 0 <= i < j < |rows| ==> !Newer(rows[j].createdAt, rows[i].createdAt)
  }

  /** Inserts `x` before the first row it is strictly newer than, after every row it ties
      with. */
  function Insert(s: seq<Row>, x: Row): seq<Row>
    decreases |s|
  {
    if s == [] then [x]
    else if Newer(x.createdAt, s[0].createdAt) then [x] + s
    else [s[0]] + Insert(s[1..], x)
  }

  /** A stable insertion sort, newest first. */
  function SortNewestFirst(xs: seq<Row>): seq<Row>
    decreases |xs|
  {
    if xs == [] then [] else Insert(SortNewestFirst(xs[..|xs| - 1]), xs[|xs| - 1])
  }

  lemma ConsNewestFirst(y: Row, t: seq<Row>)
    requires NewestFirst(t)
    requires forall j :: 0 <= j < |t| ==> !Newer(t[j].createdAt, y.createdAt)
    ensures NewestFirst([y] + t)
  {
    var r := [y] + t;
    forall i, j | 0 <= i < j < |r| ensures !Newer(r[j].createdAt, r[i].createdAt) {
      assert r[j] == t[j - 1];
      if i > 0 {
        assert r[i] == t[i - 1];
      }
    }
  }

  lemma {:induction false} InsertSpec(s: seq<Row>, x: Row)
    requires NewestFirst(s)
    ensures NewestFirst(Insert(s, x))
    ensures multiset(Insert(s, x)) == multiset(s) + multiset{x}
    decreases |s|
  {
    if s == [] {
    } else if Newer(x.createdAt, s[0].createdAt) {
      forall j | 0 <= j < |s| ensures !Newer(s[j].createdAt, x.createdAt) {
        NewerAsymmetric(x.createdAt, s[0].createdAt);
        if j > 0 && Newer(s[j].createdAt, x.createdAt) {
          NewerTransitive(s[j].createdAt, x.createdAt, s[0].createdAt);
        }
      }
      ConsNewestFirst(x, s);
    } else {
      var t := Insert(s[1..], x);
      assert NewestFirst(s[1..]) by {
        forall i, j | 0 <= i < j < |s[1..]| ensures !Newer(s[1..][j].createdAt, s[1..][i].createdAt) {
          assert s[1..][j] == s[j + 1] && s[1..][i] == s[i + 1];
        }
      }
      InsertSpec(s[1..], x);
      forall j | 0 <= j < |t| ensures !Newer(t[j].createdAt, s[0].createdAt) {
        assert t[j] in multiset(s[1..]) + multiset{x};
        if t[j] != x {
          assert t[j] in s[1..];
          var k :| 0 <= k < |s[1..]| && s[1..][k] == t[j];
          assert s[k + 1] == t[j];
        }
      }
      ConsNewestFirst(s[0], t);
      assert s == [s[0]] + s[1..];
    }
  }

  /** The sort orders newest first and only reorders. */
  lemma {:induction false} SortSpec(xs: seq<Row>)
    ensures NewestFirst(SortNewestFirst(xs))
    ensures multiset(SortNewestFirst(xs)) == multiset(xs)
    ensures |SortNewestFirst(xs)| == |xs|
    decreases |xs|
  {
    if xs != [] {
      var init, last := xs[..|xs| - 1], xs[|xs| - 1];
      var sorted := SortNewestFirst(init);
      SortSpec(init);
      InsertSpec(sorted, last);
      assert xs == init + [last];
      calc {
        multiset(SortNewestFirst(xs));
        multiset(Insert(sorted, last));
        multiset(sorted) + multiset{last};
        multiset(init) + multiset([last]);
        multiset(xs);
      }
      assert |SortNewestFirst(xs)| == |multiset(xs)|;
    }
  }

  lemma {:induction false} InsertAtEnd(s: seq<Row>, x: Row)
    requires forall i :: 0 <= i < |s| ==> !Newer(x.createdAt, s[i].createdAt)
    ensures Insert(s, x) == s + [x]
    decreases |s|
  {
    if s != [] {
      InsertAtEnd(s[1..], x);
    }
  }

  /** Rows already newest first keep their order: a sheet written back by an update
      reads back in the same order. */
  lemma {:induction false} SortKeepsSorted(xs: seq<Row>)
    requires NewestFirst(xs)
    ensures SortNewestFirst(xs) == xs
    decreases |xs|
  {
    if xs != [] {
      var init := xs[..|xs| - 1];
      assert NewestFirst(init) by {
        forall i, j | 0 <= i < j < |init| ensures !Newer(init[j].createdAt, init[i].createdAt) {
          assert init[j] == xs[j] && init[i] == xs[i];
        }
      }
      SortKeepsSorted(init);
      forall i | 0 <= i < |init| ensures !Newer(xs[|xs| - 1].createdAt, init[i].createdAt) {
        assert init[i] == xs[i];
      }
      InsertAtEnd(init, xs[|xs| - 1]);
      assert xs == init + [xs[|xs| - 1]];
    }
  }

  // ---- get_books ----

  /** One row after the id coercion and the ISBN clean-up. */
  function CleanRow(r: Row): Row {
    r.(id := Whole(CoerceId(r.id)), isbn := DropPointZero(r.isbn))
  }

  function CleanAll(rows: seq<Row>): seq<Row> {
    seq(|rows|, i requires 0 <= i < |rows| => CleanRow(rows[i]))
  }

  /** What get_books returns for the sheet `rows`. The id coercion and the ISBN clean-up
      act on single rows and leave `created_at` alone, so applying both before the sort is
      the same as sorting between them. */
  function CleanedBooks(rows: seq<Row>): seq<Row> {
    if rows == [] then [] else SortNewestFirst(CleanAll(rows))
  }

  /** get_books returns the same rows, each cleaned, newest first: every id an integer,
      and a row for row permutation of the cleaned sheet. */
  lemma CleanedBooksSpec(rows: seq<Row>)
    ensures var b := CleanedBooks(rows);
            && |b| == |rows|
            && NewestFirst(b)
            && multiset(b) == multiset(CleanAll(rows))
            && forall i :: 0 <= i < |b| ==> b[i].id.Whole? && exists k :: 0 <= k < |rows| && b[i] == CleanRow(rows[k])
  {
    var b := CleanedBooks(rows);
    SortSpec(CleanAll(rows));
    forall i | 0 <= i < |b| ensures b[i].id.Whole? && exists k :: 0 <= k < |rows| && b[i] == CleanRow(rows[k]) {
      assert b[i] in multiset(CleanAll(rows));
      var k :| 0 <= k < |CleanAll(rows)| && CleanAll(rows)[k] == b[i];
      assert b[i] == CleanRow(rows[k]);
    }
  }

  // ---- add_book ----

  /** The largest coerced id. */
  function MaxId(rows: seq<Row>): (m: int)
    requires rows != []
    ensures forall i :: 0 <= i < |rows| ==> CoerceId(rows[i].id) <= m
    ensures exists i :: 0 <= i < |rows| && CoerceId(rows[i].id) == m
    decreases |rows|
  {
    if |rows| == 1 then CoerceId(rows[0].id)
    else
      var rest := MaxId(rows[1..]);
      assert forall i :: 1 <= i < |rows| ==> rows[i] == rows[1..][i - 1];
      if CoerceId(rows[0].id) >= rest then CoerceId(rows[0].id) else rest
  }

  /** The id add_book gives a new row (app.py:263-267): 1 for an empty sheet, otherwise
      one more than the largest id, so it is larger than every id present. */
  function NextId(rows: seq<Row>): (n: int)
    ensures rows == [] ==> n == 1
    ensures forall i :: 0 <= i < |rows| ==> CoerceId(rows[i].id) < n
    ensures rows != [] ==> exists i :: 0 <= i < |rows| && CoerceId(rows[i].id) == n - 1
  {
    if rows == [] then 1 else MaxId(rows) + 1
  }

  function NewRow(id: int, e: Entry, now: string): Row {
    Row(Whole(id), Str(e.title), Str(e.author), Str(e.category), Str(e.tags), Str(e.status),
        Str(e.notes), Str(e.coverUrl), Str(e.readDate), e.isbn, Str(now))
  }

  /** The sheet add_book writes: what get_books returned, then the new row. */
  function AfterAdd(rows: seq<Row>, e: Entry, now: string): seq<Row> {
    var books := CleanedBooks(rows);
    books + [NewRow(NextId(books), e, now)]
  }

  /** No two rows share an id. */
  predicate DistinctIds(rows: seq<Row>) {
    forall i, j :: 0 <= i < j < |rows| ==> CoerceId(rows[i].id) != CoerceId(rows[j].id)
  }

  /** add_book keeps every row get_books returned, in order, and appends one row that
      holds the entry and a fresh id; ids that were distinct stay distinct. */
  lemma AddAppendsFreshRow(rows: seq<Row>, e: Entry, now: string)
    ensures var after := AfterAdd(rows, e, now);
            var books := CleanedBooks(rows);
            && |after| == |rows| + 1
            && after[..|rows|] == books
            && after[|rows|] == NewRow(CoerceId(after[|rows|].id), e, now)
            && (forall i :: 0 <= i < |rows| ==> CoerceId(after[i].id) < CoerceId(after[|rows|].id))
            && (DistinctIds(books) ==> DistinctIds(after))
  {
    CleanedBooksSpec(rows);
    var after := AfterAdd(rows, e, now);
    var books := CleanedBooks(rows);
    assert forall i :: 0 <= i < |books| ==> after[i] == books[i];
  }

  // ---- update_book, update_book_cover ----

  /** The position of the first row whose coerced id is `id`. */
  function FirstWithId(rows: seq<Row>, id: int): (k: Option<nat>)
    ensures k.None? <==> forall i :: 0 <= i < |rows| ==> CoerceId(rows[i].id) != id
    ensures k.Some? ==> k.value < |rows| && CoerceId(rows[k.value].id) == id
                        && forall i :: 0 <= i < k.value ==> CoerceId(rows[i].id) != id
    decreases |rows|
  {
    if rows == [] then None
    else if CoerceId(rows[0].id) == id then Some(0)
    else
      var k := FirstWithId(rows[1..], id);
      assert forall i :: 1 <= i < |rows| ==> rows[i] == rows[1..][i - 1];
      if k.Some? then Some(k.value + 1) else None
  }

  function Edited(r: Row, edit: Edit): Row {
    r.(title := Str(edit.title), author := Str(edit.author), category := Str(edit.category),
       tags := Str(edit.tags), status := Str(edit.status), notes := Str(edit.notes),
       readDate := Str(edit.readDate))
  }

  /** The sheet after update_book: the first row with the id edited in the cleaned
      table; with no such row nothing is written and the sheet stays as it was. */
  function AfterUpdate(rows: seq<Row>, id: int, edit: Edit): seq<Row> {
    var books := CleanedBooks(rows);
    match FirstWithId(books, id)
    case None => rows
    case Some(k) => books[k := Edited(books[k], edit)]
  }

  /** The sheet after update_book_cover, under the same rule. */
  function AfterCover(rows: seq<Row>, id: int, url: string): seq<Row> {
    var books := CleanedBooks(rows);
    match FirstWithId(books, id)
    case None => rows
    case Some(k) => books[k := books[k].(coverUrl := Str(url))]
  }

  /** update_book edits exactly one row, the first with the id, and keeps its id, cover,
      ISBN and timestamp; a later row with the same id is not touched. */
  lemma UpdateEditsFirstMatch(rows: seq<Row>, id: int, edit: Edit)
    ensures var books := CleanedBooks(rows);
            var after := AfterUpdate(rows, id, edit);
            match FirstWithId(books, id)
            case None => after == rows && forall i :: 0 <= i < |books| ==> CoerceId(books[i].id) != id
            case Some(k) =>
              && |after| == |books|
              && after[k] == Edited(books[k], edit)
              && CoerceId(after[k].id) == id
              && after[k].coverUrl == books[k].coverUrl && after[k].isbn == books[k].isbn
              && after[k].createdAt == books[k].createdAt
              && (forall i :: 0 <= i < |books| && i != k ==> after[i] == books[i])
              && (forall i :: 0 <= i < k ==> CoerceId(after[i].id) != id)
  {
  }

  /** update_book_cover changes the cover of the first row with the id and nothing else. */
  lemma CoverEditsFirstMatch(rows: seq<Row>, id: int, url: string)
    ensures var books := CleanedBooks(rows);
            var after := AfterCover(rows, id, url);
            match FirstWithId(books, id)
            case None => after == rows
            case Some(k) =>
              && |after| == |books|
              && after[k] == books[k].(coverUrl := Str(url))
              && (forall i :: 0 <= i < |books| && i != k ==> after[i] == books[i])
  {
  }

  // ---- delete_book ----

  /** The sheet delete_book writes: the cleaned table without any row that has the id. */
  function AfterDelete(rows: seq<Row>, id: int): seq<Row> {
    Keep(CleanedBooks(rows), (r: Row) => CoerceId(r.id) != id)
  }

  /** delete_book removes every row with the id, keeps every other row in its order, and
      with no row to remove still writes back the cleaned table. */
  lemma DeleteRemovesAll(rows: seq<Row>, id: int)
    ensures var books := CleanedBooks(rows);
            var after := AfterDelete(rows, id);
            && (forall i :: 0 <= i < |after| ==> CoerceId(after[i].id) != id)
            && (forall i :: 0 <= i < |books| && CoerceId(books[i].id) != id ==> books[i] in after)
            && IsSubsequence(after, books)
            && ((forall i :: 0 <= i < |books| ==> CoerceId(books[i].id) != id) ==> after == books)
  {
    var books := CleanedBooks(rows);
    var p := (r: Row) => CoerceId(r.id) != id;
    if forall i :: 0 <= i < |books| ==> CoerceId(books[i].id) != id {
      KeepAll(books, p);
    }
  }

  // ---- Categories ----

  /** The categories shown when the sheet is empty (app.py:234-237). */
  const DefaultCategories: seq<string> := ["技術書", "ビジネス", "小説", "その他"]

  /** get_categories: the `name` column, or the defaults when the sheet has no rows. */
  function VisibleCategories(names: seq<string>): (r: seq<string>)
    ensures |r| > 0
    ensures names != [] ==> r == names
  {
    if names == [] then DefaultCategories else names
  }

  /** The `categories` sheet after delete_category. */
  function WithoutName(names: seq<string>, name: string): seq<string> {
    Keep(names, (c: string) => c != name)
  }

  /** The defaults are never stored: adding a category to an empty sheet leaves that one
      category visible, and deleting a default from an empty sheet changes nothing. */
  lemma DefaultsNotStored(name: string)
    ensures VisibleCategories([] + [name]) == [name]
    ensures VisibleCategories(WithoutName([], name)) == DefaultCategories
  {
  }

  /** A deleted name is gone from the view unless the sheet becomes empty and it is a
      default; every other stored name stays visible. */
  lemma DeleteCategorySpec(names: seq<string>, name: string)
    ensures var after := WithoutName(names, name);
            && (after != [] ==> name !in VisibleCategories(after))
            && (forall c :: c in names && c != name ==> c in VisibleCategories(after))
  {
    var after := WithoutName(names, name);
    forall c | c in names && c != name ensures c in VisibleCategories(after) {
      var i :| 0 <= i < |names| && names[i] == c;
    }
  }

  // ---- The two worksheets ----

  /** The spreadsheet: the rows of the `books` sheet and the `name` column of the
      `categories` sheet, as stored. */
  class Sheets {
    var books: seq<Row>
    var categories: seq<string>

    constructor (books0: seq<Row>, categories0: seq<string>)
      ensures books == books0 && categories == categories0
    {
      books := books0;
      categories := categories0;
    }

    /** get_books (app.py:203-228). */
    method GetBooks() returns (rows: seq<Row>)
      ensures rows == CleanedBooks(books)
    {
      if |books| == 0 {
        return [];
      }
      var cleaned: seq<Row> := [];
      for i := 0 to |books|
        invariant |cleaned| == i
        invariant forall k :: 0 <= k < i ==> cleaned[k] == CleanRow(books[k])
      {
        cleaned := cleaned + [CleanRow(books[i])];
      }
      assert cleaned == CleanAll(books);
      rows := SortNewestFirst(cleaned);
    }

    /** get_categories (app.py:230-237). */
    method GetCategories() returns (names: seq<string>)
      ensures names == VisibleCategories(categories)
    {
      if |categories| == 0 {
        names := DefaultCategories;
      } else {
        names := categories;
      }
    }

    /** add_category (app.py:239-249): appends the name, duplicates included. */
    method AddCategory(name: string) returns (ok: bool)
      modifies this
      ensures categories == old(categories) + [name] && books == old(books)
      ensures ok
    {
      categories := categories + [name];
      ok := true;
    }

    /** delete_category (app.py:251-257): removes every row with the name. */
    method DeleteCategory(name: string)
      modifies this
      ensures categories == WithoutName(old(categories), name) && books == old(books)
    {
      categories := WithoutName(categories, name);
    }

    /** add_book (app.py:259-284); `now` is the `created_at` timestamp. */
    method AddBook(e: Entry, now: string)
      modifies this
      ensures books == AfterAdd(old(books), e, now) && categories == old(categories)
    {
      var df := GetBooks();
      var newId := 1;
      if |df| > 0 {
        newId := MaxId(df) + 1;
      }
      assert newId == NextId(df);
      books := df + [NewRow(newId, e, now)];
    }

    /** update_book (app.py:286-303). */
    method UpdateBook(bookId: int, edit: Edit)
      modifies this
      ensures books == AfterUpdate(old(books), bookId, edit) && categories == old(categories)
    {
      var df := GetBooks();
      var idx := FirstWithId(df, bookId);
      if idx.Some? {
        var i := idx.value;
        var row := df[i];
        row := row.(title := Str(edit.title));
        row := row.(author := Str(edit.author));
        row := row.(category := Str(edit.category));
        row := row.(tags := Str(edit.tags));
        row := row.(status := Str(edit.status));
        row := row.(notes := Str(edit.notes));
        row := row.(readDate := Str(edit.readDate));
        books := df[i := row];
      }
    }

    /** update_book_cover (app.py:305-313). */
    method UpdateBookCover(bookId: int, newCoverUrl: string)
      modifies this
      ensures books == AfterCover(old(books), bookId, newCoverUrl) && categories == old(categories)
    {
      var df := GetBooks();
      var idx := FirstWithId(df, bookId);
      if idx.Some? {
        books := df[idx.value := df[idx.value].(coverUrl := Str(newCoverUrl))];
      }
    }

    /** delete_book (app.py:315-320). */
    method DeleteBook(bookId: int)
      modifies this
      ensures books == AfterDelete(old(books), bookId) && categories == old(categories)
    {
      var df := GetBooks();
      books := Keep(df, (r: Row) => CoerceId(r.id) != bookId);
    }
  }
}
