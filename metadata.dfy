/** Book metadata from the two bibliographic sources, the merge that
    `fetch_book_data_with_image` performs (app.py:323-369) and the cover re-fetch
    `resolve_best_image_url` (app.py:414-431). The HTTP calls are not modelled: each
    lookup takes the reply it would have received. */
module Metadata {
  import opened Options
  import opened Text
  import Isbn
  import Seqs

  /** A completed HTTP exchange: the status code and the decoded JSON body, `None` when
      `resp.json()` raises. A lookup is given `None` for the reply when `requests.get`
      itself raised. */
  datatype Reply<B> = Reply(status: int, body: Option<B>)

  /** The record both mappers return (app.py:379-384, 403-408). */
  datatype SourceRecord = SourceRecord(title: string, author: string, notes: string, coverUrl: string)

  /** The dict `fetch_book_data_with_image` returns. */
  datatype BookInfo = BookInfo(title: string, author: string, notes: string, coverUrl: string, isbn: string)

  // ---- Google Books: the members of a volume the mapper reads ----

  datatype ImageLinks = ImageLinks(thumbnail: Option<string>)
  datatype VolumeInfo = VolumeInfo(
    title: Option<string>, authors: Option<seq<string>>, description: Option<string>, imageLinks: Option<ImageLinks>)
  datatype GoogleItem = GoogleItem(volumeInfo: Option<VolumeInfo>)
  /** The top-level JSON object: its `items` list, when present. */
  datatype GoogleBody = GoogleBody(items: Option<seq<GoogleItem>>)

  /** The `{}` that `.get("volumeInfo", {})` falls back to. */
  const NoVolumeInfo := VolumeInfo(None, None, None, None)

  /** The dict built from a volume (app.py:379-384): every field defaults to `""`, and the
      authors are joined with `", "`. */
  function FromVolumeInfo(info: VolumeInfo): (r: SourceRecord)
    ensures r.title == info.title.GetOr("")
    ensures r.notes == info.description.GetOr("")
    ensures info.imageLinks.None? ==> r.coverUrl == ""
    ensures info.imageLinks.Some? ==> r.coverUrl == info.imageLinks.value.thumbnail.GetOr("")
    ensures info.authors.None? || info.authors == Some([]) ==> r.author == ""
    ensures info.authors.Some? && |info.authors.value| == 1 ==> r.author == info.authors.value[0]
    ensures info.authors.Some? && |info.authors.value| == 2 ==>
              r.author == info.authors.value[0] + ", " + info.authors.value[1]
    ensures info.authors.Some? && |info.authors.value| >= 2 ==>
              var names := info.authors.value;
              r.author == Join(names[..|names| - 1], ", ") + ", " + names[|names| - 1]
    ensures info.authors.Some? ==>
              forall k :: 0 <= k < |info.authors.value| ==> IsSubstring(info.authors.value[k], r.author)
  {
    var authors := info.authors.GetOr([]);
    forall k | 0 <= k < |authors| ensures IsSubstring(authors[k], Join(authors, ", ")) {
      JoinContainsParts(authors, ", ", k);
    }
    assert |authors| >= 2 ==>
             Join(authors, ", ") == Join(authors[..|authors| - 1], ", ") + ", " + authors[|authors| - 1] by {
      if |authors| >= 2 {
        JoinSnoc(authors, ", ");
      }
    }
    SourceRecord(
      info.title.GetOr(""),
      Join(authors, ", "),
      info.description.GetOr(""),
      match info.imageLinks
      case None => ""
      case Some(links) => links.thumbnail.GetOr(""))
  }

  /** get_google_books_data (app.py:371-387): a record exactly when the reply is a 200
      whose body has a non-empty `items` list (an empty list makes `[0]` raise, which the
      handler turns into `None`); the record maps the first item. */
  function LookupGoogle(reply: Option<Reply<GoogleBody>>): (r: Option<SourceRecord>)
    ensures r.Some? <==>
              && reply.Some? && reply.value.status == 200 && reply.value.body.Some?
              && reply.value.body.value.items.Some? && |reply.value.body.value.items.value| > 0
    ensures r.Some? ==>
              r.value == FromVolumeInfo(reply.value.body.value.items.value[0].volumeInfo.GetOr(NoVolumeInfo))
  {
    match reply
    case None => None
    case Some(resp) =>
      if resp.status != 200 || resp.body.None? then None
      else match resp.body.value.items
        case None => None
        case Some(items) =>
          if |items| == 0 then None
          else Some(FromVolumeInfo(items[0].volumeInfo.GetOr(NoVolumeInfo)))
  }

  // ---- OpenBD: the members of an entry the mapper reads ----

  datatype Summary = Summary(title: Option<string>, author: Option<string>, cover: Option<string>)
  datatype TextContent = TextContent(text: Option<string>)
  /** One entry of the OpenBD reply list: its `summary` object, the list found at
      `onix.CollateralDetail.TextContent` (`None` when any level of that path is absent),
      and whether the object has a key that neither of those accounts for (an `onix`
      without the full path, or any other member). */
  datatype OpenBdEntry = OpenBdEntry(summary: Option<Summary>, textContents: Option<seq<TextContent>>, otherKeys: bool)

  /** The object `{}`. */
  const EmptyEntry := OpenBdEntry(None, None, false)

  /** `data[0]` as a condition: neither `null` nor the empty object `{}`, both of which
      Python treats as false. */
  predicate Truthy(entry: Option<OpenBdEntry>) {
    entry.Some? && (entry.value.summary.Some? || entry.value.textContents.Some? || entry.value.otherKeys)
  }

  /** The description lookup guarded by its own try (app.py:398-401): the `Text` of the
      first `TextContent`, and `""` whenever a level is missing or the list is empty. */
  function Description(entry: OpenBdEntry): (d: string)
    ensures entry.textContents.None? || entry.textContents == Some([]) ==> d == ""
    ensures entry.textContents.Some? && |entry.textContents.value| > 0 ==>
              d == entry.textContents.value[0].text.GetOr("")
  {
    match entry.textContents
    case None => ""
    case Some(items) => if |items| == 0 then "" else items[0].text.GetOr("")
  }

  /** The dict built from an entry (app.py:396-408): title, author and cover from
      `summary`, each defaulting to `""`, and the description as notes. */
  function FromOpenBdEntry(entry: OpenBdEntry): (r: SourceRecord)
    ensures entry.summary.None? ==> r.title == "" && r.author == "" && r.coverUrl == ""
    ensures entry.summary.Some? ==>
              && r.title == entry.summary.value.title.GetOr("")
              && r.author == entry.summary.value.author.GetOr("")
              && r.coverUrl == entry.summary.value.cover.GetOr("")
    ensures r.notes == Description(entry)
  {
    var summary := entry.summary.GetOr(Summary(None, None, None));
    SourceRecord(summary.title.GetOr(""), summary.author.GetOr(""), Description(entry), summary.cover.GetOr(""))
  }

  /** get_openbd_data (app.py:389-411): a record exactly when the reply is a 200 whose
      list is non-empty and whose first entry is neither `null` nor `{}`. */
  function LookupOpenBd(reply: Option<Reply<seq<Option<OpenBdEntry>>>>): (r: Option<SourceRecord>)
    ensures r.Some? <==>
              && reply.Some? && reply.value.status == 200 && reply.value.body.Some?
              && |reply.value.body.value| > 0 && reply.value.body.value[0].Some?
              && var entry := reply.value.body.value[0].value;
                 entry.summary.Some? || entry.textContents.Some? || entry.otherKeys
    ensures r.Some? ==> r.value == FromOpenBdEntry(reply.value.body.value[0].value)
  {
    match reply
    case None => None
    case Some(resp) =>
      if resp.status != 200 || resp.body.None? then None
      else
        var data := resp.body.value;
        if |data| == 0 || !Truthy(data[0]) then None
        else Some(FromOpenBdEntry(data[0].value))
  }

  /** A reply whose first entry is `{}` gives no record, whatever follows it, although
      the same entry mapped on its own would give a record of empty strings. */
  lemma EmptyFirstEntryNoAnswer(rest: seq<Option<OpenBdEntry>>)
    ensures LookupOpenBd(Some(Reply(200, Some([Some(EmptyEntry)] + rest)))) == None
    ensures FromOpenBdEntry(EmptyEntry) == SourceRecord("", "", "", "")
  {
  }

  // ---- Covers ----

  /** The Amazon image URL template around a 10-character ISBN (app.py:364, 367, 427, 429). */
  function AmazonUrl(isbn10: string): (url: string)
    ensures url != "" && IsSubstring(isbn10, url)
  {
    var prefix := "https://images-na.ssl-images-amazon.com/images/P/";
    var url := prefix + isbn10 + ".09.LZZZZZZZ.jpg";
    assert url[|prefix|..|prefix| + |isbn10|] == isbn10;
    assert OccursAt(isbn10, url, |prefix|);
    url
  }

  /** The Amazon fallback: for 13 characters the URL around `to_isbn10`, for 10 the URL
      around the ISBN itself, and nothing for any other length. */
  function AmazonFallback(isbn: string): (url: string)
    requires Isbn.ConvertibleBody(isbn)
    ensures url != "" <==> |isbn| == 10 || |isbn| == 13
    ensures |isbn| == 13 ==> Isbn.LegacyForm(isbn).Some? && url == AmazonUrl(Isbn.LegacyForm(isbn).value)
    ensures |isbn| == 10 ==> url == AmazonUrl(isbn)
  {
    if |isbn| == 13 then
      match Isbn.LegacyForm(isbn)
      case Some(isbn10) => AmazonUrl(isbn10)
      case None => ""
    else if |isbn| == 10 then AmazonUrl(isbn)
    else ""
  }

  function CoverOf(record: Option<SourceRecord>): string {
    if record.Some? then record.value.coverUrl else ""
  }

  /** The Google record is there and has a title (`info_dict["title"]` is then truthy
      when OpenBD is consulted). */
  predicate GoogleTitled(google: Option<SourceRecord>) {
    google.Some? && google.value.title != ""
  }

  /** The quirk of app.py:351: Google supplied a cover but no title, and OpenBD answered,
      so the whole OpenBD record replaces the Google one, cover included. */
  predicate DiscardsGoogleCover(google: Option<SourceRecord>, openbd: Option<SourceRecord>) {
    google.Some? && google.value.title == "" && google.value.coverUrl != "" && openbd.Some?
  }

  /** The cover once both sources are merged, before the Amazon fallback: OpenBD's when it
      answered and Google left either the title or the cover empty, Google's otherwise. */
  function MergedCover(google: Option<SourceRecord>, openbd: Option<SourceRecord>): string {
    if openbd.Some? && (!GoogleTitled(google) || CoverOf(google) == "") then openbd.value.coverUrl
    else CoverOf(google)
  }

  /** `str(isbn).replace('-', '').strip()`. */
  function DashStripped(isbn: string): string {
    Strip(RemoveAll(isbn, '-'))
  }

  /** The one input on which `resolve_best_image_url` raises: neither source has a cover and
      the cleaned ISBN has 13 characters with a non-digit in its body. */
  predicate Resolvable(isbn: string, google: Option<SourceRecord>, openbd: Option<SourceRecord>) {
    CoverOf(google) == "" && CoverOf(openbd) == "" ==> Isbn.ConvertibleBody(DashStripped(isbn))
  }

  /** resolve_best_image_url (app.py:414-431): the first non-empty cover of Google, then
      OpenBD, then Amazon; `""` only when neither source has a cover and the cleaned ISBN is
      neither 10 nor 13 characters long. */
  function ResolveBestImageUrl(isbn: string, google: Option<SourceRecord>, openbd: Option<SourceRecord>): (url: string)
    requires Resolvable(isbn, google, openbd)
    ensures CoverOf(google) != "" ==> url == CoverOf(google)
    ensures CoverOf(google) == "" && CoverOf(openbd) != "" ==> url == CoverOf(openbd)
    ensures CoverOf(google) == "" && CoverOf(openbd) == "" ==> url == AmazonFallback(DashStripped(isbn))
    ensures url == "" <==>
              CoverOf(google) == "" && CoverOf(openbd) == "" && |DashStripped(isbn)| != 10 && |DashStripped(isbn)| != 13
  {
    if google.Some? && google.value.coverUrl != "" then google.value.coverUrl
    else if openbd.Some? && openbd.value.coverUrl != "" then openbd.value.coverUrl
    else
      var cleaned := DashStripped(isbn);
      if |cleaned| == 13 then
        match Isbn.LegacyForm(cleaned)
        case Some(isbn10) => AmazonUrl(isbn10)
        case None => ""
      else if |cleaned| == 10 then AmazonUrl(cleaned)
      else ""
  }

  /** The cover `fetch_book_data_with_image` ends with for the cleaned ISBN `isbn`:
      the merged source cover, or the Amazon fallback when that is empty. It is non-empty
      whenever the ISBN has 10 or 13 digits. */
  function FetchedCover(isbn: string, google: Option<SourceRecord>, openbd: Option<SourceRecord>): (url: string)
    requires AllDigits(isbn)
    ensures MergedCover(google, openbd) != "" ==> url == MergedCover(google, openbd)
    ensures |isbn| == 10 || |isbn| == 13 ==> url != ""
    ensures |isbn| != 10 && |isbn| != 13 ==> url == MergedCover(google, openbd)
  {
    var merged := MergedCover(google, openbd);
    if merged != "" then merged else AmazonFallback(isbn)
  }

  /** Where no Google cover is dropped, the cover `fetch_book_data_with_image` produces for
      an all-digit ISBN is the one `resolve_best_image_url` picks. */
  lemma FetchAgreesWithResolve(isbn: string, google: Option<SourceRecord>, openbd: Option<SourceRecord>)
    requires AllDigits(isbn) && !DiscardsGoogleCover(google, openbd)
    ensures Resolvable(isbn, google, openbd)
    ensures FetchedCover(isbn, google, openbd) == ResolveBestImageUrl(isbn, google, openbd)
  {
    DigitStringIsClean(isbn);
  }

  /** Where app.py:351 applies, the Google cover plays no part: the result is OpenBD's
      cover, or the Amazon fallback when OpenBD has none. */
  lemma {:induction false} GoogleCoverDropped(isbn: string, google: Option<SourceRecord>, openbd: Option<SourceRecord>)
    requires AllDigits(isbn) && DiscardsGoogleCover(google, openbd)
    ensures FetchedCover(isbn, google, openbd)
            == if openbd.value.coverUrl != "" then openbd.value.coverUrl else AmazonFallback(isbn)
  {
  }

  /** An instance of that quirk: Google has a cover but no title, OpenBD has a title but no
      cover, and the book ends up with the Amazon cover that `resolve_best_image_url` would
      not have chosen. */
  lemma GoogleCoverDroppedExample()
    ensures var google := Some(SourceRecord("", "", "", "https://books.google/cover"));
            var openbd := Some(SourceRecord("ゼロ・トゥ・ワン", "ピーター・ティール", "", ""));
            && FetchedCover("9784798132646", google, openbd) == AmazonUrl("4798132640")
            && ResolveBestImageUrl("9784798132646", google, openbd) == "https://books.google/cover"
  {
    Isbn.ZeroToOneConversion();
  }

  /** Two non-empty digit strings joined by a space have no dash and no whitespace at
      either end, so cleaning leaves them alone. */
  lemma SpacedStripped(a: string, b: string)
    requires a != [] && b != [] && AllDigits(a) && AllDigits(b)
    ensures DashStripped(a + " " + b) == a + " " + b
  {
    var spaced := a + " " + b;
    forall k | 0 <= k < |spaced| ensures spaced[k] != '-' {
      if k < |a| { assert spaced[k] == a[k]; }
      else if k > |a| { assert spaced[k] == b[k - |a| - 1]; }
    }
    Seqs.KeepAll(spaced, (x: char) => x != '-');
    assert spaced[0] == a[0] && spaced[|spaced| - 1] == b[|b| - 1];
    assert SpanStart(spaced) == 0;
    assert SpanEnd(spaced) == |spaced|;
    assert spaced[0..|spaced|] == spaced;
  }

  /** With no source cover, the re-fetch finds nothing for an ISBN that is neither 10 nor
      13 characters long once cleaned. */
  lemma ResolveNothingForOtherLengths(isbn: string)
    requires |DashStripped(isbn)| != 10 && |DashStripped(isbn)| != 13
    ensures ResolveBestImageUrl(isbn, None, None) == ""
  {
  }

  /** The fetch measures the digits-only ISBN and the re-fetch the dash-stripped text. A
      13-digit ISBN written with a space inside, such as `978 4798132646`, and no source
      cover therefore gets the Amazon cover from the fetch and nothing from the re-fetch. */
  lemma SpacedIsbnCovers(isbn: string, k: nat)
    requires AllDigits(isbn) && |isbn| == 13 && 0 < k < 13
    ensures var spaced := isbn[..k] + " " + isbn[k..];
            && DigitsOnly(spaced) == isbn
            && |DashStripped(spaced)| == 14
            && Resolvable(spaced, None, None) && ResolveBestImageUrl(spaced, None, None) == ""
            && FetchedCover(isbn, None, None) == AmazonFallback(isbn) != ""
  {
    var a, b := isbn[..k], isbn[k..];
    assert AllDigits(a) && AllDigits(b) by {
      forall j | 0 <= j < |b| ensures IsDigit(b[j]) { assert b[j] == isbn[k + j]; }
      forall j | 0 <= j < |a| ensures IsDigit(a[j]) { assert a[j] == isbn[j]; }
    }
    assert a + b == isbn;
    var spaced := a + " " + b;
    assert DigitsOnly(spaced) == isbn by {
      assert spaced == a + [' '] + b;
      Text.SpacedDigits(a, ' ', b);
    }
    assert |DashStripped(spaced)| == 14 by { SpacedStripped(a, b); }
    ResolveNothingForOtherLengths(spaced);
    assert MergedCover(None, None) == "";
  }

  /** fetch_book_data_with_image (app.py:323-369), given what the two lookups returned for
      the cleaned ISBN. */
  method FetchBookData(isbnText: string, google: Option<SourceRecord>, openbd: Option<SourceRecord>)
    returns (info: BookInfo)
    // the ISBN is the input with every non-digit removed, and notes are always cleared
    ensures info.isbn == DigitsOnly(isbnText) && AllDigits(info.isbn)
    ensures info.notes == ""
    // Google's title and author win when Google has a title; otherwise OpenBD's, when it answered
    ensures GoogleTitled(google) ==> info.title == google.value.title && info.author == google.value.author
    ensures !GoogleTitled(google) && openbd.Some? ==>
              info.title == openbd.value.title && info.author == openbd.value.author
    ensures !GoogleTitled(google) && openbd.None? ==>
              if google.Some? then info.title == google.value.title && info.author == google.value.author
              else info.title == "" && info.author == ""
    // the cover: the merged source cover, else the Amazon fallback
    ensures info.coverUrl == FetchedCover(info.isbn, google, openbd)
  {
    var cleaned := Strip(RemoveAll(isbnText, '-'));
    var isbn := DigitsOnly(cleaned);
    assert isbn == DigitsOnly(isbnText) && AllDigits(isbn) by {
      DigitsIgnoreDashesAndSpace(isbnText);
    }
    info := BookInfo("", "", "", "", isbn);
    if google.Some? {
      var g := google.value;
      info := info.(title := g.title, author := g.author, notes := g.notes, coverUrl := g.coverUrl);
    }
    if openbd.Some? {
      var o := openbd.value;
      if info.title == "" {
        info := info.(title := o.title, author := o.author, notes := o.notes, coverUrl := o.coverUrl);
      }
      if info.coverUrl == "" && o.coverUrl != "" {
        info := info.(coverUrl := o.coverUrl);
      }
    }
    info := info.(notes := "");
    assert info.coverUrl == MergedCover(google, openbd);
    if info.coverUrl == "" {
      if |isbn| == 13 {
        var isbn10 := Isbn.ToIsbn10(isbn);
        if isbn10.Some? {
          info := info.(coverUrl := AmazonUrl(isbn10.value));
        }
      } else if |isbn| == 10 {
        info := info.(coverUrl := AmazonUrl(isbn));
      }
    }
  }
}
