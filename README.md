# booklog core in Dafny

booklog is a personal reading-log web application. A book shelf lives in two
spreadsheet worksheets, `books` and `categories`. A book can be registered from a
photographed barcode, whose ISBN is looked up in Google Books and OpenBD. The library
page filters the table by keyword, tag and category. This project models the logic
of that application (`app.py`) and of the ISBN conversion in its debugging script
(`debug_isbn.py`), and proves properties of the model.

The model covers these parts, one module each:

- `Isbn` (isbn.dfy) models `to_isbn10`: the ISBN-13 to ISBN-10 conversion with the
  modulus-11 check character of ISO 2108. The checksum loop is a method, proved
  against a function. The result is proved to be a valid ISBN-10, and its check
  character is proved to be the only valid one.
- `DebugIsbn` (debug_isbn.dfy) holds the debugging script's copy of the conversion,
  which is proved equal to the application's, and its two record mappers.
- `Metadata` (metadata.dfy) models:
  - the Google Books and OpenBD record mappers, given the decoded HTTP reply;
  - the merge in `fetch_book_data_with_image`, with its Amazon cover fallback;
  - `resolve_best_image_url`.
  One quirk is reproduced rather than fixed. When Google has no title and OpenBD
  answered, the whole OpenBD record replaces Google's, so a Google cover is dropped.
- `Scanner` (scanner.dfy) models the barcode cascade `decode_image_isbn`.
  - Frames are values of a type parameter. The image operations, the barcode reader
    and the vision model's reply are inputs.
  - The model fixes the nine-frame scan order and its first-success short-circuit.
  - It fixes the centre-crop arithmetic.
  - It fixes the parse of the AI reply.
- `Books` (books.dfy) models the worksheets. The class `Sheets` holds the two sheets
  as sequences, and its methods are the read-modify-write operations `get_books`,
  `get_categories`, `add_category`, `delete_category`, `add_book`, `update_book`,
  `update_book_cover` and `delete_book`. Each method is proved against a function
  on the stored rows. Those functions cover:
  - id coercion;
  - the `.0` ISBN clean-up;
  - the newest-first sort;
  - the next id;
  - first-match updates;
  - deletion of every matching row.
- `Library` (library.dfy) models the library page and the two forms:
  - the tag list;
  - `has_any_tag`;
  - the keyword, tag and category filters;
  - the rule that keeps a read date only for a read book;
  - the rule that a title is required.
- `Options`, `Seqs` and `Text` are helper modules:
  - `Options` is the optional value;
  - `Seqs` is order-preserving filtering (`df[mask]`, `filter`);
  - `Text` covers digit filtering, `str.strip`, `str.split`/`join` and ASCII case
    folding.

Two behaviours of the code are worth stating, and the model follows them.

- The Amazon fallback does not always yield a URL. When neither source has a cover and
  the dash-stripped ISBN is neither 10 nor 13 characters long, `resolve_best_image_url`
  returns `""` (app.py:424-431). `fetch_book_data_with_image` leaves the cover empty
  when the merged cover is empty and the digits-only ISBN is neither 10 nor 13 digits
  long (app.py:360-367). The two measure different strings, so an ISBN written with a
  space, such as `978 4798132646`, gets no cover from the first and the Amazon cover
  from the second.
- `to_isbn10` raises `ValueError` on a 13-character ISBN with a non-digit in its body,
  because `int()` rejects that character (app.py:190-191). `resolve_best_image_url`
  calls it at app.py:426 outside any handler, so the exception escapes. The model makes
  that input a precondition, `Isbn.ConvertibleBody`.

## Model

| member | source | states |
|---|---|---|
| Isbn.ToIsbn10 | app.py:185-197 | the checksum loop computes exactly the conversion `LegacyForm`: `None` for an argument whose length is not 13, otherwise the body `isbn13[3:12]` plus its check character |
| Isbn.LegacyForm | app.py:185-197 | the value `to_isbn10` returns; its properties are stated by `Isbn.LegacyFormIsValid` and `Isbn.CheckCharacterUnique` |
| Isbn.LegacyFormIsValid | app.py:187-197 | the result is `None` exactly when the length is not 13 (the empty string included); otherwise it is 10 characters long, starts with `isbn13[3:12]`, ends in a digit or `X`, and its weights 10..1 sum to a multiple of 11 |
| Isbn.CheckCharacterUnique | app.py:189-196 | the appended check character is the only character that makes the nine-digit body a valid ISBN-10 |
| Isbn.CheckCharacterCompletes | app.py:192-196 | for a non-negative checksum, the check character is a digit or `X`, and its value completes the checksum to a multiple of 11 |
| Isbn.CheckCharacterEdges | app.py:192-196 | remainder 0 gives `'0'`, remainder 1 gives `'X'`, and every other remainder gives the digit `11 - remainder` |
| Isbn.ChecksumStep | app.py:190-191 | one loop iteration adds the digit at position `n` weighted `10 - n` |
| Isbn.SumSplit | app.py:189-191 | the running checksum of a digit prefix plus the weighted sum of the rest gives the weighted sum of the whole |
| Isbn.ChecksumNonNegative | app.py:189-191 | the checksum of at most ten digits is never negative |
| Isbn.ZeroToOneConversion | debug_isbn.py:79 | `9784798132646` converts to `4798132640`, through the remainder-0 branch |
| Isbn.DeepLearningConversion | debug_isbn.py:81 | `9784873119328` converts to `4873119324` |
| DebugIsbn.ToIsbn10 | debug_isbn.py:4-16 | the script's loop computes the same conversion as app.py's on every input, giving `None` exactly for lengths other than 13 and a valid ISBN-10 built on the body otherwise |
| DebugIsbn.LookupGoogle | debug_isbn.py:18-38 | gives the same record as app.py's mapper: the title defaults to `""`, and a missing or empty authors list gives an empty author |
| DebugIsbn.LookupOpenBd | debug_isbn.py:40-59 | answers exactly when app.py's mapper does, so nothing for a `null` or `{}` first entry, with exactly its title, author and cover and no notes |
| Metadata.FromVolumeInfo | app.py:378-384 | title, notes and cover default to `""`; the authors are joined with `", "`: a missing or empty list gives `""`, one author is kept as is, two give `a + ", " + b`, and more give the join of all but the last, then `", "` and the last; every author appears in the joined text |
| Metadata.LookupGoogle | app.py:371-387 | a record exactly when the reply is a 200 whose body has a non-empty `items` list, and that record maps the first item |
| Metadata.Description | app.py:398-401 | the `Text` of the first `TextContent`, and `""` whenever a level of the path is missing or the list is empty |
| Metadata.FromOpenBdEntry | app.py:396-408 | title, author and cover come from `summary`, each defaulting to `""`; the notes are the description |
| Metadata.LookupOpenBd | app.py:389-411 | a record exactly when the reply is a 200 whose list is non-empty with a first entry that is neither `null` nor `{}`, and that record maps the first entry |
| Metadata.EmptyFirstEntryNoAnswer | app.py:395 | a `{}` first entry gives no record, although mapping it on its own would give a record of empty strings |
| Metadata.AmazonUrl | app.py:364 | the Amazon template gives a non-empty URL that contains the ISBN-10 |
| Metadata.AmazonFallback | app.py:360-367 | non-empty exactly for 10 or 13 characters: the template around `to_isbn10` for 13, around the ISBN itself for 10 |
| Metadata.ResolveBestImageUrl | app.py:414-431 | the first non-empty cover of Google, then OpenBD, then the Amazon fallback on the dash-stripped ISBN; `""` exactly when neither source has a cover and that ISBN is neither 10 nor 13 long |
| Metadata.FetchedCover | app.py:350-367 | the merged source cover when non-empty, else the Amazon fallback; never empty for a 10- or 13-digit ISBN |
| Metadata.ResolveNothingForOtherLengths | app.py:424-431 | with no source cover, the re-fetch gives `""` for an ISBN that is neither 10 nor 13 characters long once cleaned |
| Metadata.SpacedStripped | app.py:424 | two non-empty digit strings joined by a space come out of the dash removal and `strip()` unchanged |
| Metadata.SpacedIsbnCovers | app.py:335-431 | a 13-digit ISBN written with a space inside and no source cover: its digits are the ISBN, its cleaned text is 14 long, the re-fetch gives `""`, and the fetch gives the Amazon cover |
| Metadata.MergedCover | app.py:343-354 | the cover after the two sources are merged, before the Amazon fallback; `Metadata.FetchedCover` and `Metadata.GoogleCoverDropped` state its properties |
| Metadata.FetchBookData | app.py:323-369 | the ISBN is the input with every non-digit removed; notes are `""`; Google's title and author win when Google has a title, otherwise OpenBD's when it answered; the cover is `FetchedCover` |
| Metadata.FetchAgreesWithResolve | app.py:350-354 | unless the app.py:351 quirk applies, the fetched cover is the cover `resolve_best_image_url` picks |
| Metadata.GoogleCoverDropped | app.py:351 | when Google has a cover but no title and OpenBD answered, the result is OpenBD's cover or the Amazon fallback, never Google's |
| Metadata.GoogleCoverDroppedExample | app.py:351-354 | a concrete pair of records for which the fetch ends with the Amazon cover while the re-fetch picks Google's |
| Scanner.CentreCrop | app.py:492-495 | the crop window has half the height and half the width, lies inside the image (`0 <= y1` and `y1 + h//2 <= h`, the same for x), and is centred to within one pixel |
| Scanner.FirstEan13Spec | app.py:451-453 | `None` exactly when no symbol is an `EAN13`; otherwise the payload of the first one |
| Scanner.ScanFrameSpec | app.py:447-455 | a frame yields something only with pyzbar present and the reader returning, and then it is the payload of a returned `EAN13` symbol |
| Scanner.ScanFrame | app.py:447-455 | `scan_frame`: nothing without pyzbar or when the reader raises, otherwise the first `EAN13` payload; specified by `Scanner.ScanFrameSpec` |
| Scanner.FirstFoundSpec | app.py:457-513 | scanning a list of variants finds nothing exactly when every variant misses; otherwise it returns a non-empty result of one of them |
| Scanner.FirstFoundIsFirst | app.py:457-513 | the first successful variant decides the result |
| Scanner.FirstFoundAppend | app.py:509-513 | scanning `a` and then `b` is the same as scanning `a + b` |
| Scanner.AiFallback | app.py:516-553 | nothing without an API key or when the call raises; otherwise the parsed reply |
| Scanner.DecodeImageIsbn | app.py:436-553 | the outcome is `Cascade`: an exception escapes when an unguarded OpenCV call fails before a variant succeeded, otherwise the first of the nine variants, in order, that yields a non-empty string, then `None` if the RGB conversion failed, then the AI step. The variants scanned are a prefix of the order, every one before the last missed, and the scan stopped at a success, at the failed conversion, or at the raising call |
| Scanner.Scanned | app.py:457-553 | the value returned when no OpenCV call raises; its properties are stated by `Scanner.CascadeSound`, `Scanner.EarliestVariantWins` and `Scanner.AllMissedLeavesAi` |
| Scanner.FailurePoint | app.py:462-505 | an unguarded `cvtColor` on a frame with no pixel raises, either after the first variant (a converted image with no row or column, app.py:470) or after the third (an empty centre crop, app.py:500), and only once the RGB conversion succeeded |
| Scanner.Cascade | app.py:436-553 | what decode_image_isbn does: it raises exactly when the failure point has been reached with every scanned variant missing; its properties are stated by the lemmas on this page |
| Scanner.ScanConverted | app.py:469-477 | after the untouched image missed, steps 2 and 3 and the rest of the cascade give the cascade's outcome: it raises at app.py:470 on a converted image with no pixel, and otherwise stops at the first success |
| Scanner.ScanQueued | app.py:483-513 | with the first three variants missed, it raises exactly when the centre crop is empty (app.py:500); otherwise the six queued frames are scanned in order up to the first success, and the AI step runs only after all of them miss |
| Scanner.CascadeSound | app.py:457-553 | every returned non-empty result is a successful scan of one of the nine variants or the parsed AI reply |
| Scanner.EarliestVariantWins | app.py:457-513 | the earliest successful variant gives the result, whatever later variants would find, when it is scanned before any OpenCV call raises |
| Scanner.FailureRaises | app.py:470-500 | when an OpenCV call fails after `k` variants were scanned and all of them missed, the exception escapes |
| Scanner.ThinImageRaises | app.py:492-500 | an image under two pixels high or wide whose first three variants miss makes decode_image_isbn raise, and the AI step is never reached |
| Scanner.AllMissedLeavesAi | app.py:511-553 | when all nine variants miss on a convertible image that no OpenCV call rejects, the AI step decides |
| Scanner.NothingWithoutCapability | app.py:447-522 | without pyzbar and without an API key nothing is found: the cascade raises or returns `None` |
| Scanner.ConversionFailureSkipsAi | app.py:462-467 | when the untouched image misses and the RGB conversion raises, the result is `None` whatever the key and the reply |
| Scanner.DropRepeatedVariant | app.py:509-513 | a variant that yields exactly what an earlier one yields can be dropped without changing the result |
| Scanner.FullFramesRepeat | app.py:498-503 | `gray_full` and `thresh_full` rebuild the frames of steps 2 and 3 |
| Scanner.FullFrameAttemptsRedundant | app.py:498-509 | dropping the two full-frame attempts from the order changes no result |
| Scanner.FindBookland | app.py:537 | the leftmost position at or after `i` where `978` starts a 13-character window, or `None` when there is no such position |
| Scanner.ParseDigits | app.py:537-544 | a result exactly when the digit string has a 13-character window starting with `978`, and then it is the leftmost such window |
| Scanner.ParseAiReply | app.py:533-544 | a result exactly when the digit-filtered reply has a 13-digit window starting with `978`; the result is the leftmost such window: 13 digits starting with `978` |
| Scanner.SecondRuleRedundant | app.py:542-544 | the second rule (13 digits starting with `978`) never adds a result: the parse is the leftmost match alone |
| Text.DigitsIgnoreDashesAndSpace | app.py:335-337 | removing dashes and stripping before taking the digits changes nothing |
| Text.SpacedDigits | app.py:335-337 | the digit filter of two digit strings joined by a non-digit is the two strings put together |
| Books.Truncate | app.py:214 | `astype(int)` truncates toward zero: for non-negative floats, the floor; for negative ones, the ceiling |
| Books.CoerceId | app.py:213-214 | the id of a row after `pd.to_numeric(errors='coerce').fillna(0).astype(int)`; specified by `Books.CoerceIdSpec` |
| Books.ParseNatural | app.py:214 | the numeral of a natural number parses back to that number |
| Books.ParseNegative | app.py:214 | a minus sign before the numeral of a positive number parses to its negation |
| Books.CoerceIdSpec | app.py:213-214 | integer ids stay as they are; a float or a text rendering of an integer id gives that integer back; empty and unparseable cells become 0 |
| Books.DropPointZero | app.py:222 | a trailing `.0` is removed, also where Python's `$` matches before a final newline; any other text is unchanged |
| Books.DropPointZeroSpec | app.py:222 | a float ISBN rendered as `digits.0` comes back as its digits, and a digit string is left alone |
| Books.InsertSpec | app.py:217-218 | inserting into a newest-first sequence keeps it newest first and adds exactly the one row |
| Books.SortNewestFirst | app.py:217-218 | the sort of get_books, newest `created_at` first with empty cells last; specified by `Books.SortSpec` and `Books.SortKeepsSorted` |
| Books.SortSpec | app.py:217-218 | the sort by `created_at`, descending with empty cells last, leaves no row followed by a newer one and is a permutation |
| Books.SortKeepsSorted | app.py:217-218 | a table already newest first comes back in the same order |
| Books.CleanedBooks | app.py:203-224 | what get_books returns for the stored rows; specified by `Books.CleanedBooksSpec` |
| Books.CleanedBooksSpec | app.py:203-224 | get_books returns as many rows as the sheet, newest first, a permutation of the cleaned rows, each with an integer id |
| Books.MaxId | app.py:266-267 | the largest coerced id: no id exceeds it and some row has it |
| Books.NextId | app.py:263-267 | 1 for an empty table; otherwise one more than the largest id, so larger than every id present |
| Books.AfterAdd | app.py:259-284 | the sheet add_book writes; specified by `Books.AddAppendsFreshRow` |
| Books.AddAppendsFreshRow | app.py:259-284 | add_book keeps every row get_books returned, in order, and appends one row that holds the entry and an id larger than all others; distinct ids stay distinct |
| Books.FirstWithId | app.py:293-295 | the position of the first row with the id, or `None` exactly when no row has it |
| Books.UpdateEditsFirstMatch | app.py:286-303 | update_book edits exactly the first row with the id and keeps its id, cover, ISBN and timestamp; every other row is untouched; with no such row the sheet is not written |
| Books.AfterUpdate | app.py:286-303 | the sheet after update_book; specified by `Books.UpdateEditsFirstMatch` |
| Books.CoverEditsFirstMatch | app.py:305-313 | update_book_cover changes only the cover of the first row with the id, and writes nothing when there is none |
| Books.AfterCover | app.py:305-313 | the sheet after update_book_cover; specified by `Books.CoverEditsFirstMatch` |
| Books.DeleteRemovesAll | app.py:315-320 | delete_book removes every row with the id and keeps every other row in order; with no match it writes back the cleaned table |
| Books.AfterDelete | app.py:315-320 | the sheet delete_book writes; specified by `Books.DeleteRemovesAll` |
| Books.VisibleCategories | app.py:234-235 | never empty: the stored names, or the four defaults for an empty sheet |
| Books.DefaultsNotStored | app.py:234-257 | the defaults are not stored: adding to an empty sheet leaves only the new name visible, and deleting from an empty sheet still shows the defaults |
| Books.DeleteCategorySpec | app.py:251-257 | a deleted name disappears unless the sheet becomes empty; every other stored name stays visible |
| Books.WithoutName | app.py:255 | the categories sheet after delete_category; specified by `Books.DeleteCategorySpec` and `Books.DefaultsNotStored` |
| Books.Sheets.GetBooks | app.py:203-228 | returns `CleanedBooks` of the stored rows |
| Books.Sheets.GetCategories | app.py:230-237 | returns the visible categories |
| Books.Sheets.AddCategory | app.py:239-249 | appends the name, duplicates included, reports success and leaves the books sheet alone |
| Books.Sheets.DeleteCategory | app.py:251-257 | removes every row with the name and leaves the books sheet alone |
| Books.Sheets.AddBook | app.py:259-284 | the books sheet becomes `AfterAdd` of the old rows |
| Books.Sheets.UpdateBook | app.py:286-303 | the books sheet becomes `AfterUpdate` of the old rows |
| Books.Sheets.UpdateBookCover | app.py:305-313 | the books sheet becomes `AfterCover` of the old rows |
| Books.Sheets.DeleteBook | app.py:315-320 | the books sheet becomes `AfterDelete` of the old rows |
| Library.CollectTags | app.py:763-767 | the nested loop collects exactly the tags of all rows |
| Library.AllTags | app.py:763-767 | the tags the loop collects; specified by `Library.TagListSpec` |
| Library.TextTagsSpec | app.py:766-767 | every tag of a cell is the stripped text of one of its comma-separated pieces, non-empty, already stripped and free of commas |
| Library.EveryPieceIsTag | app.py:766-767 | every non-empty stripped piece of a cell is one of its tags |
| Library.TagListSpec | app.py:763-767 | a tag is offered exactly when some row's non-empty `tags` cell has it; every offered tag is non-empty, stripped and free of commas |
| Library.HasAnyTagSpec | app.py:796-799 | with no empty target, `has_any_tag` holds exactly when the row's tags and the targets meet; an empty cell never matches |
| Library.HasAnyTag | app.py:796-799 | `has_any_tag`; specified by `Library.HasAnyTagSpec` |
| Library.MatchesQuery | app.py:785-792 | the keyword mask over title, author, tags and notes, where an empty cell matches nothing; `Library.SearchIgnoresCase` states its case folding and `Library.LibraryViewSpec` its use |
| Library.LibraryViewSpec | app.py:782-805 | the three filters together keep exactly the rows that pass every active filter, in their original order |
| Library.LibraryView | app.py:782-805 | the rows left by the keyword, tag and category filters when none raises; specified by `Library.LibraryViewSpec` |
| Library.LibraryPage | app.py:782-805 | the page fails exactly when the table and the keyword are non-empty and either one of the four searched columns has no text at all, or no row matches the keyword while the tag and category filters are both on; otherwise the rows shown are the rows of the table, in order, that pass every active filter, and all of them |
| Library.SearchRaises | app.py:785-792 | `.str` on a column pandas read as numbers, because no cell holds text, raises; specified by `Library.LibraryPage` |
| Library.NoNotesBreaksSearch | app.py:785-792 | when no row has notes, any non-empty keyword makes the library page raise; the registration form starts from the empty note the lookup sets (app.py:357), so this is the state of a library whose notes were never typed |
| Library.CategoryLookupRaises | app.py:801-805 | after a keyword that leaves no row, the tag mask over the empty frame is not boolean, pandas selects columns by it and keeps none, and `df['category']` raises; specified by `Library.LibraryPage` |
| Library.UnmatchedKeyword | app.py:785-805 | a keyword that matches no book lists no book when the category filter is off, and makes the page fail when the tag and category filters are both on |
| Library.SearchIgnoresCase | app.py:785-792 | the keyword search ignores the keyword's case, and finds a row whose title holds the keyword literally |
| Library.ReadDateFor | app.py:681-682 | the read date is the chosen date for a read book and `""` otherwise |
| Library.EntryOf | app.py:676-684 | the entry passed to add_book carries the title, author, tags, status, notes, cover and ISBN as entered, takes the new category when one is given, and keeps the date only for a read book |
| Library.Register | app.py:675-691 | without a title nothing is written; otherwise the new category, if any, is appended and the book is added through add_book |
| Library.SaveEdit | app.py:846-849 | saving an edit goes through update_book, with the date kept only for a read book, and leaves the categories alone |

## Left out

- Digits are the ASCII digits `0`-`9`. Python's `str.isdigit`, `int()` and `\d` also accept other Unicode digits. The model treats those as non-digits.
- Isbn.ToIsbn10: a 13-character argument with a non-digit in the body is excluded by a precondition rather than modelled as the `ValueError` that `int()` raises. Metadata.ResolveBestImageUrl inherits that precondition, as `Metadata.Resolvable`.
- Network calls: `requests.get`, JSON decoding and the Gemini call are not modelled. Each lookup takes the reply it would have received, and `None` stands for a raised exception. The warnings the handlers display are not modelled.
- Metadata.LookupGoogle / Metadata.LookupOpenBd: a JSON `null` is read as an absent key. In the source, `.get(key, default)` returns `None` for a key that is present with value `null`. So `"authors": null` makes the join raise, and a `null` `volumeInfo`, `imageLinks` or `summary` makes the next `.get` raise. Either way the handler returns `None`, while the model gives a record with `""` in those fields. A `null` title stays `None` in the source's dict, where the model has `""`. The copies in DebugIsbn read `null` the same way.
- Metadata.Description: the OpenBD `onix.CollateralDetail.TextContent` path is flattened into one optional list. A level that is present but of the wrong type, for which the inner `try` also yields `""`, is not distinguished.
- Image processing: OpenCV, PIL, Otsu thresholding, rotation and pyzbar are not modelled. They are function parameters over an abstract frame type. The payload's UTF-8 decoding is taken as already done.
- Scanner.DecodeImageIsbn builds the queued frames eagerly, as the source does. The cost of building them, and the unused `results` set, are not modelled.
- The Gemini API key comes from the session state and is a parameter, as is whether pyzbar imported.
- Spreadsheet I/O: `get_conn`, `conn.read` and `conn.update` become the fields of `Books.Sheets`.
  - Read and write failures are not modelled. These are the `except` branches of `get_books`, `get_categories`, `add_category` and `delete_category`.
  - Books.Sheets.AddCategory therefore always reports success.
  - Missing columns and an empty sheet with columns are not distinguished from an empty sequence of rows.
- Books.CoerceId handles integers, floats, optionally signed decimal numerals and empty cells. Other text that `pd.to_numeric` accepts (decimals, exponents, surrounding whitespace, `inf`) becomes 0 in the model.
- Row.isbn holds the cell already rendered by `astype(str)`. How pandas renders a float or a `NaN` is not modelled.
- Books.SortKeepsSorted: a table already newest first is proved to come back in the same order, which holds for the model's stable sort. pandas' default quicksort is not stable, so rows with equal timestamps may come back in another order.
- Books.SortNewestFirst: the sort is stable, where pandas' is not. Books.SortSpec states only order and permutation, and those hold for either. The timestamp is a string compared code point by code point. Its formatting from `datetime.now()` is a parameter, `now`.
- Cells of the `tags`, `title`, `author`, `notes` and `category` columns are text or empty. A number stored in such a cell is not modelled: it would make the tag loop raise and `has_any_tag` return False.
- Keyword search is a literal substring match under ASCII case folding. The regex semantics of `str.contains` (regex on by default) and Unicode case folding are not modelled.
- The tag list is a set. Its sorted presentation in the multiselect is not modelled.
- UI: the Streamlit widgets, session-state plumbing, CSS, the registration and edit screens' layout, messages, reruns and sleeps are not modelled.
- The CSV import (it uses an undefined `sqlite3`/`DB_PATH`), the QR code and the tunnel file are not modelled.
- The debugging script's `test_isbn` driver only prints, and is not modelled.
- verify_sheets.py is not part of this model.
- Scanner.DecodeImageIsbn / Scanner.ScanQueued: only `cvtColor` on a frame with no pixel is modelled as raising. `cv2.rotate`, `cv2.threshold` and `cvtColor` on a non-empty frame are total in the model. The exception that escapes is caught by the caller's handler (app.py:646), which is UI and not modelled.
- Books.AfterAdd and Library.LibraryPage: an empty string written to the sheet is stored in the model as `Str("")`, but the sheet reads it back as an empty cell. The model does not connect the two, so the search failure of `Library.NoNotesBreaksSearch` is stated over rows as read.
