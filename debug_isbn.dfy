/** The debugging script's own copies of the conversion and the two mappers
    (debug_isbn.py). Its driver only prints, and is not modelled. */
module DebugIsbn {
  import opened Options
  import Isbn
  import Metadata

  /** to_isbn10 (debug_isbn.py:4-16): the same loop as app.py's, so it computes the same
      conversion on every input. */
  method ToIsbn10(isbn13: string) returns (r: Option<string>)
    requires Isbn.ConvertibleBody(isbn13)
    ensures r == Isbn.LegacyForm(isbn13)
    ensures r.None? <==> |isbn13| != 13
    ensures r.Some? ==> |r.value| == 10 && r.value[..9] == isbn13[3..12] && Isbn.ValidIsbn10(r.value)
  {
    if |isbn13| == 0 || |isbn13| != 13 {
      return None;
    }
    var body := isbn13[3..12];
    assert forall i :: 0 <= i < |body| ==> body[i] == isbn13[3 + i];
    var checksum := 0;
    for i := 0 to |body|
      invariant checksum == Isbn.Checksum(body[..i])
    {
      assert body[..i + 1][..i] == body[..i];
      checksum := checksum + Isbn.DigitValue(body[i]) * (10 - i);
    }
    assert body[..|body|] == body;
    var remainder := checksum % 11;
    var checkDigit := 11 - remainder;
    var check: char;
    if checkDigit == 10 {
      check := 'X';
    } else if checkDigit == 11 {
      check := '0';
    } else {
      check := Isbn.DigitChar(checkDigit);
    }
    r := Some(body + [check]);
    Isbn.LegacyFormIsValid(isbn13);
  }

  /** get_google_books_data (debug_isbn.py:18-38): the same request and the same mapping
      as app.py's; only the diagnostics it prints differ. */
  function LookupGoogle(reply: Option<Metadata.Reply<Metadata.GoogleBody>>): (r: Option<Metadata.SourceRecord>)
    ensures r == Metadata.LookupGoogle(reply)
    ensures r.Some? ==>
              var info := reply.value.body.value.items.value[0].volumeInfo.GetOr(Metadata.NoVolumeInfo);
              && r.value.title == info.title.GetOr("")
              && (info.authors.None? || info.authors == Some([]) ==> r.value.author == "")
  {
    match reply
    case None => None
    case Some(resp) =>
      if resp.status != 200 || resp.body.None? then None
      else match resp.body.value.items
        case None => None
        case Some(items) =>
          if |items| == 0 then None
          else Some(Metadata.FromVolumeInfo(items[0].volumeInfo.GetOr(Metadata.NoVolumeInfo)))
  }

  /** The debugging script's OpenBD record: title, author and cover only, no notes. */
  datatype SummaryRecord = SummaryRecord(title: string, author: string, coverUrl: string)

  /** get_openbd_data (debug_isbn.py:40-59): the summary part of app.py's mapper, without
      the description lookup; a `null` or `{}` first entry gives nothing. */
  function LookupOpenBd(reply: Option<Metadata.Reply<seq<Option<Metadata.OpenBdEntry>>>>): (r: Option<SummaryRecord>)
    ensures r.Some? <==> Metadata.LookupOpenBd(reply).Some?
    ensures r.Some? ==>
              var full := Metadata.LookupOpenBd(reply).value;
              r.value == SummaryRecord(full.title, full.author, full.coverUrl)
  {
    match reply
    case None => None
    case Some(resp) =>
      if resp.status != 200 || resp.body.None? then None
      else
        var data := resp.body.value;
        if |data| == 0 || !Metadata.Truthy(data[0]) then None
        else
          var summary := data[0].value.summary.GetOr(Metadata.Summary(None, None, None));
          Some(SummaryRecord(summary.title.GetOr(""), summary.author.GetOr(""), summary.cover.GetOr("")))
  }
}
