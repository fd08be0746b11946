/** ISBN-13 to ISBN-10 conversion (`to_isbn10`, app.py:185-197), with the
    modulus-11 check character of ISO 2108. */
module Isbn {
  import opened Options
  import opened Text

  /** `int(c)` for a digit character. */
  function DigitValue(c: char): nat
    requires IsDigit(c)
  {
    c as int - '0' as int
  }

  /** `str(n)` for a single decimal digit. */
  function DigitChar(n: nat): char
    requires n < 10
  {
    ('0' as int + n) as char
  }

  /** `int(digit)` succeeds on every body character: the one thing `to_isbn10` demands
      of a 13-character argument. */
  predicate ConvertibleBody(isbn13: string) {
    |isbn13| == 13 ==> forall i :: 3 <= i < 12 ==> IsDigit(isbn13[i])
  }

  lemma PrefixDigits(s: string, n: nat)
    requires AllDigits(s) && n <= |s|
    ensures AllDigits(s[..n])
  {
    var p := s[..n];
    forall i | 0 <= i < |p| ensures IsDigit(p[i]) {
      assert p[i] == s[i];
    }
  }

  /** The value of `checksum` once the loop has consumed `body`: the digits weighted
      10, 9, 8, ... from the left. */
  function Checksum(body: string): int
    requires AllDigits(body)
    decreases |body|
  {
    if body == [] then 0
    else
      PrefixDigits(body, |body| - 1);
      Checksum(body[..|body| - 1]) + DigitValue(body[|body| - 1]) * (10 - (|body| - 1))
  }

  /** The check character for a body whose weighted sum is `checksum`: `11 - checksum % 11`,
      written `'X'` for 10 and `'0'` for 11. */
  function CheckCharacter(checksum: int): char {
    var check := 11 - checksum % 11;
    if check == 10 then 'X' else if check == 11 then '0' else DigitChar(check)
  }

  /** What `to_isbn10` returns: `None` unless the argument has 13 characters;
      otherwise the body `isbn13[3:12]` followed by its check character. */
  function LegacyForm(isbn13: string): Option<string>
    requires ConvertibleBody(isbn13)
  {
    if |isbn13| != 13 then None
    else
      var body := isbn13[3..12];
      assert AllDigits(body) by {
        forall i | 0 <= i < |body| ensures IsDigit(body[i]) {
          assert body[i] == isbn13[3 + i];
        }
      }
      Some(body + [CheckCharacter(Checksum(body))])
  }

  /** to_isbn10 (app.py:185-197). */
  method ToIsbn10(isbn13: string) returns (r: Option<string>)
    requires ConvertibleBody(isbn13)
    ensures r == LegacyForm(isbn13)
  {
    if |isbn13| == 0 || |isbn13| != 13 {
      return None;
    }
    var body := isbn13[3..12];
    assert forall i :: 0 <= i < |body| ==> body[i] == isbn13[3 + i];
    var checksum := 0;
    for i := 0 to |body|
      invariant checksum == Checksum(body[..i])
    {
      assert body[..i + 1][..i] == body[..i];
      checksum := checksum + DigitValue(body[i]) * (10 - i);
    }
    assert body[..|body|] == body;
    var remainder := checksum % 11;
    var checkDigit := 11 - remainder;
    var check: char;
    if checkDigit == 10 {
      check := 'X';
    } else if checkDigit == 11 {
      check := '0';
    } else {
      check := DigitChar(checkDigit);
    }
    r := Some(body + [check]);
  }

  // ---- ISBN-10 validity, stated independently of the conversion ----

  /** The value ISO 2108 gives a character of an ISBN-10: a digit its value, `'X'` ten. */
  function Isbn10Value(c: char): int {
    if c == 'X' then 10 else c as int - '0' as int
  }

  /** The weighted sum of `s[i..]`, position `k` weighted `10 - k`. */
  function WeightedSum(s: string, i: nat): int
    requires i <= |s|
    decreases |s| - i
  {
    if i == |s| then 0 else Isbn10Value(s[i]) * (10 - i) + WeightedSum(s, i + 1)
  }

  /** A well-formed ISBN-10: nine digits, then a digit or `'X'`, with the weighted sum
      (weights 10 down to 1) divisible by 11. */
  predicate ValidIsbn10(s: string) {
    |s| == 10 && AllDigits(s[..9]) && (IsDigit(s[9]) || s[9] == 'X') && WeightedSum(s, 0) % 11 == 0
  }

  /** The running checksum of a digit prefix plus the weighted sum of the rest is the
      weighted sum of the whole. */
  lemma {:induction false} SumSplit(s: string, i: nat)
    requires i <= |s| && AllDigits(s[..i])
    ensures WeightedSum(s, 0) == Checksum(s[..i]) + WeightedSum(s, i)
  {
    if i > 0 {
      PrefixDigits(s[..i], i - 1);
      assert s[..i][..i - 1] == s[..i - 1];
      SumSplit(s, i - 1);
      assert s[..i][..i - 1] == s[..i - 1];
      assert s[..i][i - 1] == s[i - 1];
    }
  }

  /** One iteration of the loop at app.py:190-191. */
  lemma ChecksumStep(body: string, n: nat)
    requires AllDigits(body) && n < |body|
    ensures AllDigits(body[..n]) && AllDigits(body[..n + 1])
    ensures Checksum(body[..n + 1]) == Checksum(body[..n]) + DigitValue(body[n]) * (10 - n)
  {
    PrefixDigits(body, n);
    PrefixDigits(body, n + 1);
    assert body[..n + 1][..n] == body[..n];
  }

  /** The checksum of a nine-digit body plus the value of the check character of that body
      is divisible by 11. */
  lemma CheckCharacterCompletes(checksum: int)
    requires checksum >= 0
    ensures var c := CheckCharacter(checksum);
            (IsDigit(c) || c == 'X') && (checksum + Isbn10Value(c)) % 11 == 0
  {
    var m := checksum % 11;
    assert checksum == 11 * (checksum / 11) + m;
    var c := CheckCharacter(checksum);
    if m == 0 {
      assert c == '0';
    } else if m == 1 {
      assert c == 'X';
      assert checksum + 10 == 11 * (checksum / 11 + 1);
    } else {
      assert Isbn10Value(c) == 11 - m;
      assert checksum + Isbn10Value(c) == 11 * (checksum / 11 + 1);
    }
  }

  lemma {:induction false} ChecksumNonNegative(body: string)
    requires AllDigits(body) && |body| <= 10
    ensures Checksum(body) >= 0
    decreases |body|
  {
    if body != [] {
      PrefixDigits(body, |body| - 1);
      ChecksumNonNegative(body[..|body| - 1]);
      var d, w := DigitValue(body[|body| - 1]), 10 - (|body| - 1);
      assert 0 <= d && 1 <= w;
      assert 0 <= d * w;
    }
  }

  /** `to_isbn10` returns `None` exactly when its argument is not 13 characters long
      (the empty string included); otherwise a 10-character string made of the body
      `isbn13[3:12]` and a check character, and that string is a valid ISBN-10. */
  lemma {:induction false} LegacyFormIsValid(isbn13: string)
    requires ConvertibleBody(isbn13)
    ensures LegacyForm(isbn13).None? <==> |isbn13| != 13
    ensures LegacyForm(isbn13).Some? ==>
              var r := LegacyForm(isbn13).value;
              |r| == 10 && r[..9] == isbn13[3..12] && (IsDigit(r[9]) || r[9] == 'X') && ValidIsbn10(r)
  {
    if |isbn13| == 13 {
      var body := isbn13[3..12];
      assert AllDigits(body) by {
        forall i | 0 <= i < |body| ensures IsDigit(body[i]) {
          assert body[i] == isbn13[3 + i];
        }
      }
      var r := LegacyForm(isbn13).value;
      assert r[..9] == body;
      ChecksumNonNegative(body);
      CheckCharacterCompletes(Checksum(body));
      SumSplit(r, 9);
      assert WeightedSum(r, 9) == Isbn10Value(r[9]);
    }
  }

  /** The check character is the only one that makes the ISBN-10 valid: re-deriving the
      check from a valid result reproduces the character `to_isbn10` appended. */
  lemma {:induction false} CheckCharacterUnique(body: string, c: char)
    requires |body| == 9 && AllDigits(body)
    requires ValidIsbn10(body + [c])
    ensures c == CheckCharacter(Checksum(body))
  {
    var r := body + [c];
    assert r[..9] == body;
    SumSplit(r, 9);
    assert WeightedSum(r, 9) == Isbn10Value(c);
    ChecksumNonNegative(body);
    var k := CheckCharacter(Checksum(body));
    CheckCharacterCompletes(Checksum(body));
    var s := Checksum(body);
    assert (s + Isbn10Value(c)) % 11 == 0;
    assert (s + Isbn10Value(k)) % 11 == 0;
    assert 0 <= Isbn10Value(c) <= 10 && 0 <= Isbn10Value(k) <= 10;
    assert Isbn10Value(c) == Isbn10Value(k) by {
      var q1, q2 := (s + Isbn10Value(c)) / 11, (s + Isbn10Value(k)) / 11;
      assert s + Isbn10Value(c) == 11 * q1;
      assert s + Isbn10Value(k) == 11 * q2;
      assert -10 <= 11 * (q1 - q2) <= 10;
    }
  }

  /** Remainder 0 gives check character `'0'` and remainder 1 gives `'X'`
      (app.py:192-195). */
  lemma CheckCharacterEdges(checksum: int)
    ensures checksum % 11 == 0 ==> CheckCharacter(checksum) == '0'
    ensures checksum % 11 == 1 ==> CheckCharacter(checksum) == 'X'
    ensures 2 <= checksum % 11 ==> CheckCharacter(checksum) == DigitChar(11 - checksum % 11)
  {
  }

  /** The first ISBN the debugging script tries (debug_isbn.py:79); its body has
      remainder 0, so it takes the 11 -> `'0'` branch. */
  lemma ZeroToOneConversion()
    ensures LegacyForm("9784798132646") == Some("4798132640")
  {
    var b := "9784798132646"[3..12];
    assert b == "479813264";
    ChecksumStep(b, 0);
    ChecksumStep(b, 1);
    ChecksumStep(b, 2);
    ChecksumStep(b, 3);
    ChecksumStep(b, 4);
    ChecksumStep(b, 5);
    ChecksumStep(b, 6);
    ChecksumStep(b, 7);
    ChecksumStep(b, 8);
    assert b[..9] == b;
    assert Checksum(b) == 286 && 286 % 11 == 0;
    assert CheckCharacter(286) == '0';
    assert LegacyForm("9784798132646") == Some(b + ['0']);
    assert b + ['0'] == "4798132640";
  }

  /** The second ISBN the debugging script tries (debug_isbn.py:81). */
  lemma DeepLearningConversion()
    ensures LegacyForm("9784873119328") == Some("4873119324")
  {
    var b := "9784873119328"[3..12];
    assert b == "487311932";
    ChecksumStep(b, 0);
    ChecksumStep(b, 1);
    ChecksumStep(b, 2);
    ChecksumStep(b, 3);
    ChecksumStep(b, 4);
    ChecksumStep(b, 5);
    ChecksumStep(b, 6);
    ChecksumStep(b, 7);
    ChecksumStep(b, 8);
    assert b[..9] == b;
    assert Checksum(b) == 249 && 249 % 11 == 7;
    assert CheckCharacter(249) == DigitChar(4) == '4';
    assert LegacyForm("9784873119328") == Some(b + ['4']);
    assert b + ['4'] == "4873119324";
  }
}
