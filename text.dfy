/** The string helpers the application leans on: digit filtering, `str.strip`,
    `str.split` / `str.join`, and case-insensitive containment. */
module Text {
  import opened Seqs

  /** An ASCII decimal digit. */
  predicate IsDigit(c: char) {
    '0' <= c <= '9'
  }

  predicate AllDigits(s: string) {
    forall i :: 0 <= i < |s| ==> IsDigit(s[i])
  }

  /** `"".join(filter(str.isdigit, s))`: the digits of `s`, in order. */
  function DigitsOnly(s: string): string {
    Keep(s, IsDigit)
  }

  /** `s.replace(c, "")`. */
  function RemoveAll(s: string, c: char): string {
    Keep(s, (x: char) => x != c)
  }

  /** The characters Python's `str.isspace` accepts, and so `str.strip()` removes. */
  predicate IsSpace(c: char) {
    var n := c as int;
    9 <= n <= 13 || 28 <= n <= 32 || n == 0x85 || n == 0xA0 || n == 0x1680
    || 0x2000 <= n <= 0x200A || n == 0x2028 || n == 0x2029 || n == 0x202F
    || n == 0x205F || n == 0x3000
  }

  predicate AllSpace(s: string) {
    forall i :: 0 <= i < |s| ==> IsSpace(s[i])
  }

  /** The index of the first non-whitespace character of `s`, or `|s|`. */
  function SpanStart(s: string): (k: nat)
    ensures k <= |s|
    ensures forall i :: 0 <= i < k ==> IsSpace(s[i])
    ensures k < |s| ==> !IsSpace(s[k])
    decreases |s|
  {
    if s == [] || !IsSpace(s[0]) then 0 else 1 + SpanStart(s[1..])
  }

  /** One past the index of the last non-whitespace character of `s`, or 0. */
  function SpanEnd(s: string): (k: nat)
    ensures k <= |s|
    ensures forall i :: k <= i < |s| ==> IsSpace(s[i])
    ensures 0 < k ==> !IsSpace(s[k - 1])
    decreases |s|
  {
    if s == [] || !IsSpace(s[|s| - 1]) then |s| else SpanEnd(s[..|s| - 1])
  }

  /** `s.strip()`: `s` without its leading and trailing whitespace. */
  function Strip(s: string): (r: string)
    ensures r == "" || (!IsSpace(r[0]) && !IsSpace(r[|r| - 1]))
    ensures r == "" ==> AllSpace(s)
    ensures r != "" ==> Trimmed(s, r, SpanStart(s))
  {
    var i, j := SpanStart(s), SpanEnd(s);
    if i >= j then ""
    else
      assert s[i..i + |s[i..j]|] == s[i..j];
      s[i..j]
  }

  /** `s` is `r` with the whitespace `s[..i]` before it and whitespace after it. */
  ghost predicate Trimmed(s: string, r: string, i: int) {
    0 <= i <= |s| - |r| && s[i..i + |r|] == r && AllSpace(s[..i]) && AllSpace(s[i + |r|..])
  }

  /** Stripping twice is stripping once. */
  lemma StripIdempotent(s: string)
    ensures Strip(Strip(s)) == Strip(s)
  {
    var r := Strip(s);
    if r != "" {
      assert SpanStart(r) == 0;
      assert SpanEnd(r) == |r|;
      assert r[0..|r|] == r;
    }
  }

  /** A string is the concatenation of its pieces around two cut points. */
  lemma ThreeParts<T>(s: seq<T>, i: nat, j: nat)
    requires i <= j <= |s|
    ensures s == (s[..i] + s[i..j]) + s[j..]
  {
    assert s[..i] + s[i..j] == s[..j];
  }

  /** The whitespace `strip()` removes holds no digit. */
  lemma {:induction false} DigitsIgnoreSpace(t: string)
    ensures DigitsOnly(Strip(t)) == DigitsOnly(t)
  {
    var r := Strip(t);
    if r == "" {
      NoDigitsInSpace(t);
    } else {
      var i := SpanStart(t);
      assert Trimmed(t, r, i);
      var a, b := t[..i], t[i + |r|..];
      NoDigitsInSpace(a);
      NoDigitsInSpace(b);
      calc {
        DigitsOnly(t);
        { ThreeParts(t, i, i + |r|); }
        Keep((a + r) + b, IsDigit);
        { KeepConcat(a + r, b, IsDigit); }
        Keep(a + r, IsDigit) + Keep(b, IsDigit);
        { KeepConcat(a, r, IsDigit); }
        Keep(r, IsDigit);
      }
    }
  }

  /** Removing dashes first does not change which digits are kept. */
  lemma DigitsIgnoreDashes(s: string)
    ensures DigitsOnly(RemoveAll(s, '-')) == DigitsOnly(s)
  {
    KeepKeep(s, (x: char) => x != '-', IsDigit, IsDigit);
  }

  /** The clean-up `str(isbn).replace('-', '').strip()` is subsumed by the digit filter
      that follows it. */
  lemma DigitsIgnoreDashesAndSpace(s: string)
    ensures DigitsOnly(Strip(RemoveAll(s, '-'))) == DigitsOnly(s)
  {
    DigitsIgnoreSpace(RemoveAll(s, '-'));
    DigitsIgnoreDashes(s);
  }

  lemma NoDigitsInSpace(s: string)
    requires AllSpace(s)
    ensures DigitsOnly(s) == []
  {
    assert forall i :: 0 <= i < |s| ==> !IsDigit(s[i]);
    KeepNone(s, IsDigit);
  }

  /** A digit-only string is its own digit filter. */
  lemma DigitsOnlyOfDigits(s: string)
    requires AllDigits(s)
    ensures DigitsOnly(s) == s
  {
    KeepAll(s, IsDigit);
  }

  /** Two digit strings joined by a non-digit: their digits are the two strings put
      together. */
  lemma SpacedDigits(a: string, c: char, b: string)
    requires AllDigits(a) && AllDigits(b) && !IsDigit(c)
    ensures DigitsOnly(a + [c] + b) == a + b
  {
    var ac := a + [c];
    assert Keep(a, IsDigit) == a by { KeepAll(a, IsDigit); }
    assert Keep(b, IsDigit) == b by { KeepAll(b, IsDigit); }
    assert Keep([c], IsDigit) == [] by { KeepNone([c], IsDigit); }
    assert Keep(ac, IsDigit) == a by { KeepConcat(a, [c], IsDigit); }
    assert Keep(ac + b, IsDigit) == a + b by { KeepConcat(ac, b, IsDigit); }
  }

  /** A string of digits is left alone by dash removal, stripping and the digit filter. */
  lemma DigitStringIsClean(s: string)
    requires AllDigits(s)
    ensures Strip(RemoveAll(s, '-')) == s && DigitsOnly(s) == s
  {
    KeepAll(s, (x: char) => x != '-');
    DigitsOnlyOfDigits(s);
    assert !(s != [] && IsSpace(s[0]));
    assert SpanStart(s) == 0;
    assert SpanEnd(s) == |s|;
    assert s[0..|s|] == s;
  }

  /** `s.split(sep)`: the pieces between occurrences of `sep`; always at least one piece. */
  function Split(s: string, sep: char): (pieces: seq<string>)
    ensures |pieces| >= 1
    ensures forall k :: 0 <= k < |pieces| ==> sep !in pieces[k]
    decreases |s|
  {
    if s == [] then [""]
    else
      var rest := Split(s[1..], sep);
      if s[0] == sep then [""] + rest
      else [[s[0]] + rest[0]] + rest[1..]
  }

  /** `sep.join(parts)`. */
  function Join(parts: seq<string>, sep: string): string
    decreases |parts|
  {
    if |parts| == 0 then ""
    else if |parts| == 1 then parts[0]
    else parts[0] + sep + Join(parts[1..], sep)
  }

  /** Joining the pieces of a split with the separator gives back the text. */
  lemma {:induction false} JoinSplit(s: string, sep: char)
    ensures Join(Split(s, sep), [sep]) == s
    decreases |s|
  {
    if s != [] {
      var rest := Split(s[1..], sep);
      JoinSplit(s[1..], sep);
      if s[0] == sep {
        assert ([""] + rest)[1..] == rest;
      } else {
        var pieces := [[s[0]] + rest[0]] + rest[1..];
        if |rest| == 1 {
          assert Join(pieces, [sep]) == [s[0]] + rest[0];
        } else {
          assert pieces[1..] == rest[1..];
          assert Join(rest, [sep]) == rest[0] + [sep] + Join(rest[1..], [sep]);
        }
      }
    }
  }

  /** Joining two or more parts is joining all but the last, then the separator and the
      last part. */
  lemma {:induction false} JoinSnoc(parts: seq<string>, sep: string)
    requires |parts| >= 2
    ensures Join(parts, sep) == Join(parts[..|parts| - 1], sep) + sep + parts[|parts| - 1]
    decreases |parts|
  {
    var init := parts[..|parts| - 1];
    if |parts| == 2 {
      assert init == [parts[0]];
      assert parts[1..] == [parts[1]];
    } else {
      JoinSnoc(parts[1..], sep);
      assert parts[1..][..|parts| - 2] == init[1..];
      assert parts[1..][|parts| - 2] == parts[|parts| - 1];
      assert init[0] == parts[0];
    }
  }

  /** Each part appears, in order, inside the joined text. */
  lemma {:induction false} JoinContainsParts(parts: seq<string>, sep: string, k: nat)
    requires k < |parts|
    ensures IsSubstring(parts[k], Join(parts, sep))
    decreases |parts|
  {
    var j := Join(parts, sep);
    if k == 0 {
      if |parts| > 1 {
        assert j == parts[0] + (sep + Join(parts[1..], sep));
      }
      assert OccursAt(parts[0], j, 0);
    } else {
      JoinContainsParts(parts[1..], sep, k - 1);
      var tail := Join(parts[1..], sep);
      var i :| 0 <= i && OccursAt(parts[k], tail, i);
      var off := |parts[0] + sep|;
      assert j == (parts[0] + sep) + tail;
      assert j[off + i..off + i + |parts[k]|] == tail[i..i + |parts[k]|];
      assert OccursAt(parts[k], j, off + i);
    }
  }

  /** `p` occurs in `s` starting at index `i`. */
  predicate OccursAt(p: string, s: string, i: nat) {
    i + |p| <= |s| && s[i..i + |p|] == p
  }

  /** `p` occurs in `s` as a contiguous block. */
  function IsSubstring(p: string, s: string): (b: bool)
    ensures b <==> exists i: nat :: OccursAt(p, s, i)
    decreases |s|
  {
    if |p| > |s| then false
    else if s[..|p|] == p then assert OccursAt(p, s, 0); true
    else
      var b := IsSubstring(p, s[1..]);
      assert b ==> exists i: nat :: OccursAt(p, s, i) by {
        if b {
          var i: nat :| OccursAt(p, s[1..], i);
          assert s[i + 1..i + 1 + |p|] == s[1..][i..i + |p|];
          assert OccursAt(p, s, i + 1);
        }
      }
      assert (exists i: nat :: OccursAt(p, s, i)) ==> b by {
        if i: nat :| OccursAt(p, s, i) {
          assert i != 0;
          assert s[1..][i - 1..i - 1 + |p|] == s[i..i + |p|];
          assert OccursAt(p, s[1..], i - 1);
        }
      }
      b
  }

  /** ASCII upper case letters mapped to lower case; everything else unchanged. */
  function LowerChar(c: char): char {
    if 'A' <= c <= 'Z' then (c as int + 32) as char else c
  }

  function Lower(s: string): (r: string)
    ensures |r| == |s| && forall i :: 0 <= i < |s| ==> r[i] == LowerChar(s[i])
  {
    seq(|s|, i requires 0 <= i < |s| => LowerChar(s[i]))
  }

  /** `s.startswith(prefix)`. */
  predicate StartsWith(s: string, prefix: string) {
    |prefix| <= |s| && s[..|prefix|] == prefix
  }
}
