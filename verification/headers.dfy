/** The header block of a STOMP frame: splitting it into lines, and finding the
    body length that a `content-length:` header line declares
    (`get_content_length` in src/frame.rs).

    The source decodes the header bytes lossily into UTF-8 text first. Lossy
    decoding maps every ASCII byte to the same character and never produces an
    ASCII character from a non-ASCII byte, so line feeds, the header name and
    the decimal digits are found in the bytes exactly where the text has them;
    the model therefore works on the header bytes directly. */
module Headers {
  import opened Options
  import opened Bytes

  /** The bytes of "content-length:", matched exactly and case-sensitively. */
  const ContentLengthPrefix: seq<byte> :=
    [0x63, 0x6F, 0x6E, 0x74, 0x65, 0x6E, 0x74, 0x2D, 0x6C, 0x65, 0x6E, 0x67, 0x74, 0x68, 0x3A]

  const PLUS: byte := 0x2B
  const ZERO: byte := 0x30

  /** Largest `usize` on a 64-bit target; `str::parse::<usize>` rejects larger values. */
  const UsizeMax: nat := 0xFFFF_FFFF_FFFF_FFFF

  // ---------------------------------------------------------------- lines

  /** Drops one carriage return from the end of a line ended by a line feed. */
  function StripCR(line: seq<byte>): seq<byte>
  {
    if |line| > 0 && line[|line| - 1] == CR then line[..|line| - 1] else line
  }

  /** The lines of `h` as `str::lines` yields them: split at each line feed, a
      carriage return just before a line feed dropped, the last line kept only
      when it is not empty. No line holds a line feed. */
  function Lines(h: seq<byte>): (ls: seq<seq<byte>>)
    decreases |h|
    ensures |h| > 0 ==> |ls| > 0
    ensures forall k :: 0 <= k < |ls| ==> LF !in ls[k]
  {
    if |h| == 0 then []
    else
      match Position(h, LF)
      case None => [h]
      case Some(i) =>
        var first := StripCR(h[..i]);
        assert LF !in first by {
          assert forall k :: 0 <= k < |first| ==> first[k] == h[..i][k];
        }
        [first] + Lines(h[i + 1..])
  }

  /** The inverse of `Lines` on text without carriage returns: the lines joined
      again with line feeds. */
  function JoinLines(ls: seq<seq<byte>>): seq<byte>
    decreases |ls|
  {
    if |ls| == 0 then []
    else if |ls| == 1 then ls[0]
    else ls[0] + [LF] + JoinLines(ls[1..])
  }

  /** Splitting into lines and joining them again gives back a header block that
      holds no carriage return and does not end with a line feed (as a header
      block never does: its end is the first of two line feeds). */
  lemma {:induction false} LinesRoundTrip(h: seq<byte>)
    requires CR !in h
    requires |h| > 0 ==> h[|h| - 1] != LF
    ensures JoinLines(Lines(h)) == h
    decreases |h|, 1
  {
    if |h| > 0 && Position(h, LF).Some? {
      LinesRoundTripStep(h);
    }
  }

  /** `LinesRoundTrip` for text holding a line feed. */
  lemma {:induction false} LinesRoundTripStep(h: seq<byte>)
    requires CR !in h
    requires |h| > 0 && h[|h| - 1] != LF
    requires Position(h, LF).Some?
    ensures JoinLines(Lines(h)) == h
    decreases |h|, 0
  {
    var i := Position(h, LF).value;
    var tail := h[i + 1..];
    LinesAtFirstFeed(h, i);
    LinesRoundTrip(tail);
    JoinAtFeed(h, i, Lines(tail));
  }

  /** Joining the text before a line feed in front of lines that join to the
      text after it gives back the whole text. */
  lemma JoinAtFeed(h: seq<byte>, i: nat, ls: seq<seq<byte>>)
    requires i < |h| && h[i] == LF
    requires |ls| > 0 && JoinLines(ls) == h[i + 1..]
    ensures JoinLines([h[..i]] + ls) == h
  {
    assert ([h[..i]] + ls)[1..] == ls;
    assert h[..i] + [LF] + h[i + 1..] == h;
  }

  /** Where text without carriage returns has its first line feed at `i`, the
      first line is everything before it, and the rest are the lines after it,
      which again hold no carriage return and do not end with a line feed. */
  lemma LinesAtFirstFeed(h: seq<byte>, i: nat)
    requires CR !in h
    requires |h| > 0 && h[|h| - 1] != LF
    requires Position(h, LF) == Some(i)
    ensures i + 1 < |h|
    ensures Lines(h) == [h[..i]] + Lines(h[i + 1..])
    ensures CR !in h[i + 1..] && h[|h| - 1] == h[i + 1..][|h| - i - 2]
    ensures |Lines(h[i + 1..])| > 0
  {
    assert StripCR(h[..i]) == h[..i] by {
      if i > 0 {
        assert h[..i][i - 1] == h[i - 1];
      }
    }
    var tail := h[i + 1..];
    assert CR !in tail by {
      forall k | 0 <= k < |tail| ensures tail[k] != CR {
        assert tail[k] == h[i + 1 + k];
      }
    }
  }

  // ---------------------------------------------------------------- trimming

  /** The UTF-8 encodings of the characters that `char::is_whitespace` accepts
      (the Unicode White_Space property), by length. */
  predicate Space1(a: byte)
  {
    (0x09 <= a <= 0x0D) || a == 0x20
  }

  predicate Space2(a: byte, b: byte)
  {
    a == 0xC2 && (b == 0x85 || b == 0xA0)
  }

  predicate Space3(a: byte, b: byte, c: byte)
  {
    || (a == 0xE1 && b == 0x9A && c == 0x80)
    || (a == 0xE2 && b == 0x80 && ((0x80 <= c <= 0x8A) || c == 0xA8 || c == 0xA9 || c == 0xAF))
    || (a == 0xE2 && b == 0x81 && c == 0x9F)
    || (a == 0xE3 && b == 0x80 && c == 0x80)
  }

  /** The length of the whitespace character `s` starts with, or 0 if none. */
  function LeadingSpace(s: seq<byte>): (n: nat)
    ensures n <= |s| && n <= 3
  {
    if |s| >= 1 && Space1(s[0]) then 1
    else if |s| >= 2 && Space2(s[0], s[1]) then 2
    else if |s| >= 3 && Space3(s[0], s[1], s[2]) then 3
    else 0
  }

  /** The length of the whitespace character `s` ends with, or 0 if none. */
  function TrailingSpace(s: seq<byte>): (n: nat)
    ensures n <= |s| && n <= 3
  {
    var k := |s|;
    if k >= 1 && Space1(s[k - 1]) then 1
    else if k >= 2 && Space2(s[k - 2], s[k - 1]) then 2
    else if k >= 3 && Space3(s[k - 3], s[k - 2], s[k - 1]) then 3
    else 0
  }

  /** `s` is a run of whitespace characters, read from the front. */
  ghost predicate SpacesFromFront(s: seq<byte>)
    decreases |s|
  {
    |s| == 0 || (LeadingSpace(s) > 0 && SpacesFromFront(s[LeadingSpace(s)..]))
  }

  /** `s` is a run of whitespace characters, read from the back. */
  ghost predicate SpacesFromBack(s: seq<byte>)
    decreases |s|
  {
    |s| == 0 || (TrailingSpace(s) > 0 && SpacesFromBack(s[..|s| - TrailingSpace(s)]))
  }

  /** `LeadingSpace` looks at no more bytes than the character it finds. */
  lemma LeadingSpacePrefix(s: seq<byte>, m: nat)
    requires LeadingSpace(s) <= m <= |s|
    ensures LeadingSpace(s[..m]) == LeadingSpace(s)
  {
  }

  /** `TrailingSpace` looks at no more bytes than the character it finds. */
  lemma TrailingSpaceSuffix(s: seq<byte>, m: nat)
    requires TrailingSpace(s) <= |s| - m
    requires m <= |s|
    ensures TrailingSpace(s[m..]) == TrailingSpace(s)
  {
    var t := s[m..];
    if |t| >= 1 { assert t[|t| - 1] == s[|s| - 1]; }
    if |t| >= 2 { assert t[|t| - 2] == s[|s| - 2]; }
    if |t| >= 3 { assert t[|t| - 3] == s[|s| - 3]; }
  }

  /** `str::trim_start`: removes the whitespace characters `s` starts with. */
  function TrimStart(s: seq<byte>): seq<byte>
    decreases |s|
  {
    var n := LeadingSpace(s);
    if n == 0 then s else TrimStart(s[n..])
  }

  /** `str::trim_end`: removes the whitespace characters `s` ends with. */
  function TrimEnd(s: seq<byte>): seq<byte>
    decreases |s|
  {
    var n := TrailingSpace(s);
    if n == 0 then s else TrimEnd(s[..|s| - n])
  }

  /** What `TrimStart` leaves is a suffix of its input that does not start with
      whitespace, and what it removes is whitespace only. */
  lemma {:induction false} TrimStartSpec(s: seq<byte>)
    ensures var r := TrimStart(s);
      && |r| <= |s| && r == s[|s| - |r|..]
      && SpacesFromFront(s[..|s| - |r|])
      && LeadingSpace(r) == 0
    decreases |s|
  {
    var n := LeadingSpace(s);
    if n > 0 {
      var t := s[n..];
      TrimStartSpec(t);
      var r := TrimStart(t);
      assert TrimStart(s) == r;
      var m := |s| - |r|;
      assert r == s[m..] by {
        assert r == t[|t| - |r|..];
      }
      assert t[..|t| - |r|] == s[n..m];
      SpacesFromFrontCons(s, n, m);
    }
  }

  /** A whitespace character in front of a run of whitespace makes a longer run. */
  lemma SpacesFromFrontCons(s: seq<byte>, n: nat, m: nat)
    requires 0 < n == LeadingSpace(s) <= m <= |s|
    requires SpacesFromFront(s[n..m])
    ensures SpacesFromFront(s[..m])
  {
    LeadingSpacePrefix(s, m);
    assert s[..m][n..] == s[n..m];
  }

  /** What `TrimEnd` leaves is a prefix of its input that does not end with
      whitespace, and what it removes is whitespace only. */
  lemma {:induction false} TrimEndSpec(s: seq<byte>)
    ensures var r := TrimEnd(s);
      && |r| <= |s| && r == s[..|r|]
      && SpacesFromBack(s[|r|..])
      && TrailingSpace(r) == 0
    decreases |s|
  {
    var n := TrailingSpace(s);
    if n > 0 {
      var t := s[..|s| - n];
      TrimEndSpec(t);
      var r := TrimEnd(t);
      assert r == s[..|r|];
      assert t[|r|..] == s[|r|..|s| - n];
      SpacesFromBackCons(s, n, |r|);
    }
  }

  /** A whitespace character after a run of whitespace makes a longer run. */
  lemma SpacesFromBackCons(s: seq<byte>, n: nat, m: nat)
    requires 0 < n == TrailingSpace(s) && m <= |s| - n
    requires SpacesFromBack(s[m..|s| - n])
    ensures SpacesFromBack(s[m..])
  {
    TrailingSpaceSuffix(s, m);
    assert s[m..][..|s| - m - n] == s[m..|s| - n];
  }

  /** `str::trim`. */
  function Trim(s: seq<byte>): seq<byte>
  {
    TrimEnd(TrimStart(s))
  }

  /** What `Trim` keeps is a slice of `s` that neither starts nor ends with
      whitespace, and what it removes on either side is whitespace only. */
  lemma TrimSpec(s: seq<byte>)
    ensures var r := Trim(s);
      && LeadingSpace(r) == 0 && TrailingSpace(r) == 0
      && exists i: nat, j: nat :: i <= j <= |s| && r == s[i..j] && SpacesFromFront(s[..i]) && SpacesFromBack(s[j..])
  {
    var a := TrimStart(s);
    TrimStartSpec(s);
    TrimEndSpec(a);
    var r := TrimEnd(a);
    var i := |s| - |a|;
    LeadingSpacePrefix(a, |r|);
    assert r == s[i..i + |r|] && a[|r|..] == s[i + |r|..];
  }

  // ---------------------------------------------------------------- numbers

  predicate IsDigit(b: byte)
  {
    0x30 <= b <= 0x39
  }

  predicate AllDigits(s: seq<byte>)
  {
    forall k :: 0 <= k < |s| ==> IsDigit(s[k])
  }

  /** The value of a string of decimal digits, most significant first. */
  function DigitsValue(d: seq<byte>): nat
    requires AllDigits(d)
    decreases |d|
  {
    if |d| == 0 then 0
    else 10 * DigitsValue(d[..|d| - 1]) + (d[|d| - 1] as int - 0x30)
  }

  /** The shortest decimal numeral of `n` ("0" for zero). */
  function Decimal(n: nat): (d: seq<byte>)
    decreases n
    ensures |d| > 0 && AllDigits(d)
  {
    var last := (ZERO as int + n % 10) as byte;
    if n < 10 then [last] else Decimal(n / 10) + [last]
  }

  /** `s` with one leading '+' removed, if it has one. */
  function Unsigned(s: seq<byte>): seq<byte>
  {
    if |s| > 0 && s[0] == PLUS then s[1..] else s
  }

  /** `str::parse::<usize>`: an optional '+', then one or more decimal digits,
      whose value must fit in a `usize`. */
  function ParseUsize(s: seq<byte>): (r: Option<nat>)
    ensures r.Some? ==> r.value <= UsizeMax
    ensures r.Some? ==> |s| > 0
  {
    var d := Unsigned(s);
    if |d| > 0 && AllDigits(d) && DigitsValue(d) <= UsizeMax then Some(DigitsValue(d))
    else None
  }

  /** The numeral `Decimal` writes reads back as the number it was made from. */
  lemma {:induction false} DecimalValue(n: nat)
    ensures DigitsValue(Decimal(n)) == n
    decreases n
  {
    if n >= 10 {
      DecimalValue(n / 10);
      var d := Decimal(n);
      assert d[..|d| - 1] == Decimal(n / 10);
    }
  }

  function Zeros(k: nat): (z: seq<byte>)
    ensures |z| == k && AllDigits(z)
  {
    seq(k, _ => ZERO)
  }

  /** Leading zeros do not change the value of a numeral. */
  lemma {:induction false} ZerosValue(k: nat, d: seq<byte>)
    requires AllDigits(d)
    ensures AllDigits(Zeros(k) + d)
    ensures DigitsValue(Zeros(k) + d) == DigitsValue(d)
    decreases |d|
  {
    var s := Zeros(k) + d;
    assert AllDigits(s) by {
      forall i | 0 <= i < |s| ensures IsDigit(s[i]) {
        if i >= k { assert s[i] == d[i - k]; }
      }
    }
    if |d| == 0 {
      assert s == Zeros(k);
      ZerosValueAll(k);
    } else {
      var d' := d[..|d| - 1];
      assert s[..|s| - 1] == Zeros(k) + d';
      ZerosValue(k, d');
    }
  }

  lemma {:induction false} ZerosValueAll(k: nat)
    ensures DigitsValue(Zeros(k)) == 0
    decreases k
  {
    if k > 0 {
      assert Zeros(k)[..k - 1] == Zeros(k - 1);
      ZerosValueAll(k - 1);
    }
  }

  /** A numeral whose first digit is not '0' is the shortest numeral of its value. */
  lemma {:induction false} CanonicalNumeral(d: seq<byte>)
    requires |d| > 0 && AllDigits(d) && (d[0] != ZERO || |d| == 1)
    ensures Decimal(DigitsValue(d)) == d
    ensures |d| > 1 ==> DigitsValue(d) >= 10
    decreases |d|
  {
    if |d| > 1 {
      var d' := d[..|d| - 1];
      assert d'[0] == d[0];
      CanonicalNumeral(d');
      if |d'| == 1 {
        assert DigitsValue(d') == d[0] as int - 0x30 >= 1;
      }
      var v := DigitsValue(d);
      assert v / 10 == DigitsValue(d') && v % 10 == d[|d| - 1] as int - 0x30;
      assert d == d' + [d[|d| - 1]];
    }
  }

  /** Every numeral is some leading zeros followed by the shortest numeral of its value. */
  lemma {:induction false} NumeralForm(d: seq<byte>)
    requires |d| > 0 && AllDigits(d)
    ensures exists k: nat :: k < |d| && d == Zeros(k) + Decimal(DigitsValue(d))
    decreases |d|
  {
    if d[0] != ZERO || |d| == 1 {
      CanonicalNumeral(d);
      assert d == Zeros(0) + Decimal(DigitsValue(d));
    } else {
      var t := d[1..];
      NumeralForm(t);
      var k: nat :| k < |t| && t == Zeros(k) + Decimal(DigitsValue(t));
      assert d == Zeros(1) + t;
      OneMoreZero(t, k, DigitsValue(t));
    }
  }

  /** A '0' put in front of a numeral adds one leading zero and keeps its value. */
  lemma OneMoreZero(t: seq<byte>, k: nat, n: nat)
    requires AllDigits(t) && t == Zeros(k) + Decimal(n) && DigitsValue(t) == n
    ensures Zeros(1) + t == Zeros(k + 1) + Decimal(n)
    ensures DigitsValue(Zeros(1) + t) == n
  {
    ZerosValue(1, t);
    assert Zeros(k + 1) == Zeros(1) + Zeros(k);
  }

  /** A numeral for `n`: an optional '+', `k` zeros, then the shortest numeral of `n`. */
  function Numeral(plus: bool, k: nat, n: nat): seq<byte>
  {
    (if plus then [PLUS] else []) + Zeros(k) + Decimal(n)
  }

  /** Every string `ParseUsize` accepts is a numeral of the value it returns. */
  lemma ParsedIsNumeral(s: seq<byte>, n: nat)
    requires ParseUsize(s) == Some(n)
    ensures exists plus: bool, k: nat :: s == Numeral(plus, k, n)
  {
    var d := Unsigned(s);
    NumeralForm(d);
    var k: nat :| k < |d| && d == Zeros(k) + Decimal(DigitsValue(d));
    UnsignedNumeral(s, k, DigitsValue(d));
  }

  /** A string whose unsigned part is `k` zeros and the shortest numeral of
      `n` is a numeral of `n`. */
  lemma UnsignedNumeral(s: seq<byte>, k: nat, n: nat)
    requires Unsigned(s) == Zeros(k) + Decimal(n)
    ensures s == Numeral(|s| > 0 && s[0] == PLUS, k, n)
  {
    if |s| > 0 && s[0] == PLUS {
      assert s == [PLUS] + s[1..];
    } else {
      assert s == [] + Zeros(k) + Decimal(n);
    }
  }

  /** Every numeral of a value that fits in a `usize` parses to that value. */
  lemma NumeralParses(plus: bool, k: nat, n: nat)
    requires n <= UsizeMax
    ensures ParseUsize(Numeral(plus, k, n)) == Some(n)
  {
    var s := Numeral(plus, k, n);
    var d := Zeros(k) + Decimal(n);
    assert Unsigned(s) == d by {
      if !plus {
        assert s == d;
        if k > 0 { assert s[0] == ZERO; } else { assert s[0] == Decimal(n)[0]; }
      } else {
        assert s == [PLUS] + d;
      }
    }
    ZerosValue(k, Decimal(n));
    DecimalValue(n);
  }

  /** The strings `ParseUsize` accepts are exactly an optional '+', any number
      of '0's and the shortest numeral of a value that fits in a `usize`; it
      returns that value. */
  lemma ParseUsizeAccepts(s: seq<byte>, n: nat)
    ensures ParseUsize(s) == Some(n) <==>
      n <= UsizeMax && exists plus: bool, k: nat :: s == Numeral(plus, k, n)
  {
    if ParseUsize(s) == Some(n) {
      ParsedIsNumeral(s, n);
    }
    if n <= UsizeMax && exists plus: bool, k: nat :: s == Numeral(plus, k, n) {
      var plus: bool, k: nat :| s == Numeral(plus, k, n);
      NumeralParses(plus, k, n);
    }
  }

  // ---------------------------------------------------------------- content-length

  /** The line starts with exactly "content-length:" (`strip_prefix` succeeds). */
  predicate NamesContentLength(line: seq<byte>)
  {
    ContentLengthPrefix <= line
  }

  /** The body length one header line declares: the line starts with exactly
      "content-length:" and the rest, trimmed, parses as a `usize`. */
  function LineValue(line: seq<byte>): (r: Option<nat>)
    ensures r.Some? ==> r.value <= UsizeMax
  {
    if NamesContentLength(line) then ParseUsize(Trim(line[|ContentLengthPrefix|..])) else None
  }

  /** `find_map` of `LineValue` over the lines: the value of the first line
      that declares one. */
  function FirstValue(ls: seq<seq<byte>>): (r: Option<nat>)
    decreases |ls|
    ensures r.Some? ==> r.value <= UsizeMax
  {
    if |ls| == 0 then None
    else
      match LineValue(ls[0])
      case Some(v) => Some(v)
      case None => FirstValue(ls[1..])
  }

  /** `FirstValue` finds nothing exactly when no line declares a value, and
      otherwise returns the value of a line that no earlier line precedes with
      a value of its own. */
  lemma {:induction false} FirstValueSpec(ls: seq<seq<byte>>)
    ensures var r := FirstValue(ls);
      && (r.None? <==> forall k :: 0 <= k < |ls| ==> LineValue(ls[k]).None?)
      && (r.Some? ==> exists k :: 0 <= k < |ls| && LineValue(ls[k]) == r &&
                                  forall j :: 0 <= j < k ==> LineValue(ls[j]).None?)
    decreases |ls|
  {
    if |ls| > 0 && LineValue(ls[0]).None? {
      var t := ls[1..];
      FirstValueSpec(t);
      assert forall k :: 1 <= k < |ls| ==> ls[k] == t[k - 1];
      if FirstValue(t).Some? {
        var k :| 0 <= k < |t| && LineValue(t[k]) == FirstValue(t) &&
                 forall j :: 0 <= j < k ==> LineValue(t[j]).None?;
        assert LineValue(ls[k + 1]) == FirstValue(ls);
      }
    }
  }

  /** `get_content_length`: the value declared by the first header line that
      declares one. */
  function ContentLength(headers: seq<byte>): (r: Option<nat>)
    ensures r.Some? ==> r.value <= UsizeMax
  {
    FirstValue(Lines(headers))
  }

  /** The body length comes from the first line that starts with exactly
      "content-length:" and whose trimmed remainder parses; lines that start
      that way but whose value does not parse are passed over, and with no
      such line there is no length. */
  lemma ContentLengthFirstMatch(headers: seq<byte>)
    ensures var ls := Lines(headers); var r := ContentLength(headers);
      && (r.None? <==> forall k :: 0 <= k < |ls| ==> LineValue(ls[k]).None?)
      && (r.Some? ==> exists k :: 0 <= k < |ls| && LineValue(ls[k]) == r &&
                                  forall j :: 0 <= j < k ==> LineValue(ls[j]).None?)
  {
    FirstValueSpec(Lines(headers));
    assert ContentLength(headers) == FirstValue(Lines(headers));
  }

  /** A line "content-length:N", with N written in the shortest form, declares N. */
  lemma ContentLengthLine(n: nat)
    requires n <= UsizeMax
    ensures LineValue(ContentLengthPrefix + Decimal(n)) == Some(n)
  {
    var line := ContentLengthPrefix + Decimal(n);
    assert line[|ContentLengthPrefix|..] == Decimal(n);
    var d := Decimal(n);
    assert LeadingSpace(d) == 0 && TrimStart(d) == d;
    assert TrailingSpace(d) == 0 && TrimEnd(d) == d;
    NumeralParses(false, 0, n);
    assert d == Numeral(false, 0, n);
  }
}
