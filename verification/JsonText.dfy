/**
 * JavaScript strings as sequences of UTF-16 code units, their default sort order, and the
 * quoting that JSON.stringify gives them (section 7 of RFC 8259; lone surrogates are escaped).
 */
module JsonText {
  import opened Outcomes

  type Unit = u: nat | u < 0x1_0000
  type Text = seq<Unit>

  const QUOTE: Unit := 0x22
  const COMMA: Unit := 0x2C
  const COLON: Unit := 0x3A
  const LBRACKET: Unit := 0x5B
  const BACKSLASH: Unit := 0x5C
  const RBRACKET: Unit := 0x5D
  const LOWER_U: Unit := 0x75
  const LBRACE: Unit := 0x7B
  const RBRACE: Unit := 0x7D

  // ----- order of Array.prototype.sort on strings

  predicate Less(a: Text, b: Text) {
    b != [] && (a == [] || a[0] < b[0] || (a[0] == b[0] && Less(a[1..], b[1..])))
  }

  lemma {:induction false} LessTrans(a: Text, b: Text, c: Text)
    requires Less(a, b) && Less(b, c)
    ensures Less(a, c)
  {
    if a != [] && a[0] == b[0] == c[0] {
      LessTrans(a[1..], b[1..], c[1..]);
    }
  }

  lemma {:induction false} LessTotal(a: Text, b: Text)
    ensures !(Less(a, b) && Less(b, a))
    ensures Less(a, b) || Less(b, a) <==> a != b
  {
    if a != [] && b != [] && a[0] == b[0] {
      LessTotal(a[1..], b[1..]);
      assert a == [a[0]] + a[1..] && b == [b[0]] + b[1..];
    }
  }

  /** They agree before i, where a ends or has the smaller code unit. */
  predicate SmallerAt(a: Text, b: Text, i: nat) {
    i <= |a| && i < |b| && a[..i] == b[..i] && (i == |a| || a[i] < b[i])
  }

  /** By code units: at the first difference the smaller unit, or the end, comes first. */
  ghost predicate Before(a: Text, b: Text) {
    exists i: nat :: SmallerAt(a, b, i)
  }

  lemma {:induction false} FirstAgrees(a: Text, b: Text, i: nat)
    requires SmallerAt(a, b, i) && i > 0
    ensures a[0] == b[0] && SmallerAt(a[1..], b[1..], i - 1)
  {
    assert a[0] == a[..i][0] && b[0] == b[..i][0];
    assert a[1..][..i - 1] == a[..i][1..] && b[1..][..i - 1] == b[..i][1..];
  }

  /** Code units decide at the first difference, and a proper prefix comes first. */
  lemma {:induction false} LessExactly(a: Text, b: Text)
    ensures Less(a, b) <==> Before(a, b)
  {
    if b != [] && (a == [] || a[0] < b[0]) {
      assert SmallerAt(a, b, 0);
    } else if b != [] && a[0] == b[0] {
      LessExactly(a[1..], b[1..]);
      if Less(a, b) {
        var i: nat :| SmallerAt(a[1..], b[1..], i);
        assert a[..i + 1] == [a[0]] + a[1..][..i] && b[..i + 1] == [b[0]] + b[1..][..i];
        assert SmallerAt(a, b, i + 1);
      }
    }
    if i: nat :| SmallerAt(a, b, i) {
      if i > 0 {
        FirstAgrees(a, b, i);
      }
    }
  }

  // ----- quoting

  predicate IsLead(u: Unit) {
    0xD800 <= u < 0xDC00
  }

  predicate IsTrail(u: Unit) {
    0xDC00 <= u < 0xE000
  }

  /** Lower-case hexadecimal digits. */
  function HexDigit(n: nat): Unit
    requires n < 16
  {
    if n < 10 then 0x30 + n else 0x61 + (n - 10)
  }

  function HexValue(u: Unit): Option<nat> {
    if 0x30 <= u < 0x3A then Some(u - 0x30)
    else if 0x61 <= u < 0x67 then Some(u - 0x61 + 10)
    else None
  }

  function UnicodeEscape(u: Unit): Text {
    [BACKSLASH, LOWER_U, HexDigit(u / 4096), HexDigit(u / 256 % 16), HexDigit(u / 16 % 16), HexDigit(u % 16)]
  }

  /** The letter of a two-character escape: \b \t \n \f \r \" \\ */
  function ShortEscape(u: Unit): Option<Unit> {
    if u == 0x08 then Some(0x62)
    else if u == 0x09 then Some(0x74)
    else if u == 0x0A then Some(0x6E)
    else if u == 0x0C then Some(0x66)
    else if u == 0x0D then Some(0x72)
    else if u == QUOTE || u == BACKSLASH then Some(u)
    else None
  }

  function ShortUnescape(c: Unit): Option<Unit> {
    if c == 0x62 then Some(0x08)
    else if c == 0x74 then Some(0x09)
    else if c == 0x6E then Some(0x0A)
    else if c == 0x66 then Some(0x0C)
    else if c == 0x72 then Some(0x0D)
    else if c == QUOTE || c == BACKSLASH then Some(c)
    else None
  }

  function EscapeUnit(u: Unit): Text {
    if ShortEscape(u).Some? then [BACKSLASH, ShortEscape(u).value]
    else if u < 0x20 || IsLead(u) || IsTrail(u) then UnicodeEscape(u)
    else [u]
  }

  function QuoteBody(s: Text): Text {
    if s == [] then []
    else if |s| >= 2 && IsLead(s[0]) && IsTrail(s[1]) then [s[0], s[1]] + QuoteBody(s[2..])
    else EscapeUnit(s[0]) + QuoteBody(s[1..])
  }

  function Quote(s: Text): Text {
    [QUOTE] + QuoteBody(s) + [QUOTE]
  }

  /** One character of a string literal, read off the front of t: the unit and what is left. */
  function ReadUnit(t: Text): (r: Option<(Unit, Text)>)
    ensures r.Some? ==> |r.value.1| < |t|
  {
    if t == [] || t[0] == QUOTE then None
    else if t[0] != BACKSLASH then Some((t[0], t[1..]))
    else if |t| >= 2 && ShortUnescape(t[1]).Some? then Some((ShortUnescape(t[1]).value, t[2..]))
    else if |t| >= 6 && t[1] == LOWER_U then
      match (HexValue(t[2]), HexValue(t[3]), HexValue(t[4]), HexValue(t[5]))
      case (Some(a), Some(b), Some(c), Some(d)) =>
        var u := a * 4096 + b * 256 + c * 16 + d;
        if u < 0x1_0000 then Some((u, t[6..])) else None
      case _ => None
    else None
  }

  /** The rest of a string literal after its opening quote, and what follows the closing one. */
  function ReadBody(t: Text): (r: Option<(Text, Text)>)
    ensures r.Some? ==> |r.value.1| < |t|
    decreases |t|
  {
    if t != [] && t[0] == QUOTE then
      Some(([], t[1..]))
    else
      match ReadUnit(t)
      case None => None
      case Some((u, rest)) =>
        match ReadBody(rest)
        case None => None
        case Some((s, rest')) => Some(([u] + s, rest'))
  }

  lemma {:induction false} ReadEscaped(u: Unit, r: Text)
    ensures ReadUnit(EscapeUnit(u) + r) == Some((u, r))
  {
    if ShortEscape(u).Some? {
      ReadShort(u, r);
    } else if u < 0x20 || IsLead(u) || IsTrail(u) {
      HexSum(u);
      ReadHex(u / 4096, u / 256 % 16, u / 16 % 16, u % 16, r);
    } else {
      assert ([u] + r)[1..] == r;
    }
  }

  lemma {:induction false} ReadShort(u: Unit, r: Text)
    requires ShortEscape(u).Some?
    ensures ReadUnit([BACKSLASH, ShortEscape(u).value] + r) == Some((u, r))
  {
    assert ([BACKSLASH, ShortEscape(u).value] + r)[2..] == r;
  }

  lemma {:induction false} HexSum(u: Unit)
    ensures u / 4096 < 16 && u == u / 4096 * 4096 + u / 256 % 16 * 256 + u / 16 % 16 * 16 + u % 16
  {
    Nibble(u);
    Nibble(u / 16);
    Nibble(u / 256);
    Sixteenths(u);
  }

  lemma {:induction false} Nibble(n: nat)
    ensures n == n / 16 * 16 + n % 16
  {
  }

  lemma {:induction false} Sixteenths(n: nat)
    ensures n / 16 / 16 == n / 256 && n / 256 / 16 == n / 4096
  {
  }

  lemma {:induction false} ReadHex(a: nat, b: nat, c: nat, d: nat, r: Text)
    requires a < 16 && b < 16 && c < 16 && d < 16
    ensures ReadUnit([BACKSLASH, LOWER_U, HexDigit(a), HexDigit(b), HexDigit(c), HexDigit(d)] + r)
            == Some((a * 4096 + b * 256 + c * 16 + d, r))
  {
    var t := [BACKSLASH, LOWER_U, HexDigit(a), HexDigit(b), HexDigit(c), HexDigit(d)] + r;
    assert t[6..] == r;
    HexRoundTrip(a);
    HexRoundTrip(b);
    HexRoundTrip(c);
    HexRoundTrip(d);
  }

  lemma {:induction false} HexRoundTrip(n: nat)
    requires n < 16
    ensures HexValue(HexDigit(n)) == Some(n)
  {
  }

  lemma {:induction false} ReadStep(t: Text, u: Unit, rest: Text, s: Text, r: Text)
    requires ReadUnit(t) == Some((u, rest)) && ReadBody(rest) == Some((s, r))
    ensures ReadBody(t) == Some(([u] + s, r))
  {
  }

  lemma {:induction false} ReadRaw(u: Unit, rest: Text)
    requires u != QUOTE && u != BACKSLASH
    ensures ReadUnit([u] + rest) == Some((u, rest))
  {
    assert ([u] + rest)[1..] == rest;
  }

  lemma {:induction false} ReadPair(a: Unit, b: Unit, rest: Text, s: Text, r: Text)
    requires IsLead(a) && IsTrail(b) && ReadBody(rest) == Some((s, r))
    ensures ReadBody([a, b] + rest) == Some(([a, b] + s, r))
  {
    ReadRaw(b, rest);
    ReadStep([b] + rest, b, rest, s, r);
    ReadRaw(a, [b] + rest);
    ReadStep([a] + ([b] + rest), a, [b] + rest, [b] + s, r);
    assert [a, b] + rest == [a] + ([b] + rest);
    assert [a, b] + s == [a] + ([b] + s);
  }

  lemma {:induction false} ReadOne(a: Unit, rest: Text, s: Text, r: Text)
    requires ReadBody(rest) == Some((s, r))
    ensures ReadBody(EscapeUnit(a) + rest) == Some(([a] + s, r))
  {
    ReadEscaped(a, rest);
    ReadStep(EscapeUnit(a) + rest, a, rest, s, r);
  }

  lemma {:induction false} Assoc(a: Text, b: Text, c: Text)
    ensures (a + b) + c == a + (b + c)
  {
  }

  /** Reading a quoted string gives the string back, whatever follows it. */
  lemma {:induction false} ReadQuoted(s: Text, r: Text)
    ensures ReadBody(QuoteBody(s) + ([QUOTE] + r)) == Some((s, r))
    decreases |s|
  {
    var tail := [QUOTE] + r;
    if s == [] {
      assert QuoteBody(s) + tail == tail && tail[1..] == r;
    } else if |s| >= 2 && IsLead(s[0]) && IsTrail(s[1]) {
      ReadQuoted(s[2..], r);
      ReadPair(s[0], s[1], QuoteBody(s[2..]) + tail, s[2..], r);
      Assoc([s[0], s[1]], QuoteBody(s[2..]), tail);
      assert s == [s[0], s[1]] + s[2..];
    } else {
      ReadQuoted(s[1..], r);
      ReadOne(s[0], QuoteBody(s[1..]) + tail, s[1..], r);
      Assoc(EscapeUnit(s[0]), QuoteBody(s[1..]), tail);
      assert s == [s[0]] + s[1..];
    }
  }

  // ----- how strings are quoted

  /**
   * Section 7 of RFC 8259 as JSON.stringify applies it: the two-character escapes where there are
   * any, \u00 and two lower-case digits for the other control characters, and four digits for a
   * surrogate on its own; every other unit stands for itself.
   */
  lemma {:induction false} EscapesAreShortest(u: Unit)
    ensures |EscapeUnit(u)| == 2 <==> u in {0x08, 0x09, 0x0A, 0x0C, 0x0D, 0x22, 0x5C}
    ensures EscapeUnit(0x08) == [0x5C, 0x62] && EscapeUnit(0x09) == [0x5C, 0x74] && EscapeUnit(0x0A) == [0x5C, 0x6E]
    ensures EscapeUnit(0x0C) == [0x5C, 0x66] && EscapeUnit(0x0D) == [0x5C, 0x72]
    ensures EscapeUnit(0x22) == [0x5C, 0x22] && EscapeUnit(0x5C) == [0x5C, 0x5C]
    ensures |EscapeUnit(u)| == 6 <==>
            0xD800 <= u < 0xE000 || (u < 0x20 && u !in {0x08, 0x09, 0x0A, 0x0C, 0x0D})
    ensures |EscapeUnit(u)| == 1 ==> EscapeUnit(u) == [u]
    ensures |EscapeUnit(u)| in {1, 2, 6}
    ensures |EscapeUnit(u)| == 6 ==>
              && EscapeUnit(u)[..2] == [0x5C, 0x75]
              && forall k :: 2 <= k < 6 ==> 0x30 <= EscapeUnit(u)[k] < 0x3A || 0x61 <= EscapeUnit(u)[k] < 0x67
  {
  }

  /** Text without a quote, backslash, control character or surrogate is quoted verbatim. */
  lemma {:induction false} PlainIsVerbatim(s: Text)
    requires forall k :: 0 <= k < |s| ==> 0x20 <= s[k] < 0xD800 && s[k] != 0x22 && s[k] != 0x5C
    ensures Quote(s) == [0x22] + s + [0x22]
  {
    PlainBody(s);
  }

  lemma {:induction false} PlainBody(s: Text)
    requires forall k :: 0 <= k < |s| ==> 0x20 <= s[k] < 0xD800 && s[k] != 0x22 && s[k] != 0x5C
    ensures QuoteBody(s) == s
  {
    if s != [] {
      PlainBody(s[1..]);
      assert s == [s[0]] + s[1..];
    }
  }
}
