/**
 * `Buffer.from(text, 'utf8')`. The conversion replaces a lone surrogate and so loses information
 * on arbitrary strings; on text without lone surrogates it can be undone.
 */
module Utf8 {
  import opened Outcomes
  import opened Radix
  import opened JsonText

  function PairPoint(lead: Unit, trail: Unit): nat
    requires IsLead(lead) && IsTrail(trail)
  {
    0x1_0000 + (lead - 0xD800) * 0x400 + (trail - 0xDC00)
  }

  function EncodePair(p: nat): seq<byte>
    requires 0x1_0000 <= p < 0x11_0000
  {
    [0xF0 + p / 0x4_0000, 0x80 + p / 0x1000 % 64, 0x80 + p / 64 % 64, 0x80 + p % 64]
  }

  function EncodeUnit(u: Unit): seq<byte> {
    if u < 0x80 then [u]
    else if u < 0x800 then [0xC0 + u / 64, 0x80 + u % 64]
    else if IsLead(u) || IsTrail(u) then [0xEF, 0xBF, 0xBD]
    else [0xE0 + u / 0x1000, 0x80 + u / 64 % 64, 0x80 + u % 64]
  }

  function Encode(t: Text): seq<byte> {
    if t == [] then []
    else if |t| >= 2 && IsLead(t[0]) && IsTrail(t[1]) then EncodePair(PairPoint(t[0], t[1])) + Encode(t[2..])
    else EncodeUnit(t[0]) + Encode(t[1..])
  }

  /** Every surrogate is half of a pair. */
  predicate Paired(t: Text) {
    t == [] ||
    (if IsLead(t[0]) then |t| >= 2 && IsTrail(t[1]) && Paired(t[2..])
     else !IsTrail(t[0]) && Paired(t[1..]))
  }

  predicate IsContinuation(b: byte) {
    0x80 <= b < 0xC0
  }

  /** The payload of a byte whose prefix is the given one. */
  function Payload(b: byte, prefix: nat): nat
    requires prefix <= b
  {
    b - prefix
  }

  function One(b: byte): Unit {
    b
  }

  function Two(b: byte, c: byte): Unit
    requires 0xC0 <= b < 0xE0 && IsContinuation(c)
  {
    Payload(b, 0xC0) * 64 + Payload(c, 0x80)
  }

  function Three(b: byte, c: byte, d: byte): Unit
    requires 0xE0 <= b < 0xF0 && IsContinuation(c) && IsContinuation(d)
  {
    Payload(b, 0xE0) * 0x1000 + Payload(c, 0x80) * 64 + Payload(d, 0x80)
  }

  function Four(b: byte, c: byte, d: byte, e: byte): nat
    requires 0xF0 <= b && IsContinuation(c) && IsContinuation(d) && IsContinuation(e)
  {
    Payload(b, 0xF0) * 0x4_0000 + Payload(c, 0x80) * 0x1000 + Payload(d, 0x80) * 64 + Payload(e, 0x80)
  }

  /** One code point off the front. */
  function ReadPoint(b: seq<byte>): (r: Option<(Text, seq<byte>)>)
    ensures r.Some? ==> |r.value.1| < |b|
  {
    if b == [] then None
    else if b[0] < 0x80 then Some(([One(b[0])], b[1..]))
    else if 0xC0 <= b[0] < 0xE0 && |b| >= 2 && IsContinuation(b[1]) then Some(([Two(b[0], b[1])], b[2..]))
    else if 0xE0 <= b[0] < 0xF0 && |b| >= 3 && IsContinuation(b[1]) && IsContinuation(b[2]) then
      Some(([Three(b[0], b[1], b[2])], b[3..]))
    else if 0xF0 <= b[0] && |b| >= 4 && IsContinuation(b[1]) && IsContinuation(b[2]) && IsContinuation(b[3]) then
      var p := Four(b[0], b[1], b[2], b[3]);
      if 0x1_0000 <= p < 0x11_0000 then Some((Surrogates(p), b[4..])) else None
    else None
  }

  function Surrogates(p: nat): Text
    requires 0x1_0000 <= p < 0x11_0000
  {
    [0xD800 + (p - 0x1_0000) / 0x400, 0xDC00 + (p - 0x1_0000) % 0x400]
  }

  function Decode(b: seq<byte>): Option<Text>
    decreases |b|
  {
    if b == [] then Some([]) else
      match ReadPoint(b)
      case None => None
      case Some((t, rest)) =>
        match Decode(rest)
        case None => None
        case Some(more) => Some(t + more)
  }

  lemma {:induction false} ReadPair(lead: Unit, trail: Unit, rest: seq<byte>)
    requires IsLead(lead) && IsTrail(trail)
    ensures ReadPoint(EncodePair(PairPoint(lead, trail)) + rest) == Some(([lead, trail], rest))
  {
    var p := PairPoint(lead, trail);
    ReadFour(p, rest);
    assert (p - 0x1_0000) / 0x400 == lead - 0xD800 && (p - 0x1_0000) % 0x400 == trail - 0xDC00;
  }

  lemma {:induction false} ReadFour(p: nat, rest: seq<byte>)
    requires 0x1_0000 <= p < 0x11_0000
    ensures ReadPoint(EncodePair(p) + rest) == Some((Surrogates(p), rest))
  {
    var b := EncodePair(p) + rest;
    assert b[4..] == rest;
    Base64(p);
  }

  lemma {:induction false} Base64(p: nat)
    ensures p == p / 0x4_0000 * 0x4_0000 + p / 0x1000 % 64 * 0x1000 + p / 64 % 64 * 64 + p % 64
  {
    assert p / 64 / 64 == p / 0x1000 && p / 64 / 64 / 64 == p / 0x4_0000;
  }

  lemma {:induction false} ThreeParts(u: Unit)
    ensures u == u / 0x1000 * 0x1000 + u / 64 % 64 * 64 + u % 64 && u / 0x1000 < 16
  {
    assert u / 64 / 64 == u / 0x1000;
  }

  lemma {:induction false} ReadSingle(u: Unit, rest: seq<byte>)
    requires !IsLead(u) && !IsTrail(u)
    ensures ReadPoint(EncodeUnit(u) + rest) == Some(([u], rest))
  {
    var b := EncodeUnit(u) + rest;
    if u < 0x80 {
      assert b[1..] == rest;
    } else if u < 0x800 {
      assert b[2..] == rest;
    } else {
      assert b[3..] == rest;
      ThreeParts(u);
    }
  }

  /** Nothing is lost on paired text. */
  lemma {:induction false} RoundTrip(t: Text)
    requires Paired(t)
    ensures Decode(Encode(t)) == Some(t)
  {
    if t == [] {
    } else if IsLead(t[0]) {
      RoundTrip(t[2..]);
      ReadPair(t[0], t[1], Encode(t[2..]));
      assert t == [t[0], t[1]] + t[2..];
    } else {
      RoundTrip(t[1..]);
      ReadSingle(t[0], Encode(t[1..]));
      assert t == [t[0]] + t[1..];
    }
  }

  /** A surrogate on its own is replaced by U+FFFD, so every text becomes paired text first. */
  function Replaced(t: Text): Text {
    if t == [] then []
    else if |t| >= 2 && IsLead(t[0]) && IsTrail(t[1]) then [t[0], t[1]] + Replaced(t[2..])
    else [if IsLead(t[0]) || IsTrail(t[0]) then 0xFFFD else t[0]] + Replaced(t[1..])
  }

  /** So of any text the bytes carry exactly that much. */
  lemma {:induction false} DecodesReplaced(t: Text)
    ensures Paired(Replaced(t)) && Encode(t) == Encode(Replaced(t)) && Decode(Encode(t)) == Some(Replaced(t))
    ensures Paired(t) <==> Replaced(t) == t
  {
    ReplacedIsPaired(t);
    RoundTrip(Replaced(t));
  }

  lemma {:induction false} ReplacedIsPaired(t: Text)
    ensures Paired(Replaced(t)) && Encode(t) == Encode(Replaced(t))
    ensures Paired(t) <==> Replaced(t) == t
  {
    if t == [] {
    } else if |t| >= 2 && IsLead(t[0]) && IsTrail(t[1]) {
      var r := Replaced(t[2..]);
      ReplacedIsPaired(t[2..]);
      assert ([t[0], t[1]] + r)[2..] == r;
      assert t == [t[0], t[1]] + t[2..];
    } else {
      ReplacedIsPaired(t[1..]);
      ReplacedSingle(t, Replaced(t[1..]));
    }
  }

  lemma {:induction false} ReplacedSingle(t: Text, r: Text)
    requires t != [] && !(|t| >= 2 && IsLead(t[0]) && IsTrail(t[1])) && r == Replaced(t[1..])
    requires Paired(r) && Encode(t[1..]) == Encode(r) && (Paired(t[1..]) <==> r == t[1..])
    ensures Paired(Replaced(t)) && Encode(t) == Encode(Replaced(t)) && (Paired(t) <==> Replaced(t) == t)
  {
    var u: Unit := if IsLead(t[0]) || IsTrail(t[0]) then 0xFFFD else t[0];
    SingleFirst(u, r);
    assert EncodeUnit(0xFFFD) == [0xEF, 0xBF, 0xBD];
    assert EncodeUnit(u) == EncodeUnit(t[0]);
    assert t == [t[0]] + t[1..];
    assert [u] + r == t <==> u == t[0] && r == t[1..] by {
      assert ([u] + r)[0] == u && ([u] + r)[1..] == r;
    }
  }

  lemma {:induction false} SingleFirst(u: Unit, r: Text)
    requires !IsLead(u) && !IsTrail(u)
    ensures (Paired([u] + r) <==> Paired(r)) && Encode([u] + r) == EncodeUnit(u) + Encode(r)
  {
    assert ([u] + r)[1..] == r && ([u] + r)[0] == u;
  }

  /** Bytes as section 3 of RFC 3629 lays them out: the length tells the range, and ASCII is itself. */
  lemma {:induction false} UnitShape(u: Unit)
    ensures |EncodeUnit(u)| == if u < 0x80 then 1 else if u < 0x800 then 2 else 3
    ensures u < 0x80 ==> EncodeUnit(u) == [u]
    ensures EncodeUnit(0xE9) == [0xC3, 0xA9] && EncodeUnit(0x20AC) == [0xE2, 0x82, 0xAC]
    ensures EncodePair(0x1_F600) == [0xF0, 0x9F, 0x98, 0x80] && PairPoint(0xD83D, 0xDE00) == 0x1_F600
    ensures forall k :: 1 <= k < |EncodeUnit(u)| ==> IsContinuation(EncodeUnit(u)[k])
  {
  }

  lemma {:induction false} PairedConcat(a: Text, b: Text)
    requires Paired(a) && Paired(b)
    ensures Paired(a + b)
  {
    if a == [] {
      assert a + b == b;
    } else if IsLead(a[0]) {
      PairedConcat(a[2..], b);
      assert (a + b)[2..] == a[2..] + b;
    } else {
      PairedConcat(a[1..], b);
      assert (a + b)[1..] == a[1..] + b;
    }
  }

  lemma {:induction false} PairedPlain(t: Text)
    requires forall k :: 0 <= k < |t| ==> t[k] < 0xD800
    ensures Paired(t)
  {
    if t != [] {
      PairedPlain(t[1..]);
    }
  }

  /** JSON quoting leaves no lone surrogate, whatever the string. */
  lemma {:induction false} QuotePaired(s: Text)
    ensures Paired(QuoteBody(s))
    decreases |s|
  {
    if s == [] {
    } else if |s| >= 2 && IsLead(s[0]) && IsTrail(s[1]) {
      QuotePaired(s[2..]);
      assert ([s[0], s[1]] + QuoteBody(s[2..]))[2..] == QuoteBody(s[2..]);
    } else {
      QuotePaired(s[1..]);
      PairedEscape(s[0]);
      PairedConcat(EscapeUnit(s[0]), QuoteBody(s[1..]));
    }
  }

  lemma {:induction false} PairedEscape(u: Unit)
    ensures Paired(EscapeUnit(u))
  {
    if ShortEscape(u).Some? || u < 0x20 || IsLead(u) || IsTrail(u) {
      PairedPlain(EscapeUnit(u));
    } else {
      assert EscapeUnit(u)[1..] == [];
    }
  }
}
