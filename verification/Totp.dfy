/**
 * Base32 secrets and time-based one-time passwords. The decoder keeps its bits in a 32-bit
 * accumulator that is never masked; the HMAC is a parameter.
 */
module Totp {
  import opened Outcomes
  import opened Radix
  import Strings

  function Pow(base: nat, k: nat): (p: nat)
    ensures base > 0 ==> p > 0
  {
    if k == 0 then 1 else base * Pow(base, k - 1)
  }

  lemma {:induction false} PowAdd(a: nat, b: nat)
    ensures Pow(2, a + b) == Pow(2, a) * Pow(2, b)
  {
    if a > 0 {
      PowAdd(a - 1, b);
    }
  }

  /** The powers of a power of two. */
  lemma {:induction false} PowOfPow(base: nat, e: nat, k: nat)
    requires base == Pow(2, e)
    ensures Pow(base, k) == Pow(2, e * k)
  {
    if k > 0 {
      PowOfPow(base, e, k - 1);
      PowAdd(e, e * (k - 1));
      assert e * k == e + e * (k - 1);
    }
  }

  /** The k low digits of n, most significant first. */
  function Fixed(k: nat, n: nat, base: nat): (d: seq<nat>)
    requires base >= 2
    ensures |d| == k && AllBelow(d, base)
  {
    if k == 0 then [] else Fixed(k - 1, n / base, base) + [n % base]
  }

  lemma {:induction false} DivBelow(n: nat, base: nat, p: nat)
    requires base > 0 && n < base * p
    ensures n / base < p
  {
    var q := n / base;
    assert (q - p) * base == q * base - p * base;
    MulGrows(q - p, base);
  }

  lemma {:induction false} FixedValue(k: nat, n: nat, base: nat)
    requires base >= 2 && n < Pow(base, k)
    ensures BeValue(Fixed(k, n, base), base) == n
  {
    if k > 0 {
      DivBelow(n, base, Pow(base, k - 1));
      var q, r := n / base, n % base;
      FixedValue(k - 1, q, base);
      BeValueSnoc(Fixed(k - 1, q, base), r, base);
      Quotient(n, base);
    }
  }

  lemma {:induction false} Quotient(n: nat, base: nat)
    requires base > 0
    ensures n / base * base + n % base == n
  {
  }

  lemma {:induction false} BeValueBelow(s: seq<nat>, base: nat)
    requires base >= 2 && AllBelow(s, base)
    ensures BeValue(s, base) < Pow(base, |s|)
  {
    if s != [] {
      var t := s[..|s| - 1];
      BeValueBelow(t, base);
      BelowStep(BeValue(t, base), s[|s| - 1], base, Pow(base, |t|));
    }
  }

  lemma {:induction false} BelowStep(v: nat, x: nat, base: nat, p: nat)
    requires v < p && x < base
    ensures v * base + x < base * p
  {
    assert (v + 1) * base <= p * base;
  }

  // ----- Base32

  /** n shifted right: its k lowest bits are dropped. */
  function Shr(n: nat, k: nat): nat {
    if k == 0 then n else Shr(n / 2, k - 1)
  }

  lemma {:induction false} ShrNext(n: nat, k: nat)
    ensures Shr(n, k + 1) == Shr(n, k) / 2
  {
    if k > 0 {
      ShrNext(n / 2, k - 1);
    }
  }

  lemma {:induction false} Halves(n: nat)
    ensures n / 2 / 2 == n / 4 && n / 4 / 2 == n / 8 && n / 8 / 2 == n / 16
  {
  }

  lemma {:induction false} ShrTable(n: nat)
    ensures Shr(n, 0) == n && Shr(n, 1) == n / 2 && Shr(n, 2) == n / 4 && Shr(n, 3) == n / 8 && Shr(n, 4) == n / 16
  {
    ShrNext(n, 0);
    ShrNext(n, 1);
    ShrNext(n, 2);
    ShrNext(n, 3);
    Halves(n);
  }

  lemma {:induction false} ShrAdd(n: nat, j: nat, k: nat)
    ensures Shr(n, j + k) == Shr(Shr(n, j), k)
  {
    if j > 0 {
      ShrAdd(n / 2, j - 1, k);
    }
  }

  lemma {:induction false} ShrTimes(n: nat, k: nat)
    ensures Shr(n * Pow(2, k), k) == n
  {
    if k > 0 {
      Twice(n, Pow(2, k - 1));
      ShrTimes(n, k - 1);
    }
  }

  lemma {:induction false} Twice(n: nat, p: nat)
    ensures n * (2 * p) / 2 == n * p
  {
    assert n * (2 * p) == 2 * (n * p);
  }

  /** The five bits of a character after upper-casing it; other characters are skipped. */
  function CharValue(c: char): (v: Option<nat>)
    ensures v.Some? ==> v.value < 32
  {
    if 'A' <= c <= 'Z' then Some((c - 'A') as nat)
    else if 'a' <= c <= 'z' then Some((c - 'a') as nat)
    else if '2' <= c <= '7' then Some(26 + (c - '2') as nat)
    else if c == '\U{0131}' then Some(8)   // the dotless i becomes I
    else if c == '\U{017F}' then Some(18)  // the long s becomes S
    else if c == '\U{FB05}' || c == '\U{FB06}' then Some(18)  // the ligatures become "ST", found at S
    else None
  }

  function Values(text: string): (vals: seq<nat>)
    ensures AllBelow(vals, 32)
  {
    if text == [] then []
    else
      Values(text[..|text| - 1])
      + match CharValue(text[|text| - 1]) case None => [] case Some(v) => [v]
  }

  /** The alphabet of section 6 of RFC 4648: A to Z, then 2 to 7. */
  function CharOf(v: nat): char
    requires v < 32
  {
    if v < 26 then 'A' + v as char else '2' + (v - 26) as char
  }

  /** The text stands in the alphabet at position v. */
  predicate StandsAt(text: string, v: nat) {
    v + |text| <= 32 && forall i :: 0 <= i < |text| ==> text[i] == CharOf(v + i)
  }

  lemma {:induction false} SingleStands(text: string, v: nat)
    requires |text| == 1
    ensures StandsAt(text, v) <==> v < 32 && text[0] == CharOf(v)
  {
    assert StandsAt(text, v) ==> text[0] == CharOf(v + 0);
  }

  /** A character's value is where its upper-case form stands in the alphabet; otherwise it has none. */
  lemma {:induction false} CharValueExactly(c: char, v: nat)
    ensures CharValue(c) == Some(v) <==> StandsAt(Strings.UpperChar(c), v)
  {
    var t := Strings.UpperChar(c);
    if |t| == 1 {
      SingleStands(t, v);
    } else if v + |t| <= 32 {
      assert (t[0] == 'S' && (t[1] == 'S' || t[1] == 'T'))
             || (t[0] == 'F' && (t[1] == 'F' || t[1] == 'I' || t[1] == 'L'));
      assert StandsAt(t, v) ==> t[0] == CharOf(v + 0) && t[1] == CharOf(v + 1);
      assert StandsAt(t, v) ==> v == 18 && t == "ST";
      assert t == "ST" && v == 18 ==> t[0] == CharOf(18) && t[1] == CharOf(19) && StandsAt(t, v);
    }
  }

  /**
   * Decoding over unbounded integers, section 6 of RFC 4648: n characters carry 5n bits, of which
   * the whole bytes are kept and the last few bits dropped.
   */
  ghost predicate IsDecoding(vals: seq<nat>, out: seq<nat>) {
    && |out| == 5 * |vals| / 8 && AllBelow(out, 256)
    && BeValue(out, 256) == Shr(BeValue(vals, 32), 5 * |vals| % 8)
  }

  /** How often 2^32 is taken off an integer before the bit operators see it. */
  function Wraps(x: int): int {
    (x + 0x8000_0000) / 0x1_0000_0000
  }

  /** What the bit operators see of an integer. */
  function ToInt32(x: int): (r: int)
    ensures -0x8000_0000 <= r < 0x8000_0000
  {
    x - Wraps(x) * 0x1_0000_0000
  }

  /** `(value << 5) | v`: the low five bits are free for v. */
  function ShiftIn(value: int, v: nat): int
    requires v < 32
  {
    ToInt32(value * 32) + v
  }

  /** `(value >>> shift) & 255` on 32 bits. */
  function ByteAt(value: int, shift: nat): nat {
    Shr(value % 0x1_0000_0000, shift) % 256
  }

  function Wrapped(total: nat, wraps: int): int {
    total - wraps * 0x1_0000_0000
  }

  /** The accumulator is a 32-bit integer that differs from the unbounded value by whole wraps. */
  ghost predicate Agrees(value: int, total: nat) {
    -0x8000_0000 <= value < 0x8000_0000 && exists wraps :: value == Wrapped(total, wraps)
  }

  lemma {:induction false} AgreesShifted(value: int, total: nat, v: nat)
    requires Agrees(value, total) && v < 32
    ensures Agrees(ShiftIn(value, v), total * 32 + v)
  {
    var wraps :| value == Wrapped(total, wraps);
    assert ToInt32(value * 32) == 32 * (value - Wraps(value * 32) * 0x800_0000);
    assert ShiftIn(value, v) == Wrapped(total * 32 + v, wraps * 32 + Wraps(value * 32));
  }

  lemma {:induction false} LowByte(c: int, x: int)
    ensures (c * 256 + x) % 256 == x % 256
  {
  }

  lemma {:induction false} LowBits(a: nat, low: nat)
    requires low < 0x1_0000_0000
    ensures var n := a * 0x1_0000_0000 + low;
            && n % 256 == low % 256 && n / 2 % 256 == low / 2 % 256 && n / 4 % 256 == low / 4 % 256
            && n / 8 % 256 == low / 8 % 256 && n / 16 % 256 == low / 16 % 256
  {
    var n := a * 0x1_0000_0000 + low;
    LowByte(a * 0x100_0000, low);
    assert n / 2 == a * 0x80_0000 * 256 + low / 2;
    LowByte(a * 0x80_0000, low / 2);
    assert n / 4 == a * 0x40_0000 * 256 + low / 4;
    LowByte(a * 0x40_0000, low / 4);
    assert n / 8 == a * 0x20_0000 * 256 + low / 8;
    LowByte(a * 0x20_0000, low / 8);
    assert n / 16 == a * 0x10_0000 * 256 + low / 16;
    LowByte(a * 0x10_0000, low / 16);
  }

  lemma {:induction false} SameLow(value: int, total: nat, wraps: int)
    requires value == total - wraps * 0x1_0000_0000
    ensures value % 0x1_0000_0000 == total % 0x1_0000_0000
  {
  }

  lemma {:induction false} AgreesByte(value: int, total: nat, shift: nat)
    requires Agrees(value, total) && shift <= 4
    ensures ByteAt(value, shift) == Shr(total, shift) % 256
  {
    var a, low := total / 0x1_0000_0000, total % 0x1_0000_0000;
    var wraps :| value == Wrapped(total, wraps);
    SameLow(value, total, wraps);
    ShrTable(total);
    ShrTable(low);
    LowBits(a, low);
  }

  /** One character: the total gains five bits, and eight of the pending ones may leave. */
  lemma {:induction false} Pending(total: nat, v: nat, bits: nat)
    requires v < 32 && bits < 8
    ensures Shr(total * 32 + v, bits + 5) == Shr(total, bits)
    ensures bits >= 3 ==> Shr(total * 32 + v, bits - 3) == Shr(total, bits) * 256 + Shr(total * 32 + v, bits - 3) % 256
  {
    var n := total * 32 + v;
    FiveBits(n);
    ShrAdd(n, 5, bits);
    if bits >= 3 {
      EightBits(Shr(n, bits - 3));
      ShrAdd(n, bits - 3, 8);
    }
  }

  lemma {:induction false} FiveBits(n: nat)
    ensures Shr(n, 5) == n / 32
  {
    ShrTable(n);
    ShrAdd(n, 4, 1);
  }

  lemma {:induction false} EightBits(n: nat)
    ensures n == Shr(n, 8) * 256 + n % 256
  {
    ShrTable(n);
    ShrTable(n / 16);
    ShrAdd(n, 4, 4);
    assert Shr(n, 8) == n / 256;
  }

  lemma {:induction false} DecodingIsUnique(vals: seq<nat>, a: seq<nat>, b: seq<nat>)
    requires IsDecoding(vals, a) && IsDecoding(vals, b)
    ensures a == b
  {
    WordOf(a, 256);
    WordOf(b, 256);
  }

  /** The key a secret stands for. */
  function KeyOf(text: string): seq<nat> {
    var vals := Values(text);
    Fixed(5 * |vals| / 8, Shr(BeValue(vals, 32), 5 * |vals| % 8), 256)
  }

  lemma {:induction false} ShrBelow(n: nat, k: nat, p: nat)
    requires n < Pow(2, k) * p
    ensures Shr(n, k) < p
  {
    if k > 0 {
      assert Pow(2, k) * p == 2 * (Pow(2, k - 1) * p);
      ShrBelow(n / 2, k - 1, p);
    }
  }

  lemma {:induction false} KeyIsDecoding(text: string)
    ensures IsDecoding(Values(text), KeyOf(text))
  {
    var vals := Values(text);
    var (q, r) := (5 * |vals| / 8, 5 * |vals| % 8);
    assert Pow(2, 5) == 32 && Pow(2, 8) == 256;
    BeValueBelow(vals, 32);
    PowOfPow(32, 5, |vals|);
    PowOfPow(256, 8, q);
    PowAdd(r, 8 * q);
    ShrBelow(BeValue(vals, 32), r, Pow(256, q));
    FixedValue(q, Shr(BeValue(vals, 32), r), 256);
  }

  /** The loop state after some characters: the bytes so far, and the bits not yet turned into one. */
  ghost predicate Midway(vals: seq<nat>, bits: nat, value: int, out: seq<nat>) {
    && bits < 8 && bits + 8 * |out| == 5 * |vals| && AllBelow(out, 256)
    && Agrees(value, BeValue(vals, 32))
    && BeValue(out, 256) == Shr(BeValue(vals, 32), bits)
  }

  lemma {:induction false} OneCharacter(vals: seq<nat>, bits: nat, value: int, out: seq<nat>, v: nat)
    requires Midway(vals, bits, value, out) && v < 32
    ensures bits < 3 ==> Midway(vals + [v], bits + 5, ShiftIn(value, v), out)
    ensures bits >= 3 ==> Midway(vals + [v], bits - 3, ShiftIn(value, v), out + [ByteAt(ShiftIn(value, v), bits - 3)])
  {
    NextTotal(vals, value, v);
    if bits < 3 {
      FewBits(vals, bits, value, out, v, vals + [v], ShiftIn(value, v));
    } else {
      ManyBits(vals, bits, value, out, v, vals + [v], ShiftIn(value, v));
    }
  }

  lemma {:induction false} FewBits(
      vals: seq<nat>, bits: nat, value: int, out: seq<nat>, v: nat, vals': seq<nat>, value': int)
    requires Midway(vals, bits, value, out) && v < 32 && bits < 3 && |vals'| == |vals| + 1
    requires BeValue(vals', 32) == BeValue(vals, 32) * 32 + v && Agrees(value', BeValue(vals', 32))
    ensures Midway(vals', bits + 5, value', out)
  {
    Pending(BeValue(vals, 32), v, bits);
    AllStay(vals', bits + 5, value', out);
  }

  lemma {:induction false} ManyBits(
      vals: seq<nat>, bits: nat, value: int, out: seq<nat>, v: nat, vals': seq<nat>, value': int)
    requires Midway(vals, bits, value, out) && v < 32 && bits >= 3 && |vals'| == |vals| + 1
    requires BeValue(vals', 32) == BeValue(vals, 32) * 32 + v && Agrees(value', BeValue(vals', 32))
    ensures Midway(vals', bits - 3, value', out + [ByteAt(value', bits - 3)])
  {
    Pending(BeValue(vals, 32), v, bits);
    OneByte(vals', bits - 3, value', out);
  }

  lemma {:induction false} AllStay(vals: seq<nat>, bits: nat, value: int, out: seq<nat>)
    requires bits < 8 && bits + 8 * |out| == 5 * |vals| && AllBelow(out, 256)
    requires Agrees(value, BeValue(vals, 32)) && Shr(BeValue(vals, 32), bits) == BeValue(out, 256)
    ensures Midway(vals, bits, value, out)
  {
  }

  lemma {:induction false} NextTotal(vals: seq<nat>, value: int, v: nat)
    requires Agrees(value, BeValue(vals, 32)) && v < 32
    ensures BeValue(vals + [v], 32) == BeValue(vals, 32) * 32 + v
    ensures Agrees(ShiftIn(value, v), BeValue(vals + [v], 32))
  {
    BeValueSnoc(vals, v, 32);
    AgreesShifted(value, BeValue(vals, 32), v);
  }

  /** The state with eight more bits pending than there should be, and how a byte settles it. */
  lemma {:induction false} OneByte(vals: seq<nat>, bits: nat, value: int, out: seq<nat>)
    requires bits <= 4 && bits + 8 + 8 * |out| == 5 * |vals| && AllBelow(out, 256)
    requires Agrees(value, BeValue(vals, 32))
    requires Shr(BeValue(vals, 32), bits) == BeValue(out, 256) * 256 + Shr(BeValue(vals, 32), bits) % 256
    ensures Midway(vals, bits, value, out + [ByteAt(value, bits)])
  {
    AgreesByte(value, BeValue(vals, 32), bits);
    BeValueSnoc(out, ByteAt(value, bits), 256);
  }

  lemma {:induction false} Finished(text: string, bits: nat, value: int, out: seq<nat>)
    requires Midway(Values(text), bits, value, out)
    ensures out == KeyOf(text) && IsDecoding(Values(text), out)
  {
    DivModUnique(5 * |Values(text)|, 8, |out|, bits);
    KeyIsDecoding(text);
    DecodingIsUnique(Values(text), out, KeyOf(text));
  }

  lemma {:induction false} AgreesItself(value: int, total: nat)
    requires value == total < 0x8000_0000
    ensures Agrees(value, total)
  {
    assert value == Wrapped(total, 0);
  }

  lemma {:induction false} NothingYet(vals: seq<nat>, bits: nat, value: int, out: seq<nat>)
    requires vals == [] && out == [] && bits == 0 && value == 0
    ensures Midway(vals, bits, value, out)
  {
    assert BeValue(vals, 32) == 0 && BeValue(out, 256) == 0;
    AgreesItself(value, BeValue(vals, 32));
    assert Shr(BeValue(vals, 32), bits) == BeValue(vals, 32);
  }

  lemma {:induction false} ValuesNext(text: string, i: nat)
    requires i < |text|
    ensures Values(text[..i + 1]) == Values(text[..i]) + match CharValue(text[i]) case None => [] case Some(v) => [v]
  {
    assert text[..i + 1][..i] == text[..i];
  }

  /** The loop body for a character of the alphabet. */
  method TakeCharacter(bits: nat, value: int, out: seq<nat>, v: nat, ghost vals: seq<nat>)
    returns (bits': nat, value': int, out': seq<nat>)
    requires Midway(vals, bits, value, out) && v < 32
    ensures Midway(vals + [v], bits', value', out')
  {
    OneCharacter(vals, bits, value, out, v);
    value' := ShiftIn(value, v);
    bits', out' := bits + 5, out;
    if bits' >= 8 {
      out' := out + [ByteAt(value', bits' - 8)];
      bits' := bits' - 8;
    }
  }

  method Base32Decode(text: string) returns (out: seq<nat>)
    ensures out == KeyOf(text) && IsDecoding(Values(text), out)
  {
    var bits: nat, value := 0, 0;
    out := [];
    ghost var vals := [];
    NothingYet(vals, bits, value, out);
    for i := 0 to |text|
      invariant vals == Values(text[..i]) && Midway(vals, bits, value, out)
    {
      ValuesNext(text, i);
      var v := CharValue(text[i]);
      if v.Some? {
        bits, value, out := TakeCharacter(bits, value, out, v.value, vals);
        vals := vals + [v.value];
      }
    }
    assert text[..|text|] == text;
    Finished(text, bits, value, out);
  }

  /** The encoder of section 6 of RFC 4648, without padding characters: zero bits fill the last group. */
  function Encode(bytes: seq<nat>): (vals: seq<nat>)
    ensures AllBelow(vals, 32)
  {
    var n := (8 * |bytes| + 4) / 5;
    Fixed(n, BeValue(bytes, 256) * Pow(2, 5 * n - 8 * |bytes|), 32)
  }

  function Chars(vals: seq<nat>): (text: string)
    requires AllBelow(vals, 32)
  {
    if vals == [] then [] else Chars(vals[..|vals| - 1]) + [CharOf(vals[|vals| - 1])]
  }

  lemma {:induction false} ValuesSnoc(text: string, v: nat)
    requires v < 32
    ensures Values(text + [CharOf(v)]) == Values(text) + [v]
  {
    assert (text + [CharOf(v)])[..|text|] == text;
  }

  lemma {:induction false} CharsValues(vals: seq<nat>)
    requires AllBelow(vals, 32)
    ensures Values(Chars(vals)) == vals
  {
    if vals != [] {
      CharsValues(vals[..|vals| - 1]);
      ValuesSnoc(Chars(vals[..|vals| - 1]), vals[|vals| - 1]);
    }
  }

  lemma {:induction false} EncodedValue(bytes: seq<nat>)
    requires AllBelow(bytes, 256)
    ensures var n := (8 * |bytes| + 4) / 5;
            BeValue(Encode(bytes), 32) == BeValue(bytes, 256) * Pow(2, 5 * n - 8 * |bytes|)
  {
    var n := (8 * |bytes| + 4) / 5;
    var pad := 5 * n - 8 * |bytes|;
    var v := BeValue(bytes, 256);
    assert Pow(2, 5) == 32 && Pow(2, 8) == 256;
    BeValueBelow(bytes, 256);
    PowOfPow(256, 8, |bytes|);
    PowOfPow(32, 5, n);
    PowAdd(8 * |bytes|, pad);
    LessTimes(v, Pow(2, 8 * |bytes|), Pow(2, pad));
    FixedValue(n, v * Pow(2, pad), 32);
  }

  lemma {:induction false} LessTimes(a: nat, b: nat, c: nat)
    requires a < b && c > 0
    ensures a * c < b * c
  {
  }

  /** A secret encoded from any bytes is decoded to those bytes. */
  lemma {:induction false} RoundTrip(bytes: seq<nat>)
    requires AllBelow(bytes, 256)
    ensures KeyOf(Chars(Encode(bytes))) == bytes
  {
    CharsValues(Encode(bytes));
    EncodedValue(bytes);
    var n := (8 * |bytes| + 4) / 5;
    ShrTimes(BeValue(bytes, 256), 5 * n - 8 * |bytes|);
    DivModUnique(5 * n, 8, |bytes|, 5 * n - 8 * |bytes|);
    KeyIsDecoding(Chars(Encode(bytes)));
    DecodingIsUnique(Encode(bytes), bytes, KeyOf(Chars(Encode(bytes))));
  }

  // ----- one-time passwords

  /** HMAC-SHA1, from a key and a message to a digest. */
  type Hmac = (seq<nat>, seq<nat>) -> seq<byte>

  const COUNTER_BYTES: nat := 8
  const CODE_DIGITS: nat := 6

  /** The counter as a signed 64-bit big-endian integer. */
  function CounterBytes(counter: int): seq<nat> {
    Fixed(COUNTER_BYTES, counter % 0x1_0000_0000_0000_0000, 256)
  }

  function AtOrZero(digest: seq<byte>, i: nat): byte {
    if i < |digest| then digest[i] else 0
  }

  /** The dynamic truncation of section 5.3 of RFC 4226. */
  function Truncate(digest: seq<byte>): (n: nat)
    ensures n < 0x8000_0000
  {
    var offset := (if |digest| == 0 then 0 else digest[|digest| - 1]) % 16;
    AtOrZero(digest, offset) % 0x80 * 0x100_0000
    + AtOrZero(digest, offset + 1) * 0x1_0000
    + AtOrZero(digest, offset + 2) * 0x100
    + AtOrZero(digest, offset + 3)
  }

  function DigitChars(n: nat): (s: string)
    ensures |s| > 0
  {
    if n < 10 then ['0' + n as char] else DigitChars(n / 10) + ['0' + (n % 10) as char]
  }

  function PadStart(s: string, width: nat): (r: string)
    decreases width - |s|
  {
    if |s| >= width then s else PadStart("0" + s, width)
  }

  function CodeFor(hmac: Hmac, key: seq<nat>, counter: int): string {
    PadStart(DigitChars(Truncate(hmac(key, CounterBytes(counter))) % 1_000_000), CODE_DIGITS)
  }

  function Counter(timeStep: nat, timestamp: int): int
    requires timeStep > 0
  {
    timestamp / 1000 / timeStep
  }

  method GenerateTotpCode(hmac: Hmac, secret: string, timeStep: nat, timestamp: int) returns (code: string)
    requires timeStep > 0
    ensures code == CodeFor(hmac, KeyOf(secret), Counter(timeStep, timestamp))
  {
    var key := Base32Decode(secret);
    code := CodeFor(hmac, key, Counter(timeStep, timestamp));
  }

  /** The comparison throws on buffers of different lengths, which six code units beyond ASCII give. */
  datatype Check = Checked(valid: bool) | Throws

  /** Some counter of the window has the token as its code. */
  ghost predicate InWindow(hmac: Hmac, key: seq<nat>, token: string, current: int, window: int) {
    exists c :: current - window <= c <= current + window && token == CodeFor(hmac, key, c)
  }

  lemma {:induction false} WrongLength(hmac: Hmac, key: seq<nat>, token: string, current: int, window: int)
    requires Strings.Length16(token) != 6
    ensures !InWindow(hmac, key, token, current, window)
  {
    forall c: int ensures token != CodeFor(hmac, key, c) {
      CodeShape(hmac, key, c);
      Strings.AsciiLength(CodeFor(hmac, key, c));
    }
  }

  /** The code for a counter, computed by way of the counter's time. */
  method CodeOfStep(hmac: Hmac, secret: string, timeStep: nat, counter: int) returns (code: string)
    requires timeStep > 0
    ensures code == CodeFor(hmac, KeyOf(secret), counter) && Strings.Ascii(code)
  {
    var stepTime := counter * timeStep * 1000;
    StepTime(timeStep, counter);
    CodeShape(hmac, KeyOf(secret), counter);
    code := GenerateTotpCode(hmac, secret, timeStep, stepTime);
  }

  /** None of the counters from lo to hi, hi excluded, has the token as its code. */
  ghost predicate NoneIn(hmac: Hmac, key: seq<nat>, token: string, lo: int, hi: int) {
    forall c :: lo <= c < hi ==> token != CodeFor(hmac, key, c)
  }

  lemma {:induction false} NoneInNext(hmac: Hmac, key: seq<nat>, token: string, lo: int, hi: int)
    requires NoneIn(hmac, key, token, lo, hi) && token != CodeFor(hmac, key, hi)
    ensures NoneIn(hmac, key, token, lo, hi + 1)
  {
  }

  lemma {:induction false} NoneIsOutside(hmac: Hmac, key: seq<nat>, token: string, current: int, window: int, hi: int)
    requires NoneIn(hmac, key, token, current - window, hi) && hi > current + window
    ensures !InWindow(hmac, key, token, current, window)
  {
  }

  lemma {:induction false} OneIsInside(hmac: Hmac, key: seq<nat>, token: string, current: int, window: int, c: int)
    requires token == CodeFor(hmac, key, c) && current - window <= c <= current + window
    ensures InWindow(hmac, key, token, current, window)
  {
  }

  /** Tries the counters of the window, lowest first. */
  method SearchWindow(
      hmac: Hmac, secret: string, token: string, timeStep: nat, window: int, current: int)
    returns (r: Check)
    requires timeStep > 0
    ensures r == if window >= 0 && !Strings.Ascii(token) then Throws
                 else Checked(InWindow(hmac, KeyOf(secret), token, current, window))
  {
    ghost var key := KeyOf(secret);
    var errorWindow := -window;
    while errorWindow <= window
      invariant -window <= errorWindow
      invariant errorWindow > -window ==> Strings.Ascii(token)
      invariant NoneIn(hmac, key, token, current - window, current + errorWindow)
    {
      var generated := CodeOfStep(hmac, secret, timeStep, current + errorWindow);
      if !Strings.Ascii(token) {
        return Throws;
      }
      if token == generated {
        OneIsInside(hmac, key, token, current, window, current + errorWindow);
        return Checked(true);
      }
      NoneInNext(hmac, key, token, current - window, current + errorWindow);
      errorWindow := errorWindow + 1;
    }
    NoneIsOutside(hmac, key, token, current, window, current + errorWindow);
    r := Checked(false);
  }

  method VerifyTotpCode(
      hmac: Hmac, secret: string, token: string, timeStep: nat, window: int, timestamp: int)
    returns (r: Check)
    requires timeStep > 0
    ensures r == if Strings.Length16(token) == 6 && window >= 0 && !Strings.Ascii(token) then Throws
                 else Checked(InWindow(hmac, KeyOf(secret), token, Counter(timeStep, timestamp), window))
  {
    var current := timestamp / 1000 / timeStep;
    if Strings.Length16(token) != 6 {
      WrongLength(hmac, KeyOf(secret), token, current, window);
      return Checked(false);
    }
    r := SearchWindow(hmac, secret, token, timeStep, window, current);
  }

  /** The time recomputed for a counter of the window leads back to that counter. */
  lemma {:induction false} StepTime(timeStep: nat, counter: int)
    requires timeStep > 0
    ensures Counter(timeStep, counter * timeStep * 1000) == counter
  {
    assert counter * timeStep * 1000 / 1000 == counter * timeStep;
    ExactQuotient(counter, timeStep);
  }

  lemma {:induction false} ExactQuotient(a: int, b: nat)
    requires b > 0
    ensures a * b / b == a
  {
    var q := a * b / b;
    assert (a - q) * b == a * b - q * b;
    MulGrows(a - q, b);
  }

  // ----- the code

  function ReadDigits(s: string): int {
    if s == "" then 0 else ReadDigits(s[..|s| - 1]) * 10 + (s[|s| - 1] as int - '0' as int)
  }

  predicate IsDigits(s: string) {
    forall i :: 0 <= i < |s| ==> '0' <= s[i] <= '9'
  }

  lemma {:induction false} DigitCharsRead(n: nat)
    ensures IsDigits(DigitChars(n)) && ReadDigits(DigitChars(n)) == n
    ensures n < 1_000_000 ==> |DigitChars(n)| <= 6
  {
    if n >= 10 {
      var t := DigitChars(n / 10);
      assert DigitChars(n)[..|t|] == t;
      DigitCharsRead(n / 10);
      DigitCount(n);
    } else {
      assert ReadDigits("") == 0 && DigitChars(n)[..0] == "";
    }
  }

  lemma {:induction false} DigitCount(n: nat)
    ensures n < 10 ==> |DigitChars(n)| == 1
    ensures n < 100 ==> |DigitChars(n)| <= 2
    ensures n < 1_000 ==> |DigitChars(n)| <= 3
    ensures n < 10_000 ==> |DigitChars(n)| <= 4
    ensures n < 100_000 ==> |DigitChars(n)| <= 5
    ensures n < 1_000_000 ==> |DigitChars(n)| <= 6
  {
    if n >= 10 {
      DigitCount(n / 10);
    }
  }

  lemma {:induction false} ZeroInFront(s: string)
    ensures ReadDigits("0" + s) == ReadDigits(s)
  {
    if s == "" {
      assert ("0" + s)[..0] == "";
      assert ReadDigits("0") == ReadDigits("") * 10;
    } else {
      assert ("0" + s)[..|s|] == "0" + s[..|s| - 1];
      ZeroInFront(s[..|s| - 1]);
    }
  }

  lemma {:induction false} PadStartShape(s: string, width: nat)
    requires |s| <= width && IsDigits(s)
    ensures |PadStart(s, width)| == width && IsDigits(PadStart(s, width))
    ensures ReadDigits(PadStart(s, width)) == ReadDigits(s)
    decreases width - |s|
  {
    if |s| < width {
      ZeroInFront(s);
      PadStartShape("0" + s, width);
    }
  }

  /** A code is always six digits, and they read as the truncated digest modulo a million. */
  lemma {:induction false} CodeShape(hmac: Hmac, key: seq<nat>, counter: int)
    ensures var code := CodeFor(hmac, key, counter);
            && |code| == 6 && IsDigits(code) && Strings.Ascii(code)
            && ReadDigits(code) == Truncate(hmac(key, CounterBytes(counter))) % 1_000_000
  {
    var n := Truncate(hmac(key, CounterBytes(counter))) % 1_000_000;
    DigitCharsRead(n);
    PadStartShape(DigitChars(n), 6);
  }

  // ----- the counter and the digest, digit by digit

  /** The message is the counter modulo 2^64, big-endian in eight bytes, and nothing else denotes that number. */
  lemma {:induction false} CounterBytesExactly(counter: int, m: seq<nat>)
    ensures m == CounterBytes(counter) <==>
            |m| == 8 && AllBelow(m, 256) && BeValue(m, 256) == counter % 0x1_0000_0000_0000_0000
  {
    var n := counter % 0x1_0000_0000_0000_0000;
    EightBytes();
    FixedValue(8, n, 256);
    if |m| == 8 && AllBelow(m, 256) && BeValue(m, 256) == n {
      SameValueSameDigits(m, CounterBytes(counter), 256);
    }
  }

  lemma {:induction false} EightBytes()
    ensures Pow(256, 8) == 0x1_0000_0000_0000_0000
  {
    assert Pow(256, 4) == 256 * (256 * (256 * (256 * 1)));
  }

  lemma {:induction false} SameValueSameDigits(a: seq<nat>, b: seq<nat>, base: nat)
    requires base >= 2 && AllBelow(a, base) && AllBelow(b, base)
    requires |a| == |b| && BeValue(a, base) == BeValue(b, base)
    ensures a == b
    decreases |a|
  {
    if a != [] {
      var n := |a| - 1;
      var (p, q) := (BeValue(a[..n], base), BeValue(b[..n], base));
      DivModUnique(BeValue(a, base), base, p, a[n]);
      DivModUnique(BeValue(b, base), base, q, b[n]);
      SameValueSameDigits(a[..n], b[..n], base);
      assert a == a[..n] + [a[n]] && b == b[..n] + [b[n]];
    }
  }

  /** Counters less than 2^64 apart have different messages. */
  lemma {:induction false} CountersDiffer(c: int, d: int)
    requires c < d < c + 0x1_0000_0000_0000_0000
    ensures CounterBytes(c) != CounterBytes(d)
  {
    CounterBytesExactly(c, CounterBytes(c));
    CounterBytesExactly(d, CounterBytes(d));
  }

  /** Section 5.3 of RFC 4226: the four bytes at the low nibble of the last byte, without the top bit. */
  lemma {:induction false} TruncateExactly(digest: seq<byte>)
    requires |digest| >= 19
    ensures var offset := digest[|digest| - 1] % 16;
            Truncate(digest) == BeValue(digest[offset..offset + 4], 256) % 0x8000_0000
  {
    var offset := digest[|digest| - 1] % 16;
    FourBytes(digest[offset..offset + 4]);
  }

  lemma {:induction false} FourBytes(b: seq<nat>)
    requires |b| == 4 && AllBelow(b, 256)
    ensures BeValue(b, 256) == b[0] * 0x100_0000 + b[1] * 0x1_0000 + b[2] * 0x100 + b[3]
    ensures BeValue(b, 256) % 0x8000_0000 == b[0] % 0x80 * 0x100_0000 + b[1] * 0x1_0000 + b[2] * 0x100 + b[3]
  {
    assert b[..3][..2] == b[..2] && b[..2][..1] == b[..1] && b[..1][..0] == [];
    assert BeValue(b[..1], 256) == b[0];
    assert BeValue(b[..2], 256) == b[0] * 256 + b[1];
    assert BeValue(b[..3], 256) == (b[0] * 256 + b[1]) * 256 + b[2];
  }

  /**
   * The code of a counter, written out: with the eight-byte message for it and a digest of twenty
   * bytes, six digits that read as the four selected bytes modulo 2^31 and then modulo a million.
   */
  lemma {:induction false} CodeExactly(hmac: Hmac, key: seq<nat>, counter: int, m: seq<nat>)
    requires |m| == 8 && AllBelow(m, 256) && BeValue(m, 256) == counter % 0x1_0000_0000_0000_0000
    requires |hmac(key, m)| == 20
    ensures var (digest, code) := (hmac(key, m), CodeFor(hmac, key, counter));
            var offset := digest[19] % 16;
            && |code| == 6 && IsDigits(code)
            && ReadDigits(code) == BeValue(digest[offset..offset + 4], 256) % 0x8000_0000 % 1_000_000
  {
    CounterBytesExactly(counter, m);
    TruncateExactly(hmac(key, m));
    CodeShape(hmac, key, counter);
  }

  // ----- the window in time

  lemma {:induction false} CounterFloor(timeStep: nat, t: int)
    requires timeStep > 0
    ensures Counter(timeStep, t) * (timeStep * 1000) <= t < (Counter(timeStep, t) + 1) * (timeStep * 1000)
  {
    var s := t / 1000;
    var c := s / timeStep;
    assert c * timeStep <= s < c * timeStep + timeStep;
    assert c * (timeStep * 1000) == (c * timeStep) * 1000;
    assert (c + 1) * (timeStep * 1000) == (c * timeStep + timeStep) * 1000;
  }

  lemma {:induction false} CounterIs(timeStep: nat, t: int, c: int)
    requires timeStep > 0
    ensures c <= Counter(timeStep, t) <==> c * (timeStep * 1000) <= t
  {
    CounterFloor(timeStep, t);
    var p := timeStep * 1000;
    var d := Counter(timeStep, t);
    assert (d - c) * p == d * p - c * p;
    assert (c - d) * p == c * p - d * p;
    assert (d + 1) * p == d * p + p;
    MulGrows(d - c, p);
    MulGrows(c - d, p);
  }

  /** No other counter that shares a window with this one has the same code. */
  ghost predicate Distinct(hmac: Hmac, key: seq<nat>, counter: int, window: nat, current: int) {
    forall j :: current - window <= j <= current + window && j != counter ==>
                  CodeFor(hmac, key, j) != CodeFor(hmac, key, counter)
  }

  /**
   * A code is accepted from `window` steps before its own time step to `window` steps after it,
   * and, unless it collides with a code of the window, at no other time.
   */
  lemma {:induction false} AcceptedExactlyDuring(
      hmac: Hmac, key: seq<nat>, counter: int, timeStep: nat, window: nat, t: int)
    requires timeStep > 0
    ensures var p := timeStep * 1000;
            var during := (counter - window) * p <= t < (counter + window + 1) * p;
            var accepted := InWindow(hmac, key, CodeFor(hmac, key, counter), Counter(timeStep, t), window);
            && (during ==> accepted)
            && (Distinct(hmac, key, counter, window, Counter(timeStep, t)) ==> (accepted <==> during))
  {
    var current := Counter(timeStep, t);
    CounterIs(timeStep, t, counter - window);
    CounterIs(timeStep, t, counter + window + 1);
    if counter - window <= current <= counter + window {
      assert current - window <= counter <= current + window;
    }
  }

  /** A clock that is off by at most the window is tolerated. */
  lemma {:induction false} DriftIsTolerated(
      hmac: Hmac, key: seq<nat>, timeStep: nat, window: nat, client: int, server: int)
    requires timeStep > 0
    requires server - window * (timeStep * 1000) <= client <= server + window * (timeStep * 1000)
    ensures InWindow(hmac, key, CodeFor(hmac, key, Counter(timeStep, client)), Counter(timeStep, server), window)
  {
    var c, p := Counter(timeStep, client), timeStep * 1000;
    CounterFloor(timeStep, client);
    assert (c - window) * p == c * p - window * p;
    assert (c + window + 1) * p == (c + 1) * p + window * p;
    AcceptedExactlyDuring(hmac, key, c, timeStep, window, server);
  }
}
