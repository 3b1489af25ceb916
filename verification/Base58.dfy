/**
 * The base58btc codec of the signature suite. The in-place digit loops are proved against
 * Encode and Decode, which speak of the number a byte string denotes; the round trips are
 * proved about those.
 */
module Base58 {
  import opened Outcomes
  import opened Radix

  const INT32_MAX := 0x7fff_ffff

  /** 58 symbols in increasing order, the first of them '1'. */
  predicate IsAlphabet(abc: string) {
    |abc| == 58 && abc[0] == '1' && Increasing(abc)
  }

  type Alphabet = abc: string | IsAlphabet(abc) witness BitcoinSymbols()

  /** The Bitcoin alphabet; all that is proved below holds for any alphabet of this shape. */
  function BitcoinSymbols(): (abc: string)
    ensures IsAlphabet(abc) && abc[57] == 'z'
  {
    JoinIncreasing("123456789", Upper());
    JoinIncreasing("123456789" + Upper(), Lower());
    "123456789" + Upper() + Lower()
  }

  function Upper(): (s: string)
    ensures |s| == 24 && s[0] == 'A' && s[23] == 'Z' && Increasing(s)
  {
    JoinIncreasing("ABCDEFGH", "JKLMN");
    JoinIncreasing("ABCDEFGH" + "JKLMN", "PQRSTUVWXYZ");
    "ABCDEFGH" + "JKLMN" + "PQRSTUVWXYZ"
  }

  function Lower(): (s: string)
    ensures |s| == 25 && s[0] == 'a' && s[24] == 'z' && Increasing(s)
  {
    JoinIncreasing("abcdefghijk", "mnopqrstuvwxyz");
    "abcdefghijk" + "mnopqrstuvwxyz"
  }

  predicate Increasing(s: string) {
    forall i, j :: 0 <= i < j < |s| ==> s[i] < s[j]
  }

  lemma {:induction false} JoinIncreasing(s: string, t: string)
    requires Increasing(s) && Increasing(t) && |s| > 0 && |t| > 0 && s[|s| - 1] < t[0]
    ensures Increasing(s + t)
  {
  }

  /** The characters from one to another, without a gap. */
  predicate Consecutive(s: string, first: char, last: char) {
    |s| == last as int - first as int + 1 && forall i :: 0 <= i < |s| ==> s[i] as int == first as int + i
  }

  lemma {:induction false} InConsecutive(s: string, first: char, last: char, c: char)
    requires Consecutive(s, first, last)
    ensures c in s <==> first <= c <= last
  {
    if first <= c <= last {
      assert s[c as int - first as int] == c;
    }
  }

  /** The alphabet has every digit and letter but the four that look like others. */
  lemma {:induction false} BitcoinSymbolsExactly(c: char)
    ensures c in BitcoinSymbols() <==>
            ('0' <= c <= '9' || 'A' <= c <= 'Z' || 'a' <= c <= 'z') && c != '0' && c != 'O' && c != 'I' && c != 'l'
  {
    InConsecutive("123456789", '1', '9', c);
    InUpper(c);
    InLower(c);
  }

  lemma {:induction false} InUpper(c: char)
    ensures c in Upper() <==> 'A' <= c <= 'Z' && c != 'I' && c != 'O'
  {
    InConsecutive("ABCDEFGH", 'A', 'H', c);
    InConsecutive("JKLMN", 'J', 'N', c);
    InConsecutive("PQRSTUVWXYZ", 'P', 'Z', c);
  }

  lemma {:induction false} InLower(c: char)
    ensures c in Lower() <==> 'a' <= c <= 'z' && c != 'l'
  {
    InConsecutive("abcdefghijk", 'a', 'k', c);
    InConsecutive("mnopqrstuvwxyz", 'm', 'z', c);
  }

  /** `indexOf`: the first position of c at or after i, or None where indexOf gives -1. */
  function IndexFrom(abc: string, c: char, i: nat): (r: Option<nat>)
    requires i <= |abc|
    ensures r.Some? ==> i <= r.value < |abc| && abc[r.value] == c
    ensures r.None? ==> forall k :: i <= k < |abc| ==> abc[k] != c
    decreases |abc| - i
  {
    if i == |abc| then None
    else if abc[i] == c then Some(i)
    else IndexFrom(abc, c, i + 1)
  }

  function IndexOf(abc: string, c: char): Option<nat> {
    IndexFrom(abc, c, 0)
  }

  lemma {:induction false} AlphabetDistinct(abc: Alphabet, i: nat)
    requires i < 58
    ensures IndexOf(abc, abc[i]) == Some(i)
  {
    assert IndexOf(abc, abc[i]).Some?;
  }

  /** The text of a digit string, and the digits of a text when all its characters are symbols. */
  function Symbols(abc: Alphabet, d: seq<nat>): (s: string)
    requires AllBelow(d, 58)
    ensures |s| == |d|
  {
    if d == [] then "" else Symbols(abc, d[..|d| - 1]) + [abc[d[|d| - 1]]]
  }

  function Lookup(abc: Alphabet, s: string): (r: Option<seq<nat>>)
    ensures r.Some? ==> |r.value| == |s| && AllBelow(r.value, 58)
  {
    if s == "" then
      Some([])
    else
      match (Lookup(abc, s[..|s| - 1]), IndexOf(abc, s[|s| - 1]))
      case (Some(d), Some(i)) => Some(d + [i])
      case _ => None
  }

  /** Leading zero bytes become '1's; the rest is the number in base 58, which for zero is one more '1'. */
  function Encode(abc: Alphabet, input: seq<byte>): string {
    var k, n := LeadingZeros(input), BeValue(input, 256);
    WordInverse(k, n, 58);
    WordInverse(k + 1, n, 58);
    Symbols(abc, Word(if n == 0 then k + 1 else k, n, 58))
  }

  function Decode(abc: Alphabet, input: string): Result<seq<byte>> {
    match Lookup(abc, input)
    case None => Err("Invalid base58 character")
    case Some(d) =>
      var k, n := LeadingZeros(d), BeValue(d, 58);
      WordInverse(k, n, 256);
      Ok(Word(k, n, 256))
  }

  predicate HasNonZero(b: seq<nat>) {
    exists k :: 0 <= k < |b| && b[k] != 0
  }

  lemma {:induction false} LookupSymbols(abc: Alphabet, d: seq<nat>)
    requires AllBelow(d, 58)
    ensures Lookup(abc, Symbols(abc, d)) == Some(d)
  {
    if d != [] {
      LookupSymbols(abc, d[..|d| - 1]);
      AlphabetDistinct(abc, d[|d| - 1]);
      SymbolsSnoc(abc, d[..|d| - 1], d[|d| - 1]);
      assert d == d[..|d| - 1] + [d[|d| - 1]];
      assert Symbols(abc, d)[..|d| - 1] == Symbols(abc, d[..|d| - 1]);
    }
  }

  lemma {:induction false} SymbolsLookup(abc: Alphabet, s: string)
    requires Lookup(abc, s).Some?
    ensures Symbols(abc, Lookup(abc, s).value) == s
  {
    if s != [] {
      SymbolsLookup(abc, s[..|s| - 1]);
    }
  }

  lemma {:induction false} LookupAt(abc: Alphabet, s: string, k: nat)
    requires Lookup(abc, s).Some? && k < |s|
    ensures abc[Lookup(abc, s).value[k]] == s[k]
  {
    if k < |s| - 1 {
      LookupAt(abc, s[..|s| - 1], k);
    }
  }

  lemma {:induction false} NonZeroValue(b: seq<nat>, base: nat)
    requires base >= 2 && AllBelow(b, base)
    ensures HasNonZero(b) <==> BeValue(b, base) > 0
    ensures BeValue(b, base) == 0 ==> b == Zeros(|b|) && LeadingZeros(b) == |b|
  {
    WordOf(b, base);
    var z := LeadingZeros(b);
    if z < |b| {
      LeadingZerosAt(b, z);
      assert b[z] != 0;
    } else {
      forall k | 0 <= k < |b| ensures b[k] == 0 {
        LeadingZerosAt(b, k);
      }
    }
  }

  lemma {:induction false} EncodedDigits(abc: Alphabet, b: seq<byte>)
    ensures var k, n := LeadingZeros(b), BeValue(b, 256);
            Lookup(abc, Encode(abc, b)) == Some(Word(if n == 0 then k + 1 else k, n, 58))
  {
    var k, n := LeadingZeros(b), BeValue(b, 256);
    var k' := if n == 0 then k + 1 else k;
    WordInverse(k', n, 58);
    LookupSymbols(abc, Word(k', n, 58));
  }

  lemma {:induction false} DecodedWord(abc: Alphabet, s: string, k: nat, n: nat)
    requires Lookup(abc, s) == Some(Word(k, n, 58))
    ensures Decode(abc, s) == Ok(Word(k, n, 256))
  {
    WordInverse(k, n, 58);
    WordZero(k, 58);
  }

  /**
   * An encoding is a numeral: its characters, as digits, denote the number the bytes denote, and it
   * has as many leading `1`s as the bytes have leading zeros, or one more if all of them are zero.
   */
  lemma {:induction false} EncodingIsNumeral(abc: Alphabet, b: seq<byte>) returns (d: seq<nat>)
    ensures |d| == |Encode(abc, b)| && AllBelow(d, 58)
    ensures forall k :: 0 <= k < |d| ==> Encode(abc, b)[k] == abc[d[k]]
    ensures BeValue(d, 58) == BeValue(b, 256)
    ensures BeValue(b, 256) > 0 ==> LeadingZeros(d) == LeadingZeros(b)
    ensures BeValue(b, 256) == 0 ==> d == Zeros(|b| + 1)
  {
    var k, n := LeadingZeros(b), BeValue(b, 256);
    EncodedDigits(abc, b);
    d := Lookup(abc, Encode(abc, b)).value;
    WordInverse(if n == 0 then k + 1 else k, n, 58);
    NonZeroValue(b, 256);
    WordZero(k + 1, 58);
    forall i | 0 <= i < |d| ensures Encode(abc, b)[i] == abc[d[i]] {
      LookupAt(abc, Encode(abc, b), i);
    }
  }

  /** Decoding fails exactly on a character that is not in the alphabet. */
  lemma {:induction false} DecodeFailsExactly(abc: Alphabet, s: string)
    ensures Decode(abc, s).Err? <==> exists k :: 0 <= k < |s| && s[k] !in abc
    ensures FromMultibaseSpec(abc, s).Err? <==>
            s == "" || s[0] != 'z' || exists k :: 1 <= k < |s| && s[k] !in abc
  {
    LookupFails(abc, s);
    if s != "" {
      LookupFails(abc, s[1..]);
      assert forall k :: 1 <= k < |s| ==> s[1..][k - 1] == s[k];
      if k :| 0 <= k < |s[1..]| && s[1..][k] !in abc {
        assert s[k + 1] !in abc;
      }
    }
  }

  lemma {:induction false} LookupFails(abc: Alphabet, s: string)
    ensures Lookup(abc, s).None? <==> exists k :: 0 <= k < |s| && s[k] !in abc
  {
    if s != "" {
      var n := |s| - 1;
      LookupFails(abc, s[..n]);
      assert IndexOf(abc, s[n]).Some? <==> s[n] in abc;
      if k :| 0 <= k < n && s[..n][k] !in abc {
        assert s[k] !in abc;
      }
      if k :| 0 <= k < |s| && s[k] !in abc {
        assert k < n ==> s[..n][k] !in abc;
      }
    }
  }

  /** Decoding an encoding gives the bytes back exactly when some byte is not zero. */
  lemma {:induction false} RoundTripBytes(abc: Alphabet, b: seq<byte>)
    ensures Decode(abc, Encode(abc, b)) == Ok(b) <==> HasNonZero(b)
    ensures !HasNonZero(b) ==> Decode(abc, Encode(abc, b)) == Ok([0] + b)
  {
    var k, n := LeadingZeros(b), BeValue(b, 256);
    NonZeroValue(b, 256);
    EncodedDigits(abc, b);
    DecodedWord(abc, Encode(abc, b), if n == 0 then k + 1 else k, n);
    WordOf(b, 256);
    WordZero(k + 1, 256);
  }

  /** Encoding a decoding gives the text back exactly when some symbol is not '1'. */
  lemma {:induction false} RoundTripText(abc: Alphabet, s: string)
    requires Lookup(abc, s).Some?
    ensures Decode(abc, s).Ok?
    ensures Encode(abc, Decode(abc, s).value) == s <==> exists k :: 0 <= k < |s| && s[k] != '1'
    ensures !(exists k :: 0 <= k < |s| && s[k] != '1') ==> Encode(abc, Decode(abc, s).value) == s + "1"
  {
    var d := Lookup(abc, s).value;
    var k, n := LeadingZeros(d), BeValue(d, 58);
    OnesAreZeros(abc, s);
    SymbolsLookup(abc, s);
    NonZeroValue(d, 58);
    WordOf(d, 58);
    WordInverse(k, n, 256);
    WordInverse(k + 1, n, 58);
    if n == 0 {
      WordZero(k, 256);
      WordZero(k + 1, 58);
      ZerosSnoc(k);
      assert (d + [0])[..|d|] == d;
    }
  }

  lemma {:induction false} OnesAreZeros(abc: Alphabet, s: string)
    requires Lookup(abc, s).Some?
    ensures HasNonZero(Lookup(abc, s).value) <==> exists k :: 0 <= k < |s| && s[k] != '1'
  {
    var d := Lookup(abc, s).value;
    forall k | 0 <= k < |s| ensures d[k] == 0 <==> s[k] == '1' {
      LookupAt(abc, s, k);
      AlphabetDistinct(abc, 0);
    }
    if HasNonZero(d) {
      var k :| 0 <= k < |d| && d[k] != 0;
      assert s[k] != '1';
    }
  }

  lemma {:induction false} PassStep(done: seq<nat>, rest: seq<nat>, m: nat, c: nat, base: nat)
    requires base >= 2 && rest != []
    ensures var total := c + rest[0] * m;
            done + MulAdd(rest, m, c, base) ==
            (done + [total % base]) + MulAdd(rest[1..], m, total / base, base)
  {
  }

  /** The pass after its first j digits: those still to come are untouched. */
  ghost predicate Passing(digits: seq<nat>, digits0: seq<nat>, j: nat, carry: nat, result: seq<nat>) {
    && j <= |digits| == |digits0| && digits[j..] == digits0[j..]
    && digits[..j] + MulAdd(digits0[j..], 256, carry, 58) == result
  }

  lemma {:induction false} PassNext(digits: seq<nat>, digits0: seq<nat>, j: nat, carry: nat, result: seq<nat>)
    requires Passing(digits, digits0, j, carry, result) && j < |digits|
    ensures digits[j] == digits0[j]
    ensures var total := carry + digits[j] * 256;
            Passing(digits[j := total % 58], digits0, j + 1, total / 58, result)
  {
    assert digits[j] == digits[j..][0] == digits0[j..][0];
    PassStep(digits[..j], digits0[j..], 256, carry, 58);
    assert digits0[j..][1..] == digits0[j + 1..];
    var next := digits[j := (carry + digits[j] * 256) % 58];
    assert next[..j + 1] == digits[..j] + [next[j]];
    assert next[j + 1..] == digits[j..][1..];
  }

  lemma {:induction false} CarryBound(carry: nat, digit: nat)
    requires carry < 256 && digit < 58
    ensures carry + digit * 256 < 58 * 256 && (carry + digit * 256) / 58 < 256
  {
  }

  /** The encoder's pass over its digits: what digits * 256 + b needs on the digits at hand, and the carry left. */
  method CarryDigits(digits0: seq<nat>, b: byte) returns (digits: seq<nat>, carry: nat)
    requires AllBelow(digits0, 58)
    ensures carry < 256
    ensures digits + Digits(carry, 58) == MulAdd(digits0, 256, b, 58)
  {
    ghost var result := MulAdd(digits0, 256, b, 58);
    digits, carry := digits0, b;
    for j := 0 to |digits0|
      invariant carry < 256 && Passing(digits, digits0, j, carry, result)
    {
      PassNext(digits, digits0, j, carry, result);
      CarryBound(carry, digits[j]);
      carry := carry + digits[j] * 256;
      assert carry <= INT32_MAX;
      digits := digits[j := carry % 58];
      carry := carry / 58;
    }
  }

  /** The encoder pushes what is left of the carry as new digits. */
  method PushCarry(digits0: seq<nat>, carry0: nat) returns (digits: seq<nat>)
    ensures digits == digits0 + Digits(carry0, 58)
  {
    digits := digits0;
    var carry := carry0;
    while carry > 0
      invariant digits + Digits(carry, 58) == digits0 + Digits(carry0, 58)
    {
      assert digits + Digits(carry, 58) == (digits + [carry % 58]) + Digits(carry / 58, 58);
      digits := digits + [carry % 58];
      carry := carry / 58;
    }
  }

  method LeadingZeroCount(input: seq<nat>) returns (zeros: nat)
    ensures zeros == LeadingZeros(input)
  {
    zeros := 0;
    while zeros < |input| && input[zeros] == 0
      invariant zeros <= |input|
      invariant LeadingZeros(input) == zeros + LeadingZeros(input[zeros..])
    {
      assert input[zeros..][1..] == input[zeros + 1..];
      zeros := zeros + 1;
    }
  }

  lemma {:induction false} SymbolsTake(abc: Alphabet, d: seq<nat>, k: nat)
    requires AllBelow(d, 58) && k < |d|
    ensures AllBelow(d[..k], 58) && AllBelow(d[..k + 1], 58)
    ensures Symbols(abc, d[..k + 1]) == Symbols(abc, d[..k]) + [abc[d[k]]]
  {
    assert d[..k + 1][..k] == d[..k];
  }

  lemma {:induction false} ZeroAt(k: nat, i: nat)
    requires i < k
    ensures Zeros(k)[i] == 0
  {
    if i > 0 {
      ZeroAt(k - 1, i - 1);
    }
  }

  ghost predicate Rendered(abc: Alphabet, all: seq<nat>, k: nat, out: string) {
    k <= |all| && AllBelow(all[..k], 58) && out == Symbols(abc, all[..k])
  }

  lemma {:induction false} RenderedNext(abc: Alphabet, all: seq<nat>, k: nat, out: string)
    requires AllBelow(all, 58) && k < |all| && Rendered(abc, all, k, out)
    ensures Rendered(abc, all, k + 1, out + [abc[all[k]]])
  {
    SymbolsTake(abc, all, k);
  }

  lemma {:induction false} DigitAt(zeros: nat, digits: seq<nat>, k: nat)
    requires k < zeros + |digits|
    ensures (Zeros(zeros) + Reverse(digits))[k] == if k < zeros then 0 else digits[|digits| - 1 - (k - zeros)]
  {
    if k < zeros {
      ZeroAt(zeros, k);
    } else {
      ReverseAt(digits, k - zeros);
    }
  }

  /** Prints `all`: a '1' for each leading zero, then the digits from the most significant one. */
  method RenderAll(abc: Alphabet, zeros: nat, digits: seq<nat>, ghost all: seq<nat>) returns (out: string)
    requires |all| == zeros + |digits| && AllBelow(all, 58)
    requires forall k :: 0 <= k < zeros ==> all[k] == 0
    requires forall k :: zeros <= k < |all| ==> all[k] == digits[|all| - 1 - k]
    ensures out == Symbols(abc, all)
  {
    out := "";
    for i := 0 to zeros
      invariant Rendered(abc, all, i, out)
    {
      RenderedNext(abc, all, i, out);
      out := out + [abc[0]];
    }
    var i := |digits| - 1;
    while i >= 0
      invariant -1 <= i < |digits|
      invariant Rendered(abc, all, |all| - 1 - i, out)
    {
      RenderedNext(abc, all, |all| - 1 - i, out);
      out := out + [abc[digits[i]]];
      i := i - 1;
    }
    assert all[..|all|] == all;
  }

  method Render(abc: Alphabet, zeros: nat, digits: seq<nat>) returns (out: string)
    requires AllBelow(digits, 58) && AllBelow(Zeros(zeros) + Reverse(digits), 58)
    ensures out == Symbols(abc, Zeros(zeros) + Reverse(digits))
  {
    ghost var all := Zeros(zeros) + Reverse(digits);
    forall k | 0 <= k < |all| ensures all[k] == if k < zeros then 0 else digits[|all| - 1 - k] {
      DigitAt(zeros, digits, k);
    }
    out := RenderAll(abc, zeros, digits, all);
  }

  lemma {:induction false} SymbolsBelow(abc: Alphabet, d: seq<nat>, k: nat)
    requires AllBelow(d, 58) && k < |d|
    ensures Symbols(abc, d)[k] <= abc[57]
  {
    if k < |d| - 1 {
      SymbolsBelow(abc, d[..|d| - 1], k);
    }
  }

  lemma {:induction false} SymbolsSnoc(abc: Alphabet, d: seq<nat>, x: nat)
    requires AllBelow(d, 58) && x < 58
    ensures Symbols(abc, d + [x]) == Symbols(abc, d) + [abc[x]]
  {
    assert (d + [x])[..|d|] == d;
  }

  lemma {:induction false} NumberNext(input: seq<byte>, i: nat)
    requires i < |input|
    ensures BeValue(input[..i + 1], 256) == BeValue(input[..i], 256) * 256 + input[i]
  {
    assert input[..i + 1] == input[..i] + [input[i]];
    BeValueSnoc(input[..i], input[i], 256);
  }

  /** One byte more in the number. */
  lemma {:induction false} NextByte(input: seq<byte>, i: nat)
    requires i < |input|
    ensures AllBelow(DigitsOrZero(BeValue(input[..i], 256)), 58)
    ensures MulAdd(DigitsOrZero(BeValue(input[..i], 256)), 256, input[i], 58) ==
            DigitsOrZero(BeValue(input[..i + 1], 256))
  {
    NumberNext(input, i);
    PushDigits(BeValue(input[..i], 256), input[i]);
  }

  method Base58Encode(abc: Alphabet, input: seq<byte>) returns (out: string)
    ensures out == Encode(abc, input)
  {
    var zeros := LeadingZeroCount(input);
    var digits: seq<nat> := [0];
    for i := 0 to |input|
      invariant digits == DigitsOrZero(BeValue(input[..i], 256))
    {
      NextByte(input, i);
      var carry;
      digits, carry := CarryDigits(digits, input[i]);
      digits := PushCarry(digits, carry);
    }
    assert input[..|input|] == input;
    EncodePrints(abc, input);
    out := Render(abc, zeros, digits);
  }

  lemma {:induction false} PrintedWord(zeros: nat, n: nat)
    ensures AllBelow(DigitsOrZero(n), 58)
    ensures Zeros(zeros) + Reverse(DigitsOrZero(n)) == Word(if n == 0 then zeros + 1 else zeros, n, 58)
    ensures AllBelow(Word(if n == 0 then zeros + 1 else zeros, n, 58), 58)
  {
    WordInverse(if n == 0 then zeros + 1 else zeros, n, 58);
    if n == 0 {
      WordZero(zeros + 1, 58);
      ZerosSnoc(zeros);
      assert Reverse([0]) == [0];
    }
  }

  /** What the encoder prints: a zero per leading zero byte, then the digit list from its far end. */
  lemma {:induction false} EncodePrints(abc: Alphabet, input: seq<byte>)
    ensures var (z, d) := (LeadingZeros(input), DigitsOrZero(BeValue(input, 256)));
            && AllBelow(d, 58) && AllBelow(Zeros(z) + Reverse(d), 58)
            && Symbols(abc, Zeros(z) + Reverse(d)) == Encode(abc, input)
  {
    PrintedWord(LeadingZeros(input), BeValue(input, 256));
  }

  /** The digit list the encoder keeps: it starts from one zero digit. */
  ghost function DigitsOrZero(n: nat): seq<nat> {
    if n == 0 then [0] else Digits(n, 58)
  }

  lemma {:induction false} PushDigits(v: nat, b: byte)
    ensures AllBelow(DigitsOrZero(v), 58)
    ensures MulAdd(DigitsOrZero(v), 256, b, 58) == DigitsOrZero(v * 256 + b)
  {
    if v == 0 {
      MulAddCons(0, [], 256, b, 58);
    } else {
      MulAddDigits(v, 256, b, 58);
    }
  }

  /** The body of the decoder's loop over the input: bytes := bytes * 58 + digit, growing by at most one byte. */
  method MultiplyBytes(bytes: array<byte>, length: nat, digit: nat) returns (newLength: nat)
    requires length < bytes.Length && digit < 58
    modifies bytes
    ensures length <= newLength <= length + 1
    ensures bytes[..newLength] == MulAdd(old(bytes[..length]), 58, digit, 256)
  {
    ghost var before: seq<nat> := bytes[..length];
    ghost var result := MulAdd(before, 58, digit, 256);
    var carry: nat := digit;
    for j := 0 to length
      invariant carry < 58
      invariant bytes[j..length] == before[j..]
      invariant bytes[..j] + MulAdd(before[j..], 58, carry, 256) == result
    {
      PassStep(bytes[..j], before[j..], 58, carry, 256);
      assert before[j..][1..] == before[j + 1..];
      assert bytes[j] == bytes[j..length][0] == before[j..][0];
      ghost var done := bytes[..j];
      carry := carry + (bytes[j] as nat) * 58;
      assert carry <= INT32_MAX;
      bytes[j] := carry % 256;
      carry := carry / 256;
      assert bytes[..j + 1] == done + [bytes[j]];
    }
    newLength := length;
    assert bytes[..newLength] + Digits(carry, 256) == result;
    while carry > 0
      invariant carry < 58 && length <= newLength <= length + 1
      invariant carry > 0 ==> newLength == length
      invariant bytes[..newLength] + Digits(carry, 256) == result
    {
      assert Digits(carry, 256) == [carry % 256];
      bytes[newLength] := carry % 256;
      newLength := newLength + 1;
      carry := carry / 256;
    }
  }

  method LeadingOneCount(abc: Alphabet, input: string) returns (zeros: nat)
    requires Lookup(abc, input).Some?
    ensures zeros == LeadingZeros(Lookup(abc, input).value)
  {
    ghost var d := Lookup(abc, input).value;
    AlphabetDistinct(abc, 0);
    zeros := 0;
    while zeros < |input| && input[zeros] == '1'
      invariant zeros <= |input|
      invariant LeadingZeros(d) == zeros + LeadingZeros(d[zeros..])
    {
      LookupAt(abc, input, zeros);
      assert d[zeros..][1..] == d[zeros + 1..];
      zeros := zeros + 1;
    }
    if zeros < |input| {
      LookupAt(abc, input, zeros);
    }
  }

  /** Copies the little-endian bytes out, most significant first, after the leading zero bytes. */
  method Assemble(bytes: array<byte>, length: nat, zeros: nat) returns (out: array<byte>)
    requires length <= bytes.Length
    ensures out[..] == Zeros(zeros) + Reverse(bytes[..length])
  {
    ghost var le := bytes[..length];
    out := new byte[length + zeros](_ => 0);
    for i := 0 to zeros
      invariant out[..i] == Zeros(i)
    {
      ZerosSnoc(i);
      out[i] := 0;
    }
    for i := 0 to length
      invariant out[..zeros] == Zeros(zeros)
      invariant out[zeros..zeros + i] == Reverse(le)[..i]
      invariant bytes[..length] == le
    {
      ReverseAt(le, i);
      out[zeros + i] := bytes[length - 1 - i];
    }
    assert out[..] == out[..zeros] + out[zeros..zeros + length];
  }

  lemma {:induction false} NextSymbol(abc: Alphabet, s: string, i: nat, d: seq<nat>)
    requires i < |s| && Lookup(abc, s[..i]) == Some(d)
    ensures Lookup(abc, s[..i + 1]) == match IndexOf(abc, s[i]) case None => None case Some(x) => Some(d + [x])
  {
    assert s[..i + 1][..i] == s[..i];
  }

  /** The decoder's loop over the input; ok is false where decoding throws. */
  method DecodeNumber(abc: Alphabet, input: string) returns (ok: bool, bytes: array<byte>, length: nat)
    ensures ok <==> Lookup(abc, input).Some?
    ensures ok ==> length <= bytes.Length && bytes[..length] == Converted(Lookup(abc, input).value, 58, 256)
  {
    bytes := new byte[|input|](_ => 0);
    length := 0;
    ghost var d: seq<nat> := [];
    for i := 0 to |input|
      invariant length <= i
      invariant Lookup(abc, input[..i]) == Some(d)
      invariant bytes[..length] == Converted(d, 58, 256)
    {
      var digit := IndexOf(abc, input[i]);
      NextSymbol(abc, input, i, d);
      if digit.None? {
        UnknownSymbol(abc, input, i + 1);
        return false, bytes, length;
      }
      ConvertedSnoc(d, digit.value, 58, 256);
      length := MultiplyBytes(bytes, length, digit.value);
      d := d + [digit.value];
    }
    assert input[..|input|] == input;
    ok := true;
  }

  method Base58Decode(abc: Alphabet, input: string) returns (r: Result<seq<byte>>)
    ensures r == Decode(abc, input)
  {
    var ok, bytes, length := DecodeNumber(abc, input);
    if !ok {
      return Err("Invalid base58 character");
    }
    var zeros := LeadingOneCount(abc, input);
    var out := Assemble(bytes, length, zeros);
    r := Ok(out[..]);
  }

  lemma {:induction false} UnknownSymbol(abc: Alphabet, s: string, i: nat)
    requires i <= |s| && Lookup(abc, s[..i]).None?
    ensures Lookup(abc, s).None?
    decreases |s| - i
  {
    if i < |s| {
      assert s[..i + 1][..i] == s[..i];
      UnknownSymbol(abc, s, i + 1);
    } else {
      assert s[..i] == s;
    }
  }

  /** Multibase wrappers: the 'z' prefix names base58btc. */
  method ToMultibase(abc: Alphabet, value: seq<byte>) returns (s: string)
    ensures s == "z" + Encode(abc, value)
  {
    var e := Base58Encode(abc, value);
    s := "z" + e;
  }

  function FromMultibaseSpec(abc: Alphabet, value: string): Result<seq<byte>> {
    if |value| == 0 || value[0] != 'z' then
      Err("Expected a multibase base58btc value (z-prefixed)")
    else
      Decode(abc, value[1..])
  }

  lemma {:induction false} MultibaseRoundTrip(abc: Alphabet, b: seq<byte>)
    ensures FromMultibaseSpec(abc, "z" + Encode(abc, b)) == Ok(b) <==> HasNonZero(b)
  {
    RoundTripBytes(abc, b);
    assert ("z" + Encode(abc, b))[1..] == Encode(abc, b);
  }

  method FromMultibase(abc: Alphabet, value: string) returns (r: Result<seq<byte>>)
    ensures r == FromMultibaseSpec(abc, value)
  {
    if |value| == 0 || value[0] != 'z' {
      return Err("Expected a multibase base58btc value (z-prefixed)");
    }
    r := Base58Decode(abc, value[1..]);
  }
}
