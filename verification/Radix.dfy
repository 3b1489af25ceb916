/** Positional numerals over an arbitrary base, shared by the Base58 codec and the Base32 decoder. */
module Radix {

  type byte = b: nat | b < 256

  predicate AllBelow(s: seq<nat>, bound: nat) {
    forall k :: 0 <= k < |s| ==> s[k] < bound
  }

  lemma {:induction false} DivSmaller(n: nat, base: nat)
    requires n > 0 && base >= 2
    ensures 0 <= n / base < n
  {
  }

  function Reverse(s: seq<nat>): (r: seq<nat>)
    ensures |r| == |s|
  {
    if s == [] then [] else Reverse(s[1..]) + [s[0]]
  }

  lemma {:induction false} ReverseAt(s: seq<nat>, k: nat)
    requires k < |s|
    ensures Reverse(s)[k] == s[|s| - 1 - k]
  {
    if k < |s| - 1 {
      ReverseAt(s[1..], k);
    }
  }

  /** Little-endian digits of n, without a leading (most significant) zero; zero has no digits. */
  function Digits(n: nat, base: nat): (d: seq<nat>)
    requires base >= 2
    ensures AllBelow(d, base)
    ensures d == [] <==> n == 0
    ensures d != [] ==> d[|d| - 1] != 0
    decreases n
  {
    if n == 0 then
      []
    else
      DivSmaller(n, base);
      [n % base] + Digits(n / base, base)
  }

  /** The number a big-endian digit string denotes. */
  function BeValue(s: seq<nat>, base: nat): nat {
    if s == [] then 0 else BeValue(s[..|s| - 1], base) * base + s[|s| - 1]
  }

  lemma {:induction false} BeValueSnoc(s: seq<nat>, x: nat, base: nat)
    ensures BeValue(s + [x], base) == BeValue(s, base) * base + x
  {
    assert (s + [x])[..|s|] == s;
  }

  function LeadingZeros(s: seq<nat>): (z: nat)
    ensures z <= |s|
  {
    if s == [] || s[0] != 0 then 0 else 1 + LeadingZeros(s[1..])
  }

  lemma {:induction false} LeadingZerosAt(s: seq<nat>, k: nat)
    requires k < |s| && k <= LeadingZeros(s)
    ensures s[k] == 0 <==> k < LeadingZeros(s)
  {
    if k > 0 {
      LeadingZerosAt(s[1..], k - 1);
    }
  }

  function Zeros(k: nat): (z: seq<nat>)
    ensures |z| == k
  {
    if k == 0 then [] else [0] + Zeros(k - 1)
  }

  /** The digit string with k leading zeros that denotes n. */
  function Word(k: nat, n: nat, base: nat): seq<nat>
    requires base >= 2
  {
    Zeros(k) + Reverse(Digits(n, base))
  }

  lemma {:induction false} DivModUnique(n: nat, base: nat, q: nat, r: nat)
    requires base >= 2 && r < base && n == q * base + r
    ensures n / base == q && n % base == r
  {
    var e := n / base - q;
    assert e * base == r - n % base;
    MulGrows(e, base);
  }

  lemma {:induction false} MulGrows(e: int, base: int)
    requires base > 0
    ensures e >= 1 ==> e * base >= base
    ensures e <= -1 ==> e * base <= -base
  {
    if e <= -1 {
      assert (-e) * base >= base;
    }
  }

  lemma {:induction false} ZerosSnoc(k: nat)
    ensures Zeros(k) + [0] == Zeros(k + 1)
  {
    if k > 0 {
      ZerosSnoc(k - 1);
      assert Zeros(k) + [0] == [0] + (Zeros(k - 1) + [0]);
    }
  }

  lemma {:induction false} BeValueZeros(k: nat, base: nat)
    ensures BeValue(Zeros(k), base) == 0
  {
    if k > 0 {
      ZerosSnoc(k - 1);
      assert Zeros(k)[..k - 1] == Zeros(k - 1);
      BeValueZeros(k - 1, base);
    }
  }

  /** n is q followed by the digit r. */
  predicate Splits(n: nat, q: nat, r: nat, base: nat) {
    r < base && n == q * base + r
  }

  lemma {:induction false} SplitsFacts(n: nat, q: nat, r: nat, base: nat)
    requires base >= 2 && Splits(n, q, r, base)
    ensures n / base == q && n % base == r
    ensures n == 0 <==> q == 0 && r == 0
    ensures n > 0 ==> q < n && Digits(n, base) == [r] + Digits(q, base)
  {
    DivModUnique(n, base, q, r);
    PositiveProduct(q, base);
    if n > 0 {
      DivSmaller(n, base);
    }
  }

  lemma {:induction false} WordSnoc(k: nat, n: nat, q: nat, r: nat, base: nat)
    requires base >= 2 && Splits(n, q, r, base) && n > 0
    ensures Word(k, n, base) == Word(k, q, base) + [r]
  {
    SplitsFacts(n, q, r, base);
    assert ([r] + Digits(q, base))[1..] == Digits(q, base);
  }

  /** Every digit string is the word of its leading zeros and its value ... */
  lemma {:induction false} WordOf(s: seq<nat>, base: nat)
    requires base >= 2 && AllBelow(s, base)
    ensures s == Word(LeadingZeros(s), BeValue(s, base), base)
    ensures BeValue(s, base) == 0 <==> LeadingZeros(s) == |s|
  {
    if s != [] {
      var t, x := s[..|s| - 1], s[|s| - 1];
      assert s == t + [x];
      WordOf(t, base);
      WordOfSnoc(t, x, base);
    }
  }

  lemma {:induction false} WordOfSnoc(t: seq<nat>, x: nat, base: nat)
    requires base >= 2 && x < base
    requires t == Word(LeadingZeros(t), BeValue(t, base), base)
    requires BeValue(t, base) == 0 <==> LeadingZeros(t) == |t|
    ensures t + [x] == Word(LeadingZeros(t + [x]), BeValue(t + [x], base), base)
    ensures BeValue(t + [x], base) == 0 <==> LeadingZeros(t + [x]) == |t| + 1
  {
    var u, v := BeValue(t, base), BeValue(t + [x], base);
    LeadingZerosSnoc(t, x);
    BeValueSnoc(t, x, base);
    assert Splits(v, u, x, base);
    SplitsFacts(v, u, x, base);
    if v == 0 {
      WordZero(|t| + 1, base);
      WordZero(|t|, base);
      ZerosSnoc(|t|);
    } else {
      WordSnoc(LeadingZeros(t), v, u, x, base);
    }
  }

  lemma {:induction false} PositiveProduct(a: nat, b: nat)
    requires b > 0
    ensures a * b == 0 <==> a == 0
  {
  }

  lemma {:induction false} LeadingZerosSnoc(t: seq<nat>, x: nat)
    ensures LeadingZeros(t + [x]) ==
            if LeadingZeros(t) == |t| && x == 0 then |t| + 1 else LeadingZeros(t)
  {
    if t != [] {
      LeadingZerosSnoc(t[1..], x);
      assert (t + [x])[1..] == t[1..] + [x];
    }
  }

  /** ... and a word of a positive value gives both back. */
  lemma {:induction false} WordInverse(k: nat, n: nat, base: nat)
    requires base >= 2
    ensures BeValue(Word(k, n, base), base) == n
    ensures n > 0 ==> LeadingZeros(Word(k, n, base)) == k
    ensures AllBelow(Word(k, n, base), base)
    decreases n
  {
    var w := Word(k, n, base);
    if n == 0 {
      WordZero(k, base);
      BeValueZeros(k, base);
    } else {
      DivSmaller(n, base);
      var q, r := n / base, n % base;
      assert Splits(n, q, r, base);
      WordInverse(k, q, base);
      WordSnoc(k, n, q, r, base);
      assert w[..|w| - 1] == Word(k, q, base);
      LeadingZerosSnoc(Word(k, q, base), r);
      WordZero(k, base);
    }
  }

  lemma {:induction false} WordZero(k: nat, base: nat)
    requires base >= 2
    ensures Word(k, 0, base) == Zeros(k)
    ensures LeadingZeros(Zeros(k)) == k && AllBelow(Zeros(k), base)
  {
    if k > 0 {
      WordZero(k - 1, base);
      assert Zeros(k)[1..] == Zeros(k - 1);
    }
  }

  /**
   * Schoolbook "multiply by m and add c": the carry runs over the digits from the least
   * significant one, and what is left of it becomes new digits.
   */
  function MulAdd(d: seq<nat>, m: nat, c: nat, base: nat): seq<nat>
    requires base >= 2
  {
    if d == [] then
      Digits(c, base)
    else
      [(c + d[0] * m) % base] + MulAdd(d[1..], m, (c + d[0] * m) / base, base)
  }

  lemma {:induction false} MulAddCons(r: nat, d: seq<nat>, m: nat, c: nat, base: nat)
    requires base >= 2
    ensures MulAdd([r] + d, m, c, base) ==
            [(c + r * m) % base] + MulAdd(d, m, (c + r * m) / base, base)
  {
    assert ([r] + d)[1..] == d;
  }

  /** On the digits of n it yields exactly the digits of n * m + c: no carry is lost. */
  lemma {:induction false} MulAddDigits(n: nat, m: nat, c: nat, base: nat)
    requires base >= 2 && m >= 1
    ensures MulAdd(Digits(n, base), m, c, base) == Digits(n * m + c, base)
    decreases n, 1
  {
    if n == 0 {
      ZeroTimes(m);
      assert Digits(0, base) == [];
    } else {
      DivSmaller(n, base);
      MulAddNext(n, n / base, n % base, m, c, base);
    }
  }

  lemma {:induction false} ZeroTimes(m: nat)
    ensures 0 * m == 0
  {
  }

  lemma {:induction false} MulAddNext(n: nat, q: nat, r: nat, m: nat, c: nat, base: nat)
    requires base >= 2 && m >= 1 && Splits(n, q, r, base) && 0 < n
    requires q < n
    ensures MulAdd(Digits(n, base), m, c, base) == Digits(n * m + c, base)
    decreases n, 0
  {
    var total, up, low := CarryStep(n, q, r, m, c, base);
    SplitsFacts(n, q, r, base);
    MulAddCons(r, Digits(q, base), m, c, base);
    MulAddDigits(q, m, up, base);
    SplitsFacts(n * m + c, q * m + up, low, base);
  }

  lemma {:induction false} Distribute(a: int, b: int, c: int)
    ensures (a + b) * c == a * c + b * c
  {
  }

  /** n * m from the parts of n. */
  lemma {:induction false} ProductParts(n: nat, q: nat, r: nat, m: nat, base: nat)
    requires n == q * base + r
    ensures n * m == (q * m) * base + r * m
  {
    Distribute(q * base, r, m);
    MulSwap(q, base, m);
  }

  lemma {:induction false} DivModSplits(n: nat, base: nat)
    requires base >= 2
    ensures 0 <= n / base && 0 <= n % base < base && n == n / base * base + n % base
  {
  }

  lemma {:induction false} CarryStep(n: nat, q: nat, r: nat, m: nat, c: nat, base: nat)
    returns (total: nat, up: nat, low: nat)
    requires base >= 2 && m >= 1 && n > 0 && Splits(n, q, r, base)
    ensures total == c + r * m && up == total / base && low == total % base
    ensures Splits(n * m + c, q * m + up, low, base) && n * m + c > 0
  {
    ProductNat(r, m);
    ProductNat(q, m);
    ProductNat(n, m);
    total := c + r * m;
    DivModSplits(total, base);
    up, low := total / base, total % base;
    ProductParts(n, q, r, m, base);
    Distribute(q * m, up, base);
    PositiveProduct(n, m);
  }

  lemma {:induction false} ProductNat(a: nat, b: nat)
    ensures a * b >= 0
  {
  }

  /** The little-endian digits in base t of a number given by its big-endian digits in base f. */
  function Converted(d: seq<nat>, f: nat, t: nat): seq<nat>
    requires t >= 2
  {
    Digits(BeValue(d, f), t)
  }

  lemma {:induction false} ConvertedSnoc(d: seq<nat>, x: nat, f: nat, t: nat)
    requires f >= 1 && t >= 2
    ensures MulAdd(Converted(d, f, t), f, x, t) == Converted(d + [x], f, t)
  {
    MulAddDigits(BeValue(d, f), f, x, t);
    BeValueSnoc(d, x, f);
  }

  lemma {:induction false} MulSwap(a: nat, b: nat, c: nat)
    ensures (a * b) * c == (a * c) * b
  {
  }
}
