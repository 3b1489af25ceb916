/** The string operations the DID parser uses: trim, split, and letter case. */
module Strings {

  /** White space and line terminators, as String.prototype.trim removes them. */
  predicate Space(c: char) {
    || '\t' <= c <= '\r' || c == ' ' || c == '\U{A0}' || c == '\U{1680}' || '\U{2000}' <= c <= '\U{200A}'
    || c == '\U{2028}' || c == '\U{2029}' || c == '\U{202F}' || c == '\U{205F}' || c == '\U{3000}' || c == '\U{FEFF}'
  }

  /** The code points that ECMAScript counts as white space or line terminators. */
  lemma {:induction false} SpaceExactly(c: char)
    ensures Space(c) <==>
            || c as int in {0x09, 0x0A, 0x0B, 0x0C, 0x0D, 0x20, 0xA0, 0x1680}
            || 0x2000 <= c as int <= 0x200A
            || c as int in {0x2028, 0x2029, 0x202F, 0x205F, 0x3000, 0xFEFF}
  {
  }

  function TrimStart(s: string): string {
    if s != "" && Space(s[0]) then TrimStart(s[1..]) else s
  }

  function TrimEnd(s: string): string {
    if s != "" && Space(s[|s| - 1]) then TrimEnd(s[..|s| - 1]) else s
  }

  function Trim(s: string): string {
    TrimEnd(TrimStart(s))
  }

  predicate Tight(s: string) {
    s == "" || (!Space(s[0]) && !Space(s[|s| - 1]))
  }

  /** Trimming keeps a middle part that no white space borders, and a text without border space is kept. */
  lemma {:induction false} TrimTight(s: string)
    ensures Tight(Trim(s)) && |Trim(s)| <= |s|
    ensures Tight(s) <==> Trim(s) == s
    ensures forall c :: c in Trim(s) ==> c in s
  {
    TrimStartTight(s);
    TrimEndTight(TrimStart(s));
  }

  lemma {:induction false} TrimStartTight(s: string)
    ensures var t := TrimStart(s);
            && (t == "" || !Space(t[0])) && |t| <= |s|
            && (t == s <==> s == "" || !Space(s[0]))
            && forall c :: c in t ==> c in s
  {
    if s != "" && Space(s[0]) {
      TrimStartTight(s[1..]);
    }
  }

  lemma {:induction false} TrimEndTight(s: string)
    ensures var t := TrimEnd(s);
            && (t == "" || (t[0] == s[0] && !Space(t[|t| - 1]))) && |t| <= |s|
            && (t == s <==> s == "" || !Space(s[|s| - 1]))
            && forall c :: c in t ==> c in s
  {
    if s != "" && Space(s[|s| - 1]) {
      TrimEndTight(s[..|s| - 1]);
    }
  }

  predicate AllSpace(s: string) {
    forall i :: 0 <= i < |s| ==> Space(s[i])
  }

  /** Trimming takes white space off both ends and nothing else. */
  lemma {:induction false} TrimExactly(s: string, t: string)
    ensures t == Trim(s) <==> Tight(t) && exists a, b :: AllSpace(a) && AllSpace(b) && s == a + t + b
  {
    TrimTight(s);
    var a := SpaceBefore(s);
    var b := SpaceAfter(TrimStart(s));
    assert s == a + Trim(s) + b;
    if a', b' :| Tight(t) && AllSpace(a') && AllSpace(b') && s == a' + t + b' {
      TrimAround(a', t, b');
    }
  }

  lemma {:induction false} SpaceBefore(s: string) returns (a: string)
    ensures AllSpace(a) && s == a + TrimStart(s)
  {
    a := "";
    if s != "" && Space(s[0]) {
      var rest := SpaceBefore(s[1..]);
      a := [s[0]] + rest;
    }
  }

  lemma {:induction false} SpaceAfter(s: string) returns (b: string)
    ensures AllSpace(b) && s == TrimEnd(s) + b
  {
    b := "";
    if s != "" && Space(s[|s| - 1]) {
      var rest := SpaceAfter(s[..|s| - 1]);
      b := rest + [s[|s| - 1]];
    }
  }

  lemma {:induction false} TrimAround(a: string, t: string, b: string)
    requires AllSpace(a) && AllSpace(b) && Tight(t)
    ensures Trim(a + t + b) == t
  {
    if t == "" {
      TrimAllSpace(a + t + b);
    } else {
      SkipSpace(a, t + b);
      assert a + t + b == a + (t + b);
      DropSpace(t, b);
    }
  }

  lemma {:induction false} TrimAllSpace(s: string)
    requires AllSpace(s)
    ensures TrimStart(s) == "" && Trim(s) == ""
  {
    if s != "" {
      TrimAllSpace(s[1..]);
    }
  }

  lemma {:induction false} SkipSpace(a: string, t: string)
    requires AllSpace(a) && (t == "" || !Space(t[0]))
    ensures TrimStart(a + t) == t
  {
    if a == "" {
      assert a + t == t;
    } else {
      SkipSpace(a[1..], t);
      assert (a + t)[1..] == a[1..] + t;
    }
  }

  lemma {:induction false} DropSpace(t: string, b: string)
    requires AllSpace(b) && (t == "" || !Space(t[|t| - 1]))
    ensures TrimEnd(t + b) == t
  {
    if b == "" {
      assert t + b == t;
    } else {
      DropSpace(t, b[..|b| - 1]);
      assert (t + b)[..|t + b| - 1] == t + b[..|b| - 1];
    }
  }

  // ----- split

  function Split(s: string, c: char): (parts: seq<string>)
    ensures |parts| > 0
  {
    if s == "" then [""]
    else
      var rest := Split(s[1..], c);
      if s[0] == c then [""] + rest else [[s[0]] + rest[0]] + rest[1..]
  }

  function Join(parts: seq<string>, c: char): string
    requires |parts| > 0
  {
    if |parts| == 1 then parts[0] else parts[0] + [c] + Join(parts[1..], c)
  }

  predicate Without(parts: seq<string>, c: char) {
    forall i :: 0 <= i < |parts| ==> c !in parts[i]
  }

  lemma {:induction false} SplitNext(a: string, b: string, c: char)
    requires c !in a
    ensures Split(a + [c] + b, c) == [a] + Split(b, c)
  {
    var s := a + [c] + b;
    if a == "" {
      assert s[1..] == b;
    } else {
      assert s[1..] == a[1..] + [c] + b;
      SplitNext(a[1..], b, c);
      assert a[0] in a && a == [a[0]] + a[1..];
      assert ([a[1..]] + Split(b, c))[1..] == Split(b, c);
    }
  }

  lemma {:induction false} SplitWhole(a: string, c: char)
    requires c !in a
    ensures Split(a, c) == [a]
  {
    if a != "" {
      SplitWhole(a[1..], c);
      assert a[0] in a && a == [a[0]] + a[1..];
    }
  }

  /** Splitting undoes joining ... */
  lemma {:induction false} SplitJoin(parts: seq<string>, c: char)
    requires |parts| > 0 && Without(parts, c)
    ensures Split(Join(parts, c), c) == parts
  {
    if |parts| == 1 {
      SplitWhole(parts[0], c);
    } else {
      SplitJoin(parts[1..], c);
      SplitNext(parts[0], Join(parts[1..], c), c);
    }
  }

  lemma {:induction false} JoinGlue(x: char, parts: seq<string>, c: char)
    requires |parts| > 0
    ensures Join([[x] + parts[0]] + parts[1..], c) == [x] + Join(parts, c)
  {
    var glued := [[x] + parts[0]] + parts[1..];
    if |parts| > 1 {
      assert glued[1..] == parts[1..];
    }
  }

  /** ... and the parts of a text hold no separator and join to it. */
  lemma {:induction false} SplitParts(s: string, c: char)
    ensures Without(Split(s, c), c) && Join(Split(s, c), c) == s
  {
    if s != "" {
      var rest := Split(s[1..], c);
      SplitParts(s[1..], c);
      if s[0] == c {
        assert ([""] + rest)[1..] == rest;
      } else {
        JoinGlue(s[0], rest, c);
      }
    }
  }

  // ----- letter case

  function LowerChar(c: char): char {
    if 'A' <= c <= 'Z' then 'a' + (c - 'A') else c
  }

  /** Lower case, exact on ASCII; no other character becomes a letter of the words it is compared with. */
  function Lower(s: string): (r: string)
    ensures |r| == |s|
  {
    seq(|s|, i requires 0 <= i < |s| => LowerChar(s[i]))
  }

  /** Characters whose upper case is ASCII; the others stay outside ASCII and are left alone. */
  function UpperChar(c: char): string {
    if 'a' <= c <= 'z' then ['A' + (c - 'a')]
    else if c == '\U{DF}' then "SS"
    else if c == '\U{131}' then "I"
    else if c == '\U{17F}' then "S"
    else if c == '\U{FB00}' then "FF"
    else if c == '\U{FB01}' then "FI"
    else if c == '\U{FB02}' then "FL"
    else if c == '\U{FB03}' then "FFI"
    else if c == '\U{FB04}' then "FFL"
    else if c == '\U{FB05}' || c == '\U{FB06}' then "ST"
    else [c]
  }

  function Upper(s: string): string {
    if s == "" then "" else UpperChar(s[0]) + Upper(s[1..])
  }

  lemma {:induction false} UpperKeeps(s: string)
    requires forall i :: 0 <= i < |s| ==> UpperChar(s[i]) == [s[i]]
    ensures Upper(s) == s
  {
    if s != "" {
      UpperKeeps(s[1..]);
    }
  }

  /** On ASCII, lower case moves the letters A to Z by 32 and upper case moves a to z back; nothing else changes. */
  lemma {:induction false} CaseExactly(s: string, i: nat)
    requires Ascii(s) && i < |s|
    ensures |Lower(s)| == |Upper(s)| == |s|
    ensures Lower(s)[i] as int == s[i] as int + (if 'A' <= s[i] <= 'Z' then 32 else 0)
    ensures Upper(s)[i] as int == s[i] as int - (if 'a' <= s[i] <= 'z' then 32 else 0)
  {
    UpperLength(s);
    UpperAt(s, i);
  }

  /** Only these characters beyond ASCII become letters of ASCII: sharp s, dotless i, long s and the ligatures. */
  lemma {:induction false} UpperBeyondAscii(c: char)
    ensures c as int >= 128 && Ascii(UpperChar(c)) <==>
            c as int in {0xDF, 0x131, 0x17F, 0xFB00, 0xFB01, 0xFB02, 0xFB03, 0xFB04, 0xFB05, 0xFB06}
    ensures UpperChar(0xDF as char) == "SS" && UpperChar(0x131 as char) == "I" && UpperChar(0x17F as char) == "S"
    ensures UpperChar(0xFB03 as char) == "FFI" && UpperChar(0xFB06 as char) == "ST"
  {
    if c as int >= 128 && UpperChar(c) == [c] {
      assert !Ascii([c]) by {
        assert [c][0] == c;
      }
    }
  }

  lemma {:induction false} UpperAt(s: string, i: nat)
    requires Ascii(s) && i < |s|
    ensures i < |Upper(s)| && Upper(s)[i] as int == s[i] as int - (if 'a' <= s[i] <= 'z' then 32 else 0)
  {
    if i > 0 {
      UpperAt(s[1..], i - 1);
    }
  }

  predicate Ascii(s: string) {
    forall i :: 0 <= i < |s| ==> s[i] < 128 as char
  }

  lemma {:induction false} UpperLength(s: string)
    requires Ascii(s)
    ensures |Upper(s)| == |s|
  {
    if s != "" {
      UpperLength(s[1..]);
    }
  }

  /** String.length counts UTF-16 code units. */
  function Length16(s: string): (n: nat)
    ensures n >= |s|
  {
    if s == "" then 0 else Length16(s[1..]) + if s[0] < '\U{10000}' then 1 else 2
  }

  lemma {:induction false} AsciiLength(s: string)
    requires Ascii(s)
    ensures Length16(s) == |s|
  {
    if s != "" {
      AsciiLength(s[1..]);
    }
  }

  /** Beyond the basic plane a character counts twice. */
  lemma {:induction false} LengthExactly(s: string, c: char, t: string)
    ensures Length16(s + [c] + t) == Length16(s) + (if c as int >= 0x1_0000 then 2 else 1) + Length16(t)
  {
    if s == "" {
      assert s + [c] + t == [c] + t && ([c] + t)[1..] == t;
    } else {
      LengthExactly(s[1..], c, t);
      assert (s + [c] + t)[1..] == s[1..] + [c] + t;
    }
  }

  lemma {:induction false} JoinMember(parts: seq<string>, c: char, x: char)
    requires |parts| > 0
    ensures x in Join(parts, c) <==> (|parts| > 1 && x == c) || exists i :: 0 <= i < |parts| && x in parts[i]
  {
    if |parts| > 1 {
      JoinMember(parts[1..], c, x);
      if i :| 0 <= i < |parts[1..]| && x in parts[1..][i] {
        assert x in parts[i + 1];
      }
      if i :| 0 < i < |parts| && x in parts[i] {
        assert x in parts[1..][i - 1];
      }
    }
  }
}
