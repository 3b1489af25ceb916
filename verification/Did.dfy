/** Parsing and normalising decentralised identifiers. The check of a Stellar key is a parameter. */
module Did {
  import opened Outcomes
  import opened Strings

  datatype DidError =
    | BadLength | BadFragment | BadShape | UnsupportedMethod
    | BadStellarShape | BadStellarSubject | BadSorobanShape | UnsupportedNetwork | BadSorobanSubject
    | UnsupportedEnrollmentNetwork | NetworkMismatch | BadWallet | SubjectMismatch

  datatype Method = Soroban | Stellar

  datatype ParsedDid = ParsedDid(
    kind: Method, network: Option<string>, subject: string, fragment: Option<string>, normalizedDid: string)

  datatype Outcome<T> = Accepted(value: T) | Rejected(error: DidError)

  type KeyCheck = string -> bool

  predicate KeyChar(c: char) {
    'A' <= c <= 'Z' || '2' <= c <= '7'
  }

  /** A key is a text over the Base32 alphabet of 56 characters. */
  ghost predicate ChecksKeys(isKey: KeyCheck) {
    forall s :: isKey(s) ==> |s| == 56 && forall i :: 0 <= i < |s| ==> KeyChar(s[i])
  }

  predicate SubjectChar(c: char) {
    'A' <= c <= 'Z' || 'a' <= c <= 'z' || '0' <= c <= '9' || c == '.' || c == '_' || c == ':' || c == '%' || c == '-'
  }

  predicate IsValidDidSubject(s: string) {
    s != "" && forall i :: 0 <= i < |s| ==> SubjectChar(s[i])
  }

  predicate SupportedNetwork(s: string) {
    s == "testnet" || s == "mainnet" || s == "futurenet"
  }

  function NormalizeNetwork(network: string): Option<string> {
    var normalized := Lower(Trim(network));
    if normalized == "public" then Some("mainnet")
    else if SupportedNetwork(normalized) then Some(normalized)
    else None
  }

  /** The base before the first hash, and the trimmed rest if there is a hash. */
  function ExtractFragment(value: string): Outcome<(string, Option<string>)> {
    var parts := Split(value, '#');
    if |parts| == 1 then Accepted((parts[0], None))
    else
      var fragment := Trim(Join(parts[1..], '#'));
      if IsValidDidSubject(fragment) then Accepted((parts[0], Some(fragment))) else Rejected(BadFragment)
  }

  function FragmentText(fragment: Option<string>): string {
    match fragment case None => "" case Some(f) => "#" + f
  }

  /** The parser after trimming and the length check. */
  function ParseTrimmed(isKey: KeyCheck, trimmed: string): Outcome<ParsedDid> {
    match ExtractFragment(trimmed)
    case Rejected(e) => Rejected(e)
    case Accepted((base, fragment)) => ParseSegments(isKey, Split(base, ':'), fragment)
  }

  function ParseStellar(isKey: KeyCheck, segments: seq<string>, fragment: Option<string>): Outcome<ParsedDid> {
    if |segments| != 3 then Rejected(BadStellarShape)
    else
      var subject := Upper(Trim(segments[2]));
      if !isKey(subject) then Rejected(BadStellarSubject)
      else Accepted(ParsedDid(Stellar, None, subject, fragment, "did:stellar:" + subject + FragmentText(fragment)))
  }

  function ParseSoroban(segments: seq<string>, fragment: Option<string>): Outcome<ParsedDid> {
    if |segments| != 4 then Rejected(BadSorobanShape)
    else
      var network := NormalizeNetwork(segments[2]);
      var subject := Trim(segments[3]);
      if network.None? then Rejected(UnsupportedNetwork)
      else if !IsValidDidSubject(subject) then Rejected(BadSorobanSubject)
      else Accepted(ParsedDid(Soroban, network, subject, fragment,
                              "did:soroban:" + network.value + ":" + subject + FragmentText(fragment)))
  }

  function ParseSegments(isKey: KeyCheck, segments: seq<string>, fragment: Option<string>): Outcome<ParsedDid>
    requires |segments| > 0
  {
    if Lower(segments[0]) != "did" || |segments| < 3 then Rejected(BadShape)
    else if Lower(segments[1]) == "stellar" then ParseStellar(isKey, segments, fragment)
    else if Lower(segments[1]) == "soroban" then ParseSoroban(segments, fragment)
    else Rejected(UnsupportedMethod)
  }

  function ParseSupportedDid(isKey: KeyCheck, did: string): Outcome<ParsedDid> {
    var trimmed := Trim(did);
    if trimmed == "" || Length16(trimmed) > 256 then Rejected(BadLength) else ParseTrimmed(isKey, trimmed)
  }

  // ----- the normal form

  /** What the parser accepts: the fields are in normal form and print to the normalised text. */
  predicate Normal(isKey: KeyCheck, p: ParsedDid) {
    && (p.fragment.Some? ==> IsValidDidSubject(p.fragment.value))
    && match p.kind
       case Stellar =>
         && isKey(p.subject) && p.network == None
         && p.normalizedDid == "did:stellar:" + p.subject + FragmentText(p.fragment)
       case Soroban =>
         && p.network.Some? && SupportedNetwork(p.network.value) && IsValidDidSubject(p.subject) && ':' !in p.subject
         && p.normalizedDid == "did:soroban:" + p.network.value + ":" + p.subject + FragmentText(p.fragment)
  }

  lemma {:induction false} SegmentsAreNormal(isKey: KeyCheck, segments: seq<string>, fragment: Option<string>)
    requires |segments| > 0 && Without(segments, ':') && (fragment.Some? ==> IsValidDidSubject(fragment.value))
    ensures var r := ParseSegments(isKey, segments, fragment); r.Accepted? ==> Normal(isKey, r.value)
  {
    if |segments| == 4 {
      TrimTight(segments[3]);
      assert ':' !in segments[3];
    }
  }

  lemma {:induction false} ParsedIsNormal(isKey: KeyCheck, trimmed: string)
    ensures ParseTrimmed(isKey, trimmed).Accepted? ==> Normal(isKey, ParseTrimmed(isKey, trimmed).value)
  {
    match ExtractFragment(trimmed)
    case Rejected(_) =>
    case Accepted((base, fragment)) =>
      SplitParts(base, ':');
      SegmentsAreNormal(isKey, Split(base, ':'), fragment);
  }

  /** The segments a normal record prints. */
  function Segments(p: ParsedDid): seq<string>
    requires p.kind.Soroban? ==> p.network.Some?
  {
    if p.kind.Stellar? then ["did", "stellar", p.subject] else ["did", "soroban", p.network.value, p.subject]
  }

  lemma {:induction false} JoinSegments(p: ParsedDid)
    requires p.kind.Soroban? ==> p.network.Some?
    ensures Join(Segments(p), ':') ==
            if p.kind.Stellar? then "did:stellar:" + p.subject else "did:soroban:" + p.network.value + ":" + p.subject
  {
    var s := Segments(p);
    if p.kind.Stellar? {
      assert s[1..] == ["stellar", p.subject] && s[1..][1..] == [p.subject];
      assert Join(s[1..], ':') == "stellar" + [':'] + p.subject;
    } else {
      assert s[1..] == ["soroban", p.network.value, p.subject];
      assert s[1..][1..] == [p.network.value, p.subject] && s[1..][1..][1..] == [p.subject];
      assert Join(s[1..][1..], ':') == p.network.value + [':'] + p.subject;
      assert Join(s[1..], ':') == "soroban" + [':'] + (p.network.value + [':'] + p.subject);
    }
  }

  predicate Word(s: string) {
    s != "" && forall i :: 0 <= i < |s| ==> 'a' <= s[i] <= 'z'
  }

  /** A text with none of the two separators inside. */
  predicate Plain(s: string) {
    IsValidDidSubject(s) && ':' !in s
  }

  lemma {:induction false} WordIsPlain(s: string)
    requires Word(s)
    ensures Lower(s) == s && Plain(s)
  {
  }

  lemma {:induction false} FixedWords()
    ensures Word("did") && Word("stellar") && Word("soroban")
  {
  }

  lemma {:induction false} NetworkIsNormal(network: string)
    requires SupportedNetwork(network)
    ensures NormalizeNetwork(network) == Some(network) && IsValidDidSubject(network) && ':' !in network
  {
    assert Word(network);
    WordIsPlain(network);
    SubjectIsPlain(network);
    assert network[0] != 'p';
  }

  lemma {:induction false} KeyIsPlain(isKey: KeyCheck, key: string)
    requires ChecksKeys(isKey) && isKey(key)
    ensures Trim(key) == key && Upper(key) == key && IsValidDidSubject(key) && ':' !in key
  {
    assert |key| == 56 && forall i :: 0 <= i < |key| ==> KeyChar(key[i]);
    TrimTight(key);
    UpperKeeps(key);
  }

  lemma {:induction false} SubjectIsPlain(subject: string)
    requires IsValidDidSubject(subject)
    ensures Trim(subject) == subject && '#' !in subject && Ascii(subject)
  {
    TrimTight(subject);
  }

  /** Printing a fragment and extracting it again. */
  lemma {:induction false} FragmentRoundTrip(base: string, fragment: Option<string>)
    requires '#' !in base && (fragment.Some? ==> IsValidDidSubject(fragment.value))
    ensures ExtractFragment(base + FragmentText(fragment)) == Accepted((base, fragment))
  {
    match fragment
    case None =>
      SplitWhole(base, '#');
      assert base + "" == base;
    case Some(f) =>
      SubjectIsPlain(f);
      SplitWhole(f, '#');
      SplitNext(base, f, '#');
      assert base + FragmentText(fragment) == base + ['#'] + f;
      assert ([base] + [f])[1..] == [f];
  }

  predicate AllPlain(parts: seq<string>) {
    forall i :: 0 <= i < |parts| ==> Plain(parts[i])
  }

  lemma {:induction false} JoinValid(parts: seq<string>)
    requires |parts| > 0 && AllPlain(parts)
    ensures IsValidDidSubject(Join(parts, ':'))
  {
    if |parts| > 1 {
      JoinValid(parts[1..]);
    }
  }

  lemma {:induction false} PlainSegments(a: string, b: string, rest: seq<string>)
    requires Word(a) && Word(b) && AllPlain(rest)
    ensures AllPlain([a, b] + rest)
  {
    WordIsPlain(a);
    WordIsPlain(b);
  }

  lemma {:induction false} SegmentsArePlain(isKey: KeyCheck, p: ParsedDid)
    requires ChecksKeys(isKey) && Normal(isKey, p)
    ensures AllPlain(Segments(p))
  {
    if p.kind.Stellar? {
      KeyIsPlain(isKey, p.subject);
      StellarSegments(p.subject);
    } else {
      NetworkIsNormal(p.network.value);
      SorobanSegments(p.network.value, p.subject);
    }
  }

  lemma {:induction false} StellarSegments(subject: string)
    requires Plain(subject)
    ensures AllPlain(["did", "stellar", subject])
  {
    FixedWords();
    PlainSegments("did", "stellar", [subject]);
    assert ["did", "stellar", subject] == ["did", "stellar"] + [subject];
  }

  lemma {:induction false} SorobanSegments(network: string, subject: string)
    requires Plain(network) && Plain(subject)
    ensures AllPlain(["did", "soroban", network, subject])
  {
    FixedWords();
    PlainSegments("did", "soroban", [network, subject]);
    assert ["did", "soroban", network, subject] == ["did", "soroban"] + [network, subject];
  }

  lemma {:induction false} SegmentsRoundTrip(isKey: KeyCheck, p: ParsedDid)
    requires ChecksKeys(isKey) && Normal(isKey, p)
    ensures Split(Join(Segments(p), ':'), ':') == Segments(p)
    ensures IsValidDidSubject(Join(Segments(p), ':'))
  {
    SegmentsArePlain(isKey, p);
    SplitJoin(Segments(p), ':');
    JoinValid(Segments(p));
  }

  lemma {:induction false} StellarParses(isKey: KeyCheck, p: ParsedDid)
    requires ChecksKeys(isKey) && Normal(isKey, p) && p.kind.Stellar?
    ensures ParseStellar(isKey, Segments(p), p.fragment) == Accepted(p)
  {
    KeyIsPlain(isKey, p.subject);
  }

  lemma {:induction false} SorobanParses(isKey: KeyCheck, p: ParsedDid)
    requires Normal(isKey, p) && p.kind.Soroban?
    ensures ParseSoroban(Segments(p), p.fragment) == Accepted(p)
  {
    NetworkIsNormal(p.network.value);
    SubjectIsPlain(p.subject);
  }

  lemma {:induction false} SegmentsParse(isKey: KeyCheck, p: ParsedDid)
    requires ChecksKeys(isKey) && Normal(isKey, p)
    ensures ParseSegments(isKey, Segments(p), p.fragment) == Accepted(p)
  {
    FixedWords();
    WordIsPlain("did");
    WordIsPlain(Segments(p)[1]);
    if p.kind.Stellar? {
      StellarParses(isKey, p);
    } else {
      assert "stellar"[1] != "soroban"[1];
      SorobanParses(isKey, p);
    }
  }

  /** A normal record prints to a text without border space that parses back to it. */
  lemma {:induction false} NormalTextParses(isKey: KeyCheck, p: ParsedDid)
    requires ChecksKeys(isKey) && Normal(isKey, p)
    ensures ParseTrimmed(isKey, p.normalizedDid) == Accepted(p)
    ensures Trim(p.normalizedDid) == p.normalizedDid != "" && Length16(p.normalizedDid) == |p.normalizedDid|
  {
    var base := Join(Segments(p), ':');
    JoinSegments(p);
    SegmentsRoundTrip(isKey, p);
    SegmentsParse(isKey, p);
    assert p.normalizedDid == base + FragmentText(p.fragment);
    SubjectIsPlain(base);
    FragmentRoundTrip(base, p.fragment);
    NormalTextIsTight(base, p.fragment);
    AsciiLength(p.normalizedDid);
    TrimTight(p.normalizedDid);
  }

  lemma {:induction false} NormalTextIsTight(base: string, fragment: Option<string>)
    requires IsValidDidSubject(base) && (fragment.Some? ==> IsValidDidSubject(fragment.value))
    ensures Tight(base + FragmentText(fragment)) && Ascii(base + FragmentText(fragment))
  {
    var n := base + FragmentText(fragment);
    assert n[0] == base[0];
    match fragment
    case None => assert n == base;
    case Some(f) =>
      assert n[|n| - 1] == f[|f| - 1];
  }

  /**
   * Normalising is a fixed point: the normalised text of an accepted identifier parses to the
   * identical record exactly if it is not longer than the parser allows.
   */
  lemma {:induction false} NormalisedParsesAgain(isKey: KeyCheck, did: string)
    requires ChecksKeys(isKey) && ParseSupportedDid(isKey, did).Accepted?
    ensures var p := ParseSupportedDid(isKey, did);
            ParseSupportedDid(isKey, p.value.normalizedDid)
            == if |p.value.normalizedDid| <= 256 then p else Rejected(BadLength)
  {
    ParsedIsNormal(isKey, Trim(did));
    NormalTextParses(isKey, ParseSupportedDid(isKey, did).value);
  }

  /** The normalised text is a normal form: accepted identifiers with the same one have the same record. */
  lemma {:induction false} NormalisedDetermines(isKey: KeyCheck, a: string, b: string)
    requires ChecksKeys(isKey) && ParseSupportedDid(isKey, a).Accepted? && ParseSupportedDid(isKey, b).Accepted?
    ensures ParseSupportedDid(isKey, a).value.normalizedDid == ParseSupportedDid(isKey, b).value.normalizedDid
            <==> ParseSupportedDid(isKey, a) == ParseSupportedDid(isKey, b)
  {
    ParsedIsNormal(isKey, Trim(a));
    ParsedIsNormal(isKey, Trim(b));
    NormalTextParses(isKey, ParseSupportedDid(isKey, a).value);
    NormalTextParses(isKey, ParseSupportedDid(isKey, b).value);
  }

  // ----- how long a normalised text can be

  /** The literal form of an identifier on the network's other name. */
  function PublicText(identifier: string): string {
    "did:soroban:public:" + identifier
  }

  lemma {:induction false} JoinFour(a: string, b: string, c: string, d: string)
    ensures Join([a, b, c, d], ':') == a + ":" + b + ":" + c + ":" + d
  {
    var s := [a, b, c, d];
    assert s[1..] == [b, c, d] && s[1..][1..] == [c, d] && s[1..][1..][1..] == [d];
    assert Join(s[1..][1..], ':') == c + [':'] + d;
    assert Join(s[1..], ':') == b + [':'] + (c + [':'] + d);
  }

  lemma {:induction false} PublicSegments(identifier: string)
    requires Plain(identifier)
    ensures Split(PublicText(identifier), ':') == ["did", "soroban", "public", identifier]
    ensures IsValidDidSubject(PublicText(identifier))
  {
    var s := ["did", "soroban", "public", identifier];
    JoinFour("did", "soroban", "public", identifier);
    assert PublicText(identifier) == Join(s, ':');
    assert Word("public");
    WordIsPlain("public");
    SorobanSegments("public", identifier);
    SplitJoin(s, ':');
    JoinValid(s);
  }

  lemma {:induction false} PublicParses(isKey: KeyCheck, identifier: string)
    requires IsValidDidSubject(identifier) && ':' !in identifier && |identifier| <= 237
    ensures ParseSupportedDid(isKey, PublicText(identifier)) ==
            Accepted(ParsedDid(Soroban, Some("mainnet"), identifier, None, "did:soroban:mainnet:" + identifier))
  {
    var text := PublicText(identifier);
    PublicSegments(identifier);
    SubjectIsPlain(text);
    AsciiLength(text);
    FragmentRoundTrip(text, None);
    assert text + FragmentText(None) == text;
    PublicSegmentsParse(isKey, identifier);
  }

  lemma {:induction false} PublicSegmentsParse(isKey: KeyCheck, identifier: string)
    requires IsValidDidSubject(identifier)
    ensures ParseSegments(isKey, ["did", "soroban", "public", identifier], None) ==
            Accepted(ParsedDid(Soroban, Some("mainnet"), identifier, None, "did:soroban:mainnet:" + identifier))
  {
    FixedWords();
    WordIsPlain("did");
    WordIsPlain("soroban");
    assert Word("public");
    WordIsPlain("public");
    SubjectIsPlain("public");
    SubjectIsPlain(identifier);
    assert "stellar"[1] != "soroban"[1];
    assert "did:soroban:" + "mainnet" + ":" == "did:soroban:mainnet:";
    assert "did:soroban:mainnet:" + identifier + FragmentText(None) == "did:soroban:mainnet:" + identifier;
  }

  /** The bound is met: an identifier of 237 characters on "public" is accepted, but its normalised text is not. */
  lemma {:induction false} PublicCanGrowTooLong(isKey: KeyCheck, identifier: string)
    requires ChecksKeys(isKey) && IsValidDidSubject(identifier) && ':' !in identifier && |identifier| <= 237
    ensures ParseSupportedDid(isKey, PublicText(identifier)).Accepted?
    ensures ParseSupportedDid(isKey, ParseSupportedDid(isKey, PublicText(identifier)).value.normalizedDid).Accepted?
            <==> |identifier| < 237
  {
    PublicParses(isKey, identifier);
    NormalisedParsesAgain(isKey, PublicText(identifier));
  }

  function Slack(s: string): nat {
    TrimTight(s);
    |s| - |Trim(s)|
  }

  /**
   * What normalising a trimmed text adds to its length: one for the network name "public", less the
   * white space around the network, the subject and the fragment.
   */
  function Growth(trimmed: string): int {
    var parts := Split(trimmed, '#');
    var segments := Split(parts[0], ':');
    (if |segments| == 4 && Lower(Trim(segments[2])) == "public" then 1 else 0)
    - (if |segments| >= 3 then Slack(segments[2]) else 0)
    - (if |segments| == 4 then Slack(segments[3]) else 0)
    - (if |parts| > 1 then Slack(Join(parts[1..], '#')) else 0)
  }

  lemma {:induction false} GrowsExactly(isKey: KeyCheck, did: string)
    requires Ascii(did) && ParseSupportedDid(isKey, did).Accepted?
    ensures |ParseSupportedDid(isKey, did).value.normalizedDid| == |Trim(did)| + Growth(Trim(did))
  {
    var t := Trim(did);
    TrimTight(did);
    var parts := Split(t, '#');
    SplitParts(t, '#');
    var segments := Split(parts[0], ':');
    SplitParts(parts[0], ':');
    assert forall c :: c in did ==> c < 128 as char;
    JoinContains(parts, '#', 0);
    FragmentLength(t);
    if |segments| == 3 {
      JoinContains(segments, ':', 2);
      StellarLength(isKey, segments, ExtractFragment(t).value.1);
    } else if |segments| == 4 {
      SorobanLength(segments, ExtractFragment(t).value.1);
    }
  }

  lemma {:induction false} FragmentLength(t: string)
    requires ExtractFragment(t).Accepted?
    ensures var parts := Split(t, '#');
            |t| == |parts[0]| + |FragmentText(ExtractFragment(t).value.1)|
                   + if |parts| > 1 then Slack(Join(parts[1..], '#')) else 0
  {
    SplitParts(t, '#');
  }

  /** So whether an accepted ASCII identifier is stable can be read off its text. */
  lemma {:induction false} StableExactly(isKey: KeyCheck, did: string)
    requires ChecksKeys(isKey) && Ascii(did) && ParseSupportedDid(isKey, did).Accepted?
    ensures var p := ParseSupportedDid(isKey, did);
            ParseSupportedDid(isKey, p.value.normalizedDid) == p <==> |Trim(did)| + Growth(Trim(did)) <= 256
  {
    GrowsExactly(isKey, did);
    NormalisedParsesAgain(isKey, did);
  }

  /** On ASCII, normalising lengthens a text by at most one character. */
  lemma {:induction false} GrowsByOne(isKey: KeyCheck, did: string)
    requires Ascii(did) && ParseSupportedDid(isKey, did).Accepted?
    ensures |ParseSupportedDid(isKey, did).value.normalizedDid| <= |Trim(did)| + 1
  {
    GrowsExactly(isKey, did);
  }

  /** So an ASCII identifier one character short of the limit is always stable. */
  lemma {:induction false} ShortIsStable(isKey: KeyCheck, did: string)
    requires ChecksKeys(isKey) && Ascii(did) && |Trim(did)| <= 255 && ParseSupportedDid(isKey, did).Accepted?
    ensures ParseSupportedDid(isKey, ParseSupportedDid(isKey, did).value.normalizedDid) == ParseSupportedDid(isKey, did)
  {
    GrowsByOne(isKey, did);
    NormalisedParsesAgain(isKey, did);
  }

  lemma {:induction false} JoinContains(parts: seq<string>, c: char, i: nat)
    requires i < |parts|
    ensures forall x :: x in parts[i] ==> x in Join(parts, c)
  {
    if i > 0 {
      JoinContains(parts[1..], c, i - 1);
    }
  }

  lemma {:induction false} StellarLength(isKey: KeyCheck, segments: seq<string>, fragment: Option<string>)
    requires |segments| == 3 && (forall x :: x in segments[2] ==> x < 128 as char)
    ensures var r := ParseSegments(isKey, segments, fragment);
            r.Accepted? ==> |r.value.normalizedDid| ==
                            |Join(segments, ':')| + |FragmentText(fragment)| - Slack(segments[2])
  {
    TrimTight(segments[2]);
    assert forall i :: 0 <= i < |Trim(segments[2])| ==> Trim(segments[2])[i] in segments[2];
    UpperLength(Trim(segments[2]));
    assert |Join(segments, ':')| == |segments[0]| + 1 + |segments[1]| + 1 + |segments[2]| by {
      assert Join(segments[1..], ':') == segments[1] + [':'] + Join(segments[1..][1..], ':');
    }
    if Lower(segments[1]) == "stellar" && Lower(segments[0]) == "did" {
      assert |segments[1]| == |Lower(segments[1])| == 7 && |segments[0]| == |Lower(segments[0])| == 3;
    }
  }

  lemma {:induction false} SorobanLength(segments: seq<string>, fragment: Option<string>)
    requires |segments| == 4 && Lower(segments[0]) == "did" && Lower(segments[1]) == "soroban"
    ensures var r := ParseSoroban(segments, fragment);
            r.Accepted? ==> |r.value.normalizedDid| ==
                            |Join(segments, ':')| + |FragmentText(fragment)| - Slack(segments[2]) - Slack(segments[3])
                            + if Lower(Trim(segments[2])) == "public" then 1 else 0
  {
    TrimTight(segments[2]);
    TrimTight(segments[3]);
    assert |Join(segments, ':')| == |segments[0]| + 1 + |segments[1]| + 1 + |segments[2]| + 1 + |segments[3]| by {
      var s1 := segments[1..];
      assert s1[1..] == segments[2..] && segments[2..][1..] == [segments[3]];
      assert Join(segments[2..], ':') == segments[2] + [':'] + segments[3];
      assert Join(s1, ':') == segments[1] + [':'] + Join(segments[2..], ':');
    }
    assert |segments[1]| == |Lower(segments[1])| == 7 && |segments[0]| == |Lower(segments[0])| == 3;
    assert |Lower(Trim(segments[2]))| == |Trim(segments[2])|;
  }

  // ----- student identifiers

  datatype MaybeText = Undefined | Null | Text(text: string)

  function NormalizeSupportedDid(isKey: KeyCheck, did: MaybeText): Outcome<MaybeText> {
    match did
    case Undefined => Accepted(Undefined)
    case Null => Accepted(Null)
    case Text(s) =>
      if Trim(s) == "" then Accepted(Null)
      else match ParseSupportedDid(isKey, Trim(s))
        case Accepted(p) => Accepted(Text(p.normalizedDid))
        case Rejected(e) => Rejected(e)
  }

  /** The wallet address in use: none if it is absent or blank. */
  function WalletOf(walletAddress: Option<string>): Option<string> {
    match walletAddress
    case None => None
    case Some(address) => if Upper(Trim(address)) == "" then None else Some(Upper(Trim(address)))
  }

  function Objection(
      isKey: KeyCheck, parsed: ParsedDid, wallet: Option<string>, expectedNetwork: string): Option<DidError>
  {
    if expectedNetwork != "" && NormalizeNetwork(expectedNetwork).None? then Some(UnsupportedEnrollmentNetwork)
    else if expectedNetwork != "" && parsed.network != NormalizeNetwork(expectedNetwork) then Some(NetworkMismatch)
    else if wallet.None? then None
    else if !isKey(wallet.value) then Some(BadWallet)
    else if parsed.kind.Stellar? && parsed.subject != wallet.value then Some(SubjectMismatch)
    else if parsed.kind.Soroban? && isKey(Upper(parsed.subject)) && Upper(parsed.subject) != wallet.value then
      Some(SubjectMismatch)
    else None
  }

  /** An expected network that is absent is the empty text here, which the code treats alike. */
  function ValidateStudentDidCompatibility(
      isKey: KeyCheck, did: MaybeText, walletAddress: Option<string>, expectedNetwork: string): Outcome<MaybeText>
  {
    match NormalizeSupportedDid(isKey, did)
    case Rejected(e) => Rejected(e)
    case Accepted(Undefined) => Accepted(Undefined)
    case Accepted(Null) => Accepted(Null)
    case Accepted(Text(normalizedDid)) =>
      match ParseSupportedDid(isKey, normalizedDid)
      case Rejected(e) => Rejected(e)
      case Accepted(parsed) =>
        match Objection(isKey, parsed, WalletOf(walletAddress), expectedNetwork)
        case None => Accepted(Text(normalizedDid))
        case Some(e) => Rejected(e)
  }

  /** The record names the expected network, and the wallet wherever its subject is a key. */
  predicate Compatible(isKey: KeyCheck, p: ParsedDid, wallet: Option<string>, expectedNetwork: string) {
    && (expectedNetwork != "" ==> p.network.Some? && p.network == NormalizeNetwork(expectedNetwork))
    && (wallet.Some? ==> isKey(wallet.value) && (isKey(Upper(p.subject)) ==> Upper(p.subject) == wallet.value))
  }

  lemma {:induction false} NoObjection(isKey: KeyCheck, p: ParsedDid, wallet: Option<string>, expectedNetwork: string)
    requires ChecksKeys(isKey) && Normal(isKey, p)
    ensures Objection(isKey, p, wallet, expectedNetwork).None? <==> Compatible(isKey, p, wallet, expectedNetwork)
  {
    if p.kind.Stellar? {
      KeyIsPlain(isKey, p.subject);
    }
  }

  /** The second parse changes nothing but the length check: the outcome is decided by the first record. */
  lemma {:induction false} ValidatedExactly(
      isKey: KeyCheck, s: string, walletAddress: Option<string>, expectedNetwork: string)
    requires ChecksKeys(isKey) && Trim(s) != ""
    ensures var first := ParseSupportedDid(isKey, s);
            var r := ValidateStudentDidCompatibility(isKey, Text(s), walletAddress, expectedNetwork);
            && (r.Accepted? <==>
                && first.Accepted? && |first.value.normalizedDid| <= 256
                && Compatible(isKey, first.value, WalletOf(walletAddress), expectedNetwork))
            && (r.Accepted? ==> r.value == Text(first.value.normalizedDid))
  {
    TrimTight(s);
    TrimTight(Trim(s));
    var first := ParseSupportedDid(isKey, s);
    if first.Accepted? {
      NormalisedParsesAgain(isKey, s);
      ParsedIsNormal(isKey, Trim(s));
      NoObjection(isKey, first.value, WalletOf(walletAddress), expectedNetwork);
    }
  }

  /** An accepted result is accepted again, unchanged, with the same wallet and network. */
  lemma {:induction false} ValidatedIsStable(
      isKey: KeyCheck, did: MaybeText, walletAddress: Option<string>, expectedNetwork: string)
    requires ChecksKeys(isKey)
    ensures var r := ValidateStudentDidCompatibility(isKey, did, walletAddress, expectedNetwork);
            r.Accepted? ==> ValidateStudentDidCompatibility(isKey, r.value, walletAddress, expectedNetwork) == r
  {
    var r := ValidateStudentDidCompatibility(isKey, did, walletAddress, expectedNetwork);
    if did.Text? && r.Accepted? && r.value.Text? {
      ValidatedExactly(isKey, did.text, walletAddress, expectedNetwork);
      NormalisedParsesAgain(isKey, did.text);
      ParsedIsNormal(isKey, Trim(did.text));
      NormalTextParses(isKey, ParseSupportedDid(isKey, did.text).value);
      ValidatedExactly(isKey, r.value.text, walletAddress, expectedNetwork);
    }
  }
}
