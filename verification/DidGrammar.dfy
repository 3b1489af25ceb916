/** Which texts the parser of decentralised identifiers accepts, as a relation on the text and the record. */
module DidGrammar {
  import opened Outcomes
  import opened Strings
  import opened Did

  /** The pieces of a text between its colons, and what follows its first hash. */
  datatype Pieces = Pieces(segments: seq<string>, tail: Option<string>)

  /** The text consists of the pieces. */
  predicate MadeOf(text: string, x: Pieces) {
    && |x.segments| > 0 && Without(x.segments, ':') && Without(x.segments, '#')
    && text == Join(x.segments, ':') + match x.tail case None => "" case Some(t) => "#" + t
  }

  /** The fragment is what follows the hash, without border space. */
  predicate FragmentIs(x: Pieces, fragment: Option<string>) {
    match x.tail
    case None => fragment == None
    case Some(t) => fragment == Some(Trim(t)) && IsValidDidSubject(Trim(t))
  }

  /** Letter case is ignored in the words, border space in the parts; a key is in upper case. */
  predicate StellarIs(isKey: KeyCheck, s: seq<string>, p: ParsedDid) {
    && |s| == 3 && Lower(s[0]) == "did" && Lower(s[1]) == "stellar"
    && p.network == None && p.subject == Upper(Trim(s[2])) && isKey(p.subject)
  }

  /** The network `public` is `mainnet`. */
  predicate SorobanIs(s: seq<string>, p: ParsedDid) {
    && |s| == 4 && Lower(s[0]) == "did" && Lower(s[1]) == "soroban"
    && p.network in {Some("testnet"), Some("mainnet"), Some("futurenet")}
    && (Some(Lower(Trim(s[2]))) == p.network || (Lower(Trim(s[2])) == "public" && p.network == Some("mainnet")))
    && p.subject == Trim(s[3]) && IsValidDidSubject(p.subject)
  }

  /** The pieces spell the record. */
  predicate Spells(isKey: KeyCheck, x: Pieces, p: ParsedDid) {
    && FragmentIs(x, p.fragment)
    && match p.kind
       case Stellar =>
         StellarIs(isKey, x.segments, p) && p.normalizedDid == "did:stellar:" + p.subject + FragmentText(p.fragment)
       case Soroban =>
         && SorobanIs(x.segments, p)
         && p.normalizedDid == "did:soroban:" + p.network.value + ":" + p.subject + FragmentText(p.fragment)
  }

  lemma {:induction false} PiecesOf(text: string) returns (x: Pieces)
    ensures MadeOf(text, x)
    ensures var parts := Split(text, '#');
            && x.segments == Split(parts[0], ':')
            && x.tail == if |parts| == 1 then None else Some(Join(parts[1..], '#'))
  {
    var parts := Split(text, '#');
    var segments := Split(parts[0], ':');
    SplitParts(text, '#');
    SplitParts(parts[0], ':');
    x := Pieces(segments, if |parts| == 1 then None else Some(Join(parts[1..], '#')));
    forall i | 0 <= i < |segments| ensures '#' !in segments[i] {
      JoinMember(segments, ':', '#');
    }
  }

  lemma {:induction false} PiecesSplit(text: string, x: Pieces)
    requires MadeOf(text, x)
    ensures var parts := Split(text, '#');
            && x.segments == Split(parts[0], ':')
            && x.tail == if |parts| == 1 then None else Some(Join(parts[1..], '#'))
  {
    var base := Join(x.segments, ':');
    SplitJoin(x.segments, ':');
    JoinMember(x.segments, ':', '#');
    match x.tail
    case None =>
      SplitWhole(base, '#');
      assert text == base;
    case Some(t) =>
      SplitNext(base, t, '#');
      SplitParts(t, '#');
      assert text == base + ['#'] + t;
      assert ([base] + Split(t, '#'))[1..] == Split(t, '#');
  }

  lemma {:induction false} NetworkExactly(s: string, network: Option<string>)
    ensures NormalizeNetwork(s).Some? && network == NormalizeNetwork(s) <==>
            && network in {Some("testnet"), Some("mainnet"), Some("futurenet")}
            && (Some(Lower(Trim(s))) == network || (Lower(Trim(s)) == "public" && network == Some("mainnet")))
  {
    assert |"testnet"| == 7 && |"mainnet"| == 7 && |"futurenet"| == 9 && |"public"| == 6;
  }

  lemma {:induction false} SegmentsExactly(isKey: KeyCheck, x: Pieces, fragment: Option<string>, p: ParsedDid)
    requires |x.segments| > 0 && FragmentIs(x, fragment)
    ensures ParseSegments(isKey, x.segments, fragment) == Accepted(p) <==> fragment == p.fragment && Spells(isKey, x, p)
  {
    var s := x.segments;
    assert "stellar"[1] != "soroban"[1];
    if |s| == 4 {
      NetworkExactly(s[2], p.network);
    }
  }

  /** After trimming, a text is accepted as a record exactly if it consists of pieces that spell the record. */
  lemma {:induction false} ParsedExactly(isKey: KeyCheck, text: string, p: ParsedDid)
    ensures ParseTrimmed(isKey, text) == Accepted(p) <==> exists x :: MadeOf(text, x) && Spells(isKey, x, p)
  {
    var x := PiecesOf(text);
    forall y | MadeOf(text, y) ensures y == x {
      PiecesSplit(text, y);
    }
    match ExtractFragment(text)
    case Rejected(_) =>
    case Accepted((base, fragment)) => SegmentsExactly(isKey, x, fragment, p);
  }

  /** A text is accepted exactly if, without its border space, it has a right length and spells the record. */
  lemma {:induction false} AcceptedExactly(isKey: KeyCheck, did: string, p: ParsedDid)
    ensures ParseSupportedDid(isKey, did) == Accepted(p) <==>
            && !AllSpace(did) && Length16(Trim(did)) <= 256
            && exists x :: MadeOf(Trim(did), x) && Spells(isKey, x, p)
    ensures ParseSupportedDid(isKey, did) == Rejected(BadLength) <==> AllSpace(did) || Length16(Trim(did)) > 256
  {
    BlankExactly(did);
    ParsedExactly(isKey, Trim(did), p);
  }

  lemma {:induction false} BlankExactly(s: string)
    ensures Trim(s) == "" <==> AllSpace(s)
  {
    TrimExactly(s, "");
    if AllSpace(s) {
      TrimAllSpace(s);
    }
  }

  /** An absent identifier stays absent, and a null or blank one becomes null; nothing else is checked then. */
  lemma {:induction false} AbsentIsKept(
      isKey: KeyCheck, did: MaybeText, walletAddress: Option<string>, expectedNetwork: string)
    ensures var r := ValidateStudentDidCompatibility(isKey, did, walletAddress, expectedNetwork);
            && (r == Accepted(Undefined) <==> did == Undefined)
            && (r == Accepted(Null) <==> did == Null || (did.Text? && AllSpace(did.text)))
  {
    if did.Text? {
      BlankExactly(did.text);
    }
  }

  /** The wallet's border space does not matter, and on ASCII neither does its letter case. */
  lemma {:induction false} WalletIsNormalised(
      isKey: KeyCheck, did: MaybeText, address: string, other: string, expectedNetwork: string)
    requires Ascii(Trim(address)) && Ascii(Trim(other)) && Lower(Trim(address)) == Lower(Trim(other))
    ensures ValidateStudentDidCompatibility(isKey, did, Some(address), expectedNetwork) ==
            ValidateStudentDidCompatibility(isKey, did, Some(other), expectedNetwork)
    ensures AllSpace(other) ==> ValidateStudentDidCompatibility(isKey, did, Some(other), expectedNetwork) ==
                                ValidateStudentDidCompatibility(isKey, did, None, expectedNetwork)
  {
    UpperOfLower(Trim(address), Trim(other));
    BlankExactly(other);
  }

  /** The subject characters: letters and digits, and these five. */
  lemma {:induction false} SubjectExactly(s: string)
    ensures IsValidDidSubject(s) <==>
            s != "" && forall c :: c in s ==>
              || ('a' <= LowerChar(c) <= 'z') || ('0' <= c <= '9')
              || c == '.' || c == '_' || c == ':' || c == '%' || c == '-'
  {
    assert forall i :: 0 <= i < |s| ==> s[i] in s;
  }

  lemma {:induction false} UpperOfLower(a: string, b: string)
    requires Ascii(a) && Ascii(b) && Lower(a) == Lower(b)
    ensures Upper(a) == Upper(b)
  {
    if a != "" {
      CaseExactly(a, 0);
      CaseExactly(b, 0);
    }
    UpperLength(a);
    UpperLength(b);
    assert |a| == |Lower(a)| == |Lower(b)| == |b|;
    forall i | 0 <= i < |a| ensures Upper(a)[i] == Upper(b)[i] {
      CaseExactly(a, i);
      CaseExactly(b, i);
    }
  }
}
