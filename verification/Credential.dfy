/**
 * Issuing and verifying course-completion credentials, over an ideal signature scheme.
 */
module Credential {
  import opened Outcomes
  import opened Radix
  import opened JsonText
  import opened KeyedLists
  import opened CanonicalJson
  import opened SignedMessage
  import Base58
  import Utf8

  const ID: Text := Ascii("id")
  const TYPE: Text := Ascii("type")
  const NAME: Text := Ascii("name")
  const CONTEXT: Text := Ascii("@context")
  const ISSUER: Text := Ascii("issuer")
  const VALID_FROM: Text := Ascii("validFrom")
  const SUBJECT: Text := Ascii("credentialSubject")
  const STUDENT_NAME: Text := Ascii("studentName")
  const CERTIFICATE_ID: Text := Ascii("certificateId")
  const COURSE_ID: Text := Ascii("courseId")
  const COURSE_TITLE: Text := Ascii("courseTitle")
  const INSTRUCTOR: Text := Ascii("instructor")
  const CREDITS: Text := Ascii("credits")
  const COMPLETION_DATE: Text := Ascii("completionDate")
  const TOKEN_ID: Text := Ascii("tokenId")
  const GRADE: Text := Ascii("grade")
  const CREATED: Text := Ascii("created")
  const VERIFICATION_METHOD: Text := Ascii("verificationMethod")
  const PROOF_PURPOSE: Text := Ascii("proofPurpose")
  const SUITE: Text := Ascii("Ed25519Signature2020")

  /** A stored certificate with its course and student; an absent string is the empty text. */
  datatype Certificate = Certificate(
    id: Text, did: Text, walletAddress: Text, studentName: Text, courseId: Text, courseTitle: Text,
    instructor: Text, credits: Text, issuedAt: Text, completionDate: Text, tokenId: Text, grade: Text)

  datatype Config = Config(issuerDid: Text, issuerName: Text, apiBaseUrl: Text)

  /** The issuer's key: signing with it, and checking a signature against it. */
  datatype Scheme = Scheme(sign: seq<byte> -> seq<byte>, verify: (seq<byte>, seq<byte>) -> bool)

  /** Only the signature of the very same message is accepted, and no signature is all zero bytes. */
  ghost predicate Ideal(s: Scheme) {
    && (forall m, sig :: s.verify(m, sig) <==> sig == s.sign(m))
    && (forall m, m' :: s.sign(m) == s.sign(m') ==> m == m')
    && (forall m :: Base58.HasNonZero(s.sign(m)))
  }

  // ----- issuing

  function SubjectId(cert: Certificate): Text {
    if cert.did != [] then cert.did
    else if cert.walletAddress != [] then Ascii("did:stellar:") + cert.walletAddress
    else []
  }

  function SubjectBase(cert: Certificate): Fields {
    [(ID, Str(SubjectId(cert))), (STUDENT_NAME, Str(cert.studentName)), (CERTIFICATE_ID, Str(cert.id)),
     (COURSE_ID, Str(cert.courseId)), (COURSE_TITLE, Str(cert.courseTitle)), (INSTRUCTOR, Str(cert.instructor)),
     (CREDITS, Num(cert.credits)), (COMPLETION_DATE, Str(cert.completionDate)),
     (TOKEN_ID, if cert.tokenId == [] then Undefined else Str(cert.tokenId))]
  }

  function SubjectFields(cert: Certificate): Fields {
    if cert.grade == [] then SubjectBase(cert) else SubjectBase(cert) + [(GRADE, Str(cert.grade))]
  }

  function CredentialFields(cert: Certificate, cfg: Config): Fields {
    CredentialOf(cert, cfg, SubjectFields(cert))
  }

  function CredentialOf(cert: Certificate, cfg: Config, subject: Fields): Fields {
    [(CONTEXT, Arr([Str(Ascii("https://www.w3.org/ns/credentials/v2")),
                    Str(Ascii("https://w3id.org/security/suites/ed25519-2020/v1"))])),
     (ID, Str(cfg.apiBaseUrl + Ascii("/api/v1/certificates/") + cert.id + Ascii("/vc"))),
     (TYPE, Arr([Str(Ascii("VerifiableCredential")), Str(Ascii("CourseCompletionCredential"))])),
     (ISSUER, Obj([(ID, Str(cfg.issuerDid)), (NAME, Str(cfg.issuerName))])),
     (VALID_FROM, Str(cert.issuedAt)),
     (SUBJECT, Obj(subject))]
  }

  function ProofOptions(cfg: Config, created: Text): Fields {
    [(TYPE, Str(SUITE)), (CREATED, Str(created)), (VERIFICATION_METHOD, Str(cfg.issuerDid + Ascii("#key-1"))),
     (PROOF_PURPOSE, Str(Ascii("assertionMethod")))]
  }

  function ProofFields(cfg: Config, created: Text, proofValue: Text): Fields {
    ProofOptions(cfg, created) + [(PROOF_VALUE, Str(proofValue))]
  }

  /** The text of a multibase string. */
  function Multibase(bytes: seq<byte>): Text {
    Ascii("z" + Base58.Encode(Base58.BitcoinSymbols(), bytes))
  }

  function Issued(cert: Certificate, cfg: Config, created: Text, scheme: Scheme): Fields {
    var credential := CredentialFields(cert, cfg);
    var sig := scheme.sign(CreateSignedMessage(credential, ProofFields(cfg, created, [])));
    credential + [(PROOF, Obj(ProofFields(cfg, created, Multibase(sig))))]
  }

  method IssueCredential(cert: Certificate, cfg: Config, created: Text, scheme: Scheme) returns (doc: Fields)
    ensures doc == Issued(cert, cfg, created, scheme)
  {
    var subject := SubjectBase(cert);
    if cert.grade != [] {
      subject := subject + [(GRADE, Str(cert.grade))];
    }
    var credential := CredentialOf(cert, cfg, subject);
    var proof := ProofFields(cfg, created, []);
    var sig := scheme.sign(CreateSignedMessage(credential, proof));
    var proofValue := Base58.ToMultibase(Base58.BitcoinSymbols(), sig);
    SetReplacesLast(ProofOptions(cfg, created), PROOF_VALUE, Str([]), Str(Multibase(sig)));
    proof := Set(proof, PROOF_VALUE, Str(Ascii(proofValue)));
    doc := credential + [(PROOF, Obj(proof))];
  }

  // ----- verifying

  /** `String(v)` */
  function JsString(v: Json): Text
    decreases v
  {
    match v
    case Str(s) => s
    case Num(t) => t
    case Arr(items) => JoinStrings(items)
    case Obj(_) => Ascii("[object Object]")
    case _ => Serialize(v)
  }

  function JoinStrings(items: seq<Json>): Text
    decreases items
  {
    if items == [] then [] else
      var first := if items[0].Null? || items[0].Undefined? then [] else JsString(items[0]);
      if |items| == 1 then first else first + [COMMA] + JoinStrings(items[1..])
  }

  /** Characters of a text; a unit beyond ASCII is no multibase symbol, whatever it is. */
  function Chars(t: Text): (s: string)
    ensures |s| == |t|
  {
    seq(|t|, i requires 0 <= i < |t| => if t[i] <= 0x7E then t[i] as char else '\0')
  }

  function VerifySignature(credential: Fields, proof: Fields, scheme: Scheme): bool {
    var proofValue := match Get(proof, PROOF_VALUE) case None => Undefined case Some(v) => v;
    match Base58.FromMultibaseSpec(Base58.BitcoinSymbols(), Chars(JsString(proofValue)))
    case Err(_) => false
    case Ok(sig) => scheme.verify(CreateSignedMessage(credential, proof), sig)
  }

  datatype Verdict = Valid | NoIssuer | UnsupportedProof | NoKey | BadSignature | Revoked

  function TextField(fields: Fields, key: Text): Text {
    match Get(fields, key) case Some(Str(s)) => s case _ => []
  }

  function IssuerId(doc: Fields): Text {
    match Get(doc, ISSUER)
    case Some(Str(s)) => s
    case Some(Obj(fields)) => TextField(fields, ID)
    case _ => []
  }

  function CertificateIdOf(doc: Fields): Text {
    match Get(doc, SUBJECT)
    case Some(Obj(fields)) => TextField(fields, CERTIFICATE_ID)
    case _ => []
  }

  /** Only the platform issuer has a key: a DID document built from a DID alone carries none. */
  function VerifyCredential(doc: Fields, cfg: Config, scheme: Scheme, revoked: Text -> bool): Verdict {
    var issuer := IssuerId(doc);
    if issuer == [] then NoIssuer else
      match Get(doc, PROOF)
      case Some(Obj(proof)) =>
        if Get(proof, TYPE) != Some(Str(SUITE)) then UnsupportedProof
        else if issuer != cfg.issuerDid then NoKey
        else if !VerifySignature(doc, proof, scheme) then BadSignature
        else if CertificateIdOf(doc) != [] && revoked(CertificateIdOf(doc)) then Revoked
        else Valid
      case _ => UnsupportedProof
  }

  /** JSON.parse(JSON.stringify(v)): a field whose value is `undefined` is gone. */
  function Transport(v: Json): Json
    decreases v
  {
    match v
    case Arr(items) => Arr(TransportItems(items))
    case Obj(fields) => Obj(TransportFields(fields))
    case _ => v
  }

  function TransportItems(items: seq<Json>): seq<Json>
    decreases items
  {
    if items == [] then [] else
      [if items[0].Undefined? then Null else Transport(items[0])] + TransportItems(items[1..])
  }

  function TransportFields(fields: Fields): Fields
    decreases fields
  {
    if fields == [] then [] else
      assert fields[0].1 < fields[0];
      (if fields[0].1.Undefined? then [] else [(fields[0].0, Transport(fields[0].1))])
      + TransportFields(fields[1..])
  }

  // ----- proofs

  lemma {:induction false} ReadMultibase(bytes: seq<byte>)
    requires Base58.HasNonZero(bytes)
    ensures Base58.FromMultibaseSpec(Base58.BitcoinSymbols(), Chars(Multibase(bytes))) == Ok(bytes)
  {
    var abc := Base58.BitcoinSymbols();
    var text := "z" + Base58.Encode(abc, bytes);
    forall k | 0 <= k < |text| ensures text[k] <= 'z' {
      if k > 0 {
        EncodePlain(abc, bytes, k - 1);
      }
    }
    assert Chars(Ascii(text)) == text;
    assert text[1..] == Base58.Encode(abc, bytes);
    Base58.RoundTripBytes(abc, bytes);
  }

  lemma {:induction false} EncodePlain(abc: Base58.Alphabet, bytes: seq<byte>, k: nat)
    requires k < |Base58.Encode(abc, bytes)|
    ensures Base58.Encode(abc, bytes)[k] <= abc[57]
  {
    var z, n := LeadingZeros(bytes), BeValue(bytes, 256);
    WordInverse(z, n, 58);
    WordInverse(z + 1, n, 58);
    Base58.SymbolsBelow(abc, Word(if n == 0 then z + 1 else z, n, 58), k);
  }

  lemma {:induction false} SetAppends(fields: Fields, key: Text, v: Json)
    requires forall i :: 0 <= i < |fields| ==> fields[i].0 != key
    ensures Set(fields, key, v) == fields + [(key, v)]
  {
    if fields != [] {
      SetAppends(fields[1..], key, v);
    }
  }

  lemma {:induction false} SetReplacesLast(fields: Fields, key: Text, was: Json, v: Json)
    requires forall i :: 0 <= i < |fields| ==> fields[i].0 != key
    ensures Set(fields + [(key, was)], key, v) == fields + [(key, v)]
  {
    if fields != [] {
      SetReplacesLast(fields[1..], key, was, v);
      assert (fields + [(key, was)])[1..] == fields[1..] + [(key, was)];
    }
  }

  /** The message rebuilt from a finished credential is the message that was signed. */
  lemma {:induction false} RebuiltMessage(credential: Fields, cfg: Config, created: Text, value: Text)
    requires forall i :: 0 <= i < |credential| ==> credential[i].0 != PROOF
    ensures var proof := ProofFields(cfg, created, value);
            SignedDocument(credential + [(PROOF, Obj(proof))], proof)
            == SignedDocument(credential, ProofFields(cfg, created, []))
  {
    var proof := ProofFields(cfg, created, value);
    var options := ProofOptions(cfg, created);
    ProofWithoutValue(cfg, created, value);
    ProofWithoutValue(cfg, created, []);
    SetAppends(credential, PROOF, Obj(options));
    SetReplacesLast(credential, PROOF, Obj(proof), Obj(options));
  }

  lemma {:induction false} ProofWithoutValue(cfg: Config, created: Text, value: Text)
    ensures Without(ProofFields(cfg, created, value), PROOF_VALUE) == ProofOptions(cfg, created)
  {
    WithoutLast(ProofOptions(cfg, created), PROOF_VALUE, Str(value));
  }

  lemma {:induction false} WithoutLast(fields: Fields, key: Text, v: Json)
    requires forall i :: 0 <= i < |fields| ==> fields[i].0 != key
    ensures Without(fields + [(key, v)], key) == fields
  {
    if fields != [] {
      WithoutLast(fields[1..], key, v);
      assert (fields + [(key, v)])[1..] == fields[1..] + [(key, v)];
    }
  }

  lemma {:induction false} SubjectGood(cert: Certificate)
    requires NumText(cert.credits)
    ensures GoodFields(SubjectFields(cert))
  {
    SubjectWellFormed(cert);
    SubjectKeys(cert);
  }

  lemma {:induction false} SubjectWellFormed(cert: Certificate)
    requires NumText(cert.credits)
    ensures forall i :: 0 <= i < |SubjectFields(cert)| ==> WellFormed(SubjectFields(cert)[i].1)
  {
  }

  lemma {:induction false} SubjectKeys(cert: Certificate)
    ensures DistinctKeys(SubjectFields(cert))
  {
    var f := SubjectFields(cert);
    assert |f| == if cert.grade == [] then 9 else 10;
    forall i, j | 0 <= i < j < |f| ensures f[i].0 != f[j].0 {
      assert |f[i].0| != |f[j].0| || f[i].0[0] != f[j].0[0];
    }
  }

  lemma {:induction false} CredentialGood(cert: Certificate, cfg: Config, subject: Fields)
    requires GoodFields(subject)
    ensures GoodFields(CredentialOf(cert, cfg, subject))
  {
    var f := CredentialOf(cert, cfg, subject);
    var issuer: Fields := [(ID, Str(cfg.issuerDid)), (NAME, Str(cfg.issuerName))];
    assert WellFormed(Obj(issuer));
    forall i | 0 <= i < |f| ensures WellFormed(f[i].1) {
      assert i == 3 ==> f[i].1 == Obj(issuer);
      assert i == 5 ==> f[i].1 == Obj(subject);
    }
  }

  lemma {:induction false} ProofGood(cfg: Config, created: Text, value: Text)
    ensures GoodFields(ProofFields(cfg, created, value))
  {
  }

  lemma {:induction false} VerifyDecoded(c: Fields, p: Fields, scheme: Scheme, sig: seq<byte>)
    requires Get(p, PROOF_VALUE) == Some(Str(Multibase(sig))) && Base58.HasNonZero(sig)
    ensures VerifySignature(c, p, scheme) == scheme.verify(CreateSignedMessage(c, p), sig)
  {
    ReadMultibase(sig);
  }

  lemma {:induction false} SameMessage(c: Fields, p: Fields, c': Fields, p': Fields)
    requires GoodFields(c) && GoodFields(p) && GoodFields(c') && GoodFields(p')
    ensures CreateSignedMessage(c', p') == CreateSignedMessage(c, p) <==>
            Denote(SignedDocument(c', p')) == Denote(SignedDocument(c, p))
  {
    SignedDocumentGood(c, p);
    SignedDocumentGood(c', p');
    BytesDetermineDocument(SignedDocument(c', p'), SignedDocument(c, p));
  }

  lemma {:induction false} IdealFacts(s: Scheme, m: seq<byte>, m': seq<byte>)
    requires Ideal(s)
    ensures s.verify(m', s.sign(m)) <==> m' == m
    ensures Base58.HasNonZero(s.sign(m))
  {
  }

  /** A proof value is accepted for exactly those documents that denote what was signed. */
  lemma {:induction false} AcceptedExactlyIfUnchanged(c: Fields, p: Fields, c': Fields, p': Fields, scheme: Scheme)
    requires Ideal(scheme)
    requires GoodFields(c) && GoodFields(p) && GoodFields(c') && GoodFields(p')
    requires Get(p', PROOF_VALUE) == Some(Str(Multibase(scheme.sign(CreateSignedMessage(c, p)))))
    ensures VerifySignature(c', p', scheme) <==>
            Denote(SignedDocument(c', p')) == Denote(SignedDocument(c, p))
  {
    IdealFacts(scheme, CreateSignedMessage(c, p), CreateSignedMessage(c', p'));
    VerifyDecoded(c', p', scheme, scheme.sign(CreateSignedMessage(c, p)));
    SameMessage(c, p, c', p');
  }

  // ----- the finished document, also with another subject in it

  function Finished(cert: Certificate, cfg: Config, subject: Fields, proof: Fields): Fields {
    CredentialOf(cert, cfg, subject) + [(PROOF, Obj(proof))]
  }

  lemma {:induction false} FinishedGood(cert: Certificate, cfg: Config, subject: Fields, proof: Fields)
    requires GoodFields(subject) && GoodFields(proof)
    ensures GoodFields(Finished(cert, cfg, subject, proof))
  {
    CredentialGood(cert, cfg, subject);
    NoProofKey(cert, cfg, subject);
  }

  lemma {:induction false} GetParts(cert: Certificate, cfg: Config, subject: Fields, proof: Fields)
    ensures var f := Finished(cert, cfg, subject, proof);
            && IssuerId(f) == cfg.issuerDid
            && Get(f, PROOF) == Some(Obj(proof))
            && Get(f, SUBJECT) == Some(Obj(subject))
  {
    var f := Finished(cert, cfg, subject, proof);
    GetAt(f, 3);
    GetAt(f, 5);
    GetAt(f, 6);
    var issuer: Fields := [(ID, Str(cfg.issuerDid)), (NAME, Str(cfg.issuerName))];
    assert f[3].1 == Obj(issuer);
    assert Get(issuer, ID) == Some(Str(cfg.issuerDid));
  }

  lemma {:induction false} GetAt(f: Fields, i: nat)
    requires i < |f| && forall j :: 0 <= j < i ==> f[j].0 != f[i].0
    ensures Get(f, f[i].0) == Some(f[i].1)
  {
    if i > 0 {
      GetAt(f[1..], i - 1);
    }
  }

  lemma {:induction false} VerdictParts(
      cert: Certificate, cfg: Config, subject: Fields, proof: Fields, scheme: Scheme, revoked: Text -> bool)
    requires cfg.issuerDid != [] && Get(proof, TYPE) == Some(Str(SUITE))
    requires TextField(subject, CERTIFICATE_ID) == cert.id
    ensures var doc := Finished(cert, cfg, subject, proof);
            VerifyCredential(doc, cfg, scheme, revoked) ==
            if !VerifySignature(doc, proof, scheme) then BadSignature
            else if cert.id != [] && revoked(cert.id) then Revoked
            else Valid
  {
    GetParts(cert, cfg, subject, proof);
  }

  /** Verifying a finished document with some subject: accepted exactly if the subject still denotes the same. */
  lemma {:induction false} VerdictOf(
      cert: Certificate, cfg: Config, created: Text, scheme: Scheme, revoked: Text -> bool, subject: Fields)
    requires Ideal(scheme) && cfg.issuerDid != [] && NumText(cert.credits) && GoodFields(subject)
    requires TextField(subject, CERTIFICATE_ID) == cert.id
    ensures var message := CreateSignedMessage(CredentialFields(cert, cfg), ProofFields(cfg, created, []));
            var proof := ProofFields(cfg, created, Multibase(scheme.sign(message)));
            VerifyCredential(Finished(cert, cfg, subject, proof), cfg, scheme, revoked) ==
            if Denote(Obj(subject)) != Denote(Obj(SubjectFields(cert))) then BadSignature
            else if cert.id != [] && revoked(cert.id) then Revoked
            else Valid
  {
    var c, p0 := CredentialFields(cert, cfg), ProofFields(cfg, created, []);
    var value := Multibase(scheme.sign(CreateSignedMessage(c, p0)));
    var proof := ProofFields(cfg, created, value);
    ProofParts(cfg, created, value);
    VerdictParts(cert, cfg, subject, proof, scheme, revoked);
    SubjectGood(cert);
    ProofGood(cfg, created, []);
    ProofGood(cfg, created, value);
    FinishedGood(cert, cfg, subject, proof);
    CredentialGood(cert, cfg, SubjectFields(cert));
    AcceptedExactlyIfUnchanged(c, p0, Finished(cert, cfg, subject, proof), proof, scheme);
    NoProofKey(cert, cfg, subject);
    RebuiltMessage(CredentialOf(cert, cfg, subject), cfg, created, value);
    SubjectDecides(cert, cfg, created, subject, SubjectFields(cert));
  }

  lemma {:induction false} ProofParts(cfg: Config, created: Text, value: Text)
    ensures var proof := ProofFields(cfg, created, value);
            Get(proof, TYPE) == Some(Str(SUITE)) && Get(proof, PROOF_VALUE) == Some(Str(value))
  {
    var proof := ProofFields(cfg, created, value);
    GetAt(proof, 0);
    GetAt(proof, 4);
  }

  lemma {:induction false} NoProofKey(cert: Certificate, cfg: Config, subject: Fields)
    ensures forall i :: 0 <= i < |CredentialOf(cert, cfg, subject)| ==> CredentialOf(cert, cfg, subject)[i].0 != PROOF
  {
    var f := CredentialOf(cert, cfg, subject);
    forall i | 0 <= i < |f| ensures f[i].0 != PROOF {
      assert |f[i].0| != 5;
    }
  }

  lemma {:induction false} SubjectDecides(cert: Certificate, cfg: Config, created: Text, s: Fields, t: Fields)
    requires NumText(cert.credits) && GoodFields(s) && GoodFields(t)
    ensures Denote(SignedDocument(CredentialOf(cert, cfg, s), ProofFields(cfg, created, []))) ==
            Denote(SignedDocument(CredentialOf(cert, cfg, t), ProofFields(cfg, created, [])))
            <==> Denote(Obj(s)) == Denote(Obj(t))
  {
    var options := ProofOptions(cfg, created);
    ProofWithoutValue(cfg, created, []);
    NoProofKey(cert, cfg, s);
    NoProofKey(cert, cfg, t);
    SetAppends(CredentialOf(cert, cfg, s), PROOF, Obj(options));
    SetAppends(CredentialOf(cert, cfg, t), PROOF, Obj(options));
    var f, g := Finished(cert, cfg, s, options), Finished(cert, cfg, t, options);
    OptionsGood(cfg, created);
    FinishedGood(cert, cfg, s, options);
    FinishedGood(cert, cfg, t, options);
    DenoteAgree(f, g, 5);
  }

  /** Two objects that differ in one field at most are equal exactly if that field is. */
  lemma {:induction false} DenoteAgree(f: Fields, g: Fields, k: nat)
    requires k < |f| == |g| && GoodFields(f) && GoodFields(g) && f[k].0 == g[k].0
    requires forall i :: 0 <= i < |f| && i != k ==> f[i] == g[i]
    ensures Denote(Obj(f)) == Denote(Obj(g)) <==> Denote(f[k].1) == Denote(g[k].1)
  {
    FieldAt(f, k);
    FieldAt(g, k);
    if Denote(f[k].1) == Denote(g[k].1) {
      forall i | 0 <= i < |f| ensures DenoteFields(f)[i] == DenoteFields(g)[i] {
        FieldImages(f, i);
        FieldImages(g, i);
      }
      assert DenoteFields(f) == DenoteFields(g);
    }
  }

  lemma {:induction false} OptionsGood(cfg: Config, created: Text)
    ensures GoodFields(ProofOptions(cfg, created))
  {
    ProofGood(cfg, created, []);
    var f, g := ProofOptions(cfg, created), ProofFields(cfg, created, []);
    assert forall i :: 0 <= i < 4 ==> f[i] == g[i];
  }

  /** Every issued credential verifies in the process that issued it, until it is revoked. */
  lemma {:induction false} IssuedVerifies(
      cert: Certificate, cfg: Config, created: Text, scheme: Scheme, revoked: Text -> bool)
    requires Ideal(scheme) && cfg.issuerDid != [] && NumText(cert.credits)
    ensures VerifyCredential(Issued(cert, cfg, created, scheme), cfg, scheme, revoked) ==
            if cert.id != [] && revoked(cert.id) then Revoked else Valid
  {
    SubjectGood(cert);
    GetAt(SubjectFields(cert), 2);
    VerdictOf(cert, cfg, created, scheme, revoked, SubjectFields(cert));
  }

  // ----- what the issued document says

  /** The object says this under the name. */
  predicate Says(v: Value, name: string, w: Value) {
    v.VObj? && Ascii(name) in v.fields && v.fields[Ascii(name)] == w
  }

  lemma {:induction false} SaysAt(fields: Fields, i: nat, name: string)
    requires DistinctKeys(fields) && i < |fields| && fields[i].0 == Ascii(name)
    ensures Says(Denote(Obj(fields)), name, Denote(fields[i].1))
  {
    FieldAt(fields, i);
  }

  /** The subject carries each datum of the certificate under its own name; a grade only if there is one. */
  lemma {:induction false} SubjectSays(cert: Certificate)
    ensures var subject := Denote(Obj(SubjectFields(cert)));
            && Says(subject, "id", VStr(SubjectId(cert)))
            && Says(subject, "studentName", VStr(cert.studentName))
            && Says(subject, "certificateId", VStr(cert.id))
            && Says(subject, "courseId", VStr(cert.courseId))
            && Says(subject, "courseTitle", VStr(cert.courseTitle))
            && Says(subject, "instructor", VStr(cert.instructor))
            && Says(subject, "credits", VNum(cert.credits))
            && Says(subject, "completionDate", VStr(cert.completionDate))
            && Says(subject, "tokenId", if cert.tokenId == [] then VUndefined else VStr(cert.tokenId))
            && (cert.grade != [] ==> Says(subject, "grade", VStr(cert.grade)))
            && |subject.fields| == if cert.grade == [] then 9 else 10
  {
    SubjectSaysWho(cert);
    SubjectSaysWhat(cert);
    SubjectCount(cert);
  }

  lemma {:induction false} SubjectSaysWho(cert: Certificate)
    ensures var subject := Denote(Obj(SubjectFields(cert)));
            && Says(subject, "id", VStr(SubjectId(cert)))
            && Says(subject, "studentName", VStr(cert.studentName))
            && Says(subject, "certificateId", VStr(cert.id))
            && Says(subject, "courseId", VStr(cert.courseId))
            && Says(subject, "courseTitle", VStr(cert.courseTitle))
  {
    var f := SubjectFields(cert);
    SubjectKeys(cert);
    SaysAt(f, 0, "id");
    SaysAt(f, 1, "studentName");
    SaysAt(f, 2, "certificateId");
    SaysAt(f, 3, "courseId");
    SaysAt(f, 4, "courseTitle");
  }

  lemma {:induction false} SubjectSaysWhat(cert: Certificate)
    ensures var subject := Denote(Obj(SubjectFields(cert)));
            && Says(subject, "instructor", VStr(cert.instructor))
            && Says(subject, "credits", VNum(cert.credits))
            && Says(subject, "completionDate", VStr(cert.completionDate))
            && Says(subject, "tokenId", if cert.tokenId == [] then VUndefined else VStr(cert.tokenId))
            && (cert.grade != [] ==> Says(subject, "grade", VStr(cert.grade)))
  {
    var f := SubjectFields(cert);
    SubjectKeys(cert);
    SaysAt(f, 5, "instructor");
    SaysAt(f, 6, "credits");
    SaysAt(f, 7, "completionDate");
    SaysAt(f, 8, "tokenId");
    if cert.grade != [] {
      SaysAt(f, 9, "grade");
    }
  }

  lemma {:induction false} SubjectCount(cert: Certificate)
    ensures Denote(Obj(SubjectFields(cert))).VObj?
    ensures |Denote(Obj(SubjectFields(cert))).fields| == if cert.grade == [] then 9 else 10
  {
    SubjectKeys(cert);
    EntryCount(DenoteFields(SubjectFields(cert)));
  }

  lemma {:induction false} EntryCount(es: seq<(Text, Value)>)
    requires DistinctKeys(es)
    ensures |EntryMap(es)| == |es|
  {
    if es != [] {
      EntryCount(es[1..]);
      EntryMapKeys(es[1..], es[0].0);
    }
  }

  /** The subject's identifier: the certificate's own, or else one made from the wallet, or else none. */
  lemma {:induction false} SubjectIdExactly(cert: Certificate)
    ensures SubjectId(cert) == cert.did <==> cert.did != [] || cert.walletAddress == []
    ensures cert.did == [] && cert.walletAddress != [] ==>
              |SubjectId(cert)| == 12 + |cert.walletAddress| && SubjectId(cert)[12..] == cert.walletAddress
              && SubjectId(cert)[..12] == Ascii("did:stellar:")
  {
  }

  /** The proof: its suite, time, key, purpose and value. */
  lemma {:induction false} ProofSays(cfg: Config, created: Text, value: Text)
    ensures var proof := Denote(Obj(ProofFields(cfg, created, value)));
            && Says(proof, "type", VStr(Ascii("Ed25519Signature2020")))
            && Says(proof, "created", VStr(created))
            && Says(proof, "verificationMethod", VStr(cfg.issuerDid + Ascii("#key-1")))
            && Says(proof, "proofPurpose", VStr(Ascii("assertionMethod")))
            && Says(proof, "proofValue", VStr(value))
            && |proof.fields| == 5
  {
    var f := ProofFields(cfg, created, value);
    ProofGood(cfg, created, value);
    SaysAt(f, 0, "type");
    SaysAt(f, 1, "created");
    SaysAt(f, 2, "verificationMethod");
    SaysAt(f, 3, "proofPurpose");
    SaysAt(f, 4, "proofValue");
    EntryCount(DenoteFields(f));
  }

  function Two(a: string, b: string): Value {
    VArr([VStr(Ascii(a)), VStr(Ascii(b))])
  }

  lemma {:induction false} TwoTexts(a: string, b: string)
    ensures Denote(Arr([Str(Ascii(a)), Str(Ascii(b))])) == Two(a, b)
  {
    var items := [Str(Ascii(a)), Str(Ascii(b))];
    assert items[1..] == [Str(Ascii(b))] && items[1..][1..] == [];
    assert DenoteItems(items[1..]) == [Denote(items[1])];
    assert DenoteItems(items) == [Denote(items[0]), Denote(items[1])];
  }

  lemma {:induction false} FinishedSays(cert: Certificate, cfg: Config, subject: Fields, proof: Fields)
    requires GoodFields(subject) && GoodFields(proof)
    ensures var doc := Denote(Obj(Finished(cert, cfg, subject, proof)));
            && Says(doc, "id", VStr(cfg.apiBaseUrl + Ascii("/api/v1/certificates/") + cert.id + Ascii("/vc")))
            && Says(doc, "issuer", VObj(map[Ascii("id") := VStr(cfg.issuerDid), Ascii("name") := VStr(cfg.issuerName)]))
            && Says(doc, "validFrom", VStr(cert.issuedAt))
            && Says(doc, "credentialSubject", Denote(Obj(subject)))
            && Says(doc, "proof", Denote(Obj(proof)))
            && Says(doc, "@context", Two("https://www.w3.org/ns/credentials/v2",
                                         "https://w3id.org/security/suites/ed25519-2020/v1"))
            && Says(doc, "type", Two("VerifiableCredential", "CourseCompletionCredential"))
            && |doc.fields| == 7
  {
    var f := Finished(cert, cfg, subject, proof);
    FinishedGood(cert, cfg, subject, proof);
    TwoTexts("https://www.w3.org/ns/credentials/v2", "https://w3id.org/security/suites/ed25519-2020/v1");
    TwoTexts("VerifiableCredential", "CourseCompletionCredential");
    SaysAt(f, 0, "@context");
    SaysAt(f, 1, "id");
    SaysAt(f, 2, "type");
    SaysAt(f, 3, "issuer");
    SaysAt(f, 4, "validFrom");
    SaysAt(f, 5, "credentialSubject");
    SaysAt(f, 6, "proof");
    IssuerSays(cfg);
    EntryCount(DenoteFields(f));
  }

  /** The issued document, name by name, with a signature of all of it but the proof value. */
  lemma {:induction false} IssuedSays(cert: Certificate, cfg: Config, created: Text, scheme: Scheme)
    requires NumText(cert.credits)
    ensures var doc := Denote(Obj(Issued(cert, cfg, created, scheme)));
            var unsigned := CreateSignedMessage(Issued(cert, cfg, created, scheme), ProofFields(cfg, created, []));
            && Says(doc, "id", VStr(cfg.apiBaseUrl + Ascii("/api/v1/certificates/") + cert.id + Ascii("/vc")))
            && Says(doc, "issuer", VObj(map[Ascii("id") := VStr(cfg.issuerDid), Ascii("name") := VStr(cfg.issuerName)]))
            && Says(doc, "validFrom", VStr(cert.issuedAt))
            && Says(doc, "credentialSubject", Denote(Obj(SubjectFields(cert))))
            && Says(doc, "proof", Denote(Obj(ProofFields(cfg, created, Multibase(scheme.sign(unsigned))))))
            && Says(doc, "@context", Two("https://www.w3.org/ns/credentials/v2",
                                         "https://w3id.org/security/suites/ed25519-2020/v1"))
            && Says(doc, "type", Two("VerifiableCredential", "CourseCompletionCredential"))
            && |doc.fields| == 7
  {
    var options := ProofFields(cfg, created, []);
    var value := Multibase(scheme.sign(CreateSignedMessage(CredentialFields(cert, cfg), options)));
    SubjectGood(cert);
    ProofGood(cfg, created, value);
    FinishedSays(cert, cfg, SubjectFields(cert), ProofFields(cfg, created, value));
    IssuedMessage(cert, cfg, created, value);
  }

  lemma {:induction false} IssuerSays(cfg: Config)
    ensures Denote(Obj([(ID, Str(cfg.issuerDid)), (NAME, Str(cfg.issuerName))])) ==
            VObj(map[Ascii("id") := VStr(cfg.issuerDid), Ascii("name") := VStr(cfg.issuerName)])
  {
    var f: Fields := [(ID, Str(cfg.issuerDid)), (NAME, Str(cfg.issuerName))];
    assert f[1..] == [(NAME, Str(cfg.issuerName))] && f[1..][1..] == [];
    FieldsDenoteCons(f[0], f[1..]);
    FieldsDenoteCons(f[1], []);
    assert f == [f[0]] + f[1..] && f[1..] == [f[1]] + [];
  }

  /** The message signed is that of the finished document: its own proof field is replaced. */
  lemma {:induction false} IssuedMessage(cert: Certificate, cfg: Config, created: Text, value: Text)
    ensures var proof := ProofFields(cfg, created, value);
            CreateSignedMessage(Finished(cert, cfg, SubjectFields(cert), proof), ProofFields(cfg, created, [])) ==
            CreateSignedMessage(CredentialFields(cert, cfg), ProofFields(cfg, created, []))
  {
    NoProofKey(cert, cfg, SubjectFields(cert));
    RebuiltMessage(CredentialFields(cert, cfg), cfg, created, value);
    ProofWithoutValue(cfg, created, value);
    ProofWithoutValue(cfg, created, []);
  }

  /** Two issued documents denote the same only if their certificates agree in everything that is shown. */
  lemma {:induction false} IssuedDeterminesCertificate(
      cert: Certificate, other: Certificate, cfg: Config, created: Text, scheme: Scheme)
    requires NumText(cert.credits) && NumText(other.credits)
    requires Denote(Obj(Issued(cert, cfg, created, scheme))) == Denote(Obj(Issued(other, cfg, created, scheme)))
    ensures other == cert.(did := other.did, walletAddress := other.walletAddress)
    ensures SubjectId(other) == SubjectId(cert)
  {
    IssuedSays(cert, cfg, created, scheme);
    IssuedSays(other, cfg, created, scheme);
    SubjectSays(cert);
    SubjectSays(other);
  }

  // ----- which documents are valid

  /**
   * A signature is accepted exactly if every field but the proof denotes what was signed, and so
   * does every field of the proof but its value.
   */
  lemma {:induction false} AcceptedExactlyFieldByField(c: Fields, p: Fields, c': Fields, p': Fields, scheme: Scheme)
    requires Ideal(scheme)
    requires GoodFields(c) && GoodFields(p) && GoodFields(c') && GoodFields(p')
    requires Get(p', PROOF_VALUE) == Some(Str(Multibase(scheme.sign(CreateSignedMessage(c, p)))))
    ensures VerifySignature(c', p', scheme) <==>
            && FieldMap(c') - {Ascii("proof")} == FieldMap(c) - {Ascii("proof")}
            && FieldMap(p') - {Ascii("proofValue")} == FieldMap(p) - {Ascii("proofValue")}
  {
    AcceptedExactlyIfUnchanged(c, p, c', p', scheme);
    SignedDocumentDenotes(c, p);
    SignedDocumentDenotes(c', p');
    UpdatedEqual(FieldMap(c), FieldMap(c'), Ascii("proof"),
                 VObj(FieldMap(p) - {Ascii("proofValue")}), VObj(FieldMap(p') - {Ascii("proofValue")}));
  }

  lemma {:induction false} UpdatedEqual(m: map<Text, Value>, m': map<Text, Value>, k: Text, v: Value, v': Value)
    ensures m[k := v] == m'[k := v'] <==> m - {k} == m' - {k} && v == v'
  {
    if m[k := v] == m'[k := v'] {
      assert m - {k} == m[k := v] - {k} && m' - {k} == m'[k := v'] - {k};
      assert v == m[k := v][k];
    }
    if m - {k} == m' - {k} && v == v' {
      assert m[k := v] == (m - {k})[k := v] && m'[k := v'] == (m' - {k})[k := v'];
    }
  }

  /** The proof names the suite and its value decodes to the signature of the document. */
  predicate SignedBy(doc: Fields, proof: Fields, scheme: Scheme) {
    && Get(proof, Ascii("type")) == Some(Str(Ascii("Ed25519Signature2020")))
    && Get(proof, Ascii("proofValue")).Some?
    && Base58.FromMultibaseSpec(Base58.BitcoinSymbols(), Chars(JsString(Get(proof, Ascii("proofValue")).value)))
       == Ok(scheme.sign(CreateSignedMessage(doc, proof)))
  }

  /** The issuer is this identifier, or an object with this identifier. */
  ghost predicate NamesIssuer(doc: Fields, did: Text) {
    || Get(doc, Ascii("issuer")) == Some(Str(did))
    || exists fields :: Get(doc, Ascii("issuer")) == Some(Obj(fields)) && Get(fields, Ascii("id")) == Some(Str(did))
  }

  /** The subject names a certificate that was revoked. */
  ghost predicate NamesRevoked(doc: Fields, revoked: Text -> bool) {
    exists fields, id ::
      && Get(doc, Ascii("credentialSubject")) == Some(Obj(fields))
      && Get(fields, Ascii("certificateId")) == Some(Str(id))
      && id != [] && revoked(id)
  }

  lemma {:induction false} IssuerNamed(doc: Fields, did: Text)
    requires did != []
    ensures IssuerId(doc) == did <==> NamesIssuer(doc, did)
  {
  }

  lemma {:induction false} RevokedNamed(doc: Fields, revoked: Text -> bool)
    ensures CertificateIdOf(doc) != [] && revoked(CertificateIdOf(doc)) <==> NamesRevoked(doc, revoked)
  {
  }

  /** `String` of a list with one text is that text, so a proof value in a list is read as it would be outside. */
  lemma {:induction false} ListedValueIsRead(t: Text, u: Text)
    ensures JsString(Str(t)) == t && JsString(Arr([Str(t)])) == t && JsString(Arr([Str(t), Str(u)])) == t + [0x2C] + u
    ensures JsString(Undefined) == UNDEFINED_TEXT && JsString(Arr([])) == [] && JsString(Num(t)) == t
  {
    var items := [Str(t), Str(u)];
    assert items[1..] == [Str(u)];
    assert JoinStrings([Str(u)]) == u;
  }

  lemma {:induction false} VerifiedIsSigned(doc: Fields, proof: Fields, scheme: Scheme)
    requires Ideal(scheme)
    ensures Get(proof, TYPE) == Some(Str(SUITE)) && VerifySignature(doc, proof, scheme)
            <==> SignedBy(doc, proof, scheme)
  {
  }

  /** The verdict is Valid exactly for documents that name the issuer and carry its signature of themselves. */
  lemma {:induction false} ValidExactly(doc: Fields, cfg: Config, scheme: Scheme, revoked: Text -> bool)
    requires Ideal(scheme)
    ensures VerifyCredential(doc, cfg, scheme, revoked) == Valid <==>
            && cfg.issuerDid != [] && NamesIssuer(doc, cfg.issuerDid)
            && (exists proof :: Get(doc, Ascii("proof")) == Some(Obj(proof)) && SignedBy(doc, proof, scheme))
            && !NamesRevoked(doc, revoked)
  {
    if cfg.issuerDid != [] {
      IssuerNamed(doc, cfg.issuerDid);
    }
    RevokedNamed(doc, revoked);
    match Get(doc, PROOF)
    case Some(Obj(proof)) => VerifiedIsSigned(doc, proof, scheme);
    case _ =>
  }

  // ----- verifying what arrives after a JSON round trip

  /** No field anywhere holds `undefined`. */
  predicate Clean(v: Json)
    decreases v
  {
    match v
    case Arr(items) => forall i :: 0 <= i < |items| ==> !items[i].Undefined? && Clean(items[i])
    case Obj(fields) => forall i :: 0 <= i < |fields| ==> !fields[i].1.Undefined? && Clean(fields[i].1)
    case _ => true
  }

  lemma {:induction false} TransportClean(v: Json)
    requires Clean(v)
    ensures Transport(v) == v
    decreases v
  {
    match v
    case Arr(items) => TransportCleanItems(items);
    case Obj(fields) => TransportCleanFields(fields);
    case _ =>
  }

  /** What was sent as JSON holds no `undefined` any more, so sending it again changes nothing. */
  lemma {:induction false} TransportIsClean(v: Json)
    ensures Clean(Transport(v)) && Transport(v).Undefined? == v.Undefined?
    ensures Transport(Transport(v)) == Transport(v)
    decreases v, 1
  {
    ArrivesClean(v);
    TransportClean(Transport(v));
  }

  lemma {:induction false} ArrivesClean(v: Json)
    ensures Clean(Transport(v)) && Transport(v).Undefined? == v.Undefined?
    decreases v
  {
    match v
    case Arr(items) => ItemsArriveClean(items);
    case Obj(fields) => FieldsArriveClean(fields);
    case _ =>
  }

  /** An item that is `undefined` arrives as null, the others in their places. */
  lemma {:induction false} ItemsArriveClean(items: seq<Json>)
    ensures var t := TransportItems(items);
            |t| == |items| && forall i :: 0 <= i < |items| ==>
              Clean(t[i]) && !t[i].Undefined? && t[i] == if items[i].Undefined? then Null else Transport(items[i])
    decreases items
  {
    if items != [] {
      ArrivesClean(items[0]);
      ItemsArriveClean(items[1..]);
    }
  }

  lemma {:induction false} FieldsArriveClean(fields: Fields)
    ensures forall i :: 0 <= i < |TransportFields(fields)| ==>
              !TransportFields(fields)[i].1.Undefined? && Clean(TransportFields(fields)[i].1)
    decreases fields
  {
    if fields != [] {
      assert fields[0].1 < fields[0];
      ArrivesClean(fields[0].1);
      FieldsArriveClean(fields[1..]);
    }
  }

  lemma {:induction false} TransportCleanItems(items: seq<Json>)
    requires forall i :: 0 <= i < |items| ==> !items[i].Undefined? && Clean(items[i])
    ensures TransportItems(items) == items
    decreases items
  {
    if items != [] {
      TransportClean(items[0]);
      TransportCleanItems(items[1..]);
    }
  }

  lemma {:induction false} TransportCleanFields(fields: Fields)
    requires forall i :: 0 <= i < |fields| ==> !fields[i].1.Undefined? && Clean(fields[i].1)
    ensures TransportFields(fields) == fields
    decreases fields
  {
    if fields != [] {
      assert fields[0].1 < fields[0];
      TransportClean(fields[0].1);
      TransportCleanFields(fields[1..]);
    }
  }

  lemma {:induction false} TransportKeep(f: Fields, i: nat)
    requires i < |f| && forall j :: 0 <= j < |f| ==> !f[j].1.Undefined?
    ensures |TransportFields(f)| == |f| && TransportFields(f)[i] == (f[i].0, Transport(f[i].1))
  {
    if |f| > 1 {
      TransportKeep(f[1..], if i == 0 then 0 else i - 1);
    }
  }

  /** What arrives of the subject: all of it but a token id that was set to `undefined`. */
  lemma {:induction false} SubjectArrives(cert: Certificate)
    requires NumText(cert.credits)
    ensures var s := TransportFields(SubjectFields(cert));
            && GoodFields(s) && TextField(s, CERTIFICATE_ID) == cert.id
            && (Denote(Obj(s)) == Denote(Obj(SubjectFields(cert))) <==> cert.tokenId != [])
  {
    var f := SubjectFields(cert);
    SubjectGood(cert);
    if cert.tokenId != [] {
      TransportCleanFields(f);
      GetAt(f, 2);
    } else {
      SubjectWithoutToken(cert);
    }
  }

  lemma {:induction false} SubjectWithoutToken(cert: Certificate)
    requires NumText(cert.credits) && cert.tokenId == []
    ensures var f := SubjectFields(cert);
            && GoodFields(TransportFields(f)) && TextField(TransportFields(f), CERTIFICATE_ID) == cert.id
            && Denote(Obj(TransportFields(f))) != Denote(Obj(f))
  {
    var f := SubjectFields(cert);
    SubjectGood(cert);
    WithoutTokenIsDrop(cert);
    DropGood(f, 8);
    DropDiffers(f, 8);
    DropAt(f, 8);
    GetAt(Drop(f, 8), 2);
  }

  /** Without a token id the ninth field is `undefined`, and the third is the certificate's id. */
  lemma {:induction false} WithoutTokenIsDrop(cert: Certificate)
    requires NumText(cert.credits) && cert.tokenId == []
    ensures var f := SubjectFields(cert);
            && TransportFields(f) == Drop(f, 8) && Drop(f, 8)[2] == (CERTIFICATE_ID, Str(cert.id))
  {
    var f := SubjectFields(cert);
    DropUndefined(f, 8);
    DropAt(f, 8);
  }

  function Drop(f: Fields, k: nat): Fields
    requires k < |f|
  {
    f[..k] + f[k + 1..]
  }

  lemma {:induction false} DropUndefined(f: Fields, k: nat)
    requires k < |f| && f[k].1.Undefined?
    requires forall i :: 0 <= i < |f| && i != k ==> !f[i].1.Undefined? && Clean(f[i].1)
    ensures TransportFields(f) == Drop(f, k)
  {
    if k == 0 {
      TransportCleanFields(f[1..]);
    } else {
      DropUndefined(f[1..], k - 1);
      TransportClean(f[0].1);
      assert Drop(f, k) == [f[0]] + Drop(f[1..], k - 1);
    }
  }

  lemma {:induction false} DropAt(f: Fields, k: nat)
    requires k < |f|
    ensures forall i :: 0 <= i < |f| - 1 ==> Drop(f, k)[i] == f[if i < k then i else i + 1]
  {
  }

  lemma {:induction false} DropGood(f: Fields, k: nat)
    requires GoodFields(f) && k < |f|
    ensures GoodFields(Drop(f, k))
  {
    DropAt(f, k);
  }

  lemma {:induction false} DropDiffers(f: Fields, k: nat)
    requires GoodFields(f) && k < |f|
    ensures Denote(Obj(Drop(f, k))) != Denote(Obj(f))
  {
    var s := Drop(f, k);
    FieldAt(f, k);
    EntryMapKeys(DenoteFields(s), f[k].0);
    forall i | 0 <= i < |s| ensures s[i].0 != f[k].0 {
      DropAt(f, k);
    }
  }

  lemma {:induction false} FinishedArrives(cert: Certificate, cfg: Config, created: Text, value: Text)
    ensures var proof := ProofFields(cfg, created, value);
            TransportFields(Finished(cert, cfg, SubjectFields(cert), proof)) ==
            Finished(cert, cfg, TransportFields(SubjectFields(cert)), proof)
  {
    var proof := ProofFields(cfg, created, value);
    var f := Finished(cert, cfg, SubjectFields(cert), proof);
    var g := Finished(cert, cfg, TransportFields(SubjectFields(cert)), proof);
    TransportKeep(f, 0);
    forall i | 0 <= i < 7 ensures TransportFields(f)[i] == g[i] {
      TransportKeep(f, i);
      if i != 5 {
        OtherFieldsClean(cert, cfg, SubjectFields(cert), created, value, i);
        TransportClean(f[i].1);
      }
    }
  }

  lemma {:induction false} OtherFieldsClean(
      cert: Certificate, cfg: Config, subject: Fields, created: Text, value: Text, i: nat)
    requires i < 7 && i != 5
    ensures Clean(Finished(cert, cfg, subject, ProofFields(cfg, created, value))[i].1)
  {
    var proof := ProofFields(cfg, created, value);
    var issuer: Fields := [(ID, Str(cfg.issuerDid)), (NAME, Str(cfg.issuerName))];
    assert Clean(Obj(issuer)) && Clean(Obj(proof));
  }

  /**
   * After being sent as JSON an issued credential verifies exactly when its certificate has a
   * token id: otherwise the signed text contains a field that JSON does not carry.
   */
  lemma {:induction false} ArrivedVerifiesExactlyWithTokenId(
      cert: Certificate, cfg: Config, created: Text, scheme: Scheme, revoked: Text -> bool)
    requires Ideal(scheme) && cfg.issuerDid != [] && NumText(cert.credits)
    ensures VerifyCredential(TransportFields(Issued(cert, cfg, created, scheme)), cfg, scheme, revoked) ==
            if cert.tokenId == [] then BadSignature
            else if cert.id != [] && revoked(cert.id) then Revoked
            else Valid
  {
    var sig := scheme.sign(CreateSignedMessage(CredentialFields(cert, cfg), ProofFields(cfg, created, [])));
    FinishedArrives(cert, cfg, created, Multibase(sig));
    SubjectArrives(cert);
    VerdictOf(cert, cfg, created, scheme, revoked, TransportFields(SubjectFields(cert)));
  }
}
