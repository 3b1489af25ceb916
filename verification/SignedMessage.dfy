/**
 * The message that an Ed25519Signature2020 proof signs: the canonical bytes of the credential
 * with the proof options, without the proof value, merged in.
 */
module SignedMessage {
  import opened Outcomes
  import opened Radix
  import opened JsonText
  import opened KeyedLists
  import opened CanonicalJson
  import opened CanonicalParse
  import Utf8

  type Fields = seq<(Text, Json)>

  function Ascii(s: string): (t: Text)
    ensures |t| == |s|
  {
    seq(|s|, i requires 0 <= i < |s| => if s[i] <= '~' then s[i] as nat else 0)
  }

  const PROOF: Text := Ascii("proof")
  const PROOF_VALUE: Text := Ascii("proofValue")

  /** `{ ...fields, key: v }`: an existing key keeps its place. */
  function Set(fields: Fields, key: Text, v: Json): Fields {
    if fields == [] then [(key, v)]
    else if fields[0].0 == key then [(key, v)] + fields[1..]
    else [fields[0]] + Set(fields[1..], key, v)
  }

  /** `const { key: _, ...rest } = fields` */
  function Without(fields: Fields, key: Text): Fields {
    if fields == [] then []
    else if fields[0].0 == key then Without(fields[1..], key)
    else [fields[0]] + Without(fields[1..], key)
  }

  function Get(fields: Fields, key: Text): Option<Json> {
    if fields == [] then None
    else if fields[0].0 == key then Some(fields[0].1)
    else Get(fields[1..], key)
  }

  function SignedDocument(credential: Fields, proof: Fields): Json {
    Obj(Set(credential, PROOF, Obj(Without(proof, PROOF_VALUE))))
  }

  function CreateSignedMessage(credential: Fields, proof: Fields): seq<byte> {
    Utf8.Encode(Serialize(SignedDocument(credential, proof)))
  }

  /** The fields of one object: distinct keys and well-formed values. */
  predicate GoodFields(fields: Fields) {
    WellFormed(Obj(fields))
  }

  lemma {:induction false} SetKeys(fields: Fields, key: Text, v: Json, j: nat)
    requires j < |Set(fields, key, v)|
    ensures Set(fields, key, v)[j].0 == key || exists i :: 0 <= i < |fields| && fields[i].0 == Set(fields, key, v)[j].0
    ensures WellFormed(v) && (forall i :: 0 <= i < |fields| ==> WellFormed(fields[i].1)) ==>
              WellFormed(Set(fields, key, v)[j].1)
  {
    if fields != [] && j > 0 {
      if fields[0].0 == key {
        assert fields[j].0 == Set(fields, key, v)[j].0;
      } else {
        SetKeys(fields[1..], key, v, j - 1);
        if exists i :: 0 <= i < |fields| - 1 && fields[1..][i].0 == Set(fields, key, v)[j].0 {
          var i :| 0 <= i < |fields| - 1 && fields[1..][i].0 == Set(fields, key, v)[j].0;
          assert fields[i + 1].0 == Set(fields, key, v)[j].0;
        }
      }
    }
  }

  lemma {:induction false} SetGood(fields: Fields, key: Text, v: Json)
    requires GoodFields(fields) && WellFormed(v)
    ensures GoodFields(Set(fields, key, v))
  {
    if fields != [] && fields[0].0 != key {
      assert GoodFields(fields[1..]);
      SetGood(fields[1..], key, v);
      var rest := Set(fields[1..], key, v);
      forall j | 0 <= j < |rest| ensures rest[j].0 != fields[0].0 {
        SetKeys(fields[1..], key, v, j);
      }
    }
  }

  lemma {:induction false} WithoutKeys(fields: Fields, key: Text, j: nat)
    requires j < |Without(fields, key)|
    ensures exists i :: 0 <= i < |fields| && fields[i] == Without(fields, key)[j]
  {
    if fields[0].0 == key {
      WithoutKeys(fields[1..], key, j);
      var i :| 0 <= i < |fields| - 1 && fields[1..][i] == Without(fields, key)[j];
      assert fields[i + 1] == Without(fields, key)[j];
    } else if j > 0 {
      WithoutKeys(fields[1..], key, j - 1);
      var i :| 0 <= i < |fields| - 1 && fields[1..][i] == Without(fields, key)[j];
      assert fields[i + 1] == Without(fields, key)[j];
    } else {
      assert fields[0] == Without(fields, key)[j];
    }
  }

  lemma {:induction false} WithoutGood(fields: Fields, key: Text)
    requires GoodFields(fields)
    ensures GoodFields(Without(fields, key))
  {
    if fields != [] {
      assert GoodFields(fields[1..]);
      WithoutGood(fields[1..], key);
      var rest := Without(fields[1..], key);
      forall j | 0 <= j < |rest| ensures rest[j].0 != fields[0].0 {
        WithoutKeys(fields[1..], key, j);
      }
    }
  }

  lemma {:induction false} SignedDocumentGood(credential: Fields, proof: Fields)
    requires GoodFields(credential) && GoodFields(proof)
    ensures WellFormed(SignedDocument(credential, proof))
  {
    WithoutGood(proof, PROOF_VALUE);
    SetGood(credential, PROOF, Obj(Without(proof, PROOF_VALUE)));
  }

  // ----- the bytes determine the document

  lemma {:induction false} SerializePaired(v: Json)
    requires WellFormed(v)
    ensures Utf8.Paired(Serialize(v))
    decreases v
  {
    match v
    case Str(s) => QuotedPaired(s);
    case Arr(items) =>
      ItemsPaired(items);
      Bracketed(LBRACKET, JoinItems(SerializeItems(items)), RBRACKET);
    case Obj(fields) =>
      FieldsPaired(fields);
      ObjectPaired(SerializeFields(fields));
    case _ => ScalarPaired(v);
  }

  lemma {:induction false} ScalarPaired(v: Json)
    requires WellFormed(v) && !v.Str? && !v.Arr? && !v.Obj?
    ensures Utf8.Paired(Serialize(v))
  {
    Utf8.PairedPlain(Serialize(v));
  }

  lemma {:induction false} ObjectPaired(es: seq<(Text, Text)>)
    requires AllPaired(es)
    ensures Utf8.Paired([LBRACE] + JoinFields(Sort(es)) + [RBRACE])
  {
    SortedPaired(es);
    JoinFieldsPaired(Sort(es));
    Bracketed(LBRACE, JoinFields(Sort(es)), RBRACE);
  }

  lemma {:induction false} QuotedPaired(s: Text)
    ensures Utf8.Paired(Quote(s))
  {
    Utf8.QuotePaired(s);
    Bracketed(QUOTE, QuoteBody(s), QUOTE);
  }

  lemma {:induction false} Bracketed(open: Unit, t: Text, close: Unit)
    requires Utf8.Paired(t) && open < 0xD800 && close < 0xD800
    ensures Utf8.Paired([open] + t + [close])
  {
    Utf8.PairedPlain([open]);
    Utf8.PairedPlain([close]);
    Utf8.PairedConcat([open], t);
    Utf8.PairedConcat([open] + t, [close]);
  }

  lemma {:induction false} ItemsPaired(items: seq<Json>)
    requires forall i :: 0 <= i < |items| ==> !items[i].Undefined? && WellFormed(items[i])
    ensures Utf8.Paired(JoinItems(SerializeItems(items)))
    decreases items
  {
    if items != [] {
      SerializePaired(items[0]);
      ItemsPaired(items[1..]);
      Separated(Serialize(items[0]), JoinItems(SerializeItems(items[1..])));
    }
  }

  lemma {:induction false} Separated(a: Text, b: Text)
    requires Utf8.Paired(a) && Utf8.Paired(b)
    ensures Utf8.Paired(a + [COMMA] + b)
  {
    Utf8.PairedPlain([COMMA]);
    Utf8.PairedConcat(a, [COMMA]);
    Utf8.PairedConcat(a + [COMMA], b);
  }

  predicate AllPaired(es: seq<(Text, Text)>) {
    forall i :: 0 <= i < |es| ==> Utf8.Paired(es[i].1)
  }

  lemma {:induction false} FieldsPaired(fields: Fields)
    requires forall i :: 0 <= i < |fields| ==> WellFormed(fields[i].1)
    ensures AllPaired(SerializeFields(fields))
    decreases fields
  {
    if fields != [] {
      assert fields[0].1 < fields[0];
      SerializePaired(fields[0].1);
      FieldsPaired(fields[1..]);
    }
  }

  lemma {:induction false} InsertPaired(e: (Text, Text), es: seq<(Text, Text)>)
    requires Utf8.Paired(e.1) && AllPaired(es)
    ensures AllPaired(Insert(e, es))
  {
    if es != [] && !Less(e.0, es[0].0) {
      InsertPaired(e, es[1..]);
    }
  }

  lemma {:induction false} SortedPaired(es: seq<(Text, Text)>)
    requires AllPaired(es)
    ensures AllPaired(Sort(es))
  {
    if es != [] {
      SortedPaired(es[1..]);
      InsertPaired(es[0], Sort(es[1..]));
    }
  }

  lemma {:induction false} FieldPaired(e: (Text, Text))
    requires Utf8.Paired(e.1)
    ensures Utf8.Paired(FieldText(e))
  {
    QuotedPaired(e.0);
    Utf8.PairedPlain([COLON]);
    Utf8.PairedConcat(Quote(e.0), [COLON]);
    Utf8.PairedConcat(Quote(e.0) + [COLON], e.1);
  }

  lemma {:induction false} JoinFieldsPaired(es: seq<(Text, Text)>)
    requires AllPaired(es)
    ensures Utf8.Paired(JoinFields(es))
  {
    if es != [] {
      FieldPaired(es[0]);
      JoinFieldsPaired(es[1..]);
      Separated(FieldText(es[0]), JoinFields(es[1..]));
    }
  }

  /** Two documents have the same signed bytes exactly when they denote the same JSON value. */
  lemma {:induction false} BytesDetermineDocument(v: Json, w: Json)
    requires WellFormed(v) && WellFormed(w)
    ensures Utf8.Encode(Serialize(v)) == Utf8.Encode(Serialize(w)) <==> Denote(v) == Denote(w)
  {
    SerializePaired(v);
    SerializePaired(w);
    Utf8.RoundTrip(Serialize(v));
    Utf8.RoundTrip(Serialize(w));
    SameTextSameValue(v, w);
  }

  // ----- what is signed

  /** The map of a list's fields. */
  function FieldMap(fields: Fields): map<Text, Value> {
    EntryMap(DenoteFields(fields))
  }

  lemma {:induction false} SetDenotes(fields: Fields, key: Text, v: Json)
    ensures FieldMap(Set(fields, key, v)) == FieldMap(fields)[key := Denote(v)]
  {
    if fields == [] {
      FieldsDenoteCons((key, v), []);
    } else {
      var (f, rest) := (fields[0], fields[1..]);
      assert fields == [f] + rest;
      FieldsDenoteCons(f, rest);
      if f.0 == key {
        FieldsDenoteCons((key, v), rest);
      } else {
        SetDenotes(rest, key, v);
        FieldsDenoteCons(f, Set(rest, key, v));
        UpdatesCommute(FieldMap(rest), f.0, Denote(f.1), key, Denote(v));
      }
    }
  }

  lemma {:induction false} UpdatesCommute(m: map<Text, Value>, k: Text, v: Value, k': Text, v': Value)
    requires k != k'
    ensures m[k := v][k' := v'] == m[k' := v'][k := v]
  {
  }

  lemma {:induction false} FieldsDenoteCons(f: (Text, Json), fields: Fields)
    ensures FieldMap([f] + fields) == FieldMap(fields)[f.0 := Denote(f.1)]
  {
    assert ([f] + fields)[1..] == fields;
    var es := DenoteFields(fields);
    assert ([(f.0, Denote(f.1))] + es)[1..] == es;
  }

  lemma {:induction false} WithoutDenotes(fields: Fields, key: Text)
    ensures FieldMap(Without(fields, key)) == FieldMap(fields) - {key}
  {
    if fields != [] {
      WithoutDenotes(fields[1..], key);
      FieldsDenoteCons(fields[0], fields[1..]);
      assert fields == [fields[0]] + fields[1..];
      if fields[0].0 != key {
        FieldsDenoteCons(fields[0], Without(fields[1..], key));
      }
    }
  }

  /** The document that is signed: every field of the credential, and under `proof` its options but not its value. */
  lemma {:induction false} SignedDocumentDenotes(credential: Fields, proof: Fields)
    ensures Denote(SignedDocument(credential, proof)) ==
            VObj(FieldMap(credential)[Ascii("proof") := VObj(FieldMap(proof) - {Ascii("proofValue")})])
  {
    WithoutDenotes(proof, PROOF_VALUE);
    SetDenotes(credential, PROOF, Obj(Without(proof, PROOF_VALUE)));
  }
}
