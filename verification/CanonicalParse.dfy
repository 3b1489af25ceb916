/**
 * A reader for the canonical text, and through it the theorem that the text determines the
 * value: reading back what the serializer printed yields the normal form of what it was given.
 */
module CanonicalParse {
  import opened Outcomes
  import opened JsonText
  import opened KeyedLists
  import opened CanonicalJson

  predicate IsDelimiter(u: Unit) {
    u == COMMA || u == RBRACKET || u == RBRACE
  }

  /** What may follow a value: the end, or a delimiter. */
  predicate Follows(r: Text) {
    r == [] || IsDelimiter(r[0])
  }

  function WordLength(t: Text): (n: nat)
    ensures n <= |t|
  {
    if t == [] || IsDelimiter(t[0]) then 0 else 1 + WordLength(t[1..])
  }

  function ReadWord(w: Text): Option<Json> {
    if w == NULL_TEXT then Some(Null)
    else if w == UNDEFINED_TEXT then Some(Undefined)
    else if w == TRUE_TEXT then Some(Bool(true))
    else if w == FALSE_TEXT then Some(Bool(false))
    else if NumText(w) then Some(Num(w))
    else None
  }

  function ParseValue(t: Text): (r: Option<(Json, Text)>)
    ensures r.Some? ==> |r.value.1| < |t|
    decreases |t|, 0
  {
    if t == [] then
      None
    else if t[0] == QUOTE then
      match ReadBody(t[1..])
      case None => None
      case Some((s, r)) => Some((Str(s), r))
    else if t[0] == LBRACKET then
      if |t| >= 2 && t[1] == RBRACKET then Some((Arr([]), t[2..])) else
        match ParseItems(t[1..])
        case None => None
        case Some((items, r)) => Some((Arr(items), r))
    else if t[0] == LBRACE then
      if |t| >= 2 && t[1] == RBRACE then Some((Obj([]), t[2..])) else
        match ParseFields(t[1..])
        case None => None
        case Some((fields, r)) => Some((Obj(fields), r))
    else
      var n := WordLength(t);
      match ReadWord(t[..n])
      case None => None
      case Some(v) => if n == 0 then None else Some((v, t[n..]))
  }

  function ParseItems(t: Text): (r: Option<(seq<Json>, Text)>)
    ensures r.Some? ==> |r.value.1| < |t|
    decreases |t|, 1
  {
    match ParseValue(t)
    case None => None
    case Some((v, r)) =>
      if r != [] && r[0] == RBRACKET then Some(([v], r[1..]))
      else if r != [] && r[0] == COMMA then
        match ParseItems(r[1..])
        case None => None
        case Some((items, r')) => Some(([v] + items, r'))
      else None
  }

  function ParseField(t: Text): (r: Option<((Text, Json), Text)>)
    ensures r.Some? ==> |r.value.1| < |t|
    decreases |t|, 1
  {
    if t == [] || t[0] != QUOTE then
      None
    else
      match ReadBody(t[1..])
      case None => None
      case Some((k, r)) =>
        if r == [] || r[0] != COLON then None else
          match ParseValue(r[1..])
          case None => None
          case Some((v, r')) => Some(((k, v), r'))
  }

  function ParseFields(t: Text): (r: Option<(seq<(Text, Json)>, Text)>)
    ensures r.Some? ==> |r.value.1| < |t|
    decreases |t|, 2
  {
    match ParseField(t)
    case None => None
    case Some((e, r)) =>
      if r != [] && r[0] == RBRACE then Some(([e], r[1..]))
      else if r != [] && r[0] == COMMA then
        match ParseFields(r[1..])
        case None => None
        case Some((es, r')) => Some(([e] + es, r'))
      else None
  }

  lemma {:induction false} WordLengthOf(w: Text, r: Text)
    requires Follows(r) && forall k :: 0 <= k < |w| ==> !IsDelimiter(w[k])
    ensures WordLength(w + r) == |w|
  {
    if w == [] {
      assert w + r == r;
    } else {
      WordLengthOf(w[1..], r);
      assert (w + r)[1..] == w[1..] + r;
    }
  }

  lemma {:induction false} ParseWord(w: Text, v: Json, r: Text)
    requires w != [] && Follows(r) && (forall k :: 0 <= k < |w| ==> !IsDelimiter(w[k]))
    requires w[0] != QUOTE && w[0] != LBRACKET && w[0] != LBRACE
    requires ReadWord(w) == Some(v)
    ensures ParseValue(w + r) == Some((v, r))
  {
    WordLengthOf(w, r);
    assert (w + r)[..|w|] == w && (w + r)[|w|..] == r;
  }

  /** Reading the text of a normal form gives it back, whatever may follow. */
  lemma {:induction false} ParseSerialize(v: Json, r: Text)
    requires Normal(v) && Follows(r)
    ensures ParseValue(Serialize(v) + r) == Some((v, r))
    decreases v
  {
    match v
    case Str(s) => ParseString(s, r);
    case Arr(items) => ParseArray(items, r);
    case Obj(fields) =>
      SortIdentity(SerializeFields(fields));
      ParseObject(fields, r);
    case _ => ParseScalar(v, r);
  }

  lemma {:induction false} ParseScalar(v: Json, r: Text)
    requires Normal(v) && Follows(r) && !v.Str? && !v.Arr? && !v.Obj?
    ensures ParseValue(Serialize(v) + r) == Some((v, r))
  {
    match v
    case Null => ParseWord(NULL_TEXT, v, r);
    case Undefined => ParseWord(UNDEFINED_TEXT, v, r);
    case Bool(b) => ParseWord(Serialize(v), v, r);
    case Num(t) => ParseWord(t, v, r);
  }

  lemma {:induction false} ParseString(s: Text, r: Text)
    ensures ParseValue(Serialize(Str(s)) + r) == Some((Str(s), r))
  {
    ReadQuoted(s, r);
    var t := Quote(s) + r;
    assert t[1..] == QuoteBody(s) + ([QUOTE] + r);
  }

  lemma {:induction false} SerializeStart(v: Json)
    requires Normal(v)
    ensures Serialize(v) != [] && !IsDelimiter(Serialize(v)[0])
  {
  }

  // steps of the list readers

  lemma {:induction false} ItemsLast(t: Text, v: Json, r: Text)
    requires ParseValue(t) == Some((v, [RBRACKET] + r))
    ensures ParseItems(t) == Some(([v], r))
  {
    assert ([RBRACKET] + r)[1..] == r;
  }

  lemma {:induction false} ItemsMore(t: Text, v: Json, rest: Text, items: seq<Json>, r: Text)
    requires ParseValue(t) == Some((v, [COMMA] + rest)) && ParseItems(rest) == Some((items, r))
    ensures ParseItems(t) == Some(([v] + items, r))
  {
    assert ([COMMA] + rest)[1..] == rest;
  }

  lemma {:induction false} FieldsLast(t: Text, e: (Text, Json), r: Text)
    requires ParseField(t) == Some((e, [RBRACE] + r))
    ensures ParseFields(t) == Some(([e], r))
  {
    assert ([RBRACE] + r)[1..] == r;
  }

  lemma {:induction false} FieldsMore(t: Text, e: (Text, Json), rest: Text, es: seq<(Text, Json)>, r: Text)
    requires ParseField(t) == Some((e, [COMMA] + rest)) && ParseFields(rest) == Some((es, r))
    ensures ParseFields(t) == Some(([e] + es, r))
  {
    assert ([COMMA] + rest)[1..] == rest;
  }

  lemma {:induction false} ListBody(open: Unit, body: Text, close: Unit, r: Text)
    ensures [open] + body + [close] + r == [open] + (body + ([close] + r))
    ensures ([open] + (body + ([close] + r)))[1..] == body + ([close] + r)
  {
  }

  lemma {:induction false} Chain(first: Text, rest: Text, tail: Text)
    ensures (first + [COMMA] + rest) + tail == first + ([COMMA] + (rest + tail))
  {
  }

  lemma {:induction false} ParseArray(items: seq<Json>, r: Text)
    requires forall i :: 0 <= i < |items| ==> !items[i].Undefined? && Normal(items[i])
    ensures ParseValue([LBRACKET] + JoinItems(SerializeItems(items)) + [RBRACKET] + r) == Some((Arr(items), r))
    decreases items, 1
  {
    ListBody(LBRACKET, JoinItems(SerializeItems(items)), RBRACKET, r);
    if items == [] {
      assert ([LBRACKET] + ([] + ([RBRACKET] + r)))[2..] == r;
    } else {
      ParseSerializeItems(items, r);
      SerializeStart(items[0]);
      assert JoinItems(SerializeItems(items))[0] == Serialize(items[0])[0];
    }
  }

  lemma {:induction false} ParseSerializeItems(items: seq<Json>, r: Text)
    requires items != [] && forall i :: 0 <= i < |items| ==> !items[i].Undefined? && Normal(items[i])
    ensures ParseItems(JoinItems(SerializeItems(items)) + ([RBRACKET] + r)) == Some((items, r))
    decreases items, 0
  {
    var tail, first, others := [RBRACKET] + r, Serialize(items[0]), JoinItems(SerializeItems(items[1..]));
    if |items| == 1 {
      ParseSerialize(items[0], tail);
      ItemsLast(first + tail, items[0], r);
      assert items == [items[0]] && SerializeItems(items) == [first];
    } else {
      ParseSerializeItems(items[1..], r);
      ParseSerialize(items[0], [COMMA] + (others + tail));
      ItemsMore(first + ([COMMA] + (others + tail)), items[0], others + tail, items[1..], r);
      Chain(first, others, tail);
      assert items == [items[0]] + items[1..];
    }
  }

  lemma {:induction false} ParseObjectText(body: Text, fields: seq<(Text, Json)>, r: Text)
    requires body != [] && body[0] == QUOTE
    requires ParseFields(body + ([RBRACE] + r)) == Some((fields, r))
    ensures ParseValue([LBRACE] + body + [RBRACE] + r) == Some((Obj(fields), r))
  {
    ListBody(LBRACE, body, RBRACE, r);
  }

  lemma {:induction false} ParseObject(fields: seq<(Text, Json)>, r: Text)
    requires forall i :: 0 <= i < |fields| ==> Normal(fields[i].1)
    ensures ParseValue([LBRACE] + JoinFields(SerializeFields(fields)) + [RBRACE] + r) == Some((Obj(fields), r))
    decreases fields, 1
  {
    if fields == [] {
      assert ([LBRACE] + [] + [RBRACE] + r)[2..] == r;
    } else {
      ParseSerializeFields(fields, r);
      JoinFieldsStart(SerializeFields(fields));
      ParseObjectText(JoinFields(SerializeFields(fields)), fields, r);
    }
  }

  lemma {:induction false} JoinFieldsStart(es: seq<(Text, Text)>)
    requires es != []
    ensures JoinFields(es) != [] && JoinFields(es)[0] == QUOTE
  {
  }

  lemma {:induction false} ParseFieldText(e: (Text, Json), r: Text)
    requires ParseValue(Serialize(e.1) + r) == Some((e.1, r))
    ensures ParseField(FieldText((e.0, Serialize(e.1))) + r) == Some((e, r))
  {
    var value := Serialize(e.1) + r;
    FieldShape(e.0, Serialize(e.1), r);
    ReadQuoted(e.0, [COLON] + value);
    ParseKeyValue(e.0, value, e.1, r);
  }

  lemma {:induction false} FieldShape(key: Text, value: Text, r: Text)
    ensures FieldText((key, value)) + r == [QUOTE] + (QuoteBody(key) + ([QUOTE] + ([COLON] + (value + r))))
  {
  }

  lemma {:induction false} ParseKeyValue(key: Text, t: Text, v: Json, r: Text)
    requires ParseValue(t) == Some((v, r))
    requires ReadBody(QuoteBody(key) + ([QUOTE] + ([COLON] + t))) == Some((key, [COLON] + t))
    ensures ParseField([QUOTE] + (QuoteBody(key) + ([QUOTE] + ([COLON] + t)))) == Some(((key, v), r))
  {
    var body := QuoteBody(key) + ([QUOTE] + ([COLON] + t));
    assert ([QUOTE] + body)[1..] == body;
    assert ([COLON] + t)[1..] == t;
  }

  lemma {:induction false} ParseSerializeFields(fields: seq<(Text, Json)>, r: Text)
    requires fields != [] && forall i :: 0 <= i < |fields| ==> Normal(fields[i].1)
    ensures ParseFields(JoinFields(SerializeFields(fields)) + ([RBRACE] + r)) == Some((fields, r))
    decreases fields, 0
  {
    var e := fields[0];
    assert e.1 < e;
    var tail, first := [RBRACE] + r, FieldText((e.0, Serialize(e.1)));
    if |fields| == 1 {
      ParseSerialize(e.1, tail);
      ParseFieldText(e, tail);
      FieldsLast(first + tail, e, r);
      assert fields == [e] && SerializeFields(fields) == [(e.0, Serialize(e.1))];
    } else {
      var others := JoinFields(SerializeFields(fields[1..]));
      ParseSerializeFields(fields[1..], r);
      ParseSerialize(e.1, [COMMA] + (others + tail));
      ParseFieldText(e, [COMMA] + (others + tail));
      FieldsMore(first + ([COMMA] + (others + tail)), e, others + tail, fields[1..], r);
      JoinFieldsCons(fields);
      Chain(first, others, tail);
      assert fields == [e] + fields[1..];
    }
  }

  lemma {:induction false} JoinFieldsCons(fields: seq<(Text, Json)>)
    requires |fields| >= 2
    ensures JoinFields(SerializeFields(fields)) ==
            FieldText((fields[0].0, Serialize(fields[0].1))) + [COMMA] + JoinFields(SerializeFields(fields[1..]))
  {
    assert SerializeFields(fields)[1..] == SerializeFields(fields[1..]);
  }

  // ----- main theorems

  /** Reading the canonical text back yields the normal form of the value that was printed. */
  lemma {:induction false} ReadBack(v: Json)
    requires WellFormed(v)
    ensures ParseValue(Serialize(v)) == Some((Normalize(v), []))
  {
    NormalizeNormal(v);
    SerializeNormalize(v);
    ParseSerialize(Normalize(v), []);
    assert Serialize(v) + [] == Serialize(v);
  }

  /** In every object, at any depth, the keys ascend by code units. */
  ghost predicate KeysAscend(v: Json)
    decreases v
  {
    match v
    case Arr(items) => forall i :: 0 <= i < |items| ==> KeysAscend(items[i])
    case Obj(fields) =>
      && (forall i, j :: 0 <= i < j < |fields| ==> Before(fields[i].0, fields[j].0))
      && forall i :: 0 <= i < |fields| ==> KeysAscend(fields[i].1)
    case _ => true
  }

  lemma {:induction false} NormalAscends(v: Json)
    requires Normal(v)
    ensures KeysAscend(v)
    decreases v
  {
    match v
    case Arr(items) =>
      forall i | 0 <= i < |items| ensures KeysAscend(items[i]) {
        NormalAscends(items[i]);
      }
    case Obj(fields) =>
      forall i | 0 <= i < |fields| ensures KeysAscend(fields[i].1) {
        assert fields[i] in fields && fields[i].1 < fields[i];
        NormalAscends(fields[i].1);
      }
      forall i, j | 0 <= i < j < |fields| ensures Before(fields[i].0, fields[j].0) {
        LessExactly(fields[i].0, fields[j].0);
      }
    case _ =>
  }

  /** What is printed has all its keys in ascending order of code units, and is read to its end. */
  lemma {:induction false} PrintedInOrder(v: Json)
    requires WellFormed(v)
    ensures var r := ParseValue(Serialize(v));
            r.Some? && r.value.1 == [] && KeysAscend(r.value.0) && Denote(r.value.0) == Denote(v)
  {
    ReadBack(v);
    NormalizeNormal(v);
    NormalAscends(Normalize(v));
  }

  /** Equal texts exactly for equal values: key order is ignored, and nothing else is. */
  lemma {:induction false} SameTextSameValue(v: Json, w: Json)
    requires WellFormed(v) && WellFormed(w)
    ensures Serialize(v) == Serialize(w) <==> Denote(v) == Denote(w)
  {
    if Serialize(v) == Serialize(w) {
      ReadBack(v);
      ReadBack(w);
      NormalizeNormal(v);
      NormalizeNormal(w);
    }
    if Denote(v) == Denote(w) {
      NormalizeDetermined(v, w);
      SerializeNormalize(v);
      SerializeNormalize(w);
    }
  }

  /** Why `undefined` may not stand in an array: there it leaves no text. */
  lemma {:induction false} UndefinedItemIsLost()
    ensures Serialize(Arr([Undefined])) == Serialize(Arr([]))
    ensures Denote(Arr([Undefined])) != Denote(Arr([]))
  {
    assert SerializeItems([Undefined]) == [[]];
    assert |DenoteItems([Undefined])| == 1;
  }

  lemma {:induction false} ItemsExample()
    ensures Serialize(Arr([Null, Num([0x2D, 0x31])])) == [0x5B, 0x6E, 0x75, 0x6C, 0x6C, 0x2C, 0x2D, 0x31, 0x5D]
  {
    var items := [Null, Num([0x2D, 0x31])];
    assert items[1..] == [Num([0x2D, 0x31])];
    assert SerializeItems(items[1..]) == [[0x2D, 0x31]];
    assert SerializeItems(items) == [NULL_TEXT, [0x2D, 0x31]];
    assert JoinItems([NULL_TEXT, [0x2D, 0x31]][1..]) == [0x2D, 0x31];
  }

  lemma {:induction false} WordExamples()
    ensures Serialize(Null) == [0x6E, 0x75, 0x6C, 0x6C] && Serialize(Bool(true)) == [0x74, 0x72, 0x75, 0x65]
    ensures Serialize(Bool(false)) == [0x66, 0x61, 0x6C, 0x73, 0x65]
    ensures Serialize(Undefined) == [0x75, 0x6E, 0x64, 0x65, 0x66, 0x69, 0x6E, 0x65, 0x64]
  {
  }

  lemma {:induction false} FieldExamples()
    ensures FieldText(([0x42], Serialize(Str([0x0A])))) == [0x22, 0x42, 0x22, 0x3A, 0x22, 0x5C, 0x6E, 0x22]
    ensures forall t: Text :: FieldText(([0x61], t)) == [0x22, 0x61, 0x22, 0x3A] + t
  {
    assert QuoteBody([0x0A]) == [0x5C, 0x6E] + QuoteBody([0x0A][1..]);
    PlainIsVerbatim([0x61]);
    PlainIsVerbatim([0x42]);
  }

  lemma {:induction false} TwoFields(x: (Text, Json), y: (Text, Json))
    requires Before(y.0, x.0)
    ensures Serialize(Obj([x, y])) ==
            [LBRACE] + (FieldText((y.0, Serialize(y.1))) + [COMMA] + FieldText((x.0, Serialize(x.1)))) + [RBRACE]
  {
    var (sx, sy) := ((x.0, Serialize(x.1)), (y.0, Serialize(y.1)));
    assert [x, y][1..] == [y];
    assert SerializeFields([y]) == [sy] && SerializeFields([x, y]) == [sx, sy];
    LessExactly(y.0, x.0);
    LessTotal(y.0, x.0);
    var one: seq<(Text, Text)> := [sy];
    assert [sx, sy][1..] == one && one[1..] == [];
    assert Sort(one) == one && !Less(sx.0, sy.0);
    assert Insert(sx, one[1..]) == [sx] && Insert(sx, one) == [sy] + Insert(sx, one[1..]);
    assert [sy, sx][1..] == [sx] && JoinFields([sy, sx]) == FieldText(sy) + [COMMA] + FieldText(sx);
  }

  /** One document in full, {"a": [null, -1], "B": "\n"}: upper case first, no white space, the line feed escaped. */
  lemma {:induction false} PrintedExample()
    ensures Serialize(Obj([([0x61], Arr([Null, Num([0x2D, 0x31])])), ([0x42], Str([0x0A]))])) ==
            [0x7B] + ([0x22, 0x42, 0x22, 0x3A, 0x22, 0x5C, 0x6E, 0x22] + [0x2C]
                      + ([0x22, 0x61, 0x22, 0x3A] + [0x5B, 0x6E, 0x75, 0x6C, 0x6C, 0x2C, 0x2D, 0x31, 0x5D])) + [0x7D]
  {
    ItemsExample();
    FieldExamples();
    assert SmallerAt([0x42], [0x61], 0);
    TwoFields(([0x61], Arr([Null, Num([0x2D, 0x31])])), ([0x42], Str([0x0A])));
  }
}
