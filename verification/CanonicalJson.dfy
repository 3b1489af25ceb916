/**
 * The deterministic serializer whose output is signed. A JSON object is its list of fields in
 * insertion order. The main theorem: two values have the same text exactly when they denote the
 * same JSON value, objects being maps, so key order never matters and nothing else is lost.
 */
module CanonicalJson {
  import opened Outcomes
  import opened JsonText
  import opened KeyedLists

  /**
   * A JavaScript value made of JSON parts. Undefined is the value of a field that was set to
   * `undefined`; a number is the text that Number::toString gives it.
   */
  datatype Json =
    | Null
    | Undefined
    | Bool(b: bool)
    | Num(text: Text)
    | Str(s: Text)
    | Arr(items: seq<Json>)
    | Obj(fields: seq<(Text, Json)>)

  /** What a value means: an object is a finite map. */
  datatype Value =
    | VNull
    | VUndefined
    | VBool(b: bool)
    | VNum(text: Text)
    | VStr(s: Text)
    | VArr(items: seq<Value>)
    | VObj(fields: map<Text, Value>)

  const NULL_TEXT: Text := [0x6E, 0x75, 0x6C, 0x6C]
  const TRUE_TEXT: Text := [0x74, 0x72, 0x75, 0x65]
  const FALSE_TEXT: Text := [0x66, 0x61, 0x6C, 0x73, 0x65]
  const UNDEFINED_TEXT: Text := [0x75, 0x6E, 0x64, 0x65, 0x66, 0x69, 0x6E, 0x65, 0x64]

  predicate NumUnit(u: Unit) {
    0x30 <= u < 0x3A || u == 0x2D || u == 0x2B || u == 0x2E || u == 0x65
  }

  /** The shape of every Number::toString of a finite number. */
  predicate NumText(t: Text) {
    t != [] && (t[0] == 0x2D || 0x30 <= t[0] < 0x3A) && forall k :: 0 <= k < |t| ==> NumUnit(t[k])
  }

  /** No key twice, numbers well shaped, and no `undefined` inside an array. */
  predicate WellFormed(v: Json)
    decreases v
  {
    match v
    case Num(t) => NumText(t)
    case Arr(items) => forall i :: 0 <= i < |items| ==> !items[i].Undefined? && WellFormed(items[i])
    case Obj(fields) => DistinctKeys(fields) && forall i :: 0 <= i < |fields| ==> WellFormed(fields[i].1)
    case _ => true
  }

  // ----- the serializer

  function Serialize(v: Json): Text
    decreases v
  {
    match v
    case Null => NULL_TEXT
    case Undefined => UNDEFINED_TEXT
    case Bool(b) => if b then TRUE_TEXT else FALSE_TEXT
    case Num(t) => t
    case Str(s) => Quote(s)
    case Arr(items) => [LBRACKET] + JoinItems(SerializeItems(items)) + [RBRACKET]
    case Obj(fields) => [LBRACE] + JoinFields(Sort(SerializeFields(fields))) + [RBRACE]
  }

  function SerializeItems(items: seq<Json>): seq<Text>
    decreases items
  {
    if items == [] then [] else
      [if items[0].Undefined? then [] else Serialize(items[0])] + SerializeItems(items[1..])
  }

  function SerializeFields(fields: seq<(Text, Json)>): (es: seq<(Text, Text)>)
    ensures |es| == |fields| && forall i :: 0 <= i < |es| ==> es[i].0 == fields[i].0
    decreases fields
  {
    if fields == [] then [] else
      assert fields[0].1 < fields[0];
      [(fields[0].0, Serialize(fields[0].1))] + SerializeFields(fields[1..])
  }

  function JoinItems(texts: seq<Text>): Text {
    if texts == [] then [] else if |texts| == 1 then texts[0] else texts[0] + [COMMA] + JoinItems(texts[1..])
  }

  function FieldText(e: (Text, Text)): Text {
    Quote(e.0) + [COLON] + e.1
  }

  function JoinFields(es: seq<(Text, Text)>): Text {
    if es == [] then [] else if |es| == 1 then FieldText(es[0]) else FieldText(es[0]) + [COMMA] + JoinFields(es[1..])
  }

  // ----- meaning

  function Denote(v: Json): Value
    decreases v
  {
    match v
    case Null => VNull
    case Undefined => VUndefined
    case Bool(b) => VBool(b)
    case Num(t) => VNum(t)
    case Str(s) => VStr(s)
    case Arr(items) => VArr(DenoteItems(items))
    case Obj(fields) => VObj(EntryMap(DenoteFields(fields)))
  }

  function DenoteItems(items: seq<Json>): seq<Value>
    decreases items
  {
    if items == [] then [] else [Denote(items[0])] + DenoteItems(items[1..])
  }

  function DenoteFields(fields: seq<(Text, Json)>): (es: seq<(Text, Value)>)
    ensures |es| == |fields| && forall i :: 0 <= i < |es| ==> es[i].0 == fields[i].0
    decreases fields
  {
    if fields == [] then [] else
      assert fields[0].1 < fields[0];
      [(fields[0].0, Denote(fields[0].1))] + DenoteFields(fields[1..])
  }

  // ----- the normal form: every object with its fields in key order

  predicate Normal(v: Json)
    decreases v
  {
    match v
    case Num(t) => NumText(t)
    case Arr(items) => forall i :: 0 <= i < |items| ==> !items[i].Undefined? && Normal(items[i])
    case Obj(fields) => StrictlySorted(fields) && forall i :: 0 <= i < |fields| ==> Normal(fields[i].1)
    case _ => true
  }

  function Normalize(v: Json): Json
    decreases v
  {
    match v
    case Arr(items) => Arr(NormalizeItems(items))
    case Obj(fields) => Obj(Sort(NormalizeFields(fields)))
    case _ => v
  }

  function NormalizeItems(items: seq<Json>): (r: seq<Json>)
    ensures |r| == |items|
    decreases items
  {
    if items == [] then [] else [Normalize(items[0])] + NormalizeItems(items[1..])
  }

  function NormalizeFields(fields: seq<(Text, Json)>): (es: seq<(Text, Json)>)
    ensures |es| == |fields| && forall i :: 0 <= i < |es| ==> es[i].0 == fields[i].0
    decreases fields
  {
    if fields == [] then [] else
      assert fields[0].1 < fields[0];
      [(fields[0].0, Normalize(fields[0].1))] + NormalizeFields(fields[1..])
  }

  lemma {:induction false} SerializeInsert(e: (Text, Json), fields: seq<(Text, Json)>)
    ensures SerializeFields(Insert(e, fields)) == Insert((e.0, Serialize(e.1)), SerializeFields(fields))
  {
    if fields == [] || Less(e.0, fields[0].0) {
      assert ([e] + fields)[1..] == fields;
    } else {
      SerializeInsert(e, fields[1..]);
      assert ([fields[0]] + Insert(e, fields[1..]))[1..] == Insert(e, fields[1..]);
    }
  }

  lemma {:induction false} SerializeSort(fields: seq<(Text, Json)>)
    ensures SerializeFields(Sort(fields)) == Sort(SerializeFields(fields))
  {
    if fields != [] {
      SerializeSort(fields[1..]);
      SerializeInsert(fields[0], Sort(fields[1..]));
    }
  }

  /** The serializer prints the normal form. */
  lemma {:induction false} SerializeNormalize(v: Json)
    requires WellFormed(v)
    ensures Serialize(Normalize(v)) == Serialize(v)
    decreases v
  {
    match v
    case Arr(items) => SerializeNormalizeItems(items);
    case Obj(fields) =>
      SerializeNormalizeFields(fields);
      SerializeSort(NormalizeFields(fields));
      SortSorted(SerializeFields(fields));
      SortIdentity(Sort(SerializeFields(fields)));
    case _ =>
  }

  lemma {:induction false} SerializeNormalizeItems(items: seq<Json>)
    requires forall i :: 0 <= i < |items| ==> !items[i].Undefined? && WellFormed(items[i])
    ensures SerializeItems(NormalizeItems(items)) == SerializeItems(items)
    decreases items
  {
    if items != [] {
      SerializeNormalize(items[0]);
      SerializeNormalizeItems(items[1..]);
    }
  }

  lemma {:induction false} SerializeNormalizeFields(fields: seq<(Text, Json)>)
    requires forall i :: 0 <= i < |fields| ==> WellFormed(fields[i].1)
    ensures SerializeFields(NormalizeFields(fields)) == SerializeFields(fields)
    decreases fields
  {
    if fields != [] {
      assert fields[0].1 < fields[0];
      SerializeNormalize(fields[0].1);
      SerializeNormalizeFields(fields[1..]);
    }
  }

  /** Normalizing yields a normal form that denotes the same value. */
  lemma {:induction false} NormalizeNormal(v: Json)
    requires WellFormed(v)
    ensures Normal(Normalize(v)) && Denote(Normalize(v)) == Denote(v)
    ensures Normalize(v).Undefined? == v.Undefined?
    decreases v
  {
    match v
    case Arr(items) => NormalizeItemsNormal(items);
    case Obj(fields) =>
      NormalizeFieldsNormal(fields);
      SortSorted(NormalizeFields(fields));
      SortNormal(NormalizeFields(fields));
      DenoteSort(NormalizeFields(fields));
      EntryMapSort(DenoteFields(fields));
    case _ =>
  }

  lemma {:induction false} NormalizeItemsNormal(items: seq<Json>)
    requires forall i :: 0 <= i < |items| ==> !items[i].Undefined? && WellFormed(items[i])
    ensures forall i :: 0 <= i < |items| ==> !NormalizeItems(items)[i].Undefined? && Normal(NormalizeItems(items)[i])
    ensures DenoteItems(NormalizeItems(items)) == DenoteItems(items)
    decreases items
  {
    if items != [] {
      NormalizeNormal(items[0]);
      NormalizeItemsNormal(items[1..]);
    }
  }

  lemma {:induction false} NormalizeFieldsNormal(fields: seq<(Text, Json)>)
    requires forall i :: 0 <= i < |fields| ==> WellFormed(fields[i].1)
    ensures forall i :: 0 <= i < |fields| ==> Normal(NormalizeFields(fields)[i].1)
    ensures DenoteFields(NormalizeFields(fields)) == DenoteFields(fields)
    decreases fields
  {
    if fields != [] {
      assert fields[0].1 < fields[0];
      NormalizeNormal(fields[0].1);
      NormalizeFieldsNormal(fields[1..]);
    }
  }

  lemma {:induction false} InsertNormal(e: (Text, Json), fields: seq<(Text, Json)>)
    requires Normal(e.1) && forall i :: 0 <= i < |fields| ==> Normal(fields[i].1)
    ensures forall i :: 0 <= i < |Insert(e, fields)| ==> Normal(Insert(e, fields)[i].1)
  {
    if fields != [] && !Less(e.0, fields[0].0) {
      InsertNormal(e, fields[1..]);
    }
  }

  lemma {:induction false} SortNormal(fields: seq<(Text, Json)>)
    requires forall i :: 0 <= i < |fields| ==> Normal(fields[i].1)
    ensures forall i :: 0 <= i < |Sort(fields)| ==> Normal(Sort(fields)[i].1)
  {
    if fields != [] {
      SortNormal(fields[1..]);
      InsertNormal(fields[0], Sort(fields[1..]));
    }
  }

  lemma {:induction false} DenoteInsert(e: (Text, Json), fields: seq<(Text, Json)>)
    ensures DenoteFields(Insert(e, fields)) == Insert((e.0, Denote(e.1)), DenoteFields(fields))
  {
    if fields == [] || Less(e.0, fields[0].0) {
      assert ([e] + fields)[1..] == fields;
    } else {
      DenoteInsert(e, fields[1..]);
      assert ([fields[0]] + Insert(e, fields[1..]))[1..] == Insert(e, fields[1..]);
    }
  }

  lemma {:induction false} DenoteSort(fields: seq<(Text, Json)>)
    ensures DenoteFields(Sort(fields)) == Sort(DenoteFields(fields))
  {
    if fields != [] {
      DenoteSort(fields[1..]);
      DenoteInsert(fields[0], Sort(fields[1..]));
    }
  }

  /** The normal form depends on the denoted value only. */
  lemma {:induction false} NormalizeDetermined(v: Json, w: Json)
    requires WellFormed(v) && WellFormed(w) && Denote(v) == Denote(w)
    ensures Normalize(v) == Normalize(w)
    decreases v
  {
    match v
    case Arr(items) => NormalizeItemsDetermined(items, w.items);
    case Obj(fields) =>
      SameMaps(fields, w.fields);
      var a, b := NormalizeFields(fields), NormalizeFields(w.fields);
      SortSorted(a);
      SortSorted(b);
      EntryMapSort(a);
      EntryMapSort(b);
      SortedUnique(Sort(a), Sort(b));
    case _ =>
  }

  lemma {:induction false} NormalizeItemsDetermined(items: seq<Json>, others: seq<Json>)
    requires forall i :: 0 <= i < |items| ==> WellFormed(items[i])
    requires forall i :: 0 <= i < |others| ==> WellFormed(others[i])
    requires DenoteItems(items) == DenoteItems(others)
    ensures NormalizeItems(items) == NormalizeItems(others)
    decreases items
  {
    if items != [] {
      assert DenoteItems(items)[1..] == DenoteItems(items[1..]);
      assert DenoteItems(others)[1..] == DenoteItems(others[1..]);
      NormalizeDetermined(items[0], others[0]);
      NormalizeItemsDetermined(items[1..], others[1..]);
    }
  }

  lemma {:induction false} SameMaps(fs: seq<(Text, Json)>, gs: seq<(Text, Json)>)
    requires DistinctKeys(fs) && forall i :: 0 <= i < |fs| ==> WellFormed(fs[i].1)
    requires DistinctKeys(gs) && forall i :: 0 <= i < |gs| ==> WellFormed(gs[i].1)
    requires EntryMap(DenoteFields(fs)) == EntryMap(DenoteFields(gs))
    ensures EntryMap(NormalizeFields(fs)) == EntryMap(NormalizeFields(gs))
    decreases fs, 0
  {
    var a, b := NormalizeFields(fs), NormalizeFields(gs);
    forall k ensures k in EntryMap(a) <==> k in EntryMap(b) {
      SameKeys(fs, k);
      SameKeys(gs, k);
    }
    forall k | k in EntryMap(a) ensures EntryMap(a)[k] == EntryMap(b)[k] {
      EntryMapKeys(a, k);
      EntryMapKeys(b, k);
      var i :| 0 <= i < |a| && a[i].0 == k;
      var j :| 0 <= j < |b| && b[j].0 == k;
      FieldAt(fs, i);
      FieldAt(gs, j);
      assert fs[i] in fs && fs[i].1 < fs[i];
      NormalizeDetermined(fs[i].1, gs[j].1);
    }
  }

  lemma {:induction false} SameKeys(fs: seq<(Text, Json)>, k: Text)
    ensures k in EntryMap(NormalizeFields(fs)) <==> k in EntryMap(DenoteFields(fs))
  {
    var a, d := NormalizeFields(fs), DenoteFields(fs);
    EntryMapKeys(a, k);
    EntryMapKeys(d, k);
    assert forall i :: 0 <= i < |fs| ==> a[i].0 == d[i].0;
  }

  lemma {:induction false} FieldAt(fs: seq<(Text, Json)>, i: nat)
    requires DistinctKeys(fs) && i < |fs|
    ensures var k := fs[i].0;
            && k in EntryMap(DenoteFields(fs)) && EntryMap(DenoteFields(fs))[k] == Denote(fs[i].1)
            && k in EntryMap(NormalizeFields(fs)) && EntryMap(NormalizeFields(fs))[k] == Normalize(fs[i].1)
  {
    EntryMapAt(DenoteFields(fs), i);
    EntryMapAt(NormalizeFields(fs), i);
    FieldImages(fs, i);
  }

  lemma {:induction false} FieldImages(fs: seq<(Text, Json)>, i: nat)
    requires i < |fs|
    ensures DenoteFields(fs)[i].1 == Denote(fs[i].1)
    ensures NormalizeFields(fs)[i].1 == Normalize(fs[i].1)
  {
    if i > 0 {
      FieldImages(fs[1..], i - 1);
    }
  }
}
