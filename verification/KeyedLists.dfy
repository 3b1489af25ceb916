/** Lists of (key, value) entries: sorting by key, and the finite map a list with distinct keys stands for. */
module KeyedLists {
  import opened JsonText

  predicate DistinctKeys<T>(s: seq<(Text, T)>) {
    forall i, j :: 0 <= i < j < |s| ==> s[i].0 != s[j].0
  }

  predicate StrictlySorted<T>(s: seq<(Text, T)>) {
    forall i, j :: 0 <= i < j < |s| ==> Less(s[i].0, s[j].0)
  }

  /** Array.prototype.sort on keys, as an insertion sort; with distinct keys every sort gives this list. */
  function Insert<T>(e: (Text, T), s: seq<(Text, T)>): seq<(Text, T)> {
    if s == [] || Less(e.0, s[0].0) then [e] + s else [s[0]] + Insert(e, s[1..])
  }

  function Sort<T>(s: seq<(Text, T)>): seq<(Text, T)> {
    if s == [] then [] else Insert(s[0], Sort(s[1..]))
  }

  /** The map a list of entries builds when its entries are set from the last to the first. */
  function EntryMap<T>(s: seq<(Text, T)>): map<Text, T> {
    if s == [] then map[] else EntryMap(s[1..])[s[0].0 := s[0].1]
  }

  lemma {:induction false} EntryMapKeys<T>(s: seq<(Text, T)>, k: Text)
    ensures k in EntryMap(s) <==> exists i :: 0 <= i < |s| && s[i].0 == k
  {
    if s != [] {
      EntryMapKeys(s[1..], k);
      if k in EntryMap(s[1..]) {
        var i :| 0 <= i < |s[1..]| && s[1..][i].0 == k;
        assert s[i + 1].0 == k;
      }
      if exists i :: 1 <= i < |s| && s[i].0 == k {
        var i :| 1 <= i < |s| && s[i].0 == k;
        assert s[1..][i - 1].0 == k;
      }
    }
  }

  lemma {:induction false} EntryMapAt<T>(s: seq<(Text, T)>, i: nat)
    requires DistinctKeys(s) && i < |s|
    ensures s[i].0 in EntryMap(s) && EntryMap(s)[s[i].0] == s[i].1
  {
    if i > 0 {
      EntryMapAt(s[1..], i - 1);
    }
  }

  lemma {:induction false} EntryMapInsert<T>(e: (Text, T), s: seq<(Text, T)>)
    requires e.0 !in EntryMap(s)
    ensures EntryMap(Insert(e, s)) == EntryMap(s)[e.0 := e.1]
  {
    if s == [] || Less(e.0, s[0].0) {
      assert ([e] + s)[1..] == s;
    } else {
      EntryMapInsert(e, s[1..]);
      assert ([s[0]] + Insert(e, s[1..]))[1..] == Insert(e, s[1..]);
    }
  }

  /** Sorting does not change the map. */
  lemma {:induction false} EntryMapSort<T>(s: seq<(Text, T)>)
    requires DistinctKeys(s)
    ensures EntryMap(Sort(s)) == EntryMap(s)
  {
    if s != [] {
      EntryMapSort(s[1..]);
      EntryMapKeys(s[1..], s[0].0);
      EntryMapInsert(s[0], Sort(s[1..]));
    }
  }

  lemma {:induction false} InsertSorted<T>(e: (Text, T), s: seq<(Text, T)>)
    requires StrictlySorted(s) && e.0 !in EntryMap(s)
    ensures StrictlySorted(Insert(e, s))
  {
    if s == [] {
    } else if Less(e.0, s[0].0) {
      forall j | 0 <= j < |s| ensures Less(e.0, s[j].0) {
        if j > 0 {
          LessTrans(e.0, s[0].0, s[j].0);
        }
      }
    } else {
      InsertSorted(e, s[1..]);
      LessTotal(e.0, s[0].0);
      var t := Insert(e, s[1..]);
      forall j | 0 <= j < |t| ensures Less(s[0].0, t[j].0) {
        EntryMapInsert(e, s[1..]);
        EntryMapKeys(t, t[j].0);
        EntryMapKeys(s[1..], t[j].0);
      }
    }
  }

  lemma {:induction false} SortSorted<T>(s: seq<(Text, T)>)
    requires DistinctKeys(s)
    ensures StrictlySorted(Sort(s))
  {
    if s != [] {
      SortSorted(s[1..]);
      EntryMapSort(s[1..]);
      EntryMapKeys(s[1..], s[0].0);
      InsertSorted(s[0], Sort(s[1..]));
    }
  }

  lemma {:induction false} SortIdentity<T>(s: seq<(Text, T)>)
    requires StrictlySorted(s)
    ensures Sort(s) == s
  {
    if s != [] {
      SortIdentity(s[1..]);
    }
  }

  lemma {:induction false} SortedDistinct<T>(s: seq<(Text, T)>)
    requires StrictlySorted(s)
    ensures DistinctKeys(s)
  {
    forall i, j | 0 <= i < j < |s| ensures s[i].0 != s[j].0 {
      LessTotal(s[i].0, s[j].0);
    }
  }

  lemma {:induction false} NonEmptyMap<T>(s: seq<(Text, T)>)
    ensures s != [] ==> EntryMap(s) != map[]
  {
    if s != [] {
      assert s[0].0 in EntryMap(s);
    }
  }

  /** A strictly sorted list is determined by its map. */
  lemma {:induction false} SortedUnique<T>(a: seq<(Text, T)>, b: seq<(Text, T)>)
    requires StrictlySorted(a) && StrictlySorted(b) && EntryMap(a) == EntryMap(b)
    ensures a == b
  {
    NonEmptyMap(a);
    NonEmptyMap(b);
    if a != [] && b != [] {
      FirstIsLeast(a, b);
      FirstIsLeast(b, a);
      LessTotal(a[0].0, b[0].0);
      var k := a[0].0;
      assert a[0] == (k, EntryMap(a)[k]) && b[0] == (k, EntryMap(b)[k]);
      RestOfMap(a);
      RestOfMap(b);
      SortedUnique(a[1..], b[1..]);
      assert a == [a[0]] + a[1..] && b == [b[0]] + b[1..];
    }
  }

  lemma {:induction false} FirstIsLeast<T>(a: seq<(Text, T)>, b: seq<(Text, T)>)
    requires StrictlySorted(a) && a != [] && b != [] && EntryMap(a) == EntryMap(b)
    ensures !Less(b[0].0, a[0].0)
  {
    assert b[0].0 in EntryMap(b);
    EntryMapKeys(a, b[0].0);
    var i :| 0 <= i < |a| && a[i].0 == b[0].0;
    LessTotal(a[0].0, b[0].0);
    if i > 0 {
      assert Less(a[0].0, a[i].0);
    }
  }

  lemma {:induction false} RestOfMap<T>(a: seq<(Text, T)>)
    requires StrictlySorted(a) && a != []
    ensures EntryMap(a[1..]) == EntryMap(a) - {a[0].0}
  {
    SortedDistinct(a);
    EntryMapKeys(a[1..], a[0].0);
  }
}
