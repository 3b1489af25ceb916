/**
 * Multi-region cache replication: timestamped values and tombstones, written and read across
 * regions any of which may be dead or fail at any call.
 */
module RegionReplicator {
  import opened Outcomes

  type Region = string

  datatype Entry = SetEntry(v: string, ts: int) | Tombstone(ts: int)

  /** What a region stores under a key: an encoded entry, or a legacy value that is no JSON text. */
  datatype Raw = Encoded(entry: Entry) | Legacy(text: string)

  type Stores = map<Region, map<string, Raw>>

  function DecodeEntry(raw: Raw): Option<Entry> {
    match raw
    case Encoded(e) => Some(e)
    case Legacy(text) => if text == "" then None else Some(SetEntry(text, 0))
  }

  /** What one write meets: done, refused, or done although the call reports a failure. */
  datatype Write = Stored | Refused | StoredButLost

  /** What one region does with a delete: nothing, only the removal, or removal and tombstone. */
  datatype Delete = NotDeleted | OnlyRemoved | Marked | MarkedButLost

  datatype ReplicationResult = ReplicationResult(
    origin: Option<Region>, replicated: seq<Region>, failed: seq<Region>, sequence: nat)

  // ----- region preference

  function Filter(names: seq<Region>, keep: Region -> bool): seq<Region> {
    if names == [] then []
    else Filter(names[..|names| - 1], keep) + (if keep(names[|names| - 1]) then [names[|names| - 1]] else [])
  }

  /** The active region first if it is healthy, then the other healthy ones in order. */
  function OrderRegionsByPreference(names: seq<Region>, active: Region, dead: set<Region>): seq<Region> {
    Filter(names, n => n == active && n !in dead) + Filter(names, n => n != active && n !in dead)
  }

  lemma {:induction false} FilterMember(names: seq<Region>, keep: Region -> bool, n: Region)
    ensures n in Filter(names, keep) <==> n in names && keep(n)
  {
    if names != [] {
      FilterMember(names[..|names| - 1], keep, n);
    }
  }

  /** The regions tried are exactly the healthy ones. */
  lemma {:induction false} OrderedAreHealthy(names: seq<Region>, active: Region, dead: set<Region>, n: Region)
    ensures n in OrderRegionsByPreference(names, active, dead) <==> n in names && n !in dead
    ensures active in names && active !in dead ==>
              var order := OrderRegionsByPreference(names, active, dead); |order| > 0 && order[0] == active
  {
    FilterMember(names, n => n == active && n !in dead, n);
    FilterMember(names, n => n != active && n !in dead, n);
    var first := Filter(names, n => n == active && n !in dead);
    FilterMember(names, n => n == active && n !in dead, active);
    if first != [] {
      FilterMember(names, n => n == active && n !in dead, first[0]);
    }
  }

  /** Filtering keeps the order. */
  lemma {:induction false} FilterInOrder(names: seq<Region>, keep: Region -> bool, i: nat, j: nat)
    requires i < j < |Filter(names, keep)|
    ensures InOrderAt(names, Filter(names, keep)[i], Filter(names, keep)[j])
  {
    var n := |names| - 1;
    var (before, all) := (Filter(names[..n], keep), Filter(names, keep));
    if j < |before| {
      FilterInOrder(names[..n], keep, i, j);
      var p, q :| 0 <= p < q < n && names[..n][p] == before[i] && names[..n][q] == before[j];
      assert names[p] == all[i] && names[q] == all[j];
    } else {
      FilterMember(names[..n], keep, before[i]);
      var p :| 0 <= p < n && names[..n][p] == before[i];
      assert names[p] == all[i] && names[n] == all[j];
    }
  }

  /** The one stands before the other in the list. */
  predicate InOrderAt(names: seq<Region>, a: Region, b: Region) {
    exists p, q :: 0 <= p < q < |names| && names[p] == a && names[q] == b
  }

  /** The active region is never asked after another one, and the others keep their order. */
  lemma {:induction false} OthersKeepOrder(names: seq<Region>, active: Region, dead: set<Region>, i: nat, j: nat)
    requires i < j < |OrderRegionsByPreference(names, active, dead)|
    ensures var order := OrderRegionsByPreference(names, active, dead);
            && (order[j] == active ==> order[i] == active)
            && ((order[i] == active && order[j] != active) || InOrderAt(names, order[i], order[j]))
  {
    var order := OrderRegionsByPreference(names, active, dead);
    var first, others := Filter(names, n => n == active && n !in dead), Filter(names, n => n != active && n !in dead);
    FilterMember(names, n => n == active && n !in dead, order[i]);
    FilterMember(names, n => n == active && n !in dead, order[j]);
    FilterMember(names, n => n != active && n !in dead, order[i]);
    FilterMember(names, n => n != active && n !in dead, order[j]);
    if j < |first| {
      FilterInOrder(names, n => n == active && n !in dead, i, j);
    } else if |first| <= i {
      FilterInOrder(names, n => n != active && n !in dead, i - |first|, j - |first|);
    } else {
      assert order[i] in first && order[j] in others;
    }
  }

  // ----- reading

  function At(s: Stores, r: Region, key: string): Option<Entry> {
    if r in s && key in s[r] then DecodeEntry(s[r][key]) else None
  }

  /** The entries a read sees, in the order it asks; failing and empty regions are skipped. */
  function Seen(s: Stores, key: string, order: seq<Region>, fails: set<Region>): seq<Entry> {
    if order == [] then []
    else
      (if order[0] !in fails && At(s, order[0], key).Some? then [At(s, order[0], key).value] else [])
      + Seen(s, key, order[1..], fails)
  }

  /** The scan with the best value so far: a tombstone at least as new as that ends it. */
  function Scan(entries: seq<Entry>, latest: Option<Entry>): Option<string>
    requires latest.Some? ==> latest.value.SetEntry?
  {
    if entries == [] then
      match latest case None => None case Some(e) => Some(e.v)
    else
      match entries[0]
      case Tombstone(ts) =>
        if latest.None? || ts >= latest.value.ts then None else Scan(entries[1..], latest)
      case SetEntry(_, ts) =>
        Scan(entries[1..], if latest.None? || ts > latest.value.ts then Some(entries[0]) else latest)
  }

  /** A read with some regions dead and some failing. */
  function Read(
      s: Stores, names: seq<Region>, active: Region, key: string, dead: set<Region>, fails: set<Region>): Option<string>
  {
    Scan(Seen(s, key, OrderRegionsByPreference(names, active, dead), fails), None)
  }

  // ----- the replicator

  function Put(s: Stores, r: Region, key: string, raw: Raw): Stores {
    s[r := (if r in s then s[r] else map[])[key := raw]]
  }

  function Remove(s: Stores, r: Region, key: string): Stores {
    s[r := (if r in s then s[r] else map[]) - {key}]
  }

  /** One delivery of a set to each region of the list. */
  function SetAll(s: Stores, regions: seq<Region>, key: string, e: Entry, how: Region -> Write): Stores {
    if regions == [] then s
    else
      var r, before := regions[|regions| - 1], SetAll(s, regions[..|regions| - 1], key, e, how);
      if how(r) == Refused then before else Put(before, r, key, Encoded(e))
  }

  function DeleteOne(s: Stores, r: Region, key: string, ts: int, how: Delete): Stores {
    match how
    case NotDeleted => s
    case OnlyRemoved => Remove(s, r, key)
    case Marked => Put(Remove(s, r, key), r, key, Encoded(Tombstone(ts)))
    case MarkedButLost => Put(Remove(s, r, key), r, key, Encoded(Tombstone(ts)))
  }

  function DeleteAll(s: Stores, regions: seq<Region>, key: string, ts: int, how: Region -> Delete): Stores {
    if regions == [] then s
    else
      var r := regions[|regions| - 1];
      DeleteOne(DeleteAll(s, regions[..|regions| - 1], key, ts, how), r, key, ts, how(r))
  }

  class Replicator {
    const names: seq<Region>
    const active: Region
    var stores: Stores
    var sequence: nat

    constructor (names: seq<Region>, active: Region, stores: Stores)
      ensures this.names == names && this.active == active && this.stores == stores && sequence == 0
    {
      this.names, this.active, this.stores, sequence := names, active, stores, 0;
    }

    method Get(key: string, dead: set<Region>, fails: set<Region>) returns (v: Option<string>)
      ensures v == Read(stores, names, active, key, dead, fails)
    {
      var order := OrderRegionsByPreference(names, active, dead);
      var latest: Option<Entry> := None;
      for i := 0 to |order|
        invariant latest.Some? ==> latest.value.SetEntry?
        invariant Scan(Seen(stores, key, order, fails), None) == Scan(Seen(stores, key, order[i..], fails), latest)
      {
        var entry := At(stores, order[i], key);
        assert order[i..][1..] == order[i + 1..];
        ghost var rest := Seen(stores, key, order[i + 1..], fails);
        if order[i] !in fails && entry.Some? {
          assert Seen(stores, key, order[i..], fails) == [entry.value] + rest;
          assert ([entry.value] + rest)[1..] == rest;
          match entry.value {
            case Tombstone(ts) =>
              if latest.None? || ts >= latest.value.ts {
                return None;
              }
            case SetEntry(_, ts) =>
              if latest.None? || ts > latest.value.ts {
                latest := entry;
              }
          }
        } else {
          assert Seen(stores, key, order[i..], fails) == rest;
        }
      }
      v := match latest case None => None case Some(e) => Some(e.v);
    }

    method Set(
        key: string, value: string, now: int, dead: set<Region>, how: Region -> Write)
      returns (r: ReplicationResult)
      modifies this`stores, this`sequence
      ensures var order := OrderRegionsByPreference(names, active, dead);
              && stores == SetAll(old(stores), order, key, SetEntry(value, now), how)
              && sequence == old(sequence) + (if order == [] then 0 else 1)
              && r.replicated == Filter(order, n => how(n) == Stored)
              && (r.failed == if order == [] then names else Filter(order, n => how(n) != Stored))
              && (r.origin == if r.replicated == [] then None else Some(r.replicated[0]))
              && (r.sequence == if order == [] then 0 else sequence)
    {
      var order := OrderRegionsByPreference(names, active, dead);
      if |order| == 0 {
        return ReplicationResult(None, [], names, 0);
      }
      sequence := sequence + 1;
      var replicated, failed := [], [];
      for i := 0 to |order|
        invariant sequence == old(sequence) + 1
        invariant stores == SetAll(old(stores), order[..i], key, SetEntry(value, now), how)
        invariant replicated == Filter(order[..i], n => how(n) == Stored)
        invariant failed == Filter(order[..i], n => how(n) != Stored)
      {
        assert order[..i + 1][..i] == order[..i];
        if how(order[i]) != Refused {
          stores := Put(stores, order[i], key, Encoded(SetEntry(value, now)));
        }
        if how(order[i]) == Stored {
          replicated := replicated + [order[i]];
        } else {
          failed := failed + [order[i]];
        }
      }
      assert order[..|order|] == order;
      r := ReplicationResult(if |replicated| == 0 then None else Some(replicated[0]), replicated, failed, sequence);
    }

    method Del(key: string, now: int, how: Region -> Delete) returns (deleted: seq<Region>, failed: seq<Region>)
      modifies this`stores, this`sequence
      ensures stores == DeleteAll(old(stores), names, key, now, how) && sequence == old(sequence) + 1
      ensures deleted == Filter(names, n => how(n) == Marked) && failed == Filter(names, n => how(n) != Marked)
    {
      sequence := sequence + 1;
      deleted, failed := [], [];
      for i := 0 to |names|
        invariant sequence == old(sequence) + 1
        invariant stores == DeleteAll(old(stores), names[..i], key, now, how)
        invariant deleted == Filter(names[..i], n => how(n) == Marked)
        invariant failed == Filter(names[..i], n => how(n) != Marked)
      {
        assert names[..i + 1][..i] == names[..i];
        var r := names[i];
        if how(r) != NotDeleted {
          stores := Remove(stores, r, key);
          if how(r) != OnlyRemoved {
            stores := Put(stores, r, key, Encoded(Tombstone(now)));
          }
        }
        if how(r) == Marked {
          deleted := deleted + [r];
        } else {
          failed := failed + [r];
        }
      }
      assert names[..|names|] == names;
    }
  }

  // ----- what a read returns, whatever the regions hold

  predicate Under(x: Entry, e: Entry) {
    if x.Tombstone? then x.ts < e.ts else x.ts <= e.ts
  }

  /** The better of an entry and the best value so far. */
  function Better(x: Entry, latest: Option<Entry>): Option<Entry> {
    if x.SetEntry? && (latest.None? || x.ts > latest.value.ts) then Some(x) else latest
  }

  /** A value returned is the newest one seen and newer than every tombstone seen. */
  ghost predicate Newest(entries: seq<Entry>, latest: Option<Entry>, e: Entry) {
    && e.SetEntry? && (Some(e) == latest || e in entries)
    && (latest.Some? ==> latest.value.ts <= e.ts)
    && forall x: Entry :: x in entries ==> Under(x, e)
  }

  lemma {:induction false} ScanNewest(entries: seq<Entry>, latest: Option<Entry>) returns (e: Entry)
    requires latest.Some? ==> latest.value.SetEntry?
    requires Scan(entries, latest).Some?
    ensures Newest(entries, latest, e) && e.v == Scan(entries, latest).value
  {
    if entries == [] {
      e := latest.value;
    } else {
      var next := Better(entries[0], latest);
      e := ScanNewest(entries[1..], next);
      assert forall x: Entry :: x in entries ==> x == entries[0] || x in entries[1..];
    }
  }

  /** A tombstone met before any newer value. */
  predicate Blocked(entries: seq<Entry>, latest: Option<Entry>) {
    exists j :: 0 <= j < |entries| && Blocks(entries, latest, j)
  }

  predicate Blocks(entries: seq<Entry>, latest: Option<Entry>, j: nat)
    requires j < |entries|
  {
    && entries[j].Tombstone?
    && (latest.Some? ==> latest.value.ts <= entries[j].ts)
    && forall i :: 0 <= i < j && entries[i].SetEntry? ==> entries[i].ts <= entries[j].ts
  }

  /** A read misses exactly if it meets such a tombstone or no value at all. */
  lemma {:induction false} MissExactly(entries: seq<Entry>, latest: Option<Entry>)
    requires latest.Some? ==> latest.value.SetEntry?
    ensures Scan(entries, latest).None? <==>
            Blocked(entries, latest) || (latest.None? && forall i :: 0 <= i < |entries| ==> entries[i].Tombstone?)
  {
    if entries != [] {
      if entries[0].Tombstone? && (latest.None? || entries[0].ts >= latest.value.ts) {
        assert Blocks(entries, latest, 0);
      } else {
        var next := Better(entries[0], latest);
        MissExactly(entries[1..], next);
        if Blocked(entries[1..], next) {
          var j :| 0 <= j < |entries| - 1 && Blocks(entries[1..], next, j);
          forall i | 0 <= i < j + 1 && entries[i].SetEntry? ensures entries[i].ts <= entries[j + 1].ts {
            if i > 0 {
              assert entries[i] == entries[1..][i - 1];
            }
          }
          assert Blocks(entries, latest, j + 1);
        }
        if Blocked(entries, latest) {
          var j :| 0 <= j < |entries| && Blocks(entries, latest, j);
          assert j > 0;
          forall i | 0 <= i < j - 1 && entries[1..][i].SetEntry? ensures entries[1..][i].ts <= entries[1..][j - 1].ts {
            assert entries[1..][i] == entries[i + 1];
          }
          assert Blocks(entries[1..], next, j - 1);
        }
        assert forall i :: 1 <= i < |entries| ==> entries[i] == entries[1..][i - 1];
        assert forall i :: 0 <= i < |entries[1..]| ==> entries[1..][i] == entries[i + 1];
      }
    }
  }

  lemma {:induction false} SeenMember(s: Stores, key: string, order: seq<Region>, fails: set<Region>, e: Entry)
    ensures e in Seen(s, key, order, fails) <==>
            exists i :: 0 <= i < |order| && order[i] !in fails && At(s, order[i], key) == Some(e)
  {
    if order != [] {
      SeenMember(s, key, order[1..], fails, e);
      if exists i :: 0 <= i < |order| - 1 && order[1..][i] !in fails && At(s, order[1..][i], key) == Some(e) {
        var i :| 0 <= i < |order| - 1 && order[1..][i] !in fails && At(s, order[1..][i], key) == Some(e);
        assert order[i + 1] !in fails && At(s, order[i + 1], key) == Some(e);
      }
      if exists i :: 0 < i < |order| && order[i] !in fails && At(s, order[i], key) == Some(e) {
        var i :| 0 < i < |order| && order[i] !in fails && At(s, order[i], key) == Some(e);
        assert order[1..][i - 1] !in fails && At(s, order[1..][i - 1], key) == Some(e);
      }
    }
  }

  /** A region in use that is neither dead nor failing. */
  predicate Readable(names: seq<Region>, dead: set<Region>, fails: set<Region>, r: Region) {
    r in names && r !in dead && r !in fails
  }

  lemma {:induction false} SeenReadable(
      s: Stores, names: seq<Region>, active: Region, key: string, dead: set<Region>, fails: set<Region>, e: Entry)
    ensures e in Seen(s, key, OrderRegionsByPreference(names, active, dead), fails) <==>
            exists r :: Readable(names, dead, fails, r) && At(s, r, key) == Some(e)
  {
    var order := OrderRegionsByPreference(names, active, dead);
    SeenMember(s, key, order, fails, e);
    if e in Seen(s, key, order, fails) {
      var i :| 0 <= i < |order| && order[i] !in fails && At(s, order[i], key) == Some(e);
      OrderedAreHealthy(names, active, dead, order[i]);
      assert Readable(names, dead, fails, order[i]);
    }
    if exists r :: Readable(names, dead, fails, r) && At(s, r, key) == Some(e) {
      var r :| Readable(names, dead, fails, r) && At(s, r, key) == Some(e);
      OrderedAreHealthy(names, active, dead, r);
      var i :| 0 <= i < |order| && order[i] == r;
      assert order[i] !in fails && At(s, order[i], key) == Some(e);
    }
  }

  /** The entry of a readable region that no readable region's entry is newer than, and newer than their tombstones. */
  ghost predicate NewestReadable(
      s: Stores, names: seq<Region>, key: string, dead: set<Region>, fails: set<Region>, e: Entry, from: Region)
  {
    && e.SetEntry? && Readable(names, dead, fails, from) && At(s, from, key) == Some(e)
    && forall r: Region :: Readable(names, dead, fails, r) && At(s, r, key).Some? ==> Under(At(s, r, key).value, e)
  }

  /**
   * Whatever the regions hold and whichever are dead or fail: a value that is returned is held by
   * a readable region, is at least as new as every value and newer than every tombstone held by one.
   */
  lemma {:induction false} ReadReturnsNewest(
      s: Stores, names: seq<Region>, active: Region, key: string, dead: set<Region>, fails: set<Region>)
    ensures Read(s, names, active, key, dead, fails).Some? ==>
              exists e: Entry, from: Region ::
                && NewestReadable(s, names, key, dead, fails, e, from)
                && e.v == Read(s, names, active, key, dead, fails).value
  {
    if Read(s, names, active, key, dead, fails).Some? {
      var e, from := NewestRead(s, names, active, key, dead, fails);
    }
  }

  lemma {:induction false} NewestRead(
      s: Stores, names: seq<Region>, active: Region, key: string, dead: set<Region>, fails: set<Region>)
    returns (e: Entry, from: Region)
    requires Read(s, names, active, key, dead, fails).Some?
    ensures NewestReadable(s, names, key, dead, fails, e, from) && Read(s, names, active, key, dead, fails) == Some(e.v)
  {
    var entries := Seen(s, key, OrderRegionsByPreference(names, active, dead), fails);
    e := ScanNewest(entries, None);
    SeenReadable(s, names, active, key, dead, fails, e);
    from :| Readable(names, dead, fails, from) && At(s, from, key) == Some(e);
    forall r: Region | Readable(names, dead, fails, r) && At(s, r, key).Some? ensures Under(At(s, r, key).value, e) {
      SeenReadable(s, names, active, key, dead, fails, At(s, r, key).value);
    }
  }

  lemma {:induction false} TwoRegions(a: Region, b: Region, active: Region)
    requires a != b && (active == a || active == b)
    ensures OrderRegionsByPreference([a, b], active, {}) == if active == a then [a, b] else [b, a]
  {
    var dead: set<Region> := {};
    FilterTwo(a, b, n => n == active && n !in dead);
    FilterTwo(a, b, n => n != active && n !in dead);
  }

  lemma {:induction false} FilterTwo(a: Region, b: Region, keep: Region -> bool)
    ensures Filter([a, b], keep) == (if keep(a) then [a] else []) + (if keep(b) then [b] else [])
  {
    assert [a, b][..1] == [a] && [a][..0] == [];
    assert Filter([a], keep) == if keep(a) then [a] else [];
  }

  lemma {:induction false} SeenTwo(s: Stores, key: string, a: Region, b: Region, x: Entry, y: Entry)
    requires At(s, a, key) == Some(x) && At(s, b, key) == Some(y)
    ensures Seen(s, key, [a, b], {}) == [x, y]
  {
    assert [a, b][1..] == [b] && [b][1..] == [];
    assert Seen(s, key, [b], {}) == [y];
  }

  /** Not every value that is newer than all tombstones is found: an older tombstone met first hides it. */
  lemma {:induction false} OlderTombstoneHidesNewerValue(
      s: Stores, a: Region, b: Region, key: string, v: string, t: int, u: int)
    requires a != b && t < u
    requires At(s, a, key) == Some(Tombstone(t)) && At(s, b, key) == Some(SetEntry(v, u))
    ensures Read(s, [a, b], a, key, {}, {}) == None && Read(s, [a, b], b, key, {}, {}) == Some(v)
  {
    TwoRegions(a, b, a);
    TwoRegions(a, b, b);
    var tomb, value := Tombstone(t), SetEntry(v, u);
    SeenTwo(s, key, a, b, tomb, value);
    SeenTwo(s, key, b, a, value, tomb);
    assert [value, tomb][1..] == [tomb] && [tomb][1..] == [];
    assert Scan([tomb], Some(value)) == Some(v);
  }

  lemma {:induction false} ReadTwo(s: Stores, a: Region, b: Region, key: string, x: Entry, y: Entry)
    requires a != b && At(s, a, key) == Some(x) && At(s, b, key) == Some(y)
    ensures Read(s, [a, b], a, key, {}, {}) == Scan([x, y], None)
    ensures Read(s, [a, b], b, key, {}, {}) == Scan([y, x], None)
  {
    TwoRegions(a, b, a);
    TwoRegions(a, b, b);
    SeenTwo(s, key, a, b, x, y);
    SeenTwo(s, key, b, a, y, x);
  }

  lemma {:induction false} ScanLast(e: Entry, latest: Option<Entry>)
    requires latest.Some? ==> latest.value.SetEntry?
    ensures Scan([e], latest) ==
            match e
            case SetEntry(v, ts) => Some(if latest.None? || ts > latest.value.ts then v else latest.value.v)
            case Tombstone(ts) => if latest.None? || ts >= latest.value.ts then None else Some(latest.value.v)
  {
    var rest: seq<Entry> := [e][1..];
    assert rest == [];
    assert forall l: Option<Entry> :: l.Some? && l.value.SetEntry? ==> Scan(rest, l) == Some(l.value.v);
  }

  lemma {:induction false} ScanTwo(x: Entry, y: Entry)
    requires x.SetEntry?
    ensures Scan([x, y], None) == if y.SetEntry? then Some(if y.ts > x.ts then y.v else x.v)
                                  else if y.ts >= x.ts then None else Some(x.v)
    ensures Scan([y, x], None) == if y.Tombstone? then None else Some(if x.ts > y.ts then x.v else y.v)
  {
    assert [x, y][1..] == [y] && [y, x][1..] == [x];
    ScanLast(y, Some(x));
    if y.SetEntry? {
      ScanLast(x, Some(y));
    }
  }

  lemma {:induction false} ReadOne(s: Stores, a: Region, b: Region, key: string, x: Entry)
    requires a != b && At(s, a, key) == Some(x) && At(s, b, key) == None
    ensures Read(s, [a, b], a, key, {}, {}) == Read(s, [a, b], b, key, {}, {}) == Scan([x], None)
  {
    TwoRegions(a, b, a);
    TwoRegions(a, b, b);
    assert [a, b][1..] == [b] && [b, a][1..] == [a] && [a][1..] == [] && [b][1..] == [];
    assert Seen(s, key, [b], {}) == [] && Seen(s, key, [a], {}) == [x];
    assert Seen(s, key, [a, b], {}) == [x] && Seen(s, key, [b, a], {}) == [x];
  }

  /**
   * A legacy value is a value older than every versioned one: found where there is nothing else, beaten
   * by any versioned value and hidden by any tombstone, whichever region is asked first. A blank one is none.
   */
  lemma {:induction false} LegacyIsOldest(s: Stores, a: Region, b: Region, key: string, text: string)
    requires a != b && a in s && key in s[a] && s[a][key] == Legacy(text)
    ensures text == "" ==> At(s, a, key) == None
    ensures text != "" && b in s && key in s[b] && s[b][key].Encoded? && s[b][key].entry.ts > 0 ==>
              var newer := if s[b][key].entry.SetEntry? then Some(s[b][key].entry.v) else None;
              Read(s, [a, b], a, key, {}, {}) == newer && Read(s, [a, b], b, key, {}, {}) == newer
    ensures text != "" && At(s, b, key).None? ==>
              Read(s, [a, b], a, key, {}, {}) == Some(text) && Read(s, [a, b], b, key, {}, {}) == Some(text)
  {
    if text != "" && At(s, b, key).None? {
      ReadOne(s, a, b, key, SetEntry(text, 0));
      ScanLast(SetEntry(text, 0), None);
    } else if text != "" && s[b][key].Encoded? {
      ReadTwo(s, a, b, key, SetEntry(text, 0), s[b][key].entry);
      ScanTwo(SetEntry(text, 0), s[b][key].entry);
    }
  }

  // ----- when a read misses, region by region

  /** The i-th region asked answers, with an entry under the key. */
  predicate Answers(s: Stores, key: string, order: seq<Region>, fails: set<Region>, i: nat)
    requires i < |order|
  {
    order[i] !in fails && At(s, order[i], key).Some?
  }

  /** It answers with a tombstone at least as new as every value that a region asked before it answered with. */
  predicate StopsAt(s: Stores, key: string, order: seq<Region>, fails: set<Region>, latest: Option<Entry>, j: nat)
    requires j < |order|
  {
    && Answers(s, key, order, fails, j) && At(s, order[j], key).value.Tombstone?
    && (latest.Some? ==> latest.value.ts <= At(s, order[j], key).value.ts)
    && forall i :: 0 <= i < j && Answers(s, key, order, fails, i) && At(s, order[i], key).value.SetEntry? ==>
                     At(s, order[i], key).value.ts <= At(s, order[j], key).value.ts
  }

  predicate Stops(s: Stores, key: string, order: seq<Region>, fails: set<Region>, latest: Option<Entry>) {
    exists j :: 0 <= j < |order| && StopsAt(s, key, order, fails, latest, j)
  }

  predicate NoValue(s: Stores, key: string, order: seq<Region>, fails: set<Region>) {
    forall i :: 0 <= i < |order| && Answers(s, key, order, fails, i) ==> At(s, order[i], key).value.Tombstone?
  }

  /** The best value once the first region was asked. */
  function AfterFirst(
      s: Stores, key: string, order: seq<Region>, fails: set<Region>, latest: Option<Entry>): Option<Entry>
    requires order != []
  {
    if Answers(s, key, order, fails, 0) then Better(At(s, order[0], key).value, latest) else latest
  }

  lemma {:induction false} StopsLater(
      s: Stores, key: string, order: seq<Region>, fails: set<Region>, latest: Option<Entry>, j: nat)
    requires j + 1 < |order| && (latest.Some? ==> latest.value.SetEntry?)
    ensures StopsAt(s, key, order, fails, latest, j + 1) <==>
            StopsAt(s, key, order[1..], fails, AfterFirst(s, key, order, fails, latest), j)
  {
    var rest := order[1..];
    assert forall i: nat :: i < |rest| ==> Answers(s, key, rest, fails, i) == Answers(s, key, order, fails, i + 1);
    if StopsAt(s, key, rest, fails, AfterFirst(s, key, order, fails, latest), j) {
      forall i | 0 <= i < j + 1 && Answers(s, key, order, fails, i) && At(s, order[i], key).value.SetEntry?
        ensures At(s, order[i], key).value.ts <= At(s, order[j + 1], key).value.ts
      {
        if i > 0 {
          assert Answers(s, key, rest, fails, i - 1);
        }
      }
    }
  }

  lemma {:induction false} ScanMisses(
      s: Stores, key: string, order: seq<Region>, fails: set<Region>, latest: Option<Entry>)
    requires latest.Some? ==> latest.value.SetEntry?
    ensures Scan(Seen(s, key, order, fails), latest).None? <==>
            Stops(s, key, order, fails, latest) || (latest.None? && NoValue(s, key, order, fails))
  {
    if order != [] {
      var rest, next := order[1..], AfterFirst(s, key, order, fails, latest);
      ScanMisses(s, key, rest, fails, next);
      StopsFirst(s, key, order, fails, latest);
      NoValueFirst(s, key, order, fails);
      ScanFirst(s, key, order, fails, latest);
    }
  }

  /** The first region asked may end the scan; if not the rest decides. */
  lemma {:induction false} ScanFirst(
      s: Stores, key: string, order: seq<Region>, fails: set<Region>, latest: Option<Entry>)
    requires order != [] && (latest.Some? ==> latest.value.SetEntry?)
    ensures Scan(Seen(s, key, order, fails), latest) ==
            if StopsAt(s, key, order, fails, latest, 0) then None
            else Scan(Seen(s, key, order[1..], fails), AfterFirst(s, key, order, fails, latest))
  {
    var rest := Seen(s, key, order[1..], fails);
    if Answers(s, key, order, fails, 0) {
      assert ([At(s, order[0], key).value] + rest)[1..] == rest;
    } else {
      assert [] + rest == rest;
    }
  }

  lemma {:induction false} StopsFirst(
      s: Stores, key: string, order: seq<Region>, fails: set<Region>, latest: Option<Entry>)
    requires order != [] && (latest.Some? ==> latest.value.SetEntry?)
    ensures Stops(s, key, order, fails, latest) <==>
            StopsAt(s, key, order, fails, latest, 0)
            || Stops(s, key, order[1..], fails, AfterFirst(s, key, order, fails, latest))
  {
    forall j: nat | j + 1 < |order|
      ensures StopsAt(s, key, order, fails, latest, j + 1) <==>
              StopsAt(s, key, order[1..], fails, AfterFirst(s, key, order, fails, latest), j)
    {
      StopsLater(s, key, order, fails, latest, j);
    }
    if Stops(s, key, order, fails, latest) && !StopsAt(s, key, order, fails, latest, 0) {
      var j :| 0 <= j < |order| && StopsAt(s, key, order, fails, latest, j);
      assert StopsAt(s, key, order, fails, latest, (j - 1) + 1);
      assert StopsAt(s, key, order[1..], fails, AfterFirst(s, key, order, fails, latest), j - 1);
    }
    if Stops(s, key, order[1..], fails, AfterFirst(s, key, order, fails, latest)) {
      var j :| 0 <= j < |order[1..]| && StopsAt(s, key, order[1..], fails, AfterFirst(s, key, order, fails, latest), j);
      assert StopsAt(s, key, order, fails, latest, j + 1);
    }
  }

  lemma {:induction false} NoValueFirst(s: Stores, key: string, order: seq<Region>, fails: set<Region>)
    requires order != []
    ensures NoValue(s, key, order, fails) <==>
            (Answers(s, key, order, fails, 0) ==> At(s, order[0], key).value.Tombstone?)
            && NoValue(s, key, order[1..], fails)
  {
    forall i: nat | i + 1 < |order|
      ensures Answers(s, key, order[1..], fails, i) == Answers(s, key, order, fails, i + 1)
    {
    }
    if NoValue(s, key, order, fails) {
      forall i | 0 <= i < |order[1..]| && Answers(s, key, order[1..], fails, i)
        ensures At(s, order[1..][i], key).value.Tombstone?
      {
        assert Answers(s, key, order, fails, i + 1);
      }
    }
    if NoValue(s, key, order[1..], fails) {
      forall i | 0 < i < |order| && Answers(s, key, order, fails, i) ensures At(s, order[i], key).value.Tombstone? {
        assert order[1..][i - 1] == order[i];
        assert Answers(s, key, order[1..], fails, i - 1);
      }
    }
  }

  /**
   * A read misses exactly if, in order of preference, some region that answers holds a tombstone at
   * least as new as every value of the regions that answered before it, or no region answers with a value.
   */
  lemma {:induction false} ReadMissesExactly(
      s: Stores, names: seq<Region>, active: Region, key: string, dead: set<Region>, fails: set<Region>)
    ensures var order := OrderRegionsByPreference(names, active, dead);
            Read(s, names, active, key, dead, fails).None? <==>
            Stops(s, key, order, fails, None) || NoValue(s, key, order, fails)
  {
    ScanMisses(s, key, OrderRegionsByPreference(names, active, dead), fails, None);
  }

  // ----- whole runs

  /** A set, a delete, or a value expiring in one region; tombstones are written without expiry. */
  datatype Op =
    | SetOp(key: string, value: string, now: int, dead: set<Region>, write: Region -> Write)
    | DelOp(key: string, now: int, mark: Region -> Delete)
    | Expire(key: string, region: Region)

  predicate Clocked(op: Op) {
    !op.Expire?
  }

  function Step(s: Stores, names: seq<Region>, active: Region, op: Op): Stores {
    match op
    case SetOp(key, value, now, dead, write) =>
      SetAll(s, OrderRegionsByPreference(names, active, dead), key, SetEntry(value, now), write)
    case DelOp(key, now, mark) => DeleteAll(s, names, key, now, mark)
    case Expire(key, r) =>
      if At(s, r, key).Some? && At(s, r, key).value.SetEntry? then Remove(s, r, key) else s
  }

  function After(s: Stores, names: seq<Region>, active: Region, ops: seq<Op>): Stores {
    if ops == [] then s else Step(After(s, names, active, ops[..|ops| - 1]), names, active, ops[|ops| - 1])
  }

  /** Whether a set reaches a region, acknowledged or not. */
  predicate Reached(names: seq<Region>, op: Op, r: Region)
    requires op.SetOp?
  {
    r in names && r !in op.dead && op.write(r) != Refused
  }

  lemma {:induction false} SetAllAt(
      s: Stores, regions: seq<Region>, key: string, e: Entry, how: Region -> Write, r: Region, k: string)
    ensures At(SetAll(s, regions, key, e, how), r, k) ==
            if k == key && r in regions && how(r) != Refused then Some(e) else At(s, r, k)
  {
    if regions != [] {
      SetAllAt(s, regions[..|regions| - 1], key, e, how, r, k);
    }
  }

  lemma {:induction false} DeleteAllAt(
      s: Stores, regions: seq<Region>, key: string, ts: int, how: Region -> Delete, r: Region, k: string)
    ensures At(DeleteAll(s, regions, key, ts, how), r, k) ==
            if k != key || r !in regions || how(r) == NotDeleted then At(s, r, k)
            else if how(r) == OnlyRemoved then None
            else Some(Tombstone(ts))
  {
    if regions != [] {
      DeleteAllAt(s, regions[..|regions| - 1], key, ts, how, r, k);
    }
  }

  /** What one operation leaves in one region under one key. */
  lemma {:induction false} StepAt(s: Stores, names: seq<Region>, active: Region, op: Op, r: Region, k: string)
    ensures At(Step(s, names, active, op), r, k) ==
            if op.key != k then At(s, r, k)
            else match op
            case SetOp(_, value, now, _, _) => if Reached(names, op, r) then Some(SetEntry(value, now)) else At(s, r, k)
            case DelOp(_, now, mark) =>
              if r !in names || mark(r) == NotDeleted then At(s, r, k)
              else if mark(r) == OnlyRemoved then None else Some(Tombstone(now))
            case Expire(_, region) =>
              if region == r && At(s, r, k).Some? && At(s, r, k).value.SetEntry? then None else At(s, r, k)
  {
    match op
    case SetOp(key, value, now, dead, write) =>
      SetAllAt(s, OrderRegionsByPreference(names, active, dead), key, SetEntry(value, now), write, r, k);
      OrderedAreHealthy(names, active, dead, r);
    case DelOp(key, now, mark) =>
      DeleteAllAt(s, names, key, now, mark, r, k);
    case Expire(key, region) =>
  }

  /**
   * Two operations from empty regions are enough: a delete everywhere and a later set that the active
   * region refuses. Its own reads miss; those of a process in the other region find the value.
   */
  lemma {:induction false} NewerValueIsHidden(a: Region, b: Region, key: string, v: string, t: int, u: int)
    requires a != b && t < u
    ensures var ops := [DelOp(key, t, _ => Marked), SetOp(key, v, u, {}, r => if r == a then Refused else Stored)];
            var s := After(map[], [a, b], a, ops);
            Read(s, [a, b], a, key, {}, {}) == None && Read(s, [a, b], b, key, {}, {}) == Some(v)
  {
    var del, put := DelOp(key, t, _ => Marked), SetOp(key, v, u, {}, r => if r == a then Refused else Stored);
    HiddenStores(a, b, key, v, t, u, del, put);
    OlderTombstoneHidesNewerValue(After(map[], [a, b], a, [del, put]), a, b, key, v, t, u);
  }

  lemma {:induction false} HiddenStores(
      a: Region, b: Region, key: string, v: string, t: int, u: int, del: Op, put: Op)
    requires a != b && del.DelOp? && del.key == key && del.now == t && del.mark(a) == Marked && del.mark(b) == Marked
    requires put.SetOp? && put.key == key && put.value == v && put.now == u && put.dead == {}
    requires put.write(a) == Refused && put.write(b) == Stored
    ensures var s := After(map[], [a, b], a, [del, put]);
            At(s, a, key) == Some(Tombstone(t)) && At(s, b, key) == Some(SetEntry(v, u))
  {
    assert [del, put][..1] == [del] && [del][..0] == [];
    assert After(map[], [a, b], a, []) == map[];
    var one := After(map[], [a, b], a, [del]);
    assert one == Step(map[], [a, b], a, del);
    StepAt(map[], [a, b], a, del, a, key);
    StepAt(map[], [a, b], a, del, b, key);
    StepAt(one, [a, b], a, put, a, key);
    StepAt(one, [a, b], a, put, b, key);
  }

  predicate NoLater(s: Stores, key: string, r: Region, t: int) {
    At(s, r, key).Some? && At(s, r, key).value.SetEntry? ==> At(s, r, key).value.ts <= t
  }

  predicate Quiet(op: Op, key: string, t: int) {
    op.SetOp? && op.key == key ==> op.now <= t
  }

  lemma {:induction false} ValuesNoLater(
      s: Stores, names: seq<Region>, active: Region, ops: seq<Op>, key: string, r: Region, t: int)
    requires NoLater(s, key, r, t)
    requires forall i :: 0 <= i < |ops| ==> Quiet(ops[i], key, t)
    ensures NoLater(After(s, names, active, ops), key, r, t)
  {
    if ops != [] {
      ValuesNoLater(s, names, active, ops[..|ops| - 1], key, r, t);
      StepAt(After(s, names, active, ops[..|ops| - 1]), names, active, ops[|ops| - 1], r, key);
    }
  }

  predicate HoldsTombstone(s: Stores, r: Region, key: string, t: int) {
    At(s, r, key).Some? && At(s, r, key).value.Tombstone? && At(s, r, key).value.ts >= t
  }

  /** No set on the key, and no delete that removes it from the region without leaving its own tombstone. */
  predicate KeepsMark(names: seq<Region>, op: Op, key: string, r: Region, t: int) {
    op.key == key ==>
      match op
      case SetOp(_, _, _, _, _) => !Reached(names, op, r)
      case DelOp(_, now, mark) => now >= t && (r in names ==> mark(r) != OnlyRemoved)
      case Expire(_, _) => true
  }

  lemma {:induction false} TombstoneStays(
      s: Stores, names: seq<Region>, active: Region, ops: seq<Op>, key: string, r: Region, t: int)
    requires HoldsTombstone(s, r, key, t)
    requires forall i :: 0 <= i < |ops| ==> KeepsMark(names, ops[i], key, r, t)
    ensures HoldsTombstone(After(s, names, active, ops), r, key, t)
  {
    if ops != [] {
      TombstoneStays(s, names, active, ops[..|ops| - 1], key, r, t);
      StepAt(After(s, names, active, ops[..|ops| - 1]), names, active, ops[|ops| - 1], r, key);
    }
  }

  lemma {:induction false} NewerThanMarks(
      s: Stores, names: seq<Region>, key: string, t: int, r: Region, dead: set<Region>, fails: set<Region>,
      e: Entry, from: Region)
    requires NewestReadable(s, names, key, dead, fails, e, from)
    requires Readable(names, dead, fails, r) && HoldsTombstone(s, r, key, t)
    ensures !NoLater(s, key, from, t)
  {
    assert Under(At(s, r, key).value, e);
  }

  /** A readable tombstone at least as new as every stored value makes the key absent. */
  lemma {:induction false} TombstoneWins(
      s: Stores, names: seq<Region>, active: Region, key: string, t: int, r: Region, dead: set<Region>,
      fails: set<Region>)
    requires forall x: Region :: NoLater(s, key, x, t)
    requires Readable(names, dead, fails, r) && HoldsTombstone(s, r, key, t)
    ensures Read(s, names, active, key, dead, fails) == None
  {
    if Read(s, names, active, key, dead, fails).Some? {
      var e, from := NewestRead(s, names, active, key, dead, fails);
      NewerThanMarks(s, names, key, t, r, dead, fails, e, from);
    }
  }

  predicate InOrder(ops: seq<Op>) {
    forall i, j :: 0 <= i < j < |ops| && Clocked(ops[i]) && Clocked(ops[j]) ==> ops[i].now <= ops[j].now
  }

  /**
   * No resurrection: after a delete at time t and with no later set of the key, a read misses
   * whenever it reaches a region holding a tombstone from t or later, however deletes and writes
   * failed before, during and after. Values stored at the start are no newer than t.
   */
  lemma {:induction false} NoResurrection(
      s: Stores, names: seq<Region>, active: Region, before: seq<Op>, del: Op, later: seq<Op>,
      r: Region, dead: set<Region>, fails: set<Region>)
    requires del.DelOp? && InOrder(before + [del] + later)
    requires forall x: Region :: NoLater(s, del.key, x, del.now)
    requires forall i :: 0 <= i < |later| ==> !(later[i].SetOp? && later[i].key == del.key)
    requires Readable(names, dead, fails, r)
    requires HoldsTombstone(After(s, names, active, before + [del] + later), r, del.key, del.now)
    ensures Read(After(s, names, active, before + [del] + later), names, active, del.key, dead, fails) == None
  {
    var ops := before + [del] + later;
    forall i | 0 <= i < |ops| ensures Quiet(ops[i], del.key, del.now) {
      assert ops[|before|] == del;
      if i > |before| {
        assert ops[i] == later[i - |before| - 1];
      }
    }
    forall x: Region ensures NoLater(After(s, names, active, ops), del.key, x, del.now) {
      ValuesNoLater(s, names, active, ops, del.key, x, del.now);
    }
    TombstoneWins(After(s, names, active, ops), names, active, del.key, del.now, r, dead, fails);
  }

  /**
   * The tombstone a delete left in a region is still there, or a newer one, unless a later delete
   * half failed there.
   */
  lemma {:induction false} DeletedStaysMarked(
      s: Stores, names: seq<Region>, active: Region, before: seq<Op>, del: Op, later: seq<Op>, r: Region)
    requires del.DelOp? && InOrder(before + [del] + later)
    requires r in names && (del.mark(r) == Marked || del.mark(r) == MarkedButLost)
    requires forall i :: 0 <= i < |later| ==> !(later[i].SetOp? && later[i].key == del.key)
    requires forall i :: 0 <= i < |later| && later[i].DelOp? && later[i].key == del.key ==>
                           later[i].mark(r) != OnlyRemoved
    ensures HoldsTombstone(After(s, names, active, before + [del] + later), r, del.key, del.now)
  {
    var ops := before + [del] + later;
    var mid := After(s, names, active, before + [del]);
    assert (before + [del])[..|before|] == before;
    StepAt(After(s, names, active, before), names, active, del, r, del.key);
    forall i | 0 <= i < |later| ensures KeepsMark(names, later[i], del.key, r, del.now) {
      assert ops[|before|] == del && ops[|before| + 1 + i] == later[i];
    }
    TombstoneStays(mid, names, active, later, del.key, r, del.now);
    AfterConcat(s, names, active, before + [del], later);
  }

  lemma {:induction false} AfterConcat(s: Stores, names: seq<Region>, active: Region, a: seq<Op>, b: seq<Op>)
    ensures After(s, names, active, a + b) == After(After(s, names, active, a), names, active, b)
  {
    if b == [] {
      assert a + b == a;
    } else {
      assert (a + b)[..|a + b| - 1] == a + b[..|b| - 1];
      AfterConcat(s, names, active, a, b[..|b| - 1]);
    }
  }

  // ----- runs without deletes

  /** The i-th operation is a set of the key that reached the region and has not expired there since. */
  predicate Survives(names: seq<Region>, ops: seq<Op>, i: int, key: string, r: Region) {
    && 0 <= i < |ops| && ops[i].SetOp? && ops[i].key == key && Reached(names, ops[i], r)
    && forall j :: i < j < |ops| ==> ops[j] != Expire(key, r)
  }

  lemma {:induction false} SurvivesLonger(names: seq<Region>, ops: seq<Op>, j: int, key: string, r: Region)
    requires 0 <= j < |ops| - 1
    ensures Survives(names, ops, j, key, r) <==>
            Survives(names, ops[..|ops| - 1], j, key, r) && ops[|ops| - 1] != Expire(key, r)
  {
    var before := ops[..|ops| - 1];
    assert forall l :: 0 <= l < |before| ==> before[l] == ops[l];
  }

  /** The last set that survives in the region, or -1. */
  function LastSurvivor(names: seq<Region>, ops: seq<Op>, key: string, r: Region): (i: int)
    ensures -1 <= i < |ops| && (i >= 0 ==> ops[i].SetOp?)
  {
    if ops == [] then -1
    else
      var n := |ops| - 1;
      if ops[n].SetOp? && ops[n].key == key && Reached(names, ops[n], r) then n
      else if ops[n] == Expire(key, r) then -1
      else LastSurvivor(names, ops[..n], key, r)
  }

  lemma {:induction false} LastSurvivorIsLast(names: seq<Region>, ops: seq<Op>, key: string, r: Region)
    ensures var i := LastSurvivor(names, ops, key, r); i != -1 ==> Survives(names, ops, i, key, r)
    ensures forall j :: Survives(names, ops, j, key, r) ==> j <= LastSurvivor(names, ops, key, r)
  {
    if ops != [] {
      LastSurvivorIsLast(names, ops[..|ops| - 1], key, r);
      forall j | 0 <= j < |ops| - 1
        ensures Survives(names, ops, j, key, r) <==>
                Survives(names, ops[..|ops| - 1], j, key, r) && ops[|ops| - 1] != Expire(key, r)
      {
        SurvivesLonger(names, ops, j, key, r);
      }
    }
  }

  /** In a run without deletes a region holds the last set that survives there. */
  lemma {:induction false} HoldsLastSurvivor(
      names: seq<Region>, active: Region, ops: seq<Op>, key: string, r: Region)
    returns (i: int)
    requires forall j :: 0 <= j < |ops| ==> !ops[j].DelOp?
    ensures i == LastSurvivor(names, ops, key, r)
    ensures i == -1 || Survives(names, ops, i, key, r)
    ensures forall j :: Survives(names, ops, j, key, r) ==> j <= i
    ensures At(After(map[], names, active, ops), r, key) ==
            if i == -1 then None else Some(SetEntry(ops[i].value, ops[i].now))
  {
    i := LastSurvivor(names, ops, key, r);
    LastSurvivorIsLast(names, ops, key, r);
    HoldsSurvivor(names, active, ops, key, r);
  }

  lemma {:induction false} HoldsSurvivor(names: seq<Region>, active: Region, ops: seq<Op>, key: string, r: Region)
    requires forall j :: 0 <= j < |ops| ==> !ops[j].DelOp?
    ensures var i := LastSurvivor(names, ops, key, r);
            At(After(map[], names, active, ops), r, key) ==
            if i == -1 then None else Some(SetEntry(ops[i].value, ops[i].now))
  {
    if ops != [] {
      var before, op := ops[..|ops| - 1], ops[|ops| - 1];
      HoldsSurvivor(names, active, before, key, r);
      StepAt(After(map[], names, active, before), names, active, op, r, key);
    }
  }

  predicate Strict(ops: seq<Op>) {
    forall i, j :: 0 <= i < j < |ops| && ops[i].SetOp? && ops[j].SetOp? ==> ops[i].now < ops[j].now
  }

  /** Whether the i-th operation is a set of the key still held by a readable region. */
  ghost predicate Reaches(
      names: seq<Region>, ops: seq<Op>, i: int, key: string, dead: set<Region>, fails: set<Region>)
  {
    exists r: Region :: Readable(names, dead, fails, r) && Survives(names, ops, i, key, r)
  }

  /**
   * Last write wins: without deletes and with an increasing clock, a read returns the value of the
   * last set still held by a readable region, and misses exactly if there is none.
   */
  lemma {:induction false} LastWriteWins(
      names: seq<Region>, active: Region, ops: seq<Op>, key: string, dead: set<Region>, fails: set<Region>)
    requires Strict(ops) && forall j :: 0 <= j < |ops| ==> !ops[j].DelOp?
    ensures var got := Read(After(map[], names, active, ops), names, active, key, dead, fails);
            && (got.None? <==> forall i :: !Reaches(names, ops, i, key, dead, fails))
            && forall i :: Reaches(names, ops, i, key, dead, fails)
                           && (forall j :: Reaches(names, ops, j, key, dead, fails) ==> j <= i)
                 ==> got == Some(ops[i].value)
  {
    var s := After(map[], names, active, ops);
    var got := Read(s, names, active, key, dead, fails);
    forall i | Reaches(names, ops, i, key, dead, fails) ensures got.Some? {
      var r :| Readable(names, dead, fails, r) && Survives(names, ops, i, key, r);
      var last := HoldsLastSurvivor(names, active, ops, key, r);
      FoundIfHeld(names, active, ops, key, dead, fails, r);
    }
    if got.Some? {
      var e, from := NewestRead(s, names, active, key, dead, fails);
      var w := HoldsLastSurvivor(names, active, ops, key, from);
      assert Reaches(names, ops, w, key, dead, fails);
      forall i | Reaches(names, ops, i, key, dead, fails) ensures i <= w {
        var r :| Readable(names, dead, fails, r) && Survives(names, ops, i, key, r);
        var last := HoldsLastSurvivor(names, active, ops, key, r);
        assert Under(At(s, r, key).value, e);
        assert i <= last;
        assert !(w < last);
      }
    }
  }

  lemma {:induction false} FoundIfHeld(
      names: seq<Region>, active: Region, ops: seq<Op>, key: string, dead: set<Region>, fails: set<Region>, r: Region)
    requires forall j :: 0 <= j < |ops| ==> !ops[j].DelOp?
    requires Readable(names, dead, fails, r) && At(After(map[], names, active, ops), r, key).Some?
    ensures Read(After(map[], names, active, ops), names, active, key, dead, fails).Some?
  {
    var s := After(map[], names, active, ops);
    var entries := Seen(s, key, OrderRegionsByPreference(names, active, dead), fails);
    SeenReadable(s, names, active, key, dead, fails, At(s, r, key).value);
    forall i | 0 <= i < |entries| ensures entries[i].SetEntry? {
      SeenReadable(s, names, active, key, dead, fails, entries[i]);
      var x :| Readable(names, dead, fails, x) && At(s, x, key) == Some(entries[i]);
      var w := HoldsLastSurvivor(names, active, ops, key, x);
    }
    MissExactly(entries, None);
  }
}
