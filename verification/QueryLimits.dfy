/**
 * The depth and complexity rules for GraphQL operations. The walk over a selection set follows
 * fragment spreads and keeps the names on the current path in one shared, mutable set.
 */
module QueryLimits {
  /** A field with or without a selection set, a fragment spread, an inline fragment. */
  datatype Selection =
    | Leaf(name: string)
    | Field(name: string, sub: seq<Selection>)
    | Spread(name: string)
    | Inline(selections: seq<Selection>)

  type Fragments = map<string, seq<Selection>>

  function FieldCost(name: string): nat {
    if name in {"students", "courses", "enrollments", "certificates", "modules", "lessons"} then 10
    else if name in {"student", "course", "learningProgress"} then 5
    else 1
  }

  /** The costs: ten for a list, five for a single object, one for anything else. */
  lemma {:induction false} FieldCostExactly(name: string)
    ensures FieldCost(name) == 10 <==>
            name == "students" || name == "courses" || name == "enrollments" || name == "certificates"
            || name == "modules" || name == "lessons"
    ensures FieldCost(name) == 5 <==> name == "student" || name == "course" || name == "learningProgress"
    ensures FieldCost(name) == 10 || FieldCost(name) == 5 || FieldCost(name) == 1
  {
    assert |"students"| == 8 && |"courses"| == 7 && |"enrollments"| == 11 && |"certificates"| == 12;
    assert |"modules"| == 7 && |"lessons"| == 7 && |"student"| == 7 && |"course"| == 6 && |"learningProgress"| == 16;
    assert "student"[0] != "courses"[0] && "student"[0] != "modules"[0] && "student"[0] != "lessons"[0];
  }

  function Max(a: nat, b: nat): nat {
    if a >= b then a else b
  }

  /** Fragments that may still be entered: the termination measure, with the size of the selections. */
  function Left(frs: Fragments, path: set<string>): nat {
    |frs.Keys - path|
  }

  lemma {:induction false} EnterLess(frs: Fragments, path: set<string>, name: string)
    requires name in frs && name !in path
    ensures Left(frs, path + {name}) < Left(frs, path)
  {
    assert frs.Keys - path == (frs.Keys - (path + {name})) + {name};
  }

  // ----- what the walks compute

  function Depth(sels: seq<Selection>, frs: Fragments, path: set<string>): nat
    decreases Left(frs, path), sels, 1
  {
    if sels == [] then 0 else
      Max(Depth(sels[..|sels| - 1], frs, path), DepthOf(sels[|sels| - 1], frs, path))
  }

  function DepthOf(s: Selection, frs: Fragments, path: set<string>): nat
    decreases Left(frs, path), s, 0
  {
    match s
    case Leaf(_) => 1
    case Field(_, sub) => 1 + Depth(sub, frs, path)
    case Inline(sub) => Depth(sub, frs, path)
    case Spread(name) =>
      if name in path || name !in frs then 0 else
        EnterLess(frs, path, name);
        Depth(frs[name], frs, path + {name})
  }

  function Cost(sels: seq<Selection>, frs: Fragments, path: set<string>): nat
    decreases Left(frs, path), sels, 1
  {
    if sels == [] then 0 else
      Cost(sels[..|sels| - 1], frs, path) + CostOf(sels[|sels| - 1], frs, path)
  }

  function CostOf(s: Selection, frs: Fragments, path: set<string>): nat
    decreases Left(frs, path), s, 0
  {
    match s
    case Leaf(name) => FieldCost(name)
    case Field(name, sub) => FieldCost(name) + Cost(sub, frs, path)
    case Inline(sub) => Cost(sub, frs, path)
    case Spread(name) =>
      if name in path || name !in frs then 0 else
        EnterLess(frs, path, name);
        Cost(frs[name], frs, path + {name})
  }

  // ----- the walks

  class PathSet {
    var names: set<string>

    constructor ()
      ensures names == {}
    {
      names := {};
    }
  }

  /** Besides the depth: whatever happens inside, the path set is as it was. */
  method CalculateDepth(sels: seq<Selection>, frs: Fragments, seen: PathSet) returns (maxDepth: nat)
    modifies seen
    ensures maxDepth == Depth(sels, frs, old(seen.names))
    ensures seen.names == old(seen.names)
    decreases Left(frs, seen.names), sels
  {
    ghost var path := seen.names;
    maxDepth := 0;
    for i := 0 to |sels|
      invariant seen.names == path
      invariant maxDepth == Depth(sels[..i], frs, path)
    {
      var selection := sels[i];
      assert sels[..i + 1][..i] == sels[..i];
      var depth := 0;
      match selection {
        case Field(_, sub) =>
          depth := CalculateDepth(sub, frs, seen);
          depth := 1 + depth;
        case Leaf(_) =>
          depth := 1;
        case Spread(name) =>
          if name !in seen.names {
            seen.names := seen.names + {name};
            if name in frs {
              EnterLess(frs, path, name);
              depth := CalculateDepth(frs[name], frs, seen);
            }
            seen.names := seen.names - {name};
          }
        case Inline(sub) =>
          depth := CalculateDepth(sub, frs, seen);
      }
      assert depth == DepthOf(selection, frs, path);
      if depth > maxDepth {
        maxDepth := depth;
      }
    }
    assert sels[..|sels|] == sels;
  }

  method CalculateComplexity(sels: seq<Selection>, frs: Fragments, seen: PathSet) returns (complexity: nat)
    modifies seen
    ensures complexity == Cost(sels, frs, old(seen.names))
    ensures seen.names == old(seen.names)
    decreases Left(frs, seen.names), sels
  {
    ghost var path := seen.names;
    complexity := 0;
    for i := 0 to |sels|
      invariant seen.names == path
      invariant complexity == Cost(sels[..i], frs, path)
    {
      var selection := sels[i];
      assert sels[..i + 1][..i] == sels[..i];
      var c := 0;
      match selection {
        case Leaf(name) =>
          complexity := complexity + FieldCost(name);
        case Field(name, sub) =>
          complexity := complexity + FieldCost(name);
          c := CalculateComplexity(sub, frs, seen);
        case Spread(name) =>
          if name !in seen.names {
            seen.names := seen.names + {name};
            if name in frs {
              EnterLess(frs, path, name);
              c := CalculateComplexity(frs[name], frs, seen);
            }
            seen.names := seen.names - {name};
          }
        case Inline(sub) =>
          c := CalculateComplexity(sub, frs, seen);
      }
      complexity := complexity + c;
    }
    assert sels[..|sels|] == sels;
  }

  // ----- the rules over a document, definition by definition

  datatype Definition = FragmentDefinition(name: string, body: seq<Selection>) | Operation(selections: seq<Selection>)

  /** The fragments recorded once the first n definitions are visited. */
  function Recorded(doc: seq<Definition>, n: nat): Fragments
    requires n <= |doc|
  {
    if n == 0 then map[]
    else match doc[n - 1]
      case FragmentDefinition(name, body) => Recorded(doc, n - 1)[name := body]
      case Operation(_) => Recorded(doc, n - 1)
  }

  /** The measure of each operation, in order, over the fragments recorded before it. */
  function Measured(doc: seq<Definition>, n: nat, depth: bool): seq<nat>
    requires n <= |doc|
  {
    if n == 0 then []
    else match doc[n - 1]
      case FragmentDefinition(_, _) => Measured(doc, n - 1, depth)
      case Operation(sels) =>
        var frs := Recorded(doc, n - 1);
        Measured(doc, n - 1, depth) + [if depth then Depth(sels, frs, {}) else Cost(sels, frs, {})]
  }

  /** The measures that exceed the limit: one error each. */
  function Over(measures: seq<nat>, limit: nat): seq<nat> {
    if measures == [] then []
    else Over(measures[..|measures| - 1], limit) +
         (if measures[|measures| - 1] > limit then [measures[|measures| - 1]] else [])
  }

  lemma {:induction false} OverSnoc(measures: seq<nat>, m: nat, limit: nat)
    ensures Over(measures + [m], limit) == Over(measures, limit) + (if m > limit then [m] else [])
  {
    assert (measures + [m])[..|measures|] == measures;
  }

  // what is recorded and what is reported, definition by definition

  /** The i-th definition is the last one before the n-th that defines this fragment. */
  predicate LastDefines(doc: seq<Definition>, n: nat, i: nat, name: string) {
    && i < n <= |doc| && doc[i].FragmentDefinition? && doc[i].name == name
    && forall j :: i < j < n && doc[j].FragmentDefinition? ==> doc[j].name != name
  }

  /** Exactly the fragments defined so far are recorded, each with its last body. */
  lemma {:induction false} RecordedExactly(doc: seq<Definition>, n: nat, name: string)
    requires n <= |doc|
    ensures name in Recorded(doc, n) <==> exists i: nat :: LastDefines(doc, n, i, name)
    ensures forall i: nat :: LastDefines(doc, n, i, name) ==> Recorded(doc, n)[name] == doc[i].body
  {
    if n > 0 {
      var m := n - 1;
      RecordedExactly(doc, m, name);
      if doc[n - 1].FragmentDefinition? && doc[n - 1].name == name {
        assert LastDefines(doc, n, n - 1, name);
        assert forall i: nat :: LastDefines(doc, n, i, name) ==> i == n - 1;
      } else {
        assert forall i: nat :: LastDefines(doc, n, i, name) <==> LastDefines(doc, m, i, name);
        if i: nat :| LastDefines(doc, m, i, name) {
          assert LastDefines(doc, n, i, name);
        }
      }
    }
  }

  /** What the n-th definition measures over the fragments recorded before it. */
  function MeasureAt(doc: seq<Definition>, n: nat, depth: bool): nat
    requires n < |doc| && doc[n].Operation?
  {
    if depth then Depth(doc[n].selections, Recorded(doc, n), {}) else Cost(doc[n].selections, Recorded(doc, n), {})
  }

  predicate Exceeds(doc: seq<Definition>, n: nat, limit: nat, depth: bool)
    requires n < |doc|
  {
    doc[n].Operation? && MeasureAt(doc, n, depth) > limit
  }

  /** The errors are the measures at these places: in order, all that exceed the limit, and no others. */
  predicate Reports(doc: seq<Definition>, n: nat, errors: seq<nat>, at: seq<nat>, limit: nat, depth: bool)
    requires n <= |doc|
  {
    && |errors| == |at|
    && (forall i, j :: 0 <= i < j < |at| ==> at[i] < at[j])
    && (forall i :: 0 <= i < |at| ==>
          at[i] < n && Exceeds(doc, at[i], limit, depth) && errors[i] == MeasureAt(doc, at[i], depth))
    && (forall k :: 0 <= k < n && Exceeds(doc, k, limit, depth) ==> k in at)
  }

  lemma {:induction false} ReportsNext(
      doc: seq<Definition>, n: nat, errors: seq<nat>, at: seq<nat>, limit: nat, depth: bool)
    requires n < |doc| && Reports(doc, n, errors, at, limit, depth)
    ensures !Exceeds(doc, n, limit, depth) ==> Reports(doc, n + 1, errors, at, limit, depth)
    ensures Exceeds(doc, n, limit, depth) ==>
              Reports(doc, n + 1, errors + [MeasureAt(doc, n, depth)], at + [n], limit, depth)
  {
    if Exceeds(doc, n, limit, depth) {
      var at' := at + [n];
      assert at'[|at|] == n;
      forall k | 0 <= k < n + 1 && Exceeds(doc, k, limit, depth) ensures k in at' {
        if k < n {
          assert k in at;
        }
      }
    }
  }

  lemma {:induction false} MeasuredNext(doc: seq<Definition>, n: nat, limit: nat, depth: bool)
    requires n < |doc|
    ensures Over(Measured(doc, n + 1, depth), limit) ==
            Over(Measured(doc, n, depth), limit)
            + (if Exceeds(doc, n, limit, depth) then [MeasureAt(doc, n, depth)] else [])
  {
    if doc[n].Operation? {
      OverSnoc(Measured(doc, n, depth), MeasureAt(doc, n, depth), limit);
    }
  }

  lemma {:induction false} ReportedExactly(doc: seq<Definition>, n: nat, limit: nat, depth: bool) returns (at: seq<nat>)
    requires n <= |doc|
    ensures Reports(doc, n, Over(Measured(doc, n, depth), limit), at, limit, depth)
  {
    if n == 0 {
      at := [];
    } else {
      var m := n - 1;
      var before := Over(Measured(doc, m, depth), limit);
      at := ReportedExactly(doc, m, limit, depth);
      MeasuredNext(doc, m, limit, depth);
      ReportsNext(doc, m, before, at, limit, depth);
      if Exceeds(doc, m, limit, depth) {
        at := at + [m];
      } else {
        assert before + [] == before;
      }
    }
  }

  method DepthLimitRule(doc: seq<Definition>, maxDepth: nat) returns (errors: seq<nat>)
    ensures errors == Over(Measured(doc, |doc|, true), maxDepth)
    ensures exists at: seq<nat> :: Reports(doc, |doc|, errors, at, maxDepth, true)
  {
    var fragments: Fragments := map[];
    errors := [];
    for n := 0 to |doc|
      invariant fragments == Recorded(doc, n)
      invariant errors == Over(Measured(doc, n, true), maxDepth)
    {
      match doc[n] {
        case FragmentDefinition(name, body) =>
          fragments := fragments[name := body];
        case Operation(sels) =>
          var seen := new PathSet();
          var depth := CalculateDepth(sels, fragments, seen);
          OverSnoc(Measured(doc, n, true), depth, maxDepth);
          if depth > maxDepth {
            errors := errors + [depth];
          }
      }
    }
    ghost var at := ReportedExactly(doc, |doc|, maxDepth, true);
  }

  method ComplexityLimitRule(doc: seq<Definition>, maxComplexity: nat) returns (errors: seq<nat>)
    ensures errors == Over(Measured(doc, |doc|, false), maxComplexity)
    ensures exists at: seq<nat> :: Reports(doc, |doc|, errors, at, maxComplexity, false)
  {
    var fragments: Fragments := map[];
    errors := [];
    for n := 0 to |doc|
      invariant fragments == Recorded(doc, n)
      invariant errors == Over(Measured(doc, n, false), maxComplexity)
    {
      match doc[n] {
        case FragmentDefinition(name, body) =>
          fragments := fragments[name := body];
        case Operation(sels) =>
          var seen := new PathSet();
          var total := CalculateComplexity(sels, fragments, seen);
          OverSnoc(Measured(doc, n, false), total, maxComplexity);
          if total > maxComplexity {
            errors := errors + [total];
          }
      }
    }
    ghost var at := ReportedExactly(doc, |doc|, maxComplexity, false);
  }

  // ----- the fully inlined query

  /** Every spread in here of a known fragment names one of rank below r. */
  predicate Ranked(sels: seq<Selection>, frs: Fragments, rank: map<string, nat>, r: nat)
    decreases sels
  {
    forall i :: 0 <= i < |sels| ==> RankedOne(sels[i], frs, rank, r)
  }

  predicate RankedOne(s: Selection, frs: Fragments, rank: map<string, nat>, r: nat)
    decreases s
  {
    match s
    case Leaf(_) => true
    case Field(_, sub) => Ranked(sub, frs, rank, r)
    case Inline(sub) => Ranked(sub, frs, rank, r)
    case Spread(name) => name in frs ==> name in rank && rank[name] < r
  }

  /** The fragments are acyclic: ranks fall along every spread. */
  predicate Acyclic(frs: Fragments, rank: map<string, nat>) {
    frs.Keys <= rank.Keys && forall name :: name in frs ==> Ranked(frs[name], frs, rank, rank[name])
  }

  /** Each spread replaced by the inlined body of its fragment; an unknown one by nothing. */
  function Inlined(sels: seq<Selection>, frs: Fragments, rank: map<string, nat>, r: nat): seq<Selection>
    requires Acyclic(frs, rank) && Ranked(sels, frs, rank, r)
    decreases r, sels, 1
  {
    if sels == [] then [] else
      Inlined(sels[..|sels| - 1], frs, rank, r) + [InlinedOne(sels[|sels| - 1], frs, rank, r)]
  }

  function InlinedOne(s: Selection, frs: Fragments, rank: map<string, nat>, r: nat): Selection
    requires Acyclic(frs, rank) && RankedOne(s, frs, rank, r)
    decreases r, s, 0
  {
    match s
    case Leaf(_) => s
    case Field(name, sub) => Field(name, Inlined(sub, frs, rank, r))
    case Inline(sub) => Inline(Inlined(sub, frs, rank, r))
    case Spread(name) => Inline(if name in frs then Inlined(frs[name], frs, rank, rank[name]) else [])
  }

  /** Depth and cost of a query without spreads. */
  function TreeDepth(sels: seq<Selection>): nat
    decreases sels, 1
  {
    if sels == [] then 0 else Max(TreeDepth(sels[..|sels| - 1]), TreeDepthOf(sels[|sels| - 1]))
  }

  function TreeDepthOf(s: Selection): nat
    decreases s, 0
  {
    match s
    case Leaf(_) => 1
    case Field(_, sub) => 1 + TreeDepth(sub)
    case Inline(sub) => TreeDepth(sub)
    case Spread(_) => 0
  }

  function TreeCost(sels: seq<Selection>): nat
    decreases sels, 1
  {
    if sels == [] then 0 else TreeCost(sels[..|sels| - 1]) + TreeCostOf(sels[|sels| - 1])
  }

  function TreeCostOf(s: Selection): nat
    decreases s, 0
  {
    match s
    case Leaf(name) => FieldCost(name)
    case Field(name, sub) => FieldCost(name) + TreeCost(sub)
    case Inline(sub) => TreeCost(sub)
    case Spread(_) => 0
  }

  /** No name on the path can be met again from here. */
  predicate Above(path: set<string>, frs: Fragments, rank: map<string, nat>, r: nat) {
    forall name :: name in path && name in frs ==> name in rank && rank[name] >= r
  }

  lemma {:induction false} InlinedWalk(
      sels: seq<Selection>, frs: Fragments, rank: map<string, nat>, r: nat, path: set<string>)
    requires Acyclic(frs, rank) && Ranked(sels, frs, rank, r) && Above(path, frs, rank, r)
    ensures Depth(sels, frs, path) == TreeDepth(Inlined(sels, frs, rank, r))
    ensures Cost(sels, frs, path) == TreeCost(Inlined(sels, frs, rank, r))
    decreases r, sels, 1
  {
    if sels != [] {
      var n := |sels| - 1;
      InlinedWalk(sels[..n], frs, rank, r, path);
      InlinedWalkOne(sels[n], frs, rank, r, path);
      var t := Inlined(sels, frs, rank, r);
      assert t[..|t| - 1] == Inlined(sels[..n], frs, rank, r);
    }
  }

  lemma {:induction false} InlinedWalkOne(
      s: Selection, frs: Fragments, rank: map<string, nat>, r: nat, path: set<string>)
    requires Acyclic(frs, rank) && RankedOne(s, frs, rank, r) && Above(path, frs, rank, r)
    ensures DepthOf(s, frs, path) == TreeDepthOf(InlinedOne(s, frs, rank, r))
    ensures CostOf(s, frs, path) == TreeCostOf(InlinedOne(s, frs, rank, r))
    decreases r, s, 0
  {
    match s
    case Leaf(_) =>
    case Field(_, sub) => InlinedWalk(sub, frs, rank, r, path);
    case Inline(sub) => InlinedWalk(sub, frs, rank, r, path);
    case Spread(name) =>
      if name in frs {
        InlinedWalk(frs[name], frs, rank, rank[name], path + {name});
      }
  }

  /** For acyclic fragments both rules measure the fully inlined operation. */
  lemma {:induction false} WalksMeasureInlinedQuery(
      sels: seq<Selection>, frs: Fragments, rank: map<string, nat>, r: nat)
    requires Acyclic(frs, rank) && Ranked(sels, frs, rank, r)
    ensures Depth(sels, frs, {}) == TreeDepth(Inlined(sels, frs, rank, r))
    ensures Cost(sels, frs, {}) == TreeCost(Inlined(sels, frs, rank, r))
  {
    InlinedWalk(sels, frs, rank, r, {});
  }

  // ----- any fragments, cyclic ones included

  lemma {:induction false} DepthAtMostCost(sels: seq<Selection>, frs: Fragments, path: set<string>)
    ensures Depth(sels, frs, path) <= Cost(sels, frs, path)
    decreases Left(frs, path), sels, 1
  {
    if sels != [] {
      DepthAtMostCost(sels[..|sels| - 1], frs, path);
      DepthAtMostCostOne(sels[|sels| - 1], frs, path);
    }
  }

  lemma {:induction false} DepthAtMostCostOne(s: Selection, frs: Fragments, path: set<string>)
    ensures DepthOf(s, frs, path) <= CostOf(s, frs, path)
    decreases Left(frs, path), s, 0
  {
    match s
    case Leaf(_) =>
    case Field(_, sub) => DepthAtMostCost(sub, frs, path);
    case Inline(sub) => DepthAtMostCost(sub, frs, path);
    case Spread(name) =>
      if name !in path && name in frs {
        EnterLess(frs, path, name);
        DepthAtMostCost(frs[name], frs, path + {name});
      }
  }

  predicate Extends(all: Fragments, some: Fragments) {
    forall name :: name in some ==> name in all && all[name] == some[name]
  }

  /** With fewer fragments recorded neither measure is larger. */
  lemma {:induction false} FewerFragmentsMeasureLess(
      sels: seq<Selection>, frs: Fragments, all: Fragments, path: set<string>)
    requires Extends(all, frs)
    ensures Depth(sels, frs, path) <= Depth(sels, all, path)
    ensures Cost(sels, frs, path) <= Cost(sels, all, path)
    decreases Left(all, path), sels, 1
  {
    if sels != [] {
      FewerFragmentsMeasureLess(sels[..|sels| - 1], frs, all, path);
      FewerMeasureLessOne(sels[|sels| - 1], frs, all, path);
    }
  }

  lemma {:induction false} FewerMeasureLessOne(s: Selection, frs: Fragments, all: Fragments, path: set<string>)
    requires Extends(all, frs)
    ensures DepthOf(s, frs, path) <= DepthOf(s, all, path)
    ensures CostOf(s, frs, path) <= CostOf(s, all, path)
    decreases Left(all, path), s, 0
  {
    match s
    case Leaf(_) =>
    case Field(_, sub) => FewerFragmentsMeasureLess(sub, frs, all, path);
    case Inline(sub) => FewerFragmentsMeasureLess(sub, frs, all, path);
    case Spread(name) =>
      if name !in path && name in frs {
        EnterLess(all, path, name);
        FewerFragmentsMeasureLess(frs[name], frs, all, path + {name});
      }
  }

  // ----- fragments the table lacks

  /**
   * A spread met on the walk names a fragment that only the larger table has, and that fragment's
   * own walk over the larger table costs something.
   */
  predicate Misses(sels: seq<Selection>, some: Fragments, all: Fragments, path: set<string>)
    decreases Left(all, path), sels, 1
  {
    sels != [] &&
    (Misses(sels[..|sels| - 1], some, all, path) || MissesOne(sels[|sels| - 1], some, all, path))
  }

  predicate MissesOne(s: Selection, some: Fragments, all: Fragments, path: set<string>)
    decreases Left(all, path), s, 0
  {
    match s
    case Leaf(_) => false
    case Field(_, sub) => Misses(sub, some, all, path)
    case Inline(sub) => Misses(sub, some, all, path)
    case Spread(name) =>
      if name in path || name !in all then false else
        EnterLess(all, path, name);
        if name in some then Misses(all[name], some, all, path + {name})
        else Cost(all[name], all, path + {name}) > 0
  }

  /** The cost is that over the larger table exactly if no such spread is met. */
  lemma {:induction false} CostUnlessMissed(sels: seq<Selection>, some: Fragments, all: Fragments, path: set<string>)
    requires Extends(all, some)
    ensures Cost(sels, some, path) == Cost(sels, all, path) <==> !Misses(sels, some, all, path)
    decreases Left(all, path), sels, 1
  {
    if sels != [] {
      var init, last := sels[..|sels| - 1], sels[|sels| - 1];
      FewerFragmentsMeasureLess(init, some, all, path);
      FewerMeasureLessOne(last, some, all, path);
      CostUnlessMissed(init, some, all, path);
      CostUnlessMissedOne(last, some, all, path);
    }
  }

  lemma {:induction false} CostUnlessMissedOne(s: Selection, some: Fragments, all: Fragments, path: set<string>)
    requires Extends(all, some)
    ensures CostOf(s, some, path) == CostOf(s, all, path) <==> !MissesOne(s, some, all, path)
    decreases Left(all, path), s, 0
  {
    match s
    case Leaf(_) =>
    case Field(_, sub) => CostUnlessMissed(sub, some, all, path);
    case Inline(sub) => CostUnlessMissed(sub, some, all, path);
    case Spread(name) =>
      if name !in path && name in some {
        EnterLess(all, path, name);
        CostUnlessMissed(all[name], some, all, path + {name});
      }
  }

  /** A missed spread that leads more than k levels below the selections the walk starts from. */
  predicate MissesBelow(sels: seq<Selection>, some: Fragments, all: Fragments, path: set<string>, k: int)
    decreases Left(all, path), sels, 1
  {
    sels != [] &&
    (MissesBelow(sels[..|sels| - 1], some, all, path, k) || MissesBelowOne(sels[|sels| - 1], some, all, path, k))
  }

  predicate MissesBelowOne(s: Selection, some: Fragments, all: Fragments, path: set<string>, k: int)
    decreases Left(all, path), s, 0
  {
    match s
    case Leaf(_) => false
    case Field(_, sub) => MissesBelow(sub, some, all, path, k - 1)
    case Inline(sub) => MissesBelow(sub, some, all, path, k)
    case Spread(name) =>
      if name in path || name !in all then false else
        EnterLess(all, path, name);
        if name in some then MissesBelow(all[name], some, all, path + {name}, k)
        else Depth(all[name], all, path + {name}) > k
  }

  /**
   * Where the smaller table gives a depth within k, the larger gives one beyond it exactly if a
   * missed spread leads there.
   */
  lemma {:induction false} DepthUnlessMissed(
      sels: seq<Selection>, some: Fragments, all: Fragments, path: set<string>, k: int)
    requires Extends(all, some) && Depth(sels, some, path) <= k
    ensures Depth(sels, all, path) > k <==> MissesBelow(sels, some, all, path, k)
    decreases Left(all, path), sels, 1
  {
    if sels != [] {
      DepthUnlessMissed(sels[..|sels| - 1], some, all, path, k);
      DepthUnlessMissedOne(sels[|sels| - 1], some, all, path, k);
    }
  }

  lemma {:induction false} DepthUnlessMissedOne(
      s: Selection, some: Fragments, all: Fragments, path: set<string>, k: int)
    requires Extends(all, some) && DepthOf(s, some, path) <= k
    ensures DepthOf(s, all, path) > k <==> MissesBelowOne(s, some, all, path, k)
    decreases Left(all, path), s, 0
  {
    match s
    case Leaf(_) =>
    case Field(_, sub) => DepthUnlessMissed(sub, some, all, path, k - 1);
    case Inline(sub) => DepthUnlessMissed(sub, some, all, path, k);
    case Spread(name) =>
      if name !in path && name in some {
        EnterLess(all, path, name);
        DepthUnlessMissed(all[name], some, all, path + {name}, k);
      }
  }

  // ----- fragments defined after the operation

  predicate DistinctFragments(doc: seq<Definition>) {
    forall i, j :: 0 <= i < j < |doc| && doc[i].FragmentDefinition? && doc[j].FragmentDefinition? ==>
                     doc[i].name != doc[j].name
  }

  lemma {:induction false} RecordedName(doc: seq<Definition>, n: nat, name: string)
    requires n <= |doc| && name in Recorded(doc, n)
    ensures exists i :: 0 <= i < n && doc[i].FragmentDefinition? && doc[i].name == name
  {
    if !(doc[n - 1].FragmentDefinition? && doc[n - 1].name == name) {
      RecordedName(doc, n - 1, name);
    }
  }

  lemma {:induction false} RecordedGrows(doc: seq<Definition>, n: nat, m: nat)
    requires DistinctFragments(doc) && n <= m <= |doc|
    ensures Extends(Recorded(doc, m), Recorded(doc, n))
    decreases m
  {
    if n < m {
      RecordedGrows(doc, n, m - 1);
      if doc[m - 1].FragmentDefinition? && doc[m - 1].name in Recorded(doc, m - 1) {
        RecordedName(doc, m - 1, doc[m - 1].name);
      }
    }
  }

  /** An operation is never measured higher than it is over all fragments of its document ... */
  lemma {:induction false} EarlyOperationMeasuresLess(doc: seq<Definition>, n: nat)
    requires DistinctFragments(doc) && n < |doc| && doc[n].Operation?
    ensures var sels := doc[n].selections;
            && Depth(sels, Recorded(doc, n), {}) <= Depth(sels, Recorded(doc, |doc|), {})
            && Cost(sels, Recorded(doc, n), {}) <= Cost(sels, Recorded(doc, |doc|), {})
  {
    RecordedGrows(doc, n, |doc|);
    FewerFragmentsMeasureLess(doc[n].selections, Recorded(doc, n), Recorded(doc, |doc|), {});
  }

  /**
   * ... and the rules see an operation as it is over all fragments of the document under exactly
   * these conditions on the fragments still to come: its cost, if none of them is missed at a cost;
   * its depth, if none is missed below the depth that was measured.
   */
  lemma {:induction false} MeasuredInFullExactly(doc: seq<Definition>, n: nat)
    requires DistinctFragments(doc) && n < |doc| && doc[n].Operation?
    ensures var (sels, some, all) := (doc[n].selections, Recorded(doc, n), Recorded(doc, |doc|));
            && (Cost(sels, some, {}) == Cost(sels, all, {}) <==> !Misses(sels, some, all, {}))
            && (Depth(sels, some, {}) == Depth(sels, all, {})
                <==> !MissesBelow(sels, some, all, {}, Depth(sels, some, {})))
  {
    var (sels, some, all) := (doc[n].selections, Recorded(doc, n), Recorded(doc, |doc|));
    RecordedGrows(doc, n, |doc|);
    CostUnlessMissed(sels, some, all, {});
    DepthUnlessMissed(sels, some, all, {}, Depth(sels, some, {}));
    EarlyOperationMeasuresLess(doc, n);
  }

  /**
   * An operation that the depth rule lets pass is too deep over all fragments exactly if a missed
   * spread leads below the limit.
   */
  lemma {:induction false} PassesTooDeepExactly(doc: seq<Definition>, n: nat, maxDepth: nat)
    requires DistinctFragments(doc) && n < |doc| && doc[n].Operation?
    requires Depth(doc[n].selections, Recorded(doc, n), {}) <= maxDepth
    ensures Depth(doc[n].selections, Recorded(doc, |doc|), {}) > maxDepth <==>
            MissesBelow(doc[n].selections, Recorded(doc, n), Recorded(doc, |doc|), {}, maxDepth)
  {
    RecordedGrows(doc, n, |doc|);
    DepthUnlessMissed(doc[n].selections, Recorded(doc, n), Recorded(doc, |doc|), {}, maxDepth);
  }

  // ----- the shortest document that escapes

  function Late(body: seq<Selection>): seq<Definition> {
    [Operation([Spread("F")]), FragmentDefinition("F", body)]
  }

  lemma {:induction false} OneSpread(frs: Fragments)
    ensures Depth([Spread("F")], frs, {}) == if "F" in frs then Depth(frs["F"], frs, {"F"}) else 0
    ensures Cost([Spread("F")], frs, {}) == if "F" in frs then Cost(frs["F"], frs, {"F"}) else 0
  {
    assert [Spread("F")][..0] == [];
    assert {} + {"F"} == {"F"};
    assert Depth([], frs, {}) == 0 && Cost([], frs, {}) == 0;
    assert Depth([Spread("F")], frs, {}) == Max(0, DepthOf(Spread("F"), frs, {}));
    assert Cost([Spread("F")], frs, {}) == CostOf(Spread("F"), frs, {});
  }

  lemma {:induction false} LateMeasured(body: seq<Selection>, depth: bool)
    ensures Measured(Late(body), 2, depth) == [0] && Recorded(Late(body), 0) == map[]
    ensures Recorded(Late(body), 2) == map["F" := body]
  {
    var doc, none: Fragments := Late(body), map[];
    OneSpread(none);
    assert Recorded(doc, 0) == none && Recorded(doc, 1) == none;
    assert Measured(doc, 0, depth) == [];
    assert Measured(doc, 1, depth) == [0];
  }

  /** Written before its only fragment an operation measures zero, whatever the fragment holds: no limit reports it. */
  lemma {:induction false} LateFragmentIsNotSeen(body: seq<Selection>, limit: nat)
    ensures Over(Measured(Late(body), 2, true), limit) == [] && Over(Measured(Late(body), 2, false), limit) == []
    ensures var all := Recorded(Late(body), 2);
            && Depth([Spread("F")], all, {}) == Depth(body, map["F" := body], {"F"})
            && Cost([Spread("F")], all, {}) == Cost(body, map["F" := body], {"F"})
  {
    LateMeasured(body, true);
    LateMeasured(body, false);
    OneSpread(map["F" := body]);
    assert [0][..0] == [];
    assert Over([], limit) == [] && Over([0], limit) == [];
  }

  /** At one input: a list of students costs 10 and is one level deep, and limits of 5 and 0 report nothing. */
  lemma {:induction false} LateStudentsEscape()
    ensures var doc := Late([Leaf("students")]);
            && Over(Measured(doc, 2, false), 5) == [] && Over(Measured(doc, 2, true), 0) == []
            && Cost([Spread("F")], Recorded(doc, 2), {}) > 5 && Depth([Spread("F")], Recorded(doc, 2), {}) > 0
  {
    var body := [Leaf("students")];
    LateFragmentIsNotSeen(body, 5);
    LateFragmentIsNotSeen(body, 0);
    assert body[..0] == [];
    var frs: Fragments := map["F" := body];
    assert CostOf(Leaf("students"), frs, {"F"}) == 10 && DepthOf(Leaf("students"), frs, {"F"}) == 1;
    assert Cost([], frs, {"F"}) == 0 && Depth([], frs, {"F"}) == 0;
  }
}
