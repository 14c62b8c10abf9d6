/**
 * The cyclic-substitution check the resolver runs before it looks a substitution up
 * (HoconParser.IsValueCyclic). A field refers to the fields of the objects in its value, to
 * what the arrays in its value refer to, and to the field each of its substitutions names in
 * the root object. The check is meant to report whether the field being resolved can reach
 * itself along such references.
 *
 * Both models read the document through its reference graph: each field's current value
 * (HoconField.Value), each object's fields (HoconObject.Values) and the field each
 * substitution's path names (TryGetField on the root object). These are pure lookups, so
 * reading them up front changes nothing. Two checks run over it: the traversal as written
 * (a recursive walk with a visited list that only object members enter and a substitution
 * stack that every level shares), as fuel-bounded functions, and the corrected check, a
 * worklist method proved to decide reachability.
 */
module Cycles {
  import opened Wrappers
  import opened Paths
  import opened Document

  // ---------------------------------------------------------------------------------------
  // The reference graph.

  datatype RefGraph = RefGraph(views: seq<Value>, members: seq<seq<nat>>, targets: seq<Option<nat>>)

  function MemberFields(ms: seq<Member>): (fs: seq<nat>)
    ensures |fs| == |ms| && forall k | 0 <= k < |ms| :: fs[k] == ms[k].field
  {
    seq(|ms|, k requires 0 <= k < |ms| => ms[k].field)
  }

  /** The graph of a document whose root value is `root`. */
  function GraphOf(d: Doc, root: Value): (g: RefGraph)
    ensures |g.views| == |d.fields| && |g.members| == |d.objects| && |g.targets| == |d.subs|
    ensures forall f | 0 <= f < |d.fields| :: g.views[f] == FieldView(d, f)
    ensures forall o | 0 <= o < |d.objects| :: g.members[o] == MemberFields(d.objects[o])
    ensures forall s | 0 <= s < |d.subs| :: g.targets[s] == LookupField(d, root, d.subs[s].path)
  {
    RefGraph(seq(|d.fields|, f requires 0 <= f < |d.fields| => FieldView(d, f)),
             seq(|d.objects|, o requires 0 <= o < |d.objects| => MemberFields(d.objects[o])),
             seq(|d.subs|, s requires 0 <= s < |d.subs| => LookupField(d, root, d.subs[s].path)))
  }

  function View(g: RefGraph, f: nat): Value {
    if f < |g.views| then g.views[f] else NoValue
  }

  function Members(g: RefGraph, o: nat): seq<nat> {
    if o < |g.members| then g.members[o] else []
  }

  function Target(g: RefGraph, s: nat): Option<nat> {
    if s < |g.targets| then g.targets[s] else None
  }

  predicate RefersTo(g: RefGraph, v: Value, h: nat)
    decreases v
  {
    exists j | 0 <= j < |v.ops| :: ElemRefersTo(g, v.ops[j], h)
  }

  predicate ElemRefersTo(g: RefGraph, e: Element, h: nat)
    decreases e
  {
    match e
    case ObjectRef(o) => h in Members(g, o)
    case Array(items) => exists k | 0 <= k < |items| :: RefersTo(g, items[k], h)
    case SubRef(s) => Target(g, s) == Some(h)
    case _ => false
  }

  /** Field f's current value refers to field h. */
  predicate Edge(g: RefGraph, f: nat, h: nat) {
    h < |g.views| && RefersTo(g, View(g, f), h)
  }

  function Succs(g: RefGraph, f: nat): (s: set<nat>)
    ensures forall h :: h in s <==> Edge(g, f, h)
  {
    set h | 0 <= h < |g.views| && Edge(g, f, h)
  }

  ghost predicate Walk(g: RefGraph, p: seq<nat>) {
    |p| >= 2 && forall i | 0 <= i < |p| - 1 :: Edge(g, p[i], p[i + 1])
  }

  /** h can be reached from f along at least one reference. */
  ghost predicate Reaches(g: RefGraph, f: nat, h: nat) {
    exists p :: Walk(g, p) && p[0] == f && p[|p| - 1] == h
  }

  ghost predicate ReachesItself(g: RefGraph, f: nat) {
    Reaches(g, f, f)
  }

  lemma ReachesByEdge(g: RefGraph, f: nat, h: nat)
    requires Edge(g, f, h)
    ensures Reaches(g, f, h)
  {
    assert Walk(g, [f, h]);
  }

  lemma ReachesExtend(g: RefGraph, f: nat, x: nat, y: nat)
    requires Reaches(g, f, x) && Edge(g, x, y)
    ensures Reaches(g, f, y)
  {
    var p :| Walk(g, p) && p[0] == f && p[|p| - 1] == x;
    var q := p + [y];
    forall i | 0 <= i < |q| - 1 ensures Edge(g, q[i], q[i + 1]) {
      if i < |p| - 1 {
        assert q[i] == p[i] && q[i + 1] == p[i + 1];
      } else {
        assert q[i] == x && q[i + 1] == y;
      }
    }
    assert Walk(g, q);
  }

  /** A set that holds f's successors and is closed under successors holds every field on a walk from f. */
  lemma {:induction false} ClosedSetHoldsWalk(g: RefGraph, f: nat, s: set<nat>, p: seq<nat>, n: nat)
    requires Succs(g, f) <= s
    requires forall x | x in s :: Succs(g, x) <= s
    requires Walk(g, p) && p[0] == f && 1 <= n < |p|
    ensures p[n] in s
  {
    assert Edge(g, p[0], p[1]);
    if n > 1 {
      ClosedSetHoldsWalk(g, f, s, p, n - 1);
      assert Edge(g, p[n - 1], p[n]);
    }
  }

  lemma ClosedSetHoldsAllReach(g: RefGraph, f: nat, s: set<nat>)
    requires Succs(g, f) <= s
    requires forall x | x in s :: Succs(g, x) <= s
    ensures forall h | Reaches(g, f, h) :: h in s
  {
    forall h | Reaches(g, f, h) ensures h in s {
      var p :| Walk(g, p) && p[0] == f && p[|p| - 1] == h;
      ClosedSetHoldsWalk(g, f, s, p, |p| - 1);
    }
  }

  // ---------------------------------------------------------------------------------------
  // The corrected check.

  /**
   * IsValueCyclic, corrected: a worklist search from the field's successors that reports a
   * cycle exactly when the field reaches itself, and always terminates.
   */
  method IsValueCyclic(d: Doc, root: Value, f: nat) returns (cyclic: bool)
    ensures cyclic <==> ReachesItself(GraphOf(d, root), f)
  {
    var g := GraphOf(d, root);
    var reached: set<nat> := {};
    var frontier: set<nat> := Succs(g, f);
    forall h | h in frontier ensures Reaches(g, f, h) {
      ReachesByEdge(g, f, h);
    }
    while frontier != {}
      invariant reached !! frontier
      invariant f !in reached
      invariant forall h | h in reached :: h < |g.views| && Reaches(g, f, h)
      invariant forall h | h in frontier :: h < |g.views| && Reaches(g, f, h)
      invariant Succs(g, f) <= reached + frontier
      invariant forall h | h in reached :: Succs(g, h) <= reached + frontier
      decreases set h | 0 <= h < |g.views| && h !in reached
    {
      var x :| x in frontier;
      if x == f {
        return true;
      }
      forall y | y in Succs(g, x) ensures Reaches(g, f, y) {
        ReachesExtend(g, f, x, y);
      }
      ghost var before := set h | 0 <= h < |g.views| && h !in reached;
      frontier := (frontier - {x}) + (Succs(g, x) - reached - {x});
      reached := reached + {x};
      assert x in before && x !in set h | 0 <= h < |g.views| && h !in reached;
    }
    ClosedSetHoldsAllReach(g, f, reached);
    return false;
  }

  // ---------------------------------------------------------------------------------------
  // The traversal as written. `visited` is the visitedFields list, `pending` the shared
  // stack of substitutions (its top is the last element). A result of None means the fuel
  // ran out: the C# recursion would go deeper than the fuel allows.

  datatype CycState = CycState(visited: seq<nat>, pending: seq<nat>)

  /** The `foreach` over the value's operands from operand i on, then the `while` over the stack. */
  function CycElems(g: RefGraph, es: seq<Element>, i: nat, st: CycState, fuel: nat): (r: Option<(bool, CycState)>)
    requires i <= |es|
    ensures r.Some? && !r.value.0 ==> r.value.1.pending == []
    ensures r.Some? ==> |st.visited| <= |r.value.1.visited| && r.value.1.visited[..|st.visited|] == st.visited
    decreases fuel, 2, |es| - i
  {
    if i == |es| then CycPending(g, st, fuel)
    else match es[i]
      case ObjectRef(o) =>
        (match CycMembers(g, Members(g, o), 0, st, fuel)
         case None => None
         case Some((found, st1)) => if found then Some((true, st1)) else CycElems(g, es, i + 1, st1, fuel))
      case Array(items) =>
        (match CycItems(g, items, 0, st, fuel)
         case None => None
         case Some((found, st1)) => if found then Some((true, st1)) else CycElems(g, es, i + 1, st1, fuel))
      case SubRef(s) => CycElems(g, es, i + 1, st.(pending := st.pending + [s]), fuel)
      case _ => CycElems(g, es, i + 1, st, fuel)
  }

  /** The loop over an object's fields: a field seen before is reported as a cycle. */
  function CycMembers(g: RefGraph, fs: seq<nat>, j: nat, st: CycState, fuel: nat): (r: Option<(bool, CycState)>)
    requires j <= |fs|
    ensures r.Some? ==> |st.visited| <= |r.value.1.visited| && r.value.1.visited[..|st.visited|] == st.visited
    decreases fuel, 1, |fs| - j
  {
    if j == |fs| then Some((false, st))
    else
      var f := fs[j];
      if f in st.visited then Some((true, st))
      else if fuel == 0 then None
      else match CycElems(g, View(g, f).ops, 0, st.(visited := st.visited + [f]), fuel - 1)
        case None => None
        case Some((found, st1)) => if found then Some((true, st1)) else CycMembers(g, fs, j + 1, st1, fuel)
  }

  /** The loop over an array's items. */
  function CycItems(g: RefGraph, items: seq<Value>, j: nat, st: CycState, fuel: nat): (r: Option<(bool, CycState)>)
    requires j <= |items|
    ensures r.Some? ==> |st.visited| <= |r.value.1.visited| && r.value.1.visited[..|st.visited|] == st.visited
    decreases fuel, 1, |items| - j
  {
    if j == |items| then Some((false, st))
    else if fuel == 0 then None
    else match CycElems(g, items[j].ops, 0, st, fuel - 1)
      case None => None
      case Some((found, st1)) => if found then Some((true, st1)) else CycItems(g, items, j + 1, st1, fuel)
  }

  /**
   * The `while (pendingSubs.Count > 0)` loop: pop a substitution, look its field up in the
   * root object, report a cycle if that field was visited, otherwise walk its value. Fields
   * reached this way are never added to the visited list.
   */
  function CycPending(g: RefGraph, st: CycState, fuel: nat): (r: Option<(bool, CycState)>)
    ensures r.Some? && !r.value.0 ==> r.value.1.pending == []
    ensures r.Some? ==> |st.visited| <= |r.value.1.visited| && r.value.1.visited[..|st.visited|] == st.visited
    decreases fuel, 0, |st.pending|
  {
    if |st.pending| == 0 then Some((false, st))
    else
      var st1 := st.(pending := st.pending[..|st.pending| - 1]);
      match Target(g, st.pending[|st.pending| - 1])
      case None => CycPending(g, st1, fuel)
      case Some(f) =>
        if f in st1.visited then Some((true, st1))
        else if fuel == 0 then None
        else match CycElems(g, View(g, f).ops, 0, st1, fuel - 1)
          case None => None
          case Some((found, st2)) => if found then Some((true, st2)) else CycPending(g, st2, fuel)
  }

  /** `IsValueCyclic(subField.Value, [subField], new Stack())` as written, within the given fuel. */
  function IsValueCyclicAsWritten(g: RefGraph, f: nat, fuel: nat): (r: Option<bool>)
    ensures |View(g, f).ops| == 0 ==> r == Some(false)
  {
    assert CycPending(g, CycState([f], []), fuel) == Some((false, CycState([f], [])));
    match CycElems(g, View(g, f).ops, 0, CycState([f], []), fuel)
    case None => None
    case Some((found, _)) => Some(found)
  }

  // ---------------------------------------------------------------------------------------
  // One step of the traversal as written, for the traces below.

  lemma ElemsEnd(g: RefGraph, es: seq<Element>, st: CycState, fuel: nat)
    ensures CycElems(g, es, |es|, st, fuel) == CycPending(g, st, fuel)
  {
  }

  lemma ElemsPush(g: RefGraph, es: seq<Element>, i: nat, st: CycState, fuel: nat)
    requires i < |es| && es[i].SubRef?
    ensures CycElems(g, es, i, st, fuel) == CycElems(g, es, i + 1, st.(pending := st.pending + [es[i].sub]), fuel)
  {
  }

  lemma ElemsSkip(g: RefGraph, es: seq<Element>, i: nat, st: CycState, fuel: nat)
    requires i < |es| && es[i].Literal?
    ensures CycElems(g, es, i, st, fuel) == CycElems(g, es, i + 1, st, fuel)
  {
  }

  lemma ElemsObjectFound(g: RefGraph, es: seq<Element>, i: nat, st: CycState, fuel: nat, out: CycState)
    requires i < |es| && es[i].ObjectRef?
    requires CycMembers(g, Members(g, es[i].obj), 0, st, fuel) == Some((true, out))
    ensures CycElems(g, es, i, st, fuel) == Some((true, out))
  {
  }

  lemma MembersSeen(g: RefGraph, fs: seq<nat>, j: nat, st: CycState, fuel: nat)
    requires j < |fs| && fs[j] in st.visited
    ensures CycMembers(g, fs, j, st, fuel) == Some((true, st))
  {
  }

  lemma MembersVisitFound(g: RefGraph, fs: seq<nat>, j: nat, st: CycState, k: nat, out: CycState)
    requires j < |fs| && fs[j] !in st.visited
    requires CycElems(g, View(g, fs[j]).ops, 0, st.(visited := st.visited + [fs[j]]), k) == Some((true, out))
    ensures CycMembers(g, fs, j, st, k + 1) == Some((true, out))
  {
  }

  /** Popping a substitution whose field has not been visited walks that field's value one level down. */
  lemma PendingPop(g: RefGraph, st: CycState, f: nat, k: nat)
    requires |st.pending| > 0 && Target(g, st.pending[|st.pending| - 1]) == Some(f)
    requires f !in st.visited
    ensures CycPending(g, st, 0) == None
    ensures CycPending(g, st, k + 1) ==
      match CycElems(g, View(g, f).ops, 0, st.(pending := st.pending[..|st.pending| - 1]), k)
      case None => None
      case Some((found, st2)) => if found then Some((true, st2)) else CycPending(g, st2, k + 1)
  {
  }

  lemma PendingPopSeen(g: RefGraph, st: CycState, f: nat, fuel: nat)
    requires |st.pending| > 0 && Target(g, st.pending[|st.pending| - 1]) == Some(f)
    requires f in st.visited
    ensures CycPending(g, st, fuel) == Some((true, st.(pending := st.pending[..|st.pending| - 1])))
  {
  }

  // ---------------------------------------------------------------------------------------
  // Two documents on which the traversal as written goes wrong.

  const RootValue: Value := Value([ObjectRef(0)])

  /** The root value's only object is object 0. */
  lemma RootObject(d: Doc)
    ensures ObjectIds(Operands(d, RootValue)) == [0]
  {
    ExpandPlain(d, RootValue.ops, |d.subs|);
    assert ObjectIds([ObjectRef(0)]) == [ObjectRef(0).obj] + ObjectIds([]);
  }

  /** A field whose one assignment is one unresolved substitution shows that assignment. */
  lemma ViewOfUnresolved(d: Doc, f: nat, s: nat)
    requires f < |d.fields| && d.fields[f].history == [Value([SubRef(s)])]
    requires s >= |d.subs| || d.subs[s].resolved.None?
    ensures FieldView(d, f) == Value([SubRef(s)])
  {
    ExpandUnresolved(d, s, |d.subs|);
  }

  /** `a = ${b}, b = ${c}, c = ${b}`: fields a, b, c are 0, 1, 2; substitution i sits in field i. */
  const LoopDoc: Doc := Doc(
    [[Member("a", 0), Member("b", 1), Member("c", 2)]],
    [FieldRec(["a"], [Value([SubRef(0)])]), FieldRec(["b"], [Value([SubRef(1)])]), FieldRec(["c"], [Value([SubRef(2)])])],
    [SubRec(["b"], true, Some(0), 0, false, None), SubRec(["c"], true, Some(1), 0, false, None),
     SubRec(["b"], true, Some(2), 0, false, None)])

  const LoopGraph: RefGraph := RefGraph(
    [Value([SubRef(0)]), Value([SubRef(1)]), Value([SubRef(2)])], [[0, 1, 2]], [Some(1), Some(2), Some(1)])

  /** The graph of a document is determined by its views, its objects' fields and its substitutions' targets. */
  lemma GraphIs(d: Doc, root: Value, g: RefGraph)
    requires |g.views| == |d.fields| && |g.members| == |d.objects| && |g.targets| == |d.subs|
    requires forall f | 0 <= f < |d.fields| :: g.views[f] == FieldView(d, f)
    requires forall o | 0 <= o < |d.objects| :: g.members[o] == MemberFields(d.objects[o])
    requires forall s | 0 <= s < |d.subs| :: g.targets[s] == LookupField(d, root, d.subs[s].path)
    ensures GraphOf(d, root) == g
  {
    var h := GraphOf(d, root);
    assert h.views == g.views;
    assert h.members == g.members;
    assert h.targets == g.targets;
  }

  lemma LoopDocViews()
    ensures forall f | 0 <= f < |LoopDoc.fields| :: LoopGraph.views[f] == FieldView(LoopDoc, f)
  {
    forall f | 0 <= f < |LoopDoc.fields| ensures LoopGraph.views[f] == FieldView(LoopDoc, f) {
      ViewOfUnresolved(LoopDoc, f, f);
      assert LoopGraph.views[f] == Value([SubRef(f)]);
    }
  }

  lemma LoopDocMembers()
    ensures MembersOf(LoopDoc, 0) == [Member("a", 0), Member("b", 1), Member("c", 2)]
  {
  }

  lemma LoopDocLookupB()
    ensures LookupField(LoopDoc, RootValue, ["b"]) == Some(1)
  {
    var ms := MembersOf(LoopDoc, 0);
    LoopDocMembers();
    assert Matching(ms, "b") == [1];
    RootObject(LoopDoc);
    assert FieldsNamed(LoopDoc, [0], "b") == Matching(ms, "b") + [];
  }

  lemma LoopDocLookupC()
    ensures LookupField(LoopDoc, RootValue, ["c"]) == Some(2)
  {
    var ms := MembersOf(LoopDoc, 0);
    LoopDocMembers();
    assert ms[1..][1..] == [Member("c", 2)];
    assert Matching(ms, "c") == [2];
    RootObject(LoopDoc);
    assert FieldsNamed(LoopDoc, [0], "c") == Matching(ms, "c") + [];
  }

  lemma LoopDocLookups()
    ensures LookupField(LoopDoc, RootValue, ["b"]) == Some(1)
    ensures LookupField(LoopDoc, RootValue, ["c"]) == Some(2)
  {
    LoopDocLookupB();
    LoopDocLookupC();
  }

  lemma LoopDocTargets()
    ensures forall s | 0 <= s < |LoopDoc.subs| :: LoopGraph.targets[s] == LookupField(LoopDoc, RootValue, LoopDoc.subs[s].path)
  {
    LoopDocLookups();
    forall s | 0 <= s < |LoopDoc.subs|
      ensures LoopGraph.targets[s] == LookupField(LoopDoc, RootValue, LoopDoc.subs[s].path)
    {
      assert s == 0 || s == 1 || s == 2;
      if s == 0 {
        assert LoopDoc.subs[0].path == ["b"] && LoopGraph.targets[0] == Some(1);
      } else if s == 1 {
        assert LoopDoc.subs[1].path == ["c"] && LoopGraph.targets[1] == Some(2);
      } else {
        assert LoopDoc.subs[2].path == ["b"] && LoopGraph.targets[2] == Some(1);
      }
    }
  }

  lemma LoopDocGraph(d: Doc)
    requires d == LoopDoc
    ensures GraphOf(d, RootValue) == LoopGraph
  {
    LoopDocViews();
    LoopDocTargets();
    assert MemberFields(d.objects[0]) == [0, 1, 2];
    GraphIs(d, RootValue, LoopGraph);
  }

  /** One hop of the walk from field b or c with a's visited list: to the other one, one level down. */
  lemma LoopHop(x: nat, fuel: nat)
    requires x == 1 || x == 2
    ensures CycElems(LoopGraph, [SubRef(x)], 0, CycState([0], []), fuel).None? <==>
      fuel == 0 || CycElems(LoopGraph, [SubRef(3 - x)], 0, CycState([0], []), fuel - 1).None?
  {
    var g := LoopGraph;
    var y: nat := 3 - x;
    ElemsPush(g, [SubRef(x)], 0, CycState([0], []), fuel);
    ElemsEnd(g, [SubRef(x)], CycState([0], [x]), fuel);
    assert View(g, y).ops == [SubRef(y)];
    if fuel > 0 {
      PendingPop(g, CycState([0], [x]), y, fuel - 1);
    } else {
      PendingPop(g, CycState([0], [x]), y, 0);
    }
  }

  /** The walk from field b with a's visited list, whatever fuel it is given, never ends. */
  lemma {:induction false} LoopFromB(fuel: nat)
    ensures CycElems(LoopGraph, [SubRef(1)], 0, CycState([0], []), fuel).None?
  {
    LoopHop(1, fuel);
    if fuel > 0 {
      LoopHop(2, fuel - 1);
      if fuel > 1 {
        LoopFromB(fuel - 2);
      }
    }
  }

  lemma {:induction false} LoopFromA(fuel: nat)
    ensures IsValueCyclicAsWritten(LoopGraph, 0, fuel).None?
  {
    var g := LoopGraph;
    assert View(g, 0).ops == [SubRef(0)];
    ElemsPush(g, [SubRef(0)], 0, CycState([0], []), fuel);
    ElemsEnd(g, [SubRef(0)], CycState([0], [0]), fuel);
    if fuel > 0 {
      var k: nat := fuel - 1;
      PendingPop(g, CycState([0], [0]), 1, k);
      LoopFromB(k);
    } else {
      PendingPop(g, CycState([0], [0]), 1, 0);
    }
  }

  /** In the loop graph, a refers to b, b to c and c to b. */
  lemma LoopSuccs()
    ensures Succs(LoopGraph, 0) == {1} && Succs(LoopGraph, 1) == {2} && Succs(LoopGraph, 2) == {1}
  {
    var g := LoopGraph;
    forall f: nat, h: nat | f < 3 ensures RefersTo(g, View(g, f), h) <==> Target(g, f) == Some(h) {
      assert View(g, f).ops == [SubRef(f)];
      assert View(g, f).ops[0] == SubRef(f);
    }
  }

  lemma LoopCorrected()
    ensures !ReachesItself(LoopGraph, 0)
    ensures ReachesItself(LoopGraph, 1)
  {
    var g := LoopGraph;
    LoopSuccs();
    ClosedSetHoldsAllReach(g, 0, {1, 2});
    ReachesByEdge(g, 1, 2);
    ReachesExtend(g, 1, 2, 1);
  }

  /**
   * Resolving `${b}` in a, the traversal as written runs forever (the C# code overflows its
   * stack): the loop b, c, b never passes a visited field. The corrected check finds that a
   * does not reach itself, and that b, whose substitution is resolved next, does.
   */
  lemma LoopDiverges(fuel: nat)
    ensures IsValueCyclicAsWritten(GraphOf(LoopDoc, RootValue), 0, fuel).None?
    ensures !ReachesItself(GraphOf(LoopDoc, RootValue), 0)
    ensures ReachesItself(GraphOf(LoopDoc, RootValue), 1)
  {
    LoopDocGraph(LoopDoc);
    LoopFromA(fuel);
    LoopCorrected();
  }

  const ShareOps: seq<Element> := [SubRef(0), SubRef(1)]

  /** `b = {x = 1}, a = ${b} ${b}`: fields b, b.x, a are 0, 1, 2; object 1 is b's value. */
  const ShareDoc: Doc := Doc(
    [[Member("b", 0), Member("a", 2)], [Member("x", 1)]],
    [FieldRec(["b"], [Value([ObjectRef(1)])]), FieldRec(["b", "x"], [Value([Literal(UnquotedString, "1")])]),
     FieldRec(["a"], [Value(ShareOps)])],
    [SubRec(["b"], true, Some(2), 0, false, None), SubRec(["b"], true, Some(2), 0, false, None)])

  const ShareGraph: RefGraph := RefGraph(
    [Value([ObjectRef(1)]), Value([Literal(UnquotedString, "1")]), Value(ShareOps)], [[0, 2], [1]], [Some(0), Some(0)])

  lemma ShareDocView0()
    ensures FieldView(ShareDoc, 0) == Value([ObjectRef(1)])
  {
    var d := ShareDoc;
    var v0 := Value([ObjectRef(1)]);
    ExpandPlain(d, v0.ops, |d.subs|);
    assert ObjectSuffix(d, [v0][..0]) == NoValue;
    assert Value(NoValue.ops + v0.ops) == v0;
  }

  lemma ShareDocView1()
    ensures FieldView(ShareDoc, 1) == Value([Literal(UnquotedString, "1")])
  {
    var d := ShareDoc;
    var v1 := Value([Literal(UnquotedString, "1")]);
    ExpandPlain(d, v1.ops, |d.subs|);
  }

  lemma ShareDocView2()
    ensures FieldView(ShareDoc, 2) == Value(ShareOps)
  {
    var d := ShareDoc;
    ExpandUnresolved(d, 0, |d.subs|);
    ExpandUnresolved(d, 1, |d.subs|);
    assert ShareOps == [SubRef(0)] + [SubRef(1)];
    ExpandAppend(d, [SubRef(0)], [SubRef(1)], |d.subs|);
    assert Operands(d, Value(ShareOps)) == [];
  }

  lemma ShareDocLookup()
    ensures LookupField(ShareDoc, RootValue, ["b"]) == Some(0)
  {
    var ms := MembersOf(ShareDoc, 0);
    assert ms == [Member("b", 0), Member("a", 2)];
    assert ms[1..][1..] == [];
    assert Matching(ms, "b") == [0];
    RootObject(ShareDoc);
    assert FieldsNamed(ShareDoc, [0], "b") == Matching(ms, "b") + [];
  }

  lemma ShareDocTargets()
    ensures forall s | 0 <= s < |ShareDoc.subs| :: ShareGraph.targets[s] == LookupField(ShareDoc, RootValue, ShareDoc.subs[s].path)
  {
    ShareDocLookup();
  }

  lemma ShareDocViewsMatch()
    ensures forall f | 0 <= f < |ShareDoc.fields| :: ShareGraph.views[f] == FieldView(ShareDoc, f)
  {
    ShareDocView0();
    ShareDocView1();
    ShareDocView2();
    forall f | 0 <= f < |ShareDoc.fields| ensures ShareGraph.views[f] == FieldView(ShareDoc, f) {
      assert f == 0 || f == 1 || f == 2;
    }
  }

  lemma ShareDocGraph()
    ensures GraphOf(ShareDoc, RootValue) == ShareGraph
  {
    ShareDocViewsMatch();
    ShareDocTargets();
    assert MemberFields(ShareDoc.objects[0]) == [0, 2];
    assert MemberFields(ShareDoc.objects[1]) == [1];
    GraphIs(ShareDoc, RootValue, ShareGraph);
  }

  /** The second `${b}`, popped inside the walk of x: b's object again, whose field x is visited. */
  lemma ShareInner()
    ensures CycElems(ShareGraph, [Literal(UnquotedString, "1")], 0, CycState([2, 1], [0]), 1)
      == Some((true, CycState([2, 1], [])))
  {
    var g := ShareGraph;
    var lit := [Literal(UnquotedString, "1")];
    ElemsSkip(g, lit, 0, CycState([2, 1], [0]), 1);
    ElemsEnd(g, lit, CycState([2, 1], [0]), 1);
    PendingPop(g, CycState([2, 1], [0]), 0, 0);
    assert View(g, 0).ops == [ObjectRef(1)];
    assert Members(g, 1) == [1];
    MembersSeen(g, [1], 0, CycState([2, 1], []), 0);
    ElemsObjectFound(g, [ObjectRef(1)], 0, CycState([2, 1], []), 0, CycState([2, 1], []));
  }

  /** The first `${b}`, popped first: b's object, whose field x leads to the inner walk. */
  lemma ShareAsWritten()
    ensures IsValueCyclicAsWritten(ShareGraph, 2, 3) == Some(true)
  {
    var g := ShareGraph;
    assert View(g, 2).ops == ShareOps;
    ElemsPush(g, ShareOps, 0, CycState([2], []), 3);
    ElemsPush(g, ShareOps, 1, CycState([2], [0]), 3);
    ElemsEnd(g, ShareOps, CycState([2], [0, 1]), 3);
    PendingPop(g, CycState([2], [0, 1]), 0, 2);
    assert View(g, 0).ops == [ObjectRef(1)];
    assert Members(g, 1) == [1];
    assert View(g, 1).ops == [Literal(UnquotedString, "1")];
    ShareInner();
    assert CycState([2], [0]).(visited := [2] + [1]) == CycState([2, 1], [0]);
    MembersVisitFound(g, [1], 0, CycState([2], [0]), 1, CycState([2, 1], []));
    ElemsObjectFound(g, [ObjectRef(1)], 0, CycState([2], [0]), 2, CycState([2, 1], []));
    assert CycState([2], [0, 1]).(pending := [0, 1][..1]) == CycState([2], [0]);
    assert CycPending(g, CycState([2], [0, 1]), 3) == Some((true, CycState([2, 1], [])));
    assert CycElems(g, ShareOps, 0, CycState([2], []), 3) == Some((true, CycState([2, 1], [])));
  }

  lemma ShareCorrected()
    ensures !ReachesItself(ShareGraph, 2)
  {
    var g := ShareGraph;
    assert View(g, 1).ops == [Literal(UnquotedString, "1")];
    assert forall h: nat :: !RefersTo(g, View(g, 1), h);
    assert Succs(g, 1) == {};
    assert View(g, 0).ops == [ObjectRef(1)] && Members(g, 1) == [1];
    assert forall h: nat :: RefersTo(g, View(g, 0), h) <==> h == 1 by {
      forall h: nat ensures RefersTo(g, View(g, 0), h) <==> ElemRefersTo(g, ObjectRef(1), h) {
        assert View(g, 0).ops[0] == ObjectRef(1);
      }
    }
    assert Succs(g, 0) == {1};
    assert View(g, 2).ops == ShareOps;
    assert forall h: nat :: RefersTo(g, View(g, 2), h) <==> h == 0 by {
      assert ShareOps[0] == SubRef(0) && ShareOps[1] == SubRef(1);
    }
    assert Succs(g, 2) == {0};
    ClosedSetHoldsAllReach(g, 2, {0, 1});
  }

  /**
   * Resolving `${b}` in a, the traversal as written reports a cycle where there is none: the
   * second `${b}` walks b's object again and meets field x, which the first walk visited.
   * The corrected check finds that a does not reach itself.
   */
  lemma SharedNotCyclic()
    ensures IsValueCyclicAsWritten(GraphOf(ShareDoc, RootValue), 2, 3) == Some(true)
    ensures !ReachesItself(GraphOf(ShareDoc, RootValue), 2)
  {
    ShareDocGraph();
    ShareAsWritten();
    ShareCorrected();
  }
}
