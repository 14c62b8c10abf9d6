/**
 * The rules of substitution resolution (HoconParser.ResolveSubstitution and the environment
 * fallback of ResolveSubstitutions), stated over the document. The parser's resolution
 * methods are proved to compute exactly these.
 */
module Resolution {
  import opened Wrappers
  import opened Paths
  import opened Strings
  import opened Document
  import opened Cycles

  /**
   * HoconField.OlderValueThan: the entry of the field's history assigned before the one
   * holding the substitution; None when that entry is the first.
   */
  function OlderValue(d: Doc, f: nat, entry: nat): (r: Option<Value>)
    ensures r.Some? <==> 0 < entry <= |FieldAt(d, f).history|
    ensures r.Some? ==> r.value == FieldAt(d, f).history[entry - 1]
  {
    var h := FieldAt(d, f).history;
    if 0 < entry <= |h| then Some(h[entry - 1]) else None
  }

  /** The part of a substitution's path below the field that holds it. */
  function Delta(sub: Path, field: Path): Path
    requires IsChildPathOf(sub, field)
  {
    SubPath(sub, |sub| - (|sub| - |field|), |sub| - |field|)
  }

  /**
   * The child-of-older-value case: when the substitution names something below its own field,
   * the field's older value is looked into. Some(outcome) when this case decides the
   * substitution, None when resolution goes on to the later cases. The older value's type is
   * read even when there is none (a null dereference in the C# code).
   */
  function ChildCase(d: Doc, f: nat, sub: SubRec): (r: Option<Result<Option<Value>>>)
    ensures r.Some? ==> IsChildPathOf(sub.path, FieldAt(d, f).path)
    ensures r.Some? && r.value.Err? ==> r.value.error == NullDereference && OlderValue(d, f, sub.entry).None?
  {
    var fp := FieldAt(d, f).path;
    if !IsChildPathOf(sub.path, fp) then None
    else match OlderValue(d, f, sub.entry)
      case None => Some(Err(NullDereference))
      case Some(older) =>
        if TypeOf(d, older) != ObjectType then None
        else match LookupValue(d, older, Delta(sub.path, fp))
          case None => None
          case Some(inner) => Some(Ok(if TypeOf(d, inner) == ObjectType then Some(inner) else None))
  }

  /**
   * ResolveSubstitution: the value substitution s stands for (None when it has to come from
   * the environment), or the error it raises. The cases are tried in the source's order:
   * self-reference, child of the older value, reference to an ancestor, cycle, and finally a
   * lookup of the path from the root.
   */
  ghost function Resolve(d: Doc, root: Value, s: nat): (r: Result<Option<Value>>)
    requires s < |d.subs|
    ensures d.subs[s].owner.None? ==> r == Err(NullDereference)
  {
    var sub := d.subs[s];
    if sub.owner.None? then Err(NullDereference)
    else
      var f := sub.owner.value;
      var fp := FieldAt(d, f).path;
      if sub.path == fp then
        (if sub.inArray then Err(SelfReferenceInArray) else Ok(OlderValue(d, f, sub.entry)))
      else match ChildCase(d, f, sub)
        case Some(outcome) => outcome
        case None =>
          if IsChildPathOf(fp, sub.path) then Err(ParentReference)
          else if ReachesItself(GraphOf(d, root), f) then Err(CyclicSubstitution)
          else if GetObject(d, root).Err? then Err(NotAnObject)
          else Ok(LookupValue(d, root, sub.path))
  }

  /** A self-reference resolves to the field's older value, unless it is written inside an array. */
  lemma SelfReference(d: Doc, root: Value, s: nat)
    requires s < |d.subs| && d.subs[s].owner.Some?
    requires d.subs[s].path == FieldAt(d, d.subs[s].owner.value).path
    ensures d.subs[s].inArray ==> Resolve(d, root, s) == Err(SelfReferenceInArray)
    ensures !d.subs[s].inArray ==>
      Resolve(d, root, s) == Ok(OlderValue(d, d.subs[s].owner.value, d.subs[s].entry))
  {
  }

  /** A substitution that names an ancestor of its own field always fails. */
  lemma AncestorReferenceFails(d: Doc, root: Value, s: nat)
    requires s < |d.subs| && d.subs[s].owner.Some?
    requires IsChildPathOf(FieldAt(d, d.subs[s].owner.value).path, d.subs[s].path)
    ensures Resolve(d, root, s) == Err(ParentReference)
  {
    var fp := FieldAt(d, d.subs[s].owner.value).path;
    ChildPathIsStrict(fp, d.subs[s].path);
  }

  /** In the child case a value is taken from the older value only when it is an object. */
  lemma ChildCaseYieldsObjects(d: Doc, root: Value, s: nat)
    requires s < |d.subs| && d.subs[s].owner.Some?
    requires IsChildPathOf(d.subs[s].path, FieldAt(d, d.subs[s].owner.value).path)
    ensures var f := d.subs[s].owner.value;
      Resolve(d, root, s) == Ok(None) || Resolve(d, root, s).Err? ||
      (ChildCase(d, f, d.subs[s]).Some? && TypeOf(d, Resolve(d, root, s).value.value) == ObjectType) ||
      (ChildCase(d, f, d.subs[s]).None? && Resolve(d, root, s) == Ok(LookupValue(d, root, d.subs[s].path)))
    ensures var f := d.subs[s].owner.value;
      OlderValue(d, f, d.subs[s].entry).None? ==> Resolve(d, root, s) == Err(NullDereference)
  {
    var f := d.subs[s].owner.value;
    ChildPathIsStrict(d.subs[s].path, FieldAt(d, f).path);
  }

  /** A cycle is reported only when the substitution's field reaches itself. */
  lemma CycleReported(d: Doc, root: Value, s: nat)
    requires s < |d.subs| && Resolve(d, root, s) == Err(CyclicSubstitution)
    ensures d.subs[s].owner.Some? && ReachesItself(GraphOf(d, root), d.subs[s].owner.value)
    ensures var fp := FieldAt(d, d.subs[s].owner.value).path;
      d.subs[s].path != fp && !IsChildPathOf(fp, d.subs[s].path)
  {
    var sub := d.subs[s];
    var f := sub.owner.value;
    assert sub.path != FieldAt(d, f).path;
    assert ChildCase(d, f, sub).None?;
  }

  /**
   * A substitution whose path is unrelated to its field's path is looked up from the root:
   * it succeeds exactly when its field does not reach itself and the root is an object, and
   * then stands for the value at its path.
   */
  lemma UnrelatedPathsLookUpRoot(d: Doc, root: Value, s: nat)
    requires s < |d.subs| && d.subs[s].owner.Some?
    requires var fp := FieldAt(d, d.subs[s].owner.value).path;
      d.subs[s].path != fp && !IsChildPathOf(d.subs[s].path, fp) && !IsChildPathOf(fp, d.subs[s].path)
    ensures Resolve(d, root, s).Ok? <==>
      !ReachesItself(GraphOf(d, root), d.subs[s].owner.value) && GetObject(d, root).Ok?
    ensures Resolve(d, root, s).Ok? ==> Resolve(d, root, s).value == LookupValue(d, root, d.subs[s].path)
  {
  }

  // ---------------------------------------------------------------------------------------
  // The environment fallback and the pass over every substitution.

  /** The value an environment variable stands for: one string literal, quoted when its text needs quotes. */
  function EnvValue(text: string): (v: Value)
    ensures |v.ops| == 1 && v.ops[0].Literal? && v.ops[0].text == text
    ensures v.ops[0].kind == QuotedString <==> NeedQuotes(text)
    ensures v.ops[0].kind == QuotedString || v.ops[0].kind == UnquotedString
  {
    Single(Literal(if NeedQuotes(text) then QuotedString else UnquotedString, text))
  }

  /**
   * What a substitution is settled to once ResolveSubstitution has answered: the value found,
   * else the environment variable named by its path, else the empty marker for an optional
   * substitution; a required one with neither fails.
   */
  function Settle(found: Option<Value>, env: map<string, string>, sub: SubRec): (r: Result<Value>)
    ensures r.Ok? <==> found.Some? || PathText(sub.path) in env || !sub.required
    ensures r.Err? ==> r.error == UnresolvedSubstitution
    ensures found.Some? ==> r == Ok(found.value)
    ensures found.None? && PathText(sub.path) in env ==> r == Ok(EnvValue(env[PathText(sub.path)]))
    ensures found.None? && PathText(sub.path) !in env && !sub.required ==> r == Ok(Single(EmptyMarker))
  {
    if found.Some? then Ok(found.value)
    else if PathText(sub.path) in env then Ok(EnvValue(env[PathText(sub.path)]))
    else if sub.required then Err(UnresolvedSubstitution)
    else Ok(Single(EmptyMarker))
  }

  /** Settling substitution s on what was found for it, and recording the value (`sub.ResolvedValue = ...`). */
  function Record(d: Doc, s: nat, found: Option<Value>, env: map<string, string>): (r: Result<Doc>)
    requires s < |d.subs|
    ensures r.Ok? <==> Settle(found, env, d.subs[s]).Ok?
    ensures r.Err? ==> r.error == UnresolvedSubstitution
    ensures r.Ok? ==> OnlyResolved(d, r.value)
    ensures r.Ok? ==> r.value.subs[s].resolved == Some(Settle(found, env, d.subs[s]).value)
    ensures r.Ok? ==> forall t | 0 <= t < |d.subs| && t != s :: r.value.subs[t] == d.subs[t]
  {
    match Settle(found, env, d.subs[s])
    case Err(e) => Err(e)
    case Ok(v) => Ok(d.(subs := d.subs[s := d.subs[s].(resolved := Some(v))]))
  }

  /** Every value assigned in the document, and every array item in one, keeps to one type. */
  predicate Consistent(d: Doc) {
    forall f | 0 <= f < |d.fields| :: forall k | 0 <= k < |d.fields[f].history| ::
      DeepHomogeneous(d, d.fields[f].history[k])
  }

  /**
   * Recording substitution s's value, then the check its parent value makes on a resolved
   * child: the concatenation it joins must keep to one type. The check is made over every
   * value of the document, which before the substitution was resolved kept to one type.
   */
  function Substitute(d: Doc, s: nat, found: Option<Value>, env: map<string, string>): (r: Result<Doc>)
    requires s < |d.subs|
    ensures r.Ok? <==> Record(d, s, found, env).Ok? && Consistent(Record(d, s, found, env).value)
    ensures r.Ok? ==> r == Record(d, s, found, env) && Consistent(r.value)
    ensures Record(d, s, found, env).Err? ==> r == Record(d, s, found, env)
    ensures Record(d, s, found, env).Ok? && !Consistent(Record(d, s, found, env).value) ==>
      r == Err(ConcatTypeMismatch)
  {
    match Record(d, s, found, env)
    case Err(e) => Err(e)
    case Ok(d1) => if Consistent(d1) then Ok(d1) else Err(ConcatTypeMismatch)
  }

  /** Resolving one substitution, recording its value and checking the concatenation it joins. */
  ghost function ResolveOne(d: Doc, root: Value, s: nat, env: map<string, string>): (r: Result<Doc>)
    ensures r.Ok? ==> OnlyResolved(d, r.value)
    ensures r.Ok? && s < |d.subs| ==> r.value.subs[s].resolved.Some? && Consistent(r.value)
    ensures r.Ok? ==> forall t | 0 <= t < |d.subs| && t != s :: r.value.subs[t] == d.subs[t]
  {
    if s >= |d.subs| then Ok(d)
    else match Resolve(d, root, s)
      case Err(e) => Err(e)
      case Ok(found) => Substitute(d, s, found, env)
  }

  /** ResolveSubstitutions: the substitutions in list order, each seeing the values recorded before it. */
  ghost function ResolveAll(d: Doc, root: Value, ids: seq<nat>, env: map<string, string>): (r: Result<Doc>)
    ensures r.Ok? ==> OnlyResolved(d, r.value)
    decreases |ids|
  {
    if |ids| == 0 then Ok(d)
    else match ResolveAll(d, root, ids[..|ids| - 1], env)
      case Err(e) => Err(e)
      case Ok(d1) => ResolveOne(d1, root, ids[|ids| - 1], env)
  }

  /** A pass that succeeds on a list of the document's substitutions leaves every value of one type. */
  lemma ResolveAllConsistent(d: Doc, root: Value, ids: seq<nat>, env: map<string, string>)
    requires ResolveAll(d, root, ids, env).Ok?
    requires |ids| > 0 && ids[|ids| - 1] < |d.subs|
    ensures Consistent(ResolveAll(d, root, ids, env).value)
  {
    var pre := ids[..|ids| - 1];
    ResolveAllResolves(d, root, pre, env);
  }

  /** After a successful pass every listed substitution has a value, and every value keeps to one type. */
  lemma PassSettles(d: Doc, root: Value, ids: seq<nat>, env: map<string, string>, d1: Doc)
    requires ResolveAll(d, root, ids, env) == Ok(d1)
    requires forall s | s in ids :: s < |d.subs|
    ensures forall s | s in ids :: s < |d1.subs| && d1.subs[s].resolved.Some?
    ensures |ids| > 0 ==> Consistent(d1)
  {
    ResolveAllResolves(d, root, ids, env);
    forall s | s in ids ensures s < |d1.subs| && d1.subs[s].resolved.Some? {
      var i :| 0 <= i < |ids| && ids[i] == s;
    }
    if |ids| > 0 {
      assert ids[|ids| - 1] in ids;
      ResolveAllConsistent(d, root, ids, env);
    }
  }

  /** Extending the list by one substitution resolves that one on the document resolved so far. */
  lemma ResolveAllExtend(d: Doc, root: Value, ids: seq<nat>, i: nat, env: map<string, string>, d1: Doc)
    requires i < |ids| && ResolveAll(d, root, ids[..i], env) == Ok(d1)
    ensures ResolveAll(d, root, ids[..i + 1], env) == ResolveOne(d1, root, ids[i], env)
  {
    assert ids[..i + 1][..i] == ids[..i] && ids[..i + 1][i] == ids[i];
  }

  /** A list whose i-th substitution fails ends with that failure. */
  lemma ResolveAllFails(d: Doc, root: Value, ids: seq<nat>, i: nat, env: map<string, string>, d1: Doc)
    requires i < |ids| && ResolveAll(d, root, ids[..i], env) == Ok(d1) && ResolveOne(d1, root, ids[i], env).Err?
    ensures ResolveAll(d, root, ids, env) == Err(ResolveOne(d1, root, ids[i], env).error)
  {
    ResolveAllExtend(d, root, ids, i, env, d1);
    ResolveAllFailureStays(d, root, ids, i + 1, env);
  }

  /** Resolution only records values: objects, fields and substitution paths stay as they were. */
  predicate OnlyResolved(d: Doc, d1: Doc) {
    && d1.objects == d.objects && d1.fields == d.fields && |d1.subs| == |d.subs|
    && forall t | 0 <= t < |d.subs| :: d1.subs[t] == d.subs[t].(resolved := d1.subs[t].resolved)
  }

  /**
   * A successful pass records a value for every substitution in the list and changes
   * nothing else; a substitution not in the list keeps its state.
   */
  lemma {:induction false} ResolveAllResolves(d: Doc, root: Value, ids: seq<nat>, env: map<string, string>)
    requires ResolveAll(d, root, ids, env).Ok?
    ensures var d1 := ResolveAll(d, root, ids, env).value;
      && OnlyResolved(d, d1)
      && (forall i | 0 <= i < |ids| && ids[i] < |d.subs| :: d1.subs[ids[i]].resolved.Some?)
      && (forall t | 0 <= t < |d.subs| && t !in ids :: d1.subs[t] == d.subs[t])
    decreases |ids|
  {
    if |ids| > 0 {
      var pre, x := ids[..|ids| - 1], ids[|ids| - 1];
      ResolveAllResolves(d, root, pre, env);
      var d1 := ResolveAll(d, root, pre, env).value;
      ResolveAllLast(d, root, ids, env, d1);
      ResolvedOneMore(d, d1, ResolveOne(d1, root, x, env).value, pre, x, ids);
    }
  }

  /** The last substitution of a list is resolved on the document the rest of the list gives. */
  lemma ResolveAllLast(d: Doc, root: Value, ids: seq<nat>, env: map<string, string>, d1: Doc)
    requires |ids| > 0 && ResolveAll(d, root, ids[..|ids| - 1], env) == Ok(d1)
    ensures ResolveAll(d, root, ids, env) == ResolveOne(d1, root, ids[|ids| - 1], env)
  {
  }

  /** The induction step of ResolveAllResolves: one more substitution resolved on top of a pass. */
  lemma ResolvedOneMore(d: Doc, d1: Doc, d2: Doc, pre: seq<nat>, x: nat, ids: seq<nat>)
    requires OnlyResolved(d, d1)
    requires forall i | 0 <= i < |pre| && pre[i] < |d.subs| :: d1.subs[pre[i]].resolved.Some?
    requires forall t | 0 <= t < |d.subs| && t !in pre :: d1.subs[t] == d.subs[t]
    requires OnlyResolved(d1, d2) && (x < |d1.subs| ==> d2.subs[x].resolved.Some?)
    requires forall t | 0 <= t < |d1.subs| && t != x :: d2.subs[t] == d1.subs[t]
    requires |ids| > 0 && pre == ids[..|ids| - 1] && x == ids[|ids| - 1]
    ensures && OnlyResolved(d, d2)
      && (forall i | 0 <= i < |ids| && ids[i] < |d.subs| :: d2.subs[ids[i]].resolved.Some?)
      && (forall t | 0 <= t < |d.subs| && t !in ids :: d2.subs[t] == d.subs[t])
  {
    forall i | 0 <= i < |ids| && ids[i] < |d.subs| ensures d2.subs[ids[i]].resolved.Some? {
      if i < |pre| {
        assert ids[i] == pre[i];
      }
    }
    forall t | 0 <= t < |d.subs| && t !in ids ensures d2.subs[t] == d.subs[t] {
      assert t !in pre by {
        forall j | 0 <= j < |pre| ensures pre[j] != t {
          assert pre[j] == ids[j];
        }
      }
    }
  }

  /**
   * The order matters only up to the first failure: a failing pass fails with the error of
   * the first substitution whose resolution fails, after every earlier one succeeded.
   */
  lemma {:induction false} ResolveAllFirstFailure(d: Doc, root: Value, ids: seq<nat>, env: map<string, string>)
    requires ResolveAll(d, root, ids, env).Err?
    ensures exists i | 0 <= i < |ids| ::
      && ResolveAll(d, root, ids[..i], env).Ok?
      && ResolveOne(ResolveAll(d, root, ids[..i], env).value, root, ids[i], env)
         == Err(ResolveAll(d, root, ids, env).error)
    decreases |ids|
  {
    var pre := ids[..|ids| - 1];
    assert pre == ids[..|ids| - 1];
    if ResolveAll(d, root, pre, env).Err? {
      ResolveAllFirstFailure(d, root, pre, env);
      var i :| 0 <= i < |pre| && ResolveAll(d, root, pre[..i], env).Ok?
        && ResolveOne(ResolveAll(d, root, pre[..i], env).value, root, pre[i], env)
           == Err(ResolveAll(d, root, pre, env).error);
      assert pre[..i] == ids[..i] && pre[i] == ids[i];
    } else {
      var i := |ids| - 1;
      assert ids[..i] == pre;
    }
  }

  /** A failure stays a failure when more substitutions follow. */
  lemma {:induction false} ResolveAllFailureStays(d: Doc, root: Value, ids: seq<nat>, n: nat, env: map<string, string>)
    requires n <= |ids| && ResolveAll(d, root, ids[..n], env).Err?
    ensures ResolveAll(d, root, ids, env) == ResolveAll(d, root, ids[..n], env)
    decreases |ids| - n
  {
    if n < |ids| {
      assert ids[..n + 1][..n] == ids[..n];
      ResolveAllFailureStays(d, root, ids, n + 1, env);
    } else {
      assert ids[..n] == ids;
    }
  }

  // ---------------------------------------------------------------------------------------
  // A concatenation whose clash only resolution shows.

  const ConcatArray: Element := Array([Value([Literal(UnquotedString, "1")]), Value([Literal(UnquotedString, "2")])])

  const ConcatOps: seq<Element> := [ConcatArray, SubRef(0)]

  /** `a : { c : 2 }, b : [1,2] ${a}`: fields a, a.c, b are 0, 1, 2; object 1 is a's value. */
  const ConcatDoc: Doc := Doc(
    [[Member("a", 0), Member("b", 2)], [Member("c", 1)]],
    [FieldRec(["a"], [Value([ObjectRef(1)])]), FieldRec(["a", "c"], [Value([Literal(UnquotedString, "2")])]),
     FieldRec(["b"], [Value(ConcatOps)])],
    [SubRec(["a"], true, Some(2), 0, false, None)])

  const ConcatGraph: RefGraph := RefGraph(
    [Value([ObjectRef(1)]), Value([Literal(UnquotedString, "2")]), Value(ConcatOps)], [[0, 2], [1]], [Some(0)])

  lemma ConcatView0()
    ensures FieldView(ConcatDoc, 0) == Value([ObjectRef(1)])
  {
    var d := ConcatDoc;
    var v0 := Value([ObjectRef(1)]);
    ExpandPlain(d, v0.ops, |d.subs|);
    assert ObjectSuffix(d, [v0][..0]) == NoValue;
    assert Value(NoValue.ops + v0.ops) == v0;
  }

  /** Before resolution b's value is just the array: `${a}` contributes nothing yet. */
  lemma ConcatOperandsBefore()
    ensures Operands(ConcatDoc, Value(ConcatOps)) == [ConcatArray]
  {
    var d := ConcatDoc;
    ExpandUnresolved(d, 0, |d.subs|);
    ExpandPlain(d, [ConcatArray], |d.subs|);
    assert ConcatOps == [ConcatArray] + [SubRef(0)];
    ExpandAppend(d, [ConcatArray], [SubRef(0)], |d.subs|);
  }

  lemma ConcatViews()
    ensures forall f | 0 <= f < |ConcatDoc.fields| :: ConcatGraph.views[f] == FieldView(ConcatDoc, f)
  {
    var d := ConcatDoc;
    ConcatView0();
    ExpandPlain(d, [Literal(UnquotedString, "2")], |d.subs|);
    ConcatOperandsBefore();
    forall f | 0 <= f < |d.fields| ensures ConcatGraph.views[f] == FieldView(d, f) {
      assert f == 0 || f == 1 || f == 2;
    }
  }

  lemma ConcatLookup()
    ensures LookupField(ConcatDoc, RootValue, ["a"]) == Some(0)
    ensures LookupValue(ConcatDoc, RootValue, ["a"]) == Some(Value([ObjectRef(1)]))
  {
    var d := ConcatDoc;
    var ms := MembersOf(d, 0);
    assert ms == [Member("a", 0), Member("b", 2)];
    assert ms[1..][1..] == [];
    assert Matching(ms, "a") == [0];
    RootObject(d);
    assert FieldsNamed(d, [0], "a") == Matching(ms, "a") + [];
    ConcatView0();
    var v0 := Value([ObjectRef(1)]);
    ExpandPlain(d, v0.ops, |d.subs|);
    assert Views(d, [0]) == [v0];
    assert ObjectSuffix(d, [v0][..0]) == NoValue;
    assert Value(NoValue.ops + v0.ops) == v0;
    assert LookupValue(d, v0, ["a"][1..]) == Some(v0);
  }

  lemma ConcatTargets()
    ensures forall t | 0 <= t < |ConcatDoc.subs| :: ConcatGraph.targets[t] == LookupField(ConcatDoc, RootValue, ConcatDoc.subs[t].path)
  {
    ConcatLookup();
  }

  lemma ConcatGraphIs()
    ensures GraphOf(ConcatDoc, RootValue) == ConcatGraph
  {
    ConcatViews();
    ConcatTargets();
    assert MemberFields(ConcatDoc.objects[0]) == [0, 2];
    assert MemberFields(ConcatDoc.objects[1]) == [1];
    GraphIs(ConcatDoc, RootValue, ConcatGraph);
  }

  /** b refers only to a, a only to a.c, and a.c to nothing: b is on no cycle. */
  lemma ConcatNotCyclic()
    ensures !ReachesItself(ConcatGraph, 2)
  {
    var g := ConcatGraph;
    assert View(g, 1).ops == [Literal(UnquotedString, "2")];
    assert forall h: nat :: !RefersTo(g, View(g, 1), h);
    assert Succs(g, 1) == {};
    assert View(g, 0).ops == [ObjectRef(1)] && Members(g, 1) == [1];
    assert forall h: nat :: RefersTo(g, View(g, 0), h) <==> h == 1 by {
      forall h: nat ensures RefersTo(g, View(g, 0), h) <==> ElemRefersTo(g, ObjectRef(1), h) {
        assert View(g, 0).ops[0] == ObjectRef(1);
      }
    }
    assert Succs(g, 0) == {1};
    assert View(g, 2).ops == ConcatOps;
    assert forall h: nat :: !ElemRefersTo(g, ConcatArray, h) by {
      forall h: nat ensures !ElemRefersTo(g, ConcatArray, h) {
        assert forall k | 0 <= k < |ConcatArray.items| :: ConcatArray.items[k].ops[0].Literal? && |ConcatArray.items[k].ops| == 1;
      }
    }
    assert forall h: nat :: RefersTo(g, View(g, 2), h) <==> h == 0 by {
      assert ConcatOps[0] == ConcatArray && ConcatOps[1] == SubRef(0);
    }
    assert Succs(g, 2) == {0};
    ClosedSetHoldsAllReach(g, 2, {0, 1});
  }

  /** `${a}` is looked up from the root and stands for a's object. */
  lemma ConcatResolves(d: Doc)
    requires d == ConcatDoc
    ensures Resolve(d, RootValue, 0) == Ok(Some(Value([ObjectRef(1)])))
  {
    var sub := d.subs[0];
    assert sub.owner == Some(2) && sub.path == ["a"] && FieldAt(d, 2).path == ["b"];
    assert ChildCase(d, 2, sub).None?;
    assert !IsChildPathOf(["b"], sub.path);
    ConcatGraphIs();
    ConcatNotCyclic();
    assert !ReachesItself(GraphOf(d, RootValue), 2);
    RootValueIsObject(d);
    ConcatLookup();
  }

  /** The root value of the sample documents is an object. */
  lemma RootValueIsObject(d: Doc)
    ensures TypeOf(d, RootValue) == ObjectType && GetObject(d, RootValue).Ok?
  {
    ExpandPlain(d, RootValue.ops, |d.subs|);
  }

  /** Once `${a}` stands for a's object, b's value concatenates an array and an object. */
  lemma ConcatClash(d1: Doc)
    requires d1 == ConcatDoc.(subs := [ConcatDoc.subs[0].(resolved := Some(Value([ObjectRef(1)])))])
    ensures !Consistent(d1)
  {
    var v := Value([ObjectRef(1)]);
    assert d1.subs[0].resolved == Some(v) && |d1.subs| == 1;
    ExpandPlain(d1, v.ops, 0);
    ExpandPlain(d1, [ConcatArray], 1);
    assert ConcatOps == [ConcatArray] + [SubRef(0)];
    ExpandAppend(d1, [ConcatArray], [SubRef(0)], 1);
    assert Expand(d1, [SubRef(0)], 1) == Expand(d1, v.ops, 0) + Expand(d1, [SubRef(0)][1..], 1);
    var ops := Operands(d1, Value(ConcatOps));
    assert ops == [ConcatArray, ObjectRef(1)];
    assert ElemType(ops[1]) == ObjectType && FirstType(ops) == ArrayType;
    assert d1.fields[2].history[0] == Value(ConcatOps);
  }

  /**
   * The array `[1,2]` and the object `${a}` stands for cannot be concatenated: resolving the
   * substitution fails, and so does the whole pass, whatever the environment holds.
   */
  lemma ArraySubstitutedObjectFails(env: map<string, string>)
    ensures ResolveOne(ConcatDoc, RootValue, 0, env) == Err(ConcatTypeMismatch)
    ensures ResolveAll(ConcatDoc, RootValue, [0], env) == Err(ConcatTypeMismatch)
  {
    var d := ConcatDoc;
    var v := Value([ObjectRef(1)]);
    ConcatResolves(d);
    var d1 := d.(subs := [d.subs[0].(resolved := Some(v))]);
    assert d.subs[0 := d.subs[0].(resolved := Some(v))] == d1.subs;
    assert Record(d, 0, Some(v), env) == Ok(d1);
    ConcatClash(d1);
    assert [0][..0] == [];
  }
}
