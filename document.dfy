/**
 * The document the parser builds: HoconValue, HoconObject, HoconField, HoconArray,
 * HoconLiteral and HoconSubstitution, held in an arena and referred to by index
 * (objects, fields and substitutions are shared and mutated in the C# code, so they live
 * in the arena; values and arrays are plain data).
 *
 * These classes are not part of this model; what the parser and the resolver use of them
 * (Type, Add, GetObject, TraversePath, SetValue, the merged value of a field,
 * GetChildObject, TryGetValue and TryGetField) is modelled here by small total functions.
 */
module Document {
  import opened Wrappers
  import opened Tokens
  import opened Paths

  datatype HType = EmptyType | LiteralType | ObjectType | ArrayType

  datatype LitKind = UnquotedString | QuotedString | TripleQuotedString | WhitespaceString

  /** One operand of a value (IHoconElement). */
  datatype Element =
    | Literal(kind: LitKind, text: string)
    | ObjectRef(obj: nat)
    | Array(items: seq<Value>)
    | SubRef(sub: nat)
    | EmptyMarker

  /** A HoconValue: the concatenation of its operands. */
  datatype Value = Value(ops: seq<Element>)

  const NoValue: Value := Value([])

  /** A value of one operand. */
  function Single(e: Element): Value {
    Value([e])
  }

  function Append(v: Value, e: Element): Value {
    Value(v.ops + [e])
  }

  datatype Member = Member(key: string, field: nat)

  /** A field: its full path and every value ever assigned to it, oldest first. */
  datatype FieldRec = FieldRec(path: Path, history: seq<Value>)

  /**
   * A substitution: its path, `${}` versus `${?}`, the field it was written in (None when it
   * sits in a root-level array), which entry of that field's history holds it, whether its
   * parent is an array, and its resolved value once resolution has run.
   */
  datatype SubRec = SubRec(path: Path, required: bool, owner: Option<nat>, entry: nat,
                           inArray: bool, resolved: Option<Value>)

  datatype Doc = Doc(objects: seq<seq<Member>>, fields: seq<FieldRec>, subs: seq<SubRec>)

  const EmptyDoc: Doc := Doc([], [], [])

  /** HoconLiteral.Create: the literal element a literal token stands for. */
  function LiteralOf(t: Token): (e: Element)
    ensures e.Literal? && e.text == t.text
    ensures e.kind == WhitespaceString <==> t.literal == Whitespace
  {
    match t.literal
    case Whitespace => Literal(WhitespaceString, t.text)
    case Quoted => Literal(QuotedString, t.text)
    case TripleQuoted => Literal(TripleQuotedString, t.text)
    case _ => Literal(UnquotedString, t.text)
  }

  /** The literal operands a run of literal tokens stands for, one per token. */
  function LiteralsOf(ts: seq<Token>): seq<Element> {
    seq(|ts|, i requires 0 <= i < |ts| => LiteralOf(ts[i]))
  }

  /** Appending the literal of ts[p] to the literals of ts[q..p] gives the literals of ts[q..p + 1]. */
  lemma LiteralsSnoc(v: Value, ts: seq<Token>, q: nat, p: nat)
    requires q <= p < |ts|
    ensures Append(Value(v.ops + LiteralsOf(ts[q..p])), LiteralOf(ts[p])) == Value(v.ops + LiteralsOf(ts[q..p + 1]))
  {
    assert LiteralsOf(ts[q..p + 1]) == LiteralsOf(ts[q..p]) + [LiteralOf(ts[p])];
    assert v.ops + LiteralsOf(ts[q..p]) + [LiteralOf(ts[p])] == v.ops + LiteralsOf(ts[q..p + 1]);
  }

  function ElemType(e: Element): HType {
    match e
    case Literal(_, _) => LiteralType
    case ObjectRef(_) => ObjectType
    case Array(_) => ArrayType
    case SubRef(_) => EmptyType
    case EmptyMarker => EmptyType
  }

  // ---------------------------------------------------------------------------------------
  // Types. A resolved substitution stands for the operands of its resolved value; an
  // unresolved one contributes nothing. Resolved values are followed through at most as many
  // substitutions as the document has, which covers every chain that does not loop.

  function Expand(d: Doc, es: seq<Element>, fuel: nat): (ops: seq<Element>)
    ensures forall i | 0 <= i < |ops| :: !ops[i].SubRef?
    decreases fuel, |es|
  {
    if |es| == 0 then []
    else
      var head :=
        if !es[0].SubRef? then [es[0]]
        else if fuel > 0 && es[0].sub < |d.subs| && d.subs[es[0].sub].resolved.Some?
        then Expand(d, d.subs[es[0].sub].resolved.value.ops, fuel - 1)
        else [];
      head + Expand(d, es[1..], fuel)
  }

  function Operands(d: Doc, v: Value): seq<Element> {
    Expand(d, v.ops, |d.subs|)
  }

  /** The type of the first operand that has one; Empty when none has. */
  function FirstType(es: seq<Element>): (t: HType)
    ensures t == EmptyType <==> forall i | 0 <= i < |es| :: ElemType(es[i]) == EmptyType
    ensures t != EmptyType ==> exists i | 0 <= i < |es| :: ElemType(es[i]) == t
  {
    if |es| == 0 then EmptyType
    else if ElemType(es[0]) != EmptyType then ElemType(es[0])
    else FirstType(es[1..])
  }

  /** HoconValue.Type: the first type among the operands, with substitutions followed. */
  function TypeOf(d: Doc, v: Value): (r: HType)
    ensures |v.ops| == 0 ==> r == EmptyType
    ensures r != EmptyType ==> exists i | 0 <= i < |Operands(d, v)| :: ElemType(Operands(d, v)[i]) == r
  {
    FirstType(Operands(d, v))
  }

  lemma {:induction false} ExpandAppend(d: Doc, a: seq<Element>, b: seq<Element>, fuel: nat)
    ensures Expand(d, a + b, fuel) == Expand(d, a, fuel) + Expand(d, b, fuel)
    decreases |a|
  {
    if |a| > 0 {
      assert (a + b)[0] == a[0];
      assert (a + b)[1..] == a[1..] + b;
      ExpandAppend(d, a[1..], b, fuel);
    } else {
      assert a + b == b;
    }
  }

  /** Operands without substitutions expand to themselves. */
  lemma {:induction false} ExpandPlain(d: Doc, es: seq<Element>, fuel: nat)
    requires forall i | 0 <= i < |es| :: !es[i].SubRef?
    ensures Expand(d, es, fuel) == es
    decreases |es|
  {
    if |es| > 0 {
      ExpandPlain(d, es[1..], fuel);
      assert es == [es[0]] + es[1..];
    }
  }

  /** An unresolved substitution contributes no operand. */
  lemma ExpandUnresolved(d: Doc, s: nat, fuel: nat)
    requires s >= |d.subs| || d.subs[s].resolved.None?
    ensures Expand(d, [SubRef(s)], fuel) == []
  {
    assert [SubRef(s)][1..] == [];
  }

  lemma {:induction false} FirstTypeAppend(a: seq<Element>, b: seq<Element>)
    ensures FirstType(a + b) == if FirstType(a) != EmptyType then FirstType(a) else FirstType(b)
    decreases |a|
  {
    if |a| > 0 {
      assert (a + b)[0] == a[0];
      assert (a + b)[1..] == a[1..] + b;
      FirstTypeAppend(a[1..], b);
    } else {
      assert a + b == b;
    }
  }

  /** Expansion looks only at how many substitutions there are and what they resolved to. */
  lemma {:induction false} ExpandSameResolved(d: Doc, e: Doc, es: seq<Element>, fuel: nat)
    requires |d.subs| == |e.subs|
    requires forall s | 0 <= s < |d.subs| :: d.subs[s].resolved == e.subs[s].resolved
    ensures Expand(d, es, fuel) == Expand(e, es, fuel)
    decreases fuel, |es|
  {
    if |es| > 0 {
      if es[0].SubRef? && fuel > 0 && es[0].sub < |d.subs| && d.subs[es[0].sub].resolved.Some? {
        ExpandSameResolved(d, e, d.subs[es[0].sub].resolved.value.ops, fuel - 1);
      }
      ExpandSameResolved(d, e, es[1..], fuel);
    }
  }

  /** So does a value's type: renaming paths and adding fields leave it unchanged. */
  lemma SameResolvedSameType(d: Doc, e: Doc, v: Value)
    requires |d.subs| == |e.subs|
    requires forall s | 0 <= s < |d.subs| :: d.subs[s].resolved == e.subs[s].resolved
    ensures TypeOf(d, v) == TypeOf(e, v)
  {
    ExpandSameResolved(d, e, v.ops, |d.subs|);
  }

  /** The type of a concatenation is the type of its first typed part. */
  lemma TypeOfAppend(d: Doc, a: Value, b: Value)
    ensures TypeOf(d, Value(a.ops + b.ops)) == if TypeOf(d, a) != EmptyType then TypeOf(d, a) else TypeOf(d, b)
  {
    ExpandAppend(d, a.ops, b.ops, |d.subs|);
    FirstTypeAppend(Operands(d, a), Operands(d, b));
  }

  // ---------------------------------------------------------------------------------------
  // Value concatenation (HoconValue.Add): operands of different non-empty types cannot be
  // concatenated; an Empty operand (an unresolved or missing substitution) joins anything.

  predicate Compatible(t: HType, u: HType) {
    t == EmptyType || u == EmptyType || t == u
  }

  /**
   * HoconValue.Add: the definition of concatenation. Its consequences are the lemmas below
   * (AddKeepsHomogeneous, AddLiteral, AddAllTyped, LiteralsAddAll).
   */
  function Add(d: Doc, v: Value, e: Element): (r: Result<Value>)
    ensures r.Ok? <==> Compatible(TypeOf(d, v), TypeOf(d, Single(e)))
    ensures r.Ok? ==> r.value == Append(v, e)
    ensures r.Err? ==> r.error == ConcatTypeMismatch
  {
    if Compatible(TypeOf(d, v), TypeOf(d, Single(e))) then Ok(Append(v, e)) else Err(ConcatTypeMismatch)
  }

  /** Adding each of several operands in turn. */
  function AddAll(d: Doc, v: Value, es: seq<Element>): (r: Result<Value>)
    ensures r.Ok? ==> r.value == Value(v.ops + es)
    ensures r.Err? ==> r.error == ConcatTypeMismatch
    decreases |es|
  {
    if |es| == 0 then
      assert v.ops + es == v.ops;
      Ok(v)
    else match Add(d, v, es[0])
      case Err(k) => Err(k)
      case Ok(v1) =>
        var r := AddAll(d, v1, es[1..]);
        assert r.Ok? ==> r.value == Value(v.ops + es) by {
          assert v.ops + [es[0]] + es[1..] == v.ops + es;
        }
        r
  }

  /** Objects can always be added to an object-typed value, which stays an object. */
  lemma {:induction false} AddAllObjects(d: Doc, v: Value, es: seq<Element>)
    requires TypeOf(d, v) == ObjectType
    requires forall i | 0 <= i < |es| :: es[i].ObjectRef?
    ensures AddAll(d, v, es).Ok?
    decreases |es|
  {
    if |es| > 0 {
      ExpandPlain(d, [es[0]], |d.subs|);
      TypeOfAppend(d, v, Single(es[0]));
      AddAllObjects(d, Append(v, es[0]), es[1..]);
    }
  }

  /** Every typed element of the sequence has the type of the first typed one. */
  predicate SameTyped(es: seq<Element>) {
    forall i | 0 <= i < |es| :: ElemType(es[i]) == EmptyType || ElemType(es[i]) == FirstType(es)
  }

  /** Every typed operand of the value has the value's type. */
  predicate Homogeneous(d: Doc, v: Value) {
    SameTyped(Operands(d, v))
  }

  /** Two same-typed sequences of compatible types concatenate to a same-typed one. */
  lemma SameTypedConcat(a: seq<Element>, b: seq<Element>)
    requires SameTyped(a) && SameTyped(b) && Compatible(FirstType(a), FirstType(b))
    ensures SameTyped(a + b)
  {
    FirstTypeAppend(a, b);
    var ops := a + b;
    forall i | 0 <= i < |ops|
      ensures ElemType(ops[i]) == EmptyType || ElemType(ops[i]) == FirstType(ops)
    {
      if i < |a| {
        assert ops[i] == a[i];
      } else {
        assert ops[i] == b[i - |a|];
      }
    }
  }

  /** A successful Add of a homogeneous operand keeps the value homogeneous and fixes its type. */
  lemma AddKeepsHomogeneous(d: Doc, v: Value, e: Element)
    requires Homogeneous(d, v) && Homogeneous(d, Single(e))
    requires Add(d, v, e).Ok?
    ensures Homogeneous(d, Append(v, e))
    ensures TypeOf(d, Append(v, e)) == if TypeOf(d, v) != EmptyType then TypeOf(d, v) else TypeOf(d, Single(e))
  {
    var a, b := Operands(d, v), Operands(d, Single(e));
    ExpandAppend(d, v.ops, [e], |d.subs|);
    assert Operands(d, Append(v, e)) == a + b;
    FirstTypeAppend(a, b);
    SameTypedConcat(a, b);
  }

  /** The concatenation rule: concatenating two different non-empty types always fails, in either order. */
  lemma MixedConcatenationFails(d: Doc, v: Value, e: Element)
    requires TypeOf(d, v) != EmptyType && TypeOf(d, Single(e)) != EmptyType
    ensures Add(d, v, e).Ok? <==> TypeOf(d, v) == TypeOf(d, Single(e))
  {
  }

  // ---------------------------------------------------------------------------------------
  // While a document is being parsed no substitution has been resolved yet: every
  // substitution then contributes nothing, so types do not depend on the rest of the arena.

  predicate Unresolved(d: Doc) {
    forall s | 0 <= s < |d.subs| :: d.subs[s].resolved.None?
  }

  /** Two unresolved documents expand every operand sequence alike, whatever the fuel. */
  lemma {:induction false} ExpandUnresolvedAlike(d: Doc, e: Doc, es: seq<Element>, f: nat, g: nat)
    requires Unresolved(d) && Unresolved(e)
    ensures Expand(d, es, f) == Expand(e, es, g)
    decreases |es|
  {
    if |es| > 0 {
      ExpandUnresolvedAlike(d, e, es[1..], f, g);
    }
  }

  /** So a value has the same type, and is homogeneous or not alike, in two unresolved documents. */
  lemma HomogeneousUnresolved(d: Doc, e: Doc, v: Value)
    requires Unresolved(d) && Unresolved(e)
    ensures TypeOf(d, v) == TypeOf(e, v)
    ensures Homogeneous(d, v) <==> Homogeneous(e, v)
  {
    ExpandUnresolvedAlike(d, e, v.ops, |d.subs|, |e.subs|);
  }

  /** In an unresolved document a single operand is homogeneous. */
  lemma SingleHomogeneous(d: Doc, e: Element)
    requires Unresolved(d)
    ensures Homogeneous(d, Single(e))
  {
    if e.SubRef? {
      ExpandUnresolved(d, e.sub, |d.subs|);
    } else {
      ExpandPlain(d, [e], |d.subs|);
    }
  }

  /** Adding several operands in turn to a homogeneous value keeps it homogeneous. */
  lemma {:induction false} AddAllKeepsHomogeneous(d: Doc, v: Value, es: seq<Element>)
    requires Unresolved(d) && Homogeneous(d, v) && AddAll(d, v, es).Ok?
    ensures Homogeneous(d, AddAll(d, v, es).value)
    decreases |es|
  {
    if |es| > 0 {
      SingleHomogeneous(d, es[0]);
      AddKeepsHomogeneous(d, v, es[0]);
      AddAllKeepsHomogeneous(d, Append(v, es[0]), es[1..]);
    }
  }

  /**
   * A run of literals concatenates onto v exactly when the run is empty or v is empty or a
   * literal: after the first literal the value is a literal, and literals always concatenate.
   */
  lemma {:induction false} LiteralsAddAll(d: Doc, v: Value, ts: seq<Token>)
    ensures AddAll(d, v, LiteralsOf(ts)).Ok? <==> |ts| == 0 || Compatible(TypeOf(d, v), LiteralType)
    decreases |ts|
  {
    if |ts| > 0 {
      var es := LiteralsOf(ts);
      var lit := LiteralOf(ts[0]);
      assert es[0] == lit && es[1..] == LiteralsOf(ts[1..]);
      AddLiteral(d, v, lit);
      if Compatible(TypeOf(d, v), LiteralType) {
        LiteralsAddAll(d, Append(v, lit), ts[1..]);
      }
    }
  }

  /** One more literal of a run: it fails only as the first one, after an object or an array. */
  lemma LiteralsNext(d: Doc, v: Value, acc: Value, ts: seq<Token>, q: nat, p: nat)
    requires q <= p < |ts| && (p > q ==> Compatible(TypeOf(d, v), LiteralType))
    requires acc == Value(v.ops + LiteralsOf(ts[q..p]))
    ensures Add(d, acc, LiteralOf(ts[p])).Ok? <==> Compatible(TypeOf(d, v), LiteralType)
    ensures Add(d, acc, LiteralOf(ts[p])).Ok? ==> Add(d, acc, LiteralOf(ts[p])).value == Value(v.ops + LiteralsOf(ts[q..p + 1]))
  {
    AddLiteral(d, acc, LiteralOf(ts[p]));
    if p > q {
      LiteralsTyped(d, v, ts[q..p]);
    } else {
      assert acc.ops == v.ops + [] == v.ops;
    }
    LiteralsSnoc(v, ts, q, p);
  }

  /** A non-empty literal run after an empty or literal value gives a literal value. */
  lemma LiteralsTyped(d: Doc, v: Value, ts: seq<Token>)
    requires |ts| > 0 && Compatible(TypeOf(d, v), LiteralType)
    ensures TypeOf(d, Value(v.ops + LiteralsOf(ts))) == LiteralType
  {
    LiteralsAddAll(d, v, ts);
    AddAllTyped(d, v, LiteralsOf(ts), LiteralType);
  }

  /** A literal run after a homogeneous value keeps it homogeneous, while nothing is resolved. */
  lemma LiteralsHomogeneous(d: Doc, v: Value, ts: seq<Token>)
    requires Unresolved(d) && Homogeneous(d, v) && (|ts| == 0 || Compatible(TypeOf(d, v), LiteralType))
    ensures Homogeneous(d, Value(v.ops + LiteralsOf(ts)))
  {
    LiteralsAddAll(d, v, ts);
    AddAllKeepsHomogeneous(d, v, LiteralsOf(ts));
  }

  /** A literal operand concatenates exactly onto an empty or literal value, giving a literal one. */
  lemma AddLiteral(d: Doc, v: Value, lit: Element)
    requires lit.Literal?
    ensures Add(d, v, lit).Ok? <==> Compatible(TypeOf(d, v), LiteralType)
    ensures Add(d, v, lit).Ok? ==> TypeOf(d, Add(d, v, lit).value) == LiteralType
  {
    ExpandPlain(d, [lit], |d.subs|);
    TypeOfAppend(d, v, Single(lit));
  }

  /** A run of object references is object-typed, unless it is empty. */
  lemma ObjectsType(d: Doc, es: seq<Element>)
    requires forall i | 0 <= i < |es| :: es[i].ObjectRef?
    ensures TypeOf(d, Value(es)) == if |es| == 0 then EmptyType else ObjectType
    ensures Homogeneous(d, Value(es))
  {
    ExpandPlain(d, es, |d.subs|);
  }

  /** Object references appended to a homogeneous value that is empty or an object keep it homogeneous. */
  lemma ObjectsKeepHomogeneous(d: Doc, v: Value, es: seq<Element>)
    requires forall i | 0 <= i < |es| :: es[i].ObjectRef?
    requires Homogeneous(d, v) && (TypeOf(d, v) == EmptyType || TypeOf(d, v) == ObjectType)
    ensures Homogeneous(d, Value(v.ops + es))
  {
    ObjectsType(d, es);
    ExpandAppend(d, v.ops, es, |d.subs|);
    SameTypedConcat(Operands(d, v), Operands(d, Value(es)));
  }

  /**
   * The object case of a value: w is v followed by the objects of includes, and the new object
   * o is added last. The result is an object value after an empty or object one, and it stays
   * homogeneous while nothing is resolved.
   */
  lemma ObjectAdded(d0: Doc, d: Doc, v: Value, w: Value, o: nat)
    requires ObjectsAfter(v, w) && Add(d, w, ObjectRef(o)).Ok?
    ensures ObjectsAfter(v, Add(d, w, ObjectRef(o)).value)
    ensures (TypeOf(d, v) == EmptyType || TypeOf(d, v) == ObjectType) && TypeOf(d, Add(d, w, ObjectRef(o)).value) == ObjectType
    ensures Unresolved(d0) && Unresolved(d) && Homogeneous(d0, v) ==> Homogeneous(d, Add(d, w, ObjectRef(o)).value)
  {
    var objs := w.ops[|v.ops|..];
    assert w.ops == v.ops + objs;
    ObjectsType(d, objs);
    TypeOfAppend(d, v, Value(objs));
    AddAllTyped(d, w, [ObjectRef(o)], ObjectType);
    assert Add(d, w, ObjectRef(o)).value.ops == v.ops + (objs + [ObjectRef(o)]);
    if Unresolved(d0) && Unresolved(d) && Homogeneous(d0, v) {
      HomogeneousUnresolved(d0, d, v);
      ObjectsKeepHomogeneous(d, v, objs + [ObjectRef(o)]);
    }
  }

  /** Adding a non-empty run of operands of one type t succeeds only on a value compatible with t, and gives a value of type t. */
  lemma AddAllTyped(d: Doc, v: Value, es: seq<Element>, t: HType)
    requires |es| > 0 && t != EmptyType
    requires forall i | 0 <= i < |es| :: !es[i].SubRef? && ElemType(es[i]) == t
    requires AddAll(d, v, es).Ok?
    ensures Compatible(TypeOf(d, v), t) && TypeOf(d, AddAll(d, v, es).value) == t
  {
    ExpandPlain(d, [es[0]], |d.subs|);
    ExpandPlain(d, es, |d.subs|);
    TypeOfAppend(d, v, Value(es));
  }

  /** `w` is `v` followed by object references only: what a value receives from the includes of an object. */
  predicate ObjectsAfter(v: Value, w: Value) {
    |v.ops| <= |w.ops| && w.ops[..|v.ops|] == v.ops && forall i | |v.ops| <= i < |w.ops| :: w.ops[i].ObjectRef?
  }

  lemma ObjectsAfterTrans(u: Value, v: Value, w: Value)
    requires ObjectsAfter(u, v) && ObjectsAfter(v, w)
    ensures ObjectsAfter(u, w)
  {
    assert w.ops[..|u.ops|] == w.ops[..|v.ops|][..|u.ops|];
  }

  /** Every part of a same-typed sequence that comes first is same-typed. */
  lemma SameTypedPrefix(a: seq<Element>, b: seq<Element>)
    requires SameTyped(a + b)
    ensures SameTyped(a)
  {
    FirstTypeAppend(a, b);
    forall i | 0 <= i < |a|
      ensures ElemType(a[i]) == EmptyType || ElemType(a[i]) == FirstType(a)
    {
      assert a[i] == (a + b)[i];
    }
  }

  /** Dropping operands from the end of a homogeneous value keeps it homogeneous. */
  lemma HomogeneousPrefix(d: Doc, v: Value, n: nat)
    requires n <= |v.ops| && Homogeneous(d, v)
    ensures Homogeneous(d, Value(v.ops[..n]))
  {
    assert v.ops == v.ops[..n] + v.ops[n..];
    ExpandAppend(d, v.ops[..n], v.ops[n..], |d.subs|);
    SameTypedPrefix(Operands(d, Value(v.ops[..n])), Operands(d, Value(v.ops[n..])));
  }

  /** Deep homogeneity: the value and every array item nested in it are homogeneous. */
  predicate DeepHomogeneous(d: Doc, v: Value)
    decreases v
  {
    Homogeneous(d, v) && forall j | 0 <= j < |v.ops| :: ItemsHomogeneous(d, v.ops[j])
  }

  predicate ItemsHomogeneous(d: Doc, e: Element)
    decreases e
  {
    e.Array? ==> forall k | 0 <= k < |e.items| :: DeepHomogeneous(d, e.items[k])
  }

  // ---------------------------------------------------------------------------------------
  // Objects and their fields.

  function ObjectIds(es: seq<Element>): (ids: seq<nat>)
    ensures forall o :: o in ids <==> ObjectRef(o) in es
  {
    if |es| == 0 then []
    else (if es[0].ObjectRef? then [es[0].obj] else []) + ObjectIds(es[1..])
  }

  /** HoconValue.GetObject: the objects of an object-typed (or empty) value. */
  function GetObject(d: Doc, v: Value): (r: Result<seq<Element>>)
    ensures r.Ok? <==> TypeOf(d, v) == ObjectType || TypeOf(d, v) == EmptyType
    ensures r.Err? ==> r.error == NotAnObject
    ensures r.Ok? ==> forall i | 0 <= i < |r.value| :: r.value[i].ObjectRef?
    ensures r.Ok? ==> forall o :: ObjectRef(o) in r.value <==> ObjectRef(o) in Operands(d, v)
  {
    var t := TypeOf(d, v);
    if t == ObjectType || t == EmptyType then
      var ids := ObjectIds(Operands(d, v));
      var refs := seq(|ids|, i requires 0 <= i < |ids| => ObjectRef(ids[i]));
      assert forall o :: ObjectRef(o) in refs <==> o in ids by {
        forall o ensures ObjectRef(o) in refs <==> o in ids {
          if o in ids {
            var i :| 0 <= i < |ids| && ids[i] == o;
            assert refs[i] == ObjectRef(o);
          }
        }
      }
      Ok(refs)
    else Err(NotAnObject)
  }

  function MembersOf(d: Doc, o: nat): seq<Member> {
    if o < |d.objects| then d.objects[o] else []
  }

  function FieldAt(d: Doc, f: nat): FieldRec {
    if f < |d.fields| then d.fields[f] else FieldRec([], [])
  }

  /** The fields of members named `key`, in order. */
  function Matching(ms: seq<Member>, key: string): (fs: seq<nat>)
    ensures forall f :: f in fs <==> Member(key, f) in ms
  {
    if |ms| == 0 then []
    else (if ms[0].key == key then [ms[0].field] else []) + Matching(ms[1..], key)
  }

  /** The fields named `key` across the objects `oids`, in order. */
  function FieldsNamed(d: Doc, oids: seq<nat>, key: string): seq<nat> {
    if |oids| == 0 then []
    else Matching(MembersOf(d, oids[0]), key) + FieldsNamed(d, oids[1..], key)
  }

  /** The longest run of object-typed values at the end of `vs`, concatenated. */
  function ObjectSuffix(d: Doc, vs: seq<Value>): Value
    decreases |vs|
  {
    if |vs| == 0 || TypeOf(d, vs[|vs| - 1]) != ObjectType then NoValue
    else Value(ObjectSuffix(d, vs[..|vs| - 1]).ops + vs[|vs| - 1].ops)
  }

  /**
   * The value that a sequence of assignments leaves: the last one, unless it is an object,
   * in which case every object assigned since the last non-object merges into it.
   */
  function Latest(d: Doc, vs: seq<Value>): Value {
    if |vs| == 0 then NoValue
    else if TypeOf(d, vs[|vs| - 1]) == ObjectType then ObjectSuffix(d, vs)
    else vs[|vs| - 1]
  }

  /** HoconField.Value */
  function FieldView(d: Doc, f: nat): Value {
    Latest(d, FieldAt(d, f).history)
  }

  function Views(d: Doc, fs: seq<nat>): (vs: seq<Value>)
    ensures |vs| == |fs|
    ensures forall i | 0 <= i < |fs| :: vs[i] == FieldView(d, fs[i])
  {
    if |fs| == 0 then [] else [FieldView(d, fs[0])] + Views(d, fs[1..])
  }

  function ChildFields(d: Doc, v: Value, key: string): seq<nat> {
    FieldsNamed(d, ObjectIds(Operands(d, v)), key)
  }

  /** GetChildObject(key) / TryGetValue of one key: the merged value of every field named key. */
  function GetChild(d: Doc, v: Value, key: string): (r: Option<Value>)
    ensures r.None? <==> |ChildFields(d, v, key)| == 0
  {
    var fs := ChildFields(d, v, key);
    if |fs| == 0 then None else Some(Latest(d, Views(d, fs)))
  }

  /** TryGetValue(path): descend one key at a time. */
  function LookupValue(d: Doc, v: Value, p: Path): Option<Value>
    decreases |p|
  {
    if |p| == 0 then Some(v)
    else match GetChild(d, v, p[0])
      case None => None
      case Some(c) => LookupValue(d, c, p[1..])
  }

  /** TryGetField(path): the field a path names; the last one when several objects define it. */
  function LookupField(d: Doc, v: Value, p: Path): Option<nat>
    decreases |p|
  {
    if |p| == 0 then None
    else if |p| == 1 then
      var fs := ChildFields(d, v, p[0]);
      if |fs| == 0 then None else Some(fs[|fs| - 1])
    else match GetChild(d, v, p[0])
      case None => None
      case Some(c) => LookupField(d, c, p[1..])
  }

  /** Looking a path up is looking its parts up in turn. */
  lemma {:induction false} LookupValueCompose(d: Doc, v: Value, p: Path, q: Path)
    ensures LookupValue(d, v, p + q) ==
      match LookupValue(d, v, p) case None => None case Some(w) => LookupValue(d, w, q)
    decreases |p|
  {
    if |p| > 0 {
      assert (p + q)[0] == p[0];
      assert (p + q)[1..] == p[1..] + q;
      match GetChild(d, v, p[0])
      case None =>
      case Some(c) => LookupValueCompose(d, c, p[1..], q);
    } else {
      assert p + q == q;
    }
  }

  /** One more key of a path: the child of what the shorter prefix found. */
  lemma LookupValueStep(d: Doc, v: Value, p: Path, i: nat)
    requires i < |p|
    ensures LookupValue(d, v, p[..i + 1]) ==
      match LookupValue(d, v, p[..i]) case None => None case Some(w) => GetChild(d, w, p[i])
  {
    var pre, k := p[..i], p[i];
    assert p[..i + 1] == pre + [k];
    LookupValueCompose(d, v, pre, [k]);
    LookupSingle(d, k);
  }

  /** A one-key path looks up that key. */
  lemma LookupSingle(d: Doc, k: string)
    ensures forall w :: LookupValue(d, w, [k]) == GetChild(d, w, k)
  {
    assert [k][0] == k && [k][1..] == [];
  }

  // ---------------------------------------------------------------------------------------
  // Building: TraversePath and SetValue.

  /** The field `key` of object `o`, added (with path `path`) when the object has none. */
  function FindOrAddField(d: Doc, o: nat, key: string, path: Path): (r: (Doc, nat))
    ensures r.0.subs == d.subs
    ensures |d.fields| <= |r.0.fields| && |d.objects| <= |r.0.objects|
    ensures var fs := Matching(MembersOf(d, o), key);
      |fs| > 0 ==> r.0 == d && r.1 == fs[|fs| - 1]
    ensures |Matching(MembersOf(d, o), key)| == 0 ==>
      r.1 == |d.fields| && r.0.fields == d.fields + [FieldRec(path, [])] &&
      r.0.objects == if o < |d.objects| then d.objects[o := d.objects[o] + [Member(key, r.1)]] else d.objects
    ensures o < |d.objects| ==> Member(key, r.1) in MembersOf(r.0, o)
    ensures forall o' :: MembersOf(d, o') <= MembersOf(r.0, o')
    ensures forall g | 0 <= g < |d.fields| :: r.0.fields[g] == d.fields[g]
    ensures forall g | |d.fields| <= g < |r.0.fields| :: r.0.fields[g].path == path
  {
    var fs := Matching(MembersOf(d, o), key);
    if |fs| > 0 then (d, fs[|fs| - 1])
    else
      var f := |d.fields|;
      var objects := if o < |d.objects| then d.objects[o := d.objects[o] + [Member(key, f)]] else d.objects;
      (d.(objects := objects, fields := d.fields + [FieldRec(path, [])]), f)
  }

  /** HoconField.SetValue: the new value becomes the latest entry of the field's history. */
  function SetValue(d: Doc, f: nat, v: Value): (r: Doc)
    ensures r.subs == d.subs && r.objects == d.objects && |r.fields| == |d.fields|
    ensures f < |d.fields| ==>
      (r.fields[f].history == d.fields[f].history + [v] && r.fields[f].path == d.fields[f].path)
    ensures forall g | 0 <= g < |d.fields| && g != f :: r.fields[g] == d.fields[g]
  {
    if f < |d.fields| then d.(fields := d.fields[f := d.fields[f].(history := d.fields[f].history + [v])])
    else d
  }

  /** The object a path continues into below field f: its latest object, or a fresh one assigned to it. */
  function ChildObject(d: Doc, f: nat): (r: (Doc, nat))
    ensures r.0.subs == d.subs
    ensures |r.0.fields| == |d.fields| && |d.objects| <= |r.0.objects|
    ensures forall g | 0 <= g < |d.fields| :: r.0.fields[g].path == d.fields[g].path
    ensures forall o' :: MembersOf(d, o') <= MembersOf(r.0, o')
  {
    var view := FieldView(d, f);
    var ids := ObjectIds(Operands(d, view));
    if TypeOf(d, view) == ObjectType && |ids| > 0 then (d, ids[|ids| - 1])
    else
      var o := |d.objects|;
      (SetValue(d.(objects := d.objects + [[]]), f, Single(ObjectRef(o))), o)
  }

  /**
   * HoconObject.TraversePath: the field of every prefix of `keys`, creating what is missing.
   * The first key is a member of `o`; every field the walk creates is named by a prefix of
   * `keys` below `base`; fields that existed keep their paths and objects only gain members.
   */
  function TraversePath(d: Doc, o: nat, keys: Path, base: Path): (r: (Doc, seq<nat>))
    ensures |r.1| == |keys|
    ensures r.0.subs == d.subs
    ensures |d.fields| <= |r.0.fields| && |d.objects| <= |r.0.objects|
    ensures |keys| > 0 && o < |d.objects| ==> Member(keys[0], r.1[0]) in MembersOf(r.0, o)
    ensures forall g | 0 <= g < |d.fields| :: r.0.fields[g].path == d.fields[g].path
    ensures forall o' :: MembersOf(d, o') <= MembersOf(r.0, o')
    decreases |keys|, 0
  {
    if |keys| == 0 then (d, [])
    else
      var (d1, f) := FindOrAddField(d, o, keys[0], base + [keys[0]]);
      KeyPrefixes(base, keys);
      if |keys| == 1 then (d1, [f])
      else
        var (d3, rest) := WalkBelow(d1, f, keys[1..], base + [keys[0]]);
        (d3, [f] + rest)
  }

  /** The rest of a walk below field f: f's child object, then the remaining keys from there. */
  function WalkBelow(d: Doc, f: nat, keys: Path, base: Path): (r: (Doc, seq<nat>))
    ensures |r.1| == |keys|
    ensures r.0.subs == d.subs
    ensures |d.fields| <= |r.0.fields| && |d.objects| <= |r.0.objects|
    ensures forall g | 0 <= g < |d.fields| :: r.0.fields[g].path == d.fields[g].path
    ensures forall o' :: MembersOf(d, o') <= MembersOf(r.0, o')
    decreases |keys|, 1
  {
    var (d2, o2) := ChildObject(d, f);
    TraversePath(d2, o2, keys, base)
  }

  /** Every field of `fields` from index `from` on has a path that extends `base` by a non-empty prefix of `keys`. */
  predicate FieldsUnder(fields: seq<FieldRec>, from: nat, base: Path, keys: Path) {
    forall g | from <= g < |fields| ::
      |base| < |fields[g].path| <= |base| + |keys| && fields[g].path == base + keys[..|fields[g].path| - |base|]
  }

  /** Every field a walk creates lies on the walked path, below `base`. */
  lemma {:induction false} TraversePathCreates(d: Doc, o: nat, keys: Path, base: Path)
    ensures FieldsUnder(TraversePath(d, o, keys, base).0.fields, |d.fields|, base, keys)
    decreases |keys|
  {
    if |keys| > 0 {
      var first := FindOrAddField(d, o, keys[0], base + [keys[0]]);
      KeyPrefixes(base, keys);
      if |keys| == 1 {
        assert TraversePath(d, o, keys, base).0 == first.0;
        assert base + keys[..1] == base + [keys[0]];
      } else {
        var child := ChildObject(first.0, first.1);
        TraversePathCreates(child.0, child.1, keys[1..], base + [keys[0]]);
        var rest := TraversePath(child.0, child.1, keys[1..], base + [keys[0]]);
        assert TraversePath(d, o, keys, base).0 == rest.0;
        NewFieldsUnder(|d.fields|, first.0.fields, rest.0.fields, base, keys);
      }
    }
  }

  /** The fields a walk adds: those of its first step, then those of the rest of the walk. */
  lemma NewFieldsUnder(n0: nat, first: seq<FieldRec>, all: seq<FieldRec>, base: Path, keys: Path)
    requires |keys| > 1 && n0 <= |first| <= |all|
    requires forall g | n0 <= g < |first| :: first[g].path == base + [keys[0]]
    requires forall g | 0 <= g < |first| :: all[g].path == first[g].path
    requires FieldsUnder(all, |first|, base + [keys[0]], keys[1..])
    ensures FieldsUnder(all, n0, base, keys)
  {
    KeyPrefixes(base, keys);
    forall g | n0 <= g < |all|
      ensures |base| < |all[g].path| <= |base| + |keys| && all[g].path == base + keys[..|all[g].path| - |base|]
    {
      if g < |first| {
        assert all[g].path == base + keys[..1];
      } else {
        var n := |all[g].path| - |base + [keys[0]]|;
        assert all[g].path == base + keys[..n + 1];
      }
    }
  }

  /** The prefixes of `keys` below `base`, seen from one key further down. */
  lemma KeyPrefixes(base: Path, keys: Path)
    requires |keys| > 0
    ensures base + [keys[0]] == base + keys[..1]
    ensures forall n | 0 <= n < |keys| :: base + [keys[0]] + keys[1..][..n] == base + keys[..n + 1]
  {
    assert keys[..1] == [keys[0]];
    forall n | 0 <= n < |keys|
      ensures base + [keys[0]] + keys[1..][..n] == base + keys[..n + 1]
    {
      assert keys[..n + 1] == [keys[0]] + keys[1..][..n];
    }
  }

  /** List.Remove: drop the first occurrence, if any. */
  function RemoveFirst(s: seq<nat>, x: nat): (r: seq<nat>)
    ensures x !in s ==> r == s
    ensures x in s ==> |r| == |s| - 1 && multiset(r) == multiset(s) - multiset{x}
    ensures forall y | y in r :: y in s
  {
    if |s| == 0 then s
    else
      assert s == [s[0]] + s[1..];
      if s[0] == x then s[1..]
      else [s[0]] + RemoveFirst(s[1..], x)
  }

  function RemoveAll(s: seq<nat>, xs: seq<nat>): (r: seq<nat>)
    ensures multiset(r) <= multiset(s)
    ensures forall x | x in r :: x in s
    decreases |xs|
  {
    if |xs| == 0 then s else RemoveAll(RemoveFirst(s, xs[0]), xs[1..])
  }

  // ---------------------------------------------------------------------------------------
  // Includes: the included document's substitutions and fields move under the include's path.

  function PrefixSubs(subs: seq<SubRec>, ids: seq<nat>, p: Path): (r: seq<SubRec>)
    ensures |r| == |subs|
    ensures forall i | 0 <= i < |subs| ::
      r[i] == if i in ids then subs[i].(path := p + subs[i].path) else subs[i]
  {
    seq(|subs|, i requires 0 <= i < |subs| =>
      if i in ids then subs[i].(path := p + subs[i].path) else subs[i])
  }

  function PrefixFields(fields: seq<FieldRec>, from: nat, p: Path): (r: seq<FieldRec>)
    ensures |r| == |fields|
    ensures forall i | 0 <= i < |fields| ::
      r[i] == if from <= i then fields[i].(path := p + fields[i].path) else fields[i]
  {
    seq(|fields|, i requires 0 <= i < |fields| =>
      if from <= i then fields[i].(path := p + fields[i].path) else fields[i])
  }
}
