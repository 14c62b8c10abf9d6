/**
 * HoconParser: the recursive-descent parser over the token cursor, with its current key
 * path (`Path`), its list of substitutions (`_substitutions`) and the root value it builds,
 * and the resolution pass that runs once parsing is done.
 *
 * The document it builds lives in the arena `doc` (see module Document); every method that
 * creates objects, fields or substitutions extends that arena.
 */
module Parser {
  import opened Wrappers
  import opened Tokens
  import opened Cursor
  import opened Paths
  import opened Strings
  import opened Document
  import opened IncludeClause
  import opened Cycles
  import opened Grammar
  import opened Resolution
  import opened Root

  /** The owner ParseObjectAsync is given: none (the root), a value, or an array. */
  datatype ParentKind = NoParent | ValueParent | ArrayParent

  /** ParseObjectAsync's lastValue: nothing since the last separator, a field, or an include's value. */
  datatype Pending = NoPending | FieldPending | IncludePending(v: Value)

  /**
   * What becomes of an include's value inside an object once a separator or the end of the
   * object is reached: its objects are added to the object's parent, which must be a value.
   * An array parent fails the cast to HoconValue, a missing parent is dereferenced.
   */
  function Flush(d: Doc, parent: ParentKind, pv: Value, included: Value): (r: Result<Value>)
    ensures parent == ArrayParent ==> r == Err(InvalidCast)
    ensures r.Ok? ==> parent == ValueParent && GetObject(d, included).Ok?
    ensures r.Ok? ==> r.value == Value(pv.ops + GetObject(d, included).value)
  {
    match parent
    case ArrayParent => Err(InvalidCast)
    case NoParent => (match GetObject(d, included) case Err(e) => Err(e) case Ok(_) => Err(NullDereference))
    case ValueParent => (match GetObject(d, included) case Err(e) => Err(e) case Ok(objs) => AddAll(d, pv, objs))
  }

  /**
   * What an include at the top level makes of the root: the objects of the included value
   * replace a root that is not an object and are added to one that is. The included value
   * must be an object or empty.
   */
  function MergeInclude(d: Doc, root: Value, included: Value): (r: Result<Value>)
    ensures r.Ok? <==> GetObject(d, included).Ok?
    ensures r.Err? ==> r.error == NotAnObject
    ensures r.Ok? ==> forall o :: ObjectRef(o) in r.value.ops <==>
      (ObjectRef(o) in Operands(d, included) || (TypeOf(d, root) == ObjectType && ObjectRef(o) in root.ops))
    ensures r.Ok? && TypeOf(d, root) == ObjectType ==> root.ops <= r.value.ops && TypeOf(d, r.value) == ObjectType
    ensures r.Ok? && TypeOf(d, root) != ObjectType ==> forall i | 0 <= i < |r.value.ops| :: r.value.ops[i].ObjectRef?
  {
    match GetObject(d, included)
    case Err(e) => Err(e)
    case Ok(objs) =>
      if TypeOf(d, root) != ObjectType then Ok(Value(objs))
      else
        AddAllObjects(d, root, objs);
        ExpandPlain(d, objs, |d.subs|);
        TypeOfAppend(d, root, Value(objs));
        AddAll(d, root, objs)
  }

  /** What an object at the top level makes of the root: it replaces a root that is not an object and is added to one that is. */
  function MergeObject(d: Doc, root: Value, o: nat): (r: Value)
    ensures TypeOf(d, r) == ObjectType
    ensures |r.ops| > 0 && r.ops[|r.ops| - 1] == ObjectRef(o)
    ensures forall e :: e in r.ops <==> (e == ObjectRef(o) || (TypeOf(d, root) == ObjectType && e in root.ops))
    ensures TypeOf(d, root) == ObjectType ==> root.ops <= r.ops && Add(d, root, ObjectRef(o)) == Ok(r)
  {
    ExpandPlain(d, [ObjectRef(o)], |d.subs|);
    if TypeOf(d, root) != ObjectType then Single(ObjectRef(o))
    else
      TypeOfAppend(d, root, Single(ObjectRef(o)));
      Append(root, ObjectRef(o))
  }

  /**
   * The end of ParseValueAsync: a literal value loses its trailing white-space literal, if it
   * has one; any other value is kept as it is.
   */
  function TrimLiteral(d: Doc, v: Value): (r: Value)
    ensures |v.ops| == 0 || TypeOf(d, v) != LiteralType ==> r == v
    ensures |r.ops| <= |v.ops| && r.ops == v.ops[..|r.ops|] && |v.ops| <= |r.ops| + 1
    ensures |r.ops| < |v.ops| <==>
      TypeOf(d, v) == LiteralType && |v.ops| > 0 && v.ops[|v.ops| - 1].Literal? && v.ops[|v.ops| - 1].kind == WhitespaceString
  {
    var n := |v.ops|;
    if TypeOf(d, v) == LiteralType && n > 0 && v.ops[n - 1].Literal? && v.ops[n - 1].kind == WhitespaceString
    then Value(v.ops[..n - 1])
    else v
  }

  /** The tokens that end a run of concatenated values. */
  predicate EndsValue(k: TokenType) {
    k.EndOfObject? || k.EndOfArray? || k.EndOfLine? || k.EndOfFile? || k.Comma?
  }

  /** Every token ParseValueAsync has a case for. */
  predicate InValue(k: TokenType) {
    || EndsValue(k) || k.Include? || k.LiteralValue? || k.StartOfObject? || k.StartOfArray?
    || IsSubstitution(k) || k.Comment? || k.Assign?
  }

  /** The tokens of ParseValueAsync whose case adds an operand to the value. */
  predicate StartsOperand(k: TokenType) {
    k.Include? || k.LiteralValue? || k.StartOfObject? || k.StartOfArray? || IsSubstitution(k)
  }

  predicate IsSubstitution(k: TokenType) {
    k.SubstituteRequired? || k.SubstituteOptional?
  }

  /** The tokens that start an array element other than a literal. */
  predicate StartsElement(k: TokenType) {
    IsSubstitution(k) || k.Include? || k.StartOfArray? || k.StartOfObject?
  }

  /** A value run from p stopped at q: on a token that ends values, or after a comment and the blank lines that follow it. */
  ghost predicate ValueStopped(ts: TokenStream, p: nat, q: nat)
    requires q < |ts|
  {
    EndsValue(ts[q].kind) || exists c | p <= c < q :: ts[c].kind == Comment && Consume(ts, c, Whitelines) == q
  }

  /** Where a literal in an object starts once a leading white-space literal and what follows it are skipped. */
  function PastBlank(ts: TokenStream, p: nat): (q: nat)
    requires p < |ts|
    ensures p <= q < |ts|
    ensures IsNonSignificant(ts[p]) ==> !Skippable(ts[q], WhitespaceAndComments)
    ensures !IsNonSignificant(ts[p]) ==> q == p
  {
    if IsNonSignificant(ts[p]) then Consume(ts, p, WhitespaceAndComments) else p
  }

  /**
   * What an include leaves behind: the substitutions listed before it stay first, each one
   * it added lies under `p`, and so does each field it added.
   */
  /** The literal tokens a value's literal run from p takes: those after a leading blank, up to the first non-literal. */
  function LiteralRunAt(ts: TokenStream, p: nat): seq<Token>
    requires p < |ts|
  {
    ts[PastBlank(ts, p)..LiteralRunEnd(ts, PastBlank(ts, p))]
  }

  ghost predicate IncludedUnderPath(d0: Doc, d: Doc, subs0: seq<nat>, subs1: seq<nat>, p: Path) {
    && |subs0| <= |subs1| && subs1[..|subs0|] == subs0
    && (forall j | |subs0| <= j < |subs1| ::
          subs1[j] < |d.subs| && |p| <= |d.subs[subs1[j]].path| && d.subs[subs1[j]].path[..|p|] == p)
    && (forall g | |d0.fields| <= g < |d.fields| :: |p| <= |d.fields[g].path| && d.fields[g].path[..|p|] == p)
  }

  /** The fix-up after an include puts its substitutions and fields under the include's path. */
  lemma PrefixedUnderPath(d0: Doc, nd: Doc, subs0: seq<nat>, nsubs: seq<nat>, p: Path)
    requires forall s | s in nsubs :: s < |nd.subs|
    ensures var fixed := nd.(subs := PrefixSubs(nd.subs, nsubs, p), fields := PrefixFields(nd.fields, |d0.fields|, p));
      IncludedUnderPath(d0, fixed, subs0, subs0 + nsubs, p)
    ensures var fixed := nd.(subs := PrefixSubs(nd.subs, nsubs, p), fields := PrefixFields(nd.fields, |d0.fields|, p));
      && (forall j | 0 <= j < |nsubs| :: fixed.subs[nsubs[j]].path == p + nd.subs[nsubs[j]].path)
      && (forall g | |d0.fields| <= g < |nd.fields| :: fixed.fields[g].path == p + nd.fields[g].path)
  {
    var fixed := nd.(subs := PrefixSubs(nd.subs, nsubs, p), fields := PrefixFields(nd.fields, |d0.fields|, p));
    var all := subs0 + nsubs;
    assert all[..|subs0|] == subs0;
    forall j | |subs0| <= j < |all|
      ensures all[j] < |fixed.subs| && |p| <= |fixed.subs[all[j]].path| && fixed.subs[all[j]].path[..|p|] == p
    {
      var s := nsubs[j - |subs0|];
      assert all[j] == s && s in nsubs;
      assert fixed.subs[s].path == p + nd.subs[s].path;
      assert (p + nd.subs[s].path)[..|p|] == p;
    }
    forall g | |d0.fields| <= g < |fixed.fields|
      ensures |p| <= |fixed.fields[g].path| && fixed.fields[g].path[..|p|] == p
    {
      assert fixed.fields[g].path == p + nd.fields[g].path;
      assert (p + nd.fields[g].path)[..|p|] == p;
    }
  }

  class HoconParser {
    /** `_tokens` */
    const cursor: TokenCursor
    /** `_includeCallback`: the text an include names, or None for null. */
    const callback: (CallbackType, string) -> Option<string>
    /** The tokenizer, not part of this model: None when it fails. */
    const tokenize: string -> Option<TokenStream>
    /** The substitutions HoconField.SetValue reports as overwritten, not part of this model. */
    const retired: (Doc, nat, Value) -> seq<nat>
    var doc: Doc
    /** `_substitutions` */
    var subs: seq<nat>
    /** `Path` */
    var path: Path
    /** `_root` */
    var root: Value

    ghost predicate Valid()
      reads this, cursor
    {
      cursor.Valid() && forall s | s in subs :: s < |doc.subs|
    }

    /**
     * The cursor only moves forward and the arena only grows; parsing resolves no
     * substitution, so an arena with none resolved keeps none resolved.
     */
    twostate predicate Extended()
      reads this, cursor
    {
      && old(cursor.pos) <= cursor.pos
      && |old(doc.subs)| <= |doc.subs| && |old(doc.objects)| <= |doc.objects| && |old(doc.fields)| <= |doc.fields|
      && (Unresolved(old(doc)) ==> Unresolved(doc))
    }

    /** Extended, with the root value left alone: what every parse below the top level ensures. */
    twostate predicate Grown()
      reads this, cursor
    {
      Extended() && root == old(root)
    }

    /** A parser over the token stream, building into the arena `doc` (shared with the parser that includes it). */
    constructor (ts: TokenStream, callback: (CallbackType, string) -> Option<string>,
                 tokenize: string -> Option<TokenStream>, retired: (Doc, nat, Value) -> seq<nat>, doc: Doc)
      ensures Valid() && fresh(cursor)
      ensures cursor.tokens == ts && cursor.pos == 0
      ensures this.callback == callback && this.tokenize == tokenize && this.retired == retired
      ensures this.doc == doc && subs == [] && path == [] && root == NoValue
    {
      cursor := new TokenCursor(ts);
      this.callback := callback;
      this.tokenize := tokenize;
      this.retired := retired;
      this.doc := doc;
      subs := [];
      path := [];
      root := NoValue;
    }

    /** ConsumeWhitespace: past the current token, then past white-space literals and comments. */
    method ConsumeWhitespace()
      requires Valid()
      modifies cursor
      ensures Valid() && cursor.pos == Consume(cursor.tokens, old(cursor.pos), WhitespaceAndComments)
    {
      cursor.Next();
      while cursor.Current().kind != EndOfFile && Skippable(cursor.Current(), WhitespaceAndComments)
        invariant cursor.Valid()
        invariant SkipFrom(cursor.tokens, cursor.pos, WhitespaceAndComments) ==
          Consume(cursor.tokens, old(cursor.pos), WhitespaceAndComments)
        decreases |cursor.tokens| - cursor.pos
      {
        cursor.Next();
      }
    }

    /** ConsumeWhitelines: past the current token, then past white-space literals, comments and line ends. */
    method ConsumeWhitelines()
      requires Valid()
      modifies cursor
      ensures Valid() && cursor.pos == Consume(cursor.tokens, old(cursor.pos), Whitelines)
    {
      cursor.Next();
      while cursor.Current().kind != EndOfFile && Skippable(cursor.Current(), Whitelines)
        invariant cursor.Valid()
        invariant SkipFrom(cursor.tokens, cursor.pos, Whitelines) == Consume(cursor.tokens, old(cursor.pos), Whitelines)
        decreases |cursor.tokens| - cursor.pos
      {
        cursor.Next();
      }
    }

    /** ParseKey: skip white space, read the literal run, drop its trailing white space. */
    method ParseKey() returns (r: Result<Path>)
      requires Valid()
      modifies cursor
      ensures Valid()
      ensures r == KeyOf(cursor.tokens, old(cursor.pos))
      ensures cursor.pos == KeyEnd(cursor.tokens, old(cursor.pos))
    {
      SkipKeyWhitespace();
      if cursor.Current().kind != LiteralValue {
        return Err(KeyExpected);
      }
      var keyTokens := ReadLiteralRun();
      var n := TrimmedLength(keyTokens);
      r := Ok(FromTokens(keyTokens[..n]));
    }

    /** ParseKey's first loop: past the white-space literals, without consuming the current token. */
    method SkipKeyWhitespace()
      requires Valid()
      modifies cursor
      ensures Valid() && cursor.pos == KeyStart(cursor.tokens, old(cursor.pos))
    {
      while cursor.Current().literal == Whitespace
        invariant cursor.Valid()
        invariant SkipFrom(cursor.tokens, cursor.pos, WhitespaceLiterals) == KeyStart(cursor.tokens, old(cursor.pos))
        decreases |cursor.tokens| - cursor.pos
      {
        cursor.Next();
      }
    }

    /** ParseKey's second loop: the literal tokens from the cursor on, up to the first token that is not one. */
    method ReadLiteralRun() returns (run: seq<Token>)
      requires Valid()
      modifies cursor
      ensures Valid() && cursor.pos == LiteralRunEnd(cursor.tokens, old(cursor.pos))
      ensures run == cursor.tokens[old(cursor.pos)..cursor.pos]
    {
      ghost var q := cursor.pos;
      run := [];
      while cursor.Current().kind == LiteralValue
        invariant cursor.Valid() && q <= cursor.pos <= LiteralRunEnd(cursor.tokens, q)
        invariant run == cursor.tokens[q..cursor.pos]
        decreases |cursor.tokens| - cursor.pos
      {
        run := run + [cursor.Current()];
        cursor.Next();
      }
    }

    /** ParseKey's trimming (reverse, drop leading white space, reverse back): how many key tokens remain. */
    static method TrimmedLength(keyTokens: seq<Token>) returns (n: nat)
      ensures n <= |keyTokens| && keyTokens[..n] == TrimTrailingWhitespace(keyTokens)
    {
      n := |keyTokens|;
      assert keyTokens[..n] == keyTokens;
      while n > 0 && keyTokens[n - 1].literal == Whitespace
        invariant 0 <= n <= |keyTokens|
        invariant TrimTrailingWhitespace(keyTokens[..n]) == TrimTrailingWhitespace(keyTokens)
      {
        TrimStep(keyTokens, n);
        n := n - 1;
      }
      TrimStop(keyTokens, n);
    }
  
    /** A substitution token met in a value or an array: a new substitution, pending resolution. */
    method AddSubstitution(t: Token, owner: Option<nat>, inArray: bool) returns (s: nat)
      requires Valid()
      modifies this
      ensures Valid() && s == |old(doc.subs)|
      ensures doc == old(doc).(subs := old(doc.subs) + [SubRec(ParsePath(t.text), t.kind == SubstituteRequired,
        owner, if owner.Some? then |FieldAt(old(doc), owner.value).history| else 0, inArray, None)])
      ensures subs == old(subs) + [s] && path == old(path) && root == old(root)
    {
      var entry := if owner.Some? then |FieldAt(doc, owner.value).history| else 0;
      s := |doc.subs|;
      doc := doc.(subs := doc.subs + [SubRec(ParsePath(t.text), t.kind == SubstituteRequired, owner, entry, inArray, None)]);
      subs := subs + [s];
    }

    /**
     * ParseFieldAsync: a key, then `=`/`:` or `{`, then the value, assigned to the field the
     * key names below object o. The key is pushed onto `path` while the value is parsed and
     * popped again afterwards. Returns the field of the key's first segment.
     */
    method ParseField(depth: nat, o: nat) returns (r: Result<nat>)
      requires Valid()
      modifies this, cursor
      ensures Valid() && Grown()
      ensures r.Ok? ==> path == old(path) && old(cursor.pos) < cursor.pos
      ensures cursor.tokens[old(cursor.pos)].kind != LiteralValue ==> r == Err(FieldStartExpected)
      ensures cursor.tokens[old(cursor.pos)].kind == LiteralValue ==>
        var key := KeyOf(cursor.tokens, old(cursor.pos));
        var next := cursor.tokens[KeyEnd(cursor.tokens, old(cursor.pos))].kind;
        && (key.Err? ==> r == key.PropagateFailure())
        && (key.Ok? && next != Assign && next != StartOfObject ==> r == Err(AssignExpected))
        && (key.Ok? && (next == Assign || next == StartOfObject) && |key.value| == 0 ==> r == Err(EmptyKey))
      decreases depth, |cursor.tokens| - cursor.pos, 2
    {
      if cursor.Current().kind != LiteralValue {
        return Err(FieldStartExpected);
      }
      var key :- ParseKey();
      var t := cursor.Current();
      if t.kind != Assign && t.kind != StartOfObject {
        return Err(AssignExpected);
      }
      if |key| == 0 {
        return Err(EmptyKey);
      }
      KeyEndsAtNonLiteral(cursor.tokens, old(cursor.pos));
      r := FieldValue(depth, o, key, old(cursor.pos));
    }

    /**
     * The rest of ParseFieldAsync once the key is read: the fields the key names are found
     * or added below object o, the value is parsed with the key pushed onto `path` and
     * assigned to the last of them; the substitutions the assignment retires leave the list.
     * `start` is where the field began.
     */
    method FieldValue(depth: nat, o: nat, key: Path, ghost start: nat) returns (r: Result<nat>)
      requires Valid() && |key| > 0 && start < cursor.pos
      modifies this, cursor
      ensures Valid() && Grown()
      ensures r.Ok? ==> path == old(path)
      decreases depth, |cursor.tokens| - start, 1
    {
      var traversed := TraversePath(doc, o, key, path);
      doc := traversed.0;
      var fs := traversed.1;
      path := path + key;
      var f := fs[|fs| - 1];
      var v :- ParseValue(depth, Some(f), false);
      var dropped := retired(doc, f, v);
      doc := SetValue(doc, f, v);
      subs := RemoveAll(subs, dropped);
      path := path[..|path| - |key|];
      assert path == old(path);
      r := Ok(fs[0]);
    }

    /**
     * ParseValueAsync: a run of concatenated operands (includes, literals, objects, arrays,
     * substitutions) up to the token that ends it. Every operand is added with the
     * concatenation check; a trailing white-space literal of a literal value is dropped.
     * `owner` is the field the value belongs to, `inArray` whether its parent is an array.
     */
    method ParseValue(depth: nat, owner: Option<nat>, inArray: bool) returns (r: Result<Value>)
      requires Valid()
      modifies this, cursor
      ensures Valid() && Grown()
      ensures r.Ok? ==> path == old(path)
      ensures r.Ok? ==> ValueStopped(cursor.tokens, old(cursor.pos), cursor.pos)
      ensures r.Ok? && (cursor.tokens[old(cursor.pos)].kind.LiteralValue? || cursor.tokens[old(cursor.pos)].kind.StartOfArray?) ==> old(cursor.pos) < cursor.pos
      ensures !InValue(cursor.tokens[old(cursor.pos)].kind) ==> r == Err(UnexpectedValueToken)
      ensures EndsValue(cursor.tokens[old(cursor.pos)].kind) ==> r == Ok(NoValue) && cursor.pos == old(cursor.pos)
      ensures r.Ok? && Unresolved(old(doc)) ==> Homogeneous(doc, r.value)
      decreases depth, |cursor.tokens| - cursor.pos, 10
    {
      var value := NoValue;
      var parsing := true;
      while parsing
        invariant Valid() && Grown() && path == old(path)
        invariant Unresolved(old(doc)) ==> Homogeneous(doc, value)
        invariant !parsing ==> ValueStopped(cursor.tokens, old(cursor.pos), cursor.pos)
        invariant cursor.pos == old(cursor.pos) ==> value == NoValue
        invariant !parsing && cursor.pos == old(cursor.pos) ==> EndsValue(cursor.tokens[cursor.pos].kind)
        invariant !InValue(cursor.tokens[old(cursor.pos)].kind) ==> parsing && cursor.pos == old(cursor.pos)
        invariant EndsValue(cursor.tokens[old(cursor.pos)].kind) ==> cursor.pos == old(cursor.pos)
        decreases (if parsing then 1 else 0), |cursor.tokens| - cursor.pos
      {
        var next :- ValueStep(depth, owner, inArray, value, old(cursor.pos));
        value, parsing := next.0, next.1;
      }
      var trimmed := TrimLiteral(doc, value);
      if Unresolved(old(doc)) {
        HomogeneousPrefix(doc, value, |trimmed.ops|);
      }
      r := Ok(trimmed);
    }

    /**
     * One pass of ParseValueAsync's loop: the case for the current token. Returns the value
     * so far and whether the run goes on. `start` is where the value began.
     */
    method ValueStep(depth: nat, owner: Option<nat>, inArray: bool, value: Value, ghost start: nat)
      returns (r: Result<(Value, bool)>)
      requires Valid() && start <= cursor.pos
      modifies this, cursor
      ensures Valid() && Grown()
      ensures r.Ok? ==> path == old(path)
      ensures r.Ok? && r.value.1 ==> old(cursor.pos) < cursor.pos
      ensures r.Ok? && !r.value.1 ==> ValueStopped(cursor.tokens, start, cursor.pos)
      ensures r.Ok? && cursor.pos == old(cursor.pos) ==> r.value.0 == value && !r.value.1 && EndsValue(cursor.Current().kind)
      ensures !InValue(cursor.tokens[old(cursor.pos)].kind) ==> r == Err(UnexpectedValueToken)
      ensures EndsValue(cursor.tokens[old(cursor.pos)].kind) ==> r == Ok((value, false)) && cursor.pos == old(cursor.pos)
      ensures r.Ok? ==> |value.ops| <= |r.value.0.ops| && r.value.0.ops[..|value.ops|] == value.ops
      ensures r.Ok? && Unresolved(old(doc)) && Homogeneous(old(doc), value) ==> Homogeneous(doc, r.value.0)
      ensures r.Ok? && StartsOperand(cursor.tokens[old(cursor.pos)].kind) ==> r.value.1
      decreases depth, |cursor.tokens| - start, 9

    {
      var t := cursor.Current();
      match t.kind {
        case Include | LiteralValue | StartOfObject | StartOfArray | SubstituteRequired | SubstituteOptional =>
          var v :- ValueOperand(depth, owner, inArray, value);
          r := Ok((v, true));
        case EndOfObject | EndOfArray | EndOfLine | EndOfFile | Comma =>
          r := Ok((value, false));
        case Comment =>
          ghost var c := cursor.pos;
          ConsumeWhitelines();
          assert cursor.tokens[c].kind == Comment && Consume(cursor.tokens, c, Whitelines) == cursor.pos;
          r := Ok((value, false));
        case Assign =>
          ConsumeWhitelines();
          r := Ok((value, true));
        case _ =>
          r := Err(UnexpectedValueToken);
      }
    }

    /** The cases of ParseValueAsync that add an operand: an include, a literal run, an object, an array or a substitution. */
    method ValueOperand(depth: nat, owner: Option<nat>, inArray: bool, value: Value) returns (r: Result<Value>)
      requires Valid() && StartsOperand(cursor.Current().kind)
      modifies this, cursor
      ensures Valid() && Grown()
      ensures r.Ok? ==> path == old(path) && old(cursor.pos) < cursor.pos
      ensures r.Ok? ==> |value.ops| <= |r.value.ops| && r.value.ops[..|value.ops|] == value.ops
      ensures r.Ok? && Unresolved(old(doc)) && Homogeneous(old(doc), value) ==> Homogeneous(doc, r.value)
      ensures r.Ok? && cursor.tokens[old(cursor.pos)].kind == LiteralValue ==>
        r.value == Value(value.ops + LiteralsOf(LiteralRunAt(cursor.tokens, old(cursor.pos))))
      ensures r.Ok? && cursor.tokens[old(cursor.pos)].kind == Include && TypeOf(doc, value) != EmptyType ==> TypeOf(doc, r.value) == TypeOf(doc, value)
      ensures r.Ok? && cursor.tokens[old(cursor.pos)].kind == StartOfObject ==> TypeOf(doc, r.value) == ObjectType
      ensures r.Ok? && cursor.tokens[old(cursor.pos)].kind == StartOfArray ==> TypeOf(doc, r.value) == ArrayType
      ensures r.Ok? && IsSubstitution(cursor.tokens[old(cursor.pos)].kind) ==> r.value == Append(value, SubRef(|old(doc.subs)|))
      decreases depth, |cursor.tokens| - cursor.pos, 8
    {
      var t := cursor.Current();
      match t.kind {
        case Include =>
          r := ValueInclude(depth, value);
        case LiteralValue =>
          r := LiteralRun(value);
        case StartOfObject =>
          r := ValueObject(depth, value);
        case StartOfArray =>
          r := ValueArray(depth, owner, value);
        case SubstituteRequired | SubstituteOptional =>
          r := ValueSubstitution(owner, inArray, value);
      }
    }

    /** A substitution among a value's operands: recorded, and its reference added to the value. */
    method ValueSubstitution(owner: Option<nat>, inArray: bool, value: Value) returns (r: Result<Value>)
      requires Valid() && IsSubstitution(cursor.Current().kind)
      modifies this, cursor
      ensures Valid() && Grown() && path == old(path)
      ensures r.Ok? ==> old(cursor.pos) < cursor.pos
      ensures r.Ok? ==> r.value == Append(value, SubRef(|old(doc.subs)|))
      ensures r.Ok? ==> |value.ops| <= |r.value.ops| && r.value.ops[..|value.ops|] == value.ops
      ensures r.Ok? && Unresolved(old(doc)) && Homogeneous(old(doc), value) ==> Homogeneous(doc, r.value)
    {
      ghost var d0 := doc;
      var s := AddSubstitution(cursor.Current(), owner, inArray);
      r := Add(doc, value, SubRef(s));
      cursor.Next();
      if r.Ok? && Unresolved(d0) && Homogeneous(d0, value) {
        HomogeneousUnresolved(d0, doc, value);
        SingleHomogeneous(doc, SubRef(s));
        AddKeepsHomogeneous(doc, value, SubRef(s));
      }
    }

    /** An include among a value's operands: its value's operands join the value. */
    method ValueInclude(depth: nat, value: Value) returns (r: Result<Value>)
      requires Valid() && cursor.Current().kind == Include
      modifies this, cursor
      ensures Valid() && Grown() && path == old(path)
      ensures r.Ok? ==> old(cursor.pos) < cursor.pos
      ensures r.Ok? ==> |value.ops| <= |r.value.ops| && r.value.ops[..|value.ops|] == value.ops
      ensures r.Ok? && Unresolved(old(doc)) && Homogeneous(old(doc), value) ==> Homogeneous(doc, r.value)
      ensures r.Ok? && TypeOf(doc, value) != EmptyType ==> TypeOf(doc, r.value) == TypeOf(doc, value)
      decreases depth, |cursor.tokens| - cursor.pos, 7
    {
      ghost var d0 := doc;
      var v :- Included(depth, Some(TypeOf(doc, value)));
      r := AddAll(doc, value, v.ops);
      if r.Ok? {
        TypeOfAppend(doc, value, v);
      }
      if r.Ok? && Unresolved(d0) && Homogeneous(d0, value) {
        HomogeneousUnresolved(d0, doc, value);
        AddAllKeepsHomogeneous(doc, value, v.ops);
      }
    }

    /** An object among a value's operands, added to the value. */
    method ValueObject(depth: nat, value: Value) returns (r: Result<Value>)
      requires Valid() && cursor.Current().kind == StartOfObject
      modifies this, cursor
      ensures Valid() && Grown()
      ensures r.Ok? ==> path == old(path) && old(cursor.pos) < cursor.pos
      ensures r.Ok? ==> ObjectsAfter(value, r.value) && |r.value.ops| > |value.ops| && r.value.ops[|r.value.ops| - 1] == ObjectRef(|old(doc.objects)|)
      ensures r.Ok? ==> (TypeOf(doc, value) == EmptyType || TypeOf(doc, value) == ObjectType) && TypeOf(doc, r.value) == ObjectType
      ensures r.Ok? && Unresolved(old(doc)) && Homogeneous(old(doc), value) ==> Homogeneous(doc, r.value)
      decreases depth, |cursor.tokens| - cursor.pos, 7
    {
      ghost var d0 := doc;
      var res :- ParseObject(depth, ValueParent, value);
      r := Add(doc, res.1, ObjectRef(res.0));
      if r.Ok? {
        ObjectAdded(d0, doc, value, res.1, res.0);
      }
    }

    /** An array among a value's operands, added to the value. */
    method ValueArray(depth: nat, owner: Option<nat>, value: Value) returns (r: Result<Value>)
      requires Valid() && cursor.Current().kind == StartOfArray
      modifies this, cursor
      ensures Valid() && Grown()
      ensures r.Ok? ==> path == old(path) && old(cursor.pos) < cursor.pos
      ensures r.Ok? ==> |r.value.ops| == |value.ops| + 1 && r.value.ops[..|value.ops|] == value.ops && r.value.ops[|value.ops|].Array?
      ensures r.Ok? ==> (TypeOf(doc, value) == EmptyType || TypeOf(doc, value) == ArrayType) && TypeOf(doc, r.value) == ArrayType
      ensures r.Ok? && Unresolved(old(doc)) && Homogeneous(old(doc), value) ==> Homogeneous(doc, r.value)
      decreases depth, |cursor.tokens| - cursor.pos, 7
    {
      ghost var d0 := doc;
      var a :- ParseArray(depth, owner);
      r := Add(doc, value, a);
      if r.Ok? {
        AddAllTyped(doc, value, [a], ArrayType);
        if Unresolved(d0) && Homogeneous(d0, value) {
          HomogeneousUnresolved(d0, doc, value);
          SingleHomogeneous(doc, a);
          AddKeepsHomogeneous(doc, value, a);
        }
      }
    }

    /**
     * A run of literal tokens among a value's operands (leading white space and comments
     * skipped): each literal joins the value, up to the first token that is not a literal.
     */
    method LiteralRun(value: Value) returns (r: Result<Value>)
      requires Valid() && cursor.Current().kind == LiteralValue
      modifies cursor
      ensures Valid() && old(cursor.pos) <= cursor.pos
      ensures r.Ok? ==> old(cursor.pos) < cursor.pos && cursor.Current().kind != LiteralValue && |value.ops| <= |r.value.ops| && r.value.ops[..|value.ops|] == value.ops
      ensures r.Ok? <==> |LiteralRunAt(cursor.tokens, old(cursor.pos))| == 0 || Compatible(TypeOf(doc, value), LiteralType)
      ensures r.Err? ==> r.error == ConcatTypeMismatch
      ensures r.Ok? ==> r.value == Value(value.ops + LiteralsOf(LiteralRunAt(cursor.tokens, old(cursor.pos))))
      ensures r.Ok? ==> cursor.pos == LiteralRunEnd(cursor.tokens, PastBlank(cursor.tokens, old(cursor.pos)))
      ensures r.Ok? && |LiteralRunAt(cursor.tokens, old(cursor.pos))| > 0 ==> TypeOf(doc, r.value) == LiteralType
      ensures r.Ok? && Unresolved(doc) && Homogeneous(doc, value) ==> Homogeneous(doc, r.value)
    {
      var t := cursor.Current();
      if IsNonSignificant(t) {
        ConsumeWhitespace();
      }
      ghost var q := cursor.pos;
      ghost var run := LiteralRunAt(cursor.tokens, old(cursor.pos));
      assert q == PastBlank(cursor.tokens, old(cursor.pos));
      assert run == cursor.tokens[q..LiteralRunEnd(cursor.tokens, q)];
      r := AppendLiterals(value);
      if r.Ok? {
        assert (value.ops + LiteralsOf(run))[..|value.ops|] == value.ops;
        if cursor.pos > q {
          LiteralsTyped(doc, value, run);
        }
        if Unresolved(doc) && Homogeneous(doc, value) {
          LiteralsHomogeneous(doc, value, run);
        }
      }
    }

    /** The loop of the literal case: add one literal per token while the current token is a literal. */
    method AppendLiterals(value: Value) returns (r: Result<Value>)
      requires Valid()
      modifies cursor
      ensures Valid() && old(cursor.pos) <= cursor.pos
      ensures r.Ok? <==> LiteralRunEnd(cursor.tokens, old(cursor.pos)) == old(cursor.pos) || Compatible(TypeOf(doc, value), LiteralType)
      ensures r.Err? ==> r.error == ConcatTypeMismatch
      ensures r.Ok? ==> cursor.pos == LiteralRunEnd(cursor.tokens, old(cursor.pos))
      ensures r.Ok? ==> r.value == Value(value.ops + LiteralsOf(cursor.tokens[old(cursor.pos)..cursor.pos]))
    {
      ghost var q := cursor.pos;
      ghost var ts := cursor.tokens;
      ghost var e := LiteralRunEnd(ts, q);
      assert LiteralsOf(ts[q..q]) == [] && value.ops + [] == value.ops;
      var acc := value;
      while cursor.Current().kind == LiteralValue
        invariant Valid() && q <= cursor.pos <= e
        invariant acc == Value(value.ops + LiteralsOf(ts[q..cursor.pos]))
        invariant cursor.pos > q ==> Compatible(TypeOf(doc, value), LiteralType)
        decreases e - cursor.pos
      {
        ghost var p := cursor.pos;
        var lit := LiteralOf(cursor.Current());
        var step := Add(doc, acc, lit);
        LiteralsNext(doc, value, acc, ts, q, p);
        if step.Err? {
          return Err(step.error);
        }
        acc := step.value;
        cursor.Next();
      }
      r := Ok(acc);
    }

    /**
     * ParseObjectAsync: a braced object up to its `}`, or a headless one up to the end of the
     * file. Returns the new object and the owner's value (which receives the objects of any
     * include written directly in the object).
     */
    method ParseObject(depth: nat, parent: ParentKind, pv: Value) returns (r: Result<(nat, Value)>)
      requires Valid()
      modifies this, cursor
      ensures Valid() && Grown()
      ensures r.Ok? ==> path == old(path)
      ensures !(cursor.tokens[old(cursor.pos)].kind.StartOfObject? || cursor.tokens[old(cursor.pos)].kind.LiteralValue? || cursor.tokens[old(cursor.pos)].kind.Include?) ==> r == Err(ObjectStartExpected)
      ensures r.Ok? ==> old(cursor.pos) < cursor.pos && r.value.0 == |old(doc.objects)|
      ensures r.Ok? && cursor.tokens[old(cursor.pos)].kind == StartOfObject ==> cursor.tokens[cursor.pos - 1].kind == EndOfObject
      ensures r.Ok? && cursor.tokens[old(cursor.pos)].kind != StartOfObject ==> cursor.tokens[cursor.pos].kind == EndOfFile
      ensures r.Ok? && parent != ValueParent ==> r.value.1 == pv
      ensures r.Ok? ==> ObjectsAfter(pv, r.value.1)
      ensures (cursor.tokens[old(cursor.pos)].kind == StartOfObject &&
               cursor.tokens[Consume(cursor.tokens, old(cursor.pos), Whitelines)].kind == Comma) ==> r == Err(LeadingComma)
      decreases depth, |cursor.tokens| - cursor.pos, 6
    {
      var start := cursor.Current();
      if start.kind != StartOfObject && start.kind != LiteralValue && start.kind != Include {
        return Err(ObjectStartExpected);
      }
      var o := |doc.objects|;
      doc := doc.(objects := doc.objects + [[]]);
      var headless := start.kind != StartOfObject;
      if !headless {
        ConsumeWhitelines();
      }
      var parentValue :- ObjectMembers(depth, o, headless, parent, pv);
      if cursor.Current().kind == EndOfObject {
        cursor.Next();
      }
      r := Ok((o, parentValue));
    }

    /** ParseObjectAsync's loop: the members up to the end of the object, and the parent's value. */
    method ObjectMembers(depth: nat, o: nat, headless: bool, parent: ParentKind, pv: Value) returns (r: Result<Value>)
      requires Valid()
      modifies this, cursor
      ensures Valid() && Grown()
      ensures r.Ok? ==> path == old(path) && old(cursor.pos) <= cursor.pos
      ensures r.Ok? ==> cursor.tokens[cursor.pos].kind == (if headless then EndOfFile else EndOfObject)
      ensures r.Ok? && parent != ValueParent ==> r.value == pv
      ensures r.Ok? ==> ObjectsAfter(pv, r.value)
      ensures !headless && cursor.tokens[old(cursor.pos)].kind == Comma ==> r == Err(LeadingComma)
      decreases depth, |cursor.tokens| - cursor.pos, 5
    {
      ghost var first := cursor.pos;
      var last := NoPending;
      var parentValue := pv;
      var parsing := true;
      while parsing
        invariant Valid() && Grown() && path == old(path)
        invariant first <= cursor.pos
        invariant !parsing ==> cursor.tokens[cursor.pos].kind == (if headless then EndOfFile else EndOfObject)
        invariant parent != ValueParent ==> parentValue == pv
        invariant ObjectsAfter(pv, parentValue)
        invariant !headless && cursor.tokens[first].kind == Comma ==> parsing && cursor.pos == first && last.NoPending?
        decreases (if parsing then 1 else 0), |cursor.tokens| - cursor.pos
      {
        var next :- ObjectStep(depth, o, headless, parent, last, parentValue);
        ObjectsAfterTrans(pv, parentValue, next.1);
        last, parentValue, parsing := next.0, next.1, next.2;
      }
      r := Ok(parentValue);
    }

    /**
     * One pass of ParseObjectAsync's loop: the case for the current token, given what is
     * pending since the last separator. Returns the new pending member, the parent's value
     * and whether the object goes on.
     */
    method ObjectStep(depth: nat, o: nat, headless: bool, parent: ParentKind, last: Pending, parentValue: Value)
      returns (r: Result<(Pending, Value, bool)>)
      requires Valid()
      modifies this, cursor
      ensures Valid() && Grown()
      ensures r.Ok? ==> path == old(path)
      ensures r.Ok? && r.value.2 ==> old(cursor.pos) < cursor.pos
      ensures r.Ok? && !r.value.2 ==> cursor.Current().kind == (if headless then EndOfFile else EndOfObject)
      ensures r.Ok? && parent != ValueParent ==> r.value.1 == parentValue
      ensures r.Ok? ==> ObjectsAfter(parentValue, r.value.1)
      ensures cursor.tokens[old(cursor.pos)].kind == Comma && last.NoPending? ==> r == Err(LeadingComma)
      ensures cursor.tokens[old(cursor.pos)].kind == Include && !last.NoPending? ==> r == Err(MissingSeparator)
      ensures (cursor.tokens[old(cursor.pos)].kind == LiteralValue && !last.NoPending? &&
               cursor.tokens[PastBlank(cursor.tokens, old(cursor.pos))].kind == LiteralValue) ==>
        r == Err(MissingSeparator)
      decreases depth, |cursor.tokens| - cursor.pos, 4
    {
      var t := cursor.Current();
      match t.kind {
        case Include =>
          if !last.NoPending? {
            return Err(MissingSeparator);
          }
          var v :- Included(depth, Some(ObjectType));
          r := Ok((IncludePending(v), parentValue, true));
        case LiteralValue =>
          var field :- ObjectLiteral(depth, o, !last.NoPending?);
          r := Ok((if field then FieldPending else last, parentValue, true));
        case Comment | EndOfLine =>
          var pv := parentValue;
          if last.NoPending? {
            ConsumeWhitelines();
          } else if last.IncludePending? {
            pv :- Flush(doc, parent, parentValue, last.v);
          }
          ConsumeWhitelines();
          r := Ok((NoPending, pv, true));
        case Comma =>
          if last.NoPending? {
            return Err(LeadingComma);
          }
          var pv := parentValue;
          if last.IncludePending? {
            pv :- Flush(doc, parent, parentValue, last.v);
          }
          ConsumeWhitelines();
          r := Ok((NoPending, pv, true));
        case EndOfObject | EndOfFile =>
          if headless && t.kind != EndOfFile {
            return Err(ExpectedEndOfFile);
          }
          if !headless && t.kind != EndOfObject {
            return Err(ExpectedEndOfObject);
          }
          var pv := parentValue;
          if last.IncludePending? {
            pv :- Flush(doc, parent, parentValue, last.v);
          }
          r := Ok((NoPending, pv, false));
        case _ =>
          r := Err(UnexpectedObjectToken);
      }
    }

    /**
     * The literal case of ParseObjectAsync: skip white space; a literal that remains starts a
     * field, which is an error while the previous member still waits for its separator.
     * True when a field was parsed.
     */
    method ObjectLiteral(depth: nat, o: nat, pending: bool) returns (r: Result<bool>)
      requires Valid() && cursor.Current().kind == LiteralValue
      modifies this, cursor
      ensures Valid() && Grown()
      ensures r.Ok? ==> path == old(path) && old(cursor.pos) < cursor.pos
      ensures cursor.tokens[PastBlank(cursor.tokens, old(cursor.pos))].kind != LiteralValue ==>
        r == Ok(false) && cursor.pos == PastBlank(cursor.tokens, old(cursor.pos))
      ensures pending && cursor.tokens[PastBlank(cursor.tokens, old(cursor.pos))].kind == LiteralValue ==>
        r == Err(MissingSeparator)
      ensures r == Ok(true) ==> !pending
      decreases depth, |cursor.tokens| - cursor.pos, 3
    {
      if IsNonSignificant(cursor.Current()) {
        ConsumeWhitespace();
      }
      if cursor.Current().kind != LiteralValue {
        return Ok(false);
      }
      if pending {
        return Err(MissingSeparator);
      }
      var f :- ParseField(depth, o);
      r := Ok(true);
    }

    /**
     * ParseArrayAsync: the elements between `[` and `]`, each one an include, a value, an
     * object or a substitution, separated by commas or line ends.
     */
    method ParseArray(depth: nat, owner: Option<nat>) returns (r: Result<Element>)
      requires Valid() && cursor.Current().kind == StartOfArray
      modifies this, cursor
      ensures Valid() && Grown()
      ensures r.Ok? ==> path == old(path)
      ensures r.Ok? ==> r.value.Array? && old(cursor.pos) < cursor.pos && cursor.tokens[cursor.pos - 1].kind == EndOfArray
      ensures cursor.tokens[Consume(cursor.tokens, old(cursor.pos), Whitelines)].kind == Comma ==> r == Err(ArrayLeadingComma)
      ensures var c := Consume(cursor.tokens, old(cursor.pos), Whitelines);
        (c + 1 < |cursor.tokens| && IsSubstitution(cursor.tokens[c].kind) && StartsElement(cursor.tokens[c + 1].kind))
        ==> r == Err(ArrayMissingSeparator)
      decreases depth, |cursor.tokens| - cursor.pos, 6
    {
      ConsumeWhitelines();
      ghost var first := cursor.pos;
      var items: seq<Value> := [];
      var last: Option<Value> := None;
      var parsing := true;
      while parsing
        invariant Valid() && Grown() && path == old(path) && old(cursor.pos) < first <= cursor.pos
        invariant first == Consume(cursor.tokens, old(cursor.pos), Whitelines)
        invariant !parsing ==> cursor.tokens[cursor.pos].kind == EndOfArray
        invariant cursor.tokens[first].kind == Comma ==> cursor.pos == first && last.None? && parsing
        invariant (first + 1 < |cursor.tokens| && IsSubstitution(cursor.tokens[first].kind) &&
                   StartsElement(cursor.tokens[first + 1].kind)) ==>
          (cursor.pos == first && last.None? && parsing) || (cursor.pos == first + 1 && last.Some? && parsing)
        decreases (if parsing then 1 else 0), |cursor.tokens| - cursor.pos
      {
        var next :- ArrayStep(depth, owner, items, last, old(cursor.pos));
        items, last, parsing := next.0, next.1, next.2;
      }
      cursor.Next();
      r := Ok(Array(items));
    }

    /**
     * One pass of ParseArrayAsync's loop: the case for the current token, given the element
     * still waiting for its separator. Returns the items, the waiting element and whether the
     * array goes on. `start` is where the array began.
     */
    method ArrayStep(depth: nat, owner: Option<nat>, items: seq<Value>, last: Option<Value>, ghost start: nat)
      returns (r: Result<(seq<Value>, Option<Value>, bool)>)
      requires Valid() && start < cursor.pos
      modifies this, cursor
      ensures Valid() && Grown()
      ensures r.Ok? ==> path == old(path)
      ensures r.Ok? && r.value.2 ==> old(cursor.pos) < cursor.pos
      ensures r.Ok? && !r.value.2 ==> cursor.Current().kind == EndOfArray
      ensures cursor.tokens[old(cursor.pos)].kind == Comma && last.None? ==> r == Err(ArrayLeadingComma)
      ensures StartsElement(cursor.tokens[old(cursor.pos)].kind) && last.Some? ==> r == Err(ArrayMissingSeparator)
      ensures IsSubstitution(cursor.tokens[old(cursor.pos)].kind) && last.None? ==>
        r.Ok? && r.value.1.Some? && r.value.2 && cursor.pos == old(cursor.pos) + 1
      ensures r.Ok? ==> r.value.0 == if last.Some? && r.value.1.None? then items + [last.value] else items
      ensures r.Ok? && last.Some? && r.value.1 != last ==> r.value.1.None?
      ensures r.Ok? && last.Some? && cursor.tokens[old(cursor.pos)].kind in {Comment, EndOfLine, Comma, EndOfArray} ==>
        r.value.0 == items + [last.value] && r.value.1.None?
      decreases depth, |cursor.tokens| - start, 4
    {
      var t := cursor.Current();
      match t.kind {
        case Include | StartOfArray | StartOfObject =>
          if last.Some? {
            return Err(ArrayMissingSeparator);
          }
          var v :- ArrayElement(depth, owner, start);
          r := Ok((items, Some(v), true));
        case SubstituteRequired | SubstituteOptional =>
          if last.Some? {
            return Err(ArrayMissingSeparator);
          }
          var s := AddSubstitution(t, owner, true);
          cursor.Next();
          r := Ok((items, Some(Single(SubRef(s))), true));
        case LiteralValue =>
          var next :- ArrayLiteral(depth, owner, last, start);
          r := Ok((items, next, true));
        case Comment | EndOfLine =>
          if last.None? {
            ConsumeWhitelines();
            return Ok((items, last, true));
          }
          ConsumeWhitelines();
          r := Ok((items + [last.value], None, true));
        case Comma =>
          if last.None? {
            return Err(ArrayLeadingComma);
          }
          ConsumeWhitelines();
          r := Ok((items + [last.value], None, true));
        case EndOfArray =>
          r := Ok((if last.Some? then items + [last.value] else items, None, false));
        case _ =>
          r := Err(UnexpectedArrayToken);
      }
    }

    /**
     * The literal case of an array: white space and the blank lines after it are skipped;
     * any other literal starts an element, which needs a separator before it.
     */
    method ArrayLiteral(depth: nat, owner: Option<nat>, last: Option<Value>, ghost start: nat)
      returns (r: Result<Option<Value>>)
      requires Valid() && start < cursor.pos && cursor.Current().kind == LiteralValue
      modifies this, cursor
      ensures Valid() && Grown()
      ensures r.Ok? ==> path == old(path) && old(cursor.pos) < cursor.pos
      ensures r.Ok? && r.value != last ==> last.None?
      decreases depth, |cursor.tokens| - start, 3
    {
      if IsNonSignificant(cursor.Current()) {
        ConsumeWhitelines();
      }
      if cursor.Current().kind != LiteralValue {
        return Ok(last);
      }
      if last.Some? {
        return Err(ArrayMissingSeparator);
      }
      var v :- ArrayElement(depth, owner, start);
      r := Ok(Some(v));
    }

    /**
     * One element of an array, from the token that starts it: an include, a value (an array
     * or literals, possibly concatenated) or an object. `start` is where the array began.
     */
    method ArrayElement(depth: nat, owner: Option<nat>, ghost start: nat) returns (r: Result<Value>)
      requires Valid() && start < cursor.pos
      requires var k := cursor.Current().kind; k == Include || k == StartOfArray || k == StartOfObject || k == LiteralValue
      modifies this, cursor
      ensures Valid() && Grown()
      ensures r.Ok? ==> path == old(path) && old(cursor.pos) < cursor.pos
      decreases depth, |cursor.tokens| - start, 2
    {
      var t := cursor.Current();
      match t.kind {
        case Include =>
          r := Included(depth, Some(ArrayType));
        case StartOfArray | LiteralValue =>
          r := ParseValue(depth, owner, true);
        case StartOfObject =>
          var res :- ParseObject(depth, ArrayParent, NoValue);
          r := Ok(Single(ObjectRef(res.0)));
      }
    }

    /** The token automaton of ParseIncludeAsync, up to the cursor after the directive's last token. */
    method ReadDirective() returns (r: Result<Directive>)
      requires Valid()
      modifies cursor
      ensures Valid() && old(cursor.pos) <= cursor.pos
      ensures ParseDirective(cursor.tokens, old(cursor.pos)).Err? ==>
        r == ParseDirective(cursor.tokens, old(cursor.pos)).PropagateFailure()
      ensures ParseDirective(cursor.tokens, old(cursor.pos)).Ok? ==>
        r == Ok(ParseDirective(cursor.tokens, old(cursor.pos)).value.0) &&
        cursor.pos == ParseDirective(cursor.tokens, old(cursor.pos)).value.1
      ensures r.Ok? ==> old(cursor.pos) < cursor.pos
    {
      if cursor.Current().kind != Include {
        return Err(IncludeExpected);
      }
      ghost var p0 := cursor.pos;
      var st := InitialState;
      var parsing := true;
      while parsing
        invariant Valid() && p0 <= cursor.pos
        invariant parsing ==> IncludeLoop(cursor.tokens, cursor.pos, st) == IncludeLoop(cursor.tokens, p0, InitialState)
        invariant !parsing ==> IncludeLoop(cursor.tokens, p0, InitialState) == Ok((st, cursor.pos))
        decreases (if parsing then 1 else 0), |cursor.tokens| - cursor.pos
      {
        var step := DirectiveStep(st);
        match step {
          case Fail(e) =>
            return Err(e);
          case Done(st1, _) =>
            st := st1;
            parsing := false;
          case More(st1, _) =>
            st := st1;
        }
      }
      if st.fileName.None? {
        return Err(MissingFileName);
      }
      cursor.Next();
      r := Ok(Directive(st.required, st.kind, st.fileName.value));
    }

    /** One pass of the directive loop: the token found and the case taken for it. */
    method DirectiveStep(st: IncludeState) returns (step: Step)
      requires Valid()
      modifies cursor
      ensures Valid() && step == IncludeStep(cursor.tokens, old(cursor.pos), st)
      ensures !step.Fail? ==> cursor.pos == step.at
      ensures old(cursor.pos) <= cursor.pos
    {
      ghost var p0 := cursor.pos;
      var expected := st.expected;
      var found := cursor.GetNextSignificant(k => Expects(expected, k));
      if !found {
        return Fail(InvalidIncludeToken);
      }
      var t := cursor.Current();
      match t.kind {
        case ParenthesisEnd =>
          StepOnClose(cursor.tokens, p0, st);
          if st.parens == 0 {
            return Fail(UnexpectedCloseParen);
          }
          var st1 := st.(parens := st.parens - 1);
          step := if st1.parens > 0 then More(st1, cursor.pos) else Done(st1, cursor.pos);
        case Required | Url | File | Classpath =>
          StepOnKeyword(cursor.tokens, p0, st);
          var open := cursor.GetNextSignificant(k => k == ParenthesisStart);
          if !open {
            return Fail(ExpectedOpenParen);
          }
          step := More(Opened(st, t.kind), cursor.pos);
        case LiteralValue =>
          StepOnLiteral(cursor.tokens, p0, st);
          if t.literal != Quoted {
            return Fail(InvalidFileName);
          }
          var st1 := st.(fileName := Some(t.text), expected := Expected(false, false, false));
          step := if st1.parens > 0 then More(st1, cursor.pos) else Done(st1, cursor.pos);
        case _ =>
          step := Fail(UnexpectedIncludeToken);
      }
    }

    /** An include, seen from the element it is written in: only that it moves on when it succeeds. */
    method Included(depth: nat, owner: Option<HType>) returns (r: Result<Value>)
      requires Valid() && cursor.Current().kind == Include
      modifies this, cursor
      ensures Valid() && Grown() && path == old(path)
      ensures r.Ok? ==> old(cursor.pos) < cursor.pos
      decreases depth, |cursor.tokens| - cursor.pos, 2
    {
      ghost var included;
      r, included := ParseInclude(depth, owner);
    }

    /**
     * ParseIncludeAsync: the include directive, the callback, and the parse of the included
     * text. `owner` is the type of the element the include is written in, None at the root;
     * `depth` bounds how deeply includes nest.
     */
    method ParseInclude(depth: nat, owner: Option<HType>) returns (r: Result<Value>, ghost included: Option<HType>)
      requires Valid()
      modifies this, cursor
      ensures Valid() && Grown()
      ensures path == old(path)
      ensures ParseDirective(cursor.tokens, old(cursor.pos)).Err? ==>
        r == ParseDirective(cursor.tokens, old(cursor.pos)).PropagateFailure()
      ensures ParseDirective(cursor.tokens, old(cursor.pos)).Ok? ==>
        var (dir, q) := ParseDirective(cursor.tokens, old(cursor.pos)).value;
        var outcome := IncludeText(dir.required, callback(dir.kind, dir.fileName));
        && cursor.pos == q
        && (outcome.Err? ==> r == Err(RequiredIncludeMissing))
        && (outcome == Ok(None) ==> r == Ok(Single(EmptyMarker)))
        && (included.Some? ==> outcome.Ok? && outcome.value.Some?)
      ensures r.Ok? ==> old(cursor.pos) < cursor.pos
      ensures included.Some? ==> (r.Ok? <==> OwnerCheck(owner, included.value).Ok?)
      ensures included.Some? && OwnerCheck(owner, included.value).Err? ==> r == Err(IncludeTypeMismatch)
      ensures r.Ok? ==> r.value == Single(EmptyMarker) || included == Some(TypeOf(doc, r.value))
      ensures r.Ok? ==> IncludedUnderPath(old(doc), doc, old(subs), subs, path)
      ensures r.Err? ==> doc == old(doc) && subs == old(subs)
      decreases depth, |cursor.tokens| - cursor.pos, 1
    {
      included := None;
      var dir :- ReadDirective();
      var outcome :- IncludeText(dir.required, callback(dir.kind, dir.fileName));
      if outcome.None? {
        return Ok(Single(EmptyMarker)), None;
      }
      r, included := IncludedDocument(depth, owner, outcome.value);
    }

    /**
     * The included text, parsed by a parser of its own that builds into this arena and is
     * resolved later with this one: its root must have the type of the including element,
     * and its substitutions move under this parser's path and join this parser's list.
     */
    method IncludedDocument(depth: nat, owner: Option<HType>, text: string)
      returns (r: Result<Value>, ghost included: Option<HType>)
      requires Valid()
      modifies this
      ensures Valid() && Grown() && path == old(path) && cursor.pos == old(cursor.pos)
      ensures depth == 0 ==> r == Err(IncludeDepthExhausted)
      ensures depth > 0 && tokenize(text).None? ==> r == Err(TokenizerFailure)
      ensures included.Some? ==> depth > 0 && tokenize(text).Some?
      ensures depth > 0 && tokenize(text).Some? && included.None? ==> r.Err?
      ensures included.Some? ==> (r.Ok? <==> OwnerCheck(owner, included.value).Ok?)
      ensures included.Some? && OwnerCheck(owner, included.value).Err? ==> r == Err(IncludeTypeMismatch)
      ensures r.Ok? ==> included == Some(TypeOf(doc, r.value))
      ensures r.Ok? ==> IncludedUnderPath(old(doc), doc, old(subs), subs, path)
      ensures r.Err? ==> doc == old(doc) && subs == old(subs)
      decreases depth, |cursor.tokens| - cursor.pos, 0
    {
      included := None;
      if depth == 0 {
        return Err(IncludeDepthExhausted), None;
      }
      var tokens := tokenize(text);
      if tokens.None? {
        return Err(TokenizerFailure), None;
      }
      var nested := new HoconParser(tokens.value, callback, tokenize, retired, doc);
      var parsed := nested.ParseTokens(depth - 1);
      if parsed.Err? {
        return Err(parsed.error), None;
      }
      included := Some(TypeOf(nested.doc, nested.root));
      var matches :- OwnerCheck(owner, TypeOf(nested.doc, nested.root));
      var from := |doc.fields|;
      var fixed := nested.doc.(subs := PrefixSubs(nested.doc.subs, nested.subs, path),
                               fields := PrefixFields(nested.doc.fields, from, path));
      SameResolvedSameType(nested.doc, fixed, nested.root);
      PrefixedUnderPath(doc, nested.doc, subs, nested.subs, path);
      doc := fixed;
      subs := subs + nested.subs;
      r := Ok(nested.root);
    }

    /**
     * ParseTokensAsync: the document, as a sequence of includes and objects merged into the
     * root value, or a single array that must be all there is.
     */
    method ParseTokens(depth: nat) returns (r: Result<()>)
      requires Valid()
      modifies this, cursor
      ensures Valid() && Extended()
      ensures r.Ok? ==> path == old(path) && cursor.Current().kind == EndOfFile
      decreases depth, |cursor.tokens| - cursor.pos, 12
    {
      if IsNonSignificant(cursor.Current()) {
        ConsumeWhitelines();
      }
      while cursor.Current().kind != EndOfFile
        invariant Valid() && Extended() && path == old(path)
        decreases |cursor.tokens| - cursor.pos
      {
        var t := cursor.Current();
        match t.kind {
          case Include =>
            var u :- RootInclude(depth);
          case StartOfArray =>
            r := RootArray(depth);
            return;
          case StartOfObject =>
            var u :- RootObject(depth);
          case LiteralValue =>
            if IsNonSignificant(t) {
              ConsumeWhitelines();
            }
            if cursor.Current().kind == LiteralValue {
              var u :- RootObject(depth);
            }
          case Comment | EndOfLine | EndOfObject | EndOfArray =>
            cursor.Next();
          case _ =>
            return Err(IllegalToken);
        }
      }
      r := Ok(());
    }

    /** An include at the top level: its objects are merged into the root (which they replace unless it is an object). */
    method RootInclude(depth: nat) returns (r: Result<()>)
      requires Valid() && cursor.Current().kind == Include
      modifies this, cursor
      ensures Valid() && Extended() && path == old(path)
      ensures r.Ok? ==> old(cursor.pos) < cursor.pos
      ensures r.Ok? ==> exists v :: MergeInclude(doc, old(root), v) == Ok(root)
      decreases depth, |cursor.tokens| - cursor.pos, 11
    {
      var v :- Included(depth, None);
      root :- MergeInclude(doc, root, v);
      r := Ok(());
    }

    /** An object at the top level (braced or headless), merged into the root. */
    method RootObject(depth: nat) returns (r: Result<()>)
      requires Valid() && (cursor.Current().kind.StartOfObject? || cursor.Current().kind.LiteralValue?)
      modifies this, cursor
      ensures Valid() && Extended()
      ensures r.Ok? ==> path == old(path) && old(cursor.pos) < cursor.pos
      ensures r.Ok? ==> root == MergeObject(doc, old(root), |old(doc.objects)|)
      decreases depth, |cursor.tokens| - cursor.pos, 11
    {
      var res :- ParseObject(depth, NoParent, NoValue);
      root := MergeObject(doc, root, res.0);
      r := Ok(());
    }

    /** An array at the top level: the root becomes that array, and nothing but blank lines and comments may follow it. */
    method RootArray(depth: nat) returns (r: Result<()>)
      requires Valid() && cursor.Current().kind == StartOfArray
      modifies this, cursor
      ensures Valid() && Extended()
      ensures r.Ok? ==> path == old(path) && cursor.Current().kind == EndOfFile && |root.ops| == 1 && root.ops[0].Array?
      ensures r.Ok? ==> exists q | old(cursor.pos) < q <= cursor.pos ::
        cursor.tokens[q - 1].kind == EndOfArray && RootArrayTail(cursor.tokens, q)
      decreases depth, |cursor.tokens| - cursor.pos, 11
    {
      var a :- ParseArray(depth, None);
      ghost var q := cursor.pos;
      r := ArrayTail();
      root := Single(a);
      if r.Ok? {
        assert old(cursor.pos) < q <= cursor.pos && cursor.tokens[q - 1].kind == EndOfArray && RootArrayTail(cursor.tokens, q);
      }
    }

    /** What may follow a top-level array: white space, comments and line ends, up to the end of the file. */
    method ArrayTail() returns (r: Result<()>)
      requires Valid()
      modifies cursor
      ensures Valid() && cursor.pos == SkipFrom(cursor.tokens, old(cursor.pos), Whitelines)
      ensures r.Ok? <==> RootArrayTail(cursor.tokens, old(cursor.pos))
      ensures r.Err? ==> r.error == OneArrayOrObject
    {
      if Skippable(cursor.Current(), Whitelines) {
        ConsumeWhitelines();
      }
      if cursor.Current().kind != EndOfFile {
        return Err(OneArrayOrObject);
      }
      r := Ok(());
    }

    /**
     * ResolveSubstitution: the value substitution s stands for, by the rules of Resolve
     * (self-reference, child of the older value, ancestor, cycle, lookup from the root).
     */
    method ResolveSubstitution(s: nat) returns (r: Result<Option<Value>>)
      requires s < |doc.subs|
      ensures r == Resolve(doc, root, s)
    {
      var sub := doc.subs[s];
      if sub.owner.None? {
        return Err(NullDereference);
      }
      var f := sub.owner.value;
      var fp := FieldAt(doc, f).path;
      if sub.path == fp {
        if sub.inArray {
          return Err(SelfReferenceInArray);
        }
        return Ok(OlderValue(doc, f, sub.entry));
      }
      var child := ChildCase(doc, f, sub);
      if child.Some? {
        return child.value;
      }
      if IsChildPathOf(fp, sub.path) {
        return Err(ParentReference);
      }
      var cyclic := IsValueCyclic(doc, root, f);
      if cyclic {
        return Err(CyclicSubstitution);
      }
      if GetObject(doc, root).Err? {
        return Err(NotAnObject);
      }
      r := Ok(LookupValue(doc, root, sub.path));
    }

    /** One turn of ResolveSubstitutions: resolve substitution s and record its value. */
    method ResolveStep(s: nat, env: map<string, string>) returns (r: Result<()>)
      requires Valid() && s in subs
      modifies this
      ensures Valid() && subs == old(subs) && root == old(root) && path == old(path)
      ensures |doc.subs| == |old(doc.subs)|
      ensures r.Ok? <==> ResolveOne(old(doc), root, s, env).Ok?
      ensures r.Ok? ==> doc == ResolveOne(old(doc), root, s, env).value
      ensures r.Err? ==> r.error == ResolveOne(old(doc), root, s, env).error
    {
      var found := ResolveSubstitution(s);
      if found.Err? {
        return Err(found.error);
      }
      var recorded := Record(doc, s, found.value, env);
      if recorded.Err? {
        return Err(recorded.error);
      }
      if !Consistent(recorded.value) {
        return Err(ConcatTypeMismatch);
      }
      doc := recorded.value;
      r := Ok(());
    }

    /**
     * ResolveSubstitutions: every listed substitution in list order, its value taken from the
     * document, else from the environment `env`, else empty when optional; an unresolved
     * required substitution is an error. The outcome is ResolveAll's.
     */
    method ResolveSubstitutions(env: map<string, string>) returns (r: Result<()>)
      requires Valid()
      modifies this
      ensures Valid() && subs == old(subs) && root == old(root) && path == old(path)
      ensures r.Ok? <==> ResolveAll(old(doc), root, subs, env).Ok?
      ensures r.Ok? ==> doc == ResolveAll(old(doc), root, subs, env).value
      ensures r.Err? ==> r.error == ResolveAll(old(doc), root, subs, env).error
      ensures r.Ok? ==> forall s | s in subs :: doc.subs[s].resolved.Some?
      ensures r.Ok? && |subs| > 0 ==> Consistent(doc)
    {
      for i := 0 to |subs|
        invariant subs == old(subs) && root == old(root) && path == old(path)
        invariant Valid() && |doc.subs| == |old(doc.subs)|
        invariant ResolveAll(old(doc), root, subs[..i], env) == Ok(doc)
      {
        ghost var before := doc;
        ResolveAllExtend(old(doc), root, subs, i, env, doc);
        var step := ResolveStep(subs[i], env);
        if step.Err? {
          ResolveAllFails(old(doc), root, subs, i, env, before);
          return Err(step.error);
        }
      }
      assert subs[..|subs|] == subs;
      PassSettles(old(doc), root, subs, env, doc);
      r := Ok(());
    }
  }

  /**
   * ParseTextAsync: reject blank text, tokenize, parse, resolve when asked, and hand the root
   * value and the substitutions to a HoconRoot. `env` stands for the process environment,
   * `tokenize` for the tokenizer, and `depth` bounds how deeply includes nest.
   */
  method ParseText(text: Option<string>, resolve: bool, env: map<string, string>,
                   callback: (CallbackType, string) -> Option<string>, tokenize: string -> Option<TokenStream>,
                   retired: (Doc, nat, Value) -> seq<nat>, depth: nat)
    returns (r: Result<HoconRoot>)
    ensures IsNullOrWhiteSpace(text) ==> r == Err(EmptyInput)
    ensures !IsNullOrWhiteSpace(text) && tokenize(text.value).None? ==> r == Err(TokenizerFailure)
    ensures r.Ok? ==> fresh(r.value) && r.value.value.Some?
    ensures r.Ok? && resolve ==> forall s | s in r.value.substitutions ::
      s < |r.value.doc.subs| && r.value.doc.subs[s].resolved.Some?
    ensures r.Ok? && resolve && |r.value.substitutions| > 0 ==> Consistent(r.value.doc)
  {
    if IsNullOrWhiteSpace(text) {
      return Err(EmptyInput);
    }
    var tokens := tokenize(text.value);
    if tokens.None? {
      return Err(TokenizerFailure);
    }
    var parser := new HoconParser(tokens.value, callback, tokenize, retired, EmptyDoc);
    var parsed := parser.ParseTokens(depth);
    if parsed.Err? {
      return Err(parsed.error);
    }
    if resolve {
      var resolved := parser.ResolveSubstitutions(env);
      if resolved.Err? {
        return Err(resolved.error);
      }
    }
    var result := new HoconRoot.WithSubstitutions(parser.doc, Some(parser.root), parser.subs);
    r := Ok(result);
  }
}
