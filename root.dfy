/**
 * HoconRoot: the parsed document, its root value (None stands for a null value) and its
 * substitutions, with the path lookup GetNode and the accessors built on it.
 */
module Root {
  import opened Wrappers
  import opened Paths
  import opened Document

  /** What GetNode returns: the HoconValue.Undefined sentinel, or a value that is there. */
  datatype Node = Undefined | Defined(value: Value)

  /** A node that is missing or whose type is Empty counts as undefined. */
  function NodeOf(d: Doc, n: Option<Value>): (r: Node)
    ensures r.Undefined? <==> n.None? || TypeOf(d, n.value) == EmptyType
    ensures r.Defined? ==> r.value == n.value
  {
    if n.None? || TypeOf(d, n.value) == EmptyType then Undefined else Defined(n.value)
  }

  /**
   * GetNode, as intended: follow the path from the root one key at a time; a key that is
   * missing anywhere makes the whole path undefined. A null root value is an error.
   */
  function NodeAt(d: Doc, root: Option<Value>, p: Path): (r: Result<Node>)
    ensures r.Err? <==> root.None?
    ensures r.Err? ==> r.error == NullRoot
  {
    if root.None? then Err(NullRoot) else Ok(NodeOf(d, LookupValue(d, root.value, p)))
  }

  /** The empty path names the root value itself. */
  lemma NodeAtEmptyPath(d: Doc, v: Value)
    ensures NodeAt(d, Some(v), []) == Ok(if TypeOf(d, v) == EmptyType then Undefined else Defined(v))
  {
  }

  /** A path is followed one key at a time through GetChildObject. */
  lemma NodeAtDescends(d: Doc, v: Value, k: string, p: Path)
    ensures NodeAt(d, Some(v), [k] + p) ==
      match GetChild(d, v, k) case None => Ok(Undefined) case Some(c) => NodeAt(d, Some(c), p)
  {
    assert ([k] + p)[0] == k && ([k] + p)[1..] == p;
  }

  /** A path is undefined exactly when nothing is found there or what is found has type Empty. */
  lemma UndefinedMeansMissingOrEmpty(d: Doc, v: Value, p: Path)
    ensures NodeAt(d, Some(v), p) == Ok(Undefined) <==>
      LookupValue(d, v, p).None? || TypeOf(d, LookupValue(d, v, p).value) == EmptyType
  {
  }

  // ---------------------------------------------------------------------------------------
  // GetNode as written: each key is asked of the node the previous key produced, and that
  // node is null when the previous key was missing.

  function WalkAsWritten(d: Doc, cur: Option<Value>, p: Path): (r: Result<Option<Value>>)
    ensures cur.None? && |p| > 0 ==> r == Err(NullDereference)
    ensures r.Err? ==> r.error == NullDereference
    ensures r.Ok? && r.value.Some? ==> cur.Some?
    decreases |p|
  {
    if |p| == 0 then Ok(cur)
    else if cur.None? then Err(NullDereference)
    else WalkAsWritten(d, GetChild(d, cur.value, p[0]), p[1..])
  }

  function NodeAtAsWritten(d: Doc, root: Option<Value>, p: Path): (r: Result<Node>)
    ensures root.None? ==> r == Err(NullRoot)
    ensures root.Some? && r.Err? ==> r.error == NullDereference
    ensures root.Some? && |p| == 0 ==> r == Ok(NodeOf(d, root))
  {
    if root.None? then Err(NullRoot)
    else match WalkAsWritten(d, root, p)
      case Err(e) => Err(e)
      case Ok(n) => Ok(NodeOf(d, n))
  }

  /**
   * The walk as written faults exactly when a proper prefix of the path is missing, and
   * otherwise finds what the lookup finds.
   */
  lemma {:induction false} WalkFaultsOnMissingParent(d: Doc, v: Value, p: Path)
    ensures WalkAsWritten(d, Some(v), p).Err? <==> exists i | 0 < i < |p| :: LookupValue(d, v, p[..i]).None?
    ensures WalkAsWritten(d, Some(v), p).Err? ==> WalkAsWritten(d, Some(v), p).error == NullDereference
    ensures WalkAsWritten(d, Some(v), p).Ok? ==> WalkAsWritten(d, Some(v), p).value == LookupValue(d, v, p)
    decreases |p|
  {
    if |p| > 0 {
      match GetChild(d, v, p[0])
      case None => WalkMissingHead(d, v, p);
      case Some(w) =>
        WalkFaultsOnMissingParent(d, w, p[1..]);
        WalkPresentHead(d, v, w, p);
    }
  }

  /** The first key is missing: the walk faults when more keys follow, and finds nothing otherwise. */
  lemma WalkMissingHead(d: Doc, v: Value, p: Path)
    requires |p| > 0 && GetChild(d, v, p[0]).None?
    ensures WalkAsWritten(d, Some(v), p).Err? <==> exists i | 0 < i < |p| :: LookupValue(d, v, p[..i]).None?
    ensures WalkAsWritten(d, Some(v), p).Err? ==> WalkAsWritten(d, Some(v), p).error == NullDereference
    ensures WalkAsWritten(d, Some(v), p).Ok? ==> WalkAsWritten(d, Some(v), p).value == LookupValue(d, v, p)
  {
    assert LookupValue(d, v, p[..1]).None? by {
      assert p[..1][0] == p[0] && p[..1][1..] == [];
    }
    if |p| > 1 {
      assert WalkAsWritten(d, None, p[1..]) == Err(NullDereference);
    }
  }

  /** Below a present first key, prefixes of the path are prefixes of the rest looked up from the child. */
  lemma PrefixesBelow(d: Doc, v: Value, w: Value, p: Path)
    requires |p| > 0 && GetChild(d, v, p[0]) == Some(w)
    ensures forall i | 1 < i < |p| :: LookupValue(d, v, p[..i]) == LookupValue(d, w, p[1..][..i - 1])
  {
    forall i | 1 < i < |p| ensures LookupValue(d, v, p[..i]) == LookupValue(d, w, p[1..][..i - 1]) {
      assert p[..i][0] == p[0] && p[..i][1..] == p[1..][..i - 1];
    }
  }

  /** The first key is present: the walk from the root is the walk from the child. */
  lemma WalkPresentHead(d: Doc, v: Value, w: Value, p: Path)
    requires |p| > 0 && GetChild(d, v, p[0]) == Some(w)
    requires WalkAsWritten(d, Some(w), p[1..]).Err? <==> exists i | 0 < i < |p[1..]| :: LookupValue(d, w, p[1..][..i]).None?
    requires WalkAsWritten(d, Some(w), p[1..]).Err? ==> WalkAsWritten(d, Some(w), p[1..]).error == NullDereference
    requires WalkAsWritten(d, Some(w), p[1..]).Ok? ==> WalkAsWritten(d, Some(w), p[1..]).value == LookupValue(d, w, p[1..])
    ensures WalkAsWritten(d, Some(v), p).Err? <==> exists i | 0 < i < |p| :: LookupValue(d, v, p[..i]).None?
    ensures WalkAsWritten(d, Some(v), p).Err? ==> WalkAsWritten(d, Some(v), p).error == NullDereference
    ensures WalkAsWritten(d, Some(v), p).Ok? ==> WalkAsWritten(d, Some(v), p).value == LookupValue(d, v, p)
  {
    assert WalkAsWritten(d, Some(v), p) == WalkAsWritten(d, Some(w), p[1..]);
    MissingPrefixBelow(d, v, w, p);
    assert LookupValue(d, v, p) == LookupValue(d, w, p[1..]);
  }

  /** Below a present first key, a proper prefix of the path is missing exactly when one of the rest is. */
  lemma MissingPrefixBelow(d: Doc, v: Value, w: Value, p: Path)
    requires |p| > 0 && GetChild(d, v, p[0]) == Some(w)
    ensures (exists i | 0 < i < |p| :: LookupValue(d, v, p[..i]).None?) <==>
      (exists j | 0 < j < |p[1..]| :: LookupValue(d, w, p[1..][..j]).None?)
  {
    var rest := p[1..];
    assert LookupValue(d, v, p[..1]) == Some(w) by {
      assert p[..1][0] == p[0] && p[..1][1..] == [];
    }
    PrefixesBelow(d, v, w, p);
    if exists i | 0 < i < |p| :: LookupValue(d, v, p[..i]).None? {
      var i :| 0 < i < |p| && LookupValue(d, v, p[..i]).None?;
      assert 0 < i - 1 < |rest| && LookupValue(d, w, rest[..i - 1]).None?;
    }
    if exists j | 0 < j < |rest| :: LookupValue(d, w, rest[..j]).None? {
      var j :| 0 < j < |rest| && LookupValue(d, w, rest[..j]).None?;
      assert LookupValue(d, v, p[..j + 1]).None?;
    }
  }

  /** Looking up `a.b` where `a` is missing: a fault as written, undefined as intended. */
  lemma MissingParentFaults()
    ensures NodeAtAsWritten(EmptyDoc, Some(NoValue), ["a", "b"]) == Err(NullDereference)
    ensures NodeAt(EmptyDoc, Some(NoValue), ["a", "b"]) == Ok(Undefined)
  {
    assert GetChild(EmptyDoc, NoValue, "a").None?;
    assert ["a", "b"][1..] == ["b"];
  }

  /** Away from missing parents the two agree. */
  lemma AsWrittenAgrees(d: Doc, v: Value, p: Path)
    requires forall i | 0 < i < |p| :: LookupValue(d, v, p[..i]).Some?
    ensures NodeAtAsWritten(d, Some(v), p) == NodeAt(d, Some(v), p)
  {
    WalkFaultsOnMissingParent(d, v, p);
  }

  // ---------------------------------------------------------------------------------------

  class HoconRoot {
    const doc: Doc
    const value: Option<Value>
    const substitutions: seq<nat>

    /** The parser's constructor: a root value and the substitutions found while parsing. */
    constructor WithSubstitutions(doc: Doc, value: Option<Value>, substitutions: seq<nat>)
      ensures this.doc == doc && this.value == value && this.substitutions == substitutions
    {
      this.doc := doc;
      this.value := value;
      this.substitutions := substitutions;
    }

    /** The public constructor: a root value and no substitutions. */
    constructor (doc: Doc, value: Option<Value>)
      ensures this.doc == doc && this.value == value && this.substitutions == []
    {
      this.doc := doc;
      this.value := value;
      this.substitutions := [];
    }

    /** GetNode: the walk over the path's keys, stopping the descent once a key is missing. */
    method GetNode(path: Path) returns (r: Result<Node>)
      ensures r == NodeAt(doc, value, path)
    {
      if value.None? {
        return Err(NullRoot);
      }
      var current: Option<Value> := value;
      for i := 0 to |path|
        invariant current == LookupValue(doc, value.value, path[..i])
      {
        LookupValueStep(doc, value.value, path, i);
        if current.Some? {
          current := GetChild(doc, current.value, path[i]);
        }
      }
      assert path[..|path|] == path;
      r := Ok(NodeOf(doc, current));
    }

    /** HasPath: whether GetNode finds something other than Undefined. */
    function HasPath(path: Path): (r: Result<bool>)
      ensures r.Err? <==> value.None?
      ensures r.Ok? ==> (r.value <==> NodeAt(doc, value, path).value.Defined?)
    {
      match NodeAt(doc, value, path)
      case Err(e) => Err(e)
      case Ok(n) => Ok(n.Defined?)
    }

    /** GetValue returns what GetNode returns. */
    method GetValue(path: Path) returns (r: Result<Node>)
      ensures r == NodeAt(doc, value, path)
    {
      r := GetNode(path);
    }

    /**
     * GetString, GetBoolean, GetInt and GetLong: the caller's default when the path is
     * undefined, otherwise the node's own conversion (HoconValue.GetString and friends,
     * not part of this model, passed in as `convert`).
     */
    function GetScalar<T>(path: Path, default: T, convert: Value -> Result<T>): (r: Result<T>)
      ensures NodeAt(doc, value, path) == Ok(Undefined) ==> r == Ok(default)
      ensures NodeAt(doc, value, path).Ok? && NodeAt(doc, value, path).value.Defined? ==>
        r == convert(NodeAt(doc, value, path).value.value)
      ensures value.None? ==> r == Err(NullRoot)
    {
      match NodeAt(doc, value, path)
      case Err(e) => Err(e)
      case Ok(Undefined) => Ok(default)
      case Ok(Defined(v)) => convert(v)
    }

    /**
     * The list getters (GetBooleanList, GetIntList, ...): an undefined path is an error, never
     * a default; otherwise the node's own conversion.
     */
    function GetList<T>(path: Path, convert: Value -> Result<seq<T>>): (r: Result<seq<T>>)
      ensures NodeAt(doc, value, path) == Ok(Undefined) ==> r == Err(NotAnArray)
      ensures NodeAt(doc, value, path).Ok? && NodeAt(doc, value, path).value.Defined? ==>
        r == convert(NodeAt(doc, value, path).value.value)
      ensures value.None? ==> r == Err(NullRoot)
    {
      match NodeAt(doc, value, path)
      case Err(e) => Err(e)
      case Ok(Undefined) => Err(NotAnArray)
      case Ok(Defined(v)) => convert(v)
    }

    /** HasPath holds exactly when the lookup finds a value whose type is not Empty. */
    lemma HasPathIffFound(path: Path)
      requires value.Some?
      ensures HasPath(path) == Ok(true) <==>
        LookupValue(doc, value.value, path).Some? && TypeOf(doc, LookupValue(doc, value.value, path).value) != EmptyType
    {
    }

    /** A scalar getter falls back to its default exactly when HasPath is false, whatever the conversion. */
    lemma DefaultExactlyWhenUndefined<T>(path: Path, default: T)
      requires value.Some?
      ensures HasPath(path) == Ok(false) <==>
        forall convert: Value -> Result<T> :: GetScalar(path, default, convert) == Ok(default)
    {
      if HasPath(path) == Ok(true) {
        var convert: Value -> Result<T> := x => Err(ConversionFailure);
        assert GetScalar(path, default, convert) == Err(ConversionFailure);
      }
    }
  }
}
