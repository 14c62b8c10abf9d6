/**
 * The include directive (`include "f"`, `include required(file("f"))`, ...): the token
 * automaton of ParseIncludeAsync as a function over the token stream, the decisions it
 * takes on the callback's text and on the included document's type, and what is proved
 * about them. The parser's ParseInclude method is proved equal to this automaton.
 */
module IncludeClause {
  import opened Wrappers
  import opened Tokens
  import opened Strings
  import opened Document

  /** HoconCallbackType */
  datatype CallbackType = FileCallback | UrlCallback | ResourceCallback

  /**
   * The list of expected tokens. It starts with required, url, file, classpath, a literal,
   * `)` and end-of-line, and the loop only ever removes tokens from it: `required` alone, or
   * every kind token with `required`, or those and the literal. So it is known by which of the
   * three groups are still in it; `)` and end-of-line never leave.
   */
  datatype Expected = Expected(required: bool, kinds: bool, literal: bool)

  predicate IsKindToken(t: TokenType) {
    t == Url || t == File || t == Classpath
  }

  /** Whether a token of type t is in the list. */
  predicate Expects(e: Expected, t: TokenType) {
    || t == ParenthesisEnd || t == EndOfLine
    || (t == Required && e.required)
    || (IsKindToken(t) && e.kinds)
    || (t == LiteralValue && e.literal)
  }

  /** The loop variables of ParseIncludeAsync. */
  datatype IncludeState = IncludeState(parens: nat, required: bool, kind: CallbackType,
                                       fileName: Option<string>, expected: Expected)

  datatype Directive = Directive(required: bool, kind: CallbackType, fileName: string)

  const InitialExpected: Expected := Expected(true, true, true)

  const InitialState: IncludeState := IncludeState(0, false, FileCallback, None, InitialExpected)

  function KindOf(t: TokenType): CallbackType {
    if t == Url then UrlCallback else if t == Classpath then ResourceCallback else FileCallback
  }

  /** The step taken on `required(`, `url(`, `file(` or `classpath(` once the `(` is current. */
  function Opened(st: IncludeState, t: TokenType): IncludeState {
    if t == Required then st.(parens := st.parens + 1, required := true, expected := st.expected.(required := false))
    else st.(parens := st.parens + 1, kind := KindOf(t), expected := st.expected.(required := false, kinds := false))
  }

  /** The outcome of one pass of the loop body: an error, the last pass, or another pass. */
  datatype Step = Fail(error: ErrorKind) | Done(st: IncludeState, at: nat) | More(st: IncludeState, at: nat)

  /**
   * One pass of the `while (parsing)` body with the cursor at p: GetNextSignificant over the
   * expected tokens, then the case for the token found. `at` is where the cursor stops.
   */
  function IncludeStep(ts: TokenStream, p: nat, st: IncludeState): (s: Step)
    requires p < |ts|
    ensures !s.Fail? ==> p < s.at < |ts|
    ensures s.Done? ==> s.st.parens == 0 && (ts[s.at].kind == ParenthesisEnd || ts[s.at].kind == LiteralValue)
  {
    var q := NextSignificant(ts, p);
    var t := ts[q];
    if !Expects(st.expected, t.kind) then Fail(InvalidIncludeToken)
    else match t.kind
      case ParenthesisEnd =>
        if st.parens == 0 then Fail(UnexpectedCloseParen)
        else
          var st1 := st.(parens := st.parens - 1);
          if st1.parens > 0 then More(st1, q) else Done(st1, q)
      case Required | Url | File | Classpath =>
        var r := NextSignificant(ts, q);
        if ts[r].kind != ParenthesisStart then Fail(ExpectedOpenParen)
        else More(Opened(st, t.kind), r)
      case LiteralValue =>
        if t.literal != Quoted then Fail(InvalidFileName)
        else
          var st1 := st.(fileName := Some(t.text), expected := Expected(false, false, false));
          if st1.parens > 0 then More(st1, q) else Done(st1, q)
      case _ => Fail(UnexpectedIncludeToken)
  }

  // The cases of one pass, one lemma each.

  lemma StepOnClose(ts: TokenStream, p: nat, st: IncludeState)
    requires p < |ts| && ts[NextSignificant(ts, p)].kind == ParenthesisEnd
    ensures var q := NextSignificant(ts, p);
      IncludeStep(ts, p, st) ==
        if st.parens == 0 then Fail(UnexpectedCloseParen)
        else if st.parens > 1 then More(st.(parens := st.parens - 1), q)
        else Done(st.(parens := st.parens - 1), q)
  {
  }

  lemma StepOnKeyword(ts: TokenStream, p: nat, st: IncludeState)
    requires p < |ts|
    requires var k := ts[NextSignificant(ts, p)].kind; (k == Required || IsKindToken(k)) && Expects(st.expected, k)
    ensures var q := NextSignificant(ts, p);
      IncludeStep(ts, p, st) ==
        if ts[NextSignificant(ts, q)].kind != ParenthesisStart then Fail(ExpectedOpenParen)
        else More(Opened(st, ts[q].kind), NextSignificant(ts, q))
  {
  }

  lemma StepOnLiteral(ts: TokenStream, p: nat, st: IncludeState)
    requires p < |ts| && ts[NextSignificant(ts, p)].kind == LiteralValue && Expects(st.expected, LiteralValue)
    ensures var q := NextSignificant(ts, p);
      var st1 := st.(fileName := Some(ts[q].text), expected := Expected(false, false, false));
      IncludeStep(ts, p, st) ==
        if ts[q].literal != Quoted then Fail(InvalidFileName)
        else if st.parens > 0 then More(st1, q) else Done(st1, q)
  {
  }

  /**
   * The `while (parsing)` loop, starting with the cursor at p: the state and the position of
   * the last token it consumed, or the error it raises.
   */
  function IncludeLoop(ts: TokenStream, p: nat, st: IncludeState): (r: Result<(IncludeState, nat)>)
    requires p < |ts|
    ensures r.Ok? ==> p < r.value.1 < |ts| && r.value.0.parens == 0
    ensures r.Ok? ==> (ts[r.value.1].kind == ParenthesisEnd || ts[r.value.1].kind == LiteralValue)
    decreases |ts| - p
  {
    match IncludeStep(ts, p, st)
    case Fail(e) => Err(e)
    case Done(st1, q) => Ok((st1, q))
    case More(st1, q) => IncludeLoop(ts, q, st1)
  }

  /** The whole directive, from the `include` token to the cursor after its last token. */
  function ParseDirective(ts: TokenStream, p: nat): (r: Result<(Directive, nat)>)
    requires p < |ts|
    ensures ts[p].kind != Include ==> r == Err(IncludeExpected)
    ensures r.Ok? ==> p + 1 < r.value.1 < |ts|
    ensures r.Ok? ==> ts[r.value.1 - 1].kind == ParenthesisEnd || ts[r.value.1 - 1].kind == LiteralValue
  {
    if ts[p].kind != Include then Err(IncludeExpected)
    else match IncludeLoop(ts, p, InitialState)
      case Err(e) => Err(e)
      case Ok((st, q)) =>
        if st.fileName.None? then Err(MissingFileName)
        else Ok((Directive(st.required, st.kind, st.fileName.value), Advance(ts, q)))
  }

  // ---------------------------------------------------------------------------------------
  // Counting tokens of one kind in ts[a..b].

  function Count(ts: seq<Token>, a: nat, b: nat, k: TokenType): nat
    requires a <= b <= |ts|
    decreases b - a
  {
    if a == b then 0 else (if ts[a].kind == k then 1 else 0) + Count(ts, a + 1, b, k)
  }

  lemma {:induction false} CountSplit(ts: seq<Token>, a: nat, b: nat, c: nat, k: TokenType)
    requires a <= b <= c <= |ts|
    ensures Count(ts, a, c, k) == Count(ts, a, b, k) + Count(ts, b, c, k)
    decreases b - a
  {
    if a < b {
      CountSplit(ts, a + 1, b, c, k);
    }
  }

  lemma {:induction false} CountNone(ts: seq<Token>, a: nat, b: nat, k: TokenType)
    requires a <= b <= |ts|
    requires forall i | a <= i < b :: ts[i].kind != k
    ensures Count(ts, a, b, k) == 0
    decreases b - a
  {
    if a < b {
      CountNone(ts, a + 1, b, k);
    }
  }

  /** Between p and NextSignificant(p) there are only white-space literals, so no parentheses. */
  lemma SkippedHasNoParens(ts: TokenStream, p: nat)
    requires p < |ts| && ts[p].kind != EndOfFile
    ensures var q := NextSignificant(ts, p);
      Count(ts, p + 1, q, ParenthesisStart) == 0 && Count(ts, p + 1, q, ParenthesisEnd) == 0
  {
    var q := NextSignificant(ts, p);
    if p + 1 <= q {
      CountNone(ts, p + 1, q, ParenthesisStart);
      CountNone(ts, p + 1, q, ParenthesisEnd);
    }
  }

  /** A step from p to the significant token q, whose kind is k. */
  lemma StepCounts(ts: TokenStream, p: nat, k: TokenType)
    requires p < |ts| && ts[p].kind != EndOfFile
    requires ts[NextSignificant(ts, p)].kind == k
    ensures var q := NextSignificant(ts, p);
      && Count(ts, p + 1, q + 1, ParenthesisStart) == (if k == ParenthesisStart then 1 else 0)
      && Count(ts, p + 1, q + 1, ParenthesisEnd) == (if k == ParenthesisEnd then 1 else 0)
  {
    var q := NextSignificant(ts, p);
    SkippedHasNoParens(ts, p);
    CountSplit(ts, p + 1, q, q + 1, ParenthesisStart);
    CountSplit(ts, p + 1, q, q + 1, ParenthesisEnd);
  }

  // ---------------------------------------------------------------------------------------
  // What the automaton guarantees.

  /** One pass consumes one more `(` than `)` exactly when it opens a parenthesis. */
  lemma StepBalanced(ts: TokenStream, p: nat, st: IncludeState)
    requires p < |ts|
    requires !IncludeStep(ts, p, st).Fail?
    ensures var s := IncludeStep(ts, p, st);
      st.parens + Count(ts, p + 1, s.at + 1, ParenthesisStart) == Count(ts, p + 1, s.at + 1, ParenthesisEnd) + s.st.parens
  {
    var k := ts[NextSignificant(ts, p)].kind;
    if k == ParenthesisEnd || k == LiteralValue {
      StepBalancedAt(ts, p, st, k);
    } else {
      StepBalancedOpen(ts, p, st, k);
    }
  }

  /** StepBalanced for a pass that ends on the token it finds: a `)` or the file name. */
  lemma StepBalancedAt(ts: TokenStream, p: nat, st: IncludeState, k: TokenType)
    requires p < |ts|
    requires !IncludeStep(ts, p, st).Fail?
    requires k == ts[NextSignificant(ts, p)].kind && (k == ParenthesisEnd || k == LiteralValue)
    ensures var s := IncludeStep(ts, p, st);
      st.parens + Count(ts, p + 1, s.at + 1, ParenthesisStart) == Count(ts, p + 1, s.at + 1, ParenthesisEnd) + s.st.parens
  {
    var s := IncludeStep(ts, p, st);
    var q := NextSignificant(ts, p);
    assert s.at == q && s.st.parens + (if k == ParenthesisEnd then 1 else 0) == st.parens;
    StepCounts(ts, p, k);
  }

  /** StepBalanced for a pass on `required`, `url`, `file` or `classpath` and the `(` after it. */
  lemma StepBalancedOpen(ts: TokenStream, p: nat, st: IncludeState, k: TokenType)
    requires p < |ts|
    requires !IncludeStep(ts, p, st).Fail?
    requires k == ts[NextSignificant(ts, p)].kind && k != ParenthesisEnd && k != LiteralValue
    ensures var s := IncludeStep(ts, p, st);
      st.parens + Count(ts, p + 1, s.at + 1, ParenthesisStart) == Count(ts, p + 1, s.at + 1, ParenthesisEnd) + s.st.parens
  {
    var q := NextSignificant(ts, p);
    var r := NextSignificant(ts, q);
    OpenedStep(ts, p, st, k);
    StepCounts(ts, p, k);
    StepCounts(ts, q, ParenthesisStart);
    OpenedCounts(ts, p, q, r);
  }

  /** The shape of a pass on `required`, `url`, `file` or `classpath`: it ends on the `(` after it, one level deeper. */
  lemma OpenedStep(ts: TokenStream, p: nat, st: IncludeState, k: TokenType)
    requires p < |ts|
    requires !IncludeStep(ts, p, st).Fail?
    requires k == ts[NextSignificant(ts, p)].kind && k != ParenthesisEnd && k != LiteralValue
    ensures var r := NextSignificant(ts, NextSignificant(ts, p));
      && IncludeStep(ts, p, st).at == r && ts[r].kind == ParenthesisStart
      && IncludeStep(ts, p, st).st.parens == st.parens + 1
  {
  }

  /** The counts over (p, r] for the keyword at q and the `(` at r. */
  lemma OpenedCounts(ts: TokenStream, p: nat, q: nat, r: nat)
    requires p < q < r < |ts| && ts[q].kind != ParenthesisStart && ts[q].kind != ParenthesisEnd
    requires Count(ts, p + 1, q + 1, ParenthesisStart) == 0 && Count(ts, p + 1, q + 1, ParenthesisEnd) == 0
    requires Count(ts, q + 1, r + 1, ParenthesisStart) == 1 && Count(ts, q + 1, r + 1, ParenthesisEnd) == 0
    ensures Count(ts, p + 1, r + 1, ParenthesisStart) == 1 && Count(ts, p + 1, r + 1, ParenthesisEnd) == 0
  {
    CountSplit(ts, p + 1, q + 1, r + 1, ParenthesisStart);
    CountSplit(ts, p + 1, q + 1, r + 1, ParenthesisEnd);
  }

  /**
   * An include directive that is accepted has balanced parentheses: every `(` it consumed is
   * matched by a `)`.
   */
  lemma {:induction false} IncludeLoopBalanced(ts: TokenStream, p: nat, st: IncludeState, st2: IncludeState, q: nat)
    requires p < |ts|
    requires IncludeLoop(ts, p, st) == Ok((st2, q))
    ensures p <= q < |ts|
    ensures st.parens + Count(ts, p + 1, q + 1, ParenthesisStart) == Count(ts, p + 1, q + 1, ParenthesisEnd)
    decreases |ts| - p, 2
  {
    match IncludeStep(ts, p, st)
    case More(stm, m) => LoopMoreBalanced(ts, p, st, stm, m, st2, q);
    case _ => LoopDoneBalanced(ts, p, st, st2, q);
  }

  /** The case of IncludeLoopBalanced where the first pass is the last. */
  lemma {:induction false} LoopDoneBalanced(ts: TokenStream, p: nat, st: IncludeState, st2: IncludeState, q: nat)
    requires p < |ts|
    requires IncludeLoop(ts, p, st) == Ok((st2, q)) && !IncludeStep(ts, p, st).More?
    ensures p <= q < |ts|
    ensures st.parens + Count(ts, p + 1, q + 1, ParenthesisStart) == Count(ts, p + 1, q + 1, ParenthesisEnd)
  {
    var s := IncludeStep(ts, p, st);
    assert s.Done? && s.at == q && s.st == st2;
    StepBalanced(ts, p, st);
  }

  /** The case of IncludeLoopBalanced where the first pass asks for another. */
  lemma {:induction false} LoopMoreBalanced(ts: TokenStream, p: nat, st: IncludeState, stm: IncludeState, m: nat, st2: IncludeState, q: nat)
    requires p < |ts|
    requires IncludeLoop(ts, p, st) == Ok((st2, q)) && IncludeStep(ts, p, st) == More(stm, m)
    ensures p <= q < |ts|
    ensures st.parens + Count(ts, p + 1, q + 1, ParenthesisStart) == Count(ts, p + 1, q + 1, ParenthesisEnd)
    decreases |ts| - p, 1
  {
    StepMoreFacts(ts, p, st, stm, m);
    StepMoreLoop(ts, p, st, stm, m, st2, q);
    MoreBalanced(ts, p, st.parens, m, stm, st2, q);
  }

  /** A pass that asks for another moves forward and is balanced. */
  lemma {:induction false} StepMoreFacts(ts: TokenStream, p: nat, st: IncludeState, stm: IncludeState, m: nat)
    requires p < |ts| && IncludeStep(ts, p, st) == More(stm, m)
    ensures p < m < |ts|
    ensures st.parens + Count(ts, p + 1, m + 1, ParenthesisStart) == Count(ts, p + 1, m + 1, ParenthesisEnd) + stm.parens
  {
    StepBalanced(ts, p, st);
  }

  /** After a pass that asks for another, the loop goes on from where it stops. */
  lemma {:induction false} StepMoreLoop(ts: TokenStream, p: nat, st: IncludeState, stm: IncludeState, m: nat, st2: IncludeState, q: nat)
    requires p < |ts| && IncludeStep(ts, p, st) == More(stm, m)
    requires IncludeLoop(ts, p, st) == Ok((st2, q))
    ensures m < |ts| && IncludeLoop(ts, m, stm) == Ok((st2, q))
  {
    LoopMore(ts, p, st);
  }

  /** The case of IncludeLoopBalanced where the pass from p stops at m in state stm and asks for another. */
  lemma {:induction false} MoreBalanced(ts: TokenStream, p: nat, a: nat, m: nat, stm: IncludeState, st2: IncludeState, q: nat)
    requires p < m < |ts|
    requires a + Count(ts, p + 1, m + 1, ParenthesisStart) == Count(ts, p + 1, m + 1, ParenthesisEnd) + stm.parens
    requires IncludeLoop(ts, m, stm) == Ok((st2, q))
    ensures m <= q < |ts|
    ensures a + Count(ts, p + 1, q + 1, ParenthesisStart) == Count(ts, p + 1, q + 1, ParenthesisEnd)
    decreases |ts| - p, 0
  {
    IncludeLoopBalanced(ts, m, stm, st2, q);
    BalanceChains(ts, p, m, q, a, stm.parens);
  }

  /** IncludeLoop after a pass that asks for another. */
  lemma {:induction false} LoopMore(ts: TokenStream, p: nat, st: IncludeState)
    requires p < |ts|
    requires IncludeStep(ts, p, st).More?
    ensures var s := IncludeStep(ts, p, st);
      IncludeLoop(ts, p, st) == IncludeLoop(ts, s.at, s.st)
  {
  }

  /** Two balanced stretches (p, m] and (m, q] make a balanced stretch (p, q]. */
  lemma BalanceChains(ts: TokenStream, p: nat, m: nat, q: nat, a: nat, b: nat)
    requires p <= m <= q < |ts|
    requires a + Count(ts, p + 1, m + 1, ParenthesisStart) == Count(ts, p + 1, m + 1, ParenthesisEnd) + b
    requires b + Count(ts, m + 1, q + 1, ParenthesisStart) == Count(ts, m + 1, q + 1, ParenthesisEnd)
    ensures a + Count(ts, p + 1, q + 1, ParenthesisStart) == Count(ts, p + 1, q + 1, ParenthesisEnd)
  {
    CountSplit(ts, p + 1, m + 1, q + 1, ParenthesisStart);
    CountSplit(ts, p + 1, m + 1, q + 1, ParenthesisEnd);
  }

  /** A token of kind k consumed by the directive, at a position in (p, q]. */
  ghost predicate ConsumedKind(ts: TokenStream, p: nat, q: nat, k: TokenType)
    requires q < |ts|
  {
    exists i | p < i <= q :: ts[i].kind == k
  }

  /** A url, file or classpath token consumed at a position in (p, q]. */
  ghost predicate ConsumedAnyKind(ts: TokenStream, p: nat, q: nat)
    requires q < |ts|
  {
    ConsumedKind(ts, p, q, Url) || ConsumedKind(ts, p, q, File) || ConsumedKind(ts, p, q, Classpath)
  }

  /** A quoted literal with the given text consumed at a position in (p, q]. */
  ghost predicate ConsumedFileName(ts: TokenStream, p: nat, q: nat, name: string)
    requires q < |ts|
  {
    exists i | p < i <= q :: ts[i].kind == LiteralValue && ts[i].literal == Quoted && ts[i].text == name
  }

  /** What one pass does to the file name, the required flag and the kind. */
  lemma StepEffects(ts: TokenStream, p: nat, st: IncludeState)
    requires p < |ts|
    requires !IncludeStep(ts, p, st).Fail?
    ensures var s := IncludeStep(ts, p, st);
      && (s.st.fileName == st.fileName || (s.st.fileName.Some? && ConsumedFileName(ts, p, s.at, s.st.fileName.value)))
      && (s.st.required <==> st.required || ConsumedKind(ts, p, s.at, Required))
      && (s.st.kind == st.kind || ConsumedAnyKind(ts, p, s.at))
  {
    var q := NextSignificant(ts, p);
    var k := ts[q].kind;
    if k == ParenthesisEnd || k == LiteralValue {
      AtStep(ts, p, st, k);
      NothingRequiredBefore(ts, p, q);
    } else {
      OpenedStep(ts, p, st, k);
      var r := NextSignificant(ts, q);
      assert IsKindToken(k) || k == Required;
      OpenedConsumes(ts, p, q, r);
    }
  }

  /** The shape of a pass that ends on the token it finds, a `)` or the file name. */
  lemma AtStep(ts: TokenStream, p: nat, st: IncludeState, k: TokenType)
    requires p < |ts|
    requires !IncludeStep(ts, p, st).Fail?
    requires k == ts[NextSignificant(ts, p)].kind && (k == ParenthesisEnd || k == LiteralValue)
    ensures var q := NextSignificant(ts, p);
      && IncludeStep(ts, p, st).at == q
      && IncludeStep(ts, p, st).st.required == st.required && IncludeStep(ts, p, st).st.kind == st.kind
      && (k == ParenthesisEnd ==> IncludeStep(ts, p, st).st.fileName == st.fileName)
      && (k == LiteralValue ==> ts[q].literal == Quoted && IncludeStep(ts, p, st).st.fileName == Some(ts[q].text))
  {
  }

  /** A pass that ends on the significant token q consumes no `required` unless q is one, and q's file name. */
  lemma NothingRequiredBefore(ts: TokenStream, p: nat, q: nat)
    requires p < |ts| && ts[p].kind != EndOfFile && q == NextSignificant(ts, p)
    ensures ts[q].kind != Required ==> !ConsumedKind(ts, p, q, Required)
    ensures ts[q].kind == LiteralValue && ts[q].literal == Quoted ==> ConsumedFileName(ts, p, q, ts[q].text)
  {
    assert forall i | p < i < q :: IsNonSignificant(ts[i]);
  }

  /** A pass on a keyword at q and its `(` at r consumes that keyword and no other `required`. */
  lemma OpenedConsumes(ts: TokenStream, p: nat, q: nat, r: nat)
    requires p < |ts| && ts[p].kind != EndOfFile && q == NextSignificant(ts, p)
    requires ts[q].kind != EndOfFile && r == NextSignificant(ts, q) && ts[r].kind == ParenthesisStart
    ensures ConsumedKind(ts, p, r, ts[q].kind)
    ensures ts[q].kind != Required ==> !ConsumedKind(ts, p, r, Required)
  {
    assert forall i | p < i < q :: IsNonSignificant(ts[i]);
    assert forall i | q < i < r :: IsNonSignificant(ts[i]);
    assert ConsumedKind(ts, p, r, ts[q].kind);
    if ts[q].kind != Required {
      forall i | p < i <= r ensures ts[i].kind != Required {
        assert i < q || i == q || q < i < r || i == r;
      }
    }
  }

  /** Consumption over (p, q] splits at any m between them. */
  lemma ConsumedSplit(ts: TokenStream, p: nat, m: nat, q: nat)
    requires p <= m <= q < |ts|
    ensures forall k :: ConsumedKind(ts, p, q, k) <==> ConsumedKind(ts, p, m, k) || ConsumedKind(ts, m, q, k)
    ensures forall n :: ConsumedFileName(ts, m, q, n) ==> ConsumedFileName(ts, p, q, n)
  {
  }

  /**
   * The file name of an accepted directive is the text of a quoted literal the directive
   * consumed, `required` is set exactly when a `required` token was consumed, and the kind
   * changes only when a url, file or classpath token was consumed.
   */
  lemma {:induction false} IncludeLoopEffects(ts: TokenStream, p: nat, st: IncludeState, st2: IncludeState, q: nat)
    requires p < |ts|
    requires IncludeLoop(ts, p, st) == Ok((st2, q))
    ensures st2.fileName == st.fileName || (st2.fileName.Some? && ConsumedFileName(ts, p, q, st2.fileName.value))
    ensures st2.required <==> st.required || ConsumedKind(ts, p, q, Required)
    ensures st2.kind == st.kind || ConsumedAnyKind(ts, p, q)
    decreases |ts| - p
  {
    var s := IncludeStep(ts, p, st);
    StepEffects(ts, p, st);
    if s.More? {
      LoopMore(ts, p, st);
      IncludeLoopEffects(ts, s.at, s.st, st2, q);
      ConsumedSplit(ts, p, s.at, q);
    } else {
      assert s.Done? && s.at == q && s.st == st2;
    }
  }

  /**
   * An accepted directive names a quoted file that was in the input, is required exactly when
   * it says `required`, includes a file unless it says url or classpath, and has balanced
   * parentheses. Stated for the loop's final state st and the position `last` of the last
   * token it consumed, from which ParseDirective takes the directive.
   */
  lemma DirectiveProperties(ts: TokenStream, p: nat, st: IncludeState, last: nat)
    requires p < |ts| && IncludeLoop(ts, p, InitialState) == Ok((st, last)) && st.fileName.Some?
    ensures p < last && ConsumedFileName(ts, p, last, st.fileName.value)
    ensures st.required <==> ConsumedKind(ts, p, last, Required)
    ensures !ConsumedAnyKind(ts, p, last) ==> st.kind == FileCallback
    ensures Count(ts, p + 1, last + 1, ParenthesisStart) == Count(ts, p + 1, last + 1, ParenthesisEnd)
  {
    IncludeLoopEffects(ts, p, InitialState, st, last);
    IncludeLoopBalanced(ts, p, InitialState, st, last);
  }

  /** A `)` before any `(`, and a file name that is not a quoted string, are rejected. */
  lemma DirectiveRejects(ts: TokenStream, p: nat)
    requires p < |ts| && ts[p].kind == Include
    ensures ts[NextSignificant(ts, p)].kind == ParenthesisEnd ==> ParseDirective(ts, p) == Err(UnexpectedCloseParen)
    ensures var t := ts[NextSignificant(ts, p)];
      t.kind == LiteralValue && t.literal != Quoted ==> ParseDirective(ts, p) == Err(InvalidFileName)
    ensures ts[NextSignificant(ts, p)].kind == EndOfLine ==> ParseDirective(ts, p) == Err(UnexpectedIncludeToken)
    ensures !Expects(InitialExpected, ts[NextSignificant(ts, p)].kind) ==> ParseDirective(ts, p) == Err(InvalidIncludeToken)
  {
  }

  /** `required` must come first: once a kind has opened its parenthesis, `required` is no longer expected. */
  lemma RequiredAfterKindRejected(ts: TokenStream, p: nat, st: IncludeState, k: TokenType)
    requires p < |ts| && IsKindToken(k)
    ensures !Expects(Opened(st, k).expected, Required)
    ensures forall t | IsKindToken(t) :: !Expects(Opened(st, k).expected, t)
    ensures ts[NextSignificant(ts, p)].kind == Required ==> IncludeLoop(ts, p, Opened(st, k)) == Err(InvalidIncludeToken)
  {
  }

  // ---------------------------------------------------------------------------------------
  // After the directive: the callback's text and the type check on the included root.

  /**
   * What the include does with the callback's text: a blank text fails a required include
   * and makes an optional one an empty value (None); any other text is parsed (Some).
   */
  function IncludeText(required: bool, text: Option<string>): (r: Result<Option<string>>)
    ensures r.Err? <==> required && IsNullOrWhiteSpace(text)
    ensures r.Err? ==> r.error == RequiredIncludeMissing
    ensures r.Ok? && r.value.None? <==> !required && IsNullOrWhiteSpace(text)
    ensures r.Ok? && r.value.Some? ==> text.Some? && r.value.value == text.value && !IsNullOrWhiteSpace(text)
  {
    if IsNullOrWhiteSpace(text) then (if required then Err(RequiredIncludeMissing) else Ok(None))
    else Ok(Some(text.value))
  }

  /**
   * The check at the end of ParseIncludeAsync as written: it reads the owner's type, and the
   * owner is null for an include at the root of the document (ParseTokensAsync passes null).
   */
  function OwnerCheckAsWritten(owner: Option<HType>, included: HType): (r: Result<()>)
    ensures r.Ok? <==> owner.Some? && (owner.value == EmptyType || owner.value == included)
    ensures owner.None? ==> r == Err(NullDereference)
    ensures owner.Some? && r.Err? ==> r.error == IncludeTypeMismatch
  {
    match owner
    case None => Err(NullDereference)
    case Some(t) => if t != EmptyType && t != included then Err(IncludeTypeMismatch) else Ok(())
  }

  /** The intended check: an included document must have its owner's type, unless the owner is still empty (or absent). */
  function OwnerCheck(owner: Option<HType>, included: HType): (r: Result<()>)
    ensures r.Ok? <==> owner.None? || owner.value == EmptyType || owner.value == included
    ensures r.Err? ==> r.error == IncludeTypeMismatch
  {
    match owner
    case None => Ok(())
    case Some(t) => if t != EmptyType && t != included then Err(IncludeTypeMismatch) else Ok(())
  }

  /** The two checks differ exactly on root-level includes: as written, every one of them faults. */
  lemma RootIncludeFaults(owner: Option<HType>, included: HType)
    ensures owner.None? ==> OwnerCheckAsWritten(owner, included) == Err(NullDereference) && OwnerCheck(owner, included).Ok?
    ensures owner.Some? ==> OwnerCheckAsWritten(owner, included) == OwnerCheck(owner, included)
  {
  }
}
