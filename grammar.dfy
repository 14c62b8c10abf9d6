/**
 * Token-level facts the parser's methods are specified by: where a key starts and ends,
 * which key it spells, and what may follow a root-level array.
 */
module Grammar {
  import opened Wrappers
  import opened Tokens
  import opened Paths

  /** The first position at or after q that does not hold a literal (at worst the end-of-file token). */
  function LiteralRunEnd(ts: TokenStream, q: nat): (r: nat)
    requires q < |ts|
    ensures q <= r < |ts|
    ensures ts[r].kind != LiteralValue
    ensures forall i | q <= i < r :: ts[i].kind == LiteralValue
    decreases |ts| - q
  {
    if ts[q].kind == LiteralValue && q < |ts| - 1 then LiteralRunEnd(ts, q + 1) else q
  }

  /** ParseKey first steps over white-space literals, without consuming the current token. */
  function KeyStart(ts: TokenStream, p: nat): nat
    requires p < |ts|
  {
    SkipFrom(ts, p, WhitespaceLiterals)
  }

  /**
   * The key ParseKey reads from p: the run of literal tokens at KeyStart, without its
   * trailing white space; KeyExpected when KeyStart does not hold a literal.
   */
  function KeyOf(ts: TokenStream, p: nat): Result<Path>
    requires p < |ts|
  {
    var q := KeyStart(ts, p);
    if ts[q].kind != LiteralValue then Err(KeyExpected)
    else Ok(FromTokens(TrimTrailingWhitespace(ts[q..LiteralRunEnd(ts, q)])))
  }

  /** Where ParseKey leaves the cursor. */
  function KeyEnd(ts: TokenStream, p: nat): (r: nat)
    requires p < |ts|
    ensures p <= r < |ts|
  {
    var q := KeyStart(ts, p);
    if ts[q].kind != LiteralValue then q else LiteralRunEnd(ts, q)
  }

  /** A key that was read was followed by the first token that is not a literal, and consumed at least one token. */
  lemma KeyEndsAtNonLiteral(ts: TokenStream, p: nat)
    requires p < |ts| && KeyOf(ts, p).Ok?
    ensures p < KeyEnd(ts, p) && ts[KeyEnd(ts, p)].kind != LiteralValue
    ensures forall i | p <= i < KeyEnd(ts, p) :: ts[i].kind == LiteralValue
  {
  }

  /**
   * A key written as one quoted literal, followed by white space only, is that literal's
   * text as a single segment, dots and all.
   */
  lemma QuotedKeyIgnoresTrailingSpace(ts: TokenStream, p: nat)
    requires p + 1 < |ts|
    requires ts[p].kind == LiteralValue && ts[p].literal == Quoted
    requires forall i | p < i < LiteralRunEnd(ts, p) :: ts[i].literal == Whitespace
    ensures KeyOf(ts, p) == Ok([ts[p].text])
  {
    var e := LiteralRunEnd(ts, p);
    var run := ts[p..e];
    assert KeyStart(ts, p) == p;
    assert TrimTrailingWhitespace(run) == [ts[p]] by {
      TrimToFirst(run);
    }
    QuotedKeyIsOneSegment(ts[p]);
  }

  lemma {:induction false} TrimToFirst(run: seq<Token>)
    requires |run| > 0 && run[0].literal != Whitespace
    requires forall i | 0 < i < |run| :: run[i].literal == Whitespace
    ensures TrimTrailingWhitespace(run) == [run[0]]
    decreases |run|
  {
    if |run| > 1 {
      TrimToFirst(run[..|run| - 1]);
    } else {
      assert run == [run[0]];
    }
  }

  // ---------------------------------------------------------------------------------------
  // What may follow a root-level array. The cursor stands on the token after `]`.

  /**
   * The check as written: ConsumeWhitelines steps past the current token before it skips
   * white space, so the token right after `]` is never examined.
   */
  function RootArrayTailAsWritten(ts: TokenStream, q: nat): (r: bool)
    requires q < |ts|
    ensures r <==> RootArrayTail(ts, Advance(ts, q))
  {
    ts[Consume(ts, q, Whitelines)].kind == EndOfFile
  }

  /** The intended check: only white space, comments and line ends may follow the array. */
  predicate RootArrayTail(ts: TokenStream, q: nat)
    requires q < |ts|
  {
    ts[SkipFrom(ts, q, Whitelines)].kind == EndOfFile
  }

  /** The intended check accepts exactly the tails made of skippable tokens. */
  lemma RootArrayTailExact(ts: TokenStream, q: nat)
    requires q < |ts|
    ensures RootArrayTail(ts, q) <==> forall i | q <= i < |ts| - 1 :: Skippable(ts[i], Whitelines)
  {
    if forall i | q <= i < |ts| - 1 :: Skippable(ts[i], Whitelines) {
      SkipFromEndsAtEof(ts, q, Whitelines);
    }
  }

  const SwallowedTail: TokenStream := [
    Token(StartOfArray, NoLiteral, "["), Token(LiteralValue, Unquoted, "1"),
    Token(EndOfArray, NoLiteral, "]"), Token(LiteralValue, Unquoted, "x"),
    Token(EndOfFile, NoLiteral, "")]

  /** `[1]x`: the check as written accepts the stray `x`; the intended one rejects it. */
  lemma RootArrayTailSwallowsToken()
    ensures RootArrayTailAsWritten(SwallowedTail, 3)
    ensures !RootArrayTail(SwallowedTail, 3)
  {
    var ts := SwallowedTail;
    assert SkipFrom(ts, 4, Whitelines) == 4;
    assert SkipFrom(ts, 3, Whitelines) == 3;
  }
}
