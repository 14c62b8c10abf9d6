/**
 * The token stream the parser walks, and the skipping functions that specify the
 * parser's ConsumeWhitespace, ConsumeWhitelines and the tokenizer's GetNextSignificant.
 * The tokenizer itself is not part of this model; its output contract is TokenStream.
 */
module Tokens {

  datatype TokenType =
    | Comment | EndOfLine | EndOfFile
    | StartOfObject | EndOfObject | StartOfArray | EndOfArray
    | Comma | Assign | LiteralValue
    | SubstituteRequired | SubstituteOptional
    | Include | Required | Url | File | Classpath
    | ParenthesisStart | ParenthesisEnd

  datatype LiteralType = NoLiteral | Whitespace | Unquoted | Quoted | TripleQuoted

  datatype Token = Token(kind: TokenType, literal: LiteralType, text: string)

  /** What the tokenizer hands over: one end-of-file token, at the end, and literal types only on literals. */
  predicate WellFormed(ts: seq<Token>) {
    && |ts| > 0
    && ts[|ts| - 1].kind == EndOfFile
    && (forall i | 0 <= i < |ts| - 1 :: ts[i].kind != EndOfFile)
    && (forall i | 0 <= i < |ts| :: ts[i].kind != LiteralValue ==> ts[i].literal == NoLiteral)
  }

  type TokenStream = ts: seq<Token> | WellFormed(ts) witness [Token(EndOfFile, NoLiteral, "")]

  /** A white-space literal: the only token the parser treats as non-significant on its own. */
  predicate IsNonSignificant(t: Token) {
    t.kind == LiteralValue && t.literal == Whitespace
  }

  /** Which tokens each of the three skipping loops passes over. */
  datatype SkipMode = WhitespaceLiterals | WhitespaceAndComments | Whitelines

  predicate Skippable(t: Token, mode: SkipMode) {
    match mode
    case WhitespaceLiterals => IsNonSignificant(t)
    case WhitespaceAndComments => IsNonSignificant(t) || t.kind == Comment
    case Whitelines => IsNonSignificant(t) || t.kind == Comment || t.kind == EndOfLine
  }

  /** Next(): one step forward; the cursor never moves past the end-of-file token. */
  function Advance(ts: TokenStream, p: nat): (q: nat)
    requires p < |ts|
    ensures q < |ts|
    ensures ts[p].kind == EndOfFile ==> q == p
    ensures ts[p].kind != EndOfFile ==> q == p + 1
  {
    if p < |ts| - 1 then p + 1 else p
  }

  /** The first position at or after q whose token the mode does not skip. */
  function SkipFrom(ts: TokenStream, q: nat, mode: SkipMode): (r: nat)
    requires q < |ts|
    ensures q <= r < |ts|
    ensures !Skippable(ts[r], mode)
    ensures forall i | q <= i < r :: Skippable(ts[i], mode)
    decreases |ts| - q
  {
    if Skippable(ts[q], mode) then SkipFrom(ts, q + 1, mode) else q
  }

  /**
   * ConsumeWhitespace / ConsumeWhitelines: step past the CURRENT token, whatever it is,
   * then past every skippable token after it.
   */
  function Consume(ts: TokenStream, p: nat, mode: SkipMode): (r: nat)
    requires p < |ts|
    ensures p <= r < |ts|
    ensures ts[p].kind != EndOfFile ==> p < r
    ensures !Skippable(ts[r], mode)
    ensures forall i | p < i < r :: Skippable(ts[i], mode)
  {
    SkipFrom(ts, Advance(ts, p), mode)
  }

  /** GetNextSignificant: step forward, then past white-space literals. */
  function NextSignificant(ts: TokenStream, p: nat): (r: nat)
    requires p < |ts|
    ensures p <= r < |ts|
    ensures ts[p].kind != EndOfFile ==> p < r
    ensures !IsNonSignificant(ts[r])
  {
    Consume(ts, p, WhitespaceLiterals)
  }

  /** Skipping is idempotent: a second skip from where the first stopped does not move. */
  lemma SkipFromStops(ts: TokenStream, q: nat, mode: SkipMode)
    requires q < |ts|
    ensures SkipFrom(ts, SkipFrom(ts, q, mode), mode) == SkipFrom(ts, q, mode)
  {
  }

  /** The end-of-file token is never skipped, so skipping can only reach it, never pass it. */
  lemma {:induction false} SkipFromEndsAtEof(ts: TokenStream, q: nat, mode: SkipMode)
    requires q < |ts|
    requires forall i | q <= i < |ts| - 1 :: Skippable(ts[i], mode)
    ensures SkipFrom(ts, q, mode) == |ts| - 1
    decreases |ts| - q
  {
    if q < |ts| - 1 {
      SkipFromEndsAtEof(ts, q + 1, mode);
    }
  }
}

/**
 * The tokenizer result the parser holds (`_tokens`): a cursor over the token stream with
 * Current, Next and GetNextSignificant, advanced in place.
 */
module Cursor {
  import opened Tokens

  class TokenCursor {
    const tokens: TokenStream
    var pos: nat

    ghost predicate Valid() reads this { pos < |tokens| }

    function Current(): Token
      reads this
      requires Valid()
    {
      tokens[pos]
    }

    constructor (ts: TokenStream)
      ensures Valid() && tokens == ts && pos == 0
    {
      tokens := ts;
      pos := 0;
    }

    method Next()
      requires Valid()
      modifies this`pos
      ensures Valid() && pos == Advance(tokens, old(pos))
    {
      if pos < |tokens| - 1 {
        pos := pos + 1;
      }
    }

    /** GetNextSignificant(expected): move to the next significant token and report whether its type is one of the expected ones. */
    method GetNextSignificant(expected: TokenType -> bool) returns (found: bool)
      requires Valid()
      modifies this`pos
      ensures Valid() && pos == NextSignificant(tokens, old(pos))
      ensures found <==> expected(tokens[pos].kind)
    {
      Next();
      while IsNonSignificant(Current())
        invariant Valid()
        invariant SkipFrom(tokens, pos, WhitespaceLiterals) == NextSignificant(tokens, old(pos))
        decreases |tokens| - pos
      {
        Next();
      }
      found := expected(Current().kind);
    }
  }
}
