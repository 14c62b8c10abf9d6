/**
 * Key paths (the C# HoconPath): a path is its sequence of key segments.
 * HoconPath itself is not part of this model; the operations the parser and the resolver
 * use on it (FromTokens, Parse, Value, IsChildPathOf, SubPath) are modelled here.
 */
module Paths {
  import opened Tokens

  type Path = seq<string>

  /** `child.IsChildPathOf(parent)`: parent is a strict prefix of child. */
  predicate IsChildPathOf(child: Path, parent: Path) {
    |parent| < |child| && child[..|parent|] == parent
  }

  /** `path.SubPath(start, count)`. */
  function SubPath(p: Path, start: nat, count: nat): (r: Path)
    requires start + count <= |p|
    ensures |r| == count
    ensures forall i | 0 <= i < count :: r[i] == p[start + i]
  {
    p[start..start + count]
  }

  /**
   * The delta the resolver takes in its child case (`SubPath(Count - difLength, difLength)`)
   * is exactly what extends the field's path to the substitution's path.
   */
  lemma DeltaCompletesPath(sub: Path, field: Path)
    requires IsChildPathOf(sub, field)
    ensures field + SubPath(sub, |sub| - (|sub| - |field|), |sub| - |field|) == sub
    ensures |SubPath(sub, |field|, |sub| - |field|)| > 0
  {
    assert sub == sub[..|field|] + sub[|field|..];
  }

  /** Being a child path is a strict order: never reflexive, never both ways. */
  lemma ChildPathIsStrict(a: Path, b: Path)
    ensures !IsChildPathOf(a, a)
    ensures IsChildPathOf(a, b) ==> !IsChildPathOf(b, a)
  {
  }

  /** `path.Value`: the segments joined by dots (the environment-variable name of a substitution). */
  function PathText(p: Path): string
  {
    if |p| == 0 then ""
    else if |p| == 1 then p[0]
    else p[0] + "." + PathText(p[1..])
  }

  // ---------------------------------------------------------------------------------------
  // From text to segments. Dots split unquoted text; quoted text is taken whole, and even an
  // empty quoted string makes a segment. Empty unquoted pieces do not make segments.

  datatype Unit = Char(c: char, quoted: bool) | QuoteMark

  function UnquotedUnits(s: string): (us: seq<Unit>)
    ensures |us| == |s|
    ensures forall i | 0 <= i < |s| :: us[i] == Char(s[i], false)
  {
    if |s| == 0 then [] else [Char(s[0], false)] + UnquotedUnits(s[1..])
  }

  function QuotedChars(s: string): (us: seq<Unit>)
    ensures |us| == |s|
    ensures forall i | 0 <= i < |s| :: us[i] == Char(s[i], true)
  {
    if |s| == 0 then [] else [Char(s[0], true)] + QuotedChars(s[1..])
  }

  function Split(us: seq<Unit>, cur: string, present: bool): Path
    decreases |us|
  {
    if |us| == 0 then (if present then [cur] else [])
    else match us[0]
      case QuoteMark => Split(us[1..], cur, true)
      case Char(c, q) =>
        if c == '.' && !q then (if present then [cur] else []) + Split(us[1..], "", false)
        else Split(us[1..], cur + [c], true)
  }

  function TokenUnits(ts: seq<Token>): seq<Unit>
  {
    if |ts| == 0 then []
    else
      var head := if ts[0].literal == Quoted || ts[0].literal == TripleQuoted
        then [QuoteMark] + QuotedChars(ts[0].text)
        else UnquotedUnits(ts[0].text);
      head + TokenUnits(ts[1..])
  }

  /** `HoconPath.FromTokens`: the key path spelled by a run of literal tokens. */
  function FromTokens(ts: seq<Token>): Path
  {
    Split(TokenUnits(ts), "", false)
  }

  /** The units of path text: a double quote opens or closes a quoted stretch. */
  function TextUnits(s: string, quoted: bool): (us: seq<Unit>)
    ensures |us| == |s|
  {
    if |s| == 0 then []
    else if s[0] == '"' then [QuoteMark] + TextUnits(s[1..], !quoted)
    else [Char(s[0], quoted)] + TextUnits(s[1..], quoted)
  }

  /** `HoconPath.Parse`: the path written inside `${...}`; dots inside double quotes do not split it. */
  function ParsePath(s: string): Path
  {
    Split(TextUnits(s, false), "", false)
  }

  /** ParseKey's trimming: the key tokens without their trailing white-space literals. */
  function TrimTrailingWhitespace(ts: seq<Token>): (r: seq<Token>)
    ensures |r| <= |ts| && r == ts[..|r|]
    ensures |r| > 0 ==> r[|r| - 1].literal != Whitespace
    ensures forall i | |r| <= i < |ts| :: ts[i].literal == Whitespace
  {
    if |ts| == 0 || ts[|ts| - 1].literal != Whitespace then ts
    else TrimTrailingWhitespace(ts[..|ts| - 1])
  }

  /** Trimming a prefix that ends in white space is trimming it one token shorter. */
  lemma TrimStep(ts: seq<Token>, n: nat)
    requires 0 < n <= |ts| && ts[n - 1].literal == Whitespace
    ensures TrimTrailingWhitespace(ts[..n]) == TrimTrailingWhitespace(ts[..n - 1])
  {
    assert ts[..n][..n - 1] == ts[..n - 1];
  }

  /** A prefix that does not end in white space is left as it is. */
  lemma TrimStop(ts: seq<Token>, n: nat)
    requires n <= |ts| && (n == 0 || ts[n - 1].literal != Whitespace)
    ensures TrimTrailingWhitespace(ts[..n]) == ts[..n]
  {
  }

  // ---------------------------------------------------------------------------------------
  // Properties of the segment model.

  lemma {:induction false} UnquotedUnitsAppend(a: string, b: string)
    ensures UnquotedUnits(a + b) == UnquotedUnits(a) + UnquotedUnits(b)
  {
    assert UnquotedUnits(a + b) == UnquotedUnits(a) + UnquotedUnits(b);
  }

  /** Unquoted text without dots only extends the current segment. */
  lemma {:induction false} SplitPlainText(s: string, us: seq<Unit>, cur: string, present: bool)
    requires '.' !in s
    ensures Split(UnquotedUnits(s) + us, cur, present) == Split(us, cur + s, present || |s| > 0)
    decreases |s|
  {
    if |s| > 0 {
      assert (UnquotedUnits(s) + us)[0] == Char(s[0], false);
      assert (UnquotedUnits(s) + us)[1..] == UnquotedUnits(s[1..]) + us;
      SplitPlainText(s[1..], us, cur + [s[0]], true);
      assert cur + [s[0]] + s[1..] == cur + s;
    } else {
      assert UnquotedUnits(s) + us == us;
      assert cur + s == cur;
    }
  }

  /** Quoted text only extends the current segment, dots included. */
  lemma {:induction false} SplitQuotedText(s: string, us: seq<Unit>, cur: string, present: bool)
    ensures Split(QuotedChars(s) + us, cur, present) == Split(us, cur + s, present || |s| > 0)
    decreases |s|
  {
    if |s| > 0 {
      assert (QuotedChars(s) + us)[0] == Char(s[0], true);
      assert (QuotedChars(s) + us)[1..] == QuotedChars(s[1..]) + us;
      SplitQuotedText(s[1..], us, cur + [s[0]], true);
      assert cur + [s[0]] + s[1..] == cur + s;
    } else {
      assert QuotedChars(s) + us == us;
      assert cur + s == cur;
    }
  }

  /** A single quoted key token is one segment, whatever it contains (the empty key too). */
  lemma QuotedKeyIsOneSegment(t: Token)
    requires t.literal == Quoted
    ensures FromTokens([t]) == [t.text]
  {
    var us := [QuoteMark] + QuotedChars(t.text);
    assert [t][1..] == [];
    assert TokenUnits([t]) == us + [];
    assert us + [] == us;
    assert us[0] == QuoteMark && us[1..] == QuotedChars(t.text) + [];
    assert Split(us, "", false) == Split(QuotedChars(t.text) + [], "", true);
    SplitQuotedText(t.text, [], "", true);
    assert "" + t.text == t.text;
  }

  /** Segments a path can be written with unquoted: non-empty and free of dots and quotes. */
  predicate PlainSegments(p: Path) {
    forall i | 0 <= i < |p| :: |p[i]| > 0 && '.' !in p[i] && '"' !in p[i]
  }

  /** Outside quotes, text without a quote is plain unquoted units. */
  lemma {:induction false} TextUnitsPlain(s: string)
    requires '"' !in s
    ensures TextUnits(s, false) == UnquotedUnits(s)
  {
    if |s| > 0 {
      assert s[0] != '"' && '"' !in s[1..];
      TextUnitsPlain(s[1..]);
    }
  }

  /** Inside quotes, text up to the closing quote is quoted characters. */
  lemma {:induction false} TextUnitsClosed(s: string)
    requires '"' !in s
    ensures TextUnits(s + "\"", true) == QuotedChars(s) + [QuoteMark]
  {
    if |s| > 0 {
      assert (s + "\"")[0] == s[0] && (s + "\"")[1..] == s[1..] + "\"";
      assert '"' !in s[1..];
      TextUnitsClosed(s[1..]);
    } else {
      assert s + "\"" == "\"";
    }
  }

  /** A quoted path is one segment, dots and all: `${"a.b"}` names the key `a.b`. */
  lemma QuotedPathIsOneSegment(s: string)
    requires '"' !in s
    ensures ParsePath("\"" + s + "\"") == [s]
  {
    var text := "\"" + s + "\"";
    assert text[0] == '"' && text[1..] == s + "\"";
    TextUnitsClosed(s);
    var us := [QuoteMark] + (QuotedChars(s) + [QuoteMark]);
    assert TextUnits(text, false) == us;
    assert us[0] == QuoteMark && us[1..] == QuotedChars(s) + [QuoteMark];
    SplitQuotedText(s, [QuoteMark], "", true);
    assert "" + s == s;
  }

  /** The text of plain segments has no quote in it. */
  lemma {:induction false} PathTextUnquoted(p: Path)
    requires forall i | 0 <= i < |p| :: '"' !in p[i]
    ensures '"' !in PathText(p)
  {
    if |p| > 1 {
      assert forall i | 0 <= i < |p[1..]| :: p[1..][i] == p[i + 1];
      PathTextUnquoted(p[1..]);
    }
  }

  /** A plain segment followed by a dot closes that segment. */
  lemma SplitSegmentThenDot(seg: string, rest: string)
    requires |seg| > 0 && '.' !in seg
    ensures Split(UnquotedUnits(seg + "." + rest), "", false) == [seg] + Split(UnquotedUnits(rest), "", false)
  {
    var tail := UnquotedUnits(rest);
    var us := [Char('.', false)] + tail;
    UnquotedUnitsAppend(seg, "." + rest);
    UnquotedUnitsAppend(".", rest);
    assert UnquotedUnits(".") == [Char('.', false)];
    assert seg + "." + rest == seg + ("." + rest);
    SplitPlainText(seg, us, "", false);
    assert "" + seg == seg;
    assert us[0] == Char('.', false) && us[1..] == tail;
  }

  /** Path.Value and HoconPath.Parse are inverse on paths of plain segments. */
  lemma {:induction false} ParsePathText(p: Path)
    requires PlainSegments(p)
    ensures ParsePath(PathText(p)) == p
  {
    PathTextUnquoted(p);
    TextUnitsPlain(PathText(p));
    PlainPathText(p);
  }

  lemma {:induction false} PlainPathText(p: Path)
    requires PlainSegments(p)
    ensures Split(UnquotedUnits(PathText(p)), "", false) == p
  {
    if |p| == 1 {
      SplitPlainText(p[0], [], "", false);
      assert UnquotedUnits(p[0]) + [] == UnquotedUnits(p[0]);
      assert "" + p[0] == p[0];
    } else if |p| > 1 {
      assert PlainSegments(p[1..]) by {
        forall i | 0 <= i < |p[1..]| ensures |p[1..][i]| > 0 && '.' !in p[1..][i] && '"' !in p[1..][i] {
          assert p[1..][i] == p[i + 1];
        }
      }
      SplitSegmentThenDot(p[0], PathText(p[1..]));
      PlainPathText(p[1..]);
      assert p == [p[0]] + p[1..];
    }
  }
}
