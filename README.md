# A verified model of the HOCON parser

This project models the parser of a HOCON configuration library in Dafny, and the
resolution pass that follows parsing. HOCON is the JSON superset used by Akka. The parser
is `HoconParser` and the lookup object is `HoconRoot`.

The parser walks a token stream with a cursor. It builds objects, fields, values,
arrays and substitutions (`${path}` and `${?path}`). It expands `include` directives
through a callback. Once parsing is done it resolves every substitution, trying these
sources in order:

- the document, by the resolver's rules;
- the process environment;
- the empty value, when the substitution is optional.

`HoconRoot` looks values up by key path.

The document is an arena, a `Doc` value holding three tables:

- objects, whose members are in order;
- fields, each with its path and the history of values assigned to it;
- substitutions, each with its path, its owner field and its resolved value.

Values are sequences of operands: literals, object and substitution references, and arrays
of values. Fields that the C# object graph shares by reference are shared here by index.

The parser is a class, `Parser.HoconParser`. Its fields are the cursor, the arena, the
substitution list, the current key path and the root value. Each `Parse*Async` routine
becomes a method that changes that state. In the long loops (objects, arrays, values,
includes) each loop pass is a `*Step` method.

Some methods are proved equal to a function over the token stream (`Tokens`, `Grammar`,
`IncludeClause`). These are ParseKey, ReadLiteralRun, ReadDirective, DirectiveStep,
ConsumeWhitespace, ConsumeWhitelines, GetNextSignificant and TrimmedLength. LiteralRun and
AppendLiterals are proved to add exactly the literals of the token run. The resolution
methods (ResolveSubstitution, ResolveStep, ResolveSubstitutions) and GetNode are proved
equal to functions over the arena (`Resolution`, `Root`). The properties the source
promises are proved about those functions.

The other parsing methods (ParseValue, ParseObject, ParseArray, ParseField, FieldValue,
ParseTokens) are not given as functions of the tokens. Their contracts state the rules of
each loop pass, through the `*Step` methods. For a value, each pass also states what it
builds: the value only grows at its end, an object, an array or a literal run fixes its
type, and it stays homogeneous. Homogeneous means all its operands share one type. While
parsing, no substitution has a resolved value yet (`Unresolved`), and every value built
under that condition is homogeneous.

Modules:

| module | contents |
|---|---|
| `Wrappers` | `Option`, error kinds, `Result` |
| `Strings` | `IsNullOrWhiteSpace`, HOCON's "needs quotes" rule |
| `Tokens` | the token stream and the skipping functions |
| `Cursor` | the `TokenCursor` class |
| `Grammar` | keys, and what may follow a root array |
| `Paths` | key paths, `HoconPath.Parse`, `FromTokens`, `Value` |
| `Document` | the arena, concatenation, lookup and building |
| `Cycles` | the cyclic-substitution check, as written and corrected |
| `Resolution` | the resolver's rules and the resolution pass |
| `IncludeClause` | the include directive automaton |
| `Parser` | the parser class and `ParseText` |
| `Root` | `HoconRoot` and `GetNode` |

## Model

| member | source | states |
|---|---|---|
| Tokens.Advance | src/HOCON/HoconParser.cs:902 | `Next()` moves one token forward and never moves past the end-of-file token |
| Tokens.SkipFrom | src/HOCON/HoconParser.cs:902-915 | the first position from q whose token is not skipped; every token in between is skipped |
| Tokens.Consume | src/HOCON/HoconParser.cs:900-936 | ConsumeWhitespace/ConsumeWhitelines always step past the current token unless it is end of file, then stop on the first token the mode does not skip |
| Tokens.NextSignificant | src/HOCON/HoconParser.cs:344-345 | GetNextSignificant moves forward at least one token (unless at end of file) and stops on a token that is not a white-space literal |
| Tokens.SkipFromStops | src/HOCON/HoconParser.cs:900-936 | skipping is idempotent: a second skip from where the first stopped does not move |
| Tokens.SkipFromEndsAtEof | src/HOCON/HoconParser.cs:900-936 | when every remaining token is skippable, the skip ends on the end-of-file token, never past it |
| Cursor.TokenCursor.Next | src/HOCON/HoconParser.cs:444 | the cursor moves exactly as `Advance` says |
| Cursor.TokenCursor.GetNextSignificant | src/HOCON/HoconParser.cs:344-347 | the loop leaves the cursor at `NextSignificant` and reports true exactly when that token's type is expected |
| Grammar.LiteralRunEnd | src/HOCON/HoconParser.cs:608-612 | the end of the literal run: every token before it is a literal, the token at it is not |
| Grammar.KeyEnd | src/HOCON/HoconParser.cs:592-612 | ParseKey never moves the cursor backwards |
| Grammar.KeyEndsAtNonLiteral | src/HOCON/HoconParser.cs:592-612 | a key that was read consumed at least one token, all literals, and stopped on the first non-literal |
| Grammar.QuotedKeyIgnoresTrailingSpace | src/HOCON/HoconParser.cs:614-623 | a quoted key followed only by white space is one segment holding the quoted text, dots included |
| Grammar.RootArrayTailExact | src/HOCON/HoconParser.cs:265-271 | the corrected tail check accepts exactly the tails made only of white space, comments and line ends |
| Grammar.RootArrayTailAsWritten | src/HOCON/HoconParser.cs:268-270 | the check as written is the corrected check started one token later, at the token after the one that follows `]` |
| Grammar.RootArrayTailSwallowsToken | src/HOCON/HoconParser.cs:268-270 | `[1]x`: the check as written accepts it and the corrected one rejects it |
| Paths.SubPath | src/HOCON/HoconParser.cs:175 | the sub-path has the requested length and the requested segments |
| Paths.DeltaCompletesPath | src/HOCON/HoconParser.cs:169-176 | the delta the child case takes extends the field's path to exactly the substitution's path, and is never empty |
| Paths.ChildPathIsStrict | src/HOCON/HoconParser.cs:169-187 | "is a child path of" is irreflexive and asymmetric, so the child case and the parent case never overlap |
| Paths.TrimTrailingWhitespace | src/HOCON/HoconParser.cs:614-619 | the trimmed key is a prefix of the key, does not end in white space, and only white space was removed |
| Paths.QuotedKeyIsOneSegment | src/HOCON/HoconParser.cs:623 | one quoted key token is one segment, whatever it contains (an empty string too) |
| Paths.ParsePathText | src/HOCON/HoconParser.cs:121 | for paths of non-empty, dot-free segments, parsing a path's text gives back the path: the environment variable name and `${...}` agree |
| Paths.QuotedPathIsOneSegment | src/HOCON/HoconParser.cs:711 | a substitution path in double quotes is one segment, dots included |
| Document.LiteralOf | src/HOCON/HoconParser.cs:696 | each literal token becomes the literal of its kind with the token's text |
| Document.TypeOf | src/HOCON/HoconParser.cs:750 | `HoconValue.Type`: a value without operands is Empty, and a type other than Empty is the type of one of its operands, substitutions followed |
| Document.TypeOfAppend | src/HOCON/HoconParser.cs:684-716 | the type of a concatenation is the type of its first part, unless that part is Empty |
| Document.Add | src/HOCON/HoconParser.cs:684-716 | `HoconValue.Add` appends the operand exactly when the types are compatible (equal, or one is Empty); otherwise it fails with a type mismatch |
| Document.AddAll | src/HOCON/HoconParser.cs:255-261 | adding several operands in turn appends all of them, or fails with a type mismatch |
| Document.AddKeepsHomogeneous | src/HOCON/HoconParser.cs:684-716 | a successful Add keeps a homogeneous value homogeneous; its type is the first non-Empty type |
| Document.AddLiteral | src/HOCON/HoconParser.cs:696 | a literal concatenates exactly onto an empty or literal value, and the result is a literal value |
| Document.LiteralsAddAll | src/HOCON/HoconParser.cs:694-698 | a run of literals concatenates onto a value exactly when the run is empty, or the value is empty or a literal |
| Document.LiteralsNext | src/HOCON/HoconParser.cs:694-698 | one more literal of a run can fail only as the run's first, on an object or array value; otherwise the value holds the literals of the run so far plus this one |
| Document.LiteralsTyped | src/HOCON/HoconParser.cs:694-698 | a non-empty run of literals after an empty or literal value gives a literal value |
| Document.LiteralsHomogeneous | src/HOCON/HoconParser.cs:694-698 | a literal run that concatenates keeps a homogeneous value homogeneous while no substitution is resolved |
| Document.ObjectAdded | src/HOCON/HoconParser.cs:701-702 | a new object added after the objects an include contributed: the value before was empty or an object, the result is an object value, and it stays homogeneous |
| Document.HomogeneousPrefix | src/HOCON/HoconParser.cs:750-753 | dropping operands from the end keeps a value homogeneous, so the trim after a literal value does |
| Document.MixedConcatenationFails | src/HOCON.Tests/ArrayAndObjectConcatenation.cs:77-88 | written out directly, concatenating two different non-empty types (array and object, string and object, array and string) fails in either order, and same types succeed |
| Document.GetObject | src/HOCON/HoconParser.cs:177 | GetObject succeeds exactly on object-typed or empty values, and yields object references only, exactly the objects among the value's operands |
| Document.AddAllObjects | src/HOCON/HoconParser.cs:258-261 | adding object references to an object-typed value always succeeds |
| Document.GetChild | src/HOCON/HoconParser.cs:178 | a child exists exactly when some object of the value has a field of that name |
| Document.LookupValueCompose | src/HOCON/HoconParser.cs:194 | looking up `p + q` is looking up `p`, then looking up `q` from what was found |
| Document.LookupValueStep | src/HOCON/HoconRoot.cs:60-63 | one more key of a path is the child of what the shorter prefix found |
| Document.FindOrAddField | src/HOCON/HoconParser.cs:649 | a key object o already has gives back its last field of that name and changes nothing; a missing key appends one member to object o and one new field with the key's full path and no value; other fields, other objects and the substitutions stay |
| Document.SetValue | src/HOCON/HoconParser.cs:660 | the value becomes the newest entry of that field's history; every other field and all objects and substitutions stay as they were |
| Document.TraversePath | src/HOCON/HoconParser.cs:649 | one field per key of the path, the first a member of object o; fields that existed keep their paths, objects only gain members, and the substitutions are untouched |
| Document.TraversePathCreates | src/HOCON/HoconParser.cs:649 | every field the walk creates has a path that extends the base path by a non-empty prefix of the keys |
| Document.RemoveFirst | src/HOCON/HoconParser.cs:662 | `List.Remove` removes one occurrence of a present element and leaves the list unchanged otherwise |
| Document.RemoveAll | src/HOCON/HoconParser.cs:660-663 | removing the retired substitutions only ever removes entries from the list |
| Document.PrefixSubs | src/HOCON/HoconParser.cs:463-466 | the included substitutions get the include's path in front of their own; every other substitution is unchanged |
| Document.PrefixFields | src/HOCON/HoconParser.cs:469-470 | the fields the included document added get the include's path in front of their own; older fields are unchanged |
| Parser.PrefixedUnderPath | src/HOCON/HoconParser.cs:462-470 | after the include fix-up the substitution list is the old list followed by the included substitutions, and every included substitution and every included field has the include's path in front, followed by exactly its path in the included document |
| Cycles.GraphOf | src/HOCON/HoconParser.cs:198-242 | the reference graph holds each field's current value, each object's fields, and the field each substitution's path names from the root |
| Cycles.Succs | src/HOCON/HoconParser.cs:200-227 | the successors of a field are exactly the fields its value refers to |
| Cycles.ClosedSetHoldsAllReach | src/HOCON/HoconParser.cs:229-240 | a set closed under references that holds a field's successors holds everything the field reaches |
| Cycles.IsValueCyclic | src/HOCON/HoconParser.cs:198-242 | corrected check: terminates, and reports a cycle exactly when the field reaches itself through references |
| Cycles.CycElems | src/HOCON/HoconParser.cs:200-241 | the loop over the operands, then the stack loop: a run that finds no cycle has emptied the stack, and the visited list only grows at its end |
| Cycles.CycMembers | src/HOCON/HoconParser.cs:207-214 | the loop over an object's fields: the visited list only grows at its end |
| Cycles.CycItems | src/HOCON/HoconParser.cs:217-221 | the loop over an array's items: the visited list only grows at its end |
| Cycles.CycPending | src/HOCON/HoconParser.cs:229-241 | the stack loop: a run that finds no cycle has emptied the stack, and the visited list only grows at its end |
| Cycles.IsValueCyclicAsWritten | src/HOCON/HoconParser.cs:190 | the check as written starts with the resolved field visited and an empty stack; a field whose value has no operands is not reported |
| Cycles.ElemsEnd | src/HOCON/HoconParser.cs:227-229 | after the last operand, the stack loop runs |
| Cycles.ElemsPush | src/HOCON/HoconParser.cs:223-225 | a substitution operand is pushed onto the stack and the loop goes on |
| Cycles.ElemsSkip | src/HOCON/HoconParser.cs:204-205 | a literal operand is skipped |
| Cycles.ElemsObjectFound | src/HOCON/HoconParser.cs:206-215 | a cycle found among an object's fields ends the operand loop with a cycle |
| Cycles.MembersSeen | src/HOCON/HoconParser.cs:209-210 | a field already in the visited list is reported as a cycle |
| Cycles.MembersVisitFound | src/HOCON/HoconParser.cs:211-213 | a field not visited yet joins the visited list, and a cycle found in its value is reported |
| Cycles.PendingPop | src/HOCON/HoconParser.cs:231-239 | popping a substitution whose field was not visited walks that field's value, one recursion level down |
| Cycles.PendingPopSeen | src/HOCON/HoconParser.cs:234-237 | popping a substitution whose field was visited reports a cycle |
| Cycles.LoopDiverges | src/HOCON/HoconParser.cs:229-240 | for `a=${b}, b=${c}, c=${b}` the check as written does not finish within any fuel; the corrected one finds that a does not reach itself and b does |
| Cycles.ShareAsWritten | src/HOCON/HoconParser.cs:206-214 | for `b={x=1}, a=${b} ${b}` the check as written reports a cycle when resolving a |
| Cycles.SharedNotCyclic | src/HOCON/HoconParser.cs:198-242 | in the same document, field a does not reach itself, so the report as written is a false cycle |
| Resolution.OlderValue | src/HOCON/HoconParser.cs:165 | the value assigned to the field just before the entry holding the substitution, when there is one |
| Resolution.Resolve | src/HOCON/HoconParser.cs:149-196 | a substitution with no owner field faults; the other cases, in the source's order, are the lemmas SelfReference, ChildCase, AncestorReferenceFails, CycleReported and UnrelatedPathsLookUpRoot |
| Resolution.ChildCase | src/HOCON/HoconParser.cs:169-183 | the child case decides only substitutions below their own field, and it faults only when the field has no older value |
| Resolution.SelfReference | src/HOCON/HoconParser.cs:154-166 | a self-reference fails inside an array and otherwise resolves to the field's older value |
| Resolution.ChildCaseYieldsObjects | src/HOCON/HoconParser.cs:169-183 | a substitution below its own field yields, from the older value, only objects; with no older value it faults |
| Resolution.AncestorReferenceFails | src/HOCON/HoconParser.cs:186-187 | a substitution that names an ancestor of its own field always fails |
| Resolution.CycleReported | src/HOCON/HoconParser.cs:189-191 | a cycle error is raised only for an unrelated path whose field reaches itself |
| Resolution.UnrelatedPathsLookUpRoot | src/HOCON/HoconParser.cs:189-195 | an unrelated path resolves exactly when its field does not reach itself and the root is an object, and then to the value at its path |
| Resolution.EnvValue | src/HOCON/HoconParser.cs:128-136 | an environment value becomes one string literal with that text, quoted exactly when the text needs quotes |
| Resolution.Settle | src/HOCON/HoconParser.cs:111-145 | the value found, else the environment variable named by the path, else empty for an optional substitution; an unresolved required one fails |
| Resolution.Record | src/HOCON/HoconParser.cs:111-145 | settling records a value for that substitution and changes nothing else |
| Resolution.Substitute | src/HOCON/HoconParser.cs:111-145 | a recorded substitution is kept only if no value of the document then mixes types; otherwise the concatenation fails with a type mismatch |
| Resolution.ResolveOne | src/HOCON/HoconParser.cs:100-145 | one substitution resolved: only its own resolved value changes, it holds a value, and every value of the document is still of one type |
| Resolution.ResolveAllExtend | src/HOCON/HoconParser.cs:98 | the pass goes in list order: one more substitution is resolved on the document the earlier ones left |
| Resolution.ResolveAll | src/HOCON/HoconParser.cs:96-147 | a successful pass only records resolved values: objects, fields and substitution paths stay |
| Resolution.ResolveAllFails | src/HOCON/HoconParser.cs:104-109 | the first failing substitution ends the pass with its error |
| Resolution.ResolveAllResolves | src/HOCON/HoconParser.cs:96-147 | a successful pass records a value for every listed substitution, changes no object, field or path, and leaves unlisted substitutions alone |
| Resolution.ResolveAllFirstFailure | src/HOCON/HoconParser.cs:96-147 | a failing pass fails with the error of the first substitution whose resolution fails, after all earlier ones succeeded |
| Resolution.ResolveAllFailureStays | src/HOCON/HoconParser.cs:96-147 | a failure is not undone by the substitutions after it |
| Resolution.ResolveAllConsistent | src/HOCON/HoconParser.cs:96-147 | after a successful pass over at least one substitution, no value of the document mixes types |
| Resolution.PassSettles | src/HOCON/HoconParser.cs:96-147 | a successful pass leaves every listed substitution with a value, and the document homogeneous |
| Resolution.ConcatClash | src/HOCON.Tests/ArrayAndObjectConcatenation.cs:91-97 | in `a : { c : 2 }, b : [1,2] ${a}`, once `${a}` holds a's object, b's value mixes an array and an object |
| Resolution.ArraySubstitutedObjectFails | src/HOCON.Tests/ArrayAndObjectConcatenation.cs:91-97 | resolving `${a}` in that document, alone or as the whole pass, fails with a type mismatch |
| IncludeClause.IncludeStep | src/HOCON/HoconParser.cs:344-432 | a pass that does not fail moves forward; the last pass stops with no open parenthesis, on `)` or on the file name |
| IncludeClause.StepOnClose | src/HOCON/HoconParser.cs:351-358 | `)` with no open parenthesis fails; otherwise it closes one, and the loop stops when none remains open |
| IncludeClause.StepOnKeyword | src/HOCON/HoconParser.cs:360-408 | `required`, `url`, `file` and `classpath` must be followed by `(`, which opens a parenthesis and narrows the expected tokens |
| IncludeClause.StepOnLiteral | src/HOCON/HoconParser.cs:410-426 | the file name must be a quoted literal; it is recorded, no further keyword or name is expected, and the loop stops unless a parenthesis is open |
| IncludeClause.IncludeLoop | src/HOCON/HoconParser.cs:342-433 | an accepted loop consumed at least one token, ends with no open parenthesis, and ends on `)` or the file name |
| IncludeClause.IncludeLoopBalanced | src/HOCON/HoconParser.cs:342-437 | every `(` the directive consumed is matched by a `)` |
| IncludeClause.IncludeLoopEffects | src/HOCON/HoconParser.cs:342-433 | the file name is a quoted literal that was consumed, `required` is set exactly when a `required` token was consumed, and the kind changes only on a url, file or classpath token |
| IncludeClause.DirectiveProperties | src/HOCON/HoconParser.cs:318-444 | an accepted directive names a quoted file it consumed, is required exactly when it says so, is a file include unless it names another kind, and has balanced parentheses |
| IncludeClause.DirectiveRejects | src/HOCON/HoconParser.cs:344-432 | a `)` first, an unquoted file name, a line end, or an unexpected token is rejected, each with its own error |
| IncludeClause.ParseDirective | src/HOCON/HoconParser.cs:318-444 | a token that is not `include` is rejected; an accepted directive consumed at least one token after `include` and ends just after its `)` or its file name |
| IncludeClause.RequiredAfterKindRejected | src/HOCON/HoconParser.cs:368-408 | once a kind has opened its parenthesis, neither `required` nor another kind is accepted |
| IncludeClause.IncludeText | src/HOCON/HoconParser.cs:446-454 | a blank callback text fails a required include and empties an optional one; any other text is parsed |
| IncludeClause.OwnerCheck | src/HOCON/HoconParser.cs:457-460 | corrected: an included root must have the including element's type, unless that element is empty or absent (a root include) |
| IncludeClause.OwnerCheckAsWritten | src/HOCON/HoconParser.cs:457-460 | as written: passes exactly when the owner is present and empty or of the included type; a missing owner faults, a present one of another type is a type mismatch |
| IncludeClause.RootIncludeFaults | src/HOCON/HoconParser.cs:254-262 | as written, every root-level include with non-blank text dereferences a null owner; for every other owner the two checks agree |
| Parser.Flush | src/HOCON/HoconParser.cs:528-577 | an include's objects inside an object join the parent value; an array parent fails the cast and a missing parent faults |
| Parser.TrimLiteral | src/HOCON/HoconParser.cs:750-754 | a literal value loses its last operand exactly when that operand is white space; any other value is unchanged |
| Parser.HoconParser.constructor | src/HOCON/HoconParser.cs:456 | a fresh parser over the token stream with an empty path and substitution list, building into the given arena |
| Parser.HoconParser.ConsumeWhitespace | src/HOCON/HoconParser.cs:900-916 | the loop leaves the cursor where `Consume` says for white space and comments |
| Parser.HoconParser.ConsumeWhitelines | src/HOCON/HoconParser.cs:919-936 | the loop leaves the cursor where `Consume` says for white space, comments and line ends |
| Parser.HoconParser.ParseKey | src/HOCON/HoconParser.cs:592-624 | the key read is `KeyOf` and the cursor stops at `KeyEnd` |
| Parser.HoconParser.SkipKeyWhitespace | src/HOCON/HoconParser.cs:594-595 | the cursor skips white-space literals without consuming the current token |
| Parser.HoconParser.ReadLiteralRun | src/HOCON/HoconParser.cs:607-612 | the tokens collected are exactly the literal run, and the cursor stops at its end |
| Parser.HoconParser.TrimmedLength | src/HOCON/HoconParser.cs:614-619 | the reverse, trim and reverse-back loop keeps exactly the prefix `TrimTrailingWhitespace` keeps |
| Parser.HoconParser.AddSubstitution | src/HOCON/HoconParser.cs:709-716 | a substitution token adds one substitution record at the end of the arena and of the list, with the parsed path, the required flag and its owner |
| Parser.HoconParser.ParseField | src/HOCON/HoconParser.cs:626-667 | a field must start with a key, the key must be followed by `=`, `:` or `{`, and an empty key is rejected; a parsed field restores the path |
| Parser.HoconParser.FieldValue | src/HOCON/HoconParser.cs:649-666 | the key is pushed onto the path for the value and popped afterwards |
| Parser.HoconParser.ParseValue | src/HOCON/HoconParser.cs:675-756 | a value stops on a token that ends values or after a comment; an ending token yields the empty value; an unknown token is an error; a value parsed while no substitution is resolved is homogeneous, the trailing white-space trim included |
| Parser.HoconParser.ValueStep | src/HOCON/HoconParser.cs:681-746 | each case of the loop: ending tokens stop without moving and leave the value as it was; an include, a literal, an object, an array or a substitution goes on; every continuing case moves forward; a comment stops after its blank lines; `=` goes on; any other token is an error; the value only grows at its end and stays homogeneous |
| Parser.HoconParser.ValueOperand | src/HOCON/HoconParser.cs:683-717 | the operand cases: the value so far is kept as a prefix and stays homogeneous; a literal run adds exactly its literals; an object makes an object value, an array an array value, an include keeps a typed value's type; a substitution appends a reference to the new record |
| Parser.HoconParser.ValueSubstitution | src/HOCON/HoconParser.cs:709-717 | a substitution appends a reference to the new substitution record, and the value stays homogeneous |
| Parser.HoconParser.ValueInclude | src/HOCON/HoconParser.cs:683-685 | the included operands follow the value so far; a typed value keeps its type; the value stays homogeneous |
| Parser.HoconParser.ValueObject | src/HOCON/HoconParser.cs:701-703 | one new object is added last, after the objects its includes contributed; only an empty or object value accepts it, and the result is an object value |
| Parser.HoconParser.ValueArray | src/HOCON/HoconParser.cs:705-707 | one array operand is appended; only an empty or array value accepts it, and the result is an array value |
| Parser.HoconParser.LiteralRun | src/HOCON/HoconParser.cs:687-699 | after the leading white space is skipped, the value gains exactly the literals of the run and the cursor stops on the first non-literal; it succeeds exactly when the run is empty or the value is empty or a literal, and otherwise fails with a type mismatch; a non-empty run gives a literal value; the value stays homogeneous |
| Parser.HoconParser.AppendLiterals | src/HOCON/HoconParser.cs:694-698 | the loop adds the literal of each token up to the end of the run, or fails with a type mismatch exactly when the value is an object or an array and the run is not empty |
| Parser.HoconParser.ParseObject | src/HOCON/HoconParser.cs:474-589 | only `{`, a literal or an include starts an object; a braced object ends after its `}` and a headless one at end of file; a leading comma is rejected; only a value parent receives include objects, and it gains nothing but objects after its own operands |
| Parser.HoconParser.ObjectMembers | src/HOCON/HoconParser.cs:494-584 | the member loop ends on `}` (braced) or end of file (headless), and rejects a leading comma; the parent value gains nothing but objects after its own operands |
| Parser.HoconParser.ObjectStep | src/HOCON/HoconParser.cs:496-583 | each case of the loop: a comma with nothing before it is rejected; an include, or a field after white space, while a member waits for its separator is rejected; a continuing case moves forward; the end token must match the object's kind; the parent value gains nothing but objects |
| Parser.HoconParser.ObjectLiteral | src/HOCON/HoconParser.cs:507-519 | white space before something that is not a literal only moves on; a literal while a member waits is a missing separator; a field is read only when none waits |
| Parser.HoconParser.ParseArray | src/HOCON/HoconParser.cs:762-897 | an array ends after its `]`; a leading comma, and two elements without a separator, are rejected |
| Parser.HoconParser.ArrayStep | src/HOCON/HoconParser.cs:773-893 | each case of the loop: an element while one waits for its separator is rejected, as is a comma with nothing before it; `]` ends the array; a comment, line end, comma or `]` adds the waiting element to the items; the items change only by that |
| Parser.HoconParser.ArrayLiteral | src/HOCON/HoconParser.cs:803-815 | a literal element needs a separator before it, and white space only moves on |
| Parser.HoconParser.ArrayElement | src/HOCON/HoconParser.cs:775-801 | an include, a value or an object element moves the cursor forward |
| Parser.HoconParser.ReadDirective | src/HOCON/HoconParser.cs:318-444 | the directive loop computes exactly `ParseDirective`: the same directive and end position, or the same error |
| Parser.HoconParser.DirectiveStep | src/HOCON/HoconParser.cs:344-432 | one pass computes exactly `IncludeStep` and leaves the cursor where it says |
| Parser.HoconParser.Included | src/HOCON/HoconParser.cs:498-505 | a successful include moves the cursor forward |
| Parser.HoconParser.ParseInclude | src/HOCON/HoconParser.cs:318-471 | the directive is `ParseDirective`'s and the cursor ends after it; a blank callback text fails a required include and empties an optional one; a parsed text succeeds exactly when its root passes the owner type check, else a type mismatch; the included value, its substitutions and fields join under the include's path; a failure leaves the arena and the list alone |
| Parser.HoconParser.IncludedDocument | src/HOCON/HoconParser.cs:456-470 | fails when include nesting is exhausted or the text does not tokenize; succeeds exactly when the nested root passes the owner type check, and returns a value of that root's type; the included substitutions follow the old list, each under the include's path |
| Parser.HoconParser.ParseTokens | src/HOCON/HoconParser.cs:244-316 | a successful parse stops at end of file with the path restored; the cursor only moves forward and the arena only grows |
| Parser.HoconParser.RootInclude | src/HOCON/HoconParser.cs:253-262 | a root include moves the cursor forward and the root becomes `MergeInclude` of the old root and the included value |
| Parser.HoconParser.RootObject | src/HOCON/HoconParser.cs:273-302 | a root object moves the cursor forward and the root becomes `MergeObject` of the old root and the new object |
| Parser.HoconParser.RootArray | src/HOCON/HoconParser.cs:265-271 | a root array becomes the whole root, and an accepted one ends on `]` followed by a tail `RootArrayTail` accepts (only white space, comments and line ends up to end of file) |
| Parser.HoconParser.ArrayTail | src/HOCON/HoconParser.cs:268-270 | the tail after a root array is accepted exactly when `RootArrayTail` (the corrected check) accepts it; otherwise one array or object only |
| Parser.MergeInclude | src/HOCON/HoconParser.cs:253-262 | fails unless the included value is an object or empty; the result holds exactly the included objects and, when the root is an object, the root's own, which it extends |
| Parser.MergeObject | src/HOCON/HoconParser.cs:273-300 | the result is object-typed and ends with the new object; an object root is extended by Add, any other root is replaced |
| Parser.HoconParser.ResolveSubstitution | src/HOCON/HoconParser.cs:149-196 | computes exactly `Resolve` for the substitution, the corrected cycle check included |
| Parser.HoconParser.ResolveStep | src/HOCON/HoconParser.cs:100-145 | one turn computes exactly `ResolveOne`, the type check after recording included |
| Parser.HoconParser.ResolveSubstitutions | src/HOCON/HoconParser.cs:96-147 | the loop computes exactly `ResolveAll` over the substitution list, in list order, and a success leaves every listed substitution with a value and no value mixing types |
| Parser.ParseText | src/HOCON/HoconParser.cs:62-94 | blank text is rejected and a tokenizer failure is reported; after a resolving parse every listed substitution has a value, and when there were substitutions no value mixes types |
| Root.NodeOf | src/HOCON/HoconRoot.cs:65-68 | a missing node, or one of type Empty, is Undefined |
| Root.NodeAt | src/HOCON/HoconRoot.cs:53-69 | a null root is an error; otherwise the path is looked up key by key |
| Root.NodeAtEmptyPath | src/HOCON/HoconRoot.cs:53-69 | the empty path names the root value, unless it is empty |
| Root.NodeAtDescends | src/HOCON/HoconRoot.cs:60-63 | a path is followed one key at a time through GetChildObject |
| Root.UndefinedMeansMissingOrEmpty | src/HOCON/HoconRoot.cs:65-68 | a path is undefined exactly when nothing is found or what is found has type Empty |
| Root.WalkFaultsOnMissingParent | src/HOCON/HoconRoot.cs:60-63 | the walk as written faults exactly when a proper prefix of the path is missing, and otherwise finds what the lookup finds |
| Root.WalkAsWritten | src/HOCON/HoconRoot.cs:60-63 | with no node and a key left the walk faults, and a null dereference is the only error it raises; a node found means a node was there to start from |
| Root.NodeAtAsWritten | src/HOCON/HoconRoot.cs:53-69 | a null root is an error; the empty path gives the root's node; any other error is the null dereference |
| Root.MissingParentFaults | src/HOCON/HoconRoot.cs:60-63 | `a.b` with `a` missing faults as written and is Undefined as intended |
| Root.AsWrittenAgrees | src/HOCON/HoconRoot.cs:53-69 | when no proper prefix is missing, the walk as written and the corrected lookup agree |
| Root.HoconRoot.WithSubstitutions | src/HOCON/HoconRoot.cs:37-41 | a root holds the value and the substitutions it is given |
| Root.HoconRoot.constructor | src/HOCON/HoconRoot.cs:47-51 | a root built from a value alone has no substitutions |
| Root.HoconRoot.GetNode | src/HOCON/HoconRoot.cs:53-69 | the loop computes exactly the corrected `NodeAt` |
| Root.HoconRoot.HasPath | src/HOCON/HoconRoot.cs:84-85 | true exactly when GetNode finds a defined node |
| Root.HoconRoot.GetValue | src/HOCON/HoconRoot.cs:392-396 | GetValue returns GetNode's node |
| Root.HoconRoot.GetScalar | src/HOCON/HoconRoot.cs:99-180 | an undefined path gives the caller's default; a defined one gives the node's conversion |
| Root.HoconRoot.GetList | src/HOCON/HoconRoot.cs:248-381 | an undefined path is an error, never a default; a defined one gives the node's conversion |
| Root.HoconRoot.HasPathIffFound | src/HOCON/HoconRoot.cs:84-85 | HasPath holds exactly when the lookup finds a value whose type is not Empty |
| Root.HoconRoot.DefaultExactlyWhenUndefined | src/HOCON/HoconRoot.cs:99-106 | a scalar getter returns its default for every conversion exactly when HasPath is false |

## Left out

- The tokenizer is not part of this model. It is a parameter (`tokenize`) whose output satisfies `TokenStream`: one end-of-file token, at the end.
- The include callback is a parameter that returns a text, or None for null. Its asynchrony is not modelled.
- The process environment is a `map<string, string>` parameter. Exceptions thrown while reading it cannot occur in the model.
- CRLF normalisation in ParseTextAsync is not modelled. It happens before tokenizing, which is a parameter anyway.
- Exception messages and positions are not modelled. Each exception is an `ErrorKind`, and the parser's wrapping of a resolver exception keeps the inner kind.
- HoconValue, HoconObject, HoconField, HoconPath and HoconSubstitution are not part of this model. The operations the parser uses on them are small functions in `Document` and `Paths`, written from their use in the parser:
  - `Type` is the first typed operand, and substitutions are followed through their resolved values;
  - `Add` checks type compatibility;
  - `GetChildObject` and lookup merge the objects assigned in turn;
  - `TraversePath` and `SetValue` build fields and their histories;
  - `OlderValueThan` takes the history entry just before the substitution's own.
- Paths.ParsePath: the substitution token's text is taken to keep its double quotes, so that a quoted part is one segment. Escape sequences inside quotes are not modelled.
- Resolution.Consistent: HoconValue's check on a resolved substitution lives in HoconValue, which is not part of this model. The model checks every value of the document after each substitution is recorded, not only the value that holds the substitution. A clash in any value therefore fails at the first substitution recorded after the clash appears.
- Parser.ParseText: "no value mixes types" is stated only when there are substitutions. Without substitutions the pass records nothing, and the parse-time check in `Add` is all there is.
- Document.TraversePath: a field that already existed on the path is not claimed to have the walked path. Only the fields the walk creates are (TraversePathCreates).
- HoconPath equality (`sub.Path == subField.Path`) is taken to be equality of the segment sequences.
- The substitutions a field's SetValue retires are chosen by an injected function (`retired`), because that decision lives in HoconField.
- Parent links are not modelled. Whether a substitution sits in an array is recorded when it is parsed (`inArray`), in place of the resolver's walk up the parent chain.
- Clone of an included root is not modelled as a copy. The included document is built into the same arena and shared by index. The re-parenting that Clone(owner) does is stood in for by `PrefixFields`, which puts the include's path in front of the path of every field the included document added.
- `(HoconValue)` casts of a parent element are modelled as errors: `InvalidCast` for an array parent, `NullDereference` for a missing one.
- Include nesting is bounded by a `depth` parameter; the source recurses without bound. A parse that runs out of depth fails with `IncludeDepthExhausted`.
- Parser.HoconParser.ParseTokens: its contract only states where a successful parse stops. The root's contents are stated by RootInclude, RootObject and RootArray, not by a function over the whole token stream.
- Parser.HoconParser.ParseObject: the fields it adds are not stated as a function of the tokens. The contract states the start and end rules and what the parent value receives. The missing-separator rule is stated per loop pass, by ObjectStep and ObjectLiteral, not over the whole object.
- Parser.HoconParser.ObjectMembers: the missing-separator rule is stated per loop pass, by ObjectStep and ObjectLiteral, not for the whole member loop.
- Parser.HoconParser.ParseArray: the items are not stated as a function of the tokens. The contract states the bracket and separator rules. How each pass adds the waiting element to the items is stated by ArrayStep.
- Parser.HoconParser.ArrayStep: the casts `(HoconValue) lastValue` at HoconParser.cs:846 and 880 are taken to succeed. They apply when a comment, a line end or `]` closes a waiting element that is not an array. That element may be an object (line 800) or a substitution (line 828). Whether the cast then succeeds is decided by the HoconObject and HoconSubstitution classes, which are not part of this model. The comma case (line 864) has no cast.
- Parser.HoconParser.ParseValue: the operands of the value are not stated as a function of the whole token run. Each pass is stated by ValueStep and ValueOperand: the value only grows at its end, and each kind of operand fixes the value's type. Homogeneity is stated for an arena with no resolved substitution (`Unresolved`), which is the case throughout parsing.
- Parser.HoconParser.ValueStep: what a continuing case adds is stated by ValueOperand. ValueStep itself states only that the value grows at its end and stays homogeneous.
- Parser.HoconParser.ValueOperand: an included value, an object or an array is stated by its type (and an object by being the new object, added last), not by its contents. The literal and substitution cases are exact.
- Parser.HoconParser.ValueInclude: the included value's operands are added one by one (`AddAll`), standing for `HoconValue.Add` of a whole value.
- Parser.HoconParser.FieldValue: the value assigned is not stated as a function of the tokens, only that the path is restored.
- `GetNextSignificant` lives in the token list class, which is not part of this model. It is taken to step one token forward and then past white-space literals. This is an assumption.
- Some code can never run once that assumption and ParseKey's stop on a non-literal token hold, and it is not modelled:
  - in ParseIncludeAsync, the skip of a white-space literal in the literal case (lines 410-413), and the open-parenthesis check after the loop (lines 435-437), since the loop only stops with no parenthesis open;
  - in ParseKeyAsync, the second skip of a leading white-space literal and its early return (lines 602-605);
  - in ParseFieldAsync, `ConsumeWhitelines` after the key (lines 635-636) and the second token check (lines 654-656).
- The expected-token list of ParseIncludeAsync is three flags (required, kinds, literal). The loop only ever removes those groups, and `)` and end-of-line always stay.
- Strings.NeedQuotes is taken to be HOCON's rule for unquoted strings: empty text, white space, or a forbidden character needs quotes. The library's own extension method is not part of this model.
- Cycles.IsValueCyclic: the corrected check means "the field being resolved reaches itself through references". The traversal as written reports a cycle whenever it meets any field it visited before, so it also reports loops reachable from the field that do not pass through it.
- Cycles.IsValueCyclicAsWritten is a fuel-bounded function; None means the fuel ran out.
- `Expand` follows resolved substitutions with fuel equal to the number of substitutions. Chains longer than that count as Empty; such a chain must loop.
- The HoconPath string overloads (`GetString(string)` and so on) are not modelled. They parse the path with HoconPath.Parse, which `Paths.ParsePath` models.
- GetFloat, GetDouble, GetDecimal, GetTimeSpan and GetByteSize are not modelled, nor are the value conversions themselves. The conversion is a parameter of `GetScalar` and `GetList`. GetTimeSpan checks for null rather than Undefined.
- ToString and pretty printing are not modelled.

## Findings

| source | as written | input that shows it | evidently intended | confidence | as-written member | corrected member |
|---|---|---|---|---|---|---|
| src/HOCON/HoconParser.cs:457 | the include type check reads `owner.Type`, and a root-level include passes a null owner | a document `include "f"` whose callback returns `a = 1` | a root include merges the included object into the root | not executed | IncludeClause.RootIncludeFaults | IncludeClause.OwnerCheck |
| src/HOCON/HoconParser.cs:229-240 | fields reached through substitutions are never marked visited | `a = ${b}, b = ${c}, c = ${b}`, resolving `${b}` in a | the search stops; b and c form a cycle, and a does not reach itself | not executed | Cycles.LoopDiverges | Cycles.IsValueCyclic |
| src/HOCON/HoconParser.cs:206-214 | the visited list is shared by every path of the search, so the same object reached twice looks like a cycle | `b = {x = 1}, a = ${b} ${b}` | no cycle: a does not reach itself | not executed | Cycles.ShareAsWritten | Cycles.SharedNotCyclic |
| src/HOCON/HoconRoot.cs:60-63 | the key loop calls GetChildObject on the previous key's result, which is null once a key is missing | the path `a.b` in a root value with no fields | the path is Undefined | not executed | Root.MissingParentFaults | Root.HoconRoot.GetNode |
| src/HOCON/HoconParser.cs:268-270 | ConsumeWhitelines steps past the token right after `]` before it looks, so that token is never checked | `[1]x` | rejected: only blank lines and comments may follow a root array | not executed | Grammar.RootArrayTailSwallowsToken | Grammar.RootArrayTailExact |
