# Liva language support: the structural indexer

This project models the part of the Liva VS Code extension that reads structure out of a
Liva document without parsing it. Four providers do this with line-anchored regular
expressions and a brace counter:

- **Outline** (`LivaDocumentSymbolProvider`). It lists the document's functions, classes
  with their constructor, fields and methods, and constants. Each one becomes a
  `DocumentSymbol` with a full range and a selection range. A class's range runs to its
  matching closing brace. That brace is found by a counter that skips quoted strings.
- **Interface validation** (`validateInterfaces`). It splits the text into lines and
  collects interface blocks (`Name {` blocks with no `constructor`) and class blocks that
  declare `Name : I1, I2 {`. It then reports a warning for each implemented interface that
  is not declared, and an error for each required method the class lacks.
- **Go to definition and find references** (`LivaDefinitionProvider`,
  `LivaReferenceProvider`). Go to definition searches for the declarations of one word:
  four function shapes, four `let`/`const` binding shapes, and a class shape. It returns
  the first location found. Find references returns every whole-word occurrence. It can
  leave out occurrences on lines that look like declarations.
- **Signature help** (`LivaSignatureHelpProvider`). It finds the call the cursor is in by
  matching `(\w+)\s*\(([^)]*)$` on the line up to the cursor. It counts commas to get the
  active parameter. It looks the name up in a table of built-in signatures.

Every regular expression is rewritten as a deterministic character-level matcher. Each
matcher is stated against a declarative reading of the pattern. `matchAll` is one generic
function (`Matching.AllMatches`): leftmost, non-overlapping, and proved complete.

Positions are offsets into the text. `Positions.PositionAt` turns an offset into a line and
character the way `document.positionAt` does.

Where the source departs from what it evidently means, the operation takes a
`Variant`: `AsWritten` follows the code, and `Corrected` follows the evident intent. The
"## Findings" section lists each departure with the input that shows it.

Module layout:

| file | module | what |
|---|---|---|
| `wrappers.dfy` | `Wrappers` | `Option` |
| `chars.dfy` | `Chars` | character classes of JavaScript regular expressions (`\w`, `\s`, line breaks) |
| `strings.dfy` | `Strings` | runs, `indexOf`, `trim`, `split`/`join` |
| `positions.dfy` | `Positions` | `Position`, `Range`, `positionAt`, line ends |
| `matching.dfy` | `Matching` | captures, matchers, `matchAll` |
| `patterns.dfy` | `Patterns` | pieces shared by the outline and resolver patterns |
| `braces.dfy` | `Braces` | `findClosingBrace` |
| `outline.dfy` | `Outline` | the outline provider |
| `outline_findings.dfy` | `OutlineFindings` | two inputs on which the outline goes wrong |
| `validator_patterns.dfy` | `ValidatorPatterns` | the per-line patterns of the validator |
| `blocks.dfy` | `BlockScan` | the block scanner shared by both extractors |
| `validator.dfy` | `Validator` | `extractInterfaces`, `extractClasses`, `validateInterfaces` |
| `resolver.dfy` | `Resolver` | definitions and references |
| `resolver_findings.dfy` | `ResolverFindings` | two inputs on which go to definition goes wrong |
| `signature_help.dfy` | `SignatureHelp` | call detection, the active parameter, the signature table |
| `signature_findings.dfy` | `SignatureFindings` | two lines on which signature help goes wrong |

## Model

| member | source | states |
|---|---|---|
| Braces.FindClosingBrace | src/providers/symbolProvider.ts:252-289 | the answer is the first offset after `startIndex` that holds a `}` outside any string and brings the brace count back to zero; when there is none, no offset is answered |
| Braces.CloseFrom | src/providers/symbolProvider.ts:257-286 | the scan from `i` stops at the first closing offset and passes over every earlier one; if it finds none, no offset from `i` on closes |
| Braces.NoCloseAtStart | src/providers/symbolProvider.ts:278-284 | the character at `startIndex` cannot itself close the block, because the count starts at zero |
| Braces.QuotedBracesIgnored | src/providers/symbolProvider.ts:273-275 | inside a string, a character other than a quote changes neither the depth nor the string state |
| Braces.StringClosedBySameQuote | src/providers/symbolProvider.ts:262-270 | a string ends exactly at an unescaped quote of the kind that opened it, and keeps its quote until then |
| Braces.EscapedQuoteNoToggle | src/providers/symbolProvider.ts:259-262 | a quote right after a backslash neither opens nor closes a string |
| Braces.DepthCountsBraces | src/providers/symbolProvider.ts:277-285 | on text without quotes, the depth is the number of `{` minus the number of `}` seen since `startIndex` |
| Braces.QuotedExample | src/providers/symbolProvider.ts:262-283 | in `{"a{b}c"}` the braces inside the string are skipped and the block closes at offset 8 |
| Matching.FirstMatch | src/providers/symbolProvider.ts:51 | the first match found is the leftmost position from which the pattern matches; if there is none, the pattern matches nowhere from there |
| Matching.AllMatches | src/providers/symbolProvider.ts:51 | every element is a match of the pattern, each starts after the previous one resumes, and no match starts before the first |
| Matching.AllMatchesComplete | src/providers/symbolProvider.ts:51-52 | every position from which the pattern matches, and which no earlier match covers, starts one of the matches |
| Strings.Split | src/providers/interfaceValidator.ts:34 | the parts contain no separator, there is at least one part, and joining them with the separator gives back the text |
| Strings.SplitJoin | src/providers/interfaceValidator.ts:34 | splitting a join of separator-free parts gives back the parts |
| Strings.NonEmptyJoin | src/providers/interfaceValidator.ts:186 | dropping the empty parts keeps the order of the others: the filter of a joined list is the filters of its two sides, joined |
| Strings.NonEmptyCount | src/providers/interfaceValidator.ts:186 | each non-empty part is kept as often as it occurs, and an empty one never |
| Strings.Trim | src/providers/interfaceValidator.ts:94 | the result is the text with leading and trailing white space removed: it neither starts nor ends with a space, and only spaces were dropped on either side |
| Strings.CountChar | src/providers/signatureHelpProvider.ts:32 | the count is the number of occurrences of the character |
| Positions.PositionAt | src/providers/symbolProvider.ts:63 | the character of a position is its distance from the start of its line |
| Positions.PositionOrder | src/providers/symbolProvider.ts:111 | positions are ordered as the offsets they come from |
| Patterns.HeadAt | src/providers/symbolProvider.ts:41-47 | `(\w+)\s*\(([^)]*)\)` read from a point: a word, spaces, then parentheses with no `)` inside |
| Patterns.RestOfLine | src/providers/symbolProvider.ts:41 | `\s*(.+)$` takes the spaces and then the rest of the line, which is not empty and holds no line break |
| Patterns.HeadAtComplete | src/providers/symbolProvider.ts:41-47 | a word, spaces, `(`, text without `)` and `)` are always read as a head with that name and those parameters |
| Patterns.AnnotationAtComplete | src/providers/symbolProvider.ts:45 | `:`, spaces and a whole word are always read as a return type |
| Patterns.RestOfLineComplete | src/providers/symbolProvider.ts:41 | spaces followed by a non-space are always read as a rest of line that runs from that non-space to the end of its line |
| Outline.DeclAt | src/providers/symbolProvider.ts:39-48 | a match of a function shape starts at a line start, its first group is a word found at the name offset, and its second group is the parameter text |
| Outline.ClassAt | src/providers/symbolProvider.ts:94 | a class match starts at a line start, and its name is a word that starts with an upper-case letter and is found at the name offset |
| Outline.ConstructorAt | src/providers/symbolProvider.ts:137 | a constructor match starts at the word `constructor` and has the parameter text as its one group |
| Outline.FieldAt | src/providers/symbolProvider.ts:158 | a field match is `name : Type` after leading spaces on a line, and both name and type are words |
| Outline.ConstantAt | src/providers/symbolProvider.ts:224 | a constant match names a `[A-Z_][A-Z0-9_]*` word after `const` at a line start, and its value runs to the end of the line |
| Outline.DeclAtComplete | src/providers/symbolProvider.ts:39-48 | every line holding, after its indentation, a word, spaces, `(`, text without `)`, `)` and a shape's tail is matched, capturing the name, the parameters and the tail's groups; a method shape also needs the indentation to be non-empty |
| Outline.ClassAtComplete | src/providers/symbolProvider.ts:94 | every line holding, after its indentation, a capitalised word, spaces and `{` is a class match capturing the word |
| Outline.ConstructorAtComplete | src/providers/symbolProvider.ts:137 | every `constructor`, spaces, `(`, text without `)`, `)`, spaces and `{` is a constructor match capturing the parameter text |
| Outline.FieldAtComplete | src/providers/symbolProvider.ts:158 | every line holding, after non-empty indentation, a word, spaces, `:`, spaces and a whole word is a field match capturing both words |
| Outline.ConstantAtComplete | src/providers/symbolProvider.ts:224 | every line holding, after its indentation, `const`, spaces, a `[A-Z_][A-Z0-9_]*` name, spaces, `=`, spaces and a non-space is a constant match capturing the name and the value up to the end of the line |
| Outline.Anchor | src/providers/symbolProvider.ts:63 | as written, a symbol starts where its match starts; corrected, it starts at the start of the line holding the name, with no line break in between |
| Outline.AnchoredSymbol | src/providers/symbolProvider.ts:63-75 | a symbol's range never runs backwards, and once corrected the host accepts it |
| Outline.FunctionSymbol | src/providers/symbolProvider.ts:63-76 | a function symbol is named after its match's name, selects as many characters as the name has, from the symbol's start, and is accepted by the host once corrected |
| Outline.ParseFunctions | src/providers/symbolProvider.ts:34-84 | every entry is a function with no children that selects as many characters as the name has, from the symbol's start and is never `constructor` |
| Outline.FunctionListed | src/providers/symbolProvider.ts:50-78 | every match of every function shape that is not named `constructor` appears among the entries |
| Outline.CorrectedCaptionShape | src/providers/symbolProvider.ts:67-68 | the corrected caption is `name(params)`, followed by `: Type` exactly when the shape has a return type |
| Outline.ConstructorSymbols | src/providers/symbolProvider.ts:137-155 | one constructor entry per match; each selects the 11 characters of `constructor` and is accepted |
| Outline.FieldSymbol | src/providers/symbolProvider.ts:160-176 | a field is named by its first group, has its type as detail, and selects as many characters as the name has, from the symbol's start |
| Outline.MethodSymbols | src/providers/symbolProvider.ts:186-211 | at most one method per match; each selects as many characters as the name has, from the symbol's start, and none is `constructor` |
| Outline.MethodSymbolsExact | src/providers/symbolProvider.ts:186-211 | the method entries of one shape are exactly the entries of its matches not named `constructor` |
| Outline.ParseClassMembers | src/providers/symbolProvider.ts:129-214 | the members are constructors, fields and methods; each selects as many characters as the name has, from the symbol's start |
| Outline.MembersListed | src/providers/symbolProvider.ts:129-214 | the members start with one constructor entry per constructor match, in order, then one field entry per field match, in order; every later member is a method not named `constructor` |
| Outline.MethodListed | src/providers/symbolProvider.ts:179-211 | every match of a method shape not named `constructor` has its method entry among the members |
| Outline.BodyEnd | src/providers/symbolProvider.ts:103-116 | a class body ends at its closing brace, or at the end of the text when there is none |
| Outline.ClassRange | src/providers/symbolProvider.ts:100-111 | a class's range ends at its closing brace, or at the end of its first line when there is none |
| Outline.ClassEndAfterName | src/providers/symbolProvider.ts:100-111 | a class's closing brace never lies before the start of the class |
| Outline.ClassSymbol | src/providers/symbolProvider.ts:97-119 | a class entry is named by its capitalised name, has detail `class`, and holds the members parsed from its own body |
| Outline.ParseClasses | src/providers/symbolProvider.ts:89-124 | every entry is a class whose name starts with an upper-case letter; it and each of its members selects as many characters as the name has, from the symbol's start |
| Outline.ClassesListed | src/providers/symbolProvider.ts:89-124 | there is one class entry per class match, in order; entry `i` is the class of match `i`, with its name, its range and the members of its body |
| Outline.ConstantDetail | src/providers/symbolProvider.ts:230-236 | the detail is the trimmed value when that is at most 30 characters long, and otherwise its first 27 characters followed by `...` |
| Outline.ParseConstants | src/providers/symbolProvider.ts:219-247 | every entry is a constant with a `[A-Z_][A-Z0-9_]*` name, no children, and a detail of at most 30 characters |
| Outline.ConstantsListed | src/providers/symbolProvider.ts:219-247 | there is one constant entry per constant match, in order; entry `i` is named by match `i` and has its shortened value as detail |
| Outline.SymbolsInProviderOrder | src/providers/symbolProvider.ts:17-28 | all functions come before every class, and all classes come before every constant |
| Outline.ProvideDocumentSymbols | src/providers/symbolProvider.ts:12-29 | corrected, the host accepts every entry and member, and the provider's order is kept |
| OutlineFindings.BlankLineMatch | src/providers/symbolProvider.ts:43 | on `"\nmain() {\n}"` the block pattern's match starts at offset 0, on the blank line |
| OutlineFindings.EmptyLineMatchRejected | src/providers/symbolProvider.ts:63-76 | a function whose match starts on an empty line above its name is rejected by the host as written |
| OutlineFindings.BlankLineLosesOutline | src/providers/symbolProvider.ts:12-29 | as written, the whole outline of `"\nmain() {\n}"` is lost to the host's error; corrected, `main()` is listed at line 1, character 0 |
| OutlineFindings.CorrectedStartsOnNameLine | src/providers/symbolProvider.ts:63 | corrected, a function starts at the start of the line holding its name |
| OutlineFindings.ArrowMatch | src/providers/symbolProvider.ts:41 | on `add(a) => a + 1` the one-line pattern's fourth group is the body `a + 1` |
| OutlineFindings.ArrowBodyAppended | src/providers/symbolProvider.ts:56-68 | as written, a one-line function's caption carries `: ` and its body after the corrected caption |
| OutlineFindings.ArrowBodyShownAsType | src/providers/symbolProvider.ts:56-68 | as written, `add(a) => a + 1` is listed as `add(a): a + 1`; corrected, as `add(a)` |
| ValidatorPatterns.InterfaceHeader | src/providers/interfaceValidator.ts:104 | an interface header is a word starting with an upper-case letter, then spaces, then `{` |
| ValidatorPatterns.InterfaceHeaderComplete | src/providers/interfaceValidator.ts:104 | every line of that form is recognised, with its name |
| ValidatorPatterns.ClassHeader | src/providers/interfaceValidator.ts:179 | a recognised header names a capitalised word that starts the line, and its list is at least two characters long, starts with an upper-case letter and holds only word characters, commas and spaces |
| ValidatorPatterns.ClassHeaderComplete | src/providers/interfaceValidator.ts:179 | every line holding a capitalised word, spaces, `:`, spaces, an upper-case letter and list characters up to `{` is recognised, with that word as the name and the text from the letter to the `{` as the list |
| ValidatorPatterns.ImplementedNamesAreParts | src/providers/interfaceValidator.ts:183-186 | a name is implemented exactly when it is a non-empty trimmed piece of the list between commas; each implemented name holds no comma and has no space at either end |
| ValidatorPatterns.ImplementedNamesCount | src/providers/interfaceValidator.ts:183-186 | a name is implemented as often as a piece trims to it, so duplicates are kept |
| ValidatorPatterns.ImplementedNamesComma | src/providers/interfaceValidator.ts:183-186 | the names of `a,b` are those of `a` followed by those of `b` when `a` holds no comma |
| ValidatorPatterns.MethodStart | src/providers/interfaceValidator.ts:212 | a method line starts with an identifier followed by spaces and `(` |
| ValidatorPatterns.MethodStartComplete | src/providers/interfaceValidator.ts:212 | every line of that form is recognised, with its name |
| ValidatorPatterns.LazyParamsSound | src/providers/interfaceValidator.ts:145 | the lazy `(.*?)` stops at a `)` after which the optional `: Type` and the end of the line follow |
| ValidatorPatterns.SignatureOfFits | src/providers/interfaceValidator.ts:145 | a recognised signature line is read as its name, its parameters between the parentheses, and its return type |
| ValidatorPatterns.SignatureShortest | src/providers/interfaceValidator.ts:145 | of all readings of a signature line, the one taken has the shortest parameter text |
| BlockScan.FirstClose | src/providers/interfaceValidator.ts:117-123 | a block closes at the first line where the brace depth returns to zero |
| BlockScan.MemberLines | src/providers/interfaceValidator.ts:143-158 | the members of a block are exactly its non-comment lines that the member pattern recognises |
| BlockScan.ScanOutside | src/providers/interfaceValidator.ts:93-160 | the line-by-line scan yields exactly the blocks of the declarative reading: the first header, its first closing line, and the member lines between |
| BlockScan.BlocksBounded | src/providers/interfaceValidator.ts:93-160 | every block found from a line on opens at or after that line and opens before it closes |
| BlockScan.BlocksOrdered | src/providers/interfaceValidator.ts:93-160 | blocks are disjoint and in text order: each closes before the next one opens |
| BlockScan.UnclosedDropped | src/providers/interfaceValidator.ts:117-141 | a block that never closes yields nothing |
| Validator.Lines | src/providers/interfaceValidator.ts:34 | the lines hold no line feed, and joining them with line feeds gives back the text |
| Validator.Net | src/providers/interfaceValidator.ts:119-120 | a line changes the depth by its `{` count minus its `}` count |
| Validator.CommentLinesIgnored | src/providers/interfaceValidator.ts:96-99 | a comment line changes no depth and closes no block |
| Validator.Candidate | src/providers/interfaceValidator.ts:123-137 | a closed block is offered as an interface exactly when none of its raw lines, header to closing line, contains `constructor` |
| Validator.Registered | src/providers/interfaceValidator.ts:136 | the map holds a name exactly when some offer has it, and it holds the last such offer |
| Validator.InterfacesFound | src/providers/interfaceValidator.ts:88-163 | an interface is extracted exactly when it is the last constructor-free block of its name |
| Validator.InterfaceText | src/providers/interfaceValidator.ts:101-158 | an interface's methods come from the lines strictly inside its block that have neither `=>` nor `{` |
| Validator.ClassesOf | src/providers/interfaceValidator.ts:165-226 | one class per closed class block, in text order |
| Validator.ExtractClasses | src/providers/interfaceValidator.ts:165-226 | classes are listed in increasing order of their header lines |
| Validator.ClassText | src/providers/interfaceValidator.ts:178-221 | a class's header carries its name and interfaces, and its methods come from the lines inside its block |
| Validator.LineRange | src/providers/interfaceValidator.ts:49-52 | a diagnostic covers the whole implements line, from character 0 to the line's length |
| Validator.MissingMethodsExact | src/providers/interfaceValidator.ts:63-80 | an error is reported for a required method exactly when the class lacks a method of that name |
| Validator.MissingMethodsPlaced | src/providers/interfaceValidator.ts:63-80 | there is one error per required method the class lacks, in the order of the interface's methods: the error for a lacked method comes right after those for the methods lacked before it |
| Validator.MissingMethodsOrdered | src/providers/interfaceValidator.ts:63-80 | of two lacked methods, the one the interface lists first is reported first |
| Validator.MissingMethodsCount | src/providers/interfaceValidator.ts:63-80 | a lacked method is reported as often as the interface lists it, and a method the class has is never reported |
| Validator.ForInterfaceExact | src/providers/interfaceValidator.ts:44-80 | for an undeclared interface the diagnostics are exactly the one warning; otherwise they are exactly the missing-method errors |
| Validator.ForClassAt | src/providers/interfaceValidator.ts:43-82 | the diagnostics of a class are those of each of its interfaces in turn, in the order of the implements clause, one stretch per interface |
| Validator.ReportedBeforeGrows | src/providers/interfaceValidator.ts:43-82 | the stretch of an earlier interface ends before that of a later one begins |
| Validator.ForClassExact | src/providers/interfaceValidator.ts:43-82 | a class's diagnostics are exactly those of its interfaces, all on its implements line |
| Validator.ValidateExact | src/providers/interfaceValidator.ts:31-86 | a diagnostic is reported exactly when some extracted class and one of its interfaces account for it |
| Validator.ValidateSorted | src/providers/interfaceValidator.ts:43-83 | diagnostics come in increasing order of line |
| Validator.ValidateRanges | src/providers/interfaceValidator.ts:49-69 | every diagnostic covers the whole implements line of some class |
| Resolver.FunctionSite | src/providers/definitionProvider.ts:74-83 | a function pattern matches at a line start, and the name it captures is a whole word |
| Resolver.FunctionSiteAgreesWithOutline | src/providers/definitionProvider.ts:74-83 | wherever the outline's pattern for a shape finds a function with this name, so does the definition pattern, at the same name |
| Resolver.VariableSite | src/providers/definitionProvider.ts:113-121 | a binding pattern matches at a line start, after its keyword, and the name it captures is a whole word |
| Resolver.LetSiteComplete | src/providers/definitionProvider.ts:115 | every line holding spaces, `let`, spaces, the name, spaces and `=` or `,` is found, with the name where it stands |
| Resolver.ConstSiteComplete | src/providers/definitionProvider.ts:117 | every line holding spaces, `const`, spaces, the name, spaces and `=` is found, with the name where it stands |
| Resolver.SecondSiteComplete | src/providers/definitionProvider.ts:119 | every `let first, name =` line, with any spaces the pattern allows, is found, with the second name where it stands |
| Resolver.FirstSiteComplete | src/providers/definitionProvider.ts:120 | every `let name, second =` line, with any spaces the pattern allows, is found, with the first name where it stands |
| Resolver.SecondNameFindsFirst | src/providers/definitionProvider.ts:115-120 | wherever the second name of `let a, b =` is found, the first name is found too, by its pair pattern and by the plain `let` pattern |
| Resolver.FirstNameFindsSecond | src/providers/definitionProvider.ts:119-120 | wherever the first name of a pair is found, the word after the comma is found as the second name, with the same match end |
| Resolver.ClassSiteAgreesWithOutline | src/providers/definitionProvider.ts:151 | the class pattern finds this name exactly where the outline's class pattern finds a class of this name |
| Resolver.Anchors | src/providers/definitionProvider.ts:91 | as written, function and class locations are at line starts; corrected, they are at whole-word occurrences of the name |
| Resolver.VariableAnchor | src/providers/definitionProvider.ts:129 | as written, a variable's location is the first occurrence of the name in the matched text; corrected, it is the captured name |
| Resolver.ReferenceSiteIsWholeWord | src/providers/definitionProvider.ts:218 | `\bname\b` matches at an offset exactly when the name occurs there as a whole word |
| Resolver.ReferencesExact | src/providers/definitionProvider.ts:211-231 | the references are exactly the whole-word occurrences of the name, in order and not overlapping |
| Resolver.WithoutDeclarationsMembers | src/providers/definitionProvider.ts:197-202 | the filter keeps exactly the offsets whose line does not look like a declaration holding the word |
| Resolver.WithoutDeclarationsOrdered | src/providers/definitionProvider.ts:199-202 | the filter keeps the order of the references |
| Resolver.ProvideReferencesExact | src/providers/definitionProvider.ts:180-206 | a reference is returned exactly when it is a whole-word occurrence, and, when declarations are excluded, its line is not a declaration line; references are in strictly increasing order |
| Resolver.NoMatchIff | src/providers/definitionProvider.ts:88 | `matchAll` finds nothing exactly when the pattern matches at no position |
| Resolver.FunctionFound | src/providers/definitionProvider.ts:67-99 | some function location is found exactly when some function shape matches the name somewhere |
| Resolver.VariableFound | src/providers/definitionProvider.ts:106-137 | some variable location is found exactly when some binding shape declares the name somewhere |
| Resolver.ClassFound | src/providers/definitionProvider.ts:143-168 | some class location is found exactly when the name's first letter is not lower-case and the class pattern matches it somewhere |
| Resolver.DefinitionFoundIff | src/providers/definitionProvider.ts:30-60 | there is an answer exactly when the word is declared as a function, variable or class; the first location is a function's when any function shape matches, else a variable's when any binding matches, else a class's |
| Resolver.ShapeLeftmost | src/providers/definitionProvider.ts:87-96 | the first location of a function shape is at its leftmost match: at the match start as written, at the captured name once corrected |
| Resolver.AsWrittenAtLineStart | src/providers/definitionProvider.ts:91 | as written, every function or class location is at character 0 of some line |
| Resolver.CorrectedDefinitionsAreReferences | src/providers/definitionProvider.ts:30-38 | corrected, every definition location is a whole-word occurrence and among the references |
| ResolverFindings.LetMatch | src/providers/definitionProvider.ts:115 | on `let t = 0` the `let` pattern for `t` matches the whole head, capturing the name at offset 4 |
| ResolverFindings.LetAnchors | src/providers/definitionProvider.ts:129 | the first `t` of that match is the last letter of `let`, at offset 2 |
| ResolverFindings.LetKeywordSelected | src/providers/definitionProvider.ts:129-131 | as written, go to definition of `t` answers line 0, characters 2 to 3, which is not a reference to `t` |
| ResolverFindings.LetNameSelected | src/providers/definitionProvider.ts:129-131 | corrected, it answers line 0, characters 4 to 5, the declared name, which is a reference |
| ResolverFindings.BlankMatches | src/providers/definitionProvider.ts:78 | on `"\nf() {}"` the block pattern matches from offset 0, on the blank line, and the arrow pattern matches nowhere |
| ResolverFindings.BlankLineSelected | src/providers/definitionProvider.ts:91-92 | as written, go to definition of `f` answers line 0, the empty line, which is not a reference |
| ResolverFindings.BlankNameSelected | src/providers/definitionProvider.ts:91-92 | corrected, it answers line 1, character 0, the name |
| SignatureHelp.Prefix | src/providers/signatureHelpProvider.ts:20 | the prefix is the line up to the cursor, or the whole line when the cursor is past its end |
| SignatureHelp.CallSiteIff | src/providers/signatureHelpProvider.ts:23 | the call pattern matches at an offset with a given name and arguments exactly when the prefix there is that name, spaces, `(`, and arguments without `)` that run to the end |
| SignatureHelp.LastMatch | src/providers/signatureHelpProvider.ts:23 | the last match found is the rightmost position up to the limit from which the pattern matches |
| SignatureHelp.FoundIsChosen | src/providers/signatureHelpProvider.ts:23-29 | as written, the call found is the leftmost call that runs to the cursor; corrected, it is the rightmost one that starts a word |
| SignatureHelp.ChosenIsFound | src/providers/signatureHelpProvider.ts:23-29 | conversely, the leftmost call (as written) or the rightmost word-start call (corrected) is the one found |
| SignatureHelp.NoneFound | src/providers/signatureHelpProvider.ts:23-26 | when no call is found, no call runs to the cursor, or, corrected, none starts a word |
| SignatureHelp.SignatureHelpExact | src/providers/signatureHelpProvider.ts:28-55 | for a table entry, the help has that one signature, signature 0 active, and active parameter min(commas, parameters - 1); otherwise there is no help, except that as written a name inherited by every JavaScript object throws |
| SignatureHelp.NoCallNoHelp | src/providers/signatureHelpProvider.ts:23-26 | with no call before the cursor there is no help |
| SignatureHelp.ActiveParameterInRange | src/providers/signatureHelpProvider.ts:41-44 | when every signature has a parameter, the active parameter is one of the signature's parameters |
| SignatureHelp.CorrectedNeverThrows | src/providers/signatureHelpProvider.ts:52-55 | corrected, signature help always answers |
| SignatureHelp.BuiltInsTakeParameters | src/providers/signatureHelpProvider.ts:60-278 | every built-in signature has at least one parameter |
| SignatureFindings.NestedShowsOuter | src/providers/signatureHelpProvider.ts:23 | as written, in `print(length(` the help is for `print`, the outer call |
| SignatureFindings.NestedShowsInner | src/providers/signatureHelpProvider.ts:23 | corrected, the help is for `length`, the call the cursor is in |
| SignatureFindings.ValueOfThrows | src/providers/signatureHelpProvider.ts:54 | as written, `valueOf(` looks up `Object.prototype.valueOf` and reading its parameters throws |
| SignatureFindings.ValueOfNoHelp | src/providers/signatureHelpProvider.ts:54 | corrected, `valueOf(` gets no help |

## Left out

- Line terminators are `\n` only. JavaScript's `^` and `$` and the host's line numbering also treat `\r`, U+2028 and U+2029 as line breaks. Documents with those are not modelled.
- Lengths and columns are counted in code points, not UTF-16 units.
- The host is out of scope: `document.getText`, `lineAt`, `uri`, `getWordRangeAtPosition` and the cancellation tokens. The word under the cursor is a parameter of `ProvideDefinition` and `ProvideReferences`.
- Resolver.ProvideDefinition: the word under the cursor comes from the host and is spliced unescaped into regular expressions. The model assumes it is a non-empty run of ASCII word characters (`\w+`). The host's word pattern can also give words with non-ASCII letters, or numbers with a sign or a decimal point such as `-1.5`; those words, and any word holding regular-expression syntax, are not modelled.
- Resolver.ProvideReferences: the same holds for the word of `\bword\b`.
- SignatureHelp.ProvideSignatureHelp: a signature is reduced to its name and parameter count. Its label and documentation strings are left out.
- SignatureHelp.BuiltInsTakeParameters: the table has 31 entries. That count is not proved; the lemma states only that each entry has a parameter.
- `Outline.ProvideDocumentSymbolsAsWritten` models the host's `DocumentSymbol` constructor throwing on a selection range outside the full range. Other host validations are not modelled.
- Definition search has its own four function patterns, anchored at line starts, which also match indented methods; the model follows them rather than the outline's shapes.
- Validator.ValidateExact: states which diagnostics are reported, not how often; multiplicity and order are stated within one class by Validator.MissingMethodsCount, Validator.MissingMethodsPlaced and Validator.ForClassAt, and across classes only as increasing line order, by Validator.ValidateSorted.
- Validator.ValidateSorted: orders diagnostics by line only; the order among the diagnostics of one line is the one Validator.ForClassAt states.
- ValidatorPatterns.ClassHeader: states what a recognised header captures; the `:` and `{` around the list, and the converse, are stated by ValidatorPatterns.ClassHeaderComplete.
- Resolver.VariableSite: states what a match captures; the converse, that every declaration line of each binding form is found, is stated by Resolver.LetSiteComplete, Resolver.ConstSiteComplete, Resolver.SecondSiteComplete and Resolver.FirstSiteComplete.
- Outline.DeclAt, Outline.ClassAt, Outline.ConstructorAt, Outline.FieldAt, Outline.ConstantAt: each states what a match captures; the converse, that every line of the pattern's form is matched, is in the corresponding `…Complete` lemma.
- The extension's activation, the completion and hover providers, and the compiled `out/extension.js` are not part of this model.

## Findings

| source | as written | input that shows it | evidently intended | confidence | as-written member | corrected member |
|---|---|---|---|---|---|---|
| src/providers/symbolProvider.ts:63-75 | a symbol starts at `match.index`, and the leading `\s*` can take the line breaks above the declaration | `"\nmain() {\n}"`: the range is the empty line 0, and the selection (line 0, 0 to 4) lies outside it, so the host throws and the whole outline is lost | a symbol starts on the line of its name | not executed | OutlineFindings.BlankLineLosesOutline | Outline.ProvideDocumentSymbols |
| src/providers/symbolProvider.ts:56-68 | `match[4]` is appended as the return type, but for the one-line pattern group 4 is the body | `add(a) => a + 1` is listed as `add(a): a + 1` | only the typed shapes show `: Type` | not executed | OutlineFindings.ArrowBodyShownAsType | Outline.CorrectedCaptionShape |
| src/providers/signatureHelpProvider.ts:54 | `signatures[name] \|\| null` also finds names inherited from `Object.prototype` | `valueOf(`: a function is found, its `parameters` is undefined, and `.length` throws | look up only the table's own entries | not executed | SignatureFindings.ValueOfThrows | SignatureFindings.ValueOfNoHelp |
| src/providers/definitionProvider.ts:129 | a variable's location is the first occurrence of its name in the whole match, keyword included | `let t = 0`, word `t`: the answer is character 2, inside `let` | the location of the captured name | not executed | ResolverFindings.LetKeywordSelected | ResolverFindings.LetNameSelected |
| src/providers/definitionProvider.ts:91 | a function's location is `match.index`, and the leading `\s*` can take a line break | `"\nf() {}"`, word `f`: the answer is the empty line 0 | the location of the name, line 1 | not executed | ResolverFindings.BlankLineSelected | ResolverFindings.BlankNameSelected |
| src/providers/signatureHelpProvider.ts:23 | the leftmost call that runs to the cursor is taken | `print(length(` with the cursor at the end: the help is for `print` | the innermost call, the one the cursor is in | not executed | SignatureFindings.NestedShowsOuter | SignatureFindings.NestedShowsInner |
