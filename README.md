# Template tokenizer of rich-input-core, in Dafny

This project models the core of `packages/rich-input-core`: the template
parser that cuts a template string into tokens, and the utilities that work
on those token sequences. The template `literal{argument}{incomplete` with
delimiters `{` and `}` becomes a literal, an argument and an incomplete
argument. The utilities turn a sequence back into a string, find the token
under a caret, replace a token's value, and append a token.

Files:

- `wrappers.dfy` holds `Option`, which stands for the `null` results.
- `types.dfy` holds the token model of `types.ts`:
  - the token kind enumeration;
  - the inclusive position;
  - the three token variants as one datatype.
- `utils.dfy` models `utils.ts`. It also defines the invariants of token sequences:
  - `Tiled`: no gaps, each token starts right after the previous one;
  - `WellShaped`: a token's span length, label, value and raw value agree with the delimiters;
  - `Consistent`: both of these together.
- `parser.dfy` models `index.ts`.
  - `TemplateParser` is a class with the two delimiters as `const` fields.
  - `Parse` is the scan loop of the source.
  - It is proved equal to `ParsedTokens`, the same scan written as a function:
    - `ScanNext` is one step;
    - `Run` is the rest of the scan;
    - `Finished` emits the final token.
  - Along that function the lemmas keep a scan invariant, `ScanInvariant`.
  - What `Parse` promises follows from that invariant:
    - every token is a span of the template of the right shape;
    - the tokens tile the template;
    - no two literals are adjacent;
    - only the last token may be incomplete;
    - serialising gives the template back, closed by the end delimiter if the last argument was left open;
    - token `k` has index `k` in its id, so no two tokens share an id.
  - `ParseOutcome` states these properties independently of the scan. A
    template and its delimiters have exactly one sequence that satisfies it
    (`ParseOutcomeUnique`), so it characterises the parse completely.

The text of each token kind is described by windows `template[lo..hi]`:

- `LiteralSpan`: no start delimiter.
- `ArgumentSpan`: opens with the start delimiter, keeps a positive nesting depth, and returns to depth 0 on its last character.
- `OpenSpan`: opens and never returns to depth 0.

The depth is the source's `nesting` counter. An opening delimiter wins over
a closing one when both are the same character, because the source tests
`start` first.

Where the code and its documentation or tests disagree, the model follows
the code:

- **Delimiter length.** The constructor accepts delimiter strings of any length. The scan compares one character with `start` and `end` (`index.ts:45`, `index.ts:74`). A delimiter longer than one character therefore never matches. With such a start delimiter, a non-empty template parses to one literal, which `Parse` states.
- **Incomplete-argument id.** The parser gives the incomplete argument an id built from the `Literal` kind (`index.ts:108`). The tests expect the `IncompleteArgument` kind (`tests/index.test.ts:191`). The model uses the `Literal` kind, as the code does. `ParseOneOpen` pins this for the template `one:`.
- **Serialising an incomplete argument.** `tokensToString` writes `start + value + end` for an incomplete argument too. Serialising a parse that ends in an open argument therefore gives the template followed by the end delimiter. `ParseTokensToString` states exactly that.

## Model

| member | source | states |
|---|---|---|
| Types.TokenType.Code | packages/rich-input-core/src/types.ts:1-5 | Literal is 0, Argument is 1, every code is at most 2 |
| Types.TokenTypeCodes | packages/rich-input-core/src/types.ts:1-5 | there are exactly three kinds, coded 0, 1 and 2, and two kinds have the same code only when they are the same kind |
| Types.Token.Kind | packages/rich-input-core/src/types.ts:24-43 | no contract: the `type` discriminant of a token. The union of three token types is the datatype `Token`: every variant has an id, a label, a value and a `Position` with inclusive `start` and `end` (`types.ts:7-22`), and the two argument variants also have a raw value. The id string is the datatype `TokenId` |
| Utils.Serialized | packages/rich-input-core/src/utils.ts:26-28 | no contract: a literal's value, and `start + value + end` for either argument kind. `SerializedLabel` states what it gives for a well-shaped token |
| Utils.TokensToString | packages/rich-input-core/src/utils.ts:20-30 | no contract: each token's `Serialized` text, joined in order with nothing between. Its properties are `TokensToStringConcat`, `CompleteTokensToString`, `LastOpenTokensToString` and `ParseTokensToString` |
| Utils.GetTemplateTokenId | packages/rich-input-core/src/utils.ts:39-41 | no contract: the pair (kind, index) that the id string is formatted from. `TokenIdsDistinct` states that it is injective |
| Utils.NextStart | packages/rich-input-core/src/utils.ts:168-170 | no contract: one past the last token's end, or 0 for no tokens, where the next token starts. `Tiled` and `CreateToken` use it |
| Utils.Shift | packages/rich-input-core/src/utils.ts:115-118 | no contract: the token with `start` and `end` both moved by `diff` and every other field unchanged. `ShiftWellShaped` and `TokensToStringShifted` are about it |
| Utils.Shifted | packages/rich-input-core/src/utils.ts:115-118 | the same number of tokens, each moved by `diff` |
| Utils.UpdatedTokens | packages/rich-input-core/src/utils.ts:109-120 | no contract: the tokens before the index, then the updated token, then the later ones moved by `positionDiff`. `UpdateTokens` is proved to compute it, and `UpdatedTokensAt`, `UpdatedTokensToString` and `UpdatedTokensConsistent` are about it |
| Utils.TokensToStringConcat | packages/rich-input-core/src/utils.ts:20-30 | serialising two sequences one after the other is serialising each and concatenating the strings |
| Utils.TokenIdsDistinct | packages/rich-input-core/src/utils.ts:39-41 | the abstraction of ids loses nothing: two ids are equal exactly when both their kinds and their indices are equal |
| Parser.ParsedIdsDistinct | packages/rich-input-core/src/utils.ts:39-41 | in a parse, token `k` carries index `k` in its id (the parser passes `tokens.length`, `index.ts:60-119`), so no two tokens of a parse have the same id |
| Utils.TiledOrdered | packages/rich-input-core/src/types.ts:7-12 | in a gapless sequence where no token has a negative length, every token lies inside `0 .. n-1` and each ends before any later one starts |
| Utils.ConsistentTextLength | packages/rich-input-core/src/types.ts:14-22 | the labels of a consistent sequence add up to exactly the number of characters it covers |
| Utils.CompleteTokensToString | packages/rich-input-core/src/utils.ts:20-30 | with no incomplete argument, serialising well-shaped tokens gives exactly their labels concatenated |
| Utils.SerializedLabel | packages/rich-input-core/src/utils.ts:25-29 | a well-shaped token serialises to its label, followed by the end delimiter exactly when it is an incomplete argument |
| Utils.LastOpenTokensToString | packages/rich-input-core/src/utils.ts:20-30 | when only the last token may be incomplete, serialisation gives the labels, followed by the end delimiter exactly when the last token is an incomplete argument |
| Utils.ComputeCurrentToken | packages/rich-input-core/src/utils.ts:52-73 | a selected range gives nothing. Otherwise the result is the first token whose span, extended by one past its end, holds the caret, together with its index. When no token holds the caret, there is no result |
| Utils.CaretCoveredIffInRange | packages/rich-input-core/src/utils.ts:62-72 | on a non-empty gapless sequence covering `n` characters, some token holds the caret exactly when the caret is in `0 .. n` |
| Utils.CurrentTokenPrecedesCaret | packages/rich-input-core/src/utils.ts:67 | on a gapless sequence of non-empty tokens, the current token is the first one when the caret is at 0, and otherwise the one holding the character just before the caret |
| Utils.UpdateToken | packages/rich-input-core/src/utils.ts:233-305 | the new token has the new value. Literals stay literals with their id. Arguments and incomplete arguments become arguments. An incomplete argument gets the Argument id of its index, and its raw value gains the end delimiter. The new label is the new value for a literal and `start + value + end` otherwise, and an argument's raw value is `start + value + end`, whatever the old token. The start stays. The end moves by `positionDiff`, which is the change in value length plus the end delimiter's length for an incomplete argument. A well-shaped token stays well shaped |
| Utils.CloneTokens | packages/rich-input-core/src/utils.ts:158-160 | a new array holding the same tokens |
| Utils.UpdateTokens | packages/rich-input-core/src/utils.ts:89-121 | no result for an index past the end. Otherwise a sequence of the same length in which: the tokens before the index are unchanged; the token at the index is the updated one; every later token is moved by `positionDiff` |
| Utils.TokensToStringShifted | packages/rich-input-core/src/utils.ts:115-118 | moving tokens does not change their serialisation |
| Utils.UpdatedTokensToString | packages/rich-input-core/src/utils.ts:89-121 | after an update, the serialisation is the old one with only that token's text replaced: the new value for a literal, the value between the delimiters otherwise |
| Utils.UpdatedTokensAt | packages/rich-input-core/src/utils.ts:109-118 | where each token of the updated sequence comes from: unchanged before the index, updated at it, moved after it |
| Utils.UpdatedTokensConsistent | packages/rich-input-core/src/utils.ts:89-121 | updating a token of a consistent sequence gives a consistent sequence. With the same delimiters, its covered length has changed by exactly `positionDiff` |
| Utils.ShiftedConsistent | packages/rich-input-core/src/utils.ts:113-118 | take a consistent sequence. Replace one token by a well-shaped token with the same start whose end moved by `diff`, and move every later token by `diff`. The result stays consistent over `n + diff` characters |
| Utils.ShiftedTiled | packages/rich-input-core/src/utils.ts:113-118 | the same replacement keeps the sequence gapless over `n + diff` characters |
| Utils.ShiftWellShaped | packages/rich-input-core/src/utils.ts:116-117 | moving a well-shaped token keeps it well shaped |
| Utils.CreateToken | packages/rich-input-core/src/utils.ts:166-224 | the new token has the requested kind and value, the id of the next index, and starts right after the last token, or at 0. It is well shaped: a literal's label is its value, an argument's is `start + value + end`, an incomplete argument's is `start + value`, and its span is as long as its label |
| Utils.AppendToTokens | packages/rich-input-core/src/utils.ts:134-150 | the old tokens unchanged, followed by exactly one created token |
| Utils.AppendedConsistent | packages/rich-input-core/src/utils.ts:166-224 | appending a created token to a consistent sequence keeps it consistent. The covered length grows by the new token's label length |
| Utils.AppendedTokensToString | packages/rich-input-core/src/utils.ts:134-150 | appending adds the new token's text to the serialisation: the value for a literal, the value between the delimiters otherwise |
| Parser.Substring | packages/rich-input-core/src/index.ts:57 | `substring` with bounds inside the string and in order is the slice between them |
| Parser.LiteralSpanChars | packages/rich-input-core/src/index.ts:45-71 | a literal window is exactly a window in which no character is the start delimiter |
| Parser.StaysOpenDepths | packages/rich-input-core/src/index.ts:73-98 | a window stays open exactly when the nesting depth after each of its non-empty prefixes is positive |
| Parser.TemplateParser.constructor | packages/rich-input-core/src/index.ts:16-22 | the parser keeps the two delimiters it is given |
| Parser.TemplateParser.Parse | packages/rich-input-core/src/index.ts:28-133 | the loop computes `ParsedTokens`. An empty template gives no tokens. The tokens tile the template, and each is a span of the template of its kind's shape, with the id of its index. Only the last may be incomplete. No two literals are adjacent. The labels spell the template. Serialising gives the template, with the end delimiter added after an open last argument. A start delimiter that is not one character long gives a single literal |
| Parser.ScanNext | packages/rich-input-core/src/index.ts:43-99 | the state after one character, by the four branches of the loop body: flush a literal and open an argument, deepen, close an argument, or absorb the character. The new `offset` lies between the old one and one past the index. The step lemmas show that each branch keeps `ScanInvariant` |
| Parser.Run | packages/rich-input-core/src/index.ts:42-100 | the state after the rest of the loop, from a given state and index, and its `offset` lies within the template. `RunInvariant` keeps the invariant along it, and `Parse`'s loop is proved to compute it |
| Parser.Finished | packages/rich-input-core/src/index.ts:102-130 | no contract: after the loop, pending text becomes an incomplete argument at a positive depth and a literal otherwise; with nothing pending the tokens are unchanged. `FinishIncomplete`, `FinishLiteral` and `FinishEmpty` show that each case gives a parse |
| Parser.ParsedTokens | packages/rich-input-core/src/index.ts:28-133 | no contract: the scan run over the whole template from the initial state, then finished. `ParsedTokensOutcome` and `ParsedTokensProperties` state what it is, and `Parse` is proved to return it |
| Parser.ParseOneOpen | packages/rich-input-core/src/index.ts:105-117 | `one:` with delimiters `:` and ` ` parses to the literal `one` followed by an incomplete argument `:` with an empty value. The incomplete argument's id is built from the `Literal` kind at index 1, and so differs from the id built from the `IncompleteArgument` kind |
| Parser.OneOpenOutcome | packages/rich-input-core/tests/index.test.ts:34-58 | the literal `one` at 0..2 and the incomplete argument `:` at 3..3 are a parse of `one:`, the tokens this test expects |
| Parser.ParsedTokensProperties | packages/rich-input-core/src/index.ts:28-133 | the same properties for the function `ParsedTokens`. In addition, its ids are pairwise distinct, and every sequence that is a parse of the template equals it |
| Parser.ParsedTokensOutcome | packages/rich-input-core/src/index.ts:28-133 | running the scan to the end and emitting the pending text gives a parse of the template |
| Parser.ScanStart | packages/rich-input-core/src/index.ts:29-37 | the scan invariant holds before the first character |
| Parser.RunInvariant | packages/rich-input-core/src/index.ts:42-100 | a run of the loop from a state that satisfies the scan invariant ends in one that satisfies it |
| Parser.ScanStep | packages/rich-input-core/src/index.ts:42-100 | reading one more character keeps the scan invariant |
| Parser.StepFlushLiteral | packages/rich-input-core/src/index.ts:45-73 | a start delimiter outside an argument, with text pending, emits that text as a literal and opens a new argument at depth 1, keeping the invariant |
| Parser.StepDeepen | packages/rich-input-core/src/index.ts:45-73 | otherwise a start delimiter only deepens the nesting, keeping the invariant |
| Parser.StepCloseArgument | packages/rich-input-core/src/index.ts:74-99 | an end delimiter at depth 1 emits the pending argument, keeping the invariant |
| Parser.CloseArgument | packages/rich-input-core/src/index.ts:76-96 | closing at depth 1 appends an argument token whose raw value is the window with both delimiters. After it nothing is pending, at depth 0 |
| Parser.ClosedArgumentParsed | packages/rich-input-core/src/index.ts:78-93 | the text closed by an end delimiter at depth 1 is a well-formed argument token of the template |
| Parser.StepAbsorb | packages/rich-input-core/src/index.ts:74-99 | any other character joins the pending text, and an end delimiter not at depth 1 lowers the nesting. Either way the invariant is kept |
| Parser.ScanOpenAt | packages/rich-input-core/src/index.ts:70-73 | right after a flushed literal, the pending text is the start delimiter just read, at depth 1 |
| Parser.ScanAtBoundary | packages/rich-input-core/src/index.ts:95 | right after a closed argument nothing is pending |
| Parser.LiteralParsed | packages/rich-input-core/src/index.ts:57-68 | pending literal text becomes a literal token whose value and label are the text and whose span is the window |
| Parser.ArgumentParsed | packages/rich-input-core/src/index.ts:80-93 | a closed argument window becomes an argument token. Its raw value and label are the window, and its value is the window without the two delimiters |
| Parser.IncompleteParsed | packages/rich-input-core/src/index.ts:105-117 | a window open up to the end of the template becomes an incomplete argument. Its raw value and label are the window, and its value is the window without the start delimiter |
| Parser.FinishIncomplete | packages/rich-input-core/src/index.ts:102-117 | pending text at a positive depth at the end becomes a final incomplete argument, and the tokens are then a parse |
| Parser.FinishLiteral | packages/rich-input-core/src/index.ts:102-130 | pending text at depth 0 or below becomes a final literal, and the tokens are then a parse |
| Parser.FinishEmpty | packages/rich-input-core/src/index.ts:102 | with nothing pending at the end, the emitted tokens are already a parse |
| Parser.FinishWith | packages/rich-input-core/src/index.ts:129 | pushing a last parsed token that reaches the end of the template onto the emitted tokens gives a parse |
| Parser.EmittedAt | packages/rich-input-core/src/index.ts:59-93 | each emitted token is parsed from its span and complete, starts where its predecessor ends (the first at 0), and is not a second literal in a row |
| Parser.PushScanned | packages/rich-input-core/src/index.ts:59-93 | appending a parsed token where the tiling ends extends the tiling and keeps every token parsed with no adjacent literals |
| Parser.TiledSpellsTemplate | packages/rich-input-core/src/index.ts:57-110 | gapless spans whose labels are the spanned text spell the template's prefix |
| Parser.TiledSpellsSuffix | packages/rich-input-core/src/index.ts:57-110 | the tokens from any position on spell the template from where that token starts to where the tiling ends |
| Parser.ParsedWellShaped | packages/rich-input-core/src/index.ts:57-127 | every parsed token is well shaped, the shape the update and append utilities keep |
| Parser.ParseConsistent | packages/rich-input-core/src/index.ts:28-133 | a parse is consistent over the template's length |
| Parser.ParseText | packages/rich-input-core/src/index.ts:28-133 | the labels of a parse spell the template |
| Parser.ParseTokensToString | packages/rich-input-core/src/utils.ts:20-30 | serialising a parse gives the template, followed by the end delimiter exactly when the last token is an incomplete argument |
| Parser.ParseSingleLiteral | packages/rich-input-core/src/index.ts:45 | with a start delimiter that is not one character long, a non-empty template parses to one literal spanning it |
| Parser.ParseOutcomeProperties | packages/rich-input-core/src/index.ts:28-133 | a parse is consistent and spells the template. Its serialisation is the template, closed when the last argument is open. With a long start delimiter a non-empty template is one literal |
| Parser.ParseDelimited | packages/rich-input-core/src/index.ts:45-73 | in a parse, a literal is followed by a start delimiter or the end of the template, and an incomplete argument reaches the end |
| Parser.ArgumentCloses | packages/rich-input-core/src/index.ts:74-99 | once an argument window has closed, the text from its start to the end of the template is not an open window |
| Parser.ArgumentEnd | packages/rich-input-core/src/index.ts:76-96 | an argument starting at a given offset can end in only one place: where the depth first returns to 0 |
| Parser.LiteralEnd | packages/rich-input-core/src/index.ts:45-71 | a literal starting at a given offset and followed by a start delimiter or the end can end in only one place |
| Parser.WrappedValue | packages/rich-input-core/src/index.ts:80-93 | the value between two given delimiters is determined by the raw value |
| Parser.PrefixedValue | packages/rich-input-core/src/index.ts:105-117 | the value after a given start delimiter is determined by the raw value |
| Parser.SameParsedToken | packages/rich-input-core/src/index.ts:45-117 | two tokens parsed at the same index and start, each delimited as a parse requires, are the same token |
| Parser.ParsePrefixesAgree | packages/rich-input-core/src/index.ts:28-133 | two parses of the same template agree token by token on their common length |
| Parser.ParsePrefixEnd | packages/rich-input-core/src/index.ts:28-133 | the first `k` tokens of a parse reach the end of the template exactly when they are all of it |
| Parser.ParseOutcomeUnique | packages/rich-input-core/src/index.ts:28-133 | a template and its delimiters determine their parse: two sequences that are both parses of it are equal |


## Left out

- Token ids are kept abstract as the pair (kind, index) that `getTemplateTokenId` formats into a string (`utils.ts:39-41`). The string format itself is not modelled.
- Default delimiters: `./const` is not part of this model. Every operation takes both delimiters as parameters, and the constructor takes them as arguments.
- Indices are natural numbers. `Array.prototype.at` with a negative index, which counts from the end in `updateTokens` (`utils.ts:95`), is not modelled. Neither are non-integer indices.
- `Utils.UpdateToken`: the `default: return null` branch (`utils.ts:302-303`) cannot be reached, because the match on the three kinds is exhaustive. The model therefore has no `null` result there, and no second `null` check in `updateTokens` (`utils.ts:105-107`).
- `Utils.CloneTokens` and `Utils.UpdateTokens` copy token values into a fresh Dafny array, which the loop then changes in place. JavaScript object identity and aliasing between the old and new sequences are not modelled. Tokens are values, so the argument sequence cannot change.
- `Utils.AppendToTokens` returns a sequence value instead of pushing onto the cloned array.
- Strings are sequences of `char`. The source works on UTF-16 code units, and `template[index]` reads one of them; the model makes no claim about surrogate pairs or other encoding detail.
- `Utils.UpdatedTokensConsistent` and `Utils.AppendedConsistent` assume the sequence was made with the same delimiters that the update or append uses. The source does not check this, and the model states nothing when the delimiters differ.
- The React packages (`packages/use-rich-input-react`) and the example applications are not part of this model. They are the UI around the core: DOM input, overlays, debouncing and cursor tracking.
