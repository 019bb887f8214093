# Plumage template parser, in Dafny

This project models the template parser of Plumage (`src/parser.ts`). The parser
turns a tagged-template call into a tree of `{name, attributes?, children?}` nodes.
The call is given as the template's literal fragments plus the values between them.
The parser works in three stages:

1. **The `converter`** is a character-level state machine. Its flags are `inTag`,
   `inAttributeValue` and `inComment`. It also keeps the last character seen
   (`previous`), a text buffer (`result`) and an output list (`tags`). It turns the
   literals and values into a flat list of tokens: tags, HTML comments, trimmed text,
   and values mapped by `mapTaggedValue`.
2. **`nestNodeArray`** reads that list from right to left. It keeps a stack of
   expected closing-tag names and folds each matched element into a nested list.
3. **`mapArrayToNode`** turns the nested lists into nodes. It uses
   `mapHtmlTagToArray` (with `extractAttributeValue`) to read a tag's name and
   attributes.

The string predicates are also modelled: `isCharWhitespace`, `isWhitespace`,
`isHtmlComment`, `isHtmlTag` and `isInterpolationValue`. So are `parseTagName`,
`escapeHtml`, and `getParser` with its default (identity) callback.

Each module's form follows the source:

- The converter is a `class Converter` whose fields are the source's fields. Its
  operations (`closeComment`, `closeTag`, `openComment`, `openTag`, `processChar`,
  `reset`, `convert`) are methods. Each method is proved against a step function on a
  `State` value.
- `nestNodeArray`, `mapArrayToNode` and `mapHtmlTagToArray` are methods with the
  source's loops. Each is proved equal to a specification function: `Nest`, `ToNode`
  and `TagMap`. Lemmas then state what those functions mean.
- The predicates, `parseTagName`, `extractAttributeValue`, `mapTaggedValue` and
  `escapeHtml` are functions.

JavaScript string built-ins get exact definitions in module `JsText`. These are
`indexOf`, `lastIndexOf`, `slice`, `split`/`join`, `trim`, the `\s` character class
and the `/\s+/g` collapse.

The model follows the code as written, including these behaviours:

- Buffered text is emitted only when a `<` arrives. A value pushed at the end of a
  literal therefore comes before text still in the buffer
  (`Converter.ValueBeforeBufferedText`).
- The `//` test is not guarded by `inAttributeValue`. So `<a h="//">` opens a line
  comment that swallows the rest of the tag (`Parser.SlashesInQuotedValueFails`).
- `closeComment` drops the whole buffer, including text written before the `//`.
- `reset` leaves `previous` alone. The converter is one object shared by every call,
  so a `/` that ended the previous template makes a leading `/` open a comment
  (`Parser.CarriedSlash`, `Parser.BlankSlash`).
- A literal that ends inside a line comment consumes no value. The value goes after
  the next literal instead (`Converter.ValueSkippedInComment`).
- Attribute names are looked up with `in`, which also sees the names every object
  inherits (`toString`, `constructor`, …). Such a name in a tag is therefore reported
  as a duplicate (`Attributes.HasAttribute`).
- `parseTagName`'s pattern ends in `.*`, which stops at a line terminator. For a tag
  that spans several lines, the name keeps everything from the first line break on
  (`Classify.ParseMultiLineTagName`).
- Whitespace-only children are kept (src/parser.ts:187-188), and the model keeps
  them.
- `openTag` is tried before the comment flag (src/parser.ts:59-61). A `<` inside a
  line comment therefore still opens a tag. The text buffered before it, the first
  `/` included, is emitted, and the skipped tag becomes the token `<>`. So
  `<p>// <b>` followed by a line feed and `</p>` is `<p>` with the text children `/`
  and `<>` (`Parser.TagInLineComment`, `Parser.TagInLineCommentExample`).
- A value interpolated inside a quoted attribute value is not that attribute's value.
  At the end of the literal the tag is still in the buffer, so the value is pushed
  first as a separate token (src/parser.ts:79-82). In the next literal the closing
  `"` follows a `"`, not a `=`, so the value closes empty (src/parser.ts:118-120).
  The example beside `getParser` (src/parser.ts:373-408) promises that
  `<input name="artist" value="${record.artist}">` gets the value `'Bill Evans'`.
  The code instead makes `Bill Evans` a text child of `fieldset` before the `input`,
  and `input`'s `value` is empty (`Parser.ValueBeforeTag`,
  `Parser.ValueBeforeTagExample`).
- The source sometimes calls a string method on something that is not a string, and
  that raises a `TypeError`. The model reports it as the error `NotAString`. This
  happens for an empty token list and for a value marker in the first position. A
  nested list in the first position is different, because arrays have `indexOf`,
  `lastIndexOf` and `length`. If it "is a comment" or has fewer than three entries,
  `isHtmlTag` returns false, and the root-element `SyntaxError` follows
  (`RootNotElement`). Only a longer nested list reaches the missing `charAt` and
  gives `NotAString` (`Assembler.NonStringRoot`). So `<a></a><b></b>` fails with
  `RootNotElement`.

## Model

| member | source | states |
|---|---|---|
| Classify.IsWhitespace | src/parser.ts:460-462 | the single-character fast path together with `/^\s+$/` accepts exactly the strings made only of `\s` characters, the empty string included |
| Classify.IsHtmlCommentIff | src/parser.ts:425-427 | a string is a comment iff it starts with `<!--` and ends with `-->` (the two may overlap, as in `<!-->`) |
| Classify.NotCommentWithoutBang | src/parser.ts:425-427 | a string whose second character is not `!` is never a comment |
| Classify.IsHtmlTagIff | src/parser.ts:439-442 | a string is a tag iff it is at least three long, starts with `<`, ends with `>`, has no space, tab or line feed after `<`, and is not a comment |
| Classify.IsHtmlTagRejects | tests/unit/parser.ts:14-22 | `""`, `"<>"`, `"div"`, `"<div"`, `"div>"`, `"< div>"`, `"<\ndiv>"` and `"<\tdiv>"` are not tags |
| Classify.IsHtmlTagAccepts | tests/unit/parser.ts:24-27 | `"<div>"`, `"<random:value>"` and `"<random-value>"` are tags |
| Classify.IsHtmlTagAcceptsAttribute | tests/unit/parser.ts:25 | `"<div class=\"Component-element--modifier\">"` is a tag |
| Classify.IsInterpolationValueIff | src/parser.ts:444-447 | a placeholder is exactly a string that starts with `$[` or `$![` and ends with `]` |
| Classify.ParseClosingTagName | src/parser.ts:308-310 | the name of `</n>` is `n` |
| Classify.ParseOpeningTagName | src/parser.ts:308-310 | the name of `<n` followed by a one-line rest that starts with a `\s` character, `/` or `>` is `n` |
| Classify.ParseMultiLineTagName | src/parser.ts:308-310 | for a tag broken across lines, the result is the name followed by everything from the first line break on |
| Classify.EscapeHtml | src/parser.ts:331-344 | the escaped text contains no `<` and no `>`, and every `&` in it begins `&lt;`, `&gt;` or `&amp;`; with `EscapeHtmlRoundTrip` this fixes the result, so a bare `&` is always escaped |
| Classify.EscapeHtmlRoundTrip | src/parser.ts:331-344 | replacing `&lt;`, `&gt;` and `&amp;` back gives the original text, so every other character is kept in order |
| Classify.EscapeHtmlPlain | src/parser.ts:331-344 | text without `<`, `>` and `&` is returned unchanged |
| Values.MapTaggedValue | src/parser.ts:202-243 | plain strings, numbers and symbols become text; placeholder strings, arrays, functions, `undefined` and other objects become markers of their own kind that hold the original value |
| Values.NumberTextIsPlain | src/parser.ts:213-214 | a number's text is never blank and never a placeholder |
| Values.PlainStringUnchanged | src/parser.ts:203-211 | a string that does not start with `$` is returned as it is |
| JsText.Trim | src/parser.ts:98 | `trim` gives the empty string iff the text is blank; otherwise it gives the slice of the text left after removing a blank prefix and a blank suffix, and that slice has no `\s` at either end |
| JsText.TrimUntouched | src/parser.ts:98 | text with no `\s` at either end is not changed by `trim` |
| JsText.CollapseSpaces | src/parser.ts:490 | after `replace(/\s+/g, ' ')` the only whitespace left is single spaces, never two in a row; removing every `\s` from the result and from the text gives the same string; the result is empty iff the text is, and starts with a space iff the text starts with `\s` |
| JsText.CollapseRun | src/parser.ts:490 | a maximal run of `\s` (one or more characters, with no `\s` just before or after it) becomes exactly one space where the run was, between the collapses of the text on either side |
| JsText.CollapseAppend | src/parser.ts:490 | text that does not end in `\s` collapses independently of what follows it; with `CollapseRun` this determines the collapse of every input |
| JsText.JoinSplit | src/parser.ts:145 | joining `split('=')` with `=` gives back the fragment, so a value holding `=` is rebuilt whole |
| JsText.SplitAtFirst | src/parser.ts:532-533 | the attribute name is the text before the first `=`, and the rest is what follows it |
| Attributes.TagBodyOfTag | src/parser.ts:488-489 | the tag body drops `<` and either `/>` (when the tag ends with it) or `>` |
| Attributes.PiecesJoin | src/parser.ts:498-520 | the pieces split at spaces outside quotes, joined with spaces, give back the collapsed body: the scan loses no character |
| Attributes.ScanStep | src/parser.ts:498-520 | one iteration of the scan keeps `fragments`, `previous` and `current` in step with the pieces of the text read so far |
| Attributes.ScanStateEnd | src/parser.ts:522-523 | pushing the non-empty `previous` and `current` after the loop completes the list of non-empty pieces |
| Attributes.SplitFragments | src/parser.ts:498-523 | the first loop yields exactly the non-empty pieces of the collapsed body, in order |
| Attributes.ExtractAttributeValue | src/parser.ts:136-152 | an empty parts list is an error, and only that is |
| Attributes.AttributeWithoutValue | src/parser.ts:141-143 | a fragment without `=` is a name whose value is `null` |
| Attributes.AttributeWithValue | src/parser.ts:145-151 | `name=value` gives that name, and the value with its first and last characters dropped when it starts with `"`, including any further `=` |
| Attributes.AddAttributesOk | src/parser.ts:531-541 | the attribute loop succeeds iff no name repeats (inherited object names included); otherwise it reports a duplicate |
| Attributes.AddAttributesResult | src/parser.ts:531-541 | on success the map's keys are exactly the fragments' names and each name maps to its fragment's value |
| Attributes.TagMapSpec | src/parser.ts:525-543 | the name is the first fragment; `attributes` is present iff there is a second fragment; the keys and values come from the remaining fragments; the only failure is a duplicate name; there are never children |
| Attributes.PlainTagMap | src/parser.ts:487-544 | a tag `<n>` without spaces is the node named `n` with no attributes |
| Attributes.OneAttributeTagMap | src/parser.ts:487-544 | a tag `<t a="v">` without `\s` in `t`, `a` or `v` is the node `t` whose only attribute `a` has the value `v` |
| Attributes.QuotedValueTagMap | src/parser.ts:498-520 | in `<t a="v">`, spaces and `=` inside the quotes stay in the value: when `v` holds no `"` and is unchanged by the whitespace collapse, the node `t` has the one attribute `a` with the value `v` |
| Attributes.QuotedValueExample | tests/unit/parser.ts:85-91 | `<input value="2 + 2 = 4">` is the node `input` with `value` equal to `2 + 2 = 4` |
| Attributes.MapHtmlTagToArray | src/parser.ts:487-544 | the method's two loops compute `TagMap` |
| Attributes.CollectAttributes | src/parser.ts:531-541 | the loop from the last fragment down to the second computes `AddAttributes`, which fails exactly on a repeated or inherited name |
| Converter.Converter.CloseComment | src/parser.ts:33-36 | leaves comment mode and empties the buffer; nothing else changes |
| Converter.Converter.CloseTag | src/parser.ts:38-44 | pushes the buffer plus the character as one tag, empties the buffer and leaves tag mode |
| Converter.Converter.OpenComment | src/parser.ts:88-90 | enters comment mode; nothing else changes |
| Converter.Converter.OpenTag | src/parser.ts:92-107 | pushes buffered non-blank text trimmed, then starts a tag buffer holding the character |
| Converter.Converter.ProcessChar | src/parser.ts:109-125 | appends the character; in a tag, a `"` after `=` (or after a backslash inside a value) sets the value flag, and a space, tab or line feed straight after `<` ends tag mode |
| Converter.Converter.Reset | src/parser.ts:127-133 | clears the flags, the buffer and the tags, and keeps `previous` |
| Converter.Converter.ScanChar | src/parser.ts:52-77 | one iteration of the character loop: the dispatch to the five operations, then `previous` becomes the character |
| Converter.Converter.Convert | src/parser.ts:46-86 | the returned tokens and the new state are those of `ConvertTokens`/`ConvertState` from the `previous` left by the last call |
| Converter.ValuesConsumed | src/parser.ts:79-82 | each literal consumes at most one value, always the first one left; the number consumed is the number of literals that end outside a line comment, or all the values if there are fewer |
| Converter.TagRun | src/parser.ts:52-77 | inside a tag, characters other than `<`, `>` and `"` (with no `//`) are only buffered |
| Converter.QuotedRun | src/parser.ts:109-125 | inside a quoted value, characters other than `"` (with no `//`) are only buffered |
| Converter.TextRun | src/parser.ts:52-77 | outside tags, text without `<` (and with no `//`) is only buffered |
| Converter.TagToken | src/parser.ts:59-64 | `<body>` after pending text emits that text (trimmed, when not blank) and then the whole tag as one token |
| Converter.QuotedTagToken | src/parser.ts:59-64 | a `>` inside a quoted value does not end the tag; the tag is one token up to the `>` after the closing quote |
| Converter.QuotedPartsRun | src/parser.ts:109-125 | inside a tag, after a `=`, any number of quoted values with plain tag text between them are only buffered, and the value flag is off after each closing quote |
| Converter.QuotedAttributesToken | src/parser.ts:59-64 | a tag with any number of quoted values is emitted, after the pending text, as one token ending at the first `>` outside quotes |
| Converter.InputTagToken | src/parser.ts:59-64 | `<input type="text" name="x">` is one token |
| Converter.ValueOpenAtEnd | src/parser.ts:109-120 | a literal ending in `="` leaves the tag in the buffer with the value flag on |
| Converter.QuoteThenClose | src/parser.ts:118-120 | a `"` right after a `"` closes an open value, and the `>` after it ends the tag |
| Converter.LineCommentDropped | src/parser.ts:65-70 | a line comment holding no `<`, from `//` up to the line feed, is never emitted, and it also drops the buffered text |
| Converter.TagInsideLineComment | src/parser.ts:59-70 | a `<` inside a line comment still opens a tag: the buffered text with the first `/` is emitted, then `<>`, and the line feed ends the comment |
| Converter.CommentRun | src/parser.ts:68-73 | in comment mode, characters other than `<` and line feed change only `previous` |
| Converter.ValueBeforeBufferedText | src/parser.ts:79-82 | for `<p>a${x}</p>` the value `x` comes before the text `a` |
| Converter.CommentClosedThenTag | src/parser.ts:33-36 | the line feed that closes a comment discards the text buffered before the `//` |
| Converter.ValueSkippedInComment | src/parser.ts:79-82 | a literal ending in a line comment consumes no value, so `x` lands after the next literal and `y` is never used |
| Converter.SlashesInQuotedValueTokens | src/parser.ts:65-67 | `<a h="//">` yields no token: the `//` inside the quotes opens a comment that swallows the closing quote and `>` |
| Nester.Nest | src/parser.ts:257-267 | more than one token whose last is not a string starting with `</` is an error, and only that is |
| Nester.NestNodeArray | src/parser.ts:245-306 | the method's reverse loop computes `Nest` |
| Nester.RunFlat | src/parser.ts:269-303 | after the scan, the levels read in order are the tokens without their closing tags |
| Nester.NestKeepsOrder | src/parser.ts:245-306 | the result, flattened, is a suffix of the tokens without closers, in their order, and all of them when every element was closed |
| Nester.RunTree | src/parser.ts:269-303 | the tokens of a well-formed element fold into exactly one nested list headed by its opening tag |
| Nester.NestTree | src/parser.ts:245-306 | a well-formed element's tokens nest to its opening tag followed by the shapes of its body |
| Nester.NestSingle | src/parser.ts:257-267 | a single token is kept as it is, unless it is a closing tag, which is dropped |
| Assembler.ToNode | src/parser.ts:166-200 | a node needs an opening tag first; a non-tag string first is the root-element error; `children` is absent iff the list has one entry |
| Assembler.MapArrayToNode | src/parser.ts:166-200 | the method's loop and recursion compute `ToNode` |
| Assembler.ChildrenOfSpec | src/parser.ts:178-197 | there is one child per entry after the first, in order |
| Assembler.ChildTagHasNoChildren | src/parser.ts:190-193 | a bare opening tag among the entries becomes a node without children |
| Assembler.NotBlankTag | src/parser.ts:187-190 | an opening tag is never taken for blank text |
| Parser.ParseTree | src/parser.ts:410-414 | an unclosed template of more than one token fails with the closing-tag error before any node is built |
| Parser.ParseNodeTree | src/parser.ts:410-414 | converting, nesting and building on the shared converter gives `ParseTree` from the `previous` it held, and leaves the converter's `previous` at the last character read |
| Parser.ParseSingleTag | src/parser.ts:410-414 | a template that converts to one opening tag parses to that tag's node |
| Parser.ParseSingleText | src/parser.ts:410-414 | a template that converts to one non-tag string fails with the root-element error |
| Parser.ParseElement | src/parser.ts:410-414 | a template whose tokens form one well-formed element parses to the node built from its opening tag and body |
| Parser.TextElement | tests/unit/parser.ts:162-169 | `<n>t</n>` parses to the node `n` with the single text child `t` |
| Parser.LineCommentElement | tests/unit/parser.ts:178-183 | `<n>//…` followed by a line feed and `</n>` parses to the node `n` with no children key |
| Parser.InterpolationAloneFails | tests/unit/parser.ts:122-125 | a template made of one plain string value fails with the root-element error |
| Parser.CommentAloneFails | tests/unit/parser.ts:126-128 | a template made of one HTML comment fails with the root-element error |
| Parser.CarriedSlash | src/parser.ts:127-133 | after a call that ended in `/`, the template `/`, line feed, `<n>` parses to the node `n` (the slash opened a comment) |
| Parser.BlankSlash | src/parser.ts:127-133 | on a converter that has seen nothing, the same template fails for want of a closing tag (the slash is text) |
| Parser.SlashesInQuotedValueFails | src/parser.ts:65-67 | `<a h="//">` fails because the node builder gets no first entry |
| Parser.TagInLineComment | src/parser.ts:59-70 | `<n>//pre<m>` followed by a line feed and `</n>` parses to `n` with the text children `/` and `<>` |
| Parser.TagInLineCommentExample | src/parser.ts:59-61 | `<p>// <b>` followed by a line feed and `</p>` parses to `p` with the text children `/` and `<>` |
| Parser.ValueBeforeTag | src/parser.ts:79-82 | in `<n><t a="${s}"></n>`, `s` becomes a text child of `n` before the node `t`, whose attribute `a` is empty |
| Parser.ValueBeforeTagExample | src/parser.ts:373-408 | `<fieldset><input value="${s}"></fieldset>` gives `fieldset` the children `s` and an `input` whose `value` is empty, not `s` |

## Left out

- `src/Plumage.ts` (widgets on DOM nodes, promises) is not part of this model. Neither
  are `src/vdom.ts` (a wrapper over a library that is not visible), the type
  declarations in `src/interfaces.d.ts`, or the build and test-runner configuration.
- Values.MapTaggedValue: numbers are modelled as integers rendered in decimal.
  Floating point and JavaScript's number formatting are left out. A symbol is
  modelled by its description, rendered as `Symbol(…)`.
- Functions and plain objects are compared only by identity, so the model gives them
  an id and nothing more.
- Strings are sequences of Dafny `char`, which are Unicode scalar values, not UTF-16
  code units. A character outside the Basic Multilingual Plane is one `char` here,
  while JavaScript's `length`, `slice` and `charAt` count it as two code units. A lone
  surrogate cannot be represented at all. Positions and lengths therefore differ from
  the source's for text holding such characters. Most results still agree, because
  no surrogate is a character the parser tests for. The exception is code that slices
  by length. `extractAttributeValue` drops the last code unit of a value that starts
  with `"` (src/parser.ts:147-149). When that value ends in such a character, the
  source keeps half of it, a lone surrogate, while the model drops the whole
  character. For example, `<t a=""😀>` gives `"` plus a lone surrogate in the source,
  and `"` in the model.
- Values.MapTaggedValue: `null` and the booleans, which the source maps as `Object`
  (the final `else` branch), are modelled as `JsObject` values with an id.
- `getParser` is modelled with its default identity callback only. Other callbacks
  are arbitrary code.
- Parser.ParseTree: the converter's `previous` carried over from an earlier call is a
  parameter. The shared module-level object is a `Converter` passed to
  `Parser.ParseNodeTree`.
- The order in which attributes were inserted into the map is not kept, because a
  Dafny `map` has no order.
- `mapHtmlTagToArray` throws from `extractAttributeValue` only when `split` returns
  no parts, and `split` never does. That error case exists in
  `Attributes.ExtractAttributeValue` but is unreachable from `Attributes.TagMap`.
- Converter.Converter.Convert: the loop body is the method `ScanChar`, and the first
  loop of `mapHtmlTagToArray` is the method `Attributes.SplitFragments`. These are
  factorings with the same behaviour.
- Parser.ParseTree: its own contract states only the closing-tag error. What it
  computes is stated by `Parser.ParseElement`, `Parser.ParseSingleTag`,
  `Parser.ParseSingleText` and the worked templates beside them.
