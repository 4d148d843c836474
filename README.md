# apidoc2blue in Dafny

A model of `apidoc2blue.js`, the converter from apidoc's JSON output (one
project description and a list of endpoint descriptions) to a single API
Blueprint document. The converter is a set of pure renderers that build
text; the model keeps that form. Each renderer is a Dafny function over
datatypes. The lemmas say how the text each renderer produces is laid out,
in what order its parts appear, and which renderings can be undone.

Modules:

- `Wrappers` holds `Option`, which stands for a JavaScript property that may be absent.
- `Text` holds the string and array built-ins the converter uses: `join`,
  `split` on one character, `repeat`, ASCII `toUpperCase`/`toLowerCase`, and
  `replace` with a one-character string pattern. Each comes with its laws,
  such as splitting and joining being inverse.
- `Patterns` writes out the three regular expressions as functions over
  characters: `/^\/\w?/`, `/(:\w+)$/` and the global `/\w+\s+/g`.
- `Apidoc2Blue` holds the input records and the renderers: `toBlue`,
  `parseBlue`, `parseProject`, `parseTitle`, `parseParameter`,
  `parseResponse`, `parseResItem`, `parseAttributes`, `getType`,
  `parseExample` and `fillStr`.

Points of the code worth stating:

- A field `data.user.id` has three segments. It is indented by
  `'    '.repeat(3 + 1)`, which is 16 blanks.
  `AttributeLineNested` states the 16.
- `item.field.replace(':', '')` removes the first colon wherever it stands,
  not only a leading one. `ParameterNameExample` turns `a:b:c` into `ab:c`.
- The default-value line appears only when `defaultValue` is truthy. An
  empty default value adds nothing.
- `/^\/\w?/` holds exactly when the url starts with `/`, because `\w?` may
  match nothing.

## Model

| member | source | states |
|---|---|---|
| Apidoc2Blue.ToBlueLayout | apidoc2blue.js:3-10 | the document is `FORMAT: 1A`, a blank line, the preamble, a blank line, then every endpoint section followed by a blank line, in input order; a missing endpoint list gives no sections |
| Apidoc2Blue.ToBlueAppend | apidoc2blue.js:5-8 | one more endpoint adds exactly its section and a blank line at the end of the document |
| Apidoc2Blue.ToBlueOrder | apidoc2blue.js:5-8 | the section of endpoint `k` comes after the document built from the endpoints before it and before the sections of the endpoints after it |
| Apidoc2Blue.ToBlueEmpty | apidoc2blue.js:3-10 | without project and endpoints the document is `FORMAT: 1A` followed by two empty pieces separated by blank lines |
| Apidoc2Blue.AppendSectionsConcat | apidoc2blue.js:5-8 | the `reduce` of `toBlue` adds each section and a blank line to its start value, in order |
| Apidoc2Blue.TerminatedSplit | apidoc2blue.js:5-8 | every section stands between the sections before it and those after it, each followed by a blank line |
| Apidoc2Blue.ParseBlueLayout | apidoc2blue.js:12-18 | an endpoint renders as title block, parameter block and response block in that order, separated by blank lines, even when the response block is empty |
| Apidoc2Blue.ParseProjectLayout | apidoc2blue.js:20-28 | no project gives the empty text; otherwise host line, `# title`, description, header block and footer block in that order, separated by blank lines, absent blocks staying as empty pieces |
| Apidoc2Blue.BlockTextPresent | apidoc2blue.js:25-26 | a header or footer block is empty exactly when it is absent, and starts with `## ` when present |
| Apidoc2Blue.ParseTitleHeading | apidoc2blue.js:30-41 | the heading is `# `, the upper-cased method, a blank and a path starting with `/`, then a blank line; title and description follow with nothing between them |
| Apidoc2Blue.TitlePathSpec | apidoc2blue.js:32-37 | the path always starts with `/`; a trailing `:name` of the slashed url becomes `{name}` and a slashed url without one is kept unchanged |
| Apidoc2Blue.ParseTitleExample | apidoc2blue.js:30-41 | `get` on `user/:id` without title and description renders `# GET /user/{id}` and a blank line |
| Apidoc2Blue.InteriorParamKept | apidoc2blue.js:34-37 | a url starting with `/` is kept as it is up to any non-word character, so a `:name` with more path after it stays as it is |
| Patterns.WithLeadingSlash | apidoc2blue.js:32 | the path starts with `/`; a url that already does is kept, any other gets one `/` in front |
| Patterns.RewriteTrailingParam | apidoc2blue.js:34-37 | where `(:\w+)$` matches at `i`, the colon is replaced by `{` and `}` closes the text; with no match the text is unchanged; the first character is kept unless it is the colon |
| Patterns.ParamAtUnique | apidoc2blue.js:34 | the trailing-parameter pattern matches at no more than one position |
| Text.RemoveFirstSpec | apidoc2blue.js:35 | `replace(c, '')` with a string pattern leaves a text without `c` unchanged and otherwise removes exactly the first `c` |
| Apidoc2Blue.ParseParameterHeader | apidoc2blue.js:44-55 | the parameter block starts with `+ Parameters` and a line break, and is only that when there are no parameters |
| Apidoc2Blue.ParseParameterAppend | apidoc2blue.js:48-54 | one more parameter adds a line break and its item at the end of the block |
| Apidoc2Blue.ParseParameterLines | apidoc2blue.js:44-55 | with single-line items the block's lines are `+ Parameters`, an empty line, then one line per parameter in input order |
| Apidoc2Blue.OptionalMarkerIff | apidoc2blue.js:51 | right after the type the item holds `, optional) ` exactly when the parameter is optional, and `) ... ` otherwise |
| Apidoc2Blue.ItemName | apidoc2blue.js:51 | the item names the field with its first colon removed, wherever that colon stands, followed by ` (` |
| Apidoc2Blue.ParameterNameExample | apidoc2blue.js:51 | `:id` becomes `id`, and `a:b:c` becomes `ab:c` |
| Apidoc2Blue.DefaultNoteIff | apidoc2blue.js:50-51 | with line-free texts, an item spans two lines exactly when it has a non-empty default value |
| Apidoc2Blue.ParseResponseOrder | apidoc2blue.js:58-63 | the success rendering comes before the error rendering, separated by a blank line; an absent one leaves nothing behind, and both absent give the empty text |
| Apidoc2Blue.ResponsePartsAt | apidoc2blue.js:67-72 | group `k` contributes the parts `2k` (its `+ Response` heading) and `2k + 1` (its attributes block), in key order |
| Apidoc2Blue.ParseResItemLayout | apidoc2blue.js:65-75 | every response ends with a blank line and the example block; without groups it is only that; otherwise it starts with the first group's heading |
| Apidoc2Blue.ResponseHeadingClean | apidoc2blue.js:68 | a response heading starts with `+ Response `, ends with a line break, and no word character in its label is followed by white space |
| Apidoc2Blue.ResItemStatusLabel | apidoc2blue.js:68 | a first group keyed `200 OK` is headed `+ Response OK` |
| Patterns.StripLeavesNoMatch | apidoc2blue.js:68 | after the global `\w+\s+` replacement the pattern matches nowhere in the result |
| Patterns.StripKeepsClean | apidoc2blue.js:68 | a label in which the pattern matches nowhere is left unchanged |
| Patterns.StripKeepsCleanPrefix | apidoc2blue.js:68 | text in which no match starts, and which does not end in a word character, is kept as it is in front of whatever the rest of the label becomes |
| Patterns.StripDropsLeadingMatch | apidoc2blue.js:68 | a match at the front is dropped whole: the word run and all the white space after it, including white space the rest opens with, and nothing more |
| Patterns.StripOneMatch | apidoc2blue.js:68 | clean text, then a word run and white space, then the rest: the clean text is kept, the match is dropped, and the rest is cleaned after its leading white space |
| Patterns.StripIdempotent | apidoc2blue.js:68 | cleaning a label twice gives the same as cleaning it once |
| Patterns.StripStatusLabel | apidoc2blue.js:68 | `200 OK` becomes `OK` |
| Apidoc2Blue.LastSegmentSpec | apidoc2blue.js:79-80 | the name of a field is the part of the path after its last dot, or the whole path when there is no dot |
| Apidoc2Blue.AttributeLineLayout | apidoc2blue.js:79-82 | an attribute line is indented by four blanks for every path segment plus four, then `+ `, the last segment, the normalised type in brackets, ` - ` and the description |
| Apidoc2Blue.AttributeLineNested | apidoc2blue.js:79-82 | a field two levels deep, such as `data.user.id`, is indented by 16 blanks and named by its last segment |
| Apidoc2Blue.AttributeLineSingle | apidoc2blue.js:78-82 | a field whose texts have no line break renders as a single line |
| Apidoc2Blue.ParseAttributesLines | apidoc2blue.js:77-84 | no fields give the empty text; with line-free fields the block has one line per field, in input order |
| Apidoc2Blue.GetTypeNormalForm | apidoc2blue.js:86-99 | an absent type gives the empty text; otherwise the result is the lower-cased token exactly when the table does not rename it, and `number`, `boolean` or `string` when it does; the result is lower-case and never a key of the table |
| Apidoc2Blue.TableValues | apidoc2blue.js:88-97 | every new name in the table is a lower-case word different from its key and is not a key itself |
| Apidoc2Blue.GetTypeIdempotent | apidoc2blue.js:86-99 | normalising an already normalised type changes nothing |
| Apidoc2Blue.GetTypeKeepsPlainTokens | apidoc2blue.js:98 | a lower-case token outside the table is its own type |
| Apidoc2Blue.GetTypeIgnoresCase | apidoc2blue.js:87-98 | the lookup ignores case: a token gives the same type as its lower-cased form |
| Apidoc2Blue.GetTypeRenames | apidoc2blue.js:87-98 | `Integer` becomes `number` |
| Apidoc2Blue.GetTypePassesThrough | apidoc2blue.js:87-98 | a token outside the table passes through lower-cased: `Object` becomes `object` |
| Apidoc2Blue.GetTypeConstructor | apidoc2blue.js:86-99 | with the lookup limited to the table's own keys, `constructor` passes through unchanged |
| Apidoc2Blue.GetTypeAsWritten | apidoc2blue.js:86-99 | the lookup as written agrees with the corrected one on every token whose lower-case form is neither a table key nor an inherited property name |
| Apidoc2Blue.GetTypeAsWrittenConstructor | apidoc2blue.js:98 | as written, the type `constructor` renders as the source text of JavaScript's `Object` function |
| Apidoc2Blue.GetTypeAsWrittenNotIdempotent | apidoc2blue.js:98 | as written, normalising the type `constructor` twice differs from normalising it once |
| Apidoc2Blue.ParseExampleHeader | apidoc2blue.js:101-110 | the example block starts with `    + Body` and a line break, and is only that when there are no examples |
| Apidoc2Blue.ParseExampleAppend | apidoc2blue.js:105-109 | one more example adds a line break and its padded content at the end of the block |
| Apidoc2Blue.FillStrLines | apidoc2blue.js:112-120 | when the padding unit holds no line break, the padded text has the content's lines in order, each with the padding in front |
| Apidoc2Blue.FillStrPadding | apidoc2blue.js:106 | in an example block every line of the content starts with eight blanks, followed by that line |
| Apidoc2Blue.FillStrRoundTrip | apidoc2blue.js:106 | removing eight characters from the front of every line of an example block gives back the example content |
| Text.SplitCount | apidoc2blue.js:79 | `split` on one character gives one piece more than there are occurrences of the separator |
| Text.SplitPieces | apidoc2blue.js:79 | no piece of a `split` holds the separator |
| Text.JoinSplit | apidoc2blue.js:113-118 | joining the pieces of a split with the separator gives back the text |
| Text.SplitJoin | apidoc2blue.js:113-118 | splitting a join of separator-free parts gives back the parts |
| Text.RepeatBlank | apidoc2blue.js:81 | repeating a text of blanks `n` times gives `n` times as many blanks |
| Text.LowerIdempotent | apidoc2blue.js:87 | lower-casing twice gives the same as lower-casing once |
| Text.LowerKeepsOut | apidoc2blue.js:49 | lower-casing neither adds nor removes a character that is not a letter, such as a line break |

## Left out

- The coercion of a missing property to the text `undefined` inside a template literal. This happens to the project's `title`, `description` and `url` (apidoc2blue.js:22-24), a header or footer block's `title` and `content` (25-26), the `description` of a parameter (51) and of an attribute (82), and the endpoint `url`, which becomes `/undefined` (32). The model types these as `string`, which rules the missing case out. Properties the code tests for truthiness are `Option`s, except a parameter's `optional`, a `bool` in which an absent property reads as `false`.
- The TypeError a missing property throws. This happens to the endpoint `type` at `apiObj.type.toUpperCase()` (apidoc2blue.js:31), and to the `field` of a parameter at `item.field.replace` (51) and of an attribute at `item.field.split` (79). The model types these as `string`, which rules the missing case out.
- Properties with values of the wrong type: a non-string `type` or `defaultValue`, a non-array `fields` group, examples without `content`. The JavaScript would throw or coerce, and the model's types rule these inputs out.
- Case mapping outside ASCII. `Upper` and `Lower` change only `a`-`z` and `A`-`Z`, while JavaScript's `toUpperCase` also maps other letters (`ß` becomes `SS`, which even changes the length).
- The order of `Object.keys`. Response groups are an ordered sequence, taken as the order the keys come in. JavaScript puts integer-like keys first in ascending order. Duplicate keys, which an object cannot have, are not excluded.
- The general regular-expression engine. Only the three patterns the converter uses are written out. `\w` is ASCII and `\s` is JavaScript's white-space set without the `u` flag.
- Object.prototype properties other than `constructor` and `__proto__` in the as-written `getType`. Every other inherited name contains an upper-case letter, so a lower-cased token cannot reach it.
- The module export at apidoc2blue.js:122-124.
- AttributeLine: renders the type through the corrected `GetType`, not `GetTypeAsWritten`, so `ParseAttributes`, `ParseResItem` and `ToBlue` inherit the correction. For a field of type `constructor` (any case) the program writes `(function Object() { [native code] })` and the model `(constructor)`; for `__proto__` the program writes `([object Object])` and the model `(__proto__)`. `GetTypeAsWritten` models the program's lookup on its own.

## Findings

| source | as written | input that shows it | evidently intended | confidence | as-written member | corrected member |
|---|---|---|---|---|---|---|
| apidoc2blue.js:88-98 | the lookup `map[lower]` reads an object literal, so it also finds the properties inherited from `Object.prototype` | a field of type `constructor` (any case) renders as `(function Object() { [native code] })`; `__proto__` renders as `([object Object])` | only the eight listed keys are renamed, and every other token passes through lower-cased, so normalising twice is normalising once | medium, not executed | Apidoc2Blue.GetTypeAsWrittenNotIdempotent | Apidoc2Blue.GetTypeIdempotent |
