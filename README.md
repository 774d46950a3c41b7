# react-component-tagger, modelled in Dafny

The source is a Vite plugin, `vite-plugin-react-component-tagger`. Its `transform` hook
annotates every JSX opening tag in a `.jsx`/`.tsx` module with six
`data-component-*` attributes: the element's offset span, the module's relative path, its
file name, the resolved component name, and the tag's line and column. A browser-side
inspector can then map a rendered DOM node back to its source. This project models that
engine, all of it in `src/index.ts`, and proves its properties:

- `jsx_names.dfy` (module `JsxNames`): the three tag-name shapes and `getComponentName`.
- `annotation.dfy` (module `Annotation`): the six-attribute fragment. It is written
  exactly as the source writes it, and a decoder shows that a consumer reads back the
  record it was written from.
- `rewrite.dfy` (module `Rewrite`): the part of `magic-string` the plugin uses.
  - A `MagicString` class holds the original code and the list of `appendLeft`
    insertions.
  - `toString` is modelled as `Apply`, the original text with every insertion placed at
    its original-text offset. Insertions at the same offset stay in the order they were
    recorded.
- `tagger.dfy` (module `Tagger`): the rest of `transform`.
  - The file gate: `node_modules` and the extension allowlist, with POSIX
    `path.extname`/`path.basename`.
  - The `JSXOpeningElement` visitor, as the method `Visit`.
  - The loop over the tags in document order, as the method `Annotate`.
  - The three outcomes: `undefined` / `null` / rewritten code.
- `strings.dfy`, `wrappers.dfy`: string search, substring test, decimal rendering of
  naturals, split/join, and `Option`.

The Babel parse is an input of the model, `Parsed`: either `SyntaxError`, or the opening
tags in document order. Each tag holds its name and, as `Option<nat>`, its parent's start
and end, its start line and column, and its name's end offset.

The plugin checks the extension and `node_modules` itself (src/index.ts:22-27). It writes
exactly six attributes (src/index.ts:49): one combined `data-component-index="start:end"`
token, then path, file, name, line and column.

## Model

| member | source | states |
|---|---|---|
| `JsxNames.IdentResolvesToText` | src/index.ts:68-69 | an identifier tag name resolves to its own text |
| `JsxNames.NamespacedResolvesToEmpty` | src/index.ts:74 | a namespaced name (`ns:tag`) resolves to the empty string, without failing |
| `JsxNames.ThreePartName` | src/index.ts:70-73 | `<Foo.Bar.Baz>` resolves to `"Foo.Bar.Baz"` |
| `JsxNames.ComponentNameJoinsParts` | src/index.ts:65-75 | a member-expression name resolves to its identifiers, outermost object first, joined with `.`; proved by induction on the object side |
| `JsxNames.SplitComponentName` | src/index.ts:65-75 | when no identifier contains `.`, splitting the resolved name on `.` gives back exactly the identifiers of the name, so the dotted string determines the name |
| `JsxNames.PartsOfDotted` | src/index.ts:70-73 | building a dotted name from identifiers and taking it apart again gives the identifiers back |
| `JsxNames.DottedOfParts` | src/index.ts:70-73 | every name made only of identifiers is the left-nested member chain of its parts |
| `JsxNames.UnresolvableRoot` | src/index.ts:68-74 | a name whose innermost object is not an identifier degrades to `""` or a string starting with `.`, never an error |
| `Strings.Contains` | src/index.ts:23 | `id.includes(t)` holds exactly when `t` occurs in `id` at some index (both directions) |
| `Strings.NatToString` | src/index.ts:40-42 | a location interpolated into a template is a non-empty run of decimal digits, with a leading `0` only for 0 |
| `Strings.ParseNatToString` | src/index.ts:40-42 | reading the rendered digits back gives the number |
| `Annotation.Fragment` | src/index.ts:49 | the inserted text is exactly ` data-component-index="S:E" data-component-path="P" data-component-file="F" data-component-name="N" data-component-line="L" data-component-column="C"`, in this order with one leading space |
| `Annotation.ParseIndexToken` | src/index.ts:40 | the span token `"<start>:<end>"` reads back as the two offsets |
| `Annotation.ParseSerialize` | src/index.ts:49 | attributes written as ` key="value"` read back as written when keys hold no `=` and values no `"` |
| `Annotation.DecodeFragment` | src/index.ts:38-49 | a consumer decoding a fragment recovers exactly the record (start, end, path, file, name, line, column) it was written from, when path, file and name hold no `"`; nothing is escaped |
| `Rewrite.MagicString.constructor` | src/index.ts:35 | a fresh buffer over the code has no insertions |
| `Rewrite.MagicString.AppendLeft` | src/index.ts:47-50 | records the insertion at the end of the list; the output gains the text after the first `index` original characters and after every text already anchored at or before `index` |
| `Rewrite.MagicString.ToString` | src/index.ts:54 | the output is as long as the code plus all inserted texts, and deleting the inserted texts recovers the code |
| `Rewrite.ApplyAppend` | src/index.ts:47-50 | appending an insertion places its text at a position computed from original-text offsets, after earlier insertions at the same offset |
| `Rewrite.ApplyLength` | src/index.ts:47-54 | output length = original length + sum of inserted lengths |
| `Rewrite.ApplyNoInsertions` | src/index.ts:35 | with no insertions the output equals the original |
| `Rewrite.StripApply` | src/index.ts:54 | removing from the output, before each original character, the texts anchored there gives the original back |
| `Rewrite.OriginalCharPlacement` | src/index.ts:54 | each original character appears unchanged in the output, shifted by the texts anchored at or before its offset |
| `Rewrite.TextsPlacement` | src/index.ts:47-48 | just before original offset `p` the output holds exactly the texts anchored at `p`, in recorded order |
| `Tagger.Basename` | src/index.ts:28 | `path.basename(id)` holds no `/` |
| `Tagger.ExtName` | src/index.ts:24 | `path.extname(id)` is empty or a dot followed by characters that are neither `.` nor `/` |
| `Tagger.ExtNameOfFile` | src/index.ts:24 | `dir/stem.ext` has base name `stem.ext` and extension `.ext` |
| `Tagger.DotFileHasNoExtension` | src/index.ts:24 | a file name that starts with its only dot has no extension |
| `Tagger.DotFileSkipped` | src/index.ts:22-27 | such a file is skipped (`undefined`) whenever the allowed extensions do not include the empty string, as the default `[".jsx", ".tsx"]` does not |
| `Tagger.DefaultGate` | src/index.ts:15 | with the default options, a `dir/stem.ext` id is handled iff it does not contain `node_modules` and `.ext` is `.jsx` or `.tsx` |
| `Tagger.Visit` | src/index.ts:37-51 | an excluded tag leaves the buffer unchanged; otherwise exactly one insertion is appended: the fragment for the parent's span, the tag's line and column (0 when unknown) and the resolved name, at the end of the tag's name (0 when unknown) |
| `Tagger.Annotate` | src/index.ts:35-56 | visiting every tag in document order and calling `toString` yields the code with the traversal's insertions applied |
| `Tagger.Transform` | src/index.ts:21-60 | gives `undefined` iff the id contains `node_modules` or its extension is not allowed; gives `null` iff the file is eligible and parsing fails; otherwise gives the annotated code |
| `Tagger.InsertionsFollowIncluded` | src/index.ts:43-50 | the number of insertions equals the number of non-excluded tags, and the k-th insertion belongs to the k-th such tag in document order |
| `Tagger.ExcludedTagIgnored` | src/index.ts:44-46 | removing an excluded tag from the document changes no insertion |
| `Tagger.InsertionsDecode` | src/index.ts:38-49 | each insertion is anchored at its tag's name end, and, when the path, the file name and every resolved name hold no `"`, its fragment decodes to that tag's record with 0 for every missing location |
| `Tagger.OutputPreservesCode` | src/index.ts:47-54 | the rewritten code is the original plus the fragments' total length, and deleting the fragments recovers the original |
| `Tagger.NothingIncludedUnchanged` | src/index.ts:44-54 | when every tag is excluded, or there are none, the output equals the input |

## Left out

- Babel's `parse` and `traverse` are foreign libraries (src/index.ts:31-36). Their result
  is the input `Parsed`. Only a syntax error is modelled as a failure. No other exception
  inside the traversal is modelled, because the modelled visitor cannot throw.
- `generateMap({ hires: true })` is foreign and its format is not visible (src/index.ts:55).
  `Transformed` carries only the code. `Rewrite.StripApply` and
  `Rewrite.OriginalCharPlacement` state the position correspondence abstractly.
- `process.cwd()` and `path.relative` depend on the process (src/index.ts:17, 29). The
  relative path is the parameter `filepath`.
- `path.basename` and `path.extname` are modelled for `/` separators only. Windows
  separators are not modelled.
- `console.error` (src/index.ts:58) is I/O. The `async` wrapper and the plugin object's
  `name`/`enforce` fields are host plumbing.
- Rewrite.MagicString.AppendLeft: requires the offset to lie inside the original text.
  What `magic-string` does with an offset outside it is not modelled. Babel's offsets
  always lie inside the parsed code, so `Tagger.Transform` requires this of the tags it
  is given.
- Annotation.DecodeFragment: reads the record back only when path, file name and
  component name contain no `"`. The source escapes nothing, so a quote in any of them
  yields markup that does not decode to the record.
- Tagger.InsertionsDecode: carries the same condition, for the path, the file name and
  every resolved component name, for the same reason.
- Offsets, lines and columns are taken as the parser reports them. Babel counts UTF-16
  code units. The model counts one `char` per unit and does not model surrogate pairs.
- Running the plugin again on its own output would insert the attributes a second time.
  That depends on the parser, and it is not modelled.
