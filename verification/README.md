# next-svg-parser, modelled in Dafny

The library turns SVG markup into a JSON-ready tree of `SVGNode` records. Its
logic is `domToJson` (src/parser.ts). This function walks the DOM tree that the
browser/jsdom `DOMParser` produced and projects it onto `SVGNode`:

- text is trimmed, and text that is empty after trimming is dropped;
- element tag names are lower-cased;
- attributes are copied into an object;
- children are projected in order, and null results are skipped;
- an empty `children` field is deleted;
- every other node kind projects to `null`.

The second piece is the whitespace normalisation in `readAssetsSvgFile`
(src/read-assets-svg.ts), `svgFile.replace(/\s+/g, " ")`.

Files:

- `wrappers.dfy` — `Option`, for the source's `T | null` and optional fields.
- `js_string.dfy` — the JavaScript string primitives the code uses. `IsWs` is the exact
  ECMAScript WhiteSpace + LineTerminator set, which both `\s` and `trim` use. The file also has
  `trimStart` and `trim`, and `toLowerCase` restricted to ASCII.
- `dom.dfy` — the parsed input tree: `Element(tagName, attributes, childNodes)`, `Text`,
  `CData`, `Comment`, `Other`.
- `types.dfy` — the `SVGNode` record of src/types.ts with its optional fields, and `WellFormed`,
  the shape every projected node has.
- `parser.dfy` — `DomToJson` and `ParserSvg`, their properties, and the source's attribute and
  child loops written as methods.
- `read_assets_svg.dfy` — the whitespace collapse: `Collapse` as a specification, the
  left-to-right scan as a method, and their properties.

Three facts about src/parser.ts shape the model:

- `parserSVG` passes its string straight to `DOMParser`; there is no preprocessing step.
- CDATA sections are neither text nor element nodes, so `domToJson` returns `null` for them.
  The `cdata` variant and `cdataContent` field that src/types.ts declares are never produced.
  `WellFormed` rules them out.
- Tag names are lower-cased (src/parser.ts:21).

## Model

| member | source | states |
|---|---|---|
| JsString.LeadingWs | src/parser.ts:13 | the length of the maximal leading whitespace run: every character before it is whitespace, and the one at it is not |
| JsString.TrailingWsStart | src/parser.ts:13 | the start of the maximal trailing whitespace run: every character from it on is whitespace, and the one before it is not |
| JsString.Trim | src/parser.ts:13 | `trim` is empty exactly when the text is all whitespace; otherwise it starts and ends with non-whitespace; it is a contiguous slice of the input with whitespace-only margins |
| JsString.TrimUnique | src/parser.ts:13 | any slice with whitespace-only margins and non-whitespace ends is the result of `trim`, so Trim's contract determines it |
| JsString.TrimIdempotent | src/parser.ts:13 | trimming twice gives the same text as trimming once |
| JsString.ToLowerCase | src/parser.ts:21 | the result agrees with the tag name up to ASCII case and holds no upper-case ASCII letter; its length is the input's |
| JsString.ToLowerCaseUnique | src/parser.ts:21 | those two properties determine the lower-cased name |
| JsString.ToLowerCaseFixpoint | src/parser.ts:21 | lower-casing leaves a name unchanged exactly when it has no upper-case letter |
| JsString.ToLowerCaseIdempotent | src/parser.ts:21 | lower-casing is idempotent |
| Parser.AttributeMap | src/parser.ts:27-29 | the attribute map's keys are exactly the source attribute names, and each name maps to the value of its last occurrence in list order |
| Parser.AttributeMapDistinct | src/test/parser.test.ts:200-210 | with distinct names (as XML guarantees) every attribute is in the map verbatim and the map has one entry per attribute |
| Parser.CollectAttributes | src/parser.ts:27-29 | the source's loop, one assignment per attribute in order, builds that map |
| Parser.DomToJson | src/parser.ts:11-49 | the projection is total; it is non-null exactly for elements and for text that is not all whitespace; every non-null result is well formed and no deeper than its input |
| Parser.ProjectChildren | src/parser.ts:32-37 | the projected child list is no longer than the child node list; it is empty exactly when no child projects; every entry is well formed and no deeper than the deepest child |
| Parser.TextProjection | src/parser.ts:12-14 | a text node projects to null exactly when it is all whitespace; otherwise to a text record whose content is the trimmed slice |
| Parser.ElementProjection | src/parser.ts:17-46 | an element never projects to null; its tag name is the lower-cased source name; its attribute map has exactly the source names, last one winning; `children` is absent exactly when no child projects, and otherwise is the non-empty list of child projections |
| Parser.ProjectChildrenAppend | src/parser.ts:32-37 | projecting children distributes over concatenation of child lists, so document order is kept |
| Parser.ProjectChildrenSnoc | src/parser.ts:32-37 | one step of the `forEach`: one more child appends its projection, if any |
| Parser.ProjectChildrenMembers | src/parser.ts:32-37 | a record is in the projected list exactly when some child node projects to it |
| Parser.CollectChildren | src/parser.ts:32-37 | the source's `forEach`/`push` loop builds the projected child list |
| Parser.ProjectElement | src/parser.ts:17-46 | the element branch as written, with `children` starting empty and deleted when it stays empty, agrees with `DomToJson` and yields a well-formed element |
| Parser.StripIgnorablePreserves | src/parser.ts:48 | removing every comment, CDATA section and other ignorable node, at every level, leaves the projection unchanged, so no output comes from them |
| Parser.StripIgnorableListPreserves | src/parser.ts:32-48 | the same for a child list |
| Parser.InsignificantChildIgnored | src/test/parser.test.ts:162-178 | a comment, CDATA section or whitespace-only text can be removed from anywhere among an element's children without changing its projection |
| Parser.ParserSvg | src/parser.ts:3-9 | `parserSVG` on the parsed document element always returns a well-formed element record whose tag name is the lower-cased root name |
| Parser.CDataExample | src/test/parser.test.ts:172-178 | a `style` element holding only a CDATA section projects with no `children` field |
| Parser.LowerCaseExample | src/test/parser.test.ts:213-222 | `foreignObject` projects with tag name `foreignobject` |
| ReadAssetsSvg.Collapse | src/read-assets-svg.ts:5 | the replacement is no longer than its input; it is empty exactly when the input is; it starts with whitespace exactly when the input does |
| ReadAssetsSvg.CollapseCollapsed | src/read-assets-svg.ts:5 | the output never has two adjacent whitespace characters, and its only whitespace character is `' '` |
| ReadAssetsSvg.CollapseKeepsNonWs | src/read-assets-svg.ts:5 | the non-whitespace characters of the output, in order, are those of the input |
| ReadAssetsSvg.CollapseNoWs | src/read-assets-svg.ts:5 | text without whitespace is returned unchanged |
| ReadAssetsSvg.CollapseFixpoint | src/read-assets-svg.ts:5 | the replacement leaves a string unchanged exactly when it has no adjacent whitespace and no whitespace other than `' '` |
| ReadAssetsSvg.CollapseIdempotent | src/read-assets-svg.ts:5 | replacing twice gives the same text as replacing once |
| ReadAssetsSvg.CollapseRunStep | src/read-assets-svg.ts:5 | one greedy `\s+` match turns the whole run into a single space |
| ReadAssetsSvg.CollapseCharStep | src/read-assets-svg.ts:5 | a non-whitespace character is copied unchanged |
| ReadAssetsSvg.EndOfRun | src/read-assets-svg.ts:5 | the greedy match starting at a whitespace character ends at the first non-whitespace character or at the end of the text |
| ReadAssetsSvg.ReadAssetsSvgFile | src/read-assets-svg.ts:3-6 | the left-to-right scan over the file's text computes the replacement; its result is no longer than the input, has no adjacent whitespace, and uses only `' '` as whitespace |

## Left out

- `DOMParser.parseFromString` and the jsdom environment (src/parser.ts:4-5). Parsing belongs to an external parser, so the model starts from an already parsed tree. That parser's behaviour is out of the model: the `parsererror` root it builds for malformed input, its acceptance of a non-`svg` root, and entity decoding.
- `Parser.ParserSvg` requires the document element to be an element. `parseFromString(..., "image/svg+xml")` always yields a document with a root element: the parsed root, or a `parsererror` element for malformed input (src/test/parser.test.ts:188-198). A null `documentElement` would make src/parser.ts:12 throw a `TypeError`; the model does not cover that case.
- `readFileSync` (src/read-assets-svg.ts:4) is file I/O; `ReadAssetsSvgFile` takes the file's contents instead of a path.
- The CLI (src/cli.js) and the build and test configuration (vite.config.ts) are out of the model.
- JsString.ToLowerCase: maps only the ASCII letters `A`–`Z`. JavaScript's `toLowerCase` also maps non-ASCII letters (Unicode case mapping is not modelled).
- `IsWs` works on Unicode scalar values while JavaScript strings are UTF-16. Every whitespace code point is in the Basic Multilingual Plane, so this does not change which characters `trim` and `\s` treat as whitespace.
- Parser.AttributeMap: is an unordered map, so the insertion order of the JavaScript object's keys is not kept (no consumer of the tree depends on it). An attribute named `__proto__` is kept in the model's map, but the program drops it: the assignment at src/parser.ts:28 calls the inherited `__proto__` setter, which ignores a string value, so that attribute is missing from the program's output.
- Call-stack exhaustion is not modelled. The recursion at src/parser.ts:32-33 throws a `RangeError` on very deeply nested trees, while `DomToJson` is total.
- `Node.textContent` of a text node is its character data; the optional chaining at src/parser.ts:13 only guards against `null`, which a text node never has.
