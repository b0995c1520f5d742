# Orion's expat helpers and element-id pass, in Dafny

This project models two small pieces of logic in the Orion Markdown daemon's stack.

1. **The pure-JavaScript helpers of the expat binding** (`editor.md/lib/wasm/expat.js`):
   - Emscripten's UTF-8 string helpers: `lengthBytesUTF8`, `stringToUTF8Array`, the hand-written decoding loop of `UTF8ArrayToString`, and `intArrayFromString`. The strings are UTF-16 code units and the heap is an array of bytes updated in place. The byte layout is that of section 3 of RFC 3629, and the surrogate pairs are those of sections 2.1 and 2.2 of RFC 2781.
   - `trimEnd` and `trimStart`.
   - The WebAssembly URL and the cache that `loadWasm` keeps in `g_wasmCache`.
   - The `StackElement`/`StackParser` classes that receive expat's SAX callbacks.
   - `parseAttrs`, which decodes the `"\x01\x01"`/`"\x01"`-separated attribute string.
2. **The `{#id}`/`{.class}` tree processor of `mdx_elementid.py`**:
   - `ID_RE`, written as an explicit scanner. A lemma shows that the scanner agrees with a declarative description of the pattern, and that the search returns the leftmost match, as `re.search` does.
   - `_parseID` and `run`, as methods over mutable `Element` objects. Each method is proved to leave the tree equal to a specification function `Parsed` of the tree it started from.

Modules and files:

| module | file | what |
|---|---|---|
| `JsValues` | `js_values.dfy` | `Option`, bytes, code units, JavaScript strings |
| `Utf8Spec` | `utf8_spec.dfy` | code points, encoding, bounded encoding, decoding, and their lemmas (round trip) |
| `Utf8Codec` | `utf8_codec.dfy` | the four helpers as loops over arrays, proved against `Utf8Spec` |
| `Trim` | `trim.dfy` | `trimEnd`/`trimStart` loops and what they return |
| `WasmLoader` | `wasm_loader.dfy` | `scriptDir`, the `wasmFolder` setting, the URL, and class `Loader` holding `g_wasmCache` |
| `StackParsing` | `stack_parser.dfy` | classes `StackElement` and `StackParser` |
| `Attrs` | `attrs.dfy` | `split`, `join`, `filter`, `parseAttrs`, and a reference encoder for the round trip |
| `IdPattern` | `id_pattern.dfy` | the `ID_RE` scanner, `re.search`, `strip()` blankness, and the doctest texts |
| `ElementId` | `elementid.dfy` | class `Element`, `Parsed`, `ParseId` (`_parseID`), `Run` (`run`), and tree-level lemmas |

Where the module docstring and the code disagree, the model follows the code. The doctest at `mdx_elementid.py:25` expects a section link `<a class="elementid-sectionlink">` inside the heading. The code builds that element but never appends it, because the append at lines 109-113 is commented out. The model therefore leaves the heading without children. `ElementId.ParseId` and `ElementId.ExampleHeading` state this.

Host values that the code reads from its environment are parameters of the model:
- `isBlockLevel` is a `string -> bool`;
- `globalNS.__hpcc_wasmFolder` and the script's location are arguments of the `Loader` constructor. The location is whichever value expat.js:60-63 picks: `document.currentScript.src`, then Node's `__filename`, then `""`. A file name may hold a line terminator, which `WasmLoader.ScriptDirMeaning` covers;
- a started `_loadWasm` is a `LoadTask` value that records the arguments the load was started with.

## Model

| member | source | states |
|---|---|---|
| Utf8Spec.LeadLength | editor.md/lib/wasm/expat.js:14 | the bytes counted for the unit at the head: 1 up to 127, 2 up to 2047, 4 for a surrogate (which consumes two units), else 3 |
| Utf8Spec.LeadPoint | editor.md/lib/wasm/expat.js:14 | the code point formed at the head of a string is at least 65536 exactly when the head unit is a surrogate, and is the unit itself otherwise |
| Utf8Spec.EncodePoint | editor.md/lib/wasm/expat.js:14 | a code point is written as PointLength bytes, none of them zero unless the code point is zero |
| Utf8Spec.EncodePointClasses | editor.md/lib/wasm/expat.js:14 | the byte classes of section 3 of RFC 3629: a lead byte of 0xxxxxxx, 110xxxxx (never 0xC0/0xC1), 1110xxxx or 11110xxx (at most 0xF4) for one to four bytes, continuation bytes 10xxxxxx, and the x bits spell the code point |
| Utf8Spec.Fit | editor.md/lib/wasm/expat.js:14 | the bounded encoding never exceeds the room it is given |
| Utf8Spec.FitWholePoints | editor.md/lib/wasm/expat.js:14 | the bounded encoding is the encoding of a whole number of leading code points: no multi-byte sequence is cut |
| Utf8Spec.FitStops | editor.md/lib/wasm/expat.js:14 | the bounded encoding stops only where the next code point would not fit |
| Utf8Spec.EncodeBoundedMeaning | editor.md/lib/wasm/expat.js:14 | the bytes written with room n: a prefix of the whole encoding, at most n long, whole code points, all of it when it fits, and short of room for the next code point otherwise |
| Utf8Spec.EncodeBoundedAll | editor.md/lib/wasm/expat.js:14 | with room for the whole encoding, all of it is written |
| Utf8Spec.EncodeNonZero | editor.md/lib/wasm/expat.js:14 | a string without U+0000 encodes to bytes that are all nonzero |
| Utf8Spec.RemainingLength | editor.md/lib/wasm/expat.js:14 | the loop's count from unit i is the length of the encoding of the rest of the string |
| Utf8Spec.ScanEnd | editor.md/lib/wasm/expat.js:14 | the decoder's end index is the first index holding a zero byte or reaching idx + maxBytesToRead, whichever comes first |
| Utf8Spec.UnitsOfPair | editor.md/lib/wasm/expat.js:14 | a decoded value from 0x10000 to 0x10FFFF becomes a high surrogate followed by a low one, which the encoder combines back into that value |
| Utf8Spec.PairUnits | editor.md/lib/wasm/expat.js:14 | a surrogate pair combined by the encoder splits back into 55296 + ch / 1024 and 56320 + ch % 1024, the same two units |
| Utf8Spec.DecodeOne | editor.md/lib/wasm/expat.js:14 | one decoding step reads 1 to 4 bytes |
| Utf8Spec.DecodePoint | editor.md/lib/wasm/expat.js:14 | the decoder reads back, in as many bytes, the code point whose encoding sits at the index |
| Utf8Spec.LeadUnits | editor.md/lib/wasm/expat.js:14 | in well-formed UTF-16, the units of the encoder's code point are exactly the units it consumed |
| Utf8Spec.DecodeEncoded | editor.md/lib/wasm/expat.js:14 | decoding the encoding of a well-formed string gives the string back |
| Utf8Spec.ScanToTerminator | editor.md/lib/wasm/expat.js:14 | nonzero bytes followed by a zero, under a covering limit: the scan stops at the zero |
| Utf8Spec.RoundTrip | editor.md/lib/wasm/expat.js:14 | a well-formed string without U+0000, encoded and terminated, is read back exactly, with the scan stopping at the terminator |
| Utf8Codec.LengthBytesUTF8 | editor.md/lib/wasm/expat.js:14 | lengthBytesUTF8 returns the length of the string's UTF-8 encoding |
| Utf8Codec.StringToUTF8Array | editor.md/lib/wasm/expat.js:14 | maxBytesToWrite <= 0: returns 0 and writes nothing. Otherwise: writes the bounded encoding for maxBytesToWrite - 1 bytes at outIdx, then a 0, returns the payload length, and leaves every other heap byte as it was |
| Utf8Codec.WriteLoop | editor.md/lib/wasm/expat.js:14 | the encoding loop writes exactly the bounded encoding at startIdx and returns the index after it |
| Utf8Codec.ReadPoint | editor.md/lib/wasm/expat.js:14 | the loop head forms the encoder's code point and leaves i on the last unit it read |
| Utf8Codec.PutPoint | editor.md/lib/wasm/expat.js:14 | the bytes of a code point are written exactly when they fit before endIdx, and nothing is written otherwise |
| Utf8Codec.ScanLoop | editor.md/lib/wasm/expat.js:14 | the first loop of UTF8ArrayToString ends at ScanEnd |
| Utf8Codec.ReadUnits | editor.md/lib/wasm/expat.js:14 | one turn of the decoding loop yields DecodeOne's units and advances by its width |
| Utf8Codec.DecodeLoop | editor.md/lib/wasm/expat.js:14 | the decoding loop returns the units decoded from the lead bytes below endPtr |
| Utf8Codec.UTF8ArrayToString | editor.md/lib/wasm/expat.js:14 | the string decoded from idx up to the first zero byte or the read limit |
| Utf8Codec.IntArrayFromString | editor.md/lib/wasm/expat.js:14 | without a positive length the array is the whole encoding plus a 0, or the encoding alone with dontAddNull; with a length, the bounded encoding and a 0 in an array of that length |
| Utf8Codec.EncodeThenDecode | editor.md/lib/wasm/expat.js:14 | intArrayFromString's steps, repeated on an array (lengthBytesUTF8 + 1 bytes, then stringToUTF8Array), followed by UTF8ArrayToString give a well-formed string without U+0000 back |
| Trim.CharAt | editor.md/lib/wasm/expat.js:49 | charAt yields the one unit at an index in range and "" at any other index |
| Trim.TrimEnd | editor.md/lib/wasm/expat.js:48-53 | trimEnd returns TrimmedEnd of its arguments |
| Trim.TrimStart | editor.md/lib/wasm/expat.js:54-59 | trimStart returns TrimmedStart of its arguments |
| Trim.TrimmedEndLongest | editor.md/lib/wasm/expat.js:48-53 | trimEnd(s, c) is the longest prefix of s not ending with c |
| Trim.TrimmedStartLongest | editor.md/lib/wasm/expat.js:54-59 | trimStart(s, c) is the longest suffix of s not starting with c |
| Trim.TrimEndIdempotent | editor.md/lib/wasm/expat.js:48-53 | trimEnd is idempotent |
| Trim.TrimStartIdempotent | editor.md/lib/wasm/expat.js:54-59 | trimStart is idempotent |
| Trim.TrimNotOneUnit | editor.md/lib/wasm/expat.js:49 | a charToRemove that is not one unit never matches, so the string comes back unchanged |
| WasmLoader.QueryStart | editor.md/lib/wasm/expat.js:64 | the match of `/[?#].*/` starts at the first '?' or '#', or there is none |
| WasmLoader.LineEnd | editor.md/lib/wasm/expat.js:64 | the greedy `.*` stops at the first line terminator (\n, \r, U+2028, U+2029) after that, or at the end |
| WasmLoader.LastSlash | editor.md/lib/wasm/expat.js:64 | lastIndexOf('/') gives the last slash of the replaced string, or -1 |
| WasmLoader.ScriptDirMeaning | editor.md/lib/wasm/expat.js:64 | the replace removes exactly the units from the first '?' or '#' up to the next line terminator; scriptDir is the prefix of the original string as long as the replaced string up to its last '/', or "" |
| WasmLoader.ScriptDirSingleLine | editor.md/lib/wasm/expat.js:64 | when no line terminator follows the '?' or '#', so the match runs to the end, scriptDir is the longest prefix ending in '/' before any '?' or '#', or "" |
| WasmLoader.ScriptDirNewline | editor.md/lib/wasm/expat.js:64 | for "a?\n/" scriptDir is "a?\n": the '/' after the newline survives the replace and cuts the original string |
| WasmLoader.WasmUrlJoin | editor.md/lib/wasm/expat.js:86 | the URL is the folder with its trailing '/'s removed, exactly one '/', then filename.wasm with its leading '/'s removed |
| WasmLoader.UrlHasSlash | editor.md/lib/wasm/expat.js:87-89 | every cache key holds a '/' |
| WasmLoader.Loader.constructor | editor.md/lib/wasm/expat.js:40 | the setting starts as the truthy global value or undefined, scriptDir is fixed, and the cache is empty |
| WasmLoader.Loader.WasmFolder | editor.md/lib/wasm/expat.js:41-43 | wasmFolder() returns the current setting |
| WasmLoader.Loader.SetWasmFolder | editor.md/lib/wasm/expat.js:44-46 | wasmFolder(_) installs the new setting and returns the old one; the cache is untouched |
| WasmLoader.Loader.LoadWasm | editor.md/lib/wasm/expat.js:85-91 | a cached URL returns its load and starts nothing; a new URL starts one load, which is cached and returned |
| StackParsing.StackElement.constructor | editor.md/lib/wasm/expat.js:95-99 | a new element has its tag and attributes and empty content |
| StackParsing.StackElement.AppendContent | editor.md/lib/wasm/expat.js:103-105 | the content grows at its end by exactly the text given |
| StackParsing.StackParser.constructor | editor.md/lib/wasm/expat.js:108-110 | a new parser has an empty stack |
| StackParsing.StackParser.Top | editor.md/lib/wasm/expat.js:114-116 | top() is the last element, or undefined when the stack is empty |
| StackParsing.StackParser.StartElement | editor.md/lib/wasm/expat.js:117-121 | a fresh element with empty content is pushed and returned; the elements below are untouched |
| StackParsing.StackParser.EndElement | editor.md/lib/wasm/expat.js:122-124 | the top is popped and returned, or undefined on an empty stack; the rest of the stack is unchanged |
| StackParsing.StackParser.CharacterData | editor.md/lib/wasm/expat.js:125-127 | only the top element's content changes, by appending the text; on an empty stack the call fails and nothing changes |
| StackParsing.OpenThenClose | editor.md/lib/wasm/expat.js:117-124 | a start followed by an end restores the stack and returns the element started |
| Attrs.IndexOf | editor.md/lib/wasm/expat.js:134 | indexOf finds the first occurrence at or after from, or -1 when there is none |
| Attrs.Split | editor.md/lib/wasm/expat.js:134 | split yields at least one piece |
| Attrs.NonEmpty | editor.md/lib/wasm/expat.js:134 | the result holds no empty piece, and every non-empty piece as often as the input does |
| Attrs.NonEmptyAppend | editor.md/lib/wasm/expat.js:134 | the filter keeps the order: filtering a concatenation concatenates the filtered parts |
| Attrs.ParseAttrs | editor.md/lib/wasm/expat.js:129-139 | the dictionary that results from assigning parts[1] to parts[0] for every non-empty entry, in order |
| Attrs.SplitJoin | editor.md/lib/wasm/expat.js:134 | joining the pieces of a split with the separator gives the string back |
| Attrs.SplitFree | editor.md/lib/wasm/expat.js:134 | no piece of a split holds the separator |
| Attrs.JoinSplit | editor.md/lib/wasm/expat.js:134 | splitting a join of clean pieces gives the pieces back |
| Attrs.AssignedKeys | editor.md/lib/wasm/expat.js:134-137 | the dictionary's names are exactly the entries' names |
| Attrs.AssignedLastWins | editor.md/lib/wasm/expat.js:136 | a later entry with the same name overwrites an earlier one |
| Attrs.EntryParts | editor.md/lib/wasm/expat.js:135-136 | name "\x01" value splits back into that name and value |
| Attrs.ParseSerialized | editor.md/lib/wasm/expat.js:129-139 | decoding the attribute string of carried pairs gives their dictionary, with the last pair winning |
| Attrs.NoAttributes | editor.md/lib/wasm/expat.js:134 | the empty attribute string gives the empty dictionary |
| IdPattern.Skip | mdx_elementid.py:52-57 | a greedy run of one character class ends at the end of the text or at the first character outside the class |
| IdPattern.Opening | mdx_elementid.py:52-55 | the scanner's opening bracket is '{' or '[' |
| IdPattern.MatchSound | mdx_elementid.py:52-59 | whatever the scanner accepts at p has the ID_RE layout there, with the groups it reports |
| IdPattern.MatchComplete | mdx_elementid.py:52-59 | any ID_RE layout at p is accepted by the scanner, with its groups |
| IdPattern.MatchIff | mdx_elementid.py:52-59 | the scanner yields a spec at p if and only if the pattern matches at p with those groups |
| IdPattern.Search | mdx_elementid.py:89 | a search result is a position where the scanner matches |
| IdPattern.SearchFirst | mdx_elementid.py:89 | a match at j means the search finds one at or before j |
| IdPattern.SearchLeftmost | mdx_elementid.py:89 | re.search returns (s, spec) if and only if the pattern matches at s with spec and at no earlier start; it returns None if and only if it matches nowhere |
| IdPattern.MatchNotBlank | mdx_elementid.py:88-89 | a text with a match is never whitespace-only |
| IdPattern.NoBracketNoMatch | mdx_elementid.py:55 | a text without '{' or '[' has no match |
| IdPattern.SearchAfter | mdx_elementid.py:89 | a spec laid out right after a text without brackets that ends in neither a blank nor '#' is found at the joint |
| IdPattern.ExampleNode1 | mdx_elementid.py:18 | "This is a test {#node1}" matches at 14 with kind '#' and name node1 |
| IdPattern.ExampleNode2 | mdx_elementid.py:19 | "Other {.node2 node3}" matches at 5 with kind '.' and name "node2 node3" |
| IdPattern.ExampleDownloading | mdx_elementid.py:20 | "Download! # [#downloading]" matches at 9, taking in the heading's closing '#' |
| IdPattern.ExampleList1 | mdx_elementid.py:16 | "list: {#list.1} " matches at 5, taking in the trailing blank |
| ElementId.Key | mdx_elementid.py:91-94 | kind '#' sets id and any other kind sets class |
| ElementId.ParseId | mdx_elementid.py:84-116 | _parseID returns the element it was given, rewrites the tree below it into Parsed of the old tree, and allocates and frees nothing |
| ElementId.Relabel | mdx_elementid.py:88-95 | one element's attributes and text after the spec is handled are those of Labelled |
| ElementId.Label | mdx_elementid.py:92-95 | element.set and the text assignment change only that element's attributes and text |
| ElementId.Visit | mdx_elementid.py:114-115 | the recursive call for child i parses that child's tree and leaves its siblings' trees unchanged |
| ElementId.Run | mdx_elementid.py:119-137 | run returns the root and leaves the tree as Parsed of the old tree; the style element is not inserted |
| ElementId.LabelledTrims | mdx_elementid.py:91-95 | one element: only id or class is set, no attribute is lost, and the text becomes a prefix of itself |
| ElementId.ParsedTrims | mdx_elementid.py:84-116 | the pass keeps every tag, the number and order of children, and every attribute but id and class; texts only get shorter |
| ElementId.ParsedSkips | mdx_elementid.py:86 | a code, pre or non-block element and everything below it are left as they are |
| ElementId.LabelledFound | mdx_elementid.py:88-95 | a text whose leftmost spec starts at s: the spec's name goes into id or class and the text keeps what precedes s |
| ElementId.LabelledUnmatched | mdx_elementid.py:88-90 | no text, or a text with no match anywhere: attributes and text stay as they are |
| ElementId.LabelledAgain | mdx_elementid.py:88-95 | a second pass over an element whose remaining text holds no spec changes nothing |
| ElementId.LeafFound | mdx_elementid.py:84-95 | a childless inspected element whose text holds a spec at the joint of s + r is labelled and keeps s |
| ElementId.ParentOfTwo | mdx_elementid.py:114-115 | an inspected element without text is rebuilt from its parsed children |
| ElementId.ExampleItemNode1 | mdx_elementid.py:18 | the list item gets id node1 and the text "This is a test" |
| ElementId.ExampleItemNode2 | mdx_elementid.py:19 | the list item gets class "node2 node3" and the text "Other" |
| ElementId.ExampleHeading | mdx_elementid.py:20 | the heading gets id downloading and the text "Download!", and no child |
| ElementId.ExampleParagraph | mdx_elementid.py:16 | the paragraph gets id list.1 and the text "list:" |
| ElementId.ExampleList | mdx_elementid.py:18-19 | the ordered list keeps its own attributes, and both items below it are labelled |
| ElementId.ExampleCode | mdx_elementid.py:86 | a code element keeps a spec-like text |
| ElementId.ExampleBlank | mdx_elementid.py:88 | a whitespace-only text is left alone with the element's attributes |

## Left out

- The rest of the Emscripten runtime in `expat.js:14` is not modelled: heap growth, WebAssembly instantiation and the `CExpat` bindings. These are generated glue around a foreign binary.
- `parse` and `expatVersion` (expat.js:140-163), and `StackParser.parse`, which delegates to `parse`, are not modelled. They only hand the document to the foreign expat parser and wire its callbacks to `StackParser` (`parseAttrs` for the attributes).
- The `TextDecoder` branch of `UTF8ArrayToString` is not modelled: it is a host library call. The model covers the hand-written decoding loop.
- `browserFetch` and `_loadWasm` (expat.js:65-84) are asynchronous I/O. A started load is the `LoadTask` value recording the library, URL and binary it was started with.
- Utf8Codec.IntArrayFromString: the JavaScript array holds `undefined` in the slots nothing was written to, and the model holds 0 there. Such slots exist whenever a positive length is used without `dontAddNull` and exceeds the bytes written plus the terminator. That happens when the length is more than the encoding plus one, or when the bound stops before a multi-byte code point: "€" with length 3 writes only the terminator.
- Trim.TrimEnd, Trim.TrimStart: both require that the string and `charToRemove` are not both empty, because the source's loop never ends on that input. Every caller passes `"/"`.
- WasmLoader.Loader: `g_wasmCache` is a plain object, so a key such as `__proto__` would read an inherited property. `WasmLoader.UrlHasSlash` shows that every key holds a '/', which no inherited property name does, so the map model is exact for the keys that occur.
- Attrs.ParseAttrs: names that are inherited object properties such as `__proto__` behave differently on a plain JavaScript object. The model uses a map.
- Attrs.ParseSerialized: it covers pairs whose name and value hold no `"\x01"` and whose value is not empty. An empty value makes the entry end in `"\x01"`, and the string does not round-trip then.
- Python-Markdown's `isBlockLevel` is a parameter, and `IdExtension`/`makeExtension` are registration plumbing.
- The regular-expression engine is not modelled. `ID_RE` is an explicit scanner, and `IdPattern.MatchIff`/`IdPattern.SearchLeftmost` tie it to the pattern's meaning.
- IdPattern.Blank: `strip()` uses `unicode.isspace` of Python 2.7, the language of mdx_elementid.py. The model lists the whitespace code points of its Unicode 5.2 database, U+180E included. It does not model the ASCII-only `\s` of other engines.
- ElementId.ParseId, ElementId.Run: both require `Valid()`, a tree in which no element is shared between parents. ElementTree allows appending one element under two parents, and `_parseID` (mdx_elementid.py:114-115) would then process it twice. A second pass can move another spec out of its text: "a {#x} {#y}" first gets id `y` and text "a {#x}", then id `x` and text "a". Markdown's block parser gives every element one parent, so the model does not cover shared elements.
- ElementTree tails are not modelled: `Node` has no `tail` field, because `_parseID` never reads or writes one. A spec in the tail of an inline child is never seen by the pass.
- The section-link `a` element (mdx_elementid.py:97-106) and the `style` element (mdx_elementid.py:128-134) are built and then dropped. Dropped objects are invisible in the model, so they are not built. `ElementId.ParseId` and `ElementId.Run` state that the tree changes only as `Parsed` says.
- The second doctest (mdx_elementid.py:26-37) depends on the `def_list` extension building `dt` elements. It is not restated; its texts have the same shape as `ExampleItemNode1`.
- The whole first doctest document, with the `More` paragraph and its root, is not stated as one lemma. Its blocks are `ExampleParagraph`, `ExampleList` and `ExampleHeading`.
- `markdownd.js`, `comment-dialog.js` and `gfm+django.js` are not part of this model. They are socket and DOM plumbing, a UI dialog and an editor-mode registration, with no logic of their own to state.
