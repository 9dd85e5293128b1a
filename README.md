# ESC/POS printout encoder

This project models the encoder at the centre of react-native-thermal-printer
(`src/utils/printout-processor.ts`) and proves properties of it in Dafny 4.11.
The encoder takes a small XML document whose root is `<Printout>` and a set of
print options. It produces the byte stream that an ESC/POS thermal printer
interprets. The stream has four parts, in this order:

1. A codepage preamble: `ESC t n`, then `FS &` when the codepage is 0 and `FS .` otherwise.
2. The bytes of each direct child of the root that has a known tag:
   - `<Text>` gives twelve control bytes for size, bold, alignment and font, then the encoded text.
     The text may be base64-decoded first, then indented, then laid out in two columns around a `|`.
   - `<NewLine>` gives an encoded line feed.
   - `<QRCode>` gives a seven-byte `ESC Z` header with the payload length, then the encoded payload.
   - `<Line>` gives `lineChar` (default `-`) repeated once per column, then a line feed.
3. The beep, cut and tailing-line commands. Each flag whose value is a boolean emits its command, `false` included (see the last line of "Left out").
4. The `ESC @` reset.

The model starts from the parsed element tree (`Node`). The text codec
(`iconv.encode`) and the base64 decoder are function parameters. The buffer
is a `BufferHelper` object whose `Concat` appends a chunk. Each routine that
appends to it is a module-level method that takes the buffer as a parameter,
and each is proved against a function giving the bytes it appends. The
encoding's properties are lemmas about those functions.

The JavaScript behaviour the encoder depends on is modelled in its own modules:

- `JsNumber` covers `parseInt`, with white space, sign, radix and the `0x` prefix.
- `JsString` covers `trim`, `split`, `indexOf` and `repeat`.
- `EscPos` covers how `Buffer.from` converts an array of numbers to bytes.
  `NaN` becomes 0, and integers are taken modulo 256.

Files:

| file | module | contents |
|---|---|---|
| `wrappers.dfy` | `Wrappers` | `Option` |
| `js_number.dfy` | `JsNumber` | numbers with `NaN`, `parseInt` |
| `js_string.dfy` | `JsString` | `trim`, `indexOf`, `split`/`join`, `repeat` |
| `escpos.dfy` | `EscPos` | bytes, `b`, `buf`, the command constants |
| `buffer_helper.dfy` | `Buffers` | the `BufferHelper` class |
| `print_options.dfy` | `PrintOptions` | defaults, merge, option bytes |
| `text_layout.dfy` | `TextLayout` | indent and two-column layout |
| `printout_processor.dfy` | `PrintoutProcessor` | the node encoders and `processText` |

## Model

| member | source | states |
|---|---|---|
| PrintoutProcessor.ProcessText | src/utils/printout-processor.ts:40-82 | The returned bytes are `PrintoutBytes`. For a `<Printout>` root these are the codepage preamble, then each direct child's bytes in document order, then the option bytes, then `ESC @`. For any other root they are empty. The loop invariant ties the buffer to the children encoded so far. |
| PrintoutProcessor.EmptyUnlessPrintout | src/utils/printout-processor.ts:48-51 | The output is empty if and only if the root element is not `<Printout>`, in both directions. |
| PrintoutProcessor.StartsWithCodepage | src/utils/printout-processor.ts:53-54 | A `<Printout>` output starts with the codepage preamble of the merged options. |
| PrintoutProcessor.CodepageLayout | src/utils/printout-processor.ts:84-92 | For a numeric codepage the preamble is the five bytes `1B 74 (codepage mod 256) 1C`, then `26` when the codepage is 0 and `2E` otherwise. A codepage set to `undefined` gives `1B 74 00 1C 2E`: it is written as byte 0 but does not equal 0. |
| PrintoutProcessor.SetCodepage | src/utils/printout-processor.ts:84-92 | Appends exactly the codepage preamble to the buffer. |
| PrintoutProcessor.EndsWithOptionsAndReset | src/utils/printout-processor.ts:77-79 | A `<Printout>` output ends with the option bytes followed by `1B 40`. When no flag was set to `undefined`, its last twelve bytes are beep, cut, four line feeds and `ESC @`. |
| PrintoutProcessor.AddNode | src/utils/printout-processor.ts:57-75 | The `forEach` callback appends exactly the child's `NodeBytes`. |
| PrintoutProcessor.NodeBytesByTag | src/utils/printout-processor.ts:57-75 | Dispatch on the child's tag: `Text`, `NewLine`, `QRCode` and `Line` go to their encoders; any other tag adds nothing. |
| PrintoutProcessor.ChildrenBytesAppend | src/utils/printout-processor.ts:57-75 | The bytes of a run of children are the bytes of any split of that run, concatenated in document order. |
| PrintoutProcessor.UnknownChildrenIgnored | src/utils/printout-processor.ts:57-75 | Removing every child with an unknown tag leaves the output unchanged. |
| PrintoutProcessor.GrandchildrenIgnored | src/utils/printout-processor.ts:57-75 | Only the root's direct children are visited: removing all their descendants leaves the output unchanged. |
| PrintoutProcessor.AddText | src/utils/printout-processor.ts:98-185 | Appends exactly `TextBytes`: the control block of the node's text style, then the codec's encoding of the decoded, indented, two-column text. |
| PrintoutProcessor.ReadTextStyle | src/utils/printout-processor.ts:99-136 | The attribute loop, taking keys in any order, yields `TextStyleOf(attrs)`. In that style each field is set by its own attribute or keeps its default, so the result does not depend on `Object.keys` order. |
| PrintoutProcessor.ApplyTextAttributeAdds | src/utils/printout-processor.ts:110-135 | One case of the attribute `switch` changes the style exactly as adding that attribute to the map does. |
| PrintoutProcessor.TextNodeBytes | src/utils/printout-processor.ts:168-184 | A text node's bytes are its twelve control bytes followed by the encoded text. |
| PrintoutProcessor.ControlBlockLayout | src/utils/printout-processor.ts:168-181 | The control block is `GS ! size ESC E bold ESC a align ESC M font`. The size byte is the byte of width code plus height code. |
| PrintoutProcessor.TextStyleBytes | src/utils/printout-processor.ts:99-136 | The bold byte is 1 exactly when `bold` is `"1"`. The alignment byte is 1 for `center`, 2 for `right`, and 0 for `left`, any other value, or no attribute. The font byte is the parsed `font` as a byte, or 0 when the attribute is absent. |
| PrintoutProcessor.SizeByteOfIndices | src/utils/printout-processor.ts:117-124 | For width and height indices 0..3 given as numerals (an absent attribute counts as 0), the size byte is `16 * width + height` and at most `0x33`. |
| PrintoutProcessor.NibblesOr | src/utils/printout-processor.ts:106-107 | For w, h below 4, `16*w + h` equals the bitwise or of the two table entries. The width entries fill the high nibble and the height entries the low one. |
| PrintoutProcessor.SizeByteOfMissingWidth | src/utils/printout-processor.ts:117-120 | A width index of 4 or more looks up `undefined`, so the sum is `NaN` and the size byte is 0 whatever the height. |
| PrintoutProcessor.IndentIgnoredInTwoColumnText | src/utils/printout-processor.ts:143-166 | When the decoded text holds exactly one bar (`0x7C`), the `indent` attribute has no effect: the two-column step trims the indent spaces away. |
| TextLayout.IndentCount | src/utils/printout-processor.ts:144-145 | The number read is `parseInt(indent, 10)` for a present attribute and `NaN` for an absent one. An empty attribute, skipped as falsy, gives `NaN` as well. |
| TextLayout.Indent | src/utils/printout-processor.ts:143-149 | A present indent that `parseInt(_, 10)` reads as a positive n prepends n spaces. An absent, `NaN` or non-positive indent leaves the text unchanged. |
| TextLayout.IndentByNumeral | src/utils/printout-processor.ts:143-149 | An indent that is the numeral of a positive n prepends exactly n spaces. |
| TextLayout.IndentNegative | src/utils/printout-processor.ts:143-149 | A negative numeral as indent leaves the text unchanged. |
| TextLayout.ColumnWidth | src/utils/printout-processor.ts:157 | The column width is never 0. It is the configured width when that is non-zero, and 32 otherwise. |
| TextLayout.Justify | src/utils/printout-processor.ts:157-164 | The result is the left part, then `max(1, W - len(left) - len(right))` spaces, then the right part. Its length is `max(W, len(left) + len(right) + 1)`. |
| TextLayout.TwoColumnLayout | src/utils/printout-processor.ts:151-166 | A text with exactly one bar becomes its trimmed left and right parts justified to the column width, with the length above. |
| TextLayout.TwoColumnPassThrough | src/utils/printout-processor.ts:151-153 | A text with no bar, or with two or more bars, is returned unchanged. |
| TextLayout.TwoColumnOfBar | src/utils/printout-processor.ts:151-164 | A text with exactly one bar is justified from its trimmed parts before and after that bar. |
| TextLayout.IndentAbsorbedByTwoColumn | src/utils/printout-processor.ts:143-166 | Leading spaces added before a one-bar text disappear in the two-column layout. |
| TextLayout.TwoColumnOfParts | src/utils/printout-processor.ts:151-164 | A left part, a bar and a right part, with neither part holding a bar or having blank ends, are justified as they stand. |
| TextLayout.TwoColumnExample | src/utils/printout-processor.ts:151-164 | `Qty`, a bar and `2` in ten columns give `Qty`, six spaces, then `2`. |
| TextLayout.TwoColumnClampExample | src/utils/printout-processor.ts:159-162 | When the parts do not fit, the gap is clamped to one space. |
| PrintoutProcessor.AddNewLine | src/utils/printout-processor.ts:94-96 | Appends exactly the encoding of `"\n"`. |
| PrintoutProcessor.AddLine | src/utils/printout-processor.ts:187-199 | Appends exactly the encoded rule (`lineChar` repeated W times), then the encoded line feed. |
| PrintoutProcessor.DefaultLineRule | src/utils/printout-processor.ts:187-198 | Without a usable `lineChar` the rule is W dashes, W being 32 when the configured width is 0. The line feed follows. |
| PrintoutProcessor.CustomLineRule | src/utils/printout-processor.ts:190-195 | A non-empty `lineChar` is repeated once per column whatever its length, so the rule has `len(lineChar) * W` characters. |
| PrintoutProcessor.AddQRCode | src/utils/printout-processor.ts:202-237 | Appends exactly the QR header for the node's settings and payload length, then the encoded payload. |
| PrintoutProcessor.ReadQRSettings | src/utils/printout-processor.ts:203-221 | The attribute loop, taking keys in any order, yields the settings in which each field is its parsed attribute or its default (0, 0, 1). |
| PrintoutProcessor.ApplyQRAttributeAdds | src/utils/printout-processor.ts:208-220 | One case of the attribute `switch` changes the settings exactly as adding that attribute does. |
| PrintoutProcessor.QRNodeBytes | src/utils/printout-processor.ts:202-236 | A QR node gives seven header bytes, then the encoded payload. The header is `1B 5A`, then version, level and magnification as bytes (0, 0 and 1 when absent), then two length bytes. The low byte plus 256 times the high byte equals the payload's character count mod 65536. |
| PrintoutProcessor.LengthBytes | src/utils/printout-processor.ts:231-232 | The low length byte plus 256 times the high one is the length mod 65536. |
| PrintoutProcessor.QRLengthExample | src/utils/printout-processor.ts:231-232 | A 300-character payload has length bytes 44 and 1. |
| PrintoutProcessor.AddPrintOptions | src/utils/printout-processor.ts:239-245 | Appends exactly `PrintOptionBytes` of the merged options. |
| PrintoutProcessor.AddKeys | src/utils/printout-processor.ts:240-245 | The `for...in` loop appends, key by key in order, each key's command when its value is a boolean and the key names a command. |
| PrintOptions.PrintOptionBytesByFlag | src/utils/printout-processor.ts:26-30 | The option bytes are beep, cut and tailing line, in that order. Each is present exactly when its flag holds a boolean, so `false` emits it too. |
| PrintOptions.OptionBytesOfMergedOptions | src/utils/printout-processor.ts:31-44 | Unless the caller sets a flag to `undefined`, the merged options give all three commands, `BEEP + CUT + TAILING_LINE`. |
| PrintOptions.Merge | src/utils/printout-processor.ts:31-44 | Every field the caller passed replaces the default, and an omitted field keeps it (false, false, false, `UTF8`, 0, 32). A flag set to `undefined` merges to a non-boolean (`None`). A codepage set to `undefined` merges to `NaN`. |
| EscPos.ToUint8 | src/utils/printout-processor.ts:12-14 | `NaN` becomes 0. An integer becomes a byte congruent to it mod 256, and an integer in 0..255 keeps its value. |
| EscPos.Buf | src/utils/printout-processor.ts:12-14 | One byte per element, each the element's conversion. |
| Buffers.BufferHelper.Concat | src/utils/printout-processor.ts:85 | Appends the chunk after the bytes already held. |
| Buffers.BufferHelper.ToBuffer | src/utils/printout-processor.ts:81 | Returns the bytes appended so far, in order. |
| JsNumber.ParseDecimalString | src/utils/printout-processor.ts:112 | `parseInt` of the numeral of n, then a non-digit (and no `x` under auto radix), is n. |
| JsNumber.ParseNegativeDecimalString | src/utils/printout-processor.ts:145 | `parseInt` of `-` and a numeral is its negation. |
| JsNumber.ParseNoDigits | src/utils/printout-processor.ts:118 | `parseInt` of a string that starts with neither a digit, white space nor a sign is `NaN`. |
| JsNumber.ParseHex | src/utils/printout-processor.ts:112 | With no radix, `0x` followed by hexadecimal digits parses as the digits' base-16 value. |
| JsNumber.ParseHexPrefix | src/utils/printout-processor.ts:112 | With no radix, `0x1F` parses as 31. |
| JsNumber.ParseHexPrefixDecimal | src/utils/printout-processor.ts:145 | With radix 10, `0x1F` parses as 0. |
| JsString.TrimIsSlice | src/utils/printout-processor.ts:154-155 | `trim` returns a slice of its input with only white space on either side. |
| JsString.SplitOnce | src/utils/printout-processor.ts:151-155 | A string with one bar splits into the parts before and after its first occurrence. |
| JsString.JoinSplit | src/utils/printout-processor.ts:152 | Joining the parts of a split on the separator gives the string back. |
| JsString.SplitJoin | src/utils/printout-processor.ts:152 | Splitting the join of separator-free parts gives the parts back. |

## Left out

- XML parsing (`react-xml-parser`) is not modelled. The model starts from the parsed tree, and an unparsable document is not represented.
- The text codec (`iconv.encode`) and the base64 decoder are opaque function parameters. Their byte output is not modelled, and neither are their failures. `iconv.encode` throws for an unknown encoding name, so the encoder throws at the first known child instead of returning bytes. The model's codec is total, so `StartsWithCodepage` and `EndsWithOptionsAndReset` hold for every `<Printout>` document only under that assumption.
- The implementation of `BufferHelper` (src/utils/buffer-helper.ts) is not part of this model. Only its append and read behaviour is modelled.
- Strings are sequences of UTF-16 code units taken as Dafny characters, so `length` counts characters without any surrogate-pair handling.
- An `encoding` or `colWidth` set explicitly to `undefined` is not modelled: those fields are either omitted or given. (An undefined `codepage` is modelled, and so are undefined flags.)
- `colWidth` is a natural number. A negative width makes `lineChar.repeat(totalWidth)` in `addLine` throw a `RangeError`; the model does not represent that error.
- A very large `indent` or `colWidth` makes `repeat` throw a `RangeError` once the string would exceed the engine's length limit (the indent, two-column and line steps). Strings in the model are unbounded, so that error is not represented.
- `parseInt` is modelled on unbounded integers. Floating-point precision loss for very long numerals, and `-0` (which becomes byte 0 either way), are not modelled.
- Option keys a caller adds beyond the six declared ones are not modelled. `PRINT_OPTIONS[key]` is a plain object lookup, so a boolean-valued key named after an inherited property (such as `constructor`) finds a truthy value there; that case is not modelled either.
- The alignment table lookup treats every name other than `left`, `center` and `right` as `undefined`. Inherited object properties such as `constructor` are not modelled.
- A node without an `attributes` object, which makes `Object.keys` throw, is not modelled. A node always has a (possibly empty) attribute map.
- The `Object.keys` order of the attribute loops is abstracted: the loops take keys in any order, and the result is proved to be independent of it.
- LengthLow: `length & 0xff` is written as `length % 256`, which is equal for every non-negative length.
- LengthHigh: `(length & 0xff00) >> 8` is written as `(length / 256) % 256`, which is equal for every non-negative length.
- PrintOptions.PrintOptionBytesByFlag follows the code: a flag that is `false` still emits its command, because the test is only that the value is a boolean. The bytes come in key order (beep, cut, tailing line), not in `PRINT_OPTIONS` order.
