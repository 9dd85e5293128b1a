/**
 * The ESC/POS printout encoder (src/utils/printout-processor.ts): it turns a
 * parsed `<Printout>` element tree and print options into the byte stream a
 * thermal printer interprets. `processText` writes, in order, the codepage
 * preamble, the bytes of each direct child of the root (`Text`, `NewLine`,
 * `QRCode`, `Line`; anything else is skipped), the print-option bytes and
 * the `ESC @` reset.
 *
 * Each emitting routine is a method that appends to a `BufferHelper` and is
 * proved against a function giving the bytes it appends; the properties of
 * the encoding are lemmas about those functions.
 */
module PrintoutProcessor {
  import opened Wrappers
  import opened JsString
  import opened JsNumber
  import opened EscPos
  import opened Buffers
  import opened PrintOptions
  import opened TextLayout

  /** A parsed markup element: tag name, attributes, text value and child elements. */
  datatype Node = Node(name: string, attrs: map<string, string>, value: string, children: seq<Node>)

  /** `iconv.encode(text, encoding)`: the text codec, which the model takes as a parameter. */
  type Codec = (string, string) -> seq<byte>

  /** `Buffer.from(text, 'base64').toString('utf-8')`: the base64 decoder, likewise a parameter. */
  type Base64Decoder = string -> string

  function Attr(attrs: map<string, string>, key: string): Option<string> {
    if key in attrs then Some(attrs[key]) else None
  }

  // ----- The codepage preamble (`setCodepage`) -----

  /** `ESC t n` selects codepage n; `FS &` or `FS .` follows, chosen by whether the codepage is 0. */
  function CodepageBytes(o: Options): seq<byte> {
    [ESC, B('t')] + [ToUint8(o.codepage)] + (if o.codepage == Int(0) then [FS, B('&')] else [FS, B('.')])
  }

  method SetCodepage(bytes: BufferHelper, o: Options)
    modifies bytes
    ensures bytes.bytes == old(bytes.bytes) + CodepageBytes(o)
  {
    bytes.Concat([ESC, B('t')]);
    bytes.Concat(Buf([o.codepage]));
    if o.codepage == Int(0) {
      bytes.Concat([FS, B('&')]);
    } else {
      bytes.Concat([FS, B('.')]);
    }
  }

  // ----- Text nodes (`addText`) -----

  /**
   * The locals of `addText` that the attribute loop sets. A field the
   * source would hold as `NaN` or `undefined` is `NaN`.
   */
  datatype TextStyle = TextStyle(font: Num, align: Num, fontWidth: Num, fontHeight: Num, bold: int, isBase64: bool)

  const DefaultTextStyle: TextStyle := TextStyle(Int(0), Int(0), Int(0), Int(0), 0, false)

  /** `stringToTargetAlignment[name]`: 0, 1, 2 for left, center, right; `undefined` otherwise. */
  function AlignmentCode(name: string): Num {
    if name == "left" then Int(0)
    else if name == "center" then Int(1)
    else if name == "right" then Int(2)
    else NaN
  }

  /** `intToTargetWidth[i]`: the width nibble for indices 0..3, `undefined` for any other. */
  function WidthCode(i: Num): Num {
    if i.Int? && 0 <= i.value < 4 then Int([0x00, 0x10, 0x20, 0x30][i.value]) else NaN
  }

  /** `intToTargetHeight[i]`: the height nibble for indices 0..3, `undefined` for any other. */
  function HeightCode(i: Num): Num {
    if i.Int? && 0 <= i.value < 4 then Int([0x00, 0x01, 0x02, 0x03][i.value]) else NaN
  }

  /** One case of the `switch` on an attribute key in `addText`. */
  function ApplyTextAttribute(style: TextStyle, key: string, value: string): TextStyle {
    if key == "font" then style.(font := ParseInt(value, Unspecified))
    else if key == "align" then style.(align := AlignmentCode(value))
    else if key == "fontWidth" then style.(fontWidth := WidthCode(ParseInt(value, Unspecified)))
    else if key == "fontHeight" then style.(fontHeight := HeightCode(ParseInt(value, Unspecified)))
    else if key == "bold" then (if value == "1" then style.(bold := 1) else style)
    else if key == "base64" then (if value == "1" then style.(isBase64 := true) else style)
    else style
  }

  function FontOf(v: Option<string>): Num {
    if v.Some? then ParseInt(v.value, Unspecified) else Int(0)
  }

  function AlignOf(v: Option<string>): Num {
    if v.Some? then AlignmentCode(v.value) else Int(0)
  }

  function WidthOf(v: Option<string>): Num {
    if v.Some? then WidthCode(ParseInt(v.value, Unspecified)) else Int(0)
  }

  function HeightOf(v: Option<string>): Num {
    if v.Some? then HeightCode(ParseInt(v.value, Unspecified)) else Int(0)
  }

  /** The text style of `attrs`, field by field: each field is set by its own attribute or keeps its default. */
  function TextStyleOf(attrs: map<string, string>): TextStyle {
    TextStyle(FontOf(Attr(attrs, "font")), AlignOf(Attr(attrs, "align")),
      WidthOf(Attr(attrs, "fontWidth")), HeightOf(Attr(attrs, "fontHeight")),
      if Attr(attrs, "bold") == Some("1") then 1 else 0, Attr(attrs, "base64") == Some("1"))
  }

  /** Handling one more attribute key changes the style exactly as adding that attribute does. */
  lemma ApplyTextAttributeAdds(attrs: map<string, string>, key: string, value: string)
    requires key !in attrs
    ensures TextStyleOf(attrs[key := value]) == ApplyTextAttribute(TextStyleOf(attrs), key, value)
  {
    var updated := attrs[key := value];
    var style, style' := TextStyleOf(attrs), TextStyleOf(updated);
    AttrUpdate(attrs, key, value, "font");
    AttrUpdate(attrs, key, value, "align");
    AttrUpdate(attrs, key, value, "fontWidth");
    AttrUpdate(attrs, key, value, "fontHeight");
    AttrUpdate(attrs, key, value, "bold");
    AttrUpdate(attrs, key, value, "base64");
  }

  lemma AttrUpdate(attrs: map<string, string>, key: string, value: string, k: string)
    ensures Attr(attrs[key := value], k) == if k == key then Some(value) else Attr(attrs, k)
  {
  }

  /**
   * The attribute loop of `addText`. The keys are taken in an arbitrary
   * order: each key sets only its own field, so the result does not depend
   * on `Object.keys` order.
   */
  method ReadTextStyle(attrs: map<string, string>) returns (style: TextStyle)
    ensures style == TextStyleOf(attrs)
  {
    style := DefaultTextStyle;
    var pending := attrs.Keys;
    while pending != {}
      invariant pending <= attrs.Keys
      invariant style == TextStyleOf(attrs - pending)
      decreases pending
    {
      var key :| key in pending;
      ApplyTextAttributeAdds(attrs - pending, key, attrs[key]);
      assert (attrs - pending)[key := attrs[key]] == attrs - (pending - {key});
      style := ApplyTextAttribute(style, key, attrs[key]);
      pending := pending - {key};
    }
    assert attrs - {} == attrs;
  }

  /**
   * The twelve control bytes of a text run: `GS ! size`, `ESC E bold`,
   * `ESC a align`, `ESC M font`, the size being width code plus height code.
   */
  function ControlBlock(style: TextStyle): seq<byte> {
    Buf([Int(GS), Int(EXCLAMATION_MARK), Add(style.fontWidth, style.fontHeight),
         Int(ESC), Int(LETTER_E), Int(style.bold),
         Int(ESC), Int(LETTER_a), style.align,
         Int(ESC), Int(LETTER_M), style.font])
  }

  /** The text `addText` prints: base64-decoded if asked, then indented, then laid out in two columns. */
  function TextValue(node: Node, o: Options, decode: Base64Decoder): string {
    var text := if TextStyleOf(node.attrs).isBase64 then decode(node.value) else node.value;
    TwoColumn(Indent(text, Attr(node.attrs, "indent")), o.colWidth)
  }

  function TextBytes(node: Node, o: Options, codec: Codec, decode: Base64Decoder): seq<byte> {
    ControlBlock(TextStyleOf(node.attrs)) + codec(TextValue(node, o, decode), o.encoding)
  }

  method AddText(node: Node, bytes: BufferHelper, o: Options, codec: Codec, decode: Base64Decoder)
    modifies bytes
    ensures bytes.bytes == old(bytes.bytes) + TextBytes(node, o, codec, decode)
  {
    var style := ReadTextStyle(node.attrs);
    var text := node.value;
    if style.isBase64 {
      text := decode(text);
    }
    text := Indent(text, Attr(node.attrs, "indent"));
    text := TwoColumn(text, o.colWidth);
    assert text == TextValue(node, o, decode);
    bytes.Concat(ControlBlock(style));
    bytes.Concat(codec(text, o.encoding));
    AppendAssoc(old(bytes.bytes), ControlBlock(style), codec(text, o.encoding));
  }

  /**
   * The bold, alignment and font bytes of a text run: bold is 1 exactly when
   * the attribute is `"1"`; alignment is 0, 1, 2 for left, center, right,
   * and 0 for anything else (the table's `undefined` becomes byte 0) or no
   * attribute; the font is its parsed number as a byte, 0 when absent.
   */
  lemma TextStyleBytes(a: map<string, string>)
    ensures ToUint8(Int(TextStyleOf(a).bold)) == if Attr(a, "bold") == Some("1") then 1 else 0
    ensures ToUint8(TextStyleOf(a).align) == if Attr(a, "align") == Some("center") then 1
                                            else if Attr(a, "align") == Some("right") then 2
                                            else 0
    ensures ToUint8(TextStyleOf(a).font) == match Attr(a, "font")
                                           case None => 0
                                           case Some(f) => ToUint8(ParseInt(f, Unspecified))
  {
  }

  /**
   * The twelve control bytes in order: `GS !` and the size byte, `ESC E` and
   * the bold flag, `ESC a` and the alignment, `ESC M` and the font.
   */
  lemma ControlBlockLayout(style: TextStyle)
    ensures ControlBlock(style) == [GS, EXCLAMATION_MARK, ToUint8(Add(style.fontWidth, style.fontHeight)),
      ESC, LETTER_E, ToUint8(Int(style.bold)), ESC, LETTER_a, ToUint8(style.align), ESC, LETTER_M, ToUint8(style.font)]
  {
  }

  /** A text node emits its twelve control bytes and then its encoded text. */
  lemma TextNodeBytes(node: Node, o: Options, codec: Codec, decode: Base64Decoder)
    ensures var r := TextBytes(node, o, codec, decode);
      |r| >= 12 && r[..12] == ControlBlock(TextStyleOf(node.attrs)) && r[12..] == codec(TextValue(node, o, decode), o.encoding)
  {
    ControlBlockLayout(TextStyleOf(node.attrs));
  }

  /**
   * For size indices 0..3 (an absent attribute counting as 0) the size byte
   * is `16 * width + height`, at most 0x33.
   */
  lemma SizeByteOfIndices(attrs: map<string, string>, w: nat, h: nat)
    requires w < 4 && h < 4
    requires if "fontWidth" in attrs then attrs["fontWidth"] == DecimalString(w) else w == 0
    requires if "fontHeight" in attrs then attrs["fontHeight"] == DecimalString(h) else h == 0
    ensures ControlBlock(TextStyleOf(attrs))[2] == 16 * w + h <= 0x33
  {
    var style := TextStyleOf(attrs);
    WidthOfIndex(Attr(attrs, "fontWidth"), w);
    HeightOfIndex(Attr(attrs, "fontHeight"), h);
    SizeByte(style);
  }

  /** A width attribute holding the numeral of an index below 4 (or none, for 0) selects that index's nibble. */
  lemma WidthOfIndex(v: Option<string>, w: nat)
    requires w < 4
    requires if v.Some? then v.value == DecimalString(w) else w == 0
    ensures WidthOf(v) == Int(16 * w)
  {
    if v.Some? {
      ParseNumeral(v.value, w);
      assert WidthOf(v) == WidthCode(Int(w));
    }
    WidthCodeOfIndex(w);
  }

  /** A height attribute holding the numeral of an index below 4 (or none, for 0) selects that index. */
  lemma HeightOfIndex(v: Option<string>, h: nat)
    requires h < 4
    requires if v.Some? then v.value == DecimalString(h) else h == 0
    ensures HeightOf(v) == Int(h)
  {
    if v.Some? {
      ParseNumeral(v.value, h);
      assert HeightOf(v) == HeightCode(Int(h));
    }
    HeightCodeOfIndex(h);
  }

  lemma SizeByte(style: TextStyle)
    ensures ControlBlock(style)[2] == ToUint8(Add(style.fontWidth, style.fontHeight))
  {
    ControlBlockLayout(style);
  }

  /** The width table maps index `w` below 4 to `16 * w`. */
  lemma WidthCodeOfIndex(w: nat)
    requires w < 4
    ensures WidthCode(Int(w)) == Int(16 * w)
  {
    if w == 0 {
    } else if w == 1 {
    } else if w == 2 {
    } else {
    }
  }

  /** The height table maps index `h` below 4 to `h`. */
  lemma HeightCodeOfIndex(h: nat)
    requires h < 4
    ensures HeightCode(Int(h)) == Int(h)
  {
    if h == 0 {
    } else if h == 1 {
    } else if h == 2 {
    } else {
    }
  }

  lemma ParseNumeral(s: string, n: nat)
    requires s == DecimalString(n)
    ensures ParseInt(s, Unspecified) == Int(n)
  {
    ParseDecimalString(n, [], Unspecified);
    assert DecimalString(n) + [] == DecimalString(n);
  }

  /** The width entries fill the high nibble and the height entries the low one, so their sum is their bitwise or. */
  lemma NibblesOr(w: nat, h: nat)
    requires w < 4 && h < 4
    ensures (((16 * w) as bv8) | (h as bv8)) as int == 16 * w + h
  {
    if w == 0 {
    } else if w == 1 {
    } else if w == 2 {
    } else {
    }
  }

  /**
   * A width index outside the table yields `undefined`, so the sum is `NaN`
   * and the whole size byte is 0, whatever the height.
   */
  lemma SizeByteOfMissingWidth(attrs: map<string, string>, w: nat)
    requires w >= 4 && "fontWidth" in attrs && attrs["fontWidth"] == DecimalString(w)
    ensures ControlBlock(TextStyleOf(attrs))[2] == 0
  {
    var style := TextStyleOf(attrs);
    ParseNumeral(attrs["fontWidth"], w);
    assert style.fontWidth == NaN;
    ControlBlockLayout(style);
  }

  /**
   * When the (decoded) text holds exactly one `|`, the `indent` attribute
   * has no effect: the two-column step trims the indent away again.
   */
  lemma IndentIgnoredInTwoColumnText(node: Node, o: Options, decode: Base64Decoder)
    requires var style := TextStyleOf(node.attrs);
      multiset(if style.isBase64 then decode(node.value) else node.value)['|'] == 1
    ensures var style := TextStyleOf(node.attrs);
      TextValue(node, o, decode) == TwoColumn(if style.isBase64 then decode(node.value) else node.value, o.colWidth)
  {
    var text := if TextStyleOf(node.attrs).isBase64 then decode(node.value) else node.value;
    var indented := Indent(text, Attr(node.attrs, "indent"));
    if indented != text {
      var n := IndentCount(Attr(node.attrs, "indent")).value;
      IndentAbsorbedByTwoColumn(n, text, o.colWidth);
    }
  }

  // ----- NewLine nodes (`addNewLine`) -----

  function NewLineBytes(o: Options, codec: Codec): seq<byte> {
    codec("\n", o.encoding)
  }

  method AddNewLine(bytes: BufferHelper, o: Options, codec: Codec)
    modifies bytes
    ensures bytes.bytes == old(bytes.bytes) + NewLineBytes(o, codec)
  {
    bytes.Concat(codec("\n", o.encoding));
  }

  // ----- Line nodes (`addLine`) -----

  /** The `lineChar` attribute when present and not empty, `-` otherwise. */
  function LineChar(attrs: map<string, string>): string {
    if "lineChar" in attrs && attrs["lineChar"] != "" then attrs["lineChar"] else "-"
  }

  function LineBytes(node: Node, o: Options, codec: Codec): seq<byte>
  {
    codec(Repeat(LineChar(node.attrs), ColumnWidth(o.colWidth)), o.encoding) + codec("\n", o.encoding)
  }

  method AddLine(node: Node, bytes: BufferHelper, o: Options, codec: Codec)
    modifies bytes
    ensures bytes.bytes == old(bytes.bytes) + LineBytes(node, o, codec)
  {
    var totalWidth := ColumnWidth(o.colWidth);
    var lineChar := LineChar(node.attrs);
    var line := Repeat(lineChar, totalWidth);
    bytes.Concat(codec(line, o.encoding));
    bytes.Concat(codec("\n", o.encoding));
    AppendAssoc(old(bytes.bytes), codec(line, o.encoding), codec("\n", o.encoding));
  }

  /**
   * A line node without a usable `lineChar` prints a rule of `-` as wide as
   * the column (32 when the width is 0) and then a line feed.
   */
  lemma DefaultLineRule(node: Node, o: Options, codec: Codec)
    requires "lineChar" !in node.attrs || node.attrs["lineChar"] == ""
    ensures var w, rule := ColumnWidth(o.colWidth), Repeat("-", ColumnWidth(o.colWidth));
      |rule| == w && (o.colWidth == 0 ==> w == 32)
      && AllChar(rule, '-')
      && LineBytes(node, o, codec) == codec(rule, o.encoding) + codec("\n", o.encoding)
  {
    RepeatChar('-', ColumnWidth(o.colWidth));
  }

  /**
   * A non-empty `lineChar` attribute is repeated once per column, whatever
   * its length, so the rule is `|lineChar| * W` characters long.
   */
  lemma CustomLineRule(node: Node, o: Options, codec: Codec)
    requires "lineChar" in node.attrs && node.attrs["lineChar"] != ""
    ensures var c, w := node.attrs["lineChar"], ColumnWidth(o.colWidth);
      |Repeat(c, w)| == |c| * w
      && LineBytes(node, o, codec) == codec(Repeat(c, w), o.encoding) + codec("\n", o.encoding)
  {
  }

  // ----- QRCode nodes (`addQRCode`) -----

  /** The locals of `addQRCode` that the attribute loop sets. */
  datatype QRSettings = QRSettings(version: Num, errorCorrectionLevel: Num, magnification: Num)

  const DefaultQRSettings: QRSettings := QRSettings(Int(0), Int(0), Int(1))

  /** One case of the `switch` on an attribute key in `addQRCode`. */
  function ApplyQRAttribute(settings: QRSettings, key: string, value: string): QRSettings {
    if key == "version" then settings.(version := ParseInt(value, Unspecified))
    else if key == "errorCorrectionLevel" then settings.(errorCorrectionLevel := ParseInt(value, Unspecified))
    else if key == "magnification" then settings.(magnification := ParseInt(value, Unspecified))
    else settings
  }

  /** The QR settings of `attrs`, field by field. */
  function QRSettingsOf(attrs: map<string, string>): QRSettings {
    QRSettings(
      if "version" in attrs then ParseInt(attrs["version"], Unspecified) else Int(0),
      if "errorCorrectionLevel" in attrs then ParseInt(attrs["errorCorrectionLevel"], Unspecified) else Int(0),
      if "magnification" in attrs then ParseInt(attrs["magnification"], Unspecified) else Int(1))
  }

  lemma ApplyQRAttributeAdds(attrs: map<string, string>, key: string, value: string)
    requires key !in attrs
    ensures QRSettingsOf(attrs[key := value]) == ApplyQRAttribute(QRSettingsOf(attrs), key, value)
  {
  }

  /** The attribute loop of `addQRCode`; as for text, the key order does not matter. */
  method ReadQRSettings(attrs: map<string, string>) returns (settings: QRSettings)
    ensures settings == QRSettingsOf(attrs)
  {
    settings := DefaultQRSettings;
    var pending := attrs.Keys;
    while pending != {}
      invariant pending <= attrs.Keys
      invariant settings == QRSettingsOf(attrs - pending)
      decreases pending
    {
      var key :| key in pending;
      ApplyQRAttributeAdds(attrs - pending, key, attrs[key]);
      assert (attrs - pending)[key := attrs[key]] == attrs - (pending - {key});
      settings := ApplyQRAttribute(settings, key, attrs[key]);
      pending := pending - {key};
    }
    assert attrs - {} == attrs;
  }

  /** `length & 0xff` */
  function LengthLow(len: nat): byte {
    len % 256
  }

  /** `(length & 0xff00) >> 8` */
  function LengthHigh(len: nat): byte {
    (len / 256) % 256
  }

  /** `ESC Z version level magnification`, then the payload length, low byte first. */
  function QRHeader(settings: QRSettings, len: nat): seq<byte> {
    Buf([Int(ESC), Int(LETTER_Z), settings.version, settings.errorCorrectionLevel, settings.magnification,
         Int(LengthLow(len)), Int(LengthHigh(len))])
  }

  /** The length field counts the characters of the payload string, not its encoded bytes. */
  function QRBytes(node: Node, o: Options, codec: Codec): seq<byte> {
    QRHeader(QRSettingsOf(node.attrs), |node.value|) + codec(node.value, o.encoding)
  }

  method AddQRCode(node: Node, bytes: BufferHelper, o: Options, codec: Codec)
    modifies bytes
    ensures bytes.bytes == old(bytes.bytes) + QRBytes(node, o, codec)
  {
    var settings := ReadQRSettings(node.attrs);
    var codeData := node.value;
    bytes.Concat(QRHeader(settings, |codeData|));
    bytes.Concat(codec(codeData, o.encoding));
    AppendAssoc(old(bytes.bytes), QRHeader(settings, |codeData|), codec(codeData, o.encoding));
  }

  /**
   * A QR node emits seven header bytes and then the encoded payload; the
   * two length bytes give the payload length modulo 65536, little-endian;
   * absent attributes give version 0, level 0, magnification 1.
   */
  lemma QRNodeBytes(node: Node, o: Options, codec: Codec)
    ensures var r, a, len := QRBytes(node, o, codec), node.attrs, |node.value|;
      |r| == 7 + |codec(node.value, o.encoding)|
      && r[7..] == codec(node.value, o.encoding)
      && r[0] == 0x1B && r[1] == 0x5A
      && r[2] == (if "version" in a then ToUint8(ParseInt(a["version"], Unspecified)) else 0)
      && r[3] == (if "errorCorrectionLevel" in a then ToUint8(ParseInt(a["errorCorrectionLevel"], Unspecified)) else 0)
      && r[4] == (if "magnification" in a then ToUint8(ParseInt(a["magnification"], Unspecified)) else 1)
      && r[5] as int + 256 * (r[6] as int) == len % 65536
  {
    var len := |node.value|;
    var h := QRHeader(QRSettingsOf(node.attrs), len);
    assert |h| == 7;
    assert QRBytes(node, o, codec)[..7] == h;
    LengthBytes(len);
  }

  lemma LengthBytes(len: nat)
    ensures LengthLow(len) + 256 * LengthHigh(len) == len % 65536
  {
    var q, lo := len / 256, len % 256;
    var top, hi := q / 256, q % 256;
    assert len == 256 * q + lo;
    assert 256 * q == 65536 * top + 256 * hi;
    SixteenBitRemainder(len, top, 256 * hi + lo);
  }

  lemma SixteenBitRemainder(x: int, t: int, r: int)
    requires 0 <= r < 65536 && x == 65536 * t + r
    ensures x % 65536 == r
  {
  }

  /** A 300-character payload has length bytes 44 and 1. */
  lemma QRLengthExample()
    ensures LengthLow(300) == 44 && LengthHigh(300) == 1
  {
  }

  // ----- Print options (`addPrintOptions`) -----

  /** The `for...in` loop over the merged options object. */
  method AddPrintOptions(bytes: BufferHelper, o: Options)
    modifies bytes
    ensures bytes.bytes == old(bytes.bytes) + PrintOptionBytes(o)
  {
    AddKeys(bytes, o, OptionKeys);
  }

  /** The `for...in` loop of `addPrintOptions`, over the keys in enumeration order. */
  method AddKeys(bytes: BufferHelper, o: Options, keys: seq<string>)
    modifies bytes
    ensures bytes.bytes == old(bytes.bytes) + KeysBytes(o, keys)
  {
    for i := 0 to |keys|
      invariant bytes.bytes == old(bytes.bytes) + KeysBytes(o, keys[..i])
    {
      var key := keys[i];
      var command := PrintOptionCommand(key);
      if BooleanValue(o, key).Some? && command.Some? {
        bytes.Concat(command.value);
      }
      KeysBytesSnoc(o, keys, i);
    }
    assert keys[..|keys|] == keys;
  }

  // ----- The document (`processText`) -----

  /** The bytes of one direct child of the root, dispatched on its tag name. */
  function NodeBytes(node: Node, o: Options, codec: Codec, decode: Base64Decoder): seq<byte>
  {
    if node.name == "Text" then TextBytes(node, o, codec, decode)
    else if node.name == "NewLine" then NewLineBytes(o, codec)
    else if node.name == "QRCode" then QRBytes(node, o, codec)
    else if node.name == "Line" then LineBytes(node, o, codec)
    else []
  }

  /** `NodeBytes` for fixed options, codec and decoder. */
  function NodeEncoder(o: Options, codec: Codec, decode: Base64Decoder): Node -> seq<byte>
  {
    node => NodeBytes(node, o, codec, decode)
  }

  /** The bytes `encode` gives each node of `nodes`, concatenated in order. */
  function ConcatMap(nodes: seq<Node>, encode: Node -> seq<byte>): seq<byte> {
    if nodes == [] then []
    else ConcatMap(nodes[..|nodes| - 1], encode) + encode(nodes[|nodes| - 1])
  }

  /** The bytes of a run of children, in document order. */
  function ChildrenBytes(children: seq<Node>, o: Options, codec: Codec, decode: Base64Decoder): seq<byte>
  {
    ConcatMap(children, NodeEncoder(o, codec, decode))
  }

  /** The complete output of `processText` for a parsed document. */
  function PrintoutBytes(root: Node, ov: Overrides, codec: Codec, decode: Base64Decoder): seq<byte>
  {
    if root.name != "Printout" then []
    else
      var o := Merge(ov);
      CodepageBytes(o) + ChildrenBytes(root.children, o, codec, decode) + PrintOptionBytes(o) + ESC_INIT
  }

  method ProcessText(root: Node, ov: Overrides, codec: Codec, decode: Base64Decoder) returns (out: seq<byte>)
    ensures out == PrintoutBytes(root, ov, codec, decode)
  {
    var options := Merge(ov);
    var bytes := new BufferHelper();
    if root.name != "Printout" {
      out := bytes.ToBuffer();
      return;
    }
    SetCodepage(bytes, options);
    var i := 0;
    while i < |root.children|
      invariant 0 <= i <= |root.children|
      invariant bytes.bytes == CodepageBytes(options) + ChildrenBytes(root.children[..i], options, codec, decode)
    {
      var node := root.children[i];
      ghost var done := ChildrenBytes(root.children[..i], options, codec, decode);
      AddNode(node, bytes, options, codec, decode);
      ChildrenBytesSnoc(root.children, i, options, codec, decode);
      AppendAssoc(CodepageBytes(options), done, NodeBytes(node, options, codec, decode));
      i := i + 1;
    }
    assert root.children[..i] == root.children;
    AddPrintOptions(bytes, options);
    bytes.Concat(ESC_INIT);
    out := bytes.ToBuffer();
  }

  /** The body of the `forEach` callback: the `switch` on the child's tag name. */
  method AddNode(node: Node, bytes: BufferHelper, o: Options, codec: Codec, decode: Base64Decoder)
    modifies bytes
    ensures bytes.bytes == old(bytes.bytes) + NodeBytes(node, o, codec, decode)
  {
    if node.name == "Text" {
      AddText(node, bytes, o, codec, decode);
    } else if node.name == "NewLine" {
      AddNewLine(bytes, o, codec);
    } else if node.name == "QRCode" {
      AddQRCode(node, bytes, o, codec);
    } else if node.name == "Line" {
      AddLine(node, bytes, o, codec);
    }
    NodeBytesByTag(node, o, codec, decode);
  }

  /** The dispatch of `processText` on a child's tag name. */
  lemma NodeBytesByTag(node: Node, o: Options, codec: Codec, decode: Base64Decoder)
    ensures node.name == "Text" ==> NodeBytes(node, o, codec, decode) == TextBytes(node, o, codec, decode)
    ensures node.name == "NewLine" ==> NodeBytes(node, o, codec, decode) == NewLineBytes(o, codec)
    ensures node.name == "QRCode" ==> NodeBytes(node, o, codec, decode) == QRBytes(node, o, codec)
    ensures node.name == "Line" ==> NodeBytes(node, o, codec, decode) == LineBytes(node, o, codec)
    ensures !IsKnownTag(node.name) ==> NodeBytes(node, o, codec, decode) == []
  {
  }

  /** Encoding one more child appends that child's bytes. */
  lemma ChildrenBytesSnoc(children: seq<Node>, i: nat, o: Options, codec: Codec, decode: Base64Decoder)
    requires i < |children|
    ensures ChildrenBytes(children[..i + 1], o, codec, decode)
      == ChildrenBytes(children[..i], o, codec, decode) + NodeBytes(children[i], o, codec, decode)
  {
    assert children[..i + 1][..i] == children[..i];
  }

  /** The output is empty exactly when the root element is not `<Printout>`. */
  lemma EmptyUnlessPrintout(root: Node, ov: Overrides, codec: Codec, decode: Base64Decoder)
    ensures PrintoutBytes(root, ov, codec, decode) == [] <==> root.name != "Printout"
  {
  }

  /**
   * A `<Printout>` output starts with `ESC t n` for the codepage n as a byte,
   * then `FS &` when the configured codepage is 0 and `FS .` otherwise.
   */
  lemma StartsWithCodepage(root: Node, ov: Overrides, codec: Codec, decode: Base64Decoder)
    requires root.name == "Printout"
    ensures StartsWith(PrintoutBytes(root, ov, codec, decode), CodepageBytes(Merge(ov)))
  {
    var o := Merge(ov);
    var head, children := CodepageBytes(o), ChildrenBytes(root.children, o, codec, decode);
    StartsWithAppend(head, children);
    StartsWithExtend(head + children, PrintOptionBytes(o), head);
    StartsWithExtend(head + children + PrintOptionBytes(o), ESC_INIT, head);
  }

  /** `s` starts with `prefix`. */
  predicate StartsWith(s: seq<byte>, prefix: seq<byte>) {
    |prefix| <= |s| && s[..|prefix|] == prefix
  }

  lemma StartsWithAppend(head: seq<byte>, tail: seq<byte>)
    ensures StartsWith(head + tail, head)
  {
    assert (head + tail)[..|head|] == head;
  }

  lemma StartsWithExtend(s: seq<byte>, more: seq<byte>, prefix: seq<byte>)
    requires StartsWith(s, prefix)
    ensures StartsWith(s + more, prefix)
  {
    assert (s + more)[..|prefix|] == s[..|prefix|];
  }

  /**
   * The preamble is five bytes: `ESC t`, the codepage modulo 256, then `FS &`
   * for codepage 0 and `FS .` for any other; a codepage the caller set to
   * `undefined` is written as 0 but is not equal to 0, so `FS .` follows.
   */
  lemma CodepageLayout(o: Options)
    ensures o.codepage.Int? ==>
      CodepageBytes(o) == [0x1B, 0x74, o.codepage.value % 256, 0x1C, if o.codepage.value == 0 then 0x26 else 0x2E]
    ensures o.codepage.NaN? ==> CodepageBytes(o) == [0x1B, 0x74, 0x00, 0x1C, 0x2E]
  {
  }

  /** `s` ends with `suffix`. */
  predicate EndsWith(s: seq<byte>, suffix: seq<byte>) {
    |suffix| <= |s| && s[|s| - |suffix|..] == suffix
  }

  lemma EndsWithAppend(head: seq<byte>, tail: seq<byte>)
    ensures EndsWith(head + tail, tail)
  {
    assert (head + tail)[|head|..] == tail;
  }

  /**
   * A `<Printout>` output ends with the option bytes and then `ESC @`; unless
   * a flag was set to `undefined`, those are beep, cut and four line feeds.
   */
  lemma EndsWithOptionsAndReset(root: Node, ov: Overrides, codec: Codec, decode: Base64Decoder)
    requires root.name == "Printout"
    ensures EndsWith(PrintoutBytes(root, ov, codec, decode), PrintOptionBytes(Merge(ov)) + [0x1B, 0x40])
    ensures !ov.beep.Undefined? && !ov.cut.Undefined? && !ov.tailingLine.Undefined? ==>
      EndsWith(PrintoutBytes(root, ov, codec, decode), [0x1B, 0x42, 0x03, 0x02, 0x1B, 0x69, 0x0A, 0x0A, 0x0A, 0x0A, 0x1B, 0x40])
  {
    var o := Merge(ov);
    var head := CodepageBytes(o) + ChildrenBytes(root.children, o, codec, decode);
    var opts := PrintOptionBytes(o);
    assert PrintoutBytes(root, ov, codec, decode) == head + opts + ESC_INIT;
    AppendAssoc(head, opts, ESC_INIT);
    EndsWithAppend(head, opts + ESC_INIT);
    if !ov.beep.Undefined? && !ov.cut.Undefined? && !ov.tailingLine.Undefined? {
      OptionBytesOfMergedOptions(ov);
      TrailerBytes();
    }
  }

  lemma TrailerBytes()
    ensures BEEP + CUT + TAILING_LINE + ESC_INIT == [0x1B, 0x42, 0x03, 0x02, 0x1B, 0x69, 0x0A, 0x0A, 0x0A, 0x0A, 0x1B, 0x40]
  {
  }

  /** Concatenating the encodings of two runs of nodes encodes the joined run. */
  lemma {:induction false} ConcatMapAppend(a: seq<Node>, b: seq<Node>, encode: Node -> seq<byte>)
    ensures ConcatMap(a + b, encode) == ConcatMap(a, encode) + ConcatMap(b, encode)
    decreases |b|
  {
    if b == [] {
      assert a + b == a;
    } else {
      var b' := b[..|b| - 1];
      assert (a + b)[..|a + b| - 1] == a + b';
      assert (a + b)[|a + b| - 1] == b[|b| - 1];
      ConcatMapAppend(a, b', encode);
      AppendAssoc(ConcatMap(a, encode), ConcatMap(b', encode), encode(b[|b| - 1]));
    }
  }

  /** The children's bytes are those of each child, concatenated in document order. */
  lemma ChildrenBytesAppend(a: seq<Node>, b: seq<Node>, o: Options, codec: Codec, decode: Base64Decoder)
    ensures ChildrenBytes(a + b, o, codec, decode) == ChildrenBytes(a, o, codec, decode) + ChildrenBytes(b, o, codec, decode)
  {
    ConcatMapAppend(a, b, NodeEncoder(o, codec, decode));
  }

  predicate IsKnownTag(name: string) {
    name == "Text" || name == "NewLine" || name == "QRCode" || name == "Line"
  }

  /** The children whose tag the encoder recognises, in order. */
  function KnownChildren(children: seq<Node>): seq<Node> {
    if children == [] then []
    else
      var last := children[|children| - 1];
      KnownChildren(children[..|children| - 1]) + (if IsKnownTag(last.name) then [last] else [])
  }

  /** Nodes that encode to nothing can be dropped without changing the concatenation. */
  lemma {:induction false} ConcatMapKnown(nodes: seq<Node>, encode: Node -> seq<byte>)
    requires forall n: Node :: !IsKnownTag(n.name) ==> encode(n) == []
    ensures ConcatMap(KnownChildren(nodes), encode) == ConcatMap(nodes, encode)
    decreases |nodes|
  {
    if nodes != [] {
      var init, last := nodes[..|nodes| - 1], nodes[|nodes| - 1];
      ConcatMapKnown(init, encode);
      if IsKnownTag(last.name) {
        ConcatMapAppend(KnownChildren(init), [last], encode);
        assert [last][..0] == [];
      } else {
        assert KnownChildren(nodes) == KnownChildren(init) + [] == KnownChildren(init);
        assert encode(last) == [];
        assert ConcatMap(nodes, encode) == ConcatMap(init, encode) + [];
      }
    }
  }

  /** Children with an unknown tag add no bytes: dropping them changes nothing. */
  lemma UnknownChildrenIgnored(children: seq<Node>, o: Options, codec: Codec, decode: Base64Decoder)
    ensures ChildrenBytes(KnownChildren(children), o, codec, decode) == ChildrenBytes(children, o, codec, decode)
  {
    forall n: Node | !IsKnownTag(n.name)
      ensures NodeEncoder(o, codec, decode)(n) == []
    {
      NodeBytesByTag(n, o, codec, decode);
    }
    ConcatMapKnown(children, NodeEncoder(o, codec, decode));
  }

  /** `children` with the children of each of them removed. */
  function Pruned(children: seq<Node>): (r: seq<Node>)
    ensures |r| == |children|
  {
    if children == [] then []
    else Pruned(children[..|children| - 1]) + [children[|children| - 1].(children := [])]
  }

  /** An encoding that ignores each node's children gives the same bytes for the pruned run. */
  lemma {:induction false} ConcatMapPruned(nodes: seq<Node>, encode: Node -> seq<byte>)
    requires forall n: Node :: encode(n.(children := [])) == encode(n)
    ensures ConcatMap(Pruned(nodes), encode) == ConcatMap(nodes, encode)
    decreases |nodes|
  {
    if nodes != [] {
      var init := nodes[..|nodes| - 1];
      ConcatMapPruned(init, encode);
      var p := Pruned(nodes);
      assert p[..|p| - 1] == Pruned(init);
    }
  }

  /** A node's bytes depend on its tag, attributes and value only. */
  lemma NodeBytesIgnoreChildren(node: Node, o: Options, codec: Codec, decode: Base64Decoder)
    ensures NodeBytes(node.(children := []), o, codec, decode) == NodeBytes(node, o, codec, decode)
  {
    var p := node.(children := []);
    assert p.name == node.name && p.attrs == node.attrs && p.value == node.value;
    NodeBytesByTag(node, o, codec, decode);
    NodeBytesByTag(p, o, codec, decode);
    if node.name == "Text" {
      assert TextValue(p, o, decode) == TextValue(node, o, decode);
    }
  }

  /** Only the root's direct children are visited: what lies below them never reaches the output. */
  lemma GrandchildrenIgnored(children: seq<Node>, o: Options, codec: Codec, decode: Base64Decoder)
    ensures ChildrenBytes(Pruned(children), o, codec, decode) == ChildrenBytes(children, o, codec, decode)
  {
    forall n: Node
      ensures NodeEncoder(o, codec, decode)(n.(children := [])) == NodeEncoder(o, codec, decode)(n)
    {
      NodeBytesIgnoreChildren(n, o, codec, decode);
    }
    ConcatMapPruned(children, NodeEncoder(o, codec, decode));
  }
}
