/**
 * The print options of the encoder (src/utils/printout-processor.ts, lines
 * 26-44 and 239-245): their defaults, the shallow merge of the caller's
 * options over them, and the option bytes that `addPrintOptions` derives from
 * the merged object.
 */
module PrintOptions {
  import opened Wrappers
  import opened JsNumber
  import opened EscPos

  /**
   * One field of the options object a caller passes: left out, present with
   * the value `undefined`, or present with a value.
   */
  datatype Field<T> = Omitted | Undefined | Given(value: T)

  /**
   * The options a caller passes. The flags and the codepage distinguish a
   * field left out (`Omitted`) from one set to `undefined`; for `encoding` and
   * `colWidth`, `None` marks a field left out. The column
   * width is a natural number: `addLine` throws a `RangeError` for a negative
   * one, which the model does not represent.
   */
  datatype Overrides = Overrides(
    beep: Field<bool>, cut: Field<bool>, tailingLine: Field<bool>,
    encoding: Option<string>, codepage: Field<int>, colWidth: Option<nat>)

  /**
   * The merged options object. A flag is `None` when its value is not a
   * boolean, which after the merge happens only when the caller set it to
   * `undefined`; the codepage is `NaN` in that case.
   */
  datatype Options = Options(
    beep: Option<bool>, cut: Option<bool>, tailingLine: Option<bool>,
    encoding: string, codepage: Num, colWidth: nat)

  /** `defaultOptions` */
  const DefaultOptions: Options := Options(Some(false), Some(false), Some(false), "UTF8", Int(0), 32)

  /** A call that passes no options. */
  const NoOverrides: Overrides := Overrides(Omitted, Omitted, Omitted, None, Omitted, None)

  function MergeFlag(default: Option<bool>, f: Field<bool>): Option<bool> {
    match f
    case Omitted => default
    case Undefined => None
    case Given(b) => Some(b)
  }

  function MergeCodepage(default: Num, f: Field<int>): Num {
    match f
    case Omitted => default
    case Undefined => NaN
    case Given(n) => Int(n)
  }

  /** `{ ...defaultOptions, ...options }`: every field the caller passed replaces the default. */
  function Merge(ov: Overrides): (o: Options)
    ensures ov.beep.Omitted? ==> o.beep == DefaultOptions.beep
    ensures ov.beep.Undefined? ==> o.beep == None
    ensures ov.beep.Given? ==> o.beep == Some(ov.beep.value)
    ensures ov.cut.Omitted? ==> o.cut == DefaultOptions.cut
    ensures ov.cut.Undefined? ==> o.cut == None
    ensures ov.cut.Given? ==> o.cut == Some(ov.cut.value)
    ensures ov.tailingLine.Omitted? ==> o.tailingLine == DefaultOptions.tailingLine
    ensures ov.tailingLine.Undefined? ==> o.tailingLine == None
    ensures ov.tailingLine.Given? ==> o.tailingLine == Some(ov.tailingLine.value)
    ensures o.encoding == ov.encoding.GetOr(DefaultOptions.encoding)
    ensures ov.codepage.Omitted? ==> o.codepage == DefaultOptions.codepage
    ensures ov.codepage.Undefined? ==> o.codepage == NaN
    ensures ov.codepage.Given? ==> o.codepage == Int(ov.codepage.value)
    ensures o.colWidth == ov.colWidth.GetOr(DefaultOptions.colWidth)
  {
    Options(
      MergeFlag(DefaultOptions.beep, ov.beep),
      MergeFlag(DefaultOptions.cut, ov.cut),
      MergeFlag(DefaultOptions.tailingLine, ov.tailingLine),
      ov.encoding.GetOr(DefaultOptions.encoding),
      MergeCodepage(DefaultOptions.codepage, ov.codepage),
      ov.colWidth.GetOr(DefaultOptions.colWidth))
  }

  /**
   * The keys of the merged object in `for...in` order: the spread lays down
   * the default keys first, in declaration order, and the caller's values
   * then replace theirs in place.
   */
  const OptionKeys: seq<string> := ["beep", "cut", "tailingLine", "encoding", "codepage", "colWidth"]

  /** `typeof options[key] === 'boolean'`: the value under `key` when it is a boolean. */
  function BooleanValue(o: Options, key: string): Option<bool> {
    if key == "beep" then o.beep
    else if key == "cut" then o.cut
    else if key == "tailingLine" then o.tailingLine
    else None
  }

  /** `PRINT_OPTIONS[key]` */
  function PrintOptionCommand(key: string): Option<seq<byte>> {
    if key == "cut" then Some(CUT)
    else if key == "beep" then Some(BEEP)
    else if key == "tailingLine" then Some(TAILING_LINE)
    else None
  }

  /** What one pass of the `for...in` loop appends for `key`. */
  function KeyBytes(o: Options, key: string): seq<byte> {
    if BooleanValue(o, key).Some? && PrintOptionCommand(key).Some? then PrintOptionCommand(key).value else []
  }

  /** What the loop appends for `keys`, in order. */
  function KeysBytes(o: Options, keys: seq<string>): seq<byte> {
    if keys == [] then [] else KeysBytes(o, keys[..|keys| - 1]) + KeyBytes(o, keys[|keys| - 1])
  }

  lemma KeysBytesSnoc(o: Options, keys: seq<string>, i: nat)
    requires i < |keys|
    ensures KeysBytes(o, keys[..i + 1]) == KeysBytes(o, keys[..i]) + KeyBytes(o, keys[i])
  {
    assert keys[..i + 1][..i] == keys[..i];
  }

  /** Everything `addPrintOptions` appends. */
  function PrintOptionBytes(o: Options): seq<byte> {
    KeysBytes(o, OptionKeys)
  }

  /**
   * The option bytes are the beep, cut and tailing-line commands, in that
   * order, each present exactly when its flag holds a boolean: a flag set to
   * `false` is emitted as well.
   */
  lemma PrintOptionBytesByFlag(o: Options)
    ensures PrintOptionBytes(o) ==
      (if o.beep.Some? then BEEP else []) +
      (if o.cut.Some? then CUT else []) +
      (if o.tailingLine.Some? then TAILING_LINE else [])
  {
    KeysBytesOfFirstKeys(o, OptionKeys);
    KeyBytesOfFlags(o);
  }

  /** Three keys and then keys that append nothing: the bytes of the three. */
  lemma KeysBytesOfFirstKeys(o: Options, keys: seq<string>)
    requires |keys| == 6
    requires KeyBytes(o, keys[3]) == [] && KeyBytes(o, keys[4]) == [] && KeyBytes(o, keys[5]) == []
    ensures KeysBytes(o, keys) == KeyBytes(o, keys[0]) + KeyBytes(o, keys[1]) + KeyBytes(o, keys[2])
  {
    var a, b, c := KeyBytes(o, keys[0]), KeyBytes(o, keys[1]), KeyBytes(o, keys[2]);
    assert keys[..0] == [];
    KeysBytesSnoc(o, keys, 0);
    assert KeysBytes(o, keys[..1]) == a;
    KeysBytesSnoc(o, keys, 1);
    KeysBytesSnoc(o, keys, 2);
    assert KeysBytes(o, keys[..3]) == a + b + c;
    KeysBytesSnoc(o, keys, 3);
    KeysBytesSnoc(o, keys, 4);
    KeysBytesSnoc(o, keys, 5);
    assert KeysBytes(o, keys[..6]) == a + b + c;
    assert keys[..6] == keys;
  }

  /** Each flag key appends its command exactly when the flag holds a boolean. */
  lemma KeyBytesOfFlags(o: Options)
    ensures KeyBytes(o, "beep") == if o.beep.Some? then BEEP else []
    ensures KeyBytes(o, "cut") == if o.cut.Some? then CUT else []
    ensures KeyBytes(o, "tailingLine") == if o.tailingLine.Some? then TAILING_LINE else []
  {
  }

  /**
   * Unless the caller sets a flag to `undefined`, all three option commands
   * are appended, whatever the flags' values.
   */
  lemma OptionBytesOfMergedOptions(ov: Overrides)
    requires !ov.beep.Undefined? && !ov.cut.Undefined? && !ov.tailingLine.Undefined?
    ensures PrintOptionBytes(Merge(ov)) == BEEP + CUT + TAILING_LINE
  {
    PrintOptionBytesByFlag(Merge(ov));
  }
}
