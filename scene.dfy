/** The host's scene nodes as the plugin reads them, and the flat record it
    builds for one text layer. Host attribute values that the plugin only
    copies (alignment, case, decoration) are opaque strings here. */
module Scene {
  import opened Newlines

  datatype Option<T> = None | Some(value: T)

  /** `fontSize`: a number, or the host's "mixed" symbol when the text's
      ranges disagree. */
  datatype FontSize = Size(points: real) | MixedSize

  /** `fontName`: a family and style, or the "mixed" symbol. */
  datatype FontName = Font(family: string, style: string) | MixedFont

  /** `lineHeight` and `letterSpacing` as the host hands them over: missing,
      the "mixed" symbol, or an object whose `value` may be missing (an
      automatic line height carries only a unit). */
  datatype Dimension =
    | Absent
    | MixedDimension
    | Measure(value: Option<real>, unit: string)

  /** The attributes a TEXT node carries. */
  datatype TextAttrs = TextAttrs(
    characters: string,
    fontSize: FontSize,
    fontName: FontName,
    textAlignHorizontal: string,
    textAlignVertical: string,
    lineHeight: Dimension,
    letterSpacing: Dimension,
    textCase: string,
    textDecoration: string)

  /** A scene node. `nodeType` is the host's type tag ("TEXT", "FRAME",
      "GROUP", "RECTANGLE", ...); `text` is read only when the tag is "TEXT"
      and `children` only when it is "FRAME" or "GROUP". */
  datatype Node = Node(
    id: string,
    name: string,
    nodeType: string,
    visible: bool,
    children: seq<Node>,
    text: TextAttrs)

  /** A JSON value as a record field holds it: a number, the empty string
      or `undefined` (a field that serialisation drops). */
  datatype Cell = Number(value: real) | Blank | Undefined

  /** One exported row: a text layer's identity, its content with line
      feeds rewritten, and its style attributes. A font family or style of
      `None` is `undefined`. */
  datatype TextRecord = TextRecord(
    id: string,
    name: string,
    characters: string,
    fontSize: FontSize,
    fontFamily: Option<string>,
    fontStyle: Option<string>,
    textAlignHorizontal: string,
    textAlignVertical: string,
    lineHeight: Cell,
    letterSpacing: Cell,
    textCase: string,
    textDecoration: string)

  const TextType: string := "TEXT"
  const FrameType: string := "FRAME"
  const GroupType: string := "GROUP"

  /** The node types whose children the walk descends into. */
  predicate IsContainer(n: Node) {
    n.nodeType == FrameType || n.nodeType == GroupType
  }

  /** `attr ? attr.value : ""`: a missing attribute gives the empty string,
      one present gives its `value` (undefined when it has none). */
  function ValueOrBlank(attr: Dimension): (c: Cell)
    ensures c == Blank <==> attr == Absent
    ensures c.Number? <==> attr.Measure? && attr.value.Some?
    ensures c.Number? ==> c.value == attr.value.value
  {
    match attr
    case Absent => Blank
    case MixedDimension => Undefined
    case Measure(value, _) => if value.Some? then Number(value.value) else Undefined
  }

  /** `fontName.family`, undefined on the "mixed" symbol. */
  function FontFamily(f: FontName): Option<string> {
    if f.Font? then Some(f.family) else None
  }

  /** `fontName.style`, undefined on the "mixed" symbol. */
  function FontStyle(f: FontName): Option<string> {
    if f.Font? then Some(f.style) else None
  }

  /** The record pushed for a TEXT node. */
  function ToRecord(n: Node): TextRecord {
    var t := n.text;
    TextRecord(
      n.id,
      n.name,
      ReplaceNewlines(t.characters),
      t.fontSize,
      FontFamily(t.fontName),
      FontStyle(t.fontName),
      t.textAlignHorizontal,
      t.textAlignVertical,
      ValueOrBlank(t.lineHeight),
      ValueOrBlank(t.letterSpacing),
      t.textCase,
      t.textDecoration)
  }
}
