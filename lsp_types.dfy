/**
 * The protocol-side value types the core produces (positions, ranges,
 * completion items, locations) and the tree-sitter point/range they are
 * converted from.
 */
module LspTypes {
  import opened Wrappers

  const U32_LIMIT: int := 0x1_0000_0000

  /** The protocol's `u32` line and column numbers. */
  newtype u32 = x: int | 0 <= x < U32_LIMIT

  /** A tree-sitter point: 0-based row and column, both `usize`. */
  datatype Point = Point(row: nat, column: nat)

  /** A tree-sitter range: byte offsets and the matching points. */
  datatype TsRange = TsRange(startByte: nat, endByte: nat, startPoint: Point, endPoint: Point)

  datatype Position = Position(line: u32, character: u32)

  datatype Range = Range(start: Position, end: Position)

  /** A document identity; constructing it from a file path is not modelled. */
  type Url = string

  datatype Location = Location(uri: Url, range: Range)

  datatype CompletionItemKind = Keyword | Field

  datatype InsertTextFormat = PlainText | Snippet

  /** The fields of a completion item the server sets; the rest keep their defaults.
      `labelText` is the protocol's `label` (a reserved word in Dafny). */
  datatype CompletionItem = CompletionItem(
    labelText: string,
    kind: Option<CompletionItemKind>,
    insertText: Option<string>,
    insertTextFormat: Option<InsertTextFormat>)

  /** Rust's `usize as u32`: keep the low 32 bits. */
  function TruncateU32(x: nat): (r: u32)
    ensures x < U32_LIMIT ==> r as int == x
    ensures (x - r as int) % U32_LIMIT == 0
  {
    (x % U32_LIMIT) as u32
  }

  /** `to_position`: each coordinate goes through the cast separately. */
  function ToPosition(p: Point): (r: Position)
    ensures p.row < U32_LIMIT ==> r.line as int == p.row
    ensures p.column < U32_LIMIT ==> r.character as int == p.column
    ensures (p.row - r.line as int) % U32_LIMIT == 0 && (p.column - r.character as int) % U32_LIMIT == 0
  {
    Position(TruncateU32(p.row), TruncateU32(p.column))
  }

  /** `to_range`: the tree-sitter start and end points become the protocol range's ends. */
  function ToRange(range: TsRange): (r: Range)
    ensures FitsU32(range.startPoint) ==>
              r.start.line as int == range.startPoint.row && r.start.character as int == range.startPoint.column
    ensures FitsU32(range.endPoint) ==>
              r.end.line as int == range.endPoint.row && r.end.character as int == range.endPoint.column
    ensures (range.startPoint.row - r.start.line as int) % U32_LIMIT == 0 &&
            (range.startPoint.column - r.start.character as int) % U32_LIMIT == 0
    ensures (range.endPoint.row - r.end.line as int) % U32_LIMIT == 0 &&
            (range.endPoint.column - r.end.character as int) % U32_LIMIT == 0
    ensures PointLe(range.startPoint, range.endPoint) && FitsU32(range.startPoint) && FitsU32(range.endPoint) ==>
              PositionLe(r.start, r.end)
  {
    Range(ToPosition(range.startPoint), ToPosition(range.endPoint))
  }

  predicate PointLe(a: Point, b: Point) {
    a.row < b.row || (a.row == b.row && a.column <= b.column)
  }

  predicate PositionLe(a: Position, b: Position) {
    a.line < b.line || (a.line == b.line && a.character <= b.character)
  }

  predicate FitsU32(p: Point) {
    p.row < U32_LIMIT && p.column < U32_LIMIT
  }

  /** A row past 32 bits wraps around: the cast loses information. */
  lemma ToPositionWraps(p: Point)
    requires p.row == U32_LIMIT + 7
    ensures ToPosition(p).line == 7
  {
  }
}
