/**
 * The rows of the list table's body, as the engine sees them.
 *
 * A row is a DOM node: an id gives it identity, and the parts the engine
 * writes (its display, its `data-group-value` and `data-group-folded`
 * attributes) are fields of the row value that the body updates.
 */
module Rows {
  import opened JsValues

  /** Identity of a `tr` node. */
  type RowId = nat

  /** `o_data_row`, `o_group_header`, or any other row (such as "add a line"). */
  datatype Kind = DataRow | GroupHeader | OtherRow

  /**
   * A rendered `td`: its `name` attribute, the value its `field` element's
   * `value`/`data-value` attribute or its trimmed text gives, and the
   * `checked` state of a checkbox inside it (None when it holds none).
   */
  datatype Cell = Cell(name: Option<string>, value: Value, checkbox: Option<bool>)

  /**
   * A `th` of the list header: its `name` and `data-name` attributes and the
   * `name` of the `<field>` element inside it (None when absent).
   */
  datatype Column = Column(name: Option<string>, dataName: Option<string>, fieldChild: Option<string>)

  /** An attribute read that gives a non-empty string, so that `a || b` stops at it. */
  predicate NonEmpty(a: Option<string>) {
    a.Some? && a.value != ""
  }

  /** `a || b` on two attribute reads: the first when it is a non-empty string, else the second. */
  function AttrOr(a: Option<string>, b: Option<string>): Option<string> {
    if NonEmpty(a) then a else b
  }

  /** What a synthesised group header shows and controls: its label and the rows its click handler folds. */
  datatype HeaderInfo = HeaderInfo(caption: Value, members: seq<RowId>)

  datatype Row = Row(
    kind: Kind,
    shown: bool,                         // style.display is not "none"
    groupAttr: Option<string>,           // data-group-value
    foldedAttr: Option<string>,          // data-group-folded
    record: Option<map<string, Value>>,  // data of the loaded record whose id is the row's data-id
    cells: seq<Cell>,                    // the row's td cells, in column order
    header: Option<HeaderInfo>)          // present on synthesised group headers

  /** A group header as `_x2mApplyGroupByToRows` creates it: folded, labelled, owning its rows. */
  function NewHeader(attr: string, caption: Value, members: seq<RowId>): Row {
    Row(GroupHeader, true, Some(attr), Some("true"), None, [], Some(HeaderInfo(caption, members)))
  }

  /** The caption of a header: `${label} (${rows.length})`. */
  function HeaderText(h: HeaderInfo): string {
    ToStr(h.caption) + " (" + NatToString(|h.members|) + ")"
  }
}
