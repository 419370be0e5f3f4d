/** What a command asks of the editor. The plugin's commands talk to the
    host editor by side effect (`setSelection`, `setCursor`, `setLine`,
    `new Notice(...)`); here each command returns one `Effect` value instead. */
module Editor {
  import opened Basics

  /** A cursor position: zero-based line and character offset. The line is
      an `int` because one command can produce line -1. */
  datatype Pos = Pos(line: int, ch: nat)

  /** The host always reports a cursor on an existing line. */
  predicate CursorInDocument(lines: seq<string>, cur: Pos) {
    0 <= cur.line < |lines|
  }

  /** The end of line `i`. */
  function LineEnd(lines: seq<string>, i: nat): Pos
    requires i < |lines|
  {
    Pos(i, |lines[i]|)
  }

  /** The user-visible notices the commands raise. */
  datatype Message =
    | NoHeadingAtCursor
    | HeadingsSelected(count: nat, level: int)
    | NoFurtherHeading(level: int)
    | NoPreviousHeading(level: int)
    | NotNearLink

  datatype Effect =
    | Select(anchor: Pos, head: Pos)
    | SelectAndNotify(anchor: Pos, head: Pos, note: Message)
    | SetCursor(pos: Pos)
    | SetLineAndCursor(line: nat, text: string, pos: Pos)
    | Notify(note: Message)

  /** The text of a notice, as the template literals spell it. */
  function MessageText(m: Message): string {
    match m
    case NoHeadingAtCursor => "No heading found at the cursor position."
    case HeadingsSelected(count, level) =>
      DecimalString(count) + " headings of level " + IntString(level) + " were selected."
    case NoFurtherHeading(level) => "No further heading level " + IntString(level) + " found."
    case NoPreviousHeading(level) => "No previous heading level " + IntString(level) + " found."
    case NotNearLink => "Cursor is not inside or near a link."
  }
}
