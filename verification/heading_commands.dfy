/** The heading navigation and selection commands. Each takes the document
    as a sequence of lines and the cursor, and returns what the command does
    to the editor. */
module HeadingCommands {
  import opened Basics
  import opened Headings
  import opened Editor

  /** The line just before the first heading below `line`, or the last line
      when no heading follows. */
  function SectionEnd(lines: seq<string>, line: nat): (e: nat)
    requires line < |lines|
    ensures line <= e < |lines|
    ensures forall j :: line < j <= e ==> !IsHeading(lines[j])
    ensures e + 1 == |lines| || IsHeading(lines[e + 1])
  {
    match FindDown(lines, line + 1, |lines|, AnyHeading)
    case Some(h) => h - 1
    case None => |lines| - 1
  }

  /** The nearest heading at or above `line`. */
  function CurrentHeading(lines: seq<string>, line: int): (r: Option<nat>)
    requires line < |lines|
    ensures r.Some? ==> r.value <= line && IsHeading(lines[r.value])
    ensures r.Some? ==> forall j :: r.value < j <= line ==> !IsHeading(lines[j])
    ensures r.None? <==> forall j :: 0 <= j <= line ==> !IsHeading(lines[j])
  {
    FindUp(lines, line, 0, AnyHeading)
  }

  /** Select from the cursor to the end of the line before the next heading. */
  function SelectToNextHeading(lines: seq<string>, cur: Pos): (r: Effect)
    requires CursorInDocument(lines, cur)
    ensures r.Select? && r.anchor == cur
    ensures cur.line <= r.head.line < |lines| && r.head.ch == |lines[r.head.line]|
    ensures forall j :: cur.line < j <= r.head.line ==> !IsHeading(lines[j])
    ensures r.head.line + 1 == |lines| || IsHeading(lines[r.head.line + 1])
  {
    Select(cur, LineEnd(lines, SectionEnd(lines, cur.line)))
  }

  /** Select from the start of the line after the previous heading (or of
      the document) to the cursor. */
  function SelectToPreviousHeading(lines: seq<string>, cur: Pos): (r: Effect)
    requires CursorInDocument(lines, cur)
    ensures r.Select? && r.head == cur && r.anchor.ch == 0
    ensures 0 <= r.anchor.line <= cur.line
    ensures forall j :: r.anchor.line <= j < cur.line ==> !IsHeading(lines[j])
    ensures r.anchor.line == 0 || IsHeading(lines[r.anchor.line - 1])
  {
    var start := match CurrentHeading(lines, cur.line - 1)
      case Some(h) => h + 1
      case None => 0;
    Select(Pos(start, 0), cur)
  }

  /** Select the section the cursor is in: from the nearest heading at or
      above the cursor to the end of the line before the next heading. With
      no heading at or above the cursor the anchor is line -1. */
  function SelectCurrentHeading(lines: seq<string>, cur: Pos): (r: Effect)
    requires CursorInDocument(lines, cur)
    ensures r.Select? && r.anchor.ch == 0
    ensures -1 <= r.anchor.line <= cur.line <= r.head.line < |lines|
    ensures r.anchor.line == -1 <==> forall j :: 0 <= j <= cur.line ==> !IsHeading(lines[j])
    ensures r.anchor.line >= 0 ==> IsHeading(lines[r.anchor.line])
    ensures forall j :: r.anchor.line < j <= r.head.line ==> !IsHeading(lines[j])
    ensures r.head.ch == |lines[r.head.line]|
    ensures r.head.line + 1 == |lines| || IsHeading(lines[r.head.line + 1])
  {
    var from := match CurrentHeading(lines, cur.line)
      case Some(h) => h
      case None => -1;
    Select(Pos(from, 0), LineEnd(lines, SectionEnd(lines, cur.line)))
  }

  /** Lines `start..end` (inclusive) shared by a heading and its siblings. */
  datatype Scope = Scope(start: nat, end: nat)

  /** Level of the heading just above `start`, or 0 when `start` is line 0. */
  function LevelAbove(lines: seq<string>, start: nat): nat
    requires start <= |lines|
  {
    if start == 0 then 0 else HeadingLevel(lines[start - 1])
  }

  /** The scope of the heading on line `c`: from just after its parent (the
      nearest shallower heading above it) to the line before the next
      heading no deeper than the parent. Without a parent it is the whole
      document. */
  function SiblingScope(lines: seq<string>, c: nat): (s: Scope)
    requires c < |lines| && IsHeading(lines[c])
    ensures s.start <= c <= s.end < |lines|
    ensures forall j :: s.start <= j < c ==> !Matches(lines[j], LevelBelow(HeadingLevel(lines[c])))
    ensures s.start > 0 ==> Matches(lines[s.start - 1], LevelBelow(HeadingLevel(lines[c])))
    ensures forall j :: c < j <= s.end ==> !Matches(lines[j], LevelAtMost(LevelAbove(lines, s.start)))
    ensures s.end + 1 == |lines| || Matches(lines[s.end + 1], LevelAtMost(LevelAbove(lines, s.start)))
    ensures s.start == 0 ==> s.end + 1 == |lines|
  {
    var level := HeadingLevel(lines[c]);
    var parent := FindUp(lines, c - 1, 0, LevelBelow(level));
    var start := if parent.Some? then parent.value + 1 else 0;
    var parentLevel := if parent.Some? then HeadingLevel(lines[parent.value]) else 0;
    var end := match FindDown(lines, c + 1, |lines|, LevelAtMost(parentLevel))
      case Some(i) => i - 1
      case None => |lines| - 1;
    Scope(start, end)
  }

  /** Where a select-all lands inside a scope: the first and the last
      heading of the level, and the line the selection ends on. */
  datatype LevelSpan = LevelSpan(first: nat, last: nat, end: nat)

  /** `span` is the span of the level-`level` headings of scope `s`, around
      line `c`: it runs from the first of them past the last of them up to
      the line before the next heading no deeper than `level`, or to the end
      of the scope. */
  predicate IsLevelSpan(lines: seq<string>, s: Scope, level: int, c: nat, span: LevelSpan)
    requires s.end < |lines|
  {
    && s.start <= span.first <= c <= span.last <= span.end <= s.end
    && Matches(lines[span.first], LevelIs(level)) && Matches(lines[span.last], LevelIs(level))
    && (forall j {:trigger Matches(lines[j], LevelIs(level))} ::
          s.start <= j < span.first ==> !Matches(lines[j], LevelIs(level)))
    && (forall j {:trigger Matches(lines[j], LevelIs(level))} ::
          span.last < j <= s.end ==> !Matches(lines[j], LevelIs(level)))
    && (forall j {:trigger Matches(lines[j], LevelAtMost(level))} ::
          span.last < j <= span.end ==> !Matches(lines[j], LevelAtMost(level)))
    && (span.end == s.end || Matches(lines[span.end + 1], LevelAtMost(level)))
  }

  /** The span of the level-`level` headings of scope `s`, which holds one
      of them on line `c`. */
  function SameLevelSpan(lines: seq<string>, s: Scope, level: int, c: nat): (span: LevelSpan)
    requires s.start <= c <= s.end < |lines| && Matches(lines[c], LevelIs(level))
    ensures span.end <= s.end
    ensures IsLevelSpan(lines, s, level, c, span)
  {
    var last := LastOfLevel(lines, s.start, s.end, level, c);
    LevelSpan(FirstOfLevel(lines, s.start, s.end, level, c), last,
              LevelRunEnd(lines, last + 1, s.end + 1, level))
  }

  /** The first heading of level `level` in `[lo, hi]`, which holds one on
      line `c`. */
  function FirstOfLevel(lines: seq<string>, lo: nat, hi: nat, level: int, c: nat): (first: nat)
    requires lo <= c <= hi < |lines| && Matches(lines[c], LevelIs(level))
    ensures lo <= first <= c && Matches(lines[first], LevelIs(level))
    ensures forall j :: lo <= j < first ==> !Matches(lines[j], LevelIs(level))
  {
    FindDown(lines, lo, hi + 1, LevelIs(level)).value
  }

  /** The last heading of level `level` in `[lo, hi]`, which holds one on
      line `c`. */
  function LastOfLevel(lines: seq<string>, lo: nat, hi: nat, level: int, c: nat): (last: nat)
    requires lo <= c <= hi < |lines| && Matches(lines[c], LevelIs(level))
    ensures c <= last <= hi && Matches(lines[last], LevelIs(level))
    ensures forall j :: last < j <= hi ==> !Matches(lines[j], LevelIs(level))
  {
    FindUp(lines, hi, lo, LevelIs(level)).value
  }

  /** The line before the first heading no deeper than `level` in
      `[from, hi)`, or `hi - 1` when there is none. */
  function LevelRunEnd(lines: seq<string>, from: nat, hi: nat, level: int): (end: nat)
    requires 1 <= from <= hi <= |lines|
    ensures from - 1 <= end < hi
    ensures forall j :: from <= j <= end ==> !Matches(lines[j], LevelAtMost(level))
    ensures end == hi - 1 || Matches(lines[end + 1], LevelAtMost(level))
  {
    match FindDown(lines, from, hi, LevelAtMost(level))
    case Some(i) => i - 1
    case None => hi - 1
  }

  /** The number of level-`level` headings in scope `s`, which holds one
      of them on line `c`. */
  function ScopeCount(lines: seq<string>, s: Scope, level: int, c: nat): (n: nat)
    requires s.start <= c <= s.end < |lines| && Matches(lines[c], LevelIs(level))
    ensures n == |LevelLines(lines, s.start, s.end + 1, level)|
    ensures n >= 1
  {
    CountLevelIsCardinality(lines, s.start, s.end + 1, level);
    CountLevelPositive(lines, s.start, s.end + 1, level, c);
    CountLevel(lines, s.start, s.end + 1, level)
  }

  /** Select every heading of level `level` in scope `s`, from the first
      one to the end of the last one's section, and report how many there
      are. */
  function SelectInScope(lines: seq<string>, s: Scope, level: int, c: nat): (r: Effect)
    requires s.start <= c <= s.end < |lines| && Matches(lines[c], LevelIs(level))
    ensures r.SelectAndNotify?
    ensures r.note == HeadingsSelected(|LevelLines(lines, s.start, s.end + 1, level)|, level)
    ensures r.note.count >= 1
  {
    var span := SameLevelSpan(lines, s, level, c);
    SelectAndNotify(Pos(span.first, 0), LineEnd(lines, span.end),
                    HeadingsSelected(ScopeCount(lines, s, level, c), level))
  }

  /** Select every heading of level `level` in the sibling scope of the
      heading on line `c`, and report how many there are. */
  function SelectLevelAround(lines: seq<string>, c: nat): (r: Effect)
    requires c < |lines| && IsHeading(lines[c])
    ensures r.SelectAndNotify?
    ensures var level := HeadingLevel(lines[c]);
            var s := SiblingScope(lines, c);
            var span := SameLevelSpan(lines, s, level, c);
            && r.note == HeadingsSelected(|LevelLines(lines, s.start, s.end + 1, level)|, level)
            && r.note.count >= 1
            && r.anchor == Pos(span.first, 0)
            && r.head == LineEnd(lines, span.end)
  {
    SelectInScope(lines, SiblingScope(lines, c), HeadingLevel(lines[c]), c)
  }

  /** Select every heading of the current heading's level inside its
      sibling scope and report how many there are. */
  function SelectAllCurrentLevelHeadings(lines: seq<string>, cur: Pos): (r: Effect)
    requires CursorInDocument(lines, cur)
    ensures r.Notify? || r.SelectAndNotify?
    ensures r.Notify? <==> forall j :: 0 <= j <= cur.line ==> !IsHeading(lines[j])
    ensures r.Notify? ==> r.note == NoHeadingAtCursor
    ensures r.SelectAndNotify? ==>
      var c := CurrentHeading(lines, cur.line).value;
      var level := HeadingLevel(lines[c]);
      var s := SiblingScope(lines, c);
      && r.note == HeadingsSelected(|LevelLines(lines, s.start, s.end + 1, level)|, level)
      && r.note.count >= 1
      && r.anchor == Pos(SameLevelSpan(lines, s, level, c).first, 0)
      && r.head == LineEnd(lines, SameLevelSpan(lines, s, level, c).end)
  {
    match CurrentHeading(lines, cur.line)
    case None => Notify(NoHeadingAtCursor)
    case Some(c) => SelectLevelAround(lines, c)
  }

  /** Move the cursor to the end of the next heading of exactly `level`. */
  function MoveToNextHeading(lines: seq<string>, cur: Pos, level: int): (r: Effect)
    requires CursorInDocument(lines, cur)
    ensures r.SetCursor? || r.Notify?
    ensures r.SetCursor? ==>
      && cur.line < r.pos.line < |lines|
      && Matches(lines[r.pos.line], LevelIs(level))
      && r.pos.ch == |lines[r.pos.line]|
      && forall j :: cur.line < j < r.pos.line ==> !Matches(lines[j], LevelIs(level))
    ensures r.Notify? <==> forall j :: cur.line < j < |lines| ==> !Matches(lines[j], LevelIs(level))
    ensures r.Notify? ==> r.note == NoFurtherHeading(level)
  {
    match FindDown(lines, cur.line + 1, |lines|, LevelIs(level))
    case Some(h) => SetCursor(LineEnd(lines, h))
    case None => Notify(NoFurtherHeading(level))
  }

  /** Move the cursor to the end of the previous heading of exactly `level`. */
  function MoveToPreviousHeading(lines: seq<string>, cur: Pos, level: int): (r: Effect)
    requires CursorInDocument(lines, cur)
    ensures r.SetCursor? || r.Notify?
    ensures r.SetCursor? ==>
      && 0 <= r.pos.line < cur.line
      && Matches(lines[r.pos.line], LevelIs(level))
      && r.pos.ch == |lines[r.pos.line]|
      && forall j :: r.pos.line < j < cur.line ==> !Matches(lines[j], LevelIs(level))
    ensures r.Notify? <==> forall j :: 0 <= j < cur.line ==> !Matches(lines[j], LevelIs(level))
    ensures r.Notify? ==> r.note == NoPreviousHeading(level)
  {
    match FindUp(lines, cur.line - 1, 0, LevelIs(level))
    case Some(h) => SetCursor(LineEnd(lines, h))
    case None => Notify(NoPreviousHeading(level))
  }

  /** On a heading line, "select current heading" starts at the cursor's
      own line and ends where "select to next heading" ends. */
  lemma SelectCurrentOnHeadingLine(lines: seq<string>, cur: Pos)
    requires CursorInDocument(lines, cur) && IsHeading(lines[cur.line])
    ensures SelectCurrentHeading(lines, cur) == Select(Pos(cur.line, 0), SelectToNextHeading(lines, cur).head)
  {
  }

  /** "Select current heading" ends where "select to next heading" ends,
      and off a heading line it starts one line above where "select to
      previous heading" starts (line -1 above line 0). */
  lemma SelectCurrentJoinsPreviousAndNext(lines: seq<string>, cur: Pos)
    requires CursorInDocument(lines, cur)
    ensures SelectCurrentHeading(lines, cur).head == SelectToNextHeading(lines, cur).head
    ensures !IsHeading(lines[cur.line]) ==>
      SelectCurrentHeading(lines, cur).anchor.line + 1 == SelectToPreviousHeading(lines, cur).anchor.line
  {
  }

  /** From a heading of level `level`, moving to the next heading of that
      level and then back to the previous one returns to the end of the
      starting heading. */
  lemma MoveNextThenPrevious(lines: seq<string>, cur: Pos, level: int)
    requires CursorInDocument(lines, cur) && Matches(lines[cur.line], LevelIs(level))
    requires MoveToNextHeading(lines, cur, level).SetCursor?
    ensures MoveToPreviousHeading(lines, MoveToNextHeading(lines, cur, level).pos, level)
            == SetCursor(LineEnd(lines, cur.line))
  {
    var next := MoveToNextHeading(lines, cur, level).pos;
    var back := MoveToPreviousHeading(lines, next, level);
    assert !back.Notify?;
  }

  /** The mirror image: previous, then next, returns to the start. */
  lemma MovePreviousThenNext(lines: seq<string>, cur: Pos, level: int)
    requires CursorInDocument(lines, cur) && Matches(lines[cur.line], LevelIs(level))
    requires MoveToPreviousHeading(lines, cur, level).SetCursor?
    ensures MoveToNextHeading(lines, MoveToPreviousHeading(lines, cur, level).pos, level)
            == SetCursor(LineEnd(lines, cur.line))
  {
    var prev := MoveToPreviousHeading(lines, cur, level).pos;
    var forth := MoveToNextHeading(lines, prev, level);
    assert !forth.Notify?;
  }

  /** The document of the example below: headings of levels 1, 2, 2, 1, 2,
      each but the first level-1 heading followed by a body line. */
  predicate SiblingDocument(lines: seq<string>) {
    lines == ["# A", "## B", "b", "## C", "c", "# D", "## E", "e"]
  }

  lemma SiblingDocumentLevels(lines: seq<string>)
    requires SiblingDocument(lines)
    ensures HeadingLevel(lines[0]) == 1 && HeadingLevel(lines[1]) == 2 && HeadingLevel(lines[2]) == 0
    ensures HeadingLevel(lines[3]) == 2 && HeadingLevel(lines[4]) == 0 && HeadingLevel(lines[5]) == 1
  {
    assert HashRun(lines[0]) == 1 && HashRun(lines[1]) == 2 && HashRun(lines[2]) == 0;
    assert HashRun(lines[3]) == 2 && HashRun(lines[4]) == 0 && HashRun(lines[5]) == 1;
  }

  lemma SiblingDocumentScope(lines: seq<string>)
    requires SiblingDocument(lines)
    ensures SiblingScope(lines, 3) == Scope(1, 4)
  {
    SiblingDocumentLevels(lines);
    var s := SiblingScope(lines, 3);
    assert s.start == 1 by {
      assert Matches(lines[0], LevelBelow(2));
      assert !Matches(lines[1], LevelBelow(2)) && !Matches(lines[2], LevelBelow(2));
    }
    assert s.end == 4 by {
      assert LevelAbove(lines, 1) == 1;
      assert Matches(lines[5], LevelAtMost(1)) && !Matches(lines[4], LevelAtMost(1));
    }
  }

  lemma SiblingDocumentSpan(lines: seq<string>)
    requires SiblingDocument(lines)
    ensures Matches(lines[3], LevelIs(2))
    ensures SameLevelSpan(lines, Scope(1, 4), 2, 3) == LevelSpan(1, 3, 4)
    ensures |LevelLines(lines, 1, 5, 2)| == 2
  {
    SiblingDocumentLevels(lines);
    assert !Matches(lines[4], LevelIs(2)) && !Matches(lines[4], LevelAtMost(2));
    assert CountLevel(lines, 1, 5, 2) == 2;
    CountLevelIsCardinality(lines, 1, 5, 2);
  }

  /** With the cursor in the body of the second level-2 heading, the two
      level-2 headings under the first level-1 heading are selected, and
      the notice counts 2. */
  lemma SelectAllSiblingExample(lines: seq<string>)
    requires SiblingDocument(lines)
    ensures SelectAllCurrentLevelHeadings(lines, Pos(4, 0))
            == SelectAndNotify(Pos(1, 0), Pos(4, 1), HeadingsSelected(2, 2))
  {
    SiblingDocumentLevels(lines);
    assert CurrentHeading(lines, 4) == Some(3);
    SiblingDocumentScope(lines);
    SiblingDocumentSpan(lines);
  }
}
