/** The wikilink commands. Both scan the cursor's line with the global
    regular expression `/\[\[([^\]]+)\]\]/g`, use the first match whose span
    `[start, end]` contains the cursor (both ends included), and then either
    select part of the link or insert a `|` into it. */
module Links {
  import opened Basics
  import opened Editor

  /** Index of the first `]` at or after `i`, or `|s|` when there is none. */
  function CloseIndex(s: string, i: nat): (q: nat)
    requires i <= |s|
    ensures i <= q <= |s|
    ensures forall k :: i <= k < q ==> s[k] != ']'
    ensures q < |s| ==> s[q] == ']'
    decreases |s| - i
  {
    if i == |s| || s[i] == ']' then i else CloseIndex(s, i + 1)
  }

  lemma CloseIndexUnique(s: string, i: nat, q: nat)
    requires i <= q <= |s|
    requires forall k :: i <= k < q ==> s[k] != ']'
    requires q < |s| ==> s[q] == ']'
    ensures CloseIndex(s, i) == q
  {
  }

  /** The pattern matches at index `p`. Since the content `[^\]]+` cannot
      hold a `]`, the only way to finish the match is at the first `]` after
      the opening brackets, which must be followed by a second `]`. */
  predicate IsLinkStart(s: string, p: nat) {
    && p + 2 <= |s|
    && s[p] == '[' && s[p + 1] == '['
    && var q := CloseIndex(s, p + 2);
       q > p + 2 && q + 1 < |s| && s[q + 1] == ']'
  }

  /** One past the closing `]]` of the match at `p` (the regex's `lastIndex`). */
  function LinkEnd(s: string, p: nat): (e: nat)
    requires IsLinkStart(s, p)
    ensures p + 5 <= e <= |s|
  {
    CloseIndex(s, p + 2) + 2
  }

  /** `s[p..e]` is `[[`, then one or more characters other than `]`, then `]]`:
      the pattern read literally. */
  ghost predicate RegexMatchesAt(s: string, p: nat, e: int) {
    && p + 4 < e <= |s|
    && s[p] == '[' && s[p + 1] == '['
    && (forall k :: p + 2 <= k < e - 2 ==> s[k] != ']')
    && s[e - 2] == ']' && s[e - 1] == ']'
  }

  /** `IsLinkStart` and `LinkEnd` are the pattern: a match at `p` exists
      exactly when `IsLinkStart` holds, and then it ends at `LinkEnd`. */
  lemma LinkStartIsRegexMatch(s: string, p: nat)
    ensures forall e :: RegexMatchesAt(s, p, e) <==> IsLinkStart(s, p) && e == LinkEnd(s, p)
  {
    forall e | RegexMatchesAt(s, p, e)
      ensures IsLinkStart(s, p) && e == LinkEnd(s, p)
    {
      CloseIndexUnique(s, p + 2, e - 2);
    }
  }

  /** A match, as `[match.index, lastIndex)`. */
  datatype Link = Link(start: nat, end: nat)

  /** The match at `p` spans the cursor offset `ch`. */
  predicate Covers(s: string, p: nat, ch: int) {
    IsLinkStart(s, p) && p <= ch <= LinkEnd(s, p)
  }

  /** `exec` with `lastIndex == from`: the leftmost match at or after `from`. */
  function Exec(s: string, from: nat): (r: Option<Link>)
    ensures r.Some? ==> from <= r.value.start && IsLinkStart(s, r.value.start)
    ensures r.Some? ==> r.value.end == LinkEnd(s, r.value.start)
    ensures r.Some? ==> forall p: nat :: from <= p < r.value.start ==> !IsLinkStart(s, p)
    ensures r.None? ==> forall p: nat :: from <= p ==> !IsLinkStart(s, p)
    decreases |s| - from
  {
    if from >= |s| then None
    else if IsLinkStart(s, from) then Some(Link(from, LinkEnd(s, from)))
    else Exec(s, from + 1)
  }

  /** Two matches that overlap end at the same `]]`: the later one's
      content is a suffix of the earlier one's. */
  lemma OverlappingMatchesShareEnd(s: string, p: nat, p': nat)
    requires IsLinkStart(s, p) && IsLinkStart(s, p') && p < p' < LinkEnd(s, p)
    ensures LinkEnd(s, p') == LinkEnd(s, p)
  {
    var q := CloseIndex(s, p + 2);
    assert p' + 2 <= q;
    CloseIndexUnique(s, p' + 2, q);
  }

  /** When the match `m` found from `from` does not span `ch`, no match
      starting before its end does. */
  lemma SkippedMatchCoversNothing(s: string, from: nat, m: Link, ch: int)
    requires forall p: nat :: p < from ==> !Covers(s, p, ch)
    requires Exec(s, from) == Some(m) && !(m.start <= ch <= m.end)
    ensures forall p: nat :: p < m.end ==> !Covers(s, p, ch)
  {
    forall p: nat | m.start < p < m.end && IsLinkStart(s, p)
      ensures !Covers(s, p, ch)
    {
      OverlappingMatchesShareEnd(s, m.start, p);
    }
  }

  /** The `while (exec(...))` loop from `lastIndex == from`: the first match
      that spans `ch`. Every match starting before `from` is known not to. */
  function LocateFrom(s: string, from: nat, ch: int): (r: Option<Link>)
    requires forall p: nat :: p < from ==> !Covers(s, p, ch)
    ensures r.Some? ==> Covers(s, r.value.start, ch) && r.value.end == LinkEnd(s, r.value.start)
    ensures r.Some? ==> forall p: nat :: p < r.value.start ==> !Covers(s, p, ch)
    ensures r.None? ==> forall p: nat :: !Covers(s, p, ch)
    decreases |s| - from
  {
    match Exec(s, from)
    case None => None
    case Some(m) =>
      if m.start <= ch <= m.end then Some(m)
      else
        SkippedMatchCoversNothing(s, from, m, ch);
        LocateFrom(s, m.end, ch)
  }

  /** `m` is the match spanning `ch` that starts first. */
  predicate FirstCover(s: string, ch: int, m: Link) {
    && Covers(s, m.start, ch) && m.end == LinkEnd(s, m.start)
    && forall p: nat :: p < m.start ==> !Covers(s, p, ch)
  }

  /** The link the cursor offset `ch` is in or next to: the match spanning
      `ch` that starts first, or none when no match spans `ch`. */
  function FindLinkAt(s: string, ch: int): (r: Option<Link>)
    ensures r.Some? ==> FirstCover(s, ch, r.value)
    ensures r.None? <==> forall p: nat :: !Covers(s, p, ch)
  {
    LocateFrom(s, 0, ch)
  }

  /** Conversely, the first match spanning `ch` is the one found. */
  lemma FindLinkAtIsFirstCover(s: string, ch: int, m: Link)
    requires FirstCover(s, ch, m)
    ensures FindLinkAt(s, ch) == Some(m)
  {
    var r := FindLinkAt(s, ch);
    assert r.value.start <= m.start;
  }

  /** The capture group: the text between the brackets. */
  function Content(s: string, m: Link): string
    requires m.start + 2 <= m.end - 2 <= |s|
  {
    s[m.start + 2 .. m.end - 2]
  }

  /** `s` with a `|` inserted at index `i`. */
  function WithPipeAt(s: string, i: nat): string
    requires i <= |s|
  {
    s[.. i] + "|" + s[i ..]
  }

  /** A link's content runs from two past its start to two before its end. */
  predicate WellFormed(s: string, m: Link) {
    m.start + 5 <= m.end <= |s|
  }

  /** What selecting the display text of `m` must do: select from just
      after the first `|` of the content up to the closing brackets, or,
      when the content has no `|`, insert one before the closing brackets
      and put the cursor after it. */
  predicate DisplayTextSpec(lineNo: nat, s: string, m: Link, r: Effect)
    requires WellFormed(s, m)
  {
    match r
    case Select(anchor, head) =>
      && anchor.line == lineNo && head.line == lineNo
      && m.start + 2 < anchor.ch <= head.ch == m.end - 2
      && s[anchor.ch - 1] == '|'
      && '|' !in s[m.start + 2 .. anchor.ch - 1]
    case SetLineAndCursor(line, text, pos) =>
      && '|' !in s[m.start + 2 .. m.end - 2]
      && line == lineNo && text == WithPipeAt(s, m.end - 2) && pos == Pos(lineNo, m.end - 1)
    case _ => false
  }

  /** What "select link display text" does to line `lineNo`, holding `s`,
      once it has found the link `m`. */
  function DisplayTextEdit(lineNo: nat, s: string, m: Link): (r: Effect)
    requires WellFormed(s, m)
    ensures DisplayTextSpec(lineNo, s, m, r)
  {
    var content := Content(s, m);
    var pipe := IndexOf(content, '|');
    if pipe != -1 then
      assert content[..pipe] == s[m.start + 2 .. m.start + 2 + pipe];
      Select(Pos(lineNo, m.start + 2 + pipe + 1), Pos(lineNo, m.end - 2))
    else
      var newContent := content + "|";
      assert s[.. m.start + 2] + content == s[.. m.end - 2];
      SetLineAndCursor(lineNo, s[.. m.start + 2] + newContent + s[m.end - 2 ..],
                       Pos(lineNo, m.start + 2 + |newContent|))
  }

  /** What selecting the target of `m` must do: select from just after the
      opening brackets up to the first `|` of the content, or up to the
      closing brackets when there is none. */
  predicate TargetSpec(lineNo: nat, s: string, m: Link, r: Effect)
    requires WellFormed(s, m)
  {
    match r
    case Select(anchor, head) =>
      && anchor == Pos(lineNo, m.start + 2) && head.line == lineNo
      && m.start + 2 <= head.ch <= m.end - 2
      && '|' !in s[anchor.ch .. head.ch]
      && (head.ch == m.end - 2 || s[head.ch] == '|')
    case _ => false
  }

  /** What "select link without display text" does on line `lineNo`,
      holding `s`, once it has found the link `m`. */
  function TargetSelection(lineNo: nat, s: string, m: Link): (r: Effect)
    requires WellFormed(s, m)
    ensures TargetSpec(lineNo, s, m, r)
  {
    var content := Content(s, m);
    var pipe := IndexOf(content, '|');
    if pipe != -1 then
      assert content[..pipe] == s[m.start + 2 .. m.start + 2 + pipe];
      Select(Pos(lineNo, m.start + 2), Pos(lineNo, m.start + 2 + pipe))
    else
      Select(Pos(lineNo, m.start + 2), Pos(lineNo, m.end - 2))
  }

  /** Select the link's display text (after the first `|`); when the link
      has none, insert a `|` before the closing brackets and put the cursor
      after it. */
  function SelectLinkDisplayText(lines: seq<string>, cur: Pos): (r: Effect)
    requires CursorInDocument(lines, cur)
    ensures r.Select? || r.SetLineAndCursor? || r.Notify?
    ensures r.Notify? <==> forall p: nat :: !Covers(lines[cur.line], p, cur.ch)
    ensures r.Notify? ==> r.note == NotNearLink
    ensures !r.Notify? ==> r == DisplayTextEdit(cur.line, lines[cur.line], FindLinkAt(lines[cur.line], cur.ch).value)
  {
    var s := lines[cur.line];
    match FindLinkAt(s, cur.ch)
    case None => Notify(NotNearLink)
    case Some(m) => DisplayTextEdit(cur.line, s, m)
  }

  /** Select the link's target: the content before the first `|`, or all of
      it when there is no `|`. */
  function SelectLinkWithoutDisplayText(lines: seq<string>, cur: Pos): (r: Effect)
    requires CursorInDocument(lines, cur)
    ensures r.Select? || r.Notify?
    ensures r.Notify? <==> forall p: nat :: !Covers(lines[cur.line], p, cur.ch)
    ensures r.Notify? ==> r.note == NotNearLink
    ensures r.Select? ==> r == TargetSelection(cur.line, lines[cur.line], FindLinkAt(lines[cur.line], cur.ch).value)
  {
    var s := lines[cur.line];
    match FindLinkAt(s, cur.ch)
    case None => Notify(NotNearLink)
    case Some(m) => TargetSelection(cur.line, s, m)
  }

  /** With a `|` in the content, the target selection, the `|` and the
      display-text selection make up the content exactly. */
  lemma TargetPipeDisplayIsContent(lineNo: nat, s: string, m: Link)
    requires WellFormed(s, m) && '|' in Content(s, m)
    ensures DisplayTextEdit(lineNo, s, m).Select?
    ensures var t := TargetSelection(lineNo, s, m);
            var d := DisplayTextEdit(lineNo, s, m);
            Content(s, m) == s[t.anchor.ch .. t.head.ch] + "|" + s[d.anchor.ch .. d.head.ch]
  {
    var i := m.start + 2 + IndexOf(Content(s, m), '|');
    SelectionsAroundPipe(lineNo, s, m);
    var t := TargetSelection(lineNo, s, m);
    var d := DisplayTextEdit(lineNo, s, m);
    assert t.anchor.ch == m.start + 2 && t.head.ch == i;
    assert d.anchor.ch == i + 1 && d.head.ch == m.end - 2;
    SplitAt(s, m.start + 2, i, m.end - 2);
  }

  /** With a `|` in the content, both selections border its first `|`. */
  lemma SelectionsAroundPipe(lineNo: nat, s: string, m: Link)
    requires WellFormed(s, m) && '|' in Content(s, m)
    ensures var i := m.start + 2 + IndexOf(Content(s, m), '|');
            && i < m.end - 2 && s[i] == '|'
            && TargetSelection(lineNo, s, m) == Select(Pos(lineNo, m.start + 2), Pos(lineNo, i))
            && DisplayTextEdit(lineNo, s, m) == Select(Pos(lineNo, i + 1), Pos(lineNo, m.end - 2))
  {
    var content := Content(s, m);
    var pipe := IndexOf(content, '|');
    assert s[m.start + 2 + pipe] == content[pipe];
  }

  /** A slice holding a `|` at index `i` is the part before it, the `|`,
      and the part after it. */
  lemma SplitAt(s: string, a: nat, i: nat, b: nat)
    requires a <= i < b <= |s| && s[i] == '|'
    ensures s[a .. b] == s[a .. i] + "|" + s[i + 1 .. b]
  {
    assert s[a .. b] == s[a .. i] + [s[i]] + s[i + 1 .. b];
  }

  /** Where the inserted `|` cannot change an earlier match: a match at `p`
      before the link `m` either ends before the inserted character, or it
      already ended at `m`'s closing brackets before the insertion. */
  lemma PipeInsertionBeforeLink(s: string, m: Link, p: nat)
    requires IsLinkStart(s, m.start) && m.end == LinkEnd(s, m.start)
    requires p < m.start && IsLinkStart(WithPipeAt(s, m.end - 2), p)
    ensures LinkEnd(WithPipeAt(s, m.end - 2), p) < m.end - 1
            || (IsLinkStart(s, p) && LinkEnd(s, p) == m.end)
  {
    var t := WithPipeAt(s, m.end - 2);
    var q := CloseIndex(t, p + 2);
    assert forall k :: 0 <= k < m.end - 2 ==> t[k] == s[k];
    assert t[m.end - 2] == '|';
    if q >= m.end - 2 {
      CloseIndexUnique(s, p + 2, m.end - 2);
    }
  }

  /** Inserting the `|` adds exactly one character and moves the rest of
      the line one place to the right. */
  lemma WithPipeAtChars(s: string, i: nat)
    requires i <= |s|
    ensures |WithPipeAt(s, i)| == |s| + 1
    ensures WithPipeAt(s, i)[i] == '|'
    ensures forall k :: 0 <= k < i ==> WithPipeAt(s, i)[k] == s[k]
    ensures forall k :: i < k <= |s| ==> WithPipeAt(s, i)[k] == s[k - 1]
  {
  }

  /** After the insertion, the first `]` after the link's opening brackets
      is the old one, one place further right. */
  lemma PipeInsertedClose(s: string, m: Link)
    requires IsLinkStart(s, m.start) && m.end == LinkEnd(s, m.start)
    ensures CloseIndex(WithPipeAt(s, m.end - 2), m.start + 2) == m.end - 1
  {
    var t := WithPipeAt(s, m.end - 2);
    WithPipeAtChars(s, m.end - 2);
    assert CloseIndex(s, m.start + 2) == m.end - 2;
    assert t[m.end - 1] == s[m.end - 2] == ']';
    CloseIndexUnique(t, m.start + 2, m.end - 1);
  }

  /** Inserting a `|` before the closing brackets of the match at
      `m.start` leaves a match there, one character longer, whose content
      gained the `|` at its end. */
  lemma PipeInsertedLinkShape(s: string, m: Link)
    requires IsLinkStart(s, m.start) && m.end == LinkEnd(s, m.start)
    ensures var t := WithPipeAt(s, m.end - 2);
            && IsLinkStart(t, m.start) && LinkEnd(t, m.start) == m.end + 1
            && Content(t, Link(m.start, m.end + 1)) == Content(s, m) + "|"
  {
    PipeInsertedStillLink(s, m);
    PipeInsertedContent(s, m.start + 2, m.end - 2);
  }

  /** The match at `m.start` survives the insertion, one character longer. */
  lemma PipeInsertedStillLink(s: string, m: Link)
    requires IsLinkStart(s, m.start) && m.end == LinkEnd(s, m.start)
    ensures IsLinkStart(WithPipeAt(s, m.end - 2), m.start)
    ensures LinkEnd(WithPipeAt(s, m.end - 2), m.start) == m.end + 1
  {
    var t := WithPipeAt(s, m.end - 2);
    PipeInsertedClose(s, m);
    assert CloseIndex(s, m.start + 2) == m.end - 2;
    WithPipeAtBefore(s, m.end - 2, m.start);
    WithPipeAtBefore(s, m.end - 2, m.start + 1);
    WithPipeAtAfter(s, m.end - 2, m.end);
    assert t[m.end] == ']';
  }

  /** Characters before the insertion point stay where they were ... */
  lemma WithPipeAtBefore(s: string, i: nat, k: nat)
    requires k < i <= |s|
    ensures WithPipeAt(s, i)[k] == s[k]
  {
  }

  /** ... and characters after it move one place right. */
  lemma WithPipeAtAfter(s: string, i: nat, k: nat)
    requires i < k <= |s|
    ensures WithPipeAt(s, i)[k] == s[k - 1]
  {
  }

  /** The text from `a` up to the insertion point gains the `|` at its end. */
  lemma PipeInsertedContent(s: string, a: nat, i: nat)
    requires a <= i <= |s|
    ensures WithPipeAt(s, i)[a .. i + 1] == s[a .. i] + "|"
  {
    WithPipeAtChars(s, i);
  }

  /** ... and no match before it spans the offset just after the `|`. */
  lemma PipeInsertedNothingEarlier(s: string, ch: int, m: Link, t: string, after: int)
    requires FirstCover(s, ch, m)
    requires t == WithPipeAt(s, m.end - 2) && after == m.end - 1
    ensures forall p: nat :: p < m.start ==> !Covers(t, p, after)
  {
    forall p: nat | p < m.start
      ensures !Covers(t, p, after)
    {
      if IsLinkStart(t, p) {
        PipeInsertionBeforeLink(s, m, p);
        assert !Covers(s, p, ch);
      }
    }
  }

  /** The first cover stays the first cover after the insertion, one
      character longer, seen from just after the `|`. */
  lemma PipeInsertedFirstCover(s: string, ch: int, m: Link)
    requires FirstCover(s, ch, m)
    ensures FirstCover(WithPipeAt(s, m.end - 2), m.end - 1, Link(m.start, m.end + 1))
  {
    var t := WithPipeAt(s, m.end - 2);
    PipeInsertedLinkShape(s, m);
    PipeInsertedNothingEarlier(s, ch, m, t, m.end - 1);
  }

  /** So the link found just after the inserted `|` is the same link. */
  lemma PipeInsertedLinkFound(s: string, ch: int, m: Link)
    requires FindLinkAt(s, ch) == Some(m)
    ensures FindLinkAt(WithPipeAt(s, m.end - 2), m.end - 1) == Some(Link(m.start, m.end + 1))
  {
    assert m.start + 5 <= m.end <= |s|;
    var t := WithPipeAt(s, m.end - 2);
    PipeInsertedFirstCover(s, ch, m);
    FindLinkAtIsFirstCover(t, m.end - 1, Link(m.start, m.end + 1));
  }

  /** The first `|` of a string that ends in its only `|`. */
  lemma IndexOfTrailingPipe(c: string)
    requires '|' !in c
    ensures IndexOf(c + "|", '|') == |c|
  {
    var k := IndexOf(c + "|", '|');
    assert (c + "|")[|c|] == '|';
  }

  /** On a link whose content just gained its only `|` at the end, the
      display-text edit selects the empty text between `|` and `]]`. */
  lemma DisplayTextAfterPipe(lineNo: nat, s: string, m: Link)
    requires WellFormed(s, m) && '|' !in Content(s, m)
    ensures DisplayTextEdit(lineNo, WithPipeAt(s, m.end - 2), Link(m.start, m.end + 1))
            == Select(Pos(lineNo, m.end - 1), Pos(lineNo, m.end - 1))
  {
    var t := WithPipeAt(s, m.end - 2);
    WithPipeAtChars(s, m.end - 2);
    PipeInsertedContent(s, m.start + 2, m.end - 2);
    assert Content(t, Link(m.start, m.end + 1)) == Content(s, m) + "|";
    IndexOfTrailingPipe(Content(s, m));
  }

  /** After "select link display text" inserted a `|`, running it again at
      the new cursor selects the empty display text right at the cursor and
      changes nothing more. */
  lemma InsertedPipeOpensEmptyDisplayText(lines: seq<string>, cur: Pos)
    requires CursorInDocument(lines, cur)
    requires SelectLinkDisplayText(lines, cur).SetLineAndCursor?
    ensures var e := SelectLinkDisplayText(lines, cur);
            SelectLinkDisplayText(lines[cur.line := e.text], e.pos) == Select(e.pos, e.pos)
  {
    var s := lines[cur.line];
    var m := FindLinkAt(s, cur.ch).value;
    DisplayTextOnLine(lines, cur, m);
    var e := DisplayTextEdit(cur.line, s, m);
    var after := Pos(cur.line, m.end - 1);
    var t := WithPipeAt(s, m.end - 2);
    assert e.SetLineAndCursor?;
    assert e.text == t && e.pos == after;
    var lines' := lines[cur.line := t];
    assert lines'[cur.line] == t;
    PipeInsertedLinkFound(s, cur.ch, m);
    DisplayTextOnLine(lines', after, Link(m.start, m.end + 1));
    DisplayTextAfterPipe(cur.line, s, m);
  }

  /** Once the link at the cursor is known, the command is its edit. */
  lemma DisplayTextOnLine(lines: seq<string>, cur: Pos, m: Link)
    requires CursorInDocument(lines, cur) && FindLinkAt(lines[cur.line], cur.ch) == Some(m)
    ensures WellFormed(lines[cur.line], m)
    ensures SelectLinkDisplayText(lines, cur) == DisplayTextEdit(cur.line, lines[cur.line], m)
  {
  }

  /** On the line of the next two examples, the match around offset 10 is
      the one at index 4. */
  lemma ExampleLinkWithDisplayText(s: string)
    requires s == "See [[Note Name|Display]] here"
    ensures FindLinkAt(s, 10) == Some(Link(4, 25))
  {
    CloseIndexUnique(s, 6, 23);
    assert IsLinkStart(s, 4) && LinkEnd(s, 4) == 25;
    forall p: nat | p < 4
      ensures !Covers(s, p, 10)
    {
      assert s[p] != '[';
    }
    FindLinkAtIsFirstCover(s, 10, Link(4, 25));
  }

  /** Its first `|` is the tenth character of its content. */
  lemma ExamplePipeIndex(s: string)
    requires s == "See [[Note Name|Display]] here"
    ensures IndexOf(Content(s, Link(4, 25)), '|') == 9
  {
    var c := Content(s, Link(4, 25));
    assert forall i :: 0 <= i < 9 ==> c[i] == s[6 + i] && s[6 + i] != '|';
    assert c[9] == s[15] == '|';
    IndexOfAt(c, '|', 9);
  }

  /** `indexOf` finds a character at `k` when none occurs before it. */
  lemma IndexOfAt(s: string, c: char, k: nat)
    requires k < |s| && s[k] == c
    requires forall i :: 0 <= i < k ==> s[i] != c
    ensures IndexOf(s, c) == k
  {
  }

  /** A link with display text, cursor inside the target: the target and the
      display text are selected exactly. */
  lemma SelectLinkPartsExample(s: string)
    requires s == "See [[Note Name|Display]] here"
    ensures SelectLinkWithoutDisplayText([s], Pos(0, 10)) == Select(Pos(0, 6), Pos(0, 15))
    ensures s[6..15] == "Note Name"
    ensures SelectLinkDisplayText([s], Pos(0, 10)) == Select(Pos(0, 16), Pos(0, 23))
    ensures s[16..23] == "Display"
  {
    ExampleLinkWithDisplayText(s);
    ExamplePipeIndex(s);
    SelectionsAroundPipe(0, s, Link(4, 25));
    ExampleParts(s);
  }

  lemma ExampleParts(s: string)
    requires s == "See [[Note Name|Display]] here"
    ensures s[6..15] == "Note Name" && s[16..23] == "Display"
  {
    assert forall i :: 0 <= i < 9 ==> s[6 + i] == "Note Name"[i];
    assert forall i :: 0 <= i < 7 ==> s[16 + i] == "Display"[i];
  }

  /** On the line of the next example, the match around offset 8 is the one
      at index 4, and it has no `|`. */
  lemma ExampleLinkWithoutDisplayText(s: string)
    requires s == "See [[Note Name]] here"
    ensures FindLinkAt(s, 8) == Some(Link(4, 17))
    ensures IndexOf(Content(s, Link(4, 17)), '|') == -1
  {
    CloseIndexUnique(s, 6, 15);
    assert IsLinkStart(s, 4) && LinkEnd(s, 4) == 17;
    assert Covers(s, 4, 8);
    forall p: nat | p < 4
      ensures !Covers(s, p, 8)
    {
      assert s[p] != '[';
    }
    assert forall i :: 6 <= i < 15 ==> s[i] != '|';
  }

  /** A link without display text: a `|` goes in before the closing
      brackets and the cursor lands just after it. */
  lemma InsertPipeExample(s: string)
    requires s == "See [[Note Name]] here"
    ensures SelectLinkDisplayText([s], Pos(0, 8)) == SetLineAndCursor(0, "See [[Note Name|]] here", Pos(0, 16))
  {
    ExampleLinkWithoutDisplayText(s);
    assert WithPipeAt(s, 15) == "See [[Note Name|]] here";
  }
}
