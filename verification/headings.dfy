/** The line classifier and the line scans every heading command is built
    from. A line is a heading when it matches the regular expression
    `^(#+)\s`; its level is the length of the `#` run. */
module Headings {
  import opened Basics

  /** The characters JavaScript's `\s` class matches: the white-space and
      line-terminator characters of ECMAScript, which include the
      Unicode space separators and the byte-order mark. */
  predicate IsJsWhitespace(c: char) {
    || c == '\t' || c == '\n' || c == '\U{0B}' || c == '\U{0C}' || c == '\r'
    || c == ' ' || c == '\U{A0}' || c == '\U{1680}'
    || ('\U{2000}' <= c <= '\U{200A}')
    || c == '\U{2028}' || c == '\U{2029}' || c == '\U{202F}' || c == '\U{205F}'
    || c == '\U{3000}' || c == '\U{FEFF}'
  }

  /** Length of the run of `#` at the start of `s`. */
  function HashRun(s: string): (k: nat)
    ensures k <= |s|
    ensures forall i :: 0 <= i < k ==> s[i] == '#'
    ensures k < |s| ==> s[k] != '#'
  {
    if |s| > 0 && s[0] == '#' then 1 + HashRun(s[1..]) else 0
  }

  /** `^(#+)\s` matches `s` with the capture group `#` repeated `k` times. */
  ghost predicate RegexMatch(s: string, k: int) {
    && 1 <= k < |s|
    && (forall i :: 0 <= i < k ==> s[i] == '#')
    && IsJsWhitespace(s[k])
  }

  /** Heading level of a line, 0 when the line is not a heading. */
  function HeadingLevel(s: string): nat {
    var k := HashRun(s);
    if 1 <= k < |s| && IsJsWhitespace(s[k]) then k else 0
  }

  /** The regex matches exactly when the level is positive, and then its
      capture group is exactly `level` characters long. */
  lemma HeadingLevelIsRegexMatch(s: string)
    ensures forall k :: RegexMatch(s, k) <==> HeadingLevel(s) > 0 && k == HeadingLevel(s)
  {
  }

  /** A heading of any level. */
  predicate IsHeading(s: string) {
    Matches(s, AnyHeading)
  }

  /** Which heading lines a scan stops at. */
  datatype Pattern =
    | AnyHeading
    | LevelIs(n: int)       // exactly level n
    | LevelBelow(n: int)    // a shallower heading: level < n
    | LevelAtMost(n: int)   // level <= n

  predicate Matches(line: string, p: Pattern) {
    var level := HeadingLevel(line);
    level > 0 &&
    match p
    case AnyHeading => true
    case LevelIs(n) => level == n
    case LevelBelow(n) => level < n
    case LevelAtMost(n) => level <= n
  }

  /** First line in `[from, hi)` that matches `p`, scanning downward. */
  function FindDown(lines: seq<string>, from: nat, hi: nat, p: Pattern): (r: Option<nat>)
    requires hi <= |lines|
    ensures r.Some? ==> from <= r.value < hi && Matches(lines[r.value], p)
    ensures r.Some? ==> forall j :: from <= j < r.value ==> !Matches(lines[j], p)
    ensures r.None? ==> forall j :: from <= j < hi ==> !Matches(lines[j], p)
    decreases hi as int - from
  {
    if from >= hi then None
    else if Matches(lines[from], p) then Some(from)
    else FindDown(lines, from + 1, hi, p)
  }

  /** Last line in `[downTo, from]` that matches `p`, scanning upward from
      `from`; `from` may be -1, the line above the first. */
  function FindUp(lines: seq<string>, from: int, downTo: nat, p: Pattern): (r: Option<nat>)
    requires from < |lines|
    ensures r.Some? ==> downTo <= r.value <= from && Matches(lines[r.value], p)
    ensures r.Some? ==> forall j :: r.value < j <= from ==> !Matches(lines[j], p)
    ensures r.None? ==> forall j :: downTo <= j <= from ==> !Matches(lines[j], p)
    decreases from + 1 - downTo
  {
    if from < downTo then None
    else if Matches(lines[from], p) then Some(from)
    else FindUp(lines, from - 1, downTo, p)
  }

  /** Number of lines in `[from, hi)` that are headings of level `level`. */
  function CountLevel(lines: seq<string>, from: nat, hi: nat, level: int): nat
    requires hi <= |lines|
    decreases hi as int - from
  {
    if from >= hi then 0
    else (if Matches(lines[from], LevelIs(level)) then 1 else 0) + CountLevel(lines, from + 1, hi, level)
  }

  /** The set of lines in `[from, hi)` that are headings of level `level`. */
  ghost function LevelLines(lines: seq<string>, from: nat, hi: nat, level: int): set<nat>
    requires hi <= |lines|
  {
    set i: nat | from <= i < hi && Matches(lines[i], LevelIs(level))
  }

  /** Peeling the first line off a range of level lines. */
  lemma LevelLinesFirst(lines: seq<string>, from: nat, hi: nat, level: int)
    requires from < hi <= |lines|
    ensures from !in LevelLines(lines, from + 1, hi, level)
    ensures Matches(lines[from], LevelIs(level)) ==>
      LevelLines(lines, from, hi, level) == {from} + LevelLines(lines, from + 1, hi, level)
    ensures !Matches(lines[from], LevelIs(level)) ==>
      LevelLines(lines, from, hi, level) == LevelLines(lines, from + 1, hi, level)
  {
  }

  /** The running count agrees with the size of the set it counts. */
  lemma {:induction false} CountLevelIsCardinality(lines: seq<string>, from: nat, hi: nat, level: int)
    requires hi <= |lines|
    ensures CountLevel(lines, from, hi, level) == |LevelLines(lines, from, hi, level)|
    decreases hi as int - from
  {
    if from >= hi {
      assert LevelLines(lines, from, hi, level) == {};
    } else {
      CountLevelIsCardinality(lines, from + 1, hi, level);
      LevelLinesFirst(lines, from, hi, level);
    }
  }

  /** A range holding a heading of the level counts it. */
  lemma {:induction false} CountLevelPositive(lines: seq<string>, from: nat, hi: nat, level: int, c: nat)
    requires from <= c < hi <= |lines| && Matches(lines[c], LevelIs(level))
    ensures CountLevel(lines, from, hi, level) >= 1
    decreases c - from
  {
    if from < c {
      CountLevelPositive(lines, from + 1, hi, level, c);
    }
  }
}
