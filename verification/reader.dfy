/** Scrolling in the reading view (src/event/reader.rs): a line at a time, a
    screen at a time (counting the rows each line wraps to), and from chapter
    to chapter. The novel's lines are `Lines(content)`; the display width of a
    string is a parameter, as in `Navigation`. */
module Reader {
  import opened Wrappers
  import opened NovelModel
  import Navigation
  import Search

  /** `usize::saturating_sub`. */
  function Monus(a: nat, b: nat): (r: nat)
    ensures a >= b ==> r == a - b
    ensures a < b ==> r == 0
  {
    if a >= b then a - b else 0
  }

  // ---------------------------------------------------------------------------
  // Screen geometry

  /** The terminal's size in columns and rows. */
  datatype Terminal = Terminal(width: nat, height: nat)

  /** Columns for text: the terminal width less the borders and margins. */
  function ContentWidth(t: Terminal): nat {
    Monus(t.width, 4)
  }

  /** Rows of text on one screen: the terminal height less the title line, the
      two borders and the help line, and never fewer than one. */
  function PageSize(t: Terminal): (r: nat)
    ensures r >= 1
    ensures t.height >= 5 ==> r == t.height - 4
    ensures t.height <= 5 ==> r == 1
  {
    var rows := Monus(Monus(Monus(t.height, 1), 2), 1);
    if rows > 1 then rows else 1
  }

  /** The furthest the first visible line may be: the last line. */
  function MaxScroll(lineCount: nat): nat {
    Monus(lineCount, 1)
  }

  // ---------------------------------------------------------------------------
  // Rows taken by runs of lines

  function Height(line: string, width: nat, dw: string -> nat): nat {
    Navigation.CountPhysicalLines(line, width, dw)
  }

  /** The rows lines `a` up to (not including) `b` occupy on screen. */
  function Rows(lines: seq<string>, a: nat, b: nat, width: nat, dw: string -> nat): nat
    requires a <= b <= |lines|
    decreases b - a
  {
    if a == b then 0 else Rows(lines, a, b - 1, width, dw) + Height(lines[b - 1], width, dw)
  }

  /** Rows can be counted from the front as well. */
  lemma {:induction false} RowsFront(lines: seq<string>, a: nat, b: nat, width: nat, dw: string -> nat)
    requires a < b <= |lines|
    ensures Rows(lines, a, b, width, dw) == Height(lines[a], width, dw) + Rows(lines, a + 1, b, width, dw)
    decreases b - a
  {
    if a + 1 < b {
      RowsFront(lines, a, b - 1, width, dw);
    }
  }

  /** A longer run takes at least as many rows. */
  lemma {:induction false} RowsGrow(lines: seq<string>, a: nat, b: nat, c: nat, width: nat, dw: string -> nat)
    requires a <= b <= c <= |lines|
    ensures Rows(lines, a, b, width, dw) <= Rows(lines, a, c, width, dw)
    decreases c - b
  {
    if b < c {
      RowsGrow(lines, a, b, c - 1, width, dw);
    }
  }

  /** The page-down loop: walking down from line `i` with `used` rows already
      filled, the number of further lines that fit and the rows then filled.
      The lines taken fit on the page and the next line would not. */
  function FitForward(lines: seq<string>, i: nat, used: nat, width: nat, pageSize: nat, dw: string -> nat): (r: (nat, nat))
    requires i <= |lines| && used <= pageSize
    ensures i + r.0 <= |lines|
    ensures r.1 == used + Rows(lines, i, i + r.0, width, dw)
    ensures r.1 <= pageSize
    ensures i + r.0 < |lines| ==> r.1 + Height(lines[i + r.0], width, dw) > pageSize
    decreases |lines| - i
  {
    if i == |lines| then (0, used)
    else
      var h := Height(lines[i], width, dw);
      if used + h > pageSize then (0, used)
      else
        var rest := FitForward(lines, i + 1, used + h, width, pageSize, dw);
        RowsFront(lines, i, i + 1 + rest.0, width, dw);
        (rest.0 + 1, rest.1)
  }

  /** The page-up loop: walking up from just above line `j` with `used` rows
      already filled, the number of lines that fit and the rows then filled. */
  function FitBackward(lines: seq<string>, j: nat, used: nat, width: nat, pageSize: nat, dw: string -> nat): (r: (nat, nat))
    requires j <= |lines| && used <= pageSize
    ensures r.0 <= j
    ensures r.1 == used + Rows(lines, j - r.0, j, width, dw)
    ensures r.1 <= pageSize
    ensures r.0 < j ==> r.1 + Height(lines[j - r.0 - 1], width, dw) > pageSize
    decreases j
  {
    if j == 0 then (0, used)
    else
      var h := Height(lines[j - 1], width, dw);
      if used + h > pageSize then (0, used)
      else
        var rest := FitBackward(lines, j - 1, used + h, width, pageSize, dw);
        (rest.0 + 1, rest.1)
  }

  // ---------------------------------------------------------------------------
  // Page up and page down

  /** Right / `l`: the first line below the current screen becomes the top one,
      moving at least one line and never past the last line. */
  function PageDown(lines: seq<string>, offset: nat, width: nat, pageSize: nat, dw: string -> nat): (r: nat)
    ensures r <= MaxScroll(|lines|)
    ensures offset < MaxScroll(|lines|) ==> offset < r
    ensures offset < |lines| && r > offset + 1 ==> Rows(lines, offset, r, width, dw) <= pageSize
    ensures offset < |lines| && offset < r < MaxScroll(|lines|) ==>
      r == offset + 1 || Rows(lines, offset, r + 1, width, dw) > pageSize
  {
    var start := if offset <= |lines| then offset else |lines|;
    var taken := FitForward(lines, start, 0, width, pageSize, dw).0;
    var jump := if taken > 1 then taken else 1;
    var r := if offset + jump <= MaxScroll(|lines|) then offset + jump else MaxScroll(|lines|);
    if offset < |lines| && r > offset + 1 then
      RowsGrow(lines, offset, r, offset + taken, width, dw);
      r
    else r
  }

  /** Left / `h`: the lines that fit on the screen above become the screen,
      moving at least one line and never above the first. */
  function PageUp(lines: seq<string>, offset: nat, width: nat, pageSize: nat, dw: string -> nat): (r: nat)
    ensures r <= offset
    ensures offset > 0 ==> r < offset
    ensures offset <= |lines| && r + 1 < offset ==> Rows(lines, r, offset, width, dw) <= pageSize
    ensures offset <= |lines| && 0 < r < offset ==>
      r + 1 == offset || Rows(lines, r - 1, offset, width, dw) > pageSize
  {
    var above := if offset <= |lines| then offset else |lines|;
    var taken := FitBackward(lines, above, 0, width, pageSize, dw).0;
    var jump := if taken > 1 then taken else 1;
    var r := Monus(offset, jump);
    if offset <= |lines| && 0 < r < offset then
      RowsFront(lines, r - 1, offset, width, dw);
      r
    else r
  }

  /** A screen that fits in full pages moves by the same lines both ways: on
      lines one row high each, paging down from a line and back up returns to
      it. */
  lemma {:induction false} UniformRows(lines: seq<string>, a: nat, b: nat, width: nat, dw: string -> nat)
    requires a <= b <= |lines|
    requires forall k :: a <= k < b ==> Height(lines[k], width, dw) == 1
    ensures Rows(lines, a, b, width, dw) == b - a
    decreases b - a
  {
    if a < b {
      UniformRows(lines, a, b - 1, width, dw);
    }
  }

  /** With every line one row high, a page of at least one row and a full
      page left below the current one, page down moves by exactly one page and page up brings it
      back. The reader never asks for a page of no rows: it clamps the page
      size to at least one. */
  lemma PageDownThenUp(lines: seq<string>, offset: nat, width: nat, pageSize: nat, dw: string -> nat)
    requires forall k :: 0 <= k < |lines| ==> Height(lines[k], width, dw) == 1
    requires pageSize >= 1 && offset + pageSize < |lines|
    ensures PageDown(lines, offset, width, pageSize, dw) == offset + pageSize
    ensures PageUp(lines, offset + pageSize, width, pageSize, dw) == offset
  {
    var r := PageDown(lines, offset, width, pageSize, dw);
    UniformRows(lines, offset, r, width, dw);
    if r + 1 <= |lines| {
      UniformRows(lines, offset, r + 1, width, dw);
    }
    var u := PageUp(lines, offset + pageSize, width, pageSize, dw);
    UniformRows(lines, u, offset + pageSize, width, dw);
    if u > 0 {
      UniformRows(lines, u - 1, offset + pageSize, width, dw);
    }
  }

  // ---------------------------------------------------------------------------
  // Chapter jumps

  /** `[`: the start of the chapter before the current one, when there is one. */
  function PrevChapterStart(chapters: seq<Chapter>, offset: nat): (r: Option<nat>)
    ensures r.Some? <==> chapters != [] && Search.FindChapterIndex(chapters, offset) > 0
    ensures r.Some? ==> exists k :: 0 <= k < |chapters| && r.value == chapters[k].startLine
    ensures r.Some? ==> r.value == chapters[Search.FindChapterIndex(chapters, offset) - 1].startLine
  {
    if chapters == [] then None
    else
      var current := Search.FindChapterIndex(chapters, offset);
      if current > 0 then Some(chapters[current - 1].startLine) else None
  }

  /** `]`: the start of the chapter after the current one, when there is one. */
  function NextChapterStart(chapters: seq<Chapter>, offset: nat): (r: Option<nat>)
    ensures r.Some? <==> chapters != [] && Search.FindChapterIndex(chapters, offset) + 1 < |chapters|
    ensures r.Some? ==> exists k :: 0 <= k < |chapters| && r.value == chapters[k].startLine
    ensures r.Some? ==> r.value == chapters[Search.FindChapterIndex(chapters, offset) + 1].startLine
  {
    if chapters == [] then None
    else
      var current := Search.FindChapterIndex(chapters, offset);
      if current + 1 < |chapters| then Some(chapters[current + 1].startLine) else None
  }

  /** Chapter starts in strictly increasing line order, as the parser yields. */
  predicate Ascending(chapters: seq<Chapter>) {
    forall j, k :: 0 <= j < k < |chapters| ==> chapters[j].startLine < chapters[k].startLine
  }

  /** The start line of chapter `k` lies in chapter `k`. */
  lemma ChapterOfStart(chapters: seq<Chapter>, k: nat)
    requires Ascending(chapters) && k < |chapters|
    ensures Search.FindChapterIndex(chapters, chapters[k].startLine) == k
  {
    var line := chapters[k].startLine;
    if k > 0 {
      assert chapters[0].startLine < line;
    }
    var r := Search.FindChapterIndex(chapters, line);
    assert Search.EndsLeadingRun(chapters, line, r);
    assert forall j :: k < j < |chapters| ==> chapters[j].startLine > line;
    assert forall j :: 0 <= j <= k ==> chapters[j].startLine <= line;
    assert chapters[r].startLine <= line;
    assert r + 1 < |chapters| ==> chapters[r + 1].startLine > line;
  }

  /** `]` then `[` lands on the start of the chapter one was reading, and `[`
      then `]` likewise. */
  lemma ChapterJumpsRoundTrip(chapters: seq<Chapter>, offset: nat)
    requires Ascending(chapters)
    ensures NextChapterStart(chapters, offset).Some? ==>
      PrevChapterStart(chapters, NextChapterStart(chapters, offset).value)
        == Some(chapters[Search.FindChapterIndex(chapters, offset)].startLine)
    ensures PrevChapterStart(chapters, offset).Some? ==>
      NextChapterStart(chapters, PrevChapterStart(chapters, offset).value)
        == Some(chapters[Search.FindChapterIndex(chapters, offset)].startLine)
  {
    if NextChapterStart(chapters, offset).Some? {
      ChapterOfStart(chapters, Search.FindChapterIndex(chapters, offset) + 1);
    }
    if PrevChapterStart(chapters, offset).Some? {
      ChapterOfStart(chapters, Search.FindChapterIndex(chapters, offset) - 1);
    }
  }

  /** Before the first chapter, the current chapter counts as the first, so `]`
      goes to the second chapter's start. */
  lemma NextFromBeforeFirstChapter(chapters: seq<Chapter>, offset: nat)
    requires |chapters| >= 2 && offset < chapters[0].startLine
    ensures NextChapterStart(chapters, offset) == Some(chapters[1].startLine)
    ensures PrevChapterStart(chapters, offset).None?
  {
  }

  // ---------------------------------------------------------------------------
  // The scroll keys of handle_reader_key

  datatype ScrollKey = LineUp | LineDown | PageUpKey | PageDownKey | PrevChapter | NextChapter

  /** The novel after a scroll key, and whether the progress was saved (the
      chapter jumps save it). Only the reading position changes. */
  function HandleScrollKey(n: Novel, key: ScrollKey, t: Terminal, dw: string -> nat): (r: (Novel, bool))
    ensures r.0 == n.(progress := n.progress.(scrollOffset := r.0.progress.scrollOffset))
    ensures r.1 ==> key.PrevChapter? || key.NextChapter?
    ensures key.LineUp? ==> r.0.progress.scrollOffset == Monus(n.progress.scrollOffset, 1)
    ensures key.LineDown? ==>
      var limit := Monus(MaxScroll(|Lines(n.content)|), PageSize(t));
      r.0.progress.scrollOffset == if n.progress.scrollOffset < limit then n.progress.scrollOffset + 1
                                   else n.progress.scrollOffset
    ensures key.PageDownKey? ==>
      r.0.progress.scrollOffset == PageDown(Lines(n.content), n.progress.scrollOffset, ContentWidth(t), PageSize(t), dw)
    ensures key.PageUpKey? ==>
      r.0.progress.scrollOffset == PageUp(Lines(n.content), n.progress.scrollOffset, ContentWidth(t), PageSize(t), dw)
    ensures key.PrevChapter? ==> (r.1 <==> PrevChapterStart(n.chapters, n.progress.scrollOffset).Some?)
    ensures key.PrevChapter? && r.1 ==> r.0.progress.scrollOffset == PrevChapterStart(n.chapters, n.progress.scrollOffset).value
    ensures key.NextChapter? ==> (r.1 <==> NextChapterStart(n.chapters, n.progress.scrollOffset).Some?)
    ensures key.NextChapter? && r.1 ==> r.0.progress.scrollOffset == NextChapterStart(n.chapters, n.progress.scrollOffset).value
  {
    var lines := Lines(n.content);
    var offset := n.progress.scrollOffset;
    var next: (nat, bool) :=
      match key
      case LineUp => (Monus(offset, 1), false)
      case LineDown => (if offset < Monus(MaxScroll(|lines|), PageSize(t)) then offset + 1 else offset, false)
      case PageUpKey => (PageUp(lines, offset, ContentWidth(t), PageSize(t), dw), false)
      case PageDownKey => (PageDown(lines, offset, ContentWidth(t), PageSize(t), dw), false)
      case PrevChapter =>
        (match PrevChapterStart(n.chapters, offset) case Some(s) => (s, true) case None => (offset, false))
      case NextChapter =>
        (match NextChapterStart(n.chapters, offset) case Some(s) => (s, true) case None => (offset, false));
    (n.(progress := n.progress.(scrollOffset := next.0)), next.1)
  }

  /** Chapters that start on lines of the text. */
  predicate ChaptersWithin(chapters: seq<Chapter>, lineCount: nat) {
    forall k :: 0 <= k < |chapters| ==> chapters[k].startLine < lineCount
  }

  /** No scroll key takes the reading position past the last line, starting
      from a position on the text and with chapters that start on it. */
  lemma ScrollStaysOnText(n: Novel, key: ScrollKey, t: Terminal, dw: string -> nat)
    requires n.progress.scrollOffset <= MaxScroll(|Lines(n.content)|)
    requires ChaptersWithin(n.chapters, |Lines(n.content)|)
    ensures HandleScrollKey(n, key, t, dw).0.progress.scrollOffset <= MaxScroll(|Lines(n.content)|)
  {
  }

  /** Line down stops once the last line reaches the bottom of the screen:
      it never takes the position past `MaxScroll - PageSize` from below. */
  lemma LineDownStopsAtLastPage(n: Novel, t: Terminal, dw: string -> nat)
    requires n.progress.scrollOffset <= Monus(MaxScroll(|Lines(n.content)|), PageSize(t))
    ensures HandleScrollKey(n, LineDown, t, dw).0.progress.scrollOffset <= Monus(MaxScroll(|Lines(n.content)|), PageSize(t))
  {
  }
}
