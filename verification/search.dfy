/** Searching the open novel and locating the current chapter
    (src/app/search.rs). Unicode lower-casing is a parameter, as in the
    chapter classifier; the examples use ASCII folding. */
module Search {
  import opened Wrappers
  import opened Text
  import opened NovelModel

  /** `SearchState`: the query, the matching lines as (line index, text), and
      the highlighted result. */
  datatype SearchState = SearchState(input: string, results: seq<(nat, string)>, selected: Option<nat>)

  // ---------------------------------------------------------------------------
  // perform_search

  /** The lines whose lower-cased text contains `term`, as (index, line), in
      line order: every listed pair is a real match, and every match is listed. */
  function SearchLines(lines: seq<string>, term: string, lower: string -> string): (r: seq<(nat, string)>)
    ensures forall k :: 0 <= k < |r| ==>
      r[k].0 < |lines| && r[k].1 == lines[r[k].0] && Contains(lower(lines[r[k].0]), term)
    ensures forall k, m :: 0 <= k < m < |r| ==> r[k].0 < r[m].0
    ensures forall i :: 0 <= i < |lines| && Contains(lower(lines[i]), term) ==> (i, lines[i]) in r
    decreases |lines|
  {
    if lines == [] then []
    else
      var n := |lines| - 1;
      var init := SearchLines(lines[..n], term, lower);
      forall i | 0 <= i < n ensures lines[..n][i] == lines[i] { }
      if Contains(lower(lines[n]), term) then init + [(n, lines[n])] else init
  }

  /** The highlighted result after a search that found `count` results: kept
      when still in range, otherwise the first one, and none when nothing was
      found. */
  function RepairSelection(selected: Option<nat>, count: nat): (r: Option<nat>)
    ensures r.None? <==> count == 0
    ensures r.Some? ==> r.value < count
    ensures selected.Some? && selected.value < count ==> r == selected
  {
    if count == 0 then None
    else if selected.None? || selected.value >= count then Some(0)
    else selected
  }

  /** `perform_search` over the open novel (`None` when no novel is open). */
  function PerformSearch(novel: Option<Novel>, s: SearchState, lower: string -> string): (r: SearchState)
    ensures novel.None? ==> r == s
    ensures novel.Some? && s.input == [] ==> r == s.(results := [], selected := None)
    ensures novel.Some? && s.input != [] ==>
      && r.input == s.input
      && r.results == SearchLines(Lines(novel.value.content), lower(s.input), lower)
    ensures novel.Some? ==> (r.selected.None? <==> r.results == [])
    ensures novel.Some? && r.selected.Some? ==> r.selected.value < |r.results|
    ensures novel.Some? && s.selected.Some? && s.selected.value < |r.results| ==> r.selected == s.selected
  {
    match novel
    case None => s
    case Some(n) =>
      if s.input == [] then s.(results := [], selected := None)
      else
        var results := SearchLines(Lines(n.content), lower(s.input), lower);
        s.(results := results, selected := RepairSelection(s.selected, |results|))
  }

  /** Searching again with the same query changes nothing. */
  lemma PerformSearchIdempotent(novel: Option<Novel>, s: SearchState, lower: string -> string)
    ensures PerformSearch(novel, PerformSearch(novel, s, lower), lower) == PerformSearch(novel, s, lower)
  {
  }

  /** A line holding no copy of the term's first character does not contain it. */
  lemma LacksFirstChar(hay: string, needle: string)
    requires needle != [] && forall i :: 0 <= i < |hay| ==> hay[i] != needle[0]
    ensures !Contains(hay, needle)
  {
    forall i | 0 <= i <= |hay| - |needle| ensures !OccursAt(hay, needle, i) {
      assert hay[i..i + |needle|][0] == hay[i];
    }
  }

  /** Case-folded, "test" occurs in the second and third example lines and not
      in the first. */
  lemma ExampleMatches()
    ensures !Contains(AsciiLower("Hello world"), "test")
    ensures Contains(AsciiLower("This is a test"), "test")
    ensures Contains(AsciiLower("Another TEST line"), "test")
  {
    LacksFirstChar(AsciiLower("Hello world"), "test");
    var a := AsciiLower("This is a test");
    assert a[10] == 't' && a[11] == 'e' && a[12] == 's' && a[13] == 't';
    assert OccursAt(a, "test", 10);
    var b := AsciiLower("Another TEST line");
    assert b[8] == 't' && b[9] == 'e' && b[10] == 's' && b[11] == 't';
    assert OccursAt(b, "test", 8);
  }

  /** The query "test" over three lines finds the second and the third, whatever
      their case. */
  lemma SearchExample()
    ensures SearchLines(["Hello world", "This is a test", "Another TEST line"], "test", AsciiLower)
         == [(1, "This is a test"), (2, "Another TEST line")]
  {
    ExampleMatches();
    var lines := ["Hello world", "This is a test", "Another TEST line"];
    var two := lines[..2];
    var one := two[..1];
    assert two == ["Hello world", "This is a test"];
    assert one == ["Hello world"];
    assert one[..0] == [];
    assert SearchLines(one, "test", AsciiLower) == [];
    assert SearchLines(two, "test", AsciiLower) == [(1, "This is a test")];
  }

  // ---------------------------------------------------------------------------
  // find_chapter_index / find_current_chapter_index

  /** `r` is the last chapter of the leading run of chapters starting at or
      before `line`. */
  predicate EndsLeadingRun(chapters: seq<Chapter>, line: nat, r: nat) {
    && r < |chapters|
    && (forall j :: 0 <= j <= r ==> chapters[j].startLine <= line)
    && (r + 1 == |chapters| || chapters[r + 1].startLine > line)
  }

  /** The loop of `find_chapter_index` from chapter `i` on, with `current` the
      index kept so far. */
  function FindChapterFrom(chapters: seq<Chapter>, line: nat, i: nat, current: nat): (r: nat)
    requires i <= |chapters|
    requires forall j :: 0 <= j < i ==> chapters[j].startLine <= line
    requires current == if i == 0 then 0 else i - 1
    ensures chapters == [] || chapters[0].startLine > line ==> r == 0
    ensures chapters != [] && chapters[0].startLine <= line ==> EndsLeadingRun(chapters, line, r)
    decreases |chapters| - i
  {
    if i == |chapters| then current
    else if chapters[i].startLine <= line then FindChapterFrom(chapters, line, i + 1, i)
    else current
  }

  /** `find_chapter_index`: the last chapter of the leading run that starts at
      or before `line`, and 0 when there is none. */
  function FindChapterIndex(chapters: seq<Chapter>, line: nat): (r: nat)
    ensures chapters != [] ==> r < |chapters|
    ensures chapters == [] || chapters[0].startLine > line ==> r == 0
    ensures chapters != [] && chapters[0].startLine <= line ==> EndsLeadingRun(chapters, line, r)
  {
    FindChapterFrom(chapters, line, 0, 0)
  }

  predicate SortedByStart(chapters: seq<Chapter>) {
    forall j, k :: 0 <= j < k < |chapters| ==> chapters[j].startLine <= chapters[k].startLine
  }

  /** For chapters in line order the result is the last chapter starting at or
      before `line`: it starts there, and every later one starts after it. */
  lemma FindChapterIndexSorted(chapters: seq<Chapter>, line: nat)
    requires SortedByStart(chapters) && chapters != [] && chapters[0].startLine <= line
    ensures var r := FindChapterIndex(chapters, line);
      chapters[r].startLine <= line && forall j :: r < j < |chapters| ==> chapters[j].startLine > line
  {
    var r := FindChapterIndex(chapters, line);
    if r + 1 < |chapters| {
      forall j | r < j < |chapters| ensures chapters[j].startLine > line {
        assert chapters[r + 1].startLine <= chapters[j].startLine;
      }
    }
  }

  /** Chapters starting at lines 10, 20 and 30: line 0 falls before all of
      them, line 20 in the second, line 999 in the last. */
  lemma FindChapterIndexBoundaries()
    ensures var chapters := [Chapter("A", 10), Chapter("B", 20), Chapter("C", 30)];
      FindChapterIndex(chapters, 0) == 0 && FindChapterIndex(chapters, 20) == 1 && FindChapterIndex(chapters, 999) == 2
  {
    var chapters := [Chapter("A", 10), Chapter("B", 20), Chapter("C", 30)];
    assert EndsLeadingRun(chapters, 20, FindChapterIndex(chapters, 20));
    assert EndsLeadingRun(chapters, 999, FindChapterIndex(chapters, 999));
  }

  /** `find_current_chapter_index`: the chapter holding the reading position of
      the open novel, or `None` without a novel or without chapters. */
  function FindCurrentChapterIndex(novel: Option<Novel>): (r: Option<nat>)
    ensures r.None? <==> novel.None? || novel.value.chapters == []
    ensures r.Some? ==> r.value < |novel.value.chapters|
    ensures r.Some? ==> r.value == FindChapterIndex(novel.value.chapters, novel.value.progress.scrollOffset)
  {
    match novel
    case None => None
    case Some(n) => if n.chapters == [] then None else Some(FindChapterIndex(n.chapters, n.progress.scrollOffset))
  }

  /** Chapters at lines 0, 10 and 20: offsets 5, 15 and 25 lie in the first,
      second and third. */
  lemma CurrentChapterExample(n: Novel)
    requires n.chapters == [Chapter("Intro", 0), Chapter("Middle", 10), Chapter("End", 20)]
    ensures FindCurrentChapterIndex(Some(n.(progress := ReadingProgress(5, [])))) == Some(0)
    ensures FindCurrentChapterIndex(Some(n.(progress := ReadingProgress(15, [])))) == Some(1)
    ensures FindCurrentChapterIndex(Some(n.(progress := ReadingProgress(25, [])))) == Some(2)
  {
    var chapters := n.chapters;
    assert chapters[0].startLine == 0 && chapters[1].startLine == 10 && chapters[2].startLine == 20;
    assert EndsLeadingRun(chapters, 5, FindChapterIndex(chapters, 5));
    assert EndsLeadingRun(chapters, 15, FindChapterIndex(chapters, 15));
    assert EndsLeadingRun(chapters, 25, FindChapterIndex(chapters, 25));
  }
}
