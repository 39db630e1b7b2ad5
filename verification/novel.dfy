/** A novel file and its reading progress (src/model/novel.rs): the progress
    record that is persisted and synchronised, chapter detection over the
    text's lines, and the constructor that names a novel after its file.

    Unicode lower-casing (`str::to_lowercase`) is not modelled: the classifier
    takes the lower-casing function as a parameter. */
module NovelModel {
  import opened Wrappers
  import opened Text
  import opened Paths

  /** One bookmark of a novel: a name, the line it marks and when it was made. */
  datatype Bookmark = Bookmark(name: string, position: nat, timestamp: nat)

  /** How far a novel has been read, and its bookmarks. */
  datatype ReadingProgress = ReadingProgress(scrollOffset: nat, bookmarks: seq<Bookmark>)

  /** `ReadingProgress::default()`. */
  const DefaultProgress: ReadingProgress := ReadingProgress(0, [])

  datatype Chapter = Chapter(title: string, startLine: nat)

  datatype Novel = Novel(
    title: string,
    path: string,
    content: string,
    progress: ReadingProgress,
    chapters: seq<Chapter>)

  /** Title used when a path has no file stem. */
  const UnknownTitle: string := "未知标题"

  /** `Novel::new`: titled after the file stem, with nothing loaded yet. */
  function NewNovel(h: Host, path: string): (n: Novel)
    ensures FileStem(h, path).Some? ==> n.title == FileStem(h, path).value
    ensures FileStem(h, path).None? ==> n.title == UnknownTitle
    ensures n.path == path && n.content == [] && n.chapters == []
    ensures n.progress == DefaultProgress
  {
    Novel(FileStem(h, path).GetOr(UnknownTitle), path, [], DefaultProgress, [])
  }

  lemma NewNovelExample()
    ensures NewNovel(Unix, "/path/to/my_novel.txt").title == "my_novel"
  {
    assert "/path/to/my_novel.txt" == "/path/to" + "/" + "my_novel" + "." + "txt";
    FileStemOfFile("/path/to", "my_novel", "txt");
  }

  // ---------------------------------------------------------------------------
  // `str::lines`

  /** The lines of `s`: split after each '\n', which is dropped together with a
      '\r' right before it; a final line ending adds no empty line. */
  function Lines(s: string): (r: seq<string>)
    ensures forall k :: 0 <= k < |r| ==> SepFree(r[k], {'\n'})
    ensures |r| <= |s|
    decreases |s|
  {
    if s == [] then []
    else
      var i := FirstSep(s, {'\n'});
      if i == |s| then [s]
      else
        var line := s[..i];
        var stripped := if line != [] && line[|line| - 1] == '\r' then line[..|line| - 1] else line;
        [stripped] + Lines(s[i + 1..])
  }

  /** Text without carriage returns is its lines joined by '\n', up to one
      final line ending: each line is exactly the text between two line
      breaks. */
  lemma {:induction false} JoinLines(s: string)
    requires SepFree(s, {'\r'})
    ensures Join(Lines(s), "\n") == if s != [] && s[|s| - 1] == '\n' then s[..|s| - 1] else s
    decreases |s|
  {
    if s != [] {
      var i := FirstSep(s, {'\n'});
      if i < |s| {
        var line, t := s[..i], s[i + 1..];
        LinesOfBreak(s, i);
        JoinLines(t);
        if t != [] {
          JoinCons(line, Lines(t), "\n");
          SplitAtBreak(s, i);
        }
      }
    }
  }

  /** One step of `Lines` at the first line break, when no '\r' precedes it. */
  lemma LinesOfBreak(s: string, i: nat)
    requires SepFree(s, {'\r'})
    requires i == FirstSep(s, {'\n'}) && i < |s|
    ensures Lines(s) == [s[..i]] + Lines(s[i + 1..])
    ensures Lines(s[i + 1..]) != [] <==> s[i + 1..] != []
    ensures SepFree(s[i + 1..], {'\r'})
  {
    SepFreeSlice(s, 0, i, {'\r'});
    SepFreeSlice(s, i + 1, |s|, {'\r'});
    assert s[..i] == s[0..i] && s[i + 1..] == s[i + 1..|s|];
    assert s[..i] == [] || s[..i][i - 1] !in {'\r'};
  }

  /** A slice of text free of some characters is free of them too. */
  lemma SepFreeSlice(s: string, a: nat, b: nat, seps: set<char>)
    requires SepFree(s, seps) && a <= b <= |s|
    ensures SepFree(s[a..b], seps)
  {
    forall j | 0 <= j < b - a ensures s[a..b][j] !in seps {
      assert s[a..b][j] == s[a + j];
    }
  }

  lemma JoinCons(head: string, tail: seq<string>, sep: string)
    requires tail != []
    ensures Join([head] + tail, sep) == head + sep + Join(tail, sep)
  {
    assert ([head] + tail)[1..] == tail;
  }

  /** Cutting `s` at a line break, with or without its last character. */
  lemma SplitAtBreak(s: string, i: nat)
    requires i < |s| - 1 && s[i] == '\n'
    ensures s == s[..i] + "\n" + s[i + 1..]
    ensures s[..|s| - 1] == s[..i] + "\n" + s[i + 1..][..|s[i + 1..]| - 1]
  {
  }

  // ---------------------------------------------------------------------------
  // Chapter-title classifier (`is_chapter_title`)

  const ChapterKeywords: set<char> := {'章', '回', '节', '卷', '部', '篇'}

  const SpecialChapters: seq<string> :=
    ["序章", "序言", "楔子", "尾声", "后记", "番外", "终章", "结语", "引子", "开篇"]

  const ChineseNumerals: set<char> :=
    {'一', '二', '三', '四', '五', '六', '七', '八', '九', '十', '百', '千', '万'}

  /** First index of a chapter keyword (`str::find` with a char set). */
  function FirstKeyword(s: string): (r: Option<nat>)
    ensures r.Some? ==> r.value < |s| && s[r.value] in ChapterKeywords
    ensures r.Some? ==> forall j :: 0 <= j < r.value ==> s[j] !in ChapterKeywords
    ensures r.None? ==> forall j :: 0 <= j < |s| ==> s[j] !in ChapterKeywords
  {
    var i := FirstSep(s, ChapterKeywords);
    if i == |s| then None else Some(i)
  }

  /** "第…章": something without whitespace between '第' and the first keyword.
      The source compares byte offsets: the keyword lies past the 3-byte '第'
      exactly when it is not the character right after it. */
  predicate IsNumberedTitle(line: string) {
    && StartsWith(line, "第")
    && match FirstKeyword(line)
       case None => false
       case Some(k) => k > 1 && forall j :: 1 <= j < k ==> !IsWhitespace(line[j])
  }

  predicate IsEnglishTitle(line: string, lower: string -> string) {
    StartsWith(lower(line), "chapter")
  }

  predicate IsSpecialTitle(line: string) {
    exists i | 0 <= i < |SpecialChapters| :: StartsWith(line, SpecialChapters[i])
  }

  /** "12." or "3、": ASCII digits and a final '.' or '、', at most 10 bytes. */
  predicate IsDigitTitle(line: string) {
    && Utf8Len(line) <= 10
    && |line| >= 2
    && AllDigits(line[..|line| - 1])
    && (line[|line| - 1] == '.' || line[|line| - 1] == '、')
  }

  /** "一二三、": Chinese numerals and a final '、' or '.', 2 to 10 characters. */
  predicate IsChineseNumeralTitle(line: string) {
    && 1 < |line| <= 10
    && (line[|line| - 1] == '、' || line[|line| - 1] == '.')
    && forall j :: 0 <= j < |line| - 1 ==> line[j] in ChineseNumerals
  }

  /** Whether a (trimmed) line heads a chapter. A blank line never does, with
      a lowercasing that keeps the empty string empty, as `str::to_lowercase`
      does. */
  predicate IsChapterTitle(line0: string, lower: string -> string)
    ensures IsChapterTitle(line0, lower) && lower([]) == [] ==> Trim(line0) != []
  {
    var line := Trim(line0);
    || IsNumberedTitle(line)
    || IsEnglishTitle(line, lower)
    || IsSpecialTitle(line)
    || IsDigitTitle(line)
    || IsChineseNumeralTitle(line)
  }

  /** The classifier looks only at the trimmed line. */
  lemma ChapterTitleIgnoresSurroundingSpace(line: string, lower: string -> string)
    ensures IsChapterTitle(line, lower) == IsChapterTitle(Trim(line), lower)
  {
    TrimIdempotent(line);
  }

  /** On an already-trimmed line the classifier is the disjunction of its rules. */
  lemma ChapterTitleOfTrimmed(line: string, lower: string -> string)
    requires Trim(line) == line
    ensures IsChapterTitle(line, lower) <==>
      || IsNumberedTitle(line)
      || IsEnglishTitle(line, lower)
      || IsSpecialTitle(line)
      || IsDigitTitle(line)
      || IsChineseNumeralTitle(line)
  {
  }

  // Each rule on its own: a trimmed line matching it is a heading.

  /** "第…章": the first keyword sits at `k`, with no whitespace before it. */
  lemma NumberedHeading(line: string, k: nat, lower: string -> string)
    requires Trim(line) == line
    requires 1 < k < |line| && line[0] == '第' && line[k] in ChapterKeywords
    requires forall j :: 1 <= j < k ==> line[j] !in ChapterKeywords && !IsWhitespace(line[j])
    ensures IsChapterTitle(line, lower)
  {
    assert line[0] !in ChapterKeywords;
    FirstSepAt(line, k, ChapterKeywords);
    assert IsNumberedTitle(line);
    ChapterTitleOfTrimmed(line, lower);
  }

  /** English headings: any ASCII capitalisation of "chapter" at the start. */
  lemma EnglishHeading(line: string)
    requires Trim(line) == line
    requires |line| >= 7 && EqIgnoreAsciiCase(line[..7], "chapter")
    ensures IsChapterTitle(line, AsciiLower)
  {
    var low := AsciiLower(line);
    forall i | 0 <= i < 7 ensures low[i] == "chapter"[i] {
      assert line[..7][i] == line[i];
    }
    assert IsEnglishTitle(line, AsciiLower);
    ChapterTitleOfTrimmed(line, AsciiLower);
  }

  lemma SpecialHeading(line: string, i: nat, lower: string -> string)
    requires Trim(line) == line
    requires i < |SpecialChapters| && StartsWith(line, SpecialChapters[i])
    ensures IsChapterTitle(line, lower)
  {
    assert IsSpecialTitle(line);
    ChapterTitleOfTrimmed(line, lower);
  }

  /** "12.": ASCII digits and a final '.', at most ten characters. */
  lemma DigitHeading(line: string, lower: string -> string)
    requires Trim(line) == line
    requires 2 <= |line| <= 10 && line[|line| - 1] == '.' && AllDigits(line[..|line| - 1])
    ensures IsChapterTitle(line, lower)
  {
    forall i | 0 <= i < |line| ensures line[i] as int < 0x80 {
      if i < |line| - 1 { assert line[..|line| - 1][i] == line[i]; }
    }
    Utf8LenAscii(line);
    assert IsDigitTitle(line);
    ChapterTitleOfTrimmed(line, lower);
  }

  lemma ChineseNumeralHeading(line: string, lower: string -> string)
    requires Trim(line) == line && IsChineseNumeralTitle(line)
    ensures IsChapterTitle(line, lower)
  {
    ChapterTitleOfTrimmed(line, lower);
  }

  lemma NotEnglishByChar(line: string, i: nat)
    requires i < 7 && i < |line| && AsciiLowerChar(line[i]) != "chapter"[i]
    ensures !IsEnglishTitle(line, AsciiLower)
  {
    assert AsciiLower(line)[i] == AsciiLowerChar(line[i]);
  }

  /** No special heading starts with a character other than their first ones. */
  lemma NotSpecialByFirstChar(line: string)
    requires |line| > 0 && line[0] !in {'序', '楔', '尾', '后', '番', '终', '结', '引', '开'}
    ensures !IsSpecialTitle(line)
  {
    forall i | 0 <= i < |SpecialChapters| ensures !StartsWith(line, SpecialChapters[i]) {
      assert SpecialChapters[i][0] in {'序', '楔', '尾', '后', '番', '终', '结', '引', '开'};
    }
  }

  /** A line whose first character is neither a digit nor a Chinese numeral is
      neither kind of numbered-list heading. */
  lemma NotListTitle(line: string)
    requires |line| >= 2 && !IsDigit(line[0]) && line[0] !in ChineseNumerals
    ensures !IsDigitTitle(line) && !IsChineseNumeralTitle(line)
  {
    assert line[..|line| - 1][0] == line[0];
  }

  /** A trimmed line whose first character starts no rule's pattern is not a
      heading. */
  lemma NotHeadingByFirstChar(line: string)
    requires Trim(line) == line && |line| >= 2
    requires line[0] != '第' && AsciiLowerChar(line[0]) != 'c' && !IsDigit(line[0])
    requires line[0] !in ChineseNumerals
    requires line[0] !in {'序', '楔', '尾', '后', '番', '终', '结', '引', '开'}
    ensures !IsChapterTitle(line, AsciiLower)
  {
    assert !IsNumberedTitle(line) by { assert line[..1][0] == line[0]; }
    assert !IsEnglishTitle(line, AsciiLower) by { NotEnglishByChar(line, 0); }
    assert !IsSpecialTitle(line) by { NotSpecialByFirstChar(line); }
    assert !IsDigitTitle(line) && !IsChineseNumeralTitle(line) by { NotListTitle(line); }
    ChapterTitleOfTrimmed(line, AsciiLower);
  }

  /** A trimmed "第…" line with whitespace before its first keyword is not a
      heading: no other rule accepts a line starting with '第'. */
  lemma NotHeadingSpaced(line: string, k: nat, w: nat)
    requires Trim(line) == line && |line| > 0 && line[0] == '第'
    requires 1 <= w < k < |line| && IsWhitespace(line[w]) && line[k] in ChapterKeywords
    requires forall j :: 0 <= j < k ==> line[j] !in ChapterKeywords
    ensures !IsChapterTitle(line, AsciiLower)
  {
    assert !IsNumberedTitle(line) by { FirstSepAt(line, k, ChapterKeywords); }
    assert !IsEnglishTitle(line, AsciiLower) by { NotEnglishByChar(line, 0); }
    assert !IsSpecialTitle(line) by { NotSpecialByFirstChar(line); }
    assert !IsDigitTitle(line) && !IsChineseNumeralTitle(line) by { NotListTitle(line); }
    ChapterTitleOfTrimmed(line, AsciiLower);
  }

  lemma NumberedTitleExample()
    ensures IsChapterTitle("第一章 标题", AsciiLower)
  {
    TrimNoop("第一章 标题");
    NumberedHeading("第一章 标题", 2, AsciiLower);
  }

  lemma NumberedTitleDigitsExample()
    ensures IsChapterTitle("第100回", AsciiLower)
  {
    TrimNoop("第100回");
    NumberedHeading("第100回", 4, AsciiLower);
  }

  lemma EnglishTitleExample()
    ensures IsChapterTitle("Chapter 1: The Beginning", AsciiLower)
  {
    var s := "Chapter 1: The Beginning";
    TrimNoop(s);
    assert s[..7] == "Chapter";
    EnglishHeading(s);
  }

  lemma SpecialTitleExample()
    ensures IsChapterTitle("序章", AsciiLower)
  {
    TrimNoop("序章");
    SpecialHeading("序章", 0, AsciiLower);
  }

  lemma DigitTitleExample()
    ensures IsChapterTitle("123.", AsciiLower)
  {
    TrimNoop("123.");
    assert "123."[..3] == "123";
    DigitHeading("123.", AsciiLower);
  }

  lemma ChineseNumeralTitleExample()
    ensures IsChapterTitle("一二三、", AsciiLower)
  {
    TrimNoop("一二三、");
    ChineseNumeralHeading("一二三、", AsciiLower);
  }

  /** A space between the number and the keyword breaks a "第…章" heading. */
  lemma SpacedTitleExample()
    ensures !IsChapterTitle("第一 章", AsciiLower)
  {
    TrimNoop("第一 章");
    NotHeadingSpaced("第一 章", 3, 2);
  }

  lemma PlainLineExample()
    ensures !IsChapterTitle("This is a normal line.", AsciiLower)
  {
    TrimNoop("This is a normal line.");
    NotHeadingByFirstChar("This is a normal line.");
  }

  /** Lists, in line order, every line the classifier accepts, each titled by
      `titleOf` of the line. */
  method CollectChapters(lines: seq<string>, isHeading: string -> bool, titleOf: string -> string)
    returns (chapters: seq<Chapter>)
    ensures forall k :: 0 <= k < |chapters| ==>
      && chapters[k].startLine < |lines|
      && isHeading(lines[chapters[k].startLine])
      && chapters[k].title == titleOf(lines[chapters[k].startLine])
    ensures forall k, m :: 0 <= k < m < |chapters| ==> chapters[k].startLine < chapters[m].startLine
    ensures forall i :: 0 <= i < |lines| && isHeading(lines[i]) ==>
      exists k :: 0 <= k < |chapters| && chapters[k].startLine == i
  {
    chapters := [];
    var i := 0;
    while i < |lines|
      invariant 0 <= i <= |lines|
      invariant CollectedUpTo(lines, isHeading, titleOf, chapters, i)
    {
      if isHeading(lines[i]) {
        CollectedStep(lines, isHeading, titleOf, chapters, i);
        chapters := chapters + [Chapter(titleOf(lines[i]), i)];
      }
      i := i + 1;
    }
  }

  /** The chapters collected from the first `i` lines: heading lines only,
      titled from their line, in order, and none missed. */
  predicate CollectedUpTo(lines: seq<string>, isHeading: string -> bool, titleOf: string -> string,
                          chapters: seq<Chapter>, i: nat)
    requires i <= |lines|
  {
    && (forall k :: 0 <= k < |chapters| ==>
          && chapters[k].startLine < i
          && isHeading(lines[chapters[k].startLine])
          && chapters[k].title == titleOf(lines[chapters[k].startLine]))
    && (forall k, m :: 0 <= k < m < |chapters| ==> chapters[k].startLine < chapters[m].startLine)
    && (forall j :: 0 <= j < i && isHeading(lines[j]) ==>
          exists k :: 0 <= k < |chapters| && chapters[k].startLine == j)
  }

  /** Appending the chapter of a heading line at `i` extends the collection
      to the first `i + 1` lines. */
  lemma CollectedStep(lines: seq<string>, isHeading: string -> bool, titleOf: string -> string,
                      before: seq<Chapter>, i: nat)
    requires i < |lines| && isHeading(lines[i])
    requires CollectedUpTo(lines, isHeading, titleOf, before, i)
    ensures CollectedUpTo(lines, isHeading, titleOf, before + [Chapter(titleOf(lines[i]), i)], i + 1)
  {
    var chapters := before + [Chapter(titleOf(lines[i]), i)];
    forall j | 0 <= j <= i && isHeading(lines[j])
      ensures exists k :: 0 <= k < |chapters| && chapters[k].startLine == j
    {
      if j < i {
        var k :| 0 <= k < |before| && before[k].startLine == j;
        assert chapters[k] == before[k];
      } else {
        assert chapters[|chapters| - 1].startLine == i;
      }
    }
  }

  /** A line starts a chapter when its trimmed text is non-empty and a heading. */
  predicate IsHeadingLine(line: string, lower: string -> string) {
    Trim(line) != [] && IsChapterTitle(Trim(line), lower)
  }

  /** `parse_chapters`: every heading line of the novel's text, in order, titled
      by its trimmed text. */
  method ParseChapters(content: string, lower: string -> string) returns (chapters: seq<Chapter>)
    ensures forall k :: 0 <= k < |chapters| ==>
      && chapters[k].startLine < |Lines(content)|
      && IsHeadingLine(Lines(content)[chapters[k].startLine], lower)
      && chapters[k].title == Trim(Lines(content)[chapters[k].startLine])
    ensures forall k, m :: 0 <= k < m < |chapters| ==> chapters[k].startLine < chapters[m].startLine
    ensures forall i :: 0 <= i < |Lines(content)| && IsHeadingLine(Lines(content)[i], lower) ==>
      exists k :: 0 <= k < |chapters| && chapters[k].startLine == i
  {
    chapters := CollectChapters(Lines(content), line => IsHeadingLine(line, lower), Trim);
  }
}
