/** The flat markdown section splitter (`ChunkingService._split_markdown_sections`).
    A line opens a new section when, stripped, it matches `^(#{1,6})\s+(.+)$`;
    everything before the first such line belongs to a section titled
    "Introduction". Headings are not nested: every level opens a section. */
module MarkdownSections {
  import opened Text
  import opened Wrappers

  /** One `(title, body)` pair; the body is the section's lines joined by "\n",
      its heading line included. */
  datatype Section = Section(title: string, body: string)

  const Introduction := "Introduction"

  /** Number of '#' characters at the front of `s`. */
  function LeadingHashes(s: string): (n: nat)
    ensures n <= |s|
    ensures forall i :: 0 <= i < n ==> s[i] == '#'
    ensures n < |s| ==> s[n] != '#'
  {
    if |s| == 0 || s[0] != '#' then 0 else 1 + LeadingHashes(s[1..])
  }

  /** `s` is `h` (1 to 6) '#', `w` (at least one) whitespace characters, then
      `title`, which starts at a non-space because `\s+` is greedy. */
  ghost predicate HeadingSplit(s: string, h: int, w: int, title: string) {
    && 1 <= h <= 6 && 1 <= w && h + w <= |s|
    && (forall i :: 0 <= i < h ==> s[i] == '#')
    && (forall i :: h <= i < h + w ==> IsSpace(s[i]))
    && s[h + w..] == title
    && title != "" && !IsSpace(title[0])
  }

  /** `title` is the second group of a match of `^(#{1,6})\s+(.+)$` on `s`. */
  ghost predicate HeadingMatch(s: string, title: string) {
    exists h, w :: HeadingSplit(s, h, w, title)
  }

  /** The text group of the heading pattern matched against `line.strip()`, or
      None when the line is not a heading. Lines come from `split('\n')`, so
      they hold no newline for `.` to stop at. */
  function HeadingText(line: string): (t: Option<string>)
    ensures t.Some? ==> t.value != "" && !IsSpace(t.value[0])
  {
    var s := Strip(line);
    StripShape(line);
    var h := LeadingHashes(s);
    if 1 <= h <= 6 && h < |s| && IsSpace(s[h]) then
      var rest := s[h..];
      var w := LeadingSpaces(rest);
      assert w < |rest| by {
        assert s != "";
        assert rest[|rest| - 1] == s[|s| - 1];
      }
      Some(rest[w..])
    else
      None
  }

  /** In a match, the '#' run is all the leading '#' characters of `s`. */
  lemma SplitFixesHashes(s: string, h: int, w: int, title: string)
    requires HeadingSplit(s, h, w, title)
    ensures h == LeadingHashes(s) && h < |s| && IsSpace(s[h])
  {
    var n := LeadingHashes(s);
    assert s[h] != '#' by {
      assert IsSpace(s[h]);
      assert !IsSpace('#');
    }
    assert n <= h;
    assert h <= n by {
      assert forall i :: 0 <= i < h ==> s[i] == '#';
    }
  }

  /** `HeadingText` agrees with the pattern: it returns the text group of the
      match when there is one, and None when no title can match. */
  lemma HeadingTextMatches(line: string)
    ensures HeadingText(line).Some? ==> HeadingMatch(Strip(line), HeadingText(line).value)
    ensures HeadingText(line).None? ==> forall title :: !HeadingMatch(Strip(line), title)
  {
    if HeadingText(line).Some? {
      HeadingTextFound(line);
    }
    HeadingTextNotFound(line);
  }

  lemma HeadingTextFound(line: string)
    requires HeadingText(line).Some?
    ensures HeadingMatch(Strip(line), HeadingText(line).value)
  {
    var s := Strip(line);
    var h := LeadingHashes(s);
    var rest := s[h..];
    var w := LeadingSpaces(rest);
    assert s[h + w..] == rest[w..];
    assert HeadingSplit(s, h, w, rest[w..]);
  }

  lemma HeadingTextNotFound(line: string)
    ensures HeadingText(line).None? ==> forall title :: !HeadingMatch(Strip(line), title)
  {
    var s := Strip(line);
    var h := LeadingHashes(s);
    forall h', w', title | HeadingSplit(s, h', w', title)
      ensures 1 <= h <= 6 && h < |s| && IsSpace(s[h])
    {
      SplitFixesHashes(s, h', w', title);
    }
  }

  predicate IsHeading(line: string) {
    HeadingText(line).Some?
  }

  /** The title a section gets from its first line. */
  function TitleOf(first: string): string {
    match HeadingText(first)
    case Some(t) => t
    case None => Introduction
  }

  /** The lines of all groups, in order. */
  function Flatten(groups: seq<seq<string>>): seq<string> {
    if |groups| == 0 then [] else Flatten(groups[..|groups| - 1]) + groups[|groups| - 1]
  }

  predicate AllNonEmpty(groups: seq<seq<string>>) {
    forall i :: 0 <= i < |groups| ==> |groups[i]| > 0
  }

  /** How the splitter's loop groups lines: the first line starts a group,
      and so does every line for which `opens` holds; any other line joins
      the group before it. The splitter's `opens` is `IsHeading`. */
  function Groups(lines: seq<string>, opens: string -> bool): (gs: seq<seq<string>>)
    ensures |lines| > 0 ==> |gs| > 0
    ensures AllNonEmpty(gs)
    decreases |lines|
  {
    if |lines| == 0 then []
    else
      var gs := Groups(lines[..|lines| - 1], opens);
      var line := lines[|lines| - 1];
      if gs == [] || opens(line) then gs + [[line]]
      else gs[..|gs| - 1] + [gs[|gs| - 1] + [line]]
  }

  lemma FlattenSnoc(gs: seq<seq<string>>, g: seq<string>)
    ensures Flatten(gs + [g]) == Flatten(gs) + g
  {
    assert (gs + [g])[..|gs|] == gs;
  }

  lemma FlattenExtendLast(init: seq<seq<string>>, last: seq<string>, line: string)
    ensures Flatten(init + [last + [line]]) == Flatten(init + [last]) + [line]
  {
    FlattenSnoc(init, last + [line]);
    FlattenSnoc(init, last);
  }

  /** The groups, read one after the other, are the lines. */
  lemma {:induction false} GroupsFlatten(lines: seq<string>, opens: string -> bool)
    ensures Flatten(Groups(lines, opens)) == lines
    decreases |lines|
  {
    if |lines| > 0 {
      var prev, line := lines[..|lines| - 1], lines[|lines| - 1];
      assert lines == prev + [line];
      var gs := Groups(prev, opens);
      GroupsFlatten(prev, opens);
      if gs == [] || opens(line) {
        assert Groups(lines, opens) == gs + [[line]];
        FlattenSnoc(gs, [line]);
      } else {
        var init, last := gs[..|gs| - 1], gs[|gs| - 1];
        assert gs == init + [last];
        assert Groups(lines, opens) == init + [last + [line]];
        FlattenExtendLast(init, last, line);
      }
    }
  }

  /** No line after the first of `group` opens a group. */
  predicate NoInnerOpener(group: seq<string>, opens: string -> bool) {
    forall j :: 0 < j < |group| ==> !opens(group[j])
  }

  /** Every group after the first starts with an opening line, and no group
      holds an opening line after its first line. */
  lemma {:induction false} GroupsOpenAtOpeners(lines: seq<string>, opens: string -> bool)
    ensures forall i :: 0 < i < |Groups(lines, opens)| ==> opens(Groups(lines, opens)[i][0])
    ensures forall i :: 0 <= i < |Groups(lines, opens)| ==> NoInnerOpener(Groups(lines, opens)[i], opens)
    decreases |lines|
  {
    if |lines| > 0 {
      var prev := lines[..|lines| - 1];
      GroupsOpenAtOpeners(prev, opens);
      var gs := Groups(prev, opens);
      var line := lines[|lines| - 1];
      var r := Groups(lines, opens);
      if gs == [] || opens(line) {
        assert r == gs + [[line]];
        forall i | 0 < i < |r| ensures opens(r[i][0]) {
          if i < |gs| { assert r[i] == gs[i]; }
        }
        forall i | 0 <= i < |r| ensures NoInnerOpener(r[i], opens) {
          if i < |gs| { assert r[i] == gs[i]; }
        }
      } else {
        var last := gs[|gs| - 1] + [line];
        assert r == gs[..|gs| - 1] + [last];
        assert NoInnerOpener(last, opens) by {
          forall j | 0 < j < |last| ensures !opens(last[j]) {
            if j < |last| - 1 {
              assert last[j] == gs[|gs| - 1][j];
              assert NoInnerOpener(gs[|gs| - 1], opens);
            }
          }
        }
        forall i | 0 < i < |r| ensures opens(r[i][0]) {
          assert r[i][0] == gs[i][0];
        }
        forall i | 0 <= i < |r| ensures NoInnerOpener(r[i], opens) {
          if i < |gs| - 1 { assert r[i] == gs[i]; }
        }
      }
    }
  }

  function SectionOf(group: seq<string>): Section
    requires |group| > 0
  {
    Section(TitleOf(group[0]), JoinLines(group))
  }

  /** One section per group, in order. */
  function SectionsOf(gs: seq<seq<string>>): (secs: seq<Section>)
    requires AllNonEmpty(gs)
    ensures |secs| == |gs|
    ensures forall i :: 0 <= i < |gs| ==>
      secs[i].title == TitleOf(gs[i][0]) && secs[i].body == JoinLines(gs[i])
  {
    seq(|gs|, i requires 0 <= i < |gs| => SectionOf(gs[i]))
  }

  /** The sections `_split_markdown_sections` returns for `content`. */
  function Sections(content: string): (secs: seq<Section>)
    ensures |secs| >= 1
  {
    SectionsOf(Groups(SplitLines(content), IsHeading))
  }

  function Bodies(secs: seq<Section>): seq<string> {
    seq(|secs|, i requires 0 <= i < |secs| => secs[i].body)
  }

  /** One more line either opens a group or joins the last one. */
  lemma GroupsStep(lines: seq<string>, i: nat, opens: string -> bool)
    requires i < |lines|
    ensures Groups(lines[..i + 1], opens) ==
      if Groups(lines[..i], opens) == [] || opens(lines[i]) then
        Groups(lines[..i], opens) + [[lines[i]]]
      else
        Groups(lines[..i], opens)[..|Groups(lines[..i], opens)| - 1]
          + [Groups(lines[..i], opens)[|Groups(lines[..i], opens)| - 1] + [lines[i]]]
  {
    assert lines[..i + 1][..i] == lines[..i];
  }

  lemma SectionsOfSnoc(gs: seq<seq<string>>, g: seq<string>)
    requires AllNonEmpty(gs) && |g| > 0
    ensures AllNonEmpty(gs + [g])
    ensures SectionsOf(gs + [g]) == SectionsOf(gs) + [SectionOf(g)]
  {
  }

  /** Runs the line loop of the splitter. */
  method SplitMarkdownSections(content: string) returns (sections: seq<Section>)
    ensures sections == Sections(content)
    ensures |sections| >= 1
  {
    var lines := SplitLines(content);
    sections := [];
    var title := Introduction;
    var current: seq<string> := [];
    ghost var done: seq<seq<string>> := [];
    for i := 0 to |lines|
      invariant i == 0 ==> current == [] && done == [] && title == Introduction
      invariant i > 0 ==> current != [] && Groups(lines[..i], IsHeading) == done + [current]
      invariant i > 0 ==> title == TitleOf(current[0])
      invariant AllNonEmpty(done) && sections == SectionsOf(done)
    {
      var line := lines[i];
      GroupsStep(lines, i, IsHeading);
      assert i == 0 ==> Groups(lines[..i], IsHeading) == [];
      match HeadingText(line) {
        case Some(text) =>
          // the heading level (the length of the first group) is computed
          // by the source and never used
          if current != [] {
            SectionsOfSnoc(done, current);
            assert SectionOf(current) == Section(title, JoinLines(current));
            sections := sections + [Section(title, JoinLines(current))];
            done := done + [current];
          }
          title := text;
          current := [line];
        case None =>
          assert i > 0 ==> (done + [current])[..|done|] == done;
          current := current + [line];
          if i == 0 {
            assert current == [line];
            assert done + [current] == [[line]];
          }
      }
    }
    SectionsOfSnoc(done, current);
    if current != [] {
      sections := sections + [Section(title, JoinLines(current))];
      done := done + [current];
    }
    assert lines[..|lines|] == lines;
  }

  /** Every line of a flattened group sequence comes from one group. */
  lemma {:induction false} FlattenHas(gs: seq<seq<string>>, i: nat, j: nat)
    requires i < |gs| && j < |gs[i]|
    ensures gs[i][j] in Flatten(gs)
    decreases |gs|
  {
    if i < |gs| - 1 {
      FlattenHas(gs[..|gs| - 1], i, j);
    }
  }

  /** Joining the joined groups equals joining all their lines. */
  lemma {:induction false} JoinLinesFlatten(gs: seq<seq<string>>)
    requires forall i :: 0 <= i < |gs| ==> |gs[i]| > 0
    ensures JoinLines(seq(|gs|, i requires 0 <= i < |gs| => JoinLines(gs[i]))) == JoinLines(Flatten(gs))
  {
    var joined := seq(|gs|, i requires 0 <= i < |gs| => JoinLines(gs[i]));
    if |gs| > 1 {
      var init := gs[..|gs| - 1];
      JoinLinesFlatten(init);
      var joinedInit := seq(|init|, i requires 0 <= i < |init| => JoinLines(init[i]));
      assert joined == joinedInit + [JoinLines(gs[|gs| - 1])];
      JoinLinesAppend(joinedInit, [JoinLines(gs[|gs| - 1])]);
      JoinLinesAppend(Flatten(init), gs[|gs| - 1]);
    } else if |gs| == 1 {
      assert Flatten(gs) == gs[0];
    }
  }

  /** Joining the section bodies with "\n" gives back the document. */
  lemma SectionsRejoin(content: string)
    ensures JoinLines(Bodies(Sections(content))) == content
  {
    var gs := Groups(SplitLines(content), IsHeading);
    GroupsFlatten(SplitLines(content), IsHeading);
    JoinLinesFlatten(gs);
    assert Bodies(Sections(content)) == seq(|gs|, i requires 0 <= i < |gs| => JoinLines(gs[i]));
  }

  /** The lines of the document, split at "\n", are the lines of the sections,
      section after section: every line lands in exactly one section, in order. */
  lemma SectionsPartitionLines(content: string)
    ensures var secs := Sections(content);
      Flatten(seq(|secs|, i requires 0 <= i < |secs| => SplitLines(secs[i].body))) == SplitLines(content)
  {
    var gs := Groups(SplitLines(content), IsHeading);
    GroupsFlatten(SplitLines(content), IsHeading);
    var secs := Sections(content);
    forall i | 0 <= i < |gs| ensures SplitLines(secs[i].body) == gs[i] {
      SectionLines(content, i);
    }
    assert seq(|secs|, i requires 0 <= i < |secs| => SplitLines(secs[i].body)) == gs;
  }

  /** The lines of the i-th section are the i-th group of the document's lines. */
  lemma SectionLines(content: string, i: nat)
    requires i < |Sections(content)|
    ensures SplitLines(Sections(content)[i].body) == Groups(SplitLines(content), IsHeading)[i]
  {
    var lines := SplitLines(content);
    var gs := Groups(lines, IsHeading);
    GroupsFlatten(lines, IsHeading);
    forall j | 0 <= j < |gs[i]| ensures NoNewline(gs[i][j]) {
      FlattenHas(gs, i, j);
    }
    SplitJoinLines(gs[i]);
  }

  /** The shape of the i-th section: its lines are the heading (except possibly
      for the first section) followed by non-heading lines, and its title is the
      heading's text, or "Introduction" for leading lines before any heading. */
  lemma SectionShape(content: string, i: nat)
    requires i < |Sections(content)|
    ensures var sec := Sections(content)[i];
      var lines := SplitLines(sec.body);
      && (i > 0 ==> IsHeading(lines[0]))
      && (forall j :: 0 < j < |lines| ==> !IsHeading(lines[j]))
      && (IsHeading(lines[0]) ==> sec.title == HeadingText(lines[0]).value)
      && (!IsHeading(lines[0]) ==> i == 0 && sec.title == Introduction)
  {
    SectionLines(content, i);
    GroupsOpenAtOpeners(SplitLines(content), IsHeading);
  }

  /** The first section starts at the first line of the document. */
  lemma FirstSectionStartsDocument(content: string)
    ensures var first := SplitLines(Sections(content)[0].body)[0];
      first == SplitLines(content)[0]
      && (IsHeading(first) ==> Sections(content)[0].title == HeadingText(first).value)
      && (!IsHeading(first) ==> Sections(content)[0].title == Introduction)
  {
    var lines := SplitLines(content);
    var gs := Groups(lines, IsHeading);
    SectionLines(content, 0);
    GroupsFlatten(lines, IsHeading);
    FlattenFirst(gs);
  }

  lemma {:induction false} FlattenFirst(gs: seq<seq<string>>)
    requires |gs| > 0 && |gs[0]| > 0
    ensures |Flatten(gs)| > 0 && Flatten(gs)[0] == gs[0][0]
  {
    if |gs| > 1 {
      FlattenFirst(gs[..|gs| - 1]);
    }
  }

  /** A document without headings is one "Introduction" section holding all of it. */
  lemma NoHeadingIsIntroduction(content: string)
    requires forall j :: 0 <= j < |SplitLines(content)| ==> !IsHeading(SplitLines(content)[j])
    ensures Sections(content) == [Section(Introduction, content)]
  {
    var lines := SplitLines(content);
    GroupsWithoutOpeners(lines, IsHeading);
    assert !IsHeading(lines[0]);
    assert SectionsOf([lines]) == [SectionOf(lines)];
  }

  /** Lines none of which opens a group form a single group. */
  lemma {:induction false} GroupsWithoutOpeners(lines: seq<string>, opens: string -> bool)
    requires |lines| > 0
    requires forall j :: 0 <= j < |lines| ==> !opens(lines[j])
    ensures Groups(lines, opens) == [lines]
    decreases |lines|
  {
    var init := lines[..|lines| - 1];
    var last := lines[|lines| - 1];
    if |init| > 0 {
      assert forall j :: 0 <= j < |init| ==> init[j] == lines[j];
      GroupsWithoutOpeners(init, opens);
      assert init + [last] == lines;
    } else {
      assert lines == [last];
    }
  }

  /** `""` splits into one empty "Introduction" section. */
  lemma SectionsOfEmpty()
    ensures Sections("") == [Section(Introduction, "")]
  {
    NoHeadingIsIntroduction("");
  }

  /** A line of `h` hashes, one space and a title with no whitespace at
      either end is a heading with that title. */
  lemma HeadingLine(line: string, h: nat, title: string)
    requires 1 <= h <= 6 && |line| == h + 1 + |title|
    requires forall i :: 0 <= i < h ==> line[i] == '#'
    requires line[h] == ' ' && line[h + 1..] == title
    requires title != "" && !IsSpace(title[0]) && !IsSpace(title[|title| - 1])
    ensures HeadingText(line) == Some(title)
  {
    assert line[|line| - 1] == title[|title| - 1];
    StripUnchanged(line);
    assert LeadingHashes(line) == h;
    var rest := line[h..];
    assert rest[0] == ' ' && rest[1] == title[0];
    assert LeadingSpaces(rest) == 1;
    assert rest[1..] == title;
  }

  /** A line that starts with neither a hash nor whitespace is no heading. */
  lemma PlainLine(line: string)
    requires line != "" && line[0] != '#' && !IsSpace(line[0]) && !IsSpace(line[|line| - 1])
    ensures !IsHeading(line)
  {
    StripUnchanged(line);
  }
}
