/** The Markdown renderer `generate_markdown`: a title line, then for each
    section its heading line and, when it has any non-blank text, its content,
    each followed by a blank line; the lines are joined with newlines and
    the result stripped of surrounding whitespace.

    `Lines` and `Render` say what the output is; `GenerateMarkdown` builds
    it step by step, as the source does, and is proved to produce `Render`. */
module Markdown {

  /** The fields of a section row the renderer reads. */
  datatype SectionContent = SectionContent(heading: string, level: int, content: string)

  /** Python's `str.isspace` for one character: the characters `str.strip()`
      removes when called without arguments. */
  predicate IsSpace(c: char)
  {
    || ('\t' <= c <= '\r')
    || ('\U{1C}' <= c <= ' ')
    || c == '\U{85}' || c == '\U{A0}' || c == '\U{1680}'
    || ('\U{2000}' <= c <= '\U{200A}')
    || c == '\U{2028}' || c == '\U{2029}' || c == '\U{202F}' || c == '\U{205F}' || c == '\U{3000}'
  }

  /** Every character is whitespace (this includes the empty string). */
  predicate Blank(s: string)
  {
    forall i :: 0 <= i < |s| ==> IsSpace(s[i])
  }

  /** `bool(s.strip())`: some character of `s` is not whitespace. */
  function HasText(s: string): (b: bool)
    ensures b <==> !Blank(s)
    decreases |s|
  {
    if |s| == 0 then false
    else
      assert forall i :: 0 < i < |s| ==> s[i] == s[1..][i - 1];
      !IsSpace(s[0]) || HasText(s[1..])
  }

  /** The number of leading whitespace characters of `s`. */
  function LeadingSpace(s: string): (n: nat)
    ensures n <= |s| && Blank(s[..n])
    ensures n == |s| || !IsSpace(s[n])
    decreases |s|
  {
    if |s| > 0 && IsSpace(s[0]) then
      var m := LeadingSpace(s[1..]);
      assert s[..m + 1] == [s[0]] + s[1..][..m];
      m + 1
    else 0
  }

  /** The length of `s` without its trailing whitespace. */
  function TrailingStart(s: string): (n: nat)
    ensures n <= |s| && Blank(s[n..])
    ensures n == 0 || !IsSpace(s[n - 1])
    decreases |s|
  {
    if |s| > 0 && IsSpace(s[|s| - 1]) then
      var m := TrailingStart(s[..|s| - 1]);
      assert s[m..] == s[..|s| - 1][m..] + [s[|s| - 1]];
      m
    else |s|
  }

  /** `s.lstrip()` */
  function StripStart(s: string): string
  {
    s[LeadingSpace(s)..]
  }

  /** `s.rstrip()` */
  function StripEnd(s: string): string
  {
    s[..TrailingStart(s)]
  }

  /** `s.strip()` */
  function Strip(s: string): string
  {
    StripEnd(StripStart(s))
  }

  /** `s.strip()` is the slice of `s` between its leading and its trailing
      whitespace: nothing but whitespace is cut on either side, and the
      result neither starts nor ends with whitespace. */
  lemma StripIsSlice(s: string)
    ensures var r := Strip(s);
      exists i {:trigger s[i..]} :: 0 <= i <= |s| - |r| && r == s[i..i + |r|]
        && Blank(s[..i]) && Blank(s[i + |r|..])
    ensures Strip(s) == [] || (!IsSpace(Strip(s)[0]) && !IsSpace(Strip(s)[|Strip(s)| - 1]))
  {
    var t := StripStart(s);
    var r := StripEnd(t);
    var i := |s| - |t|;
    assert r == s[i..i + |r|];
    assert s[i + |r|..] == t[|r|..];
    assert s[i..] == t;
  }

  /** `content.strip()` is empty exactly when the content is all whitespace. */
  lemma StripEmptyIffBlank(s: string)
    ensures Strip(s) == [] <==> Blank(s)
  {
    var n := LeadingSpace(s);
    assert s[..|s|] == s;
    if n < |s| {
      var t := s[n..];
      assert t[0] == s[n];
      assert t[0..] == t;
      var m := TrailingStart(t);
      assert m != 0;
    }
  }

  /** Trailing whitespace after a string without it is all `rstrip` removes. */
  lemma {:induction false} StripEndDropsBlankSuffix(s: string, w: string)
    requires Blank(w)
    ensures StripEnd(s + w) == StripEnd(s)
    decreases |w|
  {
    if |w| > 0 {
      var u := s + w;
      assert u[..|u| - 1] == s + w[..|w| - 1];
      assert IsSpace(u[|u| - 1]);
      StripEndDropsBlankSuffix(s, w[..|w| - 1]);
    } else {
      assert s + w == s;
    }
  }

  /** `c * n` for a one-character string: `n` copies, none for `n <= 0`. */
  function Repeat(c: char, n: int): (r: string)
    ensures |r| == if n <= 0 then 0 else n
    ensures forall i :: 0 <= i < |r| ==> r[i] == c
    decreases n
  {
    if n <= 0 then "" else [c] + Repeat(c, n - 1)
  }

  /** `"#" * level + " " + heading` */
  function HeadingLine(section: SectionContent): string
  {
    Repeat('#', section.level) + " " + section.heading
  }

  /** The title line and the blank line after it. */
  function TitleLines(docName: string): seq<string>
  {
    ["# " + docName, ""]
  }

  /** The lines one section contributes. */
  function SectionLines(section: SectionContent): seq<string>
  {
    [HeadingLine(section), ""] + (if HasText(section.content) then [section.content, ""] else [])
  }

  /** The lines all sections contribute, in input order. */
  function BodyLines(sections: seq<SectionContent>): seq<string>
    decreases |sections|
  {
    if sections == [] then [] else SectionLines(sections[0]) + BodyLines(sections[1..])
  }

  /** The complete `md_lines` list. */
  function Lines(docName: string, sections: seq<SectionContent>): seq<string>
  {
    TitleLines(docName) + BodyLines(sections)
  }

  /** `"\n".join(lines)` */
  function Join(lines: seq<string>): string
    decreases |lines|
  {
    if |lines| == 0 then ""
    else if |lines| == 1 then lines[0]
    else lines[0] + "\n" + Join(lines[1..])
  }

  /** The rendered document. */
  function Render(docName: string, sections: seq<SectionContent>): string
  {
    Strip(Join(Lines(docName, sections)))
  }

  /** `generate_markdown(doc_name, sections_content)` */
  method GenerateMarkdown(docName: string, sections: seq<SectionContent>) returns (md: string)
    ensures md == Render(docName, sections)
  {
    var mdLines: seq<string> := [];
    mdLines := mdLines + ["# " + docName];
    mdLines := mdLines + [""];
    for i := 0 to |sections|
      invariant mdLines == Lines(docName, sections[..i])
    {
      var section := sections[i];
      ghost var before := mdLines;
      var mdHeading := Repeat('#', section.level) + " " + section.heading;
      mdLines := mdLines + [mdHeading];
      mdLines := mdLines + [""];
      KeptIffHasText(section.content);
      if Strip(section.content) != "" {
        mdLines := mdLines + [section.content];
        mdLines := mdLines + [""];
      }
      assert mdLines == before + SectionLines(section);
      LinesAppend(docName, sections, i);
    }
    assert sections[..|sections|] == sections;
    md := Strip(Join(mdLines));
  }

  /** `if content.strip():` takes the branch exactly when the content has text. */
  lemma KeptIffHasText(s: string)
    ensures Strip(s) != "" <==> HasText(s)
  {
    StripEmptyIffBlank(s);
  }

  /** One more section appends its lines to `md_lines`. */
  lemma LinesAppend(docName: string, sections: seq<SectionContent>, i: nat)
    requires i < |sections|
    ensures Lines(docName, sections[..i + 1]) == Lines(docName, sections[..i]) + SectionLines(sections[i])
  {
    BodyLinesAppend(sections[..i], sections[i]);
    assert sections[..i + 1] == sections[..i] + [sections[i]];
  }

  /** Appending a section appends its lines. */
  lemma {:induction false} BodyLinesAppend(sections: seq<SectionContent>, section: SectionContent)
    ensures BodyLines(sections + [section]) == BodyLines(sections) + SectionLines(section)
    decreases |sections|
  {
    if sections == [] {
      assert BodyLines([section]) == SectionLines(section) + BodyLines([]);
    } else {
      assert (sections + [section])[1..] == sections[1..] + [section];
      BodyLinesAppend(sections[1..], section);
    }
  }

  /** Where section `i`'s lines begin in `md_lines`. */
  function Offset(sections: seq<SectionContent>, i: nat): nat
    requires i <= |sections|
  {
    |TitleLines("")| + |BodyLines(sections[..i])|
  }

  /** The block of section `i`: at its offset the heading line
      (`level` hashes, a space, the heading), then a blank line; when the
      content is not blank it follows verbatim, untrimmed, with one blank
      line after it; and the block of section `i + 1` starts right after. */
  lemma SectionBlock(docName: string, sections: seq<SectionContent>, i: nat)
    requires i < |sections|
    ensures var lines, o, s := Lines(docName, sections), Offset(sections, i), sections[i];
      && o + 2 <= |lines|
      && lines[o] == Repeat('#', s.level) + " " + s.heading
      && lines[o + 1] == ""
      && (Blank(s.content) ==> Offset(sections, i + 1) == o + 2)
      && (!Blank(s.content) ==>
            o + 4 <= |lines| && lines[o + 2] == s.content && lines[o + 3] == ""
            && Offset(sections, i + 1) == o + 4)
  {
    var s := sections[i];
    BodyLinesAppend(sections[..i], s);
    assert sections[..i + 1] == sections[..i] + [s];
    BodyLinesPrefix(sections, i + 1);
    var lines := Lines(docName, sections);
    var pre := TitleLines(docName) + BodyLines(sections[..i]);
    var block := SectionLines(s);
    assert pre + block <= lines;
    BlockAt(lines, pre, block);
    assert |pre| == Offset(sections, i);
    assert |TitleLines(docName)| + |BodyLines(sections[..i + 1])| == Offset(sections, i + 1);
    assert |BodyLines(sections[..i + 1])| == |BodyLines(sections[..i])| + |block|;
    assert Blank(s.content) <==> |block| == 2;
    assert !Blank(s.content) ==> |block| == 4 && block[2] == s.content && block[3] == "";
    assert block[0] == Repeat('#', s.level) + " " + s.heading && block[1] == "";
  }

  /** A block that follows a prefix of `lines` sits at the prefix's length. */
  lemma BlockAt(lines: seq<string>, pre: seq<string>, block: seq<string>)
    requires pre + block <= lines
    ensures forall k :: 0 <= k < |block| ==> lines[|pre| + k] == block[k]
  {
    forall k | 0 <= k < |block| ensures lines[|pre| + k] == block[k] {
      assert (pre + block)[|pre| + k] == block[k];
    }
  }

  /** The lines of a prefix of the sections are a prefix of all the lines. */
  lemma {:induction false} BodyLinesPrefix(sections: seq<SectionContent>, k: nat)
    requires k <= |sections|
    ensures BodyLines(sections[..k]) <= BodyLines(sections)
    decreases |sections| - k
  {
    if k < |sections| {
      BodyLinesPrefix(sections, k + 1);
      BodyLinesAppend(sections[..k], sections[k]);
      assert sections[..k + 1] == sections[..k] + [sections[k]];
    } else {
      assert sections[..k] == sections;
    }
  }

  /** The first of the joined lines opens the joined text. */
  lemma {:induction false} JoinStartsWithFirstLine(lines: seq<string>)
    requires |lines| > 0
    ensures lines[0] <= Join(lines)
  {
  }

  /** The output is the joined lines with only trailing whitespace removed
      (the title line starts with `#`, which `strip` keeps); it starts with
      `#` and neither starts nor ends with whitespace. */
  lemma RenderShape(docName: string, sections: seq<SectionContent>)
    ensures Render(docName, sections) == StripEnd(Join(Lines(docName, sections)))
    ensures |Render(docName, sections)| > 0 && Render(docName, sections)[0] == '#'
    ensures !IsSpace(Render(docName, sections)[|Render(docName, sections)| - 1])
  {
    var lines := Lines(docName, sections);
    JoinStartsWithFirstLine(lines);
    var j := Join(lines);
    assert j[0] == '#';
    assert StripStart(j) == j;
    assert j[0..] == j;
    assert TrailingStart(j) != 0;
  }

  /** With no sections the output is the title line `"# " + doc_name`,
      stripped; it is exactly that line when the name does not end in
      whitespace. */
  lemma EmptySectionList(docName: string)
    ensures Render(docName, []) == StripEnd("# " + docName)
    ensures |docName| > 0 && !IsSpace(docName[|docName| - 1]) ==> Render(docName, []) == "# " + docName
    ensures docName == [] ==> Render(docName, []) == "#"
  {
    RenderShape(docName, []);
    assert Lines(docName, []) == ["# " + docName, ""];
    assert Join(["# " + docName, ""]) == ("# " + docName) + "\n";
    StripEndDropsBlankSuffix("# " + docName, "\n");
  }

  /** The text one section contributes to the joined document: a blank
      line, its heading line and, when it has text, a blank line and its
      content; each followed by a newline. */
  function SectionText(section: SectionContent): string
  {
    "\n" + HeadingLine(section) + "\n"
      + (if HasText(section.content) then "\n" + section.content + "\n" else "")
  }

  function BodyText(sections: seq<SectionContent>): string
    decreases |sections|
  {
    if sections == [] then "" else SectionText(sections[0]) + BodyText(sections[1..])
  }

  lemma {:induction false} BodyTextAppend(sections: seq<SectionContent>, section: SectionContent)
    ensures BodyText(sections + [section]) == BodyText(sections) + SectionText(section)
    decreases |sections|
  {
    if sections == [] {
      assert BodyText([section]) == SectionText(section) + BodyText([]);
    } else {
      assert (sections + [section])[1..] == sections[1..] + [section];
      BodyTextAppend(sections[1..], section);
    }
  }

  /** Joining two non-empty runs of lines puts one newline between them. */
  lemma {:induction false} JoinConcat(a: seq<string>, b: seq<string>)
    requires |a| > 0 && |b| > 0
    ensures Join(a + b) == Join(a) + "\n" + Join(b)
    decreases |a|
  {
    if |a| == 1 {
      assert (a + b)[1..] == b;
    } else {
      assert (a + b)[1..] == a[1..] + b;
      JoinConcat(a[1..], b);
    }
  }

  /** A section's text is the join of its lines, after a newline. */
  lemma SectionTextIsJoin(section: SectionContent)
    ensures SectionText(section) == "\n" + Join(SectionLines(section))
  {
    var h := HeadingLine(section);
    if HasText(section.content) {
      var c := section.content;
      JoinCons(h, ["", c, ""]);
      JoinCons("", [c, ""]);
      JoinCons(c, [""]);
      assert [h] + ["", c, ""] == SectionLines(section);
      assert [""] + [c, ""] == ["", c, ""] && [c] + [""] == [c, ""];
      assert "" + "\n" + (c + "\n" + "") == "\n" + c + "\n";
    } else {
      JoinCons(h, [""]);
      assert [h] + [""] == SectionLines(section);
      assert SectionText(section) == "\n" + h + "\n" + "";
      assert "\n" + h + "\n" + "" == "\n" + (h + "\n" + "");
    }
  }

  /** `"\n".join([x] + rest)` for non-empty `rest`. */
  lemma JoinCons(x: string, rest: seq<string>)
    requires |rest| > 0
    ensures Join([x] + rest) == x + "\n" + Join(rest)
  {
    assert ([x] + rest)[1..] == rest;
  }

  /** The joined `md_lines` as one string: the title line, a newline, then
      each section's text in input order. */
  lemma {:induction false} JoinedLines(docName: string, sections: seq<SectionContent>)
    ensures Join(Lines(docName, sections)) == "# " + docName + "\n" + BodyText(sections)
    decreases |sections|
  {
    if sections == [] {
      assert Lines(docName, sections) == ["# " + docName, ""];
      assert Join(["# " + docName, ""]) == "# " + docName + "\n" + Join([""]);
    } else {
      var init, last := sections[..|sections| - 1], sections[|sections| - 1];
      assert sections == init + [last];
      var prefix := Lines(docName, init);
      var block := SectionLines(last);
      JoinedLines(docName, init);
      BodyLinesAppend(init, last);
      BodyTextAppend(init, last);
      SectionTextIsJoin(last);
      assert Lines(docName, sections) == prefix + block;
      JoinStep(prefix, block, "# " + docName + "\n", BodyText(init), SectionText(last));
    }
  }

  /** One step of `JoinedLines`: joining one more block of lines appends its
      text. */
  lemma JoinStep(prefix: seq<string>, block: seq<string>, head: string, body: string, text: string)
    requires |prefix| > 0 && |block| > 0
    requires Join(prefix) == head + body
    requires text == "\n" + Join(block)
    ensures Join(prefix + block) == head + (body + text)
  {
    JoinConcat(prefix, block);
  }

  /** A section with text contributes its heading line, a blank line and
      its content, each line closed by a newline, after a newline. */
  lemma SectionTextWithContent(section: SectionContent)
    requires HasText(section.content)
    ensures SectionText(section) == "\n" + HeadingLine(section) + "\n\n" + section.content + "\n"
  {
  }

  /** Two sections with text, the last not ending in whitespace: the
      title line, then each heading line and content, separated by blank lines. */
  lemma RenderTwoSections(docName: string, a: SectionContent, b: SectionContent)
    requires HasText(a.content) && HasText(b.content)
    requires !IsSpace(b.content[|b.content| - 1])
    ensures Render(docName, [a, b])
            == "# " + docName + "\n\n" + HeadingLine(a) + "\n\n" + a.content
               + "\n\n" + HeadingLine(b) + "\n\n" + b.content
  {
    var text := "# " + docName + "\n\n" + HeadingLine(a) + "\n\n" + a.content
                + "\n\n" + HeadingLine(b) + "\n\n" + b.content;
    var t, ha, hb := "# " + docName, HeadingLine(a), HeadingLine(b);
    assert t + "\n" + ("\n" + ha + "\n\n" + a.content + "\n" + ("\n" + hb + "\n\n" + b.content + "\n"))
           == text + "\n";
    TwoSectionsBodyText(a, b);
    JoinedLines(docName, [a, b]);
    assert text[|text| - 1] == b.content[|b.content| - 1];
    StripEndNewline(text);
    RenderShape(docName, [a, b]);
  }

  /** A text not ending in whitespace loses exactly one appended newline
      under `rstrip`. */
  lemma StripEndNewline(text: string)
    requires |text| > 0 && !IsSpace(text[|text| - 1])
    ensures StripEnd(text + "\n") == text
  {
    StripEndDropsBlankSuffix(text, "\n");
    assert TrailingStart(text) == |text|;
    assert text[..|text|] == text;
  }

  lemma TwoSectionsBodyText(a: SectionContent, b: SectionContent)
    requires HasText(a.content) && HasText(b.content)
    ensures BodyText([a, b])
            == "\n" + HeadingLine(a) + "\n\n" + a.content + "\n" + ("\n" + HeadingLine(b) + "\n\n" + b.content + "\n")
  {
    SectionTextWithContent(a);
    SectionTextWithContent(b);
    assert BodyText([b]) == SectionText(b) + BodyText([]);
    assert [a, b][1..] == [b];
    assert BodyText([a, b]) == SectionText(a) + BodyText([b]);
  }

  /** The worked example: title "38.331", a section with content and a
      subsection with content. */
  lemma RenderExample()
    ensures Render("38.331", [SectionContent("5.2 Random Access", 1, "Intro text"),
                              SectionContent("5.2.1 Contention", 2, "Detail")])
            == "# 38.331" + "\n\n" + "# 5.2 Random Access" + "\n\n" + "Intro text"
               + "\n\n" + "## 5.2.1 Contention" + "\n\n" + "Detail"
  {
    var a := SectionContent("5.2 Random Access", 1, "Intro text");
    var b := SectionContent("5.2.1 Contention", 2, "Detail");
    assert HasText(a.content) && HasText(b.content) by {
      assert !IsSpace(a.content[0]) && !IsSpace(b.content[0]);
    }
    assert !IsSpace(b.content[|b.content| - 1]);
    RenderTwoSections("38.331", a, b);
    ExampleHeadingLines();
    assert "# " + "38.331" == "# 38.331";
  }

  lemma ExampleHeadingLines()
    ensures HeadingLine(SectionContent("5.2 Random Access", 1, "Intro text")) == "# 5.2 Random Access"
    ensures HeadingLine(SectionContent("5.2.1 Contention", 2, "Detail")) == "## 5.2.1 Contention"
  {
    ExampleLevelOne();
    ExampleLevelTwo();
  }

  lemma ExampleLevelOne()
    ensures HeadingLine(SectionContent("5.2 Random Access", 1, "Intro text")) == "# 5.2 Random Access"
  {
    HeadingLineIs(SectionContent("5.2 Random Access", 1, "Intro text"), "#");
  }

  lemma ExampleLevelTwo()
    ensures HeadingLine(SectionContent("5.2.1 Contention", 2, "Detail")) == "## 5.2.1 Contention"
  {
    HeadingLineIs(SectionContent("5.2.1 Contention", 2, "Detail"), "##");
  }

  /** A heading line is the level's hash prefix, a space and the heading. */
  lemma HeadingLineIs(section: SectionContent, hashes: string)
    requires |hashes| == section.level && forall k :: 0 <= k < |hashes| ==> hashes[k] == '#'
    ensures HeadingLine(section) == hashes + " " + section.heading
  {
    assert Repeat('#', section.level) == hashes;
  }
}
