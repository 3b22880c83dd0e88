/** Ensuring sections that are missing, ensuring several of them, and the editor itself
    (exordos_core/cmd/bootstrap.py). */
module IniSections {
  import opened Wrappers
  import opened IniText
  import opened IniSection
  import opened IniEnsure

  // ------------------------------------------------------------------
  // A section that is missing
  // ------------------------------------------------------------------

  lemma {:induction false} RegionBeforeHead(a: seq<string>, b: seq<string>)
    requires b != [] && IsHead(b[0])
    ensures Region(a + b) == Region(a)
  {
    if a == [] {
      assert a + b == b;
    } else {
      assert (a + b)[1..] == a[1..] + b;
      RegionBeforeHead(a[1..], b);
    }
  }

  /** A new section behind the text shows in no other one. */
  lemma {:induction false} SectionBefore(a: seq<string>, b: seq<string>, other: string)
    requires b != [] && IsHead(b[0]) && Free(b, other)
    ensures SectionOf(a + b, other) == SectionOf(a, other)
  {
    if a == [] {
      assert a + b == b && b + [] == b;
      SectionSkips(b, [], other);
    } else {
      assert (a + b)[1..] == a[1..] + b;
      RegionBeforeHead(a[1..], b);
      SectionBefore(a[1..], b, other);
    }
  }

  lemma {:induction false} NoSectionFree(a: seq<string>, header: string)
    requires SectionOf(a, header).None?
    ensures Free(a, header)
  {
    if a != [] { NoSectionFree(a[1..], header); }
  }

  /** Line breaks at the end of a text say nothing. */
  lemma {:induction false} TrimmedSays(content: string, section: string)
    ensures Meaning(RStripBreaks(content), section) == Meaning(content, section)
    decreases |content|
  {
    if content != "" && content[|content| - 1] == '\n' {
      var shorter := content[..|content| - 1];
      assert content == shorter + "\n";
      TrimmedSays(shorter, section);
      BreakBehind(shorter, section);
    }
  }

  /** A text of blanks has no section. */
  lemma {:induction false} BlankText(s: string, section: string)
    requires forall i :: 0 <= i < |s| ==> IsSpace(s[i])
    ensures SectionOf(Lines(s), Header(section)).None?
    decreases |s|
  {
    if s == "" {
    } else if FirstBreak(s) == |s| {
      assert [s][1..] == [];
    } else {
      var a, rest := FirstLine(s);
      assert forall i :: 0 <= i < |a| ==> a[i] == s[i];
      assert forall i :: 0 <= i < |rest| ==> rest[i] == s[|a| + i];
      BlankText(rest, section);
      assert ([a] + Lines(rest))[1..] == Lines(rest);
    }
  }

  /** What is kept of the text before a new section. */
  function Prefix(content: string): string
  {
    if Strip(content) != "" then RStripBreaks(content) + "\n\n" else ""
  }

  lemma PrefixSays(content: string, section: string)
    ensures Terminated(Prefix(content)) && Meaning(Prefix(content), section) == Meaning(content, section)
  {
    if Strip(content) != "" {
      var x := RStripBreaks(content);
      TrimmedSays(content, section);
      BreakBehind(x, section);
      BreakBehind(x + "\n", section);
      assert x + "\n\n" == (x + "\n") + "\n";
    } else {
      AllSpace(content);
      BlankText(content, section);
    }
  }

  /** The line of a new header is a line, opens a section, and is that header. */
  lemma HeaderLine(section: string)
    ensures Strip(Header(section) + "\n") == Header(section) && IsHead(Header(section) + "\n")
    ensures GoodName(section) ==> IsLine(Header(section) + "\n") && Ends(Header(section) + "\n")
  {
    var h := Header(section);
    var line := h + "\n";
    assert h[0] == '[' && h[|h| - 1] == ']';
    StripRight(h, '\n');
    HeadIff(line);
    if GoodName(section) {
      forall i | 0 <= i < |line| - 1 ensures line[i] != '\n' {
        if 1 <= i <= |section| { assert line[i] == section[i - 1]; }
      }
    }
  }

  lemma {:induction false} ConcatEmpty(lines: seq<string>)
    requires AllEnd(lines)
    ensures (Concat(lines) == "" <==> lines == []) && Terminated(Concat(lines))
  {
    if lines != [] {
      assert lines[0] in lines;
      ConcatEmpty(lines[1..]);
    }
  }

  /** The lines of a text with a new section. */
  lemma LinesOfAppended(content: string, section: string, items: Items)
    requires Good(items) && GoodName(section) && Added(items, []) != []
    ensures Lines(Appended(content, section, items)) ==
              Lines(Prefix(content)) + ([Header(section) + "\n"] + Added(items, []))
    ensures Terminated(Appended(content, section, items))
  {
    var added := Added(items, []);
    AddedIs(items, []);
    ConcatEmpty(added);
    HeaderLine(section);
    var tail := [Header(section) + "\n"] + added;
    assert tail[1..] == added && Concat(tail) == Header(section) + "\n" + Concat(added);
    assert AllEnd(tail);
    forall i | 0 <= i < |tail| ensures IsLine(tail[i]) && Ends(tail[i]) { assert tail[i] in tail; }
    LinesOfConcat(tail);
    ConcatEmpty(tail);
    PrefixSays(content, section);
    LinesAppend(Prefix(content), Concat(tail));
  }

  /** A section that was missing holds the items afterwards, and no other section changes
      what it says. */
  lemma AbsentHolds(content: string, section: string, items: Items)
    requires Good(items) && GoodName(section)
    requires FindHeader(Lines(content), Header(section)) == |Lines(content)|
    ensures Holds(Meaning(Ensured(content, section, items), section), items)
    ensures forall other :: other != section ==>
              Meaning(Ensured(content, section, items), other) == Meaning(content, other)
  {
    var added, header := Added(items, []), Header(section);
    SectionFound(Lines(content), header);
    AddedIs(items, []);
    ConcatEmpty(added);
    if added == [] {
      NothingToAdd(items);
    } else {
      LinesOfAppended(content, section, items);
      HeaderLine(section);
      AppendedHolds(content, section, items);
      forall other | other != section
        ensures Meaning(Appended(content, section, items), other) == Meaning(content, other)
      {
        var tail := [header + "\n"] + added;
        HeaderInjective(section, other);
        NoHeadsFree(added, other);
        PrefixSays(content, other);
        SectionBefore(Lines(Prefix(content)), tail, Header(other));
      }
    }
  }

  /** What is added to nothing holds the items. */
  lemma AddedHolds(items: Items)
    requires Good(items)
    ensures NewBody([], items) == Added(items, []) && Holds(Some(Pairs(Added(items, []))), items)
  {
    NewBodyHolds([], items);
    assert [] + Added(items, []) == Added(items, []);
  }

  lemma AppendedHolds(content: string, section: string, items: Items)
    requires Good(items) && GoodName(section) && Added(items, []) != []
    requires SectionOf(Lines(content), Header(section)).None?
    ensures Holds(Meaning(Appended(content, section, items), section), items)
  {
    LinesOfAppended(content, section, items);
    PrefixSays(content, section);
    NoSectionFree(Lines(Prefix(content)), Header(section));
    SectionBehind(Lines(Prefix(content)), section, Added(items, []), items);
    AddedHolds(items);
  }

  lemma SectionBehind(before: seq<string>, section: string, added: seq<string>, items: Items)
    requires Free(before, Header(section)) && added == Added(items, []) && Good(items)
    ensures SectionOf(before + ([Header(section) + "\n"] + added), Header(section)) == Some(added)
  {
    var tail := [Header(section) + "\n"] + added;
    HeaderLine(section);
    SectionSkips(before, tail, Header(section));
    AddedIs(items, []);
    assert tail[1..] == added && added + [] == added;
    RegionAppend(added, []);
  }

  /** With no line to add, no value is asked for. */
  lemma NothingToAdd(items: Items)
    requires Added(items, []) == []
    ensures forall i :: 0 <= i < |items| ==> items[i].value.None?
  {
    if items != [] { NothingToAdd(items[1..]); }
    forall i | 0 <= i < |items| ensures items[i].value.None? {
      if i > 0 { assert items[i] == items[1..][i - 1]; }
    }
  }

  // ------------------------------------------------------------------
  // When the section holds the items
  // ------------------------------------------------------------------

  lemma {:induction false} RStripAppend(a: string, t: string)
    requires RStrip(t) != ""
    ensures RStrip(a + t) == a + RStrip(t)
    decreases |t|
  {
    if IsSpace(t[|t| - 1]) {
      assert (a + t)[..|a + t| - 1] == a + t[..|t| - 1];
      RStripAppend(a, t[..|t| - 1]);
    }
  }

  lemma {:induction false} LStripAppend(a: string, t: string)
    requires LStrip(a) != ""
    ensures LStrip(a + t) == LStrip(a) + t
  {
    if IsSpace(a[0]) {
      assert (a + t)[1..] == a[1..] + t;
      LStripAppend(a[1..], t);
    } else {
      assert (a + t)[0] == a[0];
    }
  }

  /** A header with more text behind it on its line is no longer that header. */
  lemma RunTogether(head: string, header: string, more: string)
    requires Strip(head) == header && header != "" && RStrip(more) != ""
    ensures Strip(head + more) != header
  {
    RStripAppend(head, more);
    RStripKeepsHead(head);
    LStripAppend(head, RStrip(more));
    assert |LStrip(head)| >= |header|;
  }

  lemma SettingHasText(key: string, value: string)
    ensures RStrip(Setting(key, value)) != ""
  {
    var line := Setting(key, value);
    assert line[|key| + 1] == '=';
    if RStrip(line) == "" {
      AllSpace(line);
    }
  }

  lemma {:induction false} FirstAdded(items: Items)
    requires Added(items, []) != []
    ensures exists i :: 0 <= i < |items| && items[i].value.Some? &&
                        Added(items, [])[0] == Setting(items[i].key, items[i].value.value)
  {
    if !(items[0].value.Some? && !SeenIn([], items[0].key)) {
      assert Added(items, []) == Added(items[1..], []);
      FirstAdded(items[1..]);
      var i :| 0 <= i < |items[1..]| && items[1..][i].value.Some? &&
               Added(items[1..], [])[0] == Setting(items[1..][i].key, items[1..][i].value.value);
      assert items[i + 1] == items[1..][i];
    }
  }

  /** Behind an unterminated header the first new line runs into it. */
  lemma BrokenHeader(content: string, section: string, items: Items)
    requires Good(items) && !HeaderOk(content, section, items)
    ensures !Holds(Meaning(Ensured(content, section, items), section), items)
  {
    var lines := Lines(content);
    var p, added := PartsOf(lines, Header(section)), Added(items, []);
    LinesAreLines(content);
    PartsFit(lines, section);
    FirstAdded(items);
    AddedIs(items, []);
    AddedHolds(items);
    var i :| 0 <= i < |items| && items[i].value.Some? && added[0] == Setting(items[i].key, items[i].value.value);
    SettingHasText(items[i].key, items[i].value.value);
    MergedLines(p.front, p.head, added);
    MergedSection(p.front, p.head, added, section);
    assert !HoldsItem(None, items[i]);
  }

  lemma MergedSection(front: seq<string>, head: string, added: seq<string>, section: string)
    requires Free(front, Header(section)) && Strip(head) == Header(section)
    requires added != [] && NoHeads(added) && RStrip(added[0]) != ""
    ensures SectionOf(front + [head + added[0]] + added[1..], Header(section)) == None
  {
    var header := Header(section);
    var merged := front + [head + added[0]] + added[1..];
    RunTogether(head, header, added[0]);
    NoHeadsFree(added[1..], section);
    assert Free(merged, header);
    assert merged + [] == merged;
    SectionSkips(merged, [], header);
  }

  lemma LinesOfEnding(lines: seq<string>)
    requires AllEnd(lines)
    ensures Lines(Concat(lines)) == lines
  {
    forall i | 0 <= i < |lines| ensures IsLine(lines[i]) && Ends(lines[i]) { assert lines[i] in lines; }
    LinesOfConcat(lines);
  }

  lemma JoinedLine(head: string, line: string)
    requires IsLine(head) && !Ends(head) && IsLine(line) && Ends(line)
    ensures IsLine(head + line) && Ends(head + line)
  {
    var joined := head + line;
    forall i | 0 <= i < |joined| - 1 ensures joined[i] != '\n' {
      if i >= |head| { assert joined[i] == line[i - |head|]; } else { assert joined[i] == head[i]; }
    }
  }

  lemma JoinedText(head: string, added: seq<string>)
    requires added != []
    ensures Concat([head] + added) == Concat([head + added[0]] + added[1..])
  {
    assert ([head] + added)[1..] == added && ([head + added[0]] + added[1..])[1..] == added[1..];
    assert head + (added[0] + Concat(added[1..])) == (head + added[0]) + Concat(added[1..]);
  }

  lemma SameTail(front: seq<string>, a: seq<string>, b: seq<string>)
    requires Concat(a) == Concat(b)
    ensures Concat(front + a) == Concat(front + b)
  {
    ConcatAppend(front, a);
    ConcatAppend(front, b);
  }

  lemma MergedEnd(front: seq<string>, head: string, added: seq<string>)
    requires AllEnd(front) && IsLine(head) && !Ends(head) && AllEnd(added) && added != []
    ensures AllEnd(front + ([head + added[0]] + added[1..]))
  {
    assert added[0] in added;
    JoinedLine(head, added[0]);
  }

  lemma MergedLines(front: seq<string>, head: string, added: seq<string>)
    requires AllEnd(front) && IsLine(head) && !Ends(head) && AllEnd(added) && added != []
    ensures Lines(Concat(front + [head] + added + [])) == front + [head + added[0]] + added[1..]
  {
    var whole, rest := [head] + added, [head + added[0]] + added[1..];
    MergedEnd(front, head, added);
    JoinedText(head, added);
    SameTail(front, whole, rest);
    LinesOfEnding(front + rest);
    assert front + [head] + added + [] == front + whole;
    assert front + [head + added[0]] + added[1..] == front + rest;
  }

  /** The section holds the items afterwards exactly if its header line ends, or nothing
      is to be written behind it. */
  lemma EnsuredHoldsIff(content: string, section: string, items: Items)
    requires Good(items) && GoodName(section)
    ensures Holds(Meaning(Ensured(content, section, items), section), items) <==> HeaderOk(content, section, items)
  {
    if FindHeader(Lines(content), Header(section)) == |Lines(content)| {
      AbsentHolds(content, section, items);
    } else if HeaderOk(content, section, items) {
      PresentHolds(content, section, items);
    } else {
      BrokenHeader(content, section, items);
    }
  }

  /** Other sections say afterwards what they said before. */
  lemma OthersStay(content: string, section: string, items: Items, other: string)
    requires Good(items) && GoodName(section) && HeaderOk(content, section, items) && other != section
    ensures Meaning(Ensured(content, section, items), other) == Meaning(content, other)
  {
    if FindHeader(Lines(content), Header(section)) == |Lines(content)| {
      AbsentHolds(content, section, items);
    } else {
      PresentHolds(content, section, items);
    }
  }

  // ------------------------------------------------------------------
  // What one section leaves to the others
  // ------------------------------------------------------------------

  /** The section is appended. */
  predicate Missing(content: string, section: string, items: Items)
  {
    FindHeader(Lines(content), Header(section)) == |Lines(content)| && Added(items, []) != []
  }

  lemma AddingAppends(content: string, section: string, items: Items)
    requires Good(items) && GoodName(section) && Missing(content, section, items)
    ensures Ensured(content, section, items) == Appended(content, section, items)
    ensures Terminated(Ensured(content, section, items))
  {
    LinesOfAppended(content, section, items);
  }

  /** The line that opens a section. */
  function FirstHead(lines: seq<string>, header: string): Option<string>
  {
    var k := FindHeader(lines, header);
    if k < |lines| then Some(lines[k]) else None
  }

  lemma {:induction false} FirstHeadAppend(a: seq<string>, b: seq<string>, header: string)
    ensures FirstHead(a + b, header) ==
            if FirstHead(a, header).Some? then FirstHead(a, header) else FirstHead(b, header)
  {
    if a == [] {
      assert a + b == b;
    } else {
      assert (a + b)[0] == a[0] && (a + b)[1..] == a[1..] + b;
      if Strip(a[0]) != header { FirstHeadAppend(a[1..], b, header); }
    }
  }

  lemma {:induction false} FreeHasNoHead(a: seq<string>, header: string)
    requires Free(a, header)
    ensures FirstHead(a, header) == None
  {
    if a != [] {
      assert a[0] in a;
      FreeHasNoHead(a[1..], header);
    }
  }

  lemma FirstHeadPut(p: Parts, body: seq<string>, header: string)
    requires Strip(p.head) != header && Free(body, header)
    ensures FirstHead(Put(p, body), header) == FirstHead(p.front + p.rest, header)
  {
    var middle := [p.head] + body;
    assert Put(p, body) == p.front + (middle + p.rest);
    FreeHasNoHead(middle, header);
    FirstHeadAppend(p.front, middle + p.rest, header);
    FirstHeadAppend(middle, p.rest, header);
    FirstHeadAppend(p.front, p.rest, header);
  }

  /** Editing a section leaves the lines that open others. */
  lemma PresentKeepsHeads(content: string, section: string, items: Items, other: string)
    requires Good(items) && HeaderOk(content, section, items) && other != section
    requires FindHeader(Lines(content), Header(section)) < |Lines(content)|
    ensures FirstHead(Lines(Ensured(content, section, items)), Header(other)) ==
              FirstHead(Lines(content), Header(other))
  {
    var lines := Lines(content);
    var p := PartsOf(lines, Header(section));
    LinesAreLines(content);
    PartsFit(lines, section);
    PutBack(lines, Header(section));
    LinesOfEnsured(content, section, items);
    NewBodyHolds(p.body, items);
    NoHeadsFree(p.body, other);
    NoHeadsFree(NewBody(p.body, items), other);
    HeaderInjective(section, other);
    FirstHeadPut(p, p.body, Header(other));
    FirstHeadPut(p, NewBody(p.body, items), Header(other));
  }

  /** Unless a section is appended, no other header ends or goes missing. */
  lemma StepKeeps(content: string, section: string, items: Items, other: string, wanted: Items)
    requires Good(items) && HeaderOk(content, section, items) && other != section && !Missing(content, section, items)
    ensures HeaderOk(Ensured(content, section, items), other, wanted) <==> HeaderOk(content, other, wanted)
    ensures Missing(Ensured(content, section, items), other, wanted) <==> Missing(content, other, wanted)
  {
    if FindHeader(Lines(content), Header(section)) < |Lines(content)| {
      PresentKeepsHeads(content, section, items, other);
    }
  }

  lemma OthersTidy(content: string, section: string, items: Items, other: string)
    requires Good(items) && GoodName(section) && HeaderOk(content, section, items) && other != section
    requires Tidy(content, other)
    ensures Tidy(Ensured(content, section, items), other)
  {
    if FindHeader(Lines(content), Header(section)) < |Lines(content)| {
      PresentHolds(content, section, items);
    } else if Missing(content, section, items) {
      AddingAppends(content, section, items);
      EndsIsTidy(Ensured(content, section, items), other);
    }
  }

  lemma EndsBehind(a: string, b: string)
    requires Ends(b)
    ensures Ends(a + b)
  {
  }

  lemma BrokenTerminates(content: string, section: string, items: Items)
    requires Good(items) && !HeaderOk(content, section, items)
    ensures Terminated(Ensured(content, section, items))
  {
    var p, added := PartsOf(Lines(content), Header(section)), Added(items, []);
    LinesAreLines(content);
    PartsFit(Lines(content), section);
    AddedIs(items, []);
    AddedHolds(items);
    assert p.body == [] && p.rest == [] && NewBody(p.body, items) == added;
    var before := p.front + [p.head];
    assert Ensured(content, section, items) == Concat(before + added) by {
      assert Put(p, added) == before + added;
    }
    ConcatAppend(before, added);
    ConcatEmpty(added);
    EndsBehind(Concat(before), Concat(added));
  }

  lemma PutEnds(p: Parts, body: seq<string>)
    requires AllEnd(Put(p, p.body)) && AllEnd(body)
    ensures AllEnd(Put(p, body)) && Ends(p.head)
  {
    var lines := Put(p, p.body);
    forall line | line in p.front || line == p.head || line in p.rest ensures line in lines {}
  }

  lemma EnsuredTerminated(content: string, section: string, items: Items)
    requires Good(items) && GoodName(section) && Terminated(content)
    ensures HeaderOk(content, section, items) && Terminated(Ensured(content, section, items))
  {
    var lines := Lines(content);
    TerminatedLinesEnd(content);
    if FindHeader(lines, Header(section)) == |lines| {
      AddedIs(items, []);
      ConcatEmpty(Added(items, []));
      if Added(items, []) != [] { LinesOfAppended(content, section, items); }
    } else {
      LinesAreLines(content);
      PutBack(lines, Header(section));
      PartsFit(lines, section);
      var p := PartsOf(lines, Header(section));
      NewBodyHolds(p.body, items);
      PutEnds(p, NewBody(p.body, items));
      ConcatEmpty(Put(p, NewBody(p.body, items)));
    }
  }

  /** A section is left tidy. */
  lemma EnsuredIsTidy(content: string, section: string, items: Items)
    requires Good(items) && GoodName(section) && HeaderOk(content, section, items)
    ensures Tidy(Ensured(content, section, items), section)
  {
    if FindHeader(Lines(content), Header(section)) < |Lines(content)| {
      PresentIsTidy(content, section, items);
    } else if Missing(content, section, items) {
      LinesOfAppended(content, section, items);
      AddingAppends(content, section, items);
      EndsIsTidy(Appended(content, section, items), section);
    } else {
      SectionFound(Lines(content), Header(section));
    }
  }

  /** Ensuring a section twice is ensuring it once, if and only if its header line ends or
      nothing is to be written behind it. */
  lemma EnsuredTwiceIff(content: string, section: string, items: Items)
    requires Good(items) && GoodName(section)
    ensures Ensured(Ensured(content, section, items), section, items) == Ensured(content, section, items) <==>
            HeaderOk(content, section, items)
  {
    var next := Ensured(content, section, items);
    EnsuredHoldsIff(content, section, items);
    if HeaderOk(content, section, items) {
      EnsuredIsTidy(content, section, items);
      HoldingStays(next, section, items);
    } else {
      BrokenTerminates(content, section, items);
      EnsuredTerminated(next, section, items);
      EnsuredHoldsIff(next, section, items);
    }
  }

  /** In a terminated text every section is tidy. */
  lemma EndsIsTidy(content: string, section: string)
    requires Terminated(content)
    ensures Tidy(content, section)
  {
    TerminatedLinesEnd(content);
    InSection(Lines(content), Header(section));
  }

  lemma {:induction false} InSection(lines: seq<string>, header: string)
    ensures SectionOf(lines, header).Some? ==> forall line :: line in SectionOf(lines, header).value ==> line in lines
  {
    if lines != [] {
      if Strip(lines[0]) == header { RegionIs(lines[1..]); } else { InSection(lines[1..], header); }
    }
  }

  // ------------------------------------------------------------------
  // Several sections
  // ------------------------------------------------------------------

  datatype Wanted = Wanted(name: string, items: Items)

  ghost predicate GoodWanted(sections: seq<Wanted>)
  {
    && (forall i :: 0 <= i < |sections| ==> Good(sections[i].items) && GoodName(sections[i].name))
    && forall i, j :: 0 <= i < j < |sections| ==> sections[i].name != sections[j].name
  }

  /** The text has the section with its settings. */
  ghost predicate Has(content: string, wanted: Wanted)
  {
    Holds(Meaning(content, wanted.name), wanted.items)
  }

  function EnsuredAll(content: string, sections: seq<Wanted>): string
    decreases |sections|
  {
    if sections == [] then content
    else EnsuredAll(Ensured(content, sections[0].name, sections[0].items), sections[1..])
  }

  lemma GoodTail(sections: seq<Wanted>)
    requires GoodWanted(sections) && sections != []
    ensures GoodWanted(sections[1..]) && Good(sections[0].items) && GoodName(sections[0].name)
    ensures forall i :: 0 <= i < |sections[1..]| ==> sections[1..][i].name != sections[0].name
  {
  }

  /** The header line of every section ends, or has nothing to be written behind it; or an
      earlier section is missing, so that the text gets a line break before. */
  ghost predicate HeadersEnd(content: string, sections: seq<Wanted>)
  {
    forall j :: 0 <= j < |sections| ==>
      HeaderOk(content, sections[j].name, sections[j].items) ||
      exists i :: 0 <= i < j && Missing(content, sections[i].name, sections[i].items)
  }

  lemma TerminatedHeadersEnd(content: string, sections: seq<Wanted>)
    requires GoodWanted(sections) && Terminated(content)
    ensures HeadersEnd(content, sections)
  {
    forall j | 0 <= j < |sections| ensures HeaderOk(content, sections[j].name, sections[j].items) {
      EnsuredTerminated(content, sections[j].name, sections[j].items);
    }
  }

  /** The condition, one section at a time. */
  lemma HeadersEndStep(content: string, sections: seq<Wanted>)
    requires GoodWanted(sections) && sections != []
    ensures var s := sections[0];
            HeadersEnd(content, sections) <==>
            HeaderOk(content, s.name, s.items) && HeadersEnd(Ensured(content, s.name, s.items), sections[1..])
  {
    var s, tail := sections[0], sections[1..];
    var next := Ensured(content, s.name, s.items);
    GoodTail(sections);
    if HeaderOk(content, s.name, s.items) {
      if Missing(content, s.name, s.items) {
        AddingAppends(content, s.name, s.items);
        TerminatedHeadersEnd(next, tail);
      } else {
        forall i | 0 <= i < |tail|
          ensures tail[i] == sections[i + 1]
          ensures HeaderOk(next, tail[i].name, tail[i].items) <==> HeaderOk(content, tail[i].name, tail[i].items)
          ensures Missing(next, tail[i].name, tail[i].items) <==> Missing(content, tail[i].name, tail[i].items)
        {
          StepKeeps(content, s.name, s.items, tail[i].name, tail[i].items);
        }
        SameHeaders(content, next, sections);
      }
    }
  }

  lemma SameHeaders(content: string, next: string, sections: seq<Wanted>)
    requires sections != [] && HeaderOk(content, sections[0].name, sections[0].items)
    requires !Missing(content, sections[0].name, sections[0].items)
    requires forall i :: 0 <= i < |sections[1..]| ==>
               (HeaderOk(next, sections[1..][i].name, sections[1..][i].items) <==>
                   HeaderOk(content, sections[1..][i].name, sections[1..][i].items)) &&
               (Missing(next, sections[1..][i].name, sections[1..][i].items) <==>
                   Missing(content, sections[1..][i].name, sections[1..][i].items))
    ensures HeadersEnd(content, sections) <==> HeadersEnd(next, sections[1..])
  {
    var tail := sections[1..];
    if HeadersEnd(content, sections) {
      forall j | 0 <= j < |tail|
        ensures HeaderOk(next, tail[j].name, tail[j].items) ||
                exists i :: 0 <= i < j && Missing(next, tail[i].name, tail[i].items)
      {
        assert sections[j + 1] == tail[j];
        if i :| 0 <= i < j + 1 && Missing(content, sections[i].name, sections[i].items) {
          assert i > 0 && tail[i - 1] == sections[i];
        }
      }
    }
    if HeadersEnd(next, tail) {
      forall j | 0 <= j < |sections|
        ensures HeaderOk(content, sections[j].name, sections[j].items) ||
                exists i :: 0 <= i < j && Missing(content, sections[i].name, sections[i].items)
      {
        if j > 0 {
          assert sections[j] == tail[j - 1];
          if i :| 0 <= i < j - 1 && Missing(next, tail[i].name, tail[i].items) {
            assert sections[i + 1] == tail[i];
          }
        }
      }
    }
  }

  /** The same, looked at when each section has its turn. */
  ghost predicate InTurn(content: string, sections: seq<Wanted>)
    decreases |sections|
  {
    sections == [] ||
    (HeaderOk(content, sections[0].name, sections[0].items) &&
     InTurn(Ensured(content, sections[0].name, sections[0].items), sections[1..]))
  }

  lemma {:induction false} InTurnIff(content: string, sections: seq<Wanted>)
    requires GoodWanted(sections)
    ensures InTurn(content, sections) <==> HeadersEnd(content, sections)
    decreases |sections|
  {
    if sections != [] {
      GoodTail(sections);
      HeadersEndStep(content, sections);
      InTurnIff(Ensured(content, sections[0].name, sections[0].items), sections[1..]);
    }
  }

  /** A section that the fold does not go over says what it said, and stays tidy. */
  lemma {:induction false} EnsuredAllSays(content: string, sections: seq<Wanted>, other: string)
    requires GoodWanted(sections) && InTurn(content, sections)
    requires forall i :: 0 <= i < |sections| ==> sections[i].name != other
    ensures Meaning(EnsuredAll(content, sections), other) == Meaning(content, other)
    ensures Tidy(content, other) ==> Tidy(EnsuredAll(content, sections), other)
    decreases |sections|
  {
    if sections != [] {
      var s := sections[0];
      GoodTail(sections);
      EnsuredAllSays(Ensured(content, s.name, s.items), sections[1..], other);
      OthersStay(content, s.name, s.items, other);
      if Tidy(content, other) { OthersTidy(content, s.name, s.items, other); }
    }
  }

  lemma EstablishedFirst(content: string, sections: seq<Wanted>)
    requires GoodWanted(sections) && InTurn(content, sections) && sections != []
    ensures Has(EnsuredAll(content, sections), sections[0]) && Tidy(EnsuredAll(content, sections), sections[0].name)
  {
    var s, tail := sections[0], sections[1..];
    GoodTail(sections);
    EnsuredHoldsIff(content, s.name, s.items);
    EnsuredIsTidy(content, s.name, s.items);
    EnsuredAllSays(Ensured(content, s.name, s.items), tail, s.name);
  }

  lemma {:induction false} EstablishedAt(content: string, sections: seq<Wanted>, i: nat, out: string)
    requires GoodWanted(sections) && InTurn(content, sections) && i < |sections| && out == EnsuredAll(content, sections)
    ensures Has(out, sections[i]) && Tidy(out, sections[i].name)
    decreases |sections|
  {
    if i == 0 {
      EstablishedFirst(content, sections);
    } else {
      GoodTail(sections);
      EstablishedAt(Ensured(content, sections[0].name, sections[0].items), sections[1..], i - 1, out);
    }
  }

  lemma BrokenFirst(content: string, sections: seq<Wanted>, out: string)
    requires GoodWanted(sections) && sections != [] && !HeaderOk(content, sections[0].name, sections[0].items)
    requires out == EnsuredAll(content, sections)
    ensures Terminated(out) && !Has(out, sections[0])
  {
    var s, tail := sections[0], sections[1..];
    var next := Ensured(content, s.name, s.items);
    GoodTail(sections);
    BrokenHeader(content, s.name, s.items);
    BrokenTerminates(content, s.name, s.items);
    AllTerminated(next, tail);
    EnsuredAllSays(next, tail, s.name);
  }

  /** A section whose new lines ran into its header is missing to the end. */
  lemma {:induction false} BrokenAt(content: string, sections: seq<Wanted>, out: string) returns (i: nat)
    requires GoodWanted(sections) && !InTurn(content, sections) && out == EnsuredAll(content, sections)
    ensures i < |sections| && Terminated(out) && !Has(out, sections[i])
    decreases |sections|
  {
    var s, tail := sections[0], sections[1..];
    if HeaderOk(content, s.name, s.items) {
      GoodTail(sections);
      var k := BrokenAt(Ensured(content, s.name, s.items), tail, out);
      i := k + 1;
    } else {
      BrokenFirst(content, sections, out);
      i := 0;
    }
  }

  /** A terminated text stays so, and every section can have its turn. */
  lemma {:induction false} AllTerminated(content: string, sections: seq<Wanted>)
    requires GoodWanted(sections) && Terminated(content)
    ensures Terminated(EnsuredAll(content, sections)) && InTurn(content, sections)
    decreases |sections|
  {
    if sections != [] {
      GoodTail(sections);
      EnsuredTerminated(content, sections[0].name, sections[0].items);
      AllTerminated(Ensured(content, sections[0].name, sections[0].items), sections[1..]);
    }
  }

  ghost predicate Established(content: string, sections: seq<Wanted>)
  {
    forall i :: 0 <= i < |sections| ==> Has(content, sections[i])
  }

  /** The fold establishes all its sections at once, if and only if their headers end. */
  lemma AllHoldIff(content: string, sections: seq<Wanted>)
    requires GoodWanted(sections)
    ensures Established(EnsuredAll(content, sections), sections) <==> HeadersEnd(content, sections)
  {
    InTurnIff(content, sections);
    if HeadersEnd(content, sections) {
      forall i | 0 <= i < |sections|
        ensures Has(EnsuredAll(content, sections), sections[i])
      {
        EstablishedAt(content, sections, i, EnsuredAll(content, sections));
      }
    } else {
      var i := BrokenAt(content, sections, EnsuredAll(content, sections));
    }
  }

  lemma {:induction false} HoldingAllStays(content: string, sections: seq<Wanted>)
    requires GoodWanted(sections) && Established(content, sections)
    requires forall i :: 0 <= i < |sections| ==> Tidy(content, sections[i].name)
    ensures EnsuredAll(content, sections) == content
    decreases |sections|
  {
    if sections != [] {
      HoldingStays(content, sections[0].name, sections[0].items);
      forall i | 0 <= i < |sections[1..]|
        ensures Has(content, sections[1..][i])
        ensures Tidy(content, sections[1..][i].name)
      {
        assert sections[1..][i] == sections[i + 1];
      }
      HoldingAllStays(content, sections[1..]);
    }
  }

  /** A second start finds the configuration up to date, under the same condition. */
  lemma EnsuredAllTwiceIff(content: string, sections: seq<Wanted>)
    requires GoodWanted(sections)
    ensures EnsuredAll(EnsuredAll(content, sections), sections) == EnsuredAll(content, sections) <==>
            HeadersEnd(content, sections)
  {
    var once := EnsuredAll(content, sections);
    AllHoldIff(content, sections);
    InTurnIff(content, sections);
    if HeadersEnd(content, sections) {
      forall i | 0 <= i < |sections| ensures Tidy(once, sections[i].name) {
        EstablishedAt(content, sections, i, once);
      }
      HoldingAllStays(once, sections);
    } else {
      var i := BrokenAt(content, sections, EnsuredAll(content, sections));
      AllTerminated(once, sections);
      EstablishedAt(once, sections, i, EnsuredAll(once, sections));
    }
  }

  // ------------------------------------------------------------------
  // The lines that stay
  // ------------------------------------------------------------------

  /** The same lines up to their line breaks, but for blank ones at the end. */
  ghost predicate SameUpToBlanks(a: seq<string>, b: seq<string>)
  {
    exists n: nat :: SameFor(a, b, n)
  }

  ghost predicate SameFor(a: seq<string>, b: seq<string>, n: nat)
  {
    && n <= |a| && n <= |b| && (forall i :: 0 <= i < n ==> Bare(a[i]) == Bare(b[i]))
    && (forall i :: n <= i < |a| ==> IsBlank(a[i])) && (forall i :: n <= i < |b| ==> IsBlank(b[i]))
  }

  /** A line says what it says without its line break. */
  lemma BareSays(line: string)
    ensures HasEq(Bare(line)) <==> HasEq(line)
    ensures HasEq(line) ==> KeyIn(Bare(line)) == KeyIn(line)
    ensures IsBlank(Bare(line)) <==> IsBlank(line)
  {
    if Ends(line) {
      assert line == Bare(line) + "\n";
      BreakSaysNothing(Bare(line));
    }
  }

  lemma SameTransitive(a: seq<string>, b: seq<string>, c: seq<string>)
    requires SameUpToBlanks(a, b) && SameUpToBlanks(b, c)
    ensures SameUpToBlanks(a, c)
  {
    var m: nat :| SameFor(a, b, m);
    var k: nat :| SameFor(b, c, k);
    var n := if m < k then m else k;
    forall i | n <= i < |a| ensures IsBlank(a[i]) {
      if i < m {
        BareSays(a[i]);
        BareSays(b[i]);
      }
    }
    forall i | n <= i < |c| ensures IsBlank(c[i]) {
      if i < k {
        BareSays(b[i]);
        BareSays(c[i]);
      }
    }
    assert SameFor(a, c, n);
  }

  lemma BlankBehind(a: seq<string>)
    ensures SameUpToBlanks(a, a + ["\n"]) && SameUpToBlanks(a + ["\n"], a)
  {
    StripRight("", '\n');
    assert "" + ['\n'] == "\n";
    assert SameFor(a, a + ["\n"], |a|) && SameFor(a + ["\n"], a, |a|);
  }

  lemma LastBroken(front: seq<string>, last: string)
    requires !Ends(last)
    ensures SameUpToBlanks(front + [last], front + [last + "\n"])
    ensures SameUpToBlanks(front + [last + "\n"], front + [last])
  {
    var a, b := front + [last], front + [last + "\n"];
    assert Bare(last + "\n") == last;
    assert SameFor(a, b, |a|) && SameFor(b, a, |a|);
  }

  lemma BreakSame(s: string)
    ensures SameUpToBlanks(Lines(s), Lines(s + "\n")) && SameUpToBlanks(Lines(s + "\n"), Lines(s))
  {
    var a := Lines(s);
    LinesAreLines(s);
    if Terminated(s) {
      LinesAppend(s, "\n");
      LinesLast("\n");
      BlankBehind(a);
    } else {
      UnterminatedLast(s);
      var front, last := a[..|a| - 1], a[|a| - 1];
      assert a == front + [last];
      LinesOfBroken(front, last);
      LastBroken(front, last);
    }
  }

  lemma {:induction false} TrimmedSame(content: string)
    ensures SameUpToBlanks(Lines(content), Lines(RStripBreaks(content)))
    decreases |content|
  {
    if content != "" && content[|content| - 1] == '\n' {
      var shorter := content[..|content| - 1];
      assert content == shorter + "\n";
      TrimmedSame(shorter);
      BreakSame(shorter);
      SameTransitive(Lines(content), Lines(shorter), Lines(RStripBreaks(content)));
    } else {
      assert SameFor(Lines(content), Lines(content), |Lines(content)|);
    }
  }

  lemma {:induction false} BlankLines(s: string)
    requires forall i :: 0 <= i < |s| ==> IsSpace(s[i])
    ensures forall line :: line in Lines(s) ==> IsBlank(line)
    decreases |s|
  {
    if s == "" {
    } else if FirstBreak(s) == |s| {
      SpacesAreBlank(s);
    } else {
      var a, rest := FirstLine(s);
      assert forall i :: 0 <= i < |a| ==> a[i] == s[i];
      assert forall i :: 0 <= i < |rest| ==> rest[i] == s[|a| + i];
      SpacesAreBlank(a);
      BlankLines(rest);
    }
  }

  lemma {:induction false} SpacesAreBlank(s: string)
    requires forall i :: 0 <= i < |s| ==> IsSpace(s[i])
    ensures IsBlank(s)
    decreases |s|
  {
    if s != "" {
      SpacesAreBlank(s[..|s| - 1]);
      assert s == s[..|s| - 1] + [s[|s| - 1]];
      StripRight(s[..|s| - 1], s[|s| - 1]);
    }
  }

  lemma PrefixSame(content: string)
    ensures SameUpToBlanks(Lines(content), Lines(Prefix(content)))
  {
    if Strip(content) != "" {
      var x := RStripBreaks(content);
      TrimmedSame(content);
      BreakSame(x);
      BreakSame(x + "\n");
      assert x + "\n\n" == (x + "\n") + "\n";
      SameTransitive(Lines(content), Lines(x), Lines(x + "\n"));
      SameTransitive(Lines(content), Lines(x + "\n"), Lines(x + "\n\n"));
    } else {
      AllSpace(content);
      BlankLines(content);
      assert SameFor(Lines(content), Lines(""), 0);
    }
  }

  /** Behind the lines of the text, up to blank ones at its end, come the header of the new
      section and its lines, and nothing else. */
  lemma AbsentKeeps(content: string, section: string, items: Items) returns (front: seq<string>)
    requires Good(items) && GoodName(section) && Missing(content, section, items)
    ensures Lines(Ensured(content, section, items)) == front + ([Header(section) + "\n"] + Added(items, []))
    ensures SameUpToBlanks(Lines(content), front)
  {
    AddingAppends(content, section, items);
    LinesOfAppended(content, section, items);
    PrefixSame(content);
    front := Lines(Prefix(content));
  }

  /** The text with a new section, to the letter: the old text without the line breaks at its
      end, a blank line, the header, and a line for each value; a text of blanks goes. */
  lemma AppendedText(content: string, section: string, key: string, value: string) returns (x: string)
    requires GoodName(section) && GoodKey(key) && GoodValue(value)
    requires FindHeader(Lines(content), Header(section)) == |Lines(content)|
    ensures x <= content && (x == "" || x[|x| - 1] != '\n') && forall i :: |x| <= i < |content| ==> content[i] == '\n'
    ensures Ensured(content, section, [Item(key, Some(value))]) ==
            (if Strip(content) != "" then x + "\n\n" else "") + ("[" + section + "]\n" + (key + " = " + value + "\n"))
  {
    x := RStripBreaks(content);
    BreaksStripped(content);
    var items := [Item(key, Some(value))];
    assert items[1..] == [] && Added(items, []) == [Setting(key, value)];
    OneConcat(Setting(key, value));
    assert Header(section) + "\n" == "[" + section + "]\n";
  }

  lemma {:induction false} BreaksStripped(s: string)
    ensures var r := RStripBreaks(s); (r == "" || r[|r| - 1] != '\n') && forall i :: |r| <= i < |s| ==> s[i] == '\n'
  {
    if s != "" && s[|s| - 1] == '\n' { BreaksStripped(s[..|s| - 1]); }
  }

  /** The lines that are not blank and set no listed key, as they are written. */
  function Standing(lines: seq<string>, all: Items): seq<string>
  {
    NonBlank(Kept(lines, all))
  }

  function NonBlank(lines: seq<string>): seq<string>
  {
    if lines == [] then [] else (if IsBlank(lines[0]) then [] else [lines[0]]) + NonBlank(lines[1..])
  }

  lemma {:induction false} NonBlankAppend(a: seq<string>, b: seq<string>)
    ensures NonBlank(a + b) == NonBlank(a) + NonBlank(b)
  {
    if a == [] {
      assert a + b == b;
    } else {
      assert (a + b)[0] == a[0] && (a + b)[1..] == a[1..] + b;
      NonBlankAppend(a[1..], b);
    }
  }

  lemma StandingAppend(a: seq<string>, b: seq<string>, all: Items)
    ensures Standing(a + b, all) == Standing(a, all) + Standing(b, all)
  {
    KeptAppend(a, b, all);
    NonBlankAppend(Kept(a, all), Kept(b, all));
  }

  lemma {:induction false} BlanksDoNotStand(lines: seq<string>, all: Items)
    requires forall i :: 0 <= i < |lines| ==> IsBlank(lines[i])
    ensures Standing(lines, all) == []
  {
    if lines != [] {
      BareSays(lines[0]);
      BlankHasNoKey(lines[0]);
      BlanksDoNotStand(lines[1..], all);
      assert Kept(lines, all)[1..] == Kept(lines[1..], all);
    }
  }

  lemma {:induction false} BareStands(a: seq<string>, b: seq<string>, all: Items)
    requires |a| == |b| && forall i :: 0 <= i < |a| ==> Bare(a[i]) == Bare(b[i])
    ensures Kept(a, all) == Kept(b, all)
  {
    if a != [] {
      BareSays(a[0]);
      BareSays(b[0]);
      assert forall i :: 0 <= i < |a| - 1 ==> a[1..][i] == a[i + 1] && b[1..][i] == b[i + 1];
      BareStands(a[1..], b[1..], all);
    }
  }

  lemma SameStands(a: seq<string>, b: seq<string>, all: Items)
    requires SameUpToBlanks(a, b)
    ensures Standing(a, all) == Standing(b, all)
  {
    var n: nat :| SameFor(a, b, n);
    assert a == a[..n] + a[n..] && b == b[..n] + b[n..];
    StandingAppend(a[..n], a[n..], all);
    StandingAppend(b[..n], b[n..], all);
    BlanksDoNotStand(a[n..], all);
    BlanksDoNotStand(b[n..], all);
    BareStands(a[..n], b[..n], all);
  }

  lemma PresentStands(content: string, section: string, items: Items, all: Items)
    requires Good(items) && HeaderOk(content, section, items) && AllListed(items, all)
    requires FindHeader(Lines(content), Header(section)) < |Lines(content)|
    ensures Standing(Lines(Ensured(content, section, items)), all) == Standing(Lines(content), all)
  {
    var p := PartsOf(Lines(content), Header(section));
    var body := NewBody(p.body, items);
    PutBack(Lines(content), Header(section));
    LinesOfEnsured(content, section, items);
    NewBodyKeeps(p.body, items, all);
    var head := p.front + [p.head];
    StandingAppend(head + p.body, p.rest, all);
    StandingAppend(head, p.body, all);
    StandingAppend(head + body, p.rest, all);
    StandingAppend(head, body, all);
  }

  /** One section: what stands stays, and an appended header comes behind it. */
  lemma StepStands(content: string, section: string, items: Items, all: Items)
    requires Good(items) && GoodName(section) && HeaderOk(content, section, items) && AllListed(items, all)
    ensures Standing(Lines(Ensured(content, section, items)), all) ==
            Standing(Lines(content), all) +
            Standing(if Missing(content, section, items) then [Header(section) + "\n"] else [], all)
  {
    if Missing(content, section, items) {
      var front := AbsentKeeps(content, section, items);
      SameStands(Lines(content), front, all);
      var head, added := [Header(section) + "\n"], Added(items, []);
      StandingAppend(front, head + added, all);
      StandingAppend(head, added, all);
      AddedAreListed(items, all, []);
    } else if FindHeader(Lines(content), Header(section)) < |Lines(content)| {
      PresentStands(content, section, items, all);
    }
  }

  /** Whether another section is missing does not change. */
  lemma MissingStays(content: string, section: string, items: Items, other: string, wanted: Items)
    requires Good(items) && GoodName(section) && HeaderOk(content, section, items) && other != section
    ensures Missing(Ensured(content, section, items), other, wanted) <==> Missing(content, other, wanted)
  {
    OthersStay(content, section, items, other);
    SectionFound(Lines(content), Header(other));
    SectionFound(Lines(Ensured(content, section, items)), Header(other));
  }

  /** The headers of the sections that are missing. */
  function NewHeaders(content: string, sections: seq<Wanted>): seq<string>
  {
    if sections == [] then []
    else
      (if Missing(content, sections[0].name, sections[0].items) then [Header(sections[0].name) + "\n"] else [])
      + NewHeaders(content, sections[1..])
  }

  lemma {:induction false} NewHeadersStay(content: string, section: string, items: Items, sections: seq<Wanted>)
    requires Good(items) && GoodName(section) && HeaderOk(content, section, items)
    requires forall i :: 0 <= i < |sections| ==> sections[i].name != section
    ensures NewHeaders(Ensured(content, section, items), sections) == NewHeaders(content, sections)
  {
    if sections != [] {
      MissingStays(content, section, items, sections[0].name, sections[0].items);
      forall i | 0 <= i < |sections[1..]| ensures sections[1..][i].name != section {
        assert sections[1..][i] == sections[i + 1];
      }
      NewHeadersStay(content, section, items, sections[1..]);
    }
  }

  ghost predicate AllWanted(sections: seq<Wanted>, all: Items)
  {
    forall i :: 0 <= i < |sections| ==> AllListed(sections[i].items, all)
  }

  /** What stands and what is still to come, before a section has its turn and after. */
  lemma FoldStep(content: string, sections: seq<Wanted>, all: Items, next: string)
    requires GoodWanted(sections) && InTurn(content, sections) && sections != [] && AllWanted(sections, all)
    requires next == Ensured(content, sections[0].name, sections[0].items)
    ensures Standing(Lines(next), all) + Standing(NewHeaders(next, sections[1..]), all) ==
            Standing(Lines(content), all) + Standing(NewHeaders(content, sections), all)
  {
    var s, tail := sections[0], sections[1..];
    GoodTail(sections);
    StepStands(content, s.name, s.items, all);
    NewHeadersStay(content, s.name, s.items, tail);
    var first := if Missing(content, s.name, s.items) then [Header(s.name) + "\n"] else [];
    StandingAppend(first, NewHeaders(content, tail), all);
    Associative(Standing(Lines(content), all), Standing(first, all), Standing(NewHeaders(content, tail), all));
  }

  lemma Associative(a: seq<string>, b: seq<string>, c: seq<string>)
    ensures (a + b) + c == a + (b + c)
  {
  }

  /** Over the whole fold every line that is not blank and sets none of the keys stays, word
      for word and in order; behind them come the headers of the sections that were missing. */
  lemma {:induction false} FoldKeepsLines(content: string, sections: seq<Wanted>, all: Items, out: string)
    requires GoodWanted(sections) && InTurn(content, sections) && AllWanted(sections, all)
    requires out == EnsuredAll(content, sections)
    ensures Standing(Lines(out), all) == Standing(Lines(content), all) + Standing(NewHeaders(content, sections), all)
    decreases |sections|
  {
    if sections != [] {
      var next := Ensured(content, sections[0].name, sections[0].items);
      GoodTail(sections);
      FoldKeepsLines(next, sections[1..], all, out);
      FoldStep(content, sections, all, next);
    }
  }

  // ------------------------------------------------------------------
  // The editor
  // ------------------------------------------------------------------

  function Edited(line: string, items: Items): seq<string>
  {
    if EditLine(line, items).Some? then [EditLine(line, items).value] else []
  }

  function Flat(f: string -> seq<string>, lines: seq<string>): seq<string>
  {
    if lines == [] then [] else f(lines[0]) + Flat(f, lines[1..])
  }

  lemma {:induction false} FlatSnoc(f: string -> seq<string>, lines: seq<string>, line: string)
    ensures Flat(f, lines + [line]) == Flat(f, lines) + f(line)
  {
    if lines == [] {
      assert [line][1..] == [];
    } else {
      assert (lines + [line])[1..] == lines[1..] + [line];
      FlatSnoc(f, lines[1..], line);
    }
  }

  lemma {:induction false} EditIsFlat(f: string -> seq<string>, lines: seq<string>, items: Items)
    requires forall line :: f(line) == Edited(line, items)
    ensures Edit(lines, items) == Flat(f, lines)
  {
    if lines != [] { EditIsFlat(f, lines[1..], items); }
  }

  lemma {:induction false} AddedAppend(a: Items, b: Items, lines: seq<string>)
    ensures Added(a + b, lines) == Added(a, lines) + Added(b, lines)
  {
    if a == [] {
      assert a + b == b;
    } else {
      assert (a + b)[1..] == a[1..] + b;
      AddedAppend(a[1..], b, lines);
    }
  }

  /** The index of the header line, or the number of lines. */
  method FindStart(lines: seq<string>, header: string) returns (k: nat)
    ensures k == FindHeader(lines, header)
  {
    k := 0;
    while k < |lines| && Strip(lines[k]) != header
      invariant k <= |lines| && FindHeader(lines, header) == k + FindHeader(lines[k..], header)
    {
      assert lines[k..][1..] == lines[k + 1..];
      k := k + 1;
    }
  }

  /** Where the next section begins. */
  method FindEnd(lines: seq<string>, start: nat) returns (end: nat)
    requires start <= |lines|
    ensures start <= end <= |lines| && lines[start..end] == Region(lines[start..])
  {
    end := start;
    assert lines[start..start] == [] && [] + Region(lines[start..]) == Region(lines[start..]);
    while end < |lines| && !IsHead(lines[end])
      invariant start <= end <= |lines| && Region(lines[start..]) == lines[start..end] + Region(lines[end..])
    {
      assert lines[end..][1..] == lines[end + 1..] && lines[start..end + 1] == lines[start..end] + [lines[end]];
      end := end + 1;
    }
    assert Region(lines[end..]) == [];
  }

  /** The lines to edit: without the blank ones before the next section. */
  method FindLast(lines: seq<string>, start: nat, end: nat) returns (last: nat)
    requires start <= end <= |lines|
    ensures start <= last <= end && lines[start..last] == TrimBlank(lines[start..end])
  {
    last := end;
    while last > start && IsBlank(lines[last - 1])
      invariant start <= last <= end && TrimBlank(lines[start..end]) == TrimBlank(lines[start..last])
    {
      assert lines[start..last][..last - start - 1] == lines[start..last - 1];
      last := last - 1;
    }
  }

  /** The edited lines, and the keys that were seen. */
  method EditBody(lines: seq<string>, items: Items) returns (body: seq<string>, seen: set<string>)
    ensures body == Edit(lines, items)
    ensures forall key :: key in seen <==> Listed(items, key) && SeenIn(lines, key)
  {
    body, seen := [], {};
    for i := 0 to |lines|
      invariant body == Edit(lines[..i], items)
      invariant forall key :: key in seen <==> Listed(items, key) && SeenIn(lines[..i], key)
    {
      var line := lines[i];
      assert lines[..i + 1] == lines[..i] + [line];
      SeenSnoc(lines[..i], line);
      EditSnoc(lines[..i], line, items);
      if HasEq(line) && Listed(items, KeyIn(line)) {
        var key := KeyIn(line);
        seen := seen + {key};
        var v := ValueOf(items, key);
        if v.None? { continue; }
        if ValueIn(line) != v.value { line := Setting(key, v.value); }
      }
      body := body + [line];
    }
    assert lines[..|lines|] == lines;
  }

  lemma EditSnoc(lines: seq<string>, line: string, items: Items)
    ensures Edit(lines + [line], items) == Edit(lines, items) + Edited(line, items)
  {
    var f := (l: string) => Edited(l, items);
    EditIsFlat(f, lines, items);
    EditIsFlat(f, lines + [line], items);
    FlatSnoc(f, lines, line);
  }

  lemma SeenSnoc(lines: seq<string>, line: string)
    ensures forall key :: SeenIn(lines + [line], key) <==> SeenIn(lines, key) || (HasEq(line) && KeyIn(line) == key)
  {
    forall key ensures SeenIn(lines + [line], key) <==> SeenIn(lines, key) || (HasEq(line) && KeyIn(line) == key) {
      if i :| 0 <= i < |lines| && HasEq(lines[i]) && KeyIn(lines[i]) == key { assert (lines + [line])[i] == lines[i]; }
      if HasEq(line) && KeyIn(line) == key { assert (lines + [line])[|lines|] == line; }
    }
  }

  /** The lines for values whose key was not seen. */
  method NewLines(items: Items, seen: set<string>, ghost lines: seq<string>) returns (added: seq<string>)
    requires forall key :: key in seen <==> Listed(items, key) && SeenIn(lines, key)
    ensures added == Added(items, lines)
  {
    added := [];
    for i := 0 to |items|
      invariant added == Added(items[..i], lines)
    {
      assert items[..i + 1] == items[..i] + [items[i]];
      AddedAppend(items[..i], [items[i]], lines);
      assert [items[i]][1..] == [] && Listed(items, items[i].key);
      if items[i].value.Some? && items[i].key !in seen {
        added := added + [Setting(items[i].key, items[i].value.value)];
      }
    }
    assert items[..|items|] == items;
  }

  method EnsureSection(content: string, section: string, items: Items) returns (r: string)
    ensures r == Ensured(content, section, items)
  {
    var lines := Lines(content);
    var header := Header(section);
    var start := FindStart(lines, header);
    if start == |lines| {
      var added := NewLines(items, {}, []);
      var body := Concat(added);
      if body == "" { return content; }
      var prefix := if Strip(content) != "" then RStripBreaks(content) + "\n\n" else "";
      return prefix + (header + "\n" + body);
    }
    start := start + 1;
    var end := FindEnd(lines, start);
    var last := FindLast(lines, start, end);
    var body, seen := EditBody(lines[start..last], items);
    if body != [] && !Ends(body[|body| - 1]) {
      body := body[..|body| - 1] + [body[|body| - 1] + "\n"];
    }
    var added := NewLines(items, seen, lines[start..last]);
    body := body + added;
    r := Concat(lines[..start] + body + lines[last..]);
    SlicesArePut(lines, header, start, last, body);
  }

  lemma SlicesArePut(lines: seq<string>, header: string, start: nat, last: nat, body: seq<string>)
    requires FindHeader(lines, header) + 1 == start <= last <= |lines|
    requires lines[start..last] == TrimBlank(Region(lines[start..]))
    ensures PartsOf(lines, header).body == lines[start..last]
    ensures lines[..start] + body + lines[last..] == Put(PartsOf(lines, header), body)
  {
    assert lines[..start] == lines[..start - 1] + [lines[start - 1]];
    assert lines[start..][last - start..] == lines[last..];
  }

  /** All sections of the image, in order. */
  method EnsureSections(content: string, sections: seq<Wanted>) returns (r: string)
    ensures r == EnsuredAll(content, sections)
  {
    r := content;
    assert sections[0..] == sections;
    for i := 0 to |sections|
      invariant EnsuredAll(r, sections[i..]) == EnsuredAll(content, sections)
    {
      assert sections[i..][0] == sections[i] && sections[i..][1..] == sections[i + 1..];
      r := EnsureSection(r, sections[i].name, sections[i].items);
    }
  }
}
