/** What ensuring a section does to a whole text, and to a text with several sections
    (exordos_core/cmd/bootstrap.py). */
module IniEnsure {
  import opened Wrappers
  import opened IniText
  import opened IniSection

  predicate Terminated(content: string)
  {
    content == "" || Ends(content)
  }

  /** The header line, if there is one, ends; or there is no line to write behind it. */
  predicate HeaderOk(content: string, section: string, items: Items)
  {
    var lines := Lines(content);
    var k := FindHeader(lines, Header(section));
    k < |lines| ==> Ends(lines[k]) || Added(items, []) == []
  }

  // ------------------------------------------------------------------
  // A section that is there
  // ------------------------------------------------------------------

  /** The body ends with a line that is not blank, and only blank ones follow it. */
  lemma TailSplits(tail: seq<string>)
    ensures var m := TrimBlank(Region(tail));
            && m + tail[|m|..] == tail && NoHeads(m) && (m != [] ==> !IsBlank(m[|m| - 1]))
            && Region(tail) == m + Region(tail[|m|..])
            && forall line :: line in Region(tail[|m|..]) ==> IsBlank(line)
  {
    var region := Region(tail);
    RegionIs(tail);
    TrimBlankIs(region);
    SplitRegion(tail, region, TrimBlank(region));
  }

  lemma SplitRegion(tail: seq<string>, region: seq<string>, m: seq<string>)
    requires region == Region(tail) && region == tail[..|region|] && NoHeads(region)
    requires |m| <= |region| && m == region[..|m|] && forall i :: |m| <= i < |region| ==> IsBlank(region[i])
    ensures m + tail[|m|..] == tail && NoHeads(m) && region == m + Region(tail[|m|..])
    ensures forall line :: line in Region(tail[|m|..]) ==> IsBlank(line)
  {
    forall line | line in m ensures line in region {
      var i :| 0 <= i < |m| && m[i] == line;
      assert region[i] == line;
    }
    assert m + tail[|m|..] == tail;
    RegionAppend(m, tail[|m|..]);
    var blanks := Region(tail[|m|..]);
    forall line | line in blanks ensures IsBlank(line) {
      var i :| 0 <= i < |blanks| && blanks[i] == line;
      assert region[|m| + i] == line;
    }
  }

  /** All lines but the last one end, wherever a list of lines is cut. */
  lemma CutLines(a: seq<string>, b: seq<string>)
    requires AreLines(a + b)
    ensures AreLines(a) && AreLines(b) && (b != [] ==> AllEnd(a))
  {
    var lines := a + b;
    forall i | 0 <= i < |a| ensures IsLine(a[i]) && (i < |lines| - 1 ==> Ends(a[i])) { assert lines[i] == a[i]; }
    forall i | 0 <= i < |b| ensures IsLine(b[i]) && (i < |b| - 1 ==> Ends(b[i])) { assert lines[|a| + i] == b[i]; }
  }

  lemma PutBack(lines: seq<string>, header: string)
    requires FindHeader(lines, header) < |lines|
    ensures var p := PartsOf(lines, header);
            && Put(p, p.body) == lines && Strip(p.head) == header && Free(p.front, header)
            && lines[FindHeader(lines, header) + 1..] == p.body + p.rest
  {
    var k := FindHeader(lines, header);
    FindHeaderIs(lines, header);
    TailSplits(lines[k + 1..]);
    PutBackAt(lines, k, TrimBlank(Region(lines[k + 1..])), header);
  }

  lemma PutBackAt(lines: seq<string>, k: nat, m: seq<string>, header: string)
    requires k < |lines| && |m| <= |lines| - k - 1 && m + lines[k + 1..][|m|..] == lines[k + 1..]
    requires forall i :: 0 <= i < k ==> Strip(lines[i]) != header
    ensures lines[..k] + [lines[k]] + m + lines[k + 1..][|m|..] == lines && Free(lines[..k], header)
  {
    assert lines[..k] + [lines[k]] + m + lines[k + 1..][|m|..] == lines[..k] + [lines[k]] + lines[k + 1..];
    assert lines[..k] + [lines[k]] + lines[k + 1..] == lines;
    forall line | line in lines[..k] ensures Strip(line) != header {
      var i :| 0 <= i < k && lines[i] == line;
    }
  }

  /** What holds of the parts of a text. */
  ghost predicate Fit(p: Parts, header: string)
  {
    && Strip(p.head) == header && IsHead(p.head) && Free(p.front, header)
    && AreLines(p.body) && NoHeads(p.body) && AreLines(p.rest) && AllEnd(p.front) && IsLine(p.head)
    && (Ends(p.head) || (p.body == [] && p.rest == []))
    && (p.body != [] ==> !IsBlank(p.body[|p.body| - 1]))
    && (p.rest != [] ==> AllEnd(p.body))
  }

  lemma BodyOfParts(lines: seq<string>, header: string)
    requires FindHeader(lines, header) < |lines|
    ensures var p := PartsOf(lines, header); NoHeads(p.body) && (p.body != [] ==> !IsBlank(p.body[|p.body| - 1]))
  {
    TailSplits(lines[FindHeader(lines, header) + 1..]);
  }

  lemma PartsFit(lines: seq<string>, section: string)
    requires AreLines(lines) && FindHeader(lines, Header(section)) < |lines|
    ensures Fit(PartsOf(lines, Header(section)), Header(section))
  {
    PutBack(lines, Header(section));
    BodyOfParts(lines, Header(section));
    FitFrom(PartsOf(lines, Header(section)), section);
  }

  lemma FitFrom(p: Parts, section: string)
    requires AreLines(Put(p, p.body)) && Strip(p.head) == Header(section) && Free(p.front, Header(section))
    requires NoHeads(p.body) && (p.body != [] ==> !IsBlank(p.body[|p.body| - 1]))
    ensures Fit(p, Header(section))
  {
    HeaderOpens(p.head, section);
    PartsAreLines(p);
  }

  lemma HeaderOpens(line: string, section: string)
    requires Strip(line) == Header(section)
    ensures IsHead(line)
  {
    HeadIff(line);
  }

  lemma PartsAreLines(p: Parts)
    requires AreLines(Put(p, p.body))
    ensures AreLines(p.body) && AreLines(p.rest) && AllEnd(p.front) && IsLine(p.head)
    ensures Ends(p.head) || (p.body == [] && p.rest == [])
    ensures p.rest != [] ==> AllEnd(p.body)
  {
    var tail := p.body + p.rest;
    assert Put(p, p.body) == p.front + ([p.head] + tail);
    CutLines(p.front, [p.head] + tail);
    CutLines([p.head], tail);
    CutLines(p.body, p.rest);
    assert p.head in [p.head] && [p.head][0] == p.head;
  }

  /** The lines of the result are the parts with the new body. */
  lemma LinesOfEnsured(content: string, section: string, items: Items)
    requires Good(items) && HeaderOk(content, section, items)
    requires FindHeader(Lines(content), Header(section)) < |Lines(content)|
    ensures var p := PartsOf(Lines(content), Header(section));
            Lines(Ensured(content, section, items)) == Put(p, NewBody(p.body, items))
  {
    LinesAreLines(content);
    PartsFit(Lines(content), section);
    var p := PartsOf(Lines(content), Header(section));
    NewBodyHolds(p.body, items);
    if !Ends(p.head) {
      assert NewBody(p.body, items) == [];
    }
    PutIsLines(p, NewBody(p.body, items));
    LinesOfConcat(Put(p, NewBody(p.body, items)));
  }

  /** The text is its parts; the parts around the body come out as they were, and so do the
      lines of the body that set no listed key. */
  lemma LinesStay(content: string, section: string, items: Items)
    requires Good(items) && HeaderOk(content, section, items)
    requires FindHeader(Lines(content), Header(section)) < |Lines(content)|
    ensures var p := PartsOf(Lines(content), Header(section));
            && Lines(content) == p.front + [p.head] + p.body + p.rest && NoHeads(p.body)
            && exists body ::
                 Lines(Ensured(content, section, items)) == p.front + [p.head] + body + p.rest &&
                 NoHeads(body) && Kept(body, items) == Kept(p.body, items)
  {
    var p := PartsOf(Lines(content), Header(section));
    LinesAreLines(content);
    PutBack(Lines(content), Header(section));
    PartsFit(Lines(content), section);
    NewBodyHolds(p.body, items);
    NewBodyKeeps(p.body, items, items);
    LinesOfEnsured(content, section, items);
  }

  lemma PutIsLines(p: Parts, body: seq<string>)
    requires AllEnd(p.front) && IsLine(p.head) && AllEnd(body) && AreLines(p.rest)
    requires Ends(p.head) || (body == [] && p.rest == [])
    ensures AreLines(Put(p, body))
  {
    var lines := Put(p, body);
    forall i | 0 <= i < |lines| ensures IsLine(lines[i]) && (i < |lines| - 1 ==> Ends(lines[i])) {
      if i < |p.front| {
        assert lines[i] == p.front[i] && p.front[i] in p.front;
      } else if i == |p.front| {
        assert lines[i] == p.head;
      } else if i < |p.front| + 1 + |body| {
        assert lines[i] == body[i - |p.front| - 1] && lines[i] in body;
      } else {
        assert lines[i] == p.rest[i - |p.front| - 1 - |body|];
      }
    }
  }

  /** What follows the body up to the next section is blank. */
  lemma RestIsBlank(lines: seq<string>, section: string)
    requires FindHeader(lines, Header(section)) < |lines|
    ensures var p := PartsOf(lines, Header(section));
            && SectionOf(lines, Header(section)) == Some(p.body + Region(p.rest))
            && forall line :: line in Region(p.rest) ==> IsBlank(line)
  {
    SectionFound(lines, Header(section));
    TailSplits(lines[FindHeader(lines, Header(section)) + 1..]);
  }

  /** The section of the parts with a new body. */
  lemma SectionOfPut(p: Parts, body: seq<string>, header: string)
    requires Free(p.front, header) && Strip(p.head) == header && NoHeads(body)
    ensures SectionOf(Put(p, body), header) == Some(body + Region(p.rest))
  {
    var tail := [p.head] + (body + p.rest);
    assert Put(p, body) == p.front + tail;
    SectionSkips(p.front, tail, header);
    assert tail[1..] == body + p.rest;
    RegionAppend(body, p.rest);
  }

  lemma PairsWithBlanks(body: seq<string>, blanks: seq<string>)
    requires forall line :: line in blanks ==> IsBlank(line)
    ensures Pairs(body + blanks) == Pairs(body)
  {
    PairsAppend(body, blanks);
    NoPairs(blanks);
  }

  /** A section that was there holds the items afterwards, and has the other settings it
      had; every other section has the very lines it had. */
  lemma PresentHolds(content: string, section: string, items: Items)
    requires Good(items) && HeaderOk(content, section, items)
    requires FindHeader(Lines(content), Header(section)) < |Lines(content)|
    ensures var before, after := Meaning(content, section), Meaning(Ensured(content, section, items), section);
            && before.Some? && after.Some? && Holds(after, items)
            && Unlisted(after.value, items) == Unlisted(before.value, items)
    ensures forall other :: other != section ==>
              SectionOf(Lines(Ensured(content, section, items)), Header(other)) ==
                  SectionOf(Lines(content), Header(other))
  {
    var lines := Lines(content);
    var p := PartsOf(lines, Header(section));
    LinesAreLines(content);
    PartsFit(lines, section);
    PutBack(lines, Header(section));
    LinesOfEnsured(content, section, items);
    NewBodyHolds(p.body, items);
    RestIsBlank(lines, section);
    SectionOfPut(p, NewBody(p.body, items), Header(section));
    PairsWithBlanks(p.body, Region(p.rest));
    PairsWithBlanks(NewBody(p.body, items), Region(p.rest));
    forall other | other != section
      ensures SectionOf(Lines(Ensured(content, section, items)), Header(other)) == SectionOf(lines, Header(other))
    {
      NoHeadsFree(p.body, other);
      NoHeadsFree(NewBody(p.body, items), other);
      HeaderInjective(section, other);
      OthersSee(p.front, p.head, p.body, NewBody(p.body, items), p.rest, Header(other));
    }
  }

  lemma HeaderInjective(a: string, b: string)
    requires a != b
    ensures Header(a) != Header(b)
  {
    assert Header(a)[1..|Header(a)| - 1] == a && Header(b)[1..|Header(b)| - 1] == b;
  }

  // ------------------------------------------------------------------
  // A section that needs nothing
  // ------------------------------------------------------------------

  /** The lines of the section end, up to blank ones. */
  ghost predicate Tidy(content: string, section: string)
  {
    var s := SectionOf(Lines(content), Header(section));
    s.Some? ==> forall line :: line in s.value ==> Ends(line) || IsBlank(line)
  }

  lemma {:induction false} EditChangesNothing(m: seq<string>, items: Items)
    requires Good(items)
    requires forall p :: p in Pairs(m) && Listed(items, p.key) ==> ValueOf(items, p.key) == Some(p.value)
    ensures Edit(m, items) == m
  {
    if m != [] {
      assert HasEq(m[0]) ==> Pair(KeyIn(m[0]), ValueIn(m[0])) in PairOf(m[0]);
      assert forall p :: p in PairOf(m[0]) || p in Pairs(m[1..]) ==> p in Pairs(m);
      EditChangesNothing(m[1..], items);
    }
  }

  lemma {:induction false} AddsNothing(items: Items, m: seq<string>)
    requires forall i :: 0 <= i < |items| && items[i].value.Some? ==> SeenIn(m, items[i].key)
    ensures Added(items, m) == []
  {
    if items != [] {
      assert items[0].value.Some? ==> SeenIn(m, items[0].key);
      AddsNothing(items[1..], m);
    }
  }

  lemma EditStays(m: seq<string>, items: Items)
    requires Good(items) && Holds(Some(Pairs(m)), items)
    ensures Edit(m, items) == m
  {
    forall p | p in Pairs(m) && Listed(items, p.key) ensures ValueOf(items, p.key) == Some(p.value) {
      var i :| 0 <= i < |items| && items[i].key == p.key;
      assert HoldsItem(Some(Pairs(m)), items[i]);
    }
    EditChangesNothing(m, items);
  }

  lemma AddStays(m: seq<string>, items: Items)
    requires Holds(Some(Pairs(m)), items)
    ensures Added(items, m) == []
  {
    forall i | 0 <= i < |items| && items[i].value.Some? ensures SeenIn(m, items[i].key) {
      assert HoldsItem(Some(Pairs(m)), items[i]);
      SeenIff(m, items[i].key);
    }
    AddsNothing(items, m);
  }

  lemma BodyStays(m: seq<string>, items: Items)
    requires Good(items) && Holds(Some(Pairs(m)), items)
    requires m != [] ==> Ends(m[|m| - 1])
    ensures NewBody(m, items) == m
  {
    EditStays(m, items);
    AddStays(m, items);
  }

  /** A text that holds the items already is returned as it is. */
  lemma HoldingStays(content: string, section: string, items: Items)
    requires Good(items) && Holds(Meaning(content, section), items) && Tidy(content, section)
    ensures Ensured(content, section, items) == content
  {
    var lines := Lines(content);
    var header := Header(section);
    LinesAreLines(content);
    SectionFound(lines, header);
    if FindHeader(lines, header) < |lines| {
      var p := PartsOf(lines, header);
      PutBack(lines, header);
      PartsFit(lines, section);
      RestIsBlank(lines, section);
      PairsWithBlanks(p.body, Region(p.rest));
      if p.body != [] {
        var last := p.body[|p.body| - 1];
        assert last in p.body + Region(p.rest);
      }
      BodyStays(p.body, items);
    } else {
      forall i | 0 <= i < |items| ensures items[i].value.None? { assert HoldsItem(None, items[i]); }
      AddsNothing(items, []);
    }
  }

  /** An edited section is left tidy. */
  lemma PresentIsTidy(content: string, section: string, items: Items)
    requires Good(items) && HeaderOk(content, section, items)
    requires FindHeader(Lines(content), Header(section)) < |Lines(content)|
    ensures Tidy(Ensured(content, section, items), section)
  {
    var lines := Lines(content);
    var p := PartsOf(lines, Header(section));
    LinesAreLines(content);
    PartsFit(lines, section);
    LinesOfEnsured(content, section, items);
    NewBodyHolds(p.body, items);
    RestIsBlank(lines, section);
    SectionOfPut(p, NewBody(p.body, items), Header(section));
  }

  // ------------------------------------------------------------------
  // A section that is missing
  // ------------------------------------------------------------------

  lemma {:induction false} BlankAtTheEnd(lines: seq<string>, blank: string, header: string)
    requires IsBlank(blank) && header != ""
    ensures PairsOf(lines + [blank], header) == PairsOf(lines, header)
    ensures Pairs(Region(lines + [blank])) == Pairs(Region(lines))
  {
    BlankHasNoKey(blank);
    if lines == [] {
      assert lines + [blank] == [blank] && [blank][1..] == [];
    } else {
      assert (lines + [blank])[1..] == lines[1..] + [blank];
      BlankAtTheEnd(lines[1..], blank, header);
    }
  }

  lemma {:induction false} BreakAtTheEnd(front: seq<string>, last: string, header: string)
    requires IsLine(last) && !Ends(last)
    ensures PairsOf(front + [last + "\n"], header) == PairsOf(front + [last], header)
    ensures Pairs(Region(front + [last + "\n"])) == Pairs(Region(front + [last]))
  {
    BreakSaysNothing(last);
    var a, b := front + [last + "\n"], front + [last];
    if front == [] {
      assert a == [last + "\n"] && b == [last] && a[1..] == [] && b[1..] == [];
    } else {
      assert a[1..] == front[1..] + [last + "\n"] && b[1..] == front[1..] + [last];
      BreakAtTheEnd(front[1..], last, header);
    }
  }

  /** A line break behind a text says nothing. */
  lemma BreakBehind(content: string, section: string)
    ensures Meaning(content + "\n", section) == Meaning(content, section)
  {
    var header := Header(section);
    LinesAreLines(content);
    if Terminated(content) {
      LinesAppend(content, "\n");
      LinesLast("\n");
      assert IsBlank("\n") by { StripRight("", '\n'); assert "" + ['\n'] == "\n"; }
      BlankAtTheEnd(Lines(content), "\n", header);
    } else {
      var lines := Lines(content);
      var front, last := lines[..|lines| - 1], lines[|lines| - 1];
      assert lines == front + [last];
      UnterminatedLast(content);
      LinesOfBroken(front, last);
      BreakAtTheEnd(front, last, header);
      ConcatAppend(front, [last]);
    }
  }

  lemma {:induction false} UnterminatedLast(s: string)
    requires s != "" && !Ends(s)
    ensures Lines(s) != [] && !Ends(Lines(s)[|Lines(s)| - 1])
    decreases |s|
  {
    if FirstBreak(s) < |s| {
      var a, rest := FirstLine(s);
      assert a + "" == a;
      UnterminatedLast(rest);
    }
  }

  lemma LinesOfBroken(front: seq<string>, last: string)
    requires AreLines(front + [last]) && !Ends(last)
    ensures IsLine(last) && Lines(Concat(front + [last]) + "\n") == front + [last + "\n"]
  {
    CutLines(front, [last]);
    assert [last][0] == last;
    var lines := front + [last + "\n"];
    TerminatedLine(last);
    forall i | 0 <= i < |lines| ensures IsLine(lines[i]) && Ends(lines[i]) {
      if i < |front| { assert front[i] in front; }
    }
    LinesOfConcat(lines);
    ConcatAppend(front, [last]);
    ConcatAppend(front, [last + "\n"]);
    OneConcat(last);
    OneConcat(last + "\n");
    assert (Concat(front) + last) + "\n" == Concat(front) + (last + "\n");
  }

  lemma OneConcat(line: string)
    ensures Concat([line]) == line
  {
    assert [line][1..] == [];
    assert Concat([line]) == line + Concat([]);
  }
}
