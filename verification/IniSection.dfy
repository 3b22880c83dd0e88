/** Making a section of an INI text hold given settings, line by line
    (exordos_core/cmd/bootstrap.py). */
module IniSection {
  import opened Wrappers
  import opened IniText

  /** A setting to make; no value means that the key must not be there. */
  datatype Item = Item(key: string, value: Option<string>)

  type Items = seq<Item>

  predicate Listed(items: Items, key: string)
  {
    exists i :: 0 <= i < |items| && items[i].key == key
  }

  ghost predicate DistinctKeys(items: Items)
  {
    forall i, j :: 0 <= i < j < |items| ==> items[i].key != items[j].key
  }

  ghost predicate Good(items: Items)
  {
    && DistinctKeys(items)
    && forall i :: 0 <= i < |items| ==>
         GoodKey(items[i].key) && (items[i].value.Some? ==> GoodValue(items[i].value.value))
  }

  ghost predicate GoodName(section: string)
  {
    forall i :: 0 <= i < |section| ==> section[i] != '\n'
  }

  function ValueOf(items: Items, key: string): (v: Option<string>)
    requires Listed(items, key)
    ensures exists i :: 0 <= i < |items| && items[i] == Item(key, v)
  {
    if items[0].key == key then items[0].value else ValueOf(items[1..], key)
  }

  // ------------------------------------------------------------------
  // What a text means
  // ------------------------------------------------------------------

  datatype Pair = Pair(key: string, value: string)

  function PairOf(line: string): seq<Pair>
  {
    if HasEq(line) then [Pair(KeyIn(line), ValueIn(line))] else []
  }

  /** The settings of a list of lines, in order. */
  function Pairs(lines: seq<string>): seq<Pair>
  {
    if lines == [] then [] else PairOf(lines[0]) + Pairs(lines[1..])
  }

  /** The lines before the next section. */
  function Region(lines: seq<string>): (r: seq<string>)
    ensures |r| <= |lines|
  {
    if lines == [] || IsHead(lines[0]) then [] else [lines[0]] + Region(lines[1..])
  }

  lemma {:induction false} RegionIs(lines: seq<string>)
    ensures Region(lines) == lines[..|Region(lines)|] && NoHeads(Region(lines))
  {
    if lines != [] && !IsHead(lines[0]) {
      RegionIs(lines[1..]);
      var r := Region(lines[1..]);
      assert lines[..|r| + 1] == [lines[0]] + lines[1..][..|r|];
    }
  }

  /** The lines of the first section with this header. */
  function SectionOf(lines: seq<string>, header: string): Option<seq<string>>
  {
    if lines == [] then None
    else if Strip(lines[0]) == header then Some(Region(lines[1..]))
    else SectionOf(lines[1..], header)
  }

  function PairsOf(lines: seq<string>, header: string): Option<seq<Pair>>
  {
    var s := SectionOf(lines, header);
    if s.Some? then Some(Pairs(s.value)) else None
  }

  /** The settings of a section of a text, if it has the section. */
  function Meaning(content: string, section: string): Option<seq<Pair>>
  {
    PairsOf(Lines(content), Header(section))
  }

  /** The section has every value asked for and no other for its key, and no key that must
      not be there. */
  ghost predicate Holds(pairs: Option<seq<Pair>>, items: Items)
  {
    forall i :: 0 <= i < |items| ==> HoldsItem(pairs, items[i])
  }

  ghost predicate HoldsItem(pairs: Option<seq<Pair>>, item: Item)
  {
    if item.value.Some? then
      && pairs.Some?
      && (exists p :: p in pairs.value && p.key == item.key)
      && (forall p :: p in pairs.value && p.key == item.key ==> p.value == item.value.value)
    else
      pairs.Some? ==> forall p :: p in pairs.value ==> p.key != item.key
  }

  /** The settings that are not asked about. */
  function Unlisted(pairs: seq<Pair>, items: Items): seq<Pair>
  {
    if pairs == [] then []
    else (if Listed(items, pairs[0].key) then [] else [pairs[0]]) + Unlisted(pairs[1..], items)
  }

  // ------------------------------------------------------------------
  // The edit
  // ------------------------------------------------------------------

  function FindHeader(lines: seq<string>, header: string): (k: nat)
    ensures k <= |lines|
  {
    if lines == [] || Strip(lines[0]) == header then 0 else FindHeader(lines[1..], header) + 1
  }

  lemma {:induction false} FindHeaderIs(lines: seq<string>, header: string)
    ensures var k := FindHeader(lines, header);
            && (forall i :: 0 <= i < k ==> Strip(lines[i]) != header)
            && (k < |lines| ==> Strip(lines[k]) == header)
  {
    if lines != [] && Strip(lines[0]) != header {
      FindHeaderIs(lines[1..], header);
      forall i | 0 <= i < FindHeader(lines, header) ensures Strip(lines[i]) != header {
        assert i > 0 ==> lines[i] == lines[1..][i - 1];
      }
    }
  }

  /** Leaves out the blank lines at the end. */
  function TrimBlank(lines: seq<string>): (r: seq<string>)
    ensures |r| <= |lines|
  {
    if lines == [] || !IsBlank(lines[|lines| - 1]) then lines else TrimBlank(lines[..|lines| - 1])
  }

  lemma {:induction false} TrimBlankIs(lines: seq<string>)
    ensures var r := TrimBlank(lines);
            && r == lines[..|r|] && (r == [] || !IsBlank(r[|r| - 1]))
            && forall i :: |r| <= i < |lines| ==> IsBlank(lines[i])
    decreases |lines|
  {
    if lines != [] && IsBlank(lines[|lines| - 1]) {
      TrimBlankIs(lines[..|lines| - 1]);
      var r := TrimBlank(lines);
      assert lines[..|lines| - 1][..|r|] == lines[..|r|];
    }
  }

  function EditLine(line: string, items: Items): Option<string>
  {
    if !HasEq(line) || !Listed(items, KeyIn(line)) then Some(line)
    else
      var v := ValueOf(items, KeyIn(line));
      if v.None? then None
      else if ValueIn(line) != v.value then Some(Setting(KeyIn(line), v.value))
      else Some(line)
  }

  function Edit(lines: seq<string>, items: Items): seq<string>
  {
    if lines == [] then []
    else
      var e := EditLine(lines[0], items);
      (if e.Some? then [e.value] else []) + Edit(lines[1..], items)
  }

  predicate SeenIn(lines: seq<string>, key: string)
  {
    exists i :: 0 <= i < |lines| && HasEq(lines[i]) && KeyIn(lines[i]) == key
  }

  /** A line for each value whose key was not seen. */
  function Added(items: Items, lines: seq<string>): seq<string>
  {
    if items == [] then []
    else
      (if items[0].value.Some? && !SeenIn(lines, items[0].key) then [Setting(items[0].key, items[0].value.value)]
       else [])
      + Added(items[1..], lines)
  }

  /** The last line gets its line break. */
  function Terminate(lines: seq<string>): seq<string>
  {
    if lines == [] || Ends(lines[|lines| - 1]) then lines
    else lines[..|lines| - 1] + [lines[|lines| - 1] + "\n"]
  }

  function NewBody(lines: seq<string>, items: Items): seq<string>
  {
    Terminate(Edit(lines, items)) + Added(items, lines)
  }

  /** A text in parts: before the header, the header, the lines that are edited, the rest. */
  datatype Parts = Parts(front: seq<string>, head: string, body: seq<string>, rest: seq<string>)

  function PartsOf(lines: seq<string>, header: string): (p: Parts)
    requires FindHeader(lines, header) < |lines|
  {
    var k := FindHeader(lines, header);
    var tail := lines[k + 1..];
    var m := TrimBlank(Region(tail));
    Parts(lines[..k], lines[k], m, tail[|m|..])
  }

  function Put(p: Parts, body: seq<string>): seq<string>
  {
    p.front + [p.head] + body + p.rest
  }

  function RStripBreaks(s: string): (r: string)
    ensures r <= s
  {
    if s == "" || s[|s| - 1] != '\n' then s else RStripBreaks(s[..|s| - 1])
  }

  /** A missing section is appended, behind one blank line. */
  function Appended(content: string, section: string, items: Items): string
  {
    var body := Concat(Added(items, []));
    if body == "" then content
    else (if Strip(content) != "" then RStripBreaks(content) + "\n\n" else "") + (Header(section) + "\n" + body)
  }

  function Ensured(content: string, section: string, items: Items): string
  {
    var lines := Lines(content);
    if FindHeader(lines, Header(section)) == |lines| then Appended(content, section, items)
    else
      var p := PartsOf(lines, Header(section));
      Concat(Put(p, NewBody(p.body, items)))
  }

  // ------------------------------------------------------------------
  // Lines put together
  // ------------------------------------------------------------------

  lemma {:induction false} PairsAppend(a: seq<string>, b: seq<string>)
    ensures Pairs(a + b) == Pairs(a) + Pairs(b)
  {
    if a == [] {
      assert a + b == b;
    } else {
      assert (a + b)[1..] == a[1..] + b;
      PairsAppend(a[1..], b);
    }
  }

  lemma {:induction false} NoPairs(lines: seq<string>)
    requires forall line :: line in lines ==> IsBlank(line)
    ensures Pairs(lines) == []
  {
    if lines != [] {
      assert lines[0] in lines;
      BlankHasNoKey(lines[0]);
      NoPairs(lines[1..]);
    }
  }

  lemma {:induction false} RegionAppend(a: seq<string>, b: seq<string>)
    requires forall line :: line in a ==> !IsHead(line)
    ensures Region(a + b) == a + Region(b)
  {
    if a == [] {
      assert a + b == b;
    } else {
      assert a[0] in a && (a + b)[1..] == a[1..] + b;
      RegionAppend(a[1..], b);
    }
  }

  lemma {:induction false} RegionStops(a: seq<string>, b: seq<string>, c: seq<string>)
    requires b != [] && IsHead(b[0]) && c != [] && c[0] == b[0]
    ensures Region(a + b) == Region(a + c)
  {
    if a == [] {
      assert a + b == b && a + c == c;
    } else {
      assert (a + b)[1..] == a[1..] + b && (a + c)[1..] == a[1..] + c;
      RegionStops(a[1..], b, c);
    }
  }

  ghost predicate Free(lines: seq<string>, header: string)
  {
    forall line :: line in lines ==> Strip(line) != header
  }

  lemma {:induction false} SectionSkips(a: seq<string>, b: seq<string>, header: string)
    requires Free(a, header)
    ensures SectionOf(a + b, header) == SectionOf(b, header)
  {
    if a == [] {
      assert a + b == b;
    } else {
      assert a[0] in a && (a + b)[1..] == a[1..] + b;
      SectionSkips(a[1..], b, header);
    }
  }

  /** The section of the header found first. */
  lemma SectionFound(lines: seq<string>, header: string)
    ensures var k := FindHeader(lines, header);
            SectionOf(lines, header) == if k < |lines| then Some(Region(lines[k + 1..])) else None
  {
    var k := FindHeader(lines, header);
    FindHeaderIs(lines, header);
    assert lines == lines[..k] + lines[k..];
    forall line | line in lines[..k] ensures Strip(line) != header {
      var i :| 0 <= i < k && lines[i] == line;
    }
    SectionSkips(lines[..k], lines[k..], header);
    if k < |lines| { assert lines[k..][1..] == lines[k + 1..]; }
  }

  /** Replacing what stands between a head and the rest shows in no other section. */
  lemma {:induction false} OthersSee(f: seq<string>, head: string, m: seq<string>, b: seq<string>,
                                     rest: seq<string>, other: string)
    requires IsHead(head) && Strip(head) != other && Free(m, other) && Free(b, other)
    ensures SectionOf(f + [head] + m + rest, other) == SectionOf(f + [head] + b + rest, other)
  {
    if f == [] {
      assert f + [head] + m + rest == ([head] + m) + rest && f + [head] + b + rest == ([head] + b) + rest;
      SectionSkips([head] + m, rest, other);
      SectionSkips([head] + b, rest, other);
    } else {
      var x, y := f + [head] + m + rest, f + [head] + b + rest;
      assert x[1..] == f[1..] + [head] + m + rest && y[1..] == f[1..] + [head] + b + rest;
      OthersSee(f[1..], head, m, b, rest, other);
      if Strip(f[0]) == other {
        assert x[1..] == f[1..] + ([head] + m + rest) && y[1..] == f[1..] + ([head] + b + rest);
        RegionStops(f[1..], [head] + m + rest, [head] + b + rest);
      }
    }
  }

  // ------------------------------------------------------------------
  // The new body of a section
  // ------------------------------------------------------------------

  ghost predicate NoHeads(lines: seq<string>)
  {
    forall line :: line in lines ==> !IsHead(line)
  }

  ghost predicate AllEnd(lines: seq<string>)
  {
    forall line :: line in lines ==> IsLine(line) && Ends(line)
  }

  /** No line of a body is taken for a header. */
  lemma NoHeadsFree(lines: seq<string>, section: string)
    requires NoHeads(lines)
    ensures Free(lines, Header(section))
  {
    forall line | line in lines ensures Strip(line) != Header(section) { HeadIff(line); }
  }

  /** An edited line is a line, opens no section, and says what is asked for. */
  lemma EditLineIs(line: string, items: Items)
    requires Good(items) && EditLine(line, items).Some?
    ensures var e := EditLine(line, items).value;
            && (IsLine(line) ==> IsLine(e)) && (Ends(line) ==> Ends(e)) && (!IsHead(line) ==> !IsHead(e))
            && (HasEq(line) <==> HasEq(e)) && KeyIn(e) == KeyIn(line)
            && (HasEq(line) && Listed(items, KeyIn(line)) ==> ValueOf(items, KeyIn(line)) == Some(ValueIn(e)))
            && (!(HasEq(line) && Listed(items, KeyIn(line))) ==> e == line)
  {
    if HasEq(line) && Listed(items, KeyIn(line)) {
      var key, v := KeyIn(line), ValueOf(items, KeyIn(line)).value;
      SettingReadsBack(key, v);
      SettingIsLine(key, v);
      SettingIsNoHead(key, v);
    }
  }

  lemma {:induction false} EditIsLines(m: seq<string>, items: Items)
    requires AreLines(m) && NoHeads(m) && Good(items)
    ensures AreLines(Edit(m, items)) && NoHeads(Edit(m, items))
  {
    if m != [] {
      assert IsLine(m[0]) && m[0] in m;
      assert forall i :: 0 <= i < |m| - 1 ==> m[1..][i] == m[i + 1];
      EditIsLines(m[1..], items);
      if EditLine(m[0], items).Some? { EditLineIs(m[0], items); }
      if |m| > 1 { assert Ends(m[0]); } else { assert m[1..] == []; }
    }
  }

  /** The edit, seen from the settings. */
  function EditPairs(pairs: seq<Pair>, items: Items): seq<Pair>
  {
    if pairs == [] then [] else EditPair(pairs[0], items) + EditPairs(pairs[1..], items)
  }

  function EditPair(p: Pair, items: Items): seq<Pair>
  {
    if !Listed(items, p.key) then [p]
    else
      var v := ValueOf(items, p.key);
      if v.None? then [] else [Pair(p.key, v.value)]
  }

  lemma EditPairsCons(ps: seq<Pair>, rest: seq<Pair>, items: Items)
    requires |ps| <= 1
    ensures EditPairs(ps + rest, items) == (if ps == [] then [] else EditPair(ps[0], items)) + EditPairs(rest, items)
  {
    if ps == [] {
      assert ps + rest == rest;
    } else {
      assert (ps + rest)[1..] == rest;
    }
  }

  lemma EditLinePairs(line: string, items: Items)
    requires Good(items)
    ensures var e := EditLine(line, items);
            (if e.Some? then PairOf(e.value) else []) ==
                if PairOf(line) == [] then [] else EditPair(PairOf(line)[0], items)
  {
    if EditLine(line, items).Some? { EditLineIs(line, items); }
  }

  lemma {:induction false} EditPairsIs(m: seq<string>, items: Items)
    requires Good(items)
    ensures Pairs(Edit(m, items)) == EditPairs(Pairs(m), items)
  {
    if m != [] {
      var e := EditLine(m[0], items);
      EditPairsIs(m[1..], items);
      EditPairsCons(PairOf(m[0]), Pairs(m[1..]), items);
      EditLinePairs(m[0], items);
      if e.Some? {
      } else {
        assert Edit(m, items) == Edit(m[1..], items);
      }
    }
  }

  lemma {:induction false} EditSays(pairs: seq<Pair>, items: Items, p: Pair)
    requires p in EditPairs(pairs, items) && Listed(items, p.key)
    ensures ValueOf(items, p.key) == Some(p.value)
  {
    if p !in EditPair(pairs[0], items) { EditSays(pairs[1..], items, p); }
  }

  lemma {:induction false} EditKeepsKey(pairs: seq<Pair>, items: Items, p: Pair)
    requires p in pairs && Listed(items, p.key) && ValueOf(items, p.key).Some?
    ensures Pair(p.key, ValueOf(items, p.key).value) in EditPairs(pairs, items)
  {
    if p != pairs[0] { EditKeepsKey(pairs[1..], items, p); }
  }

  lemma {:induction false} EditKeepsUnlisted(pairs: seq<Pair>, items: Items)
    ensures Unlisted(EditPairs(pairs, items), items) == Unlisted(pairs, items)
  {
    if pairs != [] {
      EditKeepsUnlisted(pairs[1..], items);
      var e, rest := EditPair(pairs[0], items), EditPairs(pairs[1..], items);
      if e == [] {
        assert e + rest == rest;
      } else {
        assert (e + rest)[1..] == rest;
      }
    }
  }

  lemma {:induction false} SeenIff(m: seq<string>, key: string)
    ensures SeenIn(m, key) <==> exists p :: p in Pairs(m) && p.key == key
  {
    if m != [] {
      SeenIff(m[1..], key);
      if SeenIn(m[1..], key) {
        var i :| 0 <= i < |m[1..]| && HasEq(m[1..][i]) && KeyIn(m[1..][i]) == key;
        assert m[i + 1] == m[1..][i];
      }
      if SeenIn(m, key) && !(HasEq(m[0]) && KeyIn(m[0]) == key) {
        var i :| 0 <= i < |m| && HasEq(m[i]) && KeyIn(m[i]) == key;
        assert m[1..][i - 1] == m[i];
      }
      assert HasEq(m[0]) ==> Pair(KeyIn(m[0]), ValueIn(m[0])) in PairOf(m[0]);
    }
  }

  function AddedPairs(items: Items, lines: seq<string>): (r: seq<Pair>)
    ensures forall p :: p in r <==> !SeenIn(lines, p.key) && Item(p.key, Some(p.value)) in items
  {
    if items == [] then []
    else
      assert items == [items[0]] + items[1..];
      (if items[0].value.Some? && !SeenIn(lines, items[0].key) then [Pair(items[0].key, items[0].value.value)] else [])
      + AddedPairs(items[1..], lines)
  }

  lemma SettingIs(key: string, v: string)
    requires GoodKey(key) && GoodValue(v)
    ensures var line := Setting(key, v);
            IsLine(line) && Ends(line) && !IsHead(line) && PairOf(line) == [Pair(key, v)]
  {
    SettingReadsBack(key, v);
    SettingIsLine(key, v);
    SettingIsNoHead(key, v);
  }

  lemma {:induction false} AddedIs(items: Items, m: seq<string>)
    requires Good(items)
    ensures AllEnd(Added(items, m)) && NoHeads(Added(items, m)) && Pairs(Added(items, m)) == AddedPairs(items, m)
  {
    if items != [] {
      AddedIs(items[1..], m);
      var rest := Added(items[1..], m);
      if items[0].value.Some? && !SeenIn(m, items[0].key) {
        var key, v := items[0].key, items[0].value.value;
        SettingIs(key, v);
      } else {
        assert Added(items, m) == rest;
      }
    }
  }

  lemma {:induction false} UnlistedAppend(a: seq<Pair>, b: seq<Pair>, items: Items)
    requires forall p :: p in b ==> Listed(items, p.key)
    ensures Unlisted(a + b, items) == Unlisted(a, items)
  {
    if a == [] {
      assert a + b == b;
      NoneUnlisted(b, items);
    } else {
      assert (a + b)[1..] == a[1..] + b;
      UnlistedAppend(a[1..], b, items);
    }
  }

  lemma {:induction false} NoneUnlisted(b: seq<Pair>, items: Items)
    requires forall p :: p in b ==> Listed(items, p.key)
    ensures Unlisted(b, items) == []
  {
    if b != [] {
      assert b[0] in b;
      NoneUnlisted(b[1..], items);
    }
  }

  lemma {:induction false} IndexOfEqAppend(line: string, c: char)
    requires c != '='
    ensures IndexOfEq(line + [c]) == if HasEq(line) then IndexOfEq(line) else |line| + 1
  {
    if line == "" {
      assert line + [c] == [c] && [c][1..] == "";
    } else if line[0] != '=' {
      assert (line + [c])[1..] == line[1..] + [c];
      IndexOfEqAppend(line[1..], c);
    }
  }

  /** A line break at the end of a line says nothing. */
  lemma BreakSaysNothing(line: string)
    ensures HasEq(line + "\n") <==> HasEq(line)
    ensures Strip(line + "\n") == Strip(line)
    ensures HasEq(line) ==> KeyIn(line + "\n") == KeyIn(line) && ValueIn(line + "\n") == ValueIn(line)
    ensures IsHead(line + "\n") <==> IsHead(line)
  {
    IndexOfEqAppend(line, '\n');
    StripRight(line, '\n');
    HeadIff(line);
    HeadIff(line + "\n");
    if HasEq(line) {
      var k := IndexOfEq(line);
      assert (line + "\n")[..k] == line[..k];
      assert (line + "\n")[k + 1..] == line[k + 1..] + "\n";
      StripRight(line[k + 1..], '\n');
    }
  }

  lemma TerminatedLine(last: string)
    requires IsLine(last) && !Ends(last)
    ensures IsLine(last + "\n") && Ends(last + "\n") && PairOf(last + "\n") == PairOf(last)
    ensures IsHead(last + "\n") <==> IsHead(last)
  {
    BreakSaysNothing(last);
  }

  lemma TerminateIs(b: seq<string>)
    requires AreLines(b) && NoHeads(b)
    ensures AllEnd(Terminate(b)) && NoHeads(Terminate(b)) && Pairs(Terminate(b)) == Pairs(b)
  {
    if b != [] {
      var front, last := b[..|b| - 1], b[|b| - 1];
      assert b == front + [last];
      if !Ends(last) { TerminatedLine(last); }
      forall line | line in front ensures IsLine(line) && Ends(line) && !IsHead(line) {
        var i :| 0 <= i < |front| && front[i] == line;
        assert b[i] == line;
      }
      PairsAppend(front, [last]);
      PairsAppend(front, [last + "\n"]);
    }
  }

  /** The new body holds the items, and its other settings are the old ones, in order. */
  lemma NewBodyHolds(m: seq<string>, items: Items)
    requires AreLines(m) && NoHeads(m) && Good(items)
    ensures AllEnd(NewBody(m, items)) && NoHeads(NewBody(m, items))
    ensures Holds(Some(Pairs(NewBody(m, items))), items)
    ensures Unlisted(Pairs(NewBody(m, items)), items) == Unlisted(Pairs(m), items)
  {
    EditIsLines(m, items);
    TerminateIs(Edit(m, items));
    AddedIs(items, m);
    PairsAppend(Terminate(Edit(m, items)), Added(items, m));
    EditPairsIs(m, items);
    PairsHold(m, items);
  }

  // ------------------------------------------------------------------
  // Comments and other lines that are not asked about
  // ------------------------------------------------------------------

  /** A line without its line break. */
  function Bare(line: string): string
  {
    if Ends(line) then line[..|line| - 1] else line
  }

  /** The lines that set no listed key, comments among them, as they are written. */
  function Kept(lines: seq<string>, items: Items): seq<string>
  {
    if lines == [] then []
    else (if HasEq(lines[0]) && Listed(items, KeyIn(lines[0])) then [] else [Bare(lines[0])]) + Kept(lines[1..], items)
  }

  lemma {:induction false} KeptAppend(a: seq<string>, b: seq<string>, items: Items)
    ensures Kept(a + b, items) == Kept(a, items) + Kept(b, items)
  {
    if a == [] {
      assert a + b == b;
    } else {
      assert (a + b)[0] == a[0] && (a + b)[1..] == a[1..] + b;
      KeptAppend(a[1..], b, items);
    }
  }

  /** Every key that `items` lists is in `all`. */
  ghost predicate AllListed(items: Items, all: Items)
  {
    forall i :: 0 <= i < |items| ==> Listed(all, items[i].key)
  }

  lemma {:induction false} EditKeeps(m: seq<string>, items: Items, all: Items)
    requires Good(items) && AllListed(items, all)
    ensures Kept(Edit(m, items), all) == Kept(m, all)
  {
    if m != [] {
      EditKeeps(m[1..], items, all);
      var e := EditLine(m[0], items);
      if e.Some? {
        EditLineIs(m[0], items);
        assert Edit(m, items)[1..] == Edit(m[1..], items);
      } else {
        assert Edit(m, items) == Edit(m[1..], items);
      }
    }
  }

  lemma TerminateKeeps(b: seq<string>, items: Items)
    ensures Kept(Terminate(b), items) == Kept(b, items)
  {
    if b != [] && !Ends(b[|b| - 1]) {
      var front, last := b[..|b| - 1], b[|b| - 1];
      assert b == front + [last];
      BreakSaysNothing(last);
      KeptAppend(front, [last], items);
      KeptAppend(front, [last + "\n"], items);
      assert Bare(last + "\n") == last;
    }
  }

  lemma {:induction false} AddedAreListed(items: Items, all: Items, m: seq<string>)
    requires Good(items) && AllListed(items, all)
    ensures Kept(Added(items, m), all) == []
  {
    if items != [] {
      forall i | 0 <= i < |items[1..]| ensures Listed(all, items[1..][i].key) { assert items[1..][i] == items[i + 1]; }
      AddedAreListed(items[1..], all, m);
      if items[0].value.Some? && !SeenIn(m, items[0].key) {
        SettingReadsBack(items[0].key, items[0].value.value);
        assert Added(items, m)[1..] == Added(items[1..], m);
      } else {
        assert Added(items, m) == Added(items[1..], m);
      }
    }
  }

  /** Every line of the body that sets no listed key stays, word for word and in order. */
  lemma NewBodyKeeps(m: seq<string>, items: Items, all: Items)
    requires Good(items) && AllListed(items, all)
    ensures Kept(NewBody(m, items), all) == Kept(m, all)
  {
    EditKeeps(m, items, all);
    TerminateKeeps(Edit(m, items), all);
    AddedAreListed(items, all, m);
    KeptAppend(Terminate(Edit(m, items)), Added(items, m), all);
  }

  lemma PairsHold(m: seq<string>, items: Items)
    requires Good(items)
    ensures var ps := EditPairs(Pairs(m), items) + AddedPairs(items, m);
            Holds(Some(ps), items) && Unlisted(ps, items) == Unlisted(Pairs(m), items)
  {
    var added := AddedPairs(items, m);
    EditKeepsUnlisted(Pairs(m), items);
    forall p | p in added ensures Listed(items, p.key) {
      var i :| 0 <= i < |items| && items[i] == Item(p.key, Some(p.value));
    }
    UnlistedAppend(EditPairs(Pairs(m), items), added, items);
    forall i | 0 <= i < |items| ensures HoldsItem(Some(EditPairs(Pairs(m), items) + added), items[i]) {
      ItemHolds(m, items, i);
    }
  }

  lemma ItemHolds(m: seq<string>, items: Items, i: nat)
    requires Good(items) && i < |items|
    ensures HoldsItem(Some(EditPairs(Pairs(m), items) + AddedPairs(items, m)), items[i])
  {
    var it, a, b := items[i], EditPairs(Pairs(m), items), AddedPairs(items, m);
    forall p: Pair | p in a + b && p.key == it.key ensures it.value == Some(p.value) {
      if p in a {
        EditSays(Pairs(m), items, p);
      } else {
        var j :| 0 <= j < |items| && items[j] == Item(p.key, Some(p.value));
      }
    }
    if it.value.Some? {
      var p := Pair(it.key, it.value.value);
      SeenIff(m, it.key);
      if q :| q in Pairs(m) && q.key == it.key {
        EditKeepsKey(Pairs(m), items, q);
      } else {
        assert items[i] == Item(p.key, Some(p.value));
      }
      assert p in a + b;
    }
  }
}
