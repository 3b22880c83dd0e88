/** Lines, blanks and `key = value` parts of an INI text, as the editor of agent
    configurations reads them (exordos_core/cmd/bootstrap.py). */
module IniText {
  predicate IsSpace(c: char)
  {
    c == ' ' || c == '\t' || c == '\n' || c == '\r'
  }

  function LStrip(s: string): (r: string)
    ensures r == "" || !IsSpace(r[0])
    ensures |r| <= |s|
  {
    if s == "" || !IsSpace(s[0]) then s else LStrip(s[1..])
  }

  function RStrip(s: string): (r: string)
    ensures r == "" || !IsSpace(r[|r| - 1])
    ensures r <= s
  {
    if s == "" || !IsSpace(s[|s| - 1]) then s else RStrip(s[..|s| - 1])
  }

  function Strip(s: string): string
  {
    LStrip(RStrip(s))
  }

  lemma {:induction false} LStripMeans(s: string) returns (i: nat)
    ensures i <= |s| && LStrip(s) == s[i..] && forall k :: 0 <= k < i ==> IsSpace(s[k])
  {
    i := 0;
    if s != "" && IsSpace(s[0]) {
      var j := LStripMeans(s[1..]);
      i := j + 1;
    }
  }

  lemma {:induction false} RStripMeans(s: string) returns (j: nat)
    ensures j <= |s| && RStrip(s) == s[..j] && forall k :: j <= k < |s| ==> IsSpace(s[k])
  {
    j := |s|;
    if s != "" && IsSpace(s[|s| - 1]) {
      j := RStripMeans(s[..|s| - 1]);
      assert s[..|s| - 1][..j] == s[..j];
    }
  }

  /** Stripping cuts white space off both ends, and all of it. */
  lemma StripMeans(s: string) returns (i: nat, j: nat)
    ensures i <= j <= |s| && Strip(s) == s[i..j]
    ensures forall k :: 0 <= k < i || j <= k < |s| ==> IsSpace(s[k])
    ensures i < j ==> !IsSpace(s[i]) && !IsSpace(s[j - 1])
  {
    j := RStripMeans(s);
    i := LStripMeans(s[..j]);
    assert s[..j][i..] == s[i..j];
  }

  lemma StripRight(s: string, c: char)
    requires IsSpace(c)
    ensures Strip(s + [c]) == Strip(s)
  {
    assert (s + [c])[..|s|] == s;
  }

  lemma {:induction false} RStripLeft(c: char, s: string)
    requires IsSpace(c)
    ensures RStrip([c] + s) == if RStrip(s) == "" then "" else [c] + RStrip(s)
    decreases |s|
  {
    var t := [c] + s;
    if s == "" {
      assert t == [c] && t[..0] == "";
    } else if IsSpace(s[|s| - 1]) {
      RStripLeft(c, s[..|s| - 1]);
      assert t[..|t| - 1] == [c] + s[..|s| - 1];
    }
  }

  lemma StripLeft(c: char, s: string)
    requires IsSpace(c)
    ensures Strip([c] + s) == Strip(s)
  {
    RStripLeft(c, s);
    if RStrip(s) != "" { assert ([c] + RStrip(s))[1..] == RStrip(s); }
  }

  // ------------------------------------------------------------------
  // Lines
  // ------------------------------------------------------------------

  predicate Ends(line: string)
  {
    line != "" && line[|line| - 1] == '\n'
  }

  function FirstBreak(s: string): (k: nat)
    ensures k <= |s|
    ensures forall i :: 0 <= i < k ==> s[i] != '\n'
    ensures k < |s| ==> s[k] == '\n'
  {
    if s == "" || s[0] == '\n' then 0 else FirstBreak(s[1..]) + 1
  }

  /** The lines of a text, each with its line break. */
  function Lines(s: string): (lines: seq<string>)
    decreases |s|
  {
    if s == "" then []
    else
      var k := FirstBreak(s);
      if k == |s| then [s] else [s[..k + 1]] + Lines(s[k + 1..])
  }

  function Concat(lines: seq<string>): string
  {
    if lines == [] then "" else lines[0] + Concat(lines[1..])
  }

  /** One line: no break before its end. */
  predicate IsLine(line: string)
  {
    line != "" && forall i :: 0 <= i < |line| - 1 ==> line[i] != '\n'
  }

  /** A list of lines of which all but the last are terminated. */
  predicate AreLines(lines: seq<string>)
  {
    (forall i :: 0 <= i < |lines| ==> IsLine(lines[i])) && (forall i :: 0 <= i < |lines| - 1 ==> Ends(lines[i]))
  }

  lemma LinesCons(a: string, rest: string)
    requires IsLine(a) && Ends(a)
    ensures Lines(a + rest) == [a] + Lines(rest)
  {
    var s := a + rest;
    assert forall i :: 0 <= i < |a| ==> s[i] == a[i];
    assert FirstBreak(s) == |a| - 1;
    assert s[..|a|] == a && s[|a|..] == rest;
  }

  lemma LinesLast(a: string)
    requires IsLine(a)
    ensures Lines(a) == [a]
  {
    if Ends(a) {
      assert FirstBreak(a) == |a| - 1;
      assert a[..|a|] == a && a[|a|..] == "";
    } else {
      assert FirstBreak(a) == |a|;
    }
  }

  /** The first line of a text that has a terminated one. */
  lemma FirstLine(s: string) returns (a: string, rest: string)
    requires FirstBreak(s) < |s|
    ensures s == a + rest && IsLine(a) && Ends(a) && Lines(s) == [a] + Lines(rest) && |rest| < |s|
    ensures Ends(s) ==> rest == "" || Ends(rest)
  {
    var k := FirstBreak(s);
    a, rest := s[..k + 1], s[k + 1..];
  }

  lemma {:induction false} LinesAreLines(s: string)
    ensures AreLines(Lines(s)) && Concat(Lines(s)) == s
    decreases |s|
  {
    if s == "" {
    } else if FirstBreak(s) == |s| {
      assert [s][1..] == [] && Concat([s]) == s + Concat([]);
      assert Concat([s]) == s;
    } else {
      var a, rest := FirstLine(s);
      LinesAreLines(rest);
    }
  }

  lemma {:induction false} LinesOfConcat(lines: seq<string>)
    requires AreLines(lines)
    ensures Lines(Concat(lines)) == lines
  {
    if |lines| == 1 {
      assert IsLine(lines[0]) && lines[1..] == [];
      LinesLast(lines[0]);
      assert lines == [lines[0]] && Concat(lines) == lines[0] + Concat([]);
      assert Concat(lines) == lines[0];
    } else if lines != [] {
      assert IsLine(lines[0]) && Ends(lines[0]);
      LinesOfConcat(lines[1..]);
      LinesCons(lines[0], Concat(lines[1..]));
    }
  }

  lemma {:induction false} ConcatAppend(a: seq<string>, b: seq<string>)
    ensures Concat(a + b) == Concat(a) + Concat(b)
  {
    if a == [] {
      assert a + b == b;
    } else {
      assert (a + b)[1..] == a[1..] + b;
      ConcatAppend(a[1..], b);
    }
  }

  /** Every line of a terminated text ends. */
  lemma {:induction false} TerminatedLinesEnd(s: string)
    requires s == "" || Ends(s)
    ensures forall line :: line in Lines(s) ==> IsLine(line) && Ends(line)
    decreases |s|
  {
    if s != "" {
      assert FirstBreak(s) < |s|;
      var a, rest := FirstLine(s);
      TerminatedLinesEnd(rest);
    }
  }

  lemma LinesOfTwo(a: seq<string>, b: seq<string>)
    requires AreLines(a) && AreLines(b) && forall line :: line in a ==> Ends(line)
    ensures AreLines(a + b) && Lines(Concat(a) + Concat(b)) == a + b
  {
    forall i | 0 <= i < |a + b| ensures IsLine((a + b)[i]) && (i < |a| ==> Ends((a + b)[i])) {
      if i < |a| { assert a[i] in a; }
    }
    ConcatAppend(a, b);
    LinesOfConcat(a + b);
  }

  /** A terminated text keeps its lines when more is appended. */
  lemma LinesAppend(s: string, t: string)
    requires s == "" || Ends(s)
    ensures Lines(s + t) == Lines(s) + Lines(t)
  {
    LinesAreLines(s);
    LinesAreLines(t);
    TerminatedLinesEnd(s);
    LinesOfTwo(Lines(s), Lines(t));
  }

  // ------------------------------------------------------------------
  // Keys and values
  // ------------------------------------------------------------------

  function IndexOfEq(s: string): (k: nat)
    ensures k <= |s|
    ensures forall i :: 0 <= i < k ==> s[i] != '='
    ensures k < |s| ==> s[k] == '='
  {
    if s == "" || s[0] == '=' then 0 else IndexOfEq(s[1..]) + 1
  }

  predicate HasEq(line: string)
  {
    IndexOfEq(line) < |line|
  }

  function KeyIn(line: string): string
  {
    Strip(line[..IndexOfEq(line)])
  }

  function ValueIn(line: string): string
    requires HasEq(line)
  {
    Strip(line[IndexOfEq(line) + 1..])
  }

  function Setting(key: string, value: string): string
  {
    key + " = " + value + "\n"
  }

  predicate GoodKey(key: string)
  {
    Strip(key) == key && (forall i :: 0 <= i < |key| ==> key[i] != '=' && key[i] != '\n') && !("[" <= key)
  }

  predicate GoodValue(value: string)
  {
    Strip(value) == value && forall i :: 0 <= i < |value| ==> value[i] != '\n'
  }

  /** A setting is read back as it was written. */
  lemma SettingReadsBack(key: string, value: string)
    requires GoodKey(key) && GoodValue(value)
    ensures HasEq(Setting(key, value)) && KeyIn(Setting(key, value)) == key && ValueIn(Setting(key, value)) == value
  {
    var line := Setting(key, value);
    assert line[|key| + 1] == '=';
    assert forall i :: 0 <= i < |key| ==> line[i] == key[i];
    assert line[|key|] == ' ';
    assert IndexOfEq(line) == |key| + 1;
    assert line[..|key| + 1] == key + " ";
    StripRight(key, ' ');
    assert line == (key + " =") + ([' '] + (value + ['\n']));
    assert line[|key| + 2..] == [' '] + (value + ['\n']);
    StripLeft(' ', value + ['\n']);
    StripRight(value, '\n');
  }

  lemma SettingIsLine(key: string, value: string)
    requires GoodKey(key) && GoodValue(value)
    ensures IsLine(Setting(key, value)) && Ends(Setting(key, value))
  {
    var line := Setting(key, value);
    forall i | 0 <= i < |line| - 1 ensures line[i] != '\n' {
      if i < |key| { assert line[i] == key[i]; } else if i >= |key| + 3 { assert line[i] == value[i - |key| - 3]; }
    }
  }

  // ------------------------------------------------------------------
  // Heads and blanks
  // ------------------------------------------------------------------

  predicate IsHead(line: string)
  {
    "[" <= LStrip(line)
  }

  predicate IsBlank(line: string)
  {
    Strip(line) == ""
  }

  function Header(section: string): string
  {
    "[" + section + "]"
  }

  lemma {:induction false} RStripKeepsHead(s: string)
    ensures LStrip(RStrip(s)) <= LStrip(s)
    ensures LStrip(s) == "" || LStrip(RStrip(s)) != ""
    decreases |s|
  {
    if s != "" && IsSpace(s[|s| - 1]) {
      var t := s[..|s| - 1];
      RStripKeepsHead(t);
      assert s == t + [s[|s| - 1]];
      LStripRight(t, s[|s| - 1]);
    }
  }

  lemma {:induction false} LStripRight(s: string, c: char)
    ensures LStrip(s + [c]) == if LStrip(s) == "" then LStrip([c]) else LStrip(s) + [c]
  {
    if s == "" {
      assert s + [c] == [c];
    } else if IsSpace(s[0]) {
      assert (s + [c])[1..] == s[1..] + [c];
      LStripRight(s[1..], c);
    }
  }

  /** Whether a line opens a section shows in its stripped text. */
  lemma HeadIff(line: string)
    ensures IsHead(line) <==> "[" <= Strip(line)
  {
    RStripKeepsHead(line);
  }

  lemma BlankHasNoKey(line: string)
    requires IsBlank(line)
    ensures !HasEq(line) && !IsHead(line)
  {
    HeadIff(line);
    AllSpace(line);
    var k := IndexOfEq(line);
    assert k < |line| ==> IsSpace(line[k]);
  }

  lemma {:induction false} AllSpace(s: string)
    requires Strip(s) == ""
    ensures forall i :: 0 <= i < |s| ==> IsSpace(s[i])
    decreases |s|
  {
    if s != "" {
      if IsSpace(s[|s| - 1]) {
        AllSpace(s[..|s| - 1]);
      } else {
        LStripKeepsLast(s);
      }
    }
  }

  lemma {:induction false} LStripKeepsLast(s: string)
    requires s != "" && !IsSpace(s[|s| - 1])
    ensures LStrip(s) != ""
  {
    if IsSpace(s[0]) { LStripKeepsLast(s[1..]); }
  }

  /** A setting opens no section. */
  lemma SettingIsNoHead(key: string, value: string)
    requires GoodKey(key)
    ensures !IsHead(Setting(key, value))
  {
    var line := Setting(key, value);
    if key == "" {
      assert line[0] == ' ' && line[1] == '=';
      assert LStrip(line) == LStrip(line[1..]);
    } else {
      assert line[0] == key[0];
      assert LStrip(line) == line;
      assert "[" <= key <==> key[0] == '[';
    }
  }
}
