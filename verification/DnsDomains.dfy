/** The suffix-minimal list of public domains (exordos_core/dns_sync/service.py). */
module DnsDomains {
  import IniText

  // ------------------------------------------------------------------
  // Names
  // ------------------------------------------------------------------

  function IndexOfDot(s: string): (k: nat)
    ensures k <= |s|
    ensures forall i :: 0 <= i < k ==> s[i] != '.'
    ensures k < |s| ==> s[k] == '.'
  {
    if s == "" || s[0] == '.' then 0 else IndexOfDot(s[1..]) + 1
  }

  /** The labels of a name. */
  function Split(s: string): (parts: seq<string>)
    ensures |parts| >= 1
    decreases |s|
  {
    var k := IndexOfDot(s);
    if k == |s| then [s] else [s[..k]] + Split(s[k + 1..])
  }

  function Join(parts: seq<string>): string
    requires |parts| >= 1
  {
    if |parts| == 1 then parts[0] else parts[0] + "." + Join(parts[1..])
  }

  /** The suffix of `d` behind one of its dots is `n`. */
  predicate Below(d: string, n: string)
  {
    |n| < |d| && d[|d| - |n| - 1] == '.' && d[|d| - |n|..] == n
  }

  predicate Covers(n: string, d: string)
  {
    d == n || Below(d, n)
  }

  lemma JoinCons(first: string, parts: seq<string>)
    requires |parts| >= 1
    ensures Join([first] + parts) == first + "." + Join(parts)
  {
    assert ([first] + parts)[1..] == parts;
  }

  lemma {:induction false} JoinSplit(s: string)
    ensures Join(Split(s)) == s
    decreases |s|
  {
    var k := IndexOfDot(s);
    if k < |s| {
      var rest := s[k + 1..];
      assert Split(s) == [s[..k]] + Split(rest);
      JoinSplit(rest);
      JoinCons(s[..k], Split(rest));
      assert s[..k] + "." + rest == s;
    }
  }

  lemma SplitTail(s: string, i: nat)
    requires IndexOfDot(s) < |s| && 1 <= i <= |Split(s[IndexOfDot(s) + 1..])| + 1
    ensures |Split(s)| == |Split(s[IndexOfDot(s) + 1..])| + 1
    ensures Split(s)[i..] == Split(s[IndexOfDot(s) + 1..])[i - 1..]
  {
  }

  /** Leaving out the first few labels gives a suffix behind a dot. */
  lemma {:induction false} LabelsBelow(s: string, i: nat)
    requires 1 <= i < |Split(s)|
    ensures Below(s, Join(Split(s)[i..]))
    decreases |s|
  {
    var rest := s[IndexOfDot(s) + 1..];
    SplitTail(s, i);
    if i == 1 {
      JoinSplit(rest);
      assert Split(rest)[0..] == Split(rest);
    } else {
      LabelsBelow(rest, i - 1);
      BelowStep(s, rest, Join(Split(rest)[i - 1..]));
    }
  }

  /** Every suffix behind a dot leaves out some labels. */
  lemma {:induction false} BelowLabels(s: string, n: string) returns (i: nat)
    requires Below(s, n)
    ensures 1 <= i < |Split(s)| && Join(Split(s)[i..]) == n
    decreases |s|
  {
    var k := IndexOfDot(s);
    var rest := s[k + 1..];
    if |s| - |n| - 1 == k {
      i := 1;
      JoinSplit(rest);
      assert Split(rest)[0..] == Split(rest);
    } else {
      assert |s| - |n| - 1 > k;
      assert rest[|rest| - |n|..] == n;
      var j := BelowLabels(rest, n);
      i := j + 1;
    }
    SplitTail(s, i);
  }

  lemma BelowStep(s: string, t: string, n: string)
    requires Below(s, t) && Below(t, n)
    ensures Below(s, n)
  {
    var base := |s| - |t|;
    assert forall j :: 0 <= j < |t| ==> s[base + j] == s[base..][j];
    assert s[|s| - |n|..] == t[|t| - |n|..];
    assert s[|s| - |n| - 1] == t[|t| - |n| - 1];
  }

  // ------------------------------------------------------------------
  // The reduction
  // ------------------------------------------------------------------

  /** One of the wider domains is listed too. */
  predicate HasParent(name: string, names: seq<string>)
  {
    exists i :: 1 <= i < |Split(name)| && Join(Split(name)[i..]) in names
  }

  lemma ParentIff(name: string, names: seq<string>)
    ensures HasParent(name, names) <==> exists n :: n in names && Below(name, n)
  {
    if HasParent(name, names) {
      var i :| 1 <= i < |Split(name)| && Join(Split(name)[i..]) in names;
      LabelsBelow(name, i);
    }
    if n :| n in names && Below(name, n) {
      var i := BelowLabels(name, n);
    }
  }

  function KeepFrom(candidates: seq<string>, names: seq<string>): (kept: seq<string>)
    ensures forall n :: n in kept <==> n in candidates && n != "" && !HasParent(n, names)
  {
    if candidates == [] then []
    else (if candidates[0] != "" && !HasParent(candidates[0], names) then [candidates[0]] else [])
         + KeepFrom(candidates[1..], names)
  }

  /** The names that are written, in the order they are listed. */
  function Reduced(names: seq<string>): seq<string>
  {
    KeepFrom(names, names)
  }

  /** A listed name, as it is normalised, does not end in a dot. */
  ghost predicate Normal(n: string)
  {
    n == "" || n[|n| - 1] != '.'
  }

  /** Some kept name covers every listed one. */
  lemma {:induction false} KeptAbove(names: seq<string>, n: string) returns (m: string)
    requires (forall x :: x in names ==> Normal(x)) && n in names && n != ""
    ensures m in Reduced(names) && Covers(m, n)
    decreases |n|
  {
    ParentIff(n, names);
    if HasParent(n, names) {
      var p :| p in names && Below(n, p);
      assert p != "";
      m := KeptAbove(names, p);
      if m != p { BelowStep(n, p, m); }
    } else {
      m := n;
    }
  }

  /** The reduction is a cover: the kept names match exactly what the listed ones do. */
  lemma ReducedCovers(names: seq<string>, d: string)
    requires forall x :: x in names ==> Normal(x)
    ensures (exists n :: n in Reduced(names) && Covers(n, d)) <==>
            (exists n :: n in names && n != "" && Covers(n, d))
  {
    if n :| n in names && n != "" && Covers(n, d) {
      var m := KeptAbove(names, n);
      if m != n && d != n { BelowStep(d, n, m); }
      assert Covers(m, d);
    }
  }

  /** And a minimal one: no kept name is below another. */
  lemma ReducedIsMinimal(names: seq<string>, n: string, m: string)
    requires n in Reduced(names) && m in Reduced(names)
    ensures !Below(n, m)
  {
    ParentIff(n, names);
  }

  /** Leaving out any kept name would lose that name: the cover is the smallest one. */
  lemma NoneIsSpare(names: seq<string>, n: string)
    requires n in Reduced(names)
    ensures forall m :: m in Reduced(names) && m != n ==> !Covers(m, n)
  {
    forall m | m in Reduced(names) && m != n ensures !Covers(m, n) {
      ReducedIsMinimal(names, n, m);
    }
  }

  // ------------------------------------------------------------------
  // From the stored names to the written ones
  // ------------------------------------------------------------------

  /** Drops dots at the end. */
  function StripDots(s: string): (r: string)
    ensures r <= s && (r == "" || r[|r| - 1] != '.') && forall i :: |r| <= i < |s| ==> s[i] == '.'
  {
    if s == "" || s[|s| - 1] != '.' then s else StripDots(s[..|s| - 1])
  }

  function LowerChar(c: char): char
  {
    if 'A' <= c <= 'Z' then ((c as int) + 32) as char else c
  }

  function Lower(s: string): (r: string)
    ensures |r| == |s|
    ensures forall i :: 0 <= i < |s| ==>
              r[i] == if 'A' <= s[i] <= 'Z' then s[i] - 'A' + 'a' else s[i]
  {
    seq(|s|, i requires 0 <= i < |s| => LowerChar(s[i]))
  }

  function Normalised(stored: string): string
  {
    Lower(StripDots(IniText.Strip(stored)))
  }

  lemma {:induction false} StripDotsIsNormal(s: string)
    ensures Normal(Lower(StripDots(s)))
  {
    if s != "" && s[|s| - 1] == '.' { StripDotsIsNormal(s[..|s| - 1]); }
  }

  /** For any stored names and any list of their normalised forms, what is written matches
      a domain exactly when some stored name does, the empty ones aside. */
  lemma WrittenCovers(stored: seq<string>, names: seq<string>, d: string)
    requires forall n :: n in names <==> exists s :: s in stored && n == Normalised(s)
    ensures (exists n :: n in Reduced(names) && Covers(n, d)) <==>
            (exists s :: s in stored && Normalised(s) != "" && Covers(Normalised(s), d))
  {
    forall n | n in names ensures Normal(n) {
      var s :| s in stored && n == Normalised(s);
      StripDotsIsNormal(IniText.Strip(s));
    }
    ReducedCovers(names, d);
  }
}
