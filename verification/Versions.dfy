/** Versions, version constraints and the preference between candidate elements
    (exordos_core/repo/builders/element.py). */
module Versions {
  import opened Wrappers

  /** A parsed version: release numbers, whether there is no suffix, and the suffix. */
  datatype VersionKey = VersionKey(major: nat, minor: nat, patch: nat, release: bool, suffix: string)

  /** A version string, with its parse when it has the expected format. */
  datatype Version = Version(text: string, key: Option<VersionKey>)

  /** The operators of a dependency constraint. */
  datatype Constraint = Constraint(
    eq: Option<Version>, gt: Option<Version>, ge: Option<Version>, lt: Option<Version>, le: Option<Version>)

  /** A constraint that names a version of the wrong format. */
  datatype FormatError = BadVersion

  // ------------------------------------------------------------------
  // Orders
  // ------------------------------------------------------------------

  /** Lexicographic order on strings. */
  predicate StringLess(a: string, b: string)
  {
    b != [] && (a == [] || a[0] < b[0] || (a[0] == b[0] && StringLess(a[1..], b[1..])))
  }

  lemma {:induction false} StringTotal(a: string, b: string)
    ensures StringLess(a, b) || a == b || StringLess(b, a)
    ensures !(StringLess(a, b) && StringLess(b, a)) && !StringLess(a, a)
  {
    if a != [] && b != [] && a[0] == b[0] {
      StringTotal(a[1..], b[1..]);
      assert a == [a[0]] + a[1..] && b == [b[0]] + b[1..];
    }
    if a != [] { StringTotal(a[1..], a[1..]); }
  }

  lemma {:induction false} StringTransitive(a: string, b: string, c: string)
    requires StringLess(a, b) && StringLess(b, c)
    ensures StringLess(a, c)
  {
    if a != [] && a[0] == b[0] == c[0] { StringTransitive(a[1..], b[1..], c[1..]); }
  }

  /** One text is less if it goes on below the other, or ends, behind what they have in common. */
  lemma {:induction false} StringLessIff(a: string, b: string)
    ensures StringLess(a, b) <==>
            exists n :: 0 <= n <= |a| && n < |b| && a[..n] == b[..n] && (n == |a| || a[n] < b[n])
  {
    if a != [] && b != [] && a[0] == b[0] {
      StringLessIff(a[1..], b[1..]);
      if n :| 0 <= n <= |a| && n < |b| && a[..n] == b[..n] && (n == |a| || a[n] < b[n]) {
        assert n > 0 && a[1..][..n - 1] == a[..n][1..] && b[1..][..n - 1] == b[..n][1..];
      }
      if n :| 0 <= n <= |a[1..]| && n < |b[1..]| && a[1..][..n] == b[1..][..n] &&
              (n == |a[1..]| || a[1..][n] < b[1..][n]) {
        assert a[..n + 1] == [a[0]] + a[1..][..n] && b[..n + 1] == [b[0]] + b[1..][..n];
      }
    } else {
      assert a[..0] == b[..0];
      forall n | 0 < n <= |a| && n < |b| ensures a[..n] != b[..n] {
        assert a[..n][0] == a[0] && b[..n][0] == b[0];
      }
    }
  }

  /** The order of the tuples (major, minor, patch, is_release, suffix). */
  predicate KeyLess(a: VersionKey, b: VersionKey)
  {
    if a.major != b.major then a.major < b.major
    else if a.minor != b.minor then a.minor < b.minor
    else if a.patch != b.patch then a.patch < b.patch
    else if a.release != b.release then b.release
    else StringLess(a.suffix, b.suffix)
  }

  lemma KeyTotal(a: VersionKey, b: VersionKey)
    ensures KeyLess(a, b) || a == b || KeyLess(b, a)
    ensures !(KeyLess(a, b) && KeyLess(b, a))
  {
    StringTotal(a.suffix, b.suffix);
  }

  predicate SameNumbers(a: VersionKey, b: VersionKey)
  {
    a.major == b.major && a.minor == b.minor && a.patch == b.patch
  }

  /** The numbers are less, compared from the left. */
  predicate FewerNumbers(a: VersionKey, b: VersionKey)
  {
    || a.major < b.major
    || (a.major == b.major && a.minor < b.minor)
    || (a.major == b.major && a.minor == b.minor && a.patch < b.patch)
  }

  /** Less means: smaller numbers, whatever the suffix; with the same numbers, a development
      version before the release; among development versions, the smaller suffix. */
  lemma KeyLessMeans(a: VersionKey, b: VersionKey)
    ensures FewerNumbers(a, b) ==> KeyLess(a, b) && !KeyLess(b, a)
    ensures SameNumbers(a, b) && !a.release && b.release ==> KeyLess(a, b) && !KeyLess(b, a)
    ensures SameNumbers(a, b) && a.release == b.release ==> (KeyLess(a, b) <==> StringLess(a.suffix, b.suffix))
    ensures FewerNumbers(a, b) || SameNumbers(a, b) || FewerNumbers(b, a)
  {
    KeyTotal(a, b);
  }

  // ------------------------------------------------------------------
  // Constraints
  // ------------------------------------------------------------------

  /** One comparison of a constraint: absent, unreadable, or a test. */
  function Compare(bound: Option<Version>, holds: VersionKey -> bool): Result<bool, FormatError>
  {
    if bound.None? then Success(true)
    else if bound.value.key.None? then Failure(BadVersion)
    else Success(holds(bound.value.key.value))
  }

  function Both(a: Result<bool, FormatError>, b: Result<bool, FormatError>): Result<bool, FormatError>
  {
    if a == Success(true) then b else a
  }

  /** Equality is on the text and excludes every other test; otherwise a version of the
      wrong format never matches, and the comparisons are made in turn. */
  function Matches(v: Version, c: Constraint): Result<bool, FormatError>
  {
    if c.eq.Some? then Success(v.text == c.eq.value.text)
    else if v.key.None? then Success(false)
    else
      var k := v.key.value;
      Both(Compare(c.gt, b => KeyLess(b, k)),
      Both(Compare(c.ge, b => !KeyLess(k, b)),
      Both(Compare(c.lt, b => KeyLess(k, b)),
           Compare(c.le, b => !KeyLess(b, k)))))
  }

  /** A readable version matches readable bounds exactly when it lies within all of them. */
  lemma MatchesIsInterval(v: Version, c: Constraint)
    requires c.eq.None? && v.key.Some?
    requires forall b :: b in [c.gt, c.ge, c.lt, c.le] && b.Some? ==> b.value.key.Some?
    ensures Matches(v, c) == Success(
      (c.gt.Some? ==> KeyLess(c.gt.value.key.value, v.key.value)) &&
      (c.ge.Some? ==> c.ge.value.key.value == v.key.value || KeyLess(c.ge.value.key.value, v.key.value)) &&
      (c.lt.Some? ==> KeyLess(v.key.value, c.lt.value.key.value)) &&
      (c.le.Some? ==> v.key.value == c.le.value.key.value || KeyLess(v.key.value, c.le.value.key.value)))
  {
    var k := v.key.value;
    assert forall i :: 0 <= i < 4 ==> [c.gt, c.ge, c.lt, c.le][i] in [c.gt, c.ge, c.lt, c.le];
    assert [c.gt, c.ge, c.lt, c.le][0] == c.gt && [c.gt, c.ge, c.lt, c.le][1] == c.ge;
    assert [c.gt, c.ge, c.lt, c.le][2] == c.lt && [c.gt, c.ge, c.lt, c.le][3] == c.le;
    if c.ge.Some? { KeyTotal(c.ge.value.key.value, k); }
    if c.le.Some? { KeyTotal(c.le.value.key.value, k); }
  }

  // ------------------------------------------------------------------
  // Preference
  // ------------------------------------------------------------------

  /** What candidates are sorted by: installed ones first, then repository priority, then
      releases, then the greater numbers, then the smaller suffix. */
  datatype Rank = Rank(installed: bool, priority: int, key: VersionKey)

  predicate Better(a: Rank, b: Rank)
  {
    if a.installed != b.installed then a.installed
    else if a.priority != b.priority then a.priority > b.priority
    else if a.key.release != b.key.release then a.key.release
    else if a.key.major != b.key.major then a.key.major > b.key.major
    else if a.key.minor != b.key.minor then a.key.minor > b.key.minor
    else if a.key.patch != b.key.patch then a.key.patch > b.key.patch
    else StringLess(a.key.suffix, b.key.suffix)
  }

  lemma BetterTotal(a: Rank, b: Rank)
    ensures Better(a, b) || a == b || Better(b, a)
    ensures !(Better(a, b) && Better(b, a))
  {
    StringTotal(a.key.suffix, b.key.suffix);
  }

  lemma BetterTransitive(a: Rank, b: Rank, c: Rank)
    requires Better(a, b) && Better(b, c)
    ensures Better(a, c)
  {
    if a.key.suffix != c.key.suffix && StringLess(a.key.suffix, b.key.suffix) &&
       StringLess(b.key.suffix, c.key.suffix) {
      StringTransitive(a.key.suffix, b.key.suffix, c.key.suffix);
    } else if StringLess(a.key.suffix, b.key.suffix) && StringLess(b.key.suffix, c.key.suffix) {
      StringTransitive(a.key.suffix, b.key.suffix, c.key.suffix);
    }
  }

  /** What is preferred, in this order: an installed element, the higher priority of its
      repository, a release, the greater numbers. */
  lemma BetterMeans(a: Rank, b: Rank)
    ensures a.installed && !b.installed ==> Better(a, b)
    ensures a.installed == b.installed && a.priority > b.priority ==> Better(a, b)
    ensures a.installed == b.installed && a.priority == b.priority ==>
              (a.key.release && !b.key.release ==> Better(a, b)) &&
              (a.key.release == b.key.release && FewerNumbers(b.key, a.key) ==> Better(a, b))
    ensures Better(a, b) ==> !Better(b, a)
  {
    BetterTotal(a, b);
  }

  /** Among candidates alike in installation, priority and being a release, the better one
      is the greater version, unless both are development versions of the same numbers:
      there the smaller suffix is preferred. */
  lemma BetterIsGreaterExceptSuffix(a: Rank, b: Rank)
    requires a.installed == b.installed && a.priority == b.priority && a.key.release == b.key.release
    requires Better(a, b)
    ensures KeyLess(b.key, a.key) <==>
            (a.key.major, a.key.minor, a.key.patch) != (b.key.major, b.key.minor, b.key.patch)
  {
    StringTotal(a.key.suffix, b.key.suffix);
  }

  /** Of two development versions, the older one is preferred. */
  lemma OlderCandidatePreferred()
    ensures var a, b := VersionKey(1, 0, 0, false, "rc1"), VersionKey(1, 0, 0, false, "rc2");
            KeyLess(a, b) && Better(Rank(false, 0, a), Rank(false, 0, b))
  {
    assert StringLess("1", "2");
    assert "rc1"[1..] == "c1" && "rc2"[1..] == "c2" && "c1"[1..] == "1" && "c2"[1..] == "2";
    assert StringLess("c1", "c2");
    assert StringLess("rc1", "rc2");
  }
}
