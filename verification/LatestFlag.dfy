/** The `latest` flag of repository elements: an index of the greatest stable version per
    repository and name, kept step by step while a repository is refreshed
    (exordos_core/repo/builders/repository.py). */
module LatestFlag {
  /** A version: its text, whether it parses and is no pre-release, and its place in the
      total preorder of releases. */
  datatype Version = Version(text: string, release: bool, rank: int)

  /** What a flag is kept for: one name in one repository. */
  datatype Product = Product(repository: int, name: string)

  datatype Row = Row(uuid: int, product: Product, version: Version, stable: bool, latest: bool, installed: bool)

  /** The table, in the order its rows are fetched. */
  type Rows = seq<Row>

  ghost predicate DistinctIds(rows: Rows)
  {
    forall i, j :: 0 <= i < j < |rows| ==> rows[i].uuid != rows[j].uuid
  }

  lemma SameId(rows: Rows, r: Row, q: Row)
    requires DistinctIds(rows) && r in rows && q in rows && r.uuid == q.uuid
    ensures r == q
  {
  }

  // ------------------------------------------------------------------
  // What the flag means
  // ------------------------------------------------------------------

  predicate StableOf(r: Row, p: Product)
  {
    r.product == p && r.stable
  }

  /** The stable rows of a product, in table order. */
  function Candidates(rows: Rows, p: Product): (s: Rows)
    ensures forall r :: r in s <==> r in rows && StableOf(r, p)
  {
    if rows == [] then [] else (if StableOf(rows[0], p) then [rows[0]] else []) + Candidates(rows[1..], p)
  }

  /** A flagged row is the greatest, and no other one is flagged. */
  ghost predicate Sound(s: Rows)
  {
    forall r, q :: r in s && q in s && r.latest ==> q.version.rank <= r.version.rank && (q.latest ==> q == r)
  }

  ghost predicate Correct(s: Rows)
  {
    Sound(s) && (s != [] ==> exists r :: r in s && r.latest)
  }

  // ------------------------------------------------------------------
  // The steps, on tables
  // ------------------------------------------------------------------

  /** The first of the greatest rows. */
  function Max(s: Rows): (g: nat)
    requires s != []
    ensures g < |s|
    ensures forall j :: 0 <= j < |s| ==> s[j].version.rank <= s[g].version.rank
    ensures forall j :: 0 <= j < g ==> s[j].version.rank < s[g].version.rank
  {
    if |s| == 1 then 0
    else
      var t := Max(s[1..]) + 1;
      if s[t].version.rank > s[0].version.rank then t else 0
  }

  /** Writes a whole row over the row with its id. */
  function Replace(rows: Rows, row: Row): (r: Rows)
    ensures |r| == |rows|
    ensures forall i :: 0 <= i < |r| ==> r[i] == if rows[i].uuid == row.uuid then row else rows[i]
  {
    if rows == [] then [] else [if rows[0].uuid == row.uuid then row else rows[0]] + Replace(rows[1..], row)
  }

  function Without(rows: Rows, uuid: int): (s: Rows)
    ensures forall r :: r in s <==> r in rows && r.uuid != uuid
  {
    if rows == [] then [] else (if rows[0].uuid != uuid then [rows[0]] else []) + Without(rows[1..], uuid)
  }

  /** Makes `e` the only flagged row of its product. */
  function FlagOnly(rows: Rows, e: Row): (r: Rows)
    ensures |r| == |rows|
    ensures forall i :: 0 <= i < |r| ==>
              r[i] == if rows[i].product == e.product then rows[i].(latest := rows[i].uuid == e.uuid) else rows[i]
  {
    if rows == [] then []
    else [if rows[0].product == e.product then rows[0].(latest := rows[0].uuid == e.uuid) else rows[0]]
         + FlagOnly(rows[1..], e)
  }

  /** A new row takes the flag over if it is the greatest stable one. */
  function Announce(rows: Rows, e: Row): Rows
    requires e in rows
  {
    if !e.stable then rows
    else
      var s := Candidates(rows, e.product);
      assert e in s;
      if s[Max(s)].uuid != e.uuid then rows else FlagOnly(rows, e)
  }

  function AddAll(rows: Rows, news: seq<Row>): Rows
    decreases |news|
  {
    if news == [] then rows
    else
      assert news[0] in rows + [news[0]];
      AddAll(Announce(rows + [news[0]], news[0]), news[1..])
  }

  /** Flags the greatest of a product's stable rows. */
  function Promoted(s: Rows): Rows
  {
    if s == [] then s else Replace(s, s[Max(s)].(latest := true))
  }

  function Promote(rows: Rows, p: Product): Rows
  {
    var s := Candidates(rows, p);
    if s == [] then rows else Replace(rows, s[Max(s)].(latest := true))
  }

  /** A stale element leaves the catalogue: an installed one is kept without flags, any
      other is deleted. Everything is decided on the copy fetched before the loop. */
  function TakeOut(rows: Rows, copy: Row): Rows
  {
    if !copy.installed then Without(rows, copy.uuid)
    else if copy.stable || copy.latest then Replace(rows, copy.(stable := false, latest := false))
    else rows
  }

  predicate Flagged(copy: Row, p: Product)
  {
    StableOf(copy, p) && copy.latest
  }

  function Process(rows: Rows, copy: Row): Rows
  {
    if Flagged(copy, copy.product) then Promote(TakeOut(rows, copy), copy.product) else TakeOut(rows, copy)
  }

  function ProcessAll(rows: Rows, copies: seq<Row>): Rows
    decreases |copies|
  {
    if copies == [] then rows else ProcessAll(Process(rows, copies[0]), copies[1..])
  }

  // ------------------------------------------------------------------
  // The steps, seen from one product
  // ------------------------------------------------------------------

  lemma CandidatesCons(h: Row, t: Rows, p: Product)
    ensures Candidates([h] + t, p) == if StableOf(h, p) then [h] + Candidates(t, p) else Candidates(t, p)
  {
    assert ([h] + t)[1..] == t;
  }

  lemma WithoutCons(h: Row, t: Rows, uuid: int)
    ensures Without([h] + t, uuid) == if h.uuid != uuid then [h] + Without(t, uuid) else Without(t, uuid)
  {
    assert ([h] + t)[1..] == t;
  }

  lemma {:induction false} CandidatesWithout(rows: Rows, uuid: int, p: Product)
    ensures Candidates(Without(rows, uuid), p) == Without(Candidates(rows, p), uuid)
  {
    if rows != [] {
      var h, t := rows[0], rows[1..];
      assert rows == [h] + t;
      CandidatesWithout(t, uuid, p);
      WithoutCons(h, t, uuid);
      CandidatesCons(h, t, p);
      CandidatesCons(h, Without(t, uuid), p);
      WithoutCons(h, Candidates(t, p), uuid);
    }
  }

  lemma {:induction false} CandidatesUnset(rows: Rows, row: Row, p: Product)
    requires !row.stable
    ensures Candidates(Replace(rows, row), p) == Without(Candidates(rows, p), row.uuid)
  {
    if rows != [] {
      var h, t := rows[0], rows[1..];
      assert rows == [h] + t;
      CandidatesUnset(t, row, p);
      assert Replace(rows, row) == [if h.uuid == row.uuid then row else h] + Replace(t, row);
      CandidatesCons(h, t, p);
      CandidatesCons(if h.uuid == row.uuid then row else h, Replace(t, row), p);
      WithoutCons(h, Candidates(t, p), row.uuid);
    }
  }

  lemma {:induction false} CandidatesSet(rows: Rows, row: Row, p: Product)
    requires row.stable && forall r :: r in rows && r.uuid == row.uuid ==> StableOf(r, row.product)
    ensures Candidates(Replace(rows, row), p) == Replace(Candidates(rows, p), row)
  {
    if rows != [] {
      assert rows[0] in rows;
      CandidatesSet(rows[1..], row, p);
      assert Replace(rows, row)[1..] == Replace(rows[1..], row);
      if StableOf(rows[0], p) { assert Candidates(rows, p)[1..] == Candidates(rows[1..], p); }
    }
  }

  lemma {:induction false} NothingToDrop(s: Rows, uuid: int)
    requires forall r :: r in s ==> r.uuid != uuid
    ensures Without(s, uuid) == s
  {
    if s != [] {
      assert s[0] in s;
      NothingToDrop(s[1..], uuid);
    }
  }

  /** The row is what was fetched, but for a flag set since. */
  ghost predicate Fetched(rows: Rows, copy: Row)
  {
    forall r :: r in rows && r.uuid == copy.uuid ==> r.(latest := copy.latest) == copy
  }

  /** Whatever becomes of the row, its product loses exactly that candidate. */
  lemma TakeOutDrops(rows: Rows, copy: Row, p: Product)
    requires Fetched(rows, copy)
    ensures Candidates(TakeOut(rows, copy), p) == Without(Candidates(rows, p), copy.uuid)
  {
    if !copy.installed {
      CandidatesWithout(rows, copy.uuid, p);
    } else if copy.stable || copy.latest {
      CandidatesUnset(rows, copy.(stable := false, latest := false), p);
    } else {
      NothingToDrop(Candidates(rows, p), copy.uuid);
    }
  }

  lemma PromoteFlagsOne(rows: Rows, q: Product, p: Product)
    requires DistinctIds(rows)
    ensures Candidates(Promote(rows, q), p) ==
            if p == q then Promoted(Candidates(rows, p)) else Candidates(rows, p)
  {
    var s := Candidates(rows, q);
    if s != [] {
      var best := s[Max(s)];
      assert best in s;
      forall r | r in rows && r.uuid == best.uuid ensures StableOf(r, q) { SameId(rows, r, best); }
      CandidatesSet(rows, best.(latest := true), p);
      if p != q {
        var t := Candidates(rows, p);
        forall i | 0 <= i < |t| ensures t[i].uuid != best.uuid {
          assert t[i] in t;
        }
        assert Replace(t, best.(latest := true)) == t;
      }
    }
  }

  /** A row comes from a row that differs at most in the flag. */
  ghost predicate ComesFrom(rows: Rows, r: Row)
  {
    exists q :: q in rows && q.uuid == r.uuid && q == r.(latest := q.latest)
  }

  lemma TakeOutKeeps(rows: Rows, copy: Row)
    requires DistinctIds(rows)
    ensures DistinctIds(TakeOut(rows, copy))
    ensures forall r :: r in TakeOut(rows, copy) && r.uuid != copy.uuid ==> r in rows
  {
    WithoutDistinct(rows, copy.uuid);
  }

  lemma {:induction false} WithoutDistinct(rows: Rows, uuid: int)
    requires DistinctIds(rows)
    ensures DistinctIds(Without(rows, uuid))
  {
    if rows != [] {
      WithoutDistinct(rows[1..], uuid);
      var rest := Without(rows[1..], uuid);
      forall k | 0 <= k < |rest| ensures rest[k].uuid != rows[0].uuid {
        assert rest[k] in rest && rest[k] in rows[1..];
      }
    }
  }

  lemma ProcessKeeps(rows: Rows, copy: Row)
    requires DistinctIds(rows)
    ensures DistinctIds(Process(rows, copy))
    ensures forall r :: r in Process(rows, copy) && r.uuid != copy.uuid ==> ComesFrom(rows, r)
  {
    TakeOutKeeps(rows, copy);
    var mid := TakeOut(rows, copy);
    forall r | r in Process(rows, copy) && r.uuid != copy.uuid ensures ComesFrom(rows, r) {
      if r !in mid {
        var s := Candidates(mid, copy.product);
        var best := s[Max(s)];
        assert best in s;
        assert r == best.(latest := true);
        assert best in rows;
      }
    }
  }

  /** Copies still to be taken out agree with the table. */
  ghost predicate Snapshot(rows: Rows, copies: seq<Row>)
  {
    DistinctIds(rows) && DistinctIds(copies) && forall c :: c in copies ==> Fetched(rows, c)
  }

  lemma SnapshotNext(rows: Rows, copies: seq<Row>)
    requires Snapshot(rows, copies) && copies != []
    ensures Fetched(rows, copies[0]) && Snapshot(Process(rows, copies[0]), copies[1..])
  {
    assert copies[0] in copies;
    ProcessKeeps(rows, copies[0]);
    forall c, r | c in copies[1..] && r in Process(rows, copies[0]) && r.uuid == c.uuid
      ensures r.(latest := c.latest) == c
    {
      assert c in copies;
      assert ComesFrom(rows, r);
    }
  }

  lemma ProcessSeen(rows: Rows, copy: Row, p: Product)
    requires DistinctIds(rows) && Fetched(rows, copy)
    ensures var left := Without(Candidates(rows, p), copy.uuid);
            Candidates(Process(rows, copy), p) == if Flagged(copy, p) then Promoted(left) else left
  {
    TakeOutDrops(rows, copy, p);
    TakeOutKeeps(rows, copy);
    PromoteFlagsOne(TakeOut(rows, copy), copy.product, p);
  }

  predicate Stale(copies: seq<Row>, uuid: int)
  {
    exists c :: c in copies && c.uuid == uuid
  }

  function WithoutAll(s: Rows, copies: seq<Row>): (t: Rows)
    decreases |copies|
  {
    if copies == [] then s else WithoutAll(Without(s, copies[0].uuid), copies[1..])
  }

  lemma {:induction false} InWithoutAll(s: Rows, copies: seq<Row>, r: Row)
    ensures r in WithoutAll(s, copies) <==> r in s && !Stale(copies, r.uuid)
    decreases |copies|
  {
    if copies != [] {
      InWithoutAll(Without(s, copies[0].uuid), copies[1..], r);
    }
  }

  ghost predicate NoTurn(copies: seq<Row>, p: Product)
  {
    forall i :: 0 <= i < |copies| ==> !Flagged(copies[i], p)
  }

  ghost predicate OnlyTurn(copies: seq<Row>, p: Product, k: nat)
  {
    k < |copies| && Flagged(copies[k], p) && forall i :: 0 <= i < |copies| && i != k ==> !Flagged(copies[i], p)
  }

  /** A run over copies none of which is a flagged one of the product only drops. */
  lemma {:induction false} Quiet(rows: Rows, copies: seq<Row>, p: Product)
    requires Snapshot(rows, copies) && NoTurn(copies, p)
    ensures Candidates(ProcessAll(rows, copies), p) == WithoutAll(Candidates(rows, p), copies)
    decreases |copies|
  {
    if copies != [] {
      SnapshotNext(rows, copies);
      ProcessSeen(rows, copies[0], p);
      Quiet(Process(rows, copies[0]), copies[1..], p);
    }
  }

  lemma DropHead(s: Rows, copies: seq<Row>, k: nat)
    requires k < |copies|
    ensures WithoutAll(s, copies[..k + 1]) == WithoutAll(Without(s, copies[0].uuid), copies[1..][..k])
    ensures copies[k + 1..] == copies[1..][k..]
  {
    assert copies[..k + 1][1..] == copies[1..][..k];
  }

  /** With one flagged copy at `k`: drop up to it, flag the greatest left, drop the rest. */
  lemma {:induction false} OneTurn(rows: Rows, copies: seq<Row>, p: Product, k: nat)
    requires Snapshot(rows, copies) && OnlyTurn(copies, p, k)
    ensures Candidates(ProcessAll(rows, copies), p) ==
            WithoutAll(Promoted(WithoutAll(Candidates(rows, p), copies[..k + 1])), copies[k + 1..])
    decreases k
  {
    SnapshotNext(rows, copies);
    ProcessSeen(rows, copies[0], p);
    DropHead(Candidates(rows, p), copies, k);
    if k == 0 {
      Quiet(Process(rows, copies[0]), copies[1..], p);
    } else {
      OneTurn(Process(rows, copies[0]), copies[1..], p, k - 1);
    }
  }

  // ------------------------------------------------------------------
  // Adding keeps the index
  // ------------------------------------------------------------------

  lemma {:induction false} CandidatesAppend(rows: Rows, e: Row, p: Product)
    ensures Candidates(rows + [e], p) == Candidates(rows, p) + if StableOf(e, p) then [e] else []
  {
    if rows == [] {
      assert rows + [e] == [e];
    } else {
      assert (rows + [e])[1..] == rows[1..] + [e];
      CandidatesAppend(rows[1..], e, p);
    }
  }

  lemma {:induction false} CandidatesFlagOnly(rows: Rows, e: Row, p: Product)
    ensures Candidates(FlagOnly(rows, e), p) ==
            if p == e.product then FlagOnly(Candidates(rows, p), e) else Candidates(rows, p)
  {
    if rows != [] {
      CandidatesFlagOnly(rows[1..], e, p);
      assert FlagOnly(rows, e)[1..] == FlagOnly(rows[1..], e);
      if StableOf(rows[0], p) { assert Candidates(rows, p)[1..] == Candidates(rows[1..], p); }
    }
  }

  lemma AnnounceKeeps(rows: Rows, e: Row)
    requires DistinctIds(rows) && !e.latest && forall r :: r in rows ==> r.uuid != e.uuid
    ensures DistinctIds(Announce(rows + [e], e))
    ensures |Announce(rows + [e], e)| == |rows| + 1
    ensures forall i :: 0 <= i <= |rows| ==>
              Announce(rows + [e], e)[i] == (rows + [e])[i].(latest := Announce(rows + [e], e)[i].latest)
  {
  }

  function Appended(s: Rows, e: Row): Rows
  {
    var t := s + [e];
    if t[Max(t)].uuid == e.uuid then FlagOnly(t, e) else t
  }

  lemma AnnounceSeen(rows: Rows, e: Row, p: Product)
    ensures Candidates(Announce(rows + [e], e), p) ==
            if StableOf(e, p) then Appended(Candidates(rows, p), e) else Candidates(rows, p)
  {
    CandidatesAppend(rows, e, p);
    if e.stable {
      CandidatesAppend(rows, e, e.product);
      CandidatesFlagOnly(rows + [e], e, p);
    }
  }

  /** Saving a new version and announcing it keeps the index of every product. */
  lemma AnnounceKeepsCorrect(rows: Rows, e: Row, p: Product)
    requires !e.latest && forall r :: r in rows ==> r.uuid != e.uuid
    requires Correct(Candidates(rows, p))
    ensures Correct(Candidates(Announce(rows + [e], e), p))
  {
    AnnounceSeen(rows, e, p);
    if StableOf(e, p) { AppendKeepsCorrect(Candidates(rows, p), e); }
  }

  lemma AppendKeepsCorrect(s: Rows, e: Row)
    requires Correct(s) && !e.latest && forall r :: r in s ==> r.uuid != e.uuid && r.product == e.product
    ensures Correct(Appended(s, e))
  {
    var t := s + [e];
    var g := Max(t);
    assert t[|s|] == e && t[g] in t;
    assert forall r :: r in t <==> r in s || r == e;
    if t[g].uuid == e.uuid {
      forall r | r in t ensures r.version.rank <= e.version.rank {
        var i :| 0 <= i < |t| && t[i] == r;
      }
      FlaggedIsCorrect(t, e);
    } else {
      assert t[g] in s;
      var f :| f in s && f.latest;
      assert t[g].version.rank <= f.version.rank;
      assert t[|s|].version.rank <= t[g].version.rank;
    }
  }

  lemma FlaggedIsCorrect(t: Rows, e: Row)
    requires e in t && forall r :: r in t ==> r.product == e.product && r.version.rank <= e.version.rank
    requires forall r :: r in t && r.uuid == e.uuid ==> r == e
    ensures Correct(FlagOnly(t, e))
  {
    var out := FlagOnly(t, e);
    forall r | r in out ensures r.version.rank <= e.version.rank && (r.latest ==> r == e.(latest := true)) {
      var i :| 0 <= i < |out| && out[i] == r;
      assert t[i] in t;
    }
    var k :| 0 <= k < |t| && t[k] == e;
    assert out[k] in out && out[k].latest;
  }

  /** New rows with ids of their own. */
  ghost predicate Fresh(rows: Rows, news: seq<Row>)
  {
    && DistinctIds(news)
    && (forall e :: e in news ==> !e.latest)
    && (forall e, r :: e in news && r in rows ==> r.uuid != e.uuid)
  }

  lemma FreshNext(rows: Rows, news: seq<Row>)
    requires DistinctIds(rows) && Fresh(rows, news) && news != []
    ensures var out := Announce(rows + [news[0]], news[0]); DistinctIds(out) && Fresh(out, news[1..])
  {
    assert news[0] in news;
    AnnounceKeeps(rows, news[0]);
    var out := Announce(rows + [news[0]], news[0]);
    forall e, r | e in news[1..] && r in out ensures r.uuid != e.uuid {
      assert e in news;
      var i :| 0 <= i < |out| && out[i] == r;
      assert i < |rows| ==> rows[i] in rows;
    }
  }

  /** New versions may be announced in any order. */
  lemma {:induction false} AddAllKeepsCorrect(rows: Rows, news: seq<Row>, p: Product)
    requires DistinctIds(rows) && Fresh(rows, news) && Correct(Candidates(rows, p))
    ensures DistinctIds(AddAll(rows, news)) && Correct(Candidates(AddAll(rows, news), p))
    decreases |news|
  {
    if news != [] {
      assert news[0] in news;
      AnnounceKeepsCorrect(rows, news[0], p);
      FreshNext(rows, news);
      AddAllKeepsCorrect(Announce(rows + [news[0]], news[0]), news[1..], p);
    }
  }

  // ------------------------------------------------------------------
  // Taking stale versions out keeps the index, or not
  // ------------------------------------------------------------------

  /** At the turn of the flagged copy `k`, the version promoted is not stale itself. */
  ghost predicate PromotesSurvivor(s: Rows, copies: seq<Row>, k: nat)
    requires k < |copies|
  {
    var left := WithoutAll(s, copies[..k + 1]);
    left != [] ==> !Stale(copies, left[Max(left)].uuid)
  }

  /** Nothing stable survives, or every promotion picks a version that does. */
  ghost predicate KeepsIndex(s: Rows, copies: seq<Row>, p: Product)
  {
    WithoutAll(s, copies) == [] ||
    forall k :: 0 <= k < |copies| && Flagged(copies[k], p) ==> PromotesSurvivor(s, copies, k)
  }

  lemma DropKeepsSound(s: Rows, copies: seq<Row>)
    requires Sound(s)
    ensures Sound(WithoutAll(s, copies))
  {
    forall r | r in WithoutAll(s, copies) ensures r in s { InWithoutAll(s, copies, r); }
  }

  lemma PromotedIsCorrect(s: Rows)
    requires s != [] && forall r :: r in s ==> !r.latest
    ensures Correct(Promoted(s)) && s[Max(s)].(latest := true) in Promoted(s)
    ensures forall r :: r in Promoted(s) && r.latest ==> r == s[Max(s)].(latest := true)
  {
    var out, best := Promoted(s), s[Max(s)].(latest := true);
    forall r | r in out ensures r.version.rank <= best.version.rank && (r.latest ==> r == best) {
      var i :| 0 <= i < |out| && out[i] == r;
      assert s[i] in s;
    }
    assert out[Max(s)] == best;
  }

  /** Which rows are dropped depends on their ids alone. */
  lemma SameIdsSameDrop(s: Rows, t: Rows, copies: seq<Row>)
    requires |s| == |t| && forall i :: 0 <= i < |s| ==> s[i].uuid == t[i].uuid
    ensures WithoutAll(s, copies) != [] ==> WithoutAll(t, copies) != []
  {
    if WithoutAll(s, copies) != [] {
      var r := WithoutAll(s, copies)[0];
      InWithoutAll(s, copies, r);
      var i :| 0 <= i < |s| && s[i] == r;
      InWithoutAll(t, copies, t[i]);
    }
  }

  /** What is left of the flags after the one promotion of a product. */
  lemma AfterPromotion(left: Rows, later: seq<Row>)
    requires left != [] && forall r :: r in left ==> !r.latest
    ensures Sound(WithoutAll(Promoted(left), later))
    ensures Correct(WithoutAll(Promoted(left), later)) <==>
            (WithoutAll(left, later) == [] || !Stale(later, left[Max(left)].uuid))
  {
    var up := Promoted(left);
    var best := left[Max(left)].(latest := true);
    PromotedIsCorrect(left);
    SameIdsSameDrop(left, up, later);
    SameIdsSameDrop(up, left, later);
    if Stale(later, best.uuid) {
      DropKeepsSound(up, later);
      forall r | r in WithoutAll(up, later) ensures !r.latest {
        InWithoutAll(up, later, r);
      }
    } else {
      DropKeepsCorrect(up, later);
    }
  }

  /** Dropping nothing but unflagged rows keeps the index. */
  lemma DropKeepsCorrect(s: Rows, copies: seq<Row>)
    requires Correct(s) && forall f :: f in s && f.latest ==> !Stale(copies, f.uuid)
    ensures Correct(WithoutAll(s, copies))
  {
    DropKeepsSound(s, copies);
    if WithoutAll(s, copies) != [] {
      InWithoutAll(s, copies, WithoutAll(s, copies)[0]);
      var f :| f in s && f.latest;
      InWithoutAll(s, copies, f);
    }
  }

  lemma SplitDrop(s: Rows, copies: seq<Row>, k: nat)
    requires k <= |copies|
    ensures WithoutAll(WithoutAll(s, copies[..k]), copies[k..]) == WithoutAll(s, copies)
    ensures forall id :: Stale(copies, id) <==> Stale(copies[..k], id) || Stale(copies[k..], id)
    decreases k
  {
    assert copies == copies[..k] + copies[k..];
    forall id ensures Stale(copies, id) <==> Stale(copies[..k], id) || Stale(copies[k..], id) {
      assert forall c :: c in copies <==> c in copies[..k] || c in copies[k..];
    }
    if k > 0 {
      SplitDrop(Without(s, copies[0].uuid), copies[1..], k - 1);
      assert copies[..k][1..] == copies[1..][..k - 1];
      assert copies[k..] == copies[1..][k - 1..];
    }
  }

  /** Only one copy of a product can carry the flag. */
  lemma OneFlaggedCopy(rows: Rows, copies: seq<Row>, p: Product, k: nat)
    requires DistinctIds(copies) && Sound(Candidates(rows, p))
    requires forall c :: c in copies ==> c in rows
    requires k < |copies| && Flagged(copies[k], p)
    ensures OnlyTurn(copies, p, k)
  {
    var s := Candidates(rows, p);
    assert copies[k] in copies && copies[k] in s;
    forall i | 0 <= i < |copies| && Flagged(copies[i], p) ensures i == k {
      assert copies[i] in copies && copies[i] in s;
    }
  }

  /** What is left at the turn of the flagged copy carries no flag. */
  lemma LeftUnflagged(s: Rows, gone: seq<Row>, k: nat)
    requires Sound(s) && k < |gone| && gone[k] in s && gone[k].latest
    ensures forall r :: r in WithoutAll(s, gone) ==> !r.latest && !Stale(gone, r.uuid)
  {
    assert gone[k] in gone;
    forall r | r in WithoutAll(s, gone) ensures !r.latest && !Stale(gone, r.uuid) {
      InWithoutAll(s, gone, r);
    }
  }

  /** The run with a flagged copy at `k`. */
  lemma TurnIff(rows: Rows, copies: seq<Row>, p: Product, k: nat)
    requires DistinctIds(rows) && DistinctIds(copies) && Correct(Candidates(rows, p))
    requires forall c :: c in copies ==> c in rows
    requires k < |copies| && Flagged(copies[k], p)
    ensures Sound(Candidates(ProcessAll(rows, copies), p))
    ensures Correct(Candidates(ProcessAll(rows, copies), p)) <==>
            (WithoutAll(Candidates(rows, p), copies) == [] || PromotesSurvivor(Candidates(rows, p), copies, k))
  {
    var s := Candidates(rows, p);
    var gone, later := copies[..k + 1], copies[k + 1..];
    OneFlaggedCopy(rows, copies, p, k);
    OneTurn(rows, copies, p, k);
    assert gone[k] == copies[k] && copies[k] in copies;
    LeftUnflagged(s, gone, k);
    SplitDrop(s, copies, k + 1);
    TurnOutcome(WithoutAll(s, gone), gone, later, copies);
  }

  lemma TurnOutcome(left: Rows, gone: seq<Row>, later: seq<Row>, copies: seq<Row>)
    requires forall r :: r in left ==> !r.latest && !Stale(gone, r.uuid)
    requires forall id :: Stale(copies, id) <==> Stale(gone, id) || Stale(later, id)
    ensures Sound(WithoutAll(Promoted(left), later))
    ensures Correct(WithoutAll(Promoted(left), later)) <==>
            (WithoutAll(left, later) == [] || (left != [] ==> !Stale(copies, left[Max(left)].uuid)))
  {
    if left == [] {
      if WithoutAll([], later) != [] { InWithoutAll([], later, WithoutAll([], later)[0]); }
    } else {
      assert left[Max(left)] in left;
      AfterPromotion(left, later);
    }
  }

  /** Taking out the stale rows fetched at once: at most one stable row stays flagged and it
      is the greatest; some row is flagged exactly when no promotion picked a stale one. */
  lemma TakingOutKeepsCorrectIff(rows: Rows, copies: seq<Row>, p: Product)
    requires DistinctIds(rows) && DistinctIds(copies) && Correct(Candidates(rows, p))
    requires forall c :: c in copies ==> c in rows
    ensures Sound(Candidates(ProcessAll(rows, copies), p))
    ensures Correct(Candidates(ProcessAll(rows, copies), p)) <==> KeepsIndex(Candidates(rows, p), copies, p)
  {
    if k :| 0 <= k < |copies| && Flagged(copies[k], p) {
      OneFlaggedCopy(rows, copies, p, k);
      TurnIff(rows, copies, p, k);
    } else {
      NoTurnKeepsCorrect(rows, copies, p);
    }
  }

  lemma NoTurnKeepsCorrect(rows: Rows, copies: seq<Row>, p: Product)
    requires DistinctIds(rows) && DistinctIds(copies) && Correct(Candidates(rows, p))
    requires NoTurn(copies, p) && forall c :: c in copies ==> c in rows
    ensures Correct(Candidates(ProcessAll(rows, copies), p))
  {
    var s := Candidates(rows, p);
    Quiet(rows, copies, p);
    forall f | f in s && f.latest ensures !Stale(copies, f.uuid) {
      if c :| c in copies && c.uuid == f.uuid { SameId(rows, c, f); }
    }
    DropKeepsCorrect(s, copies);
  }

  /** In particular one stale stable version per product and refresh is safe. */
  lemma OneStaleVersionIsSafe(rows: Rows, copies: seq<Row>, p: Product)
    requires DistinctIds(rows) && DistinctIds(copies) && Correct(Candidates(rows, p))
    requires forall c :: c in copies ==> c in rows
    requires forall c, d :: c in copies && d in copies && StableOf(c, p) && StableOf(d, p) ==> c == d
    ensures Correct(Candidates(ProcessAll(rows, copies), p))
  {
    var s := Candidates(rows, p);
    forall k | 0 <= k < |copies| && Flagged(copies[k], p) ensures PromotesSurvivor(s, copies, k) {
      var left := WithoutAll(s, copies[..k + 1]);
      if left != [] {
        var best := left[Max(left)];
        assert best in left;
        InWithoutAll(s, copies[..k + 1], best);
        assert copies[k] == copies[..k + 1][k] && copies[k] in copies[..k + 1] && copies[k] in copies;
        if c :| c in copies && c.uuid == best.uuid { SameId(rows, c, best); }
      }
    }
    TakingOutKeepsCorrectIff(rows, copies, p);
  }

  /** Two stale versions at once can leave a stable row without any flagged one: the second
      is promoted when the first leaves, and then leaves as a copy that carries no flag. */
  lemma TwoStaleVersionsLoseTheFlag(p: Product, v1: Row, v2: Row, v3: Row, rows: Rows, copies: seq<Row>)
    requires StableOf(v1, p) && StableOf(v2, p) && StableOf(v3, p)
    requires v1.version.rank < v2.version.rank < v3.version.rank && !v1.latest && !v2.latest && v3.latest
    requires rows == [v1, v2, v3] && copies == [v3, v2] && DistinctIds(rows)
    ensures Correct(Candidates(rows, p))
    ensures !Correct(Candidates(ProcessAll(rows, copies), p))
  {
    ThreeVersions(p, v1, v2, v3);
    DropsOf(v1, v2, v3);
    GreatestFirst(rows, copies, p, v1, v2);
  }

  lemma ThreeVersions(p: Product, v1: Row, v2: Row, v3: Row)
    requires StableOf(v1, p) && StableOf(v2, p) && StableOf(v3, p)
    requires v1.version.rank < v2.version.rank < v3.version.rank && !v1.latest && !v2.latest && v3.latest
    ensures Candidates([v1, v2, v3], p) == [v1, v2, v3] && Correct([v1, v2, v3])
  {
    var rows := [v1, v2, v3];
    assert rows == [v1] + ([v2] + ([v3] + []));
    CandidatesCons(v3, [], p);
    CandidatesCons(v2, [v3] + [], p);
    CandidatesCons(v1, [v2] + ([v3] + []), p);
    assert v3 in rows;
  }

  lemma GreatestFirst(s: Rows, copies: seq<Row>, p: Product, v1: Row, v2: Row)
    requires DistinctIds(s) && DistinctIds(copies) && Candidates(s, p) == s && Correct(s)
    requires forall c :: c in copies ==> c in s
    requires |copies| == 2 && Flagged(copies[0], p) && copies[1] == v2 && v1.version.rank < v2.version.rank
    requires WithoutAll(s, copies[..1]) == [v1, v2] && WithoutAll(s, copies) == [v1]
    ensures !Correct(Candidates(ProcessAll(s, copies), p))
  {
    assert Max([v1, v2]) == 1;
    assert v2 in copies;
    TurnIff(s, copies, p, 0);
  }

  lemma DropsOf(v1: Row, v2: Row, v3: Row)
    requires v1.uuid != v2.uuid && v1.uuid != v3.uuid && v2.uuid != v3.uuid
    ensures WithoutAll([v1, v2, v3], [v3, v2][..1]) == [v1, v2]
    ensures WithoutAll([v1, v2, v3], [v3, v2]) == [v1]
  {
    assert [v3, v2][..1] == [v3] && [v3, v2][1..] == [v2];
    DropLast([v1, v2], v3);
    DropLast([v1], v2);
    assert [v1, v2] + [v3] == [v1, v2, v3] && [v1] + [v2] == [v1, v2];
    OneDrop([v1, v2], v2);
    OneDrop([v1, v2, v3], v3);
  }

  lemma {:induction false} DropLast(s: Rows, c: Row)
    requires forall r :: r in s ==> r.uuid != c.uuid
    ensures Without(s + [c], c.uuid) == s
  {
    if s == [] {
      assert s + [c] == [c];
    } else {
      assert s[0] in s && (s + [c])[1..] == s[1..] + [c];
      DropLast(s[1..], c);
    }
  }

  lemma OneDrop(s: Rows, c: Row)
    ensures WithoutAll(s, [c]) == Without(s, c.uuid)
  {
    assert [c][1..] == [];
  }
}
