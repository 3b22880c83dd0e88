/** The refresh of a repository over its table of elements, and the migration that fills
    the flags in one pass (exordos_core/repo/builders/repository.py, migrations/0002). */
module LatestRefresh {
  import opened LatestFlag

  /** What identifies an element within a repository. */
  datatype Key = Key(name: string, version: string)

  function KeyOf(r: Row): Key
  {
    Key(r.product.name, r.version.text)
  }

  /** The unique index on repository, name and version. */
  ghost predicate DistinctKeys(rows: Rows)
  {
    forall r, q :: r in rows && q in rows && r.product.repository == q.product.repository && KeyOf(r) == KeyOf(q) ==>
      r.uuid == q.uuid
  }

  ghost predicate Listed(rows: Rows, repository: int, key: Key)
  {
    exists r :: r in rows && r.product.repository == repository && KeyOf(r) == key
  }

  /** What the source offers: rows of this repository, with ids of their own and no flag. */
  ghost predicate Offer(rows: Rows, repository: int, inventory: seq<Row>)
  {
    && Fresh(rows, inventory)
    && forall e :: e in inventory ==> e.product.repository == repository && !e.installed
  }

  /** The rows that belong to a product, flagged or not. */
  function OfProduct(rows: Rows, p: Product): (s: Rows)
    ensures forall r :: r in s <==> r in rows && r.product == p
  {
    if rows == [] then [] else (if rows[0].product == p then [rows[0]] else []) + OfProduct(rows[1..], p)
  }

  function WithIds(rows: Rows, ids: set<int>): (s: Rows)
    ensures forall r :: r in s <==> r in rows && r.uuid in ids
  {
    if rows == [] then [] else (if rows[0].uuid in ids then [rows[0]] else []) + WithIds(rows[1..], ids)
  }

  lemma {:induction false} WithIdsDistinct(rows: Rows, ids: set<int>)
    requires DistinctIds(rows)
    ensures DistinctIds(WithIds(rows, ids))
  {
    if rows != [] {
      WithIdsDistinct(rows[1..], ids);
      var rest := WithIds(rows[1..], ids);
      forall k | 0 <= k < |rest| ensures rest[k].uuid != rows[0].uuid {
        assert rest[k] in rest && rest[k] in rows[1..];
      }
    }
  }

  lemma {:induction false} AddAllSnoc(rows: Rows, news: seq<Row>, e: Row)
    ensures e in AddAll(rows, news) + [e]
    ensures AddAll(rows, news + [e]) == Announce(AddAll(rows, news) + [e], e)
    decreases |news|
  {
    assert (AddAll(rows, news) + [e])[|AddAll(rows, news)|] == e;
    if news == [] {
      assert news + [e] == [e] && [e][1..] == [];
    } else {
      assert (rows + [news[0]])[|rows|] == news[0];
      assert (news + [e])[1..] == news[1..] + [e];
      AddAllSnoc(Announce(rows + [news[0]], news[0]), news[1..], e);
    }
  }

  /** Two tables that differ in flags only. */
  ghost predicate OnlyFlags(a: Rows, b: Rows)
  {
    |a| == |b| && forall i :: 0 <= i < |a| ==> b[i] == a[i].(latest := b[i].latest)
  }

  lemma OnlyFlagsSteps(a: Rows, b: Rows, c: Rows, rest: Rows)
    requires OnlyFlags(a, b) && OnlyFlags(b + rest, c)
    ensures OnlyFlags(a + rest, c)
  {
    forall i | 0 <= i < |c| ensures c[i] == (a + rest)[i].(latest := c[i].latest) {
      assert c[i] == (b + rest)[i].(latest := c[i].latest);
    }
  }

  /** Adding changes nothing but flags. */
  lemma {:induction false} AddAllOnlyFlags(rows: Rows, news: seq<Row>)
    ensures OnlyFlags(rows + news, AddAll(rows, news))
    decreases |news|
  {
    if news == [] {
      assert rows + news == rows;
    } else {
      var next := Announce(rows + [news[0]], news[0]);
      AddAllOnlyFlags(next, news[1..]);
      OnlyFlagsSteps(rows + [news[0]], next, AddAll(next, news[1..]), news[1..]);
      assert rows + news == (rows + [news[0]]) + news[1..];
    }
  }

  lemma AddAllDistinct(rows: Rows, news: seq<Row>)
    requires DistinctIds(rows) && Fresh(rows, news)
    ensures DistinctIds(AddAll(rows, news))
  {
    AddAllOnlyFlags(rows, news);
    var both, out := rows + news, AddAll(rows, news);
    forall i, j | 0 <= i < j < |out| ensures out[i].uuid != out[j].uuid {
      assert out[i] == both[i].(latest := out[i].latest) && out[j] == both[j].(latest := out[j].latest);
      if i < |rows| <= j { assert rows[i] in rows && news[j - |rows|] in news; }
    }
  }

  ghost predicate Offered(inventory: seq<Row>, key: Key)
  {
    exists e :: e in inventory && KeyOf(e) == key
  }

  /** The new rows: one per key that is offered and not listed yet. */
  ghost predicate Arrivals(before: Rows, repository: int, inventory: seq<Row>, news: seq<Row>)
  {
    && DistinctIds(news)
    && (forall e :: e in news ==> e in inventory && !Listed(before, repository, KeyOf(e)))
    && (forall k :: Offered(inventory, k) && !Listed(before, repository, k) ==> Offered(news, k))
    && (forall e, f :: e in news && f in news && KeyOf(e) == KeyOf(f) ==> e == f)
  }

  /** The copies: the rows of the repository that are not offered any more. */
  ghost predicate Departures(rows: Rows, repository: int, inventory: seq<Row>, copies: seq<Row>)
  {
    && DistinctIds(copies)
    && forall c :: c in copies <==> c in rows && c.product.repository == repository && !Offered(inventory, KeyOf(c))
  }

  /** The ids listed under keys no longer offered are those of the departing rows. */
  lemma StaleIdsDepart(before: Rows, news: seq<Row>, repository: int, inventory: seq<Row>, existing: map<Key, int>,
                       offered: set<Key>, stale: set<int>)
    requires DistinctIds(before) && Fresh(before, news)
    requires forall e :: e in news ==> e in inventory
    requires forall r :: r in before && r.product.repository == repository ==>
               KeyOf(r) in existing && existing[KeyOf(r)] == r.uuid
    requires forall k :: k in existing ==> Listed(before, repository, k)
    requires forall k :: k in offered <==> Offered(inventory, k)
    requires stale == set k | k in existing && k !in offered :: existing[k]
    ensures Departures(AddAll(before, news), repository, inventory, WithIds(AddAll(before, news), stale))
  {
    AddAllOnlyFlags(before, news);
    AddAllDistinct(before, news);
    var rows := AddAll(before, news);
    WithIdsDistinct(rows, stale);
    forall c | c in rows
      ensures c.uuid in stale <==> c.product.repository == repository && !Offered(inventory, KeyOf(c))
    {
      var i :| 0 <= i < |rows| && rows[i] == c;
      var q := (before + news)[i];
      assert c == q.(latest := c.latest);
      if i < |before| {
        assert q in before;
        forall k | k in existing && k !in offered && existing[k] == q.uuid
          ensures q.product.repository == repository && KeyOf(q) == k
        {
          var r :| r in before && r.product.repository == repository && KeyOf(r) == k;
          SameId(before, r, q);
        }
        if q.product.repository == repository && KeyOf(q) !in offered {
          assert existing[KeyOf(q)] in stale;
        }
      } else {
        assert q in news;
        forall k | k in existing && k !in offered ensures existing[k] != q.uuid {
          var r :| r in before && r.product.repository == repository && KeyOf(r) == k;
        }
      }
    }
  }

  function Unflag(rows: Rows, ids: set<int>): (r: Rows)
    ensures |r| == |rows|
    ensures forall j :: 0 <= j < |r| ==> r[j] == if rows[j].uuid in ids then rows[j].(latest := false) else rows[j]
  {
    seq(|rows|, j requires 0 <= j < |rows| => if rows[j].uuid in ids then rows[j].(latest := false) else rows[j])
  }

  lemma UnflagOne(rows: Rows, ids: set<int>, c: Row)
    requires DistinctIds(rows) && c in rows
    ensures Unflag(rows, ids + {c.uuid}) ==
            if c.latest then Replace(Unflag(rows, ids), c.(latest := false)) else Unflag(rows, ids)
  {
    forall j | 0 <= j < |rows| && rows[j].uuid == c.uuid ensures rows[j] == c { SameId(rows, rows[j], c); }
  }

  /** Unflagging every other row of the product leaves `e` the only flagged one. */
  lemma UnflagOthers(rows: Rows, ids: set<int>, e: Row)
    requires DistinctIds(rows) && e in rows
    requires forall r :: r in rows ==> (r.uuid in ids <==> r.product == e.product && r.uuid != e.uuid)
    ensures FlagOnly(rows, e) == if e.latest then Unflag(rows, ids) else Replace(Unflag(rows, ids), e.(latest := true))
  {
    var out := if e.latest then Unflag(rows, ids) else Replace(Unflag(rows, ids), e.(latest := true));
    forall j | 0 <= j < |rows| ensures out[j] == FlagOnly(rows, e)[j] {
      assert rows[j] in rows;
      if rows[j].uuid == e.uuid { SameId(rows, rows[j], e); }
    }
  }

  ghost predicate Owned(rows: Rows, p: Product, id: int)
  {
    exists r :: r in rows && r.product == p && r.uuid == id
  }

  lemma FlagOnlyDistinct(rows: Rows, e: Row)
    requires DistinctIds(rows)
    ensures DistinctIds(FlagOnly(rows, e))
  {
  }

  /** One row per key that is offered and not listed. */
  lemma ArrivalsAre(before: Rows, repository: int, inventory: seq<Row>, offered: map<Key, Row>, news: seq<Row>)
    requires DistinctIds(news)
    requires forall k :: k in offered ==> offered[k] in inventory && KeyOf(offered[k]) == k
    requires forall k :: k in offered <==> Offered(inventory, k)
    requires forall e :: e in news ==>
               KeyOf(e) in offered && !Listed(before, repository, KeyOf(e)) && e == offered[KeyOf(e)]
    requires forall k :: k in offered && !Listed(before, repository, k) ==> offered[k] in news
    ensures Arrivals(before, repository, inventory, news)
  {
  }

  // ------------------------------------------------------------------
  // What becomes of each row
  // ------------------------------------------------------------------

  /** A row that is kept out of the catalogue. */
  function Retired(r: Row): Row
  {
    r.(stable := false, latest := false)
  }

  /** Promoting changes no row but in its flag, and no row that is not stable. */
  lemma PromoteRow(rows: Rows, p: Product, r: Row)
    requires DistinctIds(rows) && r in rows
    ensures ComesFrom(Promote(rows, p), r) && (!r.stable ==> r in Promote(rows, p))
    ensures forall q :: q in Promote(rows, p) ==> exists b :: b in rows && b.uuid == q.uuid
  {
    var s := Candidates(rows, p);
    if s != [] {
      var best := s[Max(s)];
      assert best in s;
      var out := Promote(rows, p);
      var i :| 0 <= i < |rows| && rows[i] == r;
      assert out[i] in out;
      if r.uuid == best.uuid { SameId(rows, r, best); }
      forall q | q in out ensures exists b :: b in rows && b.uuid == q.uuid {
        var j :| 0 <= j < |out| && out[j] == q;
        assert rows[j] in rows && rows[j].uuid == q.uuid;
      }
    }
  }

  /** What becomes of a row when a copy is taken out, before anything is promoted. */
  lemma TakeOutRow(rows: Rows, copy: Row, r: Row)
    requires DistinctIds(rows) && Fetched(rows, copy) && r in rows
    requires r.uuid == copy.uuid && !r.stable ==> r.latest == copy.latest
    ensures r.uuid != copy.uuid ==> r in TakeOut(rows, copy)
    ensures r.uuid == copy.uuid && r.installed ==> Retired(r) in TakeOut(rows, copy)
  {
    var out := TakeOut(rows, copy);
    var i :| 0 <= i < |rows| && rows[i] == r;
    if r.uuid == copy.uuid { assert r.(latest := copy.latest) == copy; }
    if copy.installed && (copy.stable || copy.latest) { assert out[i] in out; }
  }

  /** One copy: its own row is deleted, or retired if it is installed; every other row stays
      but for its flag. */
  lemma ProcessRow(rows: Rows, copy: Row, r: Row)
    requires DistinctIds(rows) && Fetched(rows, copy) && r in rows
    requires r.uuid == copy.uuid && !r.stable ==> r.latest == copy.latest
    ensures r.uuid != copy.uuid ==> ComesFrom(Process(rows, copy), r) && (!r.stable ==> r in Process(rows, copy))
    ensures r.uuid == copy.uuid && r.installed ==> Retired(r) in Process(rows, copy)
    ensures r.uuid == copy.uuid && !r.installed ==> forall q :: q in Process(rows, copy) ==> q.uuid != r.uuid
  {
    TakeOutKeeps(rows, copy);
    TakeOutRow(rows, copy, r);
    if r.uuid != copy.uuid {
      PromoteRow(TakeOut(rows, copy), copy.product, r);
    } else if r.installed {
      PromoteRow(TakeOut(rows, copy), copy.product, Retired(r));
    } else {
      assert r.(latest := copy.latest) == copy;
      ProcessIds(rows, copy, r.uuid);
    }
  }

  /** An id that is taken out is gone, and none comes into being. */
  lemma ProcessIds(rows: Rows, copy: Row, id: int)
    requires DistinctIds(rows) && ((forall q :: q in rows ==> q.uuid != id) || (id == copy.uuid && !copy.installed))
    ensures forall q :: q in Process(rows, copy) ==> q.uuid != id
  {
    var mid := TakeOut(rows, copy);
    TakeOutKeeps(rows, copy);
    forall q | q in mid ensures q.uuid != id {
      var j :| 0 <= j < |mid| && mid[j] == q;
      if copy.installed && (copy.stable || copy.latest) { assert rows[j] in rows; }
    }
    forall q | q in Process(rows, copy) ensures q.uuid != id {
      if Flagged(copy, copy.product) && Candidates(mid, copy.product) != [] {
        var s := Candidates(mid, copy.product);
        assert s[0] in s;
        PromoteRow(mid, copy.product, s[0]);
      }
    }
  }

  lemma {:induction false} ProcessAllRow(rows: Rows, copies: seq<Row>, r: Row)
    requires Snapshot(rows, copies) && r in rows
    requires !r.stable ==> forall c :: c in copies && c.uuid == r.uuid ==> r.latest == c.latest
    ensures !Stale(copies, r.uuid) ==> ComesFrom(ProcessAll(rows, copies), r)
    ensures !Stale(copies, r.uuid) && !r.stable ==> r in ProcessAll(rows, copies)
    ensures Stale(copies, r.uuid) && r.installed ==> Retired(r) in ProcessAll(rows, copies)
    ensures Stale(copies, r.uuid) && !r.installed ==> forall q :: q in ProcessAll(rows, copies) ==> q.uuid != r.uuid
    decreases |copies|
  {
    if copies != [] {
      var next := Process(rows, copies[0]);
      SnapshotNext(rows, copies);
      ProcessRow(rows, copies[0], r);
      if r.uuid == copies[0].uuid {
        assert !Stale(copies[1..], r.uuid);
        if r.installed {
          ProcessAllRow(next, copies[1..], Retired(r));
        } else {
          ProcessAllIds(next, copies[1..], r.uuid);
        }
      } else {
        assert Stale(copies, r.uuid) <==> Stale(copies[1..], r.uuid);
        if r.stable {
          var m :| m in next && m.uuid == r.uuid && m == r.(latest := m.latest);
          ProcessAllRow(next, copies[1..], m);
        } else {
          ProcessAllRow(next, copies[1..], r);
        }
      }
    }
  }

  /** No row comes into being. */
  lemma {:induction false} ProcessAllIds(rows: Rows, copies: seq<Row>, id: int)
    requires Snapshot(rows, copies) && forall q :: q in rows ==> q.uuid != id
    ensures forall q :: q in ProcessAll(rows, copies) ==> q.uuid != id
    decreases |copies|
  {
    if copies != [] {
      SnapshotNext(rows, copies);
      ProcessIds(rows, copies[0], id);
      ProcessAllIds(Process(rows, copies[0]), copies[1..], id);
    }
  }

  /** What becomes of one row: one of another repository, or one that is still offered, stays
      but for `latest`; one that is not offered any more is retired if it is installed, and is
      gone if it is not. */
  ghost predicate RowSettled(r: Row, repository: int, inventory: seq<Row>, after: Rows)
  {
    if r.product.repository != repository || Offered(inventory, KeyOf(r)) then ComesFrom(after, r)
    else if r.installed then Retired(r) in after
    else forall q :: q in after ==> q.uuid != r.uuid
  }

  /** What is newly offered is there, but for `latest`. */
  ghost predicate Arrived(before: Rows, repository: int, inventory: seq<Row>, after: Rows)
  {
    forall k :: Offered(inventory, k) && !Listed(before, repository, k) ==>
      exists e :: e in inventory && KeyOf(e) == k && ComesFrom(after, e)
  }

  /** Any other row is one of the newly offered. */
  ghost predicate NothingElse(before: Rows, repository: int, inventory: seq<Row>, after: Rows)
  {
    forall q :: q in after && (forall r :: r in before ==> r.uuid != q.uuid) ==>
      exists e :: e in inventory && e.uuid == q.uuid && !Listed(before, repository, KeyOf(e))
  }

  /** What a refresh makes of a table, row by row. */
  ghost predicate Refreshed(before: Rows, repository: int, inventory: seq<Row>, after: Rows)
  {
    && (forall r :: r in before ==> RowSettled(r, repository, inventory, after))
    && Arrived(before, repository, inventory, after) && NothingElse(before, repository, inventory, after)
  }

  lemma AddedRow(before: Rows, news: seq<Row>, r: Row)
    requires r in before + news
    ensures ComesFrom(AddAll(before, news), r)
  {
    AddAllOnlyFlags(before, news);
    var i :| 0 <= i < |before + news| && (before + news)[i] == r;
    assert AddAll(before, news)[i] in AddAll(before, news);
  }

  lemma RefreshedRow(before: Rows, repository: int, inventory: seq<Row>, news: seq<Row>, copies: seq<Row>, r: Row)
    requires DistinctIds(before) && Fresh(before, news) && r in before + news
    requires Departures(AddAll(before, news), repository, inventory, copies)
    ensures RowSettled(r, repository, inventory, ProcessAll(AddAll(before, news), copies))
  {
    var mid := AddAll(before, news);
    AddAllDistinct(before, news);
    AddedRow(before, news, r);
    var m :| m in mid && m.uuid == r.uuid && m == r.(latest := m.latest);
    forall c | c in copies && c.uuid == m.uuid ensures c == m { SameId(mid, c, m); }
    ProcessAllRow(mid, copies, m);
  }

  lemma NewsArrived(before: Rows, repository: int, inventory: seq<Row>, news: seq<Row>, after: Rows)
    requires Offer(before, repository, inventory) && Arrivals(before, repository, inventory, news)
    requires forall e :: e in news ==> RowSettled(e, repository, inventory, after)
    ensures Arrived(before, repository, inventory, after)
  {
    forall k | Offered(inventory, k) && !Listed(before, repository, k)
      ensures exists e :: e in inventory && KeyOf(e) == k && ComesFrom(after, e)
    {
      var e :| e in news && KeyOf(e) == k;
      assert e in inventory && RowSettled(e, repository, inventory, after);
    }
  }

  lemma OnlyNews(before: Rows, repository: int, inventory: seq<Row>, news: seq<Row>, copies: seq<Row>)
    requires Arrivals(before, repository, inventory, news) && Snapshot(AddAll(before, news), copies)
    ensures NothingElse(before, repository, inventory, ProcessAll(AddAll(before, news), copies))
  {
    forall q | q in ProcessAll(AddAll(before, news), copies) && forall r :: r in before ==> r.uuid != q.uuid
      ensures exists e :: e in inventory && e.uuid == q.uuid && !Listed(before, repository, KeyOf(e))
    {
      if forall e :: e in news ==> e.uuid != q.uuid { NoOtherIds(before, news, copies, q.uuid); }
    }
  }

  lemma RefreshIsRefreshed(before: Rows, repository: int, inventory: seq<Row>, news: seq<Row>, copies: seq<Row>)
    requires DistinctIds(before) && Offer(before, repository, inventory)
    requires Arrivals(before, repository, inventory, news)
    requires Departures(AddAll(before, news), repository, inventory, copies)
    ensures Refreshed(before, repository, inventory, ProcessAll(AddAll(before, news), copies))
  {
    var after := ProcessAll(AddAll(before, news), copies);
    AddAllDistinct(before, news);
    forall r | r in before + news ensures RowSettled(r, repository, inventory, after) {
      RefreshedRow(before, repository, inventory, news, copies, r);
    }
    assert forall r :: r in before || r in news ==> r in before + news;
    NewsArrived(before, repository, inventory, news, after);
    DepartingAgree(before, repository, inventory, news, copies);
    OnlyNews(before, repository, inventory, news, copies);
  }

  lemma DepartingAgree(before: Rows, repository: int, inventory: seq<Row>, news: seq<Row>, copies: seq<Row>)
    requires DistinctIds(AddAll(before, news)) && Departures(AddAll(before, news), repository, inventory, copies)
    ensures Snapshot(AddAll(before, news), copies)
  {
    forall c, r | c in copies && r in AddAll(before, news) && r.uuid == c.uuid ensures r.(latest := c.latest) == c {
      SameId(AddAll(before, news), c, r);
    }
  }

  lemma NoOtherIds(before: Rows, news: seq<Row>, copies: seq<Row>, id: int)
    requires Snapshot(AddAll(before, news), copies) && forall r :: r in before + news ==> r.uuid != id
    ensures forall q :: q in ProcessAll(AddAll(before, news), copies) ==> q.uuid != id
  {
    var mid := AddAll(before, news);
    AddAllOnlyFlags(before, news);
    forall m | m in mid ensures m.uuid != id {
      var i :| 0 <= i < |mid| && mid[i] == m;
      assert (before + news)[i] in before + news;
    }
    ProcessAllIds(mid, copies, id);
  }

  /** Only stable rows carry the flag. */
  ghost predicate FlagsAreStable(rows: Rows)
  {
    forall r :: r in rows && r.latest ==> r.stable
  }

  lemma AnnounceFlagsStable(rows: Rows, e: Row)
    requires FlagsAreStable(rows) && !e.latest && forall r :: r in rows ==> r.uuid != e.uuid
    ensures e in rows + [e] && FlagsAreStable(Announce(rows + [e], e))
  {
    var more := rows + [e];
    assert more[|rows|] == e;
    var next := Announce(more, e);
    forall r | r in next && r.latest ensures r.stable {
      var i :| 0 <= i < |next| && next[i] == r;
      assert i < |rows| ==> more[i] == rows[i] && rows[i] in rows;
    }
  }

  lemma {:induction false} AddAllFlagsStable(rows: Rows, news: seq<Row>)
    requires FlagsAreStable(rows) && DistinctIds(rows) && Fresh(rows, news)
    ensures FlagsAreStable(AddAll(rows, news))
    decreases |news|
  {
    if news != [] {
      assert news[0] in news;
      AnnounceFlagsStable(rows, news[0]);
      FreshNext(rows, news);
      AddAllFlagsStable(Announce(rows + [news[0]], news[0]), news[1..]);
    }
  }

  lemma ProcessFlagsStable(rows: Rows, copy: Row)
    requires FlagsAreStable(rows)
    ensures FlagsAreStable(Process(rows, copy))
  {
    var mid := TakeOut(rows, copy);
    forall r | r in mid && r.latest ensures r.stable {
      var i :| 0 <= i < |mid| && mid[i] == r;
      if copy.installed && (copy.stable || copy.latest) { assert rows[i] in rows; }
    }
    var s := Candidates(mid, copy.product);
    forall r | r in Process(rows, copy) && r.latest ensures r.stable {
      if Flagged(copy, copy.product) && s != [] {
        assert s[Max(s)] in s;
        var out := Promote(mid, copy.product);
        var i :| 0 <= i < |out| && out[i] == r;
        assert mid[i] in mid;
      }
    }
  }

  /** A refresh flags stable rows only. */
  lemma {:induction false} ProcessAllFlagsStable(rows: Rows, copies: seq<Row>)
    requires FlagsAreStable(rows)
    ensures FlagsAreStable(ProcessAll(rows, copies))
    decreases |copies|
  {
    if copies != [] {
      ProcessFlagsStable(rows, copies[0]);
      ProcessAllFlagsStable(Process(rows, copies[0]), copies[1..]);
    }
  }

  class Catalogue {
    var rows: Rows

    ghost predicate Valid()
      reads this
    {
      DistinctIds(rows)
    }

    /** `latest` moves to a new stable element if it is the greatest version. */
    method SetLatestForNew(e: Row)
      requires Valid() && e in rows
      modifies this
      ensures Valid() && rows == Announce(old(rows), e)
    {
      if !e.stable { return; }
      var stable := Candidates(rows, e.product);
      assert e in stable;
      if stable[Max(stable)].uuid != e.uuid { return; }
      ghost var before := rows;
      ghost var cleared := ClearOthers(e);
      UnflagOthers(before, cleared, e);
      FlagOnlyDistinct(before, e);
      if !e.latest {
        rows := Replace(rows, e.(latest := true));
      }
    }

    method ClearOthers(e: Row) returns (ghost cleared: set<int>)
      requires Valid() && e in rows
      modifies this
      ensures rows == Unflag(old(rows), cleared)
      ensures forall r :: r in old(rows) ==> (r.uuid in cleared <==> r.product == e.product && r.uuid != e.uuid)
    {
      ghost var before := rows;
      var elements := OfProduct(rows, e.product);
      cleared := {};
      assert Unflag(before, {}) == before;
      for i := 0 to |elements|
        invariant rows == Unflag(before, cleared)
        invariant forall k :: 0 <= k < i ==> elements[k].uuid == e.uuid || elements[k].uuid in cleared
        invariant forall id :: id in cleared ==> id != e.uuid && Owned(before, e.product, id)
      {
        var candidate := elements[i];
        assert candidate in elements && Owned(before, e.product, candidate.uuid);
        if candidate.uuid != e.uuid {
          UnflagOne(before, cleared, candidate);
          if candidate.latest {
            rows := Replace(rows, candidate.(latest := false));
          }
          cleared := cleared + {candidate.uuid};
        }
      }
    }

    /** Flags the greatest stable version that remains. */
    method SetLatestForOutdated(p: Product)
      requires Valid()
      modifies this
      ensures Valid() && rows == Promote(old(rows), p)
    {
      var stable := Candidates(rows, p);
      if stable == [] { return; }
      var latest := stable[Max(stable)];
      assert latest in stable;
      if !latest.latest {
        rows := Replace(rows, latest.(latest := true));
      } else {
        forall j | 0 <= j < |rows| && rows[j].uuid == latest.uuid ensures rows[j] == latest {
          SameId(rows, rows[j], latest);
        }
        assert Replace(rows, latest.(latest := true)) == rows;
      }
    }

    /** Takes an installed element out of the catalogue, keeping its row. */
    method Retire(copy: Row)
      requires Valid() && copy.installed
      modifies this
      ensures Valid() && rows == Process(old(rows), copy)
    {
      if !(copy.stable || copy.latest) { return; }
      rows := Replace(rows, copy.(stable := false, latest := false));
      if copy.stable && copy.latest { SetLatestForOutdated(copy.product); }
    }

    /** Deletes an element that is not installed. */
    method Delete(copy: Row)
      requires Valid() && !copy.installed
      modifies this
      ensures Valid() && rows == Process(old(rows), copy)
    {
      WithoutDistinct(rows, copy.uuid);
      rows := Without(rows, copy.uuid);
      if copy.stable && copy.latest { SetLatestForOutdated(copy.product); }
    }

    /** Adds what the source newly offers, in any order, and takes out what it no longer
        offers, deciding on copies fetched once, in table order. */
    method Refresh(repository: int, inventory: seq<Row>) returns (ghost news: seq<Row>, ghost copies: seq<Row>)
      requires Valid() && DistinctKeys(rows) && Offer(rows, repository, inventory)
      modifies this
      ensures Valid() && rows == ProcessAll(AddAll(old(rows), news), copies)
      ensures Arrivals(old(rows), repository, inventory, news)
      ensures Departures(AddAll(old(rows), news), repository, inventory, copies)
      ensures Refreshed(old(rows), repository, inventory, rows)
      ensures FlagsAreStable(old(rows)) ==> FlagsAreStable(rows)
    {
      ghost var before := rows;
      var existing: map<Key, int> := map[];
      for i := 0 to |rows|
        invariant rows == before
        invariant forall k :: k in existing ==> Listed(before, repository, k)
        invariant forall j :: 0 <= j < i && before[j].product.repository == repository ==>
                    KeyOf(before[j]) in existing && existing[KeyOf(before[j])] == before[j].uuid
      {
        if rows[i].product.repository == repository {
          assert rows[i] in rows;
          forall j | 0 <= j < i && before[j].product.repository == repository && KeyOf(before[j]) == KeyOf(before[i])
            ensures before[j].uuid == before[i].uuid
          {
            assert before[j] in before;
          }
          existing := existing[KeyOf(rows[i]) := rows[i].uuid];
        }
      }
      var offered: map<Key, Row> := map[];
      for i := 0 to |inventory|
        invariant forall k :: k in offered ==> offered[k] in inventory && KeyOf(offered[k]) == k
        invariant forall j :: 0 <= j < i ==> KeyOf(inventory[j]) in offered
      {
        offered := offered[KeyOf(inventory[i]) := inventory[i]];
      }
      forall k ensures k in offered <==> Offered(inventory, k) {
        if Offered(inventory, k) {
          var e :| e in inventory && KeyOf(e) == k;
          var i :| 0 <= i < |inventory| && inventory[i] == e;
        }
      }
      forall k ensures k in existing <==> Listed(before, repository, k) {
        if Listed(before, repository, k) {
          var r :| r in before && r.product.repository == repository && KeyOf(r) == k;
          var i :| 0 <= i < |before| && before[i] == r;
        }
      }
      news := AddNew(repository, inventory, existing.Keys, offered);
      var stale := set k | k in existing && k !in offered :: existing[k];
      StaleIdsDepart(before, news, repository, inventory, existing, offered.Keys, stale);
      copies := RemoveStale(stale);
      RefreshIsRefreshed(before, repository, inventory, news, copies);
      if FlagsAreStable(before) {
        AddAllFlagsStable(before, news);
        ProcessAllFlagsStable(AddAll(before, news), copies);
      }
    }

    method AddNew(repository: int, inventory: seq<Row>, existing: set<Key>, offered: map<Key, Row>)
      returns (ghost news: seq<Row>)
      requires Valid() && Offer(rows, repository, inventory)
      requires forall k :: k in existing <==> Listed(rows, repository, k)
      requires forall k :: k in offered ==> offered[k] in inventory && KeyOf(offered[k]) == k
      requires forall k :: k in offered <==> Offered(inventory, k)
      modifies this
      ensures Valid() && rows == AddAll(old(rows), news) && Arrivals(old(rows), repository, inventory, news)
    {
      ghost var before := rows;
      var pending := offered.Keys - existing;
      news := [];
      while pending != {}
        invariant pending <= offered.Keys - existing
        invariant rows == AddAll(before, news) && DistinctIds(rows) && DistinctIds(news)
        invariant forall e :: e in news ==>
                    KeyOf(e) in offered && KeyOf(e) !in existing && KeyOf(e) !in pending && e == offered[KeyOf(e)]
        invariant forall k :: k in offered && k !in existing && k !in pending ==> offered[k] in news
        decreases |pending|
      {
        var key :| key in pending;
        var e := offered[key];
        NotThereYet(before, inventory, news, e);
        AddAllSnoc(before, news, e);
        Save(e);
        news := news + [e];
        pending := pending - {key};
      }
      ArrivalsAre(before, repository, inventory, offered, news);
    }

    method Save(e: Row)
      requires DistinctIds(rows + [e])
      modifies this
      ensures e in old(rows) + [e] && rows == Announce(old(rows) + [e], e) && Valid()
    {
      rows := rows + [e];
      assert rows[|rows| - 1] == e;
      SetLatestForNew(e);
    }

    method RemoveStale(stale: set<int>) returns (ghost copies: seq<Row>)
      requires Valid()
      modifies this
      ensures Valid() && copies == WithIds(old(rows), stale) && rows == ProcessAll(old(rows), copies)
    {
      ghost var before := rows;
      var fetched := WithIds(rows, stale);
      copies := fetched;
      assert fetched[0..] == fetched;
      for i := 0 to |fetched|
        invariant Valid() && ProcessAll(rows, fetched[i..]) == ProcessAll(before, fetched)
      {
        assert fetched[i..][0] == fetched[i] && fetched[i..][1..] == fetched[i + 1..];
        if fetched[i].installed {
          Retire(fetched[i]);
        } else {
          Delete(fetched[i]);
        }
      }
    }
  }

  /** A row still to be announced is neither in the table nor among the announced ones. */
  lemma NotThereYet(before: Rows, inventory: seq<Row>, news: seq<Row>, e: Row)
    requires DistinctIds(before) && Fresh(before, inventory) && Fresh(before, news)
    requires e in inventory && e !in news && forall n :: n in news ==> n in inventory
    ensures forall r :: r in AddAll(before, news) ==> r.uuid != e.uuid
    ensures DistinctIds(AddAll(before, news) + [e]) && DistinctIds(news + [e])
  {
    AddAllOnlyFlags(before, news);
    AddAllDistinct(before, news);
    var rows := AddAll(before, news);
    forall n | n in news ensures n.uuid != e.uuid {
      if n.uuid == e.uuid { SameId(inventory, n, e); }
    }
    forall r | r in rows ensures r.uuid != e.uuid {
      var i :| 0 <= i < |rows| && rows[i] == r;
      assert r == (before + news)[i].(latest := r.latest);
      assert i < |before| ==> before[i] in before;
      assert i >= |before| ==> news[i - |before|] in news;
    }
  }

  // ------------------------------------------------------------------
  // A whole refresh
  // ------------------------------------------------------------------

  /** After a refresh from a correct table: for every product at most one stable row is
      flagged and it is the greatest; products of other repositories keep a correct index;
      and a product of this one does exactly when no promotion picked a departing row. */
  lemma RefreshKeepsIndexIff(before: Rows, repository: int, inventory: seq<Row>, news: seq<Row>,
                             copies: seq<Row>, p: Product)
    requires DistinctIds(before) && Offer(before, repository, inventory) && Correct(Candidates(before, p))
    requires Arrivals(before, repository, inventory, news)
    requires Departures(AddAll(before, news), repository, inventory, copies)
    ensures var after := ProcessAll(AddAll(before, news), copies);
            && Sound(Candidates(after, p))
            && (Correct(Candidates(after, p)) <==> KeepsIndex(Candidates(AddAll(before, news), p), copies, p))
            && (p.repository != repository ==> Correct(Candidates(after, p)))
  {
    AddAllKeepsCorrect(before, news, p);
    AddAllDistinct(before, news);
    TakingOutKeepsCorrectIff(AddAll(before, news), copies, p);
    if p.repository != repository {
      assert forall i :: 0 <= i < |copies| ==> copies[i] in copies;
    }
  }

  /** What the store then serves: the stable rows of the repository are all offered. */
  lemma ServesOnlyOffered(before: Rows, repository: int, inventory: seq<Row>, news: seq<Row>, copies: seq<Row>, r: Row)
    requires DistinctIds(before) && Offer(before, repository, inventory)
    requires Arrivals(before, repository, inventory, news)
    requires Departures(AddAll(before, news), repository, inventory, copies)
    requires r in ProcessAll(AddAll(before, news), copies) && r.stable && r.product.repository == repository
    ensures Offered(inventory, KeyOf(r))
  {
    AddAllDistinct(before, news);
    var mid := AddAll(before, news);
    var q := ProcessAllOnlyDrops(mid, copies, r);
    assert q !in copies;
  }

  /** A stable row that one copy leaves was there before, and is not the one taken out. */
  lemma StableLeft(rows: Rows, copy: Row, r: Row) returns (q: Row)
    requires DistinctIds(rows) && Fetched(rows, copy) && r in Process(rows, copy) && r.stable
    ensures q in rows && r == q.(latest := r.latest) && r.uuid != copy.uuid
  {
    ProcessSeen(rows, copy, r.product);
    assert r in Candidates(Process(rows, copy), r.product);
    var left := Without(Candidates(rows, r.product), copy.uuid);
    if r in left {
      q := r;
    } else {
      q := left[Max(left)];
      assert q in left;
    }
  }

  /** A stable row that is left was there before, and was not to be taken out. */
  lemma {:induction false} ProcessAllOnlyDrops(rows: Rows, copies: seq<Row>, r: Row) returns (q: Row)
    requires Snapshot(rows, copies)
    requires r in ProcessAll(rows, copies) && r.stable
    ensures q in rows && r == q.(latest := r.latest) && !Stale(copies, r.uuid)
    decreases |copies|
  {
    if copies == [] {
      q := r;
    } else {
      SnapshotNext(rows, copies);
      var m := ProcessAllOnlyDrops(Process(rows, copies[0]), copies[1..], r);
      q := StableLeft(rows, copies[0], m);
    }
  }

  // ------------------------------------------------------------------
  // The migration
  // ------------------------------------------------------------------

  /** The greatest release of a product seen so far: its version and the row's id. */
  datatype Best = Best(rank: int, uuid: int)

  /** `best` is the first of the greatest releases of the product. */
  ghost predicate IsBest(rows: Rows, p: Product, best: Best)
  {
    exists i :: 0 <= i < |rows| && IsBestAt(rows, p, best, i)
  }

  ghost predicate IsBestAt(rows: Rows, p: Product, best: Best, i: nat)
    requires i < |rows|
  {
    && rows[i].product == p && rows[i].version.release
    && best == Best(rows[i].version.rank, rows[i].uuid)
    && (forall j :: 0 <= j < |rows| && rows[j].product == p && rows[j].version.release ==>
         rows[j].version.rank <= best.rank)
  }

  ghost predicate NoRelease(rows: Rows, p: Product)
  {
    forall j :: 0 <= j < |rows| ==> !(rows[j].product == p && rows[j].version.release)
  }

  /** What the one pass has found in a prefix of the table. */
  ghost predicate BestOf(rows: Rows, best: map<Product, Best>)
  {
    && (forall p :: p in best ==> IsBest(rows, p, best[p]))
    && (forall p :: p !in best ==> NoRelease(rows, p))
  }

  function Better(best: map<Product, Best>, r: Row): map<Product, Best>
  {
    if !r.version.release then best
    else if r.product !in best || r.version.rank > best[r.product].rank
    then best[r.product := Best(r.version.rank, r.uuid)]
    else best
  }

  lemma BetterSeen(rows: Rows, best: map<Product, Best>, r: Row)
    requires BestOf(rows, best)
    ensures BestOf(rows + [r], Better(best, r))
  {
    var all, next := rows + [r], Better(best, r);
    forall p | p in next ensures IsBest(all, p, next[p]) {
      if p in best && next[p] == best[p] {
        var i :| 0 <= i < |rows| && IsBestAt(rows, p, best[p], i);
        assert IsBestAt(all, p, next[p], i);
      } else if p in best {
        var i :| 0 <= i < |rows| && IsBestAt(rows, p, best[p], i);
        assert IsBestAt(all, p, next[p], |rows|);
      } else {
        assert IsBestAt(all, p, next[p], |rows|);
      }
    }
  }

  /** What the migration should leave: releases are stable, others untouched, and per
      product one greatest release carries the flag. */
  ghost predicate Backfilled(rows: Rows, out: Rows)
  {
    && |out| == |rows|
    && (forall i :: 0 <= i < |rows| ==>
          out[i] == rows[i].(stable := rows[i].version.release, latest := out[i].latest))
    && (forall i :: 0 <= i < |rows| ==> out[i].latest ==> out[i].stable)
    && forall p :: Correct(Candidates(out, p))
  }

  ghost predicate IsRelease(rows: Rows, id: int)
  {
    exists j :: 0 <= j < |rows| && rows[j].version.release && rows[j].uuid == id
  }

  /** One pass over the table: the ids of the releases, and the best of each product. */
  method ScanVersions(rows: Rows) returns (stable: seq<int>, best: map<Product, Best>)
    ensures BestOf(rows, best)
    ensures forall id :: id in stable <==> IsRelease(rows, id)
  {
    stable, best := [], map[];
    for i := 0 to |rows|
      invariant BestOf(rows[..i], best)
      invariant forall id :: id in stable <==> IsRelease(rows[..i], id)
    {
      assert rows[..i + 1] == rows[..i] + [rows[i]];
      BetterSeen(rows[..i], best, rows[i]);
      if rows[i].version.release {
        stable := stable + [rows[i].uuid];
        var p := rows[i].product;
        if p !in best || rows[i].version.rank > best[p].rank {
          best := best[p := Best(rows[i].version.rank, rows[i].uuid)];
        }
      }
    }
    assert rows[..|rows|] == rows;
  }

  method BackfillVersionFlags(rows: Rows) returns (out: Rows)
    requires DistinctIds(rows) && forall r :: r in rows ==> !r.stable && !r.latest
    ensures Backfilled(rows, out)
  {
    var stable, best := ScanVersions(rows);
    var latest := set p | p in best :: best[p].uuid;
    out := rows;
    for k := 0 to |stable|
      invariant |out| == |rows|
      invariant forall i :: 0 <= i < |rows| ==>
                  out[i] == if rows[i].uuid in stable[..k]
                            then rows[i].(stable := true, latest := rows[i].uuid in latest) else rows[i]
    {
      assert stable[..k + 1] == stable[..k] + [stable[k]];
      out := SetFlags(out, stable[k], stable[k] in latest);
    }
    assert stable[..|stable|] == stable;
    forall p ensures Correct(Candidates(out, p)) {
      BestIsCorrect(rows, out, best, latest, p);
    }
  }

  function SetFlags(rows: Rows, uuid: int, latest: bool): (r: Rows)
    ensures |r| == |rows|
    ensures forall i :: 0 <= i < |r| ==>
              r[i] == if rows[i].uuid == uuid then rows[i].(stable := true, latest := latest) else rows[i]
  {
    seq(|rows|, i requires 0 <= i < |rows| =>
      if rows[i].uuid == uuid then rows[i].(stable := true, latest := latest) else rows[i])
  }

  lemma SomeMember(s: Rows)
    ensures s != [] ==> exists r :: r in s
  {
    if s != [] { assert s[0] in s; }
  }

  lemma BestIsCorrect(rows: Rows, out: Rows, best: map<Product, Best>, latest: set<int>, p: Product)
    requires DistinctIds(rows) && BestOf(rows, best) && latest == set q | q in best :: best[q].uuid
    requires |out| == |rows|
    requires forall i :: 0 <= i < |rows| ==>
               out[i] == rows[i].(stable := rows[i].version.release,
                                  latest := rows[i].version.release && rows[i].uuid in latest)
    ensures Correct(Candidates(out, p))
  {
    var s := Candidates(out, p);
    if p in best {
      var b :| 0 <= b < |rows| && IsBestAt(rows, p, best[p], b);
      assert out[b] in out && out[b] in s && best[p].uuid in latest;
      forall r | r in s ensures r.version.rank <= out[b].version.rank && (r.latest ==> r == out[b]) {
        var i :| 0 <= i < |out| && out[i] == r;
        if r.latest {
          var q :| q in best && best[q].uuid == r.uuid;
          var c :| 0 <= c < |rows| && IsBestAt(rows, q, best[q], c);
          assert c == i && q == p;
        }
      }
    } else {
      assert forall i :: 0 <= i < |out| ==> !StableOf(out[i], p);
      SomeMember(s);
    }
  }

  /** Without ties, a correct index is the only one: the migration and a history of
      refreshes that kept it agree on every flag. */
  lemma CorrectIsUnique(s: Rows, t: Rows)
    requires Correct(s) && Correct(t) && OnlyFlags(s, t)
    requires forall i, j :: 0 <= i < j < |s| ==> s[i].version.rank != s[j].version.rank
    ensures s == t
  {
    forall i | 0 <= i < |s| ensures s[i].latest == t[i].latest {}
  }
}
