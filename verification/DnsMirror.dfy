/** The mirror of a realm's DNS records into a zone it shares with other owners, under any
    pattern of failing calls (exordos_core/dns_sync/service.py). */
module DnsMirror {
  import opened Wrappers

  const REALM_TAG_PREFIX := "realm:"
  const FILTER_REFUSAL_TTL := 3600
  const SOA := "SOA"

  /** A row of the remote zone; rows of an older service have no tags at all. */
  datatype Row = Row(rtype: string, ttl: int, disabled: bool, data: string, tags: Option<seq<string>>)

  /** A local record. */
  datatype Local = Local(rtype: string, ttl: int, disabled: bool, data: string, tags: seq<string>)

  type Zone = map<string, Row>
  type Locals = map<string, Local>

  predicate IsMark(t: string)
    ensures IsMark(t) <==> |t| >= 6 && t[..6] == "realm:"
  {
    REALM_TAG_PREFIX <= t
  }

  function Tags(r: Row): seq<string>
  {
    if r.tags.Some? then r.tags.value else []
  }

  function RealmMarks(r: Row): set<string>
  {
    set t | t in Tags(r) && IsMark(t)
  }

  /** The row carries this realm's mark, and no other realm's. */
  predicate Ours(r: Row, mark: Option<string>)
  {
    mark.Some? && RealmMarks(r) == {mark.value}
  }

  /** A row is ours if it carries our mark and every mark among its tags is ours. */
  lemma OursMeans(r: Row, mark: string)
    requires IsMark(mark)
    ensures Ours(r, Some(mark)) <==>
            r.tags.Some? && mark in r.tags.value && forall t :: t in r.tags.value && IsMark(t) ==> t == mark
    ensures !Ours(r, None)
  {
    if r.tags.Some? && mark in r.tags.value && forall t :: t in r.tags.value && IsMark(t) ==> t == mark {
      assert RealmMarks(r) == {mark};
    }
    if Ours(r, Some(mark)) {
      assert mark in RealmMarks(r);
      forall t | t in r.tags.value && IsMark(t) ensures t == mark { assert t in RealmMarks(r); }
    }
  }

  function WithoutMarks(tags: seq<string>): (r: seq<string>)
    ensures forall t :: t in r <==> t in tags && !IsMark(t)
  {
    if tags == [] then []
    else (if IsMark(tags[0]) then [] else [tags[0]]) + WithoutMarks(tags[1..])
  }

  /** What is sent upstream: the record's tags and the mark, or none where none is held. */
  function RecordData(l: Local, mark: Option<string>): Row
  {
    Row(l.rtype, l.ttl, l.disabled, l.data,
        if mark.Some? then Some(WithoutMarks(l.tags) + [mark.value]) else None)
  }

  lemma DataIsOurs(l: Local, mark: string)
    requires IsMark(mark)
    ensures RealmMarks(RecordData(l, Some(mark))) == {mark}
  {
    var tags := WithoutMarks(l.tags) + [mark];
    assert tags[|tags| - 1] == mark;
    forall t ensures t in RealmMarks(RecordData(l, Some(mark))) <==> t == mark {
      assert t in tags <==> t in WithoutMarks(l.tags) || t == mark;
    }
  }

  /** A row with the content of a local record: its type, time to live, state and data; its
      tags that are no mark, each as often as the record has it, and the one mark besides. */
  ghost predicate Mirrors(row: Row, l: Local, mark: string)
  {
    && row.rtype == l.rtype && row.ttl == l.ttl && row.disabled == l.disabled && row.data == l.data
    && forall t: string :: multiset(Tags(row))[t] ==
                           if t == mark then 1 else if IsMark(t) then 0 else multiset(l.tags)[t]
  }

  lemma {:induction false} WithoutMarksCounts(tags: seq<string>, t: string)
    ensures multiset(WithoutMarks(tags))[t] == if IsMark(t) then 0 else multiset(tags)[t]
  {
    if tags != [] {
      WithoutMarksCounts(tags[1..], t);
      assert tags == [tags[0]] + tags[1..];
      if !IsMark(tags[0]) { assert WithoutMarks(tags) == [tags[0]] + WithoutMarks(tags[1..]); }
    }
  }

  /** What is sent has the record's content; without a mark, no tags are sent at all. */
  lemma DataMirrors(l: Local, mark: Option<string>)
    requires mark.Some? ==> IsMark(mark.value)
    ensures mark.Some? ==> Mirrors(RecordData(l, mark), l, mark.value)
    ensures mark.None? ==> RecordData(l, mark) == Row(l.rtype, l.ttl, l.disabled, l.data, None)
  {
    if mark.Some? {
      forall t: string
        ensures multiset(Tags(RecordData(l, mark)))[t] ==
                if t == mark.value then 1 else if IsMark(t) then 0 else multiset(l.tags)[t]
      {
        WithoutMarksCounts(l.tags, t);
      }
    }
  }

  /** Equal in everything that is compared; tags are compared sorted. */
  predicate SameRow(a: Row, b: Row)
  {
    a.rtype == b.rtype && a.ttl == b.ttl && a.disabled == b.disabled && a.data == b.data &&
    multiset(Tags(a)) == multiset(Tags(b))
  }

  // ------------------------------------------------------------------
  // What a pass should make of one id
  // ------------------------------------------------------------------

  function At<T>(m: map<string, T>, id: string): Option<T>
  {
    if id in m then Some(m[id]) else None
  }

  /** Local records are written unless somebody else's row has their id; rows of ours that
      have no local record go; everything else stays. */
  function Settled(row: Option<Row>, local: Option<Local>, mark: Option<string>): Option<Row>
  {
    if local.Some? then
      if row.None? then Some(RecordData(local.value, mark))
      else if Ours(row.value, mark) && !SameRow(RecordData(local.value, mark), row.value)
      then Some(RecordData(local.value, mark))
      else row
    else if row.Some? && row.value.rtype != SOA && Ours(row.value, mark) then None
    else row
  }

  /** A pass in which nothing failed. */
  ghost predicate Synced(before: Zone, after: Zone, locals: Locals, mark: Option<string>)
  {
    forall id :: At(after, id) == Settled(At(before, id), At(locals, id), mark)
  }

  /** A pass in which anything failed: each id is as it was, or as it should be. */
  ghost predicate Partly(before: Zone, after: Zone, locals: Locals, mark: Option<string>)
  {
    forall id :: At(after, id) == At(before, id) || At(after, id) == Settled(At(before, id), At(locals, id), mark)
  }

  /** Nothing is left to be done. */
  ghost predicate Quiet(zone: Zone, locals: Locals, mark: Option<string>)
  {
    forall id :: At(zone, id) == Settled(At(zone, id), At(locals, id), mark)
  }

  ghost predicate GoodLocals(locals: Locals)
  {
    forall id :: id in locals ==> locals[id].rtype != SOA
  }

  // ------------------------------------------------------------------
  // What that means for the zone
  // ------------------------------------------------------------------

  /** What was settled once stays so. */
  lemma SettledStays(row: Option<Row>, local: Option<Local>, mark: Option<string>)
    requires mark.Some? ==> IsMark(mark.value)
    ensures Settled(Settled(row, local, mark), local, mark) == Settled(row, local, mark)
  {
    if local.Some? && mark.Some? { DataIsOurs(local.value, mark.value); }
  }

  /** Foreign rows are safe, whatever fails. */
  lemma ForeignRowsStay(before: Zone, after: Zone, locals: Locals, mark: Option<string>, id: string)
    requires Partly(before, after, locals, mark) && id in before && !Ours(before[id], mark)
    ensures id in after && after[id] == before[id]
  {
    assert At(after, id) == Some(before[id]);
  }

  /** After a pass without a failure the rows of this realm, save an SOA record, are exactly
      the local records that no foreign row blocks. */
  lemma MirrorsLocals(before: Zone, after: Zone, locals: Locals, tag: string, id: string)
    requires Synced(before, after, locals, Some(tag)) && IsMark(tag) && GoodLocals(locals)
    ensures id in after && Ours(after[id], Some(tag)) && after[id].rtype != SOA <==>
            id in locals && (id in before ==> Ours(before[id], Some(tag)))
    ensures id in locals && (id in before ==> Ours(before[id], Some(tag))) ==>
              id in after && Mirrors(after[id], locals[id], tag)
  {
    assert At(after, id) == Settled(At(before, id), At(locals, id), Some(tag));
    if id in locals {
      DataIsOurs(locals[id], tag);
      DataMirrors(locals[id], Some(tag));
    }
  }

  /** Every local record that no foreign row blocks is there with its content. */
  ghost predicate AllMirrored(before: Zone, after: Zone, locals: Locals, tag: string)
  {
    forall id :: id in locals && (id in before ==> Ours(before[id], Some(tag))) ==>
      id in after && Mirrors(after[id], locals[id], tag)
  }

  /** An SOA row without a local record of its id is never touched, whatever fails. */
  lemma SoaStays(before: Zone, after: Zone, locals: Locals, mark: Option<string>, id: string)
    requires Partly(before, after, locals, mark) && id in before && before[id].rtype == SOA && id !in locals
    ensures id in after && after[id] == before[id]
  {
    assert At(after, id) == Some(before[id]);
  }

  /** A zone without any tags gets the local records it does not have, without tags, and
      keeps its rows. */
  lemma MirrorsUntagged(before: Zone, after: Zone, locals: Locals, id: string)
    requires Synced(before, after, locals, None)
    ensures id in after <==> id in before || id in locals
    ensures id in before ==> id in after && after[id] == before[id]
    ensures id in locals && id !in before ==>
              id in after &&
              var l := locals[id];
              after[id] == Row(l.rtype, l.ttl, l.disabled, l.data, None)
  {
    assert At(after, id) == Settled(At(before, id), At(locals, id), None);
  }

  /** No row has tags, as in a zone of an older service, or an empty one. */
  ghost predicate Tagless(zone: Zone)
  {
    forall id :: id in zone ==> zone[id].tags.None?
  }

  /** The marks a pass may work with, depending on how the zone was read: this realm's, or
      none, which takes a read that showed no tags. */
  ghost predicate MarkOf(mark: Option<string>, before: Zone, tag: string)
  {
    mark == Some(tag) || (mark == None && Tagless(before))
  }

  /** A second pass finds nothing to do, whatever marks the two passes work with. */
  lemma SyncedIsQuiet(before: Zone, after: Zone, locals: Locals, tag: string, m1: Option<string>, m2: Option<string>)
    requires IsMark(tag) && Synced(before, after, locals, m1) && MarkOf(m1, before, tag)
    requires m2 == None || m2 == Some(tag)
    ensures Quiet(after, locals, m2)
  {
    forall id ensures At(after, id) == Settled(At(after, id), At(locals, id), m2) {
      SettledStays(At(before, id), At(locals, id), m1);
      if id in after && m1.None? { assert At(after, id) == Settled(At(before, id), At(locals, id), None); }
      if id in locals { DataIsOurs(locals[id], tag); }
    }
  }

  /** Two passes over one zone, read in any two ways, end in the same zone if and only if
      they work with the same mark or have nothing to add. */
  lemma SyncedIsUniqueIff(before: Zone, a: Zone, b: Zone, locals: Locals, tag: string, m1: Option<string>,
                          m2: Option<string>)
    requires Synced(before, a, locals, m1) && MarkOf(m1, before, tag)
    requires Synced(before, b, locals, m2) && MarkOf(m2, before, tag)
    ensures a == b <==> m1 == m2 || locals.Keys <= before.Keys
    ensures !Tagless(before) ==> a == b
  {
    if m1 == m2 || locals.Keys <= before.Keys {
      forall id ensures (id in a <==> id in b) && (id in a ==> a[id] == b[id]) {
        assert At(a, id) == At(b, id);
      }
    } else {
      var id :| id in locals && id !in before;
      assert At(a, id) == Some(RecordData(locals[id], m1)) && At(b, id) == Some(RecordData(locals[id], m2));
    }
  }

  /** Passes that failed in part, in any number, each with its own mark. */
  ghost predicate FailedPasses(zones: seq<Zone>, marks: seq<Option<string>>, locals: Locals, tag: string)
  {
    && |zones| == |marks| + 1
    && (forall i :: 0 <= i < |marks| ==> marks[i] == None || marks[i] == Some(tag))
    && (forall i :: 0 <= i < |marks| ==> Partly(zones[i], zones[i + 1], locals, marks[i]))
  }

  /** Settled once, with a mark or without. */
  predicate EndsSettled(row: Option<Row>, local: Option<Local>, tag: string, out: Option<Row>)
  {
    out == Settled(row, local, Some(tag)) || out == Settled(row, local, None)
  }

  /** Settling with one mark what was settled with another gives one of the two. */
  lemma SettledAgain(row: Option<Row>, local: Option<Local>, tag: string, out: Option<Row>, mark: Option<string>)
    requires IsMark(tag) && (out == row || EndsSettled(row, local, tag, out))
    requires mark == None || mark == Some(tag)
    ensures EndsSettled(row, local, tag, Settled(out, local, mark))
    ensures row.Some? && mark.Some? ==> Settled(out, local, mark) == Settled(row, local, mark)
  {
    SettledStays(row, local, Some(tag));
    if local.Some? { DataIsOurs(local.value, tag); }
  }

  /** However many passes fail, every row is as it was or settled once. */
  lemma {:induction false} FailedPassesAddUp(zones: seq<Zone>, marks: seq<Option<string>>, locals: Locals,
                                             tag: string, n: nat, id: string)
    requires FailedPasses(zones, marks, locals, tag) && n < |zones| && IsMark(tag)
    ensures At(zones[n], id) == At(zones[0], id) || EndsSettled(At(zones[0], id), At(locals, id), tag, At(zones[n], id))
    ensures (forall i :: 0 <= i < n ==> marks[i] == Some(tag)) ==>
              At(zones[n], id) == At(zones[0], id) ||
              At(zones[n], id) == Settled(At(zones[0], id), At(locals, id), Some(tag))
  {
    if n > 0 {
      FailedPassesAddUp(zones, marks, locals, tag, n - 1, id);
      assert Partly(zones[n - 1], zones[n - 1 + 1], locals, marks[n - 1]);
      SettledAgain(At(zones[0], id), At(locals, id), tag, At(zones[n - 1], id), marks[n - 1]);
      SettledStays(At(zones[0], id), At(locals, id), Some(tag));
    }
  }

  /** One pass without a failure makes up for all that failed before it: every row ends
      settled; one that was there from the start, or in a history with one mark, exactly as
      if nothing had failed. */
  lemma RecoversFromFailures(zones: seq<Zone>, marks: seq<Option<string>>, after: Zone, locals: Locals,
                             tag: string, last: Option<string>)
    requires FailedPasses(zones, marks, locals, tag) && IsMark(tag) && (last == None || last == Some(tag))
    requires Synced(zones[|marks|], after, locals, last)
    ensures forall id :: EndsSettled(At(zones[0], id), At(locals, id), tag, At(after, id))
    ensures last.Some? ==>
              forall id :: id in zones[0] ==> At(after, id) == Settled(At(zones[0], id), At(locals, id), last)
    ensures last.Some? && (forall i :: 0 <= i < |marks| ==> marks[i] == last) ==> Synced(zones[0], after, locals, last)
  {
    forall id
      ensures EndsSettled(At(zones[0], id), At(locals, id), tag, At(after, id))
      ensures last.Some? && id in zones[0] ==> At(after, id) == Settled(At(zones[0], id), At(locals, id), last)
      ensures last.Some? && (forall i :: 0 <= i < |marks| ==> marks[i] == last) ==>
                At(after, id) == Settled(At(zones[0], id), At(locals, id), last)
    {
      FailedPassesAddUp(zones, marks, locals, tag, |marks|, id);
      SettledAgain(At(zones[0], id), At(locals, id), tag, At(zones[|marks|], id), last);
      SettledStays(At(zones[0], id), At(locals, id), last);
    }
  }

  // ------------------------------------------------------------------
  // The remote service
  // ------------------------------------------------------------------

  datatype Outcome = Done | Conflict | Failed

  datatype Answer = Rows(rows: Zone) | Refused | NoAnswer

  /** The zone as the remote service holds it. Any call may fail, before or after it took
      effect; `failures` counts the calls that did, and `writes` the effects. */
  class RemoteZone {
    var rows: Zone
    var writes: nat
    var failures: nat

    method Post(id: string, row: Row) returns (o: Outcome)
      modifies this
      ensures o.Done? ==> id !in old(rows) && rows == old(rows)[id := row]
      ensures o.Conflict? ==> id in old(rows)
      ensures rows == old(rows) || (id !in old(rows) && rows == old(rows)[id := row])
      ensures id in old(rows) ==> writes == old(writes)
      ensures failures == old(failures) + if o.Failed? then 1 else 0
    {
      var lost: bool := *;
      if lost { failures := failures + 1; return Failed; }
      if id in rows { return Conflict; }
      rows, writes := rows[id := row], writes + 1;
      var unheard: bool := *;
      if unheard { failures := failures + 1; return Failed; }
      return Done;
    }

    /** A missing row is an answer too. */
    method Get(id: string) returns (r: Option<Row>)
      modifies this`failures
      ensures r.Some? ==> id in rows && r.value == rows[id]
      ensures r.None? ==> failures > old(failures) || id !in rows
      ensures failures >= old(failures)
    {
      var fails: bool := *;
      if fails { failures := failures + 1; return None; }
      r := if id in rows then Some(rows[id]) else None;
    }

    method Put(id: string, row: Row) returns (o: Outcome)
      requires id in rows
      modifies this
      ensures o.Done? ==> rows == old(rows)[id := row]
      ensures !o.Conflict? && (rows == old(rows) || rows == old(rows)[id := row])
      ensures failures == old(failures) + if o.Failed? then 1 else 0
    {
      var lost: bool := *;
      if lost { failures := failures + 1; return Failed; }
      rows, writes := rows[id := row], writes + 1;
      var unheard: bool := *;
      if unheard { failures := failures + 1; return Failed; }
      return Done;
    }

    method Delete(id: string) returns (o: Outcome)
      requires id in rows
      modifies this
      ensures o.Done? ==> rows == old(rows) - {id}
      ensures !o.Conflict? && (rows == old(rows) || rows == old(rows) - {id})
      ensures failures == old(failures) + if o.Failed? then 1 else 0
    {
      var lost: bool := *;
      if lost { failures := failures + 1; return Failed; }
      rows, writes := rows - {id}, writes + 1;
      var unheard: bool := *;
      if unheard { failures := failures + 1; return Failed; }
      return Done;
    }

    /** The rows that carry the tag; an older service refuses the filter. */
    method ListTagged(tag: string) returns (a: Answer)
      modifies this`failures
      ensures a.Rows? ==> a.rows == map id | id in rows && tag in Tags(rows[id]) :: rows[id]
      ensures failures == old(failures) + if a.NoAnswer? then 1 else 0
    {
      var refuses: bool := *;
      if refuses { return Refused; }
      var fails: bool := *;
      if fails { failures := failures + 1; return NoAnswer; }
      return Rows(map id | id in rows && tag in Tags(rows[id]) :: rows[id]);
    }

    method ListAll() returns (a: Answer)
      modifies this`failures
      ensures a.Rows? ==> a.rows == rows
      ensures !a.Refused?
      ensures failures == old(failures) + if a.NoAnswer? then 1 else 0
    {
      var fails: bool := *;
      if fails { failures := failures + 1; return NoAnswer; }
      return Rows(rows);
    }
  }

  // ------------------------------------------------------------------
  // The mirror
  // ------------------------------------------------------------------

  /** How far a pass is: the ids handled are settled if nothing failed so far. */
  ghost predicate Progress(before: Zone, now: Zone, locals: Locals, mark: Option<string>, done: set<string>,
                           clean: bool)
  {
    && Partly(before, now, locals, mark)
    && (forall id :: id !in done ==> At(now, id) == At(before, id))
    && (clean ==> forall id :: id in done ==> At(now, id) == Settled(At(before, id), At(locals, id), mark))
  }

  ghost predicate Untouched(before: Zone, now: Zone, id: string)
  {
    forall k :: k != id ==> At(now, k) == At(before, k)
  }

  /** What sending one record makes of the row with its id: it is added, or overwrites a row
      of ours. */
  function Sent(row: Option<Row>, local: Local, mark: Option<string>): Option<Row>
  {
    if row.None? || Ours(row.value, mark) then Some(RecordData(local, mark)) else row
  }

  lemma ProgressStep(before: Zone, mid: Zone, now: Zone, locals: Locals, mark: Option<string>, done: set<string>,
                     id: string, clean: bool, ok: bool)
    requires Progress(before, mid, locals, mark, done, clean) && id !in done && Untouched(mid, now, id)
    requires var settled := Settled(At(before, id), At(locals, id), mark);
             At(now, id) == settled || (!ok && At(now, id) == At(before, id))
    ensures Progress(before, now, locals, mark, done + {id}, clean && ok)
  {
  }

  class DNSSyncService {
    var filterRefusedAt: Option<int>
    var tagsUnsupported: bool

    ghost predicate Valid()
      reads this
    {
      tagsUnsupported ==> filterRefusedAt.Some?
    }

    constructor ()
      ensures Valid() && filterRefusedAt == None
    {
      filterRefusedAt, tagsUnsupported := None, false;
    }

    function MarkFor(tag: string): Option<string>
      reads this
    {
      if tagsUnsupported then None else Some(tag)
    }

    method FilterRefused(now: int) returns (refused: bool)
      requires Valid()
      modifies this
      ensures Valid() && (refused <==> filterRefusedAt.Some?)
      ensures refused ==> filterRefusedAt == old(filterRefusedAt) && tagsUnsupported == old(tagsUnsupported)
      ensures refused <==> old(filterRefusedAt).Some? && now - old(filterRefusedAt).value < FILTER_REFUSAL_TTL
    {
      if filterRefusedAt.None? { return false; }
      if now - filterRefusedAt.value >= FILTER_REFUSAL_TTL {
        filterRefusedAt, tagsUnsupported := None, false;
        return false;
      }
      return true;
    }

    /** Whether the service holds tags shows only in a zone that is not empty. */
    method ObserveTags(rows: Zone)
      modifies this`tagsUnsupported
      ensures tagsUnsupported ==
              if rows == map[] then old(tagsUnsupported) else forall id :: id in rows ==> rows[id].tags.None?
    {
      if rows != map[] {
        tagsUnsupported := !(exists id :: id in rows && rows[id].tags.Some?);
      }
    }

    /** Asks for the marked rows, or, where the filter is refused, for the whole zone. */
    method ListRecords(remote: RemoteZone, tag: string, now: int) returns (r: Option<Zone>)
      requires Valid()
      modifies this, remote`failures
      ensures Valid() && remote.failures >= old(remote.failures)
      ensures r.None? <==> remote.failures > old(remote.failures)
      ensures r.Some? ==> forall id :: id in r.value ==> id in remote.rows && r.value[id] == remote.rows[id]
      ensures r.Some? ==> forall id :: id in remote.rows && Ours(remote.rows[id], MarkFor(tag)) ==> id in r.value
      ensures r.Some? && tagsUnsupported ==> forall id :: id in remote.rows ==> remote.rows[id].tags.None?
    {
      var refused := FilterRefused(now);
      if !refused {
        var a := remote.ListTagged(tag);
        if a.Rows? {
          forall id | id in remote.rows && Ours(remote.rows[id], Some(tag)) ensures id in a.rows {
            assert tag in RealmMarks(remote.rows[id]);
          }
          return Some(a.rows);
        }
        if a.NoAnswer? { return None; }
      }
      var all := remote.ListAll();
      if !all.Rows? { return None; }
      if !refused { filterRefusedAt := Some(now); }
      ObserveTags(all.rows);
      r := Some(all.rows);
    }

    /** Overwrites a row, but only one that carries exactly the mark that is sent. */
    method UpdateRecord(remote: RemoteZone, id: string, data: Row)
      modifies remote
      ensures remote.failures >= old(remote.failures)
      ensures var may := id in old(remote.rows) && |RealmMarks(data)| == 1 &&
                         RealmMarks(old(remote.rows)[id]) == RealmMarks(data);
              && (remote.rows == old(remote.rows) || (may && remote.rows == old(remote.rows)[id := data]))
              && (may && remote.failures == old(remote.failures) ==> remote.rows == old(remote.rows)[id := data])
              && (!may ==> remote.writes == old(remote.writes))
    {
      var marks := RealmMarks(data);
      if |marks| != 1 { return; }
      var existing := remote.Get(id);
      if existing.None? { return; }
      if RealmMarks(existing.value) != marks { return; }
      var o := remote.Put(id, data);
    }

    /** Adds a row; one that has its id already is overwritten if it is ours. */
    method CreateRecord(remote: RemoteZone, id: string, local: Local, mark: Option<string>)
      requires mark.Some? ==> IsMark(mark.value)
      modifies remote
      ensures remote.failures >= old(remote.failures)
      ensures Untouched(old(remote.rows), remote.rows, id)
      ensures At(remote.rows, id) == old(At(remote.rows, id)) ||
              At(remote.rows, id) == Sent(old(At(remote.rows, id)), local, mark)
      ensures remote.failures == old(remote.failures) ==>
                At(remote.rows, id) == Sent(old(At(remote.rows, id)), local, mark)
      ensures id in old(remote.rows) && !Ours(old(remote.rows)[id], mark) ==> remote.writes == old(remote.writes)
      ensures mark.Some? && remote.failures == old(remote.failures) &&
              (id in old(remote.rows) ==> Ours(old(remote.rows)[id], mark)) ==>
                id in remote.rows && Mirrors(remote.rows[id], local, mark.value)
    {
      DataMirrors(local, mark);
      var data := RecordData(local, mark);
      if mark.Some? { DataIsOurs(local, mark.value); }
      var o := remote.Post(id, data);
      if o.Conflict? {
        UpdateRecord(remote, id, data);
      }
    }

    method CreateAll(remote: RemoteZone, ids: set<string>, locals: Locals, mark: Option<string>)
      requires ids <= locals.Keys && GoodLocals(locals) && (mark.Some? ==> IsMark(mark.value))
      requires forall id :: id in ids && id in remote.rows && Ours(remote.rows[id], mark) ==>
                 remote.rows[id].rtype == SOA
      modifies remote
      ensures remote.failures >= old(remote.failures)
      ensures Progress(old(remote.rows), remote.rows, locals, mark, ids, remote.failures == old(remote.failures))
      ensures Quiet(old(remote.rows), locals, mark) ==> remote.writes == old(remote.writes)
    {
      ghost var before, start, done: set<string> := remote.rows, remote.failures, {};
      var q := InAnyOrder(ids);
      for i := 0 to |q|
        invariant done == set k | 0 <= k < i :: q[k]
        invariant remote.failures >= start
        invariant Progress(before, remote.rows, locals, mark, done, remote.failures == start)
        invariant Quiet(before, locals, mark) ==> remote.writes == old(remote.writes)
      {
        var id := q[i];
        assert id in q;
        ghost var mid, failed := remote.rows, remote.failures;
        assert At(mid, id) == At(before, id);
        CreateRecord(remote, id, locals[id], mark);
        ProgressStep(before, mid, remote.rows, locals, mark, done, id, failed == start, remote.failures == failed);
        done := done + {id};
      }
      assert forall id :: id in ids ==> id in q;
    }

    method UpdateAll(remote: RemoteZone, ids: set<string>, shown: Zone, locals: Locals, mark: Option<string>)
      requires ids <= locals.Keys * shown.Keys && (mark.Some? ==> IsMark(mark.value))
      requires forall id :: id in ids ==> id in remote.rows && remote.rows[id] == shown[id]
      modifies remote
      ensures remote.failures >= old(remote.failures)
      ensures Progress(old(remote.rows), remote.rows, locals, mark, ids, remote.failures == old(remote.failures))
      ensures Quiet(old(remote.rows), locals, mark) ==> remote.writes == old(remote.writes)
    {
      ghost var before, start, done: set<string> := remote.rows, remote.failures, {};
      var q := InAnyOrder(ids);
      for i := 0 to |q|
        invariant done == set k | 0 <= k < i :: q[k]
        invariant remote.failures >= start
        invariant Progress(before, remote.rows, locals, mark, done, remote.failures == start)
        invariant Quiet(before, locals, mark) ==> remote.writes == old(remote.writes)
      {
        var id := q[i];
        assert id in q;
        ghost var mid, failed := remote.rows, remote.failures;
        assert At(mid, id) == At(before, id);
        var data := RecordData(locals[id], mark);
        if Ours(shown[id], mark) && !SameRow(data, shown[id]) {
          DataIsOurs(locals[id], mark.value);
          UpdateRecord(remote, id, data);
        }
        ProgressStep(before, mid, remote.rows, locals, mark, done, id, failed == start, remote.failures == failed);
        done := done + {id};
      }
      assert forall id :: id in ids ==> id in q;
    }

    method DeleteAll(remote: RemoteZone, ids: set<string>, shown: Zone, locals: Locals, mark: Option<string>)
      requires ids <= shown.Keys - locals.Keys
      requires forall id :: id in ids ==> id in remote.rows && remote.rows[id] == shown[id] && shown[id].rtype != SOA
      modifies remote
      ensures remote.failures >= old(remote.failures)
      ensures Progress(old(remote.rows), remote.rows, locals, mark, ids, remote.failures == old(remote.failures))
      ensures Quiet(old(remote.rows), locals, mark) ==> remote.writes == old(remote.writes)
    {
      ghost var before, start, done: set<string> := remote.rows, remote.failures, {};
      var q := InAnyOrder(ids);
      for i := 0 to |q|
        invariant done == set k | 0 <= k < i :: q[k]
        invariant remote.failures >= start
        invariant Progress(before, remote.rows, locals, mark, done, remote.failures == start)
        invariant Quiet(before, locals, mark) ==> remote.writes == old(remote.writes)
      {
        var id := q[i];
        assert id in q;
        ghost var mid, failed := remote.rows, remote.failures;
        assert At(mid, id) == At(before, id);
        if Ours(shown[id], mark) {
          var o := remote.Delete(id);
        }
        ProgressStep(before, mid, remote.rows, locals, mark, done, id, failed == start, remote.failures == failed);
        done := done + {id};
      }
      assert forall id :: id in ids ==> id in q;
    }

    /** A pass over one zone. A failed read ends it; a failed write only skips its row. */
    method FullSyncDomain(remote: RemoteZone, locals: Locals, tag: string, now: int)
      returns (ghost mark: Option<string>)
      requires Valid() && IsMark(tag) && GoodLocals(locals)
      modifies this, remote
      ensures Valid() && (mark == None || mark == Some(tag)) && remote.failures >= old(remote.failures)
      ensures remote.failures == old(remote.failures) ==> MarkOf(mark, old(remote.rows), tag)
      ensures Partly(old(remote.rows), remote.rows, locals, mark)
      ensures remote.failures == old(remote.failures) && mark.Some? ==>
                AllMirrored(old(remote.rows), remote.rows, locals, tag)
      ensures remote.failures == old(remote.failures) ==> Synced(old(remote.rows), remote.rows, locals, mark)
      ensures Quiet(old(remote.rows), locals, mark) ==> remote.writes == old(remote.writes)
    {
      ghost var before := remote.rows;
      var listed := ListRecords(remote, tag, now);
      var written := MarkFor(tag);
      mark := written;
      if listed.None? { return; }
      var shown := map id | id in listed.value && listed.value[id].rtype != SOA :: listed.value[id];
      ghost var first, second := locals.Keys - shown.Keys, locals.Keys * shown.Keys;
      ghost var start := remote.failures;
      CreateAll(remote, locals.Keys - shown.Keys, locals, written);
      ghost var mid, a := remote.rows, remote.failures == start;
      Midway(before, mid, locals, mark, first, a, shown);
      ghost var again := remote.failures;
      UpdateAll(remote, locals.Keys * shown.Keys, shown, locals, written);
      ghost var late, b := remote.rows, remote.failures == again;
      Both(before, mid, late, locals, mark, first, second, a, b);
      Midway(before, late, locals, mark, first + second, a && b, shown);
      again := remote.failures;
      DeleteAll(remote, shown.Keys - locals.Keys, shown, locals, written);
      AllDone(before, late, remote.rows, locals, mark, shown, a && b, remote.failures == again);
    }

    /** After a pass without a failure, another one writes nothing, however it reads. */
    method SyncAgain(remote: RemoteZone, locals: Locals, tag: string, now: int, later: int)
      returns (ghost first: nat, ghost written: nat)
      requires Valid() && IsMark(tag) && GoodLocals(locals)
      modifies this, remote
      ensures Valid() && first >= old(remote.failures)
      ensures first == old(remote.failures) ==>
                remote.writes == written &&
                exists mark :: MarkOf(mark, old(remote.rows), tag) &&
                  Synced(old(remote.rows), remote.rows, locals, mark)
    {
      ghost var before := remote.rows;
      ghost var m1 := FullSyncDomain(remote, locals, tag, now);
      ghost var after := remote.rows;
      first, written := remote.failures, remote.writes;
      ghost var m2 := FullSyncDomain(remote, locals, tag, later);
      if first == old(remote.failures) {
        SyncedIsQuiet(before, after, locals, tag, m1, m2);
        forall id ensures (id in after <==> id in remote.rows) && (id in after ==> after[id] == remote.rows[id]) {
          assert At(remote.rows, id) == At(after, id);
        }
        assert remote.rows == after;
      }
    }
  }

  /** Rows that were not handled yet are still what was read, and a zone in which nothing
      is to be done stays one. */
  lemma Midway(before: Zone, now: Zone, locals: Locals, mark: Option<string>, done: set<string>, clean: bool,
               shown: Zone)
    requires Progress(before, now, locals, mark, done, clean)
    requires forall id :: id in shown ==> id in before && shown[id] == before[id]
    ensures forall id :: id in shown && id !in done ==> id in now && now[id] == shown[id]
    ensures Quiet(before, locals, mark) ==> Quiet(now, locals, mark)
  {
    forall id | id in shown && id !in done ensures id in now && now[id] == shown[id] {
      assert At(now, id) == At(before, id);
    }
    if Quiet(before, locals, mark) {
      forall id ensures At(now, id) == Settled(At(now, id), At(locals, id), mark) {
        assert At(before, id) == Settled(At(before, id), At(locals, id), mark);
        assert At(now, id) == At(before, id);
      }
    }
  }

  lemma Both(before: Zone, mid: Zone, now: Zone, locals: Locals, mark: Option<string>, first: set<string>,
             second: set<string>, a: bool, b: bool)
    requires Progress(before, mid, locals, mark, first, a) && Progress(mid, now, locals, mark, second, b)
    requires first !! second
    ensures Progress(before, now, locals, mark, first + second, a && b)
  {
    forall id
      ensures At(now, id) == At(before, id) || At(now, id) == Settled(At(before, id), At(locals, id), mark)
      ensures id !in first + second ==> At(now, id) == At(before, id)
      ensures a && b && id in first + second ==> At(now, id) == Settled(At(before, id), At(locals, id), mark)
    {
      if id in first { assert At(now, id) == At(mid, id); } else { assert At(mid, id) == At(before, id); }
    }
  }

  lemma AllDone(before: Zone, late: Zone, now: Zone, locals: Locals, mark: Option<string>, shown: Zone,
                a: bool, b: bool)
    requires Progress(before, late, locals, mark, (locals.Keys - shown.Keys) + (locals.Keys * shown.Keys), a)
    requires Progress(late, now, locals, mark, shown.Keys - locals.Keys, b)
    requires forall id :: id in before && Ours(before[id], mark) && before[id].rtype != SOA ==> id in shown
    ensures Partly(before, now, locals, mark)
    ensures a && b ==> Synced(before, now, locals, mark)
    ensures a && b && mark.Some? && IsMark(mark.value) && GoodLocals(locals) ==>
              AllMirrored(before, now, locals, mark.value)
  {
    var first, second := (locals.Keys - shown.Keys) + (locals.Keys * shown.Keys), shown.Keys - locals.Keys;
    Both(before, late, now, locals, mark, first, second, a, b);
    if a && b {
      forall id ensures At(now, id) == Settled(At(before, id), At(locals, id), mark) {
        if id !in locals && id !in shown { assert At(now, id) == At(before, id); }
      }
      if mark.Some? && IsMark(mark.value) && GoodLocals(locals) {
        forall id { MirrorsLocals(before, now, locals, mark.value, id); }
      }
    }
  }
}
