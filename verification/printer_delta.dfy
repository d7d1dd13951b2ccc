/**
 * The printer delta (`src/domain/printer-inventory-delta.ts`), its baseline table
 * (`src/domain/printer-baseline-repo.ts`) and the pass that joins them
 * (`src/plugins/amp/providers/printers-pipeline.ts`).
 */
module PrinterDelta {
  import opened Js

  datatype Printer = Printer(
    installId: Text, name: Text, source: Text, driver: Option<Text>, port: Option<Text>, location: Option<Text>,
    comments: Option<Text>, shareName: Option<Text>, hostAddress: Option<Text>,
    isDefault: bool, isShared: bool, isNetwork: bool, status: Option<Text>, detectedAtUtc: Text)

  type Rows = map<Text, Printer>

  // ----- What counts as a change --------------------------------------------

  /** `lower` stands for `toLowerCase`. */
  function Normalize(lower: Text -> Text, value: Option<Text>): Text {
    if value.None? || value.value == [] then [] else lower(Trim(value.value))
  }

  predicate IsPrinterUpdated(lower: Text -> Text, prev: Printer, curr: Printer) {
    || Normalize(lower, prev.driver) != Normalize(lower, curr.driver)
    || Normalize(lower, prev.port) != Normalize(lower, curr.port)
    || Normalize(lower, prev.location) != Normalize(lower, curr.location)
    || Normalize(lower, prev.comments) != Normalize(lower, curr.comments)
    || prev.isDefault != curr.isDefault || prev.isShared != curr.isShared || prev.isNetwork != curr.isNetwork
    || Normalize(lower, prev.shareName) != Normalize(lower, curr.shareName)
    || Normalize(lower, prev.hostAddress) != Normalize(lower, curr.hostAddress)
  }

  // ----- Deltas -------------------------------------------------------------

  datatype Delta = Delta(added: seq<Printer>, removed: seq<Printer>, updated: seq<Printer>, same: nat)

  /** The last printer under each identifier; those without one are skipped. */
  function Latest(ps: seq<Printer>): (r: Rows)
    ensures forall id :: id in r ==> id != [] && r[id].installId == id
  {
    if ps == [] then map[]
    else
      var before, last := Latest(ps[..|ps| - 1]), ps[|ps| - 1];
      if last.installId == [] then before else before[last.installId := last]
  }

  predicate NoRepeats(ps: seq<Printer>) {
    forall i, j :: 0 <= i < j < |ps| ==> ps[i].installId != ps[j].installId
  }

  /** The list holds the printers under those identifiers, each once; its order is left open. */
  predicate IsListOf(ps: seq<Printer>, m: Rows, ids: set<Text>) {
    && NoRepeats(ps)
    && (forall i :: 0 <= i < |ps| ==> ps[i].installId in ids && ps[i].installId in m && m[ps[i].installId] == ps[i])
    && (forall id :: id in ids && id in m ==> m[id] in ps)
  }

  function AddedIds(curr: Rows, prev: Rows): set<Text> { curr.Keys - prev.Keys }

  function UpdatedIds(lower: Text -> Text, curr: Rows, prev: Rows): set<Text> {
    set id | id in curr && id in prev && IsPrinterUpdated(lower, prev[id], curr[id])
  }

  predicate IsDelta(lower: Text -> Text, d: Delta, curr: Rows, prev: Rows) {
    && IsListOf(d.added, curr, AddedIds(curr, prev))
    && IsListOf(d.updated, curr, UpdatedIds(lower, curr, prev))
    && IsListOf(d.removed, prev, prev.Keys - curr.Keys)
    && d.same == Rest(|curr|, |d.added| + |d.updated|)
  }

  /** `Math.max(0, total - part)` */
  function Rest(total: nat, part: nat): nat { if total > part then total - part else 0 }

  predicate HasChanges(d: Delta) { d.added != [] || d.removed != [] || d.updated != [] }

  method ComputePrinterDelta(lower: Text -> Text, current: seq<Printer>, previous: seq<Printer>)
    returns (d: Delta, hasChanges: bool, currentCount: nat)
    ensures IsDelta(lower, d, Latest(current), Latest(previous))
    ensures hasChanges <==> HasChanges(d)
    ensures currentCount == |Latest(current)|
  {
    var prev := MapOf(previous);
    var curr := MapOf(current);
    var added, updated := Changed(lower, curr, prev);
    var removed := Gone(curr, prev);
    return Delta(added, removed, updated, Rest(|curr|, |added| + |updated|)),
           |added| > 0 || |removed| > 0 || |updated| > 0, |curr|;
  }

  method Changed(lower: Text -> Text, curr: Rows, prev: Rows) returns (added: seq<Printer>, updated: seq<Printer>)
    requires HasOwnIds(curr)
    ensures IsListOf(added, curr, AddedIds(curr, prev))
    ensures IsListOf(updated, curr, UpdatedIds(lower, curr, prev))
  {
    added, updated := [], [];
    ghost var adds, updates := AddedIds(curr, prev), UpdatedIds(lower, curr, prev);
    var left := curr.Keys;
    assert adds - left == {} && updates - left == {};
    while left != {}
      invariant left <= curr.Keys
      invariant IsListOf(added, curr, adds - left) && IsListOf(updated, curr, updates - left)
      decreases left
    {
      var id :| id in left;
      OneLess(adds, left, id);
      OneLess(updates, left, id);
      if id !in prev {
        ListGrows(added, curr, adds - left, id);
        added := added + [curr[id]];
      } else if IsPrinterUpdated(lower, prev[id], curr[id]) {
        ListGrows(updated, curr, updates - left, id);
        updated := updated + [curr[id]];
      }
      left := left - {id};
    }
    assert adds - left == adds && updates - left == updates;
  }

  method Gone(curr: Rows, prev: Rows) returns (removed: seq<Printer>)
    requires HasOwnIds(prev)
    ensures IsListOf(removed, prev, prev.Keys - curr.Keys)
  {
    removed := ListOf(prev, prev.Keys - curr.Keys);
  }

  /** The printers under those identifiers, in the order the loop meets them. */
  method ListOf(m: Rows, ids: set<Text>) returns (out: seq<Printer>)
    requires HasOwnIds(m) && ids <= m.Keys
    ensures IsListOf(out, m, ids)
  {
    out := [];
    var left := ids;
    assert ids - left == {};
    while left != {}
      invariant left <= ids && IsListOf(out, m, ids - left)
      decreases left
    {
      var id :| id in left;
      OneLess(ids, left, id);
      ListGrows(out, m, ids - left, id);
      left := left - {id};
      out := out + [m[id]];
    }
    assert ids - left == ids;
  }

  lemma NothingListed(ps: seq<Printer>, m: Rows, ids: set<Text>)
    requires IsListOf(ps, m, ids) && ps == []
    ensures forall id :: id in m ==> id !in ids
  {
    assert forall id :: id in m && m[id] !in ps ==> id !in ids;
  }

  /** Such a list is as long as there are identifiers. */
  lemma {:induction false} ListCount(ps: seq<Printer>, m: Rows, ids: set<Text>)
    requires IsListOf(ps, m, ids) && ids <= m.Keys && HasOwnIds(m)
    ensures |ps| == |ids|
    decreases |ps|
  {
    if ps == [] {
      NothingListed(ps, m, ids);
      assert ids == {};
    } else {
      var before, last := ps[..|ps| - 1], ps[|ps| - 1];
      assert ps == before + [last];
      var fewer := ids - {last.installId};
      assert IsListOf(before, m, fewer) by {
        assert forall i :: 0 <= i < |before| ==> before[i] == ps[i];
        forall id | id in fewer ensures m[id] in before {
          assert m[id] in ps && m[id] != last;
        }
      }
      ListCount(before, m, fewer);
    }
  }

  predicate HasOwnIds(m: Rows) { forall id :: id in m ==> m[id].installId == id }

  lemma OneLess(all: set<Text>, left: set<Text>, id: Text)
    requires id in left
    ensures id in all ==> all - (left - {id}) == (all - left) + {id}
    ensures id !in all ==> all - (left - {id}) == all - left
  {
  }

  lemma ListGrows(ps: seq<Printer>, m: Rows, ids: set<Text>, id: Text)
    requires IsListOf(ps, m, ids) && id in m && m[id].installId == id && id !in ids
    ensures IsListOf(ps + [m[id]], m, ids + {id})
  {
    var all := ps + [m[id]];
    assert all[|ps|] == m[id];
    forall k | k in ids + {id} && k in m ensures m[k] in all {
      if k != id { assert m[k] in ps; }
    }
  }

  method MapOf(ps: seq<Printer>) returns (m: Rows)
    ensures m == Latest(ps)
  {
    m := map[];
    for i := 0 to |ps|
      invariant m == Latest(ps[..i])
    {
      assert ps[..i + 1][..i] == ps[..i];
      if ps[i].installId != [] { m := m[ps[i].installId := ps[i]]; }
    }
    assert ps[..|ps|] == ps;
  }

  // ----- The table ----------------------------------------------------------

  /** A row without an identifier, a name or a source is skipped. */
  predicate IsStorable(p: Printer) { p.installId != [] && p.name != [] && p.source != [] }

  /** The first sighting stays. */
  function Stored(rows: Rows, p: Printer): Rows {
    if !IsStorable(p) then rows
    else
      rows[p.installId :=
        if p.installId in rows then p.(detectedAtUtc := rows[p.installId].detectedAtUtc) else p]
  }

  function Upserted(rows: Rows, ps: seq<Printer>): Rows {
    if ps == [] then rows else Stored(Upserted(rows, ps[..|ps| - 1]), ps[|ps| - 1])
  }

  datatype Read = Complete | Partial | Blind

  datatype Scopes = Scopes(machine: string, user: string)

  function ClassifyPrinterRead(scopes: Option<Scopes>): Read {
    if scopes.None? then Complete
    else
      var machineRead, userRead := scopes.value.machine == "collected", scopes.value.user == "collected";
      if machineRead && (userRead || scopes.value.user == "no_user_hive") then Complete
      else if machineRead || userRead then Partial
      else Blind
  }

  datatype Report = Report(count: nat, items: Option<seq<Printer>>, delta: Option<Delta>, hasChanges: bool)

  /** The rows are under their identifiers, and what is in them could be stored. */
  predicate IsTable(rows: Rows) { forall id :: id in rows ==> rows[id].installId == id && IsStorable(rows[id]) }

  class PrinterBaseline {
    var rows: Rows

    constructor ()
      ensures rows == map[]
    {
      rows := map[];
    }

    method Load() returns (out: seq<Printer>)
      requires IsTable(rows)
      ensures IsListOf(out, rows, rows.Keys) && Latest(out) == rows && (out == [] <==> rows == map[])
      ensures |out| == |rows|
    {
      out := ListOf(rows, rows.Keys);
      ListCount(out, rows, rows.Keys);
      ListIsLatest(out, rows);
      assert forall id :: id in rows ==> rows[id] in out;
    }

    method Upsert(ps: seq<Printer>)
      modifies this
      ensures rows == Upserted(old(rows), ps)
    {
      for i := 0 to |ps|
        invariant rows == Upserted(old(rows), ps[..i])
      {
        assert ps[..i + 1][..i] == ps[..i];
        var p := ps[i];
        if p.installId == [] || p.name == [] || p.source == [] { continue; }
        rows := rows[p.installId :=
          if p.installId in rows then p.(detectedAtUtc := rows[p.installId].detectedAtUtc) else p];
      }
      assert ps[..|ps|] == ps;
    }

    method Delete(ids: seq<Text>)
      modifies this
      ensures rows == map id | id in old(rows) && (id !in ids || id == []) :: old(rows)[id]
    {
      for i := 0 to |ids|
        invariant rows == map id | id in old(rows) && (id !in ids[..i] || id == []) :: old(rows)[id]
      {
        assert ids[..i + 1] == ids[..i] + [ids[i]];
        if ids[i] == [] { continue; }
        rows := rows - {ids[i]};
      }
      assert ids[..|ids|] == ids;
    }

    /** `buildPrinterInventoryWithBaseline` on what is left after the noise filter. */
    method Pass(lower: Text -> Text, current: seq<Printer>, scopes: Option<Scopes>) returns (r: Report)
      requires IsTable(rows)
      modifies this
      ensures IsTable(rows)
      ensures match ClassifyPrinterRead(scopes)
              case Blind => rows == old(rows) && r == Report(|rows|, None, None, false)
              case Partial => exists d :: IsPartialPass(lower, old(rows), current, d, r, rows)
              case Complete => IsCompletePass(lower, old(rows), current, r, rows)
    {
      var read := ClassifyPrinterRead(scopes);
      var previous := Load();
      if read == Blind { return Report(|previous|, None, None, false); }
      if read == Partial {
        r := PartialPass(lower, current, previous);
        return;
      }
      if |previous| == 0 {
        Upsert(current);
        UpsertedIsTable(map[], current);
        return Report(|current|, Some(current), None, true);
      }
      var d, hasChanges, count := ComputePrinterDelta(lower, current, previous);
      if !hasChanges {
        NothingAfter(rows, d);
        r := Report(count, None, None, false);
        assert IsPass(lower, old(rows), current, d, r, rows);
        return;
      }
      Apply(d);
      r := Report(count, None, Some(d), true);
      assert IsPass(lower, old(rows), current, d, r, rows);
    }

    /** The operations of `toPrinterBaselineOps`. */
    method Apply(d: Delta)
      requires IsTable(rows)
      modifies this
      ensures rows == After(old(rows), d) && IsTable(rows)
    {
      var upserts, deletes := d.added + d.updated, Ids(d.removed);
      if |upserts| > 0 { Upsert(upserts); }
      UpsertedIsTable(old(rows), upserts);
      if |deletes| > 0 { Delete(deletes); }
    }

    /** `applyPartialRead` */
    method PartialPass(lower: Text -> Text, current: seq<Printer>, previous: seq<Printer>) returns (r: Report)
      requires IsTable(rows) && Latest(previous) == rows && |previous| == |rows|
      modifies this
      ensures IsTable(rows) && exists d :: IsPartialPass(lower, old(rows), current, d, r, rows)
    {
      ghost var before := rows;
      var d, _, _ := ComputePrinterDelta(lower, current, previous);
      var upserts := d.added + d.updated;
      if |upserts| > 0 { Upsert(upserts); }
      r := PartialReport(d, |previous| + |d.added|);
      PartialPassIs(lower, before, current, previous, d, r, rows);
    }
  }

  /** The report of half a reading: no removals. */
  function PartialReport(d: Delta, count: nat): Report {
    var ups := d.added + d.updated;
    Report(count, None, if ups == [] then None else Some(d.(removed := [], same := Rest(count, |ups|))), ups != [])
  }

  /** Half a reading stored and reported is a partial pass, and the rows stay a table. */
  lemma PartialPassIs(lower: Text -> Text, before: Rows, current: seq<Printer>, previous: seq<Printer>,
                      d: Delta, r: Report, after: Rows)
    requires IsTable(before) && |previous| == |before| && IsDelta(lower, d, Latest(current), before)
    requires after == Upserted(before, d.added + d.updated) && r == PartialReport(d, |previous| + |d.added|)
    ensures IsTable(after) && IsPartialPass(lower, before, current, d, r, after)
  {
    UpsertedIsTable(before, d.added + d.updated);
  }

  lemma NothingAfter(rows: Rows, d: Delta)
    requires !HasChanges(d)
    ensures After(rows, d) == rows
  {
    assert d.added + d.updated == [] && Ids(d.removed) == [];
  }

  function Ids(ps: seq<Printer>): (r: seq<Text>)
    ensures |r| == |ps| && forall i :: 0 <= i < |ps| ==> r[i] == ps[i].installId
  {
    seq(|ps|, i requires 0 <= i < |ps| => ps[i].installId)
  }

  /** The table after the operations of a delta. */
  function After(rows: Rows, d: Delta): Rows {
    var stored := Upserted(rows, d.added + d.updated);
    map id | id in stored && (id !in Ids(d.removed) || id == []) :: stored[id]
  }

  /** A pass over a full reading with a baseline. */
  ghost predicate IsPass(lower: Text -> Text, rows: Rows, current: seq<Printer>, d: Delta, r: Report, after: Rows) {
    && IsDelta(lower, d, Latest(current), rows) && after == After(rows, d)
    && r == Report(|Latest(current)|, None, if HasChanges(d) then Some(d) else None, HasChanges(d))
  }

  /** A pass over a full reading: without a baseline everything is sent. */
  ghost predicate IsCompletePass(lower: Text -> Text, rows: Rows, current: seq<Printer>, r: Report, after: Rows) {
    if rows == map[] then after == Upserted(map[], current) && r == Report(|current|, Some(current), None, true)
    else exists d :: IsPass(lower, rows, current, d, r, after)
  }

  /** A pass over half a reading. */
  ghost predicate IsPartialPass(lower: Text -> Text, rows: Rows, current: seq<Printer>, d: Delta, r: Report,
                                after: Rows)
  {
    && IsDelta(lower, d, Latest(current), rows) && after == Upserted(rows, d.added + d.updated)
    && r == PartialReport(d, |rows| + |d.added|)
  }

  lemma ListIsLatest(ps: seq<Printer>, rows: Rows)
    requires IsTable(rows) && IsListOf(ps, rows, rows.Keys)
    ensures Latest(ps) == rows
  {
    forall id ensures id in Latest(ps) <==> id in rows
              ensures id in rows && id in Latest(ps) ==> Latest(ps)[id] == rows[id]
    {
      LatestIs(ps, id);
      if id in rows { assert rows[id] in ps; }
    }
  }

  /** What stands under an identifier is one of its printers; without repeats, the only one. */
  lemma {:induction false} LatestIs(ps: seq<Printer>, id: Text)
    ensures id in Latest(ps) <==> id != [] && exists i :: 0 <= i < |ps| && ps[i].installId == id
    ensures id in Latest(ps) ==> Latest(ps)[id] in ps
    ensures NoRepeats(ps) ==> forall i :: 0 <= i < |ps| && ps[i].installId == id && id != [] ==> Latest(ps)[id] == ps[i]
  {
    if ps != [] {
      var before, last := ps[..|ps| - 1], ps[|ps| - 1];
      LatestIs(before, id);
      if id != [] && last.installId != id && exists i :: 0 <= i < |ps| && ps[i].installId == id {
        var i :| 0 <= i < |ps| && ps[i].installId == id;
        assert before[i] == ps[i];
      }
    }
  }

  lemma {:induction false} UpsertedIsTable(rows: Rows, ps: seq<Printer>)
    requires IsTable(rows)
    ensures IsTable(Upserted(rows, ps))
  {
    if ps != [] { UpsertedIsTable(rows, ps[..|ps| - 1]); }
  }
}
