/** What a pass over the printers leaves in the baseline, and when a repeated pass is silent. */
module PrinterRuns {
  import opened Js
  import opened PrinterDelta

  /** The table says what the reading says, as far as a change is concerned. */
  predicate IsUpToDate(lower: Text -> Text, curr: Rows, rows: Rows) {
    curr.Keys == rows.Keys && forall id :: id in curr ==> !IsPrinterUpdated(lower, rows[id], curr[id])
  }

  lemma ChangesShow(lower: Text -> Text, d: Delta, curr: Rows, rows: Rows)
    requires IsDelta(lower, d, curr, rows) && HasChanges(d)
    ensures !IsUpToDate(lower, curr, rows)
  {
    if d.added != [] {
      assert d.added[0].installId in AddedIds(curr, rows);
    } else if d.removed != [] {
      assert d.removed[0].installId in rows.Keys - curr.Keys;
    } else {
      assert d.updated[0].installId in UpdatedIds(lower, curr, rows);
    }
  }

  lemma SilenceShows(lower: Text -> Text, d: Delta, curr: Rows, rows: Rows)
    requires IsDelta(lower, d, curr, rows) && !HasChanges(d)
    ensures IsUpToDate(lower, curr, rows)
  {
    NothingListed(d.added, curr, AddedIds(curr, rows));
    NothingListed(d.removed, rows, rows.Keys - curr.Keys);
    NothingListed(d.updated, curr, UpdatedIds(lower, curr, rows));
    assert forall id :: id in curr ==> id !in AddedIds(curr, rows) && id !in UpdatedIds(lower, curr, rows);
    assert forall id :: id in rows ==> id !in rows.Keys - curr.Keys;
  }

  /** A delta is empty exactly when the table is up to date. */
  lemma SilentWhenUpToDate(lower: Text -> Text, d: Delta, curr: Rows, rows: Rows)
    requires IsDelta(lower, d, curr, rows)
    ensures !HasChanges(d) <==> IsUpToDate(lower, curr, rows)
  {
    if HasChanges(d) { ChangesShow(lower, d, curr, rows); } else { SilenceShows(lower, d, curr, rows); }
  }

  predicate Among(ps: seq<Printer>, id: Text) {
    exists i :: 0 <= i < |ps| && ps[i].installId == id && IsStorable(ps[i])
  }

  /** The printer as stored over a table: as it is, but for the date of its first sighting. */
  predicate IsStoredAs(rows: Rows, p: Printer, stored: Printer) {
    stored == p.(detectedAtUtc := if p.installId in rows then rows[p.installId].detectedAtUtc else p.detectedAtUtc)
  }

  lemma AmongLast(before: seq<Printer>, last: Printer, id: Text)
    ensures Among(before + [last], id) <==> Among(before, id) || (last.installId == id && IsStorable(last))
  {
    var ps := before + [last];
    assert ps[|before|] == last && forall i :: 0 <= i < |before| ==> ps[i] == before[i];
    if Among(before, id) {
      var i :| 0 <= i < |before| && before[i].installId == id && IsStorable(before[i]);
      assert ps[i] == before[i];
    }
  }

  lemma {:induction false} UpsertedKeys(rows: Rows, ps: seq<Printer>, id: Text)
    ensures id in Upserted(rows, ps) <==> id in rows || Among(ps, id)
    ensures id in Upserted(rows, ps) && !Among(ps, id) ==> Upserted(rows, ps)[id] == rows[id]
  {
    if ps != [] {
      var before, last := ps[..|ps| - 1], ps[|ps| - 1];
      assert ps == before + [last];
      UpsertedKeys(rows, before, id);
      AmongLast(before, last, id);
    }
  }

  /** A list that names no printer twice stores each one it can. */
  lemma {:induction false} UpsertedAt(rows: Rows, ps: seq<Printer>, i: nat)
    requires NoRepeats(ps) && i < |ps| && IsStorable(ps[i])
    ensures ps[i].installId in Upserted(rows, ps) && IsStoredAs(rows, ps[i], Upserted(rows, ps)[ps[i].installId])
  {
    var before, last := ps[..|ps| - 1], ps[|ps| - 1];
    var id := ps[i].installId;
    assert forall k :: 0 <= k < |before| ==> before[k] == ps[k];
    UpsertedKeys(rows, before, id);
    if i == |before| {
      assert !Among(before, id);
    } else {
      UpsertedAt(rows, before, i);
    }
  }

  lemma UpsertsAreOnce(lower: Text -> Text, d: Delta, curr: Rows, rows: Rows)
    requires IsDelta(lower, d, curr, rows)
    ensures NoRepeats(d.added + d.updated)
  {
    var a, u := d.added, d.updated;
    forall i, j | 0 <= i < |a| && 0 <= j < |u| ensures a[i].installId != u[j].installId {
      assert a[i].installId in AddedIds(curr, rows) && u[j].installId in UpdatedIds(lower, curr, rows);
    }
  }

  /** What the operations of a delta make of one identifier. */
  lemma AfterAt(lower: Text -> Text, d: Delta, curr: Rows, rows: Rows, id: Text)
    requires IsDelta(lower, d, curr, rows) && IsTable(rows)
    requires forall k :: k in curr ==> k != [] && curr[k].installId == k
    ensures var r := After(rows, d);
            && (id in r <==> id in curr && (id in rows || IsStorable(curr[id])))
            && (id in r && IsChanged(lower, curr, rows, id) && IsStorable(curr[id]) ==>
                  IsStoredAs(rows, curr[id], r[id]))
            && (id in r && id in rows && !(IsChanged(lower, curr, rows, id) && IsStorable(curr[id])) ==>
                  r[id] == rows[id])
  {
    var ups := d.added + d.updated;
    UpsertsAreOnce(lower, d, curr, rows);
    UpsertedKeys(rows, ups, id);
    AmongUpserts(lower, d, curr, rows, id);
    if id in curr && IsChanged(lower, curr, rows, id) && IsStorable(curr[id]) {
      var i :| 0 <= i < |ups| && ups[i] == curr[id];
      UpsertedAt(rows, ups, i);
    }
    if id in rows && id !in curr {
      assert rows[id] in d.removed;
      var i :| 0 <= i < |d.removed| && d.removed[i] == rows[id];
      assert Ids(d.removed)[i] == id;
    }
    if id in Ids(d.removed) {
      var i :| 0 <= i < |d.removed| && Ids(d.removed)[i] == id;
      assert d.removed[i].installId in rows.Keys - curr.Keys;
    }
  }

  predicate IsChanged(lower: Text -> Text, curr: Rows, rows: Rows, id: Text)
    requires id in curr
  {
    id !in rows || IsPrinterUpdated(lower, rows[id], curr[id])
  }

  lemma ListedIsOf(ps: seq<Printer>, m: Rows, ids: set<Text>, i: nat)
    requires IsListOf(ps, m, ids) && i < |ps|
    ensures ps[i].installId in ids && ps[i].installId in m && m[ps[i].installId] == ps[i]
  {
  }

  lemma UpsertIsOf(lower: Text -> Text, d: Delta, curr: Rows, rows: Rows, i: nat)
    requires IsDelta(lower, d, curr, rows) && i < |d.added + d.updated|
    ensures var p := (d.added + d.updated)[i];
            p.installId in curr && curr[p.installId] == p && IsChanged(lower, curr, rows, p.installId)
  {
    if i < |d.added| {
      ListedIsOf(d.added, curr, AddedIds(curr, rows), i);
    } else {
      ListedIsOf(d.updated, curr, UpdatedIds(lower, curr, rows), i - |d.added|);
    }
  }

  lemma AmongUpserts(lower: Text -> Text, d: Delta, curr: Rows, rows: Rows, id: Text)
    requires IsDelta(lower, d, curr, rows)
    requires forall k :: k in curr ==> curr[k].installId == k
    ensures Among(d.added + d.updated, id) <==> id in curr && IsChanged(lower, curr, rows, id) && IsStorable(curr[id])
    ensures id in curr && IsChanged(lower, curr, rows, id) ==>
              exists i :: 0 <= i < |d.added + d.updated| && (d.added + d.updated)[i] == curr[id]
  {
    var ups := d.added + d.updated;
    forall i | 0 <= i < |ups| ensures ups[i].installId in curr && IsChanged(lower, curr, rows, ups[i].installId)
                              ensures ups[i].installId in curr && curr[ups[i].installId] == ups[i]
    {
      UpsertIsOf(lower, d, curr, rows, i);
    }
    if id in curr && IsChanged(lower, curr, rows, id) {
      if id in rows {
        assert id in UpdatedIds(lower, curr, rows) && curr[id] in d.updated;
      } else {
        assert curr[id] in d.added;
      }
      assert curr[id] in ups;
    }
  }

  lemma StoredIsUnchanged(lower: Text -> Text, rows: Rows, p: Printer, stored: Printer)
    requires IsStoredAs(rows, p, stored)
    ensures !IsPrinterUpdated(lower, stored, p)
  {
  }

  /** Every printer that is new or changed against the table can be stored. */
  predicate CanKeepUp(lower: Text -> Text, curr: Rows, rows: Rows) {
    forall id :: id in curr && IsChanged(lower, curr, rows, id) ==> IsStorable(curr[id])
  }

  /** After a delta the table is up to date exactly when every new or changed printer could be stored. */
  lemma UpToDateAfter(lower: Text -> Text, d: Delta, curr: Rows, rows: Rows)
    requires IsDelta(lower, d, curr, rows) && IsTable(rows)
    requires forall k :: k in curr ==> k != [] && curr[k].installId == k
    ensures IsUpToDate(lower, curr, After(rows, d)) <==> CanKeepUp(lower, curr, rows)
  {
    if CanKeepUp(lower, curr, rows) {
      KeepsUp(lower, d, curr, rows);
    } else {
      var id :| id in curr && IsChanged(lower, curr, rows, id) && !IsStorable(curr[id]);
      FallsBehind(lower, d, curr, rows, id);
    }
  }

  lemma KeepsUp(lower: Text -> Text, d: Delta, curr: Rows, rows: Rows)
    requires IsDelta(lower, d, curr, rows) && IsTable(rows) && CanKeepUp(lower, curr, rows)
    requires forall k :: k in curr ==> k != [] && curr[k].installId == k
    ensures IsUpToDate(lower, curr, After(rows, d))
  {
    forall id ensures id in After(rows, d) <==> id in curr
              ensures id in curr && id in After(rows, d) ==> !IsPrinterUpdated(lower, After(rows, d)[id], curr[id])
    {
      UpToDateAt(lower, d, curr, rows, id);
    }
  }

  lemma FallsBehind(lower: Text -> Text, d: Delta, curr: Rows, rows: Rows, id: Text)
    requires IsDelta(lower, d, curr, rows) && IsTable(rows)
    requires forall k :: k in curr ==> k != [] && curr[k].installId == k
    requires id in curr && IsChanged(lower, curr, rows, id) && !IsStorable(curr[id])
    ensures !IsUpToDate(lower, curr, After(rows, d))
  {
    AfterAt(lower, d, curr, rows, id);
  }

  lemma UpToDateAt(lower: Text -> Text, d: Delta, curr: Rows, rows: Rows, id: Text)
    requires IsDelta(lower, d, curr, rows) && IsTable(rows)
    requires forall k :: k in curr ==> k != [] && curr[k].installId == k
    requires id in curr && IsChanged(lower, curr, rows, id) ==> IsStorable(curr[id])
    ensures id in After(rows, d) <==> id in curr
    ensures id in curr && id in After(rows, d) ==> !IsPrinterUpdated(lower, After(rows, d)[id], curr[id])
  {
    AfterAt(lower, d, curr, rows, id);
    if id in curr && IsChanged(lower, curr, rows, id) {
      StoredIsUnchanged(lower, rows, curr[id], After(rows, d)[id]);
    }
  }

  /**
   * Reading the same printers twice: whether the second pass announces a change can be
   * told before the first. It does exactly when there are no printers, as an empty table
   * makes every pass a first one, or when a new or changed printer cannot be stored.
   */
  lemma RepeatedPass(lower: Text -> Text, rows: Rows, current: seq<Printer>, r: Report, after: Rows,
                     r2: Report, rows2: Rows)
    requires IsTable(rows) && rows != map[]
    requires IsCompletePass(lower, rows, current, r, after) && IsCompletePass(lower, after, current, r2, rows2)
    ensures r2.hasChanges <==> Latest(current) == map[] || !CanKeepUp(lower, Latest(current), rows)
    ensures !r2.hasChanges ==> rows2 == after
  {
    var curr := Latest(current);
    var d :| IsPass(lower, rows, current, d, r, after);
    UpToDateAfter(lower, d, curr, rows);
    SecondPass(lower, current, after, r2, rows2);
    if curr == map[] {
      forall id ensures id !in after { AfterAt(lower, d, curr, rows, id); }
      assert after == map[];
    } else {
      var id :| id in curr;
      AfterAt(lower, d, curr, rows, id);
    }
  }

  lemma SecondPass(lower: Text -> Text, current: seq<Printer>, rows: Rows, r: Report, after: Rows)
    requires IsCompletePass(lower, rows, current, r, after)
    ensures r.hasChanges <==> rows == map[] || !IsUpToDate(lower, Latest(current), rows)
    ensures !r.hasChanges ==> after == rows
  {
    if rows != map[] {
      var d :| IsPass(lower, rows, current, d, r, after);
      SilentWhenUpToDate(lower, d, Latest(current), rows);
      if !HasChanges(d) { NothingAfter(rows, d); }
    }
  }

  /** The last printer under an identifier that can be stored. */
  function LastStorable(ps: seq<Printer>, id: Text): (r: Option<Printer>)
    ensures r.Some? ==> r.value.installId == id
  {
    if ps == [] then None
    else
      var last := ps[|ps| - 1];
      if last.installId == id && IsStorable(last) then Some(last) else LastStorable(ps[..|ps| - 1], id)
  }

  lemma {:induction false} FirstStored(ps: seq<Printer>, id: Text)
    ensures var rows := Upserted(map[], ps);
            && (id in rows <==> LastStorable(ps, id).Some?)
            && (id in rows ==> rows[id] == LastStorable(ps, id).value.(detectedAtUtc := rows[id].detectedAtUtc))
  {
    if ps != [] { FirstStored(ps[..|ps| - 1], id); }
  }

  /** Under every identifier the last printer, or one like it, can be stored. */
  predicate CanStoreLatest(lower: Text -> Text, ps: seq<Printer>) {
    forall id :: id in Latest(ps) ==>
      LastStorable(ps, id).Some? && !IsPrinterUpdated(lower, LastStorable(ps, id).value, Latest(ps)[id])
  }

  /** The same after a first pass, over any list. */
  lemma RepeatedFirstPass(lower: Text -> Text, current: seq<Printer>, r: Report, rows: Rows, r2: Report, rows2: Rows)
    requires IsCompletePass(lower, map[], current, r, rows)
    requires IsCompletePass(lower, rows, current, r2, rows2)
    ensures r2.hasChanges <==> Latest(current) == map[] || !CanStoreLatest(lower, current)
    ensures !r2.hasChanges ==> rows2 == rows
  {
    SecondPass(lower, current, rows, r2, rows2);
    AfterFirstPass(lower, current);
    if rows == map[] && Latest(current) != map[] {
      var id :| id in Latest(current);
      FirstStored(current, id);
    }
  }

  lemma AfterFirstPass(lower: Text -> Text, current: seq<Printer>)
    ensures IsUpToDate(lower, Latest(current), Upserted(map[], current)) <==> CanStoreLatest(lower, current)
    ensures Latest(current) == map[] ==> Upserted(map[], current) == map[]
  {
    var curr, rows := Latest(current), Upserted(map[], current);
    forall id ensures id in rows ==> id in curr {
      FirstStored(current, id);
      StorableIsLatest(current, id);
    }
    if CanStoreLatest(lower, current) {
      forall id | id in curr ensures id in rows && !IsPrinterUpdated(lower, rows[id], curr[id]) {
        FirstStored(current, id);
      }
    } else {
      var id :| id in curr && !(LastStorable(current, id).Some?
                                && !IsPrinterUpdated(lower, LastStorable(current, id).value, curr[id]));
      FirstStored(current, id);
    }
  }

  lemma {:induction false} StorableIsLatest(ps: seq<Printer>, id: Text)
    ensures LastStorable(ps, id).Some? ==> id in Latest(ps)
  {
    if ps != [] { StorableIsLatest(ps[..|ps| - 1], id); }
  }

  /**
   * Half a reading never removes a row and leaves each row it did see up to date, if it
   * could be stored; rows it did not see stay as they were.
   */
  lemma PartialKeeps(lower: Text -> Text, rows: Rows, current: seq<Printer>, d: Delta, r: Report, after: Rows, id: Text)
    requires IsTable(rows) && IsPartialPass(lower, rows, current, d, r, after)
    ensures id in rows ==> id in after && after[id].detectedAtUtc == rows[id].detectedAtUtc
    ensures id in rows && id !in Latest(current) ==> after[id] == rows[id]
    ensures id in Latest(current) && IsStorable(Latest(current)[id]) ==>
              id in after && !IsPrinterUpdated(lower, after[id], Latest(current)[id])
  {
    var curr := Latest(current);
    UpsertsAreOnce(lower, d, curr, rows);
    var ups := d.added + d.updated;
    UpsertedKeys(rows, ups, id);
    AmongUpserts(lower, d, curr, rows, id);
    if Among(ups, id) {
      var i :| 0 <= i < |ups| && ups[i] == curr[id];
      UpsertedAt(rows, ups, i);
      StoredIsUnchanged(lower, rows, curr[id], after[id]);
    }
  }

  /** The date of the first sighting survives every pass that keeps the row. */
  lemma FirstSightingStays(lower: Text -> Text, rows: Rows, current: seq<Printer>, d: Delta, r: Report, after: Rows,
                           id: Text)
    requires IsTable(rows) && IsPass(lower, rows, current, d, r, after) && id in rows
    ensures id in after <==> id in Latest(current)
    ensures id in after ==> after[id].detectedAtUtc == rows[id].detectedAtUtc
  {
    AfterAt(lower, d, Latest(current), rows, id);
  }

  // ----- What is compared ---------------------------------------------------

  /** What two sightings of a printer are told apart by, texts trimmed and in lower case. */
  datatype Face = Face(
    driver: Text, port: Text, location: Text, comments: Text, shareName: Text, hostAddress: Text,
    isDefault: bool, isShared: bool, isNetwork: bool)

  function FaceOf(lower: Text -> Text, p: Printer): Face {
    var text := (value: Option<Text>) => if value.None? || value.value == [] then [] else lower(Trim(value.value));
    Face(text(p.driver), text(p.port), text(p.location), text(p.comments), text(p.shareName), text(p.hostAddress),
         p.isDefault, p.isShared, p.isNetwork)
  }

  /** A printer counts as changed exactly when its face did; its name, source, status and date do not count. */
  lemma FacesAreCompared(lower: Text -> Text, prev: Printer, curr: Printer)
    ensures IsPrinterUpdated(lower, prev, curr) <==> FaceOf(lower, prev) != FaceOf(lower, curr)
  {
  }

  // ----- Which passes remove ------------------------------------------------

  /** A pass of any kind, as `PrinterBaseline.Pass` promises it. */
  ghost predicate IsAnyPass(lower: Text -> Text, scopes: Option<Scopes>, rows: Rows, current: seq<Printer>, r: Report,
                            after: Rows)
  {
    match ClassifyPrinterRead(scopes)
    case Blind => after == rows && r == Report(|rows|, None, None, false)
    case Partial => exists d :: IsPartialPass(lower, rows, current, d, r, after)
    case Complete => IsCompletePass(lower, rows, current, r, after)
  }

  /** Both halves were read, or there is no user whose half could be. */
  predicate IsWhole(scopes: Option<Scopes>) {
    || scopes.None?
    || (scopes.value.machine == "collected"
        && (scopes.value.user == "collected" || scopes.value.user == "no_user_hive"))
  }

  predicate IsNothing(scopes: Option<Scopes>) {
    scopes.Some? && scopes.value.machine != "collected" && scopes.value.user != "collected"
  }

  /**
   * A printer leaves the table, or is reported as removed or in a full list that replaces
   * all others, only when everything was read and it was not seen; and when nothing was
   * read, nothing changes and the last count stands.
   */
  lemma OnlyWholeReadingsRemove(lower: Text -> Text, scopes: Option<Scopes>, rows: Rows, current: seq<Printer>,
                                r: Report, after: Rows, id: Text)
    requires IsTable(rows) && IsAnyPass(lower, scopes, rows, current, r, after)
    ensures id in rows && id !in after ==> IsWhole(scopes) && id !in Latest(current)
    ensures r.items.Some? || (r.delta.Some? && r.delta.value.removed != []) ==> IsWhole(scopes)
    ensures IsNothing(scopes) ==> after == rows && !r.hasChanges && r.count == |rows| && r.delta == None
  {
    match ClassifyPrinterRead(scopes)
    case Blind =>
    case Partial =>
      var d :| IsPartialPass(lower, rows, current, d, r, after);
      UpsertedKeys(rows, d.added + d.updated, id);
    case Complete =>
      if rows != map[] {
        var d :| IsPass(lower, rows, current, d, r, after);
        AfterAt(lower, d, Latest(current), rows, id);
      }
  }
}
