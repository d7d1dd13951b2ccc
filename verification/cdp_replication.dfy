/** Replicating the baseline to the server over a channel that loses and repeats. */
module CdpReplication {
  import opened Js
  import opened CdpBaseline

  // ----- Delta, then apply --------------------------------------------------

  ghost predicate Injective(hash: Item -> string) {
    forall a, b :: hash(a) == hash(b) ==> a == b
  }

  lemma {:induction false} PutAt(m: map<string, Item>, items: seq<Item>, id: string)
    ensures id in Put(m, items) <==> id in m || LastWith(items, id).Some?
    ensures LastWith(items, id).Some? ==> Put(m, items)[id] == LastWith(items, id).value
    ensures LastWith(items, id).None? && id in m ==> Put(m, items)[id] == m[id]
    decreases |items|
  {
    if items != [] {
      PutAt(m[items[0].id := items[0]], items[1..], id);
      LastFirst(items, id);
    }
  }

  lemma {:induction false} LastFirst(items: seq<Item>, id: string)
    requires items != []
    ensures LastWith(items, id) ==
            if LastWith(items[1..], id).Some? then LastWith(items[1..], id)
            else if items[0].id == id then Some(items[0]) else None
    decreases |items|
  {
    if |items| > 1 && items[|items| - 1].id != id {
      var init := items[..|items| - 1];
      assert init[1..] == items[1..][..|items[1..]| - 1] && items[1..][|items[1..]| - 1] == items[|items| - 1];
      LastFirst(init, id);
    }
  }

  lemma {:induction false} AddedAt(items: seq<Item>, b: Baseline, id: string)
    ensures LastWith(Added(items, b), id) == if id in b then None else LastWith(items, id)
  {
    if items != [] {
      var init, last := items[..|items| - 1], items[|items| - 1];
      AddedAt(init, b, id);
      if last.id !in b {
        var all := Added(items, b);
        assert all[|all| - 1] == last && all[..|all| - 1] == Added(init, b);
      } else {
        assert Added(items, b) == Added(init, b);
      }
    }
  }

  /** Updates hold entries that differ from the baseline, the last one if it does. */
  lemma {:induction false} UpdatedAt(hash: Item -> string, items: seq<Item>, b: Baseline, id: string)
    ensures id !in b ==> LastWith(Updated(hash, items, b), id) == None
    ensures LastWith(Updated(hash, items, b), id).Some? ==>
              id in b && hash(LastWith(Updated(hash, items, b), id).value) != b[id].hash
    ensures LastWith(items, id).Some? && id in b && hash(LastWith(items, id).value) != b[id].hash ==>
              LastWith(Updated(hash, items, b), id) == LastWith(items, id)
    ensures LastWith(Updated(hash, items, b), id).None? <==>
              !exists i :: 0 <= i < |items| && items[i].id == id && id in b && hash(items[i]) != b[id].hash
  {
    if items != [] {
      var init, last := items[..|items| - 1], items[|items| - 1];
      UpdatedAt(hash, init, b, id);
      var all := Updated(hash, items, b);
      if last.id in b && b[last.id].hash != hash(last) {
        assert all[|all| - 1] == last && all[..|all| - 1] == Updated(hash, init, b);
        if id == last.id { assert items[|items| - 1].id == id; }
      } else {
        assert all == Updated(hash, init, b);
      }
      DiffersInit(hash, items, b, id);
    }
  }

  predicate Differs(hash: Item -> string, items: seq<Item>, b: Baseline, id: string) {
    exists i :: 0 <= i < |items| && items[i].id == id && id in b && hash(items[i]) != b[id].hash
  }

  lemma DiffersInit(hash: Item -> string, items: seq<Item>, b: Baseline, id: string)
    requires items != []
    ensures var init, last := items[..|items| - 1], items[|items| - 1];
            Differs(hash, items, b, id) <==>
              Differs(hash, init, b, id) || (last.id == id && id in b && hash(last) != b[id].hash)
  {
    var init := items[..|items| - 1];
    if Differs(hash, init, b, id) {
      var i :| 0 <= i < |init| && init[i].id == id && id in b && hash(init[i]) != b[id].hash;
      assert items[i] == init[i];
    }
    if Differs(hash, items, b, id) {
      var i :| 0 <= i < |items| && items[i].id == id && id in b && hash(items[i]) != b[id].hash;
      if i < |init| { assert init[i] == items[i]; }
    }
  }

  /**
   * What a caller can check of a scan: once an entry differs from its row, the last
   * entry under that identifier does too. A scan without repeated identifiers is such.
   */
  predicate NoStaleRepeat(hash: Item -> string, items: seq<Item>, b: Baseline) {
    forall i :: 0 <= i < |items| && items[i].id in b && hash(items[i]) != b[items[i].id].hash ==>
      hash(Last(items, i)) != b[items[i].id].hash
  }

  /** The last entry under the identifier of entry `i`. */
  function Last(items: seq<Item>, i: nat): Item
    requires i < |items|
  {
    LastWith(items, items[i].id).value
  }

  predicate DistinctIds(items: seq<Item>) {
    forall i, j :: 0 <= i < j < |items| ==> items[i].id != items[j].id
  }

  lemma DistinctHasNoRepeat(hash: Item -> string, items: seq<Item>, b: Baseline)
    requires DistinctIds(items)
    ensures NoStaleRepeat(hash, items, b)
  {
    forall i | 0 <= i < |items| ensures Last(items, i) == items[i] {
      var x := Last(items, i);
      var k :| 0 <= k < |items| && items[k] == x;
      assert k == i;
    }
  }

  lemma MirrorAt(hash: Item -> string, items: seq<Item>, b: Baseline, kept: set<string>, id: string)
    requires Injective(hash) && RowsMatch(hash, b) && NoStaleRepeat(hash, items, b)
    ensures var d := DeltaOf(hash, items, b);
            var m := ApplyDelta(ItemsOf(b), d.(removed := d.removed - kept));
            && (id in m <==> LastWith(items, id).Some? || (id in b && id in kept))
            && (LastWith(items, id).Some? ==> m[id] == LastWith(items, id).value)
            && (LastWith(items, id).None? && id in b && id in kept ==> m[id] == b[id].item)
  {
    var d := DeltaOf(hash, items, b);
    var left := ItemsOf(b) - (d.removed - kept);
    AddedAt(items, b, id);
    UpdatedAt(hash, items, b, id);
    PutAt(left, d.added, id);
    PutAt(Put(left, d.added), d.updated, id);
    assert HasId(items, id) <==> LastWith(items, id).Some?;
    assert forall i :: 0 <= i < |items| && items[i].id == id ==> Last(items, i) == LastWith(items, id).value;
    if LastWith(items, id).Some? && id in b && hash(LastWith(items, id).value) == b[id].hash {
      assert LastWith(items, id).value == b[id].item;
    }
  }

  /** A server that mirrors the baseline and applies the delta holds exactly the scan. */
  lemma DeltaMirrors(hash: Item -> string, items: seq<Item>, b: Baseline)
    requires Injective(hash) && RowsMatch(hash, b)
    ensures ApplyDelta(ItemsOf(b), DeltaOf(hash, items, b)) == ToMap(items) <==> NoStaleRepeat(hash, items, b)
  {
    var d, m := DeltaOf(hash, items, b), ApplyDelta(ItemsOf(b), DeltaOf(hash, items, b));
    if NoStaleRepeat(hash, items, b) {
      assert d.(removed := d.removed - {}) == d;
      forall id ensures id in m <==> id in ToMap(items)
        ensures id in m ==> m[id] == ToMap(items)[id]
      {
        MirrorAt(hash, items, b, {}, id);
        PutAt(map[], items, id);
      }
    } else {
      var i :| 0 <= i < |items| && items[i].id in b && hash(items[i]) != b[items[i].id].hash
               && hash(Last(items, i)) == b[items[i].id].hash;
      var id := items[i].id;
      UpdatedAt(hash, items, b, id);
      PutAt(Put(ItemsOf(b) - d.removed, d.added), d.updated, id);
      PutAt(map[], items, id);
      assert m[id] != ToMap(items)[id];
    }
  }

  /** Two entries with one identifier, the older one already confirmed: the server is left with the other. */
  lemma RepeatBreaksMirror(hash: Item -> string)
    requires Injective(hash)
    ensures var x, y := Item("a", "s", "1"), Item("a", "s", "2");
            var b := map["a" := Row(hash(x), x, 0)];
            RowsMatch(hash, b) && ApplyDelta(ItemsOf(b), DeltaOf(hash, [y, x], b)) != ToMap([y, x])
  {
    var x, y := Item("a", "s", "1"), Item("a", "s", "2");
    var b := map["a" := Row(hash(x), x, 0)];
    assert x != y && [y, x][..1] == [y];
    assert LastWith([y, x], "a") == Some(x);
    assert Last([y, x], 0) == x;
    assert !NoStaleRepeat(hash, [y, x], b) by { assert hash([y, x][0]) != b["a"].hash; }
    DeltaMirrors(hash, [y, x], b);
  }

  /** A partial scan: stores not read keep their rows on both sides. */
  lemma PartialMirrors(hash: Item -> string, items: seq<Item>, b: Baseline, fits: string -> bool, carried: seq<Item>)
    requires Injective(hash) && RowsMatch(hash, b) && NoStaleRepeat(hash, items, b)
    requires IsCarried(carried, b, fits, set i | 0 <= i < |items| :: items[i].id)
    ensures var d := DeltaOf(hash, items, b);
            var kept := set i | 0 <= i < |carried| :: carried[i].id;
            ApplyDelta(ItemsOf(b), d.(removed := d.removed - kept)) == ToMap(items + carried)
  {
    var d, kept := DeltaOf(hash, items, b), set i | 0 <= i < |carried| :: carried[i].id;
    var m := ApplyDelta(ItemsOf(b), d.(removed := d.removed - kept));
    forall id ensures id in m <==> id in ToMap(items + carried)
      ensures id in m ==> m[id] == ToMap(items + carried)[id]
    {
      MirrorAt(hash, items, b, kept, id);
      PutAt(map[], items + carried, id);
      LastAppend(items, carried, id);
    }
  }

  /**
   * A truncated scan, or one whose unread stores cannot be named, sends no removals
   * but stages its own list: the mirror is kept exactly when there was nothing to remove.
   */
  lemma WithheldRemovals(hash: Item -> string, items: seq<Item>, b: Baseline)
    requires Injective(hash) && RowsMatch(hash, b) && NoStaleRepeat(hash, items, b)
    ensures var d := DeltaOf(hash, items, b);
            ApplyDelta(ItemsOf(b), d.(removed := {})) == ToMap(items) <==> d.removed == {}
  {
    var d := DeltaOf(hash, items, b);
    assert d.(removed := d.removed - d.removed) == d.(removed := {});
    var m := ApplyDelta(ItemsOf(b), d.(removed := {}));
    if d.removed == {} {
      DeltaMirrors(hash, items, b);
    } else {
      var id :| id in d.removed;
      MirrorAt(hash, items, b, d.removed, id);
      PutAt(map[], items, id);
      assert id in m && id !in ToMap(items);
    }
  }

  lemma {:induction false} LastAppend(a: seq<Item>, b: seq<Item>, id: string)
    ensures LastWith(a + b, id) == if LastWith(b, id).Some? then LastWith(b, id) else LastWith(a, id)
    decreases |b|
  {
    if b == [] {
      assert a + b == a;
    } else {
      assert (a + b)[|a + b| - 1] == b[|b| - 1] && (a + b)[..|a + b| - 1] == a + b[..|b| - 1];
      LastAppend(a, b[..|b| - 1], id);
    }
  }

  /** Receiving a delta again changes nothing, whatever it is applied to. */
  lemma DeltaIsIdempotent(m: map<string, Item>, d: Delta)
    ensures ApplyDelta(ApplyDelta(m, d), d) == ApplyDelta(m, d)
  {
    var once := ApplyDelta(m, d);
    var twice := ApplyDelta(once, d);
    forall id ensures id in once <==> id in twice
      ensures id in once ==> once[id] == twice[id]
    {
      DeltaAt(m, d, id);
      DeltaAt(once, d, id);
    }
  }

  /** The entry a delta sends under an identifier. */
  function SentEntry(d: Delta, id: string): Option<Item> {
    if LastWith(d.updated, id).Some? then LastWith(d.updated, id) else LastWith(d.added, id)
  }

  lemma DeltaAt(m: map<string, Item>, d: Delta, id: string)
    ensures var r := ApplyDelta(m, d);
            && (SentEntry(d, id).Some? ==> id in r && r[id] == SentEntry(d, id).value)
            && (SentEntry(d, id).None? ==> (id in r <==> id in m && id !in d.removed))
            && (SentEntry(d, id).None? && id in r ==> r[id] == m[id])
  {
    PutAt(m - d.removed, d.added, id);
    PutAt(Put(m - d.removed, d.added), d.updated, id);
  }

  // ----- The baseline after a confirmed scan --------------------------------

  lemma {:induction false} UpsertedAt(hash: Item -> string, b: Baseline, items: seq<Item>, now: int, id: string)
    requires RowsMatch(hash, b)
    ensures RowsMatch(hash, Upserted(hash, b, items, now))
    ensures id in Upserted(hash, b, items, now) <==> id in b || LastWith(items, id).Some?
    ensures LastWith(items, id).Some? ==> Upserted(hash, b, items, now)[id].item == LastWith(items, id).value
    ensures LastWith(items, id).None? && id in b ==> Upserted(hash, b, items, now)[id] == b[id]
    ensures id in b ==> Upserted(hash, b, items, now)[id].detectedAt == b[id].detectedAt
  {
    if items != [] { UpsertedAt(hash, b, items[..|items| - 1], now, id); }
  }

  /** The baseline becomes an exact mirror of the scan and remembers when each survivor was first seen. */
  lemma AppliedMirrors(hash: Item -> string, b: Baseline, items: seq<Item>, now: int)
    requires RowsMatch(hash, b)
    ensures RowsMatch(hash, Applied(hash, b, items, now))
    ensures ItemsOf(Applied(hash, b, items, now)) == ToMap(items)
    ensures forall id :: id in b && id in Applied(hash, b, items, now) ==>
              Applied(hash, b, items, now)[id].detectedAt == b[id].detectedAt
  {
    var kept: Baseline := map id | id in b && HasId(items, id) :: b[id];
    var after := Applied(hash, b, items, now);
    UpsertedAt(hash, kept, items, now, "");
    forall id
      ensures id in ItemsOf(after) <==> id in ToMap(items)
      ensures id in ItemsOf(after) ==> ItemsOf(after)[id] == ToMap(items)[id]
      ensures id in b && id in after ==> after[id].detectedAt == b[id].detectedAt
    {
      UpsertedAt(hash, kept, items, now, id);
      PutAt(map[], items, id);
      assert HasId(items, id) <==> LastWith(items, id).Some?;
    }
  }

  // ----- The staging tables in every run ------------------------------------

  datatype StagingEvent =
    | Stage(outboxId: int, commit: Commit, now: int)
    | Promote(outboxId: int, now: int)

  /** The tables with what has been promoted so far and the results given. */
  datatype History = History(t: Tables, promoted: seq<nat>, last: seq<Item>, results: set<Promotion>)

  function NextHistory(hash: Item -> string, h: History, ev: StagingEvent): History {
    match ev
    case Stage(outboxId, commit, now) => h.(t := Staged(h.t, outboxId, commit, now))
    case Promote(outboxId, now) =>
      var row, r := Newest(h.t.pending, outboxId), PromotedBy(hash, h.t, outboxId, now);
      var seen := h.(t := r.0, results := h.results + {r.1});
      if r.1 == Promoted then seen.(promoted := h.promoted + [row.value.number], last := row.value.commit.baseline)
      else seen
  }

  function HistoryAfter(hash: Item -> string, h: History, evs: seq<StagingEvent>): History
    decreases |evs|
  {
    if evs == [] then h else HistoryAfter(hash, NextHistory(hash, h, evs[0]), evs[1..])
  }

  /** Packages in the order of their numbers, between two bounds, one per outbox id. */
  predicate PendingOk(pending: seq<Package>, low: nat, high: nat) {
    && (forall i :: 0 <= i < |pending| ==> low < pending[i].number < high)
    && (forall i, j :: 0 <= i < j < |pending| ==>
          pending[i].number < pending[j].number && pending[i].outboxId != pending[j].outboxId)
  }

  predicate StagingInv(hash: Item -> string, h: History) {
    && h.t.lastSeq < h.t.counter
    && PendingOk(h.t.pending, h.t.lastSeq, h.t.counter)
    && (forall i, j :: 0 <= i < j < |h.promoted| ==> h.promoted[i] < h.promoted[j])
    && (h.promoted != [] ==>
          h.promoted[|h.promoted| - 1] == h.t.lastSeq && h.t.acked && ItemsOf(h.t.baseline) == ToMap(h.last))
    && RowsMatch(hash, h.t.baseline)
    && Superseded !in h.results
  }

  lemma {:induction false} KeepOk(pending: seq<Package>, keep: Package -> bool, low: nat, high: nat, floor: nat)
    requires PendingOk(pending, low, high)
    requires forall p :: p in pending && keep(p) ==> floor < p.number
    ensures PendingOk(Keep(pending, keep), floor, high)
  {
    if pending != [] {
      var init, last := pending[..|pending| - 1], pending[|pending| - 1];
      KeepOk(init, keep, low, high, floor);
      forall i | 0 <= i < |Keep(init, keep)|
        ensures Keep(init, keep)[i].number < last.number && Keep(init, keep)[i].outboxId != last.outboxId
      {
        assert Keep(init, keep)[i] in init;
      }
      assert last in pending;
    }
  }

  lemma AppendOk(pending: seq<Package>, p: Package, low: nat, high: nat)
    requires PendingOk(pending, low, high) && low < p.number == high
    requires forall q :: q in pending ==> q.outboxId != p.outboxId
    ensures PendingOk(pending + [p], low, high + 1)
  {
    assert forall i :: 0 <= i < |pending| ==> pending[i] in pending;
  }

  lemma StagedKeeps(hash: Item -> string, h: History, outboxId: int, commit: Commit, now: int)
    requires StagingInv(hash, h)
    ensures StagingInv(hash, NextHistory(hash, h, Stage(outboxId, commit, now)))
  {
    var keep := (p: Package) => p.outboxId != outboxId && p.stagedAt >= now - STAGE_MAX_AGE_MS;
    var after := Staged(h.t, outboxId, commit, now);
    assert forall p :: p in h.t.pending ==> h.t.lastSeq < p.number;
    KeepOk(h.t.pending, keep, h.t.lastSeq, h.t.counter, h.t.lastSeq);
    AppendOk(Keep(h.t.pending, keep), Package(h.t.counter, outboxId, commit, now), h.t.lastSeq, h.t.counter);
    assert PendingOk(after.pending, after.lastSeq, after.counter);
  }

  lemma PromotedTables(hash: Item -> string, t: Tables, outboxId: int, now: int)
    requires t.lastSeq < t.counter && PendingOk(t.pending, t.lastSeq, t.counter) && RowsMatch(hash, t.baseline)
    requires Newest(t.pending, outboxId).Some?
    ensures var row, r := Newest(t.pending, outboxId).value, PromotedBy(hash, t, outboxId, now);
            && r.1 == Promoted && t.lastSeq < r.0.lastSeq == row.number < r.0.counter && r.0.acked
            && PendingOk(r.0.pending, r.0.lastSeq, r.0.counter)
            && RowsMatch(hash, r.0.baseline) && ItemsOf(r.0.baseline) == ToMap(row.commit.baseline)
  {
    var row := Newest(t.pending, outboxId).value;
    var i :| 0 <= i < |t.pending| && t.pending[i] == row;
    assert t.lastSeq < row.number < t.counter;
    KeepOk(t.pending, (p: Package) => p.number > row.number, t.lastSeq, t.counter, row.number);
    AppliedMirrors(hash, t.baseline, row.commit.baseline, now);
    PromotedIs(hash, t, outboxId, now);
  }

  /**
   * Staging a delivery keeps the packages of other deliveries for seven days, replaces
   * its own, and numbers the new one after all others.
   */
  lemma StagingKeeps(t: Tables, outboxId: int, commit: Commit, now: int, p: Package)
    ensures var after := Staged(t, outboxId, commit, now);
            && (p in after.pending <==>
                  || p == Package(t.counter, outboxId, commit, now)
                  || (p in t.pending && p.outboxId != outboxId && now - p.stagedAt <= 7 * 24 * 3600 * 1000))
            && after.counter == t.counter + 1 && after.baseline == t.baseline && after.meta == t.meta
            && after.lastSeq == t.lastSeq && after.acked == t.acked
  {
    var kept := Keep(t.pending, (q: Package) => q.outboxId != outboxId && q.stagedAt >= now - STAGE_MAX_AGE_MS);
    var last := Package(t.counter, outboxId, commit, now);
    assert (kept + [last])[|kept|] == last;
  }

  /**
   * Promoting a delivery writes its own metadata over the old, but for the two keys that
   * the repository keeps for itself; a delivery not newer than the last one confirmed
   * changes neither baseline nor metadata.
   */
  lemma PromotionIs(hash: Item -> string, t: Tables, outboxId: int, now: int, key: string)
    requires Newest(t.pending, outboxId).Some?
    ensures var row, r := Newest(t.pending, outboxId).value, PromotedBy(hash, t, outboxId, now);
            && (r.1 == Promoted <==> row.number > t.lastSeq)
            && (r.1 != Promoted ==> r.0 == t.(pending := r.0.pending))
            && (r.1 == Promoted ==>
                  var m, says := r.0.meta, key in row.commit.meta && key != LAST_SEQ_KEY && key != ACKED_KEY;
                  && (key in m <==> says || key in t.meta)
                  && (says ==> m[key] == row.commit.meta[key])
                  && (!says && key in t.meta ==> m[key] == t.meta[key]))
            && (forall p :: p in r.0.pending <==> p in t.pending && p.number > row.number)
  {
  }

  lemma PromotedIs(hash: Item -> string, t: Tables, outboxId: int, now: int)
    requires Newest(t.pending, outboxId).Some? && Newest(t.pending, outboxId).value.number > t.lastSeq
    ensures var row, r := Newest(t.pending, outboxId).value, PromotedBy(hash, t, outboxId, now);
            && r.1 == Promoted && r.0.lastSeq == row.number && r.0.acked && r.0.counter == t.counter
            && r.0.pending == Keep(t.pending, (p: Package) => p.number > row.number)
            && r.0.baseline == Applied(hash, t.baseline, row.commit.baseline, now)
  {
  }

  lemma PromotedKeeps(hash: Item -> string, h: History, outboxId: int, now: int)
    requires StagingInv(hash, h)
    ensures StagingInv(hash, NextHistory(hash, h, Promote(outboxId, now)))
  {
    if Newest(h.t.pending, outboxId).Some? {
      PromotedTables(hash, h.t, outboxId, now);
    }
  }

  lemma {:induction false} StagingRun(hash: Item -> string, h: History, evs: seq<StagingEvent>)
    requires StagingInv(hash, h)
    ensures StagingInv(hash, HistoryAfter(hash, h, evs))
    decreases |evs|
  {
    if evs != [] {
      match evs[0] {
        case Stage(outboxId, commit, now) => StagedKeeps(hash, h, outboxId, commit, now);
        case Promote(outboxId, now) => PromotedKeeps(hash, h, outboxId, now);
      }
      StagingRun(hash, NextHistory(hash, h, evs[0]), evs[1..]);
    }
  }

  const EMPTY_TABLES: Tables := Tables(map[], [], map[], 0, false, 1)

  /**
   * In every run of the staging tables each package waits above the last number
   * promoted, one per outbox id; numbers are promoted in increasing order, the
   * baseline is that of the newest promoted scan, and no delivery is superseded.
   */
  lemma EveryStagingRun(hash: Item -> string, evs: seq<StagingEvent>)
    ensures var h := HistoryAfter(hash, History(EMPTY_TABLES, [], [], {}), evs);
            && (forall i :: 0 <= i < |h.t.pending| ==> h.t.lastSeq < h.t.pending[i].number)
            && (forall i, j :: 0 <= i < j < |h.t.pending| ==> h.t.pending[i].outboxId != h.t.pending[j].outboxId)
            && (forall i, j :: 0 <= i < j < |h.promoted| ==> h.promoted[i] < h.promoted[j])
            && (h.promoted != [] ==> ItemsOf(h.t.baseline) == ToMap(h.last))
            && Superseded !in h.results
  {
    StagingRun(hash, History(EMPTY_TABLES, [], [], {}), evs);
  }

  // ----- Two deltas ---------------------------------------------------------

  /** What a scan says of an identifier is said again by the delta of the other. */
  predicate IsSaidAgain(first: seq<Item>, second: seq<Item>, d: Delta, id: string) {
    LastWith(first, id) == LastWith(second, id) || id in d.removed || SentEntry(d, id).Some?
  }

  /**
   * Two scans diffed against one baseline: the server ends at the second exactly when
   * whatever the first says otherwise is said again by the second delta.
   */
  lemma OverlapIsHarmless(hash: Item -> string, b: Baseline, first: seq<Item>, second: seq<Item>)
    requires Injective(hash) && RowsMatch(hash, b)
    requires NoStaleRepeat(hash, first, b) && NoStaleRepeat(hash, second, b)
    ensures var d1, d2 := DeltaOf(hash, first, b), DeltaOf(hash, second, b);
            ApplyDelta(ApplyDelta(ItemsOf(b), d1), d2) == ToMap(second) <==>
            forall id :: IsSaidAgain(first, second, d2, id)
  {
    var d1, d2 := DeltaOf(hash, first, b), DeltaOf(hash, second, b);
    var m := ApplyDelta(ToMap(first), d2);
    DeltaMirrors(hash, first, b);
    forall id ensures IsSaidAgain(first, second, d2, id) <==>
                        && (id in m <==> id in ToMap(second))
                        && (id in m && id in ToMap(second) ==> m[id] == ToMap(second)[id])
    {
      OverlapAt(hash, b, first, second, id);
    }
    if forall id :: IsSaidAgain(first, second, d2, id) {
      assert forall id :: IsSaidAgain(first, second, d2, id) ==> (id in m <==> id in ToMap(second));
      assert m == ToMap(second);
    }
  }

  lemma OverlapAt(hash: Item -> string, b: Baseline, first: seq<Item>, second: seq<Item>, id: string)
    requires Injective(hash) && RowsMatch(hash, b) && NoStaleRepeat(hash, second, b)
    ensures var d := DeltaOf(hash, second, b);
            var m := ApplyDelta(ToMap(first), d);
            IsSaidAgain(first, second, d, id) <==>
              (id in m <==> id in ToMap(second)) && (id in m && id in ToMap(second) ==> m[id] == ToMap(second)[id])
  {
    var d := DeltaOf(hash, second, b);
    DeltaAt(ToMap(first), d, id);
    PutAt(map[], first, id);
    PutAt(map[], second, id);
    DeltaAt(ItemsOf(b), d, id);
    DeltaMirrors(hash, second, b);
    assert ApplyDelta(ItemsOf(b), d) == ToMap(second);
  }

  /** Two scans diffed against the same baseline on which the condition fails: the first leaves its mark. */
  lemma OverlapDiverges(hash: Item -> string)
    requires Injective(hash)
    ensures var a, b, c := Item("a", "s", ""), Item("b", "s", ""), Item("c", "s", "");
            var base := map["a" := Row(hash(a), a, 0)];
            var first, second := DeltaOf(hash, [a, b], base), DeltaOf(hash, [a, c], base);
            ApplyDelta(ApplyDelta(ItemsOf(base), first), second) != ToMap([a, c])
  {
    var a, b, c := Item("a", "s", ""), Item("b", "s", ""), Item("c", "s", "");
    var base := map["a" := Row(hash(a), a, 0)];
    var second := DeltaOf(hash, [a, c], base);
    DistinctHasNoRepeat(hash, [a, b], base);
    DistinctHasNoRepeat(hash, [a, c], base);
    OverlapIsHarmless(hash, base, [a, b], [a, c]);
    assert [a, c][..1] == [a] && [a, b][..1] == [a];
    AddedAt([a, c], base, "b");
    UpdatedAt(hash, [a, c], base, "b");
    assert LastWith([a, b], "b") == Some(b) && LastWith([a, c], "b") == None;
    assert !IsSaidAgain([a, b], [a, c], second, "b");
  }

  /** A copy of a delta changes nothing of a later scan exactly when all it says is true of that scan. */
  lemma CopyIsHarmless(d: Delta, scan: seq<Item>)
    ensures ApplyDelta(ToMap(scan), d) == ToMap(scan) <==>
            forall id :: if SentEntry(d, id).Some? then LastWith(scan, id) == SentEntry(d, id)
                         else id in d.removed ==> LastWith(scan, id).None?
  {
    var m := ApplyDelta(ToMap(scan), d);
    forall id
      ensures (if SentEntry(d, id).Some? then LastWith(scan, id) == SentEntry(d, id)
               else id in d.removed ==> LastWith(scan, id).None?) <==>
              (id in m <==> id in ToMap(scan)) && (id in m && id in ToMap(scan) ==> m[id] == ToMap(scan)[id])
    {
      DeltaAt(ToMap(scan), d, id);
      PutAt(map[], scan, id);
    }
  }

  /** A copy that a later delivery has overtaken takes the server back. */
  lemma OvertakenCopyBreaksMirror(hash: Item -> string)
    requires Injective(hash)
    ensures var x, y, z := Item("a", "s", "1"), Item("a", "s", "2"), Item("a", "s", "3");
            var first := DeltaOf(hash, [y], map["a" := Row(hash(x), x, 0)]);
            var second := DeltaOf(hash, [z], map["a" := Row(hash(y), y, 0)]);
            var server := ApplyDelta(ApplyDelta(map["a" := x], first), second);
            server == ToMap([z]) && ApplyDelta(server, first) != ToMap([z])
  {
    var x, y, z := Item("a", "s", "1"), Item("a", "s", "2"), Item("a", "s", "3");
    var b, c := map["a" := Row(hash(x), x, 0)], map["a" := Row(hash(y), y, 0)];
    var first := DeltaOf(hash, [y], b);
    OneRowMirrors(hash, b, y);
    OneRowMirrors(hash, c, z);
    assert ItemsOf(b) == map["a" := x] && ItemsOf(c) == ToMap([y]) by { OneEntry(y); }
    assert LastWith([y], "a") == Some(y) && LastWith([z], "a") == Some(z);
    UpdatedAt(hash, [y], b, "a");
    assert SentEntry(first, "a") == Some(y);
    CopyIsHarmless(first, [z]);
  }

  lemma OneRowMirrors(hash: Item -> string, b: Baseline, x: Item)
    requires Injective(hash) && RowsMatch(hash, b)
    ensures ApplyDelta(ItemsOf(b), DeltaOf(hash, [x], b)) == ToMap([x])
  {
    DistinctHasNoRepeat(hash, [x], b);
    DeltaMirrors(hash, [x], b);
  }

  lemma OneEntry(x: Item)
    ensures ToMap([x]) == map[x.id := x]
  {
    assert [x][1..] == [];
    assert Put(map[x.id := x], []) == map[x.id := x];
  }
}
