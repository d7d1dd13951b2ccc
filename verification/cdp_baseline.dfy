/**
 * The certificate baseline, its deltas and the staged deliveries of
 * `src/domain/cdp-baseline-repo.ts`. Tables are maps and sequences of rows.
 */
module CdpBaseline {
  import opened Js

  /** A certificate of a scan: its identity, its store and everything else. */
  datatype Item = Item(id: string, store: string, content: string)

  /** A row of `cdp_certificate_baseline`, under its `cert_id`. */
  datatype Row = Row(hash: string, item: Item, detectedAt: int)
  type Baseline = map<string, Row>

  /** `removed` holds each identifier once; the order of that list means nothing. */
  datatype Delta = Delta(added: seq<Item>, updated: seq<Item>, removed: set<string>)

  /** What is applied when a delivery is confirmed. */
  datatype Commit = Commit(baseline: seq<Item>, meta: map<string, string>)

  /** A row of `cdp_delivery_pending`. */
  datatype Package = Package(number: nat, outboxId: int, commit: Commit, stagedAt: int)

  /** `lastSeq` and `acked` are the keys `delivery_last_seq` and `delivery_acked` of `cdp_meta`. */
  datatype Tables = Tables(
    baseline: Baseline, pending: seq<Package>, meta: map<string, string>, lastSeq: nat, acked: bool, counter: nat)

  datatype Promotion = Promoted | Superseded | Nothing

  const LAST_SEQ_KEY: string := "delivery_last_seq"
  const ACKED_KEY: string := "delivery_acked"
  const STAGE_MAX_AGE_MS: int := 7 * 86400000

  // ----- Certificate maps ---------------------------------------------------

  /** Writing items one after another: the last one under an identifier stays. */
  function Put(m: map<string, Item>, items: seq<Item>): map<string, Item>
    decreases |items|
  {
    if items == [] then m else Put(m[items[0].id := items[0]], items[1..])
  }

  function ToMap(items: seq<Item>): map<string, Item> { Put(map[], items) }

  function ItemsOf(b: Baseline): map<string, Item> { map id | id in b :: b[id].item }

  function LastWith(items: seq<Item>, id: string): (r: Option<Item>)
    ensures r.Some? ==> r.value in items && r.value.id == id
    ensures r.None? ==> forall i :: 0 <= i < |items| ==> items[i].id != id
  {
    if items == [] then None
    else if items[|items| - 1].id == id then Some(items[|items| - 1])
    else LastWith(items[..|items| - 1], id)
  }

  /** The server: a full list replaces everything, a delta is applied on top. */
  function ApplyDelta(m: map<string, Item>, d: Delta): map<string, Item> {
    Put(Put(m - d.removed, d.added), d.updated)
  }

  // ----- The code -----------------------------------------------------------

  predicate HasId(items: seq<Item>, id: string) {
    exists i :: 0 <= i < |items| && items[i].id == id
  }

  function Added(items: seq<Item>, b: Baseline): seq<Item> {
    if items == [] then []
    else
      var last := items[|items| - 1];
      Added(items[..|items| - 1], b) + (if last.id !in b then [last] else [])
  }

  function Updated(hash: Item -> string, items: seq<Item>, b: Baseline): seq<Item> {
    if items == [] then []
    else
      var last := items[|items| - 1];
      Updated(hash, items[..|items| - 1], b) + (if last.id in b && b[last.id].hash != hash(last) then [last] else [])
  }

  function DeltaOf(hash: Item -> string, items: seq<Item>, b: Baseline): Delta {
    Delta(Added(items, b), Updated(hash, items, b), set id | id in b && !HasId(items, id))
  }

  function Upserted(hash: Item -> string, b: Baseline, items: seq<Item>, now: int): Baseline {
    if items == [] then b
    else
      var before, last := Upserted(hash, b, items[..|items| - 1], now), items[|items| - 1];
      before[last.id := Row(hash(last), last, if last.id in before then before[last.id].detectedAt else now)]
  }

  /** Rows absent from the scan go, the others are written in its order. */
  function Applied(hash: Item -> string, b: Baseline, items: seq<Item>, now: int): Baseline {
    Upserted(hash, map id | id in b && HasId(items, id) :: b[id], items, now)
  }

  function Keep(pending: seq<Package>, keep: Package -> bool): (r: seq<Package>)
    ensures |r| <= |pending|
    ensures forall p :: p in r <==> p in pending && keep(p)
  {
    if pending == [] then []
    else
      var last := pending[|pending| - 1];
      Keep(pending[..|pending| - 1], keep) + (if keep(last) then [last] else [])
  }

  function Staged(t: Tables, outboxId: int, commit: Commit, now: int): Tables {
    var kept := Keep(t.pending, (p: Package) => p.outboxId != outboxId && p.stagedAt >= now - STAGE_MAX_AGE_MS);
    t.(pending := kept + [Package(t.counter, outboxId, commit, now)], counter := t.counter + 1)
  }

  /** `WHERE outbox_id = ? ORDER BY seq DESC LIMIT 1` */
  function Newest(pending: seq<Package>, outboxId: int): (r: Option<Package>)
    ensures r.Some? ==> r.value in pending && r.value.outboxId == outboxId
    ensures r.Some? ==> forall p :: p in pending && p.outboxId == outboxId ==> p.number <= r.value.number
    ensures r.None? ==> forall p :: p in pending ==> p.outboxId != outboxId
  {
    if pending == [] then None
    else
      var rest, last := Newest(pending[..|pending| - 1], outboxId), pending[|pending| - 1];
      if last.outboxId == outboxId && (rest.None? || rest.value.number <= last.number) then Some(last) else rest
  }

  function PromotedBy(hash: Item -> string, t: Tables, outboxId: int, now: int): (Tables, Promotion) {
    var row := Newest(t.pending, outboxId);
    if row.None? then (t, Nothing)
    else
      var left := t.(pending := Keep(t.pending, (p: Package) => p.number > row.value.number));
      if row.value.number <= t.lastSeq then (left, Superseded)
      else
        (left.(baseline := Applied(hash, t.baseline, row.value.commit.baseline, now),
               meta := t.meta + (row.value.commit.meta - {LAST_SEQ_KEY, ACKED_KEY}),
               lastSeq := row.value.number, acked := true),
         Promoted)
  }

  /** `loadCdpBaselineItemsByStore`: the order of the rows is left open. */
  predicate IsCarried(out: seq<Item>, b: Baseline, fits: string -> bool, present: set<string>) {
    && (forall i :: 0 <= i < |out| ==>
          out[i].id in b && b[out[i].id].item == out[i] && Carries(b, out[i].id, fits, present))
    && (forall id :: id in b && Carries(b, id, fits, present) ==> b[id].item in out)
    && (forall i, j :: 0 <= i < j < |out| ==> out[i].id != out[j].id)
  }

  predicate Carries(b: Baseline, id: string, fits: string -> bool, present: set<string>)
    requires id in b
  {
    id !in present && b[id].item.store != "" && fits(b[id].item.store)
  }

  class CdpRepository {
    const hash: Item -> string
    var baseline: Baseline
    var pending: seq<Package>
    var meta: map<string, string>
    var lastSeq: nat
    var acked: bool
    var counter: nat

    function State(): Tables
      reads this
    {
      Tables(baseline, pending, meta, lastSeq, acked, counter)
    }

    constructor (hash: Item -> string)
      ensures this.hash == hash && State() == Tables(map[], [], map[], 0, false, 1)
    {
      this.hash := hash;
      baseline, pending, meta, lastSeq, acked, counter := map[], [], map[], 0, false, 1;
    }

    /** None on the first run, when the full list is sent instead. */
    method ComputeDelta(items: seq<Item>) returns (d: Option<Delta>)
      ensures d == if baseline == map[] then None else Some(DeltaOf(hash, items, baseline))
    {
      if |baseline| == 0 { return None; }
      var added: seq<Item>, updated: seq<Item>, seen: set<string> := [], [], {};
      for i := 0 to |items|
        invariant added == Added(items[..i], baseline) && updated == Updated(hash, items[..i], baseline)
        invariant forall id :: id in seen <==> HasId(items[..i], id)
      {
        var item := items[i];
        assert items[..i + 1][..i] == items[..i];
        SeenOneMore(items, i);
        seen := seen + {item.id};
        if item.id !in baseline {
          added := added + [item];
        } else if baseline[item.id].hash != hash(item) {
          updated := updated + [item];
        }
      }
      assert items[..|items|] == items;
      var removed, left := {}, baseline.Keys;
      while left != {}
        invariant left <= baseline.Keys
        invariant removed == set id | id in baseline && id !in left && id !in seen
        decreases left
      {
        var id :| id in left;
        if id !in seen { removed := removed + {id}; }
        left := left - {id};
      }
      assert removed == set id | id in baseline && !HasId(items, id);
      return Some(Delta(added, updated, removed));
    }

    method ApplyBaseline(items: seq<Item>, now: int)
      modifies this`baseline
      ensures baseline == Applied(hash, old(baseline), items, now)
    {
      baseline := map id | id in baseline && HasId(items, id) :: baseline[id];
      ghost var kept := baseline;
      for i := 0 to |items|
        invariant baseline == Upserted(hash, kept, items[..i], now)
      {
        var item := items[i];
        assert items[..i + 1][..i] == items[..i];
        var detectedAt := if item.id in baseline then baseline[item.id].detectedAt else now;
        baseline := baseline[item.id := Row(hash(item), item, detectedAt)];
      }
      assert items[..|items|] == items;
    }

    method Stage(outboxId: int, commit: Commit, now: int)
      modifies this`pending, this`counter
      ensures State() == Staged(old(State()), outboxId, commit, now)
    {
      pending := Keep(pending, (p: Package) => p.outboxId != outboxId && p.stagedAt >= now - STAGE_MAX_AGE_MS);
      pending := pending + [Package(counter, outboxId, commit, now)];
      counter := counter + 1;
    }

    method Promote(outboxId: int, now: int) returns (r: Promotion)
      modifies this
      ensures (State(), r) == PromotedBy(hash, old(State()), outboxId, now)
    {
      var row := Newest(pending, outboxId);
      if row.None? { return Nothing; }
      pending := Keep(pending, (p: Package) => p.number > row.value.number);
      if row.value.number <= lastSeq { return Superseded; }
      ApplyBaseline(row.value.commit.baseline, now);
      meta := meta + (row.value.commit.meta - {LAST_SEQ_KEY, ACKED_KEY});
      lastSeq := row.value.number;
      acked := true;
      return Promoted;
    }

    method LoadItemsByStore(fits: string -> bool, present: set<string>) returns (out: seq<Item>)
      requires RowsMatch(hash, baseline)
      ensures IsCarried(out, baseline, fits, present)
    {
      out := [];
      var left := baseline.Keys;
      while left != {}
        invariant left <= baseline.Keys
        invariant forall i :: 0 <= i < |out| ==>
                    out[i].id in baseline && baseline[out[i].id].item == out[i] && out[i].id !in left
                    && Carries(baseline, out[i].id, fits, present)
        invariant forall id :: id in baseline && id !in left && Carries(baseline, id, fits, present) ==>
                    baseline[id].item in out
        invariant forall i, j :: 0 <= i < j < |out| ==> out[i].id != out[j].id
        decreases left
      {
        var id :| id in left;
        left := left - {id};
        if id in present { continue; }
        var item := baseline[id].item;
        if item.store != "" && fits(item.store) { out := out + [item]; }
      }
    }
  }

  lemma SeenOneMore(items: seq<Item>, i: nat)
    requires i < |items|
    ensures forall id :: HasId(items[..i + 1], id) <==> HasId(items[..i], id) || id == items[i].id
  {
    forall id ensures HasId(items[..i + 1], id) <==> HasId(items[..i], id) || id == items[i].id {
      assert items[..i + 1][i] == items[i];
      if HasId(items[..i], id) {
        var k :| 0 <= k < i && items[..i][k].id == id;
        assert items[..i + 1][k].id == id;
      }
      if HasId(items[..i + 1], id) {
        var k :| 0 <= k <= i && items[..i + 1][k].id == id;
        if k < i { assert items[..i][k].id == id; }
      }
    }
  }

  /** Every row stands under the identifier of its item, with its hash. */
  predicate RowsMatch(hash: Item -> string, b: Baseline) {
    forall id :: id in b ==> b[id].item.id == id && b[id].hash == hash(b[id].item)
  }
}
