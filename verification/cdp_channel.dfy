/**
 * The agent, the server and an at-least-once channel between them: scans of
 * `src/plugins/cdp/index.ts`, staged and confirmed as in `src/domain/cdp-baseline-repo.ts`.
 */
module CdpChannel {
  import opened Js
  import opened CdpBaseline
  import opened CdpReplication

  // ----- What a scan sends --------------------------------------------------

  /**
   * A scan: what was seen, the baseline entries carried for stores that could not be
   * read, and the reasons for which no removal at all may be claimed.
   */
  datatype Seen = Seen(items: seq<Item>, carried: seq<Item>, unread: string -> bool, truncated: bool, unscoped: bool) {
    predicate Withholds() { truncated || unscoped }

    /** What is staged. */
    function Staged(): seq<Item> { items + carried }
  }

  /**
   * A full list replaces all but what it does not speak for: the rows of unread stores,
   * or every row when it withholds removals. A delta is applied on top.
   */
  datatype Payload = Full(items: seq<Item>, unread: string -> bool, withholds: bool) | Changes(delta: Delta)

  predicate Spares(p: Payload, x: Item)
    requires p.Full?
  {
    p.withholds || (x.store != "" && p.unread(x.store))
  }

  function Receive(m: map<string, Item>, p: Payload): map<string, Item> {
    match p
    case Full(items, _, _) => Put(map id | id in m && Spares(p, m[id]) :: m[id], items)
    case Changes(delta) => ApplyDelta(m, delta)
  }

  function IdsOf(items: seq<Item>): set<string> { set i | 0 <= i < |items| :: items[i].id }

  /** No diff: a forced scan, or nothing confirmed yet, or no baseline. */
  predicate IsFull(t: Tables, forced: bool) { forced || !t.acked || t.baseline == map[] }

  /** What `loadCdpBaselineItemsByStore` gave; nothing is asked for when a diffed scan is unscoped. */
  predicate CarriesRight(t: Tables, s: Seen, forced: bool) {
    if s.unscoped && !IsFull(t, forced) then s.carried == []
    else IsCarried(s.carried, t.baseline, s.unread, IdsOf(s.items))
  }

  function PayloadOf(hash: Item -> string, t: Tables, s: Seen, forced: bool): Payload {
    if IsFull(t, forced) then Full(s.items, s.unread, s.Withholds())
    else
      var d := DeltaOf(hash, s.items, t.baseline);
      Changes(d.(removed := if s.Withholds() then {} else d.removed - IdsOf(s.carried)))
  }

  /** Without changes nothing is sent. `other` says that some other block of the namespace changed. */
  predicate HasChanges(p: Payload, other: bool) {
    p.Full? || other || p.delta.added != [] || p.delta.updated != [] || p.delta.removed != {}
  }

  // ----- When a scan keeps the mirror ---------------------------------------

  /** Every confirmed entry is seen again or carried. */
  predicate Covers(b: Baseline, s: Seen) {
    forall id :: id in b ==> HasId(s.items, id) || HasId(s.carried, id)
  }

  /** What can be checked of a scan before it is sent. */
  predicate IsMirrorable(hash: Item -> string, t: Tables, s: Seen, forced: bool) {
    && (IsFull(t, forced) || NoStaleRepeat(hash, s.items, t.baseline))
    && (s.Withholds() ==> Covers(t.baseline, s))
  }

  lemma IdsAre(items: seq<Item>, id: string)
    ensures LastWith(items, id).Some? == HasId(items, id) == (id in IdsOf(items))
  {
  }

  lemma CarriedAt(t: Tables, s: Seen, forced: bool, id: string)
    requires CarriesRight(t, s, forced) && RowsKnown(t.baseline)
    ensures LastWith(s.carried, id).Some? ==>
              id in t.baseline && LastWith(s.carried, id).value == t.baseline[id].item && LastWith(s.items, id).None?
  {
    IdsAre(s.items, id);
    if LastWith(s.carried, id).Some? {
      var x := LastWith(s.carried, id).value;
      var i :| 0 <= i < |s.carried| && s.carried[i] == x;
      assert s.carried[i].id in t.baseline && Carries(t.baseline, s.carried[i].id, s.unread, IdsOf(s.items));
    }
  }

  /** Every row stands under the identifier of its item. */
  predicate RowsKnown(b: Baseline) { forall id :: id in b ==> b[id].item.id == id }

  /** The entry received under an identifier. */
  lemma FullAt(m: map<string, Item>, p: Payload, id: string)
    requires p.Full?
    ensures var r := Receive(m, p);
            && (LastWith(p.items, id).Some? ==> id in r && r[id] == LastWith(p.items, id).value)
            && (LastWith(p.items, id).None? ==> (id in r <==> id in m && Spares(p, m[id])))
            && (LastWith(p.items, id).None? && id in r ==> r[id] == m[id])
  {
    PutAt(map k | k in m && Spares(p, m[k]) :: m[k], p.items, id);
  }

  lemma FullMirrors(hash: Item -> string, t: Tables, s: Seen, forced: bool, id: string)
    requires RowsKnown(t.baseline) && CarriesRight(t, s, forced) && IsFull(t, forced)
    ensures var m := Receive(ItemsOf(t.baseline), PayloadOf(hash, t, s, forced));
            && (id in m && id in ToMap(s.Staged()) ==> m[id] == ToMap(s.Staged())[id])
            && (id in ToMap(s.Staged()) ==> id in m)
            && (id in m && id !in ToMap(s.Staged()) <==>
                  s.Withholds() && id in t.baseline && !HasId(s.items, id) && !HasId(s.carried, id))
  {
    var p := PayloadOf(hash, t, s, forced);
    FullAt(ItemsOf(t.baseline), p, id);
    CarriedAt(t, s, forced, id);
    IdsAre(s.items, id);
    IdsAre(s.carried, id);
    PutAt(map[], s.Staged(), id);
    LastAppend(s.items, s.carried, id);
    if id in t.baseline && Carries(t.baseline, id, s.unread, IdsOf(s.items)) {
      assert t.baseline[id].item in s.carried;
      assert HasId(s.carried, id);
    }
  }

  /** A diffed scan whose repeats are not stale: what is left over is what it withheld. */
  lemma ChangesMirror(hash: Item -> string, t: Tables, s: Seen, forced: bool, id: string)
    requires Injective(hash) && RowsMatch(hash, t.baseline) && CarriesRight(t, s, forced) && !IsFull(t, forced)
    requires NoStaleRepeat(hash, s.items, t.baseline)
    ensures var m := Receive(ItemsOf(t.baseline), PayloadOf(hash, t, s, forced));
            && (id in m && id in ToMap(s.Staged()) ==> m[id] == ToMap(s.Staged())[id])
            && (id in ToMap(s.Staged()) ==> id in m)
            && (id in m && id !in ToMap(s.Staged()) <==>
                  s.Withholds() && id in t.baseline && !HasId(s.items, id) && !HasId(s.carried, id))
  {
    var d := DeltaOf(hash, s.items, t.baseline);
    var kept := if s.Withholds() then d.removed + IdsOf(s.carried) else IdsOf(s.carried);
    assert d.removed - kept == if s.Withholds() then {} else d.removed - IdsOf(s.carried);
    MirrorAt(hash, s.items, t.baseline, kept, id);
    CarriedAt(t, s, forced, id);
    IdsAre(s.items, id);
    IdsAre(s.carried, id);
    PutAt(map[], s.Staged(), id);
    LastAppend(s.items, s.carried, id);
  }

  lemma StaleShows(hash: Item -> string, t: Tables, s: Seen, forced: bool)
    requires Injective(hash) && RowsMatch(hash, t.baseline) && CarriesRight(t, s, forced) && !IsFull(t, forced)
    requires !NoStaleRepeat(hash, s.items, t.baseline)
    ensures Receive(ItemsOf(t.baseline), PayloadOf(hash, t, s, forced)) != ToMap(s.Staged())
  {
    var b := t.baseline;
    var i :| 0 <= i < |s.items| && s.items[i].id in b && hash(s.items[i]) != b[s.items[i].id].hash
             && hash(Last(s.items, i)) == b[s.items[i].id].hash;
    var id := s.items[i].id;
    StaleAt(hash, s.items, b, i, PayloadOf(hash, t, s, forced).delta.removed);
    CarriedAt(t, s, forced, id);
    PutAt(map[], s.Staged(), id);
    LastAppend(s.items, s.carried, id);
  }

  /** The server is left with another entry than the last of the scan. */
  lemma StaleAt(hash: Item -> string, items: seq<Item>, b: Baseline, i: nat, removed: set<string>)
    requires i < |items| && items[i].id in b && hash(items[i]) != b[items[i].id].hash == hash(Last(items, i))
    ensures var m := ApplyDelta(ItemsOf(b), DeltaOf(hash, items, b).(removed := removed));
            items[i].id in m && m[items[i].id] != Last(items, i)
  {
    UpdatedAt(hash, items, b, items[i].id);
    DeltaAt(ItemsOf(b), DeltaOf(hash, items, b).(removed := removed), items[i].id);
  }

  /**
   * Whatever kind of scan, complete, partial, truncated or unscoped: a server at the
   * baseline that receives it holds exactly what is staged if and only if no repeat is
   * stale and, when it claims no removal, there is none to claim.
   */
  lemma ScanMirrors(hash: Item -> string, t: Tables, s: Seen, forced: bool)
    requires Injective(hash) && RowsMatch(hash, t.baseline) && CarriesRight(t, s, forced)
    ensures Receive(ItemsOf(t.baseline), PayloadOf(hash, t, s, forced)) == ToMap(s.Staged()) <==>
            IsMirrorable(hash, t, s, forced)
  {
    var m, all := Receive(ItemsOf(t.baseline), PayloadOf(hash, t, s, forced)), ToMap(s.Staged());
    if !IsFull(t, forced) && !NoStaleRepeat(hash, s.items, t.baseline) {
      StaleShows(hash, t, s, forced);
    } else {
      forall id
        ensures id in m && id in all ==> m[id] == all[id]
        ensures id in all ==> id in m
        ensures id in m && id !in all <==>
                  s.Withholds() && id in t.baseline && !HasId(s.items, id) && !HasId(s.carried, id)
      {
        if IsFull(t, forced) { FullMirrors(hash, t, s, forced, id); } else { ChangesMirror(hash, t, s, forced, id); }
      }
      if IsMirrorable(hash, t, s, forced) {
        assert forall id :: id in m <==> id in all;
      } else {
        var id :| id in t.baseline && !HasId(s.items, id) && !HasId(s.carried, id);
        assert id in m && id !in all;
      }
    }
  }

  lemma NothingSaid(m: map<string, Item>, d: Delta)
    requires d.added == [] && d.updated == [] && d.removed == {}
    ensures ApplyDelta(m, d) == m
  {
    assert m - {} == m;
  }

  /**
   * A scan that can be mirrored is not sent exactly when what it would stage is what was
   * confirmed before, and it is diffed: new, changed or missing certificates always go out.
   */
  lemma UnsentIsUpToDate(hash: Item -> string, t: Tables, s: Seen, forced: bool)
    requires Injective(hash) && RowsMatch(hash, t.baseline) && CarriesRight(t, s, forced)
    requires IsMirrorable(hash, t, s, forced)
    ensures !HasChanges(PayloadOf(hash, t, s, forced), false) <==>
              !IsFull(t, forced) && ToMap(s.Staged()) == ItemsOf(t.baseline)
  {
    var p := PayloadOf(hash, t, s, forced);
    ScanMirrors(hash, t, s, forced);
    if !IsFull(t, forced) {
      if !HasChanges(p, false) {
        NothingSaid(ItemsOf(t.baseline), p.delta);
      } else if ToMap(s.Staged()) == ItemsOf(t.baseline) {
        SaidShows(hash, t, s, forced);
        assert false;
      }
    }
  }

  /** What a delta says, the scan says otherwise than the baseline. */
  lemma SaidShows(hash: Item -> string, t: Tables, s: Seen, forced: bool)
    requires Injective(hash) && RowsMatch(hash, t.baseline) && CarriesRight(t, s, forced)
    requires IsMirrorable(hash, t, s, forced) && !IsFull(t, forced)
    requires HasChanges(PayloadOf(hash, t, s, forced), false)
    ensures ToMap(s.Staged()) != ItemsOf(t.baseline)
  {
    var d := PayloadOf(hash, t, s, forced).delta;
    if d.added != [] {
      SaidAt(hash, t, s, forced, d.added[0].id);
    } else if d.updated != [] {
      SaidAt(hash, t, s, forced, d.updated[0].id);
    } else {
      var id :| id in d.removed;
      IdsAre(s.items, id);
      IdsAre(s.carried, id);
      PutAt(map[], s.Staged(), id);
      LastAppend(s.items, s.carried, id);
      assert id in ItemsOf(t.baseline);
    }
  }

  lemma SaidAt(hash: Item -> string, t: Tables, s: Seen, forced: bool, id: string)
    requires RowsMatch(hash, t.baseline) && CarriesRight(t, s, forced) && NoStaleRepeat(hash, s.items, t.baseline)
    requires LastWith(Added(s.items, t.baseline), id).Some? || LastWith(Updated(hash, s.items, t.baseline), id).Some?
    ensures ToMap(s.Staged()) != ItemsOf(t.baseline)
  {
    var b := t.baseline;
    AddedAt(s.items, b, id);
    UpdatedAt(hash, s.items, b, id);
    CarriedAt(t, s, forced, id);
    PutAt(map[], s.Staged(), id);
    LastAppend(s.items, s.carried, id);
    if id in b {
      var i :| 0 <= i < |s.items| && s.items[i].id == id && hash(s.items[i]) != b[id].hash;
      assert hash(Last(s.items, i)) != b[id].hash;
      assert ToMap(s.Staged())[id] == Last(s.items, i);
    }
  }

  /** A scan that leaves nothing unread replaces whatever the server held. */
  lemma CompleteReplaces(m: map<string, Item>, s: Seen)
    requires IsComplete(s)
    ensures Receive(m, Full(s.items, s.unread, s.Withholds())) == ToMap(s.items)
  {
    assert (map id | id in m && Spares(Full(s.items, s.unread, s.Withholds()), m[id]) :: m[id]) == map[];
  }

  ghost predicate IsComplete(s: Seen) { !s.Withholds() && forall store :: !s.unread(store) }

  /** Receiving any payload twice is receiving it once. */
  lemma ReceivedTwice(m: map<string, Item>, p: Payload)
    ensures Receive(Receive(m, p), p) == Receive(m, p)
  {
    match p
    case Changes(delta) => DeltaIsIdempotent(m, delta);
    case Full(items, _, _) =>
      var once := Receive(m, p);
      var twice := Receive(once, p);
      forall id ensures id in once <==> id in twice
        ensures id in once ==> once[id] == twice[id]
      {
        FullAt(m, p, id);
        FullAt(once, p, id);
      }
  }

  /**
   * A forced scan always goes out, in full, and whatever the server held, it ends up with
   * what a complete one saw: this is what repairs a mirror that was lost.
   */
  lemma ForcedHeals(hash: Item -> string, t: Tables, s: Seen, server: map<string, Item>, other: bool)
    requires IsComplete(s)
    ensures HasChanges(PayloadOf(hash, t, s, true), other)
    ensures Receive(server, PayloadOf(hash, t, s, true)) == ToMap(s.items)
  {
    CompleteReplaces(server, s);
  }

  // ----- The channel --------------------------------------------------------

  /** An outbox event: what it carries and what was staged with it. */
  datatype Delivery = Delivery(outboxId: nat, payload: Payload, scan: seq<Item>)

  /**
   * `out` is the delivery outstanding and `last` the last one confirmed, of which copies
   * may still be on their way. `acks` are the acknowledgements that may still arrive.
   */
  datatype System = System(
    t: Tables, server: map<string, Item>, out: Option<Delivery>, last: Option<Delivery>, acks: set<nat>, nextId: nat)

  datatype ChannelEvent =
    | Scan(seen: Seen, forced: bool, other: bool, now: int)
    | Arrive
    | ArriveAgain
    | Ack(outboxId: nat, now: int)
    | GiveUp

  predicate HasArrived(s: System) { s.out.Some? && s.out.value.outboxId in s.acks }

  /**
   * One delivery is outstanding at a time. A copy of it may arrive any number of times,
   * also after it was confirmed, until a later one arrives; an acknowledgement may be
   * lost, late or repeated; a delivery of which no copy arrived may be given up.
   */
  ghost predicate Possible(hash: Item -> string, s: System, ev: ChannelEvent) {
    match ev
    case Scan(seen, forced, _, _) =>
      && s.out.None? && CarriesRight(s.t, seen, forced) && IsMirrorable(hash, s.t, seen, forced)
      && (!s.t.acked ==> IsComplete(seen))
    case Arrive => s.out.Some?
    case ArriveAgain => s.last.Some? && !HasArrived(s)
    case Ack(outboxId, _) => outboxId in s.acks
    case GiveUp => s.out.Some? && !HasArrived(s)
  }

  function NextSystem(hash: Item -> string, s: System, ev: ChannelEvent): System
    requires ev.Arrive? ==> s.out.Some?
    requires ev.ArriveAgain? ==> s.last.Some?
  {
    match ev
    case Scan(seen, forced, other, now) =>
      var p := PayloadOf(hash, s.t, seen, forced);
      if !HasChanges(p, other) then s
      else s.(t := Staged(s.t, s.nextId, Commit(seen.Staged(), map[]), now),
              out := Some(Delivery(s.nextId, p, seen.Staged())), nextId := s.nextId + 1)
    case Arrive => s.(server := Receive(s.server, s.out.value.payload), acks := s.acks + {s.out.value.outboxId})
    case ArriveAgain => s.(server := Receive(s.server, s.last.value.payload), acks := s.acks + {s.last.value.outboxId})
    case Ack(outboxId, now) =>
      var confirmed := s.out.Some? && s.out.value.outboxId == outboxId;
      s.(t := PromotedBy(hash, s.t, outboxId, now).0,
         out := if confirmed then None else s.out, last := if confirmed then s.out else s.last)
    case GiveUp => s.(out := None)
  }

  ghost predicate IsChannelRun(hash: Item -> string, s: System, evs: seq<ChannelEvent>)
    decreases |evs|
  {
    evs == [] || (Possible(hash, s, evs[0]) && IsChannelRun(hash, NextSystem(hash, s, evs[0]), evs[1..]))
  }

  ghost function SystemAfter(hash: Item -> string, s: System, evs: seq<ChannelEvent>): System
    requires IsChannelRun(hash, s, evs)
    decreases |evs|
  {
    if evs == [] then s else SystemAfter(hash, NextSystem(hash, s, evs[0]), evs[1..])
  }

  // ----- What every run keeps -----------------------------------------------

  /** The newest package is that of the delivery outstanding; the others were given up. */
  predicate Tracked(s: System) {
    && s.t.lastSeq < s.t.counter && PendingOk(s.t.pending, s.t.lastSeq, s.t.counter)
    && (forall i :: 0 <= i < |s.t.pending| ==> s.t.pending[i].outboxId < s.nextId)
    && (forall a :: a in s.acks ==> a < s.nextId)
    && (s.out.Some? ==>
          && s.out.value.outboxId < s.nextId && s.t.pending != []
          && var p := s.t.pending[|s.t.pending| - 1];
             p.outboxId == s.out.value.outboxId && p.commit.baseline == s.out.value.scan)
    && (forall i :: 0 <= i < |s.t.pending| && s.t.pending[i].outboxId in s.acks ==>
          s.out.Some? && s.t.pending[i].outboxId == s.out.value.outboxId)
    && (s.last.Some? ==>
          && s.last.value.outboxId < s.nextId
          && forall i :: 0 <= i < |s.t.pending| ==> s.t.pending[i].outboxId != s.last.value.outboxId)
  }

  /** A copy that arrives at what it led to changes nothing. */
  predicate Settles(d: Delivery) { Receive(ToMap(d.scan), d.payload) == ToMap(d.scan) }

  predicate Mirrored(hash: Item -> string, s: System) {
    && RowsMatch(hash, s.t.baseline)
    && (s.t.acked && !HasArrived(s) ==> s.server == ItemsOf(s.t.baseline))
    && (s.out.Some? ==>
          && Settles(s.out.value)
          && (if HasArrived(s) then s.server == ToMap(s.out.value.scan)
              else Receive(s.server, s.out.value.payload) == ToMap(s.out.value.scan)))
    && (s.last.Some? ==> s.t.acked && Settles(s.last.value) && ItemsOf(s.t.baseline) == ToMap(s.last.value.scan))
  }

  lemma StagedTracked(hash: Item -> string, s: System, seen: Seen, forced: bool, other: bool, now: int)
    requires Tracked(s) && s.out.None?
    ensures Tracked(NextSystem(hash, s, Scan(seen, forced, other, now)))
  {
    var keep := (p: Package) => p.outboxId != s.nextId && p.stagedAt >= now - STAGE_MAX_AGE_MS;
    KeptTracked(s, keep);
    AppendOk(Keep(s.t.pending, keep), Package(s.t.counter, s.nextId, Commit(seen.Staged(), map[]), now),
             s.t.lastSeq, s.t.counter);
  }

  /** What is left of the packages given up. */
  lemma KeptTracked(s: System, keep: Package -> bool)
    requires Tracked(s) && s.out.None?
    ensures var kept := Keep(s.t.pending, keep);
            && PendingOk(kept, s.t.lastSeq, s.t.counter)
            && (forall i :: 0 <= i < |kept| ==> kept[i].outboxId < s.nextId && kept[i].outboxId !in s.acks)
            && (s.last.Some? ==> forall i :: 0 <= i < |kept| ==> kept[i].outboxId != s.last.value.outboxId)
  {
    var kept := Keep(s.t.pending, keep);
    assert forall p :: p in s.t.pending ==> s.t.lastSeq < p.number;
    KeepOk(s.t.pending, keep, s.t.lastSeq, s.t.counter, s.t.lastSeq);
    forall i | 0 <= i < |kept|
      ensures kept[i].outboxId < s.nextId && kept[i].outboxId !in s.acks
      ensures s.last.Some? ==> kept[i].outboxId != s.last.value.outboxId
    {
      assert kept[i] in s.t.pending;
    }
  }

  lemma ScanKeeps(hash: Item -> string, s: System, ev: ChannelEvent)
    requires Injective(hash) && ev.Scan? && Possible(hash, s, ev) && Tracked(s) && Mirrored(hash, s)
    ensures Tracked(NextSystem(hash, s, ev)) && Mirrored(hash, NextSystem(hash, s, ev))
  {
    var p := PayloadOf(hash, s.t, ev.seen, ev.forced);
    StagedTracked(hash, s, ev.seen, ev.forced, ev.other, ev.now);
    if s.t.acked {
      ScanMirrors(hash, s.t, ev.seen, ev.forced);
    } else {
      CompleteReplaces(s.server, ev.seen);
      NothingCarried(s.t, ev.seen, ev.forced);
    }
    ReceivedTwice(s.server, p);
  }

  lemma NothingCarried(t: Tables, s: Seen, forced: bool)
    requires IsComplete(s) && CarriesRight(t, s, forced)
    ensures s.carried == [] && s.Staged() == s.items
  {
    CarriedIsUnread(t, s, forced);
  }

  lemma CarriedIsUnread(t: Tables, s: Seen, forced: bool)
    requires CarriesRight(t, s, forced)
    ensures s.carried == [] || exists store :: s.unread(store)
  {
    if s.carried != [] {
      var id := s.carried[0].id;
      assert id in t.baseline && Carries(t.baseline, id, s.unread, IdsOf(s.items));
      assert s.unread(t.baseline[id].item.store);
    }
  }

  lemma ArriveKeeps(hash: Item -> string, s: System, ev: ChannelEvent)
    requires ev.Arrive? || ev.ArriveAgain? || ev.GiveUp?
    requires Possible(hash, s, ev) && Tracked(s) && Mirrored(hash, s)
    ensures Tracked(NextSystem(hash, s, ev)) && Mirrored(hash, NextSystem(hash, s, ev))
  {
  }

  /** The acknowledgement of the delivery outstanding promotes its package and no other is left. */
  lemma AckPromotes(hash: Item -> string, s: System, now: int)
    requires HasArrived(s) && Tracked(s) && RowsMatch(hash, s.t.baseline)
    ensures var t := PromotedBy(hash, s.t, s.out.value.outboxId, now).0;
            && t.pending == [] && t.acked && t.lastSeq < t.counter
            && RowsMatch(hash, t.baseline) && ItemsOf(t.baseline) == ToMap(s.out.value.scan)
  {
    var id, p := s.out.value.outboxId, s.t.pending[|s.t.pending| - 1];
    assert p in s.t.pending;
    var row := Newest(s.t.pending, id).value;
    assert forall i :: 0 <= i < |s.t.pending| - 1 ==> s.t.pending[i].outboxId != id;
    assert row == p;
    assert forall q :: q in s.t.pending ==> q.number <= p.number;
    KeepNone(s.t.pending, (q: Package) => q.number > p.number);
    AppliedMirrors(hash, s.t.baseline, p.commit.baseline, now);
  }

  lemma {:induction false} KeepNone(pending: seq<Package>, keep: Package -> bool)
    requires forall p :: p in pending ==> !keep(p)
    ensures Keep(pending, keep) == []
  {
    if pending != [] { KeepNone(pending[..|pending| - 1], keep); }
  }

  lemma AckKeeps(hash: Item -> string, s: System, outboxId: nat, now: int)
    requires outboxId in s.acks && Tracked(s) && Mirrored(hash, s)
    ensures var after := NextSystem(hash, s, Ack(outboxId, now));
            && Tracked(after) && Mirrored(hash, after)
            && (s.out.Some? && s.out.value.outboxId == outboxId ==>
                  after.t.acked && after.server == ItemsOf(after.t.baseline) == ToMap(s.out.value.scan))
  {
    if s.out.Some? && s.out.value.outboxId == outboxId {
      AckPromotes(hash, s, now);
    } else {
      assert forall i :: 0 <= i < |s.t.pending| ==> s.t.pending[i].outboxId != outboxId;
      assert Newest(s.t.pending, outboxId) == None;
    }
  }

  lemma {:induction false} ChannelRunKeeps(hash: Item -> string, s: System, evs: seq<ChannelEvent>)
    requires Injective(hash) && Tracked(s) && Mirrored(hash, s) && IsChannelRun(hash, s, evs)
    ensures Tracked(SystemAfter(hash, s, evs)) && Mirrored(hash, SystemAfter(hash, s, evs))
    decreases |evs|
  {
    if evs != [] {
      match evs[0] {
        case Scan(_, _, _, _) => ScanKeeps(hash, s, evs[0]);
        case Ack(outboxId, now) => AckKeeps(hash, s, outboxId, now);
        case _ => ArriveKeeps(hash, s, evs[0]);
      }
      ChannelRunKeeps(hash, NextSystem(hash, s, evs[0]), evs[1..]);
    }
  }

  /** A fresh schema, but for the baseline an older agent may have left. */
  function Start(baseline: Baseline, server: map<string, Item>): System {
    System(EMPTY_TABLES.(baseline := baseline), server, None, None, {}, 1)
  }

  /** The scan is outstanding, or it says nothing that is not confirmed, and the server has it. */
  ghost predicate IsTakenUp(hash: Item -> string, s: System, ev: ChannelEvent)
    requires ev.Scan?
  {
    var after := NextSystem(hash, s, ev);
    || (after.out.Some? && after.out.value.scan == ev.seen.Staged())
    || (after == s && s.t.acked && ToMap(ev.seen.Staged()) == ItemsOf(s.t.baseline) == s.server)
  }

  /**
   * Whatever the schedule of losses, copies, late acknowledgements and deliveries given
   * up, and whatever baseline an older agent and the server held: once a delivery has
   * been confirmed the server is at the baseline, or at the one scan outstanding if a
   * copy of it has arrived, and it is at the baseline right after that one is confirmed.
   * A scan that is not sent is one the server holds already.
   */
  lemma Faithful(hash: Item -> string, baseline: Baseline, server: map<string, Item>, evs: seq<ChannelEvent>)
    requires Injective(hash) && RowsMatch(hash, baseline) && IsChannelRun(hash, Start(baseline, server), evs)
    ensures var s := SystemAfter(hash, Start(baseline, server), evs);
            && (forall ev: ChannelEvent :: ev.Scan? && Possible(hash, s, ev) ==> IsTakenUp(hash, s, ev))
            && (s.t.acked ==> s.server == if HasArrived(s) then ToMap(s.out.value.scan) else ItemsOf(s.t.baseline))
            && (forall now :: HasArrived(s) ==>
                  var after := NextSystem(hash, s, Ack(s.out.value.outboxId, now));
                  after.t.acked && after.server == ItemsOf(after.t.baseline) == ToMap(s.out.value.scan))
  {
    ChannelRunKeeps(hash, Start(baseline, server), evs);
    var s := SystemAfter(hash, Start(baseline, server), evs);
    forall ev: ChannelEvent | ev.Scan? && Possible(hash, s, ev) ensures IsTakenUp(hash, s, ev) {
      UnsentIsUpToDate(hash, s.t, ev.seen, ev.forced);
    }
    if HasArrived(s) {
      forall now ensures var after := NextSystem(hash, s, Ack(s.out.value.outboxId, now));
                         after.t.acked && after.server == ItemsOf(after.t.baseline) == ToMap(s.out.value.scan)
      {
        AckKeeps(hash, s, s.out.value.outboxId, now);
      }
    }
  }
}
