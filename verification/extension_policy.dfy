/**
 * The list planner of `src/domain/extension-policy.ts`: what to write to a browser
 * policy list, and which of its entries the agent remembers as its own.
 */
module ExtensionPolicy {
  import opened Js

  datatype Plan = Plan(
    next: seq<string>, changed: bool, added: seq<string>, removed: seq<string>,
    owned: seq<string>, foreign: seq<string>)

  // ----- The specification --------------------------------------------------

  /** The elements of `s` that satisfy `keep`, in order. */
  function Filter(s: seq<string>, keep: string -> bool): (r: seq<string>)
    ensures forall x :: x in r <==> x in s && keep(x)
  {
    if s == [] then []
    else Filter(s[..|s| - 1], keep) + (if keep(s[|s| - 1]) then [s[|s| - 1]] else [])
  }

  /** First occurrences, in order. */
  function Dedup(s: seq<string>): (r: seq<string>)
    ensures forall x :: x in r <==> x in s
  {
    if s == [] then []
    else
      var init, last := s[..|s| - 1], s[|s| - 1];
      Dedup(init) + (if last in init then [] else [last])
  }

  function Without(s: seq<string>, gone: seq<string>): seq<string> { Filter(s, (x: string) => x !in gone) }

  /** What survives of the current list: everything but the agent's own entries no longer wanted. */
  function Survivors(current: seq<string>, desired: seq<string>, owned: seq<string>): seq<string> {
    Filter(Dedup(current), (x: string) => !(x in owned && x !in desired))
  }

  /** What is appended: the wanted entries that are not there. */
  function Missing(current: seq<string>, desired: seq<string>): seq<string> {
    Dedup(Without(desired, current))
  }

  function Next(current: seq<string>, desired: seq<string>, owned: seq<string>): seq<string> {
    Survivors(current, desired, owned) + Missing(current, desired)
  }

  /** What becomes the agent's: what it owned and still wants, and what it added. */
  function NowOwned(current: seq<string>, desired: seq<string>, owned: seq<string>): seq<string> {
    Filter(desired, (x: string) => x in owned || x !in current)
  }

  // ----- The code -----------------------------------------------------------

  /** The pass over the list as it is in the registry. */
  method KeepCurrent(current: seq<string>, desired: seq<string>, owned: seq<string>)
    returns (next: seq<string>, removed: seq<string>, present: set<string>)
    ensures next == Survivors(current, desired, owned)
    ensures forall x :: x in present <==> x in next
    ensures forall x :: x in removed <==> x in current && x in owned && x !in desired
  {
    next, removed, present := [], [], {};
    for i := 0 to |current|
      invariant next == Survivors(current[..i], desired, owned)
      invariant forall x :: x in present <==> x in next
      invariant forall x :: x in removed <==> x in current[..i] && x in owned && x !in desired
    {
      var id := current[i];
      assert current[..i + 1][..i] == current[..i];
      SurvivorsStep(current[..i + 1], desired, owned);
      if id in present { continue; }
      if id in owned && id !in desired {
        removed := removed + [id];
        continue;
      }
      next := next + [id];
      present := present + {id};
    }
    assert current[..|current|] == current;
  }

  /** The pass over what the policy asks for. */
  method AddDesired(current: seq<string>, desired: seq<string>, kept: seq<string>, seen: set<string>)
    returns (next: seq<string>, added: seq<string>, present: set<string>)
    requires forall x :: x in seen <==> x in kept
    requires forall x :: x in desired ==> (x in kept <==> x in current)
    ensures added == Missing(current, desired) && next == kept + added
    ensures forall x :: x in present <==> x in next
  {
    next, added, present := kept, [], seen;
    for i := 0 to |desired|
      invariant added == Missing(current, desired[..i]) && next == kept + added
      invariant forall x :: x in present <==> x in next
    {
      var id := desired[i];
      AddStep(current, desired, kept, added, i);
      if id in present { continue; }
      Append(kept, added, id);
      next := next + [id];
      present := present + {id};
      added := added + [id];
    }
    assert desired[..|desired|] == desired;
  }

  method PlanPolicyList(current: seq<string>, desired: seq<string>, owned: seq<string>) returns (p: Plan)
    ensures p.next == Next(current, desired, owned)
    ensures p.added == Missing(current, desired)
    ensures p.owned == NowOwned(current, desired, owned)
    ensures p.foreign == Without(p.next, p.owned)
    ensures forall x :: x in p.removed <==> x in current && x in owned && x !in desired
    ensures p.changed <==> p.next != current
  {
    var kept, removed, seen := KeepCurrent(current, desired, owned);
    var next, added, present := AddDesired(current, desired, kept, seen);
    var newOwned := Filter(desired, (x: string) => x in present && (x in owned || x in added));
    SameFilter(desired, (x: string) => x in present && (x in owned || x in added),
               (x: string) => x in owned || x !in current);
    var foreign := Without(next, newOwned);
    return Plan(next, next != current, added, removed, newOwned, foreign);
  }

  lemma {:induction false} SameFilter(s: seq<string>, p: string -> bool, q: string -> bool)
    requires forall x :: x in s ==> p(x) == q(x)
    ensures Filter(s, p) == Filter(s, q)
  {
    if s != [] { SameFilter(s[..|s| - 1], p, q); }
  }

  lemma {:induction false} FilterAppend(a: seq<string>, b: seq<string>, keep: string -> bool)
    ensures Filter(a + b, keep) == Filter(a, keep) + Filter(b, keep)
    decreases |b|
  {
    if b == [] {
      assert a + b == a;
    } else {
      assert (a + b)[..|a + b| - 1] == a + b[..|b| - 1] && (a + b)[|a + b| - 1] == b[|b| - 1];
      FilterAppend(a, b[..|b| - 1], keep);
    }
  }

  lemma {:induction false} FilterFilter(s: seq<string>, p: string -> bool, q: string -> bool)
    ensures Filter(Filter(s, p), q) == Filter(s, (x: string) => p(x) && q(x))
  {
    if s != [] {
      var init, last := s[..|s| - 1], s[|s| - 1];
      FilterFilter(init, p, q);
      FilterAppend(Filter(init, p), if p(last) then [last] else [], q);
    }
  }

  lemma SurvivorsStep(s: seq<string>, desired: seq<string>, owned: seq<string>)
    requires s != []
    ensures var init, last := s[..|s| - 1], s[|s| - 1];
            Survivors(s, desired, owned) ==
            Survivors(init, desired, owned)
            + (if last in init || (last in owned && last !in desired) then [] else [last])
  {
    var init, last := s[..|s| - 1], s[|s| - 1];
    FilterAppend(Dedup(init), if last in init then [] else [last], (x: string) => !(x in owned && x !in desired));
  }

  lemma MissingStep(current: seq<string>, s: seq<string>)
    requires s != []
    ensures var init, last := s[..|s| - 1], s[|s| - 1];
            Missing(current, s) == Missing(current, init) + (if last in current || last in init then [] else [last])
  {
    var init, last := s[..|s| - 1], s[|s| - 1];
    var some := Without(init, current);
    if last in current {
      assert Without(s, current) == some;
    } else {
      assert Without(s, current) == some + [last];
      assert (some + [last])[..|some + [last]| - 1] == some;
      assert last in some <==> last in init;
    }
  }

  lemma Append(kept: seq<string>, added: seq<string>, id: string)
    ensures kept + (added + [id]) == (kept + added) + [id]
    ensures forall x :: x in (kept + added) + [id] <==> x in kept + added || x == id
  {
  }

  /** One turn of `AddDesired`. */
  lemma AddStep(current: seq<string>, desired: seq<string>, kept: seq<string>, added: seq<string>, i: nat)
    requires i < |desired| && added == Missing(current, desired[..i])
    requires forall x :: x in desired ==> (x in kept <==> x in current)
    ensures Missing(current, desired[..i + 1]) == if desired[i] in kept + added then added else added + [desired[i]]
  {
    var id := desired[i];
    assert desired[..i + 1][..i] == desired[..i];
    MissingStep(current, desired[..i + 1]);
    assert id in added <==> id !in current && id in desired[..i];
    assert id in desired;
  }

  // ----- Over any sequence of policies --------------------------------------

  lemma {:induction false} DedupDistinct(s: seq<string>)
    ensures Distinct(Dedup(s))
  {
    if s != [] {
      var init := s[..|s| - 1];
      DedupDistinct(init);
      assert forall i :: 0 <= i < |Dedup(init)| ==> Dedup(init)[i] in init;
    }
  }

  lemma {:induction false} DedupOfDistinct(s: seq<string>)
    requires Distinct(s)
    ensures Dedup(s) == s
  {
    if s == [] {
    } else {
      var init, last := s[..|s| - 1], s[|s| - 1];
      assert s == init + [last];
      assert last !in init;
      DedupOfDistinct(init);
    }
  }

  lemma {:induction false} FilterDistinct(s: seq<string>, keep: string -> bool)
    requires Distinct(s)
    ensures Distinct(Filter(s, keep))
  {
    if s != [] {
      FilterDistinct(s[..|s| - 1], keep);
      InitAndLast(s);
      DistinctMore(Filter(s[..|s| - 1], keep), s[..|s| - 1], s[|s| - 1]);
    }
  }

  lemma DistinctMore(some: seq<string>, init: seq<string>, last: string)
    requires Distinct(some) && Distinct(init + [last]) && forall x :: x in some ==> x in init
    ensures Distinct(some + [last])
  {
    var all := init + [last];
    assert all[|init|] == last;
    forall i | 0 <= i < |init| ensures init[i] != last {
      assert all[i] == init[i];
    }
    assert forall i :: 0 <= i < |some| ==> some[i] in init;
  }

  /** The registry list and what the agent remembers as its own. */
  datatype State = State(list: seq<string>, owned: seq<string>)

  function Planned(s: State, desired: seq<string>): State {
    State(Next(s.list, desired, s.owned), NowOwned(s.list, desired, s.owned))
  }

  function PlannedAll(s: State, policies: seq<seq<string>>): State
    decreases |policies|
  {
    if policies == [] then s else PlannedAll(Planned(s, policies[0]), policies[1..])
  }

  /** Duplicates are compacted by the first pass, so they are looked through here. */
  predicate Restores(s: State, foreign: seq<string>) {
    && Without(Dedup(s.list), s.owned) == foreign
    && (forall x :: x in s.owned ==> x in s.list && x !in foreign)
  }

  lemma KeepsForeign(s: State, desired: seq<string>, foreign: seq<string>)
    requires Restores(s, foreign)
    ensures Restores(Planned(s, desired), foreign)
  {
    var kept, more, after := Survivors(s.list, desired, s.owned), Missing(s.list, desired), Planned(s, desired);
    var stays := (x: string) => !(x in s.owned && x !in desired);
    var free := (x: string) => x !in after.owned;
    DistinctAfter(s, desired);
    DedupOfDistinct(after.list);
    FilterAppend(kept, more, free);
    FilterFilter(Dedup(s.list), stays, free);
    SameFilter(Dedup(s.list), (x: string) => stays(x) && free(x), (x: string) => x !in s.owned);
    NothingFree(more, free);
    assert Filter(kept, free) + [] == Filter(kept, free);
  }

  lemma {:induction false} NothingFree(s: seq<string>, keep: string -> bool)
    requires forall x :: x in s ==> !keep(x)
    ensures Filter(s, keep) == []
  {
    if s != [] { NothingFree(s[..|s| - 1], keep); }
  }

  lemma {:induction false} RunKeepsForeign(s: State, policies: seq<seq<string>>, foreign: seq<string>)
    requires Restores(s, foreign)
    ensures Restores(PlannedAll(s, policies), foreign)
    ensures policies != [] || Distinct(s.list) ==> Distinct(PlannedAll(s, policies).list)
    decreases |policies|
  {
    if policies != [] {
      KeepsForeign(s, policies[0], foreign);
      DistinctAfter(s, policies[0]);
      RunKeepsForeign(Planned(s, policies[0]), policies[1..], foreign);
    }
  }

  lemma InitAndLast(s: seq<string>)
    requires s != []
    ensures s == s[..|s| - 1] + [s[|s| - 1]] && s[|s| - 1] in s
    ensures forall x :: x in s[..|s| - 1] ==> x in s
  {
  }

  lemma {:induction false} FilterAll(s: seq<string>, keep: string -> bool)
    requires forall x :: x in s ==> keep(x)
    ensures Filter(s, keep) == s
  {
    if s != [] {
      InitAndLast(s);
      FilterAll(s[..|s| - 1], keep);
    }
  }

  lemma {:induction false} OwnedIsWanted(s: State, policies: seq<seq<string>>, x: string)
    requires policies != [] && x in PlannedAll(s, policies).owned
    ensures x in policies[|policies| - 1]
    decreases |policies|
  {
    if |policies| == 1 {
      assert policies[1..] == [] && PlannedAll(s, policies) == Planned(s, policies[0]);
    } else {
      OwnedIsWanted(Planned(s, policies[0]), policies[1..], x);
    }
  }

  /**
   * Starting with nothing owned, whatever the policies: the entries that are not the
   * agent's are the initial ones, each once and in their order, and its own are in the
   * last policy.
   */
  lemma ForeignEntriesStay(initial: seq<string>, policies: seq<seq<string>>)
    ensures var s := PlannedAll(State(initial, []), policies);
            && Without(Dedup(s.list), s.owned) == Dedup(initial)
            && (forall x :: x in s.owned ==> x in s.list && x !in initial)
            && (policies != [] ==> Distinct(s.list))
            && (policies == [] ==> s.owned == [])
            && (policies != [] ==> forall x :: x in s.owned ==> x in policies[|policies| - 1])
  {
    forall x | policies != [] && x in PlannedAll(State(initial, []), policies).owned
      ensures x in policies[|policies| - 1]
    {
      OwnedIsWanted(State(initial, []), policies, x);
    }
    FilterAll(Dedup(initial), (x: string) => x !in []);
    RunKeepsForeign(State(initial, []), policies, Dedup(initial));
  }

  /** Finishing with an empty policy gives the initial list back, and nothing is owned. */
  lemma EmptyPolicyRestores(initial: seq<string>, policies: seq<seq<string>>)
    ensures Planned(PlannedAll(State(initial, []), policies), []) == State(Dedup(initial), [])
  {
    var s := PlannedAll(State(initial, []), policies);
    ForeignEntriesStay(initial, policies);
    SameFilter(Dedup(s.list), (x: string) => !(x in s.owned && x !in []), (x: string) => x !in s.owned);
    assert Missing(s.list, []) == [];
  }

  /** A list without repeats that holds all that is wanted, and nothing owned that is not, stays. */
  lemma ListIsStable(list: seq<string>, desired: seq<string>, owned: seq<string>)
    requires Distinct(list) && forall x :: x in list ==> !(x in owned && x !in desired)
    requires forall x :: x in desired ==> x in list
    ensures Next(list, desired, owned) == list
  {
    DedupOfDistinct(list);
    FilterAll(list, (x: string) => !(x in owned && x !in desired));
    NothingFree(desired, (x: string) => x !in list);
    assert Missing(list, desired) == Dedup([]) == [];
  }

  /** Planning again on the result of a plan changes neither the list nor what is owned. */
  lemma PlanIsStable(s: State, desired: seq<string>)
    ensures Planned(Planned(s, desired), desired) == Planned(s, desired)
  {
    var once := Planned(s, desired);
    DistinctAfter(s, desired);
    ListIsStable(once.list, desired, once.owned);
    SameFilter(desired, (x: string) => x in once.owned || x !in once.list,
               (x: string) => x in s.owned || x !in s.list);
  }

  lemma DistinctAfter(s: State, desired: seq<string>)
    ensures Distinct(Planned(s, desired).list)
  {
    DedupDistinct(s.list);
    FilterDistinct(Dedup(s.list), (x: string) => !(x in s.owned && x !in desired));
    DedupDistinct(Without(desired, s.list));
    DistinctJoin(Survivors(s.list, desired, s.owned), Missing(s.list, desired));
  }

  lemma DistinctJoin(a: seq<string>, b: seq<string>)
    requires Distinct(a) && Distinct(b) && forall x :: x in a ==> x !in b
    ensures Distinct(a + b)
  {
    assert forall i :: 0 <= i < |a| ==> a[i] in a;
    assert forall i :: 0 <= i < |b| ==> b[i] in b;
  }

  /**
   * After a plan the list holds exactly what is wanted and what was there without being
   * the agent's; the agent's is what is wanted and was its own or was not there.
   */
  lemma PlanIsExact(s: State, desired: seq<string>, x: string)
    ensures var after := Planned(s, desired);
            && (x in after.list <==> x in desired || (x in s.list && x !in s.owned))
            && (x in after.owned <==> x in desired && (x in s.owned || x !in s.list))
  {
  }
}
