/** The order in which directories are listed leaves no trace in a scan (`src/domain/file-integrity-scan.ts`). */
module FileIntegrityOrder {
  import opened Js
  import opened FileIntegrity

  // ----- Sorting ------------------------------------------------------------

  predicate IsOrdered(names: seq<Text>) {
    forall i, j :: 0 <= i < j < |names| ==> !Less(names[j], names[i])
  }

  lemma OrderedTransitive(a: Text, b: Text, c: Text)
    requires !Less(b, a) && !Less(c, b)
    ensures !Less(c, a)
  {
    LessTotal(a, b);
    LessTotal(b, c);
    LessTotal(a, c);
    if Less(a, b) && Less(b, c) { LessTransitive(a, b, c); }
  }

  lemma RestIs(a: seq<Text>)
    requires a != []
    ensures a == [a[0]] + a[1..] && multiset(a) == multiset(a[1..]) + multiset{a[0]}
  {
    assert a == [a[0]] + a[1..];
  }

  lemma OrderedOnto(first: Text, rest: seq<Text>)
    requires IsOrdered(rest) && forall j :: 0 <= j < |rest| ==> !Less(rest[j], first)
    ensures IsOrdered([first] + rest)
  {
  }

  lemma {:induction false} PlaceKeeps(name: Text, names: seq<Text>)
    ensures multiset(Place(name, names)) == multiset(names) + multiset{name}
  {
    if names != [] && Less(names[0], name) {
      PlaceKeeps(name, names[1..]);
      RestIs(names);
      RestIs(Place(name, names));
    }
  }

  lemma {:induction false} PlaceOrders(name: Text, names: seq<Text>)
    requires IsOrdered(names)
    ensures IsOrdered(Place(name, names))
  {
    if names == [] {
    } else if !Less(names[0], name) {
      forall j | 0 <= j < |names| ensures !Less(names[j], name) {
        if j > 0 { OrderedTransitive(name, names[0], names[j]); }
      }
      OrderedOnto(name, names);
    } else {
      var rest := Place(name, names[1..]);
      PlaceOrders(name, names[1..]);
      PlaceKeeps(name, names[1..]);
      LessTotal(names[0], name);
      forall j | 0 <= j < |rest| ensures !Less(rest[j], names[0]) {
        assert rest[j] in multiset(rest);
        if rest[j] != name {
          assert rest[j] in names[1..];
        }
      }
      OrderedOnto(names[0], rest);
    }
  }

  /** The names are put in order, and no name is lost or added. */
  lemma {:induction false} NamesAreSorted(names: seq<Text>)
    ensures IsOrdered(SortNames(names)) && multiset(SortNames(names)) == multiset(names)
  {
    if names == [] {
    } else {
      NamesAreSorted(names[1..]);
      PlaceOrders(names[0], SortNames(names[1..]));
      PlaceKeeps(names[0], SortNames(names[1..]));
      RestIs(names);
    }
  }

  lemma FirstIsLeast(a: seq<Text>, b: seq<Text>)
    requires IsOrdered(a) && IsOrdered(b) && multiset(a) == multiset(b) && a != [] && b != []
    ensures !Less(b[0], a[0])
  {
    assert b[0] in multiset(a);
    var i :| 0 <= i < |a| && a[i] == b[0];
    LessTotal(a[0], a[0]);
  }

  lemma {:induction false} OrderedUnique(a: seq<Text>, b: seq<Text>)
    requires IsOrdered(a) && IsOrdered(b) && multiset(a) == multiset(b)
    ensures a == b
    decreases |a|
  {
    assert |multiset(a)| == |a| && |multiset(b)| == |b|;
    if a != [] {
      FirstIsLeast(a, b);
      FirstIsLeast(b, a);
      LessTotal(a[0], b[0]);
      RestIs(a);
      RestIs(b);
      assert multiset(a[1..]) == multiset(a) - multiset{a[0]};
      OrderedUnique(a[1..], b[1..]);
    }
  }

  lemma SortIsBlind(a: seq<Text>, b: seq<Text>)
    requires multiset(a) == multiset(b)
    ensures SortNames(a) == SortNames(b)
  {
    NamesAreSorted(a);
    NamesAreSorted(b);
    OrderedUnique(SortNames(a), SortNames(b));
  }

  // ----- Scans --------------------------------------------------------------

  predicate SameListing(a: Result<seq<Text>, FsError>, b: Result<seq<Text>, FsError>) {
    if a.Ok? then b.Ok? && multiset(a.value) == multiset(b.value) else a == b
  }

  /** The same files and directories, listed in any order. */
  ghost predicate SameFiles(h: Host, g: Host) {
    g == h.(readdir := g.readdir) && forall dir: Text :: SameListing(h.readdir(dir), g.readdir(dir))
  }

  lemma {:induction false} SameInDirectory(h: Host, g: Host, s: FileSet, dir: Text, depth: nat)
    requires SameFiles(h, g)
    ensures InDirectory(h, s, dir, depth) == InDirectory(g, s, dir, depth)
    decreases Remaining(s, depth), 2, 0
  {
    assert SameListing(h.readdir(dir), g.readdir(dir));
    if h.readdir(dir).Ok? {
      var names := SortNames(h.readdir(dir).value);
      SortIsBlind(h.readdir(dir).value, g.readdir(dir).value);
      SameAmongNames(h, g, s, dir, names, depth);
    }
  }

  lemma {:induction false} SameAmongNames(h: Host, g: Host, s: FileSet, dir: Text, names: seq<Text>, depth: nat)
    requires SameFiles(h, g)
    ensures AmongNames(h, s, dir, names, depth) == AmongNames(g, s, dir, names, depth)
    decreases Remaining(s, depth), 1, |names|
  {
    if names != [] {
      SameAtName(h, g, s, h.join(dir, names[0]), depth);
      SameAmongNames(h, g, s, dir, names[1..], depth);
    }
  }

  lemma {:induction false} SameAtName(h: Host, g: Host, s: FileSet, path: Text, depth: nat)
    requires SameFiles(h, g)
    ensures AtName(h, s, path, depth) == AtName(g, s, path, depth)
    decreases Remaining(s, depth), 0, 0
  {
    if h.lstat(path).Ok? && h.lstat(path).value.kind == Directory && s.recursive && depth < s.maxDepth {
      SameInDirectory(h, g, s, path, depth + 1);
    }
  }

  lemma {:induction false} SameInSets(h: Host, g: Host, sets: seq<FileSet>)
    requires SameFiles(h, g)
    ensures InSets(h, sets) == InSets(g, sets)
  {
    if sets != [] {
      SameInDirectory(h, g, sets[0], sets[0].path, 1);
      SameInSets(h, g, sets[1..]);
    }
  }

  lemma {:induction false} SameTurns(h: Host, g: Host, c: Config, z: State, vs: seq<Visit>)
    requires SameFiles(h, g)
    ensures Turns(h, c, z, vs) == Turns(g, c, z, vs)
    decreases |vs|
  {
    if vs != [] { SameTurns(h, g, c, Turn(h, c, z, vs[0]), vs[1..]); }
  }

  /**
   * Two machines that differ only in the order in which they list directories give the
   * same scan, down to which files a cap leaves out.
   */
  lemma OrderIsInvisible(h: Host, g: Host, policy: Option<Policy>, previous: map<Text, PreviousEntry>, full: bool)
    requires SameFiles(h, g)
    ensures ScanOf(h, policy, previous, full) == ScanOf(g, policy, previous, full)
  {
    if policy.Some? {
      var sets := Applicable(policy.value.sets, h.platform);
      SameInSets(h, g, sets);
      SameTurns(h, g, ConfigOf(policy.value, previous, full), START, InSets(h, sets));
    }
  }
}
