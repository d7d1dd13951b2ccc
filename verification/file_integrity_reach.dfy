/**
 * Which files a scan reports, against a definition that knows nothing of loops: a file
 * belongs to a set when a chain of listed names leads to it through directories, no
 * deeper than the set allows (`src/domain/file-integrity-scan.ts`).
 */
module FileIntegrityReach {
  import opened Js
  import opened FileIntegrity
  import opened FileIntegrityRuns

  /** The names lead from a directory at a depth to a file, through directories only. */
  predicate Leads(h: Host, s: FileSet, dir: Text, depth: nat, names: seq<Text>)
    decreases |names|
  {
    && names != [] && h.readdir(dir).Ok? && names[0] in h.readdir(dir).value
    && var p := h.join(dir, names[0]);
       && h.lstat(p).Ok?
       && if |names| == 1 then h.lstat(p).value.kind == File
          else h.lstat(p).value.kind == Directory && s.recursive && depth < s.maxDepth
               && Leads(h, s, p, depth + 1, names[1..])
  }

  function PathOf(h: Host, dir: Text, names: seq<Text>): Text
    decreases |names|
  {
    if names == [] then dir else PathOf(h, h.join(dir, names[0]), names[1..])
  }

  /** A file of a set: its path itself, or what a chain of names leads to. */
  ghost predicate IsOf(h: Host, s: FileSet, path: Text) {
    && h.lstat(s.path).Ok?
    && match h.lstat(s.path).value.kind
       case File => path == s.path
       case Directory => exists names :: Leads(h, s, s.path, 1, names) && PathOf(h, s.path, names) == path
       case _ => false
  }

  predicate Has(vs: seq<Visit>, s: FileSet, path: Text) {
    exists i :: 0 <= i < |vs| && vs[i].Found? && vs[i].setId == s.id && vs[i].path == path
  }

  lemma HasAppend(a: seq<Visit>, b: seq<Visit>, s: FileSet, path: Text)
    ensures Has(a + b, s, path) <==> Has(a, s, path) || Has(b, s, path)
  {
    var all := a + b;
    if Has(a, s, path) {
      var i :| 0 <= i < |a| && a[i].Found? && a[i].setId == s.id && a[i].path == path;
      assert all[i] == a[i];
    }
    if Has(b, s, path) {
      var i :| 0 <= i < |b| && b[i].Found? && b[i].setId == s.id && b[i].path == path;
      assert all[|a| + i] == b[i];
    }
  }

  lemma HeadOrTail(vs: seq<Visit>, s: FileSet, path: Text)
    requires vs != []
    ensures Has(vs, s, path) <==> (vs[0].Found? && vs[0].setId == s.id && vs[0].path == path) || Has(vs[1..], s, path)
  {
    assert vs == [vs[0]] + vs[1..];
    HasAppend([vs[0]], vs[1..], s, path);
    assert [vs[0]][0] == vs[0];
  }

  lemma {:induction false} PlacedAre(name: Text, names: seq<Text>, x: Text)
    ensures x in Place(name, names) <==> x == name || x in names
  {
    if names != [] && Less(names[0], name) { PlacedAre(name, names[1..], x); }
  }

  lemma {:induction false} SortedAre(names: seq<Text>, x: Text)
    ensures x in SortNames(names) <==> x in names
  {
    if names != [] {
      SortedAre(names[1..], x);
      PlacedAre(names[0], SortNames(names[1..]), x);
    }
  }

  // ----- Everything a chain leads to is found -------------------------------

  lemma {:induction false} ChainIsFound(h: Host, s: FileSet, dir: Text, depth: nat, names: seq<Text>)
    requires Leads(h, s, dir, depth, names)
    ensures Has(InDirectory(h, s, dir, depth), s, PathOf(h, dir, names))
    decreases |names|
  {
    var listed := SortNames(h.readdir(dir).value);
    var path, p := PathOf(h, dir, names), h.join(dir, names[0]);
    SortedAre(h.readdir(dir).value, names[0]);
    if |names| == 1 {
      assert names[1..] == [];
      assert PathOf(h, p, names[1..]) == p;
      assert AtName(h, s, p, depth)[0] == Found(s.id, p, h.lstat(p).value);
    } else {
      ChainIsFound(h, s, p, depth + 1, names[1..]);
    }
    NameIsVisited(h, s, dir, listed, depth, names[0], path);
    HasAppend([Nothing], AmongNames(h, s, dir, listed, depth), s, path);
  }

  lemma {:induction false} NameIsVisited(h: Host, s: FileSet, dir: Text, names: seq<Text>, depth: nat, name: Text,
                                         path: Text)
    requires name in names && Has(AtName(h, s, h.join(dir, name), depth), s, path)
    ensures Has(AmongNames(h, s, dir, names, depth), s, path)
    decreases |names|
  {
    HasAppend(AtName(h, s, h.join(dir, names[0]), depth), AmongNames(h, s, dir, names[1..], depth), s, path);
    if names[0] != name { NameIsVisited(h, s, dir, names[1..], depth, name, path); }
  }

  // ----- Everything found is led to by a chain ------------------------------

  lemma {:induction false} FoundHasChain(h: Host, s: FileSet, dir: Text, depth: nat, path: Text)
    returns (names: seq<Text>)
    requires Has(InDirectory(h, s, dir, depth), s, path)
    ensures Leads(h, s, dir, depth, names) && PathOf(h, dir, names) == path
    decreases Remaining(s, depth), 1, 0
  {
    var listed := SortNames(h.readdir(dir).value);
    HasAppend([Nothing], AmongNames(h, s, dir, listed, depth), s, path);
    names := VisitHasChain(h, s, dir, listed, depth, path);
    SortedAre(h.readdir(dir).value, names[0]);
  }

  lemma {:induction false} VisitHasChain(h: Host, s: FileSet, dir: Text, listed: seq<Text>, depth: nat, path: Text)
    returns (names: seq<Text>)
    requires h.readdir(dir).Ok? && Has(AmongNames(h, s, dir, listed, depth), s, path)
    ensures names != [] && names[0] in listed && PathOf(h, dir, names) == path
    ensures names[0] in h.readdir(dir).value ==> Leads(h, s, dir, depth, names)
    decreases Remaining(s, depth), 0, |listed|
  {
    var p := h.join(dir, listed[0]);
    var here := AtName(h, s, p, depth);
    HasAppend(here, AmongNames(h, s, dir, listed[1..], depth), s, path);
    if Has(here, s, path) {
      if h.lstat(p).value.kind == File {
        names := [listed[0]];
        assert here == [Found(s.id, p, h.lstat(p).value)];
        assert names[1..] == [];
      } else {
        var deeper := FoundHasChain(h, s, p, depth + 1, path);
        names := [listed[0]] + deeper;
        assert names[1..] == deeper;
      }
    } else {
      names := VisitHasChain(h, s, dir, listed[1..], depth, path);
    }
  }

  lemma SetFinds(h: Host, s: FileSet, path: Text)
    ensures Has(InSet(h, s), s, path) <==> IsOf(h, s, path)
  {
    if h.lstat(s.path).Ok? {
      if h.lstat(s.path).value.kind == File {
        assert InSet(h, s)[0] == Found(s.id, s.path, h.lstat(s.path).value);
      } else if h.lstat(s.path).value.kind == Directory {
        if Has(InSet(h, s), s, path) {
          var names := FoundHasChain(h, s, s.path, 1, path);
        }
        if IsOf(h, s, path) {
          var names :| Leads(h, s, s.path, 1, names) && PathOf(h, s.path, names) == path;
          ChainIsFound(h, s, s.path, 1, names);
        }
      }
    }
  }

  // ----- Reports ------------------------------------------------------------

  predicate Reported(files: seq<ScannedFile>, s: FileSet, path: Text) {
    exists i :: 0 <= i < |files| && files[i].setId == s.id && files[i].path == path
  }

  /** The file can be hashed, or is too large to be. */
  predicate CanReport(h: Host, maxFileBytes: nat, path: Text) {
    h.sha256(path).Ok? || (h.lstat(path).Ok? && h.lstat(path).value.size > maxFileBytes)
  }

  lemma {:induction false} VisitIsReported(h: Host, c: Config, z: State, vs: seq<Visit>, s: FileSet, path: Text)
    requires Has(vs, s, path) && CanReport(h, c.maxFileBytes, path)
    requires forall i :: 0 <= i < |vs| ==> vs[i].Found? ==> h.lstat(vs[i].path) == Ok(vs[i].stat)
    requires var r := Turns(h, c, z, vs); r.error.None? && !r.truncated
    ensures Reported(Turns(h, c, z, vs).files, s, path)
    decreases |vs|
  {
    var y := Turn(h, c, z, vs[0]);
    ErrorsLast(h, c, y, vs[1..]);
    FilesGrow(h, c, z, vs[0]);
    MarksLast(h, c, y, vs[1..]);
    HeadOrTail(vs, s, path);
    if Has(vs[1..], s, path) {
      VisitIsReported(h, c, y, vs[1..], s, path);
    } else {
      assert y.files[|z.files|].path == path && y.files[|z.files|].setId == s.id;
      FilesLast(h, c, y, vs[1..], |z.files|);
    }
  }

  lemma {:induction false} MarksLast(h: Host, c: Config, z: State, vs: seq<Visit>)
    ensures z.truncated ==> Turns(h, c, z, vs).truncated
    decreases |vs|
  {
    if vs != [] { MarksLast(h, c, Turn(h, c, z, vs[0]), vs[1..]); }
  }

  lemma {:induction false} FilesLast(h: Host, c: Config, z: State, vs: seq<Visit>, k: nat)
    requires k < |z.files|
    ensures k < |Turns(h, c, z, vs).files| && Turns(h, c, z, vs).files[k] == z.files[k]
    decreases |vs|
  {
    if vs != [] {
      FilesGrow(h, c, z, vs[0]);
      var y := Turn(h, c, z, vs[0]);
      assert y.files[..|z.files|][k] == z.files[k];
      FilesLast(h, c, y, vs[1..], k);
    }
  }

  lemma {:induction false} ReportWasVisited(h: Host, c: Config, z: State, vs: seq<Visit>, s: FileSet, path: Text)
    requires Reported(Turns(h, c, z, vs).files, s, path) && !Reported(z.files, s, path)
    ensures Has(vs, s, path)
    decreases |vs|
  {
    var y := Turn(h, c, z, vs[0]);
    FilesGrow(h, c, z, vs[0]);
    HeadOrTail(vs, s, path);
    if Reported(y.files, s, path) {
      var i :| 0 <= i < |y.files| && y.files[i].setId == s.id && y.files[i].path == path;
    } else {
      ReportWasVisited(h, c, y, vs[1..], s, path);
    }
  }

  /** No two sets share an id. */
  predicate OwnIds(sets: seq<FileSet>) {
    forall i, j :: 0 <= i < j < |sets| ==> sets[i].id != sets[j].id
  }

  lemma {:induction false} SetsFind(h: Host, sets: seq<FileSet>, s: FileSet, path: Text)
    requires OwnIds(sets)
    ensures s in sets ==> (Has(InSets(h, sets), s, path) <==> IsOf(h, s, path))
    ensures (forall i :: 0 <= i < |sets| ==> sets[i].id != s.id) ==> !Has(InSets(h, sets), s, path)
  {
    if sets != [] {
      var first, rest := sets[0], sets[1..];
      HasAppend(InSet(h, first), InSets(h, rest), s, path);
      if first == s { SetFinds(h, s, path); }
      SetsFind(h, rest, s, path);
      assert AreSound(h, first, InSet(h, first));
      if Has(InSet(h, first), s, path) {
        var vs := InSet(h, first);
        var i :| 0 <= i < |vs| && vs[i].Found? && vs[i].setId == s.id && vs[i].path == path;
        assert IsSound(h, first, vs[i]);
      }
    }
  }

  lemma {:induction false} FoundHaveStats(h: Host, sets: seq<FileSet>)
    ensures forall i :: 0 <= i < |InSets(h, sets)| ==>
              InSets(h, sets)[i].Found? ==> h.lstat(InSets(h, sets)[i].path) == Ok(InSets(h, sets)[i].stat)
  {
    if sets != [] {
      FoundHaveStats(h, sets[1..]);
      var here := InSet(h, sets[0]);
      assert forall i :: 0 <= i < |here| ==> IsSound(h, sets[0], here[i]);
    }
  }

  lemma {:induction false} ApplicableOwnIds(sets: seq<FileSet>, platform: Platform)
    requires OwnIds(sets)
    ensures OwnIds(Applicable(sets, platform))
  {
    if sets != [] { ApplicableOwnIds(sets[1..], platform); }
  }

  /**
   * A scan that says it is not truncated reports, under each set, exactly the files that
   * belong to the set, the unreadable ones aside. Truncated or not, it reports no other.
   */
  lemma ReportIsExact(h: Host, p: Policy, previous: map<Text, PreviousEntry>, full: bool, s: FileSet, path: Text)
    requires OwnIds(p.sets) && s in Applicable(p.sets, h.platform)
    requires ScanOf(h, Some(p), previous, full).scope == Collected
    ensures var r := ScanOf(h, Some(p), previous, full);
            && (Reported(r.files, s, path) ==> IsOf(h, s, path))
            && (!r.truncated && CanReport(h, p.maxFileBytes, path) && IsOf(h, s, path) ==> Reported(r.files, s, path))
  {
    var sets := Applicable(p.sets, h.platform);
    var c, vs := ConfigOf(p, previous, full), InSets(h, sets);
    var z := Turns(h, c, START, vs);
    ApplicableOwnIds(p.sets, h.platform);
    SetsFind(h, sets, s, path);
    FoundHaveStats(h, sets);
    if Reported(z.files, s, path) { ReportWasVisited(h, c, START, vs, s, path); }
    if !z.truncated && CanReport(h, p.maxFileBytes, path) && Has(vs, s, path) {
      VisitIsReported(h, c, START, vs, s, path);
    }
  }
}
