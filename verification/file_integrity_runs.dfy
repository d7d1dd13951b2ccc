/**
 * What the file-integrity scan guarantees: of one scan against another with a larger
 * cap, and of the reuse of hashes over any sequence of passes
 * (`src/domain/file-integrity-scan.ts`, `src/plugins/scp/file-integrity-pipeline.ts`).
 */
module FileIntegrityRuns {
  import opened Js
  import opened FileIntegrity

  // ----- The cap ------------------------------------------------------------

  /** Two configurations that differ in the cap only. */
  predicate SameButCap(low: Config, high: Config) {
    low.cap <= high.cap && low == high.(cap := low.cap)
  }

  /**
   * Either nothing tells the two apart, or the smaller cap was hit: its files are the
   * first ones of the other and it says so.
   */
  predicate IsCut(low: Config, a: State, b: State) {
    || (a == b && |a.files| <= low.cap)
    || (&& a.error.None? && b.error.None? && |a.files| == low.cap <= |b.files|
        && a.files == b.files[..low.cap] && a.truncated && a.unreadable <= b.unreadable)
  }

  lemma TurnIsCut(h: Host, low: Config, high: Config, a: State, b: State, v: Visit)
    requires SameButCap(low, high) && IsCut(low, a, b) && Turn(h, high, b, v).error.None?
    ensures IsCut(low, Turn(h, low, a, v), Turn(h, high, b, v))
  {
    var after := Turn(h, high, b, v);
    if |a.files| >= low.cap && b.error.None? {
      FilesGrow(h, high, b, v);
      assert after.files[..|b.files|][..low.cap] == after.files[..low.cap];
    }
  }

  lemma FilesGrow(h: Host, c: Config, z: State, v: Visit)
    ensures var r := Turn(h, c, z, v);
            && |z.files| <= |r.files| && r.files[..|z.files|] == z.files && z.unreadable <= r.unreadable
            && |r.files| <= |z.files| + 1 && (|z.files| < c.cap ==> r.truncated == z.truncated)
            && (z.error.Some? ==> r == z)
  {
  }

  lemma {:induction false} ErrorsLast(h: Host, c: Config, z: State, vs: seq<Visit>)
    requires Turns(h, c, z, vs).error.None?
    ensures z.error.None?
    decreases |vs|
  {
    if vs != [] {
      ErrorsLast(h, c, Turn(h, c, z, vs[0]), vs[1..]);
      FilesGrow(h, c, z, vs[0]);
    }
  }

  lemma {:induction false} TurnsAreCut(h: Host, low: Config, high: Config, a: State, b: State, vs: seq<Visit>)
    requires SameButCap(low, high) && IsCut(low, a, b) && Turns(h, high, b, vs).error.None?
    ensures IsCut(low, Turns(h, low, a, vs), Turns(h, high, b, vs))
    decreases |vs|
  {
    if vs != [] {
      ErrorsLast(h, high, Turn(h, high, b, vs[0]), vs[1..]);
      TurnIsCut(h, low, high, a, b, vs[0]);
      TurnsAreCut(h, low, high, Turn(h, low, a, vs[0]), Turn(h, high, b, vs[0]), vs[1..]);
    }
  }

  /**
   * A scan gives the first files of the scan with any larger cap that completes. When
   * the larger one has more files it is marked as truncated; unmarked, it is that scan.
   */
  lemma ScanIsPrefix(h: Host, p: Policy, previous: map<Text, PreviousEntry>, full: bool, cap: nat)
    requires p.maxFilesPerDevice <= cap
    requires ScanOf(h, Some(p.(maxFilesPerDevice := cap)), previous, full).scope == Collected
    ensures var a, b, n := ScanOf(h, Some(p), previous, full),
              ScanOf(h, Some(p.(maxFilesPerDevice := cap)), previous, full), p.maxFilesPerDevice;
            && a.scope == Collected && a.setIds == b.setIds
            && a.files == (if n <= |b.files| then b.files[..n] else b.files)
            && (|b.files| > n ==> a.truncated) && (!a.truncated ==> a == b)
  {
    var sets := Applicable(p.sets, h.platform);
    var low, high := ConfigOf(p, previous, full), ConfigOf(p.(maxFilesPerDevice := cap), previous, full);
    TurnsAreCut(h, low, high, START, START, InSets(h, sets));
  }

  lemma {:induction false} RoomForAll(h: Host, c: Config, z: State, vs: seq<Visit>)
    requires !z.truncated && |z.files| + |vs| <= c.cap
    ensures !Turns(h, c, z, vs).truncated && |Turns(h, c, z, vs).files| <= |z.files| + |vs|
    decreases |vs|
  {
    if vs != [] {
      FilesGrow(h, c, z, vs[0]);
      RoomForAll(h, c, Turn(h, c, z, vs[0]), vs[1..]);
    }
  }

  /** With a cap as large as the number of turns, nothing is ever cut. */
  lemma UncappedScan(h: Host, p: Policy, previous: map<Text, PreviousEntry>, full: bool)
    requires |InSets(h, Applicable(p.sets, h.platform))| <= p.maxFilesPerDevice
    ensures !ScanOf(h, Some(p), previous, full).truncated
  {
    RoomForAll(h, ConfigOf(p, previous, full), START, InSets(h, Applicable(p.sets, h.platform)));
  }

  lemma LastTurn(h: Host, c: Config, z: State, vs: seq<Visit>)
    requires vs != []
    ensures Turns(h, c, z, vs) == Turn(h, c, Turns(h, c, z, vs[..|vs| - 1]), vs[|vs| - 1])
  {
    var before, last := vs[..|vs| - 1], [vs[|vs| - 1]];
    assert vs == before + last;
    TurnsAppend(h, c, z, before, last);
    One(h, c, Turns(h, c, z, before), last);
  }

  /** The mark is set exactly when something is still looked at with the cap reached and no error. */
  lemma {:induction false} MarkIsExact(h: Host, c: Config, vs: seq<Visit>)
    ensures Turns(h, c, START, vs).truncated <==>
            && vs != [] && Turns(h, c, START, vs[..|vs| - 1]).error.None?
            && |Turns(h, c, START, vs[..|vs| - 1]).files| >= c.cap
    decreases |vs|
  {
    if vs != [] {
      var before := vs[..|vs| - 1];
      var z := Turns(h, c, START, before);
      LastTurn(h, c, START, vs);
      MarkIsExact(h, c, before);
      if z.truncated { MarkedIsFull(h, c, START, before); }
    }
  }

  lemma {:induction false} MarkedIsFull(h: Host, c: Config, z: State, vs: seq<Visit>)
    requires z.truncated ==> z.error.None? && |z.files| >= c.cap
    ensures Turns(h, c, z, vs).truncated ==> Turns(h, c, z, vs).error.None? && |Turns(h, c, z, vs).files| >= c.cap
    decreases |vs|
  {
    if vs != [] { MarkedIsFull(h, c, Turn(h, c, z, vs[0]), vs[1..]); }
  }

  /** The last thing a scan looks at adds no file to its report. */
  predicate EndsWithoutFile(h: Host, c: Config, vs: seq<Visit>) {
    vs != [] && |Turns(h, c, START, vs[..|vs| - 1]).files| == |Turns(h, c, START, vs).files|
  }

  /**
   * The mark is set with no file missing exactly when the uncut scan has just as many
   * files as the cap allows and looks at something after the last of them.
   */
  lemma MarkedAndWhole(h: Host, p: Policy, previous: map<Text, PreviousEntry>, full: bool, cap: nat)
    requires p.maxFilesPerDevice <= cap
    requires var b := ScanOf(h, Some(p.(maxFilesPerDevice := cap)), previous, full);
             b.scope == Collected && !b.truncated
    ensures var a := ScanOf(h, Some(p), previous, full);
            var b := ScanOf(h, Some(p.(maxFilesPerDevice := cap)), previous, full);
            a.truncated && a.files == b.files <==>
              && |b.files| == p.maxFilesPerDevice
              && EndsWithoutFile(h, ConfigOf(p.(maxFilesPerDevice := cap), previous, full),
                                 InSets(h, Applicable(p.sets, h.platform)))
  {
    var vs := InSets(h, Applicable(p.sets, h.platform));
    CutAndWhole(h, ConfigOf(p, previous, full), ConfigOf(p.(maxFilesPerDevice := cap), previous, full), vs);
  }

  lemma CutAndWhole(h: Host, low: Config, high: Config, vs: seq<Visit>)
    requires SameButCap(low, high)
    requires Turns(h, high, START, vs).error.None? && !Turns(h, high, START, vs).truncated
    ensures var a, b := Turns(h, low, START, vs), Turns(h, high, START, vs);
            && a.error.None?
            && (a.truncated && a.files == b.files <==> |b.files| == low.cap && EndsWithoutFile(h, high, vs))
  {
    TurnsAreCut(h, low, high, START, START, vs);
    MarkIsExact(h, low, vs);
    if vs != [] {
      var before := vs[..|vs| - 1];
      LastTurn(h, high, START, vs);
      FilesGrow(h, high, Turns(h, high, START, before), vs[|vs| - 1]);
      TurnsAreCut(h, low, high, START, START, before);
    }
  }

  const WATCHED: seq<FileSet> := [
    FileSet([0x61], Anywhere, [0x2f, 0x61], false, 1), FileSet([0x62], Anywhere, [0x2f, 0x62], false, 1) ]

  /** One file, and a link in the place of the other. */
  function LinkedHost(): Host {
    Host(Linux, (a: Text, b: Text) => a, path => Ok(Stat(if path == [0x2f, 0x61] then File else Link, 0, 0)),
         path => Ok([]), path => Ok([0x30]))
  }

  /** An accepted policy for which that happens: a link after the last file is enough. */
  lemma MarkedButWhole()
    ensures var p := Policy(true, WATCHED, 1, 1024);
            var a := ScanOf(LinkedHost(), Some(p), map[], true);
            var b := ScanOf(LinkedHost(), Some(p.(maxFilesPerDevice := 2)), map[], true);
            a.truncated && !b.truncated && a.files == b.files && a.unreadable == b.unreadable
  {
    var h, x, y := LinkedHost(), WATCHED[0], WATCHED[1];
    var p := Policy(true, WATCHED, 1, 1024);
    assert [x, y][1..] == [y] && [y][1..] == [];
    assert Applicable([y], Linux) == [y] && Applicable([x, y], Linux) == [x, y];
    var found := Found(x.id, x.path, Stat(File, 0, 0));
    assert InSet(h, x) == [found] && InSet(h, y) == [Nothing];
    assert InSets(h, [y]) == [Nothing] && InSets(h, [x, y]) == [found, Nothing];
    var low, high := ConfigOf(p, map[], true), ConfigOf(p.(maxFilesPerDevice := 2), map[], true);
    TwoTurns(h, low, START, found, Nothing);
    TwoTurns(h, high, START, found, Nothing);
    var z := State([ScannedFile(x.id, x.path, Some([0x30]), true, 0, 0)], 0, false, None);
    assert Turn(h, low, START, found) == z && Turn(h, high, START, found) == z;
    assert Turn(h, low, z, Nothing) == z.(truncated := true) && Turn(h, high, z, Nothing) == z;
  }

  lemma TwoTurns(h: Host, c: Config, z: State, v: Visit, w: Visit)
    ensures Turns(h, c, z, [v, w]) == Turn(h, c, Turn(h, c, z, v), w)
  {
    var vs := [v, w];
    assert vs[0] == v && vs[1..] == [w];
    One(h, c, Turn(h, c, z, v), [w]);
  }

  // ----- Keys ---------------------------------------------------------------

  /** What the policy accepts as the id of a set. */
  predicate IsSetId(id: Text) {
    && 1 <= |id| <= 64
    && forall i :: 0 <= i < |id| ==> 0x61 <= id[i] <= 0x7a || 0x30 <= id[i] <= 0x39 || id[i] == 0x5f || id[i] == 0x2d
  }

  lemma KeysDiffer(id: Text, path: Text, id2: Text, path2: Text)
    requires IsSetId(id) && IsSetId(id2) && KeyOf(id, path) == KeyOf(id2, path2)
    ensures id == id2 && path == path2
  {
    var k := KeyOf(id, path);
    assert k[|id|] == BAR && k[|id2|] == BAR;
    assert (forall i :: 0 <= i < |id| ==> k[i] == id[i]) && (forall i :: 0 <= i < |id2| ==> k[i] == id2[i]);
    assert id == k[..|id|] == id2 && path == k[|id| + 1..] == path2;
  }

  // ----- Hash reuse ---------------------------------------------------------

  /** The host has the file, of that size and date, and reads that hash from it. */
  predicate Reads(h: Host, path: Text, size: nat, mtimeMs: int, sha: Text) {
    h.lstat(path) == Ok(Stat(File, size, mtimeMs)) && h.sha256(path) == Ok(sha)
  }

  /** A reused hash would be what reading the file gives. */
  predicate IsFresh(h: Host, c: Config, v: Visit) {
    v.Found? && v.stat.size <= c.maxFileBytes && Reuses(c, KeyOf(v.setId, v.path), v.stat) ==>
      h.sha256(v.path) == Ok(c.previous[KeyOf(v.setId, v.path)].sha256.value)
  }

  lemma {:induction false} ReuseIsRehash(h: Host, c: Config, d: Config, z: State, vs: seq<Visit>)
    requires d.cap == c.cap && d.maxFileBytes == c.maxFileBytes && d.fullRehash
    requires forall i :: 0 <= i < |vs| ==> IsFresh(h, c, vs[i])
    ensures Turns(h, c, z, vs) == Turns(h, d, z, vs)
    decreases |vs|
  {
    if vs != [] {
      assert IsFresh(h, c, vs[0]);
      assert Turn(h, c, z, vs[0]) == Turn(h, d, z, vs[0]);
      ReuseIsRehash(h, c, d, Turn(h, c, z, vs[0]), vs[1..]);
    }
  }

  /** What is found in the sets is there, under an id of one of them. */
  predicate IsThere(h: Host, v: Visit) {
    v.Found? ==> h.lstat(v.path) == Ok(v.stat) && v.stat.kind == File && IsSetId(v.setId)
  }

  lemma {:induction false} FoundAreThere(h: Host, sets: seq<FileSet>)
    requires forall i :: 0 <= i < |sets| ==> IsSetId(sets[i].id)
    ensures forall i :: 0 <= i < |InSets(h, sets)| ==> IsThere(h, InSets(h, sets)[i])
  {
    if sets != [] {
      FoundAreThere(h, sets[1..]);
      var here, rest := InSet(h, sets[0]), InSets(h, sets[1..]);
      forall i | 0 <= i < |here + rest| ensures IsThere(h, (here + rest)[i]) {
        if i < |here| {
          assert IsSound(h, sets[0], here[i]);
        } else {
          assert IsThere(h, rest[i - |here|]);
        }
      }
    }
  }

  // ----- What a scan says of a file -----------------------------------------

  /** A file has a hash exactly when it is not too large. */
  predicate SaysRight(maxFileBytes: nat, f: ScannedFile) {
    (f.hashed <==> f.sizeBytes <= maxFileBytes) && (f.hashed <==> f.sha256.Some?)
  }

  lemma {:induction false} TurnsSayRight(h: Host, c: Config, z: State, vs: seq<Visit>)
    requires forall i :: 0 <= i < |z.files| ==> SaysRight(c.maxFileBytes, z.files[i])
    ensures forall i :: 0 <= i < |Turns(h, c, z, vs).files| ==> SaysRight(c.maxFileBytes, Turns(h, c, z, vs).files[i])
    decreases |vs|
  {
    if vs != [] { TurnsSayRight(h, c, Turn(h, c, z, vs[0]), vs[1..]); }
  }

  /** In every scan, whatever was reused, the files with a hash are those within the limit. */
  lemma ScanSaysRight(h: Host, p: Policy, previous: map<Text, PreviousEntry>, full: bool)
    ensures var files := ScanOf(h, Some(p), previous, full).files;
            forall i :: 0 <= i < |files| ==> SaysRight(p.maxFileBytes, files[i])
  {
    TurnsSayRight(h, ConfigOf(p, previous, full), START, InSets(h, Applicable(p.sets, h.platform)));
  }

  /** What comes of looking for the hash of a file that is found; None when it is too large or reused. */
  function Reading(h: Host, c: Config, v: Visit): Option<Result<Text, FsError>> {
    if v.Found? && v.stat.size <= c.maxFileBytes && !Reuses(c, KeyOf(v.setId, v.path), v.stat)
    then Some(h.sha256(v.path)) else None
  }

  /** A place that access rights hide, or a file that cannot be read or is gone when it is. */
  predicate IsMissed(h: Host, c: Config, v: Visit) {
    || v.Unreadable?
    || (Reading(h, c, v).Some? && Reading(h, c, v).value.Err?
        && (Reading(h, c, v).value.error.Denied? || Reading(h, c, v).value.error.NotFound?))
  }

  /** What stops a scan. */
  function StopAt(h: Host, c: Config, v: Visit): Option<FsError> {
    if v.Throws? then Some(v.error)
    else if Reading(h, c, v).Some? && Reading(h, c, v).value.Err? && !IsMissed(h, c, v)
    then Some(Reading(h, c, v).value.error) else None
  }

  function FirstStop(h: Host, c: Config, vs: seq<Visit>): Option<FsError> {
    if vs == [] then None
    else if StopAt(h, c, vs[0]).Some? then StopAt(h, c, vs[0]) else FirstStop(h, c, vs[1..])
  }

  function CountMissed(h: Host, c: Config, vs: seq<Visit>): nat {
    if vs == [] then 0 else (if IsMissed(h, c, vs[0]) then 1 else 0) + CountMissed(h, c, vs[1..])
  }

  function CountFound(vs: seq<Visit>): nat {
    if vs == [] then 0 else (if vs[0].Found? || vs[0].Unreadable? then 1 else 0) + CountFound(vs[1..])
  }

  lemma {:induction false} UncutTurns(h: Host, c: Config, z: State, vs: seq<Visit>)
    requires z.error.None? && |z.files| + |vs| <= c.cap
    ensures var r := Turns(h, c, z, vs);
            && r.error == FirstStop(h, c, vs)
            && (r.error.None? ==>
                  && r.unreadable == z.unreadable + CountMissed(h, c, vs)
                  && |r.files| + r.unreadable == |z.files| + z.unreadable + CountFound(vs))
    decreases |vs|
  {
    if vs != [] {
      var next := Turn(h, c, z, vs[0]);
      if next.error.None? { UncutTurns(h, c, next, vs[1..]); } else { TurnsOver(h, c, next, vs[1..]); }
    }
  }

  /** The first 300 units of a message. */
  predicate IsClipped(text: Text, message: Text) {
    text <= message && if |message| <= 300 then text == message else |text| == 300
  }

  /**
   * A scan with room for all it meets fails with the first thing that stops it, clipped
   * to 300 units, and otherwise counts everything it comes across once: as a file, or as
   * one that could not be read.
   */
  lemma UncutScanCounts(h: Host, p: Policy, previous: map<Text, PreviousEntry>, full: bool)
    requires h.platform != OtherPlatform && p.enabled && Applicable(p.sets, h.platform) != []
    requires |InSets(h, Applicable(p.sets, h.platform))| <= p.maxFilesPerDevice
    ensures var r := ScanOf(h, Some(p), previous, full);
            var c, vs := ConfigOf(p, previous, full), InSets(h, Applicable(p.sets, h.platform));
            && (r.scope == Unavailable <==> FirstStop(h, c, vs).Some?)
            && (r.scope == Unavailable ==>
                  r.files == [] && r.error.Some? && IsClipped(r.error.value, FirstStop(h, c, vs).value.message))
            && (r.scope != Unavailable ==>
                  && r.scope == Collected && r.error == None && r.unreadable == CountMissed(h, c, vs)
                  && |r.files| + r.unreadable == CountFound(vs))
  {
    UncutTurns(h, ConfigOf(p, previous, full), START, InSets(h, Applicable(p.sets, h.platform)));
  }

  lemma {:induction false} ApplicableAre(sets: seq<FileSet>, platform: Platform)
    ensures forall s :: s in Applicable(sets, platform) <==> s in sets && AppliesTo(s, platform)
  {
    if sets == [] {
    } else {
      ApplicableAre(sets[1..], platform);
      assert forall s :: s in sets <==> s == sets[0] || s in sets[1..];
    }
  }

  /** A scan that could look names the sets it looked at, in the order of the policy. */
  lemma SetsAreNamed(h: Host, p: Policy, previous: map<Text, PreviousEntry>, full: bool)
    requires ScanOf(h, Some(p), previous, full).scope == Collected
    ensures var r, sets := ScanOf(h, Some(p), previous, full), Applicable(p.sets, h.platform);
            && r.sets == |sets| == |r.setIds| && (forall i :: 0 <= i < |sets| ==> r.setIds[i] == sets[i].id)
            && (forall s :: s in sets <==> s in p.sets && AppliesTo(s, h.platform))
  {
    ApplicableAre(p.sets, h.platform);
  }

  /** Whether a scan looks at all: on a supported platform, with a policy that is on and a set for it. */
  lemma ScopeIsExact(h: Host, policy: Option<Policy>, previous: map<Text, PreviousEntry>, full: bool)
    ensures var scope := ScanOf(h, policy, previous, full).scope;
            && (scope == Unsupported <==> h.platform == OtherPlatform)
            && (scope == Collected || scope == Unavailable <==>
                  && h.platform != OtherPlatform && policy.Some? && policy.value.enabled
                  && exists s :: s in policy.value.sets && AppliesTo(s, h.platform))
  {
    if policy.Some? {
      var sets := Applicable(policy.value.sets, h.platform);
      ApplicableAre(policy.value.sets, h.platform);
      if sets != [] { assert sets[0] in sets; }
    }
  }

  /** The file is as it was when its hash was last taken. */
  predicate IsUnchanged(c: Config, setId: Text, path: Text, st: Stat) {
    && KeyOf(setId, path) in c.previous
    && var e := c.previous[KeyOf(setId, path)];
       e.sha256.Some? && e.sha256.value != [] && e.sizeBytes == st.size && e.mtimeMs == st.mtimeMs
  }

  /** Unless everything is hashed again, a file as it was is reported with its old hash and not read at all. */
  lemma UnchangedIsNotRead(h: Host, g: Host, c: Config, z: State, setId: Text, path: Text, st: Stat)
    requires g == h.(sha256 := g.sha256) && !c.fullRehash && IsUnchanged(c, setId, path, st)
    requires z.error.None? && |z.files| < c.cap && st.size <= c.maxFileBytes
    ensures var after := Turn(h, c, z, Found(setId, path, st));
            && after == Turn(g, c, z, Found(setId, path, st))
            && after.files == z.files + [
                 ScannedFile(setId, path, c.previous[KeyOf(setId, path)].sha256, true, st.size, st.mtimeMs)]
  {
  }

  // ----- Passes -------------------------------------------------------------

  /** One pass: the machine as it is then, the policy, and whether everything is hashed again. */
  datatype Pass = Pass(h: Host, policy: Option<Policy>, full: bool)

  function EntryOf(f: ScannedFile): PreviousEntry { PreviousEntry(f.sha256, f.sizeBytes, f.mtimeMs) }

  /** `new Map(previous.map((f) => [keyOf(f.setId, f.path), ...]))` */
  function PreviousOf(files: seq<ScannedFile>): map<Text, PreviousEntry> {
    if files == [] then map[]
    else
      var f := files[|files| - 1];
      PreviousOf(files[..|files| - 1])[KeyOf(f.setId, f.path) := EntryOf(f)]
  }

  function ScanIn(pass: Pass, baseline: seq<ScannedFile>): Scan {
    ScanOf(pass.h, pass.policy, PreviousOf(baseline), pass.full)
  }

  /** The baseline after some passes: the files of the last one that could look. */
  function BaselineAfter(passes: seq<Pass>): seq<ScannedFile> {
    if passes == [] then []
    else
      var before := BaselineAfter(passes[..|passes| - 1]);
      var scan := ScanIn(passes[|passes| - 1], before);
      if scan.scope == Collected then scan.files else before
  }

  predicate HasSetIds(pass: Pass) {
    pass.policy.Some? ==> forall s :: s in pass.policy.value.sets ==> IsSetId(s.id)
  }

  /** A file of the same size and date as in an earlier pass stays readable and as it was. */
  ghost predicate AreSteady(passes: seq<Pass>) {
    forall i, j, path, size, mtimeMs, sha ::
      0 <= i < j < |passes| && Reads(passes[i].h, path, size, mtimeMs, sha)
      && passes[j].h.lstat(path) == Ok(Stat(File, size, mtimeMs)) ==>
        Reads(passes[j].h, path, size, mtimeMs, sha)
  }

  /** A hash of the baseline was read in one of the passes. */
  ghost predicate IsWitnessed(passes: seq<Pass>, f: ScannedFile) {
    && IsSetId(f.setId)
    && (f.sha256.Some? ==>
          exists k :: 0 <= k < |passes| && Reads(passes[k].h, f.path, f.sizeBytes, f.mtimeMs, f.sha256.value))
  }

  ghost predicate AreWitnessed(passes: seq<Pass>, files: seq<ScannedFile>) {
    forall i :: 0 <= i < |files| ==> IsWitnessed(passes, files[i])
  }

  lemma {:induction false} PreviousComesFrom(files: seq<ScannedFile>, key: Text) returns (f: ScannedFile)
    requires key in PreviousOf(files)
    ensures f in files && KeyOf(f.setId, f.path) == key && PreviousOf(files)[key] == EntryOf(f)
  {
    f := files[|files| - 1];
    if KeyOf(f.setId, f.path) != key { f := PreviousComesFrom(files[..|files| - 1], key); }
  }

  lemma ReusedIsFresh(before: seq<Pass>, pass: Pass, baseline: seq<ScannedFile>, c: Config, v: Visit)
    requires AreSteady(before + [pass]) && AreWitnessed(before, baseline)
    requires c.previous == PreviousOf(baseline) && IsThere(pass.h, v)
    ensures IsFresh(pass.h, c, v)
  {
    if v.Found? && Reuses(c, KeyOf(v.setId, v.path), v.stat) {
      var f := PreviousComesFrom(baseline, KeyOf(v.setId, v.path));
      assert IsWitnessed(before, f);
      KeysDiffer(f.setId, f.path, v.setId, v.path);
      var k :| 0 <= k < |before| && Reads(before[k].h, f.path, f.sizeBytes, f.mtimeMs, f.sha256.value);
      var all := before + [pass];
      assert all[k] == before[k] && all[|before|] == pass;
      assert Reads(all[k].h, v.path, v.stat.size, v.stat.mtimeMs, f.sha256.value);
    }
  }

  /** The host has the file, and its hash is what reading it gives; one that is too large has none. */
  predicate IsRead(h: Host, maxFileBytes: nat, f: ScannedFile) {
    && IsSetId(f.setId) && h.lstat(f.path) == Ok(Stat(File, f.sizeBytes, f.mtimeMs))
    && if f.sizeBytes <= maxFileBytes then f.hashed && f.sha256.Some? && h.sha256(f.path) == Ok(f.sha256.value)
       else !f.hashed && f.sha256 == None
  }

  lemma {:induction false} FullReads(h: Host, d: Config, z: State, vs: seq<Visit>)
    requires d.fullRehash && (forall i :: 0 <= i < |vs| ==> IsThere(h, vs[i]))
    requires forall i :: 0 <= i < |z.files| ==> IsRead(h, d.maxFileBytes, z.files[i])
    ensures forall i :: 0 <= i < |Turns(h, d, z, vs).files| ==> IsRead(h, d.maxFileBytes, Turns(h, d, z, vs).files[i])
    decreases |vs|
  {
    if vs != [] {
      assert IsThere(h, vs[0]);
      FullReads(h, d, Turn(h, d, z, vs[0]), vs[1..]);
    }
  }

  /** Every file reported is read as the policy of the pass asks. */
  predicate AreRead(pass: Pass, files: seq<ScannedFile>) {
    forall i :: 0 <= i < |files| ==> pass.policy.Some? && IsRead(pass.h, pass.policy.value.maxFileBytes, files[i])
  }

  /** When everything is hashed again, every hash reported is read in that scan, whatever was known before. */
  lemma FullRehashReads(pass: Pass, baseline: seq<ScannedFile>)
    requires pass.full && HasSetIds(pass)
    ensures AreRead(pass, ScanIn(pass, baseline).files)
  {
    if pass.policy.Some? {
      var p := pass.policy.value;
      var sets := Applicable(p.sets, pass.h.platform);
      FoundAreThere(pass.h, sets);
      FullReads(pass.h, ConfigOf(p, PreviousOf(baseline), true), START, InSets(pass.h, sets));
    }
  }

  lemma OnePass(before: seq<Pass>, pass: Pass, baseline: seq<ScannedFile>)
    requires AreSteady(before + [pass]) && AreWitnessed(before, baseline) && HasSetIds(pass)
    ensures ScanIn(pass, baseline) == ScanOf(pass.h, pass.policy, map[], true)
    ensures AreRead(pass, ScanIn(pass, baseline).files)
  {
    if pass.policy.Some? {
      var p := pass.policy.value;
      var sets := Applicable(p.sets, pass.h.platform);
      var c, d := ConfigOf(p, PreviousOf(baseline), pass.full), ConfigOf(p, map[], true);
      var vs := InSets(pass.h, sets);
      FoundAreThere(pass.h, sets);
      forall i | 0 <= i < |vs| ensures IsFresh(pass.h, c, vs[i]) {
        assert IsThere(pass.h, vs[i]);
        ReusedIsFresh(before, pass, baseline, c, vs[i]);
      }
      ReuseIsRehash(pass.h, c, d, START, vs);
      FullReads(pass.h, d, START, vs);
    }
  }

  lemma {:induction false} BaselineIsWitnessed(passes: seq<Pass>)
    requires AreSteady(passes) && forall i :: 0 <= i < |passes| ==> HasSetIds(passes[i])
    ensures AreWitnessed(passes, BaselineAfter(passes))
  {
    if passes != [] {
      var before, pass := passes[..|passes| - 1], passes[|passes| - 1];
      assert passes == before + [pass];
      SteadyBefore(before, pass);
      BaselineIsWitnessed(before);
      var earlier, later := BaselineAfter(before), BaselineAfter(passes);
      OnePass(before, pass, earlier);
      forall i | 0 <= i < |later| ensures IsWitnessed(passes, later[i]) {
        if ScanIn(pass, earlier).scope == Collected {
          assert IsRead(passes[|before|].h, pass.policy.value.maxFileBytes, later[i]);
        } else {
          StillWitnessed(before, pass, earlier[i]);
        }
      }
    }
  }

  lemma SteadyBefore(before: seq<Pass>, pass: Pass)
    requires AreSteady(before + [pass])
    ensures AreSteady(before)
  {
    var all := before + [pass];
    forall i, j, path, size, mtimeMs, sha |
      0 <= i < j < |before| && Reads(before[i].h, path, size, mtimeMs, sha)
      && before[j].h.lstat(path) == Ok(Stat(File, size, mtimeMs))
      ensures Reads(before[j].h, path, size, mtimeMs, sha)
    {
      assert all[i] == before[i] && all[j] == before[j];
      assert Reads(all[i].h, path, size, mtimeMs, sha);
    }
  }

  lemma StillWitnessed(before: seq<Pass>, pass: Pass, f: ScannedFile)
    requires IsWitnessed(before, f)
    ensures IsWitnessed(before + [pass], f)
  {
    if f.sha256.Some? {
      var k :| 0 <= k < |before| && Reads(before[k].h, f.path, f.sizeBytes, f.mtimeMs, f.sha256.value);
      assert (before + [pass])[k] == before[k];
    }
  }

  /**
   * In every pass of any sequence, whatever was hashed again before and whichever passes
   * could not look, the scan is the one that hashes every file from scratch: each file it
   * reports has the hash that reading it in that pass gives, or none if it is too large.
   */
  lemma EveryPassIsAFullRehash(passes: seq<Pass>, n: nat)
    requires n < |passes| && AreSteady(passes) && forall i :: 0 <= i < |passes| ==> HasSetIds(passes[i])
    ensures ScanIn(passes[n], BaselineAfter(passes[..n])) == ScanOf(passes[n].h, passes[n].policy, map[], true)
    ensures AreRead(passes[n], ScanIn(passes[n], BaselineAfter(passes[..n])).files)
    decreases |passes|
  {
    if n == |passes| - 1 {
      var before := passes[..n];
      assert passes == before + [passes[n]];
      SteadyBefore(before, passes[n]);
      BaselineIsWitnessed(before);
      OnePass(before, passes[n], BaselineAfter(before));
    } else {
      var before := passes[..|passes| - 1];
      assert passes == before + [passes[|passes| - 1]];
      SteadyBefore(before, passes[|passes| - 1]);
      EveryPassIsAFullRehash(before, n);
      assert before[..n] == passes[..n];
    }
  }
}
