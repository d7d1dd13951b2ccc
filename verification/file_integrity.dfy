/**
 * The file-integrity scan (`src/domain/file-integrity-scan.ts`): a walk over the
 * declared sets that stops at a cap and reuses the hashes of unchanged files.
 */
module FileIntegrity {
  import opened Js

  // ----- The machine --------------------------------------------------------

  datatype Platform = Win32 | Darwin | Linux | OtherPlatform

  /** By error code: EACCES, EPERM or EBUSY; ENOENT; ENOTDIR; anything else. */
  datatype FsError =
    | Denied(message: Text) | NotFound(message: Text) | NotDirectory(message: Text) | Failed(message: Text)

  datatype Kind = File | Directory | Link | Special

  datatype Stat = Stat(kind: Kind, size: nat, mtimeMs: int)

  /** A platform with its `path.join`, and the file system as it is during one scan. */
  datatype Host = Host(
    platform: Platform,
    join: (Text, Text) -> Text,
    lstat: Text -> Result<Stat, FsError>,
    readdir: Text -> Result<seq<Text>, FsError>,
    sha256: Text -> Result<Text, FsError>
  )

  // ----- Policy and results -------------------------------------------------

  datatype SetPlatform = OnWindows | OnMacos | OnLinux | Anywhere

  datatype FileSet = FileSet(id: Text, platform: SetPlatform, path: Text, recursive: bool, maxDepth: nat)

  datatype Policy = Policy(enabled: bool, sets: seq<FileSet>, maxFilesPerDevice: nat, maxFileBytes: nat)

  datatype ScannedFile = ScannedFile(
    setId: Text, path: Text, sha256: Option<Text>, hashed: bool, sizeBytes: nat, mtimeMs: int)

  datatype PreviousEntry = PreviousEntry(sha256: Option<Text>, sizeBytes: nat, mtimeMs: int)

  datatype Scope = Collected | NotConfigured | Unsupported | Unavailable

  datatype Scan = Scan(
    scope: Scope, sets: nat, setIds: seq<Text>, files: seq<ScannedFile>,
    unreadable: nat, truncated: bool, error: Option<Text>)

  const BAR: Unit := 0x7c

  function KeyOf(setId: Text, path: Text): Text { setId + [BAR] + path }

  function AppliesTo(s: FileSet, platform: Platform): bool {
    || s.platform == Anywhere || (s.platform == OnWindows && platform == Win32)
    || (s.platform == OnMacos && platform == Darwin) || (s.platform == OnLinux && platform == Linux)
  }

  function Applicable(sets: seq<FileSet>, platform: Platform): (r: seq<FileSet>)
    ensures forall i :: 0 <= i < |r| ==> r[i] in sets
  {
    if sets == [] then []
    else (if AppliesTo(sets[0], platform) then [sets[0]] else []) + Applicable(sets[1..], platform)
  }

  // ----- What the walk comes across -----------------------------------------

  /** One turn of a loop of the scan, after the cap has been looked at. */
  datatype Visit = Nothing | Unreadable | Found(setId: Text, path: Text, stat: Stat) | Throws(error: FsError)

  function Place(name: Text, names: seq<Text>): seq<Text> {
    if names == [] || !Less(names[0], name) then [name] + names else [names[0]] + Place(name, names[1..])
  }

  /** `[...names].sort()` */
  function SortNames(names: seq<Text>): seq<Text> {
    if names == [] then [] else Place(names[0], SortNames(names[1..]))
  }

  /** A file that is found is one the host has, under its set. */
  predicate IsSound(h: Host, s: FileSet, v: Visit) {
    v.Found? ==> v.setId == s.id && h.lstat(v.path) == Ok(v.stat) && v.stat.kind == File
  }

  predicate AreSound(h: Host, s: FileSet, vs: seq<Visit>) {
    forall i :: 0 <= i < |vs| ==> IsSound(h, s, vs[i])
  }

  function Remaining(s: FileSet, depth: nat): nat { if depth < s.maxDepth then s.maxDepth - depth else 0 }

  /** The turns caused by a directory at a depth, the one that leads to it first. */
  function InDirectory(h: Host, s: FileSet, dir: Text, depth: nat): (r: seq<Visit>)
    ensures AreSound(h, s, r)
    decreases Remaining(s, depth), 2, 0
  {
    match h.readdir(dir)
    case Err(Denied(_)) => [Unreadable]
    case Err(Failed(m)) => [Throws(Failed(m))]
    case Err(_) => [Nothing]
    case Ok(names) => [Nothing] + AmongNames(h, s, dir, SortNames(names), depth)
  }

  function AmongNames(h: Host, s: FileSet, dir: Text, names: seq<Text>, depth: nat): (r: seq<Visit>)
    ensures AreSound(h, s, r)
    decreases Remaining(s, depth), 1, |names|
  {
    if names == [] then []
    else AtName(h, s, h.join(dir, names[0]), depth) + AmongNames(h, s, dir, names[1..], depth)
  }

  function AtName(h: Host, s: FileSet, path: Text, depth: nat): (r: seq<Visit>)
    ensures AreSound(h, s, r) && r != []
    decreases Remaining(s, depth), 0, 0
  {
    match h.lstat(path)
    case Err(Denied(_)) => [Unreadable]
    case Err(NotFound(_)) => [Nothing]
    case Err(e) => [Throws(e)]
    case Ok(st) =>
      if st.kind == File then [Found(s.id, path, st)]
      else if st.kind == Directory && s.recursive && depth < s.maxDepth then InDirectory(h, s, path, depth + 1)
      else [Nothing]
  }

  function InSet(h: Host, s: FileSet): (r: seq<Visit>)
    ensures AreSound(h, s, r) && r != []
  {
    match h.lstat(s.path)
    case Err(Denied(_)) => [Unreadable]
    case Err(Failed(m)) => [Throws(Failed(m))]
    case Err(_) => [Nothing]
    case Ok(st) =>
      if st.kind == File then [Found(s.id, s.path, st)]
      else if st.kind == Directory then InDirectory(h, s, s.path, 1)
      else [Nothing]
  }

  function InSets(h: Host, sets: seq<FileSet>): seq<Visit> {
    if sets == [] then [] else InSet(h, sets[0]) + InSets(h, sets[1..])
  }

  // ----- What a turn does ---------------------------------------------------

  datatype Config = Config(cap: nat, maxFileBytes: nat, previous: map<Text, PreviousEntry>, fullRehash: bool)

  datatype State = State(files: seq<ScannedFile>, unreadable: nat, truncated: bool, error: Option<FsError>)

  const START: State := State([], 0, false, None)

  /** Whether the hash of the last reading is taken without reading the file. */
  predicate Reuses(c: Config, key: Text, st: Stat) {
    && !c.fullRehash && key in c.previous && c.previous[key].sha256.Some? && c.previous[key].sha256.value != []
    && c.previous[key].sizeBytes == st.size && c.previous[key].mtimeMs == st.mtimeMs
  }

  function Pushed(z: State, setId: Text, path: Text, st: Stat, sha: Option<Text>): State {
    z.(files := z.files + [ScannedFile(setId, path, sha, sha.Some?, st.size, st.mtimeMs)])
  }

  /** `record` */
  function Recorded(h: Host, c: Config, z: State, setId: Text, path: Text, st: Stat): State {
    if st.size > c.maxFileBytes then Pushed(z, setId, path, st, None)
    else if Reuses(c, KeyOf(setId, path), st) then
      Pushed(z, setId, path, st, c.previous[KeyOf(setId, path)].sha256)
    else
      match h.sha256(path)
      case Ok(sha) => Pushed(z, setId, path, st, Some(sha))
      case Err(e) =>
        if e.Denied? || e.NotFound? then z.(unreadable := z.unreadable + 1) else z.(error := Some(e))
  }

  /** A turn: nothing after an error, only the mark once the cap is reached. */
  function Turn(h: Host, c: Config, z: State, v: Visit): State {
    if z.error.Some? then z
    else if |z.files| >= c.cap then z.(truncated := true)
    else
      match v
      case Nothing => z
      case Unreadable => z.(unreadable := z.unreadable + 1)
      case Found(setId, path, st) => Recorded(h, c, z, setId, path, st)
      case Throws(e) => z.(error := Some(e))
  }

  function Turns(h: Host, c: Config, z: State, vs: seq<Visit>): State
    decreases |vs|
  {
    if vs == [] then z else Turns(h, c, Turn(h, c, z, vs[0]), vs[1..])
  }

  lemma {:induction false} TurnsAppend(h: Host, c: Config, z: State, a: seq<Visit>, b: seq<Visit>)
    ensures Turns(h, c, z, a + b) == Turns(h, c, Turns(h, c, z, a), b)
    decreases |a|
  {
    if a == [] {
      assert a + b == b;
    } else {
      assert (a + b)[0] == a[0] && (a + b)[1..] == a[1..] + b;
      TurnsAppend(h, c, Turn(h, c, z, a[0]), a[1..], b);
    }
  }

  /** After an error, or at the cap, the turns left change no more than the mark. */
  lemma {:induction false} TurnsOver(h: Host, c: Config, z: State, vs: seq<Visit>)
    requires z.error.Some? || |z.files| >= c.cap
    ensures Turns(h, c, z, vs) == if z.error.Some? || vs == [] then z else z.(truncated := true)
    decreases |vs|
  {
    if vs != [] { TurnsOver(h, c, Turn(h, c, z, vs[0]), vs[1..]); }
  }

  /** `String(err.message).slice(0, 300)` */
  function Message(e: FsError): Text { if |e.message| > 300 then e.message[..300] else e.message }

  function Empty(scope: Scope, sets: nat, error: Option<Text>): Scan { Scan(scope, sets, [], [], 0, false, error) }

  function Ids(sets: seq<FileSet>): seq<Text> { seq(|sets|, i requires 0 <= i < |sets| => sets[i].id) }

  function ConfigOf(p: Policy, previous: map<Text, PreviousEntry>, fullRehash: bool): Config {
    Config(p.maxFilesPerDevice, p.maxFileBytes, previous, fullRehash)
  }

  function Outcome(sets: seq<FileSet>, z: State): Scan {
    if z.error.Some? then Empty(Unavailable, |sets|, Some(Message(z.error.value)))
    else Scan(Collected, |sets|, Ids(sets), z.files, z.unreadable, z.truncated, None)
  }

  /** What a scan gives. */
  function ScanOf(h: Host, policy: Option<Policy>, previous: map<Text, PreviousEntry>, fullRehash: bool): Scan {
    if h.platform == OtherPlatform then Empty(Unsupported, 0, None)
    else if policy.None? || !policy.value.enabled then Empty(NotConfigured, 0, None)
    else
      var sets := Applicable(policy.value.sets, h.platform);
      if sets == [] then Empty(NotConfigured, 0, None)
      else Outcome(sets, Turns(h, ConfigOf(policy.value, previous, fullRehash), START, InSets(h, sets)))
  }

  // ----- The scan as it runs ------------------------------------------------

  /** The variables that `record` and `walk` close over. */
  class Scanner {
    const h: Host
    const c: Config
    var files: seq<ScannedFile>
    var unreadable: nat
    var truncated: bool

    constructor (h: Host, c: Config)
      ensures this.h == h && this.c == c && Now(None) == START
    {
      this.h, this.c := h, c;
      files, unreadable, truncated := [], 0, false;
    }

    ghost function Now(error: Option<FsError>): State
      reads this
    {
      State(files, unreadable, truncated, error)
    }

    method Record(setId: Text, p: Text, st: Stat) returns (error: Option<FsError>)
      modifies this
      ensures Now(error) == Recorded(h, c, old(Now(None)), setId, p, st)
    {
      error := None;
      var key := KeyOf(setId, p);
      var sha: Option<Text> := None;
      if st.size <= c.maxFileBytes {
        var reuse :=
          && !c.fullRehash && key in c.previous && c.previous[key].sha256.Some? && c.previous[key].sha256.value != []
          && c.previous[key].sizeBytes == st.size && c.previous[key].mtimeMs == st.mtimeMs;
        if reuse {
          sha := c.previous[key].sha256;
        } else {
          match h.sha256(p) {
            case Ok(digest) => sha := Some(digest);
            case Err(e) =>
              if !e.Denied? && !e.NotFound? { return Some(e); }
              unreadable := unreadable + 1;
              return;
          }
        }
      }
      files := files + [ScannedFile(setId, p, sha, sha.Some?, st.size, st.mtimeMs)];
    }

    method Walk(s: FileSet, dir: Text, depth: nat) returns (error: Option<FsError>)
      requires |files| < c.cap
      modifies this
      ensures Now(error) == Turns(h, c, old(Now(None)), InDirectory(h, s, dir, depth))
      decreases Remaining(s, depth), 1
    {
      ghost var z0 := Now(None);
      var listing := h.readdir(dir);
      if listing.Err? {
        if listing.error.Denied? { unreadable := unreadable + 1; return None; }
        if listing.error.NotFound? || listing.error.NotDirectory? { return None; }
        return Some(listing.error);
      }
      var names := SortNames(listing.value);
      ghost var all := AmongNames(h, s, dir, names, depth);
      assert InDirectory(h, s, dir, depth) == [Nothing] + all;
      assert Turns(h, c, z0, [Nothing] + all) == Turns(h, c, z0, all) by {
        assert ([Nothing] + all)[1..] == all;
      }
      for i := 0 to |names|
        invariant Turns(h, c, Now(None), AmongNames(h, s, dir, names[i..], depth)) == Turns(h, c, z0, all)
      {
        var p := h.join(dir, names[i]);
        ghost var here := AtName(h, s, p, depth);
        ghost var rest := AmongNames(h, s, dir, names[i + 1..], depth);
        assert names[i..][0] == names[i] && names[i..][1..] == names[i + 1..];
        TurnsAppend(h, c, Now(None), here, rest);
        if |files| >= c.cap {
          TurnsOver(h, c, Now(None), here + rest);
          truncated := true;
          return None;
        }
        error := LookAt(s, p, depth);
        if error.Some? {
          TurnsOver(h, c, Now(error), rest);
          return;
        }
      }
      error := None;
    }

    /** The body of the loop of `walk`, below the cap. */
    method LookAt(s: FileSet, p: Text, depth: nat) returns (error: Option<FsError>)
      requires |files| < c.cap
      modifies this
      ensures Now(error) == Turns(h, c, old(Now(None)), AtName(h, s, p, depth))
      decreases Remaining(s, depth), 0
    {
      error := None;
      One(h, c, Now(None), AtName(h, s, p, depth));
      var stat := h.lstat(p);
      if stat.Err? {
        if stat.error.Denied? { unreadable := unreadable + 1; return; }
        if stat.error.NotFound? { return; }
        return Some(stat.error);
      }
      var st := stat.value;
      if st.kind == Link { return; }
      if st.kind == File {
        error := Record(s.id, p, st);
      } else if st.kind == Directory && s.recursive && depth < s.maxDepth {
        error := Walk(s, p, depth + 1);
      }
    }

    /** The body of the loop over the sets, below the cap. */
    method LookAtSet(s: FileSet) returns (error: Option<FsError>)
      requires |files| < c.cap
      modifies this
      ensures Now(error) == Turns(h, c, old(Now(None)), InSet(h, s))
    {
      error := None;
      One(h, c, Now(None), InSet(h, s));
      var stat := h.lstat(s.path);
      if stat.Err? {
        if stat.error.Denied? { unreadable := unreadable + 1; return; }
        if stat.error.NotFound? || stat.error.NotDirectory? { return; }
        return Some(stat.error);
      }
      var st := stat.value;
      if st.kind == Link { return; }
      if st.kind == File {
        error := Record(s.id, s.path, st);
      } else if st.kind == Directory {
        error := Walk(s, s.path, 1);
      }
    }

    /** The loop over the sets. */
    method WalkSets(sets: seq<FileSet>) returns (error: Option<FsError>)
      modifies this
      ensures Now(error) == Turns(h, c, old(Now(None)), InSets(h, sets))
    {
      ghost var all := Turns(h, c, Now(None), InSets(h, sets));
      for i := 0 to |sets|
        invariant Turns(h, c, Now(None), InSets(h, sets[i..])) == all
      {
        ghost var here, rest := InSet(h, sets[i]), InSets(h, sets[i + 1..]);
        assert sets[i..][0] == sets[i] && sets[i..][1..] == sets[i + 1..];
        TurnsAppend(h, c, Now(None), here, rest);
        if |files| >= c.cap {
          TurnsOver(h, c, Now(None), here + rest);
          truncated := true;
          return None;
        }
        error := LookAtSet(sets[i]);
        if error.Some? {
          TurnsOver(h, c, Now(error), rest);
          return;
        }
      }
      error := None;
    }
  }

  lemma One(h: Host, c: Config, z: State, vs: seq<Visit>)
    ensures |vs| == 1 ==> Turns(h, c, z, vs) == Turn(h, c, z, vs[0])
  {
    if |vs| == 1 { assert vs[1..] == []; }
  }

  method ScanFileIntegrity(h: Host, policy: Option<Policy>, previous: map<Text, PreviousEntry>, fullRehash: bool)
    returns (r: Scan)
    ensures r == ScanOf(h, policy, previous, fullRehash)
  {
    if h.platform == OtherPlatform { return Empty(Unsupported, 0, None); }
    if policy.None? || !policy.value.enabled { return Empty(NotConfigured, 0, None); }
    var sets := Applicable(policy.value.sets, h.platform);
    if sets == [] { return Empty(NotConfigured, 0, None); }
    var c := ConfigOf(policy.value, previous, fullRehash);
    var scanner := new Scanner(h, c);
    var error := scanner.WalkSets(sets);
    if error.Some? { return Empty(Unavailable, |sets|, Some(Message(error.value))); }
    return Scan(Collected, |sets|, Ids(sets), scanner.files, scanner.unreadable, scanner.truncated, None);
  }
}
