/**
 * `detect_artifacts`: walk the local Maven repositories, scrape each POM's
 * `groupId`, `artifactId` and `version` by fixed-column line matching,
 * locate the POM's `.jar` or `.aar` payload, resolve the `maven_to_make`
 * key, and keep the latest version per key.
 *
 * The directory walk is an input: the sequence of files in the order the
 * walk visits them, each with its repository, its directory (`root`), its
 * name and, for POMs, its lines. File existence is an input set of paths.
 */
module Discovery {
  import opened Wrappers
  import Versions

  /** The three POM elements the scraper looks for. */
  datatype Tag = GroupId | ArtifactId | Version

  /** The two-space-indented opening tag a line must begin with. */
  function Open(t: Tag): string
  {
    match t
    case GroupId => "  <groupId>"
    case ArtifactId => "  <artifactId>"
    case Version => "  <version>"
  }

  /** The closing tag and newline that a well-formed line ends with. */
  function Close(t: Tag): string
  {
    match t
    case GroupId => "</groupId>\n"
    case ArtifactId => "</artifactId>\n"
    case Version => "</version>\n"
  }

  /** The fixed number of characters cut from each end of a matching line. */
  function Width(t: Tag): (w: nat)
    ensures w == |Open(t)| == |Close(t)|
  {
    match t
    case GroupId => 11
    case ArtifactId => 14
    case Version => 11
  }

  /** `line[:len(prefix)] == prefix`. */
  predicate StartsWith(line: string, prefix: string)
  {
    |line| >= |prefix| && line[..|prefix|] == prefix
  }

  /** `line[w:-w]`, which Python clamps to `""` when the line is too short. */
  function Strip(line: string, w: nat): string
  {
    if w + w <= |line| then line[w..|line| - w] else ""
  }

  datatype PomFields = PomFields(groupId: string, artifactId: string, version: string)

  function Get(p: PomFields, t: Tag): string
  {
    match t
    case GroupId => p.groupId
    case ArtifactId => p.artifactId
    case Version => p.version
  }

  /** The field a line sets, tried in the order of the `if`/`elif` chain. */
  function TagOf(line: string): Option<Tag>
  {
    if StartsWith(line, Open(GroupId)) then Some(GroupId)
    else if StartsWith(line, Open(ArtifactId)) then Some(ArtifactId)
    else if StartsWith(line, Open(Version)) then Some(Version)
    else None
  }

  /** One line of the scraping loop. */
  function ScanLine(p: PomFields, line: string): PomFields
  {
    match TagOf(line)
    case None => p
    case Some(GroupId) => p.(groupId := Strip(line, 11))
    case Some(ArtifactId) => p.(artifactId := Strip(line, 14))
    case Some(Version) => p.(version := Strip(line, 11))
  }

  /** The three fields after reading all `lines`, starting from empty strings. */
  function Scan(lines: seq<string>): PomFields
  {
    if lines == [] then PomFields("", "", "")
    else ScanLine(Scan(lines[..|lines| - 1]), lines[|lines| - 1])
  }

  /** The opening tags differ in their fourth character, so a line begins with at most one. */
  lemma TagOfExact(line: string, t: Tag)
    ensures TagOf(line) == Some(t) <==> StartsWith(line, Open(t))
  {
    if StartsWith(line, Open(t)) {
      assert line[3] == Open(t)[3];
    }
  }

  /** A line that sets field `t` changes only that field, to the line minus its fixed-width ends. */
  lemma ScanLineEffect(p: PomFields, line: string, t: Tag)
    ensures StartsWith(line, Open(t)) ==> Get(ScanLine(p, line), t) == Strip(line, Width(t))
    ensures !StartsWith(line, Open(t)) ==> Get(ScanLine(p, line), t) == Get(p, t)
  {
    TagOfExact(line, t);
    match TagOf(line)
    case None =>
    case Some(u) => TagOfExact(line, u);
  }

  /** A field no line begins with stays empty. */
  lemma {:induction false} ScanUntagged(lines: seq<string>, t: Tag)
    requires forall i :: 0 <= i < |lines| ==> !StartsWith(lines[i], Open(t))
    ensures Get(Scan(lines), t) == ""
  {
    if lines != [] {
      ScanUntagged(lines[..|lines| - 1], t);
      ScanLineEffect(Scan(lines[..|lines| - 1]), lines[|lines| - 1], t);
    }
  }

  /** A field is set by the last line that begins with its tag; later lines overwrite earlier ones. */
  lemma {:induction false} ScanLastTagged(lines: seq<string>, t: Tag, j: nat)
    requires j < |lines| && StartsWith(lines[j], Open(t))
    requires forall i :: j < i < |lines| ==> !StartsWith(lines[i], Open(t))
    ensures Get(Scan(lines), t) == Strip(lines[j], Width(t))
    decreases |lines|
  {
    var init := lines[..|lines| - 1];
    ScanLineEffect(Scan(init), lines[|lines| - 1], t);
    if j < |lines| - 1 {
      ScanLastTagged(init, t, j);
    }
  }

  /** On a line `<open>value<close>\n` the scraper yields exactly the value. */
  lemma WellFormedLine(t: Tag, value: string)
    ensures StartsWith(Open(t) + value + Close(t), Open(t))
    ensures Strip(Open(t) + value + Close(t), Width(t)) == value
  {
    var line := Open(t) + value + Close(t);
    assert line[..Width(t)] == Open(t);
    assert line[Width(t)..|line| - Width(t)] == value;
  }

  /**
   * The slices assume a trailing newline: on a last line without one, the
   * scraped value loses its final character (and `1` becomes empty).
   */
  lemma LineWithoutNewline(t: Tag, value: string)
    requires value != []
    ensures var close := Close(t)[..|Close(t)| - 1];
      Strip(Open(t) + value + close, Width(t)) == value[..|value| - 1]
  {
    var close := Close(t)[..|Close(t)| - 1];
    var line := Open(t) + value + close;
    var last := value[|value| - 1];
    assert value == value[..|value| - 1] + [last];
    assert line == Open(t) + value[..|value| - 1] + ([last] + close);
    assert line[Width(t)..|line| - Width(t)] == value[..|value| - 1];
  }

  /**
   * The POM-reading loop: `group_id`, `artifact_id` and `version` start
   * empty and are reassigned line by line.
   */
  method ReadPom(lines: seq<string>) returns (groupId: string, artifactId: string, version: string)
    ensures PomFields(groupId, artifactId, version) == Scan(lines)
  {
    groupId, artifactId, version := "", "", "";
    var n := 0;
    while n < |lines|
      invariant 0 <= n <= |lines|
      invariant PomFields(groupId, artifactId, version) == Scan(lines[..n])
    {
      var line := lines[n];
      if |line| >= 11 && line[..11] == "  <groupId>" {
        groupId := if 22 <= |line| then line[11..|line| - 11] else "";
      } else if |line| >= 14 && line[..14] == "  <artifactId>" {
        artifactId := if 28 <= |line| then line[14..|line| - 14] else "";
      } else if |line| >= 11 && line[..11] == "  <version>" {
        version := if 22 <= |line| then line[11..|line| - 11] else "";
      }
      assert lines[..n + 1][..n] == lines[..n];
      n := n + 1;
    }
    assert lines[..n] == lines;
  }

  /** One file produced by the directory walk. */
  datatype WalkedFile = WalkedFile(repoDir: string, root: string, name: string, lines: seq<string>)

  /** `MavenLibraryInfo`. */
  datatype LibraryInfo = LibraryInfo(
    key: string,
    groupId: string,
    artifactId: string,
    version: string,
    dir: string,
    repoDir: string,
    file: string)

  /** What happens to one walked file: each `continue` of the loop, or a found artifact. */
  datatype FileOutcome =
    | NotPom
    | MissingData(path: string)
    | NoPayload
    | Unmapped
    | Found(info: LibraryInfo)

  /** `file[-4:] == ".pom"`. */
  predicate IsPom(name: string)
  {
    |name| >= 4 && name[|name| - 4..] == ".pom"
  }

  /** `os.path.join(a, b)` for a file name `b` that is not absolute. */
  function PathJoin(a: string, b: string): string
  {
    if a == [] || a[|a| - 1] == '/' then a + b else a + "/" + b
  }

  /** Text added to the file name ends up at the end of the joined path. */
  lemma PathJoinAppend(a: string, b: string, c: string)
    ensures PathJoin(a, b + c) == PathJoin(a, b) + c
  {
    if a == [] || a[|a| - 1] == '/' {
      assert a + (b + c) == a + b + c;
    } else {
      assert a + "/" + (b + c) == a + "/" + b + c;
    }
  }

  /** A walk directory as `os.walk` yields it below the top: not empty, no trailing slash. */
  predicate PlainDir(root: string)
  {
    root != [] && root[|root| - 1] != '/'
  }

  /** `s[i:]`, which Python clamps to `""` past the end. */
  function SliceFrom(s: string, i: nat): string
  {
    if i <= |s| then s[i..] else ""
  }

  function MissingDataMessage(path: string): string
  {
    "Failed to find Maven artifact data in " + path
  }

  /**
   * The `maven_to_make` key of an artifact: the full `group:artifact` key if
   * the table has it, otherwise the bare artifact id if the table has that.
   */
  function ResolveKey(groupId: string, artifactId: string, mapped: set<string>): (r: Option<string>)
    ensures r.Some? <==> groupId + ":" + artifactId in mapped || artifactId in mapped
    ensures r.Some? ==> r.value in mapped
    ensures r.Some? ==> r.value == groupId + ":" + artifactId || r.value == artifactId
    ensures groupId + ":" + artifactId in mapped ==> r == Some(groupId + ":" + artifactId)
  {
    var groupArtifact := groupId + ":" + artifactId;
    if groupArtifact in mapped then Some(groupArtifact)
    else if artifactId in mapped then Some(artifactId)
    else None
  }

  /**
   * The payload beside a POM: `<stem>.jar` if it exists, else `<stem>.aar`
   * if that exists, as a name relative to the POM's directory.
   */
  function Payload(root: string, name: string, existing: set<string>): (r: Option<string>)
    requires IsPom(name)
    ensures var stem := name[..|name| - 4];
      r.None? <==> PathJoin(root, stem + ".jar") !in existing && PathJoin(root, stem + ".aar") !in existing
    ensures var stem := name[..|name| - 4];
      PlainDir(root) && r.Some? ==>
        && r.value == (if PathJoin(root, stem + ".jar") in existing then stem + ".jar" else stem + ".aar")
        && PathJoin(root, r.value) in existing
  {
    var file := PathJoin(root, name);
    var artifactFile := file[..|file| - 4];
    var stem := name[..|name| - 4];
    assert name == stem + ".pom";
    PathJoinAppend(root, stem, ".pom");
    PathJoinAppend(root, stem, ".jar");
    PathJoinAppend(root, stem, ".aar");
    assert artifactFile == PathJoin(root, stem);
    if artifactFile + ".jar" in existing then
      assert PlainDir(root) ==> SliceFrom(artifactFile + ".jar", |root| + 1) == stem + ".jar";
      Some(SliceFrom(artifactFile + ".jar", |root| + 1))
    else if artifactFile + ".aar" in existing then
      assert PlainDir(root) ==> SliceFrom(artifactFile + ".aar", |root| + 1) == stem + ".aar";
      Some(SliceFrom(artifactFile + ".aar", |root| + 1))
    else None
  }

  /**
   * With a repository root given with a trailing slash, a POM directly in
   * it gets a payload name that has lost its first character.
   */
  lemma TrailingSlashRoot(root: string, name: string, existing: set<string>)
    requires root != [] && root[|root| - 1] == '/' && IsPom(name)
    requires PathJoin(root, name[..|name| - 4] + ".jar") in existing
    ensures Payload(root, name, existing) == Some((name[..|name| - 4] + ".jar")[1..])
  {
    var stem := name[..|name| - 4];
    var file := PathJoin(root, name);
    assert name == stem + ".pom";
    assert file == root + stem + ".pom";
    var jar := file[..|file| - 4] + ".jar";
    assert jar == root + (stem + ".jar");
    assert jar in existing;
    assert SliceFrom(jar, |root| + 1) == (stem + ".jar")[1..];
  }

  /** What the body of the walk loop does with one file. */
  function Classify(f: WalkedFile, existing: set<string>, mapped: set<string>): (r: FileOutcome)
    ensures r.NotPom? <==> !IsPom(f.name)
    ensures r.MissingData? <==>
      IsPom(f.name) && (Scan(f.lines).groupId == "" || Scan(f.lines).artifactId == "" || Scan(f.lines).version == "")
    ensures r.MissingData? ==> r.path == PathJoin(f.root, f.name)
    ensures r.NoPayload? <==>
      IsPom(f.name) && !r.MissingData? && Payload(f.root, f.name, existing).None?
    ensures r.Unmapped? ==> ResolveKey(Scan(f.lines).groupId, Scan(f.lines).artifactId, mapped).None?
    ensures r.Found? ==>
      && IsPom(f.name)
      && PomFields(r.info.groupId, r.info.artifactId, r.info.version) == Scan(f.lines)
      && r.info.groupId != "" && r.info.artifactId != "" && r.info.version != ""
      && Some(r.info.key) == ResolveKey(r.info.groupId, r.info.artifactId, mapped)
      && Some(r.info.file) == Payload(f.root, f.name, existing)
      && r.info.dir == f.root && r.info.repoDir == f.repoDir
  {
    if !IsPom(f.name) then NotPom
    else
      var fields := Scan(f.lines);
      if fields.groupId == "" || fields.artifactId == "" || fields.version == "" then
        MissingData(PathJoin(f.root, f.name))
      else
        match Payload(f.root, f.name, existing)
        case None => NoPayload
        case Some(file) =>
          match ResolveKey(fields.groupId, fields.artifactId, mapped)
          case None => Unmapped
          case Some(key) =>
            Found(LibraryInfo(key, fields.groupId, fields.artifactId, fields.version, f.root, f.repoDir, file))
  }

  /** The outcome of the walk so far: `maven_lib_info` and the diagnostics printed. */
  datatype Discovered = Discovered(info: map<string, LibraryInfo>, diagnostics: seq<string>)

  /** Latest wins: a found artifact is stored when its key is new or its version is strictly greater. */
  function Step(d: Discovered, outcome: FileOutcome, gt: (string, string) -> bool): Discovered
  {
    match outcome
    case MissingData(path) => d.(diagnostics := d.diagnostics + [MissingDataMessage(path)])
    case Found(c) =>
      if c.key !in d.info || gt(c.version, d.info[c.key].version) then d.(info := d.info[c.key := c]) else d
    case _ => d
  }

  /** `detect_artifacts` over a walk, as a left fold of `Step`. */
  function Detect(walk: seq<WalkedFile>, existing: set<string>, mapped: set<string>,
                  gt: (string, string) -> bool): Discovered
  {
    if walk == [] then Discovered(map[], [])
    else Step(Detect(walk[..|walk| - 1], existing, mapped, gt), Classify(walk[|walk| - 1], existing, mapped), gt)
  }

  /** The artifacts found along the walk, in visiting order. */
  function FoundIn(walk: seq<WalkedFile>, existing: set<string>, mapped: set<string>): seq<LibraryInfo>
  {
    if walk == [] then []
    else
      FoundIn(walk[..|walk| - 1], existing, mapped)
        + match Classify(walk[|walk| - 1], existing, mapped) case Found(c) => [c] case _ => []
  }

  lemma DetectSnoc(walk: seq<WalkedFile>, f: WalkedFile, existing: set<string>, mapped: set<string>,
                   gt: (string, string) -> bool)
    ensures Detect(walk + [f], existing, mapped, gt)
         == Step(Detect(walk, existing, mapped, gt), Classify(f, existing, mapped), gt)
    ensures FoundIn(walk + [f], existing, mapped)
         == FoundIn(walk, existing, mapped) + match Classify(f, existing, mapped) case Found(c) => [c] case _ => []
  {
    assert (walk + [f])[..|walk|] == walk;
  }

  /**
   * Every stored entry is filed under its own key, which is a key of
   * `maven_to_make`, and is one of the artifacts found; every artifact found
   * has an entry under its key.
   */
  lemma {:induction false} DetectSoundAndComplete(walk: seq<WalkedFile>, existing: set<string>, mapped: set<string>,
                                                  gt: (string, string) -> bool)
    ensures var d := Detect(walk, existing, mapped, gt);
      forall k :: k in d.info ==> k in mapped && d.info[k].key == k && d.info[k] in FoundIn(walk, existing, mapped)
    ensures var d := Detect(walk, existing, mapped, gt);
      forall c :: c in FoundIn(walk, existing, mapped) ==> c.key in d.info
  {
    if walk != [] {
      var init, f := walk[..|walk| - 1], walk[|walk| - 1];
      assert walk == init + [f];
      DetectSoundAndComplete(init, existing, mapped, gt);
      DetectSnoc(init, f, existing, mapped, gt);
    }
  }

  /**
   * Latest wins: no artifact found along the walk has a version strictly
   * greater than the one stored under its key.
   */
  lemma {:induction false} DetectLatest(walk: seq<WalkedFile>, existing: set<string>, mapped: set<string>,
                                        gt: (string, string) -> bool)
    requires Versions.StrictOrder(gt)
    ensures var d := Detect(walk, existing, mapped, gt);
      forall c :: c in FoundIn(walk, existing, mapped) ==> c.key in d.info && !gt(c.version, d.info[c.key].version)
  {
    if walk != [] {
      var init, f := walk[..|walk| - 1], walk[|walk| - 1];
      assert walk == init + [f];
      DetectLatest(init, existing, mapped, gt);
      DetectSoundAndComplete(init, existing, mapped, gt);
      DetectSnoc(init, f, existing, mapped, gt);
      var before := Detect(init, existing, mapped, gt).info;
      var after := Detect(walk, existing, mapped, gt).info;
      var outcome := Classify(f, existing, mapped);
      forall c | c in FoundIn(walk, existing, mapped)
        ensures c.key in after && !gt(c.version, after[c.key].version)
      {
        if outcome.Found? && c == outcome.info {
        } else {
          assert c in FoundIn(init, existing, mapped);
          if outcome.Found? && outcome.info.key == c.key && after[c.key] != before[c.key] {
            var n := outcome.info;
            assert gt(n.version, before[c.key].version);
          }
        }
      }
    }
  }

  /**
   * One more artifact under a key replaces the stored entry exactly when its
   * version is strictly greater; otherwise nothing changes. Either way it
   * prints nothing.
   */
  lemma ReplacedOnlyWhenGreater(walk: seq<WalkedFile>, f: WalkedFile, existing: set<string>, mapped: set<string>,
                                gt: (string, string) -> bool)
    requires Classify(f, existing, mapped).Found?
    ensures var c := Classify(f, existing, mapped).info;
      var before := Detect(walk, existing, mapped, gt).info;
      var after := Detect(walk + [f], existing, mapped, gt).info;
      && (c.key !in before || gt(c.version, before[c.key].version) ==> after == before[c.key := c])
      && (c.key in before && !gt(c.version, before[c.key].version) ==> after == before)
    ensures Detect(walk + [f], existing, mapped, gt).diagnostics == Detect(walk, existing, mapped, gt).diagnostics
  {
    DetectSnoc(walk, f, existing, mapped, gt);
  }

  /**
   * A POM with an empty `groupId`, `artifactId` or `version` adds no entry
   * and one diagnostic naming its path; discovery goes on.
   */
  lemma MissingDataSkipped(walk: seq<WalkedFile>, f: WalkedFile, existing: set<string>, mapped: set<string>,
                           gt: (string, string) -> bool)
    requires IsPom(f.name)
    requires Scan(f.lines).groupId == "" || Scan(f.lines).artifactId == "" || Scan(f.lines).version == ""
    ensures Detect(walk + [f], existing, mapped, gt).info == Detect(walk, existing, mapped, gt).info
    ensures Detect(walk + [f], existing, mapped, gt).diagnostics
         == Detect(walk, existing, mapped, gt).diagnostics + [MissingDataMessage(PathJoin(f.root, f.name))]
  {
    DetectSnoc(walk, f, existing, mapped, gt);
  }

  /**
   * A file that is not a POM, a POM without a payload and a POM with no
   * mapping entry change nothing, and print nothing.
   */
  lemma OtherSkipsSilent(walk: seq<WalkedFile>, f: WalkedFile, existing: set<string>, mapped: set<string>,
                         gt: (string, string) -> bool)
    requires !IsPom(f.name) || Classify(f, existing, mapped).NoPayload? || Classify(f, existing, mapped).Unmapped?
    ensures Detect(walk + [f], existing, mapped, gt) == Detect(walk, existing, mapped, gt)
  {
    DetectSnoc(walk, f, existing, mapped, gt);
  }

  /**
   * On a tie the first-seen artifact stays: of two artifacts under a new key
   * where the second is not strictly greater, the first is kept.
   */
  lemma TieKeepsFirstSeen(walk: seq<WalkedFile>, a: WalkedFile, b: WalkedFile, existing: set<string>,
                          mapped: set<string>, gt: (string, string) -> bool)
    requires Classify(a, existing, mapped).Found? && Classify(b, existing, mapped).Found?
    requires var ca, cb := Classify(a, existing, mapped).info, Classify(b, existing, mapped).info;
      ca.key == cb.key && ca.key !in Detect(walk, existing, mapped, gt).info && !gt(cb.version, ca.version)
    ensures var ca := Classify(a, existing, mapped).info;
      Detect(walk + [a, b], existing, mapped, gt).info[ca.key] == ca
  {
    DetectSnoc(walk, a, existing, mapped, gt);
    DetectSnoc(walk + [a], b, existing, mapped, gt);
    assert walk + [a, b] == walk + [a] + [b];
  }

  /**
   * Of two artifacts under a new key, the strictly greater one is kept in
   * whichever order the walk visits them.
   */
  lemma GreaterKeptInEitherOrder(walk: seq<WalkedFile>, a: WalkedFile, b: WalkedFile, existing: set<string>,
                                 mapped: set<string>, gt: (string, string) -> bool)
    requires Classify(a, existing, mapped).Found? && Classify(b, existing, mapped).Found?
    requires var ca, cb := Classify(a, existing, mapped).info, Classify(b, existing, mapped).info;
      ca.key == cb.key && ca.key !in Detect(walk, existing, mapped, gt).info
      && gt(cb.version, ca.version) && !gt(ca.version, cb.version)
    ensures var cb := Classify(b, existing, mapped).info;
      && Detect(walk + [a, b], existing, mapped, gt).info[cb.key] == cb
      && Detect(walk + [b, a], existing, mapped, gt).info[cb.key] == cb
  {
    DetectSnoc(walk, a, existing, mapped, gt);
    DetectSnoc(walk + [a], b, existing, mapped, gt);
    assert walk + [a, b] == walk + [a] + [b];
    DetectSnoc(walk, b, existing, mapped, gt);
    DetectSnoc(walk + [b], a, existing, mapped, gt);
    assert walk + [b, a] == walk + [b] + [a];
  }

  /**
   * `detect_artifacts(maven_repo_dirs)`: the result map and the diagnostics
   * are those of the fold above.
   */
  method DetectArtifacts(walk: seq<WalkedFile>, existing: set<string>, mapped: set<string>,
                         gt: (string, string) -> bool)
    returns (info: map<string, LibraryInfo>, diagnostics: seq<string>)
    ensures Discovered(info, diagnostics) == Detect(walk, existing, mapped, gt)
  {
    info, diagnostics := map[], [];
    var n := 0;
    while n < |walk|
      invariant 0 <= n <= |walk|
      invariant Discovered(info, diagnostics) == Detect(walk[..n], existing, mapped, gt)
    {
      var f := walk[n];
      assert walk[..n + 1][..n] == walk[..n];
      if |f.name| >= 4 && f.name[|f.name| - 4..] == ".pom" {
        var file := PathJoin(f.root, f.name);
        var groupId, artifactId, version := ReadPom(f.lines);
        if groupId == "" || artifactId == "" || version == "" {
          diagnostics := diagnostics + [MissingDataMessage(file)];
        } else {
          var artifactFile := file[..|file| - 4];
          var located := true;
          if artifactFile + ".jar" in existing {
            artifactFile := artifactFile + ".jar";
          } else if artifactFile + ".aar" in existing {
            artifactFile := artifactFile + ".aar";
          } else {
            located := false;
          }
          if located {
            artifactFile := SliceFrom(artifactFile, |f.root| + 1);
            var groupArtifact := groupId + ":" + artifactId;
            var key := "";
            var isMapped := true;
            if groupArtifact in mapped {
              key := groupArtifact;
            } else if artifactId in mapped {
              key := artifactId;
            } else {
              isMapped := false;
            }
            if isMapped && (key !in info || gt(version, info[key].version)) {
              info := info[key := LibraryInfo(key, groupId, artifactId, version, f.root, f.repoDir, artifactFile)];
            }
          }
        }
      }
      n := n + 1;
    }
    assert walk[..n] == walk;
  }
}
