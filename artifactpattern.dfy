/**
 * The artifact file-name pattern
 *   ^(.+?)-(\d+\.\d+\.\d+(?:-\w+\d+)?(?:-[\d.]+)*)\.(jar|aar)$
 * as a recogniser: a lazy, non-empty name on one line, a dash, a version,
 * a dot and the extension `jar` or `aar`, at the end of the input or just
 * before a final newline.  Digit and word classes are the ASCII ones.
 */
module ArtifactPattern {
  import opened Wrappers
  import Strings

  /** `\w` */
  predicate IsWord(c: char) { 'a' <= c <= 'z' || 'A' <= c <= 'Z' || Strings.IsDigit(c) || c == '_' }

  /** `\d+` */
  predicate Digits(s: string) { |s| >= 1 && forall i :: 0 <= i < |s| ==> Strings.IsDigit(s[i]) }

  /** `[\d.]+` */
  predicate DigitsAndDots(s: string) { |s| >= 1 && forall i :: 0 <= i < |s| ==> Strings.IsDigit(s[i]) || s[i] == '.' }

  /** `\w+\d+`: at least two word characters, the last of them a digit. */
  predicate Tag(s: string) { |s| >= 2 && (forall i :: 0 <= i < |s| ==> IsWord(s[i])) && Strings.IsDigit(s[|s| - 1]) }

  /** `\d+\.\d+\.\d+` */
  predicate Release(s: string)
  {
    var p := Strings.Split(s, '.');
    |p| == 3 && Digits(p[0]) && Digits(p[1]) && Digits(p[2])
  }

  /**
   * The version group.  None of `\d`, `\w` and `.` is a dash, so a version
   * cuts at its dashes into a release, then an optional tag, then any number
   * of digit-and-dot runs.
   */
  predicate IsVersion(v: string)
  {
    var segs := Strings.Split(v, '-');
    && Release(segs[0])
    && (|segs| >= 2 ==> Tag(segs[1]) || DigitsAndDots(segs[1]))
    && (forall i :: 2 <= i < |segs| ==> DigitsAndDots(segs[i]))
  }

  /** The alternatives of the last group. */
  predicate IsExt(e: string) { e == "jar" || e == "aar" }

  /** A `MAJ.MIN.PATCH` release is a version. */
  lemma ReleaseIsVersion(major: string, minor: string, patch: string)
    requires Digits(major) && Digits(minor) && Digits(patch)
    ensures IsVersion(major + "." + minor + "." + patch)
  {
    var r := major + "." + minor + "." + patch;
    Strings.SplitCons(major, minor + "." + patch, '.');
    Strings.SplitCons(minor, patch, '.');
    Strings.SplitNoSeparator(patch, '.');
    assert r == major + ['.'] + (minor + ['.'] + patch);
    assert '-' !in r by {
      forall i | 0 <= i < |r| ensures r[i] != '-' {
        if i < |major| { assert r[i] == major[i]; }
        else if i == |major| { }
        else if i < |major| + 1 + |minor| { assert r[i] == minor[i - |major| - 1]; }
        else if i == |major| + 1 + |minor| { }
        else { assert r[i] == patch[i - |major| - |minor| - 2]; }
      }
    }
    Strings.SplitNoSeparator(r, '-');
  }

  /** A release followed by `-` and a tag is a version. */
  lemma TaggedIsVersion(release: string, tag: string)
    requires '-' !in release && Release(release) && Tag(tag)
    ensures IsVersion(release + "-" + tag)
  {
    assert '-' !in tag by {
      forall i | 0 <= i < |tag| ensures tag[i] != '-' { assert IsWord(tag[i]); }
    }
    Strings.SplitCons(release, tag, '-');
    Strings.SplitNoSeparator(tag, '-');
  }

  /** A version followed by `-` and a run of digits and dots is a version. */
  lemma BuildSuffixIsVersion(v: string, build: string)
    requires IsVersion(v) && DigitsAndDots(build)
    ensures IsVersion(v + "-" + build)
  {
    assert '-' !in build by {
      forall i | 0 <= i < |build| ensures build[i] != '-' { assert Strings.IsDigit(build[i]) || build[i] == '.'; }
    }
    Strings.SplitAppend(v, build, '-');
    Strings.SplitNoSeparator(build, '-');
  }

  /** Every version starts with a digit. */
  lemma VersionStartsWithDigit(v: string)
    requires IsVersion(v)
    ensures |v| >= 1 && Strings.IsDigit(v[0])
  {
    var seg := Strings.Split(v, '-')[0];
    var major := Strings.Split(seg, '.')[0];
    Strings.SplitFirstIsPrefix(v, '-');
    Strings.SplitFirstIsPrefix(seg, '.');
    assert major[0] == seg[0] == v[0];
  }

  /** What `$` leaves to match: the input, less one final newline. */
  function BeforeEnd(r: string): (t: string)
    ensures t == r || t + "\n" == r
  {
    if |r| > 0 && r[|r| - 1] == '\n' then r[..|r| - 1] else r
  }

  /** The input after the dash must read `version.ext`. */
  predicate TailMatches(t: string)
  {
    |t| >= 4 && t[|t| - 4] == '.' && IsExt(t[|t| - 3..]) && IsVersion(t[..|t| - 4])
  }

  /** The pattern matches with a name of length `n`. */
  predicate MatchesAt(s: string, n: nat)
  {
    1 <= n < |s| && '\n' !in s[..n] && s[n] == '-' && TailMatches(BeforeEnd(s[n + 1..]))
  }

  /** The least name length, from `n` on, at which the pattern matches. */
  function FirstFrom(s: string, n: nat): (r: Option<nat>)
    ensures r.Some? ==> n <= r.value && MatchesAt(s, r.value)
    ensures forall k :: n <= k && (r.None? || k < r.value) ==> !MatchesAt(s, k)
    decreases |s| - n
  {
    if n >= |s| then None
    else if MatchesAt(s, n) then Some(n)
    else FirstFrom(s, n + 1)
  }

  /** The three groups of a match. */
  datatype ArtifactMatch = ArtifactMatch(name: string, version: string, ext: string)

  /** `artifact_pattern.match(s)`: the groups of the match with the shortest name, if any. */
  function Match(s: string): Option<ArtifactMatch>
  {
    match FirstFrom(s, 0)
    case None => None
    case Some(n) =>
      var t := BeforeEnd(s[n + 1..]);
      Some(ArtifactMatch(s[..n], t[..|t| - 4], t[|t| - 3..]))
  }

  /**
   * There is a match exactly when the pattern matches with some name
   * length.  A match is `name-version.ext`, possibly followed by one final
   * newline, with a non-empty one-line name, a version and the extension
   * `jar` or `aar`; no shorter name matches.
   */
  lemma MatchSpec(s: string)
    ensures Match(s).Some? <==> exists n :: MatchesAt(s, n)
    ensures Match(s).Some? ==>
      var m := Match(s).value;
      && MatchesAt(s, |m.name|) && (forall k: nat :: k < |m.name| ==> !MatchesAt(s, k))
      && |m.name| >= 1 && '\n' !in m.name && IsVersion(m.version) && IsExt(m.ext)
      && (s == m.name + "-" + m.version + "." + m.ext || s == m.name + "-" + m.version + "." + m.ext + "\n")
  {
    match FirstFrom(s, 0)
    case None =>
    case Some(n) =>
      var t := BeforeEnd(s[n + 1..]);
      Reassemble(s, n, t);
  }

  /** The three groups and the separators between them make up the input. */
  lemma Reassemble(s: string, n: nat, t: string)
    requires n < |s| && s[n] == '-' && |t| >= 4 && t[|t| - 4] == '.'
    requires t == s[n + 1..] || t + "\n" == s[n + 1..]
    ensures var v, e := t[..|t| - 4], t[|t| - 3..];
      s == s[..n] + "-" + v + "." + e || s == s[..n] + "-" + v + "." + e + "\n"
  {
    var v, e := t[..|t| - 4], t[|t| - 3..];
    assert t == v + "." + e;
    assert s == s[..n] + "-" + s[n + 1..];
  }

  /**
   * A name, a dash, a version, a dot and an extension match with those three
   * groups, provided no dash inside the name is directly followed by a digit
   * (otherwise the lazy name would stop at that dash).
   */
  lemma MatchOfArtifactName(name: string, version: string, ext: string)
    requires |name| >= 1 && '\n' !in name
    requires forall i :: 0 <= i < |name| - 1 && name[i] == '-' ==> !Strings.IsDigit(name[i + 1])
    requires IsVersion(version) && IsExt(ext)
    ensures Match(name + "-" + version + "." + ext) == Some(ArtifactMatch(name, version, ext))
  {
    var s := name + "-" + version + "." + ext;
    var tail := version + "." + ext;
    assert s == name + "-" + tail;
    assert MatchesAt(s, |name|) by { MatchesAtName(name, version, ext); }
    assert forall k: nat :: k < |name| ==> !MatchesAt(s, k) by { NoEarlierMatch(name, tail, s); }
    assert s[..|name|] == name && s[|name| + 1..] == tail;
    MatchWithTail(s, |name|, version, ext);
  }

  /** The groups of a match whose tail is known. */
  lemma MatchWithTail(s: string, n: nat, version: string, ext: string)
    requires MatchesAt(s, n) && forall k: nat :: k < n ==> !MatchesAt(s, k)
    requires s[n + 1..] == version + "." + ext && |ext| == 3 && ext[2] != '\n'
    ensures Match(s) == Some(ArtifactMatch(s[..n], version, ext))
  {
    FirstMatchIs(s, n);
    var t := version + "." + ext;
    assert BeforeEnd(t) == t;
    assert t[..|t| - 4] == version && t[|t| - 3..] == ext;
  }

  /** The match is made with the shortest matching name. */
  lemma FirstMatchIs(s: string, n: nat)
    requires MatchesAt(s, n) && forall k: nat :: k < n ==> !MatchesAt(s, k)
    ensures var t := BeforeEnd(s[n + 1..]);
      Match(s) == Some(ArtifactMatch(s[..n], t[..|t| - 4], t[|t| - 3..]))
  {
    FirstFromIs(s, 0, n);
  }

  /** The search from `i` stops at the first matching length. */
  lemma {:induction false} FirstFromIs(s: string, i: nat, n: nat)
    requires i <= n && MatchesAt(s, n) && forall k: nat :: i <= k < n ==> !MatchesAt(s, k)
    ensures FirstFrom(s, i) == Some(n)
    decreases n - i
  {
    if i < n {
      assert !MatchesAt(s, i);
      FirstFromIs(s, i + 1, n);
    }
  }

  /** The pattern matches at the end of the name. */
  lemma MatchesAtName(name: string, version: string, ext: string)
    requires |name| >= 1 && '\n' !in name
    requires IsVersion(version) && IsExt(ext)
    ensures MatchesAt(name + "-" + version + "." + ext, |name|)
  {
    var s := name + "-" + version + "." + ext;
    var n := |name|;
    var t := version + "." + ext;
    assert s[..n] == name;
    assert s[n + 1..] == t;
    assert t[..|t| - 4] == version && t[|t| - 3..] == ext;
  }

  /** No shorter name matches when no dash inside the name is followed by a digit. */
  lemma NoEarlierMatch(name: string, rest: string, s: string)
    requires forall i :: 0 <= i < |name| - 1 && name[i] == '-' ==> !Strings.IsDigit(name[i + 1])
    requires s == name + "-" + rest
    ensures forall k: nat :: k < |name| ==> !MatchesAt(s, k)
  {
    forall k: nat | k < |name| ensures !MatchesAt(s, k) {
      if s[k] == '-' {
        assert name[k] == '-';
        assert s[k + 1] == if k + 1 < |name| then name[k + 1] else '-';
        NoMatchBeforeNonDigit(s, k);
      }
    }
  }

  /** A name cannot end where the next character could not start a version. */
  lemma NoMatchBeforeNonDigit(s: string, k: nat)
    requires k + 1 < |s| && !Strings.IsDigit(s[k + 1])
    ensures !MatchesAt(s, k)
  {
    if MatchesAt(s, k) {
      var u := BeforeEnd(s[k + 1..]);
      VersionStartsWithDigit(u[..|u| - 4]);
    }
  }

  /** The error a failed match turns into: group lookup on no match. */
  datatype AttributeError = AttributeError(message: string)

  /** Name, version and library type of an artifact file, as `transform_maven_lib` reads them. */
  datatype LibCoordinates = LibCoordinates(name: string, version: string, libType: string)

  /** `file[-3:]` */
  function LastThree(file: string): (r: string)
    ensures |r| == if |file| >= 3 then 3 else |file|
    ensures r <= file[|file| - |r|..]
  {
    if |file| >= 3 then file[|file| - 3..] else file
  }

  /**
   * The library name is the mapping key, the version is the second group of
   * the pattern and the type is the file's last three characters; a file the
   * pattern rejects is fatal.
   */
  function ReadCoordinates(key: string, file: string): (r: Result<LibCoordinates, AttributeError>)
    ensures r.Success? <==> Match(file).Some?
    ensures r.Success? ==> r.value.name == key && IsVersion(r.value.version)
    ensures r.Success? ==> r.value.version == Match(file).value.version && r.value.libType == LastThree(file)
    ensures r.Success? && file[|file| - 1] != '\n' ==> r.value.libType == Match(file).value.ext
  {
    MatchSpec(file);
    match Match(file)
    case None => Failure(AttributeError("'NoneType' object has no attribute 'group'"))
    case Some(m) =>
      assert file[|file| - 1] != '\n' ==> file[|file| - 3..] == m.ext;
      Success(LibCoordinates(key, m.version, LastThree(file)))
  }

  /**
   * For a payload file named as the pattern expects, the type read from the
   * last three characters is the pattern's extension group, and the version
   * is the one in the name.
   */
  lemma ReadCoordinatesOfPayload(key: string, name: string, version: string, ext: string)
    requires |name| >= 1 && '\n' !in name
    requires forall i :: 0 <= i < |name| - 1 && name[i] == '-' ==> !Strings.IsDigit(name[i + 1])
    requires IsVersion(version) && IsExt(ext)
    ensures ReadCoordinates(key, name + "-" + version + "." + ext) == Success(LibCoordinates(key, version, ext))
  {
    MatchOfArtifactName(name, version, ext);
    var file := name + "-" + version + "." + ext;
    assert file[|file| - 3..] == ext;
  }
}
