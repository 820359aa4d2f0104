/**
 * `GMavenArtifact`: a `group:library:version:ext` coordinate of an artifact
 * on Google's Maven repository, and the two download URLs derived from it.
 */
module Coordinates {
  import opened Wrappers
  import Strings

  const GmavenBaseUrl: string := "https://dl.google.com/dl/android/maven2"

  /**
   * The fields `__init__` assigns. The object is built once and not changed
   * by anything modelled here, so it is a value.
   */
  datatype GMavenArtifact = GMavenArtifact(
    group: string,
    groupPath: string,
    library: string,
    key: string,
    version: string,
    ext: string)

  /** The `ValueError` raised for a malformed coordinate. */
  datatype ValueError = ValueError(message: string)

  function UsageError(artifactGlob: string): ValueError
  {
    ValueError("Error in " + artifactGlob + " expected: group:library:version:ext")
  }

  /** The coordinate string made of four fields. */
  function Format(group: string, library: string, version: string, ext: string): string
  {
    group + ":" + library + ":" + version + ":" + ext
  }

  /**
   * `GMavenArtifact(artifact_glob)`: succeeds exactly when the string splits
   * on `:` into four fields and none is empty; then the
   * fields rebuild the string, `key` is `group:library` and `group_path` is
   * the group with its dots turned into slashes.
   */
  function Parse(artifactGlob: string): (r: Result<GMavenArtifact, ValueError>)
    ensures r.Success? <==>
      var fields := Strings.Split(artifactGlob, ':');
      |fields| == 4 && fields[0] != "" && fields[1] != "" && fields[2] != "" && fields[3] != ""
    ensures r.Failure? ==> r.error == UsageError(artifactGlob)
    ensures r.Success? ==>
      var a := r.value;
      && Format(a.group, a.library, a.version, a.ext) == artifactGlob
      && a.key == a.group + ":" + a.library
      && a.groupPath == Strings.ReplaceChar(a.group, '.', '/')
      && a.group != "" && a.library != "" && a.version != "" && a.ext != ""
      && ':' !in a.group && ':' !in a.library && ':' !in a.version && ':' !in a.ext
  {
    var fields := Strings.Split(artifactGlob, ':');
    if |fields| != 4 then
      Failure(UsageError(artifactGlob))
    else
      var group, library, version, ext := fields[0], fields[1], fields[2], fields[3];
      if group == "" || library == "" || version == "" || ext == "" then
        Failure(UsageError(artifactGlob))
      else
        JoinFour(fields);
        Strings.JoinOfSplit(artifactGlob, ':');
        Success(GMavenArtifact(group, Strings.ReplaceChar(group, '.', '/'), library,
                               group + ":" + library, version, ext))
  }

  lemma JoinFour(fields: seq<string>)
    requires |fields| == 4
    ensures Strings.Join(fields, ":") == Format(fields[0], fields[1], fields[2], fields[3])
  {
    var t1, t2, t3 := fields[1..], fields[2..], fields[3..];
    assert t1[1..] == t2 && t2[1..] == t3;
    assert Strings.Join(t3, ":") == fields[3];
    assert Strings.Join(t2, ":") == fields[2] + ":" + fields[3];
    assert Strings.Join(t1, ":") == fields[1] + ":" + fields[2] + ":" + fields[3];
  }

  /** Formatting four non-empty colon-free fields and parsing the result gives them back. */
  lemma ParseOfFormat(group: string, library: string, version: string, ext: string)
    requires group != "" && library != "" && version != "" && ext != ""
    requires ':' !in group && ':' !in library && ':' !in version && ':' !in ext
    ensures Parse(Format(group, library, version, ext)).Success?
    ensures var a := Parse(Format(group, library, version, ext)).value;
      a.group == group && a.library == library && a.version == version && a.ext == ext
  {
    var fields := [group, library, version, ext];
    JoinFour(fields);
    Strings.SplitOfJoin(fields, ':');
  }

  /** `get_pom_file_url()`. */
  function PomFileUrl(a: GMavenArtifact): string
  {
    GmavenBaseUrl + "/" + a.groupPath + "/" + a.library + "/" + a.version + "/" + a.library + "-" + a.version + ".pom"
  }

  /** `get_artifact_url()`. */
  function ArtifactUrl(a: GMavenArtifact): string
  {
    GmavenBaseUrl + "/" + a.groupPath + "/" + a.library + "/" + a.version + "/" + a.library + "-" + a.version + "." + a.ext
  }

  /**
   * The two URLs differ only in their extension: the artifact URL is the POM
   * URL with `pom` replaced by the artifact's extension.
   */
  lemma UrlsDifferOnlyInExtension(a: GMavenArtifact)
    ensures var pom := PomFileUrl(a);
      |pom| >= 3 && pom[|pom| - 3..] == "pom" && ArtifactUrl(a) == pom[..|pom| - 3] + a.ext
  {
    var stem := GmavenBaseUrl + "/" + a.groupPath + "/" + a.library + "/" + a.version + "/" + a.library + "-" + a.version + ".";
    assert PomFileUrl(a) == stem + "pom";
    assert ArtifactUrl(a) == stem + a.ext;
    assert (stem + "pom")[..|stem|] == stem;
  }

  lemma SplitTail(library: string, version: string, file: string)
    requires '/' !in library && '/' !in version && '/' !in file
    ensures Strings.Split(library + "/" + version + "/" + file, '/') == [library, version, file]
  {
    Strings.SplitNoSeparator(file, '/');
    Strings.SplitCons(version, file, '/');
    Strings.SplitCons(library, version + "/" + file, '/');
    assert library + "/" + version + "/" + file == library + "/" + (version + "/" + file);
  }

  /** Splitting `groupPath/library/version/file` on `/`. */
  lemma SplitPath(groupPath: string, library: string, version: string, file: string)
    requires '/' !in library && '/' !in version && '/' !in file
    ensures Strings.Split(groupPath + "/" + library + "/" + version + "/" + file, '/')
         == Strings.Split(groupPath, '/') + [library, version, file]
  {
    var tail := library + "/" + version + "/" + file;
    SplitTail(library, version, file);
    Strings.SplitAppend(groupPath, tail, '/');
    assert groupPath + "/" + library + "/" + version + "/" + file == groupPath + "/" + tail;
  }

  /**
   * After the base URL and a slash, the POM URL's path segments are the
   * group's dotted components, the library, the version and the file name.
   */
  lemma PomFileUrlSegments(a: GMavenArtifact)
    requires a.groupPath == Strings.ReplaceChar(a.group, '.', '/') && '/' !in a.group
    requires '/' !in a.library && '/' !in a.version
    ensures var url := PomFileUrl(a);
      && url[..|GmavenBaseUrl| + 1] == GmavenBaseUrl + "/"
      && Strings.Split(url[|GmavenBaseUrl| + 1..], '/')
         == Strings.Split(a.group, '.') + [a.library, a.version, a.library + "-" + a.version + ".pom"]
  {
    var file := a.library + "-" + a.version + ".pom";
    var path := a.groupPath + "/" + a.library + "/" + a.version + "/" + file;
    SplitPath(a.groupPath, a.library, a.version, file);
    assert PomFileUrl(a) == GmavenBaseUrl + "/" + path;
    Strings.SplitOfReplace(a.group, '.', '/');
  }

  /**
   * After the base URL and a slash, the artifact URL's path segments are the
   * group's dotted components, the library, the version and the file name.
   */
  lemma ArtifactUrlSegments(a: GMavenArtifact)
    requires a.groupPath == Strings.ReplaceChar(a.group, '.', '/') && '/' !in a.group
    requires '/' !in a.library && '/' !in a.version && '/' !in a.ext
    ensures var url := ArtifactUrl(a);
      && url[..|GmavenBaseUrl| + 1] == GmavenBaseUrl + "/"
      && Strings.Split(url[|GmavenBaseUrl| + 1..], '/')
         == Strings.Split(a.group, '.') + [a.library, a.version, a.library + "-" + a.version + "." + a.ext]
  {
    var file := a.library + "-" + a.version + "." + a.ext;
    var path := a.groupPath + "/" + a.library + "/" + a.version + "/" + file;
    SplitPath(a.groupPath, a.library, a.version, file);
    assert ArtifactUrl(a) == GmavenBaseUrl + "/" + path;
    Strings.SplitOfReplace(a.group, '.', '/');
  }
}
