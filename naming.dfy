/**
 * Build-system names and paths derived from an unversioned Maven coordinate
 * (`group:artifact`), and the `maven_to_make` mapping table whose missing
 * `name` and `path` fields are filled in from them at start-up.
 */
module Naming {
  import opened Wrappers
  import Strings

  /** Target name for a coordinate: every `:` becomes `_`, nothing else changes. */
  function NameForArtifact(groupArtifact: string): (r: string)
    ensures |r| == |groupArtifact|
    ensures forall i :: 0 <= i < |r| ==> r[i] == if groupArtifact[i] == ':' then '_' else groupArtifact[i]
    ensures ':' !in r
  {
    Strings.ReplaceChar(groupArtifact, ':', '_')
  }

  /** File-system path for a coordinate: every `.` and every `:` becomes `/`, nothing else changes. */
  function PathForArtifact(groupArtifact: string): (r: string)
    ensures |r| == |groupArtifact|
    ensures forall i :: 0 <= i < |r| ==>
      r[i] == if groupArtifact[i] == '.' || groupArtifact[i] == ':' then '/' else groupArtifact[i]
    ensures '.' !in r && ':' !in r
  {
    Strings.ReplaceChar(Strings.ReplaceChar(groupArtifact, '.', '/'), ':', '/')
  }

  /**
   * For a `group:library` key the path is the group path (dots turned into
   * slashes) followed by the library with its dots turned into slashes.
   */
  lemma PathOfGroupAndLibrary(group: string, library: string)
    requires ':' !in group && ':' !in library
    ensures PathForArtifact(group + ":" + library)
         == Strings.ReplaceChar(group, '.', '/') + "/" + Strings.ReplaceChar(library, '.', '/')
  {
    var g, l := Strings.ReplaceChar(group, '.', '/'), Strings.ReplaceChar(library, '.', '/');
    var colon: string := ":";
    assert Strings.ReplaceChar(colon, '.', '/') == colon;
    assert Strings.ReplaceChar(colon, ':', '/') == "/";
    Strings.ReplaceCharAppend(group + colon, library, '.', '/');
    Strings.ReplaceCharAppend(group, colon, '.', '/');
    var dotted := g + colon + l;
    assert Strings.ReplaceChar(group + colon + library, '.', '/') == dotted;
    Strings.ReplaceCharAppend(g + colon, l, ':', '/');
    Strings.ReplaceCharAppend(g, colon, ':', '/');
    Strings.ReplaceCharAbsent(g, ':', '/');
    Strings.ReplaceCharAbsent(l, ':', '/');
    assert Strings.ReplaceChar(dotted, ':', '/') == g + "/" + l;
  }

  /**
   * One entry of `maven_to_make`. The optional dictionary keys become
   * `Option` fields; `host` and `host_and_device` are read with `.get`, so
   * an absent key is false.
   */
  datatype MappingEntry = MappingEntry(
    name: Option<string>,
    path: Option<string>,
    extraStaticLibs: Option<seq<string>>,
    optionalUsesLibs: Option<seq<string>>,
    host: bool,
    hostAndDevice: bool)

  /** What the start-up loop does to one entry. */
  function WithDefaults(key: string, e: MappingEntry): (r: MappingEntry)
    ensures r.name.Some? && r.path.Some?
    ensures e.name.Some? ==> r.name == e.name
    ensures e.path.Some? ==> r.path == e.path
    ensures e.name.None? ==> r.name.value == NameForArtifact(key)
    ensures e.path.None? ==> r.path.value == PathForArtifact(key)
    ensures r.(name := e.name, path := e.path) == e
  {
    var e1 := if e.name.None? then e.(name := Some(NameForArtifact(key))) else e;
    if e1.path.None? then e1.(path := Some(PathForArtifact(key))) else e1
  }

  /** Filling in defaults a second time changes nothing. */
  lemma WithDefaultsIdempotent(key: string, e: MappingEntry)
    ensures WithDefaults(key, WithDefaults(key, e)) == WithDefaults(key, e)
  {
  }

  /** Every key listed in `keys` has an entry that carries a name and a path. */
  ghost predicate AllFilled(keys: seq<string>, entries: map<string, MappingEntry>)
  {
    forall k :: k in keys ==> k in entries && entries[k].name.Some? && entries[k].path.Some?
  }

  /**
   * The `maven_to_make` dictionary: `keys` is its iteration (insertion)
   * order, `entries` its contents.
   */
  class MavenToMake {
    var keys: seq<string>
    var entries: map<string, MappingEntry>

    ghost predicate Valid()
      reads this
    {
      && (forall i, j :: 0 <= i < j < |keys| ==> keys[i] != keys[j])
      && (forall k :: k in entries <==> k in keys)
    }

    constructor (keys: seq<string>, entries: map<string, MappingEntry>)
      requires forall i, j :: 0 <= i < j < |keys| ==> keys[i] != keys[j]
      requires forall k :: k in entries <==> k in keys
      ensures Valid()
      ensures this.keys == keys && this.entries == entries
    {
      this.keys := keys;
      this.entries := entries;
    }

    /**
     * The start-up loop: every entry without a `name` gets
     * `NameForArtifact(key)` and every entry without a `path` gets
     * `PathForArtifact(key)`; given values are never overwritten.
     */
    method AutoFill()
      requires Valid()
      modifies this
      ensures Valid()
      ensures keys == old(keys)
      ensures entries.Keys == old(entries).Keys
      ensures forall k :: k in entries ==> entries[k] == WithDefaults(k, old(entries)[k])
      ensures AllFilled(keys, entries)
    {
      var i := 0;
      while i < |keys|
        invariant 0 <= i <= |keys|
        invariant keys == old(keys)
        invariant entries.Keys == old(entries).Keys
        invariant forall k :: k in entries ==>
          entries[k] == if k in keys[..i] then WithDefaults(k, old(entries)[k]) else old(entries)[k]
      {
        var key := keys[i];
        var e := entries[key];
        if e.name.None? {
          e := e.(name := Some(NameForArtifact(key)));
        }
        if e.path.None? {
          e := e.(path := Some(PathForArtifact(key)));
        }
        entries := entries[key := e];
        assert keys[..i + 1] == keys[..i] + [key];
        i := i + 1;
      }
      assert keys[..i] == keys;
    }
  }
}
