/**
 * The argument list handed to `pom2bp` when the Android.bp file is
 * generated: a fixed header, one name rewrite per mapping key, the extra
 * rewrite table, the per-library dependency lists, the host flags and the
 * directory to scan.
 */
module Pom2bp {
  import Strings
  import opened Wrappers
  import Naming

  /** The fixed start of the list. */
  const Header: seq<string> := ["pom2bp", "-sdk-version", "31", "-default-min-sdk-version", "24", "-static-deps"]

  /** Every listed key has an entry with a make name, as the start-up fill-in guarantees. */
  predicate Named(keys: seq<string>, entries: map<string, Naming.MappingEntry>)
  {
    forall k :: k in keys ==> k in entries && entries[k].name.Some?
  }

  /** The keys holding a colon (`group:artifact` keys), in order. */
  function WithColon(keys: seq<string>): (r: seq<string>)
    ensures forall k :: k in r <==> k in keys && ':' in k
  {
    if keys == [] then []
    else (if ':' in keys[0] then [keys[0]] else []) + WithColon(keys[1..])
  }

  /** The keys without a colon (bare artifact ids), in order. */
  function WithoutColon(keys: seq<string>): (r: seq<string>)
    ensures forall k :: k in r <==> k in keys && ':' !in k
  {
    if keys == [] then []
    else (if ':' in keys[0] then [] else [keys[0]]) + WithoutColon(keys[1..])
  }

  /** The two groups together hold every key exactly as often as the keys do. */
  lemma {:induction false} PartitionMultiset(keys: seq<string>)
    ensures multiset(WithColon(keys) + WithoutColon(keys)) == multiset(keys)
  {
    if keys != [] {
      PartitionMultiset(keys[1..]);
      assert keys == [keys[0]] + keys[1..];
    }
  }

  /**
   * The order of the rewrite rules: the colon keys followed by the bare
   * keys, then sorted.  The sort undoes the grouping: the result is the
   * plain sorted key list.
   */
  function RewriteNames(keys: seq<string>): (r: seq<string>)
    ensures r == Strings.Sort(keys)
  {
    var names := Strings.Sort(WithColon(keys) + WithoutColon(keys));
    PartitionMultiset(keys);
    Strings.SortedUnique(names, Strings.Sort(keys));
    names
  }

  /** A sorted list holds the same keys. */
  lemma SortKeepsMembers(keys: seq<string>)
    ensures forall k :: k in Strings.Sort(keys) <==> k in keys
  {
    assert multiset(Strings.Sort(keys)) == multiset(keys);
    forall k ensures k in Strings.Sort(keys) <==> k in keys {
      assert k in Strings.Sort(keys) <==> k in multiset(Strings.Sort(keys));
      assert k in keys <==> k in multiset(keys);
    }
  }

  /** One name rewrite rule. */
  function RewriteArg(pattern: string, name: string): string
  {
    "-rewrite=^" + pattern + "$=" + name
  }

  /** A rewrite rule can be read back: it cuts at `=` into the flag, the anchored pattern and the name. */
  lemma RewriteArgFields(pattern: string, name: string)
    requires '=' !in pattern && '=' !in name
    ensures Strings.Split(RewriteArg(pattern, name), '=') == ["-rewrite", "^" + pattern + "$", name]
  {
    var anchored := "^" + pattern + "$";
    assert '=' !in anchored by {
      forall i | 0 <= i < |anchored| ensures anchored[i] != '=' {
        if 0 < i < |anchored| - 1 { assert anchored[i] == pattern[i - 1]; }
      }
    }
    assert RewriteArg(pattern, name) == "-rewrite" + ['='] + (anchored + ['='] + name);
    Strings.SplitCons("-rewrite", anchored + ['='] + name, '=');
    Strings.SplitCons(anchored, name, '=');
    Strings.SplitNoSeparator(name, '=');
    Strings.SplitNoSeparator("-rewrite", '=');
  }

  /** One rewrite rule per key, in the order given, to the key's make name. */
  function RewriteArgs(names: seq<string>, entries: map<string, Naming.MappingEntry>): (r: seq<string>)
    requires Named(names, entries)
    ensures |r| == |names|
    ensures forall i :: 0 <= i < |names| ==> r[i] == RewriteArg(names[i], entries[names[i]].name.value)
  {
    if names == [] then []
    else [RewriteArg(names[0], entries[names[0]].name.value)] + RewriteArgs(names[1..], entries)
  }

  /** The extra rewrite table, in table order. */
  function DepsRewriteArgs(deps: seq<(string, string)>): (r: seq<string>)
    ensures |r| == |deps|
    ensures forall i :: 0 <= i < |deps| ==> r[i] == RewriteArg(deps[i].0, deps[i].1)
  {
    if deps == [] then []
    else [RewriteArg(deps[0].0, deps[0].1)] + DepsRewriteArgs(deps[1..])
  }

  /** A library list argument: the flag, the make name and the sorted, comma-joined libraries. */
  function LibsArg(flag: string, name: string, libs: seq<string>): string
  {
    flag + "=" + name + "=" + Strings.Join(Strings.Sort(libs), ",")
  }

  /**
   * The library list of an argument reads back as the sorted libraries,
   * provided there is at least one and none holds a comma.
   */
  lemma LibsListReadsBack(libs: seq<string>)
    requires |libs| >= 1 && forall l :: l in libs ==> ',' !in l
    ensures Strings.Split(Strings.Join(Strings.Sort(libs), ","), ',') == Strings.Sort(libs)
    ensures multiset(Strings.Split(Strings.Join(Strings.Sort(libs), ","), ',')) == multiset(libs)
  {
    var sorted := Strings.Sort(libs);
    SortKeepsMembers(libs);
    assert |sorted| >= 1 by {
      assert |multiset(sorted)| == |multiset(libs)|;
    }
    assert forall i :: 0 <= i < |sorted| ==> ',' !in sorted[i] by {
      forall i | 0 <= i < |sorted| ensures ',' !in sorted[i] {
        assert sorted[i] in sorted;
      }
    }
    Strings.SplitOfJoin(sorted, ',');
  }

  /** The two optional library lists of an entry. */
  datatype LibsField = ExtraStaticLibs | OptionalUsesLibs

  function LibsFlag(field: LibsField): string
  {
    match field
    case ExtraStaticLibs => "-extra-static-libs"
    case OptionalUsesLibs => "-optional-uses-libs"
  }

  function LibsOf(e: Naming.MappingEntry, field: LibsField): Option<seq<string>>
  {
    match field
    case ExtraStaticLibs => e.extraStaticLibs
    case OptionalUsesLibs => e.optionalUsesLibs
  }

  /** The keys whose entry declares the library list `field`, in key order. */
  function Declaring(field: LibsField, keys: seq<string>, entries: map<string, Naming.MappingEntry>): (r: seq<string>)
    requires forall k :: k in keys ==> k in entries
    ensures |r| <= |keys|
    ensures forall i :: 0 <= i < |r| ==> r[i] in keys && LibsOf(entries[r[i]], field).Some?
  {
    if keys == [] then []
    else (if LibsOf(entries[keys[0]], field).Some? then [keys[0]] else []) + Declaring(field, keys[1..], entries)
  }

  /** A key is kept exactly when it is one of the keys and its entry declares the list. */
  lemma {:induction false} DeclaringMembers(field: LibsField, keys: seq<string>, entries: map<string, Naming.MappingEntry>)
    requires forall k :: k in keys ==> k in entries
    ensures forall k :: k in Declaring(field, keys, entries) <==> k in keys && LibsOf(entries[k], field).Some?
  {
    if keys != [] {
      DeclaringMembers(field, keys[1..], entries);
      assert forall k :: k in keys <==> k == keys[0] || k in keys[1..];
    }
  }

  /** Filtering keeps the key order: the declaring keys of a concatenation are those of each part, in turn. */
  lemma {:induction false} DeclaringAppend(field: LibsField, a: seq<string>, b: seq<string>,
                                           entries: map<string, Naming.MappingEntry>)
    requires forall k :: k in a + b ==> k in entries
    ensures Declaring(field, a + b, entries) == Declaring(field, a, entries) + Declaring(field, b, entries)
  {
    if a == [] {
      assert a + b == b;
    } else {
      var head := if LibsOf(entries[a[0]], field).Some? then [a[0]] else [];
      assert Declaring(field, a + b, entries) == head + Declaring(field, a[1..] + b, entries) by {
        assert (a + b)[0] == a[0] && (a + b)[1..] == a[1..] + b;
      }
      DeclaringAppend(field, a[1..], b, entries);
      assert head + (Declaring(field, a[1..], entries) + Declaring(field, b, entries))
          == head + Declaring(field, a[1..], entries) + Declaring(field, b, entries);
    }
  }

  /** The library list argument of the entry under `k`. */
  function LibsArgOf(field: LibsField, k: string, entries: map<string, Naming.MappingEntry>): string
    requires k in entries && entries[k].name.Some? && LibsOf(entries[k], field).Some?
  {
    LibsArg(LibsFlag(field), entries[k].name.value, LibsOf(entries[k], field).value)
  }

  /** One library list argument per key whose entry declares that list, in key order. */
  function LibsArgs(field: LibsField, keys: seq<string>, entries: map<string, Naming.MappingEntry>): (r: seq<string>)
    requires Named(keys, entries)
    ensures |r| <= |keys|
  {
    if keys == [] then []
    else
      var rest := LibsArgs(field, keys[1..], entries);
      if LibsOf(entries[keys[0]], field).Some? then [LibsArgOf(field, keys[0], entries)] + rest else rest
  }

  /** The i-th library list argument belongs to the i-th declaring key, and there is one per declaring key. */
  lemma {:induction false} LibsArgsPerKey(field: LibsField, keys: seq<string>, entries: map<string, Naming.MappingEntry>)
    requires Named(keys, entries)
    ensures |LibsArgs(field, keys, entries)| == |Declaring(field, keys, entries)|
    ensures forall i :: 0 <= i < |LibsArgs(field, keys, entries)| ==>
      LibsArgs(field, keys, entries)[i] == LibsArgOf(field, Declaring(field, keys, entries)[i], entries)
  {
    if keys != [] {
      LibsArgsPerKey(field, keys[1..], entries);
      var rest, restKeys := LibsArgs(field, keys[1..], entries), Declaring(field, keys[1..], entries);
      var r, ks := LibsArgs(field, keys, entries), Declaring(field, keys, entries);
      if LibsOf(entries[keys[0]], field).Some? {
        var head := LibsArgOf(field, keys[0], entries);
        ConsPairs(r, ks, head, keys[0], rest, restKeys);
      } else {
        assert r == rest && ks == restKeys;
      }
    }
  }

  /** Equal-length lists of arguments and keys stay paired after putting one pair in front. */
  lemma ConsPairs(r: seq<string>, ks: seq<string>, head: string, key: string, rest: seq<string>, restKeys: seq<string>)
    requires r == [head] + rest && ks == [key] + restKeys && |rest| == |restKeys|
    ensures |r| == |ks|
    ensures forall i :: 1 <= i < |r| ==> r[i] == rest[i - 1] && ks[i] == restKeys[i - 1]
  {
  }



  /**
   * A library list argument is present exactly when some key's entry
   * declares that list; it carries the entry's make name and its libraries.
   */
  lemma {:induction false} LibsArgsMembers(field: LibsField, keys: seq<string>, entries: map<string, Naming.MappingEntry>)
    requires Named(keys, entries)
    ensures forall a :: a in LibsArgs(field, keys, entries) <==>
      (exists k :: k in keys && LibsOf(entries[k], field).Some?
        && a == LibsArg(LibsFlag(field), entries[k].name.value, LibsOf(entries[k], field).value))
  {
    if keys != [] {
      LibsArgsMembers(field, keys[1..], entries);
      assert forall k :: k in keys <==> k == keys[0] || k in keys[1..];
    }
  }

  /** The two host flags of an entry. */
  datatype HostFlag = Host | HostAndDevice

  function HostFlagName(flag: HostFlag): string
  {
    match flag
    case Host => "-host"
    case HostAndDevice => "-host-and-device"
  }

  function IsSet(e: Naming.MappingEntry, flag: HostFlag): bool
  {
    match flag
    case Host => e.host
    case HostAndDevice => e.hostAndDevice
  }

  /** The keys whose entry has `flag` set, in key order. */
  function Flagged(flag: HostFlag, keys: seq<string>, entries: map<string, Naming.MappingEntry>): (r: seq<string>)
    requires forall k :: k in keys ==> k in entries
    ensures |r| <= |keys|
    ensures forall i :: 0 <= i < |r| ==> r[i] in keys && IsSet(entries[r[i]], flag)
  {
    if keys == [] then []
    else (if IsSet(entries[keys[0]], flag) then [keys[0]] else []) + Flagged(flag, keys[1..], entries)
  }

  /** A key is kept exactly when it is one of the keys and its entry has the flag set. */
  lemma {:induction false} FlaggedMembers(flag: HostFlag, keys: seq<string>, entries: map<string, Naming.MappingEntry>)
    requires forall k :: k in keys ==> k in entries
    ensures forall k :: k in Flagged(flag, keys, entries) <==> k in keys && IsSet(entries[k], flag)
  {
    if keys != [] {
      FlaggedMembers(flag, keys[1..], entries);
      assert forall k :: k in keys <==> k == keys[0] || k in keys[1..];
    }
  }

  /** Filtering keeps the key order: the flagged keys of a concatenation are those of each part, in turn. */
  lemma {:induction false} FlaggedAppend(flag: HostFlag, a: seq<string>, b: seq<string>,
                                         entries: map<string, Naming.MappingEntry>)
    requires forall k :: k in a + b ==> k in entries
    ensures Flagged(flag, a + b, entries) == Flagged(flag, a, entries) + Flagged(flag, b, entries)
  {
    if a == [] {
      assert a + b == b;
    } else {
      var head := if IsSet(entries[a[0]], flag) then [a[0]] else [];
      assert Flagged(flag, a + b, entries) == head + Flagged(flag, a[1..] + b, entries) by {
        assert (a + b)[0] == a[0] && (a + b)[1..] == a[1..] + b;
      }
      FlaggedAppend(flag, a[1..], b, entries);
      assert head + (Flagged(flag, a[1..], entries) + Flagged(flag, b, entries))
          == head + Flagged(flag, a[1..], entries) + Flagged(flag, b, entries);
    }
  }

  /** One `-flag=key` argument per key whose entry has the flag set, in key order. */
  function FlagArgs(flag: HostFlag, keys: seq<string>, entries: map<string, Naming.MappingEntry>): (r: seq<string>)
    requires forall k :: k in keys ==> k in entries
    ensures |r| <= |keys|
  {
    if keys == [] then []
    else
      var rest := FlagArgs(flag, keys[1..], entries);
      if IsSet(entries[keys[0]], flag) then [HostFlagName(flag) + "=" + keys[0]] + rest else rest
  }

  /** The i-th `-flag=key` argument names the i-th flagged key, and there is one per flagged key. */
  lemma {:induction false} FlagArgsPerKey(flag: HostFlag, keys: seq<string>, entries: map<string, Naming.MappingEntry>)
    requires forall k :: k in keys ==> k in entries
    ensures |FlagArgs(flag, keys, entries)| == |Flagged(flag, keys, entries)|
    ensures forall i :: 0 <= i < |FlagArgs(flag, keys, entries)| ==>
      FlagArgs(flag, keys, entries)[i] == HostFlagName(flag) + "=" + Flagged(flag, keys, entries)[i]
  {
    if keys != [] {
      FlagArgsPerKey(flag, keys[1..], entries);
      var rest, restKeys := FlagArgs(flag, keys[1..], entries), Flagged(flag, keys[1..], entries);
      if IsSet(entries[keys[0]], flag) {
        assert FlagArgs(flag, keys, entries) == [HostFlagName(flag) + "=" + keys[0]] + rest;
        assert Flagged(flag, keys, entries) == [keys[0]] + restKeys;
      } else {
        assert FlagArgs(flag, keys, entries) == rest;
        assert Flagged(flag, keys, entries) == restKeys;
      }
    }
  }

  /** `-flag=key` is present exactly when that key's entry has the flag set. */
  lemma {:induction false} FlagArgsMembers(flag: HostFlag, keys: seq<string>, entries: map<string, Naming.MappingEntry>)
    requires forall k :: k in keys ==> k in entries
    ensures forall a :: a in FlagArgs(flag, keys, entries) <==>
      exists k :: k in keys && IsSet(entries[k], flag) && a == HostFlagName(flag) + "=" + k
  {
    if keys != [] {
      FlagArgsMembers(flag, keys[1..], entries);
      assert forall k :: k in keys <==> k == keys[0] || k in keys[1..];
    }
  }

  /**
   * The whole list: the header, the rewrite rules in plain sorted key order,
   * the extra rewrite table in its own order, the library lists and host
   * flags in key order, and the directory `.`.
   */
  function Args(keys: seq<string>, entries: map<string, Naming.MappingEntry>, deps: seq<(string, string)>): seq<string>
    requires Named(keys, entries)
  {
    SortKeepsMembers(keys);
    Header + RewriteArgs(Strings.Sort(keys), entries) + DepsRewriteArgs(deps) + PerEntryArgs(keys, entries) + ["."]
  }

  /** The library lists and host flags, each group in key order. */
  function PerEntryArgs(keys: seq<string>, entries: map<string, Naming.MappingEntry>): seq<string>
    requires Named(keys, entries)
  {
    LibsArgs(ExtraStaticLibs, keys, entries) + LibsArgs(OptionalUsesLibs, keys, entries)
      + FlagArgs(Host, keys, entries) + FlagArgs(HostAndDevice, keys, entries)
  }

  /**
   * Where things sit in a list: the header first, then one rewrite rule per
   * name in the given order, then the extra rewrite table in table order,
   * and `.` last.
   */
  predicate Layout(args: seq<string>, names: seq<string>, entries: map<string, Naming.MappingEntry>,
                   deps: seq<(string, string)>)
    requires Named(names, entries)
  {
    && |args| >= |Header| + |names| + |deps| + 1
    && args[..|Header|] == Header && args[|args| - 1] == "."
    && (forall i :: 0 <= i < |names| ==> args[|Header| + i] == RewriteArg(names[i], entries[names[i]].name.value))
    && (forall i :: 0 <= i < |deps| ==> args[|Header| + |names| + i] == RewriteArg(deps[i].0, deps[i].1))
  }

  /** Sorting the keys keeps their number and their entries. */
  lemma SortedKeysNamed(keys: seq<string>, entries: map<string, Naming.MappingEntry>)
    requires Named(keys, entries)
    ensures Named(Strings.Sort(keys), entries) && |Strings.Sort(keys)| == |keys|
  {
    SortKeepsMembers(keys);
    assert |multiset(Strings.Sort(keys))| == |multiset(keys)|;
  }

  /** The list has that layout, with the rewrite rules in sorted key order. */
  lemma ArgsLayout(keys: seq<string>, entries: map<string, Naming.MappingEntry>, deps: seq<(string, string)>)
    requires Named(keys, entries)
    ensures Named(Strings.Sort(keys), entries) && |Strings.Sort(keys)| == |keys|
    ensures Layout(Args(keys, entries, deps), Strings.Sort(keys), entries, deps)
  {
    SortedKeysNamed(keys, entries);
    FrontLayout(Strings.Sort(keys), entries, deps, PerEntryArgs(keys, entries));
  }

  /** The layout of a list made of the header, the rewrite rules, the extra table, anything, and `.`. */
  lemma FrontLayout(names: seq<string>, entries: map<string, Naming.MappingEntry>, deps: seq<(string, string)>,
                    tail: seq<string>)
    requires Named(names, entries)
    ensures Layout(Header + RewriteArgs(names, entries) + DepsRewriteArgs(deps) + tail + ["."], names, entries, deps)
  {
    var rewrites := RewriteArgs(names, entries);
    var depArgs := DepsRewriteArgs(deps);
    var args := Header + rewrites + depArgs + tail + ["."];
    assert args == Header + (rewrites + (depArgs + (tail + ["."])));
    assert |args| == |Header| + |names| + |deps| + |tail| + 1;
    assert args[..|Header|] == Header;
    assert args[|args| - 1] == ".";
    forall i | 0 <= i < |names|
      ensures args[|Header| + i] == RewriteArg(names[i], entries[names[i]].name.value)
    {
      assert args[|Header| + i] == rewrites[i];
    }
    forall i | 0 <= i < |deps|
      ensures args[|Header| + |names| + i] == RewriteArg(deps[i].0, deps[i].1)
    {
      assert args[|Header| + |names| + i] == depArgs[i];
    }
  }

  /** The list built by successive extensions is `Args`. */
  method BuildArgs(keys: seq<string>, entries: map<string, Naming.MappingEntry>, deps: seq<(string, string)>)
    returns (args: seq<string>)
    requires Named(keys, entries)
    ensures args == Args(keys, entries, deps)
  {
    SortedKeysNamed(keys, entries);
    args := ["pom2bp"];
    args := args + ["-sdk-version", "31"];
    args := args + ["-default-min-sdk-version", "24"];
    args := args + ["-static-deps"];
    assert args == Header;
    var rewriteNames := RewriteNames(keys);
    args := args + RewriteArgs(rewriteNames, entries);
    args := args + DepsRewriteArgs(deps);
    ghost var front := args;
    var extra := LibsArgs(ExtraStaticLibs, keys, entries);
    args := args + extra;
    var optional := LibsArgs(OptionalUsesLibs, keys, entries);
    args := args + optional;
    var host := FlagArgs(Host, keys, entries);
    args := args + host;
    var hostAndDevice := FlagArgs(HostAndDevice, keys, entries);
    args := args + hostAndDevice;
    Regroup(front, extra, optional, host, hostAndDevice);
    args := args + ["."];
  }

  /** Extending by four parts in turn is extending by the four together. */
  lemma Regroup(front: seq<string>, a: seq<string>, b: seq<string>, c: seq<string>, d: seq<string>)
    ensures front + a + b + c + d == front + (a + b + c + d)
  {
  }
}
