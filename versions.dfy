/**
 * Version comparison for "latest wins" selection. The script compares
 * `LooseVersion` objects from a library that is not part of this model;
 * selection is therefore stated for any transitive "strictly greater"
 * relation, and `Greater` below is a simple comparator of that kind that
 * compares the numeric components of two version strings.
 */
module Versions {
  import Strings

  /** What latest-wins selection relies on: "strictly greater" is irreflexive and transitive. */
  ghost predicate StrictOrder(gt: (string, string) -> bool)
  {
    && (forall a :: !gt(a, a))
    && (forall a, b, c :: gt(a, b) && gt(b, c) ==> gt(a, c))
  }

  /** Length of the run of digits at the start of `s`. */
  function DigitRun(s: string): (n: nat)
    ensures n <= |s|
    ensures forall i :: 0 <= i < n ==> Strings.IsDigit(s[i])
    ensures n < |s| ==> !Strings.IsDigit(s[n])
  {
    if s == [] || !Strings.IsDigit(s[0]) then 0 else 1 + DigitRun(s[1..])
  }

  /** The value of a string of decimal digits. */
  function DecimalValue(digits: string): nat
  {
    if digits == [] then 0
    else
      var last := digits[|digits| - 1];
      10 * DecimalValue(digits[..|digits| - 1]) + (if Strings.IsDigit(last) then last as int - '0' as int else 0)
  }

  /** The numeric components of a version string, in order: `"1.10.0-beta02"` gives `[1, 10, 0, 2]`. */
  function Components(v: string): seq<nat>
    decreases |v|
  {
    if v == [] then []
    else if Strings.IsDigit(v[0]) then
      var n := DigitRun(v);
      [DecimalValue(v[..n])] + Components(v[n..])
    else Components(v[1..])
  }

  /** Lexicographic order on component lists; a proper prefix is smaller. */
  predicate LexLess(a: seq<nat>, b: seq<nat>)
  {
    if a == [] then b != []
    else b != [] && (a[0] < b[0] || (a[0] == b[0] && LexLess(a[1..], b[1..])))
  }

  /** `a` is a strictly later version than `b`. */
  predicate Greater(a: string, b: string)
  {
    LexLess(Components(b), Components(a))
  }

  lemma {:induction false} LexLessIrreflexive(a: seq<nat>)
    ensures !LexLess(a, a)
  {
    if a != [] { LexLessIrreflexive(a[1..]); }
  }

  lemma {:induction false} LexLessTransitive(a: seq<nat>, b: seq<nat>, c: seq<nat>)
    requires LexLess(a, b) && LexLess(b, c)
    ensures LexLess(a, c)
  {
    if a != [] && a[0] == b[0] && b[0] == c[0] {
      LexLessTransitive(a[1..], b[1..], c[1..]);
    }
  }

  lemma {:induction false} LexLessTotal(a: seq<nat>, b: seq<nat>)
    requires a != b
    ensures LexLess(a, b) || LexLess(b, a)
  {
    if a != [] && b != [] && a[0] == b[0] {
      assert a == [a[0]] + a[1..] && b == [b[0]] + b[1..];
      LexLessTotal(a[1..], b[1..]);
    }
  }

  /** `Greater` may be used as the comparator of latest-wins selection. */
  lemma GreaterIsStrictOrder()
    ensures StrictOrder(Greater)
  {
    forall a ensures !Greater(a, a) {
      LexLessIrreflexive(Components(a));
    }
    forall a, b, c | Greater(a, b) && Greater(b, c) ensures Greater(a, c) {
      LexLessTransitive(Components(c), Components(b), Components(a));
    }
  }

  /**
   * Two versions are either equal in all components (then neither is
   * greater) or exactly one of them is greater.
   */
  lemma GreaterTrichotomy(a: string, b: string)
    ensures Components(a) == Components(b) ==> !Greater(a, b) && !Greater(b, a)
    ensures Components(a) != Components(b) ==> Greater(a, b) != Greater(b, a)
  {
    LexLessIrreflexive(Components(a));
    if Components(a) != Components(b) {
      LexLessTotal(Components(a), Components(b));
      if Greater(a, b) && Greater(b, a) {
        LexLessTransitive(Components(a), Components(b), Components(a));
      }
    }
  }

  /**
   * Raising one component while keeping every earlier one gives a greater
   * version, whatever follows: `1.2.1` is later than `1.2.0`, and `1.3` than `1.2.9`.
   */
  lemma {:induction false} RaisingAComponent(prefix: seq<nat>, lo: nat, hi: nat, rest1: seq<nat>, rest2: seq<nat>)
    requires lo < hi
    ensures LexLess(prefix + [lo] + rest1, prefix + [hi] + rest2)
    decreases |prefix|
  {
    if prefix != [] {
      assert (prefix + [lo] + rest1)[1..] == prefix[1..] + [lo] + rest1;
      assert (prefix + [hi] + rest2)[1..] == prefix[1..] + [hi] + rest2;
      RaisingAComponent(prefix[1..], lo, hi, rest1, rest2);
    }
  }

  /** Appending components gives a greater version: `1.2.0.1` is later than `1.2.0`. */
  lemma {:induction false} ExtendingIsGreater(prefix: seq<nat>, more: seq<nat>)
    requires more != []
    ensures LexLess(prefix, prefix + more)
    decreases |prefix|
  {
    if prefix != [] {
      assert (prefix + more)[1..] == prefix[1..] + more;
      ExtendingIsGreater(prefix[1..], more);
    }
  }

  lemma ExampleVersions()
    ensures Components("1.2.0") == [1, 2, 0] && Components("1.2.1") == [1, 2, 1]
    ensures Greater("1.2.1", "1.2.0")
  {
    RaisingAComponent([1, 2], 0, 1, [], []);
  }
}
