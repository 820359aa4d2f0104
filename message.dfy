/**
 * The helper that assembles the component list of the commit message:
 * `append(text, more)` puts `", "` between the two when the first is a
 * non-empty string, and otherwise yields the second alone.
 */
module CommitMessage {
  import opened Wrappers
  import Strings

  /** Truth value of an optional string: present and non-empty. */
  predicate Truthy(text: Option<string>)
  {
    text.Some? && text.value != ""
  }

  /** `append(text, more_text)` */
  function Append(text: Option<string>, moreText: string): (r: string)
    ensures |r| >= |moreText| && r[|r| - |moreText|..] == moreText
    ensures Truthy(text) ==> |r| == |text.value| + 2 + |moreText| && r[..|text.value|] == text.value
    ensures !Truthy(text) ==> r == moreText
  {
    if Truthy(text) then text.value + ", " + moreText else moreText
  }

  /** The running result of appending each item in turn, starting from `None`. */
  function AppendAll(items: seq<string>): Option<string>
  {
    if items == [] then None
    else Some(Append(AppendAll(items[..|items| - 1]), items[|items| - 1]))
  }

  /** The items from the first non-empty one on. */
  function DropLeadingEmpty(items: seq<string>): (r: seq<string>)
    ensures r != [] ==> r[0] != ""
    ensures |r| <= |items|
  {
    if items == [] then []
    else if items[0] == "" then DropLeadingEmpty(items[1..])
    else items
  }

  lemma {:induction false} DropLeadingEmptySnoc(items: seq<string>, x: string)
    ensures DropLeadingEmpty(items + [x])
         == if DropLeadingEmpty(items) == [] then (if x == "" then [] else [x]) else DropLeadingEmpty(items) + [x]
  {
    if items == [] {
      assert items + [x] == [x];
      assert DropLeadingEmpty([x]) == if x == "" then DropLeadingEmpty([x][1..]) else [x];
    } else if items[0] == "" {
      assert (items + [x])[0] == "" && (items + [x])[1..] == items[1..] + [x];
      assert DropLeadingEmpty(items + [x]) == DropLeadingEmpty(items[1..] + [x]);
      assert DropLeadingEmpty(items) == DropLeadingEmpty(items[1..]);
      DropLeadingEmptySnoc(items[1..], x);
    } else {
      assert (items + [x])[0] != "";
      assert DropLeadingEmpty(items + [x]) == items + [x];
      assert DropLeadingEmpty(items) == items;
    }
  }

  /**
   * Appending items one after another gives them joined with `", "`,
   * except that empty items at the front leave no separator behind.
   */
  lemma {:induction false} AppendAllJoins(items: seq<string>)
    requires items != []
    ensures AppendAll(items) == Some(Strings.Join(DropLeadingEmpty(items), ", "))
  {
    var init, x := items[..|items| - 1], items[|items| - 1];
    assert items == init + [x];
    DropLeadingEmptySnoc(init, x);
    var d := DropLeadingEmpty(init);
    if init != [] {
      AppendAllJoins(init);
    }
    if d != [] {
      Strings.JoinSnoc(d, x, ", ");
      assert init != [];
      assert Truthy(AppendAll(init)) by {
        assert d[0] <= Strings.Join(d, ", ");
      }
    } else {
      assert !Truthy(AppendAll(init));
    }
  }
}
