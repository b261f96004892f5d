/**
 * Tag editing in the add-task and edit-task forms: pressing Enter in the tag
 * box appends the trimmed text when it is non-empty and not yet selected;
 * a tag's remove button filters that value out of the selection.
 */
module Tags {

  /** WhiteSpace and LineTerminator code points, the characters String.prototype.trim strips. */
  predicate IsTrimmable(c: char) {
    || c == '\t' || c == '\U{B}' || c == '\U{C}' || c == '\U{FEFF}'
    || c == ' ' || c == '\U{A0}' || c == '\U{1680}' || ('\U{2000}' <= c <= '\U{200A}')
    || c == '\U{202F}' || c == '\U{205F}' || c == '\U{3000}'
    || c == '\n' || c == '\r' || c == '\U{2028}' || c == '\U{2029}'
  }

  /** The number of whitespace characters at the front of s. */
  function LeadingSpace(s: string): (n: nat)
    ensures n <= |s|
    ensures forall k :: 0 <= k < n ==> IsTrimmable(s[k])
    ensures n == |s| || !IsTrimmable(s[n])
  {
    if s != [] && IsTrimmable(s[0]) then 1 + LeadingSpace(s[1..]) else 0
  }

  function TrimEnd(s: string): (r: string)
    ensures |r| <= |s| && r == s[..|r|]
    ensures forall k :: |r| <= k < |s| ==> IsTrimmable(s[k])
    ensures r == [] || !IsTrimmable(r[|r| - 1])
  {
    if s != [] && IsTrimmable(s[|s| - 1]) then TrimEnd(s[..|s| - 1]) else s
  }

  /**
   * String.prototype.trim: the slice of s left after cutting whitespace from
   * both ends; it neither starts nor ends with whitespace, and everything cut
   * off is whitespace.
   */
  function Trim(s: string): (r: string)
    ensures LeadingSpace(s) + |r| <= |s|
    ensures r == s[LeadingSpace(s)..LeadingSpace(s) + |r|]
    ensures forall k :: LeadingSpace(s) + |r| <= k < |s| ==> IsTrimmable(s[k])
    ensures r == [] || (!IsTrimmable(r[0]) && !IsTrimmable(r[|r| - 1]))
  {
    var lo := LeadingSpace(s);
    var r := TrimEnd(s[lo..]);
    assert forall k :: lo + |r| <= k < |s| ==> s[k] == s[lo..][k - lo];
    r
  }

  predicate NoDuplicates(tags: seq<string>) {
    forall i, j :: 0 <= i < j < |tags| ==> tags[i] != tags[j]
  }

  /** The selection after pressing Enter with `input` in the tag box. */
  function WithTag(tags: seq<string>, input: string): (r: seq<string>)
    ensures |tags| <= |r| <= |tags| + 1 && r[..|tags|] == tags
    ensures |r| == |tags| + 1 <==> Trim(input) != "" && Trim(input) !in tags
    ensures |r| == |tags| + 1 ==> r[|tags|] == Trim(input)
    ensures Trim(input) != "" ==> Trim(input) in r
    ensures NoDuplicates(tags) ==> NoDuplicates(r)
  {
    var tag := Trim(input);
    if tag != "" && tag !in tags then tags + [tag] else tags
  }

  /** tags.filter(t => t !== tag) */
  function WithoutTag(tags: seq<string>, tag: string): (r: seq<string>)
    ensures tag !in r
    ensures forall x :: x != tag ==> multiset(r)[x] == multiset(tags)[x]
    ensures NoDuplicates(tags) ==> NoDuplicates(r)
  {
    if tags == [] then []
    else
      assert tags == [tags[0]] + tags[1..];
      var rest := WithoutTag(tags[1..], tag);
      assert NoDuplicates(tags) ==> NoDuplicates(tags[1..]) && tags[0] !in tags[1..];
      assert tags[0] != tag && tags[0] !in tags[1..] ==> tags[0] !in rest by {
        if tags[0] != tag && tags[0] !in tags[1..] {
          assert multiset(rest)[tags[0]] == multiset(tags[1..])[tags[0]] == 0;
        }
      }
      (if tags[0] != tag then [tags[0]] else []) + rest
  }

  /** Removing an absent tag changes nothing. */
  lemma {:induction false} WithoutAbsentTag(tags: seq<string>, tag: string)
    requires tag !in tags
    ensures WithoutTag(tags, tag) == tags
  {
    if tags != [] {
      WithoutAbsentTag(tags[1..], tag);
      assert tags == [tags[0]] + tags[1..];
    }
  }

  /**
   * In a list without duplicates, removing the tag at position i deletes
   * exactly that entry and keeps the others in their original order.
   */
  lemma {:induction false} WithoutUniqueTag(tags: seq<string>, i: nat)
    requires NoDuplicates(tags) && i < |tags|
    ensures WithoutTag(tags, tags[i]) == tags[..i] + tags[i + 1..]
  {
    if i == 0 {
      assert tags[0] !in tags[1..];
      WithoutAbsentTag(tags[1..], tags[0]);
    } else {
      assert NoDuplicates(tags[1..]);
      WithoutUniqueTag(tags[1..], i - 1);
      assert tags[1..][i - 1] == tags[i];
      assert tags[..i] == [tags[0]] + tags[1..][..i - 1];
      assert tags[i + 1..] == tags[1..][i..];
    }
  }

  /** Removal undoes an accepted addition. */
  lemma AddThenRemove(tags: seq<string>, input: string)
    requires Trim(input) != "" && Trim(input) !in tags
    ensures WithoutTag(WithTag(tags, input), Trim(input)) == tags
  {
    var r := WithTag(tags, input);
    assert r == tags + [Trim(input)];
    WithoutAbsentTag(tags, Trim(input));
    WithoutTagAppend(tags, [Trim(input)], Trim(input));
  }

  lemma {:induction false} WithoutTagAppend(a: seq<string>, b: seq<string>, tag: string)
    ensures WithoutTag(a + b, tag) == WithoutTag(a, tag) + WithoutTag(b, tag)
  {
    if a == [] {
      assert a + b == b;
    } else {
      var head := if a[0] != tag then [a[0]] else [];
      calc {
        WithoutTag(a + b, tag);
        { assert (a + b)[0] == a[0] && (a + b)[1..] == a[1..] + b; }
        head + WithoutTag(a[1..] + b, tag);
        { WithoutTagAppend(a[1..], b, tag); }
        head + (WithoutTag(a[1..], tag) + WithoutTag(b, tag));
        (head + WithoutTag(a[1..], tag)) + WithoutTag(b, tag);
        WithoutTag(a, tag) + WithoutTag(b, tag);
      }
    }
  }

  /**
   * The tag selection of one form (selectedTags of the add form,
   * editSelectedTags of the edit form) and the text in its tag box.
   */
  class TagEditor {
    var tags: seq<string>
    var input: string

    constructor ()
      ensures tags == [] && input == ""
    {
      tags := [];
      input := "";
    }

    /** Opening the details of a task copies its tags into the selection. */
    method Load(taskTags: seq<string>)
      modifies this
      ensures tags == taskTags && input == old(input)
    {
      tags := taskTags;
    }

    /**
     * Closing a form, or a successful add, resets the form (which empties
     * its tag box) and empties the selection.
     */
    method Clear()
      modifies this
      ensures tags == [] && input == ""
    {
      tags := [];
      input := "";
    }

    method Type(text: string)
      modifies this
      ensures input == text && tags == old(tags)
    {
      input := text;
    }

    /**
     * A keydown in the tag box.  Only Enter acts: it appends the trimmed
     * text when it is non-empty and not yet selected, and then clears the box.
     */
    method KeyDown(key: string) returns (accepted: bool)
      modifies this
      ensures accepted <==> key == "Enter" && Trim(old(input)) != "" && Trim(old(input)) !in old(tags)
      ensures tags == if key == "Enter" then WithTag(old(tags), old(input)) else old(tags)
      ensures input == if accepted then "" else old(input)
      ensures NoDuplicates(old(tags)) ==> NoDuplicates(tags)
    {
      accepted := false;
      if key == "Enter" {
        var tag := Trim(input);
        if tag != "" && tag !in tags {
          tags := tags + [tag];
          input := "";
          accepted := true;
        }
      }
    }

    /** The remove button beside a selected tag. */
    method Remove(tag: string)
      modifies this
      ensures tags == WithoutTag(old(tags), tag) && input == old(input)
      ensures NoDuplicates(old(tags)) ==> NoDuplicates(tags)
    {
      tags := WithoutTag(tags, tag);
    }
  }
}
