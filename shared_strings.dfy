/**
 The workbook's shared-string table: cells hold an index into it instead of inline text, and
 `InsertSharedStringItem` (Translator.cs) finds a string or appends it, so that each string is
 stored once and keeps the index it was first given.
 */
module SharedStrings {
  import opened Wrappers

  /** The position of the first entry equal to `text`, if there is one. */
  function IndexOf(items: seq<string>, text: string): (r: Option<nat>)
    ensures r.None? <==> text !in items
    ensures r.Some? ==> r.value < |items| && items[r.value] == text && text !in items[..r.value]
  {
    if items == [] then None
    else if items[0] == text then Some(0)
    else match IndexOf(items[1..], text)
      case None => None
      case Some(k) =>
        assert items[..k + 1] == [items[0]] + items[1..][..k];
        Some(k + 1)
  }

  /** Every string occurs at most once. */
  predicate Distinct(items: seq<string>) {
    forall i, j :: 0 <= i < j < |items| ==> items[i] != items[j]
  }

  /** The table after a find-or-append, and the index handed back. */
  datatype Insertion = Insertion(items: seq<string>, index: nat)

  /**
   Find-or-append: the index of the first entry equal to `text`, with the table unchanged;
   otherwise `text` is appended and its index is the old length. Existing entries never move.
   */
  function FindOrAppend(items: seq<string>, text: string): (r: Insertion)
    ensures r.index < |r.items| && r.items[r.index] == text && text !in r.items[..r.index]
    ensures items <= r.items
    ensures text in items ==> r.items == items && r.index < |items|
    ensures text !in items ==> r.items == items + [text] && r.index == |items|
  {
    match IndexOf(items, text)
    case Some(i) => Insertion(items, i)
    case None => Insertion(items + [text], |items|)
  }

  /** Two entries equal to `text` that both come before every other copy are the same entry. */
  lemma FirstOccurrenceUnique(items: seq<string>, text: string, i: nat, j: nat)
    requires i < |items| && items[i] == text && text !in items[..i]
    requires j < |items| && items[j] == text && text !in items[..j]
    ensures i == j
  {
    assert forall k :: 0 <= k < i ==> items[..i][k] == items[k];
    assert forall k :: 0 <= k < j ==> items[..j][k] == items[k];
  }

  /** Inserting the same string twice: the second call returns the same index and changes nothing. */
  lemma FindOrAppendIdempotent(items: seq<string>, text: string)
    ensures var once := FindOrAppend(items, text);
            FindOrAppend(once.items, text) == once
  {
    var once := FindOrAppend(items, text);
    var twice := FindOrAppend(once.items, text);
    FirstOccurrenceUnique(once.items, text, once.index, twice.index);
  }

  /** A table without repeated strings stays without them. */
  lemma FindOrAppendKeepsDistinct(items: seq<string>, text: string)
    requires Distinct(items)
    ensures Distinct(FindOrAppend(items, text).items)
  {
    var r := FindOrAppend(items, text);
    if text !in items {
      forall i, j | 0 <= i < j < |r.items| ensures r.items[i] != r.items[j] {
        if j == |items| {
          assert r.items[i] == items[i];
        }
      }
    }
  }

  /** In a table without repeats, an entry is found at its own index. */
  lemma FindOrAppendOfPresent(items: seq<string>, k: nat)
    requires Distinct(items) && k < |items|
    ensures FindOrAppend(items, items[k]) == Insertion(items, k)
  {
    var r := FindOrAppend(items, items[k]);
    assert r.items == items;
  }

  /**
   The shared-string table of an open workbook. `InsertSharedStringItem` creates a missing table
   as an empty one; a table that is missing when a cell is read is not modelled.
   */
  class SharedStringTable {
    var items: seq<string>

    constructor (items: seq<string>)
      ensures this.items == items
    {
      this.items := items;
    }

    /** `InsertSharedStringItem`: a linear scan for `text`, appending it when the scan finds nothing. */
    method InsertSharedStringItem(text: string) returns (index: nat)
      modifies this
      ensures Insertion(items, index) == FindOrAppend(old(items), text)
    {
      var i := 0;
      while i < |items|
        invariant i <= |items| && items == old(items)
        invariant text !in items[..i]
      {
        if items[i] == text {
          FirstOccurrenceUnique(items, text, i, IndexOf(items, text).value);
          return i;
        }
        assert items[..i + 1] == items[..i] + [items[i]];
        i := i + 1;
      }
      assert items[..i] == items;
      items := items + [text];
      index := i;
    }
  }
}
