/** The string lists of czmq as the program uses them: they own copies of their items and hold a cursor. */
module ZLists {
  import opened Bytes

  class ZList {
    var items: seq<bytes>
    /** Position of the cursor; behind the last item it is off the list. */
    var cursor: nat

    constructor ()
      ensures items == []
    {
      items, cursor := [], 0;
    }

    /** zlist_push: a copy of s in front. */
    method Push(s: bytes)
      modifies this
      ensures items == [s] + old(items)
    {
      items := [s] + items;
      cursor := 0;
    }

    /** zlist_append: a copy of s at the end. */
    method Append(s: bytes)
      modifies this
      ensures items == old(items) + [s]
    {
      items := items + [s];
      cursor := 0;
    }

    method Purge()
      modifies this
      ensures items == []
    {
      items, cursor := [], 0;
    }

    /** zlist_first: the first item, or nothing. */
    method First() returns (found: bool, s: bytes)
      modifies this`cursor
      ensures cursor == 0 && found == (items != []) && (found ==> s == items[0])
    {
      cursor := 0;
      found := items != [];
      s := if found then items[0] else [];
    }

    /** zlist_next: the item behind the cursor, or nothing. */
    method Next() returns (found: bool, s: bytes)
      requires cursor < |items|
      modifies this`cursor
      ensures cursor == old(cursor) + 1 && found == (cursor < |items|) && (found ==> s == items[cursor])
    {
      cursor := cursor + 1;
      found := cursor < |items|;
      s := if found then items[cursor] else [];
    }
  }

  /** is_equal_lists: equal items, but never for an empty list. */
  method IsEqualLists(l1: ZList, l2: ZList) returns (same: bool)
    requires l1 != l2
    modifies l1`cursor, l2`cursor
    ensures same <==> l1.items == l2.items && l1.items != []
  {
    if |l1.items| == 0 || |l2.items| == 0 {
      return false;
    }
    if |l1.items| != |l2.items| {
      return false;
    }
    var found1, str1 := l1.First();
    var found2, str2 := l2.First();
    while found1 && found2
      invariant l1.cursor == l2.cursor <= |l1.items| == |l2.items|
      invariant found1 == found2 == (l1.cursor < |l1.items|)
      invariant found1 ==> str1 == l1.items[l1.cursor] && str2 == l2.items[l2.cursor]
      invariant l1.items[..l1.cursor] == l2.items[..l1.cursor]
      decreases |l1.items| - l1.cursor
    {
      if str1 != str2 {
        return false;
      }
      found1, str1 := l1.Next();
      found2, str2 := l2.Next();
    }
    assert l1.items[..l1.cursor] == l1.items && l2.items[..l1.cursor] == l2.items;
    same := !found1 && !found2;
  }

  /** copy_list: dest gets copies of source's items, whatever it held. */
  method CopyList(source: ZList, dest: ZList)
    requires source != dest
    modifies source`cursor, dest
    ensures dest.items == source.items
  {
    dest.Purge();
    var found, str := source.First();
    while found
      invariant source.cursor <= |source.items| && found == (source.cursor < |source.items|)
      invariant found ==> str == source.items[source.cursor]
      invariant dest.items == source.items[..source.cursor]
      decreases |source.items| - source.cursor
    {
      dest.Append(str);
      found, str := source.Next();
    }
    assert source.items[..source.cursor] == source.items;
  }
}
