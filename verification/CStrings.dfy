/** C strings in fixed buffers, and the order strcmp puts them in. */
module CStrings {
  import opened Bytes
  import opened Sequences
  import opened HashBuckets
  import opened StableSort

  /** The string at the start of a buffer. */
  function CStr(buf: bytes): (s: bytes)
    ensures 0 !in s && |s| <= |buf| && s == buf[..|s|] && (|s| < |buf| ==> buf[|s|] == 0)
  {
    if buf == [] || buf[0] == 0 then [] else [buf[0]] + CStr(buf[1..])
  }

  lemma {:induction false} CStrOf(s: bytes, rest: bytes)
    requires 0 !in s
    ensures CStr(s + [0] + rest) == s
  {
    if s != [] {
      assert (s + [0] + rest)[1..] == s[1..] + [0] + rest;
      CStrOf(s[1..], rest);
    }
  }

  /** strcpy: the bytes behind the NUL stay as they were. */
  method StrCpy(buf: array<byte>, s: bytes)
    requires |s| < buf.Length && 0 !in s
    modifies buf
    ensures buf[..] == s + [0] + old(buf[|s| + 1..]) && CStr(buf[..]) == s
  {
    var i := 0;
    while i < |s|
      invariant 0 <= i <= |s| && buf[..i] == s[..i] && buf[i..] == old(buf[i..])
    {
      buf[i] := s[i];
      i := i + 1;
    }
    buf[i] := 0;
    assert buf[..] == s + [0] + old(buf[|s| + 1..]);
    CStrOf(s, old(buf[|s| + 1..]));
  }

  function StrCmp(a: Key, b: Key): int {
    if a == [] && b == [] then 0
    else if a == [] then -1
    else if b == [] then 1
    else if a[0] != b[0] then a[0] - b[0]
    else StrCmp(a[1..], b[1..])
  }

  /** The first string comes before the second. */
  ghost predicate Before(a: Key, b: Key) {
    StrCmp(a, b) < 0
  }

  /** It does if it ends first, or has the smaller byte where they first differ. */
  lemma {:induction false} BeforeMeans(a: Key, b: Key)
    ensures Before(a, b) <==>
              exists i {:trigger a[..i]} | 0 <= i <= |a| && i <= |b| ::
                a[..i] == b[..i] && (if i < |a| then i < |b| && a[i] < b[i] else i < |b|)
  {
    if a != [] && b != [] && a[0] == b[0] {
      var a', b' := a[1..], b[1..];
      BeforeMeans(a', b');
      if i :| 0 <= i <= |a'| && i <= |b'| && a'[..i] == b'[..i] &&
              (if i < |a'| then i < |b'| && a'[i] < b'[i] else i < |b'|) {
        assert a[..i + 1] == [a[0]] + a'[..i] && b[..i + 1] == [b[0]] + b'[..i];
      }
      if i :| 0 <= i <= |a| && i <= |b| && a[..i] == b[..i] && (if i < |a| then i < |b| && a[i] < b[i] else i < |b|) {
        assert i > 0;
        assert a'[..i - 1] == a[..i][1..] && b'[..i - 1] == b[..i][1..];
      }
    } else {
      assert a[..0] == b[..0];
      assert forall i | 0 < i <= |a| && i <= |b| :: a[..i][0] == a[0] && b[..i][0] == b[0];
    }
  }

  lemma {:induction false} StrCmpSigns(a: Key, b: Key)
    ensures StrCmp(a, b) == 0 <==> a == b
    ensures StrCmp(a, b) < 0 <==> StrCmp(b, a) > 0
  {
    if a != [] && b != [] && a[0] == b[0] {
      StrCmpSigns(a[1..], b[1..]);
      assert a == [a[0]] + a[1..] && b == [b[0]] + b[1..];
    }
  }

  lemma {:induction false} StrCmpChains(a: Key, b: Key, c: Key)
    requires StrCmp(a, b) <= 0 && StrCmp(b, c) <= 0
    ensures StrCmp(a, c) <= 0
  {
    if a != [] && b != [] && c != [] && a[0] == b[0] == c[0] {
      StrCmpChains(a[1..], b[1..], c[1..]);
    }
  }

  /** strcmp orders all strings totally, with ties between equal strings only. */
  lemma StrCmpIsTotal()
    ensures TotalPreorder(StrCmp)
    ensures forall a, b :: StrCmp(a, b) <= 0 && StrCmp(b, a) <= 0 ==> a == b
  {
    forall a, b
      ensures StrCmp(a, b) <= 0 || StrCmp(b, a) <= 0
      ensures StrCmp(a, b) <= 0 && StrCmp(b, a) <= 0 ==> a == b
    {
      StrCmpSigns(a, b);
    }
    forall a, b, c | StrCmp(a, b) <= 0 && StrCmp(b, c) <= 0
      ensures StrCmp(a, c) <= 0
    {
      StrCmpChains(a, b, c);
    }
  }

  // ------------------------------------------------------------------ sorted keys

  ghost function Keys<V>(s: seq<Handle<V>>): (r: seq<Key>)
    ensures |r| == |s|
  {
    seq(|s|, i requires 0 <= i < |s| => s[i].key)
  }

  ghost function KeySet<V>(s: seq<Handle<V>>): set<Key> {
    Elems(Keys(s))
  }

  /** In strictly ascending order. */
  ghost predicate Ascending(s: seq<Key>) {
    forall i, j | 0 <= i < j < |s| :: StrCmp(s[i], s[j]) < 0
  }

  lemma AscendingMeans(s: seq<Key>)
    ensures Ascending(s) <==> forall i, j | 0 <= i < j < |s| :: Before(s[i], s[j])
  {
  }

  lemma AscendingAt(s: seq<Key>, i: nat, j: nat)
    requires Ascending(s) && i < j < |s|
    ensures Before(s[i], s[j])
  {
  }

  /** An ascending list is determined by its elements. */
  lemma {:induction false} AscendingIsUnique(s: seq<Key>, t: seq<Key>)
    requires Ascending(s) && Ascending(t) && Elems(s) == Elems(t)
    ensures s == t
  {
    hide Ascending, StrCmp;
    InElems(s);
    InElems(t);
    if s != [] && t != [] {
      LeastIsFirst(s, t);
      TailElements(s);
      TailElements(t);
      AscendingIsUnique(s[1..], t[1..]);
      assert s == [s[0]] + s[1..] && t == [t[0]] + t[1..];
    }
  }

  lemma InElems(s: seq<Key>)
    ensures forall i | 0 <= i < |s| :: s[i] in Elems(s)
    ensures forall k | k in Elems(s) :: k in s
    ensures s == [] <==> Elems(s) == {}
  {
    if s != [] {
      assert s[0] in Elems(s);
    }
  }

  lemma LeastIsFirst(s: seq<Key>, t: seq<Key>)
    requires Ascending(s) && Ascending(t) && Elems(s) == Elems(t) && s != [] && t != []
    ensures s[0] == t[0]
  {
    assert s[0] in Elems(t) && t[0] in Elems(s);
    var i :| 0 <= i < |s| && s[i] == t[0];
    var j :| 0 <= j < |t| && t[j] == s[0];
    StrCmpSigns(s[0], t[0]);
  }

  lemma TailElements(s: seq<Key>)
    requires Ascending(s) && s != []
    ensures Ascending(s[1..]) && Elems(s[1..]) == Elems(s) - {s[0]}
  {
    StrCmpSigns(s[0], s[0]);
    forall k | k in s && k != s[0]
      ensures k in s[1..]
    {
      var i :| 0 <= i < |s| && s[i] == k;
      assert s[1..][i - 1] == k;
    }
  }

  /** Sorting elements with different keys by strcmp gives them in strictly ascending order. */
  lemma SortedIsAscending<V>(s: seq<Handle<V>>)
    requires forall i, j | 0 <= i < j < |s| :: s[i].key != s[j].key
    requires Sorted(s, StrCmp)
    ensures Ascending(Keys(s))
  {
    forall i, j | 0 <= i < j < |s|
      ensures StrCmp(s[i].key, s[j].key) < 0
    {
      StrCmpSigns(s[i].key, s[j].key);
    }
  }
}
