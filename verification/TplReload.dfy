/** What a load that failed leaves behind, and what that does to the next one. */
module TplReload {
  import opened Bytes
  import opened Sequences
  import opened TplWords
  import opened TplFormat
  import opened TplCodec
  import opened TplNodes
  import opened TplImage
  import opened TplMaps

  /**
   A rejected buffer of the other byte order leaves its mark on the map: a buffer of this machine's own
   order is then checked in the wrong one, and taken exactly if it passes the checks in that.
   */
  method LoadAfterFailure(r: TplMap, bad: bytes, good: bytes, excess_ok: bool) returns (rc: int)
    requires r.Valid() && CurrentStrings(r.fmt, bad) && CurrentStrings(r.fmt, good)
    requires Foreign(bad, r.big) && !Accepted(r.fmt, bad, r.big, excess_ok)
    requires !CutOff(r.fmt, bad, Order(r.big, true), excess_ok)
    requires AcceptedIn(r.fmt, good, Order(r.big, true), excess_ok) ==> Accepted(r.fmt, good, r.big, excess_ok)
    modifies r
    modifies r.root.repr`iternum, r.root.repr`serOsz, r.root.repr`num, r.root.repr`bb, r.root.repr`cur, r.root.repr`data
    ensures rc == if AcceptedIn(r.fmt, good, Order(r.big, true), excess_ok) then 0 else -1
  {
    hide TplMap.Valid, TplMap.Fit, AcceptedIn, Accepted, CutOff, SmallCounts;
    r.ValidIsFit();
    rc := r.Load(bad, excess_ok);
    assert r.Ord() == Order(r.big, true);
    rc := r.Load(good, excess_ok);
  }

  /** So a good image is then rejected, unless its size is the same number in both byte orders. */
  lemma SwappedSize(f: Fmt, img: bytes, big: bool)
    requires WfFmt(f) && Accepted(f, img, big, false) && AcceptedIn(f, img, Order(big, true), false)
    requires !Foreign(img, big)
    ensures img[4..8] == Reversed(img[4..8])
  {
    hide GetU32, PutU32, ParseRest, FxBytes, Reversed;
    U32Inverse(|img|, img[4..8], big);
    U32Inverse(|img|, img[4..8], !big);
    OtherOrder(|img|, big);
  }

  const BYTE := Fmt([99], [], Ary([Atom(1, 1)]))
  /** Nine bytes that a little-endian machine rejects, and the image of one character that it then rejects, too. */
  const BAD: bytes := [116, 112, 108, 1, 0, 0, 0, 0, 0]
  const GOOD: bytes := [116, 112, 108, 0, 11, 0, 0, 0, 99, 0, 7]

  lemma FailureSticks()
    ensures WfFmt(BYTE) && Foreign(BAD, false) && !Accepted(BYTE, BAD, false, false)
    ensures !CutOff(BYTE, BAD, Order(false, true), false)
    ensures Accepted(BYTE, GOOD, false, false) && !AcceptedIn(BYTE, GOOD, Order(false, true), false)
  {
    ByteFmtOk();
    SizesRead();
    hide WfFmt, GetU32;
    var o := Order(false, false);
    assert GOOD[..3] == MAGIC && GOOD[8..10] == BYTE.text + [0] && GOOD[10..10] == [];
    ParseRestField(Kids(BYTE), 0, 0, GOOD, 10, o, Signed);
    ParseRestEnds(Kids(BYTE), 0, GOOD, 11, o, Signed);
  }

  lemma ByteFmtOk()
    ensures WfFmt(BYTE) && !UsesStrings(BYTE.root) && Kids(BYTE) == [Atom(1, 1)] && DataStart(BYTE) == 10
  {
    assert WfShape(Atom(1, 1)) && forall k | k in [Atom(1, 1)] :: k == Atom(1, 1);
    assert Octothorpes([99]) == 0;
  }

  lemma SizesRead()
    ensures GetU32(BAD[4..8], true) == 0 && GetU32(GOOD[4..8], false) == 11
    ensures GetU32(GOOD[4..8], true) == 11 * 0x100_0000
  {
    assert BAD[4..8] == [0, 0, 0, 0] && GOOD[4..8] == [11, 0, 0, 0];
    assert Reversed<byte>([11, 0, 0, 0]) == [0, 0, 0, 11];
  }
}
