/** What a membership message says: the format c#c#A(c#) with sender's UUID, sender's address and member slots. */
module GroupMessage {
  import opened Bytes
  import opened TplWords
  import opened TplFormat
  import opened TplCodec
  import opened TplPack
  import opened TplImage
  import opened TplMirror
  import opened CStrings

  const ZUUID_LEN: nat := 16
  const MAX_SIZE_IP_ADDRESS_STRING: nat := 16
  const SLOT: Shape := Atom(1, 16)
  const GROUP: Shape := Ary([SLOT])
  /** c#c#A(c#) */
  const GROUP_FMT: Fmt := Fmt([99, 35, 99, 35, 65, 40, 99, 35, 41], [16, 16, 16], Ary([SLOT, SLOT, GROUP]))

  lemma GroupFmtOk()
    ensures WfFmt(GROUP_FMT) && !UsesStrings(GROUP_FMT.root) && DataStart(GROUP_FMT) == 30
    ensures WfKids([SLOT]) && InWalk([SLOT], 0, 0) && WfShape(GROUP)
  {
    hide Octothorpes;
    GroupShapeOk();
    GroupOctothorpes();
  }

  lemma GroupShapeOk()
    ensures WfShape(GROUP) && WfShape(GROUP_FMT.root) && !UsesStrings(GROUP_FMT.root)
  {
    assert WfShape(SLOT) && !UsesStrings(SLOT);
    assert WfLevel([SLOT]);
    assert forall k | k in [SLOT] :: k == SLOT;
    assert WfShape(GROUP);
    var ns := GROUP_FMT.root.kids;
    assert forall k | k in ns :: k == SLOT || k == GROUP;
    assert forall k | k in [SLOT] :: !UsesStrings(k);
    assert !UsesStrings(GROUP);
  }

  lemma GroupOctothorpes()
    ensures Octothorpes(GROUP_FMT.text) == 3
  {
    var t := GROUP_FMT.text;
    OctothorpesOf(t, 8);
    OctothorpesOf(t, 7);
    OctothorpesOf(t, 6);
    OctothorpesOf(t, 5);
    OctothorpesOf(t, 4);
    OctothorpesOf(t, 3);
    OctothorpesOf(t, 2);
    OctothorpesOf(t, 1);
    OctothorpesOf(t, 0);
    assert t[0..] == t;
  }

  lemma OctothorpesOf(t: bytes, i: nat)
    requires i < |t|
    ensures Octothorpes(t[i..]) == (if t[i] == OCTOTHORPE then 1 else 0) + Octothorpes(t[i + 1..])
    ensures i + 1 == |t| ==> Octothorpes(t[i + 1..]) == 0
  {
    assert t[i..][1..] == t[i + 1..];
  }

  /** Which slots the root and an array element have. */
  lemma GroupSlots()
    ensures WfKids(GROUP_FMT.root.kids) && WfKids([SLOT])
    ensures forall c | 0 <= c < 3 :: SlotCount(GROUP_FMT.root.kids, c) == 1
    ensures SlotCount([SLOT], 0) == 1
    ensures InWalk([SLOT], 0, 0) && Rest([SLOT], 0, 0) == [(0, 0)]
    ensures InWalk(GROUP_FMT.root.kids, 0, 0) && Rest(GROUP_FMT.root.kids, 0, 0) == [(0, 0), (1, 0), (2, 0)]
  {
    hide WfFmt, UsesStrings;
    GroupFmtOk();
    GroupShapeOk();
    var ns := GROUP_FMT.root.kids;
    assert NextPound(ns, 3) == 3 && NextPound(ns, 2) == 3 && NextPound(ns, 1) == 3 && NextPound(ns, 0) == 3;
    assert NextPound([SLOT], 1) == 1 && NextPound([SLOT], 0) == 1;
    assert Rest(ns, 3, 0) == [] && Rest(ns, 2, 0) == [(2, 0)] && Rest(ns, 1, 0) == [(1, 0), (2, 0)];
    assert Rest([SLOT], 1, 0) == [];
  }

  ghost predicate SlotRec(rec: Record) {
    |rec| == 1 && rec[0].Raw? && |rec[0].bs| == MAX_SIZE_IP_ADDRESS_STRING
  }

  lemma {:induction false} SlotRecsTyped(recs: seq<Record>)
    requires WfKids([SLOT])
    ensures TypedRecs([SLOT], recs) <==> forall i | 0 <= i < |recs| :: SlotRec(recs[i])
  {
    GroupSlots();
    if recs != [] {
      WalkIsOk([SLOT]);
      SlotRecTyped(recs[0]);
      SlotRecsTyped(recs[1..]);
    }
  }

  lemma SlotRecTyped(rec: Record)
    requires WfKids([SLOT]) && WalkOk([SLOT], Walk([SLOT]))
    ensures TypedRec([SLOT], Walk([SLOT]), rec) <==> SlotRec(rec)
  {
    GroupSlots();
    var w := Walk([SLOT]);
    assert w == [(0, 0)] && w[1..] == [];
    if |rec| == 1 {
      assert rec[1..] == [];
    }
  }

  /** A root content is a UUID, an address, and slots. */
  ghost predicate GroupContent(full: Slots) {
    && |full| == 3 && |full[0]| == |full[1]| == |full[2]| == 1
    && full[0][0].Raw? && |full[0][0].bs| == ZUUID_LEN
    && full[1][0].Raw? && |full[1][0].bs| == MAX_SIZE_IP_ADDRESS_STRING
    && full[2][0].Arr? && |full[2][0].recs| < TWO_31
    && forall i | 0 <= i < |full[2][0].recs| :: SlotRec(full[2][0].recs[i])
  }

  lemma ContentIsGroup(full: Slots)
    requires WfKids(GROUP_FMT.root.kids)
    ensures SlotsOk(GROUP_FMT.root.kids, full) <==> GroupContent(full)
  {
    hide TypedRecs, SlotRec, SlotCount;
    GroupSlots();
    if |full| == 3 && |full[2]| == 1 && full[2][0].Arr? {
      SlotRecsTyped(full[2][0].recs);
    }
    var ns := GROUP_FMT.root.kids;
    if SlotsOk(ns, full) {
      assert |full[0]| == 1 && |full[1]| == 1 && |full[2]| == 1;
      assert TypedCell(ns[0], full[0][0]) && TypedCell(ns[1], full[1][0]) && TypedCell(ns[2], full[2][0]);
    }
    if GroupContent(full) {
      assert TypedCell(ns[0], full[0][0]) && TypedCell(ns[1], full[1][0]) && TypedCell(ns[2], full[2][0]);
    }
  }

  /** Array counts below 2^31 in a buffer that the checks accept: then it can be read. */
  ghost predicate Sound(msg: bytes, big: bool) {
    GroupFmtOk();
    Accepted(GROUP_FMT, msg, big, false) ==> SmallCounts(GROUP_FMT, msg, big)
  }

  ghost predicate Decodable(msg: bytes, big: bool) {
    GroupFmtOk();
    Accepted(GROUP_FMT, msg, big, false) && SmallCounts(GROUP_FMT, msg, big)
  }

  lemma DecodableIsSound(msg: bytes, big: bool)
    requires Decodable(msg, big)
    ensures Sound(msg, big)
  {
  }

  ghost function ContentOf(msg: bytes, big: bool): (full: Slots)
    requires Decodable(msg, big)
    ensures GroupContent(full)
  {
    GroupFmtOk();
    AcceptedReadsToEnd(GROUP_FMT, msg, big, false, Strict);
    ContentIsGroup(Content(GROUP_FMT, msg, big));
    Content(GROUP_FMT, msg, big)
  }

  ghost function UuidOf(msg: bytes, big: bool): (r: bytes)
    requires Decodable(msg, big)
    ensures |r| == ZUUID_LEN
  {
    ContentOf(msg, big)[0][0].bs
  }

  /** The sender's address field. */
  ghost function SenderOf(msg: bytes, big: bool): (r: bytes)
    requires Decodable(msg, big)
    ensures |r| == MAX_SIZE_IP_ADDRESS_STRING
  {
    ContentOf(msg, big)[1][0].bs
  }

  ghost function SlotString(rec: Record): bytes {
    if SlotRec(rec) then CStr(rec[0].bs) else []
  }

  ghost function Strings(recs: seq<Record>): (r: seq<bytes>)
    ensures |r| == |recs|
  {
    seq(|recs|, i requires 0 <= i < |recs| => SlotString(recs[i]))
  }

  /** The member addresses, in the order of the message. */
  ghost function GroupOf(msg: bytes, big: bool): seq<bytes>
    requires Decodable(msg, big)
  {
    Strings(ContentOf(msg, big)[2][0].recs)
  }

  /** A message says the same on machines of either byte order. */
  lemma SameForAll(msg: bytes, big: bool)
    ensures Sound(msg, !big) <==> Sound(msg, big)
    ensures Decodable(msg, !big) <==> Decodable(msg, big)
    ensures Decodable(msg, big) ==>
              && UuidOf(msg, !big) == UuidOf(msg, big) && SenderOf(msg, !big) == SenderOf(msg, big)
              && GroupOf(msg, !big) == GroupOf(msg, big)
  {
    hide Accepted, SmallCounts, Content, WfFmt;
    GroupFmtOk();
    if |msg| >= MINSIZE {
      GroupBytewise();
      ImageAcross(GROUP_FMT, msg, big, false);
      if Decodable(msg, big) {
        AcceptedReadsToEnd(GROUP_FMT, msg, big, false, Strict);
      }
    } else {
      TooShort(msg, big);
      TooShort(msg, !big);
    }
  }

  lemma TooShort(msg: bytes, big: bool)
    requires |msg| < MINSIZE && WfFmt(GROUP_FMT)
    ensures !Accepted(GROUP_FMT, msg, big, false)
  {
  }

  lemma GroupBytewise()
    requires WfFmt(GROUP_FMT)
    ensures forall k | k in Kids(GROUP_FMT) :: Bytewise(k)
  {
    hide WfFmt;
    assert Bytewise(SLOT) && forall k | k in [SLOT] :: k == SLOT;
    assert forall k | k in Kids(GROUP_FMT) :: k == SLOT || k == GROUP;
  }

  /** An image of such content is a message that says it. */
  lemma GroupImageSays(full: Slots, big: bool)
    requires WfFmt(GROUP_FMT) && GroupContent(full)
    requires SlotsOk(Kids(GROUP_FMT), full) && ImageSize(GROUP_FMT, full, Order(big, false)) < TWO_32
    ensures var msg := Image(GROUP_FMT, full, Order(big, false));
            Decodable(msg, big) && ContentOf(msg, big) == full
  {
    ImageIsAccepted(GROUP_FMT, full, Order(big, false));
  }

  /** Its size: the preamble, the two fields, the count and 16 bytes for each member. */
  lemma GroupImageSize(full: Slots, o: Order)
    requires WfFmt(GROUP_FMT) && GroupContent(full) && SlotsOk(Kids(GROUP_FMT), full)
    ensures ImageSize(GROUP_FMT, full, o) == 66 + 16 * |full[2][0].recs|
  {
    hide PutU32, TypedRecs, EncRecs, SlotRec, Native, SlotsOk;
    GroupSlots();
    GroupFmtOk();
    var ns, recs := Kids(GROUP_FMT), full[2][0].recs;
    SlotRecsTyped(recs);
    SlotRecsSize(recs, o);
    FieldSizes(full, o);
    RestOfField(ns, 0, 0, full, o);
    RestOfField(ns, 1, 0, full, o);
    RestOfField(ns, 2, 0, full, o);
    RestAtEnd(ns, 0, full, o);
  }

  lemma FieldSizes(full: Slots, o: Order)
    requires WfFmt(GROUP_FMT) && GroupContent(full) && SlotsOk(Kids(GROUP_FMT), full)
    ensures TypedCell(SLOT, full[0][0]) && |EncCell(SLOT, full[0][0], o)| == 16
    ensures TypedCell(SLOT, full[1][0]) && |EncCell(SLOT, full[1][0], o)| == 16
    ensures WfShape(GROUP) && TypedCell(GROUP, full[2][0]) && WfKids([SLOT]) && TypedRecs([SLOT], full[2][0].recs)
    ensures |EncCell(GROUP, full[2][0], o)| == 4 + |EncRecs([SLOT], full[2][0].recs, o)|
  {
    hide PutU32, TypedRecs, EncRecs, SlotRec, Native;
    GroupFmtOk();
    SlotRecsTyped(full[2][0].recs);
  }

  lemma {:induction false} SlotRecsSize(recs: seq<Record>, o: Order)
    requires WfKids([SLOT]) && TypedRecs([SLOT], recs)
    ensures |EncRecs([SLOT], recs, o)| == 16 * |recs|
  {
    GroupSlots();
    if recs != [] {
      WalkIsOk([SLOT]);
      SlotRecSize(recs[0], o);
      SlotRecsSize(recs[1..], o);
    }
  }

  lemma SlotRecSize(rec: Record, o: Order)
    requires WfKids([SLOT]) && WalkOk([SLOT], Walk([SLOT])) && TypedRec([SLOT], Walk([SLOT]), rec)
    ensures |EncRec([SLOT], Walk([SLOT]), rec, o)| == 16
  {
    GroupSlots();
    assert Walk([SLOT]) == [(0, 0)] && Walk([SLOT])[1..] == [];
  }

  /** The 16 bytes of a member slot. */
  ghost function SlotOf(rec: Record): bytes {
    if SlotRec(rec) then rec[0].bs else []
  }

  lemma {:induction false} SlotBytes(recs: seq<Record>, big: bool, i: nat)
    requires WfKids([SLOT]) && TypedRecs([SLOT], recs) && i < |recs| && forall k | 0 <= k < |recs| :: SlotRec(recs[k])
    ensures |EncRecs([SLOT], recs, Order(big, false))| == 16 * |recs|
    ensures EncRecs([SLOT], recs, Order(big, false))[16 * i..16 * i + 16] == SlotOf(recs[i])
    decreases i
  {
    hide EncRec, SlotRec, SlotOf, TypedRec, Walk, WalkOk;
    SlotRecsSize(recs, Order(big, false));
    WalkIsOk([SLOT]);
    OneSlot(recs[0], big);
    if i > 0 {
      SlotBytes(recs[1..], big, i - 1);
      var e := EncRec([SLOT], Walk([SLOT]), recs[0], Order(big, false));
      var rest := EncRecs([SLOT], recs[1..], Order(big, false));
      assert (e + rest)[16 * i..16 * i + 16] == rest[16 * (i - 1)..16 * (i - 1) + 16];
    }
  }

  lemma OneSlot(rec: Record, big: bool)
    requires SlotRec(rec) && WfKids([SLOT]) && WalkOk([SLOT], Walk([SLOT])) && TypedRec([SLOT], Walk([SLOT]), rec)
    ensures |EncRec([SLOT], Walk([SLOT]), rec, Order(big, false))| == 16
    ensures EncRec([SLOT], Walk([SLOT]), rec, Order(big, false)) == SlotOf(rec)
  {
    GroupSlots();
    SlotRecSize(rec, Order(big, false));
    assert Walk([SLOT]) == [(0, 0)] && Walk([SLOT])[1..] == [];
    EncodedBytes(SLOT, rec[0], big);
  }

  /** The bytes of a message on the wire. */
  lemma MessageBytes(full: Slots, big: bool)
    requires WfFmt(GROUP_FMT) && GroupContent(full) && SlotsOk(Kids(GROUP_FMT), full)
    requires ImageSize(GROUP_FMT, full, Order(big, false)) < TWO_32
    ensures var msg, recs := Image(GROUP_FMT, full, Order(big, false)), full[2][0].recs;
            && |msg| == 66 + 16 * |recs| && |recs| < 0x1000_0000
            && msg[..4] == [116, 112, 108, if big then 1 else 0] && msg[4..8] == PutU32(|msg|, big)
            && msg[8..18] == [99, 35, 99, 35, 65, 40, 99, 35, 41, 0]
            && msg[18..30] == (if big then [0, 0, 0, 16, 0, 0, 0, 16, 0, 0, 0, 16]
                               else [16, 0, 0, 0, 16, 0, 0, 0, 16, 0, 0, 0])
            && msg[30..46] == full[0][0].bs && msg[46..62] == full[1][0].bs && msg[62..66] == PutU32(|recs|, big)
            && forall i | 0 <= i < |recs| :: msg[66 + 16 * i..66 + 16 * i + 16] == SlotOf(recs[i])
  {
    hide PutU32, TypedRecs, EncRecs, SlotRec, SlotOf, Native, SlotsOk, Preamble, EncRest, WfFmt;
    var o := Order(big, false);
    var recs: seq<Record> := full[2][0].recs;
    GroupFmtOk();
    GroupImageSize(full, o);
    var msg := Image(GROUP_FMT, full, o);
    GroupPreamble(66 + 16 * |recs|, big);
    GroupBody(full, big);
    var pre, body := Preamble(GROUP_FMT, |msg|, big), EncRest(Kids(GROUP_FMT), 0, 0, full, o);
    assert msg == pre + body;
    assert msg[..4] == pre[..4] && msg[4..8] == pre[4..8] && msg[8..18] == pre[8..18] && msg[18..30] == pre[18..30];
    assert msg[30..46] == body[..16] && msg[46..62] == body[16..32] && msg[62..66] == body[32..36];
    forall i | 0 <= i < |recs|
      ensures msg[66 + 16 * i..66 + 16 * i + 16] == SlotOf(recs[i])
    {
      assert msg[66 + 16 * i..66 + 16 * i + 16] == body[36 + 16 * i..36 + 16 * i + 16];
    }
  }

  lemma GroupPreamble(total: nat, big: bool)
    requires WfFmt(GROUP_FMT) && total < TWO_32
    ensures var pre := Preamble(GROUP_FMT, total, big);
            && |pre| == 30 && pre[..4] == [116, 112, 108, if big then 1 else 0] && pre[4..8] == PutU32(total, big)
            && pre[8..18] == [99, 35, 99, 35, 65, 40, 99, 35, 41, 0]
            && pre[18..30] == (if big then [0, 0, 0, 16, 0, 0, 0, 16, 0, 0, 0, 16]
                               else [16, 0, 0, 0, 16, 0, 0, 0, 16, 0, 0, 0])
  {
    hide WfFmt, PutU32, FxBytes;
    GroupFmtOk();
    ThreeLengths(big);
    var size, fx := PutU32(total, big), FxBytes(GROUP_FMT.fxlens, big);
    var pre := Preamble(GROUP_FMT, total, big);
    assert LETTER_S !in GROUP_FMT.text;
    Slices(pre, MAGIC, if big then 1 else 0, size, GROUP_FMT.text, fx, []);
    assert pre[..4] == pre[..3] + [pre[3]] && pre[8..18] == pre[8..17] + [pre[17]] && pre[18..30] == fx;
  }

  lemma ThreeLengths(big: bool)
    ensures FxBytes([16, 16, 16], big) ==
            if big then [0, 0, 0, 16, 0, 0, 0, 16, 0, 0, 0, 16] else [16, 0, 0, 0, 16, 0, 0, 0, 16, 0, 0, 0]
  {
    WordBytes(16, big);
    hide PutU32;
    var w := PutU32(16, big);
    assert FxBytes([], big) == [];
    assert [16][1..] == [] && FxBytes([16], big) == w + [];
    assert [16, 16][1..] == [16] && FxBytes([16, 16], big) == w + (w + []);
    assert [16, 16, 16][1..] == [16, 16] && FxBytes([16, 16, 16], big) == w + (w + (w + []));
  }

  lemma GroupBody(full: Slots, big: bool)
    requires WfFmt(GROUP_FMT) && GroupContent(full) && SlotsOk(Kids(GROUP_FMT), full)
    ensures var body, recs := EncRest(Kids(GROUP_FMT), 0, 0, full, Order(big, false)), full[2][0].recs;
            && |recs| < TWO_32 && |body| == 36 + 16 * |recs|
            && body[..16] == full[0][0].bs && body[16..32] == full[1][0].bs && body[32..36] == PutU32(|recs|, big)
            && forall i | 0 <= i < |recs| :: body[36 + 16 * i..36 + 16 * i + 16] == SlotOf(recs[i])
  {
    hide PutU32, TypedRecs, EncRecs, SlotRec, SlotOf, SlotsOk, WfFmt, EncRest, WfKids, TypedCell, EncCell;
    var o, recs := Order(big, false), full[2][0].recs;
    FieldSizes(full, o);
    BodyFields(full, big);
    var e, body := EncRecs([SLOT], recs, o), EncRest(Kids(GROUP_FMT), 0, 0, full, o);
    SlotRecsSize(recs, o);
    BodySlices(body, full[0][0].bs, full[1][0].bs, PutU32(|recs|, big), e);
    forall i | 0 <= i < |recs|
      ensures body[36 + 16 * i..36 + 16 * i + 16] == SlotOf(recs[i])
    {
      SlotBytes(recs, big, i);
      SliceOfSlice(body, 36, 16 * i, 16 * i + 16, |body|);
    }
  }

  lemma BodyFields(full: Slots, big: bool)
    requires WfFmt(GROUP_FMT) && GroupContent(full) && SlotsOk(Kids(GROUP_FMT), full)
    requires WfKids([SLOT]) && TypedRecs([SLOT], full[2][0].recs)
    ensures EncRest(Kids(GROUP_FMT), 0, 0, full, Order(big, false)) ==
            full[0][0].bs +
            (full[1][0].bs +
             (PutU32(|full[2][0].recs|, big) + EncRecs([SLOT], full[2][0].recs, Order(big, false)) + []))
  {
    hide PutU32, TypedRecs, EncRecs, SlotRec, Native, SlotsOk, WfFmt, EncRest;
    GroupSlots();
    GroupFmtOk();
    var ns, o := Kids(GROUP_FMT), Order(big, false);
    FieldSizes(full, o);
    RestOfField(ns, 0, 0, full, o);
    RestOfField(ns, 1, 0, full, o);
    RestOfField(ns, 2, 0, full, o);
    RestAtEnd(ns, 0, full, o);
    EncodedBytes(SLOT, full[0][0], big);
    EncodedBytes(SLOT, full[1][0], big);
    EncodedBytes(GROUP, full[2][0], big);
  }

  lemma BodySlices(body: bytes, uuid: bytes, ip: bytes, count: bytes, slots: bytes)
    requires |uuid| == |ip| == 16 && |count| == 4 && body == uuid + (ip + (count + slots + []))
    ensures |body| == 36 + |slots| && body[..16] == uuid && body[16..32] == ip && body[32..36] == count
    ensures body[36..|body|] == slots
  {
  }

  /** Size, format and lengths of a message, in the byte order that its flags say. */
  ghost predicate WireForm(msg: bytes) {
    && |msg| >= 66 && msg[..3] == [116, 112, 108] && msg[3] < 4
    && msg[8..18] == [99, 35, 99, 35, 65, 40, 99, 35, 41, 0]
    && var big := msg[3] % 2 == 1;
       && msg[18..30] == (if big then [0, 0, 0, 16, 0, 0, 0, 16, 0, 0, 0, 16]
                          else [16, 0, 0, 0, 16, 0, 0, 0, 16, 0, 0, 0])
       && GetU32(msg[4..8], big) == |msg| == 66 + 16 * GetU32(msg[62..66], big)
  }

  /** The content behind that: UUID, sender and slots, as they stand. */
  ghost predicate Stands(msg: bytes, full: Slots)
    requires |msg| >= 66
  {
    && GroupContent(full) && full[0][0].bs == msg[30..46] && full[1][0].bs == msg[46..62]
    && |msg| == 66 + 16 * |full[2][0].recs|
    && forall i | 0 <= i < |full[2][0].recs| :: SlotOf(full[2][0].recs[i]) == msg[66 + 16 * i..66 + 16 * i + 16]
  }

  lemma WireHolds(msg: bytes, full: Slots)
    requires WfFmt(GROUP_FMT) && 66 <= |msg| < TWO_32
    ensures IsImageOf(GROUP_FMT, msg, msg[3] % 2 == 1, false, full) <==> WireForm(msg) && Stands(msg, full)
  {
    hide PutU32, GetU32, FxBytes, EncRest, SlotsOk, WfFmt, SlotRec, SlotOf, LengthsStand, Holds;
    GroupFmtOk();
    var big := msg[3] % 2 == 1;
    ContentIsGroup(full);
    WireLengths(msg, big);
    U32Inverse(|msg|, msg[4..8], big);
    assert msg[8..18] == msg[8..17] + [msg[17]] && msg[8..17] == msg[8..18][..9] && msg[17] == msg[8..18][9];
    if GroupContent(full) {
      GroupBody(full, big);
      BodyStands(msg, full, EncRest(Kids(GROUP_FMT), 0, 0, full, Order(big, false)), big);
    }
  }

  lemma WireLengths(msg: bytes, big: bool)
    requires 66 <= |msg|
    ensures LengthsStand(GROUP_FMT.fxlens, msg, 18, big) <==>
            msg[18..30] == if big then [0, 0, 0, 16, 0, 0, 0, 16, 0, 0, 0, 16]
                           else [16, 0, 0, 0, 16, 0, 0, 0, 16, 0, 0, 0]
  {
    hide PutU32, FxBytes, LengthsStand;
    assert GROUP_FMT.fxlens == [16, 16, 16];
    ThreeLengths(big);
    LengthsIff(GROUP_FMT.fxlens, msg, 18, big);
  }

  lemma BodyStands(msg: bytes, full: Slots, body: bytes, big: bool)
    requires 66 <= |msg| && GroupContent(full) && |body| == 36 + 16 * |full[2][0].recs|
    requires body[..16] == full[0][0].bs && body[16..32] == full[1][0].bs
    requires body[32..36] == PutU32(|full[2][0].recs|, big)
    requires forall i | 0 <= i < |full[2][0].recs| :: body[36 + 16 * i..36 + 16 * i + 16] == SlotOf(full[2][0].recs[i])
    ensures Holds(msg, 30, body) && 30 + |body| == |msg| <==>
            Stands(msg, full) && GetU32(msg[62..66], big) == |full[2][0].recs|
  {
    hide PutU32, GetU32, SlotOf, SlotRec;
    var recs: seq<Record> := full[2][0].recs;
    U32Inverse(|recs|, msg[62..66], big);
    if Holds(msg, 30, body) && 30 + |body| == |msg| {
      assert msg[30..30 + |body|] == msg[30..] == body;
      SliceOfSlice(msg, 30, 0, 16, |msg|);
      SliceOfSlice(msg, 30, 16, 32, |msg|);
      SliceOfSlice(msg, 30, 32, 36, |msg|);
      forall i | 0 <= i < |recs|
        ensures SlotOf(recs[i]) == msg[66 + 16 * i..66 + 16 * i + 16]
      {
        SliceOfSlice(msg, 30, 36 + 16 * i, 36 + 16 * i + 16, |msg|);
      }
    }
    if Stands(msg, full) && GetU32(msg[62..66], big) == |recs| {
      forall i | 0 <= i < |recs|
        ensures body[36 + 16 * i..36 + 16 * i + 16] == msg[66 + 16 * i..66 + 16 * i + 16]
      {
        assert SlotOf(recs[i]) == msg[66 + 16 * i..66 + 16 * i + 16];
      }
      SameBody(msg, body, |recs|);
    }
  }

  /** Bytes that agree block by block. */
  lemma SameBody(msg: bytes, body: bytes, n: nat)
    requires |msg| == 66 + 16 * n && |body| == 36 + 16 * n
    requires body[..16] == msg[30..46] && body[16..32] == msg[46..62] && body[32..36] == msg[62..66]
    requires forall i | 0 <= i < n :: body[36 + 16 * i..36 + 16 * i + 16] == msg[66 + 16 * i..66 + 16 * i + 16]
    ensures msg[30..] == msg[30..30 + |body|] == body
  {
    forall k | 0 <= k < |body|
      ensures body[k] == msg[30 + k]
    {
      if k < 16 {
        assert body[k] == body[..16][k] == msg[30..46][k];
      } else if k < 32 {
        assert body[k] == body[16..32][k - 16] == msg[46..62][k - 16];
      } else if k < 36 {
        assert body[k] == body[32..36][k - 32] == msg[62..66][k - 32];
      } else {
        var i, j := (k - 36) / 16, (k - 36) % 16;
        assert k == 36 + 16 * i + j;
        assert body[k] == body[36 + 16 * i..36 + 16 * i + 16][j] == msg[66 + 16 * i..66 + 16 * i + 16][j];
      }
    }
  }

  /**
   On a machine of either byte order, exactly the buffers of this form are messages, and they say what stands
   in them: the UUID at 30, the sender at 46, and the strings in the slots of 16 bytes from 66 on.
   */
  lemma DecodableIff(msg: bytes, big: bool)
    ensures Decodable(msg, big) <==> WireForm(msg)
    ensures Decodable(msg, big) ==>
              && UuidOf(msg, big) == msg[30..46] && SenderOf(msg, big) == msg[46..62]
              && |msg| == 66 + 16 * |GroupOf(msg, big)|
              && forall i | 0 <= i < |GroupOf(msg, big)| ::
                   GroupOf(msg, big)[i] == CStr(msg[66 + 16 * i..66 + 16 * i + 16])
  {
    hide GetU32, Accepted, SmallCounts, Content, WfFmt, IsImageOf, WireForm, Stands;
    GroupFmtOk();
    TooBigOrSmall(msg, big);
    if 66 <= |msg| < TWO_32 {
      var own := msg[3] % 2 == 1;
      AcceptedIff(GROUP_FMT, msg, own, false);
      SameForAll(msg, own);
      forall full
        ensures IsImageOf(GROUP_FMT, msg, own, false, full) <==> WireForm(msg) && Stands(msg, full)
      {
        WireHolds(msg, full);
      }
      if Decodable(msg, big) {
        assert Decodable(msg, own);
        Saying(msg, own);
      }
      if WireForm(msg) {
        var full := AsItStands(msg);
      }
    }
  }

  lemma TooBigOrSmall(msg: bytes, big: bool)
    ensures Decodable(msg, big) ==> 66 <= |msg| < TWO_32
    ensures WireForm(msg) ==> 66 <= |msg| < TWO_32
  {
    hide GetU32, SmallCounts, Content, IsImageOf, SlotsOk, EncRest, WfFmt, FxBytes;
    GroupFmtOk();
    if Decodable(msg, big) {
      assert GetU32(msg[4..8], OrderOf(msg, big).ImageBig()) == |msg|;
      AcceptedIff(GROUP_FMT, msg, big, false);
      var full :| IsImageOf(GROUP_FMT, msg, big, false, full);
      ImageOfSize(msg, big, full);
    }
  }

  lemma ImageOfSize(msg: bytes, big: bool, full: Slots)
    requires WfFmt(GROUP_FMT) && |msg| < TWO_32 && IsImageOf(GROUP_FMT, msg, big, false, full)
    ensures |msg| >= 66
  {
    hide EncRest, WfFmt, SlotsOk, LengthsStand;
    ContentIsGroup(full);
    GroupImageSize(full, Order(big, (msg[3] % 2 == 1) != big));
  }

  lemma Saying(msg: bytes, big: bool)
    requires Decodable(msg, big) && |msg| >= 66 && Stands(msg, ContentOf(msg, big))
    ensures UuidOf(msg, big) == msg[30..46] && SenderOf(msg, big) == msg[46..62]
    ensures |msg| == 66 + 16 * |GroupOf(msg, big)|
    ensures forall i | 0 <= i < |GroupOf(msg, big)| ::
              GroupOf(msg, big)[i] == CStr(msg[66 + 16 * i..66 + 16 * i + 16])
  {
    hide Decodable, ContentOf, CStr;
    var recs: seq<Record> := ContentOf(msg, big)[2][0].recs;
    forall i | 0 <= i < |recs|
      ensures Strings(recs)[i] == CStr(msg[66 + 16 * i..66 + 16 * i + 16])
    {
      assert SlotOf(recs[i]) == msg[66 + 16 * i..66 + 16 * i + 16];
    }
  }

  lemma AsItStands(msg: bytes) returns (full: Slots)
    requires WireForm(msg)
    ensures Stands(msg, full)
  {
    hide GetU32;
    var n := (|msg| - 66) / 16;
    var recs: seq<Record> := seq(n, i requires 0 <= i < n => [Raw(msg[66 + 16 * i..66 + 16 * i + 16])]);
    full := [[Raw(msg[30..46])], [Raw(msg[46..62])], [Arr(recs)]];
  }

  /** A buffer with a string of one character. */
  ghost function Address(c: byte): (ip: bytes)
    requires c != 0
    ensures |ip| == MAX_SIZE_IP_ADDRESS_STRING && CStr(ip) == [c]
  {
    var rest := seq(14, _ => 0);
    CStrOf([c], rest);
    [c] + [0] + rest
  }

  /** Some message from this address with these slots. */
  lemma AnyMessage(ip: bytes, recs: seq<Record>, big: bool) returns (msg: bytes)
    requires |ip| == MAX_SIZE_IP_ADDRESS_STRING && |recs| < 100 && forall i | 0 <= i < |recs| :: SlotRec(recs[i])
    ensures Decodable(msg, big) && SenderOf(msg, big) == ip && GroupOf(msg, big) == Strings(recs)
  {
    hide Decodable, SlotRec, SlotsOk;
    var full: Slots := [[Raw(seq(ZUUID_LEN, _ => 0))], [Raw(ip)], [Arr(recs)]];
    GroupFmtOk();
    ContentIsGroup(full);
    GroupImageSize(full, Order(big, false));
    GroupImageSays(full, big);
    msg := Image(GROUP_FMT, full, Order(big, false));
  }
}
