/** Membership tables as messages and as lists. */
module Membership {
  import opened Sequences
  import opened Bytes
  import opened TplWords
  import opened TplFormat
  import opened TplCodec
  import opened TplNodes
  import opened TplPack
  import opened TplDump
  import opened TplImage
  import opened TplTree
  import opened TplMaps
  import opened HashBuckets
  import opened StableSort
  import opened ListSort
  import opened HashTable
  import opened CStrings
  import opened ZLists
  import opened GroupMessage

  /** Fits in an address field with its NUL. */
  ghost predicate IsAddress(k: Key) {
    |k| < MAX_SIZE_IP_ADDRESS_STRING && 0 !in k
  }

  ghost predicate AllAddresses<V>(s: seq<Handle<V>>) {
    forall h | h in s :: IsAddress(h.key)
  }

  // ------------------------------------------------------------------ the mapped message format

  /** What the node tree of the message format looks like. */
  ghost predicate GroupTree(tn: TplMap) {
    && |tn.root.kids| == 3 && |tn.pidx| == 1 && tn.pidx[0] == tn.root.kids[2]
    && tn.root.Wf() && tn.root.shape == GROUP_FMT.root
    && tn.root.kids[0].shape == SLOT && tn.root.kids[1].shape == SLOT && tn.root.kids[2].shape == GROUP
    && tn.pidx[0].Wf() && |tn.pidx[0].kids| == 1 && tn.pidx[0].kids[0].shape == SLOT
  }

  lemma GroupTreeOf(tn: TplMap)
    requires tn.Tree() && tn.fmt == GROUP_FMT
    ensures GroupTree(tn)
  {
    hide TplNode.Wf, ArrayList;
    KidsDistinct(tn.root);
    OneArray();
    assert ShapesOf(tn.pidx)[0] == GROUP;
    assert tn.root.kids[2] in tn.pidx;
    ListedInTree(tn.root, tn.pidx);
    KidsDistinct(tn.pidx[0]);
  }

  lemma OneArray()
    ensures ArrayShapes(GROUP_FMT.root) == [GROUP]
  {
    var ns := GROUP_FMT.root.kids;
    assert ns[1..][1..] == [GROUP] && [GROUP][1..] == [] && [SLOT][1..] == [];
    assert ArraysIn([SLOT]) == [] && ArraysIn([GROUP]) == [GROUP] && ArraysIn(ns[1..]) == [GROUP];
  }

  method PackHeader(tn: TplMap, uuid: bytes, ip: bytes)
    requires tn.Valid() && tn.fmt == GROUP_FMT && GroupTree(tn) && !tn.rdonly && |uuid| == ZUUID_LEN &&
             |ip| == MAX_SIZE_IP_ADDRESS_STRING
    modifies tn`wronly, tn`rdonly, tn`xendian, tn.root.repr
    ensures tn.Valid() && tn.wronly && !tn.rdonly && tn.pidx[0].bb == old(tn.pidx[0].bb)
    ensures tn.root.kids[0].data == [Raw(uuid)] && tn.root.kids[1].data == [Raw(ip)]
  {
    hide TplNode.Wf, TplMap.Valid, SlotCount, DataSized, TplMap.RootSized;
    var mem := [[Raw(uuid)], [Raw(ip)], []];
    GroupSlots();
    HeaderFits(tn.root, mem);
    InTreeRoot(tn);
    var rc := tn.Pack(0, mem);
    assert mem[0] == [Raw(uuid)] && mem[1] == [Raw(ip)];
  }

  lemma InTreeRoot(tn: TplMap)
    requires tn.Valid()
    ensures KidSet(tn.root) + {tn.root} <= tn.root.repr && tn.Node(0) == tn.root
    ensures forall a | a in tn.pidx :: a.Wf() && a.shape.Ary? && KidSet(a) + {a} <= tn.root.repr
    ensures forall a | a in tn.pidx :: |tn.Held(a)| == |a.bb| || tn.rdonly
  {
    hide TplNode.Wf, ArraysOf;
    KidsInTree(tn.root);
    forall a | a in tn.pidx
      ensures a.Wf() && a.shape.Ary? && KidSet(a) + {a} <= tn.root.repr
    {
      tn.InTree(a);
    }
  }

  lemma HeaderFits(root: TplNode, mem: Slots)
    requires root.Wf() && root.shape == GROUP_FMT.root && |root.kids| == 3
    requires root.kids[0].shape == SLOT && root.kids[1].shape == SLOT && root.kids[2].shape == GROUP
    requires |mem| == 3 && |mem[0]| == |mem[1]| == 1
    requires mem[0][0].Raw? && mem[1][0].Raw? && |mem[0][0].bs| == |mem[1][0].bs| == 16
    ensures MemFits(root, mem)
  {
    hide TplNode.Wf;
    GroupSlots();
  }

  method PackSlot(tn: TplMap, slot: bytes)
    requires tn.Valid() && tn.fmt == GROUP_FMT && GroupTree(tn) && !tn.rdonly && |slot| == MAX_SIZE_IP_ADDRESS_STRING
    requires |tn.pidx[0].bb| + 1 < TWO_31
    modifies tn`wronly, tn`rdonly, tn`xendian, tn.root.repr
    ensures tn.Valid() && tn.wronly && !tn.rdonly && tn.pidx[0].bb == old(tn.pidx[0].bb) + [[Raw(slot)]]
    ensures tn.root.kids[0].data == old(tn.root.kids[0].data) && tn.root.kids[1].data == old(tn.root.kids[1].data)
  {
    hide TplNode.Wf, TplMap.Valid, SlotsOk, SlotCount;
    var n, mem := tn.pidx[0], [[Raw(slot)]];
    GroupSlots();
    InTreeRoot(tn);
    assert MemFits(n, mem);
    ghost var full := Level(n.kids, mem, false);
    assert full == mem;
    PickSlot(full);
    var rc := tn.Pack(1, mem);
  }

  lemma PickSlot(full: Slots)
    requires WfKids([SLOT]) && SlotsOk([SLOT], full) && InWalk([SLOT], 0, 0)
    ensures |full| == 1 && |full[0]| == 1 && PickRest([SLOT], 0, 0, full) == full[0]
  {
    GroupSlots();
    var w := Rest([SLOT], 0, 0);
    RestInSlots([SLOT], 0, 0, full);
    assert w[1..] == [];
  }

  // ------------------------------------------------------------------ messages

  /** serialize_hash: sort the table and write a message with its keys. `stack` is what the local buffer holds. */
  method SerializeHash<V>(nodes: Table<V>, big: bool, currentNodeIp: bytes, uuid: bytes, stack: bytes)
    returns (rc: int, buffer: bytes)
    requires nodes.Valid() && AllAddresses(nodes.order) && |nodes.order| < 0x800_0000
    requires |uuid| == ZUUID_LEN && |currentNodeIp| == |stack| == MAX_SIZE_IP_ADDRESS_STRING
    modifies nodes`head, nodes`tail, nodes`order, nodes.order`next, nodes.order`prev
    ensures nodes.Valid() && nodes.order == SortOf(old(nodes.order), StrCmp)
    ensures nodes.Contents() == old(nodes.Contents()) && Elems(nodes.order) == Elems(old(nodes.order))
    ensures rc == if old(nodes.order) == [] then -1 else 0
    ensures rc == 0 ==> Decodable(buffer, big) && UuidOf(buffer, big) == uuid && SenderOf(buffer, big) == currentNodeIp
    ensures rc == 0 ==> GroupOf(buffer, big) == Keys(nodes.order)
    ensures rc == 0 ==> |buffer| == 66 + 16 * |nodes.order| && |buffer| < TWO_32
    ensures rc == 0 ==> buffer[..4] == [116, 112, 108, if big then 1 else 0]
    ensures rc == 0 ==> buffer[4..8] == PutU32(|buffer|, big) && buffer[62..66] == PutU32(|nodes.order|, big)
    ensures rc == 0 ==> buffer[8..18] == [99, 35, 99, 35, 65, 40, 99, 35, 41, 0]
    ensures rc == 0 ==>
              buffer[18..30] == if big then [0, 0, 0, 16, 0, 0, 0, 16, 0, 0, 0, 16]
                                else [16, 0, 0, 0, 16, 0, 0, 0, 16, 0, 0, 0]
    ensures rc == 0 ==> buffer[30..46] == uuid && buffer[46..62] == currentNodeIp
    ensures rc == 0 ==>
              forall i | 0 <= i < |nodes.order| ::
                var key := Keys(nodes.order)[i];
                |key| < 16 && buffer[66 + 16 * i..66 + 16 * i + |key| + 1] == key + [0]
  {
    hide Table.BucketsOk, SortOf, ContentsOf, Decodable, UuidOf, SenderOf, GroupOf;
    StrCmpIsTotal();
    nodes.Sort(StrCmp);
    if nodes.head == null {
      return -1, [];
    }
    SameAddresses(old(nodes.order), nodes.order);
    rc, buffer := WriteMessage(nodes, big, currentNodeIp, uuid, stack);
  }

  lemma SameAddresses<V>(s: seq<Handle<V>>, t: seq<Handle<V>>)
    requires Elems(s) == Elems(t) && AllAddresses(s)
    ensures AllAddresses(t)
  {
    assert forall h :: h in s <==> h in Elems(s);
    assert forall h :: h in t <==> h in Elems(t);
  }

  /** The part of serialize_hash behind the sort. */
  method WriteMessage<V>(nodes: Table<V>, big: bool, currentNodeIp: bytes, uuid: bytes, stack: bytes)
    returns (rc: int, buffer: bytes)
    requires nodes.ListOk() && AllAddresses(nodes.order) && |nodes.order| < 0x800_0000
    requires |uuid| == ZUUID_LEN && |currentNodeIp| == |stack| == MAX_SIZE_IP_ADDRESS_STRING
    ensures rc == 0 && Decodable(buffer, big) && UuidOf(buffer, big) == uuid && SenderOf(buffer, big) == currentNodeIp
    ensures GroupOf(buffer, big) == Keys(nodes.order)
    ensures OnWire(buffer, big, uuid, currentNodeIp, Keys(nodes.order))
  {
    hide TplNode.Wf, TplMap.Valid, Table.ListOk, AllAddresses, GroupTree, TplMap.Dumpable, TplMap.Tree, Decodable,
         SlotCount, WfFmt, SlotRec, OnWire;
    GroupFmtOk();
    var tn := new TplMap(GROUP_FMT, big);
    TreeOfNew(tn);
    PackHeader(tn, uuid, currentNodeIp);
    PackHeader(tn, uuid, currentNodeIp);
    PackMembers(tn, nodes, stack);
    PackingSays(tn, uuid, currentNodeIp);
    WireBytes(tn, uuid, currentNodeIp, nodes.order);
    rc, buffer := tn.Dump();
  }

  /** These are the bytes of a message that says all this. */
  ghost predicate OnWire(msg: bytes, big: bool, uuid: bytes, ip: bytes, keys: seq<Key>) {
    && |msg| == 66 + 16 * |keys| && |msg| < TWO_32 && msg[..4] == [116, 112, 108, if big then 1 else 0]
    && msg[4..8] == PutU32(|msg|, big) && msg[8..18] == [99, 35, 99, 35, 65, 40, 99, 35, 41, 0]
    && msg[18..30] == (if big then [0, 0, 0, 16, 0, 0, 0, 16, 0, 0, 0, 16] else [16, 0, 0, 0, 16, 0, 0, 0, 16, 0, 0, 0])
    && msg[30..46] == uuid && msg[46..62] == ip && msg[62..66] == PutU32(|keys|, big)
    && forall i | 0 <= i < |keys| ::
         |keys[i]| < 16 && msg[66 + 16 * i..66 + 16 * i + |keys[i]| + 1] == keys[i] + [0]
  }

  lemma WireBytes<V>(tn: TplMap, uuid: bytes, ip: bytes, s: seq<Handle<V>>)
    requires tn.Valid() && !tn.rdonly && tn.fmt == GROUP_FMT && GroupTree(tn)
    requires |uuid| == ZUUID_LEN && |ip| == MAX_SIZE_IP_ADDRESS_STRING
    requires tn.root.kids[0].data == [Raw(uuid)] && tn.root.kids[1].data == [Raw(ip)]
    requires |tn.pidx[0].bb| < 0x800_0000 && forall i | 0 <= i < |tn.pidx[0].bb| :: SlotRec(tn.pidx[0].bb[i])
    requires AllAddresses(s) && Strings(tn.pidx[0].bb) == Keys(s)
    ensures tn.Tree() && tn.Dumpable() && OnWire(Image(GROUP_FMT, tn.Packing(), tn.Own()), tn.big, uuid, ip, Keys(s))
  {
    hide TplNode.Wf, SlotRec, SlotOf, SlotsOk, SlotCount, TplMap.Valid, TplMap.Packing, AllAddresses, PutU32, WfFmt,
         Image, ImageSize, Keys, Strings, OnWire;
    PackingBytes(tn, uuid, ip);
    MessageOnWire(Image(GROUP_FMT, tn.Packing(), tn.Own()), tn.big, uuid, ip, tn.pidx[0].bb, s);
  }

  lemma MessageOnWire<V>(msg: bytes, big: bool, uuid: bytes, ip: bytes, recs: seq<Record>, s: seq<Handle<V>>)
    requires |msg| == 66 + 16 * |recs| && |msg| < TWO_32 && msg[..4] == [116, 112, 108, if big then 1 else 0]
    requires msg[4..8] == PutU32(|msg|, big) && msg[8..18] == [99, 35, 99, 35, 65, 40, 99, 35, 41, 0]
    requires msg[18..30] == if big then [0, 0, 0, 16, 0, 0, 0, 16, 0, 0, 0, 16]
                            else [16, 0, 0, 0, 16, 0, 0, 0, 16, 0, 0, 0]
    requires msg[30..46] == uuid && msg[46..62] == ip && msg[62..66] == PutU32(|recs|, big)
    requires forall i | 0 <= i < |recs| :: SlotRec(recs[i]) && msg[66 + 16 * i..66 + 16 * i + 16] == SlotOf(recs[i])
    requires AllAddresses(s) && Strings(recs) == Keys(s)
    ensures OnWire(msg, big, uuid, ip, Keys(s))
  {
    hide PutU32, SlotRec, SlotOf, AllAddresses, Keys, Strings;
    var keys := Keys(s);
    forall i | 0 <= i < |keys|
      ensures |keys[i]| < 16 && msg[66 + 16 * i..66 + 16 * i + |keys[i]| + 1] == keys[i] + [0]
    {
      SlotHolds(recs, s, i);
      assert msg[66 + 16 * i..66 + 16 * i + |keys[i]| + 1] == msg[66 + 16 * i..66 + 16 * i + 16][..|keys[i]| + 1];
    }
  }

  /** A slot starts with the member's address and a NUL. */
  lemma SlotHolds<V>(recs: seq<Record>, s: seq<Handle<V>>, i: nat)
    requires i < |s| && AllAddresses(s) && Strings(recs) == Keys(s) && i < |recs| && SlotRec(recs[i])
    ensures |Keys(s)[i]| < 16 && |SlotOf(recs[i])| == 16
    ensures SlotOf(recs[i])[..|Keys(s)[i]| + 1] == Keys(s)[i] + [0]
  {
    assert s[i] in s && Keys(s)[i] == s[i].key && Strings(recs)[i] == SlotString(recs[i]);
  }

  lemma TreeOfNew(tn: TplMap)
    requires tn.Valid() && tn.fmt == GROUP_FMT && !tn.wronly && !tn.rdonly
    ensures GroupTree(tn) && tn.pidx[0].bb == []
  {
    hide TplNode.Wf, ArraysOf;
    GroupTreeOf(tn);
    assert tn.pidx[0] in tn.pidx && Emptied(tn.pidx[0]);
  }

  method PackMembers<V>(tn: TplMap, nodes: Table<V>, stack: bytes)
    requires tn.Valid() && tn.fmt == GROUP_FMT && GroupTree(tn) && !tn.rdonly && tn.pidx[0].bb == []
    requires nodes.ListOk() && AllAddresses(nodes.order) && |nodes.order| < 0x800_0000 &&
             |stack| == MAX_SIZE_IP_ADDRESS_STRING
    modifies tn`wronly, tn`rdonly, tn`xendian, tn.root.repr
    ensures tn.Valid() && !tn.rdonly
    ensures tn.root.kids[0].data == old(tn.root.kids[0].data) && tn.root.kids[1].data == old(tn.root.kids[1].data)
    ensures (forall i | 0 <= i < |tn.pidx[0].bb| :: SlotRec(tn.pidx[0].bb[i])) &&
            Strings(tn.pidx[0].bb) == Keys(nodes.order)
  {
    hide TplNode.Wf, TplMap.Valid, UniqueKeys;
    var ipaddress := new byte[MAX_SIZE_IP_ADDRESS_STRING](i requires 0 <= i < 16 => stack[i]);
    var n := nodes.head;
    ghost var i := 0;
    while n != null
      invariant 0 <= i <= |nodes.order| && n == At(nodes.order, i)
      invariant tn.Valid() && !tn.rdonly
      invariant tn.root.kids[0].data == old(tn.root.kids[0].data) && tn.root.kids[1].data == old(tn.root.kids[1].data)
      invariant |tn.pidx[0].bb| == i && Packs(tn.pidx[0].bb, Keys(nodes.order[..i]))
      decreases |nodes.order| - i
    {
      StrCpy(ipaddress, n.key);
      ghost var bb := tn.pidx[0].bb;
      PackSlot(tn, ipaddress[..]);
      PacksOneMore(bb, ipaddress[..], nodes.order, i);
      n := n.next;
      i := i + 1;
    }
    assert nodes.order[..i] == nodes.order;
  }

  ghost predicate Packs(recs: seq<Record>, strings: seq<bytes>) {
    (forall i | 0 <= i < |recs| :: SlotRec(recs[i])) && Strings(recs) == strings
  }

  lemma PacksOneMore<V>(recs: seq<Record>, slot: bytes, s: seq<Handle<V>>, i: nat)
    requires i < |s| && |slot| == MAX_SIZE_IP_ADDRESS_STRING && CStr(slot) == s[i].key
    requires Packs(recs, Keys(s[..i]))
    ensures Packs(recs + [[Raw(slot)]], Keys(s[..i + 1]))
  {
    assert Strings(recs + [[Raw(slot)]]) == Strings(recs) + [CStr(slot)];
    assert Keys(s[..i + 1]) == Keys(s[..i]) + [s[i].key];
  }

  /** What the map holds when everything is packed is dumped to a message that says it. */
  lemma PackingSays(tn: TplMap, uuid: bytes, ip: bytes)
    requires tn.Valid() && !tn.rdonly && tn.fmt == GROUP_FMT && GroupTree(tn)
    requires |uuid| == ZUUID_LEN && |ip| == MAX_SIZE_IP_ADDRESS_STRING
    requires tn.root.kids[0].data == [Raw(uuid)] && tn.root.kids[1].data == [Raw(ip)]
    requires |tn.pidx[0].bb| < 0x800_0000 && forall i | 0 <= i < |tn.pidx[0].bb| :: SlotRec(tn.pidx[0].bb[i])
    ensures tn.Tree() && tn.Dumpable()
    ensures var msg := Image(GROUP_FMT, tn.Packing(), tn.Own());
            && Decodable(msg, tn.big) && UuidOf(msg, tn.big) == uuid && SenderOf(msg, tn.big) == ip
            && GroupOf(msg, tn.big) == Strings(tn.pidx[0].bb)
  {
    hide TplNode.Wf, SlotRec, SlotsOk, SlotCount, TplMap.Valid, GroupTree, TplMap.Packing, GroupContent, WfFmt;
    GroupSlots();
    var full := tn.Packing();
    PackedGroup(tn);
    ContentIsGroup(full);
    GroupImageSize(full, tn.Own());
    GroupImageSays(full, tn.big);
  }

  lemma PackingBytes(tn: TplMap, uuid: bytes, ip: bytes)
    requires tn.Valid() && !tn.rdonly && tn.fmt == GROUP_FMT && GroupTree(tn)
    requires |uuid| == ZUUID_LEN && |ip| == MAX_SIZE_IP_ADDRESS_STRING
    requires tn.root.kids[0].data == [Raw(uuid)] && tn.root.kids[1].data == [Raw(ip)]
    requires |tn.pidx[0].bb| < 0x800_0000 && forall i | 0 <= i < |tn.pidx[0].bb| :: SlotRec(tn.pidx[0].bb[i])
    ensures tn.Tree() && tn.Dumpable()
    ensures var msg, recs, big := Image(GROUP_FMT, tn.Packing(), tn.Own()), tn.pidx[0].bb, tn.big;
            && |msg| == 66 + 16 * |recs| && |msg| < TWO_32
            && msg[..4] == [116, 112, 108, if big then 1 else 0] && msg[4..8] == PutU32(|msg|, big)
            && msg[8..18] == [99, 35, 99, 35, 65, 40, 99, 35, 41, 0]
            && msg[18..30] == (if big then [0, 0, 0, 16, 0, 0, 0, 16, 0, 0, 0, 16]
                               else [16, 0, 0, 0, 16, 0, 0, 0, 16, 0, 0, 0])
            && msg[30..46] == uuid && msg[46..62] == ip && msg[62..66] == PutU32(|recs|, big)
            && forall i | 0 <= i < |recs| :: msg[66 + 16 * i..66 + 16 * i + 16] == SlotOf(recs[i])
  {
    hide TplNode.Wf, SlotRec, SlotOf, SlotsOk, SlotCount, TplMap.Valid, GroupTree, TplMap.Packing, GroupContent, WfFmt,
         PutU32;
    GroupSlots();
    var full := tn.Packing();
    PackedGroup(tn);
    ContentIsGroup(full);
    GroupImageSize(full, tn.Own());
    MessageBytes(full, tn.big);
  }

  lemma PackedGroup(tn: TplMap)
    requires tn.Valid() && !tn.rdonly && tn.fmt == GROUP_FMT && GroupTree(tn)
    requires |tn.root.kids[0].data| == 1 && tn.root.kids[0].data[0].Raw? && |tn.root.kids[0].data[0].bs| == ZUUID_LEN
    requires |tn.root.kids[1].data| == 1 && tn.root.kids[1].data[0].Raw? && |tn.root.kids[1].data[0].bs| == 16
    requires |tn.pidx[0].bb| < TWO_31 && forall i | 0 <= i < |tn.pidx[0].bb| :: SlotRec(tn.pidx[0].bb[i])
    ensures tn.Tree() && tn.RootReady() && WfFmt(GROUP_FMT)
    ensures tn.Packing() == [tn.root.kids[0].data, tn.root.kids[1].data, [Arr(tn.pidx[0].bb)]]
    ensures GroupContent(tn.Packing())
  {
    hide TplNode.Wf, TplMap.Writing, SlotRec, SlotCount, ArraysOf, ItersZero, WfFmt;
    GroupSlots();
    var full := tn.Packing();
    assert full[0] == tn.root.kids[0].data && full[1] == tn.root.kids[1].data && full[2] == [Arr(tn.pidx[0].bb)];
  }

  /**
   deserialize_hash: UUID and sender are copied out, the members pushed one by one, so that the list
   has them in the reverse of the message's order.
   */
  method DeserializeHash(buffer: bytes, big: bool, result: ZList, senderIp0: bytes, uuid0: bytes, stack: bytes)
    returns (rc: int, senderIp: bytes, uuid: bytes)
    requires Sound(buffer, big)
    requires |uuid0| == ZUUID_LEN && |senderIp0| == |stack| == MAX_SIZE_IP_ADDRESS_STRING
    modifies result
    ensures rc == if Decodable(buffer, big) then 0 else -1
    ensures rc == -1 ==> senderIp == senderIp0 && uuid == uuid0 && result.items == old(result.items)
    ensures rc == 0 ==> uuid == UuidOf(buffer, big) && senderIp == SenderOf(buffer, big)
    ensures rc == 0 ==> result.items == Reversed(GroupOf(buffer, big)) + old(result.items)
  {
    hide TplNode.Wf, TplMap.Valid, GroupTree, WfFmt, Accepted, SmallCounts, Content, SlotRec, TplMap.Left, Strings;
    GroupFmtOk();
    senderIp, uuid := senderIp0, uuid0;
    var tn := new TplMap(GROUP_FMT, big);
    TreeOfNew(tn);
    tn.ValidIsFit();
    rc := tn.Load(buffer, false);
    if rc == -1 {
      return;
    }
    ghost var full := ContentOf(buffer, big);
    uuid, senderIp := UnpackHeader(tn, [[Raw(uuid0)], [Raw(senderIp0)], []], full);
    uuid, senderIp := UnpackHeader(tn, [[Raw(uuid)], [Raw(senderIp)], []], full);
    UnpackMembers(tn, result, stack);
    rc := 0;
  }

  method UnpackHeader(tn: TplMap, mem0: Slots, ghost full: Slots) returns (uuid: bytes, ip: bytes)
    requires tn.Valid() && tn.fmt == GROUP_FMT && GroupTree(tn) && tn.rdonly && !tn.wronly
    requires |mem0| == 3 && |mem0[0]| == |mem0[1]| == 1
    requires Decodable(tn.img, tn.big) && full == ContentOf(tn.img, tn.big)
    modifies tn, tn.root.repr
    ensures tn.Valid() && tn.rdonly && !tn.wronly && tn.img == old(tn.img)
    ensures full[0][0] == Raw(uuid) && full[1][0] == Raw(ip) && full[2][0] == Arr(tn.Left(tn.pidx[0]))
  {
    hide TplNode.Wf, TplMap.Valid, TplMap.Left, Content, SlotRec, TplMap.Loaded;
    GroupSlots();
    InTreeRoot(tn);
    assert MemSized(tn.root, mem0);
    var rc, mem := tn.Unpack(0, mem0);
    assert tn.Yield(tn.root.kids, mem) == full;
    uuid, ip := mem[0][0].bs, mem[1][0].bs;
  }

  method UnpackMembers(tn: TplMap, result: ZList, stack: bytes)
    requires tn.Valid() && tn.fmt == GROUP_FMT && GroupTree(tn) && tn.rdonly && !tn.wronly
    requires |stack| == MAX_SIZE_IP_ADDRESS_STRING
    requires forall i | 0 <= i < |tn.Left(tn.pidx[0])| :: SlotRec(tn.Left(tn.pidx[0])[i])
    modifies tn, tn.root.repr, result
    ensures result.items == Reversed(Strings(old(tn.Left(tn.pidx[0])))) + old(result.items)
  {
    hide TplNode.Wf, TplMap.Valid, TplMap.Left, SlotRec, Reversed;
    var rc := 1;
    var temp := stack;
    ghost var all, before := tn.Left(tn.pidx[0]), result.items;
    ghost var k := 0;
    assert all[0..] == all;
    while rc > 0
      invariant tn.Valid() && tn.rdonly && !tn.wronly && 0 <= k <= |all| && |temp| == MAX_SIZE_IP_ADDRESS_STRING
      invariant tn.Left(tn.pidx[0]) == all[k..] && (rc <= 0 ==> k == |all|)
      invariant result.items == Reversed(Strings(all[..k])) + before
      decreases |all| - k, rc
    {
      rc, temp := UnpackSlot(tn, temp);
      if rc > 0 {
        assert SlotRec(all[k]) && all[k] == all[k..][0];
        PushedMember(all, k, before);
        result.Push(CStr(temp));
        k := k + 1;
      }
    }
    assert all[..k] == all;
  }

  lemma PushedMember(all: seq<Record>, k: nat, before: seq<bytes>)
    requires k < |all|
    ensures Reversed(Strings(all[..k + 1])) + before == [SlotString(all[k])] + (Reversed(Strings(all[..k])) + before)
    ensures all[k..][1..] == all[k + 1..]
  {
    hide Reversed;
    assert Strings(all[..k + 1]) == Strings(all[..k]) + [SlotString(all[k])];
    ReversedSnoc(Strings(all[..k]), SlotString(all[k]));
  }

  method UnpackSlot(tn: TplMap, temp0: bytes) returns (rc: int, temp: bytes)
    requires tn.Valid() && tn.fmt == GROUP_FMT && GroupTree(tn) && tn.rdonly && !tn.wronly &&
             |temp0| == MAX_SIZE_IP_ADDRESS_STRING
    requires forall i | 0 <= i < |tn.Left(tn.pidx[0])| :: SlotRec(tn.Left(tn.pidx[0])[i])
    modifies tn, tn.root.repr
    ensures tn.Valid() && tn.rdonly && !tn.wronly && rc == |old(tn.Left(tn.pidx[0]))|
    ensures rc == 0 ==> tn.Left(tn.pidx[0]) == [] && temp == temp0
    ensures rc > 0 ==> old(tn.Left(tn.pidx[0]))[0] == [Raw(temp)] && |temp| == MAX_SIZE_IP_ADDRESS_STRING
    ensures rc > 0 ==> tn.Left(tn.pidx[0]) == old(tn.Left(tn.pidx[0]))[1..]
  {
    hide TplNode.Wf, TplMap.Valid, TplMap.Left, SlotsOk, SlotCount, Content;
    GroupSlots();
    InTreeRoot(tn);
    ghost var n, left := tn.pidx[0], tn.Left(tn.pidx[0]);
    assert MemSized(n, [[Raw(temp0)]]);
    var mem;
    rc, mem := tn.Unpack(1, [[Raw(temp0)]]);
    temp := temp0;
    if rc > 0 {
      ghost var full := tn.Yield(n.kids, mem);
      PickSlot(full);
      assert full[0] == mem[0] && SlotRec(left[0]);
      temp := mem[0][0].bs;
    }
  }

  // ------------------------------------------------------------------ lists

  /** get_membership_group_from_hash: the keys pushed in ascending order, so that the list has them descending. */
  method GetMembershipGroup<V>(nodes: Table<V>, result: ZList)
    requires nodes.Valid()
    modifies nodes`head, nodes`tail, nodes`order, nodes.order`next, nodes.order`prev, result
    ensures nodes.Valid() && nodes.order == SortOf(old(nodes.order), StrCmp)
    ensures nodes.Contents() == old(nodes.Contents()) && Elems(nodes.order) == Elems(old(nodes.order))
    ensures result.items == Reversed(Keys(nodes.order)) + old(result.items)
  {
    hide Table.BucketsOk, SortOf, ContentsOf, UniqueKeys, Keys;
    StrCmpIsTotal();
    nodes.Sort(StrCmp);
    var n := nodes.head;
    ghost var i := 0;
    ghost var before := result.items;
    NoKeys(nodes.order, before);
    while n != null
      invariant 0 <= i <= |nodes.order| && n == At(nodes.order, i)
      invariant result.items == Reversed(Keys(nodes.order[..i])) + before
      decreases |nodes.order| - i
      modifies result
    {
      PushedKey(nodes.order, i, before);
      result.Push(n.key);
      n := n.next;
      i := i + 1;
    }
    assert nodes.order[..i] == nodes.order;
  }

  lemma NoKeys<V>(s: seq<Handle<V>>, before: seq<bytes>)
    ensures Reversed(Keys(s[..0])) + before == before
  {
  }

  lemma PushedKey<V>(s: seq<Handle<V>>, k: nat, before: seq<bytes>)
    requires k < |s|
    ensures Reversed(Keys(s[..k + 1])) + before == [s[k].key] + (Reversed(Keys(s[..k])) + before)
  {
    hide Reversed;
    assert Keys(s[..k + 1]) == Keys(s[..k]) + [s[k].key];
    ReversedSnoc(Keys(s[..k]), s[k].key);
  }

  /** The group of a table: its keys in ascending order. */
  ghost function GroupKeys<V>(s: seq<Handle<V>>): seq<Key> {
    Keys(SortOf(s, StrCmp))
  }

  lemma GroupKeysAscend<V>(s: seq<Handle<V>>)
    requires UniqueKeys(s)
    ensures Ascending(GroupKeys(s)) && KeySet(SortOf(s, StrCmp)) == KeySet(s)
    ensures forall i, j | 0 <= i < j < |GroupKeys(s)| :: Before(GroupKeys(s)[i], GroupKeys(s)[j])
  {
    AscendingGroup(s);
    hide Keys, Ascending, SortOf;
    AscendingMeans(GroupKeys(s));
  }

  lemma AscendingGroup<V>(s: seq<Handle<V>>)
    requires UniqueKeys(s)
    ensures Ascending(GroupKeys(s)) && KeySet(SortOf(s, StrCmp)) == KeySet(s)
  {
    var t := SortOf(s, StrCmp);
    StrCmpIsTotal();
    SortOfIsSorted(s, StrCmp);
    SameElements(s, t);
    SortedKeys(s, t);
    SortedIsAscending(t);
  }

  lemma SortedKeys<V>(s: seq<Handle<V>>, t: seq<Handle<V>>)
    requires UniqueKeys(s) && multiset(s) == multiset(t)
    ensures UniqueKeys(t) && KeySet(t) == KeySet(s)
  {
    SameElements(s, t);
    forall i, j | 0 <= i < j < |t|
      ensures t[i].key != t[j].key
    {
      AtMostOnce(s, t[i]);
      assert t == t[..i] + [t[i]] + t[i + 1..j] + [t[j]] + t[j + 1..];
      assert t[i] in s && t[j] in s;
    }
    SameElementKeys(s, t);
    SameElementKeys(t, s);
  }

  lemma {:induction false} AtMostOnce<V>(s: seq<Handle<V>>, x: Handle<V>)
    requires UniqueKeys(s)
    ensures multiset(s)[x] <= 1
  {
    if s != [] {
      AtMostOnce(s[1..], x);
      assert s == [s[0]] + s[1..];
      if s[0] == x {
        assert x !in s[1..];
        assert multiset(s[1..])[x] == 0;
      }
    }
  }

  lemma SameElementKeys<V>(s: seq<Handle<V>>, t: seq<Handle<V>>)
    requires forall h | h in s :: h in t
    ensures KeySet(s) <= KeySet(t)
  {
    forall k | k in Keys(s)
      ensures k in Keys(t)
    {
      var i :| 0 <= i < |s| && Keys(s)[i] == k;
      assert s[i] in t;
      var j :| 0 <= j < |t| && t[j] == s[i];
      assert Keys(t)[j] == k;
    }
  }

  /** Tables with the same members give the same group, whatever was added and deleted in between. */
  lemma SameMembersSameGroup<V>(s: seq<Handle<V>>, t: seq<Handle<V>>)
    requires UniqueKeys(s) && UniqueKeys(t) && KeySet(s) == KeySet(t)
    ensures GroupKeys(s) == GroupKeys(t)
  {
    hide SortOf;
    GroupKeysAscend(s);
    GroupKeysAscend(t);
    AscendingIsUnique(GroupKeys(s), GroupKeys(t));
  }

  /** A message read back gives its sender, its UUID, and the very list that the table itself gives. */
  method MembershipRoundTrip<V>(nodes: Table<V>, big: bool, currentNodeIp: bytes, uuid: bytes, stack: bytes,
                                read: ZList, built: ZList)
    returns (senderIp: bytes, uuid': bytes)
    requires nodes.Valid() && nodes.order != [] && AllAddresses(nodes.order) && |nodes.order| < 0x800_0000
    requires |uuid| == ZUUID_LEN && |currentNodeIp| == |stack| == MAX_SIZE_IP_ADDRESS_STRING
    requires read != built && read.items == built.items == []
    modifies nodes`head, nodes`tail, nodes`order, nodes.order`next, nodes.order`prev, read, built
    ensures senderIp == currentNodeIp && uuid' == uuid
    ensures read.items == built.items == Reversed(GroupKeys(old(nodes.order)))
  {
    hide Table.BucketsOk, SortOf, Decodable, UuidOf, SenderOf, GroupOf, UniqueKeys, Reversed;
    var rc, buffer := SerializeHash(nodes, big, currentNodeIp, uuid, stack);
    assert Sound(buffer, big) by { DecodableIsSound(buffer, big); }
    rc, senderIp, uuid' := DeserializeHash(buffer, big, read, stack, stack, stack);
    forall i | 0 <= i < |nodes.order|
      ensures nodes.order[i] in old(nodes.order)
    {
      assert nodes.order[i] in Elems(nodes.order);
    }
    GetMembershipGroup(nodes, built);
    SortTwice(old(nodes.order));
  }

  lemma SortTwice<V>(s: seq<Handle<V>>)
    ensures SortOf(SortOf(s, StrCmp), StrCmp) == SortOf(s, StrCmp)
  {
    StrCmpIsTotal();
    SortOfIsSorted(s, StrCmp);
    SortOfSorted(SortOf(s, StrCmp), StrCmp);
  }
}
