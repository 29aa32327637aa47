/** The register image of a classic CAN frame: the words xcan_start_xmit writes and the
    frame xcan_rx reads back. */
module XcanFrame {
  type byte = bv8

  const CAN_EFF_FLAG: bv32 := 0x8000_0000
  const CAN_RTR_FLAG: bv32 := 0x4000_0000
  const CAN_EFF_MASK: bv32 := 0x1FFF_FFFF
  const CAN_SFF_MASK: bv32 := 0x0000_07FF

  const XCAN_IDR_ID1_MASK: bv32 := 0xFFE0_0000
  const XCAN_IDR_SRR_MASK: bv32 := 0x0010_0000
  const XCAN_IDR_IDE_MASK: bv32 := 0x0008_0000
  const XCAN_IDR_ID2_MASK: bv32 := 0x0007_FFFE
  const XCAN_IDR_RTR_MASK: bv32 := 0x0000_0001

  /** struct can_frame. The data field always has room for eight bytes. */
  datatype CanFrame = CanFrame(canId: bv32, dlc: byte, data: seq<byte>)

  /** The four words of a FIFO entry. */
  datatype Words = Words(id: bv32, dlc: bv32, dw1: bv32, dw2: bv32)

  /** What can_dropped_invalid_skb lets through. */
  predicate ValidFrame(f: CanFrame) {
    f.dlc <= 8 && |f.data| == 8
  }

  predicate Remote(canId: bv32) {
    canId & CAN_RTR_FLAG != 0
  }

  // ---------------------------------------------------------------- transmit

  function EncodeId(canId: bv32): bv32 {
    if canId & CAN_EFF_FLAG != 0 then
      var id := ((canId & CAN_EFF_MASK) << 1) & XCAN_IDR_ID2_MASK;
      var id := id | ((((canId & CAN_EFF_MASK) >> 18) << 21) & XCAN_IDR_ID1_MASK);
      var id := id | XCAN_IDR_IDE_MASK | XCAN_IDR_SRR_MASK;
      if Remote(canId) then id | XCAN_IDR_RTR_MASK else id
    else
      var id := ((canId & CAN_SFF_MASK) << 21) & XCAN_IDR_ID1_MASK;
      if Remote(canId) then id | XCAN_IDR_SRR_MASK else id
  }

  /** be32_to_cpup on four bytes, and cpu_to_be32 the other way. */
  function Join(a: byte, b: byte, c: byte, d: byte): bv32 {
    ((a as bv32) << 24) | ((b as bv32) << 16) | ((c as bv32) << 8) | (d as bv32)
  }

  function BigEndianByte(w: bv32, k: nat): byte
    requires k < 4
  {
    if k == 0 then ((w >> 24) & 0xFF) as byte
    else if k == 1 then ((w >> 16) & 0xFF) as byte
    else if k == 2 then ((w >> 8) & 0xFF) as byte
    else (w & 0xFF) as byte
  }

  function Encode(f: CanFrame): Words
    requires ValidFrame(f)
  {
    Words(
      EncodeId(f.canId),
      (f.dlc as bv32) << 28,
      if f.dlc > 0 then Join(f.data[0], f.data[1], f.data[2], f.data[3]) else 0,
      if f.dlc > 4 then Join(f.data[4], f.data[5], f.data[6], f.data[7]) else 0)
  }

  // ----------------------------------------------------------------- receive

  function DecodeId(id: bv32): bv32 {
    if id & XCAN_IDR_IDE_MASK != 0 then
      var can := (id & XCAN_IDR_ID1_MASK) >> 3;
      var can := can | ((id & XCAN_IDR_ID2_MASK) >> 1) | CAN_EFF_FLAG;
      if id & XCAN_IDR_RTR_MASK != 0 then can | CAN_RTR_FLAG else can
    else
      var can := (id & XCAN_IDR_ID1_MASK) >> 21;
      if id & XCAN_IDR_SRR_MASK != 0 then can | CAN_RTR_FLAG else can
  }

  /** get_can_dlc on the top nibble of the DLC word. */
  function DecodeDlc(dlcReg: bv32): (dlc: byte)
    ensures dlc <= 8
    ensures dlc as bv32 == if dlcReg >> 28 <= 8 then dlcReg >> 28 else 8
  {
    var nibble := ((dlcReg >> 28) & 0xF) as byte;
    if nibble > 8 then 8 else nibble
  }

  /** Four bytes of the frame: a data word copied whole, or the zeros that alloc_can_skb
      left there. */
  function CopyWord(copy: bool, w: bv32): (data: seq<byte>)
    ensures |data| == 4
  {
    if copy then [BigEndianByte(w, 0), BigEndianByte(w, 1), BigEndianByte(w, 2), BigEndianByte(w, 3)]
    else [0, 0, 0, 0]
  }

  function Decode(w: Words): (f: CanFrame)
    ensures ValidFrame(f)
  {
    var canId, dlc := DecodeId(w.id), DecodeDlc(w.dlc);
    var copy := !Remote(canId);
    CanFrame(canId, dlc, CopyWord(copy && dlc > 0, w.dw1) + CopyWord(copy && dlc > 4, w.dw2))
  }

  // -------------------------------------------------------------- round trip

  /** What the bus carries of an identifier: a standard frame's has eleven bits, and
      only the extended and remote flags travel. */
  function WireId(canId: bv32): bv32 {
    canId & (CAN_RTR_FLAG | (if canId & CAN_EFF_FLAG != 0 then CAN_EFF_FLAG | CAN_EFF_MASK else CAN_SFF_MASK))
  }

  function WordByte(w: Words, k: nat): byte
    requires k < 8
  {
    if k < 4 then BigEndianByte(w.dw1, k) else BigEndianByte(w.dw2, k - 4)
  }

  /** The receiver's words for a frame sent as `tx`: same identifier word and DLC nibble,
      the bytes the DLC covers; the rest of the DLC word (the timestamp among it) and the
      bytes beyond the data are the hardware's to choose. */
  predicate Carried(tx: Words, rx: Words) {
    && rx.id == tx.id
    && rx.dlc >> 28 == tx.dlc >> 28
    && (!Remote(DecodeId(tx.id)) ==>
          forall k: nat :: k < 8 && k < DecodeDlc(tx.dlc) as nat ==> WordByte(rx, k) == WordByte(tx, k))
  }

  lemma ExtendedDataId(canId: bv32)
    requires canId & CAN_EFF_FLAG != 0 && !Remote(canId)
    ensures DecodeId(EncodeId(canId)) == WireId(canId)
  {
  }

  lemma ExtendedRemoteId(canId: bv32)
    requires canId & CAN_EFF_FLAG != 0 && Remote(canId)
    ensures DecodeId(EncodeId(canId)) == WireId(canId)
  {
  }

  lemma StandardDataId(canId: bv32)
    requires canId & CAN_EFF_FLAG == 0 && !Remote(canId)
    ensures DecodeId(EncodeId(canId)) == WireId(canId)
  {
  }

  lemma StandardRemoteId(canId: bv32)
    requires canId & CAN_EFF_FLAG == 0 && Remote(canId)
    ensures DecodeId(EncodeId(canId)) == WireId(canId)
  {
  }

  /** The identifier word is decoded to the identifier and flags it was encoded from. */
  lemma IdRoundTrip(canId: bv32)
    ensures DecodeId(EncodeId(canId)) == WireId(canId)
  {
    if canId & CAN_EFF_FLAG != 0 {
      if Remote(canId) { ExtendedRemoteId(canId); } else { ExtendedDataId(canId); }
    } else {
      if Remote(canId) { StandardRemoteId(canId); } else { StandardDataId(canId); }
    }
  }

  lemma FlagsOnTheWire(canId: bv32)
    ensures WireId(canId) & CAN_EFF_FLAG == canId & CAN_EFF_FLAG
    ensures Remote(WireId(canId)) <==> Remote(canId)
  {
  }

  lemma DlcRoundTrip(dlc: byte, rx: bv32)
    requires dlc <= 8 && rx >> 28 == ((dlc as bv32) << 28) >> 28
    ensures DecodeDlc(rx) == dlc
  {
  }

  lemma BytesOfJoin(a: byte, b: byte, c: byte, d: byte)
    ensures BigEndianByte(Join(a, b, c, d), 0) == a && BigEndianByte(Join(a, b, c, d), 1) == b
    ensures BigEndianByte(Join(a, b, c, d), 2) == c && BigEndianByte(Join(a, b, c, d), 3) == d
  {
  }

  lemma EncodedBytes(f: CanFrame, k: nat)
    requires ValidFrame(f) && k < f.dlc as nat
    ensures k < 8 && WordByte(Encode(f), k) == f.data[k]
  {
    BytesOfJoin(f.data[0], f.data[1], f.data[2], f.data[3]);
    BytesOfJoin(f.data[4], f.data[5], f.data[6], f.data[7]);
  }

  /** g is f as the bus delivers it: identifier, flags and length, and the bytes the length
      covers; a remote frame has none. */
  predicate Arrives(f: CanFrame, g: CanFrame) {
    && g.canId == WireId(f.canId) && g.dlc == f.dlc && |g.data| == 8 == |f.data|
    && forall k: nat :: k < 8 && k < f.dlc as nat ==> g.data[k] == if Remote(f.canId) then 0 else f.data[k]
  }

  lemma CopiedByte(copy: bool, w: bv32, k: nat)
    requires k < 4
    ensures CopyWord(copy, w)[k] == if copy then BigEndianByte(w, k) else 0
  {
  }

  lemma DecodedByte(w: Words, k: nat)
    requires k < 8 && k < Decode(w).dlc as nat
    ensures Decode(w).data[k] == if Remote(Decode(w).canId) then 0 else WordByte(w, k)
  {
    var copy, dlc := !Remote(Decode(w).canId), Decode(w).dlc;
    if k < 4 { CopiedByte(copy && dlc > 0, w.dw1, k); } else { CopiedByte(copy && dlc > 4, w.dw2, k - 4); }
  }

  /** A valid frame survives the trip through the transmit registers, the bus and the
      receive registers, whatever the hardware puts in the rest of the words. */
  lemma FrameRoundTrip(f: CanFrame, rx: Words)
    requires ValidFrame(f) && Carried(Encode(f), rx)
    ensures Arrives(f, Decode(rx))
  {
    IdRoundTrip(f.canId);
    FlagsOnTheWire(f.canId);
    DlcRoundTrip(f.dlc, rx.dlc);
    DlcRoundTrip(f.dlc, Encode(f).dlc);
    forall k: nat | k < 8 && k < f.dlc as nat
      ensures Decode(rx).data[k] == if Remote(f.canId) then 0 else f.data[k]
    {
      DecodedByte(rx, k);
      EncodedBytes(f, k);
    }
  }

  // ---------------------------------------------------------- register image

  /** The identifier word for can_id c, bit by bit: bits 31 to 21 the first eleven bits of the
      identifier; 20 the substitute remote request of an extended frame, and the remote
      request of a standard one; 19 the extension flag; 18 to 1 the other eighteen bits; 0 the
      remote request of an extended frame. */
  function IdImage(c: bv32): bv32 {
    if c & 0x8000_0000 != 0 then
      if c & 0x4000_0000 != 0 then 0x0018_0001 | (((c >> 18) & 0x7FF) << 21) | ((c & 0x3_FFFF) << 1)
      else 0x0018_0000 | (((c >> 18) & 0x7FF) << 21) | ((c & 0x3_FFFF) << 1)
    else
      if c & 0x4000_0000 != 0 then 0x0010_0000 | ((c & 0x7FF) << 21)
      else (c & 0x7FF) << 21
  }

  /** The can_id of an identifier word. */
  function CanIdImage(w: bv32): bv32 {
    if w & 0x0008_0000 != 0 then
      if w & 1 != 0 then 0xC000_0000 | ((w >> 21) << 18) | ((w >> 1) & 0x3_FFFF)
      else 0x8000_0000 | ((w >> 21) << 18) | ((w >> 1) & 0x3_FFFF)
    else
      if w & 0x0010_0000 != 0 then 0x4000_0000 | (w >> 21)
      else w >> 21
  }

  lemma RemoteFlag(c: bv32)
    ensures Remote(c) <==> c & 0x4000_0000 != 0
  {
  }

  lemma ExtendedDataImage(c: bv32)
    requires c & 0x8000_0000 != 0 && c & 0x4000_0000 == 0
    ensures EncodeId(c) == IdImage(c)
  {
  }

  lemma ExtendedRemoteImage(c: bv32)
    requires c & 0x8000_0000 != 0 && c & 0x4000_0000 != 0
    ensures EncodeId(c) == IdImage(c)
  {
  }

  lemma StandardDataImage(c: bv32)
    requires c & 0x8000_0000 == 0 && c & 0x4000_0000 == 0
    ensures EncodeId(c) == IdImage(c)
  {
  }

  lemma StandardRemoteImage(c: bv32)
    requires c & 0x8000_0000 == 0 && c & 0x4000_0000 != 0
    ensures EncodeId(c) == IdImage(c)
  {
  }

  lemma EncodedIdImage(c: bv32)
    ensures EncodeId(c) == IdImage(c)
  {
    if c & 0x8000_0000 != 0 {
      if c & 0x4000_0000 != 0 { ExtendedRemoteImage(c); } else { ExtendedDataImage(c); }
    } else {
      if c & 0x4000_0000 != 0 { StandardRemoteImage(c); } else { StandardDataImage(c); }
    }
  }

  lemma ExtendedWireImage(c: bv32)
    requires c & 0x8000_0000 != 0
    ensures WireId(c) == c & 0xDFFF_FFFF
  {
  }

  lemma StandardWireImage(c: bv32)
    requires c & 0x8000_0000 == 0
    ensures WireId(c) == c & 0x4000_07FF
  {
  }

  lemma ExtendedRemoteCanId(w: bv32)
    requires w & 0x0008_0000 != 0 && w & 1 != 0
    ensures DecodeId(w) == CanIdImage(w)
  {
  }

  lemma ExtendedDataCanId(w: bv32)
    requires w & 0x0008_0000 != 0 && w & 1 == 0
    ensures DecodeId(w) == CanIdImage(w)
  {
  }

  lemma StandardRemoteCanId(w: bv32)
    requires w & 0x0008_0000 == 0 && w & 0x0010_0000 != 0
    ensures DecodeId(w) == CanIdImage(w)
  {
  }

  lemma StandardDataCanId(w: bv32)
    requires w & 0x0008_0000 == 0 && w & 0x0010_0000 == 0
    ensures DecodeId(w) == CanIdImage(w)
  {
  }

  lemma DecodedIdImage(w: bv32)
    ensures DecodeId(w) == CanIdImage(w)
  {
    if w & 0x0008_0000 != 0 {
      if w & 1 != 0 { ExtendedRemoteCanId(w); } else { ExtendedDataCanId(w); }
    } else {
      if w & 0x0010_0000 != 0 { StandardRemoteCanId(w); } else { StandardDataCanId(w); }
    }
  }

  /** The bytes of a word, the first one highest. */
  predicate WordHolds(w: bv32, data: seq<byte>) {
    && |data| == 4
    && w >> 24 == data[0] as bv32 && (w >> 16) & 0xFF == data[1] as bv32
    && (w >> 8) & 0xFF == data[2] as bv32 && w & 0xFF == data[3] as bv32
  }

  lemma JoinHolds(a: byte, b: byte, c: byte, d: byte)
    ensures WordHolds(Join(a, b, c, d), [a, b, c, d])
  {
  }

  /** The words of f in the registers. A data word that the length does not reach is zero. */
  predicate WordsImage(f: CanFrame, w: Words)
    requires ValidFrame(f)
  {
    && w.id == IdImage(f.canId)
    && w.dlc >> 28 == f.dlc as bv32 && w.dlc & 0x0FFF_FFFF == 0
    && (if f.dlc > 0 then WordHolds(w.dw1, f.data[..4]) else w.dw1 == 0)
    && (if f.dlc > 4 then WordHolds(w.dw2, f.data[4..]) else w.dw2 == 0)
  }

  lemma DlcImage(dlc: byte)
    requires dlc <= 8
    ensures ((dlc as bv32) << 28) >> 28 == dlc as bv32 && ((dlc as bv32) << 28) & 0x0FFF_FFFF == 0
  {
  }

  /** What a frame looks like in the registers, in numbers. */
  lemma EncodedImage(f: CanFrame)
    requires ValidFrame(f)
    ensures WordsImage(f, Encode(f))
  {
    EncodedIdImage(f.canId);
    DlcImage(f.dlc);
    JoinHolds(f.data[0], f.data[1], f.data[2], f.data[3]);
    JoinHolds(f.data[4], f.data[5], f.data[6], f.data[7]);
    assert f.data[..4] == [f.data[0], f.data[1], f.data[2], f.data[3]];
    assert f.data[4..] == [f.data[4], f.data[5], f.data[6], f.data[7]];
  }

  /** The four bytes that a received word leaves in the frame. */
  predicate CopiedIf(copy: bool, w: bv32, data: seq<byte>) {
    if copy then WordHolds(w, data) else data == [0, 0, 0, 0]
  }

  /** The frame that a FIFO entry stands for: a data word is copied whole if the length
      reaches it; everything else, and all of a remote frame's data, is zero. */
  predicate FrameImage(w: Words, f: CanFrame) {
    && f.canId == CanIdImage(w.id)
    && f.dlc as bv32 == (if w.dlc >> 28 <= 8 then w.dlc >> 28 else 8) && |f.data| == 8
    && CopiedIf(f.canId & 0x4000_0000 == 0 && f.dlc > 0, w.dw1, f.data[..4])
    && CopiedIf(f.canId & 0x4000_0000 == 0 && f.dlc > 4, w.dw2, f.data[4..])
  }

  lemma CopiedWord(copy: bool, w: bv32)
    ensures CopiedIf(copy, w, CopyWord(copy, w))
  {
  }

  /** What the receiver makes of any FIFO entry, in numbers. */
  lemma DecodedImage(w: Words)
    ensures FrameImage(w, Decode(w))
  {
    var f := Decode(w);
    DecodedIdImage(w.id);
    RemoteFlag(f.canId);
    CopiedWord(!Remote(f.canId) && f.dlc > 0, w.dw1);
    CopiedWord(!Remote(f.canId) && f.dlc > 4, w.dw2);
    assert f.data[..4] == CopyWord(!Remote(f.canId) && f.dlc > 0, w.dw1);
    assert f.data[4..] == CopyWord(!Remote(f.canId) && f.dlc > 4, w.dw2);
  }

  // ------------------------------------------------------------- FIFO entries

  predicate EncodesTo(f: CanFrame, e: Words) {
    ValidFrame(f) && e == Encode(f)
  }

  /** A FIFO entry that the driver's writes for f leave: for a remote frame nothing is
      written to the data words, which keep what they held. The only e is Encode(f); the
      quantifier keeps the bit-vectors behind it out of proofs that need not look at them. */
  ghost predicate Loaded(f: CanFrame, w: Words) {
    && ValidFrame(f)
    && forall e {:trigger EncodesTo(f, e)} :: EncodesTo(f, e) ==>
      w.id == e.id && w.dlc == e.dlc && (Remote(f.canId) || w == e)
  }

  ghost predicate LoadedAll(fs: seq<CanFrame>, ws: seq<Words>) {
    |fs| == |ws| && forall k {:trigger Loaded(fs[k], ws[k])} :: 0 <= k < |fs| ==> Loaded(fs[k], ws[k])
  }

  lemma LoadedAllAppend(fs: seq<CanFrame>, ws: seq<Words>, f: CanFrame, w: Words)
    requires LoadedAll(fs, ws) && Loaded(f, w)
    ensures LoadedAll(fs + [f], ws + [w])
  {
    forall k | 0 <= k < |fs + [f]|
      ensures Loaded((fs + [f])[k], (ws + [w])[k])
    {
      if k < |fs| { assert Loaded(fs[k], ws[k]); }
    }
  }

  /** The entry in numbers: nothing is promised of a remote frame's data words. */
  predicate EntryImage(f: CanFrame, w: Words)
    requires ValidFrame(f)
  {
    if f.canId & 0x4000_0000 == 0 then WordsImage(f, w)
    else w.id == IdImage(f.canId) && w.dlc >> 28 == f.dlc as bv32 && w.dlc & 0x0FFF_FFFF == 0
  }

  lemma LoadedImage(f: CanFrame, w: Words)
    requires Loaded(f, w)
    ensures ValidFrame(f) && EntryImage(f, w)
  {
    assert EncodesTo(f, Encode(f));
    RemoteFlag(f.canId);
    EncodedImage(f);
  }

  function DecodeAll(ws: seq<Words>): (fs: seq<CanFrame>)
    ensures |fs| == |ws|
  {
    seq(|ws|, k requires 0 <= k < |ws| => Decode(ws[k]))
  }

  lemma DecodeAllAppend(ws: seq<Words>, w: Words)
    ensures DecodeAll(ws + [w]) == DecodeAll(ws) + [Decode(w)]
  {
  }

  /** A frame survives as a FIFO entry. */
  lemma EntryRoundTrip(f: CanFrame, w: Words, rx: Words)
    requires Loaded(f, w) && Carried(w, rx)
    ensures Arrives(f, Decode(rx))
  {
    IdRoundTrip(f.canId);
    FlagsOnTheWire(f.canId);
    assert EncodesTo(f, Encode(f));
    FrameRoundTrip(f, rx);
  }
}
