/** The byte-addressed NOR medium of the host tests, and the slot image that the
    logger builds and programs into it. */
module FlashMock {
  import opened SlotFormat
  import opened Crc16
  import FlashRing

  const ERASED_BYTE: bv8 := 0xff

  lemma WrittenAre(after: seq<bv8>, before: seq<bv8>, off: nat, data: seq<bv8>)
    requires |after| == |before| && off + |data| <= |before|
    requires forall k :: 0 <= k < |after| ==>
      after[k] == if off <= k < off + |data| then before[k] & data[k - off] else before[k]
    ensures after == before[..off] + Program(before[off..off + |data|], data) + before[off + |data|..]
  {
    var programmed := Program(before[off..off + |data|], data);
    assert after[..off] == before[..off] && after[off + |data|..] == before[off + |data|..];
    assert after[off..off + |data|] == programmed;
    assert after == after[..off] + after[off..off + |data|] + after[off + |data|..];
  }

  class FlashMock {
    const mem: array<bv8>

    constructor (size: nat)
      ensures fresh(mem) && mem[..] == Fill(ERASED_BYTE, size)
    {
      mem := new bv8[size](_ => ERASED_BYTE);
    }

    method Read(off: nat, dst: array<bv8>) returns (ok: bool)
      requires dst != mem
      modifies dst
      ensures ok == (off + dst.Length <= mem.Length)
      ensures dst[..] == if ok then mem[off..off + dst.Length] else old(dst[..])
    {
      if off + dst.Length > mem.Length {
        return false;
      }
      for i := 0 to dst.Length
        invariant dst[..i] == mem[off..off + i]
      {
        dst[i] := mem[off + i];
      }
      return true;
    }

    /** Programming can only clear bits. */
    method Write(off: nat, src: array<bv8>) returns (ok: bool)
      requires src != mem
      modifies mem
      ensures ok == (off + src.Length <= mem.Length)
      ensures mem[..] ==
        if ok then old(mem[..off]) + Program(old(mem[off..off + src.Length]), src[..]) + old(mem[off + src.Length..])
        else old(mem[..])
    {
      hide Program;
      if off + src.Length > mem.Length {
        return false;
      }
      ghost var before, data := mem[..], src[..];
      for i := 0 to src.Length
        invariant src[..] == data
        invariant forall k :: 0 <= k < mem.Length ==>
          mem[k] == if off <= k < off + i then before[k] & data[k - off] else before[k]
      {
        mem[off + i] := mem[off + i] & src[i];
      }
      WrittenAre(mem[..], before, off, data);
      return true;
    }

    method Erase(off: nat, len: nat) returns (ok: bool)
      modifies mem
      ensures ok == (off + len <= mem.Length)
      ensures mem[..] == if ok then old(mem[..off]) + Fill(ERASED_BYTE, len) + old(mem[off + len..]) else old(mem[..])
    {
      if off + len > mem.Length {
        return false;
      }
      for i := off to off + len
        invariant forall k :: 0 <= k < mem.Length ==>
          mem[k] == if off <= k < i then ERASED_BYTE else old(mem[k])
      {
        mem[i] := ERASED_BYTE;
      }
      return true;
    }
  }

  /** Zeros for the payload and the record over them. */
  method FillPayload(s: array<bv8>, record: array<bv8>)
    requires s.Length == SLOT_SIZE && record.Length <= MAX_PAYLOAD && s != record
    modifies s
    ensures s[..8] == old(s[..8])
    ensures s[8..] == record[..] + Fill(0, MAX_PAYLOAD - record.Length)
  {
    for i := 8 to SLOT_SIZE
      invariant s[..8] == old(s[..8])
      invariant forall k :: 8 <= k < i ==> s[k] == 0
    {
      s[i] := 0;
    }
    for i := 0 to record.Length
      invariant s[..8] == old(s[..8])
      invariant forall k :: 0 <= k < i ==> s[8 + k] == record[k]
      invariant forall k :: 8 + i <= k < SLOT_SIZE ==> s[k] == 0
    {
      s[8 + i] := record[i];
    }
  }

  /** The CRC of everything after the header. */
  method SlotCrc(s: array<bv8>) returns (crc: bv16)
    requires s.Length == SLOT_SIZE
    ensures crc == Crc(CRC_SEED, s[HEADER_SIZE..])
  {
    var covered := new bv8[BODY_SIZE](i requires 0 <= i < BODY_SIZE reads s => s[HEADER_SIZE + i]);
    crc := ComputeCrc(CRC_SEED, covered);
    assert covered[..] == s[HEADER_SIZE..];
  }

  /** All ones, then the magic, the number and the payload. */
  method FillBody(seqno: bv32, record: array<bv8>) returns (s: array<bv8>)
    requires record.Length <= MAX_PAYLOAD
    ensures fresh(s) && s.Length == SLOT_SIZE && s[0] == 0x47 && s[1] == 0x5a
    ensures s[HEADER_SIZE..] == Body(seqno, record[..])
  {
    hide Seq32, Body;
    s := new bv8[SLOT_SIZE](_ => ERASED_BYTE);
    var number := Seq32(seqno);
    s[0], s[1] := 0x47, 0x5a;
    s[4], s[5], s[6], s[7] := number[0], number[1], number[2], number[3];
    assert s[..8][4..] == number;
    FillPayload(s, record);
    assert s[0] == s[..8][0] && s[1] == s[..8][1];
    BodyParts(s[..], seqno, record[..]);
  }

  /** The slot image of a record, completed by the CRC of its body. */
  method BuildSlot(seqno: bv32, record: array<bv8>) returns (s: array<bv8>)
    requires record.Length <= MAX_PAYLOAD
    ensures fresh(s) && s[..] == Encode(seqno, record[..])
  {
    hide Crc, Seq32, Body, Bytes16;
    s := FillBody(seqno, record);
    ghost var body := s[HEADER_SIZE..];
    var crc := SlotCrc(s);
    var bytes := Bytes16(crc);
    s[2], s[3] := bytes[0], bytes[1];
    assert s[..] == [s[0], s[1], s[2], s[3]] + body;
    assert [s[0], s[1], s[2], s[3]] == [0x47, 0x5a] + bytes;
  }

  /** A slot image with the number and the payload in place has the right body. */
  lemma BodyParts(bytes: seq<bv8>, seqno: bv32, record: seq<bv8>)
    requires |bytes| == SLOT_SIZE && |record| <= MAX_PAYLOAD && bytes[4..8] == Seq32(seqno)
    requires bytes[8..] == record + Fill(0, MAX_PAYLOAD - |record|)
    ensures bytes[HEADER_SIZE..] == Body(seqno, record)
  {
    hide Seq32;
    assert bytes[HEADER_SIZE..] == bytes[4..8] + bytes[8..];
  }

  // ---- What the slots of the ring mean in bytes ----

  /** How far a write got, as far as a scan can tell. */
  function ResidueAt(k: nat): FlashRing.Residue
    requires k <= SLOT_SIZE
  {
    if k == 0 then FlashRing.Untouched else if k == SLOT_SIZE then FlashRing.Complete else FlashRing.Torn
  }

  /** Programming an erased slot, completely or cut after k bytes in the header or
      in the padding, has the outcome that the ring model gives it. */
  lemma WriteMatchesRing(seqno: bv32, record: FlashRing.Record, k: nat)
    requires |record| <= MAX_PAYLOAD && k <= SLOT_SIZE
    requires k < HEADER_SIZE || HEADER_SIZE + SEQ_SIZE + |record| <= k
    ensures Decode(Program(Fill(ERASED_BYTE, SLOT_SIZE), TornBytes(seqno, record, k)), |record|)
         == FlashRing.WriteSlot(FlashRing.Erased, FlashRing.Slot.Valid(seqno as nat, record),
                                FlashRing.WriteFailed(ResidueAt(k)))
    ensures Decode(Program(Fill(ERASED_BYTE, SLOT_SIZE), Encode(seqno, record)), |record|)
         == FlashRing.WriteSlot(FlashRing.Erased, FlashRing.Slot.Valid(seqno as nat, record),
                                FlashRing.WriteDone(false))
  {
    hide Decode, Encode, TornBytes, Program;
    ProgramErased(seqno, record, k);
    ProgramErased(seqno, record, SLOT_SIZE);
    if 0 < k < HEADER_SIZE {
      TornInHeaderRejected(seqno, record, k);
    } else if 0 < k < SLOT_SIZE {
      TornInPaddingRejected(seqno, record, k);
    }
  }

  /** Writing the very same record again over what its torn write left completes
      it, even on a medium that can only clear bits. */
  lemma SameRecordCompletes(seqno: bv32, record: FlashRing.Record, k: nat)
    requires |record| <= MAX_PAYLOAD && k <= SLOT_SIZE
    ensures Program(TornBytes(seqno, record, k), Encode(seqno, record)) == Encode(seqno, record)
  {
    var torn, good := TornBytes(seqno, record, k), Encode(seqno, record);
    hide Encode;
    forall i | 0 <= i < SLOT_SIZE
      ensures torn[i] & good[i] == good[i]
    {
      AndIdentity(good[i]);
    }
  }
}
