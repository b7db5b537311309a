/** The 32 bytes of a slot, and what NOR programming, power cuts and bit errors
    make of them. Connects the slots of FlashRing to the bytes on the medium. */
module SlotFormat {
  import opened Crc16
  import opened FlashRing

  const SLOT_SIZE: nat := 32
  const HEADER_SIZE: nat := 4
  const SEQ_SIZE: nat := 4
  const BODY_SIZE: nat := 28
  const MAX_PAYLOAD: nat := 24
  const CRC_SEED: bv16 := 0xffff

  function Fill(b: bv8, n: nat): (s: seq<bv8>)
    ensures |s| == n && forall i :: 0 <= i < n ==> s[i] == b
  {
    seq(n, _ => b)
  }

  function Seq32(seqno: bv32): (s: seq<bv8>)
    ensures |s| == SEQ_SIZE
  {
    [(seqno & 0xff) as bv8, ((seqno >> 8) & 0xff) as bv8, ((seqno >> 16) & 0xff) as bv8, ((seqno >> 24) & 0xff) as bv8]
  }

  function SeqOf(b: seq<bv8>): bv32
    requires |b| == SEQ_SIZE
  {
    (b[0] as bv32) | ((b[1] as bv32) << 8) | ((b[2] as bv32) << 16) | ((b[3] as bv32) << 24)
  }

  function Bytes16(w: bv16): (s: seq<bv8>)
    ensures |s| == 2
  {
    [(w & 0xff) as bv8, ((w >> 8) & 0xff) as bv8]
  }

  function WordOf(b: seq<bv8>): bv16
    requires |b| == 2
  {
    (b[0] as bv16) | ((b[1] as bv16) << 8)
  }

  lemma SeqRoundTrip(seqno: bv32)
    ensures SeqOf(Seq32(seqno)) == seqno
  {
  }

  lemma WordRoundTrip(w: bv16)
    ensures WordOf(Bytes16(w)) == w
  {
  }

  // ---- A record as a slot ----

  /** The part covered by the CRC: number, record and zero padding. */
  function Body(seqno: bv32, record: Record): (s: seq<bv8>)
    requires |record| <= MAX_PAYLOAD
    ensures |s| == BODY_SIZE
  {
    Seq32(seqno) + record + Fill(0, MAX_PAYLOAD - |record|)
  }

  /** The magic 0x5a47, the CRC, the body; all words little-endian. */
  function Encode(seqno: bv32, record: Record): (s: seq<bv8>)
    requires |record| <= MAX_PAYLOAD
    ensures |s| == SLOT_SIZE
  {
    [0x47, 0x5a] + Bytes16(Crc(CRC_SEED, Body(seqno, record))) + Body(seqno, record)
  }

  predicate SlotValid(bytes: seq<bv8>)
    requires |bytes| == SLOT_SIZE
  {
    bytes[..2] == [0x47, 0x5a] && WordOf(bytes[2..4]) == Crc(CRC_SEED, bytes[4..])
  }

  /** How the logger sees 32 bytes when its records are `size` bytes long. */
  function Decode(bytes: seq<bv8>, size: nat): Slot
    requires |bytes| == SLOT_SIZE && size <= MAX_PAYLOAD
  {
    if SlotValid(bytes) then Slot.Valid(SeqOf(bytes[4..8]) as nat, bytes[8..8 + size])
    else if bytes == Fill(0xff, SLOT_SIZE) then Erased
    else Garbage
  }

  lemma DecodeEncode(seqno: bv32, record: Record)
    requires |record| <= MAX_PAYLOAD
    ensures Decode(Encode(seqno, record), |record|) == Slot.Valid(seqno as nat, record)
  {
    hide Crc, Seq32, SeqOf, Bytes16, WordOf;
    var bytes := Encode(seqno, record);
    var body := Body(seqno, record);
    assert bytes[..2] == [0x47, 0x5a];
    assert bytes[2..4] == Bytes16(Crc(CRC_SEED, body));
    assert bytes[4..] == body;
    assert bytes[4..8] == Seq32(seqno);
    assert bytes[8..8 + |record|] == record;
    WordRoundTrip(Crc(CRC_SEED, body));
    SeqRoundTrip(seqno);
  }

  // ---- Programming ----

  /** NOR programming only clears bits. */
  function Program(before: seq<bv8>, data: seq<bv8>): (after: seq<bv8>)
    requires |before| == |data|
    ensures |after| == |before|
  {
    seq(|before|, i requires 0 <= i < |before| => before[i] & data[i])
  }

  lemma AndIdentity(b: bv8)
    ensures 0xff & b == b && b & 0xff == b && b & b == b
  {
  }

  /** A write that stopped after k bytes of an erased slot. */
  function TornBytes(seqno: bv32, record: Record, k: nat): (s: seq<bv8>)
    requires |record| <= MAX_PAYLOAD && k <= SLOT_SIZE
    ensures |s| == SLOT_SIZE
  {
    Encode(seqno, record)[..k] + Fill(0xff, SLOT_SIZE - k)
  }

  /** Programming the first k bytes of a record into an erased slot leaves exactly
      these bytes, and all 32 of them the record itself. */
  lemma ProgramErased(seqno: bv32, record: Record, k: nat)
    requires |record| <= MAX_PAYLOAD && k <= SLOT_SIZE
    ensures Program(Fill(0xff, SLOT_SIZE), TornBytes(seqno, record, k)) == TornBytes(seqno, record, k)
    ensures TornBytes(seqno, record, SLOT_SIZE) == Encode(seqno, record)
    ensures Decode(TornBytes(seqno, record, SLOT_SIZE), |record|) == Slot.Valid(seqno as nat, record)
    ensures Decode(TornBytes(seqno, record, 0), |record|) == Erased
  {
    hide Encode, SlotValid, Decode;
    forall i | 0 <= i < SLOT_SIZE
      ensures 0xff & TornBytes(seqno, record, k)[i] == TornBytes(seqno, record, k)[i]
    {
      AndIdentity(TornBytes(seqno, record, k)[i]);
    }
    assert TornBytes(seqno, record, SLOT_SIZE) == Encode(seqno, record);
    DecodeEncode(seqno, record);
    assert TornBytes(seqno, record, 0) == Fill(0xff, SLOT_SIZE);
    ErasedDecodes(|record|);
  }

  lemma ErasedDecodes(size: nat)
    requires size <= MAX_PAYLOAD
    ensures Decode(Fill(0xff, SLOT_SIZE), size) == Erased
  {
    hide Crc;
    var blank := Fill(0xff, SLOT_SIZE);
    assert blank[..2][0] != [0x47, 0x5a][0];
  }

  // ---- Torn writes ----

  lemma {:induction false} CrcOfOnes(n: nat)
    ensures Crc(0, Fill(0xff, n)) == OnesCrc(n)
  {
    hide ByteStep;
    if n > 0 {
      CrcOfOnes(n - 1);
      assert Fill(0xff, n)[..n - 1] == Fill(0xff, n - 1);
    }
  }

  lemma OnesAgainstZeros(n: nat)
    ensures XorBytes(Fill(0xff, n), Fill(0, n)) == Fill(0xff, n)
  {
    assert XorByte(0xff, 0) == 0xff;
    hide XorByte;
  }

  /** Padding that should be zero but is still erased always changes the CRC. */
  lemma ErasedPaddingDetected(prefix: seq<bv8>, n: nat)
    requires 1 <= n <= 24
    ensures Crc(CRC_SEED, prefix + Fill(0xff, n)) != Crc(CRC_SEED, prefix + Fill(0, n))
  {
    hide *;
    var u := Crc(CRC_SEED, prefix);
    CrcAppend(CRC_SEED, prefix, Fill(0xff, n));
    CrcAppend(CRC_SEED, prefix, Fill(0, n));
    CrcLinear(u, u, Fill(0xff, n), Fill(0, n));
    XorIsZero(u);
    XorIsZero(Crc(u, Fill(0, n)));
    OnesAgainstZeros(n);
    CrcOfOnes(n);
    OnesNotZero(n);
  }

  /** A write that stopped anywhere inside the zero padding is always rejected. */
  lemma TornInPaddingRejected(seqno: bv32, record: Record, k: nat)
    requires |record| <= MAX_PAYLOAD && HEADER_SIZE + SEQ_SIZE + |record| <= k < SLOT_SIZE
    ensures Decode(TornBytes(seqno, record, k), |record|) == Garbage
  {
    var bytes, body, n := TornBytes(seqno, record, k), Body(seqno, record), SLOT_SIZE - k;
    assert bytes[2..4] == Bytes16(Crc(CRC_SEED, body));
    assert body == body[..k - 4] + Fill(0, n);
    assert bytes[4..] == body[..k - 4] + Fill(0xff, n);
    assert bytes[0] == 0x47;
    hide Crc, Bytes16, WordOf, Encode, TornBytes, Body;
    WordRoundTrip(Crc(CRC_SEED, body));
    ErasedPaddingDetected(body[..k - 4], n);
    assert Fill(0xff, SLOT_SIZE)[0] == 0xff;
  }

  lemma OnesCrc26()
    ensures OnesCrc(26) == 0xf322
  {
    assert OnesCrc(5) == 0xc360;
    assert OnesCrc(10) == 0x47d8;
    assert OnesCrc(15) == 0x981c;
    assert OnesCrc(20) == 0xb352;
    assert OnesCrc(25) == 0x9bdf;
  }

  /** Two erased bytes clear the register that the CRC starts from. */
  lemma TwoErasedBytes()
    ensures Crc(CRC_SEED, [0xff, 0xff]) == 0
  {
    assert [0xff, 0xff][..1] == [0xff] && [0xff][..0] == [];
    assert ByteStep(0xffff, 0xff) == 0xff00;
    assert ByteStep(0xff00, 0xff) == 0;
  }

  lemma ErasedBodyCrc()
    ensures Crc(CRC_SEED, Fill(0xff, BODY_SIZE)) == 0xf322
  {
    hide Crc, OnesCrc;
    var rest := Fill(0xff, BODY_SIZE - 2);
    assert Fill(0xff, BODY_SIZE) == [0xff, 0xff] + rest;
    CrcAppend(CRC_SEED, [0xff, 0xff], rest);
    TwoErasedBytes();
    CrcOfOnes(BODY_SIZE - 2);
    OnesCrc26();
  }

  /** A write that stopped inside the header is always rejected. */
  lemma TornInHeaderRejected(seqno: bv32, record: Record, k: nat)
    requires |record| <= MAX_PAYLOAD && 0 < k < HEADER_SIZE
    ensures Decode(TornBytes(seqno, record, k), |record|) == Garbage
  {
    var bytes := TornBytes(seqno, record, k);
    assert bytes[0] == 0x47 && bytes[3] == 0xff;
    assert Fill(0xff, SLOT_SIZE)[0] == 0xff;
    if k == 1 {
      assert bytes[..2][1] == 0xff;
    } else {
      assert bytes[4..] == Fill(0xff, BODY_SIZE);
      ErasedBodyCrc();
      HighByte(bytes[2..4]);
    }
  }

  lemma HighByte(b: seq<bv8>)
    requires |b| == 2 && b[1] == 0xff
    ensures WordOf(b) != 0xf322
  {
  }

  /** Corruption of a stored slot confined to two adjacent bytes of its body is
      always rejected. */
  lemma CorruptedBodyRejected(seqno: bv32, record: Record, bytes: seq<bv8>, k: nat)
    requires |record| <= MAX_PAYLOAD && |bytes| == SLOT_SIZE && HEADER_SIZE <= k && k + 2 <= SLOT_SIZE
    requires forall i :: 0 <= i < SLOT_SIZE && i != k && i != k + 1 ==> bytes[i] == Encode(seqno, record)[i]
    ensures SlotValid(bytes) <==> bytes == Encode(seqno, record)
  {
    var good, body := Encode(seqno, record), Body(seqno, record);
    assert good[..2] == [0x47, 0x5a] && good[2..4] == Bytes16(Crc(CRC_SEED, body)) && good[4..] == body;
    assert bytes[..2] == good[..2] && bytes[2..4] == good[2..4];
    assert bytes == bytes[..4] + bytes[4..] && good == good[..4] + good[4..];
    hide Crc, Bytes16, WordOf, Encode, Body;
    WordRoundTrip(Crc(CRC_SEED, body));
    WindowDetected(CRC_SEED, bytes[4..], body, k - 4);
  }

  /** Words are stored low byte first. */
  lemma LittleEndian()
    ensures Seq32(0x0403_0201) == [1, 2, 3, 4] && SeqOf([1, 2, 3, 4]) == 0x0403_0201
    ensures Bytes16(0x0201) == [1, 2] && WordOf([1, 2]) == 0x0201
  {
  }

  /** Where the parts of a slot are: magic, CRC, number, record, zeros. */
  lemma SlotLayout(seqno: bv32, record: Record)
    requires |record| <= MAX_PAYLOAD
    ensures var bytes := Encode(seqno, record);
      && bytes[0] == 0x47 && bytes[1] == 0x5a
      && bytes[2..4] == Bytes16(Crc(0xffff, bytes[4..]))
      && bytes[4..8] == Seq32(seqno) && bytes[8..8 + |record|] == record
      && forall i :: 8 + |record| <= i < 32 ==> bytes[i] == 0
  {
    hide Crc, Seq32, Bytes16;
    var bytes, body := Encode(seqno, record), Body(seqno, record);
    assert bytes[4..] == body;
  }

  /** Any damage to the header of a stored slot is rejected, however little. */
  lemma CorruptedHeaderRejected(seqno: bv32, record: Record, bytes: seq<bv8>)
    requires |record| <= MAX_PAYLOAD && |bytes| == SLOT_SIZE
    requires forall i :: HEADER_SIZE <= i < SLOT_SIZE ==> bytes[i] == Encode(seqno, record)[i]
    ensures SlotValid(bytes) <==> bytes == Encode(seqno, record)
  {
    var good, body := Encode(seqno, record), Body(seqno, record);
    assert good[..2] == [0x47, 0x5a] && good[2..4] == Bytes16(Crc(CRC_SEED, body)) && good[4..] == body;
    assert bytes[4..] == body;
    hide Crc, Encode, Body, Bytes16, WordOf;
    WordRoundTrip(Crc(CRC_SEED, body));
    if SlotValid(bytes) {
      WordDetermines(bytes[2..4], good[2..4]);
      assert bytes == bytes[..2] + bytes[2..4] + bytes[4..];
      assert good == good[..2] + good[2..4] + good[4..];
    }
  }

  lemma WordDetermines(a: seq<bv8>, b: seq<bv8>)
    requires |a| == |b| == 2 && WordOf(a) == WordOf(b)
    ensures a == b
  {
    hide *;
    BytesOfWord(a[0], a[1]);
    BytesOfWord(b[0], b[1]);
    assert a == [a[0], a[1]] && b == [b[0], b[1]];
  }

  lemma BytesOfWord(low: bv8, high: bv8)
    ensures Bytes16(WordOf([low, high])) == [low, high]
  {
  }
}
