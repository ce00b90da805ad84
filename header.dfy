/** The fixed header at the start of a final-block message:
      [32-byte DS block number] [4-byte consensus id] [1-byte shard id]
    all big-endian, followed by the final block and the sharing setup. */
module Header {
  import opened Wire

  /** Bytes the header occupies. */
  const HEADER_SIZE: nat := UINT256_SIZE + UINT32_SIZE + UINT8_SIZE

  datatype AuxInfo = AuxInfo(dsBlockNum: nat, consensusID: nat, shardId: nat)

  /** The three header fields at `off`, with the offset just past them;
      `Fail` when the message is too short to hold them. */
  function DecodeAux(msg: seq<byte>, off: nat): (r: Decoded<AuxInfo>)
    ensures r.Ok? ==> r.next == off + 37 <= |msg|
  {
    if off + HEADER_SIZE > |msg| then Fail
    else
      Ok(AuxInfo(BigEndianAt(msg, off, UINT256_SIZE),
                 BigEndianAt(msg, off + UINT256_SIZE, UINT32_SIZE),
                 msg[off + UINT256_SIZE + UINT32_SIZE]),
         off + HEADER_SIZE)
  }

  /** The header as the directory service writes it. */
  function EncodeAux(a: AuxInfo): (r: seq<byte>)
    ensures |r| == HEADER_SIZE
  {
    ToBigEndian(a.dsBlockNum, UINT256_SIZE) + ToBigEndian(a.consensusID, UINT32_SIZE)
      + ToBigEndian(a.shardId, UINT8_SIZE)
  }

  /** Every field fits its width. */
  predicate AuxFits(a: AuxInfo)
  {
    a.dsBlockNum < Pow256(UINT256_SIZE) && a.consensusID < Pow256(UINT32_SIZE) && a.shardId < 256
  }

  /** The header a node accepts: the DS block number names the latest DS
      block (one less than the DS chain's block count) and the consensus id
      is the node's current one. */
  predicate Accepts(a: AuxInfo, dsBlockCount: nat, consensusID: nat)
  {
    a.dsBlockNum + 1 == dsBlockCount && a.consensusID == consensusID
  }

  /** A header written at `off` reads back field for field, and decoding
      stops right after it. */
  lemma AuxRoundTrip(msg: seq<byte>, off: nat, a: AuxInfo)
    requires AuxFits(a) && BytesAt(msg, off, EncodeAux(a))
    ensures DecodeAux(msg, off) == Ok(a, off + HEADER_SIZE)
  {
    var d := ToBigEndian(a.dsBlockNum, UINT256_SIZE);
    var c := ToBigEndian(a.consensusID, UINT32_SIZE);
    var s := ToBigEndian(a.shardId, UINT8_SIZE);
    BytesAtSplit(msg, off, EncodeAux(a), d + c, s);
    BytesAtSplit(msg, off, d + c, d, c);
    ReadWritten(msg, off, a.dsBlockNum, UINT256_SIZE);
    ReadWritten(msg, off + UINT256_SIZE, a.consensusID, UINT32_SIZE);
    ReadWritten(msg, off + UINT256_SIZE + UINT32_SIZE, a.shardId, UINT8_SIZE);
  }

  /** Whatever header was read, it is the decoding of its own encoding:
      its fields fit and the bytes read are exactly that encoding. */
  lemma AuxSound(msg: seq<byte>, off: nat, a: AuxInfo, o: nat)
    requires DecodeAux(msg, off) == Ok(a, o)
    ensures AuxFits(a) && o == off + HEADER_SIZE && BytesAt(msg, off, EncodeAux(a))
  {
    var o2 := off + UINT256_SIZE;
    var o3 := o2 + UINT32_SIZE;
    WrittenRead(msg, off, UINT256_SIZE);
    WrittenRead(msg, o2, UINT32_SIZE);
    WrittenRead(msg, o3, UINT8_SIZE);
    BytesAtJoin(msg, off, ToBigEndian(a.dsBlockNum, UINT256_SIZE), ToBigEndian(a.consensusID, UINT32_SIZE));
    BytesAtJoin(msg, off, ToBigEndian(a.dsBlockNum, UINT256_SIZE) + ToBigEndian(a.consensusID, UINT32_SIZE),
                ToBigEndian(a.shardId, UINT8_SIZE));
    assert a.shardId == BigEndianAt(msg, o3, UINT8_SIZE);
  }
}
