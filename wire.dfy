/** Byte-level helpers shared by the final-block and forward-transaction
    message formats: fixed field widths and the big-endian number codec
    that the wire format uses for every integer field. */
module Wire {

  type byte = b: nat | b < 256

  /** Width in bytes of a 256-bit block number field. */
  const UINT256_SIZE: nat := 32
  /** Width in bytes of a 32-bit count, consensus id or port field. */
  const UINT32_SIZE: nat := 4
  /** Width in bytes of the shard id field. */
  const UINT8_SIZE: nat := 1
  /** Width in bytes of a transaction id or a transaction-root hash. */
  const TRAN_HASH_SIZE: nat := 32
  /** Width in bytes of a peer's IP address. */
  const IP_SIZE: nat := 16
  /** Width in bytes of a peer's listening port. */
  const PORT_SIZE: nat := 4

  /** The outcome of decoding a field at an offset: the value and the
      offset just past it, or failure when the message is too short. */
  datatype Decoded<T> = Fail | Ok(value: T, next: nat)

  /** 256 to the power n: one more than the largest number n bytes hold. */
  function Pow256(n: nat): (r: nat)
    ensures r >= 1
  {
    if n == 0 then 1 else 256 * Pow256(n - 1)
  }

  /** The number that the `w` bytes of `msg` starting at `off` spell, most
      significant byte first. */
  function BigEndianAt(msg: seq<byte>, off: nat, w: nat): nat
    requires off + w <= |msg|
  {
    if w == 0 then 0 else BigEndianAt(msg, off, w - 1) * 256 + msg[off + w - 1]
  }

  /** `n` written in exactly `w` bytes, most significant byte first
      (anything that does not fit in `w` bytes is cut off). */
  function ToBigEndian(n: nat, w: nat): (r: seq<byte>)
    ensures |r| == w
  {
    if w == 0 then [] else ToBigEndian(n / 256, w - 1) + [n % 256]
  }

  /** The bytes of `msg` from `off` on begin with `enc`. */
  predicate BytesAt(msg: seq<byte>, off: nat, enc: seq<byte>)
  {
    off + |enc| <= |msg| && forall i :: 0 <= i < |enc| ==> msg[off + i] == enc[i]
  }

  /** Where `a + b` sits, `a` sits, and `b` right after it. */
  lemma BytesAtSplit(msg: seq<byte>, off: nat, c: seq<byte>, a: seq<byte>, b: seq<byte>)
    requires BytesAt(msg, off, c) && c == a + b
    ensures BytesAt(msg, off, a) && BytesAt(msg, off + |a|, b)
  {
    forall i | 0 <= i < |a| ensures msg[off + i] == a[i] {
      assert c[i] == a[i];
    }
    forall i | 0 <= i < |b| ensures msg[off + |a| + i] == b[i] {
      assert c[|a| + i] == b[i];
    }
  }

  /** `a` followed right after by `b` is `a + b`. */
  lemma BytesAtJoin(msg: seq<byte>, off: nat, a: seq<byte>, b: seq<byte>)
    requires BytesAt(msg, off, a) && BytesAt(msg, off + |a|, b)
    ensures BytesAt(msg, off, a + b)
  {
    forall i | 0 <= i < |a + b| ensures msg[off + i] == (a + b)[i] {
      if i >= |a| {
        assert msg[off + |a| + (i - |a|)] == b[i - |a|];
      }
    }
  }

  lemma DivBound(n: nat, p: nat)
    requires n < 256 * p
    ensures n / 256 < p
  {
  }

  /** Reading back a number written in `w` bytes gives the number, when it
      fits in `w` bytes. */
  lemma {:induction false} ReadWritten(msg: seq<byte>, off: nat, n: nat, w: nat)
    requires n < Pow256(w) && BytesAt(msg, off, ToBigEndian(n, w))
    ensures off + w <= |msg| && BigEndianAt(msg, off, w) == n
  {
    if w > 0 {
      BytesAtSplit(msg, off, ToBigEndian(n, w), ToBigEndian(n / 256, w - 1), [n % 256]);
      DivBound(n, Pow256(w - 1));
      ReadWritten(msg, off, n / 256, w - 1);
      assert msg[off + (w - 1) + 0] == [n % 256][0];
    }
  }

  /** Writing back a number read from `w` bytes gives those bytes, and the
      number fits in `w` bytes. */
  lemma {:induction false} WrittenRead(msg: seq<byte>, off: nat, w: nat)
    requires off + w <= |msg|
    ensures BigEndianAt(msg, off, w) < Pow256(w)
    ensures BytesAt(msg, off, ToBigEndian(BigEndianAt(msg, off, w), w))
  {
    if w > 0 {
      var hi, lo := BigEndianAt(msg, off, w - 1), msg[off + w - 1];
      var n := BigEndianAt(msg, off, w);
      WrittenRead(msg, off, w - 1);
      assert n / 256 == hi && n % 256 == lo;
      BytesAtJoin(msg, off, ToBigEndian(hi, w - 1), [lo]);
    }
  }
}
