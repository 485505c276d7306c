/**
 * The record header `ldb_command_insert` puts in front of a payload before
 * handing it to the node writer: two 16-bit lengths, the recordset size
 * (payload + 2) and the record size (payload), each written by `uint16_write`.
 *
 * `uint16_write` is not part of this model; it is taken to store the low
 * byte first (little-endian), the byte order of the platforms LDB targets.
 */
module Framing {
  import opened CText

  const U16_RANGE: nat := 0x1_0000

  /** `uint16_write(p, v)` of a value already truncated to `uint16_t`. */
  function U16(v: nat): (b: seq<byte>)
    ensures |b| == 2
    ensures b[0] == v % 256 && b[0] as int + 256 * b[1] as int == v % U16_RANGE
  {
    var w := v % U16_RANGE;
    [w % 256, w / 256]
  }

  /** The reader's side of `uint16_write`. */
  function ReadU16(b: seq<byte>): (v: nat)
    requires |b| >= 2
    ensures v < U16_RANGE
  {
    b[0] as int + 256 * b[1] as int
  }

  lemma ReadU16OfU16(v: nat)
    ensures ReadU16(U16(v)) == v % U16_RANGE
  {
  }

  /** The framed record: recordset size, record size, payload. */
  function Frame(payload: seq<byte>): (r: seq<byte>)
    ensures |r| == |payload| + 4 && r[4..] == payload
  {
    U16(|payload| + 2) + U16(|payload|) + payload
  }

  /**
   * A reader's view of a framed record: the two headers must agree with each
   * other and with the bytes that follow. None when they do not.
   */
  function Unframe(r: seq<byte>): (p: Option<seq<byte>>)
    ensures p.Some? ==> |r| >= 4 && r[4..] == p.value
  {
    if |r| < 4 then None
    else
      var total, size := ReadU16(r[..2]), ReadU16(r[2..4]);
      if total == size + 2 && size == |r| - 4 then Some(r[4..]) else None
  }

  /**
   * Framing is undone by reading the header back exactly when the payload
   * fits the 16-bit recordset size; a longer payload has its sizes wrapped
   * (src/command.c:457-458 cast the length to `uint16_t`).
   */
  lemma UnframeFrame(payload: seq<byte>)
    ensures Unframe(Frame(payload)).Some? <==> |payload| <= U16_RANGE - 3
    ensures |payload| <= U16_RANGE - 3 ==> Unframe(Frame(payload)) == Some(payload)
  {
    var r, n := Frame(payload), |payload|;
    assert r[..2] == U16(n + 2);
    assert r[2..4] == U16(n);
    ReadU16OfU16(n + 2);
    ReadU16OfU16(n);
    var total, size := (n + 2) % U16_RANGE, n % U16_RANGE;
    if n <= U16_RANGE - 3 {
      assert total == n + 2 && size == n;
    } else if n < U16_RANGE {
      assert size == n && total == n + 2 - U16_RANGE;
    } else {
      assert size < n;
    }
  }

  /**
   * The framing of `ldb_command_insert` (src/command.c:455-459): the payload
   * in `data[..dataLn]` moves four bytes up, as `memmove` copies overlapping
   * ranges, and the two headers fill the room it leaves.
   */
  method FrameInPlace(data: array<byte>, dataLn: nat) returns (recordLn: nat)
    requires dataLn + 4 <= data.Length
    modifies data
    ensures recordLn == dataLn + 4
    ensures data[..recordLn] == Frame(old(data[..dataLn]))
    ensures data[recordLn..] == old(data[recordLn..])
  {
    ghost var payload := data[..dataLn];
    // memmove(data + 4, data, dataln): the ranges overlap, so copy from the top down
    var i := dataLn;
    while i > 0
      invariant 0 <= i <= dataLn
      invariant forall k :: 0 <= k < i ==> data[k] == payload[k]
      invariant forall k :: i <= k < dataLn ==> data[k + 4] == payload[k]
      invariant data[dataLn + 4..] == old(data[dataLn + 4..])
    {
      i := i - 1;
      data[i + 4] := data[i];
    }
    var total, size := U16(dataLn + 2), U16(dataLn);
    data[0], data[1] := total[0], total[1];
    data[2], data[3] := size[0], size[1];
    recordLn := dataLn + 4;
    assert data[..recordLn] == total + size + payload;
  }
}
