/**
 * The Big5 pointer space and the packing of a pointer into the two bytes of
 * its Big5 encoding, as the table generator writes it into the reverse table.
 * The arithmetic is that of the Big5 encoder of the WHATWG Encoding Standard
 * (section 12.1.2), and `Unpack` is the pointer formula of its Big5 decoder.
 */
module Big5Pointer {
  import opened Wrappers

  /** Number of trail bytes per lead byte. */
  const RowWidth := 157
  /** Number of lead bytes, 0x81 through 0xFE. */
  const RowCount := 126
  /** Pointers accepted by the generator lie in [0, NumPointers). */
  const NumPointers := RowCount * RowWidth

  type uint16 = x: int | 0 <= x < 0x1_0000

  predicate InRange(x: int) {
    0 <= x < NumPointers
  }

  /** A valid Big5 trail byte: 0x40..0x7E or 0xA1..0xFE. */
  predicate IsTrailByte(b: int) {
    (0x40 <= b <= 0x7E) || (0xA1 <= b <= 0xFE)
  }

  /** A 16-bit value whose high byte is a Big5 lead byte and whose low byte a trail byte. */
  predicate IsBig5Code(p: int) {
    0 <= p < 0x1_0000 && 0x81 <= p / 256 <= 0xFE && IsTrailByte(p % 256)
  }

  /**
   * The packed byte pair for pointer x: lead byte 0x81 + x/157 in the high
   * byte; the column x%157 shifted by 0x40 below 0x3F and by 0x62 from 0x3F on,
   * which skips the bytes 0x7F..0xA0, in the low byte. The generator joins the
   * two bytes with a 16-bit `lead << 8 | trail`; since the trail is below 256
   * and the lead at most 0xFE, that is lead * 256 + trail with no wrap-around.
   */
  function Pack(x: int): (p: uint16)
    requires InRange(x)
    ensures IsBig5Code(p)
    ensures p != 0
  {
    var c0, c1 := x / RowWidth, x % RowWidth;
    var trail := if c1 < 0x3F then c1 + 0x40 else c1 + 0x62;
    SplitBytes(0x81 + c0, trail);
    (0x81 + c0) * 256 + trail
  }

  /**
   * The pointer a Big5 byte pair decodes to, if the pair is a valid lead and
   * trail byte: (lead - 0x81) * 157 + (trail - offset), where the offset is
   * 0x40 for a trail byte below 0x7F and 0x62 otherwise.
   */
  function Unpack(p: int): (r: Option<int>)
    ensures r.Some? <==> IsBig5Code(p)
    ensures r.Some? ==> InRange(r.value)
  {
    if !IsBig5Code(p) then None
    else
      var lead, trail := p / 256, p % 256;
      var offset := if trail < 0x7F then 0x40 else 0x62;
      Some((lead - 0x81) * RowWidth + (trail - offset))
  }

  /** Unpacking the packing of a pointer gives the pointer back. */
  lemma UnpackPack(x: int)
    requires InRange(x)
    ensures Unpack(Pack(x)) == Some(x)
  {
    var c0, c1 := x / RowWidth, x % RowWidth;
    var trail := if c1 < 0x3F then c1 + 0x40 else c1 + 0x62;
    SplitBytes(0x81 + c0, trail);
  }

  /** Every valid byte pair is the packing of the pointer it unpacks to. */
  lemma PackUnpack(p: int)
    requires IsBig5Code(p)
    ensures Unpack(p).Some? && Pack(Unpack(p).value) == p
  {
    var lead, trail := p / 256, p % 256;
    var col := trail - (if trail < 0x7F then 0x40 else 0x62);
    SplitRow(lead - 0x81, col);
    SplitBytes(lead, trail);
  }

  /** Distinct pointers pack to distinct byte pairs. */
  lemma PackInjective(x1: int, x2: int)
    requires InRange(x1) && InRange(x2)
    ensures Pack(x1) == Pack(x2) <==> x1 == x2
  {
    UnpackPack(x1);
    UnpackPack(x2);
  }

  /** The high and low bytes of lead * 256 + trail. */
  lemma SplitBytes(lead: int, trail: int)
    requires 0 <= trail < 256
    ensures (lead * 256 + trail) / 256 == lead && (lead * 256 + trail) % 256 == trail
  {
  }

  /** The row and column of row * 157 + col. */
  lemma SplitRow(row: int, col: int)
    requires 0 <= col < RowWidth
    ensures (row * RowWidth + col) / RowWidth == row && (row * RowWidth + col) % RowWidth == col
  {
  }
}
