/** Bytes, and numbers as bytes with the low byte first. */
module LittleEndians {
  type Byte = x: int | 0 <= x < 0x100

  function Power256(n: nat): (p: nat)
    ensures p > 0
  {
    if n == 0 then 1 else 0x100 * Power256(n - 1)
  }

  function LittleEndian(a: nat, size: nat): (s: seq<Byte>)
    ensures |s| == size
  {
    if size == 0 then [] else [a % 0x100] + LittleEndian(a / 0x100, size - 1)
  }

  function ReadLittleEndian(s: seq<Byte>): nat {
    if s == [] then 0 else s[0] + 0x100 * ReadLittleEndian(s[1..])
  }

  lemma {:induction false} LittleEndianRoundTrip(a: nat, size: nat)
    requires a < Power256(size)
    ensures ReadLittleEndian(LittleEndian(a, size)) == a
  {
    if size > 0 {
      LittleEndianRoundTrip(a / 0x100, size - 1);
      assert LittleEndian(a, size)[1..] == LittleEndian(a / 0x100, size - 1);
    }
  }
}
