/** Little-endian base-128 numbers, as section 7.6 of the DWARF Debugging Information Format,
    Version 3 defines them. */
module Leb128 {
  import opened LittleEndians

  function Uleb(n: nat): (s: seq<Byte>)
    ensures |s| > 0
  {
    if n < 0x80 then [n] else [n % 0x80 + 0x80] + Uleb(n / 0x80)
  }

  /** The last byte of a signed number carries the sign in its second highest bit. */
  predicate SlebLast(n: int) {
    -0x40 <= n < 0x40
  }

  function Sleb(n: int): (s: seq<Byte>)
    ensures |s| > 0
    decreases if n < 0 then -n else n
  {
    if SlebLast(n) then [n % 0x80] else [n % 0x80 + 0x80] + Sleb(n / 0x80)
  }

  datatype Parsed<T> = Parsed(value: T, rest: seq<Byte>) | Truncated

  function ReadUleb(s: seq<Byte>): (r: Parsed<nat>)
    ensures r.Parsed? ==> |r.rest| < |s|
  {
    if s == [] then Truncated
    else if s[0] < 0x80 then Parsed(s[0], s[1..])
    else
      var r := ReadUleb(s[1..]);
      if r.Truncated? then Truncated else Parsed(s[0] - 0x80 + 0x80 * r.value, r.rest)
  }

  function ReadSleb(s: seq<Byte>): (r: Parsed<int>)
    ensures r.Parsed? ==> |r.rest| < |s|
  {
    if s == [] then Truncated
    else if s[0] < 0x80 then Parsed((s[0] as int) - (if s[0] < 0x40 then 0 else 0x80), s[1..])
    else
      var r := ReadSleb(s[1..]);
      if r.Truncated? then Truncated else Parsed(s[0] - 0x80 + 0x80 * r.value, r.rest)
  }

  lemma {:induction false} UlebRoundTrip(n: nat, rest: seq<Byte>)
    ensures ReadUleb(Uleb(n) + rest) == Parsed(n, rest)
  {
    var s := Uleb(n) + rest;
    if n < 0x80 {
      assert s[1..] == rest;
    } else {
      UlebRoundTrip(n / 0x80, rest);
      assert s[1..] == Uleb(n / 0x80) + rest;
    }
  }

  lemma {:induction false} SlebRoundTrip(n: int, rest: seq<Byte>)
    ensures ReadSleb(Sleb(n) + rest) == Parsed(n, rest)
    decreases if n < 0 then -n else n
  {
    LebParts(n, true);
    var s := Sleb(n) + rest;
    if SlebLast(n) {
      assert s[0] == n % 0x80 && s[1..] == rest;
    } else {
      SlebRoundTrip(n / 0x80, rest);
      assert s[0] == n % 0x80 + 0x80 && s[1..] == Sleb(n / 0x80) + rest;
    }
  }

  /** A larger number is not shorter. */
  lemma {:induction false} UlebMonotone(n: nat, m: nat)
    requires n <= m
    ensures |Uleb(n)| <= |Uleb(m)|
    decreases m
  {
    if n >= 0x80 {
      UlebMonotone(n / 0x80, m / 0x80);
    }
  }

  /** A signed or an unsigned number. */
  function Leb(n: int, sign: bool): (s: seq<Byte>)
    requires sign || n >= 0
    ensures |s| > 0
  {
    if sign then Sleb(n) else Uleb(n)
  }

  predicate LastByte(v: int, sign: bool) {
    if sign then SlebLast(v) else v < 0x80
  }

  lemma LebParts(v: int, sign: bool)
    requires sign || v >= 0
    ensures LastByte(v, sign) ==> Leb(v, sign) == [v % 0x80]
    ensures !LastByte(v, sign) ==> Leb(v, sign) == [v % 0x80 + 0x80] + Leb(v / 0x80, sign)
    ensures !LastByte(v, sign) ==> if v < 0 then v < v / 0x80 < 0 else 0 <= v / 0x80 < v
  {
  }

  /** The program's test for more bytes, on the bits shifted off and on those that are left. */
  predicate More(sign: bool, byte: nat, left: int) {
    if sign then !((left == 0 && byte < 0x40) || (left == -1 && byte >= 0x40)) else left != 0
  }

  /** The bytes of a number are those that this test asks for. */
  lemma {:induction false} MoreBytes(v: int, sign: bool)
    requires sign || v >= 0
    ensures var byte, left := v % 0x80, v / 0x80;
      if More(sign, byte, left) then (sign || left >= 0) && Leb(v, sign) == [byte + 0x80] + Leb(left, sign)
      else Leb(v, sign) == [byte]
  {
    LebParts(v, sign);
  }

  /** How many bytes a number takes. */
  method SizeofLeb128(value: int, sign: bool) returns (size: nat)
    requires sign || value >= 0
    ensures size == |Leb(value, sign)|
  {
    hide Leb, More;
    ghost var total := |Leb(value, sign)|;
    size := 0;
    var v, more := value, true;
    while more
      invariant more ==> (sign || v >= 0) && size + |Leb(v, sign)| == total
      invariant !more ==> size == total
      decreases total - size
    {
      MoreBytes(v, sign);
      var byte: nat := v % 0x80;
      v := v / 0x80;
      size := size + 1;
      more := More(sign, byte, v);
    }
  }

  /** Writes a number at p. */
  method OutputLeb128(buffer: array<Byte>, p: nat, value: int, sign: bool) returns (size: nat)
    requires sign || value >= 0
    requires p + |Leb(value, sign)| <= buffer.Length
    modifies buffer
    ensures size == |Leb(value, sign)|
    ensures buffer[..p + size] == old(buffer[..p]) + Leb(value, sign)
  {
    hide Leb, More;
    ghost var before, all := buffer[..p], Leb(value, sign);
    size := 0;
    var v, more := value, true;
    while more
      invariant size <= |all|
      invariant more ==> (sign || v >= 0) && size + |Leb(v, sign)| == |all|
      invariant more ==> buffer[..p + size] + Leb(v, sign) == before + all
      invariant !more ==> size == |all| && buffer[..p + size] == before + all
      decreases |all| - size
    {
      MoreBytes(v, sign);
      ghost var done := buffer[..p + size];
      var byte: nat := v % 0x80;
      v := v / 0x80;
      more := More(sign, byte, v);
      var x: Byte := if more then byte + 0x80 else byte;
      buffer[p + size] := x;
      size := size + 1;
      assert buffer[..p + size] == done + [x];
    }
  }
}
