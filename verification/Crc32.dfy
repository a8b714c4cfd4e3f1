/** The CRC-32 operations of the library. */
module Crc32 {
  import opened Slip
  import opened CrcTable

  const INITIAL: bv32 := 0xFFFF_FFFF

  /** One byte of the table-driven loop. */
  function TableStep(crc: bv32, b: byte): bv32 {
    (crc << 8) ^ TableEntry((((crc >> 24) ^ (b as bv32)) & 0xFF) as bv8)
  }

  function Crc(crc: bv32, data: seq<byte>): bv32
    decreases |data|
  {
    if data == [] then crc else Crc(TableStep(crc, data[0]), data[1..])
  }

  /** Incremental computation: the CRC of a concatenation is that of the second part seeded
      with that of the first. */
  lemma {:induction false} CrcConcat(crc: bv32, a: seq<byte>, b: seq<byte>)
    ensures Crc(crc, a + b) == Crc(Crc(crc, a), b)
    decreases |a|
  {
    hide TableStep;
    if a == [] {
      assert a + b == b;
    } else {
      assert (a + b)[1..] == a[1..] + b;
      CrcConcat(TableStep(crc, a[0]), a[1..], b);
    }
  }

  lemma CrcNext(crc: bv32, data: seq<byte>, i: nat)
    requires i < |data|
    ensures Crc(crc, data[..i + 1]) == TableStep(Crc(crc, data[..i]), data[i])
  {
    hide TableStep;
    assert data[..i + 1] == data[..i] + [data[i]];
    CrcConcat(crc, data[..i], [data[i]]);
    var c := Crc(crc, data[..i]);
    assert Crc(c, [data[i]]) == Crc(TableStep(c, data[i]), []);
  }

  method CalculateCrc32WithInitial(data: seq<byte>, initial: bv32) returns (crc: bv32)
    ensures crc == Crc(initial, data)
  {
    hide Crc;
    crc := initial;
    CrcNothing(initial, data);
    for i := 0 to |data|
      invariant crc == Crc(initial, data[..i])
    {
      CrcNext(initial, data, i);
      crc := TableStep(crc, data[i]);
    }
    assert data[..|data|] == data;
  }

  lemma CrcNothing(crc: bv32, data: seq<byte>)
    ensures Crc(crc, data[..0]) == crc
  {
  }

  method CalculateCrc32(data: seq<byte>) returns (crc: bv32)
    ensures crc == Crc(0xFFFF_FFFF, data)
  {
    crc := CalculateCrc32WithInitial(data, INITIAL);
  }

  // ---------------------------------------------------------- stored little-endian

  function ToBytes(c: bv32): (r: seq<byte>)
    ensures |r| == 4
  {
    [(c & 0xFF) as bv8, ((c >> 8) & 0xFF) as bv8, ((c >> 16) & 0xFF) as bv8, ((c >> 24) & 0xFF) as bv8]
  }

  function FromBytes(s: seq<byte>): bv32
    requires |s| == 4
  {
    (s[0] as bv32) | (s[1] as bv32 << 8) | (s[2] as bv32 << 16) | (s[3] as bv32 << 24)
  }

  // One byte is split off at the top at a time, which keeps the step to integers small.

  lemma TopDigit(c: bv32, low: bv32, b: byte)
    requires low == c & 0xFF_FFFF && b == ((c >> 24) & 0xFF) as bv8
    ensures c as int == low as int + 0x100_0000 * (b as int)
  {
  }

  lemma ThirdDigit(c: bv32, low: bv32, b: byte)
    requires c & 0xFF_FFFF == c && low == c & 0xFFFF && b == ((c >> 16) & 0xFF) as bv8
    ensures c as int == low as int + 0x1_0000 * (b as int)
  {
  }

  lemma LastDigits(c: bv32, a: byte, b: byte)
    requires c & 0xFFFF == c && a == (c & 0xFF) as bv8 && b == ((c >> 8) & 0xFF) as bv8
    ensures c as int == a as int + 0x100 * (b as int)
  {
  }

  lemma LowThree(c: bv32, m: bv32)
    requires m == c & 0xFF_FFFF
    ensures m & 0xFF_FFFF == m && (m >> 16) & 0xFF == (c >> 16) & 0xFF
  {
  }

  lemma LowTwo(c: bv32, m: bv32, l: bv32)
    requires m == c & 0xFF_FFFF && l == m & 0xFFFF
    ensures l & 0xFFFF == l && (l >> 8) & 0xFF == (c >> 8) & 0xFF && l & 0xFF == c & 0xFF
  {
  }

  /** The bytes are the digits of the word in base 256, lowest first. */
  lemma LittleEndian(c: bv32)
    ensures var r := ToBytes(c);
            c as int == r[0] as int + 0x100 * (r[1] as int) + 0x1_0000 * (r[2] as int) + 0x100_0000 * (r[3] as int)
  {
    var r := ToBytes(c);
    var m := c & 0xFF_FFFF;
    var l := m & 0xFFFF;
    LowThree(c, m);
    LowTwo(c, m, l);
    TopDigit(c, m, r[3]);
    ThirdDigit(m, l, r[2]);
    LastDigits(l, r[0], r[1]);
  }

  lemma FromToBytes(c: bv32)
    ensures FromBytes(ToBytes(c)) == c
  {
  }

  lemma ToFromBytes(s: seq<byte>)
    requires |s| == 4
    ensures ToBytes(FromBytes(s)) == s
  {
  }

  /** Four bytes and a word determine each other. */
  lemma StoredIff(c: bv32, s: seq<byte>)
    requires |s| == 4
    ensures FromBytes(s) == c <==> s == ToBytes(c)
  {
    hide FromBytes, ToBytes;
    FromToBytes(c);
    ToFromBytes(s);
  }

  /** A payload followed by its CRC. */
  function WithCrc(p: seq<byte>): seq<byte> {
    p + ToBytes(Crc(INITIAL, p))
  }

  method AppendCrc32(data: array<byte>, length: nat) returns (total: nat)
    requires length + 4 <= data.Length
    modifies data
    ensures total == length + 4
    ensures data[..total] == WithCrc(old(data[..length])) && data[total..] == old(data[total..])
  {
    hide Crc;
    ghost var p := data[..length];
    var crc := CalculateCrc32(data[..length]);
    var b0, b1 := (crc & 0xFF) as bv8, ((crc >> 8) & 0xFF) as bv8;
    var b2, b3 := ((crc >> 16) & 0xFF) as bv8, ((crc >> 24) & 0xFF) as bv8;
    assert ToBytes(crc) == [b0, b1, b2, b3];
    hide ToBytes;
    StoreFour(data, length, b0, b1, b2, b3);
    return length + 4;
  }

  method StoreFour(data: array<byte>, at: nat, a: byte, b: byte, c: byte, d: byte)
    requires at + 4 <= data.Length
    modifies data
    ensures data[..at + 4] == old(data[..at]) + [a, b, c, d] && data[at + 4..] == old(data[at + 4..])
  {
    data[at] := a;
    data[at + 1] := b;
    data[at + 2] := c;
    data[at + 3] := d;
  }

  /** The length 0 is both the answer to too short an input and to an empty payload. */
  method ExtractCrc32(data: seq<byte>) returns (length: nat, crc: Option<bv32>)
    ensures crc.Some? <==> |data| >= 4
    ensures length == if |data| < 4 then 0 else |data| - 4
    ensures forall c :: |data| >= 4 ==> (crc == Some(c) <==> data == data[..length] + ToBytes(c))
  {
    if |data| < 4 { return 0, None; }
    length := |data| - 4;
    var s := data[length..];
    crc := Some((data[length] as bv32) | (data[length + 1] as bv32 << 8)
                | (data[length + 2] as bv32 << 16) | (data[length + 3] as bv32 << 24));
    assert crc.value == FromBytes(s);
    forall c ensures crc == Some(c) <==> data == data[..length] + ToBytes(c) {
      StoredIff(c, s);
      assert data == data[..length] + s;
      assert data == data[..length] + ToBytes(c) ==> s == (data[..length] + ToBytes(c))[length..];
    }
  }

  /** Verification accepts exactly the non-empty payloads with their CRC. */
  method VerifyCrc32(data: seq<byte>) returns (ok: bool)
    ensures ok <==> Verified(data)
  {
    if |data| < 4 {
      NothingVerified(data);
      return false;
    }
    var length, stored := ExtractCrc32(data);
    if length == 0 {
      NothingVerified(data);
      return false;
    }
    var calculated := CalculateCrc32(data[..length]);
    ok := calculated == stored.value;
    VerifiedIff(data);
  }

  ghost predicate Verified(data: seq<byte>) {
    exists p :: p != [] && data == WithCrc(p)
  }

  lemma NothingVerified(data: seq<byte>)
    requires |data| <= 4
    ensures !Verified(data)
  {
  }

  lemma VerifiedIff(data: seq<byte>)
    requires |data| > 4
    ensures Verified(data) <==> data == WithCrc(data[..|data| - 4])
  {
  }
}
