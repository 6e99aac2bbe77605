/**
 * CRC-16/MODBUS as computed byte by byte by `crc16_modbus_py` in
 * lab01/deteccao_de_erro/benchmark_crc.py: the reflected polynomial 0xA001,
 * initial value 0xFFFF, no final XOR (the CRC generation procedure of
 * section 6.2.2 of the MODBUS over Serial Line Specification V1.02).
 *
 * Python's unbounded `int` is held in a bv32: every operation involved
 * (XOR with a byte, shift right, XOR with 0xA001) keeps a value below 2^16
 * below 2^16, which the contracts below prove, so the width never matters.
 */
module Modbus {

  const Initial: bv32 := 0xFFFF
  const Polynomial: bv32 := 0xA001

  /** One iteration of the inner `for _ in range(8)` loop. */
  function ShiftOnce(crc: bv32): (r: bv32)
    ensures crc <= 0xFFFF ==> r <= 0xFFFF
  {
    if crc & 1 == 1 then (crc >> 1) ^ Polynomial else crc >> 1
  }

  /** k iterations of the inner loop. */
  function Shifts(crc: bv32, k: nat): (r: bv32)
    ensures crc <= 0xFFFF ==> r <= 0xFFFF
    decreases k
  {
    if k == 0 then crc else Shifts(ShiftOnce(crc), k - 1)
  }

  /** The whole body of the outer loop for one byte. */
  function UpdateByte(crc: bv32, b: bv8): (r: bv32)
    ensures crc <= 0xFFFF ==> r <= 0xFFFF
  {
    Shifts(crc ^ (b as bv32), 8)
  }

  /** The outer loop over `data`, starting from register value `crc`. */
  function CrcFrom(crc: bv32, data: seq<bv8>): (r: bv32)
    ensures crc <= 0xFFFF ==> r <= 0xFFFF
    decreases |data|
  {
    if data == [] then crc else UpdateByte(CrcFrom(crc, data[..|data| - 1]), data[|data| - 1])
  }

  /** `crc16_modbus_py(data)` as a value. */
  function Crc16(data: seq<bv8>): (r: bv32)
    ensures r <= 0xFFFF
  {
    CrcFrom(Initial, data)
  }

  /** The empty message leaves the initial value. */
  lemma Crc16Empty()
    ensures Crc16([]) == 0xFFFF
  {
  }

  /**
   * The computation is incremental: the CRC of a + b is the byte loop over b
   * started from the register value reached after a.
   */
  lemma {:induction false} CrcFromAppend(crc: bv32, a: seq<bv8>, b: seq<bv8>)
    ensures CrcFrom(crc, a + b) == CrcFrom(CrcFrom(crc, a), b)
    decreases |b|
  {
    if b == [] {
      assert a + b == a;
    } else {
      var b' := b[..|b| - 1];
      assert (a + b)[..|a + b| - 1] == a + b';
      CrcFromAppend(crc, a, b');
    }
  }

  /** Low byte of the register: the first CRC byte a MODBUS frame carries. */
  function LowByte(crc: bv32): bv8 { (crc & 0xFF) as bv8 }

  /** High byte of a 16-bit register value: the second CRC byte on the wire. */
  function HighByte(crc: bv32): bv8 requires crc <= 0xFFFF { (crc >> 8) as bv8 }

  /** Feeding any 16-bit register its own value, low byte first, clears it. */
  lemma OwnValueClears(crc: bv32)
    requires crc <= 0xFFFF
    ensures UpdateByte(UpdateByte(crc, LowByte(crc)), HighByte(crc)) == 0
  {
  }

  /**
   * A frame that carries its CRC low byte first, as MODBUS transmits it,
   * has CRC zero: this is how a receiver checks a frame.
   */
  lemma FrameCheck(data: seq<bv8>)
    ensures Crc16(data + [LowByte(Crc16(data)), HighByte(Crc16(data))]) == 0
  {
    var c := Crc16(data);
    CrcFromAppend(Initial, data, [LowByte(c), HighByte(c)]);
    OwnValueClears(c);
    var tail: seq<bv8> := [LowByte(c), HighByte(c)];
    var once := UpdateByte(c, LowByte(c));
    assert tail[..1] == [LowByte(c)] && tail[..1][..0] == [];
    assert CrcFrom(c, [LowByte(c)]) == once;
  }

  /** One more byte at the end is one more iteration of the outer loop. */
  lemma CrcFromSnoc(crc: bv32, a: seq<bv8>, b: bv8)
    ensures CrcFrom(crc, a + [b]) == UpdateByte(CrcFrom(crc, a), b)
  {
    assert (a + [b])[..|a|] == a;
  }

  /** The standard check value: CRC-16/MODBUS of ASCII "123456789" is 0x4B37. */
  lemma CheckValue()
    ensures Crc16([0x31, 0x32, 0x33, 0x34, 0x35, 0x36, 0x37, 0x38, 0x39]) == 0x4B37
  {
    CheckValuePrefixes(9);
    assert CheckMessage()[..9] == CheckMessage();
  }

  /** The register after each prefix of "123456789". */
  lemma {:induction false} CheckValuePrefixes(k: nat)
    requires k <= 9
    ensures CrcFrom(Initial, CheckMessage()[..k]) == CheckRegister(k)
    decreases k
  {
    if k == 0 {
      assert CheckMessage()[..0] == [];
    } else {
      CheckValuePrefixes(k - 1);
      CheckValueByte(k);
      CheckValuePrefix(k);
    }
  }

  /** Byte k of "123456789" takes the register from its value after k - 1 bytes to its value after k. */
  lemma CheckValueByte(k: nat)
    requires 1 <= k <= 9
    ensures UpdateByte(CheckRegister(k - 1), CheckMessage()[k - 1]) == CheckRegister(k)
  {
    CheckValueBytes();
    if k == 1 {
    } else if k == 2 {
    } else if k == 3 {
    } else if k == 4 {
    } else if k == 5 {
    } else if k == 6 {
    } else if k == 7 {
    } else if k == 8 {
    } else {
      assert k == 9;
    }
  }

  /** ASCII "123456789". */
  function CheckMessage(): seq<bv8>
  {
    [0x31, 0x32, 0x33, 0x34, 0x35, 0x36, 0x37, 0x38, 0x39]
  }

  /** The register after k bytes of "123456789". */
  function CheckRegister(k: nat): bv32
  {
    [0xFFFF, 0x947E, 0xF595, 0x7A75, 0x30BA, 0xA471, 0x32E4, 0x9D73, 0x37DD, 0x4B37][if k <= 9 then k else 0]
  }

  lemma CheckValuePrefix(k: nat)
    requires 1 <= k <= 9
    requires CrcFrom(Initial, CheckMessage()[..k - 1]) == CheckRegister(k - 1)
    requires UpdateByte(CheckRegister(k - 1), CheckMessage()[k - 1]) == CheckRegister(k)
    ensures CrcFrom(Initial, CheckMessage()[..k]) == CheckRegister(k)
  {
    var m := CheckMessage();
    assert m[..k] == m[..k - 1] + [m[k - 1]];
    CrcFromSnoc(Initial, m[..k - 1], m[k - 1]);
  }

  /** The register after each byte of "123456789". */
  lemma CheckValueBytes()
    ensures UpdateByte(0xFFFF, 0x31) == 0x947E && UpdateByte(0x947E, 0x32) == 0xF595
    ensures UpdateByte(0xF595, 0x33) == 0x7A75 && UpdateByte(0x7A75, 0x34) == 0x30BA
    ensures UpdateByte(0x30BA, 0x35) == 0xA471 && UpdateByte(0xA471, 0x36) == 0x32E4
    ensures UpdateByte(0x32E4, 0x37) == 0x9D73 && UpdateByte(0x9D73, 0x38) == 0x37DD
    ensures UpdateByte(0x37DD, 0x39) == 0x4B37
  {
  }
}
