/**
 * The CRC functions of lab01/deteccao_de_erro/benchmark_crc.py: its own
 * `xor_bits`, a `calcular_crc_manual` that returns "" for a one-character
 * generator, and the byte-wise CRC-16/MODBUS `crc16_modbus_py`.
 * The division loop of this file is the same text as that of codigo.py and
 * is the one method Codigo.DivideInPlace.
 */
module BenchmarkCrc {
  import opened CrcSpec
  import Codigo
  import opened Modbus

  /** `xor_bits(a, b)`: this variant appends to a list and joins it at the end. */
  method XorBits(a: string, b: string) returns (joined: string)
    requires |a| <= |b|
    ensures |joined| == |a| && IsBits(joined)
    ensures forall i :: 0 <= i < |a| ==> (joined[i] == '0' <==> a[i] == b[i])
    ensures joined == Xor(a, b)
  {
    var resultado: seq<char> := [];
    for i := 0 to |a|
      invariant resultado == Xor(a[..i], b)
    {
      resultado := resultado + [if a[i] == b[i] then '0' else '1'];
    }
    assert a[..|a|] == a;
    joined := resultado;
  }

  /**
   * `calcular_crc_manual(dados_bits, gerador_bits)`: the same division as in
   * codigo.py, except that r == 0 yields "" instead of the whole buffer.
   */
  method CalcularCrcManual(dadosBits: string, geradorBits: string) returns (resto: string)
    ensures |geradorBits| == 1 ==> resto == ""
    ensures |geradorBits| != 1 ==> resto == CrcManual(dadosBits, geradorBits)
    ensures |geradorBits| >= 1 ==> |resto| == |geradorBits| - 1
  {
    var r := |geradorBits| - 1;
    var aumentada := dadosBits + Zeros(r);
    var mensagemAumentada := new char[|aumentada|](k requires 0 <= k < |aumentada| => aumentada[k]);
    assert mensagemAumentada[..] == Augmented(dadosBits, geradorBits);
    Codigo.DivideInPlace(mensagemAumentada, |dadosBits|, geradorBits);
    if r == 0 {
      return "";
    }
    resto := PyTail(mensagemAumentada[..], r);
  }

  /**
   * `crc16_modbus_py(data)`: the register starts at 0xFFFF; each byte is
   * XOR-ed in and followed by eight shift-right steps, XOR-ing 0xA001 after
   * every step that shifts out a 1.
   */
  method Crc16ModbusPy(data: seq<bv8>) returns (crc: bv32)
    ensures crc == Crc16(data)
    ensures crc <= 0xFFFF
  {
    crc := 0xFFFF;
    for idx := 0 to |data|
      invariant crc <= 0xFFFF
      invariant crc == CrcFrom(Initial, data[..idx])
    {
      var byte := data[idx];
      ghost var start := crc;
      crc := crc ^ (byte as bv32);
      ghost var xored := crc;
      for bit := 0 to 8
        invariant Shifts(crc, 8 - bit) == Shifts(xored, 8)
      {
        ghost var prev := crc;
        if crc & 1 == 1 {
          crc := (crc >> 1) ^ 0xA001;
        } else {
          crc := crc >> 1;
        }
        assert crc == ShiftOnce(prev);
      }
      assert crc == UpdateByte(start, byte);
      assert data[..idx + 1] == data[..idx] + [byte];
      CrcFromSnoc(Initial, data[..idx], byte);
    }
    assert data[..|data|] == data;
  }
}
