/**
 * lab01/deteccao_de_erro/codigo.py: the manual CRC over '0'/'1' strings,
 * computed in place on a character list (here an array) by long division.
 */
module Codigo {
  import opened CrcSpec

  /**
   * `xor_bits(a, b)`: builds the result one character at a time, '0' where
   * a and b agree and '1' where they differ. Python indexes b[i] for every
   * i < len(a), so b must be at least as long as a.
   */
  method XorBits(a: string, b: string) returns (resultado: string)
    requires |a| <= |b|
    ensures |resultado| == |a| && IsBits(resultado)
    ensures forall i :: 0 <= i < |a| ==> (resultado[i] == '0' <==> a[i] == b[i])
    ensures resultado == Xor(a, b)
  {
    resultado := "";
    for i := 0 to |a|
      invariant |resultado| == i
      invariant forall k :: 0 <= k < i ==> resultado[k] == XorChar(a[k], b[k])
    {
      if a[i] == b[i] {
        resultado := resultado + "0";
      } else {
        resultado := resultado + "1";
      }
    }
  }

  /**
   * The division loop of `calcular_crc_manual`: for each of the first n
   * positions holding '1', the window [i, i + r + 1) is XOR-ed with the
   * generator and written back from i + 1 on. Every write stays inside the
   * window, and the window inside the buffer.
   */
  method DivideInPlace(mensagemAumentada: array<char>, n: nat, geradorBits: string)
    requires n <= mensagemAumentada.Length && n + |geradorBits| <= mensagemAumentada.Length + 1
    modifies mensagemAumentada
    ensures mensagemAumentada[..] == Divide(old(mensagemAumentada[..]), geradorBits, n)
  {
    var r := |geradorBits| - 1;
    for i := 0 to n
      invariant mensagemAumentada[..] == Divide(old(mensagemAumentada[..]), geradorBits, i)
    {
      ghost var before := mensagemAumentada[..];
      if mensagemAumentada[i] == '1' {
        var inicio := i;
        var fim := i + r + 1;
        var janelaAtual := mensagemAumentada[inicio..fim];
        var resultadoXor := XorBits(janelaAtual, geradorBits);
        var j := 1;
        while j < |resultadoXor|
          invariant 1 <= j <= if |resultadoXor| == 0 then 1 else |resultadoXor|
          invariant forall p :: 0 <= p < mensagemAumentada.Length ==>
            mensagemAumentada[p] == if i < p < i + j then resultadoXor[p - i] else before[p]
        {
          mensagemAumentada[i + j] := resultadoXor[j];
          j := j + 1;
        }
        StepWritesWindow(before, geradorBits, i, resultadoXor, mensagemAumentada[..]);
      } else {
        assert mensagemAumentada[..] == Step(before, geradorBits, i);
      }
      assert Divide(old(mensagemAumentada[..]), geradorBits, i + 1) == Step(before, geradorBits, i);
    }
  }

  /** Writing the XOR of the window back from i + 1 on is one division step. */
  lemma StepWritesWindow(before: string, g: string, i: nat, x: string, after: string)
    requires i < |before| && i + |g| <= |before| && before[i] == '1'
    requires x == Xor(before[i..i + |g|], g)
    requires |after| == |before|
    requires forall p :: 0 <= p < |after| ==>
      after[p] == if i < p < i + (if |x| == 0 then 1 else |x|) then x[p - i] else before[p]
    ensures after == Step(before, g, i)
  {
    var s := Step(before, g, i);
    forall p | 0 <= p < |after| ensures after[p] == s[p] {
      if i < p < i + |g| {
        assert before[i..i + |g|][p - i] == before[p];
      }
    }
  }

  /**
   * `calcular_crc_manual(dados_bits, gerador_bits)`: appends r = |G| - 1
   * zeros, divides in place and returns `mensagem_aumentada[-r:]`.
   */
  method CalcularCrcManual(dadosBits: string, geradorBits: string) returns (resto: string)
    ensures resto == CrcManual(dadosBits, geradorBits)
    ensures |geradorBits| >= 2 ==> |resto| == |geradorBits| - 1
    ensures |geradorBits| == 1 ==> resto == dadosBits
  {
    var r := |geradorBits| - 1;
    var aumentada := dadosBits + Zeros(r);
    var mensagemAumentada := new char[|aumentada|](k requires 0 <= k < |aumentada| => aumentada[k]);
    assert mensagemAumentada[..] == Augmented(dadosBits, geradorBits);
    DivideInPlace(mensagemAumentada, |dadosBits|, geradorBits);
    resto := PyTail(mensagemAumentada[..], r);
    if |geradorBits| == 1 {
      CrcDegreeZeroGenerator(dadosBits, geradorBits);
    }
  }
}
