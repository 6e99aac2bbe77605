/**
 * Bit strings and the long division over GF(2) that the manual CRC of
 * lab01/deteccao_de_erro performs on a list of '0'/'1' characters.
 *
 * A string is a polynomial written most significant coefficient first.
 * `Divide` replays the division loop one step at a time on a value copy of
 * the buffer; the methods in modules Codigo and BenchmarkCrc run the same loop
 * in place on an array and are proved equal to it.
 */
module CrcSpec {

  /** Every character is '0' or '1'. */
  predicate IsBits(s: string) {
    forall i :: 0 <= i < |s| ==> s[i] == '0' || s[i] == '1'
  }

  /** Python's `'0' * n`: the empty string when n is not positive. */
  function Zeros(n: int): (z: string)
    ensures |z| == if n <= 0 then 0 else n
    ensures forall i :: 0 <= i < |z| ==> z[i] == '0'
  {
    seq(if n <= 0 then 0 else n, _ => '0')
  }

  /** The character the XOR loop appends for one position: '0' when equal. */
  function XorChar(x: char, y: char): char {
    if x == y then '0' else '1'
  }

  /** Position-wise XOR of `a` with the first |a| characters of `b`. */
  function Xor(a: string, b: string): (r: string)
    requires |a| <= |b|
  {
    seq(|a|, i requires 0 <= i < |a| => XorChar(a[i], b[i]))
  }

  /** Python's `s[-r:]`, for any integer r. */
  function PyTail(s: string, r: int): (t: string)
    ensures 0 < r <= |s| ==> t == s[|s| - r..]
    ensures r > |s| ==> t == s
    ensures r == 0 ==> t == s
    ensures r < 0 ==> t == if -r >= |s| then "" else s[-r..]
  {
    if r > 0 then (if r >= |s| then s else s[|s| - r..])
    else if r == 0 then s
    else if -r >= |s| then "" else s[-r..]
  }

  /**
   * One iteration i of the division loop: when the buffer holds '1' at i, the
   * window m[i .. i + |g|) is XOR-ed with `g` and written back, except for its
   * first character.
   */
  function Step(m: string, g: string, i: nat): (m': string)
    requires i < |m| && i + |g| <= |m|
    ensures |m'| == |m|
    ensures forall p :: 0 <= p < |m| ==>
      m'[p] == if m[i] == '1' && i < p < i + |g| then XorChar(m[p], g[p - i]) else m[p]
  {
    if m[i] == '1' && |g| > 0 then
      var janela := m[i..i + |g|];
      var x := Xor(janela, g);
      m[..i + 1] + x[1..] + m[i + |g|..]
    else
      m
  }

  /** The buffer after the first k iterations of the division loop. */
  function Divide(m: string, g: string, k: nat): (d: string)
    requires k <= |m| && k + |g| <= |m| + 1
    ensures |d| == |m|
    decreases k
  {
    if k == 0 then m else Step(Divide(m, g, k - 1), g, k - 1)
  }

  /** `dados_bits + '0' * r` with r = |g| - 1: the message times x^r. */
  function Augmented(d: string, g: string): (m: string)
    ensures |m| == |d| + if |g| == 0 then 0 else |g| - 1
  {
    d + Zeros(|g| - 1)
  }

  /**
   * `calcular_crc_manual` of codigo.py: the last r characters of the divided
   * buffer, where Python's `[-r:]` keeps the whole buffer when r == 0 and drops
   * its first character when r == -1 (an empty generator).
   */
  function CrcManual(d: string, g: string): (crc: string)
    ensures |g| >= 2 ==> |crc| == |g| - 1
  {
    var m := Augmented(d, g);
    PyTail(Divide(m, g, |d|), |g| - 1)
  }

  // ---------------------------------------------------------------------
  // Facts about single characters and about Xor on bits
  // ---------------------------------------------------------------------

  predicate IsBit(c: char) { c == '0' || c == '1' }

  lemma XorCharAssoc(x: char, y: char, z: char)
    requires IsBit(x) && IsBit(y) && IsBit(z)
    ensures XorChar(XorChar(x, y), z) == XorChar(x, XorChar(y, z))
  {
  }

  /** Xor of two bit strings of equal length, position by position. */
  lemma XorAt(a: string, b: string, p: int)
    requires |a| <= |b| && 0 <= p < |a|
    ensures |Xor(a, b)| == |a| && Xor(a, b)[p] == XorChar(a[p], b[p])
  {
  }

  // ---------------------------------------------------------------------
  // General facts about Divide
  // ---------------------------------------------------------------------

  /** Division of a bit string with a bit generator yields a bit string. */
  lemma {:induction false} DivideBits(m: string, g: string, k: nat)
    requires k <= |m| && k + |g| <= |m| + 1
    requires IsBits(m)
    ensures IsBits(Divide(m, g, k))
    decreases k
  {
    if k > 0 {
      DivideBits(m, g, k - 1);
    }
  }

  /** A generator of at most one character never changes the buffer. */
  lemma {:induction false} DivideShortGenerator(m: string, g: string, k: nat)
    requires k <= |m| && k + |g| <= |m| + 1
    requires |g| <= 1
    ensures Divide(m, g, k) == m
    decreases k
  {
    if k > 0 {
      DivideShortGenerator(m, g, k - 1);
      var prev := Divide(m, g, k - 1);
      assert Step(prev, g, k - 1) == prev;
    }
  }

  /**
   * The iterations j .. k-1 change nothing when, after iteration j, the
   * buffer holds '0' at every position they test.
   */
  lemma {:induction false} DivideInert(m: string, g: string, j: nat, k: nat)
    requires j <= k && k <= |m| && k + |g| <= |m| + 1
    requires forall p :: j <= p < k ==> Divide(m, g, j)[p] == '0'
    ensures Divide(m, g, k) == Divide(m, g, j)
    decreases k
  {
    if k > j {
      DivideInert(m, g, j, k - 1);
      var prev := Divide(m, g, k - 1);
      assert prev[k - 1] == '0';
      assert Step(prev, g, k - 1) == prev;
    }
  }

  /** A step only looks at its window, so a suffix past it is carried along. */
  lemma StepExtend(x: string, t: string, g: string, i: nat)
    requires i < |x| && i + |g| <= |x|
    ensures Step(x + t, g, i) == Step(x, g, i) + t
  {
    var lhs, rhs := Step(x + t, g, i), Step(x, g, i) + t;
    assert |lhs| == |rhs|;
    forall p | 0 <= p < |lhs| ensures lhs[p] == rhs[p] {
      if p < |x| {
        assert (x + t)[p] == x[p];
      }
    }
  }

  lemma {:induction false} DivideExtend(m: string, t: string, g: string, k: nat)
    requires k <= |m| && k + |g| <= |m| + 1
    ensures Divide(m + t, g, k) == Divide(m, g, k) + t
    decreases k
  {
    if k > 0 {
      DivideExtend(m, t, g, k - 1);
      DivideExtendStep(m, t, g, k);
    }
  }

  lemma DivideExtendStep(m: string, t: string, g: string, k: nat)
    requires 0 < k <= |m| && k + |g| <= |m| + 1
    requires Divide(m + t, g, k - 1) == Divide(m, g, k - 1) + t
    ensures Divide(m + t, g, k) == Divide(m, g, k) + t
  {
    var prev, cur := Divide(m, g, k - 1), Divide(m + t, g, k - 1);
    assert cur == prev + t;
    assert Divide(m + t, g, k) == Step(prev + t, g, k - 1);
    assert Divide(m, g, k) == Step(prev, g, k - 1);
    StepExtend(prev, t, g, k - 1);
  }

  /**
   * Division is linear over GF(2) on the positions it has not yet passed:
   * dividing a XOR b gives, from position k on, the XOR of the two divisions.
   */
  lemma {:induction false} DivideLinear(a: string, b: string, g: string, k: nat)
    requires |a| == |b| && k <= |a| && k + |g| <= |a| + 1
    requires IsBits(a) && IsBits(b) && IsBits(g)
    ensures forall p :: k <= p < |a| ==>
      Divide(Xor(a, b), g, k)[p] == XorChar(Divide(a, g, k)[p], Divide(b, g, k)[p])
    decreases k
  {
    if k > 0 {
      var i := k - 1;
      DivideLinear(a, b, g, i);
      DivideBits(a, g, i);
      DivideBits(b, g, i);
      var s, sa, sb := Divide(Xor(a, b), g, i), Divide(a, g, i), Divide(b, g, i);
      assert s[i] == XorChar(sa[i], sb[i]);
      forall p | k <= p < |a|
        ensures Step(s, g, i)[p] == XorChar(Step(sa, g, i)[p], Step(sb, g, i)[p])
      {
        assert s[p] == XorChar(sa[p], sb[p]);
        assert IsBit(sa[p]) && IsBit(sb[p]);
        if i < p < i + |g| {
          assert IsBit(g[p - i]);
          XorCharAssoc(sa[p], sb[p], g[p - i]);
          XorCharAssoc(sa[p], g[p - i], sb[p]);
          XorCharAssoc(sb[p], g[p - i], sa[p]);
        }
      }
    }
  }

  // ---------------------------------------------------------------------
  // Properties of the manual CRC
  // ---------------------------------------------------------------------

  /** An empty generator (r = -1) drops the first data character. */
  lemma CrcEmptyGenerator(d: string)
    ensures CrcManual(d, "") == if d == "" then "" else d[1..]
  {
    assert Augmented(d, "") == d;
    DivideShortGenerator(d, "", |d|);
  }

  /** A one-character generator (r = 0): `[-0:]` returns the whole message. */
  lemma CrcDegreeZeroGenerator(d: string, g: string)
    requires |g| == 1
    ensures CrcManual(d, g) == d
  {
    assert Augmented(d, g) == d;
    DivideShortGenerator(d, g, |d|);
  }

  /** All-zero data never triggers the XOR branch: the result is all '0'. */
  lemma CrcOfZeros(n: nat, g: string)
    ensures forall i :: 0 <= i < |CrcManual(Zeros(n), g)| ==> CrcManual(Zeros(n), g)[i] == '0'
    ensures |g| >= 2 ==> CrcManual(Zeros(n), g) == Zeros(|g| - 1)
  {
    var m := Augmented(Zeros(n), g);
    assert forall p :: 0 <= p < |m| ==> m[p] == '0';
    DivideInert(m, g, 0, n);
  }

  /** The augmented frame splits as (M * x^r, shifted) XOR (R, shifted). */
  lemma FrameAsXor(d: string, crc: string)
    requires IsBits(d) && IsBits(crc)
    ensures IsBits(d + Zeros(|crc|) + Zeros(|crc|)) && IsBits(Zeros(|d|) + crc + Zeros(|crc|))
    ensures d + crc + Zeros(|crc|) == Xor(d + Zeros(|crc|) + Zeros(|crc|), Zeros(|d|) + crc + Zeros(|crc|))
  {
    var n, r := |d|, |crc|;
    var fa, a, b := d + crc + Zeros(r), d + Zeros(r) + Zeros(r), Zeros(n) + crc + Zeros(r);
    forall p | 0 <= p < |fa| ensures fa[p] == Xor(a, b)[p] {
      XorAt(a, b, p);
      if p < n {
        assert fa[p] == d[p] && a[p] == d[p] && b[p] == '0';
      } else if p < n + r {
        assert fa[p] == crc[p - n] && a[p] == '0' && b[p] == crc[p - n];
      } else {
        assert fa[p] == '0' && a[p] == '0' && b[p] == '0';
      }
    }
  }

  /** The two halves of the frame after the |d| data iterations: the data half leaves its remainder, the CRC half is untouched. */
  lemma FrameHalves(d: string, g: string)
    requires IsBits(d) && IsBits(g) && |g| >= 2
    ensures var n, r := |d|, |g| - 1;
      var aug := Augmented(d, g);
      var b := Zeros(n) + CrcManual(d, g) + Zeros(r);
      && |CrcManual(d, g)| == r && IsBits(CrcManual(d, g))
      && Divide(aug + Zeros(r), g, n) == Divide(aug, g, n) + Zeros(r)
      && Divide(aug, g, n)[n..] == CrcManual(d, g)
      && Divide(b, g, n) == b
  {
    var n, r := |d|, |g| - 1;
    var aug := Augmented(d, g);
    DivideBits(aug, g, n);
    DivideExtend(aug, Zeros(r), g, n);
    var b := Zeros(n) + CrcManual(d, g) + Zeros(r);
    DivideInert(b, g, 0, n);
  }

  /** Positions n.. of the two divided halves: both hold the CRC, then zeros. */
  lemma HalvesPointwise(mn: string, crc: string, n: nat, r: nat, da: string, db: string)
    requires |mn| == n + r && mn[n..] == crc && |crc| == r
    requires da == mn + Zeros(r) && db == Zeros(n) + crc + Zeros(r)
    ensures forall p :: n <= p < n + r ==> da[p] == crc[p - n] && db[p] == crc[p - n]
    ensures forall p :: n + r <= p < n + r + r ==> da[p] == '0' && db[p] == '0'
  {
    forall p | n <= p < n + r ensures da[p] == crc[p - n] {
      assert da[p] == mn[p] == mn[n..][p - n];
    }
  }

  /** After the |d| data iterations on the frame, everything from |d| on is '0'. */
  lemma FrameClearedAfterData(d: string, g: string)
    requires IsBits(d) && IsBits(g) && |g| >= 2
    ensures var fa := Augmented(d + CrcManual(d, g), g);
      forall p :: |d| <= p < |fa| ==> Divide(fa, g, |d|)[p] == '0'
  {
    var n, r := |d|, |g| - 1;
    var crc := CrcManual(d, g);
    FrameHalves(d, g);
    var fa := Augmented(d + crc, g);
    var a, b := Augmented(d, g) + Zeros(r), Zeros(n) + crc + Zeros(r);
    FrameAsXor(d, crc);
    assert fa == Xor(a, b);
    DivideLinear(a, b, g, n);
    var mn, da, db := Divide(Augmented(d, g), g, n), Divide(a, g, n), Divide(b, g, n);
    HalvesPointwise(mn, crc, n, r, da, db);
    forall p | n <= p < |fa| ensures Divide(fa, g, n)[p] == '0' {
      assert Divide(fa, g, n)[p] == XorChar(da[p], db[p]);
    }
  }

  /**
   * The transmitted frame T(x) = data followed by its CRC is divisible by G:
   * recomputing the CRC over it yields r zeros.
   */
  lemma FrameDivisible(d: string, g: string)
    requires IsBits(d) && IsBits(g) && |g| >= 2
    ensures CrcManual(d + CrcManual(d, g), g) == Zeros(|g| - 1)
  {
    var n, r := |d|, |g| - 1;
    var frame := d + CrcManual(d, g);
    var fa := Augmented(frame, g);
    FrameClearedAfterData(d, g);
    DivideInert(fa, g, n, n + r);
    var fin := Divide(fa, g, n + r);
    assert CrcManual(frame, g) == fin[n + r..];
    assert fin[n + r..] == Zeros(r);
  }

  // ---------------------------------------------------------------------
  // The division identity M(x) * x^r = Q(x) * G(x) + R(x) over GF(2)
  // ---------------------------------------------------------------------

  /** G(x) * x^(L - |g| - i) as a string of length L: g placed at position i. */
  function ShiftedAt(g: string, i: nat, len: nat): (s: string)
    ensures |s| == len
  {
    seq(len, p requires 0 <= p < len => if i <= p < i + |g| then g[p - i] else '0')
  }

  /** The schoolbook product of the first k quotient bits with g, in length `len`. */
  function Accumulate(q: string, g: string, k: nat, len: nat): (s: string)
    requires k <= |q|
    ensures |s| == len
  {
    if k == 0 then Zeros(len)
    else if q[k - 1] == '1' then Xor(Accumulate(q, g, k - 1, len), ShiftedAt(g, k - 1, len))
    else Accumulate(q, g, k - 1, len)
  }

  /** The GF(2) polynomial product Q(x) * G(x), |q| + |g| - 1 coefficients. */
  function Product(q: string, g: string): (s: string)
    requires |g| >= 1
    ensures |s| == |q| + |g| - 1
  {
    Accumulate(q, g, |q|, |q| + |g| - 1)
  }

  /** The bit each iteration of the loop tests: the quotient coefficients. */
  function Quotient(d: string, g: string): (q: string)
    ensures |q| == |d|
  {
    var m := Augmented(d, g);
    seq(|d|, i requires 0 <= i < |d| => Divide(m, g, i)[i])
  }

  lemma {:induction false} AccumulateBits(q: string, g: string, k: nat, len: nat)
    requires k <= |q| && IsBits(g)
    ensures IsBits(Accumulate(q, g, k, len))
    decreases k
  {
    if k > 0 {
      AccumulateBits(q, g, k - 1, len);
    }
  }

  /**
   * After k iterations, the buffer holds m0 minus (XOR) the partial product
   * from position k on, and the partial product agrees with m0 before k.
   */
  lemma {:induction false} DivideTracksProduct(m0: string, g: string, q: string, k: nat)
    requires IsBits(m0) && IsBits(g) && |g| >= 1 && g[0] == '1'
    requires k <= |m0| && k + |g| <= |m0| + 1 && k <= |q|
    requires forall i :: 0 <= i < k ==> q[i] == Divide(m0, g, i)[i]
    ensures forall p :: k <= p < |m0| ==>
      Divide(m0, g, k)[p] == XorChar(m0[p], Accumulate(q, g, k, |m0|)[p])
    ensures forall p :: 0 <= p < k ==> m0[p] == Accumulate(q, g, k, |m0|)[p]
    decreases k
  {
    var len := |m0|;
    if k > 0 {
      var i := k - 1;
      DivideTracksProduct(m0, g, q, i);
      DivideBits(m0, g, i);
      AccumulateBits(q, g, i, len);
      var mi, ai := Divide(m0, g, i), Accumulate(q, g, i, len);
      var mk, ak := Divide(m0, g, k), Accumulate(q, g, k, len);
      var sh := ShiftedAt(g, i, len);
      assert mk == Step(mi, g, i);
      assert q[i] == mi[i];
      forall p | 0 <= p < len
        ensures p >= k ==> mk[p] == XorChar(m0[p], ak[p])
        ensures p < k ==> m0[p] == ak[p]
      {
        assert IsBit(m0[p]) && IsBit(ai[p]);
        if mi[i] == '1' {
          XorAt(ai, sh, p);
          assert ak[p] == XorChar(ai[p], sh[p]);
          if p < i + |g| && p >= i {
            assert IsBit(g[p - i]);
            XorCharAssoc(m0[p], ai[p], g[p - i]);
          }
        }
      }
    }
  }

  /**
   * The manual CRC is the GF(2) remainder: for a generator with leading
   * '1', the augmented message equals Q(x) * G(x) + R(x) with R of r bits.
   */
  lemma DivisionIdentity(d: string, g: string)
    requires IsBits(d) && IsBits(g) && |g| >= 2 && g[0] == '1'
    ensures IsBits(Quotient(d, g)) && IsBits(CrcManual(d, g))
    ensures Augmented(d, g) == Xor(Product(Quotient(d, g), g), Zeros(|d|) + CrcManual(d, g))
  {
    var n, r := |d|, |g| - 1;
    var m0 := Augmented(d, g);
    var q := Quotient(d, g);
    assert IsBits(m0);
    forall i | 0 <= i < n ensures IsBit(q[i]) {
      DivideBits(m0, g, i);
    }
    DivideBits(m0, g, n);
    DivideTracksProduct(m0, g, q, n);
    AccumulateBits(q, g, n, |m0|);
    var mn, an := Divide(m0, g, n), Product(q, g);
    var crc := CrcManual(d, g);
    CrcIsTail(d, g);
    var tail := Zeros(n) + crc;
    assert |Zeros(n)| == n && |crc| == r && |mn| == n + r;
    var rhs := Xor(an, tail);
    forall p | 0 <= p < |m0| ensures m0[p] == rhs[p] {
      XorAt(an, tail, p);
      assert IsBit(m0[p]) && IsBit(an[p]);
      if p >= n {
        assert tail[p] == crc[p - n] == mn[p];
      } else {
        assert tail[p] == Zeros(n)[p] == '0';
      }
    }
  }

  /** For |g| >= 2 the CRC is what the division leaves after the data. */
  lemma CrcIsTail(d: string, g: string)
    requires |g| >= 2
    ensures CrcManual(d, g) == Divide(Augmented(d, g), g, |d|)[|d|..]
  {
  }

  /** The example in the comments of codigo.py: M = 1101011111, G = 10011. */
  lemma TextbookExample()
    ensures CrcManual("1101011111", "10011") == "0010"
  {
    var g := "10011";
    var m := Augmented("1101011111", g);
    assert m == "11010111110000";
    ExampleFirstSteps(m);
    assert Divide(m, g, 6) == "11000011110000" by { DivideInert(m, g, 2, 6); }
    ExampleLastSteps(m);
  }

  lemma ExampleFirstSteps(m: string)
    requires m == "11010111110000"
    ensures Divide(m, "10011", 2) == "11000011110000"
  {
    ExampleStep0();
    DivideNext(m, "10011", 0, m, "11001111110000");
    ExampleStep1();
    DivideNext(m, "10011", 1, "11001111110000", "11000011110000");
  }

  lemma ExampleLastSteps(m: string)
    requires |m| == 14 && Divide(m, "10011", 6) == "11000011110000"
    ensures Divide(m, "10011", 10) == "11000011100010"
  {
    ExampleDivide7(m);
    ExampleDivide8(m);
    ExampleDivide9(m);
    ExampleDivide10(m);
  }

  lemma ExampleDivide7(m: string)
    requires |m| == 14 && Divide(m, "10011", 6) == "11000011110000"
    ensures Divide(m, "10011", 7) == "11000011101000"
  {
    ExampleStep6();
    DivideNext(m, "10011", 6, "11000011110000", "11000011101000");
  }

  lemma ExampleDivide8(m: string)
    requires |m| == 14 && Divide(m, "10011", 7) == "11000011101000"
    ensures Divide(m, "10011", 8) == "11000011100100"
  {
    ExampleStep7();
    DivideNext(m, "10011", 7, "11000011101000", "11000011100100");
  }

  lemma ExampleDivide9(m: string)
    requires |m| == 14 && Divide(m, "10011", 8) == "11000011100100"
    ensures Divide(m, "10011", 9) == "11000011100010"
  {
    ExampleStep8();
    DivideNext(m, "10011", 8, "11000011100100", "11000011100010");
  }

  lemma ExampleDivide10(m: string)
    requires |m| == 14 && Divide(m, "10011", 9) == "11000011100010"
    ensures Divide(m, "10011", 10) == "11000011100010"
  {
    ExampleStep9();
    DivideNext(m, "10011", 9, "11000011100010", "11000011100010");
  }

  lemma ExampleStep9()
    ensures Step("11000011100010", "10011", 9) == "11000011100010"
  {
    var m := "11000011100010";
    assert m[9] == '0';
  }

  lemma ExampleStep0()
    ensures Step("11010111110000", "10011", 0) == "11001111110000"
  {
    var m, m' := "11010111110000", "11001111110000";
    assert m[1..5] == "1010" && m'[1..5] == "1001" && Xor("1010", "0011") == "1001";
    assert m'[..1] == m[..1] && m'[5..] == m[5..];
    ExampleStep(m, 0, m');
  }

  lemma ExampleStep1()
    ensures Step("11001111110000", "10011", 1) == "11000011110000"
  {
    var m, m' := "11001111110000", "11000011110000";
    assert m[2..6] == "0011" && m'[2..6] == "0000" && Xor("0011", "0011") == "0000";
    assert m'[..2] == m[..2] && m'[6..] == m[6..];
    ExampleStep(m, 1, m');
  }

  lemma ExampleStep6()
    ensures Step("11000011110000", "10011", 6) == "11000011101000"
  {
    var m, m' := "11000011110000", "11000011101000";
    assert m[7..11] == "1110" && m'[7..11] == "1101" && Xor("1110", "0011") == "1101";
    assert m'[..7] == m[..7] && m'[11..] == m[11..];
    ExampleStep(m, 6, m');
  }

  lemma ExampleStep7()
    ensures Step("11000011101000", "10011", 7) == "11000011100100"
  {
    var m, m' := "11000011101000", "11000011100100";
    assert m[8..12] == "1010" && m'[8..12] == "1001" && Xor("1010", "0011") == "1001";
    assert m'[..8] == m[..8] && m'[12..] == m[12..];
    ExampleStep(m, 7, m');
  }

  lemma ExampleStep8()
    ensures Step("11000011100100", "10011", 8) == "11000011100010"
  {
    var m, m' := "11000011100100", "11000011100010";
    assert m[9..13] == "0010" && m'[9..13] == "0001" && Xor("0010", "0011") == "0001";
    assert m'[..9] == m[..9] && m'[13..] == m[13..];
    ExampleStep(m, 8, m');
  }

  lemma DivideNext(m: string, g: string, k: nat, s: string, s': string)
    requires k + 1 <= |m| && k + 1 + |g| <= |m| + 1
    requires Divide(m, g, k) == s && Step(s, g, k) == s'
    ensures Divide(m, g, k + 1) == s'
  {
  }

  /** One iteration of the worked example, checked position by position. */
  lemma ExampleStep(m: string, i: nat, m': string)
    requires |m| == |m'| == 14 && i < 10
    requires m[i] == '1' ==> m'[..i + 1] == m[..i + 1] && m'[i + 5..] == m[i + 5..]
    requires m[i] == '1' ==> m'[i + 1..i + 5] == Xor(m[i + 1..i + 5], "0011")
    requires m[i] != '1' ==> m' == m
    ensures Step(m, "10011", i) == m'
  {
    var x := Step(m, "10011", i);
    forall p | 0 <= p < 14 ensures x[p] == m'[p] {
      if m[i] == '1' {
        if p <= i {
          assert m'[p] == m'[..i + 1][p];
        } else if p >= i + 5 {
          assert m'[p] == m'[i + 5..][p - i - 5];
        } else {
          assert m'[p] == m'[i + 1..i + 5][p - i - 1];
        }
      }
    }
  }
}
