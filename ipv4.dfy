/**
 * The part of Python's `ipaddress` module that `summarize_table` relies on,
 * for IPv4: `ip_network(s, strict=False)` on a dotted-quad string with an
 * optional "/len" suffix, `str()` of a network, and `subnet_of`.
 * A network is its first address and its prefix length.
 */
module Ipv4 {
  import opened Wrappers

  datatype Prefix = Prefix(addr: nat, len: nat)

  const AddressSpace: nat := 0x1_0000_0000

  function Pow2(n: nat): (r: nat)
    ensures r >= 1
  {
    if n == 0 then 1 else 2 * Pow2(n - 1)
  }

  /** Number of host bits of a prefix length (none beyond 32). */
  function HostBits(len: nat): nat
  {
    if len <= 32 then 32 - len else 0
  }

  /** Number of addresses in the network. */
  function Size(p: Prefix): nat
  {
    Pow2(HostBits(p.len))
  }

  /** An IPv4 network: a length of 0..32 and a 32-bit address whose host bits are 0. */
  predicate IsNetwork(p: Prefix)
  {
    p.len <= 32 && p.addr < AddressSpace && p.addr % Size(p) == 0
  }

  /** `broadcast_address`: the last address of the network. */
  function Broadcast(p: Prefix): nat
  {
    p.addr + Size(p) - 1
  }

  predicate Contains(p: Prefix, x: int)
  {
    p.addr <= x <= Broadcast(p)
  }

  /** `a.subnet_of(b)`: b's range holds a's range. */
  predicate SubnetOf(a: Prefix, b: Prefix)
  {
    b.addr <= a.addr && Broadcast(a) <= Broadcast(b)
  }

  predicate Disjoint(a: Prefix, b: Prefix)
  {
    Broadcast(a) < b.addr || Broadcast(b) < a.addr
  }

  /** `addr & netmask` for a prefix length. */
  function Mask(addr: nat, len: nat): (m: nat)
    ensures m <= addr && m % Pow2(HostBits(len)) == 0
    ensures addr - m < Pow2(HostBits(len))
  {
    var size := Pow2(HostBits(len));
    RoundDown(addr, size);
    addr - addr % size
  }

  /** Rounding down to a multiple of d stays within the value. */
  lemma RoundDown(a: nat, d: nat)
    requires d >= 1
    ensures a % d <= a && (a - a % d) % d == 0
  {
    var q := a / d;
    assert a == q * d + a % d;
    assert q >= 0;
    MultipleMod(q, d);
    assert a - a % d == q * d;
  }

  lemma MultipleMod(q: nat, size: nat)
    requires size >= 1
    ensures (q * size) % size == 0
  {
    var x := q * size;
    var k := q - x / size;
    assert x == (x / size) * size + x % size;
    assert k * size == x % size;
  }

  /** Clearing host bits that are already clear changes nothing. */
  lemma MaskAligned(addr: nat, len: nat)
    requires addr % Pow2(HostBits(len)) == 0
    ensures Mask(addr, len) == addr
  {
  }

  /** `supernet()`: the network one bit shorter that holds p. */
  function Supernet(p: Prefix): Prefix
    requires p.len > 0
  {
    Prefix(Mask(p.addr, p.len - 1), p.len - 1)
  }

  // ---- decimal digits ----

  predicate IsDigit(c: char)
  {
    '0' <= c <= '9'
  }

  predicate AllDigits(s: string)
  {
    forall i :: 0 <= i < |s| ==> IsDigit(s[i])
  }

  /** `int(s, 10)` on ASCII digits. */
  function DigitsValue(s: string): nat
    requires AllDigits(s)
    decreases |s|
  {
    if |s| == 0 then 0 else DigitsValue(s[..|s| - 1]) * 10 + (s[|s| - 1] as int - '0' as int)
  }

  /** `str(n)` for a natural number: decimal digits without leading zeros. */
  function Decimal(n: nat): (s: string)
    ensures |s| >= 1 && AllDigits(s) && DigitsValue(s) == n
    ensures n == 0 <==> s == "0"
    ensures n > 0 ==> s[0] != '0'
    ensures (n < 10 ==> |s| == 1) && (n < 100 ==> |s| <= 2) && (n < 1000 ==> |s| <= 3)
    decreases n
  {
    if n < 10 then [('0' as int + n) as char]
    else
      var s := Decimal(n / 10) + [('0' as int + n % 10) as char];
      assert s[..|s| - 1] == Decimal(n / 10);
      s
  }

  // ---- str.split ----

  /** `s.split(sep)` for a one-character separator. */
  function Split(s: string, sep: char): (parts: seq<string>)
    ensures |parts| >= 1
    decreases |s|
  {
    if |s| == 0 then [""]
    else
      var rest := Split(s[1..], sep);
      if s[0] == sep then [""] + rest else [[s[0]] + rest[0]] + rest[1..]
  }

  lemma {:induction false} SplitNoSeparator(s: string, sep: char)
    requires sep !in s
    ensures Split(s, sep) == [s]
    decreases |s|
  {
    if |s| > 0 {
      SplitNoSeparator(s[1..], sep);
      assert [s[0]] + s[1..] == s;
    }
  }

  /** The text before the first separator is the first part. */
  lemma {:induction false} SplitFirst(x: string, sep: char, y: string)
    requires sep !in x
    ensures Split(x + [sep] + y, sep) == [x] + Split(y, sep)
    decreases |x|
  {
    if |x| == 0 {
      assert x + [sep] + y == [sep] + y;
      assert ([sep] + y)[1..] == y;
    } else {
      SplitFirst(x[1..], sep, y);
      assert (x + [sep] + y)[1..] == x[1..] + [sep] + y;
      assert [x[0]] + x[1..] == x;
    }
  }

  /** Every character other than the separator lands in some part. */
  lemma {:induction false} SplitKeepsChar(s: string, sep: char, c: char)
    requires c != sep && c in s
    ensures exists j :: 0 <= j < |Split(s, sep)| && c in Split(s, sep)[j]
    decreases |s|
  {
    var parts := Split(s, sep);
    var rest := Split(s[1..], sep);
    if s[0] == c {
      assert c in parts[0];
    } else {
      assert c in s[1..];
      SplitKeepsChar(s[1..], sep, c);
      var j :| 0 <= j < |rest| && c in rest[j];
      if s[0] == sep {
        assert parts[j + 1] == rest[j];
      } else if j == 0 {
        assert c in parts[0];
      } else {
        assert parts[j] == rest[j];
      }
    }
  }

  // ---- ip_network(s, strict=False) ----

  /** `_parse_octet`: 1 to 3 ASCII digits, no leading zero, at most 255. */
  function ParseOctet(o: string): (r: Option<nat>)
    ensures r.Some? ==> r.value <= 255 && AllDigits(o)
  {
    if |o| == 0 || !AllDigits(o) || |o| > 3 || (o != "0" && o[0] == '0') then None
    else if DigitsValue(o) > 255 then None
    else Some(DigitsValue(o))
  }

  /** `_prefix_from_prefix_string`: ASCII digits (leading zeros allowed), at most 32. */
  function ParsePrefixLength(t: string): (r: Option<nat>)
    ensures r.Some? ==> r.value <= 32 && AllDigits(t)
  {
    if |t| == 0 || !AllDigits(t) then None
    else if DigitsValue(t) > 32 then None
    else Some(DigitsValue(t))
  }

  /** `_ip_int_from_string`: exactly four dot-separated octets, most significant first. */
  function ParseAddress(s: string): (r: Option<nat>)
    ensures r.Some? ==> r.value < AddressSpace
  {
    var octets := Split(s, '.');
    if |octets| != 4 then None
    else match (ParseOctet(octets[0]), ParseOctet(octets[1]), ParseOctet(octets[2]), ParseOctet(octets[3]))
      case (Some(a), Some(b), Some(c), Some(d)) => Some(((a * 256 + b) * 256 + c) * 256 + d)
      case _ => None
  }

  /**
   * `ip_network(s, strict=False)` for IPv4 strings: "address" or
   * "address/len"; the host bits of the address are cleared. `None` stands
   * for the ValueError that `summarize_table` catches.
   */
  function Parse(s: string): (r: Option<Prefix>)
    ensures r.Some? ==> IsNetwork(r.value)
  {
    var parts := Split(s, '/');
    if |parts| > 2 then None
    else match ParseAddress(parts[0])
      case None => None
      case Some(a) =>
        var len := if |parts| == 1 then Some(32) else ParsePrefixLength(parts[1]);
        match len
          case None => None
          case Some(l) =>
            assert Pow2(HostBits(l)) == Size(Prefix(Mask(a, l), l));
            Some(Prefix(Mask(a, l), l))
  }

  /** An address with no prefix length is a /32 network. */
  lemma ParseNoLength()
    ensures Parse("10.0.0.0") == Some(Prefix(167772160, 32))
  {
    var s := "10.0.0.0";
    SplitNoSeparator(s, '/');
    assert s == "10" + "." + "0" + "." + "0" + "." + "0";
    SplitQuad("10", "0", "0", "0");
    OctetExamples();
    assert ParseAddress(s) == Some(167772160);
    assert Pow2(HostBits(32)) == 1;
    assert Mask(167772160, 32) == 167772160;
  }

  /** strict=False clears host bits: "10.0.0.1/24" is 10.0.0.0/24. */
  lemma ParseHostBitsSet()
    ensures Parse("10.0.0.1/24") == Some(Prefix(167772160, 24))
  {
    HostBitsExampleParts();
    assert Pow2(HostBits(24)) == 256 && Mask(167772161, 24) == 167772160 by {
      MaskExample();
    }
  }

  /** The two parts of "10.0.0.1/24", each parsed. */
  lemma HostBitsExampleParts()
    ensures Split("10.0.0.1/24", '/') == ["10.0.0.1", "24"]
    ensures ParseAddress("10.0.0.1") == Some(167772161)
    ensures ParsePrefixLength("24") == Some(24)
  {
    SlashExample();
    AddressExample();
    PrefixLengthExample();
  }

  lemma PrefixLengthExample()
    ensures ParsePrefixLength("24") == Some(24)
  {
    var t := "24";
    assert t[..1] == "2" && t[1] == '4';
    assert DigitsValue("2") == 2;
    assert DigitsValue(t) == DigitsValue(t[..1]) * 10 + 4;
  }

  lemma SlashExample()
    ensures Split("10.0.0.1/24", '/') == ["10.0.0.1", "24"]
  {
    assert "10.0.0.1/24" == "10.0.0.1" + ['/'] + "24";
    SplitFirst("10.0.0.1", '/', "24");
    SplitNoSeparator("24", '/');
  }

  lemma AddressExample()
    ensures ParseAddress("10.0.0.1") == Some(167772161)
  {
    assert "10.0.0.1" == "10" + "." + "0" + "." + "0" + "." + "1";
    SplitQuad("10", "0", "0", "1");
    OctetExamples();
  }

  /** A /24 mask of 10.0.0.1. */
  lemma MaskExample()
    ensures Pow2(HostBits(24)) == 256 && Mask(167772161, 24) == 167772160
  {
    assert HostBits(24) == 8;
    assert Pow2(8) == 256;
  }

  /** `_parse_octet` rejects a leading zero, so "10.0.0.010" is not a network. */
  lemma ParseLeadingZero()
    ensures ParseOctet("010") == None && Parse("10.0.0.010") == None
  {
    SplitNoSeparator("10.0.0.010", '/');
    LeadingZeroSplit();
    assert ParseOctet("010") == None;
  }

  lemma LeadingZeroSplit()
    ensures Split("10.0.0.010", '.') == ["10", "0", "0", "010"]
  {
    assert "10.0.0.010" == "10" + "." + "0" + "." + "0" + "." + "010";
    SplitQuad("10", "0", "0", "010");
  }

  /** The octets used above. */
  lemma OctetExamples()
    ensures ParseOctet("10") == Some(10) && ParseOctet("0") == Some(0) && ParseOctet("1") == Some(1)
  {
    assert "10"[..1] == "1";
    assert DigitsValue("10") == 10;
  }

  // ---- str(network) ----

  function AddressString(addr: nat): string
  {
    var d := addr % 256;
    var r1 := addr / 256;
    var c := r1 % 256;
    var r2 := r1 / 256;
    var b := r2 % 256;
    var a := r2 / 256;
    Decimal(a) + "." + Decimal(b) + "." + Decimal(c) + "." + Decimal(d)
  }

  /** `str(network)`: "a.b.c.d/len". */
  function Format(p: Prefix): string
  {
    AddressString(p.addr) + "/" + Decimal(p.len)
  }

  lemma DigitsHaveNoSeparator(s: string, sep: char)
    requires AllDigits(s) && !IsDigit(sep)
    ensures sep !in s
  {
  }

  lemma ParseOctetDecimal(n: nat)
    requires n <= 255
    ensures ParseOctet(Decimal(n)) == Some(n)
  {
  }

  /** The four octets of a 32-bit address, most significant first. */
  lemma OctetsRecombine(addr: nat)
    requires addr < AddressSpace
    ensures addr / 256 / 256 / 256 < 256
    ensures ((addr / 256 / 256 / 256 * 256 + addr / 256 / 256 % 256) * 256 + addr / 256 % 256) * 256 + addr % 256 == addr
  {
  }

  /** Four octet texts joined by dots split back into the same four. */
  lemma SplitQuad(da: string, db: string, dc: string, dd: string)
    requires '.' !in da && '.' !in db && '.' !in dc && '.' !in dd
    ensures Split(da + "." + db + "." + dc + "." + dd, '.') == [da, db, dc, dd]
  {
    var t3 := dc + ['.'] + dd;
    var t2 := db + ['.'] + t3;
    var t1 := da + ['.'] + t2;
    SplitNoSeparator(dd, '.');
    SplitFirst(dc, '.', dd);
    assert Split(t3, '.') == [dc, dd];
    SplitFirst(db, '.', t3);
    assert Split(t2, '.') == [db, dc, dd];
    SplitFirst(da, '.', t2);
    assert Split(t1, '.') == [da, db, dc, dd];
    JoinAssoc(da, db, dc, dd);
  }

  lemma JoinAssoc(da: string, db: string, dc: string, dd: string)
    ensures da + "." + db + "." + dc + "." + dd == da + ['.'] + (db + ['.'] + (dc + ['.'] + dd))
  {
  }

  lemma ParseAddressString(addr: nat)
    requires addr < AddressSpace
    ensures ParseAddress(AddressString(addr)) == Some(addr)
    ensures '/' !in AddressString(addr)
  {
    OctetsRecombine(addr);
    var a, b, c, d := addr / 256 / 256 / 256, addr / 256 / 256 % 256, addr / 256 % 256, addr % 256;
    var da, db, dc, dd := Decimal(a), Decimal(b), Decimal(c), Decimal(d);
    assert AddressString(addr) == da + "." + db + "." + dc + "." + dd;
    DigitsHaveNoSeparator(da, '.');
    DigitsHaveNoSeparator(db, '.');
    DigitsHaveNoSeparator(dc, '.');
    DigitsHaveNoSeparator(dd, '.');
    SplitQuad(da, db, dc, dd);
    ParseOctetDecimal(a);
    ParseOctetDecimal(b);
    ParseOctetDecimal(c);
    ParseOctetDecimal(d);
    DigitsHaveNoSeparator(da, '/');
    DigitsHaveNoSeparator(db, '/');
    DigitsHaveNoSeparator(dc, '/');
    DigitsHaveNoSeparator(dd, '/');
  }

  /** Reading back the text of a network gives the same network. */
  lemma ParseFormat(p: Prefix)
    requires IsNetwork(p)
    ensures Parse(Format(p)) == Some(p)
  {
    var addrText := AddressString(p.addr);
    var lenText := Decimal(p.len);
    ParseAddressString(p.addr);
    DigitsHaveNoSeparator(lenText, '/');
    SplitNoSeparator(lenText, '/');
    SplitFirst(addrText, '/', lenText);
    assert Format(p) == addrText + ['/'] + lenText;
    assert Split(Format(p), '/') == [addrText, lenText];
    assert ParsePrefixLength(lenText) == Some(p.len);
    MaskAligned(p.addr, p.len);
  }

  /** Distinct networks have distinct texts. */
  lemma FormatInjective(p: Prefix, q: Prefix)
    requires IsNetwork(p) && IsNetwork(q) && Format(p) == Format(q)
    ensures p == q
  {
    ParseFormat(p);
    ParseFormat(q);
  }

  /**
   * A router's "ip:port" address is not a network: every string that
   * contains ':' makes Parse fail.
   */
  lemma ParseRejectsColon(s: string)
    requires ':' in s
    ensures Parse(s) == None
  {
    var parts := Split(s, '/');
    if |parts| <= 2 && ParseAddress(parts[0]).Some? {
      SplitKeepsChar(s, '/', ':');
      var j :| 0 <= j < |parts| && ':' in parts[j];
      if j == 0 {
        var octets := Split(parts[0], '.');
        SplitKeepsChar(parts[0], '.', ':');
      } else {
        assert j == 1;
        assert |parts| == 2;
      }
    }
  }
}
