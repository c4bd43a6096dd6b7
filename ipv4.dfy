/**
 * The part of netaddr's `IPNetwork` that the interface parser uses: reading
 * an `a.b.c.d/n` network, printing its address, and printing the netmask
 * that a prefix length stands for. The mask follows the rule of section 3.1
 * of RFC 4632: a prefix length of n is the 32-bit mask whose n leftmost bits
 * are one and whose other bits are zero.
 */
module Ipv4 {
  import opened Wrappers
  import opened PyStr

  // ---------------------------------------------------------------------
  // Decimal numerals, as Python's str() prints a non-negative int

  predicate IsDigit(c: char)
  {
    '0' <= c <= '9'
  }

  function DigitChar(d: nat): (c: char)
    requires d < 10
    ensures IsDigit(c)
  {
    (48 + d) as char
  }

  function DigitValue(c: char): (d: nat)
    requires IsDigit(c)
    ensures d < 10
  {
    c as int - 48
  }

  /** `str(n)` for a non-negative integer. */
  function DecimalText(n: nat): (s: string)
    ensures |s| >= 1
    ensures forall c <- s :: IsDigit(c)
    ensures s[0] == '0' ==> n == 0 && s == "0"
  {
    if n < 10 then [DigitChar(n)] else DecimalText(n / 10) + [DigitChar(n % 10)]
  }

  /** The value of a string of decimal digits. */
  function DigitsValue(s: string): nat
    requires forall c <- s :: IsDigit(c)
  {
    if s == [] then 0 else 10 * DigitsValue(s[..|s| - 1]) + DigitValue(s[|s| - 1])
  }

  /** Digits with no superfluous leading zero: the only spelling str() produces. */
  predicate IsCanonicalDecimal(s: string)
  {
    |s| >= 1 && (forall c <- s :: IsDigit(c)) && (s[0] == '0' ==> |s| == 1)
  }

  function ParseDecimal(s: string): Option<nat>
  {
    if IsCanonicalDecimal(s) then Some(DigitsValue(s)) else None
  }

  /** Reading back a printed number gives the number. */
  lemma {:induction false} DecimalRoundTrip(n: nat)
    ensures ParseDecimal(DecimalText(n)) == Some(n)
  {
    var s := DecimalText(n);
    if n < 10 {
      assert DigitValue(DigitChar(n)) == n;
    } else {
      DecimalRoundTrip(n / 10);
      assert s[..|s| - 1] == DecimalText(n / 10);
      assert DigitValue(DigitChar(n % 10)) == n % 10;
    }
    assert IsCanonicalDecimal(s);
    assert DigitsValue(s) == n;
  }

  /** A numeral whose first digit is not zero is worth at least that digit. */
  lemma {:induction false} LeadingDigitBound(s: string)
    requires |s| >= 1 && forall c <- s :: IsDigit(c)
    ensures DigitsValue(s) >= DigitValue(s[0])
  {
    if |s| > 1 {
      LeadingDigitBound(s[..|s| - 1]);
    }
  }

  /** The last digit of a numeral is its value modulo ten, the others spell
      the quotient; a numeral of two or more digits without a leading zero is
      worth at least ten. */
  lemma DigitsValueLast(s: string)
    requires IsCanonicalDecimal(s) && |s| > 1
    ensures DigitsValue(s) / 10 == DigitsValue(s[..|s| - 1])
    ensures DigitsValue(s) % 10 == DigitValue(s[|s| - 1])
    ensures DigitsValue(s) >= 10
  {
    var t := s[..|s| - 1];
    assert t[0] == s[0];
    LeadingDigitBound(t);
  }

  /** Printing the value of a canonical numeral gives that numeral back. */
  lemma {:induction false} DecimalCanonical(s: string)
    requires IsCanonicalDecimal(s)
    ensures DecimalText(DigitsValue(s)) == s
  {
    if |s| > 1 {
      var t, last := s[..|s| - 1], s[|s| - 1];
      assert t[0] == s[0];
      LeadingDigitBound(t);
      DecimalCanonical(t);
      DigitsValueLast(s);
      assert DigitChar(DigitValue(last)) == last;
      assert s == t + [last];
    }
  }

  // ---------------------------------------------------------------------
  // Dotted-quad addresses

  const AddressLimit: nat := 0x1_0000_0000

  /** The four octets of a 32-bit value, most significant first. */
  function Octets(v: nat): seq<nat>
  {
    [v / 256 / 256 / 256 % 256, v / 256 / 256 % 256, v / 256 % 256, v % 256]
  }

  /** `str(IPAddress(v))`: the dotted-quad text of a 32-bit value. */
  function AddressText(v: nat): string
  {
    var o := Octets(v);
    Join([DecimalText(o[0]), DecimalText(o[1]), DecimalText(o[2]), DecimalText(o[3])], '.')
  }

  lemma JoinFour(a: string, b: string, c: string, d: string, sep: char)
    ensures Join([a, b, c, d], sep) == a + [sep] + b + [sep] + c + [sep] + d
  {
    assert [a, b, c, d][1..] == [b, c, d];
    assert [b, c, d][1..] == [c, d];
    assert [c, d][1..] == [d];
    assert Join([c, d], sep) == c + [sep] + d;
    assert Join([b, c, d], sep) == b + [sep] + (c + [sep] + d);
  }

  /** A 32-bit value is the number its four octets spell. */
  lemma ValueOfOctets(v: nat)
    requires v < AddressLimit
    ensures v == ((Octets(v)[0] * 256 + Octets(v)[1]) * 256 + Octets(v)[2]) * 256 + Octets(v)[3]
  {
    var q1 := v / 256;
    var q2 := q1 / 256;
    var q3 := q2 / 256;
    assert v == q1 * 256 + v % 256;
    assert q1 == q2 * 256 + q1 % 256;
    assert q2 == q3 * 256 + q2 % 256;
    assert q1 < 0x100_0000;
    assert q2 < 0x1_0000;
    assert q3 < 256;
  }

  /** One dotted piece of an address: a canonical numeral below 256. */
  function ParseOctet(s: string): (r: Option<nat>)
    ensures r.Some? ==> r.value < 256
  {
    var d := ParseDecimal(s);
    if d.Some? && d.value < 256 then d else None
  }

  /** Reads `a.b.c.d` written with canonical decimal octets below 256. */
  function ParseAddress(text: string): (r: Option<nat>)
    ensures r.Some? ==> r.value < AddressLimit
  {
    var parts := Split(text, '.');
    if |parts| != 4 then None
    else
      var a, b, c, d := ParseOctet(parts[0]), ParseOctet(parts[1]), ParseOctet(parts[2]), ParseOctet(parts[3]);
      if a.Some? && b.Some? && c.Some? && d.Some?
      then Some(((a.value * 256 + b.value) * 256 + c.value) * 256 + d.value)
      else None
  }

  /** The value of four octets, and the octets of that value. */
  lemma OctetsOfValue(a: nat, b: nat, c: nat, d: nat)
    requires a < 256 && b < 256 && c < 256 && d < 256
    ensures Octets(((a * 256 + b) * 256 + c) * 256 + d) == [a, b, c, d]
  {
    var v := ((a * 256 + b) * 256 + c) * 256 + d;
    assert v / 256 == (a * 256 + b) * 256 + c && v % 256 == d;
    assert v / 256 / 256 == a * 256 + b && v / 256 % 256 == c;
    assert v / 256 / 256 / 256 == a && v / 256 / 256 % 256 == b;
  }

  lemma DecimalHasNoDot(n: nat)
    ensures '.' !in DecimalText(n) && '/' !in DecimalText(n)
  {
  }

  /** Reading a printed address gives the address back. */
  lemma AddressRoundTrip(v: nat)
    requires v < AddressLimit
    ensures ParseAddress(AddressText(v)) == Some(v)
  {
    var o := Octets(v);
    var parts := [DecimalText(o[0]), DecimalText(o[1]), DecimalText(o[2]), DecimalText(o[3])];
    DecimalHasNoDot(o[0]);
    DecimalHasNoDot(o[1]);
    DecimalHasNoDot(o[2]);
    DecimalHasNoDot(o[3]);
    SplitJoin(parts, '.');
    assert Split(AddressText(v), '.') == parts;
    DecimalRoundTrip(o[0]);
    DecimalRoundTrip(o[1]);
    DecimalRoundTrip(o[2]);
    DecimalRoundTrip(o[3]);
    ValueOfOctets(v);
  }

  lemma ParseOctetCanonical(s: string)
    requires ParseOctet(s).Some?
    ensures DecimalText(ParseOctet(s).value) == s
  {
    DecimalCanonical(s);
  }

  /** An address that was read prints as the text it was read from. */
  lemma AddressCanonical(text: string)
    requires ParseAddress(text).Some?
    ensures AddressText(ParseAddress(text).value) == text
  {
    var parts := Split(text, '.');
    assert |parts| == 4;
    var a, b, c, d := ParseOctet(parts[0]).value, ParseOctet(parts[1]).value,
                      ParseOctet(parts[2]).value, ParseOctet(parts[3]).value;
    var v := ((a * 256 + b) * 256 + c) * 256 + d;
    assert ParseAddress(text).value == v;
    OctetsOfValue(a, b, c, d);
    ParseOctetCanonical(parts[0]);
    ParseOctetCanonical(parts[1]);
    ParseOctetCanonical(parts[2]);
    ParseOctetCanonical(parts[3]);
    assert [DecimalText(a), DecimalText(b), DecimalText(c), DecimalText(d)] == parts;
    assert Octets(v) == [a, b, c, d];
    assert AddressText(v) == Join([DecimalText(a), DecimalText(b), DecimalText(c), DecimalText(d)], '.');
    JoinSplit(text, '.');
  }

  // ---------------------------------------------------------------------
  // Prefix lengths and netmasks (RFC 4632, section 3.1)

  function Pow2(n: nat): (p: nat)
    ensures p >= 1
  {
    if n == 0 then 1 else 2 * Pow2(n - 1)
  }

  lemma {:induction false} Pow2Add(a: nat, b: nat)
    ensures Pow2(a + b) == Pow2(a) * Pow2(b)
  {
    if a > 0 {
      Pow2Add(a - 1, b);
    }
  }

  lemma {:induction false} Pow2Monotone(a: nat, b: nat)
    requires a <= b
    ensures Pow2(a) <= Pow2(b)
  {
    if a < b {
      Pow2Monotone(a, b - 1);
    }
  }

  lemma {:induction false} Pow2StrictlyMonotone(a: nat, b: nat)
    requires a < b
    ensures Pow2(a) < Pow2(b)
  {
    if a < b - 1 {
      Pow2StrictlyMonotone(a, b - 1);
    }
  }

  lemma Pow2Of32()
    ensures Pow2(8) == 256 && Pow2(32) == AddressLimit
  {
    assert Pow2(4) == 16;
    Pow2Add(4, 4);
    Pow2Add(8, 8);
    Pow2Add(16, 16);
  }

  /** The value whose `width` bits are `prefix` ones followed by zeros:
      all ones, less the host part `2^(width - prefix) - 1`. */
  function Mask(width: nat, prefix: nat): (m: nat)
    requires prefix <= width
    ensures m < Pow2(width)
  {
    Pow2Monotone(width - prefix, width);
    (Pow2(width) - 1) - (Pow2(width - prefix) - 1)
  }

  /** netaddr's netmask for a prefix length: all ones, xor the host mask
      `(1 << (32 - prefix)) - 1`. */
  function Netmask(prefix: nat): (m: nat)
    requires prefix <= 32
    ensures m < AddressLimit
  {
    Pow2Of32();
    Mask(32, prefix)
  }

  /** The `width` low bits of v, most significant first. */
  function Bits(v: nat, width: nat): (b: seq<bool>)
    ensures |b| == width
  {
    if width == 0 then [] else Bits(v / 2, width - 1) + [v % 2 == 1]
  }

  /** `width` bits of which the first `ones` are one and the rest zero. */
  function LeadingOnes(width: nat, ones: nat): seq<bool>
  {
    seq(width, i => i < ones)
  }

  lemma {:induction false} MaskBits(width: nat, prefix: nat)
    requires prefix <= width
    ensures Bits(Mask(width, prefix), width) == LeadingOnes(width, prefix)
  {
    if width > 0 {
      var v := Mask(width, prefix);
      MaskHalves(width, prefix);
      LeadingOnesLast(width - 1, prefix);
      if prefix < width {
        MaskBits(width - 1, prefix);
        assert Bits(v, width) == Bits(Mask(width - 1, prefix), width - 1) + [false];
      } else {
        MaskBits(width - 1, width - 1);
        assert LeadingOnes(width - 1, width - 1) == LeadingOnes(width - 1, prefix);
        assert Bits(v, width) == Bits(Mask(width - 1, width - 1), width - 1) + [true];
      }
    }
  }

  /** One more bit at the end is a one exactly when it lies below `ones`. */
  lemma LeadingOnesLast(width: nat, ones: nat)
    ensures LeadingOnes(width + 1, ones) == LeadingOnes(width, ones) + [width < ones]
  {
  }

  /** Dropping the lowest bit of a mask: a zero while the host part is not
      empty, a one once the mask is all ones. */
  lemma MaskHalves(width: nat, prefix: nat)
    requires 0 < width && prefix <= width
    ensures prefix < width ==> Mask(width, prefix) / 2 == Mask(width - 1, prefix) && Mask(width, prefix) % 2 == 0
    ensures prefix == width ==> Mask(width, prefix) / 2 == Mask(width - 1, width - 1) && Mask(width, prefix) % 2 == 1
  {
    var v := Mask(width, prefix);
    if prefix < width {
      assert Pow2(width - prefix) == 2 * Pow2(width - 1 - prefix);
      assert v == 2 * (Pow2(width - 1) - Pow2(width - 1 - prefix));
    } else {
      assert v == 2 * (Pow2(width - 1) - Pow2(0)) + 1;
    }
  }

  /** The netmask of a prefix length n has exactly n leading one bits and
      zeros after them. */
  lemma NetmaskLeadingOnes(prefix: nat)
    requires prefix <= 32
    ensures Bits(Netmask(prefix), 32) == LeadingOnes(32, prefix)
  {
    MaskBits(32, prefix);
  }

  /** Longer prefixes give larger masks: the mask determines the prefix. */
  lemma NetmaskDeterminesPrefix(p: nat, q: nat)
    requires p <= 32 && q <= 32 && Netmask(p) == Netmask(q)
    ensures p == q
  {
    if p < q {
      Pow2StrictlyMonotone(32 - q, 32 - p);
    } else if q < p {
      Pow2StrictlyMonotone(32 - p, 32 - q);
    }
  }

  /** The dotted-quad text of a value is its four octets, printed and
      joined with dots. */
  lemma AddressTextOf(v: nat, a: nat, b: nat, c: nat, d: nat)
    requires Octets(v) == [a, b, c, d]
    ensures AddressText(v) == DecimalText(a) + "." + DecimalText(b) + "." + DecimalText(c) + "." + DecimalText(d)
  {
    JoinFour(DecimalText(a), DecimalText(b), DecimalText(c), DecimalText(d), '.');
  }

  /** The printed mask of a /24 network. */
  lemma Netmask24Text()
    ensures AddressText(Netmask(24)) == "255.255.255.0"
  {
    assert Netmask(24) == 4294967040 by { Pow2Of32(); }
    OctetsOfValue(255, 255, 255, 0);
    AddressTextOf(Netmask(24), 255, 255, 255, 0);
    assert DecimalText(255) == "255" by {
      assert DecimalText(2) == "2";
      assert DecimalText(25) == "25";
    }
    assert DecimalText(0) == "0";
  }

  /** The printed mask of a host route (/32). */
  lemma Netmask32Text()
    ensures AddressText(Netmask(32)) == "255.255.255.255"
  {
    assert Netmask(32) == 4294967295 by {
      Pow2Of32();
      assert Pow2(0) == 1;
    }
    OctetsOfValue(255, 255, 255, 255);
    AddressTextOf(Netmask(32), 255, 255, 255, 255);
    assert DecimalText(255) == "255" by {
      assert DecimalText(2) == "2";
      assert DecimalText(25) == "25";
    }
  }

  /** The printed mask of the default route (/0). */
  lemma Netmask0Text()
    ensures AddressText(Netmask(0)) == "0.0.0.0"
  {
    assert Netmask(0) == 0;
    OctetsOfValue(0, 0, 0, 0);
    AddressTextOf(Netmask(0), 0, 0, 0, 0);
    assert DecimalText(0) == "0";
  }

  // ---------------------------------------------------------------------
  // Networks written a.b.c.d/n

  datatype Network = Network(address: nat, prefix: nat)

  predicate ValidNetwork(n: Network)
  {
    n.address < AddressLimit && n.prefix <= 32
  }

  /** `IPNetwork(text)` for text of the form `a.b.c.d/n`; any other text is
      refused (netaddr raises). */
  function ParseNetwork(text: string): (r: Option<Network>)
    ensures r.Some? ==> ValidNetwork(r.value)
  {
    var parts := Split(text, '/');
    if |parts| != 2 then None
    else
      var a := ParseAddress(parts[0]);
      var p := ParseDecimal(parts[1]);
      if a.Some? && p.Some? && p.value <= 32 then Some(Network(a.value, p.value)) else None
  }

  function NetworkText(n: Network): string
  {
    AddressText(n.address) + "/" + DecimalText(n.prefix)
  }

  lemma AddressHasNoSlash(v: nat)
    ensures '/' !in AddressText(v)
  {
    var o := Octets(v);
    var parts := [DecimalText(o[0]), DecimalText(o[1]), DecimalText(o[2]), DecimalText(o[3])];
    NoCharInJoin(parts, '.', '/');
  }

  lemma {:induction false} NoCharInJoin(parts: seq<string>, sep: char, c: char)
    requires |parts| >= 1 && c != sep && forall p <- parts :: c !in p
    ensures c !in Join(parts, sep)
  {
    if |parts| > 1 {
      NoCharInJoin(parts[1..], sep, c);
    }
  }

  /** Reading a printed network gives the network back. */
  lemma NetworkRoundTrip(n: Network)
    requires ValidNetwork(n)
    ensures ParseNetwork(NetworkText(n)) == Some(n)
  {
    AddressHasNoSlash(n.address);
    DecimalHasNoDot(n.prefix);
    SplitJoin([AddressText(n.address), DecimalText(n.prefix)], '/');
    AddressRoundTrip(n.address);
    DecimalRoundTrip(n.prefix);
  }

  /** A network that was read prints as the text it was read from. */
  lemma NetworkCanonical(text: string)
    requires ParseNetwork(text).Some?
    ensures NetworkText(ParseNetwork(text).value) == text
  {
    var parts := Split(text, '/');
    AddressCanonical(parts[0]);
    DecimalCanonical(parts[1]);
    JoinSplit(text, '/');
  }
}
