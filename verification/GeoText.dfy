/** IPv4 addresses as text in bin/geoip.c: GeoIP_num_to_addr, GeoIP_addr_to_num, and GeoIP_range_by_ip on text. */
module GeoText {
  import opened Basics
  import opened GeoTrie

  const WORD := 0x1_0000_0000

  /** `sprintf ("%d")` of a number that is not negative. */
  function Decimal(n: nat): (s: string)
    ensures s != [] && forall c :: c in s ==> '0' <= c <= '9'
  {
    (if n < 10 then [] else Decimal(n / 10)) + [DigitOf(n % 10)]
  }

  function DigitOf(d: nat): (c: char)
    requires d < 10
    ensures '0' <= c <= '9'
  {
    '0' + d as char
  }

  function Octets(n: nat): seq<nat> {
    [n / 0x100_0000 % 256, n / 0x1_0000 % 256, n / 0x100 % 256, n % 256]
  }

  /** Dotted-decimal notation. */
  function Dotted(n: nat): string {
    var o := Octets(n);
    Decimal(o[0]) + "." + Decimal(o[1]) + "." + Decimal(o[2]) + "." + Decimal(o[3])
  }

  /** GeoIP_num_to_addr: the octets from the last to the first, then the text from the first to the last. */
  method NumToAddr(ipnum: nat) returns (s: string)
    requires ipnum < WORD
    ensures s == Dotted(ipnum)
    ensures s == Decimal(ipnum / 0x100_0000) + "." + Decimal(ipnum / 0x1_0000 % 256) + "." +
                 Decimal(ipnum / 0x100 % 256) + "." + Decimal(ipnum % 256)
  {
    assert ipnum / 0x100_0000 % 256 == ipnum / 0x100_0000;
    var octet := new nat[4];
    var n := ipnum;
    var i := 0;
    ghost var want := Octets(ipnum);
    OctetShifts(ipnum);
    while i < 4
      invariant 0 <= i <= 4 && n == Shifted(ipnum, i)
      invariant forall k :: 4 - i <= k < 4 ==> octet[k] == want[k]
    {
      octet[3 - i] := n % 256;
      n := n / 256;
      i := i + 1;
    }
    s := "";
    i := 0;
    while i < 4
      invariant 0 <= i <= 4 && s == DottedPart(want, i)
      invariant forall k :: 0 <= k < 4 ==> octet[k] == want[k]
    {
      s := s + Decimal(octet[i]);
      if i < 3 {
        s := s + ".";
      }
      i := i + 1;
    }
    DottedAll(ipnum);
  }

  function Shifted(n: nat, i: nat): nat {
    if i == 0 then n else Shifted(n, i - 1) / 256
  }

  lemma OctetShifts(n: nat)
    ensures Octets(n) == [Shifted(n, 3) % 256, Shifted(n, 2) % 256, Shifted(n, 1) % 256, Shifted(n, 0) % 256]
  {
    var x := n / 0x100;
    assert Shifted(n, 1) == n / 0x100;
    assert x / 256 == n / 0x1_0000;
    assert Shifted(n, 2) == n / 0x1_0000;
    var y := n / 0x1_0000;
    assert y / 256 == n / 0x100_0000;
    assert Shifted(n, 3) == n / 0x100_0000;
  }

  function DottedPart(o: seq<nat>, i: nat): string
    requires i <= |o|
  {
    if i == 0 then ""
    else DottedPart(o, i - 1) + Decimal(o[i - 1]) + (if i - 1 < 3 then "." else "")
  }

  lemma DottedAll(n: nat)
    ensures DottedPart(Octets(n), 4) == Dotted(n)
  {
    var o := Octets(n);
    assert DottedPart(o, 1) == Decimal(o[0]) + ".";
    assert DottedPart(o, 2) == Decimal(o[0]) + "." + Decimal(o[1]) + ".";
    assert DottedPart(o, 3) == Decimal(o[0]) + "." + Decimal(o[1]) + "." + Decimal(o[2]) + ".";
  }

  /** One more octet below the number so far. */
  function Push(ipnum: nat, octet: nat): nat {
    ipnum * 256 + octet
  }

  /** One more digit, in unsigned 32-bit arithmetic. */
  function NextDigit(octet: nat, c: char): (r: nat)
    requires '0' <= c <= '9'
    ensures r < WORD
  {
    (octet * 10 + (c - '0') as nat) % WORD
  }

  /** The loop of GeoIP_addr_to_num from where it stands: the octet so far, the number so far, dots to come. */
  function Parse(s: string, octet: nat, ipnum: nat, i: int): nat
    decreases |s|
  {
    if s == [] then
      if octet > 255 || i != 0 then 0 else Push(ipnum, octet)
    else if s[0] == '.' then
      if octet > 255 then 0 else Parse(s[1..], 0, Push(ipnum, octet), i - 1)
    else if s[0] < '0' || '9' < s[0] then 0
    else Parse(s[1..], NextDigit(octet, s[0]), ipnum, i)
  }

  /** GeoIP_addr_to_num; the octet is an unsigned 32-bit number. */
  method AddrToNum(s: string) returns (n: nat)
    ensures n == Parse(s, 0, 0, 3)
  {
    var octet: nat, ipnum: nat, i, k := 0, 0, 3, 0;
    while k < |s|
      invariant 0 <= k <= |s| && octet < WORD
      invariant Parse(s, 0, 0, 3) == Parse(s[k..], octet, ipnum, i)
    {
      var c := s[k];
      assert s[k..][0] == c && s[k..][1..] == s[k + 1..];
      if c == '.' {
        if octet > 255 {
          return 0;
        }
        ipnum := Push(ipnum, octet);
        i := i - 1;
        octet := 0;
      } else {
        if c < '0' || '9' < c {
          return 0;
        }
        octet := AddDigit(octet, c);
      }
      k := k + 1;
    }
    assert s[k..] == [];
    if octet > 255 || i != 0 {
      return 0;
    }
    n := Push(ipnum, octet);
  }

  /** Ten times the octet by a shift and two additions. */
  method AddDigit(octet: nat, c: char) returns (r: nat)
    requires octet < WORD && '0' <= c <= '9'
    ensures r == NextDigit(octet, c)
  {
    var t := octet;
    r := octet * 8 % WORD;
    ModAdd(t * 8, t);
    r := (r + t) % WORD;
    ModAdd(t * 9, t);
    r := (r + t) % WORD;
    ModAdd(t * 10, (c - '0') as nat);
    r := (r + (c - '0') as nat) % WORD;
  }

  lemma ModAdd(a: nat, b: nat)
    ensures (a % WORD + b) % WORD == (a + b) % WORD
  {}

  predicate Digits(f: string) {
    forall c :: c in f ==> '0' <= c <= '9'
  }

  /** The number a field of digits stands for. */
  function FieldValue(f: string, start: nat): nat {
    if f == [] then start
    else if f[0] < '0' || '9' < f[0] then start
    else FieldValue(f[1..], start * 10 + (f[0] - '0') as nat)
  }

  /** The same in unsigned 32-bit arithmetic. */
  function FieldMod(f: string, octet: nat): nat {
    if f == [] then octet
    else if f[0] < '0' || '9' < f[0] then octet
    else FieldMod(f[1..], NextDigit(octet, f[0]))
  }

  /** A field of digits counts modulo 2^32. */
  lemma {:induction false} FieldWraps(f: string, start: nat, octet: nat)
    requires Digits(f) && octet == start % WORD
    ensures FieldMod(f, octet) == FieldValue(f, start) % WORD
    decreases |f|
  {
    if f != [] {
      assert f[0] in f && forall c :: c in f[1..] ==> c in f;
      WrapStep(start, octet, (f[0] - '0') as nat);
      FieldWraps(f[1..], start * 10 + (f[0] - '0') as nat, NextDigit(octet, f[0]));
    }
  }

  lemma WrapStep(start: nat, octet: nat, d: nat)
    requires octet == start % WORD
    ensures (octet * 10 + d) % WORD == (start * 10 + d) % WORD
  {
    var q := start / WORD;
    assert start == q * WORD + octet;
    assert start * 10 + d == (10 * q) * WORD + (octet * 10 + d);
    WrapPeriod(10 * q, octet * 10 + d);
  }

  lemma WrapPeriod(k: nat, x: nat)
    ensures (k * WORD + x) % WORD == x % WORD
  {}

  lemma {:induction false} ParseField(f: string, rest: string, octet: nat, ipnum: nat, i: int)
    requires Digits(f)
    ensures Parse(f + rest, octet, ipnum, i) == Parse(rest, FieldMod(f, octet), ipnum, i)
    decreases |f|
  {
    if f == [] {
      assert f + rest == rest;
    } else {
      assert f[0] in f && forall c :: c in f[1..] ==> c in f;
      assert (f + rest)[0] == f[0] && (f + rest)[1..] == f[1..] + rest;
      ParseField(f[1..], rest, NextDigit(octet, f[0]), ipnum, i);
    }
  }

  lemma ParseDotted(f: string, rest: string, ipnum: nat, i: int)
    requires Digits(f)
    ensures Parse(f + "." + rest, 0, ipnum, i) ==
              if FieldMod(f, 0) > 255 then 0 else Parse(rest, 0, Push(ipnum, FieldMod(f, 0)), i - 1)
  {
    ParseField(f, "." + rest, 0, ipnum, i);
    assert f + "." + rest == f + ("." + rest);
    assert ("." + rest)[1..] == rest;
  }

  /** Four octets, leading one first. */
  function FromOctets(o0: nat, o1: nat, o2: nat, o3: nat): nat {
    Push(Push(Push(Push(0, o0), o1), o2), o3)
  }

  lemma ParseFields(f0: string, f1: string, f2: string, f3: string)
    requires Digits(f0) && Digits(f1) && Digits(f2) && Digits(f3)
    ensures var (o0, o1, o2, o3) := (FieldMod(f0, 0), FieldMod(f1, 0), FieldMod(f2, 0), FieldMod(f3, 0));
            Parse(f0 + "." + f1 + "." + f2 + "." + f3, 0, 0, 3) ==
              if o0 <= 255 && o1 <= 255 && o2 <= 255 && o3 <= 255 then FromOctets(o0, o1, o2, o3) else 0
  {
    var r2 := f2 + "." + f3;
    var r1 := f1 + "." + r2;
    assert f0 + "." + f1 + "." + f2 + "." + f3 == f0 + "." + r1;
    var a := Push(0, FieldMod(f0, 0));
    var b := Push(a, FieldMod(f1, 0));
    var c := Push(b, FieldMod(f2, 0));
    ParseDotted(f0, r1, 0, 3);
    ParseDotted(f1, r2, a, 2);
    ParseDotted(f2, f3, b, 1);
    ParseField(f3, [], 0, c, 0);
    assert f3 + [] == f3;
  }

  /**
   * What the parser makes of any four fields of digits: their values modulo 2^32, if those are all at
   * most 255, and 0 otherwise.
   */
  lemma ParseFour(f0: string, f1: string, f2: string, f3: string, o0: nat, o1: nat, o2: nat, o3: nat)
    requires Digits(f0) && Digits(f1) && Digits(f2) && Digits(f3)
    requires o0 == FieldValue(f0, 0) % WORD && o1 == FieldValue(f1, 0) % WORD
    requires o2 == FieldValue(f2, 0) % WORD && o3 == FieldValue(f3, 0) % WORD
    ensures Parse(f0 + "." + f1 + "." + f2 + "." + f3, 0, 0, 3) ==
              if o0 <= 255 && o1 <= 255 && o2 <= 255 && o3 <= 255
              then 0x100_0000 * o0 + 0x1_0000 * o1 + 0x100 * o2 + o3 else 0
  {
    FieldWraps(f0, 0, 0);
    FieldWraps(f1, 0, 0);
    FieldWraps(f2, 0, 0);
    FieldWraps(f3, 0, 0);
    ParseFields(f0, f1, f2, f3);
  }

  function Dots(s: string): nat {
    if s == "" then 0 else (if s[0] == '.' then 1 else 0) + Dots(s[1..])
  }

  /** A text with anything but digits and dots, or without three dots, is no address: it reads as 0. */
  lemma {:induction false} ParseRejects(s: string, octet: nat, ipnum: nat, i: int)
    requires Dots(s) != i || exists k :: 0 <= k < |s| && s[k] != '.' && !('0' <= s[k] <= '9')
    ensures Parse(s, octet, ipnum, i) == 0
    decreases |s|
  {
    if s != "" && (s[0] == '.' || '0' <= s[0] <= '9') {
      if k :| 0 <= k < |s| && s[k] != '.' && !('0' <= s[k] <= '9') {
        assert s[1..][k - 1] == s[k];
      }
      if s[0] == '.' {
        ParseRejects(s[1..], 0, Push(ipnum, octet), i - 1);
      } else {
        ParseRejects(s[1..], NextDigit(octet, s[0]), ipnum, i);
      }
    }
  }

  lemma {:induction false} FieldValueConcat(f: string, c: char, start: nat)
    requires Digits(f) && '0' <= c <= '9'
    ensures FieldValue(f + [c], start) == FieldValue(f, start) * 10 + (c - '0') as nat
    decreases |f|
  {
    if f == [] {
      assert f + [c] == [c] && [c][1..] == [];
    } else {
      assert f[0] in f && forall x :: x in f[1..] ==> x in f;
      assert (f + [c])[1..] == f[1..] + [c];
      FieldValueConcat(f[1..], c, start * 10 + (f[0] - '0') as nat);
    }
  }

  lemma {:induction false} DecimalValue(n: nat)
    ensures FieldValue(Decimal(n), 0) == n && Digits(Decimal(n))
  {
    if n >= 10 {
      DecimalValue(n / 10);
      FieldValueConcat(Decimal(n / 10), DigitOf(n % 10), 0);
    } else {
      assert Decimal(n) == [DigitOf(n)] && [DigitOf(n)][1..] == [];
    }
  }

  /** Halving by bytes, from the last octet up. */
  lemma OctetsAre(n: nat, x: nat, y: nat, z: nat)
    requires x == n / 256 && y == x / 256 && z == y / 256
    ensures Octets(n) == [z % 256, y % 256, x % 256, n % 256]
  {
    OctetShifts(n);
    assert Shifted(n, 0) == n;
    assert Shifted(n, 1) == x;
    assert Shifted(n, 2) == y;
    assert Shifted(n, 3) == z;
  }

  lemma OctetsBack(n: nat)
    requires n < WORD
    ensures var o := Octets(n);
            o[0] <= 255 && o[1] <= 255 && o[2] <= 255 && o[3] <= 255 && FromOctets(o[0], o[1], o[2], o[3]) == n
  {
    var x := n / 256;
    var y := x / 256;
    var z := y / 256;
    OctetsAre(n, x, y, z);
    HornerAll(n, x, y, z);
  }

  lemma HornerAll(n: nat, x: nat, y: nat, z: nat)
    requires n < WORD && x == n / 256 && y == x / 256 && z == y / 256
    ensures z < 256 && FromOctets(z % 256, y % 256, x % 256, n % 256) == n
  {
    assert x < 0x100_0000;
    assert y < 0x1_0000;
    assert Push(0, z) == z;
    Horner(z, y, y % 256);
    Horner(y, x, x % 256);
    Horner(x, n, n % 256);
  }

  lemma Horner(high: nat, n: nat, low: nat)
    requires high == n / 256 && low == n % 256
    ensures Push(high, low) == n
  {}

  /** Four octets, printed and parsed. */
  lemma ParsePrinted(o0: nat, o1: nat, o2: nat, o3: nat)
    requires o0 <= 255 && o1 <= 255 && o2 <= 255 && o3 <= 255
    ensures Parse(Decimal(o0) + "." + Decimal(o1) + "." + Decimal(o2) + "." + Decimal(o3), 0, 0, 3)
         == FromOctets(o0, o1, o2, o3)
  {
    DecimalMod(o0);
    DecimalMod(o1);
    DecimalMod(o2);
    DecimalMod(o3);
    ParseFields(Decimal(o0), Decimal(o1), Decimal(o2), Decimal(o3));
  }

  lemma DecimalMod(o: nat)
    requires o < WORD
    ensures FieldMod(Decimal(o), 0) == o && Digits(Decimal(o))
  {
    DecimalValue(o);
    FieldWraps(Decimal(o), 0, 0);
  }

  /** Parsing what was printed gives back every 32-bit address. */
  lemma RoundTrip(n: nat)
    requires n < WORD
    ensures Parse(Dotted(n), 0, 0, 3) == n
  {
    var o := Octets(n);
    OctetsBack(n);
    ParsePrinted(o[0], o[1], o[2], o[3]);
  }

  lemma DecimalLength(n: nat)
    requires n <= 255
    ensures 1 <= |Decimal(n)| <= 3
  {
    assert n / 10 / 10 < 10;
    assert |Decimal(n / 10 / 10)| == 1;
    assert n >= 10 ==> |Decimal(n)| == |Decimal(n / 10)| + 1;
    assert n / 10 >= 10 ==> |Decimal(n / 10)| == |Decimal(n / 10 / 10)| + 1;
  }

  /** With its terminator the text fits the 16 bytes allocated for it. */
  lemma FitsBuffer(n: nat)
    ensures |Dotted(n)| + 1 <= 16
  {
    var o := Octets(n);
    DecimalLength(o[0]);
    DecimalLength(o[1]);
    DecimalLength(o[2]);
    DecimalLength(o[3]);
  }

  /** The parser does not reject every octet above 255: 4294967297.0.0.1 is read as 1.0.0.1. */
  lemma WrappedOctet()
    ensures Parse(Decimal(4294967297) + "." + Decimal(0) + "." + Decimal(0) + "." + Decimal(1), 0, 0, 3) == 0x0100_0001
  {
    DecimalValue(4294967297);
    DecimalValue(0);
    DecimalValue(1);
    ParseFour(Decimal(4294967297), Decimal(0), Decimal(0), Decimal(1), 1, 0, 0, 1);
  }

  /** GeoIP_range_by_ip: the range as two texts; a text that is no address counts as 0.0.0.0. */
  method RangeByIp(gi: GeoIP, addr: string) returns (from: string, to: string, ghost lo: nat, ghost hi: nat)
    requires gi.Valid() && WellFormed(gi.db, |Octets(0)| * 8)
    modifies gi
    ensures var w := |Octets(0)| * 8;
            && Parse(addr, 0, 0, 3) < WORD
            && MaximalRange(gi.db, w, Parse(addr, 0, 0, 3), lo, hi)
            && gi.netmask == MaskOf(gi.db, w, Parse(addr, 0, 0, 3))
    ensures from == Dotted(lo) && to == Dotted(hi)
    ensures Parse(from, 0, 0, 3) == lo && Parse(to, 0, 0, 3) == hi
  {
    var w := |Octets(0)| * 8;
    Pow2Word();
    assert LastOf(w) == WORD - 1;
    var ipnum := AddrToNum(addr);
    ParseBound(addr, 0, 0, 3);
    var l, r := RangeOf(gi, w, ipnum);
    from := NumToAddr(l);
    to := NumToAddr(r);
    RoundTrip(l);
    RoundTrip(r);
    lo, hi := l, r;
  }

  /** 256 to the number of octets already in. */
  function Limit(i: int): nat
    decreases if i >= 3 then 0 else 3 - i
  {
    if i >= 3 then 1 else 256 * Limit(i + 1)
  }

  lemma {:induction false} ParseBound(s: string, octet: nat, ipnum: nat, i: int)
    requires i <= 3 && ipnum < Limit(i)
    ensures Parse(s, octet, ipnum, i) < WORD
    decreases |s|
  {
    if s == [] {
      assert Limit(0) == 256 * Limit(1) == 0x1_0000 * Limit(2) == 0x100_0000 * Limit(3);
    } else if s[0] == '.' {
      if octet <= 255 { ParseBound(s[1..], 0, Push(ipnum, octet), i - 1); }
    } else if '0' <= s[0] <= '9' {
      ParseBound(s[1..], NextDigit(octet, s[0]), ipnum, i);
    }
  }
}
