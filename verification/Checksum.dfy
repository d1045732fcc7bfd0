/** The internet checksum of src/chksum.c (RFC 1071), on a little-endian machine. */
module Checksum {
  import opened Basics

  type Word = w: nat | w < 0x10000

  // ---------- one's-complement arithmetic ----------

  /** Addition with end-around carry, section 1 of RFC 1071. */
  function OnesAdd(a: Word, b: Word): Word {
    if a + b < 0x10000 then a + b else a + b - 0xFFFF
  }

  function Pair(lo: Byte, hi: Byte): Word {
    lo as nat + 256 * hi as nat
  }

  /** The words of a buffer, low byte first; an odd last byte counts as a word with a zero high byte. */
  function Words(s: seq<Byte>): seq<Word> {
    if |s| == 0 then []
    else if |s| == 1 then [s[0]]
    else [Pair(s[0], s[1])] + Words(s[2..])
  }

  /** The one's-complement sum of words. */
  function OnesSum(ws: seq<Word>): Word {
    if ws == [] then 0 else OnesAdd(OnesSum(ws[..|ws| - 1]), ws[|ws| - 1])
  }

  function Total(ws: seq<Word>): nat {
    if ws == [] then 0 else Total(ws[..|ws| - 1]) + ws[|ws| - 1]
  }

  /** The representative of `n` modulo 65535 in which only 0 itself is 0. */
  function Canon(n: nat): Word {
    if n <= 0xFFFF then n else Canon(n - 0xFFFF)
  }

  lemma {:induction false} CanonAdd(m: nat, n: nat)
    ensures OnesAdd(Canon(m), Canon(n)) == Canon(m + n)
  {
    if m > 0xFFFF {
      CanonAdd(m - 0xFFFF, n);
    } else if n > 0xFFFF {
      CanonAdd(m, n - 0xFFFF);
    }
  }

  /** Canon takes off multiples of 65535. */
  lemma {:induction false} CanonShift(m: nat, q: nat)
    requires m == 0 ==> q == 0
    ensures Canon(0xFFFF * q + m) == Canon(m)
  {
    if q > 0 { CanonShift(m, q - 1); }
  }

  lemma {:induction false} CanonIs(n: nat)
    ensures Canon(n) % 0xFFFF == n % 0xFFFF && (Canon(n) == 0 <==> n == 0)
  {
    if n > 0xFFFF {
      CanonIs(n - 0xFFFF);
      OneLess(n);
    }
  }

  lemma OneLess(n: nat)
    requires n >= 0xFFFF
    ensures (n - 0xFFFF) % 0xFFFF == n % 0xFFFF
  {
  }

  lemma {:induction false} CanonScale(n: nat)
    ensures Canon(256 * Canon(n)) == Canon(256 * n)
  {
    if n > 0xFFFF {
      CanonScale(n - 0xFFFF);
      CanonShift(256 * (n - 0xFFFF), 256);
    }
  }

  lemma {:induction false} OnesSumIs(ws: seq<Word>)
    ensures OnesSum(ws) == Canon(Total(ws))
    decreases |ws|
  {
    if ws != [] {
      OnesSumIs(ws[..|ws| - 1]);
      CanonAdd(Total(ws[..|ws| - 1]), ws[|ws| - 1]);
    }
  }

  lemma {:induction false} TotalZero(ws: seq<Word>)
    ensures Total(ws) == 0 <==> forall i :: 0 <= i < |ws| ==> ws[i] == 0
    decreases |ws|
  {
    if ws != [] {
      var init := ws[..|ws| - 1];
      TotalZero(init);
      assert forall i :: 0 <= i < |init| ==> init[i] == ws[i];
    }
  }

  /** The one's-complement sum is the plain sum modulo 65535, and 0 only for nothing but zeros. */
  lemma OnesSumMeans(ws: seq<Word>)
    ensures OnesSum(ws) % 0xFFFF == Total(ws) % 0xFFFF
    ensures OnesSum(ws) == 0 <==> forall i :: 0 <= i < |ws| ==> ws[i] == 0
  {
    OnesSumIs(ws);
    CanonIs(Total(ws));
    TotalZero(ws);
  }

  lemma {:induction false} TotalConcat(a: seq<Word>, b: seq<Word>)
    ensures Total(a + b) == Total(a) + Total(b)
    decreases |b|
  {
    if b == [] {
      assert a + b == a;
    } else {
      assert (a + b)[..|a + b| - 1] == a + b[..|b| - 1];
      TotalConcat(a, b[..|b| - 1]);
    }
  }

  lemma {:induction false} WordsConcat(a: seq<Byte>, b: seq<Byte>)
    requires Even(|a|)
    ensures Words(a + b) == Words(a) + Words(b)
    decreases |a|
  {
    if a == [] {
      assert a + b == b;
    } else {
      assert (a + b)[2..] == a[2..] + b;
      WordsConcat(a[2..], b);
    }
  }

  /** Parts at even offsets may be summed apart, section 2 of RFC 1071. */
  lemma SumOfParts(a: seq<Byte>, b: seq<Byte>)
    requires Even(|a|)
    ensures OnesSum(Words(a + b)) == OnesAdd(OnesSum(Words(a)), OnesSum(Words(b)))
  {
    WordsConcat(a, b);
    TotalConcat(Words(a), Words(b));
    OnesSumIs(Words(a + b));
    OnesSumIs(Words(a));
    OnesSumIs(Words(b));
    CanonAdd(Total(Words(a)), Total(Words(b)));
  }

  function Swap(w: Word): Word {
    w % 256 * 256 + w / 256
  }

  function Swapped(ws: seq<Word>): (r: seq<Word>)
    ensures |r| == |ws| && forall i :: 0 <= i < |ws| ==> r[i] == Swap(ws[i])
  {
    seq(|ws|, i requires 0 <= i < |ws| => Swap(ws[i]))
  }

  /** Swapping the bytes is multiplying by 256. */
  lemma SwapIs(w: Word)
    ensures Swap(w) == Canon(256 * w as nat)
  {
    assert 256 * w as nat == 0xFFFF * (w / 256) + Swap(w);
    CanonShift(Swap(w), w / 256);
  }

  lemma SwapAdd(a: Word, b: Word)
    ensures Swap(OnesAdd(a, b)) == OnesAdd(Swap(a), Swap(b))
  {
    SwapIs(OnesAdd(a, b));
    SwapIs(a);
    SwapIs(b);
    CanonAdd(a, b);
    CanonScale(a as nat + b as nat);
    CanonAdd(256 * a as nat, 256 * b as nat);
  }

  /** The order of the bytes in a word does not matter, section 2 of RFC 1071. */
  lemma {:induction false} SumOfSwapped(ws: seq<Word>)
    ensures OnesSum(Swapped(ws)) == Swap(OnesSum(ws))
    decreases |ws|
  {
    if ws != [] {
      var init := ws[..|ws| - 1];
      assert Swapped(ws)[..|ws| - 1] == Swapped(init);
      SumOfSwapped(init);
      SwapAdd(OnesSum(init), ws[|ws| - 1]);
    }
  }

  // ---------- in_checksum ----------

  /** Folding the high half in keeps the sum modulo 65535. */
  lemma Folded(n: nat)
    ensures Canon(n % 0x10000 + n / 0x10000) == Canon(n)
    ensures n >= 0x10000 ==> n % 0x10000 + n / 0x10000 < n
  {
    var q, m := n / 0x10000, n % 0x10000 + n / 0x10000;
    assert n == 0xFFFF * q + m;
    CanonShift(m, q);
  }

  predicate Even(n: nat) {
    n % 2 == 0
  }

  lemma EvenStep(n: nat)
    requires Even(n)
    ensures Even(n + 2)
  {
  }

  /** One more word, or a last odd byte. */
  lemma OneWord(s: seq<Byte>, w: seq<Byte>, t: seq<Byte>)
    requires Even(|s|) && 1 <= |w| <= 2 && t == s + w
    ensures Total(Words(t)) == Total(Words(s)) + if |w| == 2 then Pair(w[0], w[1]) else w[0]
  {
    WordsConcat(s, w);
    TotalConcat(Words(s), Words(w));
    if |w| == 2 {
      assert w[2..] == [];
      TotalOne(Pair(w[0], w[1]));
    } else {
      TotalOne(w[0]);
    }
  }

  /** in_checksum: the one's-complement sum of the words. */
  method InChecksum(buf: array<Byte>, len: nat) returns (r: Word)
    requires len <= buf.Length
    ensures r == OnesSum(Words(buf[..len]))
  {
    var sum := SumWords(buf, len);
    r := Fold(sum);
    OnesSumIs(Words(buf[..len]));
  }

  /** The first loop: the plain sum. */
  method SumWords(buf: array<Byte>, len: nat) returns (sum: nat)
    requires len <= buf.Length
    ensures sum == Total(Words(buf[..len]))
  {
    var slen: int, wrd := len, 0;
    sum := 0;
    while slen > 1
      invariant slen == len - wrd && 0 <= wrd <= len && Even(wrd)
      invariant sum == Total(Words(buf[..wrd]))
    {
      OneWord(buf[..wrd], [buf[wrd], buf[wrd + 1]], buf[..wrd + 2]);
      EvenStep(wrd);
      sum := sum + Pair(buf[wrd], buf[wrd + 1]);
      wrd := wrd + 2;
      slen := slen - 2;
    }
    if slen > 0 {
      OneWord(buf[..wrd], [buf[wrd]], buf[..len]);
      sum := sum + buf[wrd];
    }
  }

  /** The second loop: the high half is added in until it is 0. */
  method Fold(total: nat) returns (r: Word)
    ensures r == Canon(total)
  {
    var sum := total;
    while sum / 0x10000 != 0
      invariant Canon(sum) == Canon(total)
      decreases sum
    {
      Folded(sum);
      sum := sum % 0x10000 + sum / 0x10000;
    }
    r := sum;
  }

  /** For a packet of at most 65536 bytes the running sum fits in 31 bits. */
  lemma {:induction false} TotalFits(s: seq<Byte>)
    ensures |s| <= 0x10000 ==> Total(Words(s)) < 0x8000_0000
    ensures 2 * Total(Words(s)) <= 0xFFFF * (|s| + 1)
    decreases |s|
  {
    if |s| > 1 {
      TotalFits(s[2..]);
      assert Words(s) == [Pair(s[0], s[1])] + Words(s[2..]);
      TotalConcat([Pair(s[0], s[1])], Words(s[2..]));
    }
  }

  // ---------- the checksum over IPv6 ----------

  /** An IPv6 address as 16 bytes. */
  type Address = a: seq<Byte> | |a| == 16 witness seq(16, i => 0)

  /** tcp_PseudoHeader6: the addresses, the length in 16 bits high byte first, three zeros, the protocol. */
  function Pseudo(src: Address, dst: Address, proto: Byte, len: nat): (r: seq<Byte>)
    ensures |r| == 38
  {
    src + dst + [len / 256 % 256, len % 256, 0, 0, 0, proto]
  }

  /** The plain sum of all words of the pseudo-header and the payload. */
  function Covered(src: Address, dst: Address, proto: Byte, payload: seq<Byte>): nat {
    Total(Words(Pseudo(src, dst, proto, |payload|))) + Total(Words(payload))
  }

  /**
   * That is: the words of both addresses, the length with its high byte first, the protocol as a high byte, and the
   * words of the payload.
   */
  lemma CoveredMeans(src: Address, dst: Address, proto: Byte, payload: seq<Byte>)
    ensures Covered(src, dst, proto, payload) ==
            Total(Words(src)) + Total(Words(dst)) + (|payload| / 256 % 256 + 256 * (|payload| % 256)) + 256 * proto
            + Total(Words(payload))
  {
    var len := |payload|;
    var tail: seq<Byte> := [len / 256 % 256, len % 256, 0, 0, 0, proto];
    WordsConcat(src, dst);
    WordsConcat(src + dst, tail);
    TotalConcat(Words(src), Words(dst));
    TotalConcat(Words(src) + Words(dst), Words(tail));
    Parted([], tail[..2], tail[2..]);
    Parted([], tail[2..4], tail[4..]);
    Parted([], tail[4..], []);
    assert [] + (tail[..2] + tail[2..]) == tail && [] + (tail[2..4] + tail[4..]) == tail[2..];
    assert [] + (tail[4..] + []) == tail[4..];
  }

  /** Bytes at even places count once, those at odd places 256 times. */
  function ByteSum(s: seq<Byte>): nat {
    if s == [] then 0
    else ByteSum(s[..|s| - 1]) + (if |s| % 2 == 1 then s[|s| - 1] as nat else 256 * s[|s| - 1] as nat)
  }

  lemma {:induction false} WordsAreBytes(s: seq<Byte>)
    ensures Total(Words(s)) == ByteSum(s)
    decreases |s|
  {
    if |s| == 1 {
      TotalOne(s[0]);
    } else if |s| > 1 {
      var n := if |s| % 2 == 0 then |s| - 2 else |s| - 1;
      assert s[..n] + s[n..] == s;
      OneWord(s[..n], s[n..], s);
      WordsAreBytes(s[..n]);
      if |s| % 2 == 0 { TwoBytes(s, n); }
    }
  }

  lemma TwoBytes(s: seq<Byte>, n: nat)
    requires n + 2 == |s| && n % 2 == 0
    ensures ByteSum(s) == ByteSum(s[..n]) + s[n] as nat + 256 * s[n + 1] as nat
  {
    var t := s[..n + 1];
    assert t[..n] == s[..n] && s[..|s| - 1] == t;
    assert ByteSum(t) == ByteSum(t[..n]) + t[n] as nat;
  }

  /** The checksum that goes with a sum: never 0, and together they are 0 modulo 65535. */
  predicate Stamps(c: Word, sum: nat) {
    c != 0 && (c + sum) % 0xFFFF == 0
  }

  lemma StampUnique(c: Word, d: Word, sum: nat)
    requires Stamps(c, sum) && Stamps(d, sum)
    ensures c == d
  {
  }

  lemma Complement(c1: Word, c2: Word, a: seq<Word>, b: seq<Word>, r: Word)
    requires c1 == OnesSum(a) && c2 == OnesSum(b)
    requires var y := OnesAdd(c1, c2); r == if y == 0xFFFF then 0xFFFF else 0xFFFF - y
    ensures Stamps(r, Total(a) + Total(b))
  {
    OnesSumIs(a);
    OnesSumIs(b);
    CanonAdd(Total(a), Total(b));
    StampOf(OnesAdd(c1, c2), Total(a) + Total(b));
  }

  lemma StampOf(y: Word, sum: nat)
    requires y == Canon(sum)
    ensures Stamps(if y == 0xFFFF then 0xFFFF else 0xFFFF - y, sum)
  {
    var c := if y == 0xFFFF then 0xFFFF else 0xFFFF - y;
    CanonAdd(c, sum);
    CanonIs(c as nat + sum);
  }

  /** _ip6_checksum */
  method Ip6Checksum(src: Address, dst: Address, proto: Word, payload: array<Byte>, len: nat) returns (r: Word)
    requires len <= payload.Length
    ensures Stamps(r, Covered(src, dst, Low(proto), payload[..len]))
  {
    var header := Pseudo(src, dst, Low(proto), len);
    var ph := new Byte[38](i requires 0 <= i < 38 => header[i]);
    assert ph[..38] == header;
    var c1 := InChecksum(ph, 38);
    var c2 := InChecksum(payload, len);
    r := Finish(c1, c2);
    Complement(c1, c2, Words(header), Words(payload[..len]), r);
  }

  /** The last steps: carries in, ones complement, 0xFFFF for 0. */
  method Finish(c1: Word, c2: Word) returns (r: Word)
    ensures var y := OnesAdd(c1, c2); r == if y == 0xFFFF then 0xFFFF else 0xFFFF - y
  {
    var chksum: nat := c1 as nat + c2 as nat;
    chksum := chksum / 0x10000 + chksum % 0x10000;
    chksum := chksum + chksum / 0x10000;
    chksum := 0xFFFF - chksum % 0x10000;
    if chksum == 0 {
      chksum := 0xFFFF;
    }
    r := chksum;
  }

  /** The checks for TCP, UDP and ICMP: accepted exactly when everything covered sums to 0 modulo 65535. */
  method Ip6Check(src: Address, dst: Address, proto: Word, payload: array<Byte>, len: nat) returns (ok: bool)
    requires len <= payload.Length
    ensures ok <==> Covered(src, dst, Low(proto), payload[..len]) % 0xFFFF == 0
  {
    var c := Ip6Checksum(src, dst, proto, payload, len);
    ok := c == 0xFFFF;
  }

  /** One word, at an even offset, replaced. */
  function Patch(s: seq<Byte>, o: nat, w: Word): (r: seq<Byte>)
    requires o + 1 < |s|
    ensures |r| == |s|
  {
    s[o := Low(w)][o + 1 := High(w)]
  }

  function Low(w: Word): Byte { w % 256 }
  function High(w: Word): Byte { w / 256 }

  lemma Halves(w: Word)
    ensures Pair(Low(w), High(w)) == w
  {
  }

  lemma PatchedTotal(s: seq<Byte>, o: nat, w: Word)
    requires Even(o) && o + 1 < |s|
    ensures Total(Words(Patch(s, o, w))) == Total(Words(s)) - Pair(s[o], s[o + 1]) + w
  {
    Halves(w);
    Split(s, o, s[o], s[o + 1]);
    Split(s, o, Low(w), High(w));
    assert s[o := s[o]][o + 1 := s[o + 1]] == s;
  }

  lemma Split(s: seq<Byte>, o: nat, lo: Byte, hi: Byte)
    requires Even(o) && o + 1 < |s|
    ensures Total(Words(s[o := lo][o + 1 := hi])) == Total(Words(s[..o])) + Pair(lo, hi) + Total(Words(s[o + 2..]))
  {
    assert s[o := lo][o + 1 := hi] == s[..o] + ([lo, hi] + s[o + 2..]);
    Parted(s[..o], [lo, hi], s[o + 2..]);
  }

  lemma Parted(a: seq<Byte>, m: seq<Byte>, b: seq<Byte>)
    requires Even(|a|) && |m| == 2
    ensures Total(Words(a + (m + b))) == Total(Words(a)) + Pair(m[0], m[1]) + Total(Words(b))
  {
    WordsConcat(a, m + b);
    WordsConcat(m, b);
    TotalConcat(Words(a), Words(m + b));
    TotalConcat(Words(m), Words(b));
    assert m[2..] == [];
    assert Words(m) == [Pair(m[0], m[1])];
    TotalOne(Pair(m[0], m[1]));
  }

  lemma TotalOne(w: Word)
    ensures Total([w]) == w
  {
    assert [w][..0] == [];
  }

  /** Whatever was stamped while the checksum field was zero is accepted with the stamp in the field. */
  lemma StampedVerifies(src: Address, dst: Address, proto: Byte, payload: seq<Byte>, o: nat, c: Word)
    requires Even(o) && o + 1 < |payload| && payload[o] == 0 && payload[o + 1] == 0
    requires Stamps(c, Covered(src, dst, proto, payload))
    ensures Covered(src, dst, proto, Patch(payload, o, c)) % 0xFFFF == 0
  {
    PatchedCovered(src, dst, proto, payload, o, c);
    Shifted(Covered(src, dst, proto, payload), c);
  }

  lemma Shifted(sum: nat, c: Word)
    requires Stamps(c, sum)
    ensures (sum - Pair(0, 0) + c) % 0xFFFF == 0
  {
  }

  lemma PatchedCovered(src: Address, dst: Address, proto: Byte, payload: seq<Byte>, o: nat, w: Word)
    requires Even(o) && o + 1 < |payload|
    ensures Pair(payload[o], payload[o + 1]) <= Covered(src, dst, proto, payload)
    ensures Covered(src, dst, proto, Patch(payload, o, w))
         == Covered(src, dst, proto, payload) - Pair(payload[o], payload[o + 1]) + w
  {
    PatchedTotal(payload, o, w);
    SumParts(payload, o);
    assert |Patch(payload, o, w)| == |payload|;
  }

  /** Of the changes to one word of an accepted packet, just 0 against 0xFFFF goes unseen. */
  lemma ChangedWordSeen(src: Address, dst: Address, proto: Byte, payload: seq<Byte>, o: nat, w: Word)
    requires Even(o) && o + 1 < |payload| && Covered(src, dst, proto, payload) % 0xFFFF == 0
    ensures Covered(src, dst, proto, Patch(payload, o, w)) % 0xFFFF == 0
       <==> Alike(w, Pair(payload[o], payload[o + 1]))
  {
    PatchedCovered(src, dst, proto, payload, o, w);
    SameRemainder(Covered(src, dst, proto, payload), Pair(payload[o], payload[o + 1]), w);
  }

  /** The same for one word of an address. */
  lemma ChangedAddressSeen(src: Address, dst: Address, proto: Byte, payload: seq<Byte>, o: nat, w: Word)
    requires Even(o) && o + 1 < 16 && Covered(src, dst, proto, payload) % 0xFFFF == 0
    ensures Covered(Patch(src, o, w), dst, proto, payload) % 0xFFFF == 0 <==> Alike(w, Pair(src[o], src[o + 1]))
    ensures Covered(src, Patch(dst, o, w), proto, payload) % 0xFFFF == 0 <==> Alike(w, Pair(dst[o], dst[o + 1]))
  {
    var t := Covered(src, dst, proto, payload);
    CoveredMeans(src, dst, proto, payload);
    CoveredMeans(Patch(src, o, w), dst, proto, payload);
    CoveredMeans(src, Patch(dst, o, w), proto, payload);
    PatchedTotal(src, o, w);
    PatchedTotal(dst, o, w);
    SumParts(src, o);
    SumParts(dst, o);
    SameRemainder(t, Pair(src[o], src[o + 1]), w);
    SameRemainder(t, Pair(dst[o], dst[o + 1]), w);
  }

  lemma SumParts(s: seq<Byte>, o: nat)
    requires Even(o) && o + 1 < |s|
    ensures Pair(s[o], s[o + 1]) <= Total(Words(s))
  {
    assert s[o := s[o]][o + 1 := s[o + 1]] == s;
    Split(s, o, s[o], s[o + 1]);
  }

  /** The same word, or the two words that both stand for zero. */
  predicate Alike(v: Word, w: Word) {
    v == w || (v == 0 && w == 0xFFFF) || (v == 0xFFFF && w == 0)
  }

  lemma SameRemainder(t: nat, v: Word, w: Word)
    requires t % 0xFFFF == 0 && v <= t
    ensures (t - v + w) % 0xFFFF == 0 <==> Alike(w, v)
  {
  }
}
