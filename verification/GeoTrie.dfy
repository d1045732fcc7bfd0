/** The bit-trie lookups of bin/geoip.c: a walk over a flat array of two-way records, one address bit a step. */
module GeoTrie {
  import opened Basics

  /** A database file: its bytes, the bytes per pointer, and the first value that is not a record number. */
  datatype Db = Db(bytes: seq<Byte>, recordLength: nat, segments: nat)

  /** The records the walk can reach are in the file; pointers take 3 or 4 bytes. */
  predicate ValidDb(db: Db) {
    3 <= db.recordLength <= 4 && 0 < db.segments && db.segments * (2 * db.recordLength) <= |db.bytes|
  }

  /** Least significant byte first. */
  function LittleEndian(s: seq<Byte>): nat {
    if s == [] then 0 else s[0] + 256 * LittleEndian(s[1..])
  }

  /** The pointer that record `node` holds for a bit. */
  function Kid(db: Db, node: nat, right: bool): nat
    requires ValidDb(db) && node < db.segments
  {
    RecordFits(db, node);
    var at := node * (2 * db.recordLength) + (if right then db.recordLength else 0);
    LittleEndian(db.bytes[at..at + db.recordLength])
  }

  lemma RecordFits(db: Db, node: nat)
    requires ValidDb(db) && node < db.segments
    ensures node * (2 * db.recordLength) + 2 * db.recordLength <= |db.bytes|
    ensures node * (2 * db.recordLength) + 2 * db.recordLength <= db.segments * (2 * db.recordLength)
  {
    MulMono(node + 1, db.segments, 2 * db.recordLength);
  }

  /** What a lookup finds: the value, and how many leading address bits it depends on. */
  datatype Found = Found(value: nat, netmask: nat)

  /** The walk from `node` with `depth` of `width` bits of `x` still to go; None if they run out. */
  function Look(db: Db, node: nat, x: nat, depth: nat, width: nat): Option<Found>
    requires ValidDb(db) && node < db.segments && depth <= width
    decreases depth
  {
    if depth == 0 then None
    else
      var kid := Kid(db, node, BitSet(x, depth - 1));
      if kid >= db.segments then Some(Found(kid, width - (depth - 1)))
      else Look(db, kid, x, depth - 1, width)
  }

  function Lookup(db: Db, x: nat, width: nat): Option<Found>
    requires ValidDb(db)
  {
    Look(db, 0, x, width, width)
  }

  /** Every path from `node` ends within `depth` steps. */
  predicate Reaches(db: Db, node: nat, depth: nat)
    requires ValidDb(db) && node < db.segments
    decreases depth
  {
    depth > 0 &&
    (forall right ::
      var kid := Kid(db, node, right);
      kid >= db.segments || Reaches(db, kid, depth - 1))
  }

  lemma {:induction false} ReachesFound(db: Db, node: nat, x: nat, depth: nat, width: nat)
    requires ValidDb(db) && node < db.segments && depth <= width && Reaches(db, node, depth)
    ensures Look(db, node, x, depth, width).Some?
    decreases depth
  {
    var kid := Kid(db, node, BitSet(x, depth - 1));
    if kid < db.segments { ReachesFound(db, kid, x, depth - 1, width); }
  }

  /** A lookup finds a value of at least `segments`, after between 1 and `width` bits. */
  lemma {:induction false} FoundRange(db: Db, node: nat, x: nat, depth: nat, width: nat)
    requires ValidDb(db) && node < db.segments && depth <= width
    ensures var f := Look(db, node, x, depth, width);
            f.Some? ==> f.value.value >= db.segments && width - depth < f.value.netmask <= width
    decreases depth
  {
    if depth > 0 {
      var kid := Kid(db, node, BitSet(x, depth - 1));
      if kid < db.segments { FoundRange(db, kid, x, depth - 1, width); }
    }
  }

  /** Addresses that share the leading `netmask` bits of a found one find the same, with the same netmask. */
  lemma {:induction false} SamePrefix(db: Db, node: nat, x: nat, y: nat, depth: nat, width: nat)
    requires ValidDb(db) && node < db.segments && depth <= width
    requires Look(db, node, x, depth, width).Some?
    requires var k := width - Look(db, node, x, depth, width).value.netmask;
             k >= 0 && ClearLow(x, k) == ClearLow(y, k)
    ensures Look(db, node, y, depth, width) == Look(db, node, x, depth, width)
    decreases depth
  {
    var k := width - Look(db, node, x, depth, width).value.netmask;
    FoundRange(db, node, x, depth, width);
    SameHighBits(x, y, k, depth - 1);
    var kid := Kid(db, node, BitSet(x, depth - 1));
    if kid < db.segments {
      FoundRange(db, kid, x, depth - 1, width);
      SamePrefix(db, kid, x, y, depth - 1, width);
    }
  }

  /** So lookups cut the address space into aligned blocks: the whole block of 2^(width - netmask) agrees. */
  lemma WholeBlock(db: Db, x: nat, y: nat, width: nat)
    requires ValidDb(db) && Lookup(db, x, width).Some?
    ensures Lookup(db, x, width).value.netmask <= width
    ensures var k := width - Lookup(db, x, width).value.netmask;
            ClearLow(x, k) <= y < ClearLow(x, k) + Pow2(k) ==> Lookup(db, y, width) == Lookup(db, x, width)
  {
    FoundRange(db, 0, x, width, width);
    var k := width - Lookup(db, x, width).value.netmask;
    if ClearLow(x, k) <= y < ClearLow(x, k) + Pow2(k) {
      ClearLowUnique(ClearLow(x, k), y, k);
      SamePrefix(db, 0, x, y, width, width);
    }
  }

  // ---------- the path of an address, by positions in the file ----------

  /** The number that the pointer at byte `at` of the file holds. */
  function PointerAt(db: Db, at: nat): nat
    requires at + db.recordLength <= |db.bytes|
  {
    LittleEndian(db.bytes[at..at + db.recordLength])
  }

  /**
   * `at` lists the positions of the pointers that decide address `x`, one of the 2^d addresses from `lo` that reach
   * record `node`: the lower half of them goes by the first pointer of the record, the upper half by the second. The
   * path ends with a number that is not a record, or when no bits are left.
   */
  predicate IsPath(db: Db, node: nat, lo: nat, d: nat, x: nat, at: seq<nat>)
    decreases d
  {
    if d == 0 then at == []
    else
      var mid := lo + Pow2(d - 1);
      && at != [] && at[0] + db.recordLength <= |db.bytes|
      && at[0] == node * (2 * db.recordLength) + (if x < mid then 0 else db.recordLength)
      && var p := PointerAt(db, at[0]);
         if p >= db.segments then |at| == 1
         else IsPath(db, p, if x < mid then lo else mid, d - 1, x, at[1..])
  }

  /** What an address finds whose path is `at`: the number at its end, and its length. */
  function AtEnd(db: Db, at: seq<nat>): Option<Found> {
    if at == [] then None
    else
      var last := at[|at| - 1];
      if last + db.recordLength <= |db.bytes| && PointerAt(db, last) >= db.segments
      then Some(Found(PointerAt(db, last), |at|)) else None
  }

  /** `x` is one of the 2^d addresses of the aligned block at `lo`. */
  predicate InHalf(lo: nat, d: nat, x: nat) {
    LowZero(lo, d) && lo <= x < lo + Pow2(d)
  }

  lemma {:induction false} HalfBit(lo: nat, d: nat, x: nat)
    requires d > 0 && InHalf(lo, d, x)
    ensures BitSet(x, d - 1) <==> lo + Pow2(d - 1) <= x
    ensures InHalf(if BitSet(x, d - 1) then lo + Pow2(d - 1) else lo, d - 1, x)
  {
    if d > 1 { HalfBit(lo / 2, d - 1, x / 2); }
  }

  lemma KidPointer(db: Db, node: nat, right: bool, at: nat)
    requires ValidDb(db) && node < db.segments
    requires at == node * (2 * db.recordLength) + (if right then db.recordLength else 0)
    ensures at + db.recordLength <= |db.bytes| && PointerAt(db, at) == Kid(db, node, right)
  {
    RecordFits(db, node);
  }

  /** Every address of a block has a path from the record of the block. */
  function PathOf(db: Db, node: nat, lo: nat, d: nat, x: nat): (at: seq<nat>)
    requires ValidDb(db) && node < db.segments && InHalf(lo, d, x)
    ensures IsPath(db, node, lo, d, x, at)
    decreases d
  {
    if d == 0 then []
    else
      var right := BitSet(x, d - 1);
      var first := node * (2 * db.recordLength) + (if right then db.recordLength else 0);
      HalfBit(lo, d, x);
      KidPointer(db, node, right, first);
      var p := PointerAt(db, first);
      if p >= db.segments then [first]
      else [first] + PathOf(db, p, if right then lo + Pow2(d - 1) else lo, d - 1, x)
  }

  /** ... and only one. */
  lemma {:induction false} PathUnique(db: Db, node: nat, lo: nat, d: nat, x: nat, at: seq<nat>, at': seq<nat>)
    requires IsPath(db, node, lo, d, x, at) && IsPath(db, node, lo, d, x, at')
    ensures at == at'
    decreases d
  {
    if d > 0 && PointerAt(db, at[0]) < db.segments {
      var mid := lo + Pow2(d - 1);
      PathUnique(db, PointerAt(db, at[0]), if x < mid then lo else mid, d - 1, x, at[1..], at'[1..]);
      assert at == [at[0]] + at[1..] && at' == [at'[0]] + at'[1..];
    }
  }

  /** The walk goes along the path: it finds the number at its end, with the length of the path as the netmask. */
  lemma {:induction false} WalksPath(db: Db, node: nat, lo: nat, d: nat, x: nat, width: nat, at: seq<nat>)
    requires ValidDb(db) && node < db.segments && d <= width && InHalf(lo, d, x) && IsPath(db, node, lo, d, x, at)
    ensures Look(db, node, x, d, width) ==
            match AtEnd(db, at)
            case Some(f) => Some(f.(netmask := width - d + f.netmask))
            case None => None
    decreases d
  {
    if d > 0 {
      HalfBit(lo, d, x);
      KidPointer(db, node, BitSet(x, d - 1), at[0]);
      var p := PointerAt(db, at[0]);
      if p < db.segments {
        WalksPath(db, p, if BitSet(x, d - 1) then lo + Pow2(d - 1) else lo, d - 1, x, width, at[1..]);
        LastOfTail(db, at);
      }
    }
  }

  lemma LastOfTail(db: Db, at: seq<nat>)
    requires at != [] && at[0] + db.recordLength <= |db.bytes| && PointerAt(db, at[0]) < db.segments
    ensures AtEnd(db, at) == match AtEnd(db, at[1..])
                             case Some(f) => Some(f.(netmask := 1 + f.netmask))
                             case None => None
  {
    if |at| > 1 {
      assert at[1..][|at[1..]| - 1] == at[|at| - 1];
    }
  }

  /** A lookup finds what is at the end of the path of its address, and nothing else. */
  lemma LookupIffPath(db: Db, x: nat, w: nat, r: Option<Found>)
    requires ValidDb(db) && x < Pow2(w)
    ensures Lookup(db, x, w) == r <==> exists at :: IsPath(db, 0, 0, w, x, at) && r == AtEnd(db, at)
  {
    Block0(w);
    var at := PathOf(db, 0, 0, w, x);
    WalksPath(db, 0, 0, w, x, w, at);
    if at' :| IsPath(db, 0, 0, w, x, at') && r == AtEnd(db, at') {
      WalksPath(db, 0, 0, w, x, w, at');
    }
  }

  lemma {:induction false} Block0(w: nat)
    ensures LowZero(0, w)
  {
    if w > 0 { Block0(w - 1); }
  }

  /**
   * The record of a block: the first pointer is for the first half of the addresses, the second for the second half. A
   * pointer that is no record number is what its half finds.
   */
  lemma HalfBlocks(db: Db, node: nat, lo: nat, x: nat, d: nat, width: nat)
    requires ValidDb(db) && node < db.segments && 0 < d <= width
    requires lo % Pow2(d) == 0 && lo <= x < lo + Pow2(d)
    ensures var (r, h) := (db.recordLength, Pow2(d - 1));
            && node * (2 * r) + 2 * r <= |db.bytes|
            && var p := if x < lo + h then LittleEndian(db.bytes[node * (2 * r)..node * (2 * r) + r])
                        else LittleEndian(db.bytes[node * (2 * r) + r..node * (2 * r) + 2 * r]);
            Look(db, node, x, d, width) ==
              if p >= db.segments then Some(Found(p, width - d + 1)) else Look(db, p, x, d - 1, width)
  {
    RecordFits(db, node);
    LowZeroMod(lo, d);
    HalfBit(lo, d, x);
  }

  /** ... and so for the whole address space and the first record. */
  lemma FirstRecord(db: Db, x: nat, w: nat)
    requires ValidDb(db) && 0 < w && x < Pow2(w)
    ensures var (r, h) := (db.recordLength, Pow2(w - 1));
            && 2 * r <= |db.bytes|
            && (x < h && LittleEndian(db.bytes[..r]) >= db.segments ==>
                  Lookup(db, x, w) == Some(Found(LittleEndian(db.bytes[..r]), 1)))
            && (h <= x && LittleEndian(db.bytes[r..2 * r]) >= db.segments ==>
                  Lookup(db, x, w) == Some(Found(LittleEndian(db.bytes[r..2 * r]), 1)))
  {
    HalfBlocks(db, 0, 0, x, w, w);
  }

  lemma {:induction false} ClearMore(x: nat, y: nat, k: nat, j: nat)
    requires k <= j && ClearLow(x, k) == ClearLow(y, k)
    ensures ClearLow(x, j) == ClearLow(y, j)
  {
    if k > 0 { ClearMore(x / 2, y / 2, k - 1, j - 1); }
  }

  /** Two addresses of one block take the same path iff they agree in as many bits as the path is long. */
  lemma {:induction false} SamePathIff(db: Db, node: nat, lo: nat, d: nat, x: nat, y: nat, at: seq<nat>, at': seq<nat>)
    requires db.recordLength > 0 && InHalf(lo, d, x) && InHalf(lo, d, y)
    requires IsPath(db, node, lo, d, x, at) && IsPath(db, node, lo, d, y, at')
    ensures |at| <= d && (at == at' <==> ClearLow(x, d - |at|) == ClearLow(y, d - |at|))
    decreases d
  {
    if d == 0 {
      SameHigh(lo, d, x, y);
    } else {
      FirstPointers(db, node, lo, d, x, y, at, at');
      if at[0] != at'[0] {
        PathsPart(db, node, lo, d, x, y, at);
      } else if PointerAt(db, at[0]) < db.segments {
        var lo' := if x < lo + Pow2(d - 1) then lo else lo + Pow2(d - 1);
        SamePathIff(db, PointerAt(db, at[0]), lo', d - 1, x, y, at[1..], at'[1..]);
        SameTails(x, y, d, at, at');
      } else {
        var lo' := if x < lo + Pow2(d - 1) then lo else lo + Pow2(d - 1);
        SameHigh(lo', d - 1, x, y);
      }
    }
  }

  lemma SameHigh(lo: nat, d: nat, x: nat, y: nat)
    requires InHalf(lo, d, x) && InHalf(lo, d, y)
    ensures ClearLow(x, d) == ClearLow(y, d)
  {
    ClearLowUnique(lo, x, d);
    ClearLowUnique(lo, y, d);
  }

  lemma FirstPointers(db: Db, node: nat, lo: nat, d: nat, x: nat, y: nat, at: seq<nat>, at': seq<nat>)
    requires d > 0 && db.recordLength > 0 && InHalf(lo, d, x) && InHalf(lo, d, y)
    requires IsPath(db, node, lo, d, x, at) && IsPath(db, node, lo, d, y, at')
    ensures at[0] == at'[0] <==> BitSet(x, d - 1) == BitSet(y, d - 1)
    ensures BitSet(x, d - 1) <==> lo + Pow2(d - 1) <= x
    ensures BitSet(y, d - 1) <==> lo + Pow2(d - 1) <= y
    ensures InHalf(if x < lo + Pow2(d - 1) then lo else lo + Pow2(d - 1), d - 1, x)
    ensures InHalf(if y < lo + Pow2(d - 1) then lo else lo + Pow2(d - 1), d - 1, y)
  {
    HalfBit(lo, d, x);
    HalfBit(lo, d, y);
  }

  lemma SameTails(x: nat, y: nat, d: nat, at: seq<nat>, at': seq<nat>)
    requires d > 0 && at != [] && at' != [] && at[0] == at'[0]
    requires var m := |at[1..]|;
             m <= d - 1 && (at[1..] == at'[1..] <==> ClearLow(x, d - 1 - m) == ClearLow(y, d - 1 - m))
    ensures |at| <= d && (at == at' <==> ClearLow(x, d - |at|) == ClearLow(y, d - |at|))
  {
    assert at == [at[0]] + at[1..] && at' == [at'[0]] + at'[1..];
  }

  lemma PathsPart(db: Db, node: nat, lo: nat, d: nat, x: nat, y: nat, at: seq<nat>)
    requires d > 0 && IsPath(db, node, lo, d, x, at) && BitSet(x, d - 1) != BitSet(y, d - 1)
    ensures |at| <= d && ClearLow(x, d - |at|) != ClearLow(y, d - |at|)
  {
    PathFits(db, node, lo, d, x, at);
    if ClearLow(x, d - |at|) == ClearLow(y, d - |at|) {
      SameHighBits(x, y, d - |at|, d - 1);
    }
  }

  lemma {:induction false} PathFits(db: Db, node: nat, lo: nat, d: nat, x: nat, at: seq<nat>)
    requires IsPath(db, node, lo, d, x, at)
    ensures |at| <= d && (d > 0 ==> |at| > 0)
    decreases d
  {
    if d > 0 && PointerAt(db, at[0]) < db.segments {
      var mid := lo + Pow2(d - 1);
      PathFits(db, PointerAt(db, at[0]), if x < mid then lo else mid, d - 1, x, at[1..]);
    }
  }

  /** Another address that shares `k` leading bits with `x`, and takes another path. */
  ghost predicate Parts(db: Db, w: nat, x: nat, k: nat)
    requires ValidDb(db) && x < Pow2(w) && k <= w
  {
    exists y: nat :: y < Pow2(w) && ClearLow(y, w - k) == ClearLow(x, w - k) && !SamePath(db, w, x, y)
  }

  ghost predicate SamePath(db: Db, w: nat, x: nat, y: nat)
    requires ValidDb(db)
  {
    exists at :: IsPath(db, 0, 0, w, x, at) && IsPath(db, 0, 0, w, y, at)
  }

  lemma SamePathMask(db: Db, x: nat, y: nat, w: nat)
    requires ValidDb(db) && x < Pow2(w) && y < Pow2(w) && Lookup(db, x, w).Some?
    ensures var m := Lookup(db, x, w).value.netmask;
            0 < m <= w && (SamePath(db, w, x, y) <==> ClearLow(y, w - m) == ClearLow(x, w - m))
  {
    Block0(w);
    var (at, at') := (PathOf(db, 0, 0, w, x), PathOf(db, 0, 0, w, y));
    WalksPath(db, 0, 0, w, x, w, at);
    SamePathIff(db, 0, 0, w, x, y, at, at');
    if s :| IsPath(db, 0, 0, w, x, s) && IsPath(db, 0, 0, w, y, s) {
      PathUnique(db, 0, 0, w, x, s, at);
      PathUnique(db, 0, 0, w, y, s, at');
    }
  }

  /**
   * The netmask of a lookup is the least number of leading bits such that all addresses that share them take the same
   * path through the file.
   */
  lemma LeastNetmask(db: Db, x: nat, w: nat)
    requires ValidDb(db) && x < Pow2(w) && Lookup(db, x, w).Some?
    ensures var m := Lookup(db, x, w).value.netmask;
            && 0 < m <= w
            && (forall k: nat :: k <= w ==> (m <= k <==> !Parts(db, w, x, k)))
  {
    SamePathMask(db, x, x, w);
    var m := Lookup(db, x, w).value.netmask;
    forall k: nat | k <= w
      ensures m <= k <==> !Parts(db, w, x, k)
    {
      if m <= k {
        Shared(db, x, w, k);
      } else {
        var y := Neighbour(x, w - m, w);
        ClearMore(y, x, w - m + 1, w - k);
        SamePathMask(db, x, y, w);
      }
    }
  }

  lemma Shared(db: Db, x: nat, w: nat, k: nat)
    requires ValidDb(db) && x < Pow2(w) && Lookup(db, x, w).Some? && Lookup(db, x, w).value.netmask <= k <= w
    ensures !Parts(db, w, x, k)
  {
    if y: nat :| y < Pow2(w) && ClearLow(y, w - k) == ClearLow(x, w - k) && !SamePath(db, w, x, y) {
      SamePathMask(db, x, y, w);
      ClearMore(y, x, w - k, w - Lookup(db, x, w).value.netmask);
    }
  }

  /** An address that agrees with `x` above bit `k`, and not in bit `k`. */
  lemma Neighbour(x: nat, k: nat, w: nat) returns (y: nat)
    requires k < w && x < Pow2(w)
    ensures y < Pow2(w) && ClearLow(y, k + 1) == ClearLow(x, k + 1) && ClearLow(y, k) != ClearLow(x, k)
  {
    var c := ClearLow(x, k + 1);
    BlockInside(x, k + 1, w);
    LowZeroLess(c, k);
    ClearLowUnique(c, c, k + 1);
    ClearLowUnique(c, c + Pow2(k), k + 1);
    ClearLowUnique(c, c, k);
    ClearLowUnique(c + Pow2(k), c + Pow2(k), k);
    y := if ClearLow(x, k) == c then c + Pow2(k) else c;
  }

  lemma {:induction false} LowZeroLess(c: nat, k: nat)
    requires LowZero(c, k + 1)
    ensures LowZero(c, k) && LowZero(c + Pow2(k), k)
  {
    if k > 0 {
      assert (c + Pow2(k)) / 2 == c / 2 + Pow2(k - 1);
      LowZeroLess(c / 2, k - 1);
    }
  }

  // ---------- reading a record ----------

  /** Where the records come from: the file, the whole file in memory, or only the records in memory. */
  datatype Source = Disk | Cached(cache: seq<Byte>) | IndexCached(index: seq<Byte>)

  /** The copies were made from the file. */
  predicate Copies(db: Db, src: Source) {
    match src
    case Disk => true
    case Cached(cache) => cache == db.bytes
    case IndexCached(index) =>
      var n := db.segments * (2 * db.recordLength);
      n <= |db.bytes| && index == db.bytes[..n]
  }

  /** The two pointers of a record, from wherever they are kept. */
  method ReadRecord(db: Db, src: Source, node: nat) returns (buf: seq<Byte>)
    requires ValidDb(db) && Copies(db, src) && node < db.segments
    ensures |buf| == 2 * db.recordLength && node * |buf| + |buf| <= |db.bytes|
    ensures buf == db.bytes[node * |buf|..node * |buf| + |buf|]
    ensures LittleEndian(buf[..db.recordLength]) == Kid(db, node, false)
    ensures LittleEndian(buf[db.recordLength..]) == Kid(db, node, true)
  {
    RecordFits(db, node);
    var j := db.recordLength;
    var ofs := node * (2 * j);
    match src {
      case Disk => buf := db.bytes[ofs..ofs + 2 * j];
      case Cached(cache) => buf := cache[ofs..ofs + 2 * j];
      case IndexCached(index) =>
        buf := index[ofs..ofs + 2 * j];
        PrefixSlice(db.bytes, |index|, ofs, ofs + 2 * j);
    }
    Halves(db.bytes, ofs, j, buf);
  }

  lemma Halves(m: seq<Byte>, ofs: nat, j: nat, buf: seq<Byte>)
    requires ofs + 2 * j <= |m| && buf == m[ofs..ofs + 2 * j]
    ensures buf[..j] == m[ofs..ofs + j] && buf[j..] == m[ofs + j..ofs + j + j]
  {
  }

  lemma PrefixSlice(m: seq<Byte>, n: nat, a: nat, b: nat)
    requires a <= b <= n <= |m|
    ensures m[..n][a..b] == m[a..b]
  {
  }

  lemma {:induction false} LittleEndianLast(s: seq<Byte>, t: seq<Byte>)
    requires s != [] && t == s[1..]
    ensures LittleEndian(s) == s[0] + 256 * LittleEndian(t)
  {}

  /** Decoding a pointer: 3 bytes unrolled, any other length by a loop from the last byte down. */
  method DecodePointer(buf: seq<Byte>, j: nat, right: bool) returns (x: nat)
    requires 3 <= j <= 4 && |buf| == 2 * j
    ensures x == LittleEndian(if right then buf[j..] else buf[..j])
    ensures var at := if right then j else 0;
            x == (buf[at] as int) + 0x100 * (buf[at + 1] as int) + 0x1_0000 * (buf[at + 2] as int) +
                 (if j == 4 then 0x100_0000 * (buf[at + 3] as int) else 0)
  {
    var first := if right then j else 0;
    var s := buf[first..first + j];
    HalfOf(buf, j, right, s);
    Digits(s);
    if j == 3 {
      x := (buf[first] as int) + (buf[first + 1] as int) * 0x100 + (buf[first + 2] as int) * 0x1_0000;
    } else {
      var p, k := first + j, j;
      x := 0;
      assert s[j..] == [];
      while k > 0
        invariant 0 <= k <= j && p == first + k && x == LittleEndian(s[k..])
      {
        p := p - 1;
        LittleEndianLast(s[k - 1..], s[k..]);
        x := x * 0x100 + buf[p];
        k := k - 1;
      }
      assert s[0..] == s;
    }
  }

  lemma HalfOf(buf: seq<Byte>, j: nat, right: bool, s: seq<Byte>)
    requires |buf| == 2 * j && s == buf[if right then j else 0..(if right then j else 0) + j]
    ensures s == if right then buf[j..] else buf[..j]
  {
  }

  /** The value of 3 or 4 bytes. */
  lemma Digits(s: seq<Byte>)
    requires 3 <= |s| <= 4
    ensures LittleEndian(s) == (s[0] as int) + 0x100 * (s[1] as int) + 0x1_0000 * (s[2] as int) +
                               (if |s| == 4 then 0x100_0000 * (s[3] as int) else 0)
  {
    LittleEndianLast(s, s[1..]);
    LittleEndianLast(s[1..], s[2..]);
    LittleEndianLast(s[2..], s[3..]);
    if |s| == 4 { LittleEndianLast(s[3..], []); }
  }

  // ---------- lookups and ranges ----------

  /** A lookup, by the path of the address and by the first record. */
  lemma PathDecides(db: Db, x: nat, w: nat)
    requires ValidDb(db)
    ensures forall at :: x < Pow2(w) && IsPath(db, 0, 0, w, x, at) ==> Lookup(db, x, w) == AtEnd(db, at)
    ensures 0 < w && x < Pow2(w) ==>
              var (r, h) := (db.recordLength, Pow2(w - 1));
              && 2 * r <= |db.bytes|
              && (x < h && LittleEndian(db.bytes[..r]) >= db.segments ==>
                    Lookup(db, x, w) == Some(Found(LittleEndian(db.bytes[..r]), 1)))
              && (h <= x && LittleEndian(db.bytes[r..2 * r]) >= db.segments ==>
                    Lookup(db, x, w) == Some(Found(LittleEndian(db.bytes[r..2 * r]), 1)))
  {
    forall at | x < Pow2(w) && IsPath(db, 0, 0, w, x, at)
      ensures Lookup(db, x, w) == AtEnd(db, at)
    {
      LookupIffPath(db, x, w, AtEnd(db, at));
    }
    if 0 < w && x < Pow2(w) {
      FirstRecord(db, x, w);
    }
  }

  class GeoIP {
    const db: Db
    const src: Source
    /** The netmask of the last lookup that found something. */
    var netmask: nat

    constructor (db: Db, src: Source)
      ensures this.db == db && this.src == src
    {
      this.db, this.src := db, src;
      netmask := 0;
    }

    ghost predicate Valid() {
      ValidDb(db) && Copies(db, src)
    }

    /** The walk that _GeoIP_seek_record and _GeoIP_seek_record_v6 share, over `width` address bits. */
    method Seek(ipnum: nat, width: nat) returns (x: nat)
      requires Valid()
      modifies this
      ensures match Lookup(db, ipnum, width)
              case Some(f) => x == f.value && netmask == f.netmask
              case None => x == 0 && netmask == old(netmask)
      ensures forall at :: ipnum < Pow2(width) && IsPath(db, 0, 0, width, ipnum, at) ==>
                match AtEnd(db, at)
                case Some(f) => x == f.value && netmask == f.netmask
                case None => x == 0 && netmask == old(netmask)
      ensures 0 < width && ipnum < Pow2(width) ==>
                var (r, h) := (db.recordLength, Pow2(width - 1));
                && 2 * r <= |db.bytes|
                && (ipnum < h && LittleEndian(db.bytes[..r]) >= db.segments ==>
                      x == LittleEndian(db.bytes[..r]) && netmask == 1)
                && (h <= ipnum && LittleEndian(db.bytes[r..2 * r]) >= db.segments ==>
                      x == LittleEndian(db.bytes[r..2 * r]) && netmask == 1)
    {
      PathDecides(db, ipnum, width);
      var offset: nat := 0;
      var depth := width;
      while depth > 0
        invariant 0 <= depth <= width && offset < db.segments && netmask == old(netmask)
        invariant Look(db, offset, ipnum, depth, width) == Lookup(db, ipnum, width)
      {
        depth := depth - 1;
        var buf := ReadRecord(db, src, offset);
        x := DecodePointer(buf, db.recordLength, BitSet(ipnum, depth));
        if x >= db.segments {
          netmask := width - depth;
          return;
        }
        offset := x;
      }
      x := 0;
    }
  }

  // From here on `w` is the number of address bits: 32 for IPv4.

  /** A database in which every lookup ends. */
  predicate WellFormed(db: Db, w: nat) {
    ValidDb(db) && Reaches(db, 0, w)
  }

  function LastOf(w: nat): nat {
    Pow2(w) - 1
  }

  /** The value an address is mapped to. */
  function ValueOf(db: Db, w: nat, x: nat): nat
    requires WellFormed(db, w)
  {
    ReachesFound(db, 0, x, w, w);
    Lookup(db, x, w).value.value
  }

  function MaskOf(db: Db, w: nat, x: nat): (m: nat)
    requires WellFormed(db, w)
    ensures 1 <= m <= w
  {
    ReachesFound(db, 0, x, w, w);
    FoundRange(db, 0, x, w, w);
    Lookup(db, x, w).value.netmask
  }

  /** Every address from `lo` to `hi` has the value of `x`. */
  ghost predicate AllSame(db: Db, w: nat, x: nat, lo: nat, hi: nat)
    requires WellFormed(db, w)
  {
    lo <= x <= hi <= LastOf(w) && forall y: nat :: lo <= y <= hi ==> ValueOf(db, w, y) == ValueOf(db, w, x)
  }

  /** ... and neither end can be moved out. */
  ghost predicate MaximalRange(db: Db, w: nat, x: nat, lo: nat, hi: nat)
    requires WellFormed(db, w)
  {
    && AllSame(db, w, x, lo, hi)
    && (lo == 0 || ValueOf(db, w, lo - 1) != ValueOf(db, w, x))
    && (hi == LastOf(w) || ValueOf(db, w, hi + 1) != ValueOf(db, w, x))
  }

  /** There is only one such range: it contains every other. */
  lemma RangeUnique(db: Db, w: nat, x: nat, lo: nat, hi: nat, lo': nat, hi': nat)
    requires WellFormed(db, w) && MaximalRange(db, w, x, lo, hi) && AllSame(db, w, x, lo', hi')
    ensures lo <= lo' && hi' <= hi
  {}

  /** The first and last address of the block a lookup stands for. */
  function BlockStart(db: Db, w: nat, x: nat): nat
    requires WellFormed(db, w)
  {
    ClearLow(x, w - MaskOf(db, w, x))
  }

  function BlockEnd(db: Db, w: nat, x: nat): nat
    requires WellFormed(db, w)
  {
    BlockStart(db, w, x) + (Pow2(w - MaskOf(db, w, x)) - 1)
  }

  lemma BlockAllSame(db: Db, w: nat, x: nat)
    requires WellFormed(db, w) && x <= LastOf(w)
    ensures AllSame(db, w, x, BlockStart(db, w, x), BlockEnd(db, w, x))
  {
    BlockInside(x, w - MaskOf(db, w, x), w);
    forall y: nat | BlockStart(db, w, x) <= y <= BlockEnd(db, w, x)
      ensures ValueOf(db, w, y) == ValueOf(db, w, x)
    {
      ReachesFound(db, 0, x, w, w);
      WholeBlock(db, x, y, w);
    }
  }

  /** An aligned block never crosses the end of the address space. */
  lemma {:induction false} BlockInside(x: nat, k: nat, w: nat)
    requires k <= w && x < Pow2(w)
    ensures ClearLow(x, k) + Pow2(k) <= Pow2(w)
  {
    if k > 0 {
      BlockInside(x / 2, k - 1, w - 1);
    }
  }

  /** Ranges with the same value that touch make one range. */
  lemma Join(db: Db, w: nat, x: nat, lo: nat, hi: nat, y: nat, lo': nat, hi': nat)
    requires WellFormed(db, w) && AllSame(db, w, x, lo, hi) && AllSame(db, w, y, lo', hi')
    requires ValueOf(db, w, y) == ValueOf(db, w, x) && lo <= hi' + 1 && lo' <= hi + 1
    ensures AllSame(db, w, x, if lo' < lo then lo' else lo, if hi < hi' then hi' else hi)
  {}

  /** A lookup of one address, for its value and, in the object, its netmask. */
  method SeekValue(gi: GeoIP, w: nat, at: nat) returns (x: nat)
    requires gi.Valid() && WellFormed(gi.db, w)
    modifies gi
    ensures x == ValueOf(gi.db, w, at) && gi.netmask == MaskOf(gi.db, w, at)
  {
    ReachesFound(gi.db, 0, at, w, w);
    x := gi.Seek(at, w);
  }

  /** The first loop of GeoIP_range_by_ip: to the start of one block after the other, leftwards. */
  method SeekLeft(gi: GeoIP, w: nat, target: nat, start: nat, ghost ipnum: nat, ghost hi: nat) returns (left: nat)
    requires gi.Valid() && WellFormed(gi.db, w) && AllSame(gi.db, w, ipnum, start, hi)
    requires target == ValueOf(gi.db, w, ipnum)
    modifies gi
    ensures AllSame(gi.db, w, ipnum, left, hi)
    ensures left == 0 || ValueOf(gi.db, w, left - 1) != target
  {
    left := start;
    while left != 0
      invariant AllSame(gi.db, w, ipnum, left, hi)
    {
      var v := SeekValue(gi, w, left - 1);
      if target != v {
        break;
      }
      BlockAllSame(gi.db, w, left - 1);
      Join(gi.db, w, ipnum, left, hi, left - 1, BlockStart(gi.db, w, left - 1), BlockEnd(gi.db, w, left - 1));
      left := ClearLow(left - 1, w - gi.netmask);
    }
  }

  /** The second loop: to the end of one block after the other, rightwards. */
  method SeekRight(gi: GeoIP, w: nat, target: nat, start: nat, ghost ipnum: nat, ghost lo: nat) returns (right: nat)
    requires gi.Valid() && WellFormed(gi.db, w) && AllSame(gi.db, w, ipnum, lo, start)
    requires target == ValueOf(gi.db, w, ipnum)
    modifies gi
    ensures AllSame(gi.db, w, ipnum, lo, right)
    ensures right == LastOf(w) || ValueOf(gi.db, w, right + 1) != target
  {
    right := start;
    while right != LastOf(w)
      invariant AllSame(gi.db, w, ipnum, lo, right)
      decreases LastOf(w) - right
    {
      var v := SeekValue(gi, w, right + 1);
      if target != v {
        break;
      }
      BlockAllSame(gi.db, w, right + 1);
      Join(gi.db, w, ipnum, lo, right, right + 1, BlockStart(gi.db, w, right + 1), BlockEnd(gi.db, w, right + 1));
      right := ClearLow(right + 1, w - gi.netmask);
      right := right + (Pow2(w - gi.netmask) - 1);
    }
  }

  /** GeoIP_range_by_ip on numbers: the maximal range around the address, and the netmask of its own lookup. */
  method RangeOf(gi: GeoIP, w: nat, ipnum: nat) returns (lo: nat, hi: nat)
    requires gi.Valid() && WellFormed(gi.db, w) && ipnum <= LastOf(w)
    modifies gi
    ensures MaximalRange(gi.db, w, ipnum, lo, hi)
    ensures gi.netmask == MaskOf(gi.db, w, ipnum)
  {
    var target := SeekValue(gi, w, ipnum);
    var orig := gi.netmask;
    BlockAllSame(gi.db, w, ipnum);
    lo := ClearLow(ipnum, w - orig);
    hi := lo + (Pow2(w - orig) - 1);
    lo := SeekLeft(gi, w, target, lo, ipnum, hi);
    hi := SeekRight(gi, w, target, hi, ipnum, lo);
    gi.netmask := orig;
  }

  // ---------- IPv6: 16 bytes in network order ----------

  /** The address as a number. */
  function NumberOf(ip: seq<Byte>): nat {
    if ip == [] then 0 else 256 * NumberOf(ip[..|ip| - 1]) + ip[|ip| - 1]
  }

  lemma {:induction false} NumberFits(ip: seq<Byte>)
    ensures NumberOf(ip) < Pow2(8 * |ip|)
  {
    if ip != [] {
      NumberFits(ip[..|ip| - 1]);
      Pow2Add(8, 8 * (|ip| - 1));
      Pow2Word();
    }
  }

  /** The first byte is the most significant. */
  lemma {:induction false} NumberFirst(b: Byte, s: seq<Byte>)
    ensures NumberOf([b] + s) == b * Pow2(8 * |s|) + NumberOf(s)
  {
    var t := [b] + s;
    if s == [] {
      assert t[..0] == [];
    } else {
      var k := |s| - 1;
      assert t[..|t| - 1] == [b] + s[..k];
      NumberFirst(b, s[..k]);
      Pow2Add(8, 8 * k);
      Pow2Word();
      assert b * (256 * Pow2(8 * k)) == 256 * (b * Pow2(8 * k));
    }
  }

  /** So the upper half of the address space begins at 8000::. */
  lemma FirstBit(ip: seq<Byte>)
    requires ip != []
    ensures NumberOf(ip) < Pow2(8 * |ip|)
    ensures NumberOf(ip) < Pow2(8 * |ip| - 1) <==> ip[0] < 0x80
  {
    var s := ip[1..];
    var m := Pow2(8 * |s|);
    assert ip == [ip[0]] + s;
    NumberFits(ip);
    NumberFits(s);
    NumberFirst(ip[0], s);
    Pow2Add(7, 8 * |s|);
    assert Pow2(7) == 0x80 by { Pow2Word(); }
    UpperHalf(ip[0], m, NumberOf(s));
  }

  lemma UpperHalf(b: nat, m: nat, n: nat)
    requires n < m
    ensures b * m + n < 0x80 * m <==> b < 0x80
  {
    if b < 0x80 {
      MulMono(b + 1, 0x80, m);
    } else {
      MulMono(0x80, b, m);
    }
  }

  /** What decides the lookup of an address of bytes. */
  lemma PathDecidesV6(db: Db, ip: seq<Byte>, x: nat, w: nat)
    requires ValidDb(db) && ip != [] && x == NumberOf(ip) && w == 8 * |ip|
    ensures forall at :: IsPath(db, 0, 0, w, x, at) ==> Lookup(db, x, w) == AtEnd(db, at)
    ensures var r := db.recordLength;
            && 2 * r <= |db.bytes|
            && (ip[0] < 0x80 && LittleEndian(db.bytes[..r]) >= db.segments ==>
                  Lookup(db, x, w) == Some(Found(LittleEndian(db.bytes[..r]), 1)))
            && (0x80 <= ip[0] && LittleEndian(db.bytes[r..2 * r]) >= db.segments ==>
                  Lookup(db, x, w) == Some(Found(LittleEndian(db.bytes[r..2 * r]), 1)))
  {
    FirstBit(ip);
    InUpper(db, x, w, ip[0] >= 0x80);
  }

  lemma InUpper(db: Db, x: nat, w: nat, upper: bool)
    requires ValidDb(db) && 0 < w && x < Pow2(w) && (upper <==> Pow2(w - 1) <= x)
    ensures forall at :: IsPath(db, 0, 0, w, x, at) ==> Lookup(db, x, w) == AtEnd(db, at)
    ensures var r := db.recordLength;
            && 2 * r <= |db.bytes|
            && (!upper && LittleEndian(db.bytes[..r]) >= db.segments ==>
                  Lookup(db, x, w) == Some(Found(LittleEndian(db.bytes[..r]), 1)))
            && (upper && LittleEndian(db.bytes[r..2 * r]) >= db.segments ==>
                  Lookup(db, x, w) == Some(Found(LittleEndian(db.bytes[r..2 * r]), 1)))
  {
    PathDecides(db, x, w);
  }

  /** GEOIP_CHKBIT_V6: bit 7 - (i & 7) of byte i >> 3, where i counts from the first bit of the address. */
  predicate ChkBit(bit: nat, ip: seq<Byte>)
    requires bit < 8 * |ip|
  {
    var i := 8 * |ip| - 1 - bit;
    BitSet(ip[i / 8], 7 - i % 8)
  }

  lemma ByteAbove(n: nat, b: Byte, d: nat)
    requires d >= 8
    ensures BitSet(256 * n + b, d) == BitSet(n, d - 8)
  {
    var x := 256 * n + b;
    assert BitSet(x, d) == BitSet(x / 2, d - 1) == BitSet(x / 4, d - 2) by { assert x / 2 / 2 == x / 4; }
    assert BitSet(x / 4, d - 2) == BitSet(x / 8, d - 3) == BitSet(x / 16, d - 4) by {
      assert x / 4 / 2 == x / 8 && x / 8 / 2 == x / 16;
    }
    assert BitSet(x / 16, d - 4) == BitSet(x / 32, d - 5) == BitSet(x / 64, d - 6) by {
      assert x / 16 / 2 == x / 32 && x / 32 / 2 == x / 64;
    }
    assert BitSet(x / 64, d - 6) == BitSet(x / 128, d - 7) == BitSet(x / 256, d - 8) by {
      assert x / 64 / 2 == x / 128 && x / 128 / 2 == x / 256;
    }
    assert x / 256 == n;
  }

  lemma ByteBelow(n: nat, b: Byte, d: nat)
    requires d < 8
    ensures BitSet(256 * n + b, d) == BitSet(b, d)
  {
    LowZeroMod(256 * n, 8);
    Pow2Word();
    SameLowBits(256 * n + b, b, 8, d);
  }

  /** The bit tested is the bit of the number, so the walk goes through the address in big-endian order. */
  lemma {:induction false} ChkBitIsBit(bit: nat, ip: seq<Byte>)
    requires bit < 8 * |ip|
    ensures ChkBit(bit, ip) == BitSet(NumberOf(ip), bit)
  {
    var init, last := ip[..|ip| - 1], ip[|ip| - 1];
    var i := 8 * |ip| - 1 - bit;
    if bit < 8 {
      assert i / 8 == |ip| - 1 && 7 - i % 8 == bit;
      ByteBelow(NumberOf(init), last, bit);
    } else {
      assert i == 8 * |init| - 1 - (bit - 8);
      ChkBitIsBit(bit - 8, init);
      ByteAbove(NumberOf(init), last, bit);
    }
  }

  /** __GEOIP_PREPARE_TEREDO: an address under 2001:0::/32 is replaced by the IPv4 address hidden in it. */
  function Teredo(ip: seq<Byte>): (r: seq<Byte>)
    requires |ip| == 16
    ensures |r| == 16
  {
    if ip[..4] != [0x20, 0x01, 0x00, 0x00] then ip
    else seq(12, i => 0) + [255 - ip[12], 255 - ip[13], 255 - ip[14], 255 - ip[15]]
  }

  method PrepareTeredo(v6: array<Byte>)
    requires v6.Length == 16
    modifies v6
    ensures v6[..] == Teredo(old(v6[..]))
    ensures old(v6[..4]) != [0x20, 0x01, 0x00, 0x00] ==> v6[..] == old(v6[..])
    ensures old(v6[..4]) == [0x20, 0x01, 0x00, 0x00] ==>
              forall k :: 0 <= k < 16 ==> v6[k] == if k < 12 then 0 else 255 - old(v6[k])
  {
    if v6[0] != 0x20 {
      return;
    }
    if v6[1] != 0x01 {
      return;
    }
    if v6[2] != 0x00 {
      return;
    }
    if v6[3] != 0x00 {
      return;
    }
    assert v6[..4] == [0x20, 0x01, 0x00, 0x00];
    var i := 0;
    while i < 12
      invariant 0 <= i <= 12
      invariant forall k :: 0 <= k < i ==> v6[k] == 0
      invariant forall k :: i <= k < 16 ==> v6[k] == old(v6[k])
    {
      v6[i] := 0;
      i := i + 1;
    }
    while i < 16
      invariant 12 <= i <= 16
      invariant forall k :: 0 <= k < 12 ==> v6[k] == 0
      invariant forall k :: 12 <= k < i ==> v6[k] == 255 - old(v6[k])
      invariant forall k :: i <= k < 16 ==> v6[k] == old(v6[k])
    {
      v6[i] := 255 - v6[i];
      i := i + 1;
    }
  }

  lemma {:induction false} LeadingZeros(s: seq<Byte>, n: nat)
    ensures NumberOf(seq(n, i => 0) + s) == NumberOf(s)
  {
    var z := seq(n, i => 0);
    if s == [] {
      assert z + s == z;
      if n > 0 {
        LeadingZeros([], n - 1);
        assert z[..n - 1] == seq(n - 1, i => 0) + [];
      }
    } else {
      LeadingZeros(s[..|s| - 1], n);
      assert (z + s)[..|z + s| - 1] == z + s[..|s| - 1];
    }
  }

  /** A Teredo address stands for the number of its hidden IPv4 address, whatever the rest of it is. */
  lemma TeredoNumber(ip: seq<Byte>)
    requires |ip| == 16 && ip[..4] == [0x20, 0x01, 0x00, 0x00]
    ensures NumberOf(Teredo(ip)) == NumberOf([255 - ip[12], 255 - ip[13], 255 - ip[14], 255 - ip[15]])
  {
    LeadingZeros([255 - ip[12], 255 - ip[13], 255 - ip[14], 255 - ip[15]], 12);
  }

  /** _GeoIP_seek_record_v6 on an address that has been prepared, of 16 bytes or any other number. */
  method SeekV6(gi: GeoIP, ip: seq<Byte>) returns (x: nat)
    requires gi.Valid() && ip != []
    modifies gi
    ensures match Lookup(gi.db, NumberOf(ip), 8 * |ip|)
            case Some(f) => x == f.value && gi.netmask == f.netmask
            case None => x == 0 && gi.netmask == old(gi.netmask)
    ensures forall at :: IsPath(gi.db, 0, 0, 8 * |ip|, NumberOf(ip), at) ==>
              match AtEnd(gi.db, at)
              case Some(f) => x == f.value && gi.netmask == f.netmask
              case None => x == 0 && gi.netmask == old(gi.netmask)
    ensures
              var r := gi.db.recordLength;
              && 2 * r <= |gi.db.bytes|
              && (ip[0] < 0x80 && LittleEndian(gi.db.bytes[..r]) >= gi.db.segments ==>
                    x == LittleEndian(gi.db.bytes[..r]) && gi.netmask == 1)
              && (0x80 <= ip[0] && LittleEndian(gi.db.bytes[r..2 * r]) >= gi.db.segments ==>
                    x == LittleEndian(gi.db.bytes[r..2 * r]) && gi.netmask == 1)
  {
    var width, ipnum := 8 * |ip|, NumberOf(ip);
    var offset: nat := 0;
    var depth := width;
    while depth > 0
      invariant 0 <= depth <= width && offset < gi.db.segments && gi.netmask == old(gi.netmask)
      invariant Look(gi.db, offset, ipnum, depth, width) == Lookup(gi.db, ipnum, width)
    {
      depth := depth - 1;
      var buf := ReadRecord(gi.db, gi.src, offset);
      ChkBitIsBit(depth, ip);
      x := DecodePointer(buf, gi.db.recordLength, ChkBit(depth, ip));
      if x >= gi.db.segments {
        gi.netmask := width - depth;
        PathDecidesV6(gi.db, ip, ipnum, width);
        return;
      }
      offset := x;
    }
    x := 0;
    PathDecidesV6(gi.db, ip, ipnum, width);
  }

  /**
   * _GeoIP_seek_record_v6 as a whole: the copy of the address is rewritten if the file asks for it, and the value and
   * netmask are those of the address that this leaves.
   */
  method SeekRecordV6(gi: GeoIP, ip: seq<Byte>, teredo: bool) returns (x: nat)
    requires gi.Valid() && |ip| == 16
    modifies gi
    ensures match Lookup(gi.db, NumberOf(if teredo then Teredo(ip) else ip), 8 * |ip|)
            case Some(f) => x == f.value && gi.netmask == f.netmask
            case None => x == 0 && gi.netmask == old(gi.netmask)
  {
    var ipnum := new Byte[16](i requires 0 <= i < 16 => ip[i]);
    assert ipnum[..] == ip;
    if teredo {
      PrepareTeredo(ipnum);
    }
    x := SeekV6(gi, ipnum[..]);
  }

  /** With the flag, a Teredo address is looked up as the IPv4 address hidden in it, whatever the rest of it is. */
  lemma TeredoLookup(db: Db, ip: seq<Byte>)
    requires ValidDb(db) && |ip| == 16 && ip[..4] == [0x20, 0x01, 0x00, 0x00]
    ensures Lookup(db, NumberOf(Teredo(ip)), 8 * |ip|)
         == Lookup(db, NumberOf([255 - ip[12], 255 - ip[13], 255 - ip[14], 255 - ip[15]]), 8 * |ip|)
  {
    TeredoNumber(ip);
  }
}
