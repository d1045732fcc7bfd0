/** The row search of bin/IP2Loc.c: a binary search in a sorted table of a file, in an optional window of an index. */
module Ip2Location {
  import opened Basics

  const WORD: nat := 0x1_0000_0000
  const MAX_IPV4_RANGE: nat := 0xFFFF_FFFF

  /** A database file and the place of one of its tables; an index at 0 means that there is none. */
  datatype Db = Db(bytes: seq<Byte>, base: nat, count: nat, column: nat, index: nat)

  // ---------- reading ----------

  /** IP2Location_read8; positions count from 1, and past the end of the file there is nothing but zeros. */
  function Read8(m: seq<Byte>, position: nat): Byte {
    if 1 <= position <= |m| then m[position - 1] else 0
  }

  /** IP2Location_read32: low byte first. */
  function Read32(m: seq<Byte>, position: nat): nat {
    if 1 <= position && position + 3 <= |m| then
      m[position - 1] as nat + 0x100 * m[position] as nat
      + 0x1_0000 * m[position + 1] as nat + 0x100_0000 * m[position + 2] as nat
    else 0
  }

  /** The first byte of a file has position 1, and is the lowest of four; what is not in the file reads as 0. */
  lemma Read32Bytes(m: seq<Byte>, position: nat)
    ensures Read32(m, position) ==
            if 1 <= position && position + 3 <= |m| then LowFirst(m[position - 1..position + 3]) else 0
    ensures Read8(m, position) == if position == 0 || |m| < position then 0 else m[position - 1]
  {
    if 1 <= position && position + 3 <= |m| {
      FourLowFirst(m[position - 1..position + 3]);
    }
  }

  lemma FourLowFirst(s: seq<Byte>)
    requires |s| == 4
    ensures LowFirst(s) == s[0] as nat + 0x100 * s[1] as nat + 0x1_0000 * s[2] as nat + 0x100_0000 * s[3] as nat
  {
    assert LowFirst(s) == s[0] as nat + 256 * LowFirst(s[1..]);
    assert LowFirst(s[1..]) == s[1] as nat + 256 * LowFirst(s[2..]) by { assert s[1..][1..] == s[2..]; }
    assert LowFirst(s[2..]) == s[2] as nat + 256 * LowFirst(s[3..]) by { assert s[2..][1..] == s[3..]; }
    assert LowFirst(s[3..]) == s[3] as nat by { assert s[3..][1..] == []; }
  }

  /** An IPv6 address, high byte first. */
  type Address = a: seq<Byte> | |a| == 16 witness seq(16, i => 0)

  /** Bytes as one number, high byte first. */
  function Number(a: seq<Byte>): nat {
    if a == [] then 0 else Number(a[..|a| - 1]) * 256 + a[|a| - 1] as nat
  }

  /** Bytes as one number, low byte first. */
  function LowFirst(a: seq<Byte>): nat {
    if a == [] then 0 else a[0] as nat + 256 * LowFirst(a[1..])
  }

  function Turned(a: seq<Byte>): (r: seq<Byte>)
    ensures |r| == |a|
  {
    if a == [] then [] else Turned(a[1..]) + [a[0]]
  }

  lemma {:induction false} NumberTurned(a: seq<Byte>)
    ensures Number(Turned(a)) == LowFirst(a)
  {
    if a != [] {
      NumberTurned(a[1..]);
      assert Turned(a)[..|a| - 1] == Turned(a[1..]);
    }
  }

  /** The bytes of a file from a position, as far as it goes. */
  function Bytes(m: seq<Byte>, position: nat, n: nat): (r: seq<Byte>)
    ensures |r| == n && forall i :: 0 <= i < n ==> r[i] == Read8(m, position + i)
  {
    if n == 0 then [] else Bytes(m, position, n - 1) + [Read8(m, position + n - 1)]
  }

  lemma {:induction false} TurnedAt(a: seq<Byte>, i: nat)
    requires i < |a|
    ensures Turned(a)[i] == a[|a| - 1 - i]
  {
    if i < |a| - 1 { TurnedAt(a[1..], i); }
  }

  /** IP2Location_readIPv6Address: the file has the low byte first, the address the high byte. */
  method ReadIPv6Address(m: seq<Byte>, position: nat) returns (addr: Address)
    ensures Number(addr) == LowFirst(Bytes(m, position, 16))
    ensures forall i :: 0 <= i < 16 ==> addr[i] == Read8(m, position + 15 - i)
  {
    var a := new Byte[16](i => 0);
    var i, j := 0, 15;
    while i < 16
      invariant 0 <= i <= 16 && i + j == 15
      invariant forall k :: 0 <= k < i ==> a[k] == Read8(m, position + 15 - k)
    {
      a[i] := Read8(m, position + j);
      i, j := i + 1, j - 1;
    }
    addr := a[..];
    ghost var b := Bytes(m, position, 16);
    forall k | 0 <= k < 16
      ensures addr[k] == Turned(b)[k]
    {
      TurnedAt(b, k);
    }
    assert addr == Turned(b);
    NumberTurned(b);
  }

  // ---------- comparing ----------

  /** The first bytes that differ decide. */
  lemma {:induction false} NumberOrder(a: seq<Byte>, b: seq<Byte>, i: nat)
    requires |a| == |b| && i <= |a| && a[..i] == b[..i] && (i < |a| ==> a[i] < b[i])
    ensures if i < |a| then Number(a) < Number(b) else Number(a) == Number(b)
    decreases |a|
  {
    if i == |a| {
      assert a == b by { assert a[..i] == a && b[..i] == b; }
    } else {
      var n := |a| - 1;
      if i < n {
        assert a[..n][..i] == b[..n][..i] by { assert a[..n][..i] == a[..i] && b[..n][..i] == b[..i]; }
        NumberOrder(a[..n], b[..n], i);
      } else {
        assert a[..n] == b[..n];
      }
    }
  }

  /** ipv6_compare: the order of the addresses as 128-bit numbers. */
  method Ipv6Compare(a: Address, b: Address) returns (ret: int)
    ensures ret == if Number(a) < Number(b) then -1 else if Number(a) == Number(b) then 0 else 1
  {
    var i := 0;
    while i < 16
      invariant 0 <= i <= 16 && a[..i] == b[..i]
    {
      if a[i] > b[i] {
        NumberOrder(b, a, i);
        return 1;
      } else if a[i] < b[i] {
        NumberOrder(a, b, i);
        return -1;
      }
      i := i + 1;
    }
    NumberOrder(a, b, 16);
    ret := 0;
  }

  // ---------- tables ----------

  /** The table as a list: where each row begins, and where the last one ends. */
  predicate Sorted(rows: seq<nat>) {
    && |rows| >= 2 && rows[0] == 0
    && forall j, k :: 0 <= j <= k < |rows| ==> rows[j] <= rows[k]
  }

  predicate Covers(rows: seq<nat>, k: nat, ip: nat) {
    k + 1 < |rows| && rows[k] <= ip < rows[k + 1]
  }

  /** The row for an address below the end of the table. */
  function RowOf(rows: seq<nat>, ip: nat): (k: nat)
    requires |rows| >= 2 && rows[0] <= ip < rows[|rows| - 1]
    ensures Covers(rows, k, ip)
  {
    if ip >= rows[|rows| - 2] then |rows| - 2 else
      var k := RowOf(rows[..|rows| - 1], ip); k
  }

  lemma RowUnique(rows: seq<nat>, ip: nat, k: nat)
    requires Sorted(rows) && ip < rows[|rows| - 1] && Covers(rows, k, ip)
    ensures k == RowOf(rows, ip)
  {
    var j := RowOf(rows, ip);
    assert !(j < k) && !(k < j);
  }

  /** A row on one side of the address tells on which side its own row is. */
  lemma RowSide(rows: seq<nat>, ip: nat, mid: nat)
    requires Sorted(rows) && ip < rows[|rows| - 1] && mid < |rows|
    ensures ip < rows[mid] ==> RowOf(rows, ip) < mid
    ensures ip >= rows[mid] ==> mid + 1 < |rows| && RowOf(rows, ip) >= mid
    ensures mid + 1 < |rows| && ip >= rows[mid + 1] ==> RowOf(rows, ip) > mid
  {
    var j := RowOf(rows, ip);
    assert Covers(rows, j, ip);
  }

  /** What the two addresses of a row tell about the row sought. */
  lemma Probed(rows: seq<nat>, ip: nat, mid: nat, from: nat, to: nat)
    requires Sorted(rows) && ip < rows[|rows| - 1] && mid < |rows| && from == rows[mid]
    requires mid + 1 < |rows| ==> to == rows[mid + 1]
    ensures ip < from ==> 0 < mid && RowOf(rows, ip) < mid
    ensures ip >= from ==> mid + 1 < |rows| && (if ip < to then RowOf(rows, ip) == mid else RowOf(rows, ip) > mid)
  {
    RowSide(rows, ip, mid);
    if from <= ip < to { RowUnique(rows, ip, mid); }
  }

  // ---------- IPv4 ----------

  /** Where a row begins in the file. */
  function RowAt4(db: Db, k: nat): nat {
    Position(db.base, db.column * 4, k)
  }

  function Position(base: nat, width: nat, k: nat): nat {
    base + k * width
  }

  /** The table of a file. */
  function Table4(db: Db): (rows: seq<nat>)
    ensures |rows| == db.count + 1 && forall k :: 0 <= k <= db.count ==> rows[k] == Read32(db.bytes, RowAt4(db, k))
  {
    Rows4(db, db.count + 1)
  }

  function Rows4(db: Db, n: nat): (rows: seq<nat>)
    ensures |rows| == n && forall k :: 0 <= k < n ==> rows[k] == Read32(db.bytes, RowAt4(db, k))
  {
    if n == 0 then [] else Rows4(db, n - 1) + [Read32(db.bytes, RowAt4(db, n - 1))]
  }

  /** A table from 0 to the last address, and a file in which positions have 32 bits. */
  predicate Valid4(db: Db) {
    && Sorted(Table4(db)) && Table4(db)[db.count] >= MAX_IPV4_RANGE
    && db.column >= 1 && RowAt4(db, db.count + 1) < WORD
    && db.count < 0x4000_0000
  }

  /** The last address counts as the one before it. */
  function Sought(ip: nat): nat {
    if ip == MAX_IPV4_RANGE then ip - 1 else ip
  }

  /** Where the index has the window for the addresses with these first 16 bits. */
  function IndexAt(db: Db, prefix: nat): nat {
    db.index + prefix * 8
  }

  /** The window in which the search begins. */
  function Window4(db: Db, ip: nat): (nat, nat) {
    if db.index > 0 then
      (Read32(db.bytes, IndexAt(db, ip / 0x1_0000)), Read32(db.bytes, IndexAt(db, ip / 0x1_0000) + 4))
    else (0, db.count)
  }

  /** The window holds the rows of all addresses from `first` on, `size` of them, as far as the table goes. */
  predicate WindowCovers(rows: seq<nat>, low: nat, high: nat, first: nat, size: nat)
    requires rows != []
  {
    && low <= high < |rows| && rows[low] <= first
    && (high + 1 < |rows| ==> Min(first + size, rows[|rows| - 1]) <= rows[high + 1])
  }

  /** That is: the row of each such address is in the window. */
  lemma WindowCoversIff(rows: seq<nat>, low: nat, high: nat, first: nat, size: nat)
    requires Sorted(rows) && low <= high < |rows| && first < rows[|rows| - 1] && size > 0
    ensures WindowCovers(rows, low, high, first, size)
       <==> forall ip {:trigger RowOf(rows, ip)} :: first <= ip < Min(first + size, rows[|rows| - 1]) ==>
              low <= RowOf(rows, ip) <= high
  {
    var end := Min(first + size, rows[|rows| - 1]);
    if WindowCovers(rows, low, high, first, size) {
      forall ip | first <= ip < end
        ensures low <= RowOf(rows, ip) <= high
      {
        WindowHasRow(rows, low, high, first, size, ip);
      }
    } else if rows[low] > first {
      RowSide(rows, first, low);
      assert RowOf(rows, first) < low;
    } else {
      RowSide(rows, end - 1, high + 1);
      assert RowOf(rows, end - 1) > high;
    }
  }

  lemma WindowHasRow(rows: seq<nat>, low: nat, high: nat, first: nat, size: nat, ip: nat)
    requires Sorted(rows) && WindowCovers(rows, low, high, first, size)
    requires first <= ip < Min(first + size, rows[|rows| - 1])
    ensures low <= RowOf(rows, ip) <= high
  {
    RowSide(rows, ip, low);
    if high + 1 < |rows| { RowSide(rows, ip, high + 1); }
  }

  /** The record that a window leads to. */
  function Record4(db: Db, ip: nat, low: nat, high: nat): Option<nat>
    requires Valid4(db) && ip < MAX_IPV4_RANGE
  {
    var row := RowOf(Table4(db), ip);
    if low <= row <= high then Some(RowAt4(db, row)) else None
  }

  /** The same file without its index. */
  function Unindexed(db: Db): Db {
    db.(index := 0)
  }

  lemma SameTable4(db: Db)
    ensures Table4(Unindexed(db)) == Table4(db)
  {
    forall k | 0 <= k <= db.count
      ensures Table4(Unindexed(db))[k] == Table4(db)[k]
    {
      assert RowAt4(Unindexed(db), k) == RowAt4(db, k);
    }
  }

  /**
   * If row `k` covers the address, `record` is where row `k` begins, unless the index leads past it. The last address
   * of all counts as the one before it.
   */
  predicate RightRecord4(db: Db, parsed: nat, k: nat, record: Option<nat>) {
    var ip := if parsed == 0xFFFF_FFFF then 0xFFFF_FFFE else parsed;
    var at := db.index + ip / 0x1_0000 * 8;
    var (low, high) := (Read32(db.bytes, at), Read32(db.bytes, at + 4));
    Covers(Table4(db), k, ip) ==>
      && (record == if db.index == 0 || low <= k <= high then Some(db.base + k * (db.column * 4)) else None)
      && (WindowCovers(Table4(db), low, high, ip / 0x1_0000 * 0x1_0000, 0x1_0000) ==>
            record == Some(db.base + k * (db.column * 4)))
  }

  /**
   * IP2Location_get_ipv4_record: where the record begins, and `last`, the highest row that was read. It finds the
   * row of the address exactly when that is in the window.
   */
  method GetIpv4Record(db: Db, parsed: nat) returns (record: Option<nat>, ghost last: nat)
    requires Valid4(db) && parsed <= MAX_IPV4_RANGE && Window4(db, Sought(parsed)).1 <= db.count
    ensures var (low, high) := Window4(db, Sought(parsed));
            record == Record4(db, Sought(parsed), low, high)
    ensures var (low, high) := Window4(db, Sought(parsed));
            last > db.count <==> low == high == db.count
    ensures forall k: nat :: RightRecord4(db, parsed, k, record)
  {
    var low: nat, high: nat := 0, db.count;
    var ip_number := Sought(parsed);
    if db.index > 0 {
      var indexpos := IndexAt(db, ip_number / 0x1_0000);
      low := Read32(db.bytes, indexpos);
      high := Read32(db.bytes, indexpos + 4);
    }
    var row;
    row, last := Search4(db, ip_number, low, high);
    record := if row.Some? then Some(RowAt4(db, row.value)) else None;
    forall k: nat
      ensures RightRecord4(db, parsed, k, record)
    {
      RowFound4(db, parsed, k, record);
    }
  }

  lemma RowFound4(db: Db, parsed: nat, k: nat, record: Option<nat>)
    requires Valid4(db) && parsed <= MAX_IPV4_RANGE
    requires var (low, high) := Window4(db, Sought(parsed)); record == Record4(db, Sought(parsed), low, high)
    ensures RightRecord4(db, parsed, k, record)
  {
    var ip := Sought(parsed);
    var at := IndexAt(db, ip / 0x1_0000);
    var low, high := Read32(db.bytes, at), Read32(db.bytes, at + 4);
    if Covers(Table4(db), k, ip) {
      CoveringRow(Table4(db), ip, k, low, high, ip / 0x1_0000 * 0x1_0000, 0x1_0000);
    }
    WrittenOut4(db, parsed, k, record, ip, low, high);
  }

  lemma WrittenOut4(db: Db, parsed: nat, k: nat, record: Option<nat>, ip: nat, low: nat, high: nat)
    requires ip == Sought(parsed) && low == Read32(db.bytes, IndexAt(db, ip / 0x1_0000))
    requires high == Read32(db.bytes, IndexAt(db, ip / 0x1_0000) + 4)
    requires Covers(Table4(db), k, ip) ==>
               && record == (if db.index == 0 || low <= k <= high then Some(RowAt4(db, k)) else None)
               && (WindowCovers(Table4(db), low, high, ip / 0x1_0000 * 0x1_0000, 0x1_0000) ==> low <= k <= high)
    ensures RightRecord4(db, parsed, k, record)
  {
  }

  /** The row that covers an address is the one sought, and in every window that covers the address. */
  lemma CoveringRow(rows: seq<nat>, ip: nat, k: nat, low: nat, high: nat, first: nat, size: nat)
    requires Sorted(rows) && first <= ip < first + size && Covers(rows, k, ip)
    ensures ip < rows[|rows| - 1] && k == RowOf(rows, ip)
    ensures WindowCovers(rows, low, high, first, size) ==> low <= k <= high
  {
    assert rows[k + 1] <= rows[|rows| - 1];
    RowUnique(rows, ip, k);
    if WindowCovers(rows, low, high, first, size) {
      WindowHasRow(rows, low, high, first, size, ip);
    }
  }

  /** Every address has a row. */
  lemma HasRow4(db: Db, parsed: nat)
    requires Valid4(db) && parsed <= MAX_IPV4_RANGE
    ensures var ip := if parsed == 0xFFFF_FFFF then 0xFFFF_FFFE else parsed;
            exists k: nat :: Covers(Table4(db), k, ip)
  {
    var ip := if parsed == 0xFFFF_FFFF then 0xFFFF_FFFE else parsed;
    assert Covers(Table4(db), RowOf(Table4(db), ip), ip);
  }

  /** The rows of a table, and the window of an index, in the bytes of the file. */
  lemma BytesOfTable4(db: Db, k: nat, ip: nat)
    requires k <= db.count
    ensures var p := db.base + k * (db.column * 4);
            1 <= p && p + 3 <= |db.bytes| ==> Table4(db)[k] == LowFirst(db.bytes[p - 1..p + 3])
    ensures var p := db.index + ip / 0x1_0000 * 8;
            0 < db.index && p + 7 <= |db.bytes| ==>
              Window4(db, ip) == (LowFirst(db.bytes[p - 1..p + 3]), LowFirst(db.bytes[p + 3..p + 7]))
  {
    var p := db.base + k * (db.column * 4);
    assert Table4(db)[k] == Read32(db.bytes, p);
    if 1 <= p && p + 3 <= |db.bytes| { Read32Bytes(db.bytes, p); }
    var q := db.index + ip / 0x1_0000 * 8;
    if 0 < db.index && q + 7 <= |db.bytes| {
      Read32Bytes(db.bytes, q);
      Read32Bytes(db.bytes, q + 4);
    }
  }

  /** Its loop, up to the row. */
  method Search4(db: Db, ip_number: nat, low0: nat, high0: nat) returns (record: Option<nat>, ghost last: nat)
    requires Valid4(db) && ip_number < MAX_IPV4_RANGE && high0 <= db.count
    ensures var row := RowOf(Table4(db), ip_number);
            record == if low0 <= row <= high0 then Some(row) else None
    ensures last > db.count <==> low0 == high0 == db.count
  {
    var low, high := low0, high0;
    ghost var rows := Table4(db);
    ghost var row := RowOf(rows, ip_number);
    record, last := None, 0;
    while low <= high
      invariant low0 <= low && high <= high0 && (low == low0 || low <= row) && (low0 <= row ==> low <= row)
      invariant low0 <= row <= high0 ==> row <= high
      invariant last <= db.count + 1
      invariant if low0 == high0 == db.count then last > db.count || low == high == db.count else last <= db.count
      decreases high + 1 - low
    {
      var mid: nat := (low + high) / 2;
      assert low <= mid <= high && (mid == high ==> low == high);
      var ip_from := Read32(db.bytes, RowAt4(db, mid));
      var ip_to := Read32(db.bytes, RowAt4(db, mid + 1));
      last := if last < mid + 1 then mid + 1 else last;
      Probed(rows, ip_number, mid, ip_from, ip_to);
      if ip_number >= ip_from && ip_number < ip_to {
        return Some(mid), last;
      } else if ip_number < ip_from {
        high := mid - 1;
      } else {
        low := mid + 1;
      }
    }
  }

  /** When the window covers the first 16 bits of the address, the index changes nothing in the result. */
  lemma IndexedAsFull4(db: Db, parsed: nat)
    requires Valid4(db) && parsed <= MAX_IPV4_RANGE
    requires var (low, high) := Window4(db, Sought(parsed));
             WindowCovers(Table4(db), low, high, Sought(parsed) / 0x1_0000 * 0x1_0000, 0x1_0000)
    ensures Valid4(Unindexed(db))
    ensures var ((low, high), (l, h)) := (Window4(db, Sought(parsed)), Window4(Unindexed(db), Sought(parsed)));
            Record4(db, Sought(parsed), low, high) == Record4(Unindexed(db), Sought(parsed), l, h)
         == Some(RowAt4(db, RowOf(Table4(db), Sought(parsed))))
  {
    var ip := Sought(parsed);
    var (low, high) := Window4(db, ip);
    SameTable4(db);
    WindowHasRow(Table4(db), low, high, ip / 0x1_0000 * 0x1_0000, 0x1_0000, ip);
  }

  // ---------- IPv6 ----------

  function RowAt6(db: Db, k: nat): nat {
    Position(db.base, db.column * 4 + 12, k)
  }

  /** A row begins with its first address, low byte first. */
  function Table6(db: Db): (rows: seq<nat>)
    ensures |rows| == db.count + 1
    ensures forall k :: 0 <= k <= db.count ==> rows[k] == LowFirst(Bytes(db.bytes, RowAt6(db, k), 16))
  {
    Rows6(db, db.count + 1)
  }

  function Rows6(db: Db, n: nat): (rows: seq<nat>)
    ensures |rows| == n && forall k :: 0 <= k < n ==> rows[k] == LowFirst(Bytes(db.bytes, RowAt6(db, k), 16))
  {
    if n == 0 then [] else Rows6(db, n - 1) + [LowFirst(Bytes(db.bytes, RowAt6(db, n - 1), 16))]
  }

  predicate Valid6(db: Db) {
    && (db.count > 0 ==> Sorted(Table6(db)))
    && RowAt6(db, db.count + 1) + 16 < WORD && db.count < 0x4000_0000
  }

  function Window6(db: Db, ip: Address): (nat, nat) {
    if db.index > 0 then
      (Read32(db.bytes, IndexAt(db, Prefix(ip))), Read32(db.bytes, IndexAt(db, Prefix(ip)) + 4))
    else (0, db.count)
  }

  /** The record that a window leads to. */
  function Record6(db: Db, ip: nat, low: nat, high: nat): Option<nat>
    requires Valid6(db) && db.count > 0 && ip < Table6(db)[db.count]
  {
    var row := RowOf(Table6(db), ip);
    if low <= row <= high then Some(RowAt6(db, row) + 12) else None
  }

  /** The same for an address of 16 bytes. */
  predicate RightRecord6(db: Db, ip: Address, k: nat, record: Option<nat>) {
    var at := db.index + (256 * ip[0] as nat + ip[1] as nat) * 8;
    Covers(Table6(db), k, Number(ip)) ==>
      record == if db.index == 0 || Read32(db.bytes, at) <= k <= Read32(db.bytes, at + 4)
                then Some(db.base + k * (db.column * 4 + 12) + 12) else None
  }

  /**
   * IP2Location_get_ipv6_record: as for IPv4, for addresses before the end of the table. There is no step that
   * keeps the last address of all before it: a search whose window ends with the end row reads past it exactly for
   * addresses from the end on, or when it begins there too.
   */
  method GetIpv6Record(db: Db, ip: Address) returns (record: Option<nat>, ghost last: nat)
    requires Valid6(db) && Window6(db, ip).1 <= db.count
    ensures db.count == 0 ==> record == None
    ensures db.count > 0 && Number(ip) < Table6(db)[db.count] ==>
              var (low, high) := Window6(db, ip);
              record == Record6(db, Number(ip), low, high)
    ensures db.count > 0 ==>
              var (low, high) := Window6(db, ip);
              last > db.count <==> PastEnd(Table6(db), Number(ip), low, high)
    ensures db.count > 0 ==> forall k: nat :: RightRecord6(db, ip, k, record)
  {
    var low: nat, high: nat := 0, db.count;
    if high == 0 {
      return None, 0;
    }
    if db.index > 0 {
      var indexpos := IndexAt(db, Prefix(ip));
      low := Read32(db.bytes, indexpos);
      high := Read32(db.bytes, indexpos + 4);
    }
    var row;
    row, last := Search6(db, ip, low, high);
    record := if row.Some? then Some(RowAt6(db, row.value) + 12) else None;
    forall k: nat
      ensures RightRecord6(db, ip, k, record)
    {
      RowFound6(db, ip, k, record);
    }
  }

  lemma RowFound6(db: Db, ip: Address, k: nat, record: Option<nat>)
    requires Valid6(db) && db.count > 0
    requires Number(ip) < Table6(db)[db.count] ==>
               var (low, high) := Window6(db, ip); record == Record6(db, Number(ip), low, high)
    ensures RightRecord6(db, ip, k, record)
  {
    var (low, high) := Window6(db, ip);
    RowOfRecord6(db, Number(ip), k, record, low, high);
    WrittenOut6(db, ip, k, record, Number(ip));
  }

  lemma RowOfRecord6(db: Db, n: nat, k: nat, record: Option<nat>, low: nat, high: nat)
    requires Valid6(db) && db.count > 0
    requires n < Table6(db)[db.count] ==> record == Record6(db, n, low, high)
    ensures Covers(Table6(db), k, n) ==> record == if low <= k <= high then Some(RowAt6(db, k) + 12) else None
  {
    if Covers(Table6(db), k, n) {
      CoveringRow(Table6(db), n, k, 0, 0, n, 1);
    }
  }

  lemma WrittenOut6(db: Db, ip: Address, k: nat, record: Option<nat>, n: nat)
    requires n == Number(ip)
    requires var (low, high) := Window6(db, ip);
             Covers(Table6(db), k, n) ==> record == if low <= k <= high then Some(RowAt6(db, k) + 12) else None
    ensures RightRecord6(db, ip, k, record)
  {
    assert Covers(Table6(db), k, n) ==> k <= db.count;
  }

  /** The rows of an IPv6 table in the bytes of the file. */
  lemma BytesOfTable6(db: Db, k: nat)
    requires k <= db.count
    ensures var p := db.base + k * (db.column * 4 + 12);
            1 <= p && p + 15 <= |db.bytes| ==> Table6(db)[k] == LowFirst(db.bytes[p - 1..p + 15])
  {
    var p := db.base + k * (db.column * 4 + 12);
    if 1 <= p && p + 15 <= |db.bytes| {
      assert Bytes(db.bytes, p, 16) == db.bytes[p - 1..p + 15];
    }
  }

  /** The low byte is the first one. */
  lemma {:induction false} LowFirstLast(a: seq<Byte>, b: Byte)
    ensures LowFirst(a + [b]) == LowFirst(a) + b as nat * Pow(|a|)
  {
    if a == [] {
      assert a + [b] == [b] && [b][1..] == [];
    } else {
      assert (a + [b])[1..] == a[1..] + [b];
      LowFirstLast(a[1..], b);
      Regroup(b as nat, Pow(|a| - 1));
    }
  }

  /** Its loop, up to the row. */
  method Search6(db: Db, ip: Address, low0: nat, high0: nat) returns (record: Option<nat>, ghost last: nat)
    requires Valid6(db) && db.count > 0 && high0 <= db.count
    ensures Number(ip) < Table6(db)[db.count] ==>
              var row := RowOf(Table6(db), Number(ip));
              record == if low0 <= row <= high0 then Some(row) else None
    ensures last > db.count <==> PastEnd(Table6(db), Number(ip), low0, high0)
  {
    var low, high := low0, high0;
    ghost var rows, n := Table6(db), Number(ip);
    ghost var within := n < rows[db.count];
    ghost var row := if within then RowOf(rows, n) else db.count;
    ghost var past := PastEnd(rows, n, low0, high0);
    record, last := None, 0;
    while low <= high
      invariant low0 <= low && high <= high0 && (within ==> low == low0 || low <= row)
      invariant within && low0 <= row ==> low <= row
      invariant within && low0 <= row <= high0 ==> row <= high
      invariant !within ==> high == high0
      invariant last <= db.count + 1
      invariant if past then last > db.count || (low <= high == db.count && (within ==> low == high))
                else last <= db.count
      decreases high + 1 - low
    {
      var mid: nat := (low + high) / 2;
      assert low <= mid <= high && (mid == high ==> low == high);
      var ip_from := ReadIPv6Address(db.bytes, RowAt6(db, mid));
      var ip_to := ReadIPv6Address(db.bytes, RowAt6(db, mid + 1));
      last := if last < mid + 1 then mid + 1 else last;
      var c1 := Ipv6Compare(ip, ip_from);
      var c2 := Ipv6Compare(ip, ip_to);
      Probed6(rows, n, mid, Number(ip_from), Number(ip_to));
      if c1 >= 0 && c2 < 0 {
        return Some(mid), last;
      } else if c1 < 0 {
        high := mid - 1;
      } else {
        low := mid + 1;
      }
    }
  }

  /** When a search reads the row after the end row. */
  predicate PastEnd(rows: seq<nat>, ip: nat, low: nat, high: nat)
    requires rows != []
  {
    low <= high == |rows| - 1 && (low == high || ip >= rows[|rows| - 1])
  }

  /** What the two addresses of a row tell, also for an address that no row covers. */
  lemma Probed6(rows: seq<nat>, ip: nat, mid: nat, from: nat, to: nat)
    requires Sorted(rows) && mid < |rows| && from == rows[mid]
    requires mid + 1 < |rows| ==> to == rows[mid + 1]
    ensures ip < rows[|rows| - 1] ==>
              if ip < from then 0 < mid && RowOf(rows, ip) < mid
              else mid + 1 < |rows| && (if ip < to then RowOf(rows, ip) == mid else RowOf(rows, ip) > mid)
    ensures ip >= rows[|rows| - 1] ==> ip >= from && (mid + 1 < |rows| ==> ip >= to)
  {
    if ip < rows[|rows| - 1] { Probed(rows, ip, mid, from, to); }
  }

  lemma SameTable6(db: Db)
    ensures Table6(Unindexed(db)) == Table6(db)
    ensures Valid6(db) ==> Valid6(Unindexed(db))
  {
    assert RowAt6(Unindexed(db), db.count + 1) == RowAt6(db, db.count + 1);
    forall k | 0 <= k <= db.count
      ensures Table6(Unindexed(db))[k] == Table6(db)[k]
    {
      assert RowAt6(Unindexed(db), k) == RowAt6(db, k);
    }
  }

  /** How many addresses share their first 16 bits. */
  const PREFIX_SIZE: nat := 0x1_0000_0000_0000_0000_0000_0000_0000

  /** When the window covers the first 16 bits of an address in the table, the index changes nothing in the result. */
  lemma IndexedAsFull6(db: Db, ip: Address)
    requires Valid6(db) && db.count > 0 && Number(ip) < Table6(db)[db.count]
    requires var (low, high) := Window6(db, ip);
             WindowCovers(Table6(db), low, high, Prefix(ip) * PREFIX_SIZE, PREFIX_SIZE)
    ensures Valid6(Unindexed(db)) && Table6(Unindexed(db)) == Table6(db)
    ensures var ((low, high), (l, h)) := (Window6(db, ip), Window6(Unindexed(db), ip));
            Record6(db, Number(ip), low, high) == Record6(Unindexed(db), Number(ip), l, h)
         == Some(RowAt6(db, RowOf(Table6(db), Number(ip))) + 12)
  {
    var (low, high) := Window6(db, ip);
    SameTable6(db);
    BlockHasRow(Table6(db), low, high, ip);
    SameRecord6(db, Number(ip), low, high);
  }

  lemma BlockHasRow(rows: seq<nat>, low: nat, high: nat, ip: Address)
    requires Sorted(rows) && Number(ip) < rows[|rows| - 1]
    requires WindowCovers(rows, low, high, Prefix(ip) * PREFIX_SIZE, PREFIX_SIZE)
    ensures low <= RowOf(rows, Number(ip)) <= high
  {
    PrefixBlock(ip);
    WindowHasRow(rows, low, high, Prefix(ip) * PREFIX_SIZE, PREFIX_SIZE, Number(ip));
  }

  lemma SameRecord6(db: Db, ip: nat, low: nat, high: nat)
    requires Valid6(db) && Valid6(Unindexed(db)) && Table6(Unindexed(db)) == Table6(db)
    requires db.count > 0 && ip < Table6(db)[db.count] && low <= RowOf(Table6(db), ip) <= high
    ensures Record6(db, ip, low, high) == Some(RowAt6(db, RowOf(Table6(db), ip)) + 12)
    ensures Record6(Unindexed(db), ip, 0, db.count) == Record6(db, ip, low, high)
  {
    assert RowAt6(Unindexed(db), RowOf(Table6(db), ip)) == RowAt6(db, RowOf(Table6(db), ip));
  }

  /** The first 16 bits. */
  function Prefix(ip: Address): nat {
    ip[0] as nat * 256 + ip[1] as nat
  }

  function Pow(n: nat): nat {
    if n == 0 then 1 else 256 * Pow(n - 1)
  }

  lemma {:induction false} NumberSplit(a: seq<Byte>, b: seq<Byte>)
    ensures Number(a + b) == Number(a) * Pow(|b|) + Number(b) && Number(b) < Pow(|b|)
    decreases |b|
  {
    if b == [] {
      assert a + b == a;
    } else {
      var init := b[..|b| - 1];
      assert (a + b)[..|a + b| - 1] == a + init;
      NumberSplit(a, init);
      Regroup(Number(a), Pow(|init|));
    }
  }

  lemma Regroup(x: nat, y: nat)
    ensures x * (256 * y) == 256 * (x * y)
  {
  }

  /** The addresses with these first 16 bits are a block of numbers. */
  lemma PrefixBlock(ip: Address)
    ensures Prefix(ip) * PREFIX_SIZE <= Number(ip) < Prefix(ip) * PREFIX_SIZE + PREFIX_SIZE
  {
    assert ip == ip[..2] + ip[2..];
    NumberSplit(ip[..2], ip[2..]);
    TwoBytes(ip[..2]);
    PowFourteen();
  }

  lemma TwoBytes(a: seq<Byte>)
    requires |a| == 2
    ensures Number(a) == a[0] as nat * 256 + a[1] as nat
  {
    assert a[..1][..0] == [] && a[..1][0] == a[0];
    assert Number(a[..1]) == a[0] as nat;
  }

  lemma PowFourteen()
    ensures Pow(14) == PREFIX_SIZE
  {
    assert Pow(4) == 0x1_0000_0000;
    assert Pow(8) == 0x1_0000_0000 * Pow(4);
    assert Pow(12) == 0x1_0000_0000 * Pow(8);
  }

  /** The last address of all. */
  function AllOnes(n: nat): (a: seq<Byte>)
    ensures |a| == n
  {
    if n == 0 then [] else AllOnes(n - 1) + [255]
  }

  lemma {:induction false} AllOnesLargest(n: nat)
    ensures Number(AllOnes(n)) + 1 == Pow(n)
  {
    if n > 0 {
      AllOnesLargest(n - 1);
      assert AllOnes(n)[..n - 1] == AllOnes(n - 1);
    }
  }

  lemma {:induction false} LowFirstBound(a: seq<Byte>)
    ensures LowFirst(a) < Pow(|a|)
  {
    if a != [] { LowFirstBound(a[1..]); }
  }

  /** Concretely: looking up the last address without an index reads past the end row of any table. */
  lemma LastAddressPastEnd(db: Db)
    requires Valid6(db) && db.count > 0 && db.index == 0
    ensures var (low, high) := Window6(db, AllOnes(16));
            PastEnd(Table6(db), Number(AllOnes(16)), low, high)
  {
    AllOnesLargest(16);
    LowFirstBound(Bytes(db.bytes, RowAt6(db, db.count), 16));
  }
}
