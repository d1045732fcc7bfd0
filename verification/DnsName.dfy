/** Domain names on the wire (bin/host.c): packed as in section 3.1 of RFC 1035, compressed as in section 4.1.4. */
module DnsName {
  import opened Basics

  type Text = seq<Byte>

  const DOT: Byte := 46
  const MAX_LABEL: nat := 63

  // ---------- names as text and as labels ----------

  function FirstDot(s: Text): (i: nat)
    ensures i <= |s| && (i < |s| ==> s[i] == DOT) && forall k :: 0 <= k < i ==> s[k] != DOT
  {
    if s == [] || s[0] == DOT then 0 else 1 + FirstDot(s[1..])
  }

  /** The labels of a name; a dot at the end starts no label. */
  function Labels(s: Text): (ls: seq<Text>)
    ensures ls != []
    decreases |s|
  {
    var i := FirstDot(s);
    if i + 1 >= |s| then [s[..i]] else [s[..i]] + Labels(s[i + 1..])
  }

  predicate HasDot(s: Text) {
    FirstDot(s) < |s|
  }

  /** A name without a dot is continued with the default domain. */
  function FullLabels(s: Text, domain: Text): seq<Text> {
    Labels(s) + if HasDot(s) || domain == [] then [] else Labels(domain)
  }

  predicate Short(ls: seq<Text>) {
    forall i :: 0 <= i < |ls| ==> |ls[i]| <= MAX_LABEL
  }

  /** Every label with its length before it. */
  function Body(ls: seq<Text>): Text
    requires Short(ls)
  {
    if ls == [] then [] else [|ls[0]| as Byte] + ls[0] + Body(ls[1..])
  }

  function Wire(ls: seq<Text>): Text
    requires Short(ls)
  {
    Body(ls) + [0]
  }

  /** Every label with a dot after it. */
  function Dotted(ls: seq<Text>): Text {
    if ls == [] then [] else ls[0] + [DOT] + Dotted(ls[1..])
  }

  /** Labels that a name can have: not empty and without a dot. */
  predicate Proper(ls: seq<Text>) {
    forall i :: 0 <= i < |ls| ==> ls[i] != [] && DOT !in ls[i]
  }

  lemma {:induction false} BodyConcat(a: seq<Text>, b: seq<Text>)
    requires Short(a) && Short(b)
    ensures Short(a + b) && Body(a + b) == Body(a) + Body(b)
  {
    if a == [] {
      assert a + b == b;
    } else {
      BodyConcat(a[1..], b);
      assert a + b == [a[0]] + (a[1..] + b) && a == [a[0]] + a[1..];
      BodyStep(a[0], a[1..] + b);
      BodyStep(a[0], a[1..]);
    }
  }

  lemma BodyStep(l: Text, ls: seq<Text>)
    requires |l| <= MAX_LABEL && Short(ls)
    ensures Short([l] + ls) && Body([l] + ls) == [|l| as Byte] + l + Body(ls)
  {
    assert ([l] + ls)[1..] == ls;
  }

  lemma {:induction false} DottedConcat(a: seq<Text>, b: seq<Text>)
    ensures Dotted(a + b) == Dotted(a) + Dotted(b)
  {
    if a == [] {
      assert a + b == b;
    } else {
      assert (a + b)[1..] == a[1..] + b;
      DottedConcat(a[1..], b);
    }
  }

  lemma DotAt(s: Text, i: nat)
    requires i <= |s| && (i < |s| ==> s[i] == DOT) && forall k :: 0 <= k < i ==> s[k] != DOT
    ensures FirstDot(s) == i
  {
    var j := FirstDot(s);
    assert !(j < i) && !(i < j);
  }

  lemma LabelsStep(l: Text, rest: Text, t: Text)
    requires DOT !in l && t == l + [DOT] + rest
    ensures Labels(t) == if rest == [] then [l] else [l] + Labels(rest)
  {
    assert forall k :: 0 <= k < |l| ==> t[k] == l[k] && l[k] in l;
    DotAt(t, |l|);
    assert t[..|l|] == l && t[|l| + 1..] == rest;
  }

  lemma LabelsOne(l: Text)
    requires DOT !in l
    ensures Labels(l) == [l]
  {
    assert forall k :: 0 <= k < |l| ==> l[k] in l;
    DotAt(l, |l|);
    assert l[..|l|] == l;
  }

  lemma DottedOne(l: Text)
    ensures Dotted([l]) == l + [DOT]
  {
    assert [l][1..] == [] && Dotted([]) == [];
  }

  lemma DottedLength(ls: seq<Text>)
    requires ls != []
    ensures |Dotted(ls)| > |ls[0]| && Dotted(ls)[|Dotted(ls)| - 1] == DOT
  {
    if |ls| > 1 { DottedLength(ls[1..]); }
  }

  function DropLast(t: Text): Text
    requires t != []
  {
    t[..|t| - 1]
  }

  /** Splitting undoes joining. */
  lemma {:induction false} LabelsOfDotted(ls: seq<Text>)
    requires Proper(ls) && ls != []
    ensures Dotted(ls) != [] && Labels(Dotted(ls)) == ls
    ensures Labels(DropLast(Dotted(ls))) == ls
  {
    var l := ls[0];
    assert ls == [l] + ls[1..];
    DottedLength(ls);
    if |ls| == 1 {
      DottedOne(l);
      LabelsStep(l, [], Dotted(ls));
      assert DropLast(l + [DOT]) == l;
      LabelsOne(l);
    } else {
      var rest := Dotted(ls[1..]);
      LabelsOfDotted(ls[1..]);
      DottedLength(ls[1..]);
      LabelsStep(l, rest, Dotted(ls));
      assert DropLast(Dotted(ls)) == l + [DOT] + DropLast(rest);
      LabelsStep(l, DropLast(rest), DropLast(Dotted(ls)));
    }
  }

  predicate EndsWithDot(s: Text) {
    s != [] && s[|s| - 1] == DOT
  }

  /** A name with a dot at its end. */
  function WithEndDot(s: Text): Text {
    if EndsWithDot(s) then s else s + [DOT]
  }

  /** Joining undoes splitting, but for a dot at the end. */
  lemma {:induction false} DottedOfLabels(s: Text)
    ensures Dotted(Labels(s)) == WithEndDot(s)
    decreases |s|
  {
    var i := FirstDot(s);
    if i + 1 < |s| {
      DottedOfLabels(s[i + 1..]);
      DottedStep(s[..i], Labels(s[i + 1..]));
      EndDotStep(s, i);
    } else {
      LastPiece(s, i);
    }
  }

  lemma EndDotStep(s: Text, i: nat)
    requires i + 1 < |s| && s[i] == DOT
    ensures WithEndDot(s) == s[..i] + [DOT] + WithEndDot(s[i + 1..])
  {
    var l, t := s[..i], s[i + 1..];
    assert t[|t| - 1] == s[|s| - 1];
    assert s == l + [DOT] + t;
  }

  lemma LastPiece(s: Text, i: nat)
    requires i == FirstDot(s) && i + 1 >= |s|
    ensures Dotted(Labels(s)) == WithEndDot(s)
  {
    DottedOne(s[..i]);
    if i < |s| {
      assert s == s[..i] + [DOT];
    } else {
      assert s[..i] == s;
    }
  }

  lemma DottedStep(l: Text, ls: seq<Text>)
    ensures Dotted([l] + ls) == l + [DOT] + Dotted(ls)
  {
    assert ([l] + ls)[1..] == ls;
  }

  // ---------- Packdom ----------

  /** What is still to pack when the text `cur` is left and `first` says that the default domain may follow. */
  function ToPack(cur: Text, first: bool, domain: Text): seq<Text> {
    if first then FullLabels(cur, domain) else Labels(cur)
  }

  /** Room for every label still to pack and the end mark. */
  function Room(cur: Text, first: bool, domain: Text): nat {
    |cur| + 2 + if first then |domain| + 1 else 0
  }

  /** The bytes of one label are copied, up to a dot or the end of the text. */
  method CopyLabel(dst: array<Byte>, q0: nat, cur: Text) returns (q: nat, p: nat)
    requires q0 + |cur| < dst.Length
    modifies dst
    ensures p == FirstDot(cur) && q == q0 + p
    ensures dst[..q0] == old(dst[..q0]) && dst[q0..q] == cur[..p]
  {
    q, p := q0, 0;
    while p < |cur| && cur[p] != DOT
      invariant p <= |cur| && q == q0 + p && forall k :: 0 <= k < p ==> cur[k] != DOT
      invariant dst[..q0] == old(dst[..q0]) && dst[q0..q] == cur[..p]
    {
      dst[q] := cur[p];
      assert dst[q0..q + 1] == dst[q0..q] + [dst[q]];
      q, p := q + 1, p + 1;
    }
    DotAt(cur, p);
  }

  /** The first label still to pack, and what remains after it. */
  lemma FirstOfRest(all: seq<Text>, done: seq<Text>, cur: Text, first: bool, domain: Text, i: nat)
    returns (rest: seq<Text>)
    requires i == FirstDot(cur) && all == done + ToPack(cur, first, domain)
    ensures all == (done + [cur[..i]]) + rest && all[|done|] == cur[..i]
    ensures rest == if i + 1 < |cur| then ToPack(cur[i + 1..], false, domain)
                    else if i == |cur| && first && domain != [] then ToPack(domain, false, domain)
                    else []
  {
    rest := if i + 1 < |cur| then ToPack(cur[i + 1..], false, domain)
            else if i == |cur| && first && domain != [] then ToPack(domain, false, domain)
            else [];
    assert ToPack(cur, first, domain) == [cur[..i]] + rest;
  }

  lemma BodyMore(done: seq<Text>, l: Text)
    requires Short(done) && |l| <= MAX_LABEL
    ensures Short(done + [l]) && Body(done + [l]) == Body(done) + [|l| as Byte] + l
  {
    BodyConcat(done, [l]);
    assert [l][1..] == [];
    assert Body([l]) == [|l| as Byte] + l;
  }

  /** One turn of the loop of Packdom: a label and its length at `d`, and a zero after it. */
  method PackLabel(dst: array<Byte>, d: nat, cur: Text) returns (q: nat, i: nat)
    requires d + 1 + |cur| < dst.Length
    modifies dst
    ensures i == FirstDot(cur) && q == d + 1 + i && dst[..d] == old(dst[..d])
    ensures i <= MAX_LABEL ==> dst[..q] == old(dst[..d]) + [i as Byte] + cur[..i] && dst[q] == 0
  {
    dst[d] := 0;
    assert dst[..d] == old(dst[..d]);
    q, i := CopyLabel(dst, d + 1, cur);
    assert dst[..d] == dst[..d + 1][..d];
    if i > MAX_LABEL {
      return;
    }
    dst[d] := i;
    dst[q] := 0;
    assert dst[..q] == dst[..d] + [dst[d]] + dst[d + 1..q];
  }

  /**
   * Packdom: the labels of the name, and of the default domain after a name without a dot, each after its length;
   * -1 when one of them is too long. An empty `domain` stands for none.
   */
  method Packdom(dst: array<Byte>, name: Text, domain: Text) returns (r: int)
    requires dst.Length >= |name| + |domain| + 3
    modifies dst
    ensures if Short(FullLabels(name, domain)) then r == |Wire(FullLabels(name, domain))| <= dst.Length else r == -1
    ensures Short(FullLabels(name, domain)) ==> dst[..r] == Wire(FullLabels(name, domain))
    ensures FullLabels(name, domain) == Labels(name) + if DOT in name || domain == [] then [] else Labels(domain)
  {
    assert DOT in name <==> HasDot(name);
    var cur: Text, d: nat, q: nat, i: nat := name, 0, 0, 0;
    var dotflag, defflag, more := false, false, true;
    ghost var all, done: seq<Text> := FullLabels(name, domain), [];
    assert done + all == all;
    while more
      invariant Short(done) && d <= q < dst.Length
      invariant more ==> d == q && d + Room(cur, !dotflag && !defflag, domain) <= dst.Length
      invariant more ==> all == done + ToPack(cur, !dotflag && !defflag, domain)
      invariant !more ==> all == done && dst[q] == 0
      invariant dst[..q] == Body(done)
      decreases more, if !dotflag && !defflag then 1 else 0, |cur|
    {
      q, i := PackLabel(dst, d, cur);
      ghost var rest := FirstOfRest(all, done, cur, !dotflag && !defflag, domain, i);
      if i > MAX_LABEL {
        return -1;
      }
      BodyMore(done, cur[..i]);
      done := done + [cur[..i]];
      if i < |cur| {
        dotflag := true;
        cur, d := cur[i + 1..], q;
        more := cur != [];
      } else if !dotflag && !defflag && domain != [] {
        defflag := true;
        cur, d := domain, q;
      } else {
        more := false;
      }
    }
    q := q + 1;
    r := q;
    assert dst[..q] == dst[..q - 1] + [0];
  }

  // ---------- Unpackdom ----------

  /** The two high bits set: the rest of the name is elsewhere. */
  predicate IsPointer(b: Byte) {
    b >= 192
  }

  /** The low six bits. */
  function Len(b: Byte): (n: nat)
    ensures n <= MAX_LABEL && (b <= MAX_LABEL ==> n == b)
  {
    b % 64
  }

  function Target(m: Text, pos: nat): nat
    requires pos + 1 < |m| && IsPointer(m[pos])
  {
    (m[pos] as nat - 192) * 256 + m[pos + 1] as nat
  }

  /**
   * The name at `pos`, as section 4.1.4 of RFC 1035 has it: labels, and then a zero or a pointer to an earlier name.
   * `top` is where the labels read last began; a pointer must go back behind it.
   */
  function Expand(m: Text, pos: nat, top: nat): Option<seq<Text>>
    decreases top, |m| - pos
  {
    if pos >= |m| then None
    else if m[pos] == 0 then Some([])
    else if IsPointer(m[pos]) then
      if pos + 1 < |m| && Target(m, pos) < top then Expand(m, Target(m, pos), Target(m, pos)) else None
    else
      var next := pos + 1 + m[pos];
      if m[pos] > MAX_LABEL || next > |m| then None
      else match Expand(m, next, top)
        case None => None
        case Some(ls) => Some([m[pos + 1..next]] + ls)
  }

  /** The bytes that the name takes where it stands: a pointer ends it. */
  function Skip(m: Text, pos: nat): nat
    decreases |m| - pos
  {
    if pos >= |m| then 0
    else if m[pos] == 0 then 1
    else if IsPointer(m[pos]) then 2
    else 1 + Len(m[pos]) + Skip(m, pos + 1 + Len(m[pos]))
  }

  /** Where a chain of pointers ends. */
  function Land(m: Text, pos: nat, top: nat): (r: Option<nat>)
    requires top <= pos
    ensures r.Some? ==> r.value < |m| && !IsPointer(m[r.value]) && (r.value < top || r.value == pos)
    ensures r.Some? ==> pos < |m| && (r.value == pos <==> !IsPointer(m[pos]))
    decreases top
  {
    if pos >= |m| then None
    else if IsPointer(m[pos]) then
      if pos + 1 < |m| && Target(m, pos) < top then Land(m, Target(m, pos), Target(m, pos)) else None
    else Some(pos)
  }

  /** What the program writes for the name at `pos`: it looks for the end mark only before it follows pointers. */
  function Written(m: Text, pos: nat, top: nat): Option<Text>
    requires top <= pos
    decreases top, |m| - pos
  {
    if pos >= |m| then None
    else if m[pos] == 0 then Some([])
    else match Land(m, pos, top)
      case None => None
      case Some(p) =>
        var next := p + 1 + Len(m[p]);
        if next > |m| then None
        else match Written(m, next, if p == pos then top else p)
          case None => None
          case Some(t) => Some(m[p + 1..next] + [DOT] + t)
  }

  /** No pointer leads to the root, the name without labels. */
  predicate RootFree(m: Text, pos: nat, top: nat)
    decreases top, |m| - pos
  {
    if pos >= |m| || m[pos] == 0 then true
    else if IsPointer(m[pos]) then
      pos + 1 < |m| && Target(m, pos) < top && Target(m, pos) < |m| && m[Target(m, pos)] != 0
      && RootFree(m, Target(m, pos), Target(m, pos))
    else RootFree(m, pos + 1 + Len(m[pos]), top)
  }

  /** The program writes the expansion, each label with a dot, exactly when no pointer leads to the root. */
  lemma WrittenIffRootFree(m: Text, pos: nat, top: nat)
    requires top <= pos && Expand(m, pos, top).Some?
    ensures Written(m, pos, top) == Some(Dotted(Expand(m, pos, top).value)) <==> RootFree(m, pos, top)
  {
    WrittenOrMore(m, pos, top);
  }

  /** Otherwise it writes more than the expansion, or runs off the message. */
  lemma {:induction false} WrittenOrMore(m: Text, pos: nat, top: nat)
    requires top <= pos && Expand(m, pos, top).Some?
    ensures var (w, d) := (Written(m, pos, top), Dotted(Expand(m, pos, top).value));
            if RootFree(m, pos, top) then w == Some(d) else w.Some? ==> |w.value| > |d|
    decreases top, |m| - pos
  {
    if m[pos] == 0 {
    } else if IsPointer(m[pos]) {
      var t := Target(m, pos);
      if m[t] != 0 {
        WrittenOrMore(m, t, t);
        SameLanding(m, pos, top);
      } else {
        RootPointer(m, pos, top);
      }
    } else {
      var next := pos + 1 + m[pos];
      WrittenOrMore(m, next, top);
      OneLabel(m, pos, top, next);
    }
  }

  lemma RootPointer(m: Text, pos: nat, top: nat)
    requires top <= pos && pos + 1 < |m| && IsPointer(m[pos]) && Target(m, pos) < top && Target(m, pos) < |m|
    requires m[Target(m, pos)] == 0
    ensures !RootFree(m, pos, top) && Expand(m, pos, top) == Some([])
    ensures Written(m, pos, top).Some? ==> |Written(m, pos, top).value| > 0
  {
  }

  lemma OneLabel(m: Text, pos: nat, top: nat, next: nat)
    requires top <= pos < |m| && 0 < m[pos] <= MAX_LABEL && next == pos + 1 + m[pos] as nat && next <= |m|
    requires Expand(m, next, top).Some?
    ensures Expand(m, pos, top).Some?
    ensures Dotted(Expand(m, pos, top).value) == m[pos + 1..next] + [DOT] + Dotted(Expand(m, next, top).value)
    ensures RootFree(m, pos, top) == RootFree(m, next, top)
    ensures Written(m, pos, top) == Prefixed(m[pos + 1..next] + [DOT], Written(m, next, top))
  {
    OneExpanded(m, pos, top, next);
    DottedStep(m[pos + 1..next], Expand(m, next, top).value);
    OneWritten(m, pos, top, next);
  }

  lemma OneExpanded(m: Text, pos: nat, top: nat, next: nat)
    requires top <= pos < |m| && 0 < m[pos] <= MAX_LABEL && next == pos + 1 + m[pos] as nat && next <= |m|
    requires Expand(m, next, top).Some?
    ensures Expand(m, pos, top) == Some([m[pos + 1..next]] + Expand(m, next, top).value)
    ensures RootFree(m, pos, top) == RootFree(m, next, top)
  {
  }

  function Prefixed(t: Text, u: Option<Text>): Option<Text> {
    match u
    case None => None
    case Some(v) => Some(t + v)
  }

  lemma OneWritten(m: Text, pos: nat, top: nat, next: nat)
    requires top <= pos < |m| && 0 < m[pos] <= MAX_LABEL && next == pos + 1 + m[pos] as nat && next <= |m|
    ensures Written(m, pos, top) == Prefixed(m[pos + 1..next] + [DOT], Written(m, next, top))
  {
    assert Land(m, pos, top) == Some(pos);
  }

  /** Through a pointer to something other than the root the program writes what stands there. */
  lemma SameLanding(m: Text, pos: nat, top: nat)
    requires top <= pos && pos + 1 < |m| && IsPointer(m[pos]) && Target(m, pos) < top && Target(m, pos) < |m|
    requires m[Target(m, pos)] != 0
    ensures Written(m, pos, top) == Written(m, Target(m, pos), Target(m, pos))
  {
    var t := Target(m, pos);
    assert Land(m, pos, top) == Land(m, t, t);
  }

  /**
   * Unpackdom: the text of the name at `start`, ended by a zero, and how far to skip in the message. The text goes to
   * `mem` from `dst` on; `zero` is where the zero that ends it was written: over the last dot, and for the root, which
   * has no text, before `dst`. The test against `dst_size` in the loop is always true, so it is left out: there must be
   * room enough.
   */
  method Unpackdom(mem: array<Byte>, dst: nat, start: nat, m: Text) returns (retval: nat, ghost zero: nat)
    requires Written(m, start, start).Some? && 1 <= dst
    requires dst + |Written(m, start, start).value| <= mem.Length
    modifies mem
    ensures zero + 1 == dst + |Written(m, start, start).value|
    ensures zero < dst <==> m[start] == 0
    ensures m[start] != 0 ==> mem[dst..zero + 1] == DropLast(Written(m, start, start).value) + [0]
    ensures mem[..dst] == if m[start] == 0 then old(mem[..dst])[dst - 1 := 0] else old(mem[..dst])
    ensures mem[dst + |Written(m, start, start).value|..] == old(mem[dst + |Written(m, start, start).value|..])
    ensures retval == Skip(m, start)
    ensures match Expand(m, start, start)
            case None => true
            case Some(ls) => ls != [] && RootFree(m, start, start) ==>
                               m[start] != 0 && mem[dst..zero + 1] == DropLast(Dotted(ls)) + [0]
  {
    if Expand(m, start, start).Some? {
      WrittenIffRootFree(m, start, start);
    }
    ghost var text := Written(m, start, start).value;
    var src: nat, d: nat := start, dst;
    retval := 0;
    ghost var top: nat, before, all, skip := start, mem[..dst], mem[..dst] + text, Skip(m, start);
    assert mem[..dst] + text == all;
    while m[src] != 0
      invariant top <= src < |m| && dst <= d <= mem.Length
      invariant Written(m, src, top).Some? && all == mem[..d] + Written(m, src, top).value
      invariant (src == start || d > dst) && (retval == 0 ==> start <= src)
      invariant Skipped(m, start, src, retval) == skip
      invariant forall k :: dst + |text| <= k < mem.Length ==> mem[k] == old(mem[k])
      decreases top, |m| - src
    {
      src, d, retval, top := UnpackLabel(mem, d, m, src, top, start, retval);
    }
    Ended(mem[..], before, text, d);
    d := d - 1;
    mem[d] := 0;
    zero := d;
    src := src + 1;
    if retval == 0 {
      retval := src - start;
    }
  }

  /** What was written, and where it ends. */
  lemma Ended(mem: seq<Byte>, before: Text, text: Text, d: nat)
    requires d <= |mem| && before + text == mem[..d]
    ensures d == |before| + |text| && mem[..|before|] == before && mem[|before|..d] == text
  {
    assert mem[..d][..|before|] == mem[..|before|] && (before + text)[..|before|] == before;
    assert mem[..d][|before|..] == mem[|before|..d] && (before + text)[|before|..] == text;
  }

  /** One turn of the loop of Unpackdom: pointers are followed, and a label is copied with a dot after it. */
  method UnpackLabel(dst: array<Byte>, d0: nat, m: Text, pos: nat, ghost top0: nat, start: nat, retval0: nat)
    returns (src: nat, d: nat, retval: nat, ghost top: nat)
    requires top0 <= pos < |m| && m[pos] != 0 && Written(m, pos, top0).Some? && (retval0 == 0 ==> start <= pos)
    requires d0 + |Written(m, pos, top0).value| <= dst.Length
    modifies dst
    ensures forall k :: d0 + |Written(m, pos, top0).value| <= k < dst.Length ==> dst[k] == old(dst[k])
    ensures top <= src < |m| && (top < top0 || (top == top0 && src > pos)) && d0 < d <= dst.Length
    ensures Written(m, src, top).Some? && (retval == 0 ==> start <= src)
    ensures dst[..d] + Written(m, src, top).value == old(dst[..d0]) + Written(m, pos, top0).value
    ensures Skipped(m, start, src, retval) == Skipped(m, start, pos, retval0)
  {
    assert Land(m, pos, top0).Some?;
    var p;
    p, retval, top := Follow(m, pos, top0, start, retval0);
    src := p + 1 + Len(m[p]);
    ghost var rest := WrittenStep(m, pos, top0, p, src, top);
    SkipStep(m, start, pos, src, retval0, retval);
    d := CopyBytes(dst, d0, m, p + 1, src - (p + 1));
    Regroup(old(dst[..d0]), m[p + 1..src], rest);
  }

  lemma Regroup(a: Text, l: Text, rest: Text)
    ensures (a + l + [DOT]) + rest == a + (l + [DOT] + rest)
  {
  }

  /** One turn of the loop: what is written for a label, and what follows. */
  lemma WrittenStep(m: Text, pos: nat, top: nat, p: nat, next: nat, top': nat) returns (rest: Text)
    requires top <= pos < |m| && m[pos] != 0 && Written(m, pos, top).Some?
    requires Land(m, pos, top) == Some(p) && next == p + 1 + Len(m[p]) && top' == if p == pos then top else p
    ensures next < |m| && top' <= next && Written(m, next, top') == Some(rest)
    ensures Written(m, pos, top).value == m[p + 1..next] + [DOT] + rest
  {
    rest := Written(m, next, top').value;
  }

  /** What is to be skipped, when the loop has got to `src`. */
  ghost function Skipped(m: Text, start: nat, src: nat, retval: nat): int {
    if retval != 0 then retval else src - start + Skip(m, src)
  }

  lemma SkipStep(m: Text, start: nat, pos: nat, next: nat, was: nat, retval: nat)
    requires pos < |m| && m[pos] != 0 && (was == 0 ==> start <= pos)
    requires !IsPointer(m[pos]) ==> next == pos + 1 + Len(m[pos])
    requires retval == if was == 0 && IsPointer(m[pos]) then pos - start + 2 else was
    ensures Skipped(m, start, next, retval) == Skipped(m, start, pos, was)
  {
  }

  /** The inner loop over pointers; the first one found settles what to skip. */
  method Follow(m: Text, src0: nat, ghost top0: nat, start: nat, retval0: nat)
    returns (src: nat, retval: nat, ghost top: nat)
    requires top0 <= src0 < |m| && Land(m, src0, top0).Some? && (retval0 == 0 ==> start <= src0)
    ensures Land(m, src0, top0) == Some(src) && top == (if src == src0 then top0 else src) <= src
    ensures retval == if retval0 == 0 && IsPointer(m[src0]) then src0 - start + 2 else retval0
  {
    src, retval, top := src0, retval0, top0;
    while IsPointer(m[src])
      invariant top <= src < |m| && Land(m, src, top) == Land(m, src0, top0)
      invariant top == (if src == src0 then top0 else src) && src <= src0
      invariant retval == if retval0 == 0 && src != src0 then src0 - start + 2 else retval0
      decreases top
    {
      if retval == 0 {
        retval := src - start + 2;
      }
      src := Target(m, src);
      top := src;
    }
  }

  /** A label of `n` bytes is copied, and a dot is written after it. */
  method CopyBytes(dst: array<Byte>, d0: nat, m: Text, src: nat, n: nat) returns (d: nat)
    requires d0 + n < dst.Length && src + n <= |m|
    modifies dst
    ensures d == d0 + n + 1 && dst[..d] == old(dst[..d0]) + m[src..src + n] + [DOT]
    ensures forall k :: d <= k < dst.Length ==> dst[k] == old(dst[k])
  {
    d := d0;
    var i := 0;
    while i < n
      invariant 0 <= i <= n && d == d0 + i && dst[..d] == old(dst[..d0]) + m[src..src + i]
      invariant forall k :: d <= k < dst.Length ==> dst[k] == old(dst[k])
    {
      dst[d] := m[src + i];
      assert dst[..d + 1] == dst[..d] + [m[src + i]];
      d, i := d + 1, i + 1;
    }
    dst[d] := DOT;
    assert dst[..d + 1] == dst[..d] + [DOT];
    d := d + 1;
  }

  // ---------- round trip ----------

  predicate NonEmpty(ls: seq<Text>) {
    forall i :: 0 <= i < |ls| ==> ls[i] != []
  }

  /** Packed labels expand to themselves wherever they stand, and are skipped as a whole. */
  lemma {:induction false} ExpandWire(m: Text, pos: nat, top: nat, ls: seq<Text>)
    requires Short(ls) && NonEmpty(ls) && top <= pos && pos + |Wire(ls)| <= |m|
    requires m[pos..pos + |Wire(ls)|] == Wire(ls)
    ensures Expand(m, pos, top) == Some(ls) && RootFree(m, pos, top) && Skip(m, pos) == |Wire(ls)|
    decreases |ls|
  {
    WireAt(m, pos, ls);
    if ls != [] {
      ExpandWire(m, pos + 1 + |ls[0]|, top, ls[1..]);
      assert ls == [ls[0]] + ls[1..];
    }
  }

  /** Where packed labels stand: the first one, and then the others. */
  lemma WireAt(m: Text, pos: nat, ls: seq<Text>)
    requires Short(ls) && pos + |Wire(ls)| <= |m| && m[pos..pos + |Wire(ls)|] == Wire(ls)
    ensures ls == [] ==> m[pos] == 0
    ensures ls != [] ==>
              var (l, w) := (ls[0], Wire(ls[1..]));
              var next := pos + 1 + |l|;
              |Wire(ls)| == 1 + |l| + |w| && m[pos] == |l| && m[pos + 1..next] == l && m[next..next + |w|] == w
  {
    var w := m[pos..pos + |Wire(ls)|];
    assert w[0] == m[pos];
    if ls != [] {
      assert Wire(ls) == [|ls[0]| as Byte] + ls[0] + Wire(ls[1..]);
      LabelAt(m, pos, w, ls[0], Wire(ls[1..]));
    }
  }

  lemma LabelAt(m: Text, pos: nat, w: Text, l: Text, rest: Text)
    requires |l| <= MAX_LABEL && w == [|l| as Byte] + l + rest && pos + |w| <= |m| && m[pos..pos + |w|] == w
    ensures var next := pos + 1 + |l|;
            m[pos] == |l| && m[pos + 1..next] == l && next + |rest| == pos + |w| && m[next..next + |rest|] == rest
  {
    assert w[0] == m[pos];
    assert w[1..|l| + 1] == l && w[|l| + 1..] == rest;
    SliceOfSlice(m, pos, pos + |w|, 1, |l| + 1);
    SliceOfSlice(m, pos, pos + |w|, |l| + 1, |w|);
  }

  lemma SliceOfSlice(m: Text, a: nat, b: nat, c: nat, d: nat)
    requires a <= b <= |m| && c <= d <= b - a
    ensures m[a..b][c..d] == m[a + c..a + d]
  {
    forall i | 0 <= i < d - c
      ensures m[a..b][c..d][i] == m[a + c..a + d][i]
    {
      assert m[a..b][c..d][i] == m[a..b][c + i];
    }
  }

  /** The text that stands for a name: without a dot at its end, and with the default domain after a single label. */
  function FullName(name: Text, domain: Text): Text {
    if HasDot(name) || domain == [] then NoEndDot(name) else name + [DOT] + NoEndDot(domain)
  }

  function NoEndDot(s: Text): Text {
    if EndsWithDot(s) then DropLast(s) else s
  }

  lemma FullNameOf(name: Text, domain: Text)
    ensures Dotted(FullLabels(name, domain)) == FullName(name, domain) + [DOT]
  {
    DottedOfLabels(name);
    WithDot(name);
    if HasDot(name) || domain == [] {
      assert FullLabels(name, domain) == Labels(name);
    } else {
      DottedOfLabels(domain);
      WithDot(domain);
      DottedConcat(Labels(name), Labels(domain));
      assert name + [DOT] + (NoEndDot(domain) + [DOT]) == name + [DOT] + NoEndDot(domain) + [DOT];
    }
  }

  lemma WithDot(s: Text)
    ensures WithEndDot(s) == NoEndDot(s) + [DOT]
    ensures EndsWithDot(s) ==> HasDot(s)
  {
    if EndsWithDot(s) {
      assert s == DropLast(s) + [DOT];
    }
  }

  /**
   * Unpackdom undoes Packdom: for a name of nonempty labels of at most 63 bytes, anywhere in a message, it writes
   * the full name and skips as many bytes as Packdom wrote.
   */
  lemma PackThenUnpack(name: Text, domain: Text, before: Text, after: Text)
    requires Short(FullLabels(name, domain)) && NonEmpty(FullLabels(name, domain))
    ensures var (ls, pos) := (FullLabels(name, domain), |before|);
            var m := before + Wire(ls) + after;
            && Expand(m, pos, pos) == Some(ls) && m[pos] != 0
            && Written(m, pos, pos) == Some(FullName(name, domain) + [DOT])
            && DropLast(FullName(name, domain) + [DOT]) == FullName(name, domain)
            && Skip(m, pos) == |Wire(ls)|
  {
    var ls, pos := FullLabels(name, domain), |before|;
    var m := before + Wire(ls) + after;
    assert m[pos..pos + |Wire(ls)|] == Wire(ls);
    ExpandWire(m, pos, pos, ls);
    WrittenIffRootFree(m, pos, pos);
    FullNameOf(name, domain);
    WireStart(ls);
    assert m[pos] == Wire(ls)[0];
  }

  lemma WireStart(ls: seq<Text>)
    requires Short(ls) && NonEmpty(ls) && ls != []
    ensures Wire(ls)[0] == |ls[0]| != 0
  {
  }

  // ---------- compression ----------

  /** Labels and then a pointer to `p`, as section 4.1.4 of RFC 1035 has it. */
  function Compressed(ls: seq<Text>, p: nat): Text
    requires Short(ls) && p < 16384
  {
    Body(ls) + [192 + p / 256, p % 256]
  }

  predicate CompressedAt(m: Text, pos: nat, ls: seq<Text>, p: nat) {
    && Short(ls) && p < 16384
    && var w := Compressed(ls, p);
       pos + |w| <= |m| && m[pos..pos + |w|] == w
  }

  lemma CompressedStep(m: Text, pos: nat, ls: seq<Text>, p: nat)
    requires ls != [] && CompressedAt(m, pos, ls, p)
    ensures m[pos] == |ls[0]| && m[pos + 1..pos + 1 + |ls[0]|] == ls[0]
    ensures |Body(ls)| == 1 + |ls[0]| + |Body(ls[1..])| && CompressedAt(m, pos + 1 + |ls[0]|, ls[1..], p)
  {
    var w, rest := Compressed(ls, p), Compressed(ls[1..], p);
    assert w == [|ls[0]| as Byte] + ls[0] + rest;
    LabelAt(m, pos, w, ls[0], rest);
  }

  lemma PointerTo(m: Text, pos: nat, p: nat)
    requires CompressedAt(m, pos, [], p)
    ensures pos + 2 <= |m| && IsPointer(m[pos]) && Target(m, pos) == p
  {
    var w := Compressed([], p);
    assert w == [192 + p / 256, p % 256];
    assert m[pos] == m[pos..pos + 2][0] && m[pos + 1] == m[pos..pos + 2][1];
  }

  function Continued(ls: seq<Text>, r: Option<seq<Text>>): Option<seq<Text>> {
    match r
    case None => None
    case Some(ms) => Some(ls + ms)
  }

  lemma ContinuedStep(l: Text, ls: seq<Text>, r: Option<seq<Text>>)
    ensures Continued([l] + ls, r) == Continued([l], Continued(ls, r))
    ensures Continued([], r) == r
  {
    if r.Some? {
      assert [l] + ls + r.value == [l] + (ls + r.value);
      assert [] + r.value == r.value;
    }
  }

  lemma {:induction false} CompressedFrom(m: Text, pos: nat, top: nat, ls: seq<Text>, p: nat)
    requires NonEmpty(ls) && CompressedAt(m, pos, ls, p) && p < top <= pos
    ensures Expand(m, pos, top) == Continued(ls, Expand(m, p, p))
    ensures Skip(m, pos) == |Body(ls)| + 2
    ensures RootFree(m, pos, top) <==> m[p] != 0 && RootFree(m, p, p)
    decreases |ls|
  {
    if ls == [] {
      PointerTo(m, pos, p);
      ContinuedStep([], [], Expand(m, p, p));
    } else {
      var next := pos + 1 + |ls[0]|;
      CompressedStep(m, pos, ls, p);
      CompressedFrom(m, next, top, ls[1..], p);
      ContinuedStep(ls[0], ls[1..], Expand(m, p, p));
      assert ls == [ls[0]] + ls[1..];
      LabelFirst(m, pos, top, next);
    }
  }

  lemma LabelFirst(m: Text, pos: nat, top: nat, next: nat)
    requires pos < |m| && 0 < m[pos] <= MAX_LABEL && next == pos + 1 + m[pos] as nat && next <= |m|
    ensures Expand(m, pos, top) == Continued([m[pos + 1..next]], Expand(m, next, top))
    ensures Skip(m, pos) == 1 + m[pos] + Skip(m, next) && RootFree(m, pos, top) == RootFree(m, next, top)
  {
  }

  /**
   * Labels that end with a pointer to an earlier name are continued with that name, and take up their own bytes and two
   * more; and the program writes the whole, if the earlier name has labels and no pointer from there leads to the root.
   */
  lemma Compression(m: Text, pos: nat, ls: seq<Text>, p: nat)
    requires Short(ls) && NonEmpty(ls) && p < pos && p < 16384
    requires var end := pos + |Body(ls)|;
             end + 2 <= |m| && m[pos..end] == Body(ls) && m[end] == 192 + p / 256 && m[end + 1] == p % 256
    ensures Expand(m, pos, pos) ==
            match Expand(m, p, p)
            case None => None
            case Some(ms) => Some(ls + ms)
    ensures Skip(m, pos) == |Body(ls)| + 2
    ensures match Expand(m, p, p)
            case None => true
            case Some(ms) => ms != [] && RootFree(m, p, p) ==> Written(m, pos, pos) == Some(Dotted(ls + ms))
  {
    var end := pos + |Body(ls)|;
    assert m[pos..end + 2] == m[pos..end] + [m[end], m[end + 1]];
    CompressedFrom(m, pos, pos, ls, p);
    if Expand(m, p, p).Some? {
      WrittenIffRootFree(m, pos, pos);
    }
  }

  /** A length byte of 64 to 191 begins no name, but the program takes it modulo 64. */
  lemma ReservedLength(m: Text, pos: nat, top: nat, n: nat)
    requires top <= pos < |m| && n <= 63 && (m[pos] == 64 + n || m[pos] == 128 + n)
    ensures Expand(m, pos, top) == None
    ensures Written(m, pos, top) == if pos + 1 + n > |m| then None
                                    else Prefixed(m[pos + 1..pos + 1 + n] + [DOT], Written(m, pos + 1 + n, top))
  {
    assert Len(m[pos]) == n && Land(m, pos, top) == Some(pos);
  }

  /** Packed labels are as long as the text with a dot after each label, and one more; every dot moves to the front. */
  lemma {:induction false} WireLabel(ls: seq<Text>, i: nat)
    requires Short(ls) && i < |ls|
    ensures |Wire(ls)| == |Dotted(ls)| + 1 && Wire(ls)[|Dotted(ls)|] == 0
    ensures var at := |Dotted(ls[..i])|;
            && at + |ls[i]| < |Dotted(ls)|
            && Wire(ls)[at] == |ls[i]| && Wire(ls)[at + 1..at + 1 + |ls[i]|] == ls[i]
            && Dotted(ls)[at..at + |ls[i]|] == ls[i] && Dotted(ls)[at + |ls[i]|] == DOT
  {
    BodyLength(ls);
    var a, b := ls[..i], ls[i + 1..];
    assert ls == a + ([ls[i]] + b);
    BodyConcat(a, [ls[i]] + b);
    DottedConcat(a, [ls[i]] + b);
    BodyStep(ls[i], b);
    DottedStep(ls[i], b);
    BodyLength(a);
    var at, l := |Dotted(a)|, ls[i];
    assert Wire(ls) == Body(a) + [|l| as Byte] + l + (Body(b) + [0]);
    assert Dotted(ls) == Dotted(a) + l + ([DOT] + Dotted(b));
  }

  lemma {:induction false} BodyLength(ls: seq<Text>)
    requires Short(ls)
    ensures |Body(ls)| == |Dotted(ls)|
  {
    if ls != [] { BodyLength(ls[1..]); }
  }

  const ROOT_POINTER: Text := [0, 1, 98, 0, 1, 97, 192, 0]

  /** A pointer to the root: the name at 4 is "a", and the program writes "a..b" and a last dot. */
  lemma RootPointerExample()
    ensures Expand(ROOT_POINTER, 4, 4) == Some([[97]])
    ensures Written(ROOT_POINTER, 4, 4) == Some([97, 46, 46, 98, 46])
  {
    var m := ROOT_POINTER;
    assert Expand(m, 0, 0) == Some([]) && Target(m, 6) == 0;
    assert Expand(m, 6, 4) == Some([]);
    assert m[5..6] == [97];
    assert [m[5..6]] + [] == [[97]];
    assert Expand(m, 4, 4) == Some([m[5..6]] + []);
    OneWritten(m, 1, 0, 3);
    assert Written(m, 3, 0) == Some([]);
    assert m[2..3] + [DOT] + [] == [98, DOT];
    WrittenAtRoot(m, 6, 4);
    OneWritten(m, 4, 4, 6);
    assert m[5..6] + [DOT] + ([DOT] + [98, DOT]) == [97, DOT, DOT, 98, DOT];
  }

  /** A pointer to the root counts as an empty label, and reading goes on behind the root. */
  lemma WrittenAtRoot(m: Text, pos: nat, top: nat)
    requires top <= pos && pos + 1 < |m| && IsPointer(m[pos]) && Target(m, pos) < top && m[Target(m, pos)] == 0
    ensures Written(m, pos, top) == Prefixed([DOT], Written(m, Target(m, pos) + 1, Target(m, pos)))
  {
    var t := Target(m, pos);
    assert Land(m, pos, top) == Some(t) && Len(m[t]) == 0;
    assert m[t + 1..t + 1] + [DOT] == [DOT];
  }
}
