/** The host cache as src/gethost.c keeps it: a linked list of nodes, refreshed in place and turned round in place. */
module HostCacheHeap {
  import opened Basics
  import opened HostCache

  /** struct _hostent */
  class HostEnt {
    var h_name: string
    var h_aliases: seq<string>
    var h_address: seq<Addr>
    var h_real_ttl: nat
    var h_timeout: nat
    var h_next: HostEnt?
    ghost var source: Source

    constructor (next: HostEnt?)
      ensures h_next == next && h_aliases == [] && h_timeout == 0 && h_real_ttl == 0 && source == HostsFile
    {
      h_name, h_aliases, h_address, h_real_ttl, h_timeout, h_next := "", [], [], 0, 0, next;
      source := HostsFile;
    }

    ghost function Value(): Entry
      reads this
    {
      Entry(h_name, h_aliases, h_address, h_real_ttl, h_timeout, source)
    }
  }

  ghost function Values(list: seq<HostEnt>): (r: seq<Entry>)
    reads list
    ensures |r| == |list| && forall i :: 0 <= i < |list| ==> r[i] == list[i].Value()
  {
    if list == [] then [] else [list[0].Value()] + Values(list[1..])
  }

  ghost predicate OneAlias(es: seq<Entry>) {
    forall k :: 0 <= k < |es| && es[k].timeout != 0 ==> |es[k].aliases| <= 1
  }

  lemma {:induction false} BackwardsMore(es: seq<Entry>, e: Entry)
    ensures Backwards(es + [e]) == [e] + Backwards(es)
  {
    if es == [] {
      assert es + [e] == [e] && [e][1..] == [];
    } else {
      assert (es + [e])[1..] == es[1..] + [e];
      BackwardsMore(es[1..], e);
    }
  }

  class Hosts {
    const config: Config
    var host0: HostEnt?
    ghost var list: seq<HostEnt>

    ghost function NodeAt(i: nat): HostEnt?
      reads this
    {
      if i < |list| then list[i] else null
    }

    ghost predicate LinkAt(i: nat)
      requires i < |list|
      reads this, list
    {
      list[i].h_next == NodeAt(i + 1)
    }

    ghost predicate Chained()
      reads this, list
    {
      && host0 == NodeAt(0)
      && (forall i {:trigger LinkAt(i)} :: 0 <= i < |list| ==> LinkAt(i))
      && (forall i, j :: 0 <= i < j < |list| ==> list[i] != list[j])
    }

    /** An entry that can expire has at most one alias, the only one that a refresh clears. */
    ghost predicate Valid()
      reads this, list
    {
      Chained() && forall i :: 0 <= i < |list| && list[i].h_timeout != 0 ==> |list[i].h_aliases| <= 1
    }

    ghost function Contents(): seq<Entry>
      reads this, list
    {
      Values(list)
    }

    constructor (config: Config)
      ensures Valid() && this.config == config && Contents() == []
    {
      this.config := config;
      host0 := null;
      list := [];
    }

    /** The loop of gethostbyname_internal: the first node with the name. */
    method FindName(name: string) returns (h: HostEnt?, ghost i: nat)
      requires Valid()
      ensures h == NodeAt(FirstNamed(Contents(), name))
      ensures i == FirstNamed(Contents(), name)
    {
      h, i := host0, 0;
      while h != null
        invariant i <= |list| && h == NodeAt(i)
        invariant Unnamed(Contents(), name, 0, i)
        decreases |list| - i
      {
        var found := HasName(h, name);
        if found {
          FirstIs(Contents(), name, i);
          return;
        }
        assert LinkAt(i);
        h := h.h_next;
        i := i + 1;
      }
    }

    method HasName(h: HostEnt, name: string) returns (found: bool)
      ensures found <==> Names(h.Value(), name)
    {
      if Same(h.h_name, name) {
        return true;
      }
      var i := 0;
      while i < |h.h_aliases|
        invariant 0 <= i <= |h.h_aliases|
        invariant forall k :: 0 <= k < i ==> !Same(name, h.h_aliases[k])
      {
        if Same(name, h.h_aliases[i]) {
          return true;
        }
        i := i + 1;
      }
      found := false;
    }

    /** The loop of gethostbyaddr_internal: the first node with the address. */
    method FindAddr(addr: Addr) returns (h: HostEnt?, ghost i: nat)
      requires Valid()
      ensures h == NodeAt(FirstAt(Contents(), addr))
      ensures i == FirstAt(Contents(), addr)
    {
      h, i := host0, 0;
      while h != null
        invariant i <= |list| && h == NodeAt(i)
        invariant forall k :: 0 <= k < i ==> !HasAddr(list[k].h_address, addr)
        decreases |list| - i
      {
        var k := 0;
        while k < |h.h_address| && h.h_address[k] != INADDR_NONE && h.h_address[k] != addr
          invariant 0 <= k <= |h.h_address|
          invariant HasAddr(h.h_address, addr) == HasAddr(h.h_address[k..], addr)
        {
          k := k + 1;
        }
        if k < |h.h_address| && h.h_address[k] == addr && addr != INADDR_NONE {
          return;
        }
        assert LinkAt(i);
        h := h.h_next;
        i := i + 1;
      }
    }

    /** A node is linked before the first one. */
    method Prepend(h: HostEnt)
      requires Chained() && h !in list
      modifies this`host0, this`list, h`h_next
      ensures Chained() && host0 == h && list == [h] + old(list)
      ensures Contents() == [h.Value()] + old(Contents())
    {
      h.h_next := host0;
      host0 := h;
      list := [h] + list;
      forall i | 0 <= i < |list|
        ensures LinkAt(i)
      {
        assert i > 0 ==> old(LinkAt(i - 1));
      }
    }

    /** add_hostent: `reuse`, the expired node at `i`, is filled again, or a new node at the head is filled. */
    method AddHostent(reuse: HostEnt?, ghost i: nat, name: string, cname: string, alist: seq<Addr>, addr: Addr,
                      ttl: nat, at: nat, ghost source: Source) returns (h: HostEnt)
      requires Valid() && i <= |list| && reuse == NodeAt(i)
      requires i < |list| ==> |list[i].h_aliases| <= 1
      modifies this`host0, this`list, reuse
      ensures Valid()
      ensures h.Value() == Filled(name, cname, alist, addr, ttl, at, config.cacheLife, source)
      ensures Contents() == Store(old(Contents()), i, h.Value())
    {
      if reuse != null {
        h := reuse;
        Fill(h, i, name, cname, alist, addr, ttl, at, source);
        assert Contents()[i] == h.Value();
      } else {
        h := new HostEnt(null);
        assert Contents() == old(Contents());
        Prepend(h);
        Fill(h, 0, name, cname, alist, addr, ttl, at, source);
        assert Contents()[0] == h.Value();
      }
    }

    /** The second part of add_hostent. */
    method Fill(h: HostEnt, ghost i: nat, name: string, cname: string, alist: seq<Addr>, addr: Addr,
                ttl0: nat, at: nat, ghost source: Source)
      requires Valid() && i < |list| && h == list[i] && |h.h_aliases| <= 1
      modifies h`h_name, h`h_aliases, h`h_address, h`h_real_ttl, h`h_timeout, h`source
      ensures Valid()
      ensures Contents() == old(Contents())[i := Filled(name, cname, alist, addr, ttl0, at, config.cacheLife, source)]
    {
      SetFields(h, name, cname, alist, addr, ttl0, at, source);
      forall k | 0 <= k < |list|
        ensures LinkAt(k)
      {
        assert old(LinkAt(k));
      }
    }

    method SetFields(h: HostEnt, name: string, cname: string, alist: seq<Addr>, addr: Addr, ttl0: nat, at: nat,
                     ghost source: Source)
      requires |h.h_aliases| <= 1
      modifies h`h_name, h`h_aliases, h`h_address, h`h_real_ttl, h`h_timeout, h`source
      ensures h.Value() == Filled(name, cname, alist, addr, ttl0, at, config.cacheLife, source)
      ensures |h.h_aliases| <= 1
    {
      var ttl := if ttl0 < config.cacheLife then ttl0 else config.cacheLife;
      h.h_aliases := [];
      h.h_timeout := if ttl != 0 then at + ttl else 0;
      h.h_real_ttl := ttl0;
      h.h_address := [addr];
      AddAlternates(h, alist);
      if cname != "" {
        h.h_name := cname;
        h.h_aliases := [name];
      } else {
        h.h_name := name;
      }
      h.source := source;
    }

    /** Its loop over the alternate addresses. */
    method AddAlternates(h: HostEnt, alist: seq<Addr>)
      modifies h`h_address
      ensures h.h_address == old(h.h_address) + Alternates(alist)
    {
      var i := 0;
      while i < |alist| && alist[i] != INADDR_NONE && alist[i] != INADDR_ANY
        invariant 0 <= i <= |alist| && h.h_address + Alternates(alist[i..]) == old(h.h_address) + Alternates(alist)
      {
        h.h_address := h.h_address + [alist[i]];
        i := i + 1;
      }
    }

    /** gethostbyname_internal; `reply` is what resolve() would give, and `at` when it comes. */
    method GetHostByName(name: string, now: nat, at: nat, reply: Reply, busy: bool) returns (a: Answer)
      requires Valid()
      modifies this, list
      ensures Valid()
      ensures (Contents(), a) == ByName(config, old(Contents()), name, now, at, reply, busy)
    {
      var literal := config.aton(name);
      if literal.Some? {
        return Answer(true, name, [literal.value], false);
      }
      ghost var i;
      var h;
      h, i := FindName(name);
      if h != null {
        if !(h.h_timeout != 0 && now > h.h_timeout) {
          return Answer(h.h_address != [] && h.h_address[0] != INADDR_NONE, h.h_name, h.h_address, false);
        }
      } else {
        var own := OwnName(config, name);
        if own.Some? {
          return Answer(true, own.value, [config.hostid], false);
        }
      }
      if busy {
        return NoAnswer;
      }
      if reply.Interrupted? {
        return NoAnswer.(asked := true);
      }
      if reply.ip != 0 {
        h := AddHostent(h, i, name, reply.cname, reply.alist, reply.ip, reply.ttl, at, Asked(name, reply, at));
        return Answer(true, h.h_name, h.h_address, true);
      }
      h := AddHostent(h, i, name, "", [], INADDR_NONE, config.cacheLife, at, Asked(name, reply, at));
      return NoAnswer.(asked := true);
    }

    /** gethostbyaddr_internal */
    method GetHostByAddr(addr: Addr, now: nat, at: nat, back: Reverse, getai: bool) returns (a: Answer)
      requires Valid()
      modifies this, list
      ensures Valid()
      ensures (Contents(), a) == ByAddr(config, old(Contents()), addr, now, at, back, getai)
    {
      var own := OwnAddr(config, addr);
      if own.Some? {
        return own.value;
      }
      var h: HostEnt? := null;
      ghost var i := |list|;
      if !getai {
        h, i := FindAddr(addr);
        assert Contents() == old(Contents()) && i == FirstAt(old(Contents()), addr);
        assert h != null ==> h.Value() == old(Contents())[i];
        if h != null && !(h.h_timeout != 0 && now > h.h_timeout) {
          return Answer(h.h_name != UNKNOWN, h.h_name, h.h_address, false);
        }
      }
      a := AskBack(h, i, addr, at, back);
    }

    /** The part of gethostbyaddr_internal after `expired`. */
    method AskBack(h: HostEnt?, ghost i: nat, addr: Addr, at: nat, back: Reverse) returns (a: Answer)
      requires Valid() && i <= |list| && h == NodeAt(i)
      requires i < |list| ==> |list[i].h_aliases| <= 1
      modifies this, h
      ensures Valid()
      ensures (Contents(), a) == HostCache.AskBack(config, old(Contents()), i, addr, at, back)
    {
      if back.Stopped? {
        return NoAnswer.(asked := true);
      }
      if back.Host? {
        var n := AddHostent(h, i, back.host, back.canon, [], addr, back.life, at, AskedBack(addr, back, at));
        return Answer(true, n.h_name, n.h_address, true);
      }
      var n := AddHostent(h, i, UNKNOWN, "", [], addr, 0, at, AskedBack(addr, back, at));
      return NoAnswer.(asked := true);
    }

    /** ReadHostsFile */
    method ReadHostsFile(lines: seq<Line>)
      requires Valid()
      modifies this
      ensures Valid() && Contents() == ReadHosts(old(Contents()), lines)
      ensures forall k :: 0 <= k < |lines| ==>
                var l := lines[|lines| - 1 - k];
                k < |list| && Contents()[k] == Entry(l.name, l.aliases, [l.addr], 0, 0, HostsFile)
      ensures |list| == |lines| + |old(list)| && Contents()[|lines|..] == old(Contents())
    {
      HostsFirst(Contents(), lines);
      var k := 0;
      while k < |lines|
        invariant 0 <= k <= |lines| && Valid()
        invariant ReadHosts(Contents(), lines[k..]) == ReadHosts(old(Contents()), lines)
      {
        AddLine(lines[k]);
        k := k + 1;
      }
    }

    lemma HostsFirst(es: seq<Entry>, lines: seq<Line>)
      ensures var r := ReadHosts(es, lines);
              && |r| == |lines| + |es| && r[|lines|..] == es
              && forall k :: 0 <= k < |lines| ==>
                   var l := lines[|lines| - 1 - k]; r[k] == Entry(l.name, l.aliases, [l.addr], 0, 0, HostsFile)
    {
      var r, n := ReadHosts(es, lines), |lines|;
      if n + |es| > 0 {
        ReadHostsAt(es, lines, 0);
      } else {
        assert r == [];
      }
      forall k | 0 <= k < n + |es|
        ensures if k < n then
                  var l := lines[n - 1 - k]; r[k] == Entry(l.name, l.aliases, [l.addr], 0, 0, HostsFile)
                else r[k] == es[k - n]
      {
        ReadHostsAt(es, lines, k);
      }
      assert r[n..] == es;
    }

    method AddLine(line: Line)
      requires Valid()
      modifies this`host0, this`list
      ensures Valid()
      ensures Contents() == [OfLine(line)] + old(Contents())
    {
      var h2 := new HostEnt(null);
      h2.h_aliases := line.aliases;
      h2.h_name := line.name;
      h2.h_address := [line.addr];
      Prepend(h2);
    }

    /** ReverseHostsList: the nodes are collected, and linked again from the first to the last. */
    method ReverseHostsList() returns (done: bool)
      requires Valid()
      modifies this, list
      ensures Valid() && done == AnyDynamic(old(Contents()))
      ensures Contents() == Reversed(old(Contents()))
      ensures done <==> exists k :: 0 <= k < |old(Contents())| && old(Contents())[k].timeout > 0
      ensures |list| == |old(list)|
      ensures forall k :: 0 <= k < |list| ==>
                Contents()[k] == old(Contents())[if done then |old(list)| - 1 - k else k]
    {
      var nodes;
      nodes, done := Collect();
      if !done {
        return;
      }
      ghost var before := Contents();
      assert OneAlias(before);
      Relink(nodes);
      AliasesKept(before);
      TurnedRound(before);
    }

    lemma TurnedRound(es: seq<Entry>)
      ensures forall k :: 0 <= k < |es| ==> Backwards(es)[k] == es[|es| - 1 - k]
    {
      forall k | 0 <= k < |es|
        ensures Backwards(es)[k] == es[|es| - 1 - k]
      {
        BackwardsAt(es, k);
      }
    }

    lemma AliasesKept(before: seq<Entry>)
      requires Chained() && OneAlias(before) && Contents() == Backwards(before)
      ensures Valid()
    {
      forall k | 0 <= k < |list| && list[k].h_timeout != 0
        ensures |list[k].h_aliases| <= 1
      {
        BackwardsAt(before, k);
        assert Contents()[k] == list[k].Value();
      }
    }

    /** Its last loop: each node is linked before those linked already. */
    method Relink(nodes: seq<HostEnt>)
      requires forall i, j :: 0 <= i < j < |nodes| ==> nodes[i] != nodes[j]
      modifies this`host0, this`list, nodes`h_next
      ensures Chained() && Contents() == Backwards(old(Values(nodes)))
    {
      ghost var before := Values(nodes);
      host0, list := null, [];
      var i := 0;
      while i < |nodes|
        invariant 0 <= i <= |nodes| && Chained()
        invariant forall k :: i <= k < |nodes| ==> nodes[k] !in list
        invariant Contents() == Backwards(before[..i])
      {
        assert nodes[i].Value() == before[i];
        assert before[..i + 1] == before[..i] + [before[i]];
        BackwardsMore(before[..i], before[i]);
        Prepend(nodes[i]);
        i := i + 1;
      }
      assert before[..i] == before;
    }

    /** Its first two loops. */
    method Collect() returns (nodes: seq<HostEnt>, dynamic: bool)
      requires Valid()
      ensures nodes == list && dynamic == AnyDynamic(Contents())
    {
      nodes := [];
      dynamic := false;
      var h := host0;
      while h != null
        invariant |nodes| <= |list| && nodes == list[..|nodes|] && h == NodeAt(|nodes|)
        invariant dynamic <==> exists k :: 0 <= k < |nodes| && Contents()[k].timeout > 0
        decreases |list| - |nodes|
      {
        if h.h_timeout > 0 {
          dynamic := true;
          assert Contents()[|nodes|].timeout > 0;
        }
        assert LinkAt(|nodes|);
        nodes := nodes + [h];
        h := h.h_next;
      }
    }

    /** endhostent */
    method EndHostent()
      requires Valid()
      modifies this
      ensures Valid() && Contents() == []
    {
      host0, list := null, [];
    }
  }
}
