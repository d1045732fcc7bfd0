/**
 * The host cache of src/gethost.c as a function of its list of entries. The resolver is an oracle: each lookup
 * comes with the reply it would get, and with the times at which it begins and at which a reply is stored.
 */
module HostCache {
  import opened Basics

  type Addr = a: nat | a <= 0xFFFF_FFFF

  const INADDR_ANY: Addr := 0
  const INADDR_NONE: Addr := 0xFFFF_FFFF
  const UNKNOWN := "*unknown*"

  /** What resolve() leaves behind; an address of 0 is a negative reply. */
  datatype Reply = Interrupted | Resolved(ip: Addr, cname: string, alist: seq<Addr>, ttl: nat)

  /** What reverse_resolve_ip4() leaves behind. */
  datatype Reverse = Stopped | Unresolved | Host(host: string, canon: string, life: nat)

  /** Where the data of an entry come from. */
  datatype Source =
    | HostsFile
    | Asked(name: string, reply: Reply, at: nat)
    | AskedBack(addr: Addr, back: Reverse, when: nat)

  datatype Entry = Entry(name: string, aliases: seq<string>, addrs: seq<Addr>, real_ttl: nat, timeout: nat,
                         source: Source)

  /** What does not change: this machine's names and address, the longest life of an entry, and what addresses are. */
  datatype Config = Config(hostname: string, our_name: Option<string>, hostid: Addr, cacheLife: nat,
                           aton: string -> Option<Addr>, directedBroadcast: Addr -> bool)

  /** The result of a lookup, and whether the resolver was asked. */
  datatype Answer = Answer(found: bool, name: string, addrs: seq<Addr>, asked: bool)

  const NoAnswer := Answer(false, "", [], false)

  // ---------- names ----------

  function LowerChar(c: char): char {
    if 'A' <= c <= 'Z' then (c as int + 32) as char else c
  }

  function Lower(s: string): string {
    if s == "" then "" else [LowerChar(s[0])] + Lower(s[1..])
  }

  /** stricmp */
  predicate Same(a: string, b: string) {
    Lower(a) == Lower(b)
  }

  predicate Names(e: Entry, name: string) {
    Same(e.name, name) || exists k :: 0 <= k < |e.aliases| && Same(name, e.aliases[k])
  }

  /** No entry from `lo` up to `hi` has the name. */
  predicate Unnamed(es: seq<Entry>, name: string, lo: nat, hi: nat)
    requires hi <= |es|
  {
    forall k {:trigger Names(es[k], name)} :: lo <= k < hi ==> !Names(es[k], name)
  }

  /** At most one entry has the name. */
  predicate Sole(es: seq<Entry>, name: string) {
    forall i, j {:trigger Names(es[i], name), Names(es[j], name)} :: 0 <= i < j < |es| ==>
      !(Names(es[i], name) && Names(es[j], name))
  }

  /** The first entry for a name, or the length of the list. */
  function FirstNamed(es: seq<Entry>, name: string): (i: nat)
    ensures i <= |es| && (i < |es| ==> Names(es[i], name)) && Unnamed(es, name, 0, i)
  {
    NamedFrom(es, name, 0)
  }

  function NamedFrom(es: seq<Entry>, name: string, from: nat): (i: nat)
    requires from <= |es|
    ensures from <= i <= |es| && (i < |es| ==> Names(es[i], name)) && Unnamed(es, name, from, i)
    decreases |es| - from
  {
    if from == |es| || Names(es[from], name) then from else NamedFrom(es, name, from + 1)
  }

  /** An entry has an address among those before the first INADDR_NONE. */
  predicate HasAddr(addrs: seq<Addr>, addr: Addr) {
    addrs != [] && addrs[0] != INADDR_NONE && (addrs[0] == addr || HasAddr(addrs[1..], addr))
  }

  function FirstAt(es: seq<Entry>, addr: Addr): (i: nat)
    ensures i <= |es| && (i < |es| ==> HasAddr(es[i].addrs, addr))
    ensures forall k {:trigger HasAddr(es[k].addrs, addr)} :: 0 <= k < i ==> !HasAddr(es[k].addrs, addr)
  {
    AtFrom(es, addr, 0)
  }

  function AtFrom(es: seq<Entry>, addr: Addr, from: nat): (i: nat)
    requires from <= |es|
    ensures from <= i <= |es| && (i < |es| ==> HasAddr(es[i].addrs, addr))
    ensures forall k {:trigger HasAddr(es[k].addrs, addr)} :: from <= k < i ==> !HasAddr(es[k].addrs, addr)
    decreases |es| - from
  {
    if from == |es| || HasAddr(es[from].addrs, addr) then from else AtFrom(es, addr, from + 1)
  }

  predicate Expired(e: Entry, now: nat) {
    e.timeout != 0 && now > e.timeout
  }

  // ---------- add_hostent ----------

  /** The alternates end at the first impossible address. */
  function Alternates(alist: seq<Addr>): seq<Addr> {
    if alist == [] || alist[0] == INADDR_NONE || alist[0] == INADDR_ANY then [] else [alist[0]] + Alternates(alist[1..])
  }

  /** The entry that add_hostent writes: a name and its canonical name change places, and the life is clamped. */
  function Filled(name: string, cname: string, alist: seq<Addr>, addr: Addr, ttl: nat, at: nat, cacheLife: nat,
                  source: Source): Entry {
    var life := Min(ttl, cacheLife);
    Entry(if cname == "" then name else cname, if cname == "" then [] else [name], [addr] + Alternates(alist), ttl,
          if life == 0 then 0 else at + life, source)
  }

  /** The entry made of a reply. */
  function Made(s: Source, cacheLife: nat): Entry
    requires Stored(s)
  {
    match s
    case Asked(name, Resolved(ip, cname, alist, ttl), at) =>
      if ip == 0 then Filled(name, "", [], INADDR_NONE, cacheLife, at, cacheLife, s)
      else Filled(name, cname, alist, ip, ttl, at, cacheLife, s)
    case AskedBack(addr, Host(host, canon, life), when) => Filled(host, canon, [], addr, life, when, cacheLife, s)
    case AskedBack(addr, Unresolved, when) => Filled(UNKNOWN, "", [], addr, 0, when, cacheLife, s)
  }

  /** Replies that are stored: all but the interrupted ones. */
  predicate Stored(s: Source) {
    (s.Asked? && s.reply.Resolved?) || (s.AskedBack? && !s.back.Stopped?)
  }

  function Time(s: Source): nat {
    match s
    case HostsFile => 0
    case Asked(_, _, at) => at
    case AskedBack(_, _, when) => when
  }

  /** An expired entry is reused in its place; a new one goes to the head. */
  function Store(es: seq<Entry>, i: nat, e: Entry): (r: seq<Entry>)
    requires i <= |es|
  {
    if i < |es| then es[i := e] else [e] + es
  }

  // ---------- the lookups ----------

  /** The own name of this machine, by either of its sources. */
  function OwnName(c: Config, name: string): Option<string> {
    if c.hostname != "" && Same(name, c.hostname) then Some(c.hostname)
    else if c.our_name.Some? && Same(name, c.our_name.value) then c.our_name
    else None
  }

  /** gethostbyname_internal; `busy` is called_from_resolve. */
  function ByName(c: Config, es: seq<Entry>, name: string, now: nat, at: nat, reply: Reply,
                  busy: bool): (r: (seq<Entry>, Answer))
  {
    var i := FirstNamed(es, name);
    if c.aton(name).Some? then (es, Answer(true, name, [c.aton(name).value], false))
    else if i < |es| && !Expired(es[i], now) then
      (es, Answer(es[i].addrs != [] && es[i].addrs[0] != INADDR_NONE, es[i].name, es[i].addrs, false))
    else if i == |es| && OwnName(c, name).Some? then (es, Answer(true, OwnName(c, name).value, [c.hostid], false))
    else if busy then (es, NoAnswer)
    else if reply.Interrupted? then (es, NoAnswer.(asked := true))
    else
      var e := Made(Asked(name, reply, at), c.cacheLife);
      (Store(es, i, e), if reply.ip != 0 then Answer(true, e.name, e.addrs, true) else NoAnswer.(asked := true))
  }

  /** This machine's own address, and broadcasts. */
  function OwnAddr(c: Config, addr: Addr): Option<Answer> {
    if (addr == INADDR_ANY || addr == c.hostid) && c.our_name.Some? then
      Some(Answer(true, c.our_name.value, [c.hostid], false))
    else if addr == INADDR_NONE || c.directedBroadcast(addr) then Some(Answer(true, "broadcast", [addr], false))
    else None
  }

  /** gethostbyaddr_internal for an IPv4 address; `getai` is called_from_getai. */
  function ByAddr(c: Config, es: seq<Entry>, addr: Addr, now: nat, at: nat, back: Reverse,
                  getai: bool): (r: (seq<Entry>, Answer))
  {
    var i := if getai then |es| else FirstAt(es, addr);
    if OwnAddr(c, addr).Some? then (es, OwnAddr(c, addr).value)
    else if i < |es| && !Expired(es[i], now) then
      (es, Answer(es[i].name != UNKNOWN, es[i].name, es[i].addrs, false))
    else AskBack(c, es, i, addr, at, back)
  }

  /** What follows the question for an address. */
  function AskBack(c: Config, es: seq<Entry>, i: nat, addr: Addr, at: nat, back: Reverse): (r: (seq<Entry>, Answer))
    requires i <= |es|
  {
    if back.Stopped? then (es, NoAnswer.(asked := true))
    else
      var e := Made(AskedBack(addr, back, at), c.cacheLife);
      (Store(es, i, e), if back.Host? then Answer(true, e.name, e.addrs, true) else NoAnswer.(asked := true))
  }

  /** A line of a hosts file. */
  datatype Line = Line(addr: Addr, name: string, aliases: seq<string>)

  /** The entry that a line of a hosts file becomes. */
  function OfLine(line: Line): Entry {
    Entry(line.name, line.aliases, [line.addr], 0, 0, HostsFile)
  }

  /** ReadHostsFile: each line becomes an entry at the head, which never expires. */
  function ReadHosts(es: seq<Entry>, lines: seq<Line>): seq<Entry>
    decreases |lines|
  {
    if lines == [] then es
    else ReadHosts([OfLine(lines[0])] + es, lines[1..])
  }

  function Backwards(es: seq<Entry>): (r: seq<Entry>)
    ensures |r| == |es|
  {
    if es == [] then [] else Backwards(es[1..]) + [es[0]]
  }

  lemma {:induction false} BackwardsAt(es: seq<Entry>, i: nat)
    requires i < |es|
    ensures Backwards(es)[i] == es[|es| - 1 - i]
  {
    if i < |es| - 1 { BackwardsAt(es[1..], i); }
  }

  predicate AnyDynamic(es: seq<Entry>) {
    exists k :: 0 <= k < |es| && es[k].timeout > 0
  }

  /** ReverseHostsList: only when something in the list can expire. */
  function Reversed(es: seq<Entry>): seq<Entry> {
    if AnyDynamic(es) then Backwards(es) else es
  }

  // ---------- runs ----------

  datatype Cmd =
    | LookName(name: string, now: nat, at: nat, reply: Reply, busy: bool)
    | LookAddr(addr: Addr, now: nat, at: nat, back: Reverse, getai: bool)
    | ReadFile(lines: seq<Line>)
    | Dump
    | End

  /** The list, the clock, and every reply the resolver gave. */
  datatype State = State(es: seq<Entry>, clock: nat, log: seq<Source>)

  function Do(c: Config, st: State, cmd: Cmd): State {
    match cmd
    case LookName(name, now, at, reply, busy) =>
      var (es, a) := ByName(c, st.es, name, now, at, reply, busy);
      State(es, at, if a.asked then st.log + [Asked(name, reply, at)] else st.log)
    case LookAddr(addr, now, at, back, getai) =>
      var (es, a) := ByAddr(c, st.es, addr, now, at, back, getai);
      State(es, at, if a.asked then st.log + [AskedBack(addr, back, at)] else st.log)
    case ReadFile(lines) => st.(es := ReadHosts(st.es, lines))
    case Dump => st.(es := Reversed(st.es))
    case End => st.(es := [])
  }

  /** The clock does not go backwards. */
  predicate Timely(clock: nat, cmd: Cmd) {
    match cmd
    case LookName(_, now, at, _, _) => clock <= now <= at
    case LookAddr(_, now, at, _, _) => clock <= now <= at
    case _ => true
  }

  predicate AllTimely(c: Config, st: State, cmds: seq<Cmd>)
    decreases |cmds|
  {
    cmds == [] || (Timely(st.clock, cmds[0]) && AllTimely(c, Do(c, st, cmds[0]), cmds[1..]))
  }

  function Run(c: Config, st: State, cmds: seq<Cmd>): State
    decreases |cmds|
  {
    if cmds == [] then st else Run(c, Do(c, st, cmds[0]), cmds[1..])
  }

  // ---------- every entry is what a hosts file or a logged reply said ----------

  predicate Genuine(c: Config, st: State, e: Entry) {
    if e.source.HostsFile? then e.timeout == 0
    else Stored(e.source) && e.source in st.log && Time(e.source) <= st.clock && e == Made(e.source, c.cacheLife)
  }

  predicate Good(c: Config, st: State) {
    forall e {:trigger Genuine(c, st, e)} :: e in st.es ==> Genuine(c, st, e)
  }

  lemma StoreGood(c: Config, st: State, st': State, i: nat, e: Entry)
    requires Good(c, st) && i <= |st.es| && st.clock <= st'.clock && Genuine(c, st', e)
    requires forall s :: s in st.log ==> s in st'.log
    requires st'.es == Store(st.es, i, e)
    ensures Good(c, st')
  {
    forall d | d in st'.es
      ensures Genuine(c, st', d)
    {
      if d != e {
        assert d in st.es && Genuine(c, st, d);
      }
    }
  }

  lemma SameGood(c: Config, st: State, st': State)
    requires Good(c, st) && st.clock <= st'.clock
    requires forall s :: s in st.log ==> s in st'.log
    requires forall d :: d in st'.es ==> d in st.es
    ensures Good(c, st')
  {
    forall d | d in st'.es
      ensures Genuine(c, st', d)
    {
      assert Genuine(c, st, d);
    }
  }

  lemma {:induction false} ReadGood(c: Config, st: State, lines: seq<Line>)
    requires Good(c, st)
    ensures Good(c, st.(es := ReadHosts(st.es, lines)))
    decreases |lines|
  {
    if lines != [] {
      var e := OfLine(lines[0]);
      var st1 := st.(es := [e] + st.es);
      forall d | d in st1.es
        ensures Genuine(c, st1, d)
      {
        if d != e { assert d in st.es && Genuine(c, st, d); }
      }
      ReadGood(c, st1, lines[1..]);
    }
  }

  lemma DoGood(c: Config, st: State, cmd: Cmd)
    requires Good(c, st) && Timely(st.clock, cmd)
    ensures Good(c, Do(c, st, cmd))
  {
    var st' := Do(c, st, cmd);
    match cmd
    case LookName(name, now, at, reply, busy) =>
      if st'.es == st.es {
        SameGood(c, st, st');
      } else {
        StoreGood(c, st, st', FirstNamed(st.es, name), Made(Asked(name, reply, at), c.cacheLife));
      }
    case LookAddr(addr, now, at, back, getai) =>
      if st'.es == st.es {
        SameGood(c, st, st');
      } else {
        var i := if getai then |st.es| else FirstAt(st.es, addr);
        StoreGood(c, st, st', i, Made(AskedBack(addr, back, at), c.cacheLife));
      }
    case ReadFile(lines) => ReadGood(c, st, lines);
    case Dump =>
      forall d | d in st'.es
        ensures d in st.es
      {
        if AnyDynamic(st.es) {
          var k :| 0 <= k < |st'.es| && st'.es[k] == d;
          BackwardsAt(st.es, k);
        }
      }
      SameGood(c, st, st');
    case End =>
  }

  /** In every run each entry comes from a hosts file, or is what a reply in the log says, stored when it came. */
  lemma {:induction false} RunGood(c: Config, st: State, cmds: seq<Cmd>)
    requires Good(c, st) && AllTimely(c, st, cmds)
    ensures Good(c, Run(c, st, cmds))
    decreases |cmds|
  {
    if cmds != [] {
      DoGood(c, st, cmds[0]);
      RunGood(c, Do(c, st, cmds[0]), cmds[1..]);
    }
  }

  /** How long a reply is good: its own time to live, clamped. */
  function Life(c: Config, s: Source): nat {
    var ttl := match s
               case HostsFile => 0
               case Asked(_, Interrupted, _) => 0
               case Asked(_, Resolved(ip, _, _, ttl), _) => if ip == 0 then c.cacheLife else ttl
               case AskedBack(_, Host(_, _, life), _) => life
               case AskedBack(_, _, _) => 0;
    Min(ttl, c.cacheLife)
  }

  /** A reply that has not outlived its clamped time; one whose clamped time is 0 is kept for ever. */
  predicate Fresh(c: Config, s: Source, now: nat) {
    Life(c, s) == 0 || now <= Time(s) + Life(c, s)
  }

  /** A reply that is about this name: asked for it, or with it as the canonical or resolved name. */
  predicate About(s: Source, name: string) {
    match s
    case HostsFile => false
    case Asked(asked, Resolved(ip, cname, _, _), _) =>
      Same(asked, name) || (ip != 0 && cname != "" && Same(cname, name))
    case Asked(_, Interrupted, _) => false
    case AskedBack(_, Host(host, canon, _), _) => Same(host, name) || (canon != "" && Same(canon, name))
    case AskedBack(_, Unresolved, _) => Same(UNKNOWN, name)
    case AskedBack(_, Stopped, _) => false
  }

  lemma NamedByReply(s: Source, life: nat, name: string)
    requires Stored(s)
    ensures Names(Made(s, life), name) <==> About(s, name)
  {
    var e := Made(s, life);
    if e.aliases != [] {
      assert |e.aliases| == 1;
      assert Names(e, name) <==> Same(e.name, name) || Same(name, e.aliases[0]);
    }
  }

  /**
   * A name answered without asking the resolver: a literal address, the own name, an entry from a hosts file, or
   * what a logged reply about that name says, which is still fresh.
   */
  lemma AnsweredWithoutAsking(c: Config, st: State, name: string, now: nat, at: nat, reply: Reply, busy: bool)
    requires Good(c, st) && st.clock <= now
    requires var a := ByName(c, st.es, name, now, at, reply, busy).1; a.found && !a.asked
    ensures var a := ByName(c, st.es, name, now, at, reply, busy).1;
            || (c.aton(name) == Some(a.addrs[0]) && |a.addrs| == 1)
            || (OwnName(c, name) == Some(a.name) && a.addrs == [c.hostid])
            || (exists e :: e in st.es && e.source.HostsFile? && Names(e, name)
                            && a.name == e.name && a.addrs == e.addrs)
            || (exists s :: s in st.log && Stored(s) && About(s, name) && Fresh(c, s, now) && Time(s) <= now
                            && a.name == Made(s, c.cacheLife).name && a.addrs == Made(s, c.cacheLife).addrs)
  {
    var i := FirstNamed(st.es, name);
    if c.aton(name).None? && i < |st.es| {
      var e := st.es[i];
      assert Genuine(c, st, e);
      if !e.source.HostsFile? {
        NamedByReply(e.source, c.cacheLife, name);
        assert Fresh(c, e.source, now);
      }
    }
  }

  /**
   * A name with an entry is asked for again exactly when the first such entry is a reply that is no longer fresh:
   * nothing expires early, and nothing is used after it has expired.
   */
  lemma AskedIffStale(c: Config, st: State, name: string, now: nat, at: nat, reply: Reply)
    requires Good(c, st) && c.aton(name).None? && FirstNamed(st.es, name) < |st.es|
    ensures var (s, a) := (st.es[FirstNamed(st.es, name)].source, ByName(c, st.es, name, now, at, reply, false).1);
            a.asked <==> !s.HostsFile? && !Fresh(c, s, now)
  {
    assert Genuine(c, st, st.es[FirstNamed(st.es, name)]);
  }

  /** While it is fresh the list does not change either, whoever asks. */
  lemma NotAskedWhileFresh(c: Config, st: State, name: string, now: nat, at: nat, reply: Reply, busy: bool)
    requires Good(c, st)
    ensures var i := FirstNamed(st.es, name);
            i < |st.es| && (st.es[i].source.HostsFile? || Fresh(c, st.es[i].source, now)) ==>
              var (es, a) := ByName(c, st.es, name, now, at, reply, busy);
              es == st.es && !a.asked
  {
    var i := FirstNamed(st.es, name);
    if i < |st.es| {
      assert Genuine(c, st, st.es[i]);
    }
  }

  // ---------- negative caching ----------

  /** The first entry for the name is a stored failure, good until `until`, or for ever if that is 0. */
  predicate Denied(es: seq<Entry>, name: string, until: nat) {
    var i := FirstNamed(es, name);
    i < |es| && Same(es[i].name, name) && es[i].aliases == [] && es[i].addrs == [INADDR_NONE] && es[i].timeout == until
  }

  predicate InTime(now: nat, until: nat) {
    until == 0 || now <= until
  }

  /**
   * Neither a reply nor a hosts file brings news about the name while the failure is good; and the list is turned
   * round only if no other entry has the name.
   */
  predicate Quiet(cmd: Cmd, name: string, until: nat, sole: bool) {
    match cmd
    case LookName(asked, now, at, reply, _) =>
      InTime(now, until) && (Same(asked, name) || !About(Asked(asked, reply, at), name))
    case LookAddr(addr, now, at, back, _) => InTime(now, until) && !About(AskedBack(addr, back, at), name)
    case ReadFile(lines) => forall k :: 0 <= k < |lines| ==> !Names(OfLine(lines[k]), name)
    case Dump => sole
    case End => false
  }

  /** What stands while nothing new is heard: the stored failure, and whether it is the only entry with the name. */
  predicate Stands(es: seq<Entry>, name: string, until: nat, sole: bool) {
    Denied(es, name, until) && (sole ==> Sole(es, name))
  }

  lemma FirstIs(es: seq<Entry>, name: string, i: nat)
    requires i < |es| && Names(es[i], name) && Unnamed(es, name, 0, i)
    ensures FirstNamed(es, name) == i
  {
    var j := FirstNamed(es, name);
    assert !(j < i) && !(i < j);
  }

  /** However a name is spelt, the same entry is the first one for it. */
  lemma SameFirst(es: seq<Entry>, name: string, spelt: string)
    requires Same(spelt, name) && FirstNamed(es, name) < |es|
    ensures FirstNamed(es, spelt) == FirstNamed(es, name)
  {
    var i := FirstNamed(es, name);
    forall k | 0 <= k < i
      ensures !Names(es[k], spelt)
    {
      assert !Names(es[k], name);
    }
    FirstIs(es, spelt, i);
  }

  /** Storing something else leaves the failure where it is. */
  lemma DeniedStore(es: seq<Entry>, name: string, until: nat, sole: bool, j: nat, e: Entry)
    requires Stands(es, name, until, sole) && j <= |es| && j != FirstNamed(es, name) && !Names(e, name)
    ensures Stands(Store(es, j, e), name, until, sole)
  {
    var i, fs := FirstNamed(es, name), Store(es, j, e);
    var shift := if j < |es| then 0 else 1;
    forall k | 0 <= k < i + shift
      ensures !Names(fs[k], name)
    {
      if fs[k] != e { assert fs[k] == es[k - shift]; }
    }
    FirstIs(fs, name, i + shift);
    if sole {
      forall p, q | 0 <= p < q < |fs|
        ensures !(Names(fs[p], name) && Names(fs[q], name))
      {
        if fs[p] != e && fs[q] != e {
          assert fs[p] == es[p - shift] && fs[q] == es[q - shift];
        }
      }
    }
  }

  lemma {:induction false} DeniedHosts(es: seq<Entry>, name: string, until: nat, sole: bool, lines: seq<Line>)
    requires Stands(es, name, until, sole) && Quiet(ReadFile(lines), name, until, sole)
    ensures Stands(ReadHosts(es, lines), name, until, sole)
    decreases |lines|
  {
    if lines != [] {
      var e := OfLine(lines[0]);
      DeniedStore(es, name, until, sole, |es|, e);
      DeniedHosts([e] + es, name, until, sole, lines[1..]);
    }
  }

  lemma DeniedTurned(es: seq<Entry>, name: string, until: nat)
    requires Stands(es, name, until, true)
    ensures Stands(Reversed(es), name, until, true)
  {
    FirstBackwards(es, name);
    SoleBackwards(es, name);
  }

  lemma DeniedStep(c: Config, st: State, cmd: Cmd, name: string, until: nat, sole: bool)
    requires Stands(st.es, name, until, sole) && Quiet(cmd, name, until, sole)
    ensures Stands(Do(c, st, cmd).es, name, until, sole)
  {
    match cmd
    case LookName(asked, now, at, reply, busy) =>
      if Do(c, st, cmd).es != st.es {
        var e := Made(Asked(asked, reply, at), c.cacheLife);
        NamedByReply(Asked(asked, reply, at), c.cacheLife, name);
        if Same(asked, name) { SameFirst(st.es, name, asked); }
        DeniedStore(st.es, name, until, sole, FirstNamed(st.es, asked), e);
      }
    case LookAddr(addr, now, at, back, getai) =>
      if Do(c, st, cmd).es != st.es {
        var e := Made(AskedBack(addr, back, at), c.cacheLife);
        NamedByReply(AskedBack(addr, back, at), c.cacheLife, name);
        DeniedStore(st.es, name, until, sole, if getai then |st.es| else FirstAt(st.es, addr), e);
      }
    case ReadFile(lines) => DeniedHosts(st.es, name, until, sole, lines);
    case Dump => DeniedTurned(st.es, name, until);
  }

  lemma {:induction false} DeniedRun(c: Config, st: State, cmds: seq<Cmd>, name: string, until: nat, sole: bool)
    requires Stands(st.es, name, until, sole)
    requires forall k :: 0 <= k < |cmds| ==> Quiet(cmds[k], name, until, sole)
    ensures Stands(Run(c, st, cmds).es, name, until, sole)
    decreases |cmds|
  {
    if cmds != [] {
      DeniedStep(c, st, cmds[0], name, until, sole);
      DeniedRun(c, Do(c, st, cmds[0]), cmds[1..], name, until, sole);
    }
  }

  /** When a reply that is stored now stops being good; 0 is never. */
  function EndOf(c: Config, s: Source): nat
    requires Stored(s)
  {
    if Life(c, s) == 0 then 0 else Time(s) + Life(c, s)
  }

  /** What a lookup stores becomes the first entry for the name. */
  lemma StoredFirst(c: Config, es: seq<Entry>, name: string, now: nat, at: nat, reply: Reply)
    requires ByName(c, es, name, now, at, reply, false).1.asked && reply.Resolved?
    ensures var (fs, e) := (ByName(c, es, name, now, at, reply, false).0, Made(Asked(name, reply, at), c.cacheLife));
            FirstNamed(fs, name) < |fs| && fs[FirstNamed(fs, name)] == e
    ensures FirstNamed(es, name) == |es| ==> Sole(ByName(c, es, name, now, at, reply, false).0, name)
  {
    var i, s := FirstNamed(es, name), Asked(name, reply, at);
    var fs := Store(es, i, Made(s, c.cacheLife));
    NamedByReply(s, c.cacheLife, name);
    if i < |es| {
      forall k | 0 <= k < i
        ensures !Names(fs[k], name)
      {
        assert fs[k] == es[k];
      }
      FirstIs(fs, name, i);
    } else {
      FirstIs(fs, name, 0);
      forall p, q | 0 <= p < q < |fs|
        ensures !(Names(fs[p], name) && Names(fs[q], name))
      {
        assert fs[q] == es[q - 1];
      }
    }
  }

  /** A failed lookup that was not interrupted leaves its failure in the list. */
  lemma DeniedAtFirst(c: Config, es: seq<Entry>, name: string, now: nat, at: nat, reply: Reply)
    requires var a := ByName(c, es, name, now, at, reply, false).1; a.asked && !a.found && reply.Resolved?
    ensures Denied(ByName(c, es, name, now, at, reply, false).0, name, EndOf(c, Asked(name, reply, at)))
  {
    StoredFirst(c, es, name, now, at, reply);
  }

  lemma DeniedFails(c: Config, es: seq<Entry>, name: string, until: nat, spelt: string, now: nat, at: nat,
                    reply: Reply, busy: bool)
    requires Denied(es, name, until) && InTime(now, until) && Same(spelt, name) && c.aton(spelt).None?
    ensures var (fs, a) := ByName(c, es, spelt, now, at, reply, busy); !a.found && !a.asked && fs == es
  {
    SameFirst(es, name, spelt);
  }

  /**
   * After a lookup that failed without being interrupted, the same name, however spelt, fails without a question
   * until the failure expires, whatever else is looked up, if no reply or hosts file brings news about it; and when
   * no other entry has the name, also however often the list is turned round.
   */
  lemma FailureIsRemembered(c: Config, st: State, name: string, now: nat, at: nat, reply: Reply, cmds: seq<Cmd>,
                            sole: bool, spelt: string, later: nat, at': nat, reply': Reply, busy: bool)
    requires var (es, a) := ByName(c, st.es, name, now, at, reply, false);
             a.asked && !a.found && reply.Resolved? && (sole ==> Sole(es, name))
    requires var until := EndOf(c, Asked(name, reply, at));
             InTime(later, until) && forall k :: 0 <= k < |cmds| ==> Quiet(cmds[k], name, until, sole)
    requires Same(spelt, name) && c.aton(spelt).None?
    ensures var st' := Run(c, Do(c, st, LookName(name, now, at, reply, false)), cmds);
            var (es, a) := ByName(c, st'.es, spelt, later, at', reply', busy);
            !a.found && !a.asked && es == st'.es
  {
    var until := EndOf(c, Asked(name, reply, at));
    var st1 := Do(c, st, LookName(name, now, at, reply, false));
    DeniedAtFirst(c, st.es, name, now, at, reply);
    DeniedRun(c, st1, cmds, name, until, sole);
    DeniedFails(c, Run(c, st1, cmds).es, name, until, spelt, later, at', reply', busy);
  }

  /**
   * A reply whose clamped lifetime is 0 is kept for ever, not dropped at once: no later lookup of the name asks
   * again.
   */
  lemma ZeroLifeStays(c: Config, es: seq<Entry>, name: string, now: nat, at: nat, reply: Reply, later: nat, at': nat,
                      reply': Reply, busy: bool)
    requires ByName(c, es, name, now, at, reply, false).1.asked && reply.Resolved?
    requires Life(c, Asked(name, reply, at)) == 0
    ensures var (es', e) := (ByName(c, es, name, now, at, reply, false).0, Made(Asked(name, reply, at), c.cacheLife));
            var (fs, a) := ByName(c, es', name, later, at', reply', busy);
            !a.asked && fs == es' && a.name == e.name && a.addrs == e.addrs
  {
    StoredFirst(c, es, name, now, at, reply);
  }

  // ---------- what a lookup answers, from the reply alone ----------

  /** stricmp: only the case of ASCII letters may differ. */
  lemma {:induction false} SameIff(a: string, b: string)
    ensures Same(a, b) <==> |a| == |b| && forall i :: 0 <= i < |a| ==> SameChar(a[i], b[i])
  {
    LowerLength(a);
    LowerLength(b);
    if a != "" && b != "" {
      SameIff(a[1..], b[1..]);
      assert a == [a[0]] + a[1..] && b == [b[0]] + b[1..];
      assert Same(a, b) <==> LowerChar(a[0]) == LowerChar(b[0]) && Same(a[1..], b[1..]) by {
        assert Lower(a)[1..] == Lower(a[1..]) && Lower(b)[1..] == Lower(b[1..]);
      }
    }
  }

  predicate SameChar(x: char, y: char) {
    x == y || ('A' <= x <= 'Z' && y as int == x as int + 32) || ('A' <= y <= 'Z' && x as int == y as int + 32)
  }

  lemma {:induction false} LowerLength(a: string)
    ensures |Lower(a)| == |a|
  {
    if a != "" { LowerLength(a[1..]); }
  }

  /** The addresses of an entry count up to the first 255.255.255.255. */
  lemma {:induction false} HasAddrIff(addrs: seq<Addr>, addr: Addr)
    ensures HasAddr(addrs, addr) <==>
            addr != 0xFFFF_FFFF && exists k :: 0 <= k < |addrs| && addrs[k] == addr && 0xFFFF_FFFF !in addrs[..k]
  {
    if addrs != [] {
      var rest := addrs[1..];
      HasAddrIff(rest, addr);
      if HasAddr(rest, addr) && addrs[0] != 0xFFFF_FFFF {
        var k :| 0 <= k < |rest| && rest[k] == addr && 0xFFFF_FFFF !in rest[..k];
        assert addrs[..k + 1] == [addrs[0]] + rest[..k];
        assert addrs[k + 1] == addr;
      }
      if k :| 0 <= k < |addrs| && addrs[k] == addr && addr != 0xFFFF_FFFF && 0xFFFF_FFFF !in addrs[..k] {
        if k > 0 {
          assert addrs[0] in addrs[..k] && addrs[..k] == [addrs[0]] + rest[..k - 1];
          assert rest[k - 1] == addr;
        }
      }
      assert addrs[..0] == [];
    }
  }

  /** The alternates that are kept: those before the first 0.0.0.0 or 255.255.255.255. */
  lemma {:induction false} AlternatesAre(alist: seq<Addr>)
    ensures var k := |Alternates(alist)|;
            && k <= |alist| && Alternates(alist) == alist[..k]
            && 0 !in alist[..k] && 0xFFFF_FFFF !in alist[..k]
            && (k < |alist| ==> alist[k] == 0 || alist[k] == 0xFFFF_FFFF)
  {
    if alist != [] && alist[0] != INADDR_NONE && alist[0] != INADDR_ANY {
      AlternatesAre(alist[1..]);
      var k := |Alternates(alist)|;
      assert alist[..k] == [alist[0]] + alist[1..][..k - 1];
    }
  }

  /** What the caller of gethostbyname gets when the resolver is asked, and what is kept in the list. */
  lemma AskedName(c: Config, es: seq<Entry>, name: string, now: nat, at: nat, reply: Reply)
    requires ByName(c, es, name, now, at, reply, false).1.asked
    ensures var (fs, a) := ByName(c, es, name, now, at, reply, false);
            match reply
            case Interrupted => fs == es && !a.found
            case Resolved(ip, cname, alist, ttl) =>
              && (ip == 0 ==> !a.found)
              && (ip != 0 ==>
                   && a.found && a.name == (if cname == "" then name else cname)
                   && a.addrs != [] && a.addrs[0] == ip
                   && var k := |a.addrs| - 1;
                      && k <= |alist| && a.addrs[1..] == alist[..k] && 0 !in alist[..k] && 0xFFFF_FFFF !in alist[..k]
                      && (k < |alist| ==> alist[k] == 0 || alist[k] == 0xFFFF_FFFF))
              && FirstNamed(fs, name) < |fs|
              && (ip != 0 ==> fs[FirstNamed(fs, name)].name == a.name && fs[FirstNamed(fs, name)].addrs == a.addrs)
  {
    if reply.Resolved? {
      StoredFirst(c, es, name, now, at, reply);
      AlternatesAre(reply.alist);
    }
  }

  /** Of two things to live for, the shorter. */
  function Shorter(x: nat, y: nat): (r: nat)
    ensures r <= x && r <= y && (r == x || r == y)
  {
    if x < y then x else y
  }

  /**
   * Two lookups of a name, the second in any spelling: it asks again iff the first reply had a life, and is older than
   * that; else it gives the first answer again.
   */
  lemma NameTwice(c: Config, es: seq<Entry>, name: string, now: nat, at: nat, reply: Reply, spelt: string, later: nat,
                  at': nat, reply': Reply)
    requires ByName(c, es, name, now, at, reply, false).1.asked && reply.Resolved?
    requires Same(spelt, name) && c.aton(spelt).None?
    ensures var (fs, a) := ByName(c, es, name, now, at, reply, false);
            var (gs, b) := ByName(c, fs, spelt, later, at', reply', false);
            var life := if reply.ip == 0 then c.cacheLife else Shorter(reply.ttl, c.cacheLife);
            && (b.asked <==> 0 < life && at + life < later)
            && (!b.asked ==> gs == fs && (b.found <==> reply.ip != 0 && reply.ip != 0xFFFF_FFFF)
                             && (a.found ==> b.name == a.name && b.addrs == a.addrs))
  {
    StoredFirst(c, es, name, now, at, reply);
    SameFirst(ByName(c, es, name, now, at, reply, false).0, name, spelt);
  }

  /** A name that is in no entry: the resolver is asked unless it is a literal address, or the own name. */
  lemma AskedIffUnknown(c: Config, es: seq<Entry>, name: string, now: nat, at: nat, reply: Reply)
    requires forall e :: e in es ==> !Names(e, name)
    ensures var (fs, a) := ByName(c, es, name, now, at, reply, false);
            && (c.aton(name).Some? ==> fs == es && a == Answer(true, name, [c.aton(name).value], false))
            && (c.aton(name).None? && c.hostname != "" && Same(name, c.hostname) ==>
                  fs == es && a == Answer(true, c.hostname, [c.hostid], false))
            && (c.aton(name).None? && !(c.hostname != "" && Same(name, c.hostname)) &&
                c.our_name.Some? && Same(name, c.our_name.value) ==>
                  fs == es && a == Answer(true, c.our_name.value, [c.hostid], false))
            && (a.asked <==> c.aton(name).None? && !(c.hostname != "" && Same(name, c.hostname))
                             && !(c.our_name.Some? && Same(name, c.our_name.value)))
    ensures var (fs, a) := ByName(c, es, name, now, at, reply, true); fs == es && !a.asked
  {
    assert forall k :: 0 <= k < |es| ==> es[k] in es;
  }

  // ---------- lookups by address ----------

  /** The reply holds the address: it is one of those of the name asked for, or the one that was asked for. */
  predicate Holds(s: Source, addr: Addr) {
    match s
    case HostsFile => false
    case Asked(_, Interrupted, _) => false
    case Asked(_, Resolved(ip, _, alist, _), _) =>
      ip != 0 && ip != 0xFFFF_FFFF && (ip == addr || addr in Alternates(alist))
    case AskedBack(of, back, _) => !back.Stopped? && of == addr
  }

  lemma {:induction false} AlternatesHave(alist: seq<Addr>, addr: Addr)
    ensures HasAddr(Alternates(alist), addr) <==> addr in Alternates(alist)
  {
    if Alternates(alist) != [] {
      AlternatesHave(alist[1..], addr);
      assert Alternates(alist) == [alist[0]] + Alternates(alist[1..]);
    }
  }

  lemma HeldByReply(s: Source, life: nat, addr: Addr)
    requires Stored(s) && addr != INADDR_NONE
    ensures HasAddr(Made(s, life).addrs, addr) <==> Holds(s, addr)
  {
    var addrs := Made(s, life).addrs;
    match s
    case Asked(_, Resolved(ip, _, alist, _), _) =>
      if ip == 0 {
        assert addrs == [INADDR_NONE];
      } else {
        AlternatesHave(alist, addr);
        assert addrs == [ip] + Alternates(alist);
      }
    case AskedBack(of, back, _) =>
      assert addrs == [of];
  }

  /** 0.0.0.0 and the own address, if this machine has a name; and broadcasts. Nothing else is answered so. */
  lemma OwnAddress(c: Config, es: seq<Entry>, addr: Addr, now: nat, at: nat, back: Reverse, getai: bool)
    ensures var (fs, a) := ByAddr(c, es, addr, now, at, back, getai);
            && ((addr == 0 || addr == c.hostid) && c.our_name.Some? ==>
                  fs == es && a == Answer(true, c.our_name.value, [c.hostid], false))
            && (!((addr == 0 || addr == c.hostid) && c.our_name.Some?) &&
                (addr == 0xFFFF_FFFF || c.directedBroadcast(addr)) ==>
                  fs == es && a == Answer(true, "broadcast", [addr], false))
    ensures OwnAddr(c, addr).Some? <==>
              ((addr == 0 || addr == c.hostid) && c.our_name.Some?) || addr == 0xFFFF_FFFF || c.directedBroadcast(addr)
  {
  }

  /** The address is in the entry, whose data are the answer; it is a failure if the entry is one. */
  predicate AnswerOf(e: Entry, addr: Addr, a: Answer) {
    HasAddr(e.addrs, addr) && a == Answer(e.name != "*unknown*", e.name, e.addrs, false)
  }

  /**
   * An address answered without asking the resolver: the own address or a broadcast, an entry from a hosts file, or
   * what a logged reply that holds the address says, which is still fresh.
   */
  lemma AddrWithoutAsking(c: Config, st: State, addr: Addr, now: nat, at: nat, back: Reverse, getai: bool)
    requires Good(c, st) && st.clock <= now && OwnAddr(c, addr).None?
    requires !ByAddr(c, st.es, addr, now, at, back, getai).1.asked
    ensures var (fs, a) := ByAddr(c, st.es, addr, now, at, back, getai);
            && fs == st.es && !getai
            && ((exists e :: e in st.es && e.source.HostsFile? && AnswerOf(e, addr, a))
                || exists s :: s in st.log && Stored(s) && Holds(s, addr) && Fresh(c, s, now) && Time(s) <= now
                               && AnswerOf(Made(s, c.cacheLife), addr, a))
  {
    var e := st.es[FirstAt(st.es, addr)];
    assert Genuine(c, st, e);
    if !e.source.HostsFile? {
      HeldByReply(e.source, c.cacheLife, addr);
      assert Fresh(c, e.source, now);
    }
  }

  /**
   * An address with an entry is asked for again exactly when the first such entry is a reply that is no longer fresh;
   * for getnameinfo, and without an entry, it is always asked for.
   */
  lemma AddrAskedIffStale(c: Config, st: State, addr: Addr, now: nat, at: nat, back: Reverse)
    requires Good(c, st) && OwnAddr(c, addr).None?
    ensures var (i, a) := (FirstAt(st.es, addr), ByAddr(c, st.es, addr, now, at, back, false).1);
            a.asked <==> i == |st.es| || (!st.es[i].source.HostsFile? && !Fresh(c, st.es[i].source, now))
    ensures ByAddr(c, st.es, addr, now, at, back, true).1.asked
  {
    var i := FirstAt(st.es, addr);
    if i < |st.es| {
      assert Genuine(c, st, st.es[i]);
    }
  }

  /** What the caller of gethostbyaddr gets when the resolver is asked, and what is kept in the list. */
  lemma AskedAddr(c: Config, es: seq<Entry>, addr: Addr, now: nat, at: nat, back: Reverse, getai: bool)
    requires ByAddr(c, es, addr, now, at, back, getai).1.asked
    ensures var (fs, a) := ByAddr(c, es, addr, now, at, back, getai);
            match back
            case Stopped => fs == es && !a.found
            case Unresolved => !a.found && FirstAt(fs, addr) < |fs| && fs[FirstAt(fs, addr)].name == "*unknown*"
            case Host(host, canon, life) =>
              && a == Answer(true, if canon == "" then host else canon, [addr], true)
              && FirstAt(fs, addr) < |fs|
              && fs[FirstAt(fs, addr)].name == a.name && fs[FirstAt(fs, addr)].addrs == [addr]
  {
    if !back.Stopped? {
      AddrStoredFirst(c, es, addr, now, at, back, getai);
    }
  }

  lemma FirstAtIs(es: seq<Entry>, addr: Addr, i: nat)
    requires i < |es| && HasAddr(es[i].addrs, addr)
    requires forall k {:trigger HasAddr(es[k].addrs, addr)} :: 0 <= k < i ==> !HasAddr(es[k].addrs, addr)
    ensures FirstAt(es, addr) == i
  {
    var j := FirstAt(es, addr);
    assert !(j < i) && !(i < j);
  }

  /** What a reverse lookup stores becomes the first entry for the address. */
  lemma AddrStoredFirst(c: Config, es: seq<Entry>, addr: Addr, now: nat, at: nat, back: Reverse, getai: bool)
    requires ByAddr(c, es, addr, now, at, back, getai).1.asked && !back.Stopped?
    ensures var fs := ByAddr(c, es, addr, now, at, back, getai).0;
            FirstAt(fs, addr) < |fs| && fs[FirstAt(fs, addr)] == Made(AskedBack(addr, back, at), c.cacheLife)
  {
    var i := if getai then |es| else FirstAt(es, addr);
    var e := Made(AskedBack(addr, back, at), c.cacheLife);
    var fs := Store(es, i, e);
    assert e.addrs == [addr] && HasAddr(e.addrs, addr);
    if i < |es| {
      forall k | 0 <= k < i
        ensures !HasAddr(fs[k].addrs, addr)
      {
        assert fs[k] == es[k];
      }
      FirstAtIs(fs, addr, i);
    } else {
      FirstAtIs(fs, addr, 0);
    }
  }

  /**
   * Two lookups of an address: the second asks again iff the first reply named a host, had a life, and is older than
   * that; a failure is kept for ever.
   */
  lemma AddrTwice(c: Config, es: seq<Entry>, addr: Addr, now: nat, at: nat, back: Reverse, getai: bool, later: nat,
                  at': nat, back': Reverse)
    requires ByAddr(c, es, addr, now, at, back, getai).1.asked && !back.Stopped?
    ensures var (fs, a) := ByAddr(c, es, addr, now, at, back, getai);
            var (gs, b) := ByAddr(c, fs, addr, later, at', back', false);
            var life := if back.Host? then Shorter(back.life, c.cacheLife) else 0;
            && (b.asked <==> 0 < life && at + life < later)
            && (!b.asked ==> gs == fs && (b.found <==> a.found && a.name != "*unknown*")
                             && (a.found ==> b.name == a.name && b.addrs == a.addrs))
  {
    AddrStoredFirst(c, es, addr, now, at, back, getai);
  }

  /** The first entry for the address is a stored failure; they never expire. */
  predicate Nameless(es: seq<Entry>, addr: Addr) {
    var i := FirstAt(es, addr);
    i < |es| && es[i].name == UNKNOWN && es[i].addrs == [addr] && es[i].timeout == 0
  }

  predicate SoleAt(es: seq<Entry>, addr: Addr) {
    forall i, j {:trigger HasAddr(es[i].addrs, addr), HasAddr(es[j].addrs, addr)} :: 0 <= i < j < |es| ==>
      !(HasAddr(es[i].addrs, addr) && HasAddr(es[j].addrs, addr))
  }

  /** No reply to another question and no hosts file brings the address, and getnameinfo does not ask for it. */
  predicate QuietAt(cmd: Cmd, addr: Addr, sole: bool) {
    match cmd
    case LookName(asked, now, at, reply, _) => !Holds(Asked(asked, reply, at), addr)
    case LookAddr(of, _, _, _, getai) => of != addr || !getai
    case ReadFile(lines) => forall k :: 0 <= k < |lines| ==> lines[k].addr != addr
    case Dump => sole
    case End => false
  }

  predicate NamelessStands(es: seq<Entry>, addr: Addr, sole: bool) {
    Nameless(es, addr) && (sole ==> SoleAt(es, addr))
  }

  lemma NamelessStore(es: seq<Entry>, addr: Addr, sole: bool, j: nat, e: Entry)
    requires NamelessStands(es, addr, sole) && j <= |es| && j != FirstAt(es, addr) && !HasAddr(e.addrs, addr)
    ensures NamelessStands(Store(es, j, e), addr, sole)
  {
    var i, fs := FirstAt(es, addr), Store(es, j, e);
    var shift := if j < |es| then 0 else 1;
    forall k | 0 <= k < i + shift
      ensures !HasAddr(fs[k].addrs, addr)
    {
      if fs[k] != e { assert fs[k] == es[k - shift]; }
    }
    FirstAtIs(fs, addr, i + shift);
    if sole {
      forall p, q | 0 <= p < q < |fs|
        ensures !(HasAddr(fs[p].addrs, addr) && HasAddr(fs[q].addrs, addr))
      {
        if fs[p] != e && fs[q] != e {
          assert fs[p] == es[p - shift] && fs[q] == es[q - shift];
        }
      }
    }
  }

  lemma {:induction false} NamelessHosts(es: seq<Entry>, addr: Addr, sole: bool, lines: seq<Line>)
    requires NamelessStands(es, addr, sole) && QuietAt(ReadFile(lines), addr, sole)
    ensures NamelessStands(ReadHosts(es, lines), addr, sole)
    decreases |lines|
  {
    if lines != [] {
      var e := OfLine(lines[0]);
      assert e.addrs == [lines[0].addr] && !HasAddr(e.addrs[1..], addr);
      NamelessStore(es, addr, sole, |es|, e);
      NamelessHosts([e] + es, addr, sole, lines[1..]);
    }
  }

  lemma NamelessTurned(es: seq<Entry>, addr: Addr)
    requires NamelessStands(es, addr, true)
    ensures NamelessStands(Backwards(es), addr, true)
  {
    var i, n, rs := FirstAt(es, addr), |es|, Backwards(es);
    BackwardsAt(es, n - 1 - i);
    forall k | 0 <= k < n - 1 - i
      ensures !HasAddr(rs[k].addrs, addr)
    {
      BackwardsAt(es, k);
      assert i < n - 1 - k;
    }
    FirstAtIs(rs, addr, n - 1 - i);
    forall p, q | 0 <= p < q < n
      ensures !(HasAddr(rs[p].addrs, addr) && HasAddr(rs[q].addrs, addr))
    {
      BackwardsAt(es, p);
      BackwardsAt(es, q);
      assert !(HasAddr(es[n - 1 - q].addrs, addr) && HasAddr(es[n - 1 - p].addrs, addr));
    }
  }

  lemma NamelessName(c: Config, es: seq<Entry>, addr: Addr, sole: bool, asked: string, now: nat, at: nat,
                     reply: Reply, busy: bool)
    requires NamelessStands(es, addr, sole) && addr != INADDR_NONE && !Holds(Asked(asked, reply, at), addr)
    ensures NamelessStands(ByName(c, es, asked, now, at, reply, busy).0, addr, sole)
  {
    if ByName(c, es, asked, now, at, reply, busy).0 != es {
      HeldByReply(Asked(asked, reply, at), c.cacheLife, addr);
      NamelessStore(es, addr, sole, FirstNamed(es, asked), Made(Asked(asked, reply, at), c.cacheLife));
    }
  }

  lemma NamelessAddr(c: Config, es: seq<Entry>, addr: Addr, sole: bool, of: Addr, now: nat, at: nat, back: Reverse,
                     getai: bool)
    requires NamelessStands(es, addr, sole) && addr != INADDR_NONE && (of != addr || !getai)
    ensures NamelessStands(ByAddr(c, es, of, now, at, back, getai).0, addr, sole)
  {
    if ByAddr(c, es, of, now, at, back, getai).0 != es {
      HeldByReply(AskedBack(of, back, at), c.cacheLife, addr);
      var i := if getai then |es| else FirstAt(es, of);
      NamelessStore(es, addr, sole, i, Made(AskedBack(of, back, at), c.cacheLife));
    }
  }

  lemma NamelessStep(c: Config, st: State, cmd: Cmd, addr: Addr, sole: bool)
    requires NamelessStands(st.es, addr, sole) && QuietAt(cmd, addr, sole) && addr != INADDR_NONE
    ensures NamelessStands(Do(c, st, cmd).es, addr, sole)
  {
    match cmd
    case LookName(asked, now, at, reply, busy) => NamelessName(c, st.es, addr, sole, asked, now, at, reply, busy);
    case LookAddr(of, now, at, back, getai) => NamelessAddr(c, st.es, addr, sole, of, now, at, back, getai);
    case ReadFile(lines) => NamelessHosts(st.es, addr, sole, lines);
    case Dump => NamelessTurned(st.es, addr);
  }

  lemma {:induction false} NamelessRun(c: Config, st: State, cmds: seq<Cmd>, addr: Addr, sole: bool)
    requires NamelessStands(st.es, addr, sole) && addr != INADDR_NONE
    requires forall k :: 0 <= k < |cmds| ==> QuietAt(cmds[k], addr, sole)
    ensures NamelessStands(Run(c, st, cmds).es, addr, sole)
    decreases |cmds|
  {
    if cmds != [] {
      NamelessStep(c, st, cmds[0], addr, sole);
      NamelessRun(c, Do(c, st, cmds[0]), cmds[1..], addr, sole);
    }
  }

  /**
   * After a reverse lookup that failed without being interrupted, every later one of the address fails without a
   * question, at any time, whatever else is looked up, if nothing else brings the address; and when no other entry has
   * the address, also however often the list is turned round.
   */
  lemma NamelessIsRemembered(c: Config, st: State, addr: Addr, now: nat, at: nat, getai: bool, cmds: seq<Cmd>,
                             sole: bool, later: nat, at': nat, back': Reverse)
    requires ByAddr(c, st.es, addr, now, at, Unresolved, getai).1.asked
    requires sole ==> SoleAt(ByAddr(c, st.es, addr, now, at, Unresolved, getai).0, addr)
    requires forall k :: 0 <= k < |cmds| ==> QuietAt(cmds[k], addr, sole)
    ensures var st' := Run(c, Do(c, st, LookAddr(addr, now, at, Unresolved, getai)), cmds);
            var (es, a) := ByAddr(c, st'.es, addr, later, at', back', false);
            !a.found && !a.asked && es == st'.es
  {
    var st1 := Do(c, st, LookAddr(addr, now, at, Unresolved, getai));
    AddrStoredFirst(c, st.es, addr, now, at, Unresolved, getai);
    NamelessRun(c, st1, cmds, addr, sole);
  }

  // ---------- hosts files ----------

  /** The lines of a hosts file come first, the last of them before the others; they never expire. */
  lemma {:induction false} ReadHostsAt(es: seq<Entry>, lines: seq<Line>, k: nat)
    requires k < |lines| + |es|
    ensures |ReadHosts(es, lines)| == |lines| + |es|
    ensures var e := ReadHosts(es, lines)[k];
            if k < |lines| then
              var l := lines[|lines| - 1 - k]; e == Entry(l.name, l.aliases, [l.addr], 0, 0, HostsFile)
            else e == es[k - |lines|]
    decreases |lines|
  {
    if lines != [] {
      var fs := [OfLine(lines[0])] + es;
      ReadHostsAt(fs, lines[1..], k);
    }
  }

  // ---------- the order of the list ----------

  /** Turning the list round changes no answer for a name that at most one entry has. */
  lemma ReversedAlike(c: Config, es: seq<Entry>, name: string, now: nat, at: nat, reply: Reply, busy: bool)
    requires Sole(es, name)
    ensures ByName(c, Reversed(es), name, now, at, reply, busy).1 == ByName(c, es, name, now, at, reply, busy).1
  {
    FirstBackwards(es, name);
    AnswerByFirst(c, es, Reversed(es), name, now, at, reply, busy);
  }

  lemma ReversedTwice(es: seq<Entry>)
    ensures Reversed(Reversed(es)) == es
  {
    BackwardsTwice(es);
  }

  /** An answer depends on the first entry with the name. */
  lemma AnswerByFirst(c: Config, es: seq<Entry>, fs: seq<Entry>, name: string, now: nat, at: nat, reply: Reply,
                      busy: bool)
    requires var (i, j) := (FirstNamed(es, name), FirstNamed(fs, name));
             if i < |es| then j < |fs| && fs[j] == es[i] else j == |fs|
    ensures ByName(c, fs, name, now, at, reply, busy).1 == ByName(c, es, name, now, at, reply, busy).1
  {
  }

  /** The only entry with a name is the first one with it in either direction. */
  lemma FirstBackwards(es: seq<Entry>, name: string)
    requires Sole(es, name)
    ensures var (i, j) := (FirstNamed(es, name), FirstNamed(Backwards(es), name));
            if i < |es| then j < |es| && Backwards(es)[j] == es[i] else j == |es|
  {
    var i, n, rs := FirstNamed(es, name), |es|, Backwards(es);
    if i < n {
      BackwardsAt(es, n - 1 - i);
      forall k | 0 <= k < n - 1 - i
        ensures !Names(rs[k], name)
      {
        BackwardsAt(es, k);
        assert i < n - 1 - k;
      }
      FirstIs(rs, name, n - 1 - i);
    } else {
      forall k | 0 <= k < n
        ensures !Names(rs[k], name)
      {
        BackwardsAt(es, k);
      }
    }
  }

  lemma SoleBackwards(es: seq<Entry>, name: string)
    requires Sole(es, name)
    ensures Sole(Backwards(es), name)
  {
    var n, rs := |es|, Backwards(es);
    forall p, q | 0 <= p < q < n
      ensures !(Names(rs[p], name) && Names(rs[q], name))
    {
      BackwardsAt(es, p);
      BackwardsAt(es, q);
      assert !(Names(es[n - 1 - q], name) && Names(es[n - 1 - p], name));
    }
  }

  lemma BackwardsTwice(es: seq<Entry>)
    ensures Backwards(Backwards(es)) == es
    ensures AnyDynamic(Backwards(es)) <==> AnyDynamic(es)
  {
    var rs, n := Backwards(es), |es|;
    forall k | 0 <= k < n
      ensures Backwards(rs)[k] == es[k] && rs[n - 1 - k] == es[k]
    {
      BackwardsAt(rs, k);
      BackwardsAt(es, n - 1 - k);
    }
    if k :| 0 <= k < n && es[k].timeout > 0 {
      assert rs[n - 1 - k].timeout > 0;
    }
    if k :| 0 <= k < n && rs[k].timeout > 0 {
      assert es[n - 1 - k].timeout > 0 by { BackwardsAt(es, k); }
    }
  }
}
