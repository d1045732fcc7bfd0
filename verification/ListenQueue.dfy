/**
 * The queue of half-open connections behind a listening socket (src/accept.c, src/close.c). The TCP
 * engine is the environment: a tick may change connection blocks and hand a new one to SockAppend.
 */
module ListenQueue {
  import opened Basics

  const SOMAXCONN: nat := 32
  const ESTAB: nat := 4
  const ESTCL: nat := 5
  const CLOSED: nat := 12

  /** A transmission control block: one TCP connection. */
  class Tcb {
    var state: nat
    var ip_type: nat
    var hisaddr: nat
    var hisport: nat
    var myaddr: nat
    var send_next: nat
    var unhappy: bool
    var rx_datalen: nat
    var is_server: bool

    constructor (state: nat, ip_type: nat, rx_datalen: nat, is_server: bool)
      ensures this.state == state && this.ip_type == ip_type
      ensures this.rx_datalen == rx_datalen && this.is_server == is_server
    {
      this.state, this.ip_type, this.rx_datalen, this.is_server := state, ip_type, rx_datalen, is_server;
      hisaddr, hisport, myaddr, send_next, unhappy := 0, 0, 0, 0, false;
    }

    /** A copy of another block. */
    constructor Copy(orig: Tcb)
      ensures SameAs(orig.state, orig.ip_type, orig.hisaddr, orig.hisport, orig.myaddr, orig.send_next, orig.unhappy)
    {
      state, ip_type, hisaddr, hisport, myaddr := orig.state, orig.ip_type, orig.hisaddr, orig.hisport, orig.myaddr;
      send_next, unhappy, rx_datalen, is_server := orig.send_next, orig.unhappy, orig.rx_datalen, orig.is_server;
    }

    ghost predicate SameAs(state: nat, ip_type: nat, hisaddr: nat, hisport: nat, myaddr: nat, send_next: nat,
                           unhappy: bool)
      reads this
    {
      && this.state == state && this.ip_type == ip_type && this.hisaddr == hisaddr && this.hisport == hisport
      && this.myaddr == myaddr && this.send_next == send_next && this.unhappy == unhappy
    }
  }

  /** A socket made by accept. */
  datatype Conn = Conn(tcb: Tcb, nbio: bool, timeout: nat, connected: bool, listening: bool, acceptconn: bool,
                       remote: Option<(nat, nat)>)

  /** What the engine may do in a tick; `who` counts from the head of the list of all blocks. */
  datatype Event =
    | Syn(addr: nat, port: nat, mine: nat, time: nat, iss: nat, nomem: bool)
    | Move(who: nat, state: nat, ip_type: nat, rx_datalen: nat)
    | Drop(who: nat)

  /** One turn of the accept loop, seen from outside. */
  datatype Tick = Tick(events: seq<Event>, signal: bool, expired: bool)

  /** Where an appended block has come to. */
  datatype Owner = InSlot(i: nat) | InSocket(fd: nat) | Reaped | Aborted

  /** How often a block was appended, handed out by accept, reaped, aborted while queued, and closed with its socket. */
  datatype Counts = Counts(appended: nat, accepted: nat, reaped: nat, aborted: nat, closed: nat)

  /** What the program did with a block, recorded where it did it. */
  datatype Deed =
    | Appended(t: Tcb, at: nat)
    | HandedTo(t: Tcb, sock: nat)
    | WasReaped(t: Tcb)
    | WasAborted(t: Tcb)
    | WasClosed(t: Tcb)

  ghost predicate Freed(o: Owner) { o.Reaped? || o.Aborted? }

  datatype Errno = EOPNOTSUPP | ENOTSOCK | ENOTCONN | EINVAL | EFAULT | EINTR | EWOULDBLOCK | ETIMEDOUT | ENOFD | ENOMEM

  datatype Accepted = NewSock(fd: nat) | Fail(errno: Errno) | StillWaiting

  datatype Op =
    | OpTick(events: seq<Event>)
    | OpAccept(env: seq<Tick>, room: bool, sig_ok: bool, fd: Option<nat>, nomem: bool)
    | OpClose
    | OpDelFd(made: nat)

  datatype LoopEnd = Found | Ended(errno: Errno) | OutOfTicks

  /** What accept saw in a slot, after the tick of that turn. */
  datatype Poll = Poll(idx: nat, sk: Tcb?, state: nat, ip_type: nat)

  datatype Verdict = Reap | Take | Pass

  ghost function Judge(p: Poll): Verdict {
    if p.sk == null then Pass
    else if p.state >= ESTCL && p.ip_type == 0 then Reap
    else if ESTAB <= p.state < CLOSED then Take
    else Pass
  }

  /** The slots are visited in turn, beginning with slot 0. */
  ghost predicate InTurn(polls: seq<Poll>, maxconn: nat) {
    && (polls != [] ==> polls[0].idx == 0)
    && (forall k :: 0 <= k < |polls| ==> polls[k].idx < maxconn)
    && (forall k {:trigger Turn(polls, k, maxconn)} :: 0 <= k < |polls| - 1 ==> Turn(polls, k, maxconn))
  }

  ghost predicate Turn(polls: seq<Poll>, k: nat, maxconn: nat)
    requires k < |polls| - 1
  {
    polls[k + 1].idx == if polls[k].idx + 1 == maxconn then 0 else polls[k].idx + 1
  }

  /** The blocks that were reaped in the first `k` of these turns. */
  ghost function ReapedIn(polls: seq<Poll>, k: nat): set<Tcb?>
    requires k <= |polls|
  {
    set j | 0 <= j < k && Judge(polls[j]).Reap? :: polls[j].sk
  }

  lemma ReapedMore(polls: seq<Poll>, p: Poll)
    ensures forall k {:trigger ReapedIn(polls, k)} :: 0 <= k <= |polls| ==>
              ReapedIn(polls + [p], k) == ReapedIn(polls, k)
    ensures ReapedIn(polls + [p], |polls| + 1) == ReapedIn(polls, |polls|) + if Judge(p).Reap? then {p.sk} else {}
  {
    var all := polls + [p];
    forall k {:trigger ReapedIn(polls, k)} | 0 <= k <= |polls|
      ensures ReapedIn(all, k) == ReapedIn(polls, k)
    {
      assert forall j :: 0 <= j < k ==> all[j] == polls[j];
    }
    assert forall j :: 0 <= j < |polls| ==> all[j] == polls[j];
    var more := ReapedIn(polls, |polls|) + if Judge(p).Reap? then {p.sk} else {};
    forall t | t in more
      ensures t in ReapedIn(all, |polls| + 1)
    {
      if t in ReapedIn(polls, |polls|) {
        var j :| 0 <= j < |polls| && Judge(polls[j]).Reap? && polls[j].sk == t;
        assert all[j].sk == t;
      } else {
        assert all[|polls|].sk == t;
      }
    }
  }

  /** A poll saw the block that was in the slot at the start, unless it had been reaped by then. */
  ghost predicate SawFirst(polls: seq<Poll>, k: nat, queue: seq<Tcb?>)
    requires k < |polls| && polls[k].idx < |queue|
  {
    var t := queue[polls[k].idx];
    t != null && t !in ReapedIn(polls, k) ==> polls[k].sk == t
  }

  /** How one turn ends: OutOfTicks when the loop goes on. */
  ghost predicate TurnEnd(end: LoopEnd, p: Poll, tick: Tick, backlog: nat, nbio: bool, timed: bool) {
    if tick.signal then end == Ended(EINTR)
    else match Judge(p)
      case Reap => end == OutOfTicks
      case Take => end == Found
      case Pass =>
        if nbio && p.idx == backlog - 1 then end == Ended(EWOULDBLOCK)
        else if timed && tick.expired then end == Ended(ETIMEDOUT)
        else end == OutOfTicks
  }

  ghost function NextIdx(polls: seq<Poll>, backlog: nat): nat {
    if polls == [] then 0
    else if polls[|polls| - 1].idx + 1 == backlog then 0
    else polls[|polls| - 1].idx + 1
  }

  ghost predicate WentOn(polls: seq<Poll>, k: nat, env: seq<Tick>, backlog: nat, nbio: bool, timed: bool)
    requires k < |polls| <= |env|
  {
    TurnEnd(OutOfTicks, polls[k], env[k], backlog, nbio, timed)
  }

  /** Turns that did not end the loop, over a queue that held `queue` at the start. */
  ghost predicate WentThrough(polls: seq<Poll>, env: seq<Tick>, queue: seq<Tcb?>, backlog: nat, nbio: bool, timed: bool)
  {
    && |polls| <= |env| && backlog <= |queue| && InTurn(polls, backlog)
    && (forall k {:trigger SawFirst(polls, k, queue)} :: 0 <= k < |polls| ==> SawFirst(polls, k, queue))
    && (forall k {:trigger WentOn(polls, k, env, backlog, nbio, timed)} :: 0 <= k < |polls| ==>
          WentOn(polls, k, env, backlog, nbio, timed))
  }

  /** The polls of a whole loop that ended in this way. */
  ghost predicate Story(end: LoopEnd, polls: seq<Poll>, env: seq<Tick>, queue: seq<Tcb?>, backlog: nat, nbio: bool,
                        timed: bool)
  {
    if end.OutOfTicks? then WentThrough(polls, env, queue, backlog, nbio, timed)
    else if end == Ended(EINTR) then
      |polls| < |env| && env[|polls|].signal && WentThrough(polls, env, queue, backlog, nbio, timed)
    else
      && 0 < |polls| <= |env| && WentThrough(polls[..|polls| - 1], env, queue, backlog, nbio, timed)
      && InTurn(polls, backlog) && backlog <= |queue| && SawFirst(polls, |polls| - 1, queue)
      && TurnEnd(end, polls[|polls| - 1], env[|polls| - 1], backlog, nbio, timed)
  }

  ghost function Dead(end: LoopEnd, p: Poll): set<Tcb?> {
    if end != Ended(EINTR) && Judge(p).Reap? then {p.sk} else {}
  }

  lemma StoryMore(end: LoopEnd, polls: seq<Poll>, p: Poll, env: seq<Tick>, queue: seq<Tcb?>, backlog: nat,
                  nbio: bool, timed: bool)
    returns (all: seq<Poll>)
    requires WentThrough(polls, env, queue, backlog, nbio, timed) && |polls| < |env|
    requires p.idx == NextIdx(polls, backlog) < backlog
    requires end != Ended(EINTR) && queue[p.idx] != null && queue[p.idx] !in ReapedIn(polls, |polls|) ==>
              p.sk == queue[p.idx]
    requires TurnEnd(end, p, env[|polls|], backlog, nbio, timed)
    ensures Story(end, all, env, queue, backlog, nbio, timed)
    ensures ReapedIn(all, |all|) == ReapedIn(polls, |polls|) + Dead(end, p)
    ensures end == OutOfTicks ==>
              && |all| == |polls| + 1
              && NextIdx(all, backlog) == if p.idx + 1 == backlog then 0 else p.idx + 1
    ensures end == Found ==> all[|all| - 1] == p
  {
    if end == Ended(EINTR) { return polls; }
    all := polls + [p];
    InTurnMore(polls, p, backlog);
    ReapedMore(polls, p);
    assert all[..|all| - 1] == polls;
    forall k {:trigger SawFirst(all, k, queue)} | 0 <= k <= |polls|
      ensures SawFirst(all, k, queue)
    {
      if k < |polls| {
        assert SawFirst(polls, k, queue);
      }
    }
    if end.OutOfTicks? {
      forall k {:trigger WentOn(all, k, env, backlog, nbio, timed)} | 0 <= k <= |polls|
        ensures WentOn(all, k, env, backlog, nbio, timed)
      {
        if k < |polls| { assert WentOn(polls, k, env, backlog, nbio, timed); }
      }
    }
  }

  lemma InTurnMore(polls: seq<Poll>, p: Poll, maxconn: nat)
    requires InTurn(polls, maxconn) && p.idx == NextIdx(polls, maxconn) < maxconn
    ensures InTurn(polls + [p], maxconn)
  {
    var all := polls + [p];
    forall k {:trigger Turn(all, k, maxconn)} | 0 <= k < |all| - 1
      ensures Turn(all, k, maxconn)
    {
      if k < |polls| - 1 { assert Turn(polls, k, maxconn); }
    }
  }

  /** The last polls went over every slot up to the last one visited. */
  lemma {:induction false} LastPass(polls: seq<Poll>, maxconn: nat, j: nat)
    requires InTurn(polls, maxconn) && polls != [] && polls[|polls| - 1].idx == j
    ensures j < |polls|
    ensures forall k {:trigger polls[k]} :: |polls| - 1 - j <= k < |polls| ==> polls[k].idx == k - (|polls| - 1 - j)
    decreases |polls|
  {
    if j > 0 {
      var init := polls[..|polls| - 1];
      assert |polls| > 1 && Turn(polls, |polls| - 2, maxconn);
      forall k {:trigger Turn(init, k, maxconn)} | 0 <= k < |init| - 1
        ensures Turn(init, k, maxconn)
      {
        assert Turn(polls, k, maxconn);
      }
      LastPass(init, maxconn, j - 1);
      forall k {:trigger polls[k]} | |polls| - 1 - j <= k < |polls|
        ensures polls[k].idx == k - (|polls| - 1 - j)
      {
        if k < |init| { assert init[k] == polls[k]; }
      }
    }
  }

  /** In the last `backlog` polls slot `i` was looked at in its turn, and no connected block was in it. */
  ghost predicate PassedBy(polls: seq<Poll>, i: nat, queue: seq<Tcb?>, backlog: nat)
    requires i < backlog <= |polls| && backlog <= |queue|
  {
    var k := |polls| - backlog + i;
    && polls[k].idx == i && !Judge(polls[k]).Take?
    && (queue[i] != null && queue[i] !in ReapedIn(polls, k) ==> polls[k].sk == queue[i])
  }

  /** EWOULDBLOCK: non-blocking, and every slot was looked at in one pass, without a connected block in it. */
  lemma WouldBlockAfterFullPass(polls: seq<Poll>, env: seq<Tick>, queue: seq<Tcb?>, backlog: nat, nbio: bool,
                                timed: bool)
    requires 0 < backlog && Story(Ended(EWOULDBLOCK), polls, env, queue, backlog, nbio, timed)
    ensures nbio && backlog <= |polls| && backlog <= |queue|
    ensures forall i {:trigger PassedBy(polls, i, queue, backlog)} :: 0 <= i < backlog ==>
              PassedBy(polls, i, queue, backlog)
  {
    var n := |polls|;
    LastPass(polls, backlog, backlog - 1);
    var init := polls[..n - 1];
    forall i {:trigger PassedBy(polls, i, queue, backlog)} | 0 <= i < backlog
      ensures PassedBy(polls, i, queue, backlog)
    {
      var k := n - backlog + i;
      if k < n - 1 {
        assert WentOn(init, k, env, backlog, nbio, timed) && SawFirst(init, k, queue);
        SameReaped(polls, n - 1, k);
      }
    }
  }

  lemma SameReaped(polls: seq<Poll>, n: nat, k: nat)
    requires k <= n <= |polls|
    ensures ReapedIn(polls[..n], k) == ReapedIn(polls, k)
  {
    assert forall j :: 0 <= j < k ==> polls[..n][j] == polls[j];
  }

  /** The block found was the first connected one that the loop looked at; each dead one before it was reaped. */
  lemma FoundIsFirst(polls: seq<Poll>, env: seq<Tick>, queue: seq<Tcb?>, backlog: nat, nbio: bool, timed: bool)
    requires Story(Found, polls, env, queue, backlog, nbio, timed)
    ensures var p := polls[|polls| - 1]; ESTAB <= p.state < CLOSED && p.sk != null
    ensures forall k :: 0 <= k < |polls| - 1 ==>
              var p := polls[k];
              p.sk != null && ESTAB <= p.state < CLOSED ==> p.sk in ReapedIn(polls, |polls|) && p.ip_type == 0
  {
    var init := polls[..|polls| - 1];
    forall k | 0 <= k < |polls| - 1
      ensures var p := polls[k];
              p.sk != null && ESTAB <= p.state < CLOSED ==> p.sk in ReapedIn(polls, |polls|) && p.ip_type == 0
    {
      assert WentOn(init, k, env, backlog, nbio, timed);
    }
  }

  /** A connection from ESTAB (4) on, that is not CLOSED (12), and not dead: past ESTAB without an ip_type. */
  predicate Connected(state: nat, ip_type: nat) {
    4 <= state < 12 && !(5 <= state && ip_type == 0)
  }

  /** What each end of the loop tells about its last turn, and that no turn before it could have ended the loop. */
  lemma EndOfLoop(end: LoopEnd, polls: seq<Poll>, env: seq<Tick>, queue: seq<Tcb?>, backlog: nat, nbio: bool,
                  timed: bool)
    requires 0 < backlog && Story(end, polls, env, queue, backlog, nbio, timed)
    ensures match end
            case OutOfTicks => true
            case Found =>
              var p := polls[|polls| - 1]; p.sk != null && Connected(p.state, p.ip_type) && !env[|polls| - 1].signal
            case Ended(errno) =>
              if errno == EINTR then |polls| < |env| && env[|polls|].signal
              else
                && polls != [] && !env[|polls| - 1].signal
                && var p := polls[|polls| - 1];
                && (p.sk == null || !Connected(p.state, p.ip_type))
                && (errno == EWOULDBLOCK <==> nbio && p.idx == backlog - 1)
                && (errno != EWOULDBLOCK ==> errno == ETIMEDOUT && timed && env[|polls| - 1].expired)
    ensures forall k :: 0 <= k < |polls| - 1 ==>
              var p := polls[k];
              && !env[k].signal && (p.sk == null || !Connected(p.state, p.ip_type))
              && (p.sk == null || p.state < 5 || p.ip_type != 0 ==>
                    !(nbio && p.idx == backlog - 1) && !(timed && env[k].expired))
  {
    var init := if end.OutOfTicks? || end == Ended(EINTR) then polls else polls[..|polls| - 1];
    forall k | 0 <= k < |polls| - 1
      ensures var p := polls[k];
              && !env[k].signal && (p.sk == null || !Connected(p.state, p.ip_type))
              && (p.sk == null || p.state < 5 || p.ip_type != 0 ==>
                    !(nbio && p.idx == backlog - 1) && !(timed && env[k].expired))
    {
      assert WentOn(init, k, env, backlog, nbio, timed);
    }
  }

  /**
   * When a poll finds a closed block in its slot, the block is reaped exactly when its ip_type is 0; otherwise it is
   * neither reaped nor accepted, and the turn passes it by. _tcp_unthread keeps a nonzero ip_type when there are unread
   * data and the connection was at most established.
   */
  lemma ClosedBlock(polls: seq<Poll>, k: nat)
    requires k < |polls| && polls[k].sk != null && polls[k].state == CLOSED && polls[k].sk !in ReapedIn(polls, k)
    ensures polls[k].sk in ReapedIn(polls, k + 1) <==> polls[k].ip_type == 0
    ensures polls[k].ip_type != 0 ==> Judge(polls[k]).Pass?
  {
    if polls[k].ip_type == 0 {
      assert Judge(polls[k]).Reap? && polls[k].sk in ReapedIn(polls, k + 1);
    } else {
      assert ReapedIn(polls, k + 1) == ReapedIn(polls, k);
    }
  }

  /** So after a full pass the slot of a closed block is vacant exactly when its ip_type is 0; else it stays taken. */
  lemma ClosedSlot(polls: seq<Poll>, env: seq<Tick>, queue: seq<Tcb?>, backlog: nat, nbio: bool, timed: bool, i: nat,
                   ip_type: nat)
    requires Story(Ended(EWOULDBLOCK), polls, env, queue, backlog, nbio, timed)
    requires i < backlog && i < |queue| && queue[i] != null
    requires forall k :: 0 <= k < |polls| && polls[k].sk == queue[i] ==>
               polls[k].state == CLOSED && polls[k].ip_type == ip_type
    ensures queue[i] in ReapedIn(polls, |polls|) <==> ip_type == 0
  {
    WouldBlockAfterFullPass(polls, env, queue, backlog, nbio, timed);
    assert PassedBy(polls, i, queue, backlog);
    var k := |polls| - backlog + i;
    if ip_type == 0 {
      if queue[i] in ReapedIn(polls, k) {
        var j :| 0 <= j < k && Judge(polls[j]).Reap? && polls[j].sk == queue[i];
        assert polls[j].sk in ReapedIn(polls, |polls|);
      } else {
        assert Judge(polls[k]).Reap? && polls[k].sk == queue[i];
      }
    }
  }

  lemma NextSlot(idx: nat, maxconn: nat)
    requires idx < maxconn
    ensures (idx + 1) % maxconn == if idx + 1 == maxconn then 0 else idx + 1
  {
    if idx + 1 < maxconn {
      assert 0 * maxconn == 0;
      DivModUnique(idx + 1, 0, idx + 1, maxconn);
    } else {
      assert 1 * maxconn == maxconn;
      DivModUnique(idx + 1, 1, 0, maxconn);
    }
  }

  /** The first empty slot below `n`, or `n`. */
  ghost function FirstVacant(q: seq<Tcb?>, n: nat): (i: nat)
    requires n <= |q|
    ensures i <= n && (i < n ==> q[i] == null) && forall k :: 0 <= k < i ==> q[k] != null
  {
    if n == 0 then 0
    else
      var i := FirstVacant(q, n - 1);
      if i < n - 1 then i else if q[n - 1] == null then n - 1 else n
  }

  /** As many blocks as places, if each has its own. */
  lemma {:induction false} OneEach(blocks: set<Tcb>, places: set<nat>, at: map<Tcb, nat>)
    requires forall t :: t in blocks ==> t in at && at[t] in places
    requires forall t, u :: t in blocks && u in blocks && at[t] == at[u] ==> t == u
    ensures |blocks| <= |places|
    ensures (forall p :: p in places ==> exists t :: t in blocks && at[t] == p) ==> |blocks| == |places|
  {
    if t :| t in blocks {
      var rest, left := blocks - {t}, places - {at[t]};
      OneEach(rest, left, at);
      if forall p :: p in places ==> exists t :: t in blocks && at[t] == p {
        forall p | p in left
          ensures exists t :: t in rest && at[t] == p
        {
          var u :| u in blocks && at[u] == p;
          assert u in rest;
        }
      }
    } else if p :| p in places {
      assert blocks == {};
    } else {
      assert places == {};
    }
  }

  ghost function Below(n: nat): (r: set<nat>)
    ensures |r| == n && forall i: nat :: i in r <==> i < n
  {
    if n == 0 then {} else Below(n - 1) + {n - 1}
  }

  ghost function Without(s: seq<Tcb>, t: Tcb): (r: seq<Tcb>) {
    if s == [] then []
    else if s[0] == t then s[1..]
    else [s[0]] + Without(s[1..], t)
  }

  ghost predicate Distinct(s: seq<Tcb>) {
    forall i, j :: 0 <= i < j < |s| ==> s[i] != s[j]
  }

  /** Unthreading takes one block off a list without repetitions, and nothing else. */
  lemma {:induction false} WithoutOne(s: seq<Tcb>, t: Tcb)
    requires Distinct(s)
    ensures Distinct(Without(s, t))
    ensures forall u :: u in Without(s, t) <==> u in s && u != t
  {
    if s != [] {
      assert s == [s[0]] + s[1..];
      WithoutOne(s[1..], t);
      if s[0] != t {
        var r := Without(s[1..], t);
        assert s[0] !in s[1..];
        forall u ensures u in Without(s, t) <==> u in s && u != t {
          assert u in [s[0]] + r <==> u == s[0] || u in r;
        }
      } else {
        assert s[0] !in s[1..];
      }
    }
  }

  lemma {:induction false} WithoutAt(s: seq<Tcb>, t: Tcb, i: nat)
    requires i <= |s| && t !in s[..i] && (i < |s| ==> s[i] == t)
    ensures Without(s, t) == if i < |s| then s[..i] + s[i + 1..] else s
    decreases |s|
  {
    if i > 0 {
      assert s[0] == s[..i][0] && s[1..][..i - 1] == s[..i][1..];
      WithoutAt(s[1..], t, i - 1);
    }
  }

  /** From `a` to `c` new blocks came into slots, those in `dead` left slots for good, and the rest stayed. */
  ghost predicate Moves(a: map<Tcb, Owner>, c: map<Tcb, Owner>, dead: set<Tcb?>) {
    && a.Keys <= c.Keys && (forall t {:trigger t in dead} :: t in dead ==> t in c)
    && (forall t {:trigger c[t]} :: t in c ==>
          if t in dead then c[t] == Reaped && (t in a ==> a[t].InSlot?)
          else if t in a then c[t] == a[t]
          else c[t].InSlot?)
  }

  lemma MovesOn(a: map<Tcb, Owner>, b: map<Tcb, Owner>, c: map<Tcb, Owner>, d: set<Tcb?>, e: set<Tcb?>)
    requires Moves(a, b, d) && Moves(b, c, e)
    ensures Moves(a, c, d + e)
  {
    forall t | t in c
      ensures if t in d + e then c[t] == Reaped && (t in a ==> a[t].InSlot?)
              else if t in a then c[t] == a[t]
              else c[t].InSlot?
    {
      if t in b { assert b[t] == b[t]; }
    }
  }

  // ---------- the record of what was done ----------

  /** A deed, if it could be done to the block where it was. */
  ghost function After(m: map<Tcb, Owner>, d: Deed): Option<map<Tcb, Owner>> {
    match d
    case Appended(t, at) => if t in m then None else Some(m[t := InSlot(at)])
    case HandedTo(t, sock) => if t in m && m[t].InSlot? then Some(m[t := InSocket(sock)]) else None
    case WasReaped(t) => if t in m && m[t].InSlot? then Some(m[t := Reaped]) else None
    case WasAborted(t) => if t in m && m[t].InSlot? then Some(m[t := Aborted]) else None
    case WasClosed(t) => if t in m && m[t].InSocket? then Some(m[t := Aborted]) else None
  }

  /** Where the blocks are after all deeds of a record. */
  ghost function Replay(log: seq<Deed>): Option<map<Tcb, Owner>> {
    if log == [] then Some(map[])
    else match Replay(log[..|log| - 1])
      case None => None
      case Some(m) => After(m, log[|log| - 1])
  }

  /** How often each deed was done. */
  ghost function Counted(log: seq<Deed>): (r: Counts) {
    if log == [] then Counts(0, 0, 0, 0, 0)
    else
      var n := Counted(log[..|log| - 1]);
      match log[|log| - 1]
      case Appended(_, _) => n.(appended := n.appended + 1)
      case HandedTo(_, _) => n.(accepted := n.accepted + 1)
      case WasReaped(_) => n.(reaped := n.reaped + 1)
      case WasAborted(_) => n.(aborted := n.aborted + 1)
      case WasClosed(_) => n.(closed := n.closed + 1)
  }

  lemma LogMore(log: seq<Deed>, d: Deed)
    ensures Replay(log).Some? ==> Replay(log + [d]) == After(Replay(log).value, d)
    ensures Accepts(log + [d]) == Accepts(log) + if d.HandedTo? then 1 else 0
  {
    assert (log + [d])[..|log|] == log;
  }

  ghost function Accepts(log: seq<Deed>): nat {
    if log == [] then 0 else Accepts(log[..|log| - 1]) + if log[|log| - 1].HandedTo? then 1 else 0
  }

  lemma {:induction false} AcceptsCounted(log: seq<Deed>)
    ensures Accepts(log) == Counted(log).accepted
  {
    if log != [] { AcceptsCounted(log[..|log| - 1]); }
  }

  ghost function Queueds(m: map<Tcb, Owner>): set<Tcb> {
    set t | t in m && m[t].InSlot?
  }

  ghost function Sockets(m: map<Tcb, Owner>): set<Tcb> {
    set t | t in m && m[t].InSocket?
  }

  /**
   * What was appended and neither handed out, reaped nor aborted is queued; what was handed out and not closed
   * is in a socket.
   */
  lemma {:induction false} Balance(log: seq<Deed>)
    requires Replay(log).Some?
    ensures var (m, n) := (Replay(log).value, Counted(log));
            && n.appended == |Queueds(m)| + n.accepted + n.reaped + n.aborted
            && n.accepted == |Sockets(m)| + n.closed
  {
    if log == [] {
      assert Queueds(map[]) == {} && Sockets(map[]) == {};
    } else {
      var init, d := log[..|log| - 1], log[|log| - 1];
      Balance(init);
      QueuedAfter(Replay(init).value, d);
      SocketsAfter(Replay(init).value, d);
    }
  }

  lemma QueuedAfter(m: map<Tcb, Owner>, d: Deed)
    requires After(m, d).Some?
    ensures |Queueds(After(m, d).value)| == |Queueds(m)| + if d.Appended? then 1 else if d.WasClosed? then 0 else -1
  {
    var o := After(m, d).value[d.t];
    if d.Appended? {
      Enqueued(m, d.t, o);
    } else if d.WasClosed? {
      NotQueued(m, d.t, o);
    } else {
      Dequeued(m, d.t, o);
    }
  }

  lemma Enqueued(m: map<Tcb, Owner>, t: Tcb, o: Owner)
    requires t !in m && o.InSlot?
    ensures |Queueds(m[t := o])| == |Queueds(m)| + 1
  {
    assert Queueds(m[t := o]) == Queueds(m) + {t};
  }

  lemma NotQueued(m: map<Tcb, Owner>, t: Tcb, o: Owner)
    requires t in m && !m[t].InSlot? && !o.InSlot?
    ensures Queueds(m[t := o]) == Queueds(m)
  {
  }

  lemma Dequeued(m: map<Tcb, Owner>, t: Tcb, o: Owner)
    requires t in m && m[t].InSlot? && !o.InSlot?
    ensures |Queueds(m[t := o])| == |Queueds(m)| - 1
  {
    assert Queueds(m) == Queueds(m[t := o]) + {t};
  }

  lemma SocketsAfter(m: map<Tcb, Owner>, d: Deed)
    requires After(m, d).Some?
    ensures |Sockets(After(m, d).value)| == |Sockets(m)| + if d.HandedTo? then 1 else if d.WasClosed? then -1 else 0
  {
    var q, q' := Sockets(m), Sockets(After(m, d).value);
    if d.HandedTo? {
      assert q' == q + {d.t};
    } else if d.WasClosed? {
      assert q' == q - {d.t};
    } else {
      assert q' == q;
    }
  }

  /** The occupied slots of a queue. */
  ghost function Occupied(q: seq<Tcb?>): nat {
    if q == [] then 0 else Occupied(q[..|q| - 1]) + if q[|q| - 1] != null then 1 else 0
  }

  lemma {:induction false} OccupiedSlots(q: seq<Tcb?>)
    ensures Occupied(q) == |set i: nat | i < |q| && q[i] != null|
  {
    var slots := set i: nat | i < |q| && q[i] != null;
    if q == [] {
      assert slots == {};
    } else {
      var init, n := q[..|q| - 1], |q| - 1;
      OccupiedSlots(init);
      assert slots == (set i: nat | i < |init| && init[i] != null) + if q[n] != null then {n} else {};
    }
  }

  lemma MapUpdates<K, V>(m: map<K, V>, k: K, v: V, w: V)
    ensures m[k := v][k := w] == m[k := w]
    ensures k !in m ==> m[k := v] - {k} == m
  {
  }

  /** What any operation may do to the owners: slots lead to sockets or to the end, sockets to the end. */
  ghost predicate Steps(a: map<Tcb, Owner>, c: map<Tcb, Owner>) {
    && a.Keys <= c.Keys
    && (forall t {:trigger c[t]} :: t in a ==>
          c[t] == a[t] || a[t].InSlot? || (a[t].InSocket? && c[t].Aborted?))
  }

  /** The same, but `t` left its slot for `o`. */
  ghost predicate MovesBut(a: map<Tcb, Owner>, c: map<Tcb, Owner>, dead: set<Tcb?>, t: Tcb, o: Owner) {
    && a.Keys <= c.Keys && (forall u {:trigger u in dead} :: u in dead ==> u in c)
    && t in c && c[t] == o && t !in dead && (t in a ==> a[t].InSlot?)
    && (forall u {:trigger c[u]} :: u in c && u != t ==>
          if u in dead then c[u] == Reaped && (u in a ==> a[u].InSlot?)
          else if u in a then c[u] == a[u]
          else c[u].InSlot?)
  }

  lemma MovesThen(a: map<Tcb, Owner>, b: map<Tcb, Owner>, dead: set<Tcb?>, t: Tcb, o: Owner)
    requires Moves(a, b, dead) && t in b && b[t].InSlot?
    ensures MovesBut(a, b[t := o], dead, t, o)
  {
    var c := b[t := o];
    forall u | u in c && u != t
      ensures if u in dead then c[u] == Reaped && (u in a ==> a[u].InSlot?)
              else if u in a then c[u] == a[u]
              else c[u].InSlot?
    {
      assert c[u] == b[u];
    }
  }

  class Listener {
    const listen_queue: array<Tcb?>
    const syn_timestamp: array<nat>
    var backlog: nat
    var open: bool
    var stream: bool
    var bound: bool
    var acceptconn: bool
    var listening: bool
    var nbio: bool
    var timeout: nat
    /** The block of the listening socket itself. */
    var tcp_sock: Tcb?
    /** _tcp_allsocs, head first. */
    var allsocs: seq<Tcb>
    /** The sockets made by accept. */
    var socks: map<nat, Conn>

    /** Every block this module has known. */
    ghost var tcbs: set<Tcb>
    /** All blocks ever appended, each with the place it has come to. */
    ghost var owner: map<Tcb, Owner>
    ghost var log: seq<Deed>

    ghost predicate Slotted()
      reads this, listen_queue, syn_timestamp
    {
      && listen_queue.Length == SOMAXCONN && syn_timestamp.Length == SOMAXCONN
      && 1 <= backlog < SOMAXCONN
      && (forall t {:trigger owner[t]} :: t in owner && owner[t].InSlot? ==>
            owner[t].i < backlog && listen_queue[owner[t].i] == t)
      && (forall i {:trigger listen_queue[i]} :: 0 <= i < SOMAXCONN && listen_queue[i] != null ==>
            listen_queue[i] in owner && owner[listen_queue[i]] == InSlot(i))
    }

    ghost predicate Handled()
      reads this
    {
      && (forall t {:trigger owner[t]} :: t in owner && owner[t].InSocket? ==>
            owner[t].fd in socks && socks[owner[t].fd].tcb == t)
      && (forall fd {:trigger socks[fd]} :: fd in socks ==>
            socks[fd].tcb in owner && owner[socks[fd].tcb] == InSocket(fd))
    }

    /** No freed block is within reach. */
    ghost predicate NoDangling()
      reads this
    {
      && Distinct(allsocs)
      && (forall t :: t in allsocs ==> t in tcbs && (t in owner ==> !Freed(owner[t])))
      && (tcp_sock != null ==> tcp_sock in tcbs && tcp_sock !in owner)
      && owner.Keys <= tcbs
    }

    ghost predicate Valid()
      reads this, listen_queue, syn_timestamp
    {
      Slotted() && Handled() && NoDangling()
    }

    /** socket, bind and listen: the backlog is brought into 1 .. SOMAXCONN - 1. */
    constructor (tcb: Tcb, backlog: int, nbio: bool, timeout: nat, stream: bool, bound: bool)
      ensures Valid() && fresh(listen_queue) && fresh(syn_timestamp) && tcbs == {tcb} && owner == map[]
      ensures log == [] && Logged()
      ensures listen_queue.Length == 32 && forall i :: 0 <= i < 32 ==> listen_queue[i] == null
      ensures this.backlog as int == if backlog < 1 then 1 else if backlog < 32 then backlog else 31
      ensures this.nbio == nbio && this.timeout == timeout && this.stream == stream && this.bound == bound
      ensures open && acceptconn && listening && allsocs == [tcb] && tcp_sock == tcb && socks == map[]
    {
      listen_queue := new Tcb?[SOMAXCONN](_ => null);
      syn_timestamp := new nat[SOMAXCONN](_ => 0);
      var b := if backlog < SOMAXCONN - 1 then backlog else SOMAXCONN - 1;
      this.backlog := if b > 1 then b else 1;
      this.nbio, this.timeout, this.stream, this.bound := nbio, timeout, stream, bound;
      open, acceptconn, listening := true, true, true;
      tcp_sock, allsocs, socks := tcb, [tcb], map[];
      tcbs, owner, log := {tcb}, map[], [];
    }

    ghost function Queued(): set<Tcb>
      reads this
    {
      Queueds(owner)
    }

    ghost function InSockets(): set<Tcb>
      reads this
    {
      Sockets(owner)
    }

    /** The record tells where every block is. */
    ghost predicate Logged()
      reads this
    {
      Replay(log) == Some(owner)
    }

    /**
     * What was appended is what occupies the slots now and what was handed out, reaped or aborted before: nothing is
     * lost and nothing counts twice. What was handed out is in the sockets open now, or was closed with its socket.
     */
    lemma Conservation()
      requires Valid() && Logged()
      ensures var n := Counted(log);
              && n.appended == Occupied(listen_queue[..]) + n.accepted + n.reaped + n.aborted
              && n.accepted == |socks| + n.closed
    {
      QueueSize();
      SocketsOwn();
      Balance(log);
    }

    /** Every occupied slot has its own block, and no other block is queued. */
    lemma QueueSize()
      requires Valid()
      ensures |Queued()| == Occupied(listen_queue[..])
    {
      var q := listen_queue[..];
      var slots := set i: nat | i < |q| && q[i] != null;
      OccupiedSlots(q);
      var at := map t | t in Queued() :: owner[t].i;
      forall t | t in Queued()
        ensures at[t] in slots && q[at[t]] == t
      {
        assert listen_queue[owner[t].i] == t;
      }
      forall i | i in slots
        ensures exists t :: t in Queued() && at[t] == i
      {
        var t: Tcb := listen_queue[i];
        assert t in Queued() && at[t] == i;
      }
      OneEach(Queued(), slots, at);
    }

    /** The queue holds each of its blocks in one slot, and at most as many as the backlog. */
    lemma QueueBound()
      requires Valid()
      ensures |Queued()| <= backlog < SOMAXCONN
      ensures Queued() == set i | 0 <= i < backlog && listen_queue[i] != null :: listen_queue[i]
      ensures forall i, j :: 0 <= i < j < SOMAXCONN && listen_queue[i] != null ==> listen_queue[i] != listen_queue[j]
    {
      var at := map t | t in Queued() :: owner[t].i;
      forall t, u | t in Queued() && u in Queued() && at[t] == at[u]
        ensures t == u
      {
        assert listen_queue[owner[t].i] == t && listen_queue[owner[u].i] == u;
      }
      OneEach(Queued(), Below(backlog), at);
    }

    /** Accepted blocks and sockets belong together one to one. */
    lemma SocketsOwn()
      requires Valid()
      ensures |InSockets()| == |socks|
      ensures forall fd, fe :: fd in socks && fe in socks && socks[fd].tcb == socks[fe].tcb ==> fd == fe
    {
      var at := map t | t in InSockets() :: owner[t].fd;
      forall t, u | t in InSockets() && u in InSockets() && at[t] == at[u]
        ensures t == u
      {
        assert socks[owner[t].fd].tcb == t && socks[owner[u].fd].tcb == u;
      }
      forall fd | fd in socks.Keys
        ensures exists t :: t in InSockets() && at[t] == fd
      {
        assert socks[fd].tcb in InSockets();
      }
      OneEach(InSockets(), socks.Keys, at);
      assert |socks| == |socks.Keys|;
    }

    /** The settings of the socket. */
    ghost function Setup(): (nat, bool, bool, bool, bool, bool, bool, nat, Tcb?)
      reads this
    {
      (backlog, open, stream, bound, acceptconn, listening, nbio, timeout, tcp_sock)
    }

    twostate predicate SameSetup()
      reads this
    {
      Setup() == old(Setup())
    }

    /** New blocks may have come into vacant slots; no block has left its place. */
    twostate predicate OnlyAppended()
      reads this, listen_queue
    {
      && listen_queue.Length == SOMAXCONN
      && SameSetup() && unchanged(this`socks)
      && (old(Logged()) ==> Logged()) && Accepts(log) == old(Accepts(log))
      && (forall i {:trigger listen_queue[i]} :: 0 <= i < SOMAXCONN && old(listen_queue[i]) != null ==>
            listen_queue[i] == old(listen_queue[i]))
      && Moves(old(owner), owner, {})
      && old(tcbs) <= tcbs && fresh(tcbs - old(tcbs))
    }

    /** _sock_append: a SYN came in for `tcp`; `out` is the block that the engine goes on with. */
    method SockAppend(tcp: Tcb, now: nat, iss: nat, nomem: bool) returns (rc: nat, out: Tcb)
      requires Valid() && tcp in tcbs
      modifies this, listen_queue, syn_timestamp, tcp
      ensures Valid() && OnlyAppended()
      ensures var i := FirstVacant(old(listen_queue[..]), backlog);
              if tcp != tcp_sock || !acceptconn || i == backlog || nomem then
                && out == tcp && rc == (if tcp != tcp_sock then 1 else 0)
                && unchanged(this) && unchanged(listen_queue) && unchanged(syn_timestamp) && unchanged(tcp)
              else
                && rc == 1 && fresh(out)
                && SetAt(i, out)
                && syn_timestamp[..] == old(syn_timestamp[..])[i := now]
                && owner == old(owner)[out := InSlot(i)] && log == old(log) + [Appended(out, i)]
                && allsocs == [out] + old(allsocs) && tcbs == old(tcbs) + {out}
                && Cloned(tcp, out, iss)
    {
      out := tcp;
      if tcp != tcp_sock {
        return 1, tcp;
      }
      if !acceptconn {
        return 0, tcp;
      }
      var i := VacantSlot();
      if i >= backlog || i >= SOMAXCONN {
        return 0, tcp;
      }
      if nomem {
        return 0, tcp;
      }
      ghost var before := log;
      out := Enqueue(i, tcp, now, iss);
      LogMore(before, Appended(out, i));
      rc := 1;
    }

    /** The loop of _sock_append over the slots. */
    method VacantSlot() returns (i: nat)
      requires Slotted()
      ensures i == FirstVacant(listen_queue[..], backlog)
    {
      i := 0;
      while i < backlog && listen_queue[i] != null
        invariant i <= backlog
        invariant forall k :: 0 <= k < i ==> listen_queue[k] != null
      {
        i := i + 1;
      }
      ghost var v := FirstVacant(listen_queue[..], backlog);
      assert v < backlog ==> listen_queue[..][v] == null;
      assert forall k :: 0 <= k < v ==> listen_queue[..][k] != null;
    }

    /** The end of _sock_append: a copy of the block goes into the vacant slot, the original listens on. */
    method Enqueue(i: nat, tcp: Tcb, now: nat, iss: nat) returns (clone: Tcb)
      requires Valid() && tcp in tcbs && i < backlog && listen_queue[i] == null
      modifies this`allsocs, this`owner, this`log, this`tcbs, listen_queue, syn_timestamp, tcp
      ensures Valid() && fresh(clone) && SetAt(i, clone)
      ensures syn_timestamp[..] == old(syn_timestamp[..])[i := now]
      ensures owner == old(owner)[clone := InSlot(i)] && log == old(log) + [Appended(clone, i)]
      ensures allsocs == [clone] + old(allsocs) && tcbs == old(tcbs) + {clone}
      ensures Cloned(tcp, clone, iss)
    {
      clone := CloneOf(tcp, iss);
      listen_queue[i] := clone;
      syn_timestamp[i] := now;
      allsocs := [clone] + allsocs;
      owner, log := owner[clone := InSlot(i)], log + [Appended(clone, i)];
      tcbs := tcbs + {clone};
    }

    /** The copy, and what is set in the original. */
    method CloneOf(tcp: Tcb, iss: nat) returns (clone: Tcb)
      modifies tcp
      ensures fresh(clone) && Cloned(tcp, clone, iss)
    {
      clone := new Tcb.Copy(tcp);
      tcp.hisport := 0;
      tcp.hisaddr := 0;
      tcp.myaddr := 0;
      tcp.send_next := iss;
      tcp.unhappy := false;
    }

    /** The clone has what the original had; the original has forgotten its peer and has a new sequence number. */
    twostate predicate Cloned(tcp: Tcb, new clone: Tcb, iss: nat)
      reads tcp, clone
    {
      && clone.SameAs(old(tcp.state), old(tcp.ip_type), old(tcp.hisaddr), old(tcp.hisport), old(tcp.myaddr),
                      old(tcp.send_next), old(tcp.unhappy))
      && tcp.SameAs(old(tcp.state), old(tcp.ip_type), 0, 0, 0, iss, false)
    }

    /** One slot was assigned. */
    twostate predicate SetAt(idx: nat, new t: Tcb?)
      reads this, listen_queue
    {
      && listen_queue.Length == SOMAXCONN
      && forall i {:trigger listen_queue[i]} :: 0 <= i < SOMAXCONN ==>
           listen_queue[i] == if i == idx then t else old(listen_queue[i])
    }

    /** One thing that happens in the engine; a SYN for a listening socket with a vacant slot is queued there. */
    method Happen(e: Event)
      requires Valid()
      modifies this, listen_queue, syn_timestamp, tcbs
      ensures Valid() && OnlyAppended()
      ensures var i := FirstVacant(old(listen_queue[..]), backlog);
              e.Syn? && tcp_sock != null && acceptconn && i < backlog && !e.nomem ==>
                && listen_queue[i] != null && listen_queue[i].hisaddr == e.addr && listen_queue[i].hisport == e.port
                && listen_queue[i].myaddr == e.mine && syn_timestamp[i] == e.time
    {
      match e
      case Syn(addr, port, mine, time, iss, nomem) =>
        if tcp_sock != null {
          var tcp: Tcb := tcp_sock;
          tcp.hisaddr, tcp.hisport, tcp.myaddr := addr, port, mine;
          var rc, out := SockAppend(tcp, time, iss, nomem);
        }
      case Move(who, state, ip_type, rx_datalen) =>
        if who < |allsocs| {
          var t := allsocs[who];
          t.state, t.ip_type, t.rx_datalen := state, ip_type, rx_datalen;
        }
      case Drop(who) =>
        if who < |allsocs| {
          Unthread(allsocs[who]);
        }
    }

    /** _tcp_unthread: off the list of all blocks, and closed. */
    method Unthread(ds: Tcb)
      requires Valid()
      modifies this`allsocs, ds
      ensures Valid()
      ensures ds !in allsocs && allsocs == Without(old(allsocs), ds)
      ensures forall u :: u in allsocs <==> u in old(allsocs) && u != ds
      ensures ds.state == CLOSED
      ensures old(ds.rx_datalen) == 0 || old(ds.state) > ESTCL ==> ds.ip_type == 0
      ensures !(old(ds.rx_datalen) == 0 || old(ds.state) > ESTCL) ==> unchanged(ds`ip_type)
      ensures unchanged(ds`hisaddr, ds`hisport, ds`is_server, ds`rx_datalen)
    {
      WithoutOne(allsocs, ds);
      var i := 0;
      while i < |allsocs| && allsocs[i] != ds
        invariant i <= |allsocs|
        invariant ds !in allsocs[..i]
      {
        i := i + 1;
      }
      WithoutAt(allsocs, ds, i);
      if i < |allsocs| {
        allsocs := allsocs[..i] + allsocs[i + 1..];
      }
      if ds.rx_datalen == 0 || ds.state > ESTCL {
        ds.ip_type := 0;
      }
      ds.state := CLOSED;
    }

    /** tcp_tick */
    method TcpTick(events: seq<Event>)
      requires Valid()
      modifies this, listen_queue, syn_timestamp, tcbs
      ensures Valid() && OnlyAppended()
    {
      var k := 0;
      while k < |events|
        invariant Valid() && OnlyAppended()
      {
        Happen(events[k]);
        k := k + 1;
      }
    }

    /** listen_free: the block in the slot is unthreaded and freed. */
    method ListenFree(idx: nat)
      requires Valid() && idx < SOMAXCONN && listen_queue[idx] != null
      modifies this`allsocs, this`owner, this`log, listen_queue, tcbs
      ensures Valid() && SameSetup() && unchanged(this`tcbs)
      ensures SetAt(idx, null)
      ensures owner == old(owner)[old(listen_queue[idx]) := Reaped]
      ensures log == old(log) + [WasReaped(old(listen_queue[idx]))]
    {
      var tcb: Tcb := listen_queue[idx];
      Unthread(tcb);
      listen_queue[idx] := null;
      owner, log := owner[tcb := Reaped], log + [WasReaped(tcb)];
    }

    /**
     * Over some turns of the accept loop: vacant slots may have been filled, and just the dead blocks seen were
     * reaped.
     */
    twostate predicate Turned(new dead: set<Tcb?>)
      reads this
    {
      && SameSetup() && unchanged(this`socks)
      && (old(Logged()) ==> Logged()) && Accepts(log) == old(Accepts(log))
      && Moves(old(owner), owner, dead)
      && old(tcbs) <= tcbs && fresh(tcbs - old(tcbs))
    }

    /** The loop of accept over the slots, until a connected block is found in `que_idx`. */
    method AcceptLoop(env: seq<Tick>) returns (end: LoopEnd, que_idx: nat, ghost polls: seq<Poll>)
      requires Valid()
      modifies this, listen_queue, syn_timestamp, tcbs
      ensures Valid() && Turned(ReapedIn(polls, |polls|))
      ensures Story(end, polls, env, old(listen_queue[..]), backlog, nbio, timeout != 0)
      ensures end.OutOfTicks? ==> |polls| == |env|
      ensures end.Found? ==> polls[|polls| - 1].idx == que_idx && Holds(polls[|polls| - 1])
    {
      que_idx, polls, end := 0, [], OutOfTicks;
      var n := 0;
      ghost var queue, b, nb, timed := listen_queue[..], backlog, nbio, timeout != 0;
      while n < |env| && end == OutOfTicks
        invariant Valid() && Turned(ReapedIn(polls, |polls|))
        invariant Story(end, polls, env, queue, b, nb, timed)
        invariant end == OutOfTicks ==> n == |polls| <= |env| && que_idx == NextIdx(polls, b) < b
        invariant end.Found? ==> polls[|polls| - 1].idx == que_idx && Holds(polls[|polls| - 1])
        decreases |env| - n, end == OutOfTicks
      {
        ghost var mid, before := owner, ReapedIn(polls, |polls|);
        StillThere(que_idx, before);
        ghost var dead;
        end, que_idx, polls, dead := ToldTurn(que_idx, env, n, polls, queue);
        MovesOn(old(owner), mid, owner, before, dead);
        n := n + 1;
      }
    }

    /** One turn, with what it adds to the story. */
    method ToldTurn(que_idx: nat, env: seq<Tick>, n: nat, ghost polls: seq<Poll>, ghost queue: seq<Tcb?>)
      returns (end: LoopEnd, next: nat, ghost all: seq<Poll>, ghost dead: set<Tcb?>)
      requires Valid() && n == |polls| < |env| && que_idx == NextIdx(polls, backlog) < backlog <= |queue|
      requires WentThrough(polls, env, queue, backlog, nbio, timeout != 0)
      requires queue[que_idx] != null && queue[que_idx] !in ReapedIn(polls, n) ==>
                 listen_queue[que_idx] == queue[que_idx]
      modifies this, listen_queue, syn_timestamp, tcbs
      ensures Valid() && Turned(dead) && ReapedIn(all, |all|) == ReapedIn(polls, n) + dead
      ensures Story(end, all, env, queue, backlog, nbio, timeout != 0)
      ensures end == OutOfTicks ==> |all| == n + 1 && next == NextIdx(all, backlog) < backlog
      ensures end.Found? ==> all[|all| - 1].idx == next && Holds(all[|all| - 1])
    {
      ghost var b, nb, timed := backlog, nbio, timeout != 0;
      ghost var p;
      end, next, p := OneTurn(que_idx, env[n]);
      all := StoryMore(end, polls, p, env, queue, b, nb, timed);
      dead := Dead(end, p);
    }

    /** A block queued at the start is still in its slot, if it was not reaped. */
    twostate lemma StillThere(i: nat, new dead: set<Tcb?>)
      requires old(Valid()) && Valid() && Turned(dead) && i < SOMAXCONN
      ensures var t := old(listen_queue[i]); t != null && t !in dead ==> listen_queue[i] == t
    {
      var t := old(listen_queue[i]);
      if t != null && t !in dead {
        assert owner[t] == old(owner[t]);
      }
    }

    /** What a poll saw is so now. */
    ghost predicate Holds(p: Poll)
      reads this, listen_queue, p.sk
    {
      && p.sk != null && p.sk in tcbs && p.idx < listen_queue.Length && listen_queue[p.idx] == p.sk
      && p.sk.state == p.state && p.sk.ip_type == p.ip_type
    }

    /** One turn of that loop; OutOfTicks when it did not end, and then `next` is the slot to visit. */
    method OneTurn(que_idx: nat, tick: Tick) returns (end: LoopEnd, next: nat, ghost p: Poll)
      requires Valid() && que_idx < backlog
      modifies this, listen_queue, syn_timestamp, tcbs
      ensures Valid() && Turned(Dead(end, p))
      ensures p.idx == que_idx && (!tick.signal ==> p.sk == old(listen_queue[que_idx]))
      ensures TurnEnd(end, p, tick, backlog, nbio, timeout != 0)
      ensures end == Found ==> Holds(p)
      ensures !tick.signal && p.sk != null ==> (listen_queue[que_idx] == null <==> Judge(p).Reap?)
      ensures next == if end != OutOfTicks then que_idx else if que_idx + 1 == backlog then 0 else que_idx + 1
    {
      var sk := listen_queue[que_idx];
      TcpTick(tick.events);
      p, next := Poll(que_idx, null, 0, 0), que_idx;
      if tick.signal {
        return Ended(EINTR), next, p;
      }
      end := OutOfTicks;
      if sk != null {
        p := Poll(que_idx, sk, sk.state, sk.ip_type);
      }
      if sk != null && sk.state >= ESTCL && sk.ip_type == 0 {
        LogMore(log, WasReaped(sk));
        ListenFree(que_idx);
      } else {
        if sk != null && ESTAB <= sk.state < CLOSED {
          return Found, next, p;
        }
        if que_idx == backlog - 1 && nbio {
          return Ended(EWOULDBLOCK), next, p;
        }
        if timeout != 0 && tick.expired {
          return Ended(ETIMEDOUT), next, p;
        }
      }
      NextSlot(que_idx, backlog);
      next := (que_idx + 1) % backlog;
    }

    /** dup_bind: the block in the slot goes to a new socket `fd`, and the slot is free for another SYN. */
    method DupBind(idx: nat, fd: nat)
      requires Valid() && idx < SOMAXCONN && listen_queue[idx] != null && fd !in socks
      modifies this`socks, this`owner, listen_queue, syn_timestamp, listen_queue[idx]
      ensures Valid() && SameSetup() && SetAt(idx, null) && syn_timestamp[idx] == 0
      ensures var tcb: Tcb := old(listen_queue[idx]);
              && socks == old(socks)[fd := Conn(tcb, nbio, timeout, false, listening, acceptconn, None)]
              && owner == old(owner)[tcb := InSocket(fd)]
              && !tcb.is_server && unchanged(tcb`state, tcb`ip_type, tcb`hisaddr, tcb`hisport)
    {
      var tcb: Tcb := listen_queue[idx];
      tcb.is_server := false;
      socks := socks[fd := Conn(tcb, nbio, timeout, false, listening, acceptconn, None)];
      listen_queue[idx] := null;
      syn_timestamp[idx] := 0;
      owner := owner[tcb := InSocket(fd)];
    }

    /** _tcp_abort */
    method TcpAbort(t: Tcb)
      requires Valid()
      modifies this`allsocs, t
      ensures Valid() && t !in allsocs && t.state == CLOSED && t.ip_type == 0
      ensures forall u :: u in allsocs <==> u in old(allsocs) && u != t
    {
      t.ip_type := 0;
      Unthread(t);
    }

    /** SOCK_DEL_FD on a socket made by accept: its block is aborted and freed. */
    method DelFd(fd: nat)
      requires Valid() && fd in socks
      modifies this`allsocs, this`socks, this`owner, socks[fd].tcb
      ensures Valid() && SameSetup() && socks == old(socks) - {fd}
      ensures owner == old(owner)[old(socks[fd].tcb) := Aborted]
    {
      var tcb := socks[fd].tcb;
      TcpAbort(tcb);
      socks := socks - {fd};
      owner := owner[tcb := Aborted];
    }

    /**
     * accept. `room` tells whether the caller's address fits, `sig_ok` whether the signal handlers could be set,
     * `fd` is what socket() gives, and `nomem` whether the addresses could not be allocated.
     */
    method Accept(env: seq<Tick>, room: bool, sig_ok: bool, fd: Option<nat>, nomem: bool)
      returns (r: Accepted, peer: Option<(nat, nat)>, ghost end: LoopEnd, ghost polls: seq<Poll>)
      requires Valid() && Logged() && (fd.Some? ==> fd.value !in socks)
      modifies this, listen_queue, syn_timestamp, tcbs
      ensures Valid() && Logged() && old(tcbs) <= tcbs && fresh(tcbs - old(tcbs))
      ensures Accepts(log) == old(Accepts(log)) + if r.NewSock? then 1 else 0
      ensures !old(open) ==> r == Fail(ENOTSOCK)
      ensures old(open && !stream) ==> r == Fail(EOPNOTSUPP)
      ensures old(open && stream && !bound) ==> r == Fail(ENOTCONN)
      ensures old(open && stream && bound && !acceptconn) ==> r == Fail(EINVAL)
      ensures old(open && stream && bound && acceptconn && !listening) ==> r == Fail(ENOTCONN)
      ensures old(open && stream && bound && acceptconn && listening) && !room ==> r == Fail(EFAULT)
      ensures old(open && stream && bound && acceptconn && listening) && room && !sig_ok ==> r == Fail(EINTR)
      ensures !(old(open && stream && bound && acceptconn && listening) && room && sig_ok) ==>
                polls == [] && unchanged(this) && unchanged(listen_queue)
      ensures old(open && stream && bound && acceptconn && listening) && room && sig_ok ==>
                && Story(end, polls, env, old(listen_queue[..]), backlog, nbio, timeout != 0)
                && match end
                   case Found =>
                     r == if fd.None? then Fail(ENOFD) else if nomem then Fail(ENOMEM) else NewSock(fd.value)
                   case Ended(errno) => r == Fail(errno)
                   case OutOfTicks => r == StillWaiting
      ensures Result(r, peer, polls)
    {
      polls, end, peer := [], OutOfTicks, None;
      var refused := Refused(room, sig_ok);
      if refused.Some? {
        r := Fail(refused.value);
        assert ReapedIn(polls, 0) == {};
        return;
      }
      r, peer, end, polls := AcceptOne(env, fd, nomem);
    }

    /** accept after its checks. */
    method AcceptOne(env: seq<Tick>, fd: Option<nat>, nomem: bool)
      returns (r: Accepted, peer: Option<(nat, nat)>, ghost end: LoopEnd, ghost polls: seq<Poll>)
      requires Valid() && Logged() && (fd.Some? ==> fd.value !in socks)
      modifies this, listen_queue, syn_timestamp, tcbs
      ensures Valid() && Logged() && old(tcbs) <= tcbs && fresh(tcbs - old(tcbs))
      ensures Accepts(log) == old(Accepts(log)) + if r.NewSock? then 1 else 0
      ensures Story(end, polls, env, old(listen_queue[..]), backlog, nbio, timeout != 0) && r == Outcome(end, fd, nomem)
      ensures Result(r, peer, polls)
    {
      var why, que_idx;
      why, que_idx, polls := AcceptLoop(env);
      end, peer := why, None;
      r := Outcome(why, fd, nomem);
      if why == Found && fd.Some? {
        ghost var t: Tcb := listen_queue[que_idx];
        MovesThen(old(owner), owner, ReapedIn(polls, |polls|), t, if nomem then Aborted else InSocket(fd.value));
        LogMore(log, if nomem then WasAborted(t) else HandedTo(t, fd.value));
        peer := TakeOver(que_idx, fd.value, nomem);
      }
    }

    /** What accept leaves behind, by its result. */
    twostate predicate Result(r: Accepted, new peer: Option<(nat, nat)>, new polls: seq<Poll>)
      reads this, set p | p in polls && p.sk != null :: p.sk
    {
      var dead := ReapedIn(polls, |polls|);
      if r.NewSock? then
        && polls != []
        && var p := polls[|polls| - 1];
        && p.sk != null && HandedOut(r.fd, p.sk, dead)
        && p.sk.state == p.state && p.sk.ip_type == p.ip_type
        && peer == Some((p.sk.hisaddr, p.sk.hisport))
      else if r == Fail(ENOMEM) then
        && polls != [] && polls[|polls| - 1].sk != null
        && Lost(polls[|polls| - 1].sk, dead)
      else Turned(dead) && peer == None
    }

    /** The end of accept: a socket for the connected block, if there is memory for its addresses. */
    method TakeOver(que_idx: nat, fd: nat, nomem: bool) returns (peer: Option<(nat, nat)>)
      requires Valid() && que_idx < SOMAXCONN && listen_queue[que_idx] != null && fd !in socks
      modifies this`socks, this`owner, this`log, this`allsocs, listen_queue, syn_timestamp, listen_queue[que_idx]
      ensures Valid()
      ensures var t: Tcb := old(listen_queue[que_idx]);
              log == old(log) + [if nomem then WasAborted(t) else HandedTo(t, fd)]
      ensures var t: Tcb := old(listen_queue[que_idx]);
              if nomem then
                owner == old(owner)[t := Aborted] && socks == old(socks) && peer == None
              else
                && owner == old(owner)[t := InSocket(fd)] && unchanged(t`state, t`ip_type, t`hisaddr, t`hisport)
                && socks == old(socks)[fd := Conn(t, nbio, timeout, true, false, false, peer)]
                && peer == Some((t.hisaddr, t.hisport))
    {
      ghost var before, were, t := socks, owner, listen_queue[que_idx];
      DupBind(que_idx, fd);
      ghost var last := Conn(t, nbio, timeout, true, false, false, Some((t.hisaddr, t.hisport)));
      MapUpdates(before, fd, socks[fd], last);
      if nomem {
        MapUpdates(were, t, InSocket(fd), Aborted);
        DelFd(fd);
        log := log + [WasAborted(t)];
        return None;
      }
      peer := SetConnected(fd);
      log := log + [HandedTo(t, fd)];
    }

    /** The peer's address goes to the new socket, which is connected and not listening. */
    method SetConnected(fd: nat) returns (peer: Option<(nat, nat)>)
      requires Valid() && fd in socks
      modifies this`socks
      ensures Valid()
      ensures var clone := old(socks[fd]);
              && peer == Some((clone.tcb.hisaddr, clone.tcb.hisport))
              && socks == old(socks)[fd := Conn(clone.tcb, clone.nbio, clone.timeout, true, false, false, peer)]
    {
      var clone := socks[fd];
      peer := Some((clone.tcb.hisaddr, clone.tcb.hisport));
      socks := socks[fd := clone.(remote := peer, connected := true, listening := false, acceptconn := false)];
    }

    /** The checks of accept before its loop, in their order. */
    function Refused(room: bool, sig_ok: bool): Option<Errno>
      reads this
    {
      if !open then Some(ENOTSOCK)
      else if !stream then Some(EOPNOTSUPP)
      else if !bound then Some(ENOTCONN)
      else if !acceptconn then Some(EINVAL)
      else if !listening then Some(ENOTCONN)
      else if !room then Some(EFAULT)
      else if !sig_ok then Some(EINTR)
      else None
    }

    /** What accept returns after its loop. */
    static function Outcome(end: LoopEnd, fd: Option<nat>, nomem: bool): Accepted {
      match end
      case OutOfTicks => StillWaiting
      case Ended(errno) => Fail(errno)
      case Found => if fd.None? then Fail(ENOFD) else if nomem then Fail(ENOMEM) else NewSock(fd.value)
    }

    /** The queued block `t` now belongs to the new socket `fd`, connected and no longer listening. */
    twostate predicate HandedOut(fd: nat, new t: Tcb, new dead: set<Tcb?>)
      reads this, t
    {
      && fd !in old(socks)
      && socks == old(socks)[fd := Conn(t, nbio, timeout, true, false, false, Some((t.hisaddr, t.hisport)))]
      && MovesBut(old(owner), owner, dead, t, InSocket(fd))
    }

    /** No memory for the addresses: the queued block `t` is aborted, and no socket is made. */
    twostate predicate Lost(new t: Tcb, new dead: set<Tcb?>)
      reads this
    {
      socks == old(socks) && MovesBut(old(owner), owner, dead, t, Aborted)
    }

    /** close_stream on a listening socket: whatever is queued is aborted, and then the socket's own block. */
    method CloseStream()
      requires Valid() && open && acceptconn && tcp_sock != null
      modifies this, listen_queue, tcbs
      ensures Valid() && !open && tcp_sock == null && socks == old(socks) && tcbs == old(tcbs)
      ensures forall i :: 0 <= i < SOMAXCONN ==> listen_queue[i] == null
      ensures Flushed() && old(tcp_sock) !in allsocs
    {
      AbortQueue();
      TcpAbort(tcp_sock);
      tcp_sock, open := null, false;
    }

    /** What was queued is aborted, and all else is where it was. */
    twostate predicate Flushed()
      reads this, listen_queue
    {
      && owner.Keys == old(owner.Keys)
      && (forall t {:trigger owner[t]} :: t in owner ==>
            owner[t] == if old(owner[t]).InSlot? then Aborted else old(owner[t]))
      && (old(Logged()) ==> Logged()) && Accepts(log) == old(Accepts(log))
    }

    /** Its loop over the slots. */
    method AbortQueue()
      requires Valid()
      modifies this`allsocs, this`owner, this`log, listen_queue, tcbs
      ensures Valid() && Flushed()
      ensures forall i :: 0 <= i < SOMAXCONN ==> listen_queue[i] == null
    {
      ghost var queue := listen_queue[..];
      var i := 0;
      while i < backlog && i < SOMAXCONN
        invariant 0 <= i <= backlog < |queue| && Valid()
        invariant (old(Logged()) ==> Logged()) && Accepts(log) == old(Accepts(log))
        invariant forall k :: 0 <= k < SOMAXCONN ==> listen_queue[k] == if k < i then null else queue[k]
        invariant owner.Keys == old(owner.Keys)
        invariant forall t {:trigger owner[t]} :: t in owner ==>
                    owner[t] == if old(owner[t]).InSlot? && old(owner[t]).i < i then Aborted else old(owner[t])
      {
        if listen_queue[i] != null {
          LogMore(log, WasAborted(listen_queue[i]));
          AbortSlot(i);
        }
        i := i + 1;
      }
    }

    /** One slot of it. */
    method AbortSlot(i: nat)
      requires Valid() && i < SOMAXCONN && listen_queue[i] != null
      modifies this`allsocs, this`owner, this`log, listen_queue, listen_queue[i]
      ensures Valid() && SetAt(i, null) && owner == old(owner)[old(listen_queue[i]) := Aborted]
      ensures old(listen_queue[i]) !in allsocs && log == old(log) + [WasAborted(old(listen_queue[i]))]
    {
      var tcb: Tcb := listen_queue[i];
      tcb.rx_datalen := 0;
      TcpAbort(tcb);
      listen_queue[i] := null;
      owner, log := owner[tcb := Aborted], log + [WasAborted(tcb)];
    }

    /** close of a socket that accept returned. */
    method CloseSock(fd: nat)
      requires Valid() && Logged() && fd in socks
      modifies this`allsocs, this`socks, this`owner, this`log, socks[fd].tcb
      ensures Valid() && Logged() && SameSetup() && socks == old(socks) - {fd}
      ensures owner == old(owner)[old(socks[fd].tcb) := Aborted]
      ensures log == old(log) + [WasClosed(old(socks[fd].tcb))]
    {
      ghost var tcb := socks[fd].tcb;
      LogMore(log, WasClosed(tcb));
      DelFd(fd);
      log := log + [WasClosed(tcb)];
    }

    /** What was appended is queued, accepted, reaped or aborted. */
    ghost predicate Conserved()
      reads this, listen_queue
    {
      var n := Counted(log);
      && n.appended == Occupied(listen_queue[..]) + n.accepted + n.reaped + n.aborted
      && n.accepted == |socks| + n.closed
    }

    /**
     * Any interleaving of ticks, accepts and closes: what was appended is accounted for, accept hands out as many
     * blocks as it counts and none twice, and freed blocks stay freed.
     */
    method Session(ops: seq<Op>) returns (handed: seq<Tcb>)
      requires Valid() && Logged()
      modifies this, listen_queue, syn_timestamp, tcbs
      ensures Valid() && Logged() && Conserved()
      ensures Distinct(handed) && Counted(log).accepted == old(Counted(log).accepted) + |handed|
      ensures forall t :: t in handed ==> t in owner && (owner[t].InSocket? || owner[t].Aborted?)
      ensures old(owner.Keys) <= owner.Keys
      ensures forall t {:trigger owner[t]} ::
                t in old(owner) && (old(owner[t]) == Reaped || old(owner[t]) == Aborted) ==> owner[t] == old(owner[t])
    {
      handed := [];
      AcceptsCounted(log);
      var k := 0;
      while k < |ops|
        invariant Valid() && Logged() && old(tcbs) <= tcbs && fresh(tcbs - old(tcbs))
        invariant Distinct(handed) && Accepts(log) == old(Accepts(log)) + |handed|
        invariant forall t :: t in handed ==> t in owner && (owner[t].InSocket? || owner[t].Aborted?)
        invariant old(owner.Keys) <= owner.Keys
        invariant forall t {:trigger owner[t]} :: t in old(owner) && Freed(old(owner[t])) ==> owner[t] == old(owner[t])
      {
        var t := DoOp(ops[k]);
        if t != null {
          handed := handed + [t];
        }
        k := k + 1;
      }
      Conservation();
      AcceptsCounted(log);
    }

    /** accept, seen from outside: the block it handed out, if it did. */
    method DoAccept(env: seq<Tick>, room: bool, sig_ok: bool, fd: Option<nat>, nomem: bool) returns (out: Tcb?)
      requires Valid() && Logged() && (fd.Some? ==> fd.value !in socks)
      modifies this, listen_queue, syn_timestamp, tcbs
      ensures Valid() && Logged() && old(tcbs) <= tcbs && fresh(tcbs - old(tcbs))
      ensures Steps(old(owner), owner)
      ensures Accepts(log) == old(Accepts(log)) + if out != null then 1 else 0
      ensures out != null ==>
                && out in owner && owner[out].InSocket? && (out in old(owner) ==> old(owner[out]).InSlot?)
                && ESTAB <= out.state < CLOSED
    {
      out := null;
      var r, peer;
      ghost var end, polls;
      r, peer, end, polls := Accept(env, room, sig_ok, fd, nomem);
      if r.NewSock? {
        out := socks[r.fd].tcb;
      }
    }

    /** One operation; the block it handed out, if it did. */
    method DoOp(op: Op) returns (out: Tcb?)
      requires Valid() && Logged()
      modifies this, listen_queue, syn_timestamp, tcbs
      ensures Valid() && Logged() && old(tcbs) <= tcbs && fresh(tcbs - old(tcbs))
      ensures Steps(old(owner), owner)
      ensures Accepts(log) == old(Accepts(log)) + if out != null then 1 else 0
      ensures out != null ==>
                && out in owner && owner[out].InSocket? && (out in old(owner) ==> old(owner[out]).InSlot?)
                && ESTAB <= out.state < CLOSED
    {
      out := null;
      match op
      case OpTick(events) => TcpTick(events);
      case OpAccept(env, room, sig_ok, fd, nomem) =>
        out := DoAccept(env, room, sig_ok, if fd.Some? && fd.value in socks then None else fd, nomem);
      case OpClose =>
        if open && acceptconn && tcp_sock != null {
          CloseStream();
        }
      case OpDelFd(fd) =>
        if fd in socks {
          CloseSock(fd);
        }
    }
  }
}
