/** abrloop.c: what holds of the block list and of the switches over every run. */
module BlockRuns {
  import opened BlockList

  // ---- the invariant of every run ----

  ghost predicate NoDuplicates(q: seq<Block>) {
    forall i, j :: 0 <= i < j < |q| ==> q[i].mac.mac != q[j].mac.mac
  }

  ghost predicate TimersRun(q: seq<Block>) {
    forall i :: 0 <= i < |q| ==> 1 <= q[i].timer <= BLOCK_TIME
  }

  /** The MACs whose last request was to block them. */
  function Blocked(log: seq<Request>): set<Address> {
    if log == [] then {}
    else
      var n := |log| - 1;
      if log[n].block then Blocked(log[..n]) + {log[n].mac.mac} else Blocked(log[..n]) - {log[n].mac.mac}
  }

  /** Nothing is unblocked that was not blocked. */
  predicate Proper(log: seq<Request>) {
    log == [] ||
    var n := |log| - 1;
    Proper(log[..n]) && (log[n].block || log[n].mac.mac in Blocked(log[..n]))
  }

  ghost predicate Sane(q: seq<Block>) {
    NoDuplicates(q) && TimersRun(q)
  }

  ghost predicate Inv(s: State) {
    && Sane(s.q) && Proper(s.log)
    && forall mac :: mac in Blocked(s.log) <==> Listed(s.q, mac)
  }

  lemma InvSane(s: State)
    requires Inv(s)
    ensures Sane(s.q)
  {
  }

  lemma ListedIs(q: seq<Block>, mac: Address)
    ensures Listed(q, mac) <==> exists i :: 0 <= i < |q| && q[i].mac.mac == mac
  {
  }

  lemma Logged(log: seq<Request>, r: Request)
    ensures Blocked(log + [r]) == if r.block then Blocked(log) + {r.mac.mac} else Blocked(log) - {r.mac.mac}
    ensures Proper(log + [r]) <==> Proper(log) && (r.block || r.mac.mac in Blocked(log))
  {
    assert (log + [r])[..|log|] == log;
  }

  lemma HandleKeeps(s: State, r: Report)
    requires Inv(s)
    ensures Inv(Handle(s, r))
  {
    hide Blocked, Proper, Ports;
    var t := Handle(s, r);
    Logged(s.log, Request(r.mac, true));
    forall mac
      ensures mac in Blocked(t.log) <==> Listed(t.q, mac)
    {
      ListedIs(s.q, mac);
      ListedIs(t.q, mac);
      HandleLists(s, r, mac);
    }
  }

  lemma HandleLists(s: State, r: Report, mac: Address)
    requires NoDuplicates(s.q)
    ensures var t := Handle(s, r);
            Listed(t.q, mac) <==> Listed(s.q, mac) || (mac == r.mac.mac && r.memory)
  {
    hide Ports;
    var t, i := Handle(s, r), Find(s.q, r.mac.mac);
    if i < |s.q| && t != s {
      assert forall j :: 0 <= j < |s.q| ==> t.q[j].mac.mac == s.q[j].mac.mac;
      ListedIs(s.q, mac);
      ListedIs(t.q, mac);
    }
  }

  lemma AgedAtLists(q: seq<Block>, i: nat, mac: Address)
    requires NoDuplicates(q) && i < |q|
    ensures Listed(AgedAt(q, i), mac) <==> Listed(q, mac) && (q[i].timer != 1 || mac != q[i].mac.mac)
  {
    var r := AgedAt(q, i);
    ListedIs(q, mac);
    ListedIs(r, mac);
    if q[i].timer == 1 {
      assert forall j :: 0 <= j < |r| ==> r[j] == q[if j < i then j else j + 1];
      if Listed(q, mac) && mac != q[i].mac.mac {
        var j := Find(q, mac);
        assert r[if j < i then j else j - 1] == q[j];
      }
    } else {
      assert forall j :: 0 <= j < |q| ==> r[j].mac.mac == q[j].mac.mac;
    }
  }

  lemma AgedAtKeeps(q: seq<Block>, log: seq<Request>, i: nat)
    requires Inv(State(q, log)) && i < |q|
    ensures Inv(State(AgedAt(q, i), log + UnblockOne(q[i])))
  {
    hide Blocked, Proper, Listed;
    var b, r := q[i], AgedAt(q, i);
    Logged(log, Request(b.mac, false));
    forall mac
      ensures Listed(r, mac) <==> Listed(q, mac) && (b.timer != 1 || mac != b.mac.mac)
    {
      AgedAtLists(q, i, mac);
    }
    ListedIs(q, b.mac.mac);
    if b.timer == 1 {
      assert forall j :: 0 <= j < |r| ==> r[j] == q[if j < i then j else j + 1];
    } else {
      assert log + UnblockOne(b) == log;
      assert forall j :: 0 <= j < |q| ==> r[j].mac.mac == q[j].mac.mac;
    }
  }

  lemma AgeKeeps(s: State)
    requires Inv(s)
    ensures Inv(Age(s))
  {
    hide Inv, PartlyAged, AgedAt, AgedOne, UnblockOne, Aged, Unblocks;
    var q, log, i, k := s.q, s.log, 0, 0;
    AgedNone(s.q);
    assert log + Unblocks(s.q[..0]) == log;
    while k < |s.q|
      invariant 0 <= i <= k <= |s.q| && |s.q| - k == |q| - i && PartlyAged(s.q, k, q, i)
      invariant log == s.log + Unblocks(s.q[..k]) && Inv(State(q, log))
    {
      AgeNext(s.q, k, q, i);
      AgedAtKeeps(q, log, i);
      q, log, i, k := AgedAt(q, i), log + UnblockOne(q[i]), i + |AgedOne(s.q[k])|, k + 1;
    }
    AgedAll(s.q, q, i);
  }

  lemma {:induction false} HandleAllKeeps(s: State, rs: seq<Report>)
    requires Inv(s)
    ensures Inv(HandleAll(s, rs))
  {
    hide Inv, Handle, Loops;
    if rs != [] {
      var n := |rs| - 1;
      HandleAllKeeps(s, rs[..n]);
      HandleKeeps(HandleAll(s, rs[..n]), rs[n]);
    }
  }

  /**
   * In every run no MAC is listed twice, timers are between 1 and BLOCK_TIME, only blocked MACs are unblocked,
   * and the listed MACs are exactly those the switches were told to block.
   */
  lemma {:induction false} RunKeeps(rounds: seq<seq<Report>>)
    ensures Inv(Run(State([], []), rounds))
  {
    if rounds == [] {
      assert forall mac :: !Listed([], mac);
    } else {
      hide Inv, Age;
      var n := |rounds| - 1;
      RunKeeps(rounds[..n]);
      var s := Run(State([], []), rounds[..n]);
      HandleAllKeeps(s, rounds[n]);
      AgeKeeps(HandleAll(s, rounds[n]));
    }
  }

  // ---- what gets a MAC listed ----

  /** The MAC was seen on two ports, or the switch already blocks it. */
  ghost predicate Looping(m: SwMac) {
    m.state != 0 || exists i, j :: 0 <= i < j < 32 && Bit(m.vec, i) && Bit(m.vec, j)
  }

  lemma LoopsIsLooping(m: SwMac)
    ensures Loops(m) <==> Looping(m)
  {
    hide Count, Bit;
    var b := BitSet(m.vec, 32);
    CountIsCardinality(m.vec, 32);
    if i, j :| 0 <= i < j < 32 && Bit(m.vec, i) && Bit(m.vec, j) {
      assert i in b && j in b && i != j;
      assert |b - {i}| == |b| - 1 && j in b - {i};
    }
    if |b| > 1 {
      var i :| i in b;
      assert b != {i};
      var j :| j in b && j != i;
      assert Bit(m.vec, i) && Bit(m.vec, j);
      assert i < j || j < i;
    }
  }

  /** Some report of the round shows the MAC on two ports, or blocked; with memory if asked for. */
  ghost predicate Shown(rs: seq<Report>, mac: Address, withMemory: bool) {
    exists i :: 0 <= i < |rs| && rs[i].mac.mac == mac && Looping(rs[i].mac) && (withMemory ==> rs[i].memory)
  }

  /** A block request for the MAC among those sent since the log had n entries. */
  predicate BlockSent(log: seq<Request>, n: nat, mac: Address) {
    exists k :: n <= k < |log| && log[k].block && log[k].mac.mac == mac
  }

  lemma HandleSends(s: State, r: Report, n: nat, mac: Address)
    requires n <= |s.log| && NoDuplicates(s.q)
    ensures var t := Handle(s, r);
      && s.log <= t.log
      && (BlockSent(s.log, n, mac) ==> BlockSent(t.log, n, mac))
      && (mac != r.mac.mac ==> (BlockSent(t.log, n, mac) <==> BlockSent(s.log, n, mac)))
      && (mac == r.mac.mac && r.memory && !Listed(s.q, mac) ==> BlockSent(t.log, n, mac))
  {
    hide Ports, NoDuplicates;
    var t, e := Handle(s, r), Request(r.mac, true);
    assert t.log == s.log || t.log == s.log + [e];
    if t.log == s.log + [e] {
      assert forall k :: 0 <= k < |s.log| ==> t.log[k] == s.log[k];
      assert t.log[|s.log|] == e;
    }
  }

  lemma {:induction false} HandleAllLists(s: State, rs: seq<Report>, mac: Address)
    requires Sane(s.q)
    ensures var t := HandleAll(s, rs);
      && Sane(t.q) && s.log <= t.log
      && (Listed(s.q, mac) ==> Listed(t.q, mac))
      && (Shown(rs, mac, true) ==> Listed(t.q, mac))
      && (Shown(rs, mac, true) && !Listed(s.q, mac) ==> BlockSent(t.log, |s.log|, mac))
      && (!Shown(rs, mac, false) ==> (Listed(t.q, mac) <==> Listed(s.q, mac)) && !BlockSent(t.log, |s.log|, mac))
      && (Listed(t.q, mac) && !Listed(s.q, mac) ==> BlockSent(t.log, |s.log|, mac))
  {
    hide Handle, Loops, Looping, Listed, Sane;
    if rs != [] {
      var n := |rs| - 1;
      var t := HandleAll(s, rs[..n]);
      HandleAllLists(s, rs[..n], mac);
      LoopsIsLooping(rs[n].mac);
      ShownLast(rs, mac);
      if Loops(rs[n].mac) {
        SaneIs(t.q);
        HandleSane(t, rs[n]);
        HandleLists(t, rs[n], mac);
        HandleSends(t, rs[n], |s.log|, mac);
      }
    }
  }

  lemma SaneIs(q: seq<Block>)
    requires Sane(q)
    ensures NoDuplicates(q) && TimersRun(q)
  {
  }

  lemma ShownLast(rs: seq<Report>, mac: Address)
    requires rs != []
    ensures var n := |rs| - 1;
      forall m :: Shown(rs, mac, m) <==>
        Shown(rs[..n], mac, m) || (rs[n].mac.mac == mac && Looping(rs[n].mac) && (m ==> rs[n].memory))
  {
    hide Looping;
    var n := |rs| - 1;
    forall m | Shown(rs[..n], mac, m)
      ensures Shown(rs, mac, m)
    {
      var i :| 0 <= i < n && rs[..n][i].mac.mac == mac && Looping(rs[..n][i].mac) && (m ==> rs[..n][i].memory);
      assert rs[i] == rs[..n][i];
    }
    forall m | Shown(rs, mac, m)
      ensures Shown(rs[..n], mac, m) || (rs[n].mac.mac == mac && Looping(rs[n].mac) && (m ==> rs[n].memory))
    {
      var i :| 0 <= i < |rs| && rs[i].mac.mac == mac && Looping(rs[i].mac) && (m ==> rs[i].memory);
      if i < n {
        assert rs[i] == rs[..n][i];
      }
    }
  }

  // ---- one unblock for each removal ----

  function Entry(q: seq<Block>, mac: Address): Block
    requires Listed(q, mac)
  {
    q[Find(q, mac)]
  }

  function Unblockings(u: seq<Request>, mac: Address): nat {
    if u == [] then 0
    else (if u[0].mac.mac == mac && !u[0].block then 1 else 0) + Unblockings(u[1..], mac)
  }

  lemma FindCons(b: Block, q: seq<Block>, mac: Address)
    ensures Find([b] + q, mac) == if b.mac.mac == mac then 0 else 1 + Find(q, mac)
    ensures Listed([b] + q, mac) <==> b.mac.mac == mac || Listed(q, mac)
    ensures b.mac.mac != mac && Listed(q, mac) ==> Entry([b] + q, mac) == Entry(q, mac)
    ensures b.mac.mac == mac ==> Entry([b] + q, mac) == b
  {
    assert ([b] + q)[1..] == q;
  }

  lemma UnblockingsCons(r: Request, u: seq<Request>, mac: Address)
    ensures Unblockings([r] + u, mac) == (if r.mac.mac == mac && !r.block then 1 else 0) + Unblockings(u, mac)
  {
    assert ([r] + u)[1..] == u;
  }

  lemma Rest(q: seq<Block>)
    requires q != [] && NoDuplicates(q)
    ensures NoDuplicates(q[1..]) && !Listed(q[1..], q[0].mac.mac) && q == [q[0]] + q[1..]
  {
    var rest := q[1..];
    assert forall j :: 0 <= j < |rest| ==> rest[j] == q[j + 1];
    ListedIs(rest, q[0].mac.mac);
  }

  /** Aging takes one round from the timer of every entry, and removes exactly the entries whose timer was 1. */
  lemma {:induction false} AgedEntry(q: seq<Block>, mac: Address)
    requires NoDuplicates(q)
    ensures Listed(Aged(q), mac) <==> Listed(q, mac) && Entry(q, mac).timer != 1
    ensures Listed(Aged(q), mac) ==>
              Entry(Aged(q), mac) == Block(Entry(q, mac).mac, Decremented(Entry(q, mac).timer))
    ensures Unblockings(Unblocks(q), mac) == if Listed(q, mac) && !Listed(Aged(q), mac) then 1 else 0
  {
    if q != [] {
      var b, rest := q[0], q[1..];
      Rest(q);
      AgedEntry(rest, mac);
      assert Aged(q) == AgedOne(b) + Aged(rest) && Unblocks(q) == UnblockOne(b) + Unblocks(rest);
      hide NoDuplicates, Find, Listed, Entry, Unblockings, Aged, Unblocks;
      FindCons(b, rest, mac);
      if b.timer == 1 {
        assert Aged(q) == Aged(rest) && Unblocks(q) == [Request(b.mac, false)] + Unblocks(rest);
        UnblockingsCons(Request(b.mac, false), Unblocks(rest), mac);
      } else {
        var older := Block(b.mac, Decremented(b.timer));
        assert Aged(q) == [older] + Aged(rest) && Unblocks(q) == Unblocks(rest);
        FindCons(older, Aged(rest), mac);
      }
    }
  }

  // ---- how long a MAC stays, whatever the list is at first ----

  lemma HandleSane(s: State, r: Report)
    requires Sane(s.q)
    ensures Sane(Handle(s, r).q)
  {
    hide Ports;
    ListedIs(s.q, r.mac.mac);
  }

  lemma {:induction false} HandleAllSane(s: State, rs: seq<Report>)
    requires Sane(s.q)
    ensures Sane(HandleAll(s, rs).q)
  {
    hide Sane, Handle, Loops;
    if rs != [] {
      var n := |rs| - 1;
      HandleAllSane(s, rs[..n]);
      HandleSane(HandleAll(s, rs[..n]), rs[n]);
    }
  }

  lemma {:induction false} AgedSane(q: seq<Block>)
    requires Sane(q)
    ensures Sane(Aged(q))
  {
    if q != [] {
      Rest(q);
      AgedSane(q[1..]);
      AgedEntry(q[1..], q[0].mac.mac);
      ListedIs(Aged(q[1..]), q[0].mac.mac);
      assert Aged(q) == AgedOne(q[0]) + Aged(q[1..]);
    }
  }

  lemma {:induction false} UnblocksOnly(q: seq<Block>)
    ensures forall k :: 0 <= k < |Unblocks(q)| ==> !Unblocks(q)[k].block
  {
    if q != [] {
      UnblocksOnly(q[1..]);
    }
  }

  lemma AgeSends(s: State, n: nat, mac: Address)
    requires n <= |s.log|
    ensures BlockSent(Age(s).log, n, mac) <==> BlockSent(s.log, n, mac)
  {
    hide Unblocks, Aged;
    UnblocksOnly(s.q);
    var log := Age(s).log;
    assert forall k :: 0 <= k < |s.log| ==> log[k] == s.log[k];
    assert forall k :: |s.log| <= k < |log| ==> log[k] == Unblocks(s.q)[k - |s.log|];
  }

  /**
   * One round: a MAC that a report shows on two ports, or as blocked, is listed and, if it was not before, blocked on the
   * switches. It is still listed after the round, unless it was before and its time is up. A MAC that no report shows so
   * is neither listed anew nor blocked.
   */
  lemma RoundLists(s: State, rs: seq<Report>, mac: Address)
    requires Sane(s.q)
    ensures var t, n := Round(s, rs), |s.log|;
      && (Shown(rs, mac, true) ==> Listed(HandleAll(s, rs).q, mac))
      && (Shown(rs, mac, true) && !Listed(s.q, mac) ==> Listed(t.q, mac) && BlockSent(t.log, n, mac))
      && (!Shown(rs, mac, false) ==> (Listed(t.q, mac) ==> Listed(s.q, mac)) && !BlockSent(t.log, n, mac))
  {
    hide Looping, HandleAll, Aged, Unblocks, Find;
    var m := HandleAll(s, rs);
    HandleAllLists(s, rs, mac);
    AgeSends(m, |s.log|, mac);
    AgedEntry(m.q, mac);
    if Listed(m.q, mac) && !Listed(s.q, mac) {
      NewEntryTimer(s, rs, mac);
    }
  }

  /** A MAC listed in this round has its whole time before it. */
  lemma {:induction false} NewEntryTimer(s: State, rs: seq<Report>, mac: Address)
    requires Sane(s.q) && !Listed(s.q, mac) && Listed(HandleAll(s, rs).q, mac)
    ensures Entry(HandleAll(s, rs).q, mac).timer == BLOCK_TIME
  {
    hide Loops, Sane, Handle, Find;
    if rs != [] {
      var n := |rs| - 1;
      var t := HandleAll(s, rs[..n]);
      HandleAllSane(s, rs[..n]);
      if Listed(t.q, mac) {
        NewEntryTimer(s, rs[..n], mac);
        FullTimerStays(t, rs[n], mac);
      } else {
        FreshTimer(t, rs[n], mac);
      }
    }
  }

  lemma FullTimerStays(s: State, r: Report, mac: Address)
    requires Sane(s.q) && Listed(s.q, mac) && Entry(s.q, mac).timer == BLOCK_TIME
    ensures Listed(Handle(s, r).q, mac) && Entry(Handle(s, r).q, mac).timer == BLOCK_TIME
  {
    HandleEntry(s, r, mac);
    HandleSane(s, r);
    EntryRuns(Handle(s, r).q, mac);
    hide Handle, Find;
  }

  lemma FreshTimer(s: State, r: Report, mac: Address)
    requires Sane(s.q) && !Listed(s.q, mac) && Listed(Handle(s, r).q, mac)
    ensures Entry(Handle(s, r).q, mac).timer == BLOCK_TIME
  {
    hide Ports;
    HandleLists(s, r, mac);
    SameEntry(Handle(s, r).q, 0, mac);
  }

  /** A report of a listed MAC restarts it exactly for strictly more ports than it was listed with. */
  lemma RestartLaw(s: State, r: Report)
    requires Sane(s.q) && Listed(s.q, r.mac.mac)
    ensures var e, t := Entry(s.q, r.mac.mac), Handle(s, r);
      if Ports(r.mac.vec) > Ports(e.mac.vec) then
        && Listed(t.q, r.mac.mac) && Entry(t.q, r.mac.mac) == Block(r.mac, BLOCK_TIME)
        && t.log == s.log + [Request(r.mac, true)]
      else t == s
  {
    hide Ports;
    var i := Find(s.q, r.mac.mac);
    if Handle(s, r) != s {
      SameEntry(Handle(s, r).q, i, r.mac.mac);
    }
  }

  /** Rounds left at most: the timer, and a full block time for every port that could still show up. */
  function Potential(b: Block): int {
    b.timer + BLOCK_TIME * (32 - Ports(b.mac.vec))
  }

  lemma HandleEntry(s: State, r: Report, mac: Address)
    requires Sane(s.q)
    ensures Listed(s.q, mac) ==>
              && Listed(Handle(s, r).q, mac)
              && Potential(Entry(Handle(s, r).q, mac)) <= Potential(Entry(s.q, mac))
              && Entry(s.q, mac).timer <= Entry(Handle(s, r).q, mac).timer
  {
    hide Ports, Blocked, Proper;
    var t, i := Handle(s, r), Find(s.q, r.mac.mac);
    if Listed(s.q, mac) && t != s {
      HandleLists(s, r, mac);
      var k := Find(s.q, mac);
      if i == |s.q| {
        assert t.q[k + 1] == s.q[k];
        SameEntry(t.q, k + 1, mac);
      } else {
        assert forall j :: 0 <= j < |s.q| ==> t.q[j].mac.mac == s.q[j].mac.mac;
        SameEntry(t.q, k, mac);
      }
    }
  }

  lemma SameEntry(q: seq<Block>, i: nat, mac: Address)
    requires i < |q| && q[i].mac.mac == mac
    requires forall j :: 0 <= j < i ==> q[j].mac.mac != mac
    ensures Listed(q, mac) && Entry(q, mac) == q[i]
  {
  }

  lemma {:induction false} HandleAllEntry(s: State, rs: seq<Report>, mac: Address)
    requires Sane(s.q) && Listed(s.q, mac)
    ensures var t := HandleAll(s, rs);
            && Listed(t.q, mac)
            && Potential(Entry(t.q, mac)) <= Potential(Entry(s.q, mac))
            && Entry(s.q, mac).timer <= Entry(t.q, mac).timer
  {
    hide Sane, Handle, Loops, Potential, Find;
    if rs != [] {
      var n := |rs| - 1;
      HandleAllEntry(s, rs[..n], mac);
      HandleAllSane(s, rs[..n]);
      HandleEntry(HandleAll(s, rs[..n]), rs[n], mac);
    }
  }

  lemma RoundEntry(s: State, rs: seq<Report>, mac: Address)
    requires Sane(s.q) && Listed(s.q, mac)
    ensures var t := Round(s, rs);
            && Sane(t.q)
            && (Entry(s.q, mac).timer > 1 ==> Listed(t.q, mac) && Entry(t.q, mac).timer >= Entry(s.q, mac).timer - 1)
            && (Listed(t.q, mac) ==> Potential(Entry(t.q, mac)) < Potential(Entry(s.q, mac)))
  {
    hide Ports, Blocked, Proper, HandleAll, Find, Aged, Unblocks;
    var m := HandleAll(s, rs);
    HandleAllSane(s, rs);
    HandleAllEntry(s, rs, mac);
    AgedSane(m.q);
    AgedEntry(m.q, mac);
    EntryRuns(m.q, mac);
  }

  lemma EntryRuns(q: seq<Block>, mac: Address)
    requires TimersRun(q) && Listed(q, mac)
    ensures 1 <= Entry(q, mac).timer <= BLOCK_TIME
    ensures 1 <= Potential(Entry(q, mac)) <= 33 * BLOCK_TIME
  {
  }

  lemma RunStep(s: State, rounds: seq<seq<Report>>, k: nat)
    requires k < |rounds|
    ensures Run(s, rounds[..k + 1]) == Round(Run(s, rounds[..k]), rounds[k])
  {
    assert rounds[..k + 1][..k] == rounds[..k];
  }

  /** A MAC listed at every one of the first k rounds has used up k of its potential. */
  lemma {:induction false} PotentialFalls(s: State, rounds: seq<seq<Report>>, k: nat, mac: Address)
    requires Sane(s.q) && k <= |rounds|
    requires forall j :: 0 <= j <= k ==> Listed(Run(s, rounds[..j]).q, mac)
    ensures Sane(Run(s, rounds[..k]).q) && Listed(s.q, mac)
    ensures Potential(Entry(Run(s, rounds[..k]).q, mac)) + k <= Potential(Entry(s.q, mac))
  {
    hide Sane, Potential, Find, Round;
    if k == 0 {
      assert Run(s, rounds[..0]) == s;
    } else {
      PotentialFalls(s, rounds, k - 1, mac);
      RunStep(s, rounds, k - 1);
      assert Listed(Run(s, rounds[..k]).q, mac);
      RoundEntry(Run(s, rounds[..k - 1]), rounds[k - 1], mac);
    }
  }

  /** No MAC stays listed for BLOCK_TIME * 33 rounds, whatever is reported in them. */
  lemma LeavesInTime(s: State, rounds: seq<seq<Report>>, mac: Address)
    requires Sane(s.q) && |rounds| >= 33 * BLOCK_TIME
    ensures exists k :: 0 <= k <= |rounds| && !Listed(Run(s, rounds[..k]).q, mac)
  {
    if forall k :: 0 <= k <= |rounds| ==> Listed(Run(s, rounds[..k]).q, mac) {
      PotentialFalls(s, rounds, 33 * BLOCK_TIME, mac);
      EntryRuns(s.q, mac);
      EntryRuns(Run(s, rounds[..33 * BLOCK_TIME]).q, mac);
      assert false;
    }
  }

  /** A listed MAC stays listed for every round its timer still has, whatever is reported in them. */
  lemma {:induction false} StaysForItsTimer(s: State, rounds: seq<seq<Report>>, mac: Address)
    requires Sane(s.q) && Listed(s.q, mac) && |rounds| < Entry(s.q, mac).timer
    ensures var t := Run(s, rounds);
            Sane(t.q) && Listed(t.q, mac) && Entry(t.q, mac).timer >= Entry(s.q, mac).timer - |rounds|
  {
    hide Sane, Find, Round;
    if rounds != [] {
      var n := |rounds| - 1;
      StaysForItsTimer(s, rounds[..n], mac);
      RoundEntry(Run(s, rounds[..n]), rounds[n], mac);
    }
  }

  // ---- what the switch ports hold ----

  /** A switch port: its bit in the port vector, and whether it leads to the cpu. */
  datatype Port = Port(base: nat, cpu: bool)

  /** The ports mac_block writes to. */
  predicate Targeted(p: Port, m: SwMac) {
    !p.cpu && (Bit(m.vec, p.base) || m.state != 0)
  }

  /** Whether the port still has the static entry that blocks the MAC. */
  predicate Held(p: Port, mac: Address, log: seq<Request>) {
    log != [] &&
    var n := |log| - 1;
    if log[n].mac.mac == mac && Targeted(p, log[n].mac) then log[n].block else Held(p, mac, log[..n])
  }

  /** The port blocks exactly the listed MACs that were last seen on it. */
  ghost predicate Mirrors(p: Port, s: State) {
    forall mac :: Held(p, mac, s.log) <==> Listed(s.q, mac) && Targeted(p, Entry(s.q, mac).mac)
  }

  lemma HeldNext(p: Port, mac: Address, log: seq<Request>, r: Request)
    ensures Held(p, mac, log + [r]) <==> if r.mac.mac == mac && Targeted(p, r.mac) then r.block else Held(p, mac, log)
  {
    assert (log + [r])[..|log|] == log;
  }

  lemma HandleOther(s: State, r: Report, mac: Address)
    requires Sane(s.q) && mac != r.mac.mac
    ensures Listed(Handle(s, r).q, mac) <==> Listed(s.q, mac)
    ensures Listed(s.q, mac) ==> Entry(Handle(s, r).q, mac) == Entry(s.q, mac)
  {
    hide Ports, Blocked, Proper;
    var t, i := Handle(s, r), Find(s.q, r.mac.mac);
    HandleLists(s, r, mac);
    if Listed(s.q, mac) && t != s {
      var k := Find(s.q, mac);
      if i == |s.q| {
        SameEntry(t.q, k + 1, mac);
      } else {
        assert forall j :: 0 <= j < |s.q| ==> t.q[j].mac.mac == s.q[j].mac.mac;
        SameEntry(t.q, k, mac);
      }
    }
  }

  lemma HandleSelf(s: State, r: Report)
    requires Sane(s.q)
    ensures var t, mac := Handle(s, r), r.mac.mac;
            && (!Listed(s.q, mac) && r.memory ==> Listed(t.q, mac) && Entry(t.q, mac).mac == r.mac)
            && (Listed(s.q, mac) && Ports(r.mac.vec) > Ports(Entry(s.q, mac).mac.vec) ==>
                  Listed(t.q, mac) && Entry(t.q, mac).mac == r.mac)
  {
    hide Ports, Blocked, Proper;
    var t, i := Handle(s, r), Find(s.q, r.mac.mac);
    if t != s {
      SameEntry(t.q, if i == |s.q| then 0 else i, r.mac.mac);
    }
  }

  /**
   * The switch reports a MAC that it holds with the mark of a blocked one, and such a report is meant for every port:
   * it keeps a port in step with the list. Without the mark it does so unless it moves the MAC off a port.
   */
  lemma HandleMirrors(p: Port, s: State, r: Report)
    requires Sane(s.q) && Mirrors(p, s)
    ensures Mirrors(p, Handle(s, r)) <==> !MovesOff(p, s, r)
    ensures (Held(p, r.mac.mac, s.log) ==> r.mac.state != 0) ==> Mirrors(p, Handle(s, r))
  {
    var t, m := Handle(s, r), r.mac.mac;
    HandleSelf(s, r);
    assert (Held(p, m, s.log) ==> r.mac.state != 0) ==> !MovesOff(p, s, r);
    hide Sane, Targeted, Find, Ports;
    forall mac
      ensures Held(p, mac, t.log) <==> if t != s && mac == m && Targeted(p, r.mac) then true else Held(p, mac, s.log)
    {
      HeldNext(p, mac, s.log, Request(r.mac, true));
    }
    forall mac | mac != m
      ensures Held(p, mac, t.log) <==> Listed(t.q, mac) && Targeted(p, Entry(t.q, mac).mac)
    {
      HandleOther(s, r, mac);
      assert Held(p, mac, s.log) <==> Listed(s.q, mac) && Targeted(p, Entry(s.q, mac).mac);
    }
    assert Held(p, m, s.log) <==> Listed(s.q, m) && Targeted(p, Entry(s.q, m).mac);
    assert (Held(p, m, t.log) <==> Listed(t.q, m) && Targeted(p, Entry(t.q, m).mac)) <==> !MovesOff(p, s, r);
  }

  /** A restart for more ports than before, but not for this one any more. */
  predicate MovesOff(p: Port, s: State, r: Report) {
    && Listed(s.q, r.mac.mac)
    && Ports(r.mac.vec) > Ports(Entry(s.q, r.mac.mac).mac.vec)
    && Targeted(p, Entry(s.q, r.mac.mac).mac) && !Targeted(p, r.mac)
  }

  // ---- what the switches report ----

  /**
   * The reports of a round are for different MACs, and a MAC that the port holds is marked as blocked: its entry
   * has no ports, which is what mac_block wrote.
   */
  ghost predicate Honest(p: Port, log: seq<Request>, rs: seq<Report>) {
    && (forall i, j :: 0 <= i < j < |rs| ==> rs[i].mac.mac != rs[j].mac.mac)
    && (forall i :: 0 <= i < |rs| && Held(p, rs[i].mac.mac, log) ==> rs[i].mac.state != 0)
  }

  ghost predicate HonestRun(p: Port, s: State, rounds: seq<seq<Report>>) {
    forall k :: 0 <= k < |rounds| ==> Honest(p, Run(s, rounds[..k]).log, rounds[k])
  }

  /** A report changes nothing for another MAC. */
  lemma HandleHeldOther(p: Port, s: State, r: Report, mac: Address)
    requires mac != r.mac.mac
    ensures Held(p, mac, Handle(s, r).log) <==> Held(p, mac, s.log)
  {
    hide Find, Ports, Held;
    HeldNext(p, mac, s.log, Request(r.mac, true));
  }

  lemma {:induction false} HandleAllHeldOther(p: Port, s: State, rs: seq<Report>, mac: Address)
    requires forall i :: 0 <= i < |rs| ==> rs[i].mac.mac != mac
    ensures Held(p, mac, HandleAll(s, rs).log) <==> Held(p, mac, s.log)
  {
    hide Handle, Loops, Held;
    if rs != [] {
      var n := |rs| - 1;
      HandleAllHeldOther(p, s, rs[..n], mac);
      HandleHeldOther(p, HandleAll(s, rs[..n]), rs[n], mac);
    }
  }

  lemma {:induction false} HeldAfter(p: Port, mac: Address, log: seq<Request>, q: seq<Block>)
    requires NoDuplicates(q)
    ensures Held(p, mac, log + Unblocks(q)) <==>
            Held(p, mac, log) && !(Listed(q, mac) && Entry(q, mac).timer == 1 && Targeted(p, Entry(q, mac).mac))
    decreases |q|
  {
    if q == [] {
      assert log + Unblocks(q) == log;
    } else {
      var b, rest := q[0], q[1..];
      Rest(q);
      var l := log + UnblockOne(b);
      assert log + Unblocks(q) == l + Unblocks(rest);
      HeldAfter(p, mac, l, rest);
      HeldNext(p, mac, log, Request(b.mac, false));
      assert b.timer != 1 ==> l == log;
      hide NoDuplicates, Find, Listed, Entry, Held, Targeted, Unblocks;
      FindCons(b, rest, mac);
    }
  }

  /** The aging loop always keeps a port in step with the list. */
  lemma AgeMirrors(p: Port, s: State)
    requires Sane(s.q) && Mirrors(p, s)
    ensures Mirrors(p, Age(s))
  {
    hide Find, Targeted, Aged, Unblocks;
    forall mac
      ensures Held(p, mac, Age(s).log) <==> Listed(Age(s).q, mac) && Targeted(p, Entry(Age(s).q, mac).mac)
    {
      HeldAfter(p, mac, s.log, s.q);
      AgedEntry(s.q, mac);
    }
  }

  lemma {:induction false} HandleAllMirrors(p: Port, s: State, rs: seq<Report>)
    requires Sane(s.q) && Mirrors(p, s) && Honest(p, s.log, rs)
    ensures Mirrors(p, HandleAll(s, rs))
  {
    hide Sane, Mirrors, Handle, Loops, Held;
    if rs != [] {
      var n := |rs| - 1;
      HandleAllMirrors(p, s, rs[..n]);
      HandleAllSane(s, rs[..n]);
      HandleAllHeldOther(p, s, rs[..n], rs[n].mac.mac);
      HandleMirrors(p, HandleAll(s, rs[..n]), rs[n]);
    }
  }

  lemma HonestPrefix(p: Port, s: State, rounds: seq<seq<Report>>)
    requires HonestRun(p, s, rounds) && rounds != []
    ensures var n := |rounds| - 1; HonestRun(p, s, rounds[..n]) && Honest(p, Run(s, rounds[..n]).log, rounds[n])
  {
    hide Run, Honest;
    var n := |rounds| - 1;
    assert forall k :: 0 <= k < n ==> rounds[..n][..k] == rounds[..k];
  }

  /** In every run each port blocks exactly the listed MACs that were last seen on it. */
  lemma {:induction false} RunMirrors(p: Port, rounds: seq<seq<Report>>)
    requires HonestRun(p, State([], []), rounds)
    ensures Mirrors(p, Run(State([], []), rounds))
  {
    if rounds == [] {
      assert forall mac :: !Listed([], mac);
    } else {
      hide Inv, Sane, Mirrors, Honest, HonestRun, HandleAll, Age;
      var n := |rounds| - 1;
      var s := Run(State([], []), rounds[..n]);
      HonestPrefix(p, State([], []), rounds);
      RunMirrors(p, rounds[..n]);
      RunKeeps(rounds[..n]);
      InvSane(s);
      HandleAllMirrors(p, s, rounds[n]);
      HandleAllSane(s, rounds[n]);
      AgeMirrors(p, HandleAll(s, rounds[n]));
    }
  }

  // ---- a port that holds a MAC is freed, even if the list knows nothing of it at first ----

  /** The entry was made from a report with the mark of a blocked MAC: its requests are meant for every port. */
  predicate Marked(q: seq<Block>, mac: Address) {
    Listed(q, mac) ==> Entry(q, mac).mac.state != 0
  }

  predicate Reports(rs: seq<Report>, mac: Address) {
    exists i :: 0 <= i < |rs| && rs[i].mac.mac == mac && rs[i].memory
  }

  lemma HandleMarked(p: Port, s: State, r: Report, mac: Address)
    requires Sane(s.q) && !p.cpu && Held(p, mac, s.log) && (r.mac.mac == mac ==> r.mac.state != 0)
    ensures var t := Handle(s, r);
      && Held(p, mac, t.log) && (Marked(s.q, mac) ==> Marked(t.q, mac))
      && (!Listed(s.q, mac) ==> Marked(t.q, mac))
      && (r.mac.mac == mac && r.memory ==> Listed(t.q, mac)) && (Listed(s.q, mac) ==> Listed(t.q, mac))
  {
    hide Sane, Find, Ports, Held;
    if mac == r.mac.mac {
      HeldNext(p, mac, s.log, Request(r.mac, true));
      HandleMarkedSelf(s, r);
    } else {
      HandleOther(s, r, mac);
      HandleHeldOther(p, s, r, mac);
    }
  }

  lemma HandleMarkedSelf(s: State, r: Report)
    requires Sane(s.q) && r.mac.state != 0
    ensures var t, mac := Handle(s, r), r.mac.mac;
      && (r.memory || Listed(s.q, mac) ==> Listed(t.q, mac))
      && (!Listed(s.q, mac) || Marked(s.q, mac) ==> Marked(t.q, mac))
  {
    hide Ports;
    HandleSelf(s, r);
    HandleLists(s, r, r.mac.mac);
  }

  lemma {:induction false} HandleAllMarked(p: Port, s: State, rs: seq<Report>, mac: Address)
    requires Sane(s.q) && !p.cpu && Held(p, mac, s.log) && Marked(s.q, mac)
    requires forall i :: 0 <= i < |rs| && rs[i].mac.mac == mac ==> rs[i].mac.state != 0
    ensures var t := HandleAll(s, rs);
      && Held(p, mac, t.log) && Marked(t.q, mac) && (Listed(s.q, mac) || Reports(rs, mac) ==> Listed(t.q, mac))
  {
    hide Sane, Handle, Held, Marked, Find;
    if rs != [] {
      var n := |rs| - 1;
      HandleAllMarked(p, s, rs[..n], mac);
      HandleAllSane(s, rs[..n]);
      HandleMarked(p, HandleAll(s, rs[..n]), rs[n], mac);
      if Reports(rs, mac) && rs[n].mac.mac != mac {
        assert Reports(rs[..n], mac);
      }
    }
  }

  /** As long as the port holds a marked MAC, the MAC stays listed and marked; when it leaves, the port is freed. */
  lemma RoundMarked(p: Port, s: State, rs: seq<Report>, mac: Address)
    requires Sane(s.q) && !p.cpu && Honest(p, s.log, rs) && Held(p, mac, s.log) && Marked(s.q, mac)
    requires Listed(s.q, mac) || Reports(rs, mac)
    requires Held(p, mac, Round(s, rs).log)
    ensures var t := Round(s, rs); Sane(t.q) && Listed(t.q, mac) && Marked(t.q, mac)
  {
    var m := HandleAll(s, rs);
    HandleAllMarked(p, s, rs, mac);
    HandleAllSane(s, rs);
    AgedSane(m.q);
    AgedEntry(m.q, mac);
    HeldAfter(p, mac, m.log, m.q);
    hide Honest, Held, HandleAll, Find, Aged, Unblocks, NoDuplicates, TimersRun;
  }

  lemma {:induction false} HeldStaysListed(p: Port, s: State, rounds: seq<seq<Report>>, k: nat, mac: Address)
    requires Sane(s.q) && !p.cpu && HonestRun(p, s, rounds) && k <= |rounds|
    requires Listed(s.q, mac) && Marked(s.q, mac)
    requires forall j :: 0 <= j <= k ==> Held(p, mac, Run(s, rounds[..j]).log)
    ensures var t := Run(s, rounds[..k]); Sane(t.q) && Listed(t.q, mac) && Marked(t.q, mac)
  {
    hide Sane, Listed, Marked, Held, Round, Honest;
    if k == 0 {
      assert Run(s, rounds[..0]) == s;
    } else {
      HeldStaysListed(p, s, rounds, k - 1, mac);
      RunStep(s, rounds, k - 1);
      assert Held(p, mac, Run(s, rounds[..k - 1]).log) && Held(p, mac, Run(s, rounds[..k]).log);
      RoundMarked(p, Run(s, rounds[..k - 1]), rounds[k - 1], mac);
    }
  }

  ghost predicate FreedBy(p: Port, s: State, rounds: seq<seq<Report>>, mac: Address) {
    exists k :: 0 <= k <= |rounds| && !Held(p, mac, Run(s, rounds[..k]).log)
  }

  lemma ListedIsFreed(p: Port, s: State, rounds: seq<seq<Report>>, mac: Address)
    requires Sane(s.q) && !p.cpu && HonestRun(p, s, rounds) && Listed(s.q, mac) && Marked(s.q, mac)
    requires |rounds| >= 33 * BLOCK_TIME
    ensures FreedBy(p, s, rounds, mac)
  {
    hide Sane, Listed, Marked, Held, HonestRun;
    LeavesInTime(s, rounds, mac);
    var k :| 0 <= k <= |rounds| && !Listed(Run(s, rounds[..k]).q, mac);
    if !FreedBy(p, s, rounds, mac) {
      HeldStaysListed(p, s, rounds, k, mac);
    }
  }

  lemma {:induction false} RunAppend(s: State, a: seq<seq<Report>>, b: seq<seq<Report>>)
    ensures Run(s, a + b) == Run(Run(s, a), b)
    decreases |b|
  {
    hide Round;
    if b == [] {
      assert a + b == a;
    } else {
      var n := |b| - 1;
      RunAppend(s, a, b[..n]);
      assert (a + b)[..|a + b| - 1] == a + b[..n];
    }
  }

  /** The run from its round k on. */
  lemma RunFrom(p: Port, s: State, rounds: seq<seq<Report>>, k: nat, mac: Address)
    requires k <= |rounds| && HonestRun(p, s, rounds)
    ensures HonestRun(p, Run(s, rounds[..k]), rounds[k..])
    ensures FreedBy(p, Run(s, rounds[..k]), rounds[k..], mac) ==> FreedBy(p, s, rounds, mac)
  {
    hide Run, Honest, Held;
    var t := Run(s, rounds[..k]);
    forall j | 0 <= j <= |rounds| - k
      ensures Run(t, rounds[k..][..j]) == Run(s, rounds[..k + j])
    {
      RunAppend(s, rounds[..k], rounds[k..][..j]);
      assert rounds[..k] + rounds[k..][..j] == rounds[..k + j];
    }
  }

  /** A MAC that a port holds but the list does not know is freed within BLOCK_TIME * 33 + 1 rounds of a report of it. */
  lemma ReportedIsFreed(p: Port, s: State, rounds: seq<seq<Report>>, mac: Address)
    requires Sane(s.q) && !p.cpu && HonestRun(p, s, rounds) && !Listed(s.q, mac)
    requires |rounds| >= 33 * BLOCK_TIME + 1 && Reports(rounds[0], mac)
    ensures FreedBy(p, s, rounds, mac)
  {
    hide Sane, Find, Held, Honest, Round;
    assert rounds[..0] == [];
    RunStep(s, rounds, 0);
    var t := Run(s, rounds[..1]);
    assert t == Round(s, rounds[0]);
    if !FreedBy(p, s, rounds, mac) {
      assert Held(p, mac, Run(s, rounds[..0]).log) && Held(p, mac, t.log);
      RoundMarked(p, s, rounds[0], mac);
      RunFrom(p, s, rounds, 1, mac);
      ListedIsFreed(p, t, rounds[1..], mac);
    }
  }

  /**
   * From any list without duplicates, the empty one of a restarted daemon included: if a MAC is reported for as long
   * as the port holds it, it is freed within twice the longest time on the list.
   */
  lemma HeldIsFreed(p: Port, s: State, rounds: seq<seq<Report>>, mac: Address)
    requires Sane(s.q) && !p.cpu && HonestRun(p, s, rounds) && |rounds| >= 66 * BLOCK_TIME + 1
    requires forall k :: 0 <= k < |rounds| && Held(p, mac, Run(s, rounds[..k]).log) ==> Reports(rounds[k], mac)
    ensures FreedBy(p, s, rounds, mac)
  {
    hide Sane, Find, Held, HonestRun, FreedBy, Reports;
    var n := 33 * BLOCK_TIME;
    LeavesInTime(s, rounds[..n], mac);
    var k :| 0 <= k <= n && !Listed(Run(s, rounds[..n][..k]).q, mac);
    assert rounds[..n][..k] == rounds[..k];
    var t := Run(s, rounds[..k]);
    if Held(p, mac, t.log) {
      RunSane(s, rounds[..k]);
      RunFrom(p, s, rounds, k, mac);
      ReportedIsFreed(p, t, rounds[k..], mac);
    } else {
      FreedAt(p, s, rounds, k, mac);
    }
  }

  lemma FreedAt(p: Port, s: State, rounds: seq<seq<Report>>, k: nat, mac: Address)
    requires k <= |rounds| && !Held(p, mac, Run(s, rounds[..k]).log)
    ensures FreedBy(p, s, rounds, mac)
  {
  }

  lemma {:induction false} RunSane(s: State, rounds: seq<seq<Report>>)
    requires Sane(s.q)
    ensures Sane(Run(s, rounds).q)
  {
    hide Sane, HandleAll;
    if rounds != [] {
      var n := |rounds| - 1;
      RunSane(s, rounds[..n]);
      HandleAllSane(Run(s, rounds[..n]), rounds[n]);
      AgedSane(HandleAll(Run(s, rounds[..n]), rounds[n]).q);
    }
  }
}
