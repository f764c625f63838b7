/** abrloop.c: the list of MAC addresses blocked because they were seen on several switch ports. */
module BlockList {

  const BLOCK_TIME := 10
  const PORT_CNT: seq<nat> := [0, 1, 1, 2, 1, 2, 2, 3, 1, 2, 2, 3, 2, 3, 3, 4]

  type Word = x: int | 0 <= x < 0x1_0000_0000
  type Address = nat

  datatype SwMac = SwMac(mac: Address, state: nat, vec: Word)
  datatype Block = Block(mac: SwMac, timer: nat)

  /** One call of mac_block: the entry as it was then, and whether it was to be blocked or unblocked. */
  datatype Request = Request(mac: SwMac, block: bool)

  /** A merged MAC, and whether memory is available should it need a new list entry. */
  datatype Report = Report(mac: SwMac, memory: bool)

  /** The block list and every request sent to the switches so far. */
  datatype State = State(q: seq<Block>, log: seq<Request>)

  // ---- counting ports ----

  predicate Bit(v: nat, i: nat)
    decreases i
  {
    if i == 0 then v % 2 == 1 else Bit(v / 2, i - 1)
  }

  /** How many of the low n bits of v are set. */
  function Count(v: nat, n: nat): (c: nat)
    ensures c <= n
    decreases n
  {
    if n == 0 then 0 else v % 2 + Count(v / 2, n - 1)
  }

  function Ports(v: Word): nat {
    Count(v, 32)
  }

  lemma {:induction false} CountTop(v: nat, n: nat)
    ensures Count(v, n + 1) == Count(v, n) + (if Bit(v, n) then 1 else 0)
    decreases n
  {
    if n > 0 {
      CountTop(v / 2, n - 1);
    }
  }

  /** The positions of the set bits among the low n. */
  function BitSet(v: nat, n: nat): set<int> {
    set i | 0 <= i < n && Bit(v, i)
  }

  lemma {:induction false} CountIsCardinality(v: nat, n: nat)
    ensures Count(v, n) == |BitSet(v, n)|
    decreases n
  {
    if n == 0 {
      assert BitSet(v, n) == {};
    } else {
      CountIsCardinality(v, n - 1);
      CountTop(v, n - 1);
      if Bit(v, n - 1) {
        assert BitSet(v, n) == BitSet(v, n - 1) + {n - 1};
      } else {
        assert BitSet(v, n) == BitSet(v, n - 1);
      }
    }
  }

  lemma CountStep(v: nat, n: nat)
    requires n > 0
    ensures Count(v, n) == v % 2 + Count(v / 2, n - 1)
  {
  }

  lemma Nibble(m: nat)
    requires m < 16
    ensures PORT_CNT[m] == m % 2 + m / 2 % 2 + m / 4 % 2 + m / 8
  {
    assert m == 0 || m == 1 || m == 2 || m == 3 || m == 4 || m == 5 || m == 6 || m == 7
        || m == 8 || m == 9 || m == 10 || m == 11 || m == 12 || m == 13 || m == 14 || m == 15;
  }

  lemma Halves(v: nat)
    ensures v / 2 / 2 == v / 4 && v / 4 / 2 == v / 8 && v / 8 / 2 == v / 16
    ensures v % 2 == v % 16 % 2 && v / 2 % 2 == v % 16 / 2 % 2
    ensures v / 4 % 2 == v % 16 / 4 % 2 && v / 8 % 2 == v % 16 / 8
  {
    var k, m := v / 16, v % 16;
    assert v == 16 * k + m;
    assert v / 2 == 8 * k + m / 2 && v / 4 == 4 * k + m / 4 && v / 8 == 2 * k + m / 8;
  }

  lemma CountNibble(v: nat, n: nat)
    requires n >= 4
    ensures Count(v, n) == PORT_CNT[v % 16] + Count(v / 16, n - 4)
  {
    hide Count;
    CountStep(v, n);
    CountStep(v / 2, n - 1);
    CountStep(v / 2 / 2, n - 2);
    CountStep(v / 2 / 2 / 2, n - 3);
    Halves(v);
    Nibble(v % 16);
  }

  /** cnt_ports: four bits at a time by table. */
  method CntPorts(vec: Word) returns (cnt: nat)
    ensures cnt == Ports(vec)
    ensures cnt == |BitSet(vec, 32)|
  {
    hide Count;
    cnt := 0;
    var v: nat := vec;
    var b := 0;
    CountIsCardinality(vec, 32);
    while b < 32
      invariant 0 <= b <= 32 && b % 4 == 0
      invariant cnt + Count(v, 32 - b) == Count(vec, 32)
    {
      CountNibble(v, 32 - b);
      cnt := cnt + PORT_CNT[v % 16];
      v := v / 16;
      b := b + 4;
    }
    assert Count(v, 0) == 0 by {
      CountNone(v);
    }
  }

  lemma CountNone(v: nat)
    ensures Count(v, 0) == 0
  {
  }

  // ---- what the operations compute ----

  /** The position of the first entry for a MAC, or the length of the list. */
  function Find(q: seq<Block>, mac: Address): (i: nat)
    ensures i <= |q|
    ensures forall j :: 0 <= j < i ==> q[j].mac.mac != mac
    ensures i < |q| ==> q[i].mac.mac == mac
  {
    if q == [] || q[0].mac.mac == mac then 0 else 1 + Find(q[1..], mac)
  }

  predicate Listed(q: seq<Block>, mac: Address) {
    Find(q, mac) < |q|
  }

  /** handle_mac. */
  function Handle(s: State, r: Report): State {
    var i := Find(s.q, r.mac.mac);
    if i == |s.q| then
      if r.memory then
        State([Block(r.mac, BLOCK_TIME)] + s.q, s.log + [Request(r.mac, true)])
      else s
    else if Ports(r.mac.vec) > Ports(s.q[i].mac.vec) then
      State(s.q[i := Block(r.mac, BLOCK_TIME)], s.log + [Request(r.mac, true)])
    else s
  }

  /** A MAC that is on several ports, or already blocked by the switch. */
  predicate Loops(m: SwMac) {
    Ports(m.vec) > 1 || m.state != 0
  }

  function HandleAll(s: State, rs: seq<Report>): State {
    if rs == [] then s
    else
      var n := |rs| - 1;
      var t := HandleAll(s, rs[..n]);
      if Loops(rs[n].mac) then Handle(t, rs[n]) else t
  }

  /** The entries that stay, each one round closer to its end. */
  function Aged(q: seq<Block>): seq<Block> {
    if q == [] then [] else AgedOne(q[0]) + Aged(q[1..])
  }

  function AgedOne(b: Block): (r: seq<Block>)
    ensures |r| <= 1
  {
    if b.timer == 1 then [] else [Block(b.mac, Decremented(b.timer))]
  }

  /** One request for each entry whose time is up. */
  function Unblocks(q: seq<Block>): seq<Request> {
    if q == [] then [] else UnblockOne(q[0]) + Unblocks(q[1..])
  }

  function UnblockOne(b: Block): seq<Request> {
    if b.timer == 1 then [Request(b.mac, false)] else []
  }

  /** The timers are unsigned: zero wraps round. */
  function Decremented(t: nat): nat {
    if t == 0 then 0xffff_ffff else t - 1
  }

  function Age(s: State): State {
    State(Aged(s.q), s.log + Unblocks(s.q))
  }

  /** proc_macs. */
  function Round(s: State, rs: seq<Report>): State {
    Age(HandleAll(s, rs))
  }

  function Run(s: State, rounds: seq<seq<Report>>): State {
    if rounds == [] then s
    else
      var n := |rounds| - 1;
      Round(Run(s, rounds[..n]), rounds[n])
  }

  lemma {:induction false} AgedSnoc(q: seq<Block>, k: nat)
    requires k < |q|
    ensures Aged(q[..k + 1]) == Aged(q[..k]) + AgedOne(q[k])
    ensures Unblocks(q[..k + 1]) == Unblocks(q[..k]) + UnblockOne(q[k])
  {
    hide AgedOne, UnblockOne;
    if k > 0 {
      AgedSnoc(q[1..], k - 1);
      assert q[..k + 1][1..] == q[1..][..k] && q[..k][1..] == q[1..][..k - 1];
    }
  }

  // ---- the linked list ----

  class SwBlock {
    var mac: SwMac
    var timer: nat
    var next: SwBlock?

    constructor (mac: SwMac, timer: nat, next: SwBlock?)
      ensures this.mac == mac && this.timer == timer && this.next == next
    {
      this.mac, this.timer, this.next := mac, timer, next;
    }
  }

  class Blocks {
    var head: SwBlock?
    var log: seq<Request>
    ghost var nodes: seq<SwBlock>
    ghost var q: seq<Block>

    ghost predicate Valid()
      reads this, nodes
    {
      && |q| == |nodes| && head == NodeAt(0)
      && (forall i, j :: 0 <= i < |nodes| && j == i + 1 && j < |nodes| ==> nodes[i].next == nodes[j])
      && (nodes != [] ==> nodes[|nodes| - 1].next == null)
      && (forall i :: 0 <= i < |nodes| ==> q[i] == Block(nodes[i].mac, nodes[i].timer))
      && (forall i, j :: 0 <= i < j < |nodes| ==> nodes[i] != nodes[j])
    }

    ghost function NodeAt(i: nat): SwBlock?
      reads this
    {
      if i < |nodes| then nodes[i] else null
    }

    ghost function St(): State
      reads this
    {
      State(q, log)
    }

    constructor ()
      ensures Valid() && St() == State([], []) && fresh(this)
    {
      head, log, nodes, q := null, [], [], [];
    }

    /** bl_lookup. */
    method Lookup(mac: Address) returns (sb: SwBlock?)
      requires Valid()
      ensures sb == NodeAt(Find(q, mac))
    {
      sb := head;
      ghost var i := 0;
      while sb != null
        invariant 0 <= i <= |nodes| && sb == NodeAt(i)
        invariant Find(q, mac) == i + Find(q[i..], mac)
        decreases |nodes| - i
      {
        if sb.mac.mac == mac {
          break;
        }
        assert q[i..][1..] == q[i + 1..];
        sb := sb.next;
        i := i + 1;
      }
    }

    /** bl_alloc: a new entry at the front, if there is memory for it. */
    method Alloc(mac: SwMac, memory: bool) returns (sb: SwBlock?)
      requires Valid()
      modifies this
      ensures Valid() && log == old(log)
      ensures memory <==> sb != null
      ensures sb == null ==> nodes == old(nodes)
      ensures sb != null ==> fresh(sb) && nodes == [sb] + old(nodes)
      ensures q == (if memory then [Block(mac, BLOCK_TIME)] else []) + old(q)
    {
      sb := null;
      if memory {
        sb := new SwBlock(mac, BLOCK_TIME, head);
        head := sb;
        nodes := [sb] + nodes;
        q := [Block(mac, BLOCK_TIME)] + q;
      }
    }

    /** handle_mac. */
    method HandleMac(r: Report)
      requires Valid()
      modifies this, nodes
      ensures Valid() && fresh(set n | n in nodes && n !in old(nodes))
      ensures St() == Handle(old(St()), r)
    {
      hide Count, Find;
      ghost var i := Find(q, r.mac.mac);
      var sb := Lookup(r.mac.mac);
      if sb == null {
        sb := Alloc(r.mac, r.memory);
        if sb == null {
          return;
        }
        log := log + [Request(sb.mac, true)];
        i := 0;
      }
      assert sb == nodes[i];
      Restart(sb, i, r);
    }

    /** The last part of handle_mac: the timer starts again when there are more ports than before. */
    method Restart(sb: SwBlock, ghost i: nat, r: Report)
      requires Valid() && i < |nodes| && nodes[i] == sb && sb.mac.mac == r.mac.mac
      modifies this`log, this`q, sb
      ensures Valid()
      ensures St() == if Ports(r.mac.vec) > Ports(old(sb.mac.vec))
                      then State(old(q)[i := Block(r.mac, BLOCK_TIME)], old(log) + [Request(r.mac, true)])
                      else old(St())
    {
      hide Count;
      var cntOld := CntPorts(sb.mac.vec);
      var cntNew := CntPorts(r.mac.vec);
      if cntNew > cntOld {
        sb.mac := SwMac(sb.mac.mac, r.mac.state, r.mac.vec);
        sb.timer := BLOCK_TIME;
        q := q[i := Block(sb.mac, BLOCK_TIME)];
        log := log + [Request(sb.mac, true)];
      }
    }

    /** bl_free, without giving the memory back: prev is the entry before sb, or null at the head. */
    method Unlink(prev: SwBlock?, sb: SwBlock, ghost i: nat)
      requires Valid() && i < |nodes| && sb == nodes[i]
      requires prev == if i == 0 then null else nodes[i - 1]
      modifies this, prev
      ensures Valid() && log == old(log)
      ensures nodes == old(nodes)[..i] + old(nodes)[i + 1..]
      ensures q == old(q)[..i] + old(q)[i + 1..]
    {
      if prev == null {
        head := sb.next;
      } else {
        prev.next := sb.next;
      }
      nodes, q := nodes[..i] + nodes[i + 1..], q[..i] + q[i + 1..];
    }

    /** The place before the i-th entry: null stands for the head pointer. */
    ghost function Before(i: nat): SwBlock?
      reads this
    {
      if i == 0 then null else NodeAt(i - 1)
    }

    lemma Place(i: nat)
      requires Valid() && i <= |q|
      ensures NodeAt(0) == head && Before(0) == null
      ensures NodeAt(i) == null <==> i == |q|
      ensures NodeAt(i) != null ==> NodeAt(i) in nodes
      ensures Before(i) != null ==> Before(i) in nodes
    {
    }

    /** One turn of the second loop of proc_macs: the entry loses one round, and goes when none is left. */
    method AgeEntry(prev: SwBlock?, sb: SwBlock, ghost i: nat) returns (last: SwBlock?, next: SwBlock?)
      requires Valid() && i < |q| && sb == NodeAt(i) && prev == Before(i)
      modifies this, sb, prev
      ensures Valid() && forall n :: n in nodes ==> n in old(nodes)
      ensures q == AgedAt(old(q), i) && log == old(log) + UnblockOne(old(q)[i])
      ensures last == Before(i + |AgedOne(old(q)[i])|) && next == NodeAt(i + |AgedOne(old(q)[i])|)
    {
      var t := Decremented(sb.timer);
      sb.timer, q := t, q[i := Block(sb.mac, t)];
      if sb.timer == 0 {
        ghost var before := q;
        log := log + [Request(sb.mac, false)];
        Unlink(prev, sb, i);
        assert before[..i] == old(q)[..i] && before[i + 1..] == old(q)[i + 1..];
        last := prev;
        next := if prev == null then head else prev.next;
      } else {
        last := sb;
        next := sb.next;
      }
    }

    /** The second loop of proc_macs. */
    method AgeAll()
      requires Valid()
      modifies this, nodes
      ensures Valid()
      ensures St() == Age(old(St()))
    {
      hide Valid, NodeAt, Before, PartlyAged, Aged, Unblocks, AgedOne, UnblockOne, AgedAt;
      ghost var p, l, all := q, log, nodes;
      var prev: SwBlock? := null;
      var sb := head;
      ghost var i, k := 0, 0;
      AgedNone(p);
      Place(0);
      while sb != null
        invariant Valid() && 0 <= i <= k <= |p| && |p| - k == |q| - i
        invariant sb == NodeAt(i) && prev == Before(i)
        invariant forall n :: n in nodes ==> n in all
        invariant PartlyAged(p, k, q, i) && log == l + Unblocks(p[..k])
        decreases |p| - k
      {
        Place(i);
        AgeNext(p, k, q, i);
        prev, sb := AgeEntry(prev, sb, i);
        i := i + |AgedOne(p[k])|;
        k := k + 1;
      }
      Place(i);
      AgedAll(p, q, i);
    }

    /** proc_macs. */
    method ProcMacs(rs: seq<Report>)
      requires Valid()
      modifies this, nodes
      ensures Valid() && St() == Round(old(St()), rs)
    {
      hide Handle, Age, Count;
      ghost var s := St();
      ghost var all := set n | n in nodes;
      var n := 0;
      while n < |rs|
        invariant Valid() && 0 <= n <= |rs|
        invariant fresh(set x | x in nodes && x !in all)
        invariant St() == HandleAll(s, rs[..n])
      {
        assert rs[..n + 1][..n] == rs[..n];
        var cnt := CntPorts(rs[n].mac.vec);
        if cnt > 1 || rs[n].mac.state != 0 {
          HandleMac(rs[n]);
        }
        n := n + 1;
      }
      assert rs[..n] == rs;
      AgeAll();
    }
  }

  /** The list with its i-th entry one round older. */
  ghost function AgedAt(q: seq<Block>, i: nat): seq<Block>
    requires i < |q|
  {
    if q[i].timer == 1 then q[..i] + q[i + 1..] else q[i := Block(q[i].mac, Decremented(q[i].timer))]
  }

  /** The first k entries of p are dealt with, and the i that stayed head the list q. */
  ghost predicate PartlyAged(p: seq<Block>, k: nat, q: seq<Block>, i: nat)
    requires i <= k <= |p| && |p| - k == |q| - i
  {
    q[..i] == Aged(p[..k]) && q[i..] == p[k..]
  }

  lemma AgedNone(p: seq<Block>)
    ensures PartlyAged(p, 0, p, 0) && Unblocks(p[..0]) == []
  {
  }

  lemma AgedAll(p: seq<Block>, q: seq<Block>, i: nat)
    requires i <= |p| && |q| == i && PartlyAged(p, |p|, q, i)
    ensures q == Aged(p) && p[..|p|] == p
  {
    hide Aged;
    assert p[..|p|] == p && q[..i] == q;
  }

  lemma AgeNext(p: seq<Block>, k: nat, q: seq<Block>, i: nat)
    requires i <= k < |p| && |p| - k == |q| - i && PartlyAged(p, k, q, i)
    ensures q[i] == p[k]
    ensures |AgedAt(q, i)| == |q| - 1 + |AgedOne(p[k])|
    ensures PartlyAged(p, k + 1, AgedAt(q, i), i + |AgedOne(p[k])|)
    ensures Unblocks(p[..k + 1]) == Unblocks(p[..k]) + UnblockOne(p[k])
  {
    AgedSnoc(p, k);
    assert q[i] == q[i..][0] && q[i + 1..] == q[i..][1..];
    if p[k].timer == 1 {
      var r := q[..i] + q[i + 1..];
      assert r[..i] == q[..i] && r[i..] == q[i + 1..];
    } else {
      var r := q[i := Block(p[k].mac, Decremented(p[k].timer))];
      assert r[..i + 1] == q[..i] + [r[i]] && r[i + 1..] == q[i + 1..];
    }
  }
}
