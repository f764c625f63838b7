/**
 * in_cksum.c: the scatter-gather Internet checksum against its definition in RFC 1071, section 1: the one's
 * complement of the one's complement sum of the 16-bit words, an odd last octet being padded with zero.
 */
module InternetChecksum {

  type byte = x: int | 0 <= x < 0x100
  type u16 = x: int | 0 <= x < 0x10000
  type int32 = x: int | -0x8000_0000 <= x < 0x8000_0000

  /** The value of two adjacent octets, read as a 16-bit word by the host. */
  function Word(big: bool, b0: byte, b1: byte): u16 { if big then 0x100 * b0 + b1 else b0 + 0x100 * b1 }

  // ---- the definition ----

  /** One's complement addition: the carry out of bit 15 is added back. */
  function OnesAdd(x: u16, y: u16): u16 { if x + y > 0xffff then x + y - 0xffff else x + y }

  function OnesSum(big: bool, d: seq<byte>): u16 {
    if d == [] then 0
    else if |d| == 1 then Word(big, d[0], 0)
    else OnesAdd(Word(big, d[0], d[1]), OnesSum(big, d[2..]))
  }

  function Checksum(big: bool, d: seq<byte>): u16 { 0xffff - OnesSum(big, d) }

  // ---- ordinary sums, and the residue that one's complement arithmetic sees ----

  function Total(big: bool, d: seq<byte>): nat {
    if d == [] then 0
    else if |d| == 1 then Word(big, d[0], 0)
    else Word(big, d[0], d[1]) + Total(big, d[2..])
  }

  /** The one's complement value of an ordinary sum; 0 only for 0, so 0xffff stands for its other multiples. */
  function Fold(x: nat): u16 { if x == 0 then 0 else (x - 1) % 0xffff + 1 }

  lemma FoldFold(x: nat)
    ensures Fold(Fold(x)) == Fold(x)
  {
  }

  lemma FoldCongruent(x: nat, y: nat, k: int)
    requires x > 0 && y > 0 && x - y == 0xffff * k
    ensures Fold(x) == Fold(y)
  {
  }

  lemma FoldAdd(x: nat, y: nat, w: nat)
    requires Fold(x) == Fold(y)
    ensures Fold(x + w) == Fold(y + w)
  {
    if x > 0 {
      var k := (x - 1) / 0xffff - (y - 1) / 0xffff;
      assert x - y == 0xffff * k;
      FoldCongruent(x + w, y + w, k);
    }
  }

  lemma FoldTimes256(x: nat, y: nat)
    requires Fold(x) == Fold(y)
    ensures Fold(256 * x) == Fold(256 * y)
  {
    if x > 0 {
      var k := (x - 1) / 0xffff - (y - 1) / 0xffff;
      assert x - y == 0xffff * k;
      FoldCongruent(256 * x, 256 * y, 256 * k);
    }
  }

  lemma FoldSwapTwice(x: nat)
    ensures Fold(256 * (256 * x)) == Fold(x)
  {
  }

  lemma {:induction false} OnesSumIsFold(big: bool, d: seq<byte>)
    ensures OnesSum(big, d) == Fold(Total(big, d))
  {
    hide Fold, OnesAdd, Word;
    if d == [] {
      FoldSmall(0);
    } else if |d| == 1 {
      FoldSmall(Word(big, d[0], 0));
    } else {
      OnesSumIsFold(big, d[2..]);
      OnesAddFolds(Word(big, d[0], d[1]), Total(big, d[2..]));
    }
  }

  lemma FoldSmall(w: u16)
    ensures Fold(w) == w
  {
  }

  lemma OnesAddFolds(w: u16, t: nat)
    ensures OnesAdd(w, Fold(t)) == Fold(w + t)
  {
    FoldFold(t);
    FoldAdd(Fold(t), t, w);
  }

  // ---- splitting and swapping ----

  lemma {:induction false} TotalAppend(big: bool, a: seq<byte>, b: seq<byte>)
    requires |a| % 2 == 0
    ensures Total(big, a + b) == Total(big, a) + Total(big, b)
  {
    if a == [] {
      assert a + b == b;
    } else {
      TotalAppend(big, a[2..], b);
      assert (a + b)[2..] == a[2..] + b;
    }
  }

  lemma {:induction false} TotalPad(big: bool, d: seq<byte>)
    requires |d| % 2 == 1
    ensures Total(big, d + [0]) == Total(big, d)
  {
    if |d| == 1 {
      assert (d + [0])[2..] == [];
    } else {
      TotalPad(big, d[2..]);
      assert (d + [0])[2..] == d[2..] + [0];
    }
  }

  /** The words between c0 and c1, read one octet too early, are the right ones with their octets swapped. */
  lemma {:induction false} TotalShifted(big: bool, c0: byte, b: seq<byte>, c1: byte)
    requires |b| % 2 == 0
    ensures Fold(Total(big, [c0] + b + [c1])) == Fold(256 * Total(big, b) + Word(big, c0, c1))
    decreases |b|
  {
    hide Word, Fold;
    if b == [] {
      assert [c0] + b + [c1] == [c0, c1];
      assert [c0, c1][2..] == [];
    } else {
      var rest := [b[1]] + b[2..] + [c1];
      assert ([c0] + b + [c1])[2..] == rest;
      TotalShifted(big, b[1], b[2..], c1);
      var t := Total(big, b[2..]);
      FoldAdd(Total(big, rest), 256 * t + Word(big, b[1], c1), Word(big, c0, b[0]));
      ShiftedWord(big, c0, b[0], b[1], c1, t);
    }
  }

  lemma ShiftedWord(big: bool, c0: byte, b0: byte, b1: byte, c1: byte, t: nat)
    ensures Fold(256 * t + Word(big, b1, c1) + Word(big, c0, b0)) == Fold(256 * (Word(big, b0, b1) + t) + Word(big, c0, c1))
  {
    var x := 256 * t + Word(big, b1, c1) + Word(big, c0, b0);
    var y := 256 * (Word(big, b0, b1) + t) + Word(big, c0, c1);
    if big {
      assert y - x == 0xffff * b0;
    } else {
      assert y - x == 0xffff * b1;
    }
    if x > 0 && y > 0 {
      FoldCongruent(y, x, if big then b0 else b1);
    }
  }

  // ---- in_cksum ----

  /** The length of a chunk is an int. */
  type Octets = s: seq<byte> | |s| <= 0x7fff_ffff witness []

  /** One element of the vector: its octets and whether it starts at an odd address. */
  datatype Chunk = Chunk(octets: Octets, oddAddress: bool)

  function Flatten(vec: seq<Chunk>): seq<byte> { if vec == [] then [] else vec[0].octets + Flatten(vec[1..]) }

  lemma {:induction false} FlattenAppend(vec: seq<Chunk>, c: Chunk)
    ensures Flatten(vec + [c]) == Flatten(vec) + c.octets
  {
    if vec == [] {
      assert vec + [c] == [c];
      assert Flatten([c]) == c.octets + Flatten([]);
    } else {
      FlattenAppend(vec[1..], c);
      assert (vec + [c])[1..] == vec[1..] + [c];
    }
  }

  const INT_MAX := 0x7fff_ffff

  /** REDUCE: add the halves of the 32-bit sum, then the carry. */
  function Reduce(sum: int32): (r: u16)
    requires sum >= 0
    ensures r == Fold(sum)
  {
    var t := sum / 0x10000 + sum % 0x10000;
    if t > 0xffff then t - 0xffff else t
  }

  /** Four words from position p on. */
  function FourWords(big: bool, d: seq<byte>, p: nat): nat
    requires p + 8 <= |d|
  {
    Word(big, d[p], d[p + 1]) + Word(big, d[p + 2], d[p + 3]) + Word(big, d[p + 4], d[p + 5]) + Word(big, d[p + 6], d[p + 7])
  }

  lemma TotalSplit(big: bool, d: seq<byte>, from: nat, words: nat, end: nat)
    requires from + 2 * words <= end <= |d|
    ensures Total(big, d[from..end]) == Total(big, d[from..from + 2 * words]) + Total(big, d[from + 2 * words..end])
  {
    hide Total;
    var mid := from + 2 * words;
    assert d[from..end] == d[from..mid] + d[mid..end];
    TotalAppend(big, d[from..mid], d[mid..end]);
  }

  lemma TotalStep(big: bool, d: seq<byte>, from: nat, words: nat)
    requires from + 2 * words + 2 <= |d|
    ensures var p := from + 2 * words; Total(big, d[from..p + 2]) == Total(big, d[from..p]) + Word(big, d[p], d[p + 1])
  {
    var p := from + 2 * words;
    TotalSplit(big, d, from, words, p + 2);
    assert d[p..p + 2][2..] == [];
  }

  lemma TotalFour(big: bool, d: seq<byte>, from: nat, words: nat)
    requires from + 2 * words + 8 <= |d|
    ensures var p := from + 2 * words; Total(big, d[from..p + 8]) == Total(big, d[from..p]) + FourWords(big, d, p)
  {
    hide Word, Total;
    TotalStep(big, d, from, words);
    TotalStep(big, d, from, words + 1);
    TotalStep(big, d, from, words + 2);
    TotalStep(big, d, from, words + 3);
  }

  // ---- the running sum, without regard to the range of int ----

  /** What is kept between chunks: the sum, and an octet that waits for its partner. */
  datatype Running = Running(sum: nat, pending: bool, saved: byte)

  const START := Running(0, false, 0)

  /** How many octets of a chunk complete a word begun in an earlier one. */
  function Joining(s: Running): nat { if s.pending then 1 else 0 }

  /** The octets left are at an odd address. */
  predicate Turns(c: Chunk, s: Running) {
    c.oddAddress != s.pending && |c.octets| > Joining(s)
  }

  /** Where the unrolled loops begin to read, and where they stop. */
  function LoopStart(c: Chunk, s: Running): (p: nat)
    requires c.octets != []
    ensures p <= |c.octets|
  {
    Joining(s) + if Turns(c, s) then 1 else 0
  }

  function LoopEnd(c: Chunk, s: Running): (p: nat)
    requires c.octets != []
    ensures LoopStart(c, s) <= p <= |c.octets| < p + 8 && (p - LoopStart(c, s)) % 2 == 0
  {
    LoopStart(c, s) + Whole(|c.octets| - LoopStart(c, s), 8)
  }

  /** The part of n octets that is made of whole units. */
  function Whole(n: nat, unit: nat): (w: nat)
    requires unit == 2 || unit == 8
    ensures w <= n < w + unit && w % 2 == 0
  {
    if unit == 2 then n - n % 2 else n - n % 8
  }

  /** The sum with the word that was begun earlier. */
  function Begun(big: bool, c: Chunk, s: Running): nat
    requires c.octets != []
  {
    if s.pending then s.sum + Word(big, s.saved, c.octets[0]) else s.sum
  }

  function LoopBase(big: bool, c: Chunk, s: Running): nat
    requires c.octets != []
  {
    if Turns(c, s) then 256 * Fold(Begun(big, c, s)) else Begun(big, c, s)
  }

  /** The greatest value the sum takes while a chunk is read: the one before it is reduced. */
  function Peak(big: bool, c: Chunk, s: Running): nat
    requires c.octets != []
  {
    LoopBase(big, c, s) + Total(big, c.octets[LoopStart(c, s)..LoopEnd(c, s)])
  }

  /** The words after the unrolled loops. */
  function TailEnd(c: Chunk, s: Running): (p: nat)
    requires c.octets != []
    ensures LoopEnd(c, s) <= p <= |c.octets| < p + 2 && (p - LoopEnd(c, s)) % 2 == 0
  {
    LoopEnd(c, s) + Whole(|c.octets| - LoopEnd(c, s), 2)
  }

  function Tail(big: bool, c: Chunk, s: Running): nat
    requires c.octets != []
  {
    Fold(Peak(big, c, s)) + Total(big, c.octets[LoopEnd(c, s)..TailEnd(c, s)])
  }

  function Next(big: bool, c: Chunk, s: Running): Running {
    if c.octets == [] then s
    else
      var n := |c.octets|;
      if LoopEnd(c, s) == n && !Turns(c, s) then Running(Peak(big, c, s), false, s.saved)
      else
        var odd, sum := TailEnd(c, s) < n, Tail(big, c, s);
        if Turns(c, s) then
          var c0 := c.octets[LoopStart(c, s) - 1];
          if odd then Running(256 * Fold(sum) + Word(big, c0, c.octets[n - 1]), false, c0)
          else Running(256 * Fold(sum), true, c0)
        else Running(sum, odd, if odd then c.octets[n - 1] else s.saved)
  }

  function After(big: bool, vec: seq<Chunk>): Running
    decreases |vec|
  {
    if vec == [] then START else Next(big, vec[|vec| - 1], After(big, vec[..|vec| - 1]))
  }

  /** No sum leaves the range of int. */
  predicate InRange(big: bool, vec: seq<Chunk>)
    decreases |vec|
  {
    vec == [] ||
    var n := |vec| - 1;
    InRange(big, vec[..n]) && (vec[n].octets == [] || Peak(big, vec[n], After(big, vec[..n])) <= INT_MAX)
  }

  /** Everything so far is in the sum, except the octet saved when an odd number of them has been seen. */
  ghost predicate Settled(big: bool, d: seq<byte>, s: Running) {
    && s.pending == (|d| % 2 == 1)
    && (s.pending ==> s.sum <= 0xffff * 256)
    && (!s.pending ==> Fold(s.sum) == Fold(Total(big, d)))
    && (s.pending ==> forall c1: byte :: Fold(s.sum + Word(big, s.saved, c1)) == Fold(Total(big, d + [c1])))
  }

  lemma SwappedDone(big: bool, e: seq<byte>, c0: byte, b: seq<byte>, c1: byte, s: nat)
    requires |e| % 2 == 0 && |b| % 2 == 0
    requires Fold(s) == Fold(256 * Total(big, e) + Total(big, b))
    ensures Fold(256 * s + Word(big, c0, c1)) == Fold(Total(big, e + ([c0] + b + [c1])))
  {
    hide Word, Fold, Total;
    var te, tb, w := Total(big, e), Total(big, b), Word(big, c0, c1);
    FoldTimes256(s, 256 * te + tb);
    FoldSwapTwice(te);
    FoldAdd(256 * (256 * te), te, 256 * tb + w);
    FoldAdd(256 * s, 256 * (256 * te) + 256 * tb, w);
    TotalShifted(big, c0, b, c1);
    FoldAdd(Total(big, [c0] + b + [c1]), 256 * tb + w, te);
    TotalAppend(big, e, [c0] + b + [c1]);
  }

  lemma TotalPair(big: bool, c0: byte, c1: byte)
    ensures Total(big, [c0, c1]) == Word(big, c0, c1)
  {
    assert [c0, c1][2..] == [];
  }

  lemma PlainDone(big: bool, e: seq<byte>, c0: byte, b: seq<byte>, c1: byte, s: nat)
    requires |e| % 2 == 0 && |b| % 2 == 0
    requires Fold(s) == Fold(Total(big, e) + Total(big, b))
    ensures Fold(s + Word(big, c0, c1)) == Fold(Total(big, e + (b + [c0] + [c1])))
  {
    hide Word, Fold, Total;
    assert b + [c0] + [c1] == b + [c0, c1];
    TotalAppend(big, b, [c0, c1]);
    TotalAppend(big, e, b + [c0] + [c1]);
    TotalPair(big, c0, c1);
    FoldAdd(s, Total(big, e) + Total(big, b), Word(big, c0, c1));
  }

  /** What the sum stands for once a word begun earlier is complete. */
  lemma BegunSettled(big: bool, d: seq<byte>, c: Chunk, s: Running)
    requires Settled(big, d, s) && c.octets != []
    ensures var e := d + c.octets[..Joining(s)];
      |e| % 2 == 0 && Fold(Begun(big, c, s)) == Fold(Total(big, e))
  {
    hide Fold, Total, Word;
    if s.pending {
      assert c.octets[..1] == [c.octets[0]];
    } else {
      assert d + c.octets[..0] == d;
    }
  }

  /** The words of the loops and of the tail come on top. */
  lemma TailReads(big: bool, c: Chunk, s: Running)
    requires c.octets != []
    ensures Fold(Peak(big, c, s)) == Fold(LoopBase(big, c, s) + Total(big, c.octets[LoopStart(c, s)..LoopEnd(c, s)]))
    ensures Fold(Tail(big, c, s)) == Fold(LoopBase(big, c, s) + Total(big, c.octets[LoopStart(c, s)..TailEnd(c, s)]))
  {
    hide Whole, LoopStart, LoopEnd, TailEnd, LoopBase, Fold, Total;
    var p, q, r := LoopStart(c, s), LoopEnd(c, s), TailEnd(c, s);
    var t := Total(big, c.octets[q..r]);
    assert c.octets[p..r] == c.octets[p..q] + c.octets[q..r];
    TotalAppend(big, c.octets[p..q], c.octets[q..r]);
    FoldFold(Peak(big, c, s));
    FoldAdd(Fold(Peak(big, c, s)), Peak(big, c, s), t);
  }

  /** One chunk extends the octets summed by its own. */
  lemma NextSettled(big: bool, d: seq<byte>, c: Chunk, s: Running)
    requires Settled(big, d, s)
    ensures Settled(big, d + c.octets, Next(big, c, s))
  {
    if c.octets == [] {
      assert d + c.octets == d;
    } else {
      BegunSettled(big, d, c, s);
      TailReads(big, c, s);
      if Turns(c, s) {
        NextTurned(big, d, c, s);
      } else {
        NextPlain(big, d, c, s);
      }
    }
  }

  lemma NextIs(big: bool, c: Chunk, s: Running)
    requires c.octets != [] && !Turns(c, s)
    ensures var n, x := |c.octets|, Next(big, c, s);
      if TailEnd(c, s) < n then x == Running(Tail(big, c, s), true, c.octets[n - 1])
      else !x.pending && Fold(x.sum) == Fold(Tail(big, c, s))
  {
    hide Fold, Peak, Whole, LoopStart, Turns, Total;
    FoldFold(Peak(big, c, s));
    TotalNone(big);
    if LoopEnd(c, s) == |c.octets| {
      assert c.octets[LoopEnd(c, s)..TailEnd(c, s)] == [];
    }
  }

  lemma NextIsTurned(big: bool, c: Chunk, s: Running)
    requires c.octets != [] && Turns(c, s)
    ensures var n, c0, sum := |c.octets|, c.octets[LoopStart(c, s) - 1], Fold(Tail(big, c, s));
      Next(big, c, s) ==
        if TailEnd(c, s) < n then Running(256 * sum + Word(big, c0, c.octets[n - 1]), false, c0)
        else Running(256 * sum, true, c0)
  {
    hide Fold, Tail, Whole, Total, Word;
  }

  lemma TotalNone(big: bool)
    ensures Total(big, []) == 0
  {
  }

  lemma NextPlain(big: bool, d: seq<byte>, c: Chunk, s: Running)
    requires Settled(big, d, s) && c.octets != [] && !Turns(c, s)
    ensures Settled(big, d + c.octets, Next(big, c, s))
  {
    hide Fold, Total, Word, Begun, Peak, Tail, Whole, LoopEnd, TailEnd;
    BegunSettled(big, d, c, s);
    TailReads(big, c, s);
    TailBound(big, c, s);
    var n, p, r := |c.octets|, LoopStart(c, s), TailEnd(c, s);
    assert p == Joining(s) && LoopBase(big, c, s) == Begun(big, c, s);
    NextIs(big, c, s);
    hide LoopStart, LoopBase, Turns, Joining, Next;
    var e, b := d + c.octets[..p], c.octets[p..r];
    PlainSum(big, e, b, Begun(big, c, s), Tail(big, c, s));
    PlainOctets(d, c.octets, p, r);
    if r < n {
      PlainWords(big, e, c.octets[n - 1], b, Tail(big, c, s));
      assert forall c1: byte :: (d + c.octets) + [c1] == e + (b + [c.octets[n - 1]] + [c1]);
    }
  }

  lemma PlainSum(big: bool, e: seq<byte>, b: seq<byte>, begun: nat, tail: nat)
    requires |e| % 2 == 0 && Fold(begun) == Fold(Total(big, e)) && Fold(tail) == Fold(begun + Total(big, b))
    ensures Fold(tail) == Fold(Total(big, e) + Total(big, b)) == Fold(Total(big, e + b))
  {
    hide Fold, Total;
    FoldAdd(begun, Total(big, e), Total(big, b));
    TotalAppend(big, e, b);
  }

  lemma PlainWords(big: bool, e: seq<byte>, c0: byte, b: seq<byte>, sum: nat)
    requires |e| % 2 == 0 && |b| % 2 == 0 && Fold(sum) == Fold(Total(big, e) + Total(big, b))
    ensures forall c1: byte :: Fold(sum + Word(big, c0, c1)) == Fold(Total(big, e + (b + [c0] + [c1])))
  {
    hide Fold, Total, Word;
    forall c1: byte
      ensures Fold(sum + Word(big, c0, c1)) == Fold(Total(big, e + (b + [c0] + [c1])))
    {
      PlainDone(big, e, c0, b, c1, sum);
    }
  }

  lemma PlainOctets(d: seq<byte>, octets: seq<byte>, p: nat, r: nat)
    requires p <= r <= |octets| < r + 2
    ensures d + octets == (d + octets[..p]) + if r < |octets| then octets[p..r] + [octets[|octets| - 1]] else octets[p..r]
  {
  }

  lemma NextTurned(big: bool, d: seq<byte>, c: Chunk, s: Running)
    requires Settled(big, d, s) && c.octets != [] && Turns(c, s)
    ensures Settled(big, d + c.octets, Next(big, c, s))
  {
    hide Fold, Total, Word, Begun, Peak, Tail, Whole, LoopEnd, TailEnd;
    BegunSettled(big, d, c, s);
    TailReads(big, c, s);
    NextIsTurned(big, c, s);
    var n, p, r := |c.octets|, LoopStart(c, s), TailEnd(c, s);
    assert p - 1 == Joining(s) && LoopBase(big, c, s) == 256 * Fold(Begun(big, c, s));
    hide LoopStart, LoopBase, Joining, Next, Turns;
    var c0, e, b := c.octets[p - 1], d + c.octets[..p - 1], c.octets[p..r];
    TurnedSum(Begun(big, c, s), Total(big, e), Total(big, b), Tail(big, c, s));
    TurnedWords(big, e, c0, b, Fold(Tail(big, c, s)));
    TurnedOctets(d, c.octets, p, r);
    if r == n {
      assert forall c1: byte :: (d + c.octets) + [c1] == e + ([c0] + b + [c1]);
    }
  }

  lemma TurnedWords(big: bool, e: seq<byte>, c0: byte, b: seq<byte>, sum: nat)
    requires |e| % 2 == 0 && |b| % 2 == 0 && Fold(sum) == Fold(256 * Total(big, e) + Total(big, b))
    ensures forall c1: byte :: Fold(256 * sum + Word(big, c0, c1)) == Fold(Total(big, e + ([c0] + b + [c1])))
  {
    hide Fold, Total, Word;
    forall c1: byte
      ensures Fold(256 * sum + Word(big, c0, c1)) == Fold(Total(big, e + ([c0] + b + [c1])))
    {
      SwappedDone(big, e, c0, b, c1, sum);
    }
  }

  lemma TurnedOctets(d: seq<byte>, octets: seq<byte>, p: nat, r: nat)
    requires 0 < p <= r <= |octets| < r + 2
    ensures d + octets == (d + octets[..p - 1]) +
      (if r < |octets| then [octets[p - 1]] + octets[p..r] + [octets[|octets| - 1]] else [octets[p - 1]] + octets[p..r])
  {
  }

  lemma TurnedSum(begun: nat, e: nat, b: nat, tail: nat)
    requires Fold(begun) == Fold(e) && Fold(tail) == Fold(256 * Fold(begun) + b)
    ensures Fold(Fold(tail)) == Fold(256 * e + b)
  {
    FoldFold(begun);
    FoldFold(tail);
    FoldTimes256(Fold(begun), e);
    FoldAdd(256 * Fold(begun), 256 * e, b);
    hide Fold;
  }

  lemma TailBound(big: bool, c: Chunk, s: Running)
    requires c.octets != []
    ensures Tail(big, c, s) <= 4 * 0xffff
  {
    hide Peak, Total, LoopEnd, TailEnd, Whole;
    TotalBound(big, c.octets[LoopEnd(c, s)..TailEnd(c, s)]);
  }

  lemma {:induction false} TotalBound(big: bool, d: seq<byte>)
    requires |d| % 2 == 0
    ensures Total(big, d) <= 0xffff * (|d| / 2)
  {
    if d != [] {
      TotalBound(big, d[2..]);
    }
  }

  lemma {:induction false} AfterSettled(big: bool, vec: seq<Chunk>)
    ensures Settled(big, Flatten(vec), After(big, vec))
  {
    if vec != [] {
      hide Settled, Next, Flatten;
      var n := |vec| - 1;
      AfterSettled(big, vec[..n]);
      NextSettled(big, Flatten(vec[..n]), vec[n], After(big, vec[..n]));
      FlattenAppend(vec[..n], vec[n]);
      assert vec == vec[..n] + [vec[n]];
    }
  }

  // ---- in_cksum ----

  /** Four words more, of the units of eight octets from p0 on. */
  lemma FourMore(big: bool, octets: seq<byte>, p0: nat, k: nat, units: nat)
    requires k < units && p0 + 8 * units <= |octets|
    ensures Total(big, octets[p0..p0 + 8 * k + 8]) == Total(big, octets[p0..p0 + 8 * k]) + FourWords(big, octets, p0 + 8 * k)
    ensures Total(big, octets[p0..p0 + 8 * k + 8]) <= Total(big, octets[p0..p0 + 8 * units])
  {
    hide Total, FourWords, Word;
    TotalFour(big, octets, p0, 4 * k);
    TotalSplit(big, octets, p0, 4 * k + 4, p0 + 8 * units);
  }

  /** The body of the short loop, and a quarter of that of the long one. */
  method AddFour(big: bool, octets: seq<byte>, ghost p0: nat, p: nat, ghost k: nat, ghost units: nat,
                 ghost sum0: nat, sum: int32)
    returns (sum': int32)
    requires p == p0 + 8 * k && k < units && p0 + 8 * units <= |octets|
    requires sum == sum0 + Total(big, octets[p0..p]) && sum0 + Total(big, octets[p0..p0 + 8 * units]) <= INT_MAX
    ensures sum' == sum0 + Total(big, octets[p0..p + 8])
  {
    hide Word, Total, FourWords;
    FourMore(big, octets, p0, k, units);
    sum' := sum + FourWords(big, octets, p);
  }

  /** The unrolled loops: words from p on while 32, then while 8 octets are left; mlen counts what is left. */
  method SumWords(big: bool, octets: seq<byte>, p0: nat, mlen0: int32, sum0: int32)
    returns (sum: int32, p: nat, mlen: int32)
    requires 0 <= mlen0 == |octets| - p0 && sum0 >= 0
    requires sum0 + Total(big, octets[p0..p0 + Whole(mlen0, 8)]) <= INT_MAX
    ensures p == p0 + Whole(mlen0, 8) && sum == sum0 + Total(big, octets[p0..p]) && mlen == |octets| - p
  {
    ghost var k, units: nat := 0, 0;
    units := WholeEight(mlen0);
    TotalNone(big);
    hide Word, Total, FourWords, Whole;
    sum, p, mlen := sum0, p0, mlen0;
    assert octets[p0..p] == [];
    mlen := mlen - 32;
    sum, p, mlen, k := SumThirtyTwo(big, octets, p0, p, mlen, sum0, sum, units);
    mlen := mlen + 32;
    mlen := mlen - 8;
    while mlen >= 0
      invariant -8 <= mlen == |octets| - p - 8 && p == p0 + 8 * k && 0 <= k <= units
      invariant sum == sum0 + Total(big, octets[p0..p])
    {
      sum := AddFour(big, octets, p0, p, k, units, sum0, sum);
      p, k := p + 8, k + 1;
      mlen := mlen - 8;
    }
    mlen := mlen + 8;
  }

  /** The loop over blocks of 32 octets. */
  method SumThirtyTwo(big: bool, octets: seq<byte>, ghost p0: nat, p1: nat, mlen1: int32, ghost sum0: int32, sum1: int32,
                      ghost units: nat)
    returns (sum: int32, p: nat, mlen: int32, ghost k: nat)
    requires p1 == p0 && sum0 >= 0 && sum1 == sum0 && -32 <= mlen1 == |octets| - p0 - 32
    requires 8 * units <= |octets| - p0 < 8 * units + 8 && sum0 + Total(big, octets[p0..p0 + 8 * units]) <= INT_MAX
    ensures -32 <= mlen == |octets| - p - 32 && mlen < 0 && p == p0 + 8 * k && k <= units
    ensures sum == sum0 + Total(big, octets[p0..p])
  {
    TotalNone(big);
    hide Word, Total, FourWords;
    sum, p, mlen, k := sum1, p1, mlen1, 0;
    assert octets[p0..p] == [];
    while mlen >= 0
      invariant -32 <= mlen == |octets| - p - 32 && p == p0 + 8 * k && 0 <= k <= units
      invariant sum == sum0 + Total(big, octets[p0..p])
    {
      assert k + 4 <= units;
      sum := AddFour(big, octets, p0, p, k, units, sum0, sum);
      sum := AddFour(big, octets, p0, p + 8, k + 1, units, sum0, sum);
      sum := AddFour(big, octets, p0, p + 16, k + 2, units, sum0, sum);
      sum := AddFour(big, octets, p0, p + 24, k + 3, units, sum0, sum);
      p, k := p + 32, k + 4;
      mlen := mlen - 32;
    }
  }

  lemma WholeEight(n: nat) returns (units: nat)
    ensures Whole(n, 8) == 8 * units <= n < 8 * units + 8
  {
    units := n / 8;
  }

  /** The short end of a chunk: the last words, then an odd octet if there is one. */
  method SumTail(big: bool, octets: seq<byte>, p0: nat, mlen0: int32, sum0: int32)
    returns (sum: int32, p: nat, mlen: int32)
    requires 0 <= mlen0 == |octets| - p0 < 8 && 0 <= sum0 <= 0xffff
    ensures p == p0 + Whole(mlen0, 2) && sum == sum0 + Total(big, octets[p0..p]) && mlen == |octets| - p - 2
  {
    TotalNone(big);
    hide Word, Total;
    sum, p, mlen := sum0, p0, mlen0;
    assert octets[p0..p] == [];
    mlen := mlen - 2;
    while mlen >= 0
      invariant -2 <= mlen == |octets| - p - 2 && p0 <= p <= |octets| && (p - p0) % 2 == 0
      invariant sum == sum0 + Total(big, octets[p0..p]) && sum <= sum0 + 0xffff * (p - p0)
    {
      TotalStep(big, octets, p0, (p - p0) / 2);
      sum := sum + Word(big, octets[p], octets[p + 1]);
      p := p + 2;
      mlen := mlen - 2;
    }
  }

  /** Up to the loops: the first octet may complete a word, and at an odd address the sum is turned. */
  method BeginChunk(big: bool, c: Chunk, sum0: int32, mlen0: int32, saved: byte)
    returns (sum: int32, p: nat, mlen: int32, c0: byte, swapped: bool)
    requires c.octets != [] && sum0 >= 0 && (mlen0 == -1 ==> sum0 <= 0xffff * 256)
    ensures var s := Running(sum0, mlen0 == -1, saved);
      && swapped == Turns(c, s) && p == LoopStart(c, s) && mlen == |c.octets| - p
      && sum == LoopBase(big, c, s) && c0 == if swapped then c.octets[p - 1] else saved
  {
    sum, c0, swapped := sum0, saved, false;
    if mlen0 == -1 {
      sum := sum + Word(big, saved, c.octets[0]);
      p := 1;
      mlen := |c.octets| - 1;
    } else {
      p := 0;
      mlen := |c.octets|;
    }
    if c.oddAddress != (p == 1) && mlen > 0 {
      sum := Reduce(sum);
      sum := sum * 0x100;
      c0 := c.octets[p];
      p := p + 1;
      mlen := mlen - 1;
      swapped := true;
    }
  }

  lemma NextCases(big: bool, c: Chunk, s: Running)
    requires c.octets != []
    ensures var n, sum := |c.octets|, Tail(big, c, s);
      Next(big, c, s) ==
        if LoopEnd(c, s) == n && !Turns(c, s) then Running(Peak(big, c, s), false, s.saved)
        else if Turns(c, s) then
          if TailEnd(c, s) < n then
            Running(256 * Fold(sum) + Word(big, c.octets[LoopStart(c, s) - 1], c.octets[n - 1]), false,
                    c.octets[LoopStart(c, s) - 1])
          else Running(256 * Fold(sum), true, c.octets[LoopStart(c, s) - 1])
        else Running(sum, TailEnd(c, s) < n, if TailEnd(c, s) < n then c.octets[n - 1] else s.saved)
  {
    hide Fold, Tail, Peak, Whole, Word;
  }

  /** Up to the reduction after the loops. */
  method ReadLoops(big: bool, c: Chunk, sum0: int32, mlen0: int32, saved: byte)
    returns (sum: int32, p: nat, mlen: int32, c0: byte, swapped: bool)
    requires c.octets != [] && sum0 >= 0 && (mlen0 == -1 ==> sum0 <= 0xffff * 256)
    requires Peak(big, c, Running(sum0, mlen0 == -1, saved)) <= INT_MAX
    ensures var s := Running(sum0, mlen0 == -1, saved);
      && swapped == Turns(c, s) && p == LoopEnd(c, s) && mlen == |c.octets| - p && sum == Peak(big, c, s)
      && c0 == if swapped then c.octets[LoopStart(c, s) - 1] else saved
  {
    hide Word, Fold, Total, Turns, LoopBase, LoopStart, Whole;
    sum, p, mlen, c0, swapped := BeginChunk(big, c, sum0, mlen0, saved);
    sum, p, mlen := SumWords(big, c.octets, p, mlen, sum);
  }

  /** One pass of the loop over the vector. mlen is -1 while c0 waits for its partner. */
  method SumChunk(big: bool, c: Chunk, sum0: int32, mlen0: int32, saved: byte)
    returns (sum: int32, mlen: int32, c0: byte)
    requires sum0 >= 0 && (mlen0 == -1 ==> sum0 <= 0xffff * 256)
    requires c.octets == [] || Peak(big, c, Running(sum0, mlen0 == -1, saved)) <= INT_MAX
    ensures sum >= 0 && Running(sum, mlen == -1, c0) == Next(big, c, Running(sum0, mlen0 == -1, saved))
  {
    sum, mlen, c0 := sum0, mlen0, saved;
    if c.octets == [] {
      return;
    }
    ghost var s := Running(sum0, mlen0 == -1, saved);
    NextCases(big, c, s);
    hide Word, Fold, Total, Turns, LoopStart, LoopEnd, TailEnd, Whole, Next, Peak, Tail;
    var p, swapped;
    sum, p, mlen, c0, swapped := ReadLoops(big, c, sum0, mlen0, saved);
    if mlen == 0 && !swapped {
      return;
    }
    sum, mlen, c0 := ReadRest(big, c, s, sum, p, mlen, c0, swapped);
  }

  /** From the reduction after the loops on. */
  method ReadRest(big: bool, c: Chunk, ghost s: Running, sum0: int32, p0: nat, mlen0: int32, saved: byte, swapped: bool)
    returns (sum: int32, mlen: int32, c0: byte)
    requires c.octets != [] && sum0 == Peak(big, c, s) && p0 == LoopEnd(c, s) && mlen0 == |c.octets| - p0
    ensures sum >= 0
    ensures var n, tail, more := |c.octets|, Tail(big, c, s), TailEnd(c, s) < |c.octets|;
      Running(sum, mlen == -1, c0) ==
        if swapped then
          if more then Running(256 * Fold(tail) + Word(big, saved, c.octets[n - 1]), false, saved)
          else Running(256 * Fold(tail), true, saved)
        else Running(tail, more, if more then c.octets[n - 1] else saved)
  {
    hide Word, Fold, Total, Whole, Peak, LoopEnd;
    TailBound(big, c, s);
    var p;
    sum := Reduce(sum0);
    sum, p, mlen := SumTail(big, c.octets, p0, mlen0, sum);
    assert p == TailEnd(c, s) && sum == Tail(big, c, s);
    hide TailEnd, Tail;
    sum, mlen, c0 := EndChunk(big, c.octets, p, mlen, sum, saved, swapped);
  }

  /** Undo the turn, and keep an octet that is left over. */
  method EndChunk(big: bool, octets: seq<byte>, p: nat, mlen0: int32, sum0: int32, saved: byte, swapped: bool)
    returns (sum: int32, mlen: int32, c0: byte)
    requires octets != [] && p <= |octets| && -2 <= mlen0 <= -1 && mlen0 == |octets| - p - 2 && 0 <= sum0 <= 4 * 0xffff
    ensures sum >= 0
    ensures Running(sum, mlen == -1, c0) ==
      if swapped then
        if p < |octets| then Running(256 * Fold(sum0) + Word(big, saved, octets[|octets| - 1]), false, saved)
        else Running(256 * Fold(sum0), true, saved)
      else Running(sum0, p < |octets|, if p < |octets| then octets[|octets| - 1] else saved)
  {
    hide Fold, Word;
    sum, mlen, c0 := sum0, mlen0, saved;
    if swapped {
      sum := Reduce(sum);
      sum := sum * 0x100;
      if mlen == -1 {
        sum := sum + Word(big, c0, octets[p]);
        mlen := 0;
      } else {
        mlen := -1;
      }
    } else if mlen == -1 {
      c0 := octets[p];
    }
  }

  /**
   * in_cksum: for every vector whose running sum stays in the range of int, whatever the chunk lengths (odd ones and
   * empty ones included) and alignments, the checksum of the concatenated octets.
   */
  method InCksum(big: bool, vec: seq<Chunk>) returns (r: u16)
    requires InRange(big, vec)
    ensures r == Checksum(big, Flatten(vec))
  {
    hide Fold, Word, Total, Next, Peak;
    var sum: int32, mlen: int32, c0: byte := 0, 0, 0;
    var i := 0;
    while i < |vec|
      invariant 0 <= i <= |vec| && sum >= 0
      invariant Running(sum, mlen == -1, c0) == After(big, vec[..i])
    {
      AfterSettled(big, vec[..i]);
      InRangeAt(big, vec, i);
      assert vec[..i + 1][..i] == vec[..i];
      sum, mlen, c0 := SumChunk(big, vec[i], sum, mlen, c0);
      i := i + 1;
    }
    assert vec[..i] == vec;
    ghost var d := Flatten(vec);
    AfterSettled(big, vec);
    SettledMeans(big, d, After(big, vec));
    if mlen == -1 {
      sum := sum + Word(big, c0, 0);
    }
    OnesSumIsFold(big, d);
    r := 0xffff - Reduce(sum);
  }

  lemma {:induction false} InRangeAt(big: bool, vec: seq<Chunk>, i: nat)
    requires InRange(big, vec) && i < |vec|
    ensures vec[i].octets == [] || Peak(big, vec[i], After(big, vec[..i])) <= INT_MAX
  {
    if i < |vec| - 1 {
      InRangeAt(big, vec[..|vec| - 1], i);
      assert vec[..|vec| - 1][..i] == vec[..i];
    }
  }

  lemma SettledMeans(big: bool, d: seq<byte>, s: Running)
    requires Settled(big, d, s)
    ensures Fold(if s.pending then s.sum + Word(big, s.saved, 0) else s.sum) == Fold(Total(big, d))
  {
    hide Fold, Total, Word;
    if s.pending {
      TotalPad(big, d);
      assert Fold(s.sum + Word(big, s.saved, 0)) == Fold(Total(big, d + [0]));
    }
  }

  // ---- byte order and in_cksum_shouldbe ----

  function Swap(x: u16): u16 { x % 0x100 * 0x100 + x / 0x100 }

  lemma {:induction false} TotalSwap(d: seq<byte>)
    ensures Fold(Total(false, d)) == Fold(256 * Total(true, d))
  {
    if |d| == 1 {
      SwappedWord(d[0], 0, 0);
    } else if |d| >= 2 {
      TotalSwap(d[2..]);
      var t, u := Total(false, d[2..]), Total(true, d[2..]);
      hide Fold, Word;
      FoldAdd(t, 256 * u, Word(false, d[0], d[1]));
      SwappedWord(d[0], d[1], 256 * u);
    }
  }

  lemma SwappedWord(b0: byte, b1: byte, t: nat)
    ensures Fold(t + Word(false, b0, b1)) == Fold(t + 256 * Word(true, b0, b1))
  {
    assert 256 * Word(true, b0, b1) - Word(false, b0, b1) == 0xffff * b0;
    if t + Word(false, b0, b1) > 0 && t + 256 * Word(true, b0, b1) > 0 {
      FoldCongruent(t + 256 * Word(true, b0, b1), t + Word(false, b0, b1), b0);
    }
  }

  lemma FoldIsSwap(x: u16)
    ensures Fold(256 * x) == Swap(x)
  {
    if x > 0 {
      FoldCongruent(256 * x, Swap(x), x / 0x100);
    }
  }

  /** A little-endian host computes the big-endian checksum with its octets swapped: stored, it is the same. */
  lemma ChecksumByteOrder(d: seq<byte>)
    ensures Checksum(false, d) == Swap(Checksum(true, d))
  {
    hide Fold, Total, OnesSum, Swap;
    OnesSumIsFold(false, d);
    OnesSumIsFold(true, d);
    TotalSwap(d);
    var t := Total(true, d);
    FoldFold(t);
    FoldTimes256(Fold(t), t);
    FoldIsSwap(Fold(t));
    SwapComplement(Fold(t));
  }

  lemma SwapComplement(x: u16)
    ensures 0xffff - Swap(x) == Swap(0xffff - x)
  {
  }

  function Ntohs(big: bool, x: u16): u16 { if big then x else Swap(x) }

  /** in_cksum_shouldbe. */
  function ShouldBe(big: bool, sum: u16, computed: u16): u16 {
    var a := sum + Ntohs(big, computed);
    var b := a % 0x10000 + a / 0x10000;
    b % 0x10000 + b / 0x10000
  }

  lemma {:induction false} TotalReplace(d: seq<byte>, q: nat, b0: byte, b1: byte)
    requires q % 2 == 0 && q + 1 < |d|
    ensures Total(true, d[q := b0][q + 1 := b1]) == Total(true, d) - Word(true, d[q], d[q + 1]) + Word(true, b0, b1)
    ensures Word(true, d[q], d[q + 1]) <= Total(true, d)
  {
    var d' := d[q := b0][q + 1 := b1];
    if q == 0 {
      assert d'[2..] == d[2..];
    } else {
      TotalReplace(d[2..], q - 2, b0, b1);
      assert d'[2..] == d[2..][q - 2 := b0][q - 1 := b1];
    }
  }

  /**
   * Put the value of in_cksum_shouldbe into the checksum field, which lies at an even offset, and the packet
   * verifies: its checksum is 0. computed is what in_cksum gave for the packet as received.
   */
  lemma ShouldBeVerifies(big: bool, d: seq<byte>, q: nat)
    requires q % 2 == 0 && q + 1 < |d|
    ensures var s := ShouldBe(big, Word(true, d[q], d[q + 1]), Checksum(big, d));
      Checksum(big, d[q := s / 0x100][q + 1 := s % 0x100]) == 0
  {
    hide Fold, Total, OnesSum, Swap, ShouldBe;
    ChecksumByteOrder(d);
    SwapSwap(Checksum(true, d));
    var f, t := Word(true, d[q], d[q + 1]), Total(true, d);
    OnesSumIsFold(true, d);
    var s := ShouldBe(big, f, Checksum(big, d));
    ShouldBeValue(big, f, Checksum(big, d));
    assert s / 0x100 * 0x100 + s % 0x100 == s;
    var d' := d[q := s / 0x100][q + 1 := s % 0x100];
    TotalReplace(d, q, s / 0x100, s % 0x100);
    ReplacedTotal(f, t, s, Total(true, d'));
    OnesSumIsFold(true, d');
    ChecksumByteOrder(d');
  }

  lemma ShouldBeValue(big: bool, f: u16, computed: u16)
    ensures ShouldBe(big, f, computed) == OnesAdd(f, Ntohs(big, computed))
  {
    hide Ntohs;
  }

  lemma SwapSwap(x: u16)
    ensures Swap(Swap(x)) == x && Swap(0) == 0
  {
  }

  lemma ReplacedTotal(f: u16, t: nat, s: u16, t': nat)
    requires f <= t && t' == t - f + s
    requires s == OnesAdd(f, 0xffff - Fold(t))
    ensures Fold(t') == 0xffff
  {
    assert t > 0 ==> t - Fold(t) == 0xffff * ((t - 1) / 0xffff);
    var k := (if t > 0 then (t - 1) / 0xffff else 0) + (if f + (0xffff - Fold(t)) > 0xffff then 0 else 1);
    assert t' == 0xffff * k;
    assert k > 0;
    FoldCongruent(t', 0xffff, k - 1);
  }
}
