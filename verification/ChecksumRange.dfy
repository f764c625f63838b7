/**
 * When the sum of in_cksum stays in the range of int. A caller can tell from the lengths of the chunks and the
 * alignment of their addresses: the worst octets are those with all bits set, and they turn the sum into a count of
 * words.
 */
module ChecksumRange {
  import opened InternetChecksum

  type Length = n: nat | n <= 0x7fff_ffff

  /** What a caller knows of a chunk without reading it. */
  datatype Shape = Shape(length: Length, oddAddress: bool)

  function ShapeOf(c: Chunk): Shape { Shape(|c.octets|, c.oddAddress) }

  function Shapes(vec: seq<Chunk>): (shapes: seq<Shape>)
    ensures |shapes| == |vec| && forall i :: 0 <= i < |vec| ==> shapes[i] == ShapeOf(vec[i])
  {
    seq(|vec|, i requires 0 <= i < |vec| => ShapeOf(vec[i]))
  }

  /** The sum counted in words of 0xffff, and whether an octet waits for its partner. */
  datatype Load = Load(words: nat, pending: bool)

  function First(l: Load): nat { if l.pending then 1 else 0 }

  /** A chunk whose octets, but for the one that completes a word, start at an odd address. */
  predicate Turned(h: Shape, l: Load) { h.oddAddress != l.pending && h.length > First(l) }

  function AtMostOne(words: nat): nat { if words == 0 then 0 else 1 }

  function Base(h: Shape, l: Load): nat {
    if Turned(h, l) then 256 * AtMostOne(l.words + First(l)) else l.words + First(l)
  }

  /** The octets that the unrolled loops start with. */
  function Unread(h: Shape, l: Load): nat
    requires h.length > 0
  {
    h.length - First(l) - if Turned(h, l) then 1 else 0
  }

  function PeakLoad(h: Shape, l: Load): nat
    requires h.length > 0
  {
    Base(h, l) + Unread(h, l) / 8 * 4
  }

  function NextLoad(h: Shape, l: Load): Load {
    if h.length == 0 then l
    else
      var left := Unread(h, l) % 8;
      var words := AtMostOne(PeakLoad(h, l)) + left / 2;
      if left == 0 && !Turned(h, l) then Load(PeakLoad(h, l), false)
      else if !Turned(h, l) then Load(words, left % 2 == 1)
      else if left % 2 == 1 then Load(256 * AtMostOne(words) + 1, false)
      else Load(256 * AtMostOne(words), true)
  }

  function LoadAfter(shapes: seq<Shape>): Load
    decreases |shapes|
  {
    if shapes == [] then Load(0, false) else NextLoad(shapes[|shapes| - 1], LoadAfter(shapes[..|shapes| - 1]))
  }

  /** As many words of 0xffff as an int can hold. */
  const MAX_WORDS := 32768

  predicate Fits(shapes: seq<Shape>)
    decreases |shapes|
  {
    shapes == [] ||
    var n := |shapes| - 1;
    Fits(shapes[..n]) && (shapes[n].length == 0 || PeakLoad(shapes[n], LoadAfter(shapes[..n])) <= MAX_WORDS)
  }

  // ---- sums and loads: at most so many words, and exactly so many if all bits are set ----

  predicate Bounded(full: bool, x: nat, words: nat) { if full then x == 0xffff * words else x <= 0xffff * words }

  predicate AllSet(full: bool, d: seq<byte>) { full ==> forall i :: 0 <= i < |d| ==> d[i] == 0xff }

  lemma FoldBounded(full: bool, x: nat, words: nat)
    requires Bounded(full, x, words)
    ensures Bounded(full, Fold(x), AtMostOne(words))
  {
    if full && words > 0 {
      FoldCongruent(x, 0xffff, words - 1);
    }
  }

  lemma {:induction false} TotalBounded(full: bool, big: bool, d: seq<byte>)
    requires |d| % 2 == 0 && AllSet(full, d)
    ensures Bounded(full, Total(big, d), |d| / 2)
  {
    if d != [] {
      TotalBounded(full, big, d[2..]);
    }
  }

  /** The state between chunks is worth its load. */
  predicate Carries(full: bool, s: Running, l: Load) {
    s.pending == l.pending && Bounded(full, s.sum, l.words) && (full && s.pending ==> s.saved == 0xff)
  }

  /** The loops stop where the load says they do. */
  lemma Positions(c: Chunk, s: Running, l: Load)
    requires c.octets != [] && s.pending == l.pending
    ensures var h := ShapeOf(c);
      && Turns(c, s) == Turned(h, l) && |c.octets| - LoopStart(c, s) == Unread(h, l)
      && LoopEnd(c, s) - LoopStart(c, s) == 2 * (Unread(h, l) / 8 * 4) && |c.octets| - LoopEnd(c, s) == Unread(h, l) % 8
      && TailEnd(c, s) - LoopEnd(c, s) == 2 * (Unread(h, l) % 8 / 2) && |c.octets| - TailEnd(c, s) == Unread(h, l) % 8 % 2
  {
    hide Whole;
    WholeUnits(Unread(ShapeOf(c), l));
  }

  lemma WholeUnits(n: nat)
    ensures Whole(n, 8) == 2 * (n / 8 * 4) && n - Whole(n, 8) == n % 8
    ensures Whole(n % 8, 2) == 2 * (n % 8 / 2) && n % 8 - Whole(n % 8, 2) == n % 8 % 2
  {
  }

  lemma PeakBounded(full: bool, big: bool, c: Chunk, s: Running, l: Load)
    requires c.octets != [] && AllSet(full, c.octets) && Carries(full, s, l)
    ensures Bounded(full, Peak(big, c, s), PeakLoad(ShapeOf(c), l))
  {
    hide Fold, Total;
    Positions(c, s, l);
    FoldBounded(full, Begun(big, c, s), l.words + First(l));
    TotalBounded(full, big, c.octets[LoopStart(c, s)..LoopEnd(c, s)]);
  }

  lemma TailBounded(full: bool, big: bool, c: Chunk, s: Running, l: Load)
    requires c.octets != [] && AllSet(full, c.octets) && Carries(full, s, l)
    ensures Bounded(full, Tail(big, c, s), AtMostOne(PeakLoad(ShapeOf(c), l)) + Unread(ShapeOf(c), l) % 8 / 2)
  {
    hide Fold, Total, Peak, PeakLoad;
    Positions(c, s, l);
    PeakBounded(full, big, c, s, l);
    FoldBounded(full, Peak(big, c, s), PeakLoad(ShapeOf(c), l));
    TotalBounded(full, big, c.octets[LoopEnd(c, s)..TailEnd(c, s)]);
  }

  lemma NextBounded(full: bool, big: bool, c: Chunk, s: Running, l: Load)
    requires AllSet(full, c.octets) && Carries(full, s, l)
    ensures Carries(full, Next(big, c, s), NextLoad(ShapeOf(c), l))
  {
    if c.octets != [] {
      Positions(c, s, l);
      NextCases(big, c, s);
      PeakBounded(full, big, c, s, l);
      TailBounded(full, big, c, s, l);
      FoldBounded(full, Tail(big, c, s), AtMostOne(PeakLoad(ShapeOf(c), l)) + Unread(ShapeOf(c), l) % 8 / 2);
      hide Fold, Total, Peak, PeakLoad, Tail, Next, LoopEnd, TailEnd, LoopStart, Turned;
    }
  }

  lemma {:induction false} AfterBounded(full: bool, big: bool, vec: seq<Chunk>)
    requires forall c <- vec :: AllSet(full, c.octets)
    ensures Carries(full, After(big, vec), LoadAfter(Shapes(vec)))
  {
    if vec != [] {
      var n := |vec| - 1;
      AfterBounded(full, big, vec[..n]);
      assert Shapes(vec)[..n] == Shapes(vec[..n]);
      NextBounded(full, big, vec[n], After(big, vec[..n]), LoadAfter(Shapes(vec[..n])));
    }
  }

  /** Whatever the octets: a fitting list is summed within int. */
  lemma {:induction false} FitsInRange(big: bool, vec: seq<Chunk>)
    requires Fits(Shapes(vec))
    ensures InRange(big, vec)
  {
    if vec != [] {
      var n := |vec| - 1;
      assert Shapes(vec)[..n] == Shapes(vec[..n]);
      FitsInRange(big, vec[..n]);
      AfterBounded(false, big, vec[..n]);
      if vec[n].octets != [] {
        PeakBounded(false, big, vec[n], After(big, vec[..n]), LoadAfter(Shapes(vec[..n])));
      }
    }
  }

  /** With all bits set, only a fitting list is. */
  lemma {:induction false} InRangeFits(big: bool, vec: seq<Chunk>)
    requires InRange(big, vec) && forall c <- vec :: AllSet(true, c.octets)
    ensures Fits(Shapes(vec))
  {
    if vec != [] {
      var n := |vec| - 1;
      assert Shapes(vec)[..n] == Shapes(vec[..n]);
      InRangeFits(big, vec[..n]);
      AfterBounded(true, big, vec[..n]);
      if vec[n].octets != [] {
        PeakBounded(true, big, vec[n], After(big, vec[..n]), LoadAfter(Shapes(vec[..n])));
      }
    }
  }

  /** The worst octets for given lengths and alignments. */
  function Worst(shapes: seq<Shape>): (vec: seq<Chunk>)
    ensures Shapes(vec) == shapes && forall c <- vec :: AllSet(true, c.octets)
  {
    seq(|shapes|, i requires 0 <= i < |shapes| => Chunk(seq(shapes[i].length, _ => 0xff), shapes[i].oddAddress))
  }

  /** No octets at all of these lengths and alignments take the sum out of int. */
  ghost predicate AlwaysInRange(big: bool, shapes: seq<Shape>) {
    forall vec :: Shapes(vec) == shapes ==> InRange(big, vec)
  }

  /** Whether they do can be seen from the worst ones. */
  lemma WorstDecides(big: bool, shapes: seq<Shape>)
    ensures Fits(shapes) <==> InRange(big, Worst(shapes))
  {
    hide Fits, InRange;
    if Fits(shapes) {
      FitsInRange(big, Worst(shapes));
    }
    if InRange(big, Worst(shapes)) {
      InRangeFits(big, Worst(shapes));
    }
  }

  /** The condition is exact: it fails just when some octets of these lengths and alignments leave int. */
  lemma FitsIff(big: bool, shapes: seq<Shape>)
    ensures Fits(shapes) <==> AlwaysInRange(big, shapes)
  {
    hide Fits, InRange;
    WorstDecides(big, shapes);
    if Fits(shapes) {
      forall vec | Shapes(vec) == shapes
        ensures InRange(big, vec)
      {
        FitsInRange(big, vec);
      }
    } else {
      assert Shapes(Worst(shapes)) == shapes;
    }
  }

  // ---- by total length ----

  function Octets(shapes: seq<Shape>): nat {
    if shapes == [] then 0 else Octets(shapes[..|shapes| - 1]) + shapes[|shapes| - 1].length
  }

  /** Each chunk starts at an address as even as the number of octets before it, so that no sum is turned. */
  predicate Aligned(shapes: seq<Shape>) {
    forall i :: 0 <= i < |shapes| ==> shapes[i].oddAddress == (Octets(shapes[..i]) % 2 == 1)
  }

  /** Turning the sum makes up to 255 words out of one; it is reduced before it can be turned again. */
  predicate ByLength(l: Load, n: nat, aligned: bool) {
    && l.pending == (n % 2 == 1)
    && 2 * AtMostOne(l.words) + First(l) <= n
    && 2 * l.words + First(l) <= n + if aligned then 0 else 510
  }

  lemma PeakByLength(h: Shape, l: Load, n: nat, aligned: bool)
    requires ByLength(l, n, aligned) && h.length > 0 && (aligned ==> !Turned(h, l))
    ensures 2 * PeakLoad(h, l) + Unread(h, l) % 8 <= n + h.length + if aligned then 0 else if Turned(h, l) then 509 else 510
    ensures 2 * AtMostOne(PeakLoad(h, l)) + Unread(h, l) % 8 + (if Turned(h, l) then 1 else 0) <= n + h.length
  {
  }

  lemma OddOctets(m: nat, whole: nat, left: nat, turned: nat)
    requires m == 2 * whole + left + turned && turned <= 1
    ensures m % 2 == (if turned == 1 then 1 - left % 2 else left % 2) && left == 2 * (left / 2) + left % 2
  {
  }

  lemma OddAfter(h: Shape, l: Load, n: nat)
    requires l.pending == (n % 2 == 1) && h.length > 0
    ensures var left := Unread(h, l) % 8;
      (n + h.length) % 2 == (if Turned(h, l) then 1 - left % 2 else left % 2) && left == 2 * (left / 2) + left % 2
  {
    var half := n / 2;
    assert n == 2 * half + First(l);
    OddOctets(n + h.length, half + First(l) + Unread(h, l) / 8 * 4, Unread(h, l) % 8, if Turned(h, l) then 1 else 0);
  }

  lemma NextByLength(h: Shape, l: Load, n: nat, aligned: bool)
    requires ByLength(l, n, aligned) && (aligned ==> !Turned(h, l))
    ensures ByLength(NextLoad(h, l), n + h.length, aligned)
  {
    if h.length > 0 {
      PeakByLength(h, l, n, aligned);
      var left, words := Unread(h, l) % 8, AtMostOne(PeakLoad(h, l)) + Unread(h, l) % 8 / 2;
      OddAfter(h, l, n);
      hide PeakLoad, Turned, Unread;
      if left == 0 && !Turned(h, l) {
        assert ByLength(Load(PeakLoad(h, l), false), n + h.length, aligned);
      } else if !Turned(h, l) {
        assert ByLength(Load(words, left % 2 == 1), n + h.length, aligned);
      } else {
        assert AtMostOne(words) <= words;
      }
    }
  }

  lemma {:induction false} LoadByLength(shapes: seq<Shape>)
    ensures ByLength(LoadAfter(shapes), Octets(shapes), Aligned(shapes))
  {
    hide NextLoad;
    if shapes != [] {
      var n := |shapes| - 1;
      LoadByLength(shapes[..n]);
      if Aligned(shapes) {
        AlignedPrefix(shapes);
      }
      NextByLength(shapes[n], LoadAfter(shapes[..n]), Octets(shapes[..n]), Aligned(shapes));
    }
  }

  lemma AlignedPrefix(shapes: seq<Shape>)
    requires Aligned(shapes) && shapes != []
    ensures Aligned(shapes[..|shapes| - 1])
  {
    forall i | 0 <= i < |shapes| - 1
      ensures shapes[i].oddAddress == (Octets(shapes[..|shapes| - 1][..i]) % 2 == 1)
    {
      assert shapes[..|shapes| - 1][..i] == shapes[..i];
    }
  }

  /** Any list of up to 65027 octets fits, and with no sum turned any of up to 65537. */
  lemma {:induction false} FitsByLength(shapes: seq<Shape>)
    requires Octets(shapes) <= 65027 || (Aligned(shapes) && Octets(shapes) <= 65537)
    ensures Fits(shapes)
  {
    if shapes != [] {
      var n := |shapes| - 1;
      if Aligned(shapes) {
        AlignedPrefix(shapes);
      }
      FitsByLength(shapes[..n]);
      LoadByLength(shapes[..n]);
    }
  }

  // ---- the bounds are tight, and what they mean for nextproto4_cksum ----

  lemma OneMoreChunk(shapes: seq<Shape>, h: Shape)
    ensures LoadAfter(shapes + [h]) == NextLoad(h, LoadAfter(shapes)) && Octets(shapes + [h]) == Octets(shapes) + h.length
    ensures Fits(shapes + [h]) == (Fits(shapes) && (h.length == 0 || PeakLoad(h, LoadAfter(shapes)) <= MAX_WORDS))
  {
    assert (shapes + [h])[..|shapes|] == shapes;
  }

  lemma FirstChunk(h: Shape)
    ensures LoadAfter([h]) == NextLoad(h, Load(0, false)) && Octets([h]) == h.length
    ensures Fits([h]) == (h.length == 0 || PeakLoad(h, Load(0, false)) <= MAX_WORDS)
  {
    OneMoreChunk([], h);
    assert [] + [h] == [h];
  }

  /** The load in front of the last chunk, and the peak in it. */
  lemma TurnedTwice()
    ensures NextLoad(Shape(2, false), Load(0, false)) == Load(1, false)
    ensures NextLoad(Shape(1, true), Load(1, false)) == Load(256, true)
    ensures PeakLoad(Shape(65025, true), Load(256, true)) == 32769
  {
    OneWord();
    var b, c := Shape(1, true), Shape(65025, true);
    assert Turned(b, Load(1, false)) && Unread(b, Load(1, false)) == 0 && PeakLoad(b, Load(1, false)) == 256;
    assert Unread(c, Load(256, true)) == 65024 && Base(c, Load(256, true)) == 257;
    hide Turned, Unread, Base;
  }

  lemma OneWord()
    ensures NextLoad(Shape(2, false), Load(0, false)) == Load(1, false)
  {
    var a := Shape(2, false);
    assert !Turned(a, Load(0, false)) && Unread(a, Load(0, false)) == 2 && PeakLoad(a, Load(0, false)) == 0;
    hide Turned, Unread, PeakLoad;
  }

  /** 65028 octets: a single one at an odd address turns the sum, and the one after it completes a word again. */
  lemma OneMoreOctet(big: bool)
    ensures var shapes := [Shape(2, false), Shape(1, true), Shape(65025, true)];
      Octets(shapes) == 65028 && !Fits(shapes) && !InRange(big, Worst(shapes))
  {
    hide Fits, LoadAfter, NextLoad, PeakLoad, Octets, Worst, InRange, Shapes;
    var a, b, c := Shape(2, false), Shape(1, true), Shape(65025, true);
    TurnedTwice();
    FirstChunk(a);
    OneMoreChunk([a], b);
    assert [a] + [b] == [a, b];
    OneMoreChunk([a, b], c);
    assert [a, b] + [c] == [a, b, c];
    WorstDecides(big, [a, b, c]);
  }

  /** 65538 octets at even addresses. */
  lemma OneMoreWord(big: bool)
    ensures var shapes := [Shape(2, false), Shape(65536, false)];
      Aligned(shapes) && Octets(shapes) == 65538 && !Fits(shapes) && !InRange(big, Worst(shapes))
  {
    hide Fits, LoadAfter, NextLoad, Octets, Worst, InRange, Shapes;
    var a, b := Shape(2, false), Shape(65536, false);
    OneWord();
    FirstChunk(a);
    OneMoreChunk([a], b);
    assert [a] + [b] == [a, b];
    WorstDecides(big, [a, b]);
    EvenAligned(a, b);
  }

  lemma EvenAligned(a: Shape, b: Shape)
    requires !a.oddAddress && !b.oddAddress && a.length % 2 == 0
    ensures Aligned([a, b])
  {
    FirstChunk(a);
    assert [a, b][..0] == [];
    assert [a, b][..1] == [a];
  }

  /**
   * nextproto4_cksum sums a pseudo header of 12 octets at an even address and up to 65515 octets of data. At an even
   * address all of them fit; at an odd one just the data of up to 65032 octets.
   */
  lemma PseudoHeaderFits(n: Length, odd: bool)
    requires n <= 65515
    ensures Fits([Shape(12, false), Shape(n, odd)]) <==> !odd || n <= 65032
  {
    hide Fits, LoadAfter, Octets;
    var header, data := Shape(12, false), Shape(n, odd);
    FirstChunk(header);
    OneMoreChunk([header], data);
    assert [header] + [data] == [header, data];
  }
}
