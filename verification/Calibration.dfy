/** bladerf.c: the calibration list, kept sorted as it is read, and the search that stops early because it is sorted. */
module Calibration {
  import opened Wrappers

  const FAR: int := 0x100_0000_0000

  /** A calibration point: frequency in Hz and receive gain. */
  datatype Point = Point(freq: nat, gain: real)

  // ---- order ----

  predicate Less(a: Point, b: Point) {
    a.freq < b.freq || (a.freq == b.freq && a.gain < b.gain)
  }

  ghost predicate Sorted(q: seq<Point>) {
    forall i, j :: 0 <= i < j < |q| ==> Less(q[i], q[j])
  }

  function Distance(f: int, e: Point): int {
    if f >= e.freq then f - e.freq else e.freq - f
  }

  lemma SplicedSorted(q: seq<Point>, i: nat, at: Point)
    requires Sorted(q) && i <= |q|
    requires (forall j :: 0 <= j < i ==> Less(q[j], at)) && (forall j :: i <= j < |q| ==> Less(at, q[j]))
    ensures Sorted(q[..i] + [at] + q[i..])
  {
    var r := q[..i] + [at] + q[i..];
    hide Less;
    forall j, k | 0 <= j < k < |r|
      ensures Less(r[j], r[k])
    {
      if k < i {
        assert r[j] == q[j] && r[k] == q[k];
      } else if k == i {
        assert r[j] == q[j] && r[k] == at;
      } else if j < i {
        assert r[j] == q[j] && r[k] == q[k - 1];
      } else if j == i {
        assert r[j] == at && r[k] == q[k - 1];
      } else {
        assert r[j] == q[j - 1] && r[k] == q[k - 1];
      }
    }
  }

  lemma SplicedPoints(q: seq<Point>, i: nat, at: Point)
    requires i <= |q|
    ensures multiset(q[..i] + [at] + q[i..]) == multiset(q) + multiset{at}
  {
    assert q == q[..i] + q[i..];
  }

  // ---- the linked list ----

  class CalEntry {
    const at: Point
    var next: CalEntry?

    constructor (at: Point)
      ensures this.at == at && this.next == null
    {
      this.at, this.next := at, null;
    }
  }

  class CalList {
    var ce: CalEntry?
    ghost var nodes: seq<CalEntry>
    ghost var q: seq<Point>

    ghost predicate Valid()
      reads this, nodes
    {
      && |q| == |nodes| && ce == NodeAt(0)
      && (forall i, j :: 0 <= i < |nodes| && j == i + 1 && j < |nodes| ==> nodes[i].next == nodes[j])
      && (nodes != [] ==> nodes[|nodes| - 1].next == null)
      && (forall i :: 0 <= i < |nodes| ==> q[i] == nodes[i].at)
      && (forall i, j :: 0 <= i < j < |nodes| ==> nodes[i] != nodes[j])
    }

    ghost function NodeAt(i: nat): CalEntry?
      reads this
    {
      if i < |nodes| then nodes[i] else null
    }

    constructor ()
      ensures Valid() && q == [] && nodes == []
    {
      ce, nodes, q := null, [], [];
    }

    /** Where the new entry goes: after prev, or at the head if that is null; no place for a duplicate. */
    method FindPlace(at: Point) returns (prev: CalEntry?, next: CalEntry?, duplicate: bool, ghost i: nat)
      requires Valid() && Sorted(q)
      ensures duplicate <==> at in q
      ensures !duplicate ==>
                && i <= |q| && next == NodeAt(i) && prev == (if i == 0 then null else nodes[i - 1])
                && (forall j :: 0 <= j < i ==> Less(q[j], at)) && (forall j :: i <= j < |q| ==> Less(at, q[j]))
    {
      prev, next, duplicate, i := null, ce, false, 0;
      while next != null
        invariant i <= |q| && next == NodeAt(i) && prev == if i == 0 then null else nodes[i - 1]
        invariant forall j :: 0 <= j < i ==> Less(q[j], at)
        decreases |q| - i
      {
        if next.at.freq > at.freq {
          break;
        }
        if next.at.freq == at.freq {
          if next.at.gain == at.gain {
            duplicate := true;
            assert at == q[i];
            return;
          }
          if next.at.gain > at.gain {
            break;
          }
        }
        prev, next, i := next, next.next, i + 1;
      }
    }

    /** The insertion part of cal_get. */
    method Insert(at: Point) returns (duplicate: bool)
      requires Valid() && Sorted(q)
      modifies this, nodes
      ensures Valid() && Sorted(q) && forall n :: n in nodes ==> n in old(nodes) || fresh(n)
      ensures duplicate <==> at in old(q)
      ensures duplicate ==> q == old(q)
      ensures !duplicate ==> multiset(q) == multiset(old(q)) + multiset{at}
    {
      var prev, next;
      ghost var i;
      prev, next, duplicate, i := FindPlace(at);
      if !duplicate {
        Splice(prev, next, i, at);
        SplicedSorted(old(q), i, at);
        SplicedPoints(old(q), i, at);
      }
    }

    method Splice(prev: CalEntry?, next: CalEntry?, ghost i: nat, at: Point)
      requires Valid() && i <= |q| && next == NodeAt(i) && prev == if i == 0 then null else nodes[i - 1]
      modifies this, prev
      ensures Valid() && forall n :: n in nodes ==> n in old(nodes) || fresh(n)
      ensures q == old(q)[..i] + [at] + old(q)[i..]
    {
      var e := new CalEntry(at);
      e.next := next;
      if prev == null {
        ce, nodes, q := e, [e] + nodes, [at] + q;
      } else {
        PutAfter(prev, e, i);
      }
    }

    method PutAfter(prev: CalEntry, e: CalEntry, ghost i: nat)
      requires Valid() && 0 < i <= |q| && prev == nodes[i - 1] && e.next == NodeAt(i) && e !in nodes
      modifies this`nodes, this`q, prev
      ensures Valid() && nodes == old(nodes)[..i] + [e] + old(nodes)[i..]
      ensures q == old(q)[..i] + [e.at] + old(q)[i..]
    {
      prev.next := e;
      nodes, q := nodes[..i] + [e] + nodes[i..], q[..i] + [e.at] + q[i..];
    }

    /** The reading loop of cal_get: it stops at the first point the list already has. */
    method Load(points: seq<Point>) returns (n: nat)
      requires Valid() && q == []
      modifies this, nodes
      ensures Valid() && Sorted(q) && n <= |points| && multiset(q) == multiset(points[..n])
      ensures n < |points| ==> points[n] in points[..n]
      ensures n == |points| <==> Distinct(points)
    {
      n := 0;
      while n < |points|
        invariant Valid() && Sorted(q) && 0 <= n <= |points|
        invariant fresh(set x | x in nodes)
        invariant multiset(q) == multiset(points[..n]) && Distinct(points[..n])
      {
        assert forall x :: x in nodes ==> x in set y | y in nodes;
        var duplicate := Insert(points[n]);
        LoadedNext(points, n);
        if duplicate {
          assert points[n] in multiset(points[..n]);
          return;
        }
        n := n + 1;
      }
      assert points[..n] == points;
    }

    /** cal_lookup: the search ends once the distance grows again. */
    method Lookup(freq: int, gain: real) returns (e: CalEntry?)
      requires Valid() && Sorted(q)
      ensures e == null <==> !Reaches(q, freq, gain)
      ensures e != null ==> e in nodes && Nearest(q, freq, gain, e.at)
    {
      hide Nearest, Reaches;
      var mf := FAR;
      e := null;
      var c := ce;
      ghost var k := 0;
      while c != null
        invariant 0 <= k <= |q| && c == NodeAt(k)
        invariant e != null ==> e in nodes
        invariant Best(q, k, freq, gain, mf, if e == null then None else Some(e.at))
        decreases |q| - k
      {
        BestNext(q, k, freq, gain, mf, if e == null then None else Some(e.at));
        if c.at.gain != gain {
          c, k := c.next, k + 1;
          continue;
        }
        var df := Distance(freq, c.at);
        if df < mf {
          e := c;
          mf := df;
        }
        if df > mf {
          TooFar(q, k, freq, gain, mf, if e == null then None else Some(e.at));
          break;
        }
        c, k := c.next, k + 1;
      }
      if c == null {
        AllSeen(q, freq, gain, mf, if e == null then None else Some(e.at));
      }
    }

    /** The last part of cal_get: the frequencies of the other table must be those the list begins with. */
    method Aligned(freqs: seq<nat>) returns (ok: bool)
      requires Valid() && Sorted(q)
      ensures ok <==> freqs <= Frequencies(q)
    {
      var e := ce;
      var n := 0;
      ghost var k := 0;
      while n < |freqs|
        invariant 0 <= n <= |freqs| && 0 <= k <= |q| && e == NodeAt(k)
        invariant freqs <= Frequencies(q) <==> freqs[n..] <= Frequencies(q[k..])
      {
        FirstFrequency(q[k..]);
        if e == null || freqs[n] != e.at.freq {
          return false;
        }
        ghost var from := k;
        while e != null && freqs[n] == e.at.freq
          invariant from <= k <= |q| && e == NodeAt(k)
          invariant forall j :: from <= j < k ==> q[j].freq == freqs[n]
          decreases |q| - k
        {
          e, k := e.next, k + 1;
        }
        SkipSame(q, from, k);
        PrefixStep(freqs, n, Frequencies(q[k..]));
        n := n + 1;
      }
      ok := true;
    }
  }

  // ---- reading ----

  ghost predicate Distinct(s: seq<Point>) {
    forall i, j :: 0 <= i < j < |s| ==> s[i] != s[j]
  }

  lemma LoadedNext(s: seq<Point>, n: nat)
    requires n < |s| && Distinct(s[..n])
    ensures multiset(s[..n + 1]) == multiset(s[..n]) + multiset{s[n]}
    ensures Distinct(s[..n + 1]) <==> s[n] !in s[..n]
    ensures Distinct(s) ==> s[n] !in s[..n]
  {
    assert s[..n + 1] == s[..n] + [s[n]];
  }

  // ---- searching ----

  /** The first point for the gain among the first k is not farther than FAR. */
  ghost predicate FirstNear(q: seq<Point>, k: nat, freq: int, gain: real)
    requires k <= |q|
  {
    forall i :: 0 <= i < k && q[i].gain == gain && (forall j :: 0 <= j < i ==> q[j].gain != gain) ==>
      Distance(freq, q[i]) <= FAR
  }

  /** A point for the gain, nearest to the frequency, and the lower one of two that are equally near. */
  ghost predicate Nearest(q: seq<Point>, freq: int, gain: real, p: Point) {
    && p in q && p.gain == gain
    && forall i :: 0 <= i < |q| && q[i].gain == gain ==>
         || Distance(freq, p) < Distance(freq, q[i])
         || (Distance(freq, p) == Distance(freq, q[i]) && p.freq <= q[i].freq)
  }

  /** The first point for the gain is not farther than FAR, and some point for it is nearer than that. */
  ghost predicate Reaches(q: seq<Point>, freq: int, gain: real) {
    FirstNear(q, |q|, freq, gain) && exists i :: 0 <= i < |q| && q[i].gain == gain && Distance(freq, q[i]) < FAR
  }

  /** What the loop knows after k entries without stopping. */
  ghost predicate Best(q: seq<Point>, k: nat, freq: int, gain: real, mf: int, e: Option<Point>)
    requires k <= |q|
  {
    && FirstNear(q, k, freq, gain)
    && match e
       case None => mf == FAR && forall i :: 0 <= i < k && q[i].gain == gain ==> Distance(freq, q[i]) == FAR
       case Some(p) => mf < FAR && Distance(freq, p) == mf && Nearest(q[..k], freq, gain, p)
  }

  lemma NearestNext(q: seq<Point>, k: nat, freq: int, gain: real, p: Point)
    requires Sorted(q) && k < |q| && Nearest(q[..k], freq, gain, p)
    ensures q[k].gain != gain || Distance(freq, q[k]) >= Distance(freq, p) ==> Nearest(q[..k + 1], freq, gain, p)
  {
    assert q[..k + 1] == q[..k] + [q[k]];
    var i :| 0 <= i < k && q[i] == p;
    assert Less(q[i], q[k]);
    hide Sorted;
  }

  lemma NearestHere(q: seq<Point>, k: nat, freq: int, gain: real)
    requires k < |q| && q[k].gain == gain
    requires forall i :: 0 <= i < k && q[i].gain == gain ==> Distance(freq, q[i]) > Distance(freq, q[k])
    ensures Nearest(q[..k + 1], freq, gain, q[k])
  {
    hide Distance;
    assert q[..k + 1][k] == q[k];
  }

  lemma BestNext(q: seq<Point>, k: nat, freq: int, gain: real, mf: int, e: Option<Point>)
    requires Sorted(q) && k < |q| && Best(q, k, freq, gain, mf, e)
    ensures q[k].gain != gain ==> Best(q, k + 1, freq, gain, mf, e)
    ensures var d := Distance(freq, q[k]);
            q[k].gain == gain ==>
              && (d < mf ==> Best(q, k + 1, freq, gain, d, Some(q[k])))
              && (d == mf ==> Best(q, k + 1, freq, gain, mf, e))
  {
    if e.Some? {
      NearestNext(q, k, freq, gain, e.value);
    }
    if q[k].gain == gain && Distance(freq, q[k]) < mf {
      NearestHere(q, k, freq, gain);
    }
    hide Nearest, Sorted, Distance;
  }

  /** Past the frequency, the distance only grows. */
  lemma Beyond(q: seq<Point>, i: nat, k: nat, freq: int)
    requires Sorted(q) && i < k < |q| && q[i].gain == q[k].gain && Distance(freq, q[i]) < Distance(freq, q[k])
    ensures forall j :: k <= j < |q| ==> Distance(freq, q[j]) >= Distance(freq, q[k])
  {
    assert Less(q[i], q[k]);
    assert freq < q[k].freq;
  }

  lemma TooFar(q: seq<Point>, k: nat, freq: int, gain: real, mf: int, e: Option<Point>)
    requires Sorted(q) && k < |q| && Best(q, k, freq, gain, mf, e)
    requires q[k].gain == gain && Distance(freq, q[k]) > mf
    ensures Reaches(q, freq, gain) <==> e.Some?
    ensures e.Some? ==> Nearest(q, freq, gain, e.value)
  {
    if e.Some? {
      var i :| 0 <= i < k && q[..k][i] == e.value;
      Beyond(q, i, k, freq);
      hide Sorted, Distance;
      NearestAll(q, k, freq, gain, e.value);
      assert q[i].gain == gain;
    } else if i :| 0 <= i < k && q[i].gain == gain {
      Beyond(q, i, k, freq);
      hide Sorted, Distance;
    }
  }

  lemma NearestAll(q: seq<Point>, k: nat, freq: int, gain: real, p: Point)
    requires k <= |q| && Nearest(q[..k], freq, gain, p)
    requires forall j :: k <= j < |q| ==> Distance(freq, q[j]) > Distance(freq, p)
    ensures Nearest(q, freq, gain, p)
  {
    hide Distance;
    assert forall i :: 0 <= i < k ==> q[..k][i] == q[i];
  }

  lemma AllSeen(q: seq<Point>, freq: int, gain: real, mf: int, e: Option<Point>)
    requires Best(q, |q|, freq, gain, mf, e)
    ensures Reaches(q, freq, gain) <==> e.Some?
    ensures e.Some? ==> Nearest(q, freq, gain, e.value)
  {
    assert q[..|q|] == q;
  }

  // ---- frequencies ----

  /** The frequencies of a sorted list, each once. */
  function Frequencies(q: seq<Point>): seq<nat> {
    if q == [] then []
    else if |q| > 1 && q[0].freq == q[1].freq then Frequencies(q[1..])
    else [q[0].freq] + Frequencies(q[1..])
  }

  lemma {:induction false} FirstFrequency(q: seq<Point>)
    ensures Frequencies(q) == [] <==> q == []
    ensures q != [] ==> Frequencies(q)[0] == q[0].freq
  {
    if q != [] {
      FirstFrequency(q[1..]);
    }
  }

  lemma PrefixStep(a: seq<nat>, n: nat, rest: seq<nat>)
    requires n < |a|
    ensures a[n..] <= [a[n]] + rest <==> a[n + 1..] <= rest
  {
    assert a[n..] == [a[n]] + a[n + 1..];
    var b, c := a[n + 1..], [a[n]] + rest;
    if b <= rest {
      assert rest == b + rest[|b|..];
      assert c == a[n..] + rest[|b|..];
    }
    if a[n..] <= c {
      assert c[1..] == rest && a[n..][1..] == b;
      assert forall i :: 0 <= i < |b| ==> b[i] == a[n..][i + 1] == c[i + 1] == rest[i];
    }
  }

  lemma {:induction false} SkipSame(q: seq<Point>, from: nat, k: nat)
    requires from < k <= |q| && (k < |q| ==> q[k].freq != q[from].freq)
    requires forall j :: from <= j < k ==> q[j].freq == q[from].freq
    ensures Frequencies(q[from..]) == [q[from].freq] + Frequencies(q[k..])
    decreases k - from
  {
    assert q[from..][1..] == q[from + 1..];
    if from + 1 < k {
      SkipSame(q, from + 1, k);
    }
  }
}
