/** symbol.c and confdata.c: quoting a string value, and undoing it in place in the line buffer. */
module Escaping {

  const NUL: char := '\0'

  // ---- escaping ----

  predicate Special(c: char) {
    c == '"' || c == '\\'
  }

  /** A string with a backslash before every quote and every backslash. */
  function Body(s: string): string {
    if s == [] then [] else (if Special(s[0]) then ['\\', s[0]] else [s[0]]) + Body(s[1..])
  }

  function Escaped(s: string): string {
    "\"" + Body(s) + "\""
  }

  /** How many characters from p on are neither quote nor backslash: strcspn. */
  function Span(s: string, p: nat): (n: nat)
    requires p <= |s|
    ensures p + n <= |s|
    ensures forall i :: p <= i < p + n ==> !Special(s[i])
    ensures p + n < |s| ==> Special(s[p + n])
    decreases |s| - p
  {
    if p == |s| || Special(s[p]) then 0 else 1 + Span(s, p + 1)
  }

  lemma {:induction false} BodyPlain(s: string, p: nat, n: nat)
    requires p + n <= |s| && forall i :: p <= i < p + n ==> !Special(s[i])
    ensures Body(s[p..]) == s[p..p + n] + Body(s[p + n..])
    decreases n
  {
    if n > 0 {
      assert s[p..][1..] == s[p + 1..];
      BodyPlain(s, p + 1, n - 1);
      assert s[p..p + n] == [s[p]] + s[p + 1..p + n];
    }
  }

  /** One run of plain characters, and the special character behind it. */
  lemma BodyNext(s: string, p: nat)
    requires p <= |s|
    ensures var l := Span(s, p);
            && (p + l == |s| ==> Body(s[p..]) == s[p..p + l])
            && (p + l < |s| ==> Body(s[p..]) == s[p..p + l] + ['\\', s[p + l]] + Body(s[p + l + 1..]))
  {
    var l := Span(s, p);
    BodyPlain(s, p, l);
    if p + l == |s| {
      assert s[p + l..] == [];
    } else {
      assert s[p + l..][1..] == s[p + l + 1..];
    }
  }

  /** strncat: the first l characters of s from p on go to the end of the text in buf, which has length len. */
  method Append(buf: array<char>, len: nat, s: string, p: nat, l: nat) returns (len': nat)
    requires p + l <= |s| && len + l < buf.Length && buf[len] == NUL
    modifies buf
    ensures len' == len + l && buf[len'] == NUL && buf[..len'] == old(buf[..len]) + s[p..p + l]
  {
    var i := 0;
    while i < l
      invariant 0 <= i <= l
      invariant buf[..len + i] == old(buf[..len]) + s[p..p + i]
    {
      buf[len + i] := s[p + i];
      i := i + 1;
      assert s[p..p + i] == s[p..p + i - 1] + [s[p + i - 1]];
    }
    buf[len + l] := NUL;
    len' := len + l;
  }

  /** strcat of a backslash, and strncat of one character. */
  method AppendEscaped(buf: array<char>, len: nat, s: string, p: nat) returns (len': nat)
    requires p < |s| && len + 2 < buf.Length && buf[len] == NUL
    modifies buf
    ensures len' == len + 2 && buf[len'] == NUL && buf[..len'] == old(buf[..len]) + "\\" + [s[p]]
  {
    len' := Append(buf, len, "\\", 0, 1);
    assert s[p..p + 1] == [s[p]];
    len' := Append(buf, len', s, p, 1);
  }

  /** The first pass of sym_escape_string_value: the size of the result with its terminator. */
  method EscapedSize(s: string) returns (len: nat)
    ensures len == |Escaped(s)| + 1
  {
    len := |s| + 3;
    var p := 0;
    assert s[0..] == s;
    while true
      invariant p <= |s|
      invariant len + |Body(s[p..])| == 3 + |Body(s)| + (|s| - p)
      decreases |s| - p
    {
      BodyNext(s, p);
      p := p + Span(s, p);
      if p == |s| {
        break;
      }
      len := len + 1;
      p := p + 1;
    }
  }

  /** What has been written so far, and what the rest of the string will add. */
  ghost predicate Filled(done: string, s: string, p: nat)
    requires p <= |s|
  {
    done + Body(s[p..]) == "\"" + Body(s)
  }

  lemma Regrouped(done: string, run: string, c: char, tail: string)
    ensures done + (run + ['\\', c] + tail) == (done + run + "\\" + [c]) + tail
  {
  }

  lemma FilledNext(done: string, s: string, p: nat)
    requires p <= |s| && Filled(done, s, p)
    ensures var l := Span(s, p);
            && (p + l == |s| ==> done + s[p..p + l] + "\"" == Escaped(s) && |done| + l + 1 == |Escaped(s)|)
            && (p + l < |s| ==>
                  && Filled(done + s[p..p + l] + "\\" + [s[p + l]], s, p + l + 1)
                  && |done| + l + 2 < |Escaped(s)|)
  {
    var l := Span(s, p);
    BodyNext(s, p);
    hide Body, Span;
    if p + l < |s| {
      Regrouped(done, s[p..p + l], s[p + l], Body(s[p + l + 1..]));
    }
  }

  /** One turn of the second pass: a run of plain characters, and the escaped one behind it if there is one. */
  method FillRun(res: array<char>, end: nat, s: string, p: nat) returns (end': nat, q: nat)
    requires p <= |s| && end < res.Length == |Escaped(s)| + 1 && res[end] == NUL && Filled(res[..end], s, p)
    modifies res
    ensures p <= q <= |s| + 1 && end' < res.Length && res[end'] == NUL
    ensures q <= |s| ==> p < q && Filled(res[..end'], s, q)
    ensures q == |s| + 1 ==> res[..end'] + "\"" == Escaped(s)
  {
    hide Filled, Escaped, Body, Span;
    FilledNext(res[..end], s, p);
    var l := Span(s, p);
    end' := Append(res, end, s, p, l);
    q := p + l;
    if q < |s| {
      end' := AppendEscaped(res, end', s, q);
    }
    q := q + 1;
  }

  /** sym_escape_string_value: the second pass fills a buffer of exactly the size that the first one measured. */
  method EscapeStringValue(s: string) returns (res: array<char>)
    ensures res[..] == Escaped(s) + [NUL]
  {
    assert s[0..] == s && Filled("\"", s, 0) && |Escaped(s)| >= 2;
    hide Filled, Escaped;
    var len := EscapedSize(s);
    res := new char[len];
    res[0] := NUL;
    var end: nat := Append(res, 0, "\"", 0, 1);
    assert res[..end] == "\"";
    var p := 0;
    while p <= |s|
      invariant 0 <= p <= |s| + 1 && 0 <= end < res.Length && res[end] == NUL
      invariant p <= |s| ==> Filled(res[..end], s, p)
      invariant p == |s| + 1 ==> res[..end] + "\"" == Escaped(s)
      decreases |s| + 1 - p
    {
      end, p := FillRun(res, end, s, p);
    }
    assert |res[..end] + "\""| == |Escaped(s)|;
    end := Append(res, end, "\"", 0, 1);
    assert res[..] == res[..end] + [res[end]];
  }

  // ---- reading a quoted string ----

  datatype Quoted = Closed(text: string) | Unclosed

  /** The characters up to the closing quote, without the escaping backslashes. A last one escapes nothing. */
  function Unescaped(s: string): Quoted {
    if s == [] then Unclosed
    else if s[0] == '"' then Closed([])
    else if s[0] != '\\' then Cons(s[0], Unescaped(s[1..]))
    else if |s| == 1 then Unclosed
    else Cons(s[1], Unescaped(s[2..]))
  }

  function Cons(c: char, q: Quoted): Quoted {
    if q.Closed? then Closed([c] + q.text) else q
  }

  function Prepended(s: string, q: Quoted): Quoted {
    if q.Closed? then Closed(s + q.text) else q
  }

  lemma UnescapedOne(c: char, rest: string)
    ensures !Special(c) ==> Unescaped([c] + rest) == Cons(c, Unescaped(rest))
    ensures Unescaped(['\\', c] + rest) == Cons(c, Unescaped(rest))
  {
    assert ([c] + rest)[1..] == rest && (['\\', c] + rest)[2..] == rest;
  }

  lemma Associate(a: string, b: string, c: string, d: string)
    ensures a + b + c + d == a + (b + c + d)
  {
  }

  /** Escaping is undone exactly, whatever follows the closing quote. */
  lemma {:induction false} UnescapeBody(s: string, rest: string)
    ensures Unescaped(Body(s) + "\"" + rest) == Closed(s)
  {
    if s == [] {
      assert Body(s) + "\"" + rest == "\"" + rest;
    } else {
      var c, u := s[0], Body(s[1..]) + "\"" + rest;
      UnescapeBody(s[1..], rest);
      UnescapedOne(c, u);
      assert Body(s) == (if Special(c) then ['\\', c] else [c]) + Body(s[1..]);
      hide Unescaped, Body;
      Associate(if Special(c) then ['\\', c] else [c], Body(s[1..]), "\"", rest);
    }
  }

  lemma PrependedNext(s: string, c: char, q: Quoted)
    ensures Prepended(s, Cons(c, q)) == Prepended(s + [c], q)
  {
    if q.Closed? {
      assert s + ([c] + q.text) == (s + [c]) + q.text;
    }
  }

  lemma UnescapedNext(done: string, rest: string)
    ensures var r := Prepended(done, Unescaped(rest));
            if rest == [] then r == Unclosed
            else if rest[0] == '"' then r == Closed(done)
            else if rest[0] != '\\' then r == Prepended(done + [rest[0]], Unescaped(rest[1..]))
            else if |rest| == 1 then r == Unclosed
            else r == Prepended(done + [rest[1]], Unescaped(rest[2..]))
  {
    if rest != [] && rest[0] != '"' {
      if rest[0] != '\\' {
        assert Unescaped(rest) == Cons(rest[0], Unescaped(rest[1..]));
        hide Unescaped;
        PrependedNext(done, rest[0], Unescaped(rest[1..]));
      } else if |rest| > 1 {
        assert Unescaped(rest) == Cons(rest[1], Unescaped(rest[2..]));
        hide Unescaped;
        PrependedNext(done, rest[1], Unescaped(rest[2..]));
      }
    }
  }

  /** memmove of the rest of the line, which ends with a terminator at end, over the character at p. */
  method RemoveAt(line: array<char>, p: nat, end: nat)
    requires p < end < line.Length && line[end] == NUL
    modifies line
    ensures line[..p] == old(line[..p]) && line[p..end - 1] == old(line[p + 1..end]) && line[end - 1] == NUL
    ensures line[end..] == old(line[end..])
  {
    forall k | p <= k < end {
      line[k] := line[k + 1];
    }
  }

  /**
   * The loop of conf_set_sym_val over a quoted string: line holds it from p to the terminator at n. Backslashes
   * are removed by moving the rest of the line down, and the closing quote is overwritten by a terminator. The scan
   * stops within the line, at a terminator.
   */
  method Unescape(line: array<char>, p: nat, n: nat) returns (r: Quoted, stop: nat)
    requires p <= n < line.Length && line[n] == NUL
    modifies line
    ensures r == Unescaped(old(line[p..n]))
    ensures p <= stop <= n && line[stop] == NUL && line[..p] == old(line[..p]) && line[n..] == old(line[n..])
    ensures r.Closed? ==> stop == p + |r.text| && line[p..stop] == r.text
  {
    hide Unescaped, Prepended;
    ghost var quoted, done: string := line[p..n], [];
    var end := n;
    stop := p;
    NothingPrepended(Unescaped(quoted));
    while true
      invariant p <= stop <= end <= n && line[end] == NUL
      invariant line[..p] == old(line[..p]) && line[p..stop] == done && line[n..] == old(line[n..])
      invariant Unescaped(quoted) == Prepended(done, Unescaped(line[stop..end]))
      decreases end - stop
    {
      ghost var rest := line[stop..end];
      UnescapedNext(done, rest);
      if stop == end {
        return Unclosed, stop;
      }
      if line[stop] == '"' {
        line[stop] := NUL;
        assert line[p..stop] == done;
        return Closed(line[p..stop]), stop;
      }
      end := TakeOne(line, p, stop, end, n);
      if rest == "\\" {
        assert line[stop + 1..end] == [];
        UnescapedNext(done + [line[stop]], []);
      }
      done := done + [line[stop]];
      stop := stop + 1;
    }
  }

  /**
   * One turn of the loop: a backslash at p2 goes, and the character that is then at p2 is passed. That is the
   * terminator if the backslash was the last character; then the one at end, still in its place, is next.
   */
  method TakeOne(line: array<char>, p: nat, p2: nat, end: nat, ghost n: nat) returns (end': nat)
    requires p <= p2 < end <= n < line.Length && line[end] == NUL
    modifies line
    ensures p2 < end' <= end && line[end'] == NUL
    ensures line[..p] == old(line[..p]) && line[p..p2 + 1] == old(line[p..p2]) + [line[p2]] && line[n..] == old(line[n..])
    ensures old(line[p2]) != '\\' ==> line[p2] == old(line[p2]) && line[p2 + 1..end'] == old(line[p2..end])[1..]
    ensures old(line[p2]) == '\\' && p2 + 1 < end ==>
      line[p2] == old(line[p2..end])[1] && line[p2 + 1..end'] == old(line[p2..end])[2..]
    ensures old(line[p2]) == '\\' && p2 + 1 == end ==> end' == end
  {
    end' := end;
    if line[p2] == '\\' {
      ghost var was := line[..p2];
      RemoveAt(line, p2, end);
      assert line[..p] == line[..p2][..p] == was[..p];
      assert line[p..p2] == line[..p2][p..] == was[p..];
      assert line[n..] == line[end..][n - end..];
      if p2 + 1 < end {
        end' := end - 1;
        assert line[p2] == line[p2..end'][0] && line[p2 + 1..end'] == line[p2..end'][1..];
      }
    }
  }

  lemma NothingPrepended(q: Quoted)
    ensures Prepended([], q) == q
  {
  }
}
