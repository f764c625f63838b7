/** confdata.c and symbol.c: what reading does with any text, valid or not, and what is printed for a symbol. */
module ConfigLaws {
  import opened Wrappers
  import opened Expressions
  import opened Escaping
  import opened ConfigFile

  // ---- the values a text symbol can get ----

  function Digit(d: nat): char
    requires d < 10
  {
    "0123456789"[d]
  }

  function Digital(n: nat): string {
    if n < 10 then [Digit(n)] else Digital(n / 10) + [Digit(n % 10)]
  }

  function Decimal(n: int): string {
    if n < 0 then "-" + Digital(-n) else Digital(n)
  }

  lemma {:induction false} DigitalIsText(n: nat)
    ensures var s := Digital(n); s != [] && Digits(s) && (s[0] == '0' <==> n == 0) && (n == 0 ==> s == "0")
  {
    if n >= 10 {
      DigitalIsText(n / 10);
    }
  }

  lemma DigitBack(c: char) returns (d: nat)
    requires IsDigit(c)
    ensures d < 10 && Digit(d) == c && (c == '0' <==> d == 0)
  {
    d := c as int - '0' as int;
  }

  lemma {:induction false} TextIsDigital(s: string) returns (n: nat)
    requires s != [] && Digits(s) && (s[0] == '0' ==> |s| == 1)
    ensures Digital(n) == s
  {
    var k := |s| - 1;
    var d := DigitBack(s[k]);
    hide Digit, IsDigit;
    assert s == s[..k] + [s[k]];
    n := d;
    if k > 0 {
      var m := TextIsDigital(s[..k]);
      DigitalIsText(m);
      n := 10 * m + d;
      assert m > 0 && n / 10 == m && n % 10 == d;
    }
  }

  /** An int symbol can be set to the decimal notation of every number, to -0, and to nothing else. */
  lemma IntTextIs(s: string)
    ensures IntText(s) <==> s == "-0" || exists n: int :: s == Decimal(n)
  {
    hide Digital;
    if IntText(s) {
      if s[0] == '-' {
        var n: int := TextIsDigital(s[1..]);
        DigitalIsText(n);
        assert n > 0 ==> s == Decimal(-n);
      } else {
        var n := TextIsDigital(s);
        assert s == Decimal(n);
      }
    }
    if n: int :| s == Decimal(n) {
      DigitalIsText(if n < 0 then -n else n);
      DecimalIsText(n);
    }
  }

  lemma DecimalIsText(n: int)
    ensures IntText(Decimal(n))
  {
    var t := Digital(if n < 0 then -n else n);
    DigitalIsText(if n < 0 then -n else n);
    assert Decimal(n)[1..] == if n < 0 then t else t[1..];
  }

  predicate HexDigits(s: string) {
    s != [] && forall i :: 0 <= i < |s| ==> IsHexDigit(s[i])
  }

  /** A hex symbol can be set to any hexadecimal digits, with or without the prefix, and to nothing else. */
  lemma HexTextIs(s: string)
    ensures HexText(s) <==> HexDigits(s) || exists d: string :: HexDigits(d) && (s == "0x" + d || s == "0X" + d)
  {
    if HexText(s) && HasHexPrefix(s) {
      var d := s[2..];
      assert HexDigits(d) && (s == "0x" + d || s == "0X" + d);
    }
    if d: string :| HexDigits(d) && (s == "0x" + d || s == "0X" + d) {
      assert forall i :: 2 <= i < |s| ==> s[i] == d[i - 2];
    }
  }

  // ---- lines ----

  /** Every line ends with its only newline, but for the last one, which may have none. */
  ghost predicate Cut(lines: seq<string>) {
    && (forall l <- lines :: l != [] && '\n' !in l[..|l| - 1])
    && (forall i :: 0 <= i < |lines| - 1 ==> lines[i] != [] && lines[i][|lines[i]| - 1] == '\n')
  }

  lemma FirstLine(text: string)
    requires text != []
    ensures var n := LineLength(text);
            0 < n && '\n' !in text[..n - 1] && (n < |text| ==> text[n - 1] == '\n') && text[..n] + text[n..] == text
  {
  }

  /** The text is cut behind every newline and nowhere else, and nothing of it is lost. */
  lemma {:induction false} LinesSplit(text: string)
    ensures Joined(Lines(text)) == text && Cut(Lines(text))
    decreases |text|
  {
    if text != [] {
      var n := LineLength(text);
      FirstLine(text);
      LinesSplit(text[n..]);
      CutMore(text[..n], Lines(text[n..]));
      assert Lines(text)[1..] == Lines(text[n..]);
    }
  }

  lemma CutMore(l: string, lines: seq<string>)
    requires Cut(lines) && l != [] && '\n' !in l[..|l| - 1] && (lines != [] ==> l[|l| - 1] == '\n')
    ensures Cut([l] + lines)
  {
  }

  /** What a line may do: nothing, warn once, or set one symbol of the table. */
  ghost predicate OneChange(table: Table, c: Conf, r: Conf) {
    || r == c
    || r == c.(warnings := c.warnings + 1)
    || exists name :: name in table && SetsOnly(c, r, name)
  }

  predicate SetsOnly(c: Conf, r: Conf, name: string) {
    name in r.defs && r == Conf(c.defs[name := r.defs[name]], c.warnings)
  }

  /** A user value that a file can give to a symbol of this type. */
  predicate Given(kind: SymType, d: Def) {
    match kind
    case S_BOOLEAN => d.val.None? && d.tri != MOD && (!d.known ==> d.tri == NO)
    case S_TRISTATE => d.val.None? && (!d.known ==> d.tri == NO)
    case S_STRING => d.tri == NO && (d.known <==> d.val.Some?)
    case S_INT | S_HEX => d.tri == NO && (d.known <==> d.val.Some?) && (d.val.Some? ==> StringValid(kind, d.val.value))
    case _ => d == CLEARED
  }

  ghost predicate AllGiven(table: Table, c: Conf) {
    c.defs.Keys == table.Keys && forall name :: name in table ==> Given(table[name], c.defs[name])
  }

  lemma LineChanges(table: Table, c: Conf, line: string)
    requires AllGiven(table, c)
    ensures var r := ReadLine(table, c, line); OneChange(table, c, r) && AllGiven(table, r)
  {
    hide Unescaped, StringValid, PREFIX, UNSET;
    var r := ReadLine(table, c, line);
    match Parse(Seen(line))
    case Skip =>
    case Unexpected =>
    case Unset(name) => Changed(table, c, r, name);
    case Assign(name, value) => Changed(table, c, r, name);
  }

  lemma Changed(table: Table, c: Conf, r: Conf, name: string)
    requires AllGiven(table, c)
    requires r == c || r == c.(warnings := c.warnings + 1) || (name in table && SetsOnly(c, r, name) && Given(table[name], r.defs[name]))
    ensures OneChange(table, c, r) && AllGiven(table, r)
  {
  }

  lemma {:induction false} LinesGive(table: Table, c: Conf, lines: seq<string>)
    requires AllGiven(table, c)
    ensures AllGiven(table, ReadLines(table, c, lines))
  {
    hide ReadLine, AllGiven;
    if lines != [] {
      var n := |lines| - 1;
      LinesGive(table, c, lines[..n]);
      LineChanges(table, ReadLines(table, c, lines[..n]), lines[n]);
    }
  }

  /** Whatever the text, exactly the symbols of the table have a user value afterwards, and one that fits their type. */
  lemma TextGives(table: Table, text: string)
    ensures AllGiven(table, ReadText(table, text))
  {
    LinesGive(table, Reset(table), Lines(text));
  }

  // ---- what a line means ----

  predicate Ends(ending: string) {
    ending == "" || ending == "\n" || ending == "\r\n"
  }

  /** A value as it can stand in a line. */
  predicate Plain(value: string) {
    '\n' !in value && NUL !in value && (value != [] ==> value[|value| - 1] != '\r')
  }

  lemma ValueOfEnding(value: string, ending: string)
    requires Plain(value) && Ends(ending)
    ensures ValueOf(value + ending) == value
  {
    var s := value + ending;
    if ending == "" {
      assert IndexOf(s, '\n') == |s|;
    } else if ending == "\n" {
      IndexOfFirst(value, '\n', "");
      assert s == value + ['\n'] + "";
    } else {
      IndexOfFirst(value + ['\r'], '\n', "");
      assert s == (value + ['\r']) + ['\n'] + "";
    }
  }

  lemma AssignmentParses(name: string, value: string, ending: string)
    requires NameOk(name) && Plain(value) && Ends(ending)
    ensures Parse(AssignmentLine(name, value, ending)) == Assign(name, value)
  {
    NamePlain(name);
    ValueOfEnding(value, ending);
    var tail := value + ending;
    var rest := name + "=" + tail;
    CutAt(name, '=', tail);
    PrefixOf(PREFIX, rest);
    assert PREFIX[0] == 'C' && (PREFIX + rest)[0] == 'C';
    hide IndexOf, ValueOf, NameOk, Ends, Plain, PREFIX, UNSET;
  }

  function AssignmentLine(name: string, value: string, ending: string): string {
    PREFIX + (name + "=" + (value + ending))
  }

  lemma AssignmentSeen(name: string, value: string, ending: string)
    requires NameOk(name) && Plain(value) && Ends(ending)
    ensures var line := AssignmentLine(name, value, ending); Seen(line) == line
  {
    NamePlain(name);
    var line := AssignmentLine(name, value, ending);
    assert NUL !in PREFIX && NUL !in ending;
    NoTerminator(line);
  }

  lemma AssignmentRead(table: Table, c: Conf, name: string, value: string, ending: string)
    requires NameOk(name) && Plain(value) && Ends(ending)
    ensures ReadLine(table, c, AssignmentLine(name, value, ending)) == Assigned(table, c, name, value)
  {
    AssignmentParses(name, value, ending);
    AssignmentSeen(name, value, ending);
    hide Parse, Seen, AssignmentLine, NameOk, Plain, Ends, Assigned;
  }

  lemma {:induction false} NoQuote(u: string)
    requires '"' !in u
    ensures Unescaped(u).Unclosed?
  {
    if |u| >= 1 && u[0] != '\\' {
      NoQuote(u[1..]);
    } else if |u| >= 2 {
      NoQuote(u[2..]);
    }
  }

  /** What an assignment means for a bool or tristate symbol: its first character decides. */
  function LogicMeant(kind: SymType, value: string): Option<Tri> {
    if value == [] then None
    else
      match value[0]
      case 'y' => Some(YES)
      case 'n' => Some(NO)
      case 'm' => if kind == S_TRISTATE then Some(MOD) else None
      case _ => None
  }

  /** A line that sets this symbol to d and does nothing else. */
  predicate Sets(c: Conf, r: Conf, name: string, d: Def) {
    r.warnings == c.warnings && r.defs == c.defs[name := d]
  }

  predicate WarnsOnly(c: Conf, r: Conf) {
    r.warnings == c.warnings + 1 && r.defs == c.defs
  }

  /** An assignment to a bool or tristate symbol. Only a tristate symbol can be set to m. */
  lemma LogicAssigned(table: Table, c: Conf, name: string, value: string, ending: string)
    requires NameOk(name) && Plain(value) && Ends(ending)
    requires name in table && (table[name] == S_BOOLEAN || table[name] == S_TRISTATE)
    ensures var r, t := ReadLine(table, c, AssignmentLine(name, value, ending)), LogicMeant(table[name], value);
            if t.Some? then Sets(c, r, name, Def(t.value, DefOf(c, name).val, true)) else WarnsOnly(c, r)
  {
    AssignmentRead(table, c, name, value, ending);
    LogicSet(DefOf(c, name), table[name], value);
    hide ReadLine, AssignmentLine, NameOk, Plain, Ends, SetSymVal, LogicMeant;
  }

  lemma LogicSet(d: Def, kind: SymType, value: string)
    requires kind == S_BOOLEAN || kind == S_TRISTATE
    ensures var t := LogicMeant(kind, value);
            SetSymVal(d, kind, value) == if t.Some? then Some(Def(t.value, d.val, true)) else None
  {
    assert forall k: char :: [k] <= value <==> value != [] && value[0] == k;
    assert "y" == ['y'] && "m" == ['m'] && "n" == ['n'];
  }

  /** An assignment to an int or hex symbol: only valid text is taken, and the text as it stands. */
  lemma NumberAssigned(table: Table, c: Conf, name: string, value: string, ending: string)
    requires NameOk(name) && Plain(value) && Ends(ending)
    requires name in table && (table[name] == S_INT || table[name] == S_HEX)
    ensures var r := ReadLine(table, c, AssignmentLine(name, value, ending));
            if StringValid(table[name], value) then Sets(c, r, name, Def(DefOf(c, name).tri, Some(value), true))
            else WarnsOnly(c, r)
  {
    AssignmentRead(table, c, name, value, ending);
    hide ReadLine, AssignmentLine, NameOk, Plain, Ends;
  }

  /**
   * An assignment to a string symbol: the escaped text between quotes, whatever follows it. A text without opening
   * quote says nothing, not even a warning; one without closing quote is warned about.
   */
  lemma StringAssigned(table: Table, c: Conf, name: string, value: string, ending: string, s: string, tail: string)
    requires NameOk(name) && Plain(value) && Ends(ending) && name in table && table[name] == S_STRING
    ensures var r, d := ReadLine(table, c, AssignmentLine(name, value, ending)), DefOf(c, name);
            && (value == Escaped(s) + tail ==> Sets(c, r, name, Def(d.tri, Some(s), true)))
            && (value == [] || value[0] != '"' ==> Sets(c, r, name, d))
            && (value == "\"" + tail && '"' !in tail ==> WarnsOnly(c, r))
  {
    AssignmentRead(table, c, name, value, ending);
    StringSet(DefOf(c, name), value, s, tail);
    hide ReadLine, AssignmentLine, NameOk, Plain, Ends, SetSymVal, Escaped;
  }

  lemma StringSet(d: Def, value: string, s: string, tail: string)
    ensures var r := SetSymVal(d, S_STRING, value);
            && (value == Escaped(s) + tail ==> r == Some(Def(d.tri, Some(s), true)))
            && (value == [] || value[0] != '"' ==> r == Some(d))
            && (value == "\"" + tail && '"' !in tail ==> r == None)
  {
    if value == Escaped(s) + tail {
      UnescapeBody(s, tail);
      QuotedTail(s, tail);
    } else if value == "\"" + tail && '"' !in tail {
      NoQuote(tail);
      PrefixOf("\"", tail);
    }
  }

  lemma QuotedTail(s: string, tail: string)
    ensures "\"" <= Escaped(s) + tail && (Escaped(s) + tail)[1..] == Body(s) + "\"" + tail
  {
  }

  /** A name that the table does not have, or a symbol of no type: such a line leaves all values alone. */
  lemma UnknownAssigned(table: Table, c: Conf, name: string, value: string, ending: string)
    requires NameOk(name) && Plain(value) && Ends(ending)
    requires name in table ==> table[name] == S_UNKNOWN
    ensures var r := ReadLine(table, c, AssignmentLine(name, value, ending));
            if name in table then Sets(c, r, name, DefOf(c, name)) else r == c
  {
    AssignmentRead(table, c, name, value, ending);
    hide ReadLine, AssignmentLine, NameOk, Plain, Ends;
  }

  /** "is not set", whatever follows it, makes a bool or tristate symbol n, and says nothing about any other. */
  lemma UnsetRead(table: Table, c: Conf, name: string, tail: string)
    requires NameOk(name) && NUL !in tail
    ensures var r := ReadLine(table, c, "# " + PREFIX + name + " is not set" + tail);
            if name in table && (table[name] == S_BOOLEAN || table[name] == S_TRISTATE) then
              Sets(c, r, name, Def(NO, DefOf(c, name).val, true))
            else r == c
  {
    UnsetLineParses(name, tail);
    hide Parse, Seen, PREFIX, NameOk;
  }

  lemma UnsetLineParses(name: string, tail: string)
    requires NameOk(name) && NUL !in tail
    ensures Parse(Seen("# " + PREFIX + name + " is not set" + tail)) == Unset(name)
  {
    var line := "# " + PREFIX + name + " " + UNSET + tail;
    UnsetWords("# " + PREFIX + name, tail);
    UnsetLineSeen(name, tail);
    NamePlain(name);
    var after := UNSET + tail;
    CutAt(name, ' ', after);
    PrefixOf(UNSET, tail);
    PrefixOf(PREFIX, name + " " + after);
    PrefixOf("# ", PREFIX + (name + " " + after));
    hide Seen, IndexOf, NameOk, PREFIX, UNSET;
    Slices("# " + (PREFIX + (name + " " + after)), 2, |PREFIX|);
    RegroupedSix("# ", PREFIX, name, " ", UNSET, tail);
  }

  lemma UnsetLineSeen(name: string, tail: string)
    requires NameOk(name) && NUL !in tail
    ensures var line := "# " + PREFIX + name + " " + UNSET + tail; Seen(line) == line
  {
    NamePlain(name);
    var line := "# " + PREFIX + name + " " + UNSET + tail;
    assert NUL !in "# " && NUL !in PREFIX && NUL !in " " && NUL !in UNSET;
    hide PREFIX, UNSET, NameOk;
    assert NUL !in line;
    NoTerminator(line);
  }

  lemma UnsetWords(a: string, tail: string)
    ensures a + " is not set" + tail == a + " " + UNSET + tail
  {
  }

  /** A comment never warns, and of the other lines those that are not for a symbol do, unless they are empty. */
  lemma OtherRead(table: Table, c: Conf, line: string)
    ensures var r := ReadLine(table, c, line);
            && (line != [] && line[0] == '#' ==> r.warnings == c.warnings)
            && (line != [] && line[0] != '#' && !(PREFIX <= line) ==>
                  if line[0] == '\r' || line[0] == '\n' then r == c else WarnsOnly(c, r))
  {
    if line != [] && line[0] != '#' && !(PREFIX <= line) {
      var s := Seen(line);
      assert s == [] || s[0] == line[0];
      assert PREFIX <= s ==> PREFIX <= line;
    }
  }

  // ---- what is printed ----

  /** The line of a symbol, by its value: m is printed as n without modules, and n as a comment. */
  lemma PrintedAs(name: string, kind: SymType, v: Value, modules: Tri)
    requires ValueOk(kind, v)
    ensures var line := SettingLine(name, kind, v, modules);
            match v
            case Text(s) => line == "CONFIG_" + name + "=" + (if kind == S_STRING then "\"" + Body(s) + "\"" else s) + "\n"
            case Logic(t) =>
              if t == NO || (t == MOD && modules == NO) then line == "# " + PREFIX + name + " is not set" + "\n"
              else if t == YES then line == "CONFIG_" + name + "=y\n" else line == "CONFIG_" + name + "=m\n"
  {
    LetterStarts();
    LogicWords(PREFIX + name);
    UnsetWords("# " + PREFIX + name, "\n");
    hide UNSET, Body;
    if v.Text? && kind == S_STRING {
      assert PREFIX + name + "=" + Escaped(v.text) + "\n" == "CONFIG_" + name + "=" + ("\"" + Body(v.text) + "\"") + "\n";
    }
  }

  lemma LogicWords(a: string)
    ensures a + "=" + "y" + "\n" == a + "=y\n" && a + "=" + "m" + "\n" == a + "=m\n"
  {
  }

  /** Exactly the quotes and backslashes get a backslash. */
  lemma {:induction false} BodyAppend(s: string, c: char)
    ensures Body(s + [c]) == Body(s) + if c == '"' || c == '\\' then ['\\', c] else [c]
  {
    if s == [] {
      assert s + [c] == [c];
    } else {
      BodyAppend(s[1..], c);
      assert (s + [c])[1..] == s[1..] + [c];
    }
  }
}
