/** confdata.c: writing symbol values to a configuration file and reading the lines back. */
module ConfigFile {
  import opened Wrappers
  import opened Expressions
  import opened Escaping

  const PREFIX := "CONFIG_"
  const UNSET := "is not set"

  /** The calculated value of a symbol. */
  datatype Value = Logic(tri: Tri) | Text(text: string)

  /** What conf_write prints: one symbol, or the title of a visible menu. */
  datatype Item = Setting(name: string, value: Value) | Title(title: string)

  /** The user value of a symbol and its SYMBOL_DEF_USER flag. */
  datatype Def = Def(tri: Tri, val: Option<string>, known: bool)

  const CLEARED := Def(NO, None, false)

  /** The user values and the number of warnings. */
  datatype Conf = Conf(defs: map<string, Def>, warnings: nat)

  type Table = map<string, SymType>

  // ---- valid values ----

  predicate IsDigit(c: char) {
    '0' <= c <= '9'
  }

  predicate IsHexDigit(c: char) {
    IsDigit(c) || 'a' <= c <= 'f' || 'A' <= c <= 'F'
  }

  predicate Digits(s: string) {
    forall i :: 0 <= i < |s| ==> IsDigit(s[i])
  }

  predicate IntText(s: string) {
    var t := if s != [] && s[0] == '-' then s[1..] else s;
    t != [] && Digits(t) && (t[0] == '0' ==> |t| == 1)
  }

  predicate HasHexPrefix(s: string) {
    |s| >= 2 && s[0] == '0' && (s[1] == 'x' || s[1] == 'X')
  }

  predicate HexText(s: string) {
    var k := if HasHexPrefix(s) then 2 else 0;
    k < |s| && forall i :: k <= i < |s| ==> IsHexDigit(s[i])
  }

  /** sym_string_valid, for the types that conf_set_sym_val asks about. */
  predicate StringValid(kind: SymType, s: string) {
    match kind
    case S_STRING => true
    case S_INT => IntText(s)
    case S_HEX => HexText(s)
    case _ => false
  }

  // ---- writing ----

  /** sym_get_string_value: m is printed only while modules are enabled. */
  function StringValue(v: Value, modules: Tri): string {
    match v
    case Logic(t) => if t == MOD && modules == NO then "n" else Letter(t)
    case Text(s) => s
  }

  /** conf_write_symbol with kconfig_print_symbol. */
  function SettingLine(name: string, kind: SymType, v: Value, modules: Tri): string {
    var s := StringValue(v, modules);
    if kind == S_STRING then PREFIX + name + "=" + Escaped(s) + "\n"
    else if (kind == S_BOOLEAN || kind == S_TRISTATE) && "n" <= s then "# " + PREFIX + name + " " + UNSET + "\n"
    else PREFIX + name + "=" + s + "\n"
  }

  function ItemLines(table: Table, item: Item, modules: Tri): seq<string> {
    match item
    case Setting(name, v) =>
      if name !in table || table[name] == S_OTHER || table[name] == S_UNKNOWN then []
      else [SettingLine(name, table[name], v, modules)]
    case Title(t) => ["\n", "#\n", "# " + t + "\n", "#\n"]
  }

  function AllLines(table: Table, items: seq<Item>, modules: Tri): seq<string> {
    if items == [] then []
    else
      var n := |items| - 1;
      AllLines(table, items[..n], modules) + ItemLines(table, items[n], modules)
  }

  function Joined(lines: seq<string>): string {
    if lines == [] then "" else lines[0] + Joined(lines[1..])
  }

  // ---- reading one line ----

  /** The position of the first c, or the length: strchr. */
  function IndexOf(s: string, c: char): (i: nat)
    ensures i <= |s|
    ensures forall j :: 0 <= j < i ==> s[j] != c
    ensures i < |s| ==> s[i] == c
  {
    if s == [] || s[0] == c then 0 else 1 + IndexOf(s[1..], c)
  }

  datatype Parsed = Skip | Unexpected | Unset(name: string) | Assign(name: string, value: string)

  function ParseComment(line: string): Parsed {
    if |line| < 2 || !(PREFIX <= line[2..]) then Skip
    else
      var rest := line[2 + |PREFIX|..];
      var i := IndexOf(rest, ' ');
      if i < |rest| && UNSET <= rest[i + 1..] then Unset(rest[..i]) else Skip
  }

  /** The value of a line: up to the newline, without a carriage return before it. */
  function ValueOf(s: string): string {
    var i := IndexOf(s, '\n');
    if i < |s| && i > 0 && s[i - 1] == '\r' then s[..i - 1] else s[..i]
  }

  function Parse(line: string): Parsed {
    if line != [] && line[0] == '#' then ParseComment(line)
    else if PREFIX <= line then
      var rest := line[|PREFIX|..];
      var i := IndexOf(rest, '=');
      if i == |rest| then Skip else Assign(rest[..i], ValueOf(rest[i + 1..]))
    else if line == [] || (line[0] != '\r' && line[0] != '\n') then Unexpected
    else Skip
  }

  /** conf_set_sym_val: the new value, or None for a warning. */
  function SetSymVal(d: Def, kind: SymType, p: string): Option<Def> {
    match kind
    case S_TRISTATE =>
      if "m" <= p then Some(Def(MOD, d.val, true)) else SetBool(d, p)
    case S_BOOLEAN => SetBool(d, p)
    case S_STRING =>
      if !("\"" <= p) then Some(d)
      else
        var q := Unescaped(p[1..]);
        if q.Closed? then Some(Def(d.tri, Some(q.text), true)) else None
    case S_INT | S_HEX =>
      if StringValid(kind, p) then Some(Def(d.tri, Some(p), true)) else None
    case _ => Some(d)
  }

  function SetBool(d: Def, p: string): Option<Def> {
    if "y" <= p then Some(Def(YES, d.val, true))
    else if "n" <= p then Some(Def(NO, d.val, true))
    else None
  }

  function DefOf(c: Conf, name: string): Def {
    if name in c.defs then c.defs[name] else CLEARED
  }

  /** What the string functions of C see of a text: a terminator inside it ends it. */
  function CString(s: string): string {
    s[..IndexOf(s, NUL)]
  }

  /**
   * What the reader sees of a line. It looks at the third character of a comment whether or not the line ends before
   * that; a comment of one character only, which is a last line without newline, is taken to be one.
   */
  function Seen(line: string): string {
    if |line| >= 2 && line[0] == '#' then line[..2] + CString(line[2..]) else CString(line)
  }

  function ReadLine(table: Table, c: Conf, line: string): Conf {
    match Parse(Seen(line))
    case Skip => c
    case Unexpected => c.(warnings := c.warnings + 1)
    case Unset(name) => UnsetIn(table, c, name)
    case Assign(name, value) => Assigned(table, c, name, value)
  }

  function UnsetIn(table: Table, c: Conf, name: string): Conf {
    if name in table && (table[name] == S_BOOLEAN || table[name] == S_TRISTATE) then
      c.(defs := c.defs[name := Def(NO, DefOf(c, name).val, true)])
    else c
  }

  function Assigned(table: Table, c: Conf, name: string, value: string): Conf {
    if name !in table then c
    else
      match SetSymVal(DefOf(c, name), table[name], value)
      case None => c.(warnings := c.warnings + 1)
      case Some(d) => c.(defs := c.defs[name := d])
  }

  function ReadLines(table: Table, c: Conf, lines: seq<string>): Conf {
    if lines == [] then c
    else
      var n := |lines| - 1;
      ReadLine(table, ReadLines(table, c, lines[..n]), lines[n])
  }

  /** How much of a text compat_getline takes: up to and with the first newline, or all of it. */
  function LineLength(text: string): (n: nat)
    ensures n <= |text| && (text != [] ==> n > 0)
  {
    var i := IndexOf(text, '\n');
    if i < |text| then i + 1 else i
  }

  /** What compat_getline returns one after the other. */
  function Lines(text: string): seq<string>
    decreases |text|
  {
    if text == [] then [] else [text[..LineLength(text)]] + Lines(text[LineLength(text)..])
  }

  /** conf_reset. */
  function Reset(table: Table): Conf {
    Conf(map name | name in table :: CLEARED, 0)
  }

  /** conf_read_simple. */
  function ReadText(table: Table, text: string): Conf {
    ReadLines(table, Reset(table), Lines(text))
  }

  // ---- the round trip ----

  predicate NameOk(name: string) {
    name != [] && forall i :: 0 <= i < |name| ==>
      name[i] == '_' || IsDigit(name[i]) || 'a' <= name[i] <= 'z' || 'A' <= name[i] <= 'Z'
  }

  /** The values a symbol of this type can have and a line can hold. */
  predicate ValueOk(kind: SymType, v: Value) {
    match kind
    case S_BOOLEAN => v.Logic? && v.tri != MOD
    case S_TRISTATE => v.Logic?
    case S_STRING => v.Text? && '\n' !in v.text && NUL !in v.text
    case S_INT | S_HEX => v.Text? && StringValid(kind, v.text)
    case _ => false
  }

  predicate ItemOk(table: Table, item: Item) {
    match item
    case Setting(name, v) => name in table && NameOk(name) && ValueOk(table[name], v)
    case Title(t) => '\n' !in t && NUL !in t && !(PREFIX <= t)
  }

  ghost predicate Writable(table: Table, items: seq<Item>) {
    && (forall i :: 0 <= i < |items| ==> ItemOk(table, items[i]))
    && (forall i, j :: 0 <= i < j < |items| && items[i].Setting? && items[j].Setting? ==> items[i].name != items[j].name)
  }

  /** The user value that brings the calculated value back. */
  function Stored(v: Value, modules: Tri): Def {
    match v
    case Logic(t) => Def(if t == MOD && modules == NO then NO else t, None, true)
    case Text(s) => Def(NO, Some(s), true)
  }

  function Expected(items: seq<Item>, name: string, modules: Tri): Def {
    if items == [] then CLEARED
    else
      var n := |items| - 1;
      if items[n].Setting? && items[n].name == name then Stored(items[n].value, modules)
      else Expected(items[..n], name, modules)
  }

  /** A text of one line. */
  predicate IsLine(s: string) {
    s != [] && s[|s| - 1] == '\n' && '\n' !in s[..|s| - 1] && NUL !in s
  }

  lemma {:induction false} IndexOfFirst(a: string, c: char, rest: string)
    requires c !in a
    ensures IndexOf(a + [c] + rest, c) == |a|
  {
    var s := a + [c] + rest;
    var i := IndexOf(s, c);
    assert s[|a|] == c;
    assert forall j :: 0 <= j < |a| ==> s[j] == a[j];
  }

  lemma {:induction false} LinesJoined(lines: seq<string>)
    requires forall i :: 0 <= i < |lines| ==> IsLine(lines[i])
    ensures Lines(Joined(lines)) == lines
  {
    if lines != [] {
      var l, rest := lines[0], Joined(lines[1..]);
      var n := |l| - 1;
      LinesJoined(lines[1..]);
      assert l == l[..n] + ['\n'];
      IndexOfFirst(l[..n], '\n', rest);
      var t := l + rest;
      assert t[..n + 1] == l && t[n + 1..] == rest;
      assert lines == [l] + lines[1..];
    }
  }

  lemma {:induction false} JoinedAppend(a: seq<string>, b: seq<string>)
    ensures Joined(a + b) == Joined(a) + Joined(b)
  {
    if a == [] {
      assert a + b == b;
    } else {
      JoinedAppend(a[1..], b);
      assert (a + b)[1..] == a[1..] + b;
      assert Joined(a + b) == a[0] + (Joined(a[1..]) + Joined(b));
    }
  }

  lemma {:induction false} ReadLinesAppend(table: Table, c: Conf, a: seq<string>, b: seq<string>)
    ensures ReadLines(table, c, a + b) == ReadLines(table, ReadLines(table, c, a), b)
    decreases |b|
  {
    if b == [] {
      assert a + b == a;
    } else {
      var n := |b| - 1;
      assert (a + b)[..|a + b| - 1] == a + b[..n];
      ReadLinesAppend(table, c, a, b[..n]);
    }
  }

  lemma NamePlain(name: string)
    requires NameOk(name)
    ensures ' ' !in name && '=' !in name && '\n' !in name && NUL !in name
  {
  }

  lemma {:induction false} BodyWithout(s: string, c: char)
    requires c !in s && !Special(c)
    ensures c !in Body(s)
  {
    if s != [] {
      assert c !in s[1..];
      BodyWithout(s[1..], c);
    }
  }

  /** Cutting a text at the first c gives back the two parts around it. */
  lemma CutAt(a: string, c: char, tail: string)
    requires c !in a
    ensures var s := a + [c] + tail;
            IndexOf(s, c) == |a| && s[..|a|] == a && s[|a| + 1..] == tail
  {
    IndexOfFirst(a, c, tail);
  }

  lemma ValueOfLine(value: string)
    requires '\n' !in value && (value != [] ==> value[|value| - 1] != '\r')
    ensures ValueOf(value + "\n") == value
  {
    CutAt(value, '\n', []);
    assert value + "\n" == value + ['\n'] + [];
  }

  lemma EndsLine(s: string)
    requires '\n' !in s && NUL !in s
    ensures IsLine(s + "\n")
  {
    assert (s + "\n")[..|s|] == s;
  }

  lemma PrefixOf(a: string, b: string)
    ensures a <= a + b && (a + b)[|a|..] == b
  {
  }

  lemma Regrouped(a: string, b: string, c: string, d: string, e: string)
    ensures a + b + c + d + e == a + (b + c + (d + e))
  {
  }

  lemma AssignParses(name: string, value: string)
    requires NameOk(name) && '\n' !in value && (value != [] ==> value[|value| - 1] != '\r')
    ensures Parse(PREFIX + name + "=" + value + "\n") == Assign(name, value)
  {
    NamePlain(name);
    var tail := value + "\n";
    var rest := name + "=" + tail;
    CutAt(name, '=', tail);
    ValueOfLine(value);
    PrefixOf(PREFIX, rest);
    assert PREFIX[0] == 'C' && (PREFIX + rest)[0] == 'C';
    hide IndexOf, ValueOf, NameOk, PREFIX, UNSET;
    Regrouped(PREFIX, name, "=", value, "\n");
  }

  lemma AssignIsLine(name: string, value: string)
    requires NameOk(name) && '\n' !in value && NUL !in value
    ensures IsLine(PREFIX + name + "=" + value + "\n")
  {
    NamePlain(name);
    EndsLine(PREFIX + name + "=" + value);
  }

  lemma UnsetParses(name: string)
    requires NameOk(name)
    ensures Parse("# " + PREFIX + name + " " + UNSET + "\n") == Unset(name)
    ensures IsLine("# " + PREFIX + name + " " + UNSET + "\n")
  {
    NamePlain(name);
    EndsLine("# " + PREFIX + name + " " + UNSET);
    var tail := UNSET + "\n";
    var rest := name + " " + tail;
    CutAt(name, ' ', tail);
    PrefixOf(UNSET, "\n");
    PrefixOf(PREFIX, rest);
    PrefixOf("# ", PREFIX + rest);
    hide IndexOf, ValueOf, NameOk, PREFIX, UNSET;
    var line := "# " + (PREFIX + rest);
    Slices(line, 2, |PREFIX|);
    RegroupedSix("# ", PREFIX, name, " ", UNSET, "\n");
  }

  lemma RegroupedSix(a: string, b: string, c: string, d: string, e: string, f: string)
    ensures a + b + c + d + e + f == a + (b + (c + d + (e + f)))
  {
  }

  lemma TitleParses(t: string)
    requires '\n' !in t && NUL !in t && !(PREFIX <= t)
    ensures Parse("# " + t + "\n") == Skip && IsLine("# " + t + "\n")
    ensures Parse("\n") == Skip && IsLine("\n") && Parse("#\n") == Skip && IsLine("#\n")
  {
    var line := "# " + t + "\n";
    EndsLine("# " + t);
    EndsLine("#");
    assert line[2..] == t + "\n";
    assert !(PREFIX <= t + "\n");
  }

  lemma DigitsPlain(s: string)
    requires IntText(s) || HexText(s)
    ensures '\n' !in s && NUL !in s && s != [] && s[|s| - 1] != '\r'
  {
    if IntText(s) {
      assert s[0] == '-' ==> forall i :: 1 <= i < |s| ==> s[i] == s[1..][i - 1];
      assert forall i :: 0 <= i < |s| ==> IsDigit(s[i]) || s[i] == '-';
    } else {
      assert forall i :: 0 <= i < |s| ==> IsHexDigit(s[i]) || s[i] == 'x' || s[i] == 'X';
    }
  }

  lemma Printed(kind: SymType, v: Value, modules: Tri)
    requires ValueOk(kind, v)
    ensures var s := StringValue(v, modules);
            var p := if kind == S_STRING then Escaped(s) else s;
            '\n' !in p && NUL !in p && p != [] && p[|p| - 1] != '\r'
  {
    match kind
    case S_STRING =>
      BodyWithout(v.text, '\n');
      BodyWithout(v.text, NUL);
      var p := Escaped(v.text);
      assert p[|p| - 1] == '"';
    case S_INT =>
      DigitsPlain(v.text);
    case S_HEX =>
      DigitsPlain(v.text);
    case _ =>
  }

  /** The line of one symbol is read as a setting of that symbol to the value printed. */
  lemma SettingRead(table: Table, c: Conf, name: string, v: Value, modules: Tri)
    requires name in table && NameOk(name) && ValueOk(table[name], v) && DefOf(c, name) == CLEARED
    ensures var line := SettingLine(name, table[name], v, modules);
            && IsLine(line)
            && ReadLine(table, c, line) == Conf(c.defs[name := Stored(v, modules)], c.warnings)
  {
    hide Parse, IndexOf, NameOk, Escaped, Seen, SetSymVal, StringValid, IsLine, ValueOk, PREFIX, UNSET;
    var kind, s := table[name], StringValue(v, modules);
    Printed(kind, v, modules);
    SetBack(kind, v, modules);
    NoTerminator(SettingLine(name, kind, v, modules));
    if kind == S_STRING {
      AssignParses(name, Escaped(s));
      AssignIsLine(name, Escaped(s));
    } else if (kind == S_BOOLEAN || kind == S_TRISTATE) && "n" <= s {
      UnsetParses(name);
    } else {
      AssignParses(name, s);
      AssignIsLine(name, s);
    }
  }

  lemma NoTerminator(s: string)
    ensures NUL !in s || IsLine(s) ==> CString(s) == s && Seen(s) == s
    ensures AllSeen(s) ==> Seen(s) == s
  {
    if AllSeen(s) && NUL in s {
      assert s == s[..2] + s[2..];
    }
  }

  /** Without a terminator inside, but for the second character of a comment. */
  predicate AllSeen(s: string) {
    NUL !in s || (|s| >= 2 && s[0] == '#' && NUL !in s[2..])
  }

  /** Setting a cleared symbol from the printed value brings the value back. */
  lemma SetBack(kind: SymType, v: Value, modules: Tri)
    requires ValueOk(kind, v)
    ensures var s := StringValue(v, modules);
            if kind == S_STRING then SetSymVal(CLEARED, kind, Escaped(s)) == Some(Stored(v, modules))
            else if (kind == S_BOOLEAN || kind == S_TRISTATE) && "n" <= s then Def(NO, None, true) == Stored(v, modules)
            else SetSymVal(CLEARED, kind, s) == Some(Stored(v, modules))
  {
    if kind == S_STRING {
      UnescapeBody(v.text, "");
      QuotedBody(v.text);
      hide Unescaped, Escaped, Body;
    } else {
      LetterStarts();
    }
  }

  lemma QuotedBody(s: string)
    ensures "\"" <= Escaped(s) && Escaped(s)[1..] == Body(s) + "\"" + ""
  {
  }

  lemma LetterStarts()
    ensures forall t: Tri :: ("n" <= Letter(t) <==> t == NO) && ("m" <= Letter(t) <==> t == MOD) && ("y" <= Letter(t) <==> t == YES)
    ensures "n" <= "n"
  {
    assert "m"[0] == 'm' && "y"[0] == 'y' && "n"[0] == 'n';
  }

  lemma {:induction false} UnsetStays(items: seq<Item>, name: string, modules: Tri)
    requires forall i :: 0 <= i < |items| ==> !(items[i].Setting? && items[i].name == name)
    ensures Expected(items, name, modules) == CLEARED
  {
    if items != [] {
      UnsetStays(items[..|items| - 1], name, modules);
    }
  }

  lemma TitleRead(table: Table, c: Conf, t: string)
    requires ItemOk(table, Title(t))
    ensures var ls := ItemLines(table, Title(t), NO);
            ReadLines(table, c, ls) == c && forall i :: 0 <= i < |ls| ==> IsLine(ls[i])
  {
    TitleParses(t);
    var ls := ItemLines(table, Title(t), NO);
    SkipRead(table, c, ls[0]);
    SkipRead(table, c, ls[1]);
    SkipRead(table, c, ls[2]);
    hide Parse, IsLine, ReadLine;
    assert ls[3] == ls[1];
    AllSkipped(table, c, ls);
  }

  lemma {:induction false} AllSkipped(table: Table, c: Conf, ls: seq<string>)
    requires forall l <- ls :: ReadLine(table, c, l) == c
    ensures ReadLines(table, c, ls) == c
  {
    hide ReadLine;
    if ls != [] {
      AllSkipped(table, c, ls[..|ls| - 1]);
    }
  }

  lemma SkipRead(table: Table, c: Conf, l: string)
    requires IsLine(l) && Parse(l) == Skip
    ensures ReadLine(table, c, l) == c
  {
    NoTerminator(l);
    hide Parse, Seen;
  }

  lemma ReadOne(table: Table, c: Conf, ls: seq<string>, l: string)
    ensures ReadLines(table, c, ls + [l]) == ReadLine(table, ReadLines(table, c, ls), l)
  {
    assert (ls + [l])[..|ls|] == ls;
  }

  lemma ItemRead(table: Table, c: Conf, item: Item, modules: Tri)
    requires ItemOk(table, item) && (item.Setting? ==> DefOf(c, item.name) == CLEARED)
    ensures var ls := ItemLines(table, item, modules);
            && (forall i :: 0 <= i < |ls| ==> IsLine(ls[i]))
            && ReadLines(table, c, ls) ==
               if item.Title? then c else Conf(c.defs[item.name := Stored(item.value, modules)], c.warnings)
  {
    match item
    case Title(t) =>
      TitleRead(table, c, t);
    case Setting(name, v) =>
      SettingRead(table, c, name, v, modules);
      var l := SettingLine(name, table[name], v, modules);
      hide SettingLine, ReadLine, IsLine, StringValid, NameOk, Stored;
      ReadOne(table, c, [], l);
      assert [] + [l] == [l];
  }

  lemma WritableFront(table: Table, items: seq<Item>)
    requires Writable(table, items) && items != []
    ensures var n := |items| - 1;
            && Writable(table, items[..n]) && ItemOk(table, items[n])
            && (items[n].Setting? ==> forall i :: 0 <= i < n && items[i].Setting? ==> items[i].name != items[n].name)
  {
  }

  /** What reading the lines of all items gives, symbol by symbol. */
  lemma {:induction false} ItemsRead(table: Table, items: seq<Item>, modules: Tri)
    requires Writable(table, items)
    ensures var ls := AllLines(table, items, modules);
            var c := ReadLines(table, Reset(table), ls);
            && c.warnings == 0 && c.defs.Keys == table.Keys
            && (forall name :: name in table ==> c.defs[name] == Expected(items, name, modules))
            && (forall i :: 0 <= i < |ls| ==> IsLine(ls[i]))
  {
    if items != [] {
      var n := |items| - 1;
      var front, item := items[..n], items[n];
      WritableFront(table, items);
      if item.Setting? {
        assert item.name in table;
        UnsetStays(front, item.name, modules);
      }
      hide Writable, ItemLines, IsLine, ItemOk, Stored, ReadLines;
      ItemsRead(table, front, modules);
      var fl := AllLines(table, front, modules);
      var c := ReadLines(table, Reset(table), fl);
      ItemRead(table, c, item, modules);
      ReadLinesAppend(table, Reset(table), fl, ItemLines(table, item, modules));
    }
  }

  /**
   * Writing any list of symbols and menu titles and reading the text back warns about nothing and gives every
   * written symbol its value as user value, and every other symbol none.
   */
  lemma RoundTrip(table: Table, items: seq<Item>, modules: Tri)
    requires Writable(table, items)
    ensures var c := ReadText(table, Joined(AllLines(table, items, modules)));
            && c.warnings == 0 && c.defs.Keys == table.Keys
            && forall name :: name in table ==> c.defs[name] == Expected(items, name, modules)
  {
    ItemsRead(table, items, modules);
    LinesJoined(AllLines(table, items, modules));
  }

  /** The user value a symbol gets is the one it was written with, wherever in the list that was. */
  lemma {:induction false} ExpectedIs(table: Table, items: seq<Item>, i: nat, modules: Tri)
    requires Writable(table, items) && i < |items| && items[i].Setting?
    ensures Expected(items, items[i].name, modules) == Stored(items[i].value, modules)
  {
    if i < |items| - 1 {
      ExpectedIs(table, items[..|items| - 1], i, modules);
    }
  }

  // ---- the reader and the writer ----

  /** strchr from a position on; n if there is none before the terminator. */
  method StrChr(line: array<char>, from: nat, n: nat, c: char) returns (i: nat)
    requires from <= n < line.Length
    ensures from <= i <= n && i == from + IndexOf(line[from..n], c)
  {
    i := from;
    while i < n && line[i] != c
      invariant from <= i <= n
      invariant IndexOf(line[from..n], c) == i - from + IndexOf(line[i..n], c)
    {
      assert line[i..n][1..] == line[i + 1..n];
      i := i + 1;
    }
  }

  /** The line is cut in two at the first c, if there is one. */
  method CutAtChar(line: array<char>, from: nat, n: nat, c: char) returns (i: nat)
    requires from <= n < line.Length && line[n] == NUL
    modifies line
    ensures from <= i <= n && i == from + IndexOf(old(line[from..n]), c) && line[i] == NUL
    ensures line[from..i] == old(line[from..n])[..i - from]
    ensures i < n ==> line[i + 1..n] == old(line[from..n])[i - from + 1..] && line[n] == NUL
  {
    hide IndexOf;
    i := StrChr(line, from, n, c);
    line[i] := NUL;
    assert line[from..i] == old(line[from..n])[..i - from];
    assert i < n ==> line[i + 1..n] == old(line[from..n])[i - from + 1..];
  }

  /** memcmp with a fixed text, which the line may be too short for. */
  method StartsWith(line: array<char>, from: nat, n: nat, text: string) returns (yes: bool)
    requires from <= n < line.Length
    ensures yes <==> text <= line[from..n]
  {
    if |text| > n - from {
      return false;
    }
    var i := 0;
    while i < |text|
      invariant 0 <= i <= |text| && text[..i] == line[from..from + i]
    {
      if line[from + i] != text[i] {
        assert line[from..n][i] != text[i];
        return false;
      }
      i := i + 1;
    }
    assert line[from..n][..|text|] == line[from..from + |text|] && text[..|text|] == text;
    return true;
  }

  class Symbols {
    const table: Table
    var defs: map<string, Def>
    var warnings: nat

    function Read(): Conf
      reads this
    {
      Conf(defs, warnings)
    }

    constructor (table: Table)
      ensures this.table == table && Read() == Reset(table)
    {
      this.table, defs, warnings := table, map name | name in table :: CLEARED, 0;
    }

    /** conf_set_sym_val: the value stands in the line from p to the terminator at n. */
    method ConfSetSymVal(name: string, line: array<char>, p: nat, n: nat)
      requires name in table && p <= n < line.Length && line[n] == NUL
      modifies this, line
      ensures Read() == match SetSymVal(DefOf(old(Read()), name), table[name], old(line[p..n]))
                        case None => old(Read()).(warnings := old(warnings) + 1)
                        case Some(d) => old(Read()).(defs := old(defs)[name := d])
    {
      hide Unescaped;
      var d := DefOf(Read(), name);
      ghost var s := line[p..n];
      var c := line[p];
      assert p < n ==> c == s[0] && s == [c] + s[1..];
      assert forall k :: k in ["y", "m", "n", "\""] ==> (k <= s <==> p < n && c == k[0]);
      match table[name] {
        case S_TRISTATE =>
          if p < n && c == 'm' {
            defs := defs[name := Def(MOD, d.val, true)];
          } else {
            SetBoolean(name, d, line, p, n);
          }
        case S_BOOLEAN =>
          SetBoolean(name, d, line, p, n);
        case S_STRING =>
          if p < n && c == '"' {
            assert line[p + 1..n] == s[1..];
            var q, stop := Unescape(line, p + 1, n);
            if q.Closed? {
              defs := defs[name := Def(d.tri, Some(q.text), true)];
            } else {
              warnings := warnings + 1;
            }
          } else {
            defs := defs[name := d];
          }
        case S_INT =>
          SetText(name, d, line[p..n]);
        case S_HEX =>
          SetText(name, d, line[p..n]);
        case _ =>
          defs := defs[name := d];
      }
    }

    method SetBoolean(name: string, d: Def, line: array<char>, p: nat, n: nat)
      requires p <= n < line.Length
      modifies this
      ensures Read() == match SetBool(d, line[p..n])
                        case None => old(Read()).(warnings := old(warnings) + 1)
                        case Some(e) => old(Read()).(defs := old(defs)[name := e])
    {
      ghost var s := line[p..n];
      assert p < n ==> s == [line[p]] + s[1..];
      assert forall k :: k in ["y", "n"] ==> (k <= s <==> p < n && line[p] == k[0]);
      if p < n && line[p] == 'y' {
        defs := defs[name := Def(YES, d.val, true)];
      } else if p < n && line[p] == 'n' {
        defs := defs[name := Def(NO, d.val, true)];
      } else {
        warnings := warnings + 1;
      }
    }

    method SetText(name: string, d: Def, s: string)
      requires name in table
      modifies this
      ensures Read() == if StringValid(table[name], s) then old(Read()).(defs := old(defs)[name := Def(d.tri, Some(s), true)])
                        else old(Read()).(warnings := old(warnings) + 1)
    {
      if StringValid(table[name], s) {
        defs := defs[name := Def(d.tri, Some(s), true)];
      } else {
        warnings := warnings + 1;
      }
    }

    /** One turn of the loop of conf_read_simple: the line ends with a terminator at n. */
    method ReadConfigLine(line: array<char>, n: nat)
      requires n < line.Length && line[n] == NUL && AllSeen(line[..n])
      modifies this, line
      ensures Read() == ReadLine(table, old(Read()), old(line[..n]))
    {
      NoTerminator(line[..n]);
      hide SetSymVal, ValueOf, IndexOf, Seen;
      ghost var text := line[..n];
      assert line[0..n] == text;
      if line[0] == '#' {
        ReadComment(line, n);
        return;
      }
      var config := StartsWith(line, 0, n, PREFIX);
      if config {
        ReadAssignment(line, n);
      } else if line[0] != '\r' && line[0] != '\n' {
        warnings := warnings + 1;
      }
    }

    method ReadAssignment(line: array<char>, n: nat)
      requires n < line.Length && line[n] == NUL && NUL !in line[..n] && PREFIX <= line[..n]
      modifies this, line
      ensures Read() == ReadLine(table, old(Read()), old(line[..n]))
    {
      ghost var text := line[..n];
      AssignmentRead(table, Read(), text);
      var from := |PREFIX|;
      assert line[from..n] == text[from..];
      hide Parse, SetSymVal, ValueOf, Seen, IndexOf, PREFIX, ReadLine, Assigned;
      var i := CutAtChar(line, from, n, '=');
      if i < n {
        SetFrom(line[from..i], line, i + 1, n);
      }
    }

    method SetFrom(name: string, line: array<char>, p: nat, n: nat)
      requires 0 < p <= n < line.Length && line[n] == NUL && line[p - 1] == NUL
      modifies this, line
      ensures Read() == Assigned(table, old(Read()), name, ValueOf(old(line[p..n])))
    {
      hide ValueOf, SetSymVal;
      var end := CutValue(line, p, n);
      if name in table {
        ConfSetSymVal(name, line, p, end);
      }
    }

    /** The value ends at the newline, and a carriage return before it goes too. */
    method CutValue(line: array<char>, p: nat, n: nat) returns (end: nat)
      requires p <= n < line.Length && line[n] == NUL && p > 0 && line[p - 1] == NUL
      modifies line
      ensures p <= end <= n && line[end] == NUL && line[p..end] == ValueOf(old(line[p..n]))
    {
      ghost var s := line[p..n];
      end := StrChr(line, p, n, '\n');
      assert s[..end - p] == line[p..end];
      if end < n {
        line[end] := NUL;
        assert s[..end - p] == line[p..end];
        if line[end - 1] == '\r' {
          end := end - 1;
          line[end] := NUL;
          assert s[..end - p] == line[p..end];
        }
      }
    }

    method ReadComment(line: array<char>, n: nat)
      requires n < line.Length && line[n] == NUL && n > 0 && line[0] == '#' && AllSeen(line[..n])
      modifies this, line
      ensures Read() == ReadLine(table, old(Read()), old(line[..n]))
    {
      ghost var text := line[..n];
      CommentRead(table, Read(), text);
      hide ReadLine, AllSeen, IndexOf;
      if n < 2 {
        return;
      }
      assert line[2..n] == text[2..];
      var config := StartsWith(line, 2, n, PREFIX);
      if !config {
        return;
      }
      var from := 2 + |PREFIX|;
      hide PREFIX, UNSET;
      assert line[from..n] == text[from..];
      var i := CutAtChar(line, from, n, ' ');
      if i == n {
        return;
      }
      var name := line[from..i];
      Slices(text, from, i - from);
      Slices(text, from, i - from + 1);
      var unset := StartsWith(line, i + 1, n, UNSET);
      if !unset {
        return;
      }
      if name in table && (table[name] == S_BOOLEAN || table[name] == S_TRISTATE) {
        defs := defs[name := Def(NO, DefOf(Read(), name).val, true)];
      }
    }

    /** conf_read_simple with conf_reset: one line after the other, up to the end of the file. */
    method ConfReadSimple(text: string)
      modifies this
      ensures Read() == ReadText(table, text)
    {
      hide ReadLine, ReadLines, IndexOf;
      defs, warnings := map name | name in table :: CLEARED, 0;
      ReadNone(table, Reset(table));
      var rest := text;
      ghost var done: seq<string> := [];
      while rest != []
        invariant Lines(text) == done + Lines(rest)
        invariant Read() == ReadLines(table, Reset(table), done)
        decreases |rest|
      {
        var n := LineLength(rest);
        ReadOne(table, Reset(table), done, rest[..n]);
        ReadRaw(rest[..n]);
        done := done + [rest[..n]];
        rest := rest[n..];
      }
      assert done + [] == done;
    }

    method Buffer(text: string, n: nat) returns (line: array<char>)
      requires n <= |text|
      ensures fresh(line) && line.Length == n + 1 && line[..n] == text[..n] && line[n] == NUL
    {
      line := new char[n + 1](i requires 0 <= i <= n => if i < n && i < |text| then text[i] else NUL);
      assert line[..n] == text[..n];
    }

    /** The line goes into a buffer, up to the terminator that ends what the reader sees of it. */
    method ReadRaw(text: string)
      modifies this
      ensures Read() == ReadLine(table, old(Read()), text)
    {
      hide ReadLine, SeenLength, AllSeen, SetSymVal;
      var n := SeenLength(text);
      SeenRead(table, Read(), text);
      var line := Buffer(text, n);
      ReadConfigLine(line, n);
    }
  }

  function SeenLength(text: string): (n: nat)
    ensures n <= |text|
  {
    if |text| >= 2 && text[0] == '#' then 2 + IndexOf(text[2..], NUL) else IndexOf(text, NUL)
  }

  lemma SeenRead(table: Table, c: Conf, text: string)
    ensures var seen := text[..SeenLength(text)]; AllSeen(seen) && ReadLine(table, c, seen) == ReadLine(table, c, text)
  {
    hide Parse, Assigned;
    var n := SeenLength(text);
    NoTerminator(text[..n]);
    if |text| >= 2 && text[0] == '#' {
      Slices(text, 2, n - 2);
      assert text[..n] == text[..2] + text[2..n] && text[..n][2..] == text[2..n];
    }
    assert Seen(text) == text[..n];
  }

  lemma AssignmentRead(table: Table, c: Conf, text: string)
    requires PREFIX <= text && NUL !in text
    ensures var rest := text[|PREFIX|..];
            var i := IndexOf(rest, '=');
            ReadLine(table, c, text) == if i == |rest| then c else Assigned(table, c, rest[..i], ValueOf(rest[i + 1..]))
  {
    NoTerminator(text);
    assert text[0] == 'C';
    hide ValueOf, IndexOf, CString, Assigned;
  }

  lemma CommentRead(table: Table, c: Conf, text: string)
    requires text != [] && text[0] == '#' && AllSeen(text)
    ensures ReadLine(table, c, text) ==
            if |text| < 2 || !(PREFIX <= text[2..]) then c
            else
              var from := 2 + |PREFIX|;
              var i := from + IndexOf(text[from..], ' ');
              if i < |text| && UNSET <= text[i + 1..] then UnsetIn(table, c, text[from..i]) else c
  {
    NoTerminator(text);
    ParseOfComment(text);
    hide Parse, Seen, IndexOf, PREFIX, UNSET;
  }

  lemma ParseOfComment(text: string)
    requires text != [] && text[0] == '#'
    ensures Parse(text) ==
            if |text| < 2 || !(PREFIX <= text[2..]) then Skip
            else
              var from := 2 + |PREFIX|;
              var i := from + IndexOf(text[from..], ' ');
              if i < |text| && UNSET <= text[i + 1..] then Unset(text[from..i]) else Skip
  {
    if |text| >= 2 && PREFIX <= text[2..] {
      var from := 2 + |PREFIX|;
      var i := IndexOf(text[from..], ' ');
      hide IndexOf;
      Slices(text, from, i);
      if from + i < |text| {
        Slices(text, from, i + 1);
      }
    }
  }

  lemma ReadNone(table: Table, c: Conf)
    ensures ReadLines(table, c, []) == c
  {
  }

  lemma Slices(s: string, p: nat, k: nat)
    requires p + k <= |s|
    ensures s[p..][..k] == s[p..p + k] && s[p..][k..] == s[p + k..]
  {
  }

  /** conf_write_symbol with kconfig_print_symbol. */
  method WriteSymbol(name: string, kind: SymType, v: Value, modules: Tri) returns (out: string)
    requires kind != S_OTHER && kind != S_UNKNOWN
    ensures out == SettingLine(name, kind, v, modules)
  {
    hide Escaped;
    var s := StringValue(v, modules);
    if kind == S_STRING {
      var buf := EscapeStringValue(s);
      assert buf[..][..buf.Length - 1] == buf[..buf.Length - 1] == Escaped(s);
      return PREFIX + name + "=" + buf[..buf.Length - 1] + "\n";
    }
    if kind == S_BOOLEAN || kind == S_TRISTATE {
      if |s| > 0 && s[0] == 'n' {
        return "# " + PREFIX + name + " " + UNSET + "\n";
      }
    }
    return PREFIX + name + "=" + s + "\n";
  }

  method WriteItem(table: Table, item: Item, modules: Tri) returns (out: string)
    ensures out == Joined(ItemLines(table, item, modules))
  {
    hide SettingLine;
    match item
    case Title(t) =>
      TitleText(t);
      out := "\n#\n# " + t + "\n#\n";
    case Setting(name, v) =>
      out := "";
      if name in table && table[name] != S_OTHER && table[name] != S_UNKNOWN {
        out := WriteSymbol(name, table[name], v, modules);
        OneLine(out);
      }
  }

  /** What conf_write prints for its menus, in the order in which they are given. */
  method WriteItems(table: Table, items: seq<Item>, modules: Tri) returns (out: string)
    ensures out == Joined(AllLines(table, items, modules))
  {
    hide ItemLines;
    out := "";
    var i := 0;
    while i < |items|
      invariant 0 <= i <= |items| && out == Joined(AllLines(table, items[..i], modules))
    {
      assert items[..i + 1][..i] == items[..i];
      JoinedAppend(AllLines(table, items[..i], modules), ItemLines(table, items[i], modules));
      var text := WriteItem(table, items[i], modules);
      out := out + text;
      i := i + 1;
    }
    assert items[..i] == items;
  }

  lemma OneLine(l: string)
    ensures Joined([l]) == l
  {
  }

  lemma TitleText(t: string)
    ensures Joined(["\n", "#\n", "# " + t + "\n", "#\n"]) == "\n#\n# " + t + "\n#\n"
  {
    var a, b, c := "\n", "#\n", "# " + t + "\n";
    var ls := [a, b, c, b];
    assert ls[1..] == [b, c, b] && ls[1..][1..] == [c, b] && ls[1..][1..][1..] == [b];
    OneLine(b);
    assert Joined([c, b]) == c + b;
    assert Joined(ls) == a + (b + (c + b));
  }

  /** Writing and reading with the loops of the program. */
  method WriteThenRead(table: Table, items: seq<Item>, modules: Tri) returns (s: Symbols)
    requires Writable(table, items)
    ensures s.warnings == 0
    ensures forall name :: name in table ==> name in s.defs && s.defs[name] == Expected(items, name, modules)
  {
    var text := WriteItems(table, items, modules);
    s := new Symbols(table);
    RoundTrip(table, items, modules);
    s.ConfReadSimple(text);
  }
}
