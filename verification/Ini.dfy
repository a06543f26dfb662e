/** The configuration files of config_parser.h: parsing, printing, and one after the other. */
module Ini {
  import opened Bytes

  type Section = map<string, string>

  // ----- lines and blanks -----

  function DropFront(s: string): string {
    if s != "" && s[0] == ' ' then DropFront(s[1..]) else s
  }

  function DropBack(s: string): string {
    if s != "" && s[|s| - 1] == ' ' then DropBack(s[..|s| - 1]) else s
  }

  /** `Utility::Strip`: blanks at both ends are removed. */
  function Strip(s: string): string {
    DropBack(DropFront(s))
  }

  predicate IsStripped(s: string) {
    s == "" || (s[0] != ' ' && s[|s| - 1] != ' ')
  }

  predicate OneLine(s: string) {
    '\n' !in s
  }

  /** The least index of `c`, or the length. */
  function Find(s: string, c: char): (n: nat)
    ensures n <= |s| && c !in s[..n] && (n < |s| ==> s[n] == c)
  {
    if s == "" || s[0] == c then 0
    else
      assert s[..1 + Find(s[1..], c)] == [s[0]] + s[1..][..Find(s[1..], c)];
      1 + Find(s[1..], c)
  }

  /** The lines `getline` delivers. */
  function Lines(s: string): seq<string>
    decreases |s|
  {
    if s == "" then []
    else
      var n := Find(s, '\n');
      if n == |s| then [s] else [s[..n]] + Lines(s[n + 1..])
  }

  function Unlines(ls: seq<string>): string {
    if ls == [] then "" else ls[0] + "\n" + Unlines(ls[1..])
  }

  lemma {:induction false} LinesOfUnlines(ls: seq<string>)
    requires forall l | l in ls :: OneLine(l)
    ensures Lines(Unlines(ls)) == ls
  {
    if ls != [] {
      var l, rest := ls[0], Unlines(ls[1..]);
      var s := l + "\n" + rest;
      assert l in ls;
      FindAppended(l, '\n', rest);
      assert s[..|l|] == l && s[|l| + 1..] == rest;
      LinesOfUnlines(ls[1..]);
    }
  }

  lemma FindAppended(s: string, c: char, rest: string)
    requires c !in s
    ensures Find(s + [c] + rest, c) == |s|
  {
    assert (s + [c] + rest)[|s|] == c;
  }

  lemma {:induction false} LinesAreOneLine(s: string)
    ensures forall l | l in Lines(s) :: OneLine(l)
    decreases |s|
  {
    if s != "" {
      var n := Find(s, '\n');
      if n == |s| {
        assert s[..n] == s;
      } else {
        LinesAreOneLine(s[n + 1..]);
      }
    }
  }

  lemma {:induction false} UnlinesConcat(a: seq<string>, b: seq<string>)
    ensures Unlines(a + b) == Unlines(a) + Unlines(b)
  {
    if a == [] {
      assert a + b == b;
    } else {
      assert (a + b)[1..] == a[1..] + b;
      UnlinesConcat(a[1..], b);
    }
  }

  lemma UnlinesSnoc(a: seq<string>, l: string)
    ensures Unlines(a + [l]) == Unlines(a) + l + "\n"
  {
    UnlinesConcat(a, [l]);
    assert Unlines([l]) == l + "\n" + Unlines([]);
  }

  /** Everything `Strip` does: a stripped piece of the string, and the string itself if stripped. */
  lemma StripFacts(s: string)
    ensures IsStripped(Strip(s))
    ensures IsStripped(s) ==> Strip(s) == s
    ensures s != "" && s[0] != ' ' ==> Strip(s) != "" && Strip(s)[0] == s[0]
    ensures forall c | c in Strip(s) :: c in s
  {
    DropFrontFacts(s);
    DropBackFacts(DropFront(s));
  }

  lemma {:induction false} DropFrontFacts(s: string)
    ensures var t := DropFront(s);
      (t == "" || t[0] != ' ') && (forall c | c in t :: c in s) && (s == "" || s[0] != ' ' ==> t == s)
    ensures s != "" && s[0] != ' ' ==> DropFront(s) != ""
  {
    if s != "" && s[0] == ' ' {
      DropFrontFacts(s[1..]);
    }
  }

  lemma {:induction false} DropBackFacts(s: string)
    ensures var t := DropBack(s);
      && (t == "" || t[|t| - 1] != ' ') && (forall c | c in t :: c in s)
      && (s != "" && s[|s| - 1] != ' ' ==> t == s)
      && (s != "" && s[0] != ' ' ==> t != "" && t[0] == s[0])
      && (t != "" ==> t[0] == s[0])
  {
    if s != "" && s[|s| - 1] == ' ' {
      DropBackFacts(s[..|s| - 1]);
    }
  }

  /** `Strip` removes exactly the blanks at both ends. */
  lemma StripExactly(s: string, i: nat, j: nat)
    requires i <= j <= |s| && IsStripped(s[i..j]) && (i == j ==> i == |s|)
    requires forall k | 0 <= k < i || j <= k < |s| :: s[k] == ' '
    ensures Strip(s) == s[i..j]
  {
    DropFrontExactly(s, i);
    DropBackExactly(s[i..], j - i);
    assert s[i..][..j - i] == s[i..j];
  }

  lemma {:induction false} DropFrontExactly(s: string, i: nat)
    requires i <= |s| && (forall k | 0 <= k < i :: s[k] == ' ') && (i < |s| ==> s[i] != ' ')
    ensures DropFront(s) == s[i..]
  {
    if i > 0 {
      DropFrontExactly(s[1..], i - 1);
    }
  }

  lemma {:induction false} DropBackExactly(s: string, j: nat)
    requires j <= |s| && (forall k | j <= k < |s| :: s[k] == ' ') && (j > 0 ==> s[j - 1] != ' ')
    ensures DropBack(s) == s[..j]
    decreases |s|
  {
    if j < |s| {
      DropBackExactly(s[..|s| - 1], j);
    }
  }

  // ----- one section: TxtConfigParser -----

  datatype Entry = Nothing | Entry(key: string, value: string) | Bad

  /** What one line says. */
  function ReadEntry(line: string): Entry {
    var s := Strip(line);
    if s == "" || s[0] == ';' || s[0] == '#' then Nothing
    else
      var pos := Find(s, '=');
      if pos == |s| || pos == 0 || Strip(s[..pos]) == "" then Bad
      else Entry(Strip(s[..pos]), Strip(s[pos + 1..]))
  }

  /** All lines in order, a later entry replacing an earlier one; None for an exception. */
  function ReadSection(lines: seq<string>): Option<Section> {
    if lines == [] then Some(map[])
    else
      match ReadSection(lines[..|lines| - 1])
      case None => None
      case Some(m) =>
        match ReadEntry(lines[|lines| - 1])
        case Nothing => Some(m)
        case Entry(k, v) => Some(m[k := v])
        case Bad => None
  }

  class TxtConfigParser {
    var keyMap: Section

    constructor ()
      ensures keyMap == map[]
    {
      keyMap := map[];
    }

    /** `Input`: false stands for an exception, which leaves the entries of the lines before. */
    method Input(text: string) returns (ok: bool)
      modifies this
      ensures ok <==> ReadSection(Lines(text)).Some?
      ensures ok ==> Some(keyMap) == ReadSection(Lines(text))
      ensures !ok ==> exists i: nat :: i < |Lines(text)| && StoppedAt(Lines(text), i, keyMap)
    {
      keyMap := map[];
      var lines := Lines(text);
      for i := 0 to |lines|
        invariant Some(keyMap) == ReadSection(lines[..i])
      {
        assert lines[..i + 1][..i] == lines[..i];
        var line := Strip(lines[i]);
        if line != "" && line[0] != ';' && line[0] != '#' {
          var pos := Find(line, '=');
          if pos == |line| || pos == 0 {
            BadLine(lines, i);
            assert StoppedAt(lines, i, keyMap);
            return false;
          }
          var key := Strip(line[..pos]);
          if key == "" {
            BadLine(lines, i);
            assert StoppedAt(lines, i, keyMap);
            return false;
          }
          if pos + 1 < |line| {
            keyMap := keyMap[key := Strip(line[pos + 1..])];
          } else {
            assert line[pos + 1..] == "";
            keyMap := keyMap[key := ""];
          }
        }
      }
      assert lines[..|lines|] == lines;
      ok := true;
    }
  }

  /** Line `i` is the first bad one, and `m` is what the lines before it say. */
  predicate StoppedAt(lines: seq<string>, i: nat, m: Section)
    requires i < |lines|
  {
    ReadEntry(lines[i]) == Bad && ReadSection(lines[..i]) == Some(m)
  }

  /** A bad line rejects the whole section, whatever follows it. */
  lemma {:induction false} BadLine(lines: seq<string>, i: nat)
    requires i < |lines| && ReadEntry(lines[i]) == Bad
    ensures ReadSection(lines) == None
  {
    var front := lines[..|lines| - 1];
    if i < |front| {
      BadLine(front, i);
    }
  }

  // ----- the whole file: IniConfigParser -----

  type Config = map<string, Section>

  /** Where the loop of `Input` stands: sections finished, and the one being collected. */
  datatype Progress = Progress(sections: Config, name: string, started: bool, body: seq<string>)

  /** The section being collected is finished; an empty name fails the assertion of the source. */
  function Close(p: Progress): Option<Config> {
    if p.name == "" then None
    else
      match ReadSection(p.body)
      case None => None
      case Some(m) => Some(p.sections[p.name := m])
  }

  function ReadLine(p: Progress, line: string): Option<Progress> {
    var s := Strip(line);
    if s == "" || s[0] == ';' || s[0] == '#' then Some(p)
    else if s[0] == '[' then
      if s[|s| - 1] != ']' then None
      else if !p.started then Some(Progress(p.sections, s[1..|s| - 1], true, p.body))
      else
        match Close(p)
        case None => None
        case Some(sections) => Some(Progress(sections, s[1..|s| - 1], true, []))
    else if p.started then Some(p.(body := p.body + [s]))
    else Some(p)
  }

  function ReadLines(p: Option<Progress>, lines: seq<string>): Option<Progress>
    decreases |lines|
  {
    if lines == [] || p.None? then p
    else ReadLines(ReadLine(p.value, lines[0]), lines[1..])
  }

  const AT_START := Progress(map[], "", false, [])

  /** The configuration a text is read as; None for an exception or a failed assertion. */
  function Read(text: string): Option<Config> {
    match ReadLines(Some(AT_START), Lines(text))
    case None => None
    case Some(p) => Close(p)
  }

  class IniConfigParser {
    var keyMap: Config

    constructor ()
      ensures keyMap == map[]
    {
      keyMap := map[];
    }

    /** `Input`. The lines of a section are collected in a stream and parsed when it ends. */
    method Input(text: string) returns (ok: bool)
      modifies this
      ensures ok <==> Read(text).Some?
      ensures ok ==> Some(keyMap) == Read(text)
    {
      assert Unlines([]) == "";
      hide Lines, Unlines, Find, Strip, ReadSection, DropFront, DropBack;
      keyMap := map[];
      var lines := Lines(text);
      var stream := "";
      var name := "";
      var started := false;
      ghost var body: seq<string> := [];
      LinesAreOneLine(text);
      for i := 0 to |lines|
        invariant ReadLines(Some(Progress(keyMap, name, started, body)), lines[i..])
               == ReadLines(Some(AT_START), lines)
        invariant stream == Unlines(body) && forall l | l in body :: OneLine(l)
      {
        assert lines[i..][1..] == lines[i + 1..];
        assert lines[i] in lines;
        StripFacts(lines[i]);
        var line := Strip(lines[i]);
        if line != "" && line[0] != ';' && line[0] != '#' {
          if line[0] == '[' {
            if line[|line| - 1] == ']' {
              if started {
                LinesOfUnlines(body);
                ok := FinishSection(name, stream);
                if !ok {
                  return;
                }
                stream := "";
                body := [];
              }
              name := line[1..|line| - 1];
              started := true;
            } else {
              return false;
            }
          } else if started {
            UnlinesSnoc(body, line);
            stream := stream + line + "\n";
            body := body + [line];
          }
        }
      }
      LinesOfUnlines(body);
      ok := FinishSection(name, stream);
    }

    /** The end of a section: its stream goes through a parser of its own. */
    method FinishSection(name: string, stream: string) returns (ok: bool)
      modifies this
      ensures ok <==> name != "" && ReadSection(Lines(stream)).Some?
      ensures ok ==> keyMap == old(keyMap)[name := ReadSection(Lines(stream)).value]
    {
      if name == "" {
        return false;
      }
      var imp := new TxtConfigParser();
      ok := imp.Input(stream);
      if ok {
        keyMap := keyMap[name := imp.keyMap];
      }
    }

    method Set(section: string, key: string, value: string)
      modifies this
      ensures keyMap == WithEntry(old(keyMap), section, key, value)
    {
      if section in keyMap {
        keyMap := keyMap[section := keyMap[section][key := value]];
      } else {
        keyMap := keyMap[section := map[key := value]];
      }
    }

    method Get(section: string, key: string) returns (value: string)
      ensures value == if section in keyMap && key in keyMap[section] then keyMap[section][key] else ""
    {
      value := "";
      if section in keyMap {
        if key in keyMap[section] {
          value := keyMap[section][key];
        }
      }
    }

    /** `Output`; the order in which the map is walked is left open. */
    method Output() returns (text: string)
      ensures IsPrinted(keyMap, text)
    {
      hide Lines, Unlines, EntryLines, SectionLines;
      text := "";
      ghost var order: seq<string>, inner: map<string, seq<string>> := [], map[];
      EmptyPrinted(keyMap, inner);
      hide ConfigLines, Printed;
      var left := keyMap.Keys;
      while left != {}
        invariant left <= keyMap.Keys && inner.Keys == keyMap.Keys - left
        invariant Listed(order, keyMap.Keys - left) && Printable(keyMap, order, inner)
        invariant forall n | n in inner :: Listed(inner[n], keyMap[n].Keys)
        invariant text == Printed(keyMap, order, inner)
        decreases left
      {
        var name :| name in left;
        left := left - {name};
        var part := OutputSection(keyMap[name]);
        ghost var keys :| Listed(keys, keyMap[name].Keys) && part == Unlines(EntryLines(keyMap[name], keys) + [""]);
        ghost var before := inner;
        inner := inner[name := keys];
        SameLines(keyMap, order, before, inner);
        PrintedSnoc(keyMap, order, inner, name);
        text := text + ("[" + name + "]" + "\n" + part);
        order := order + [name];
      }
      assert Ordered(keyMap, order, inner);
    }

    static method OutputSection(m: Section) returns (text: string)
      ensures exists order :: Listed(order, m.Keys) && text == Unlines(EntryLines(m, order) + [""])
    {
      text := "";
      ghost var order: seq<string> := [];
      var left := m.Keys;
      while left != {}
        invariant left <= m.Keys && Listed(order, m.Keys - left)
        invariant text == Unlines(EntryLines(m, order))
        decreases left
      {
        var k :| k in left;
        left := left - {k};
        EntrySnoc(m, order, k);
        UnlinesSnoc(EntryLines(m, order), k + "=" + m[k]);
        text := text + (k + "=" + m[k] + "\n");
        order := order + [k];
      }
      UnlinesSnoc(EntryLines(m, order), "");
      text := text + "\n";
    }
  }

  function WithEntry(c: Config, section: string, key: string, value: string): Config {
    c[section := (if section in c then c[section] else map[])[key := value]]
  }

  // ----- what is printed -----

  /** Each key exactly once. */
  ghost predicate Listed(order: seq<string>, keys: set<string>) {
    && (forall i, j | 0 <= i < j < |order| :: order[i] != order[j])
    && (forall k :: k in order <==> k in keys)
  }

  ghost predicate Ordered(c: Config, order: seq<string>, inner: map<string, seq<string>>) {
    && Printable(c, order, inner)
    && Listed(order, c.Keys)
    && inner.Keys == c.Keys
    && forall n | n in c :: Listed(inner[n], c[n].Keys)
  }

  ghost predicate Printable(c: Config, order: seq<string>, inner: map<string, seq<string>>) {
    forall n | n in order :: n in c && n in inner && forall k | k in inner[n] :: k in c[n]
  }

  function EntryLines(m: Section, order: seq<string>): seq<string>
    requires forall k | k in order :: k in m
  {
    seq(|order|, i requires 0 <= i < |order| => order[i] + "=" + m[order[i]])
  }

  function SectionLines(name: string, m: Section, order: seq<string>): seq<string>
    requires forall k | k in order :: k in m
  {
    ["[" + name + "]"] + EntryLines(m, order) + [""]
  }

  ghost function ConfigLines(c: Config, order: seq<string>, inner: map<string, seq<string>>): seq<string>
    requires Printable(c, order, inner)
  {
    if order == [] then []
    else
      var n := order[|order| - 1];
      ConfigLines(c, order[..|order| - 1], inner) + SectionLines(n, c[n], inner[n])
  }

  /** The text `Output` produces for a given order of sections and keys. */
  ghost function Printed(c: Config, order: seq<string>, inner: map<string, seq<string>>): string
    requires Printable(c, order, inner)
  {
    Unlines(ConfigLines(c, order, inner))
  }

  /** The text is what `Output` produces for some order of sections and keys. */
  ghost predicate IsPrinted(c: Config, text: string) {
    exists order, inner :: Ordered(c, order, inner) && text == Printed(c, order, inner)
  }

  lemma EntrySnoc(m: Section, order: seq<string>, k: string)
    requires (forall j | j in order :: j in m) && k in m
    ensures EntryLines(m, order + [k]) == EntryLines(m, order) + [k + "=" + m[k]]
  {
  }

  lemma EmptyPrinted(c: Config, inner: map<string, seq<string>>)
    ensures Printed(c, [], inner) == ""
  {
  }

  /** One more section is printed at the end. */
  lemma PrintedSnoc(c: Config, order: seq<string>, inner: map<string, seq<string>>, n: string)
    requires Printable(c, order, inner) && Printable(c, [n], inner)
    ensures Printable(c, order + [n], inner)
    ensures Printed(c, order + [n], inner)
         == Printed(c, order, inner) + ("[" + n + "]" + "\n" + Unlines(EntryLines(c[n], inner[n]) + [""]))
  {
    var section := SectionLines(n, c[n], inner[n]);
    assert (order + [n])[..|order|] == order;
    UnlinesConcat(ConfigLines(c, order, inner), section);
    assert section[1..] == EntryLines(c[n], inner[n]) + [""];
  }

  lemma {:induction false} SameLines(c: Config, order: seq<string>, inner: map<string, seq<string>>, inner': map<string, seq<string>>)
    requires Printable(c, order, inner)
    requires forall n | n in order :: n in inner' && inner'[n] == inner[n]
    ensures Printable(c, order, inner')
    ensures ConfigLines(c, order, inner) == ConfigLines(c, order, inner')
    ensures Printed(c, order, inner) == Printed(c, order, inner')
  {
    if order != [] {
      SameLines(c, order[..|order| - 1], inner, inner');
    }
  }
}
