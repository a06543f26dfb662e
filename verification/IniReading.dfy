/** How texts that nobody printed are read: blanks, stray lines, titles, the end of the text. */
module IniReading {
  import opened Bytes
  import opened Ini
  import opened IniRoundTrip

  function Blanks(n: nat): (s: string)
    ensures |s| == n
  {
    seq(n, _ => ' ')
  }

  // ----- blanks -----

  /** Blanks at the ends of a line, and on both sides of the first '=', are not part of the entry. */
  lemma LooseEntry(a: nat, k: string, b: nat, c: nat, v: string, d: nat)
    requires GoodKey(k) && GoodValue(v)
    ensures ReadEntry(Blanks(a) + k + Blanks(b) + "=" + Blanks(c) + v + Blanks(d)) == Entry(k, v)
  {
    var tail := if v == "" then "" else Blanks(c) + v;
    var s := k + Blanks(b) + "=" + tail;
    assert s[0] == k[0];
    hide Strip, Blanks, Find;
    LineStripped(a, k, b, c, v, d);
    EqualsFound(k, b, tail);
    KeyStripped(k, b);
    TailStripped(c, v);
    var pos := |k| + b;
    assert s[..pos] == k + Blanks(b) && s[pos + 1..] == tail;
  }

  lemma KeyStripped(k: string, b: nat)
    requires GoodKey(k)
    ensures Strip(k + Blanks(b)) == k
  {
    hide Strip;
    assert (k + Blanks(b))[0..|k|] == k;
    StripExactly(k + Blanks(b), 0, |k|);
  }

  lemma TailStripped(c: nat, v: string)
    requires GoodValue(v)
    ensures Strip(if v == "" then "" else Blanks(c) + v) == v
  {
    hide Strip;
    if v == "" {
      StripFacts("");
    } else {
      assert (Blanks(c) + v)[c..c + |v|] == v;
      StripExactly(Blanks(c) + v, c, c + |v|);
    }
  }

  lemma LineStripped(a: nat, k: string, b: nat, c: nat, v: string, d: nat)
    requires GoodKey(k) && GoodValue(v)
    ensures Strip(Blanks(a) + k + Blanks(b) + "=" + Blanks(c) + v + Blanks(d))
         == k + Blanks(b) + "=" + if v == "" then "" else Blanks(c) + v
  {
    hide Strip;
    var line := Blanks(a) + k + Blanks(b) + "=" + Blanks(c) + v + Blanks(d);
    var s := k + Blanks(b) + "=" + if v == "" then "" else Blanks(c) + v;
    assert line[a..a + |s|] == s;
    assert s[|s| - 1] != ' ';
    StripExactly(line, a, a + |s|);
  }

  lemma EqualsFound(k: string, b: nat, tail: string)
    requires '=' !in k
    ensures Find(k + Blanks(b) + "=" + tail, '=') == |k| + b
  {
    FindAppended(k + Blanks(b), '=', tail);
    assert k + Blanks(b) + ['='] + tail == k + Blanks(b) + "=" + tail;
  }

  /** Blanks around a line of any kind change nothing. */
  lemma PaddedLine(p: Progress, a: nat, s: string, b: nat)
    requires IsStripped(s) && s != ""
    ensures ReadLine(p, Blanks(a) + s + Blanks(b)) == ReadLine(p, s)
  {
    hide Strip;
    var line := Blanks(a) + s + Blanks(b);
    assert line[a..a + |s|] == s;
    StripExactly(line, a, a + |s|);
    StripFacts(s);
  }

  // ----- the end of the text -----

  lemma {:induction false} LinesEnd(s: string)
    requires s != "" && s[|s| - 1] != '\n'
    ensures Lines(s + "\n") == Lines(s)
    decreases |s|
  {
    var n := Find(s, '\n');
    var t := s + "\n";
    if n == |s| {
      assert '\n' !in s by { assert s[..n] == s; }
      FindAppended(s, '\n', "");
      assert s + ['\n'] + "" == t;
      assert t[..|s|] == s && t[|s| + 1..] == "";
      assert Lines(t) == [s] + Lines("");
    } else {
      FindFirst(t, '\n', n);
      assert t[..n] == s[..n] && t[n + 1..] == s[n + 1..] + "\n";
      LinesEnd(s[n + 1..]);
    }
  }

  lemma {:induction false} FindFirst(s: string, c: char, n: nat)
    requires n < |s| && s[n] == c && c !in s[..n]
    ensures Find(s, c) == n
  {
    if n > 0 {
      assert s[..n][0] == s[0];
      assert s[1..][..n - 1] == s[..n][1..];
      FindFirst(s[1..], c, n - 1);
    }
  }

  /** The newline behind the last line may be missing. */
  lemma LastNewlineOptional(s: string)
    requires s != "" && s[|s| - 1] != '\n'
    ensures Read(s + "\n") == Read(s)
  {
    hide Lines;
    LinesEnd(s);
  }

  // ----- what is refused -----

  predicate IsComment(line: string) {
    var s := Strip(line);
    s == "" || s[0] == ';' || s[0] == '#'
  }

  predicate IsTitle(line: string) {
    var s := Strip(line);
    s != "" && s[0] == '['
  }

  /** Something in the section being collected makes it unreadable. */
  ghost predicate Doomed(p: Progress) {
    p.started && (p.name == "" || exists l :: l in p.body && ReadEntry(l) == Bad)
  }

  lemma DoomedCloses(p: Progress)
    requires Doomed(p)
    ensures Close(p) == None
  {
    hide ReadEntry, ReadSection;
    if p.name != "" {
      var l :| l in p.body && ReadEntry(l) == Bad;
      var i :| 0 <= i < |p.body| && p.body[i] == l;
      BadLine(p.body, i);
    }
  }

  lemma {:induction false} DoomedStays(p: Progress, lines: seq<string>)
    requires Doomed(p)
    ensures var q := ReadLines(Some(p), lines); q.Some? ==> Doomed(q.value)
    decreases |lines|
  {
    hide ReadEntry, Strip, Close;
    if lines != [] {
      DoomedCloses(p);
      var q := ReadLine(p, lines[0]);
      if q.Some? {
        assert forall l | l in p.body :: l in q.value.body;
        DoomedStays(q.value, lines[1..]);
      }
    }
  }

  /** A text is refused when reading any front part of its lines has come to a doomed section, or failed. */
  lemma DoomedRejects(a: seq<string>, b: seq<string>)
    requires forall l | l in a + b :: OneLine(l)
    requires var p := ReadLines(Some(AT_START), a); p.Some? ==> Doomed(p.value)
    ensures Read(Unlines(a + b)) == None
  {
    hide Doomed, ReadLine, Close, Unlines, Lines;
    LinesOfUnlines(a + b);
    ReadLinesConcat(Some(AT_START), a, b);
    var p := ReadLines(Some(AT_START), a);
    if p.Some? {
      DoomedStays(p.value, b);
      var q := ReadLines(p, b);
      if q.Some? {
        DoomedCloses(q.value);
      }
    }
  }

  lemma {:induction false} StartedStays(p: Progress, lines: seq<string>)
    requires p.started || exists l :: l in lines && IsTitle(l)
    ensures var q := ReadLines(Some(p), lines); q.Some? ==> q.value.started
    decreases |lines|
  {
    hide Strip, Close;
    if lines != [] {
      var q := ReadLine(p, lines[0]);
      if q.Some? {
        assert lines == [lines[0]] + lines[1..];
        assert p.started || IsTitle(lines[0]) ==> q.value.started;
        StartedStays(q.value, lines[1..]);
      }
    }
  }

  lemma LastLineRead(a: seq<string>, line: string)
    ensures ReadLines(Some(AT_START), a + [line])
         == var p := ReadLines(Some(AT_START), a); if p.Some? then ReadLine(p.value, line) else None
  {
    hide ReadLine;
    ReadLinesConcat(Some(AT_START), a, [line]);
    var p := ReadLines(Some(AT_START), a);
    if p.Some? {
      OneLineRead(p.value, line);
    }
  }

  /**
   Behind the first title, a line that is neither title nor comment and has no '=' makes the
   whole text unreadable, wherever it stands and whatever follows.
   */
  lemma StrayLineRejects(a: seq<string>, line: string, b: seq<string>)
    requires forall l | l in a + [line] + b :: OneLine(l)
    requires (exists l :: l in a && IsTitle(l)) && !IsTitle(line) && !IsComment(line) && '=' !in line
    ensures Read(Unlines(a + [line] + b)) == None
  {
    hide Strip, Read, ReadSection;
    StartedStays(AT_START, a);
    LastLineRead(a, line);
    var s := Strip(line);
    StripFacts(line);
    StripFacts(s);
    assert ReadEntry(s) == Bad;
    var p := ReadLines(Some(AT_START), a);
    if p.Some? {
      var q := p.value.(body := p.value.body + [s]);
      assert ReadLine(p.value, line) == Some(q);
      assert s in q.body;
    }
    hide ReadLine, ReadLines, ReadEntry;
    DoomedRejects(a + [line], b);
  }

  /** So does an entry with nothing but blanks before its first '='. */
  lemma NamelessEntryRejects(a: seq<string>, n: nat, rest: string, b: seq<string>)
    requires var line := Blanks(n) + "=" + rest; forall l | l in a + [line] + b :: OneLine(l)
    requires exists l :: l in a && IsTitle(l)
    ensures Read(Unlines(a + [Blanks(n) + "=" + rest] + b)) == None
  {
    hide Strip, Read, ReadSection, DropBack;
    var line := Blanks(n) + "=" + rest;
    StartedStays(AT_START, a);
    LastLineRead(a, line);
    var s := Strip(line);
    NamelessStripped(n, rest);
    StripFacts(line);
    StripFacts(s);
    assert Find(s, '=') == 0;
    assert ReadEntry(s) == Bad;
    var p := ReadLines(Some(AT_START), a);
    if p.Some? {
      var q := p.value.(body := p.value.body + [s]);
      assert ReadLine(p.value, line) == Some(q);
      assert s in q.body;
    }
    hide ReadLine, ReadLines, ReadEntry;
    DoomedRejects(a + [line], b);
  }

  lemma NamelessStripped(n: nat, rest: string)
    ensures var s := Strip(Blanks(n) + "=" + rest); s != "" && s[0] == '='
  {
    var line := Blanks(n) + "=" + rest;
    DropFrontExactly(line, n);
    assert line[n..][0] == '=';
    DropBackFacts(line[n..]);
  }

  /** And a title without its closing bracket, or with no name in it. */
  lemma BadTitleRejects(a: seq<string>, line: string, b: seq<string>)
    requires forall l | l in a + [line] + b :: OneLine(l)
    requires IsTitle(line) && (var s := Strip(line); s[|s| - 1] != ']' || s == "[]")
    ensures Read(Unlines(a + [line] + b)) == None
  {
    hide Strip, Close, Read;
    LastLineRead(a, line);
    var p := ReadLines(Some(AT_START), a);
    hide ReadLines;
    DoomedRejects(a + [line], b);
  }

  // ----- before the first title -----

  lemma {:induction false} PrefaceDropped(p: Progress, preface: seq<string>)
    requires !p.started && forall l | l in preface :: !IsTitle(l)
    ensures ReadLines(Some(p), preface) == Some(p)
    decreases |preface|
  {
    hide Strip;
    if preface != [] {
      assert preface[0] in preface;
      PrefaceDropped(p, preface[1..]);
    }
  }

  /** Whatever stands before the first title is ignored, entries and stray lines alike. */
  lemma PrefaceIgnored(preface: seq<string>, rest: seq<string>)
    requires forall l | l in preface + rest :: OneLine(l)
    requires forall l | l in preface :: !IsTitle(l)
    ensures Read(Unlines(preface + rest)) == Read(Unlines(rest))
  {
    hide IsTitle, Strip, Unlines, Lines, Close, ReadLine;
    PrefaceDropped(AT_START, preface);
    ReadLinesConcat(Some(AT_START), preface, rest);
    LinesOfUnlines(preface + rest);
    LinesOfUnlines(rest);
  }

  // ----- setting and getting -----

  /** What was set is what is there, and every other entry is as before. */
  lemma SetThenGet(c: Config, section: string, key: string, value: string, s: string, k: string)
    ensures var c' := WithEntry(c, section, key, value);
      if s == section && k == key then s in c' && k in c'[s] && c'[s][k] == value
      else
        && ((s in c' && k in c'[s]) <==> (s in c && k in c[s]))
        && (s in c && k in c[s] ==> c'[s][k] == c[s][k])
  {
  }
}
