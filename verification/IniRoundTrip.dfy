/** What can be read can be printed and read again; and exactly what else can. */
module IniRoundTrip {
  import opened Bytes
  import opened Ini

  predicate GoodKey(k: string) {
    k != "" && IsStripped(k) && OneLine(k) && '=' !in k && k[0] != ';' && k[0] != '#' && k[0] != '['
  }

  predicate GoodValue(v: string) {
    IsStripped(v) && OneLine(v)
  }

  predicate GoodName(n: string) {
    n != "" && OneLine(n)
  }

  predicate GoodSection(m: Section) {
    forall k | k in m :: GoodKey(k) && GoodValue(m[k])
  }

  predicate WellFormed(c: Config) {
    c != map[] && forall n | n in c :: GoodName(n) && GoodSection(c[n])
  }

  // ----- what is read is well formed -----

  /** A line as `IniConfigParser` hands it on to the parser of a section. */
  predicate BodyLine(s: string) {
    s != "" && IsStripped(s) && OneLine(s) && s[0] != ';' && s[0] != '#' && s[0] != '['
  }

  lemma EntryIsGood(s: string)
    requires BodyLine(s)
    ensures ReadEntry(s).Entry? ==> GoodKey(ReadEntry(s).key) && GoodValue(ReadEntry(s).value)
    ensures ReadEntry(s) != Nothing
  {
    hide Strip;
    StripFacts(s);
    var pos := Find(s, '=');
    if 0 < pos < |s| {
      StripFacts(s[..pos]);
      StripFacts(s[pos + 1..]);
      assert s[..pos][0] == s[0];
    }
  }

  lemma {:induction false} SectionIsGood(lines: seq<string>)
    requires forall l | l in lines :: BodyLine(l)
    ensures ReadSection(lines).Some? ==> GoodSection(ReadSection(lines).value)
  {
    if lines != [] {
      var last := lines[|lines| - 1];
      SectionIsGood(lines[..|lines| - 1]);
      assert last in lines;
      EntryIsGood(last);
      hide ReadEntry, BodyLine, GoodKey, GoodValue;
    }
  }

  predicate GoodProgress(p: Progress) {
    && (forall n | n in p.sections :: GoodName(n) && GoodSection(p.sections[n]))
    && OneLine(p.name)
    && forall l | l in p.body :: BodyLine(l)
  }

  lemma CloseIsGood(p: Progress)
    requires GoodProgress(p)
    ensures Close(p).Some? ==> WellFormed(Close(p).value)
  {
    SectionIsGood(p.body);
    hide GoodSection, ReadSection, BodyLine;
    if Close(p).Some? {
      assert p.name in Close(p).value;
    }
  }

  lemma LineIsGood(p: Progress, line: string)
    requires GoodProgress(p) && OneLine(line)
    ensures ReadLine(p, line).Some? ==> GoodProgress(ReadLine(p, line).value)
  {
    hide Strip;
    StripFacts(line);
    CloseIsGood(p);
    hide GoodSection, Close;
  }

  lemma {:induction false} LinesAreGood(p: Progress, lines: seq<string>)
    requires GoodProgress(p) && forall l | l in lines :: OneLine(l)
    ensures var q := ReadLines(Some(p), lines);
      q.Some? ==> GoodProgress(q.value)
    decreases |lines|
  {
    if lines != [] {
      assert lines[0] in lines;
      LineIsGood(p, lines[0]);
      hide ReadLine, GoodProgress;
      if ReadLine(p, lines[0]).Some? {
        LinesAreGood(ReadLine(p, lines[0]).value, lines[1..]);
      }
    }
  }

  lemma AcceptedIsWellFormed(text: string)
    ensures Read(text).Some? ==> WellFormed(Read(text).value)
  {
    LinesAreOneLine(text);
    LinesAreGood(AT_START, Lines(text));
    hide WellFormed, Close;
    var p := ReadLines(Some(AT_START), Lines(text));
    if p.Some? {
      CloseIsGood(p.value);
    }
  }

  // ----- what is well formed reads back -----

  lemma EntryReadsBack(k: string, v: string)
    requires GoodKey(k) && GoodValue(v)
    ensures ReadEntry(k + "=" + v) == Entry(k, v)
    ensures BodyLine(k + "=" + v)
  {
    hide Strip;
    var line := k + "=" + v;
    StripFacts(line);
    StripFacts(k);
    StripFacts(v);
    FindAppended(k, '=', v);
    assert line[..|k|] == k && line[|k| + 1..] == v;
  }

  lemma {:induction false} SectionReadsBack(m: Section, order: seq<string>)
    requires GoodSection(m) && forall k | k in order :: k in m
    ensures ReadSection(EntryLines(m, order)) == Some(map k | k in order :: m[k])
    ensures forall l | l in EntryLines(m, order) :: BodyLine(l)
  {
    if order != [] {
      var front, k := order[..|order| - 1], order[|order| - 1];
      SectionReadsBack(m, front);
      EntryReadsBack(k, m[k]);
      assert front + [k] == order;
      EntrySnoc(m, front, k);
      hide EntryLines, BodyLine, ReadEntry, GoodKey, GoodValue;
      var lines := EntryLines(m, front);
      assert (lines + [k + "=" + m[k]])[..|lines|] == lines;
      assert (map j | j in order :: m[j]) == (map j | j in front :: m[j])[k := m[k]];
    }
  }

  lemma {:induction false} ReadLinesConcat(p: Option<Progress>, a: seq<string>, b: seq<string>)
    ensures ReadLines(p, a + b) == ReadLines(ReadLines(p, a), b)
    decreases |a|
  {
    if a == [] {
      assert a + b == b;
    } else if p.Some? {
      assert (a + b)[1..] == a[1..] + b;
      ReadLinesConcat(ReadLine(p.value, a[0]), a[1..], b);
    }
  }

  lemma {:induction false} BodyIsCollected(p: Progress, lines: seq<string>)
    requires p.started && forall l | l in lines :: BodyLine(l)
    ensures ReadLines(Some(p), lines) == Some(p.(body := p.body + lines))
    decreases |lines|
  {
    if lines == [] {
      assert p.body + lines == p.body;
    } else {
      hide Strip;
      assert lines[0] in lines;
      StripFacts(lines[0]);
      var q := p.(body := p.body + [lines[0]]);
      assert ReadLine(p, lines[0]) == Some(q);
      hide ReadLine;
      BodyIsCollected(q, lines[1..]);
      assert p.body + [lines[0]] + lines[1..] == p.body + lines;
    }
  }

  /** The title line finishes what came before; the blank line at the end says nothing. */
  lemma TitleIsRead(p: Progress, n: string)
    requires p.started ==> Close(p).Some?
    requires !p.started ==> p.sections == map[] && p.body == []
    ensures ReadLine(p, "[" + n + "]")
         == Some(Progress(if p.started then Close(p).value else map[], n, true, []))
  {
    hide Strip, Close;
    var line := "[" + n + "]";
    StripFacts(line);
    assert line[1..|line| - 1] == n;
  }

  lemma BlankIsSkipped(p: Progress)
    ensures ReadLine(p, "") == Some(p)
  {
  }

  lemma OneLineRead(p: Progress, line: string)
    ensures ReadLines(Some(p), [line]) == ReadLine(p, line)
  {
    hide ReadLine;
    assert ReadLines(ReadLine(p, line), []) == ReadLine(p, line);
  }

  /** Title, entries and closing blank line, when the title is read as `q`. */
  lemma SectionLinesRead(p: Progress, q: Progress, title: string, body: seq<string>)
    requires ReadLine(p, title) == Some(q) && q.started && q.body == []
    requires forall l | l in body :: BodyLine(l)
    ensures ReadLines(Some(p), [title] + body + [""]) == Some(q.(body := body))
  {
    hide ReadLine, ReadLines, BodyLine;
    OneLineRead(p, title);
    ReadLinesConcat(Some(p), [title], body);
    BodyIsCollected(q, body);
    assert [] + body == body;
    var r := q.(body := body);
    ReadLinesConcat(Some(p), [title] + body, [""]);
    BlankIsSkipped(r);
    OneLineRead(r, "");
  }

  lemma SectionIsRead(p: Progress, n: string, m: Section, order: seq<string>)
    requires GoodSection(m) && Listed(order, m.Keys)
    requires p.started ==> Close(p).Some?
    requires !p.started ==> p.sections == map[] && p.body == []
    ensures ReadLines(Some(p), SectionLines(n, m, order))
         == Some(Progress(if p.started then Close(p).value else map[], n, true, EntryLines(m, order)))
    ensures ReadSection(EntryLines(m, order)) == Some(m)
  {
    hide ReadLine, ReadLines, Close, EntryLines, GoodSection, ReadSection, BodyLine;
    SectionReadsBack(m, order);
    assert (map k | k in order :: m[k]) == m;
    TitleIsRead(p, n);
    SectionLinesRead(p, Progress(if p.started then Close(p).value else map[], n, true, []), "[" + n + "]", EntryLines(m, order));
  }

  lemma {:induction false} ConfigIsRead(c: Config, order: seq<string>, inner: map<string, seq<string>>)
    requires WellFormed(c) && Printable(c, order, inner)
    requires forall n | n in order :: Listed(inner[n], c[n].Keys)
    ensures var p := ReadLines(Some(AT_START), ConfigLines(c, order, inner));
      && p.Some?
      && (order == [] ==> p == Some(AT_START))
      && (order != [] ==> p.value.started && Close(p.value) == Some(map n | n in order :: c[n]))
  {
    if order != [] {
      var front, n := order[..|order| - 1], order[|order| - 1];
      assert Printable(c, front, inner);
      ConfigIsRead(c, front, inner);
      assert n in c && n in inner && Listed(inner[n], c[n].Keys) && GoodName(n) && GoodSection(c[n]);
      assert ConfigLines(c, order, inner) == ConfigLines(c, front, inner) + SectionLines(n, c[n], inner[n]);
      Restricted(c, front, n);
      assert order == front + [n];
      hide ConfigLines, SectionLines, EntryLines, Listed, GoodSection, ReadSection, ReadLines, ReadLine, Printable, WellFormed, Close;
      ReadLinesConcat(Some(AT_START), ConfigLines(c, front, inner), SectionLines(n, c[n], inner[n]));
      var p := ReadLines(Some(AT_START), ConfigLines(c, front, inner)).value;
      SectionIsRead(p, n, c[n], inner[n]);
      var q := Progress(if p.started then Close(p).value else map[], n, true, EntryLines(c[n], inner[n]));
      CloseAdds(q, n, c[n]);
    }
  }

  lemma Restricted(c: Config, front: seq<string>, n: string)
    requires n in c && forall k | k in front :: k in c
    ensures (map k | k in front + [n] :: c[k]) == (map k | k in front :: c[k])[n := c[n]]
  {
  }

  lemma CloseAdds(p: Progress, n: string, m: Section)
    requires GoodName(n) && p.name == n && ReadSection(p.body) == Some(m)
    ensures Close(p) == Some(p.sections[n := m])
  {
  }

  lemma LinesPrinted(c: Config, order: seq<string>, inner: map<string, seq<string>>)
    requires WellFormed(c) && Printable(c, order, inner)
    ensures forall l | l in ConfigLines(c, order, inner) :: OneLine(l)
  {
    if order != [] {
      LinesPrinted(c, order[..|order| - 1], inner);
      var n := order[|order| - 1];
      assert GoodName(n) && GoodSection(c[n]);
    }
  }

  /** Reading what was printed gives the same maps, in whatever order they were walked. */
  lemma PrintedReadsBack(c: Config, order: seq<string>, inner: map<string, seq<string>>)
    requires WellFormed(c) && Ordered(c, order, inner)
    ensures Read(Printed(c, order, inner)) == Some(c)
  {
    LinesPrinted(c, order, inner);
    LinesOfUnlines(ConfigLines(c, order, inner));
    ConfigIsRead(c, order, inner);
    assert order != [] by {
      var n :| n in c;
    }
    assert (map n | n in order :: c[n]) == c;
  }

  /** A configuration survives printing and reading if and only if it is well formed. */
  lemma ReadsBackExactly(c: Config, printed: string)
    requires IsPrinted(c, printed)
    ensures Read(printed) == Some(c) <==> WellFormed(c)
  {
    hide WellFormed, Printed, Read;
    if WellFormed(c) {
      var order, inner :| Ordered(c, order, inner) && printed == Printed(c, order, inner);
      PrintedReadsBack(c, order, inner);
    }
    AcceptedIsWellFormed(printed);
  }

  /** Parse, print, parse: the same maps, for every text that is accepted. */
  lemma ParsePrintParse(text: string, printed: string)
    requires Read(text).Some? && IsPrinted(Read(text).value, printed)
    ensures Read(printed) == Read(text)
  {
    hide WellFormed, Read, IsPrinted;
    AcceptedIsWellFormed(text);
    ReadsBackExactly(Read(text).value, printed);
  }

  /** `Set` checks nothing: these are the calls whose result can still be saved and loaded. */
  lemma SetStaysReadable(c: Config, section: string, key: string, value: string)
    requires c == map[] || WellFormed(c)
    ensures WellFormed(WithEntry(c, section, key, value))
       <==> GoodName(section) && GoodKey(key) && GoodValue(value)
  {
    hide GoodName, GoodKey, GoodValue;
    var c' := WithEntry(c, section, key, value);
    assert c'[section][key] == value;
    if WellFormed(c') {
      assert GoodSection(c'[section]);
    }
  }

  // ----- comments, duplicates -----

  /** A blank line or a comment changes nothing, wherever it stands. */
  lemma CommentsAreSkipped(a: seq<string>, b: seq<string>, comment: string)
    requires forall l | l in a + b :: OneLine(l)
    requires OneLine(comment) && (Strip(comment) == "" || Strip(comment)[0] in ";#")
    ensures Read(Unlines(a + [comment] + b)) == Read(Unlines(a + b))
  {
    hide Strip, Close, Unlines, Lines;
    LinesOfUnlines(a + b);
    LinesOfUnlines(a + [comment] + b);
    ReadLinesConcat(Some(AT_START), a, b);
    ReadLinesConcat(Some(AT_START), a, [comment]);
    ReadLinesConcat(Some(AT_START), a + [comment], b);
    var p := ReadLines(Some(AT_START), a);
    if p.Some? {
      assert ReadLine(p.value, comment) == p;
      assert ReadLines(p, [comment]) == ReadLines(p, []);
    }
  }

  /** The last entry for a key is the one that counts. */
  lemma {:induction false} LastEntryCounts(lines: seq<string>, i: nat)
    requires ReadSection(lines).Some? && i < |lines| && ReadEntry(lines[i]).Entry?
    requires forall j | i < j < |lines| && ReadEntry(lines[j]).Entry? :: ReadEntry(lines[j]).key != ReadEntry(lines[i]).key
    ensures var e := ReadEntry(lines[i]);
      e.key in ReadSection(lines).value && ReadSection(lines).value[e.key] == e.value
  {
    hide ReadEntry;
    if i < |lines| - 1 {
      LastEntryCounts(lines[..|lines| - 1], i);
    }
  }

  /** The last section of a name replaces the earlier ones as a whole. */
  lemma LastSectionCounts(p: Progress, n: string, body: seq<string>)
    requires p.started && Close(p).Some? && GoodName(n) && ReadSection(body).Some?
    requires forall l | l in body :: BodyLine(l)
    ensures var q := ReadLines(Some(p), ["[" + n + "]"] + body);
      && q.Some?
      && Close(q.value) == Some(Close(p).value[n := ReadSection(body).value])
  {
    TitleIsRead(p, n);
    hide ReadLine, BodyLine;
    var q := ReadLine(p, "[" + n + "]").value;
    assert (["[" + n + "]"] + body)[1..] == body;
    BodyIsCollected(q, body);
    assert [] + body == body;
  }

  // ----- the printed text -----

  /** A title, the keys and values around an equals sign, and an empty line. */
  predicate IsBlock(lines: seq<string>, n: string, m: Section, keys: seq<string>) {
    && |lines| == |keys| + 2
    && lines[0] == "[" + n + "]"
    && lines[|keys| + 1] == ""
    && forall i | 0 <= i < |keys| :: keys[i] in m && lines[i + 1] == keys[i] + "=" + m[keys[i]]
  }

  /** A configuration of one section is printed as that block, its keys in some order. */
  lemma SectionText(n: string, m: Section, text: string)
    requires IsPrinted(map[n := m], text)
    ensures exists keys, lines :: Listed(keys, m.Keys) && IsBlock(lines, n, m, keys) && text == Unlines(lines)
  {
    hide Unlines, IsBlock, ConfigLines, SectionLines, Listed;
    var c: Config := map[n := m];
    var order, inner :| Ordered(c, order, inner) && text == Printed(c, order, inner);
    assert c.Keys == {n};
    OnlyOne(order, n);
    ListedMembers(inner[n], m.Keys);
    OneSectionLines(n, m, inner);
    SectionIsBlock(n, m, inner[n]);
  }

  lemma ListedMembers(order: seq<string>, keys: set<string>)
    requires Listed(order, keys)
    ensures forall k | k in order :: k in keys
  {
  }

  lemma OneSectionLines(n: string, m: Section, inner: map<string, seq<string>>)
    requires n in inner && forall k | k in inner[n] :: k in m
    ensures ConfigLines(map[n := m], [n], inner) == SectionLines(n, m, inner[n])
  {
    hide SectionLines;
    assert [n][..0] == [];
  }

  lemma SectionIsBlock(n: string, m: Section, keys: seq<string>)
    requires forall k | k in keys :: k in m
    ensures IsBlock(SectionLines(n, m, keys), n, m, keys)
  {
    forall i | 0 <= i < |keys| ensures keys[i] in m {
      assert keys[i] in keys;
    }
  }

  lemma OnlyOne(order: seq<string>, n: string)
    requires Listed(order, {n})
    ensures order == [n]
  {
    assert n in order;
    forall i | 0 <= i < |order| ensures order[i] == n {
      assert order[i] in order;
    }
    if |order| >= 2 {
      ListedOnce(order, {n});
      assert false;
    }
  }

  lemma ListedOnce(order: seq<string>, keys: set<string>)
    requires Listed(order, keys) && |order| >= 2
    ensures order[0] != order[1]
  {
  }

  /** Nothing stands before, between or behind the sections: texts of separate ones are joined. */
  lemma TextsJoin(c: Config, d: Config, text: string, text': string)
    requires IsPrinted(c, text) && IsPrinted(d, text') && c.Keys !! d.Keys
    ensures IsPrinted(c + d, text + text')
    ensures IsPrinted(map[], "")
  {
    hide Unlines, Listed, ConfigLines, Printable;
    var o, i :| Ordered(c, o, i) && text == Printed(c, o, i);
    var o', i' :| Ordered(d, o', i') && text' == Printed(d, o', i');
    OrdersJoin(c, d, o, i, o', i');
    UnlinesConcat(ConfigLines(c, o, i), ConfigLines(d, o', i'));
    NothingPrinted();
  }

  lemma OrdersJoin(c: Config, d: Config, o: seq<string>, i: map<string, seq<string>>, o': seq<string>,
                   i': map<string, seq<string>>)
    requires Ordered(c, o, i) && Ordered(d, o', i') && c.Keys !! d.Keys
    ensures Ordered(c + d, o + o', i + i')
    ensures ConfigLines(c + d, o + o', i + i') == ConfigLines(c, o, i) + ConfigLines(d, o', i')
  {
    hide Listed, ConfigLines, Printable;
    JoinedListed(o, o', c.Keys, d.Keys);
    OrderedMembers(c, o, i);
    OrderedMembers(d, o', i');
    LinesWithin(c, c + d, o, i, i + i');
    LinesWithin(d, c + d, o', i', i + i');
    LinesJoin(c + d, o, o', i + i');
    assert (c + d).Keys == c.Keys + d.Keys && (i + i').Keys == i.Keys + i'.Keys;
    forall n | n in c + d ensures Listed((i + i')[n], (c + d)[n].Keys) {
      assert n in d || n in c;
    }
  }

  lemma OrderedMembers(c: Config, order: seq<string>, inner: map<string, seq<string>>)
    requires Ordered(c, order, inner)
    ensures forall n :: n in order <==> n in c
    ensures inner.Keys == c.Keys
  {
  }

  lemma NothingPrinted()
    ensures IsPrinted(map[], "")
  {
    var c: Config, inner: map<string, seq<string>> := map[], map[];
    assert Ordered(c, [], inner) && Printed(c, [], inner) == "";
  }

  lemma JoinedListed(o: seq<string>, o': seq<string>, a: set<string>, b: set<string>)
    requires Listed(o, a) && Listed(o', b) && a !! b
    ensures Listed(o + o', a + b)
  {
    forall i, j | 0 <= i < j < |o + o'| ensures (o + o')[i] != (o + o')[j] {
      if i < |o| <= j {
        assert o[i] in o && o'[j - |o|] in o';
      }
    }
  }

  /** The lines of sections that a larger configuration holds as well. */
  lemma {:induction false} LinesWithin(c: Config, e: Config, order: seq<string>, inner: map<string, seq<string>>,
                                       more: map<string, seq<string>>)
    requires Printable(c, order, inner)
    requires forall n | n in order :: n in e && e[n] == c[n] && n in more && more[n] == inner[n]
    ensures Printable(e, order, more) && ConfigLines(e, order, more) == ConfigLines(c, order, inner)
  {
    hide SectionLines;
    if order != [] {
      LinesWithin(c, e, order[..|order| - 1], inner, more);
      assert order[|order| - 1] in order;
    }
  }

  lemma {:induction false} LinesJoin(c: Config, o: seq<string>, o': seq<string>, inner: map<string, seq<string>>)
    requires Printable(c, o, inner) && Printable(c, o', inner)
    ensures Printable(c, o + o', inner)
    ensures ConfigLines(c, o + o', inner) == ConfigLines(c, o, inner) + ConfigLines(c, o', inner)
  {
    hide SectionLines;
    if o' == [] {
      assert o + o' == o;
    } else {
      LinesJoin(c, o, o'[..|o'| - 1], inner);
      assert (o + o')[..|o + o'| - 1] == o + o'[..|o'| - 1];
    }
  }
}
