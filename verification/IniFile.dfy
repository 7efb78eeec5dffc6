/// Ini files: what loading a text gives, what dumping a dictionary writes, and that
/// loading a dump gives the dictionary back.
module IniFile {
  import opened Dictionary
  import opened IniText

  const ASCIILINESZ: nat := 1024

  type Pairs = map<string, Text>

  // ---------------------------------------------------------------- loading

  /// How much fgets reads from rest into a buffer with this much room.
  ghost function ChunkLen(rest: string, room: nat): (n: nat)
    requires room > 1
    ensures n <= |rest| && n < room && (rest != [] ==> n > 0)
  {
    var e := Find(rest, '\n');
    var n := if e < |rest| then e + 1 else e;
    if n < room then n else room - 1
  }

  /// fgets has met the end of the file.
  ghost predicate AtEof(rest: string, room: nat) {
    Find(rest, '\n') == |rest| && |rest| + 1 < room
  }

  datatype Loaded = Failed | Loaded(pairs: Pairs)

  /// iniparser_load_file from some point on: what is still to be read, the part of a continued line in the
  /// buffer, the current section, the pairs stored, and whether a line was not understood.
  ghost function Load(rest: string, last: string, section: string, m: Pairs, errs: bool): Loaded
    requires |last| <= ASCIILINESZ - 3
    decreases |rest|, 0
  {
    if rest == [] then if errs then Failed else Loaded(m)
    else
      var room := ASCIILINESZ - |last|;
      var n := ChunkLen(rest, room);
      var line, more := last + rest[..n], rest[n..];
      if |line| <= 1 then Load(more, last, section, m, errs)
      else if line[|line| - 1] != '\n' && !AtEof(rest, room) then Failed
      else
        var t := TrimEnd(line);
        if t != [] && t[|t| - 1] == '\\' then Load(more, t[..|t| - 1], section, m, errs)
        else LoadAfter(ReadLine(t), more, section, m, errs)
  }

  /// What one complete line does.
  ghost function LoadAfter(l: Line, more: string, section: string, m: Pairs, errs: bool): Loaded
    decreases |more|, 1
  {
    match l
    case Empty => Load(more, [], section, m, errs)
    case Comment => Load(more, [], section, m, errs)
    case Section(s) => Load(more, [], s, m[s := Null], errs)
    case Pair(k, v) => Load(more, [], section, m[section + ":" + k := Str(v)], errs)
    case Error => Load(more, [], section, m, true)
  }

  ghost function LoadText(text: string): Loaded { Load(text, [], [], map[], false) }

  /// The line with what fgets appends to it, and what is left of the file.
  ghost predicate NextChunk(rest: string, last: string, line: string, more: string, eof: bool)
    requires rest != [] && |last| <= ASCIILINESZ - 3
  {
    var room := ASCIILINESZ - |last|;
    var n := ChunkLen(rest, room);
    line == last + rest[..n] && more == rest[n..] && eof == AtEof(rest, room)
  }

  /// A whole line leaves room for the buffer to be continued.
  lemma ChunkRoom(rest: string, last: string, line: string, more: string, eof: bool)
    requires rest != [] && |last| <= ASCIILINESZ - 3
    requires NextChunk(rest, last, line, more, eof)
    ensures line != [] && (line[|line| - 1] == '\n' || eof ==> |TrimEnd(line)| <= ASCIILINESZ - 2)
  {
    hide Find;
  }

  /// What is left in the buffer when blanks at the end are cut has no newline.
  lemma BufferClean(rest: string, last: string, room: nat)
    requires room > 1 && '\n' !in last && rest != []
    ensures var n := ChunkLen(rest, room); '\n' !in TrimEnd(last + rest[..n])
  {
    var n := ChunkLen(rest, room);
    var line := last + rest[..n];
    EndTrimmed(line);
    var t := TrimEnd(line);
    hide TrimEnd, Find;
    forall i | 0 <= i < |t|
      ensures t[i] != '\n'
    {
      assert t[i] == line[i];
      if i < |last| {
        assert line[i] == last[i];
      } else if i < |line| - 1 {
        assert line[i] == rest[i - |last|];
        assert rest[i - |last|] == rest[..Find(rest, '\n')][i - |last|];
      }
    }
  }

  /// A line that fits the buffer and is not continued.
  ghost predicate WholeLine(line: string) {
    line != [] && '\n' !in line && |line| <= ASCIILINESZ - 2 && !Space(line[|line| - 1]) && line[|line| - 1] != '\\'
  }

  lemma LoadLine(line: string, more: string, section: string, m: Pairs, errs: bool)
    requires WholeLine(line)
    ensures Load(line + "\n" + more, [], section, m, errs) == LoadAfter(ReadLine(line), more, section, m, errs)
  {
    var text, b := line + "\n" + more, line + "\n";
    assert text[..|line|] == line && text[|line|] == '\n';
    FindIs(text, '\n', |line|);
    assert [] + text[..|b|] == b && text[|b|..] == more;
    assert b[..|b| - 1] == line;
    EndTrimmed(line);
    assert TrimEnd(b) == line;
    hide ReadLine, TrimEnd, Find, LoadAfter;
  }

  lemma LoadBlank(more: string, section: string, m: Pairs, errs: bool)
    ensures Load("\n" + more, [], section, m, errs) == Load(more, [], section, m, errs)
  {
    var text := "\n" + more;
    FindIs(text, '\n', 0);
    assert [] + text[..1] == "\n" && text[1..] == more;
    hide ReadLine, TrimEnd, Find, LoadAfter;
  }

  // ---------------------------------------------------------------- dumping

  ghost predicate IsSection(k: Text) { k.Str? && ':' !in k.s }

  ghost predicate InSection(k: Text, s: string) { k.Str? && s + ":" <= k.s }

  /// What escape_value leaves in the buffer: a NULL value leaves what was there.
  ghost function Escaped(v: Text, before: string): string { if v.Str? then Escape(v.s) else before }

  /// The lines of section s, from slot j on.
  ghost function KeyLines(ks: Slots, vs: Slots, s: string, j: nat, escaped: string): string
    requires j <= |ks| == |vs|
    decreases |ks| - j
  {
    if j == |ks| then []
    else if InSection(ks[j], s) then
      var e := Escaped(vs[j], escaped);
      PairText(ks[j].s[|s| + 1..], e) + "\n" + KeyLines(ks, vs, s, j + 1, e)
    else KeyLines(ks, vs, s, j + 1, escaped)
  }

  /// What a lookup keeps of a name.
  ghost function Cut(s: string): string { if |s| <= ASCIILINESZ then s else s[..ASCIILINESZ] }

  /// iniparser_dumpsection_ini's tests.
  ghost predicate Shown(ks: Slots, s: string) { HasKey(ks, Lower(Cut(s))) && |s| <= ASCIILINESZ + 1 }

  /// iniparser_dumpsection_ini
  ghost function SectionText(ks: Slots, vs: Slots, s: string): string
    requires |ks| == |vs|
  {
    if Shown(ks, s) then "\n[" + s + "]\n" + KeyLines(ks, vs, s, 0, []) + "\n" else []
  }

  ghost function SectionTexts(ks: Slots, vs: Slots, j: nat): string
    requires j <= |ks| == |vs|
    decreases |ks| - j
  {
    if j == |ks| then []
    else if IsSection(ks[j]) then SectionText(ks, vs, ks[j].s) + SectionTexts(ks, vs, j + 1)
    else SectionTexts(ks, vs, j + 1)
  }

  /// Without any section: all the pairs as they are.
  ghost function PlainLines(ks: Slots, vs: Slots, j: nat, escaped: string): string
    requires j <= |ks| == |vs|
    decreases |ks| - j
  {
    if j == |ks| then []
    else if ks[j].Str? then
      var e := Escaped(vs[j], escaped);
      ks[j].s + " = \"" + e + "\"\n" + PlainLines(ks, vs, j + 1, e)
    else PlainLines(ks, vs, j + 1, escaped)
  }

  ghost predicate SomeSection(ks: Slots) { exists i :: 0 <= i < |ks| && IsSection(ks[i]) }

  /// iniparser_dump_ini
  ghost function DumpText(ks: Slots, vs: Slots): string
    requires |ks| == |vs|
  {
    if SomeSection(ks) then SectionTexts(ks, vs, 0) + "\n" else PlainLines(ks, vs, 0, [])
  }

  // ---------------------------------------------------------------- a dump is loaded back

  /// The pair in a slot can be written to a file: a section with the value NULL, or a pair of
  /// a section that is there.
  ghost predicate DumpableAt(ks: Slots, vs: Slots, i: nat)
    requires i < |ks| == |vs| && ks[i].Str?
  {
    var k := ks[i].s;
    if ':' !in k then
      vs[i] == Null && NoEndBlanks(k) && Lower(k) == k && '\n' !in k && |k| <= ASCIILINESZ - 4
    else
      var c := Find(k, ':');
      HasKey(ks, k[..c]) && Loadable(k[c + 1..]) && '\n' !in k &&
      vs[i].Str? && '\n' !in vs[i].s && |PairText(k[c + 1..], Escape(vs[i].s))| <= ASCIILINESZ - 2
  }

  ghost predicate Dumpable(ks: Slots, vs: Slots)
    requires |ks| == |vs|
  {
    forall i: nat | i < |ks| && ks[i].Str? :: DumpableAt(ks, vs, i)
  }

  /// m says nothing that the dictionary does not say.
  ghost predicate Agrees(m: Pairs, M: Pairs) { forall k | k in m :: k in M && m[k] == M[k] }

  /// The section of a pair is the part before the first colon.
  lemma SectionOf(k: string, s: string)
    requires ':' !in s && s + ":" <= k
    ensures Find(k, ':') == |s| && k[..|s|] == s && s + ":" + k[|s| + 1..] == k
  {
    assert k[..|s|] == s && k[|s|] == ':';
    FindIs(k, ':', |s|);
    assert s + ":" + k[|s| + 1..] == k;
  }

  lemma PairLineWhole(name: string, v: string)
    requires '\n' !in name && '\n' !in v && |PairText(name, Escape(v))| <= ASCIILINESZ - 2
    ensures WholeLine(PairText(name, Escape(v)))
  {
    EscapeBounds(v);
    PadMembers(name);
    TextParts(name, v);
    TextMembers(Pad(name), Escape(v));
    hide Escape, Pad;
  }

  lemma TextMembers(a: string, b: string)
    ensures forall c | c in a + " = \"" + b + "\"" :: c in a || c in b || c in " = \""
  {
  }

  lemma PairLoads(name: string, v: string, s: string, more: string, m: Pairs)
    requires Loadable(name) && '\n' !in name && '\n' !in v && |PairText(name, Escape(v))| <= ASCIILINESZ - 2
    ensures Load(PairText(name, Escape(v)) + "\n" + more, [], s, m, false) == Load(more, [], s, m[s + ":" + name := Str(v)], false)
  {
    hide Load, ReadLine, PairText, Escape, Loadable, WholeLine;
    PairLineWhole(name, v);
    PairLine(name, v);
    LoadLine(PairText(name, Escape(v)), more, s, m, false);
  }

  /// What the slot of a pair of section s holds.
  lemma PairSlot(ks: Slots, vs: Slots, s: string, j: nat)
    requires j < |ks| == |vs| && Dumpable(ks, vs) && ':' !in s && InSection(ks[j], s)
    ensures var name := ks[j].s[|s| + 1..];
            s + ":" + name == ks[j].s && Loadable(name) && '\n' !in name && vs[j].Str? && '\n' !in vs[j].s && |PairText(name, Escape(vs[j].s))| <= ASCIILINESZ - 2
  {
    var k := ks[j].s;
    assert DumpableAt(ks, vs, j);
    hide Dumpable, PairText, Escape, Loadable, Find, HasKey;
    assert k[|s|] == ':';
    SectionOf(k, s);
    assert forall c | c in k[|s| + 1..] :: c in k;
  }

  /// The line of one slot.
  lemma KeyLoads(ks: Slots, vs: Slots, s: string, j: nat, more: string, m: Pairs)
    requires j < |ks| == |vs| && KeysDiffer(ks) && Dumpable(ks, vs) && ':' !in s && InSection(ks[j], s) && Agrees(m, Contents(ks, vs))
    ensures vs[j].Str?
    ensures var m' := m[ks[j].s := vs[j]];
            Load(PairText(ks[j].s[|s| + 1..], Escape(vs[j].s)) + "\n" + more, [], s, m, false) == Load(more, [], s, m', false) &&
            Agrees(m', Contents(ks, vs))
  {
    hide Dumpable, Contents, KeysDiffer, Load, PairText, Escape, Loadable;
    PairSlot(ks, vs, s, j);
    SlotOf(ks, vs, j);
    PairLoads(ks[j].s[|s| + 1..], vs[j].s, s, more, m);
  }

  /// The lines of one section.
  lemma {:induction false} KeysLoad(ks: Slots, vs: Slots, s: string, j: nat, escaped: string, more: string, m: Pairs) returns (m': Pairs)
    requires j <= |ks| == |vs| && KeysDiffer(ks) && Dumpable(ks, vs) && ':' !in s && Agrees(m, Contents(ks, vs))
    ensures Load(KeyLines(ks, vs, s, j, escaped) + more, [], s, m, false) == Load(more, [], s, m', false)
    ensures Agrees(m', Contents(ks, vs)) && m.Keys <= m'.Keys
    ensures forall i | j <= i < |ks| && InSection(ks[i], s) :: ks[i].s in m'
    decreases |ks| - j
  {
    hide Dumpable, Contents, KeysDiffer, Load, PairText, Escape, Agrees;
    if j == |ks| {
      assert KeyLines(ks, vs, s, j, escaped) + more == more;
      m' := m;
    } else if InSection(ks[j], s) {
      var tail := KeyLines(ks, vs, s, j + 1, Escaped(vs[j], escaped));
      KeyLoads(ks, vs, s, j, tail + more, m);
      var t := PairText(ks[j].s[|s| + 1..], Escape(vs[j].s));
      assert KeyLines(ks, vs, s, j, escaped) + more == t + "\n" + (tail + more);
      m' := KeysLoad(ks, vs, s, j + 1, Escaped(vs[j], escaped), more, m[ks[j].s := vs[j]]);
    } else {
      m' := KeysLoad(ks, vs, s, j + 1, escaped, more, m);
    }
  }

  lemma SectionSlot(ks: Slots, vs: Slots, j: nat)
    requires j < |ks| == |vs| && KeysDiffer(ks) && Dumpable(ks, vs) && IsSection(ks[j])
    ensures var s := ks[j].s;
            ':' !in s && vs[j] == Null && Lower(s) == s && |s| <= ASCIILINESZ && NoEndBlanks(s) && WholeLine("[" + s + "]") && Shown(ks, s) && s in Contents(ks, vs) && Contents(ks, vs)[s] == Null
  {
    var s := ks[j].s;
    assert DumpableAt(ks, vs, j);
    hide Dumpable, Contents, KeysDiffer, NoEndBlanks, Lower, WholeLine;
    SlotOf(ks, vs, j);
    assert ks[j] in ks;
    BracketLine(s);
  }

  lemma BracketLine(s: string)
    requires '\n' !in s && |s| <= ASCIILINESZ - 4
    ensures WholeLine("[" + s + "]")
  {
  }

  /// The heading of a section.
  lemma HeadingLoads(s: string, more: string, section: string, m: Pairs)
    requires Lower(s) == s && NoEndBlanks(s) && WholeLine("[" + s + "]")
    ensures Load("\n" + (("[" + s + "]") + "\n" + more), [], section, m, false) == Load(more, [], s, m[s := Null], false)
  {
    var line := "[" + s + "]";
    SectionLine(s);
    hide Load, ReadLine, WholeLine, Lower, NoEndBlanks;
    LoadBlank(line + "\n" + more, section, m, false);
    LoadLine(line, more, section, m, false);
  }

  lemma SectionTextIs(ks: Slots, vs: Slots, s: string, more: string)
    requires |ks| == |vs| && Shown(ks, s)
    ensures SectionText(ks, vs, s) + more == "\n" + (("[" + s + "]") + "\n" + (KeyLines(ks, vs, s, 0, []) + ("\n" + more)))
  {
    var b := KeyLines(ks, vs, s, 0, []);
    assert "\n[" == "\n" + "[" && "]\n" == "]" + "\n";
    assert SectionText(ks, vs, s) == ("\n" + "[") + s + ("]" + "\n") + b + "\n";
    hide *;
    Regrouped("\n", "[", s, "]", b, more);
  }

  lemma Regrouped(n: string, a: string, s: string, c: string, b: string, more: string)
    ensures ((n + a) + s + (c + n) + b + n) + more == n + ((a + s + c) + n + (b + (n + more)))
  {
  }

  /// One section with its lines.
  lemma SectionLoads(ks: Slots, vs: Slots, j: nat, more: string, section: string, m: Pairs) returns (m': Pairs)
    requires j < |ks| == |vs| && KeysDiffer(ks) && Dumpable(ks, vs) && IsSection(ks[j]) && Agrees(m, Contents(ks, vs))
    ensures Load(SectionText(ks, vs, ks[j].s) + more, [], section, m, false) == Load(more, [], ks[j].s, m', false)
    ensures Agrees(m', Contents(ks, vs)) && m.Keys <= m'.Keys && ks[j].s in m'
    ensures forall i | 0 <= i < |ks| && InSection(ks[i], ks[j].s) :: ks[i].s in m'
  {
    hide Dumpable, Contents, KeysDiffer, Load, KeyLines, SectionText, WholeLine, NoEndBlanks, Lower, InSection;
    var s := ks[j].s;
    SectionSlot(ks, vs, j);
    SectionTextIs(ks, vs, s, more);
    HeadingLoads(s, KeyLines(ks, vs, s, 0, []) + ("\n" + more), section, m);
    m' := KeysLoad(ks, vs, s, 0, [], "\n" + more, m[s := Null]);
    LoadBlank(more, s, m', false);
  }

  lemma {:induction false} SectionsLoad(ks: Slots, vs: Slots, j: nat, more: string, section: string, m: Pairs) returns (section': string, m': Pairs)
    requires j <= |ks| == |vs| && KeysDiffer(ks) && Dumpable(ks, vs) && Agrees(m, Contents(ks, vs))
    ensures Load(SectionTexts(ks, vs, j) + more, [], section, m, false) == Load(more, [], section', m', false)
    ensures Agrees(m', Contents(ks, vs)) && m.Keys <= m'.Keys
    ensures forall i | j <= i < |ks| && IsSection(ks[i]) :: ks[i].s in m'
    ensures forall i, a | j <= i < |ks| && IsSection(ks[i]) && 0 <= a < |ks| && InSection(ks[a], ks[i].s) :: ks[a].s in m'
    decreases |ks| - j
  {
    hide Dumpable, Contents, KeysDiffer, Load, SectionText, Agrees, InSection;
    if j == |ks| {
      assert SectionTexts(ks, vs, j) + more == more;
      section', m' := section, m;
    } else if IsSection(ks[j]) {
      var tail := SectionTexts(ks, vs, j + 1);
      var m1 := SectionLoads(ks, vs, j, tail + more, section, m);
      assert SectionTexts(ks, vs, j) + more == SectionText(ks, vs, ks[j].s) + (tail + more);
      section', m' := SectionsLoad(ks, vs, j + 1, more, ks[j].s, m1);
    } else {
      section', m' := SectionsLoad(ks, vs, j + 1, more, section, m);
    }
  }

  /// A dictionary whose pairs can all be written without sections has no pairs.
  lemma NoSectionNoPair(ks: Slots, vs: Slots, i: nat)
    requires |ks| == |vs| && Dumpable(ks, vs) && !SomeSection(ks) && i < |ks|
    ensures ks[i] == Null
  {
    if ks[i].Str? {
      assert DumpableAt(ks, vs, i) && !IsSection(ks[i]);
      SectionThere(ks, ks[i].s);
      assert false;
    }
  }

  lemma SectionThere(ks: Slots, k: string)
    requires HasKey(ks, k[..Find(k, ':')])
    ensures SomeSection(ks)
  {
    var i := Index(ks, k[..Find(k, ':')]);
    assert IsSection(ks[i]);
  }

  lemma {:induction false} NoLines(ks: Slots, vs: Slots, j: nat)
    requires j <= |ks| == |vs| && forall i | 0 <= i < |ks| :: ks[i] == Null
    ensures PlainLines(ks, vs, j, []) == []
    decreases |ks| - j
  {
    if j < |ks| { NoLines(ks, vs, j + 1); }
  }

  lemma CutBefore(k: string, c: nat)
    requires c < |k| && k[c] == ':'
    ensures k[..c] + ":" <= k
  {
    assert k[..c] + [k[c]] == k[..c + 1];
  }

  lemma CutMembers(k: string, c: char)
    requires c in k
    ensures c in k[..|k|]
  {
    assert k[..|k|] == k;
  }

  /// Before the first colon.
  lemma ColonSplit(k: string)
    requires ':' in k
    ensures Find(k, ':') < |k| && ':' !in k[..Find(k, ':')] && k[..Find(k, ':')] + ":" <= k
  {
    hide Find;
    CutMembers(k, ':');
    var c := Find(k, ':');
    CutBefore(k, c);
  }

  /// A pair's section, and its place.
  lemma PairIn(ks: Slots, vs: Slots, a: nat) returns (i: nat)
    requires a < |ks| == |vs| && Dumpable(ks, vs) && ks[a].Str? && !IsSection(ks[a])
    ensures i < |ks| && IsSection(ks[i]) && InSection(ks[a], ks[i].s)
  {
    assert DumpableAt(ks, vs, a);
    ColonSplit(ks[a].s);
    hide Dumpable, Loadable, PairText, HasKey, Index, Find;
    i := Index(ks, ks[a].s[..Find(ks[a].s, ':')]);
  }

  /// Every pair of the dictionary is in the map that holds all sections and all their pairs.
  lemma AllThere(ks: Slots, vs: Slots, m: Pairs)
    requires |ks| == |vs| && KeysDiffer(ks) && Dumpable(ks, vs) && Agrees(m, Contents(ks, vs))
    requires forall i | 0 <= i < |ks| && IsSection(ks[i]) :: ks[i].s in m
    requires forall i, a | 0 <= i < |ks| && IsSection(ks[i]) && 0 <= a < |ks| && InSection(ks[a], ks[i].s) :: ks[a].s in m
    ensures m == Contents(ks, vs)
  {
    forall k | k in Contents(ks, vs)
      ensures k in m
    {
      ContentsKeys(ks, vs, k);
      var a := Index(ks, k);
      hide Contents, KeysDiffer, Dumpable, IsSection, InSection, HasKey;
      if !IsSection(ks[a]) {
        var i := PairIn(ks, vs, a);
      }
    }
    hide Contents, Dumpable, KeysDiffer;
  }

  /// Loading what was dumped gives the same pairs.
  lemma DumpLoads(ks: Slots, vs: Slots)
    requires |ks| == |vs| && KeysDiffer(ks) && Dumpable(ks, vs)
    ensures LoadText(DumpText(ks, vs)) == Loaded(Contents(ks, vs))
  {
    hide Dumpable, Contents, KeysDiffer, SectionTexts, PlainLines, SomeSection, InSection, IsSection, Load;
    if SomeSection(ks) {
      var section, m := SectionsLoad(ks, vs, 0, "\n", [], map[]);
      assert "\n" == "\n" + [];
      LoadBlank([], section, m, false);
      LoadEnd(section, m);
      AllThere(ks, vs, m);
    } else {
      forall i: nat | i < |ks| ensures ks[i] == Null { NoSectionNoPair(ks, vs, i); }
      NothingStored(ks, vs);
      NoLines(ks, vs, 0);
      LoadEnd([], map[]);
    }
  }

  lemma LoadEnd(section: string, m: Pairs)
    ensures Load([], [], section, m, false) == Loaded(m)
  {
  }
}
