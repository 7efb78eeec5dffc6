/// Exactly which dictionaries come back from their dump. When a dump is loaded without an error, the
/// lines in it fit the buffer, and what is stored has trimmed lower-case names without newlines; so a
/// dictionary that is not made of these is not among the results.
module IniExact {
  import opened Dictionary
  import opened IniText
  import opened IniFile
  import opened IniPrinted
  import opened IniPlain

  // ---------------------------------------------------------------- no newline is loaded

  lemma ValueMembers(r: string)
    ensures forall c | c in ReadValue(r) :: c in r
  {
    if |r| >= 2 {
      assert forall c | c in r[1..] :: c in r;
      UnquoteBounds(r[1..], '"', false);
      UnquoteBounds(r[1..], '\'', false);
    }
    CommentBounds(r);
    assert forall c | c in UpToComment(r) :: c in r;
    Stripped(UpToComment(r));
    hide Unquote, Strip, UpToComment, NoEndBlanks;
  }

  lemma StartMembers(s: string)
    ensures forall c | c in TrimStart(s) :: c in s
  {
    StartTrimmed(s);
  }

  lemma LowerNewline(s: string)
    requires '\n' !in s
    ensures '\n' !in Lower(s)
  {
    assert forall i | 0 <= i < |s| :: s[i] in s && Lower(s)[i] != '\n';
  }

  lemma NameNewline(s: string)
    requires '\n' !in s
    ensures '\n' !in Lower(Strip(s))
  {
    hide Lower, Strip, NoEndBlanks;
    Stripped(s);
    LowerNewline(Strip(s));
  }

  ghost predicate OneLine(l: Line) {
    match l
    case Section(name) => '\n' !in name
    case Pair(key, value) => '\n' !in key && '\n' !in value
    case _ => true
  }

  lemma LineMembers(input: string)
    requires '\n' !in input
    ensures OneLine(ReadLine(input))
  {
    var line := Strip(input);
    Stripped(input);
    hide Strip, Lower, Find, TrimStart, ReadValue, NoEndBlanks;
    if line != [] {
      var e := Find(line, '=');
      assert forall c | c in line[..e] :: c in line;
      NameNewline(line[..e]);
      if |line| > 1 {
        assert forall c | c in line[1..|line| - 1] :: c in line;
        NameNewline(line[1..|line| - 1]);
      }
      if e < |line| {
        assert forall c | c in line[e + 1..] :: c in line;
        StartMembers(line[e + 1..]);
        ValueMembers(TrimStart(line[e + 1..]));
      }
    }
  }

  ghost predicate Tidy(m: Pairs) { forall k | k in m :: '\n' !in k && (m[k].Str? ==> '\n' !in m[k].s) }

  lemma TidyPair(m: Pairs, section: string, key: string, v: string)
    requires Tidy(m) && '\n' !in section && '\n' !in key && '\n' !in v
    ensures Tidy(m[section + ":" + key := Str(v)])
  {
  }

  /// Whatever the text is, neither a key nor a value with a newline is loaded.
  lemma {:induction false} LoadTidy(rest: string, last: string, section: string, m: Pairs, errs: bool)
    requires |last| <= ASCIILINESZ - 3 && '\n' !in last && '\n' !in section && Tidy(m)
    ensures var r := Load(rest, last, section, m, errs); r.Loaded? ==> Tidy(r.pairs)
    decreases |rest|, 0
  {
    hide ReadLine, TrimEnd, ChunkLen, AtEof, Tidy, LoadAfter;
    if rest != [] {
      var room := ASCIILINESZ - |last|;
      var n := ChunkLen(rest, room);
      var line, more := last + rest[..n], rest[n..];
      BufferClean(rest, last, room);
      if |line| <= 1 {
        LoadTidy(more, last, section, m, errs);
      } else {
        var t := TrimEnd(line);
        if t != [] && t[|t| - 1] == '\\' {
          if line[|line| - 1] == '\n' || AtEof(rest, room) {
            ChunkRoom(rest, last, line, more, AtEof(rest, room));
            LoadTidy(more, t[..|t| - 1], section, m, errs);
          }
        } else {
          AfterTidy(t, more, section, m, errs);
        }
      }
    }
  }

  lemma {:induction false} AfterTidy(t: string, more: string, section: string, m: Pairs, errs: bool)
    requires '\n' !in t && '\n' !in section && Tidy(m)
    ensures var r := LoadAfter(ReadLine(t), more, section, m, errs); r.Loaded? ==> Tidy(r.pairs)
    decreases |more|, 1
  {
    LineMembers(t);
    hide ReadLine, Load;
    match ReadLine(t)
    case Empty => LoadTidy(more, [], section, m, errs);
    case Comment => LoadTidy(more, [], section, m, errs);
    case Section(s) => LoadTidy(more, [], s, m[s := Null], errs);
    case Pair(k, v) =>
      TidyPair(m, section, k, v);
      hide Tidy;
      LoadTidy(more, [], section, m[section + ":" + k := Str(v)], errs);
    case Error => LoadTidy(more, [], section, m, true);
  }

  // ---------------------------------------------------------------- one line of a dump

  /// After a line that was not understood nothing is loaded any more.
  lemma {:induction false} ErrsFail(rest: string, last: string, section: string, m: Pairs)
    requires |last| <= ASCIILINESZ - 3
    ensures Load(rest, last, section, m, true) == Failed
    decreases |rest|
  {
    hide ReadLine, TrimEnd, ChunkLen, AtEof;
    if rest != [] {
      var room := ASCIILINESZ - |last|;
      var n := ChunkLen(rest, room);
      var line, more := last + rest[..n], rest[n..];
      if |line| <= 1 {
        ErrsFail(more, last, section, m);
      } else {
        var t := TrimEnd(line);
        if t != [] && t[|t| - 1] == '\\' {
          if line[|line| - 1] == '\n' || AtEof(rest, room) {
            ChunkRoom(rest, last, line, more, AtEof(rest, room));
            ErrsFail(more, t[..|t| - 1], section, m);
          }
        } else {
          match ReadLine(t)
          case Empty => ErrsFail(more, [], section, m);
          case Comment => ErrsFail(more, [], section, m);
          case Section(s) => ErrsFail(more, [], s, m[s := Null]);
          case Pair(k, v) => ErrsFail(more, [], section, m[section + ":" + k := Str(v)]);
          case Error => ErrsFail(more, [], section, m);
        }
      }
    }
  }

  /// A line that does not fit the buffer.
  lemma TooLong(line: string, more: string, section: string, m: Pairs)
    requires '\n' !in line && |line| > ASCIILINESZ - 2
    ensures Load(line + "\n" + more, [], section, m, false) == Failed
  {
    var text := line + "\n" + more;
    assert text[..|line|] == line && text[|line|] == '\n';
    FindIs(text, '\n', |line|);
    hide ReadLine, TrimEnd, Find, LoadAfter;
    var b := [] + text[..ASCIILINESZ - 1];
    assert b[|b| - 1] == line[ASCIILINESZ - 2];
  }

  ghost predicate EndsLine(line: string) { line != [] && '\n' !in line && line[|line| - 1] in "]\"" }

  /// A line of a dump that is loaded fits the buffer and is understood.
  lemma LineStep(line: string, more: string, section: string, m: Pairs, M: Pairs)
    requires EndsLine(line) && Load(line + "\n" + more, [], section, m, false) == Loaded(M)
    ensures |line| <= ASCIILINESZ - 2 && !ReadLine(line).Error? && LoadAfter(ReadLine(line), more, section, m, false) == Loaded(M)
  {
    hide Load, ReadLine;
    if |line| > ASCIILINESZ - 2 {
      TooLong(line, more, section, m);
    } else {
      LoadLine(line, more, section, m, false);
      if ReadLine(line).Error? { ErrsFail(more, [], section, m); }
    }
  }

  /// The names that come out of a line.
  lemma ReadNames(input: string)
    ensures ReadLine(input).Pair? ==> Loadable(ReadLine(input).key)
  {
    var line := Strip(input);
    Stripped(input);
    hide Strip, Lower, ReadValue, Find, TrimStart, NoEndBlanks;
    var e := Find(line, '=');
    if ReadLine(input).Pair? {
      NameOfLine(line, e);
    }
  }

  lemma NameOfLine(line: string, e: nat)
    requires 0 < e < |line| && '=' !in line[..e] && NoEndBlanks(line) && line[0] != '#' && line[0] != ';'
    ensures Loadable(Lower(Strip(line[..e])))
  {
    var s := line[..e];
    EqualsGone(s);
    Stripped(s);
    LowerTwice(Strip(s));
    FirstKept(s);
  }

  lemma FirstKept(s: string)
    requires s != [] && !Space(s[0])
    ensures Strip(s) != [] && Strip(s)[0] == s[0]
  {
    StartTrimmed(s);
    EndKept(s, 0);
    EndTrimmed(s);
  }

  lemma {:induction false} EndKept(s: string, i: nat)
    requires i < |s| && !Space(s[i])
    ensures i < |TrimEnd(s)|
    decreases |s|
  {
    if Space(s[|s| - 1]) { EndKept(s[..|s| - 1], i); }
  }

  // ---------------------------------------------------------------- a dictionary with sections

  /// What can stand in a loaded map: sections, and pairs of loaded sections.
  ghost predicate NamedAt(m: Pairs, k: string)
    requires k in m
  {
    if ':' !in k then m[k] == Null && NoEndBlanks(k) && Lower(k) == k && |k| <= ASCIILINESZ - 4
    else m[k].Str? && SectionName(k) in m && Loadable(k[Find(k, ':') + 1..])
  }

  ghost predicate Named(m: Pairs) { forall k | k in m :: NamedAt(m, k) }

  lemma AddSection(m: Pairs, s: string)
    requires Named(m) && ':' !in s && NoEndBlanks(s) && Lower(s) == s && |s| <= ASCIILINESZ - 4
    ensures Named(m[s := Null])
  {
    hide Loadable, Lower, NoEndBlanks, SectionName, Find;
    var m' := m[s := Null];
    forall k | k in m'
      ensures NamedAt(m', k)
    {
      if k in m { assert NamedAt(m, k); }
    }
  }

  lemma AddPair(m: Pairs, s: string, name: string, v: string)
    requires Named(m) && s in m && ':' !in s && Loadable(name)
    ensures Named(m[s + ":" + name := Str(v)]) && s in m[s + ":" + name := Str(v)]
  {
    var p := s + ":" + name;
    assert s + ":" <= p && p[|s|] == ':';
    SectionOf(p, s);
    assert p[|s| + 1..] == name;
    hide Loadable, Lower, NoEndBlanks, Find;
    var m' := m[p := Str(v)];
    forall k | k in m'
      ensures NamedAt(m', k)
    {
      if k in m { assert NamedAt(m, k); }
    }
  }

  /// No newline is printed.
  ghost predicate Clean(ks: Slots, vs: Slots)
    requires |ks| == |vs|
  {
    forall i | 0 <= i < |ks| && ks[i].Str? :: '\n' !in ks[i].s && (vs[i].Str? ==> '\n' !in vs[i].s)
  }

  ghost predicate Fits(name: string, v: Text) { v.Str? && |PairText(name, Escape(v.s))| <= ASCIILINESZ - 2 }

  lemma PairEnds(name: string, v: string)
    requires '\n' !in name && '\n' !in v
    ensures EndsLine(PairText(name, Escape(v))) && !ReadLine(PairText(name, Escape(v))).Section?
  {
    EscapeBounds(v);
    PadMembers(name);
    TextParts(name, v);
    TextMembers(Pad(name), Escape(v));
    hide Escape, Pad;
    EndsQuoted(PairText(name, Escape(v)));
  }

  lemma EndsQuoted(t: string)
    requires t != [] && t[|t| - 1] == '"'
    ensures !ReadLine(t).Section?
  {
    StartTrimmed(t);
    EndTrimmed(TrimStart(t));
    EndKept(t, |t| - 1);
    StartKept(t, |t| - 1);
    hide TrimEnd, Lower, ReadValue, Find, TrimStart;
    assert Strip(t)[|Strip(t)| - 1] == '"';
  }

  lemma {:induction false} StartKept(s: string, i: nat)
    requires i < |s| && !Space(s[i])
    ensures |TrimStart(s)| >= |s| - i
    decreases |s|
  {
    if Space(s[0]) { StartKept(s[1..], i - 1); }
  }

  /// The line of one pair.
  lemma KeyWalk(name: string, v: string, more: string, cur: string, m: Pairs, M: Pairs) returns (m': Pairs)
    requires '\n' !in name && '\n' !in v && Named(m) && cur in m && ':' !in cur
    requires Load(PairText(name, Escape(v)) + "\n" + more, [], cur, m, false) == Loaded(M)
    ensures Load(more, [], cur, m', false) == Loaded(M) && Named(m') && cur in m' && Fits(name, Str(v))
  {
    hide Load, ReadLine, PairText, Escape, Named, EndsLine;
    var line := PairText(name, Escape(v));
    PairEnds(name, v);
    LineStep(line, more, cur, m, M);
    ReadNames(line);
    match ReadLine(line)
    case Empty => m' := m;
    case Comment => m' := m;
    case Pair(k, u) =>
      AddPair(m, cur, k, u);
      m' := m[cur + ":" + k := Str(u)];
  }

  lemma PairIs(ks: Slots, vs: Slots, s: string, j: nat)
    requires j < |ks| == |vs| && Complete(ks, vs) && Clean(ks, vs) && ':' !in s && InSection(ks[j], s)
    ensures vs[j].Str? && '\n' !in vs[j].s && '\n' !in ks[j].s[|s| + 1..]
  {
    NameOf(ks[j], s);
    assert CompleteAt(ks, vs, j);
    assert forall c | c in ks[j].s[|s| + 1..] :: c in ks[j].s;
  }

  /// The lines of one section.
  lemma {:induction false} KeysWalk(ks: Slots, vs: Slots, s: string, j: nat, e: string, more: string, cur: string, m: Pairs, M: Pairs) returns (m': Pairs)
    requires j <= |ks| == |vs| && Complete(ks, vs) && Clean(ks, vs) && ':' !in s && Named(m) && cur in m && ':' !in cur
    requires Load(KeyLines(ks, vs, s, j, e) + more, [], cur, m, false) == Loaded(M)
    ensures Load(more, [], cur, m', false) == Loaded(M) && Named(m') && cur in m'
    ensures forall i | j <= i < |ks| && InSection(ks[i], s) :: Fits(ks[i].s[|s| + 1..], vs[i])
    decreases |ks| - j
  {
    hide Load, Complete, Clean, PairText, Escape, Named, Fits;
    if j == |ks| {
      assert KeyLines(ks, vs, s, j, e) + more == more;
      m' := m;
    } else if InSection(ks[j], s) {
      PairIs(ks, vs, s, j);
      var tail := KeyLines(ks, vs, s, j + 1, Escaped(vs[j], e));
      var t := PairText(ks[j].s[|s| + 1..], Escape(vs[j].s));
      assert KeyLines(ks, vs, s, j, e) + more == t + "\n" + (tail + more);
      var m1 := KeyWalk(ks[j].s[|s| + 1..], vs[j].s, tail + more, cur, m, M);
      m' := KeysWalk(ks, vs, s, j + 1, Escaped(vs[j], e), more, cur, m1, M);
    } else {
      m' := KeysWalk(ks, vs, s, j + 1, e, more, cur, m, M);
    }
  }

  /// All pairs of the section fit their lines.
  ghost predicate SectionFits(ks: Slots, vs: Slots, s: string)
    requires |ks| == |vs|
  {
    Shown(ks, s) ==> forall i | 0 <= i < |ks| && InSection(ks[i], s) :: Fits(ks[i].s[|s| + 1..], vs[i])
  }

  /// The heading of a section.
  lemma HeadingWalk(s: string, more: string, section: string, m: Pairs, M: Pairs) returns (cur: string)
    requires ':' !in s && '\n' !in s && Named(m)
    requires Load("\n" + (("[" + s + "]") + "\n" + more), [], section, m, false) == Loaded(M)
    ensures Load(more, [], cur, m[cur := Null], false) == Loaded(M) && Named(m[cur := Null]) && ':' !in cur
  {
    hide Load, ReadLine, Lower, NoEndBlanks, Strip, Named;
    var line := "[" + s + "]";
    cur := Lower(Strip(s));
    LoadBlank(line + "\n" + more, section, m, false);
    LineStep(line, more, section, m, M);
    SectionLine(s);
    Stripped(s);
    LowerTwice(Strip(s));
    LowerColon(Strip(s));
    AddSection(m, cur);
  }

  /// One section with its lines.
  lemma SectionWalk(ks: Slots, vs: Slots, s: string, more: string, section: string, m: Pairs, M: Pairs) returns (section': string, m': Pairs)
    requires |ks| == |vs| && Complete(ks, vs) && Clean(ks, vs) && ':' !in s && '\n' !in s && Named(m)
    requires Load(SectionText(ks, vs, s) + more, [], section, m, false) == Loaded(M)
    ensures Load(more, [], section', m', false) == Loaded(M) && Named(m') && SectionFits(ks, vs, s)
  {
    hide Load, Complete, Clean, Named, KeyLines, Fits, InSection;
    if Shown(ks, s) {
      SectionTextIs(ks, vs, s, more);
      hide SectionText, Shown;
      section' := HeadingWalk(s, KeyLines(ks, vs, s, 0, []) + ("\n" + more), section, m, M);
      m' := KeysWalk(ks, vs, s, 0, [], "\n" + more, section', m[section' := Null], M);
      LoadBlank(more, section', m', false);
    } else {
      assert SectionText(ks, vs, s) + more == more;
      section', m' := section, m;
    }
  }

  lemma {:induction false} SectionsWalk(ks: Slots, vs: Slots, j: nat, more: string, section: string, m: Pairs, M: Pairs) returns (section': string, m': Pairs)
    requires j <= |ks| == |vs| && Complete(ks, vs) && Clean(ks, vs) && Named(m)
    requires Load(SectionTexts(ks, vs, j) + more, [], section, m, false) == Loaded(M)
    ensures Load(more, [], section', m', false) == Loaded(M) && Named(m')
    ensures forall i | j <= i < |ks| && IsSection(ks[i]) :: SectionFits(ks, vs, ks[i].s)
    decreases |ks| - j
  {
    hide Load, Complete, Named, SectionText, SectionFits;
    if j == |ks| {
      assert SectionTexts(ks, vs, j) + more == more;
      section', m' := section, m;
    } else if IsSection(ks[j]) {
      var tail := SectionTexts(ks, vs, j + 1);
      assert SectionTexts(ks, vs, j) + more == SectionText(ks, vs, ks[j].s) + (tail + more);
      var section1, m1 := SectionWalk(ks, vs, ks[j].s, tail + more, section, m, M);
      section', m' := SectionsWalk(ks, vs, j + 1, more, section1, m1, M);
    } else {
      section', m' := SectionsWalk(ks, vs, j + 1, more, section, m, M);
    }
  }

  /// A dump that was loaded, read from the result.
  lemma DumpWalk(ks: Slots, vs: Slots, M: Pairs)
    requires |ks| == |vs| && SomeSection(ks) && Complete(ks, vs) && Clean(ks, vs) && LoadText(DumpText(ks, vs)) == Loaded(M)
    ensures Named(M) && forall i | 0 <= i < |ks| && IsSection(ks[i]) :: SectionFits(ks, vs, ks[i].s)
  {
    hide Complete, Clean, SomeSection, SectionTexts, SectionFits, Load;
    var section, m := SectionsWalk(ks, vs, 0, "\n", [], map[], M);
    assert "\n" == "\n" + [];
    LoadBlank([], section, m, false);
    LoadEnd(section, m);
  }

  lemma CleanSlots(ks: Slots, vs: Slots)
    requires |ks| == |vs| && KeysDiffer(ks) && Tidy(Contents(ks, vs))
    ensures Clean(ks, vs)
  {
    forall i | 0 <= i < |ks| && ks[i].Str?
      ensures '\n' !in ks[i].s && (vs[i].Str? ==> '\n' !in vs[i].s)
    {
      SlotOf(ks, vs, i);
      hide Contents;
    }
  }

  lemma LoadedClean(text: string, ks: Slots, vs: Slots)
    requires |ks| == |vs| && KeysDiffer(ks) && LoadText(text) == Loaded(Contents(ks, vs))
    ensures Clean(ks, vs)
  {
    LoadTidy(text, [], [], map[], false);
    hide Load, Contents, KeysDiffer, Tidy;
    CleanSlots(ks, vs);
  }

  lemma SectionBack(ks: Slots, vs: Slots, i: nat)
    requires i < |ks| == |vs| && KeysDiffer(ks) && Clean(ks, vs) && Named(Contents(ks, vs)) && IsSection(ks[i])
    ensures DumpableAt(ks, vs, i)
  {
    SlotOf(ks, vs, i);
    hide Contents, KeysDiffer, Lower, NoEndBlanks, Find;
    assert NamedAt(Contents(ks, vs), ks[i].s);
  }

  lemma PairBack(ks: Slots, vs: Slots, i: nat)
    requires i < |ks| == |vs| && KeysDiffer(ks) && Clean(ks, vs) && Named(Contents(ks, vs)) && ks[i].Str? && !IsSection(ks[i])
    requires forall j | 0 <= j < |ks| && IsSection(ks[j]) :: SectionFits(ks, vs, ks[j].s)
    ensures DumpableAt(ks, vs, i)
  {
    var k, s := ks[i].s, SectionName(ks[i].s);
    ColonSplit(k);
    SlotOf(ks, vs, i);
    ContentsKeys(ks, vs, s);
    hide Contents, KeysDiffer, NoEndBlanks, Find, Loadable, Fits, PairText;
    assert NamedAt(Contents(ks, vs), k) && NamedAt(Contents(ks, vs), s);
    var j := Index(ks, s);
    assert SectionFits(ks, vs, ks[j].s) && Shown(ks, s) && InSection(ks[i], s);
    assert Fits(k[|s| + 1..], vs[i]);
    FitsIs(k[|s| + 1..], vs[i]);
  }

  lemma FitsIs(name: string, v: Text)
    requires Fits(name, v)
    ensures v.Str? && |PairText(name, Escape(v.s))| <= ASCIILINESZ - 2
  {
  }

  /// A complete dictionary comes back exactly if each of its lines can be read.
  lemma CompleteExactly(ks: Slots, vs: Slots)
    requires |ks| == |vs| && KeysDiffer(ks) && SomeSection(ks) && Complete(ks, vs)
    ensures LoadText(DumpText(ks, vs)) == Loaded(Contents(ks, vs)) <==> Dumpable(ks, vs)
  {
    hide KeysDiffer, DumpText, LoadText, Contents, Complete, SomeSection, Clean, Named, SectionFits, DumpableAt;
    if LoadText(DumpText(ks, vs)) == Loaded(Contents(ks, vs)) {
      LoadedClean(DumpText(ks, vs), ks, vs);
      DumpWalk(ks, vs, Contents(ks, vs));
      forall i: nat | i < |ks| && ks[i].Str?
        ensures DumpableAt(ks, vs, i)
      {
        if IsSection(ks[i]) { SectionBack(ks, vs, i); } else { PairBack(ks, vs, i); }
      }
    }
    if Dumpable(ks, vs) { hide Dumpable; DumpLoads(ks, vs); }
  }

  lemma PrintedComplete(ks: Slots, vs: Slots)
    requires |ks| == |vs|
    ensures Complete(PrintedKeys(ks), PrintedValues(ks, vs))
    ensures SomeSection(ks) ==> SomeSection(PrintedKeys(ks))
  {
    var js, us := PrintedKeys(ks), PrintedValues(ks, vs);
    forall i | 0 <= i < |js| && js[i].Str?
      ensures CompleteAt(js, us, i)
    {
      if IsPair(js[i]) {
        ColonSplit(js[i].s);
        SectionsPrinted(ks, SectionName(js[i].s));
      }
    }
    if i :| 0 <= i < |ks| && IsSection(ks[i]) {
      KeptSlot(ks, i);
      assert IsSection(js[i]);
    }
  }

  lemma {:induction false} LastClean(ks: Slots, vs: Slots, s: string, j: nat)
    requires j <= |ks| == |vs| && Clean(ks, vs)
    ensures '\n' !in LastValue(ks, vs, s, j)
    decreases j
  {
    if j > 0 { LastClean(ks, vs, s, j - 1); }
  }

  lemma PrintedClean(ks: Slots, vs: Slots)
    requires |ks| == |vs| && Clean(ks, vs)
    ensures Clean(PrintedKeys(ks), PrintedValues(ks, vs))
  {
    forall i | 0 <= i < |ks| && PrintedKeys(ks)[i].Str?
      ensures PrintedValues(ks, vs)[i].Str? ==> '\n' !in PrintedValues(ks, vs)[i].s
    {
      if IsPair(ks[i]) { LastClean(ks, vs, SectionName(ks[i].s), i); }
      hide LastValue;
    }
  }

  /// What is printed is what is loaded, exactly if each line can be read.
  lemma PrintedExactly(ks: Slots, vs: Slots)
    requires |ks| == |vs| && KeysDiffer(ks) && SomeSection(ks)
    ensures LoadText(DumpText(ks, vs)) == Loaded(Contents(PrintedKeys(ks), PrintedValues(ks, vs))) <==> Dumpable(PrintedKeys(ks), PrintedValues(ks, vs))
  {
    SameDump(ks, vs);
    PrintedDiffer(ks);
    PrintedComplete(ks, vs);
    hide DumpText, LoadText, Contents, Dumpable, KeysDiffer, Complete, SomeSection;
    CompleteExactly(PrintedKeys(ks), PrintedValues(ks, vs));
  }

  /// A dictionary with sections that comes back is complete.
  lemma BackComplete(ks: Slots, vs: Slots)
    requires |ks| == |vs| && KeysDiffer(ks) && SomeSection(ks) && LoadText(DumpText(ks, vs)) == Loaded(Contents(ks, vs))
    ensures Complete(ks, vs)
  {
    hide DumpText, LoadText, KeysDiffer, SomeSection, Clean, Contents, SectionFits;
    LoadedClean(DumpText(ks, vs), ks, vs);
    PrintedClean(ks, vs);
    PrintedComplete(ks, vs);
    SameDump(ks, vs);
    DumpWalk(PrintedKeys(ks), PrintedValues(ks, vs), Contents(ks, vs));
    forall i | 0 <= i < |ks| && ks[i].Str?
      ensures CompleteAt(ks, vs, i)
    {
      SlotOf(ks, vs, i);
      assert NamedAt(Contents(ks, vs), ks[i].s);
      ContentsKeys(ks, vs, SectionName(ks[i].s));
    }
  }

  lemma SectionsExactly(ks: Slots, vs: Slots)
    requires |ks| == |vs| && KeysDiffer(ks) && SomeSection(ks)
    ensures LoadText(DumpText(ks, vs)) == Loaded(Contents(ks, vs)) <==> Dumpable(PrintedKeys(ks), PrintedValues(ks, vs)) && Complete(ks, vs)
  {
    hide DumpText, LoadText, Contents, Dumpable, KeysDiffer, Complete, SomeSection;
    PrintedExactly(ks, vs);
    if LoadText(DumpText(ks, vs)) == Loaded(Contents(ks, vs)) { BackComplete(ks, vs); }
    if Complete(ks, vs) { CompleteSame(ks, vs); }
  }

  // ---------------------------------------------------------------- a dictionary without sections

  /// The number of colons in front.
  ghost function Lead(k: string): (n: nat)
    ensures n <= |k| && forall i | 0 <= i < n :: k[i] == ':'
  {
    if k == [] || k[0] != ':' then 0 else 1 + Lead(k[1..])
  }

  lemma {:induction false} LeadAtLeast(k: string, n: nat)
    requires n <= |k| && forall i | 0 <= i < n :: k[i] == ':'
    ensures Lead(k) >= n
  {
    if n > 0 { LeadAtLeast(k[1..], n - 1); }
  }

  lemma LeadKept(t: string, n: nat)
    requires 0 < n <= |t| && forall i | 0 <= i < n :: t[i] == ':'
    ensures Lead(Lower(Strip(t))) >= n
  {
    StartTrimmed(t);
    EndTrimmed(t);
    EndKept(t, n - 1);
    hide TrimStart, TrimEnd;
    LeadAtLeast(Lower(Strip(t)), n);
  }

  /// Reading a line does not take colons away from the front of a name.
  lemma LeadRead(key: string, e: string)
    ensures var l := ReadLine(PlainText(key, e)); l.Pair? ==> Lead(l.key) >= Lead(key)
  {
    var t, n := PlainText(key, e), Lead(key);
    Parts(key, e);
    if n > 0 && ReadLine(t).Pair? {
      assert forall i | 0 <= i < n :: t[i] == t[..|key|][i] == ':';
      StripFixed(t);
      var f := Find(t, '=');
      hide Lower, Strip, ReadValue, TrimStart, PlainText;
      assert forall i | 0 <= i < n :: t[i] != '=';
      LeadKept(t[..f], n);
    }
  }

  lemma PlainEnds(key: string, v: string)
    requires '\n' !in key && '\n' !in v
    ensures EndsLine(PlainText(key, Escape(v))) && !ReadLine(PlainText(key, Escape(v))).Section?
  {
    EscapeBounds(v);
    TextMembers(key, Escape(v));
    Parts(key, Escape(v));
    hide Escape;
    EndsQuoted(PlainText(key, Escape(v)));
  }

  /// What is loaded under the empty section, from keys with n or more colons in front.
  ghost predicate PlainNamed(m: Pairs, n: nat) {
    forall k | k in m :: k != [] && k[0] == ':' && Loadable(k[1..]) && Lead(k[1..]) >= n
  }

  lemma PlainAdd(m: Pairs, n: nat, key: string, v: string)
    requires PlainNamed(m, n) && Loadable(key) && Lead(key) >= n
    ensures PlainNamed(m[[] + ":" + key := Str(v)], n)
  {
    assert ([] + ":" + key)[1..] == key;
    hide Loadable, Lead;
  }

  ghost predicate PlainFits(key: string, v: string) { |PlainText(key, Escape(v))| <= ASCIILINESZ - 2 }

  lemma PlainKeyWalk(key: string, v: string, more: string, n: nat, m: Pairs, M: Pairs) returns (m': Pairs)
    requires '\n' !in key && '\n' !in v && PlainNamed(m, n) && Lead(key) >= n
    requires Load(PlainText(key, Escape(v)) + "\n" + more, [], [], m, false) == Loaded(M)
    ensures Load(more, [], [], m', false) == Loaded(M) && PlainNamed(m', n) && PlainFits(key, v)
  {
    hide Load, ReadLine, PlainText, Escape, PlainNamed, EndsLine, Lead;
    var line := PlainText(key, Escape(v));
    PlainEnds(key, v);
    LineStep(line, more, [], m, M);
    ReadNames(line);
    LeadRead(key, Escape(v));
    match ReadLine(line)
    case Empty => m' := m;
    case Comment => m' := m;
    case Pair(k, u) =>
      PlainAdd(m, n, k, u);
      m' := m[[] + ":" + k := Str(u)];
  }

  /// Keys and printed values have no newline.
  ghost predicate PlainClean(ks: Slots, vs: Slots)
    requires |ks| == |vs|
  {
    forall i: nat | i < |ks| && ks[i].Str? :: '\n' !in ks[i].s && '\n' !in PlainValue(ks, vs, i)
  }

  lemma {:induction false} PlainWalk(ks: Slots, vs: Slots, j: nat, n: nat, m: Pairs, M: Pairs) returns (m': Pairs)
    requires j <= |ks| == |vs| && PlainClean(ks, vs) && PlainNamed(m, n) && forall i | 0 <= i < |ks| && ks[i].Str? :: Lead(ks[i].s) >= n
    requires Load(PlainLines(ks, vs, j, Escape(LastPlain(ks, vs, j))), [], [], m, false) == Loaded(M)
    ensures M == m' && PlainNamed(m', n)
    ensures forall i: nat | j <= i < |ks| && ks[i].Str? :: PlainFits(ks[i].s, PlainValue(ks, vs, i))
    decreases |ks| - j
  {
    hide Load, Escape, PlainText, PlainLines, LastPlain, PlainValue, PlainNamed, PlainFits, Lead;
    if j == |ks| {
      PlainEnd(ks, vs, Escape(LastPlain(ks, vs, j)), m);
      m' := m;
    } else {
      LinesStep(ks, vs, j);
      var m1 := m;
      if ks[j].Str? {
        m1 := PlainKeyWalk(ks[j].s, PlainValue(ks, vs, j), PlainLines(ks, vs, j + 1, Escape(LastPlain(ks, vs, j + 1))), n, m, M);
      }
      m' := PlainWalk(ks, vs, j + 1, n, m1, M);
    }
  }

  /// A dump without sections that was loaded, read from the result.
  lemma PlainDumpWalk(ks: Slots, vs: Slots, n: nat, M: Pairs)
    requires |ks| == |vs| && !SomeSection(ks) && PlainClean(ks, vs) && LoadText(DumpText(ks, vs)) == Loaded(M)
    requires forall i | 0 <= i < |ks| && ks[i].Str? :: Lead(ks[i].s) >= n
    ensures PlainNamed(M, n)
    ensures forall i: nat | i < |ks| && ks[i].Str? :: PlainFits(ks[i].s, PlainValue(ks, vs, i))
  {
    hide Load, PlainLines, Escape, PlainFits, PlainClean, LastPlain, Lead, SomeSection;
    NothingBefore(ks, vs);
    var m := PlainWalk(ks, vs, 0, n, map[], M);
  }

  /// What is loaded from a dump without sections, exactly if each line can be read.
  lemma PlainExactly(ks: Slots, vs: Slots)
    requires |ks| == |vs| && KeysDiffer(ks) && !SomeSection(ks)
    ensures LoadText(DumpText(ks, vs)) == Loaded(Contents(PlainKeys(ks), PlainValues(ks, vs))) <==> PlainDumpable(ks, vs)
  {
    hide KeysDiffer, LoadText, DumpText, Contents, SomeSection, PlainValue, Clean;
    var js, us := PlainKeys(ks), PlainValues(ks, vs);
    if LoadText(DumpText(ks, vs)) == Loaded(Contents(js, us)) {
      PlainDiffer(ks);
      LoadedClean(DumpText(ks, vs), js, us);
      PlainIsClean(ks, vs);
      PlainDumpWalk(ks, vs, 0, Contents(js, us));
      forall i: nat | i < |ks| && ks[i].Str?
        ensures PlainAt(ks[i].s, PlainValue(ks, vs, i))
      {
        SlotOf(js, us, i);
        assert js[i].s[1..] == ks[i].s;
        assert PlainFits(ks[i].s, PlainValue(ks, vs, i));
      }
    }
    if PlainDumpable(ks, vs) { hide PlainDumpable; PlainDumpLoads(ks, vs); }
  }

  lemma PlainIsClean(ks: Slots, vs: Slots)
    requires |ks| == |vs| && Clean(PlainKeys(ks), PlainValues(ks, vs))
    ensures PlainClean(ks, vs)
  {
    hide PlainValue;
    var js, us := PlainKeys(ks), PlainValues(ks, vs);
    forall i: nat | i < |ks| && ks[i].Str?
      ensures '\n' !in ks[i].s && '\n' !in PlainValue(ks, vs, i)
    {
      assert js[i].Str? && us[i].Str?;
      assert js[i].s[1..] == ks[i].s;
      assert forall c | c in ks[i].s :: c in js[i].s;
    }
  }

  lemma {:induction false} LastPlainClean(ks: Slots, vs: Slots, j: nat)
    requires j <= |ks| == |vs| && Clean(ks, vs)
    ensures '\n' !in LastPlain(ks, vs, j)
    decreases j
  {
    if j > 0 { LastPlainClean(ks, vs, j - 1); }
  }

  lemma {:induction false} Fewest(ks: Slots, n: nat) returns (i: nat)
    requires n <= |ks| && exists j :: 0 <= j < n && ks[j].Str?
    ensures i < n && ks[i].Str? && forall j | 0 <= j < n && ks[j].Str? :: Lead(ks[j].s) >= Lead(ks[i].s)
    decreases n
  {
    hide Lead;
    if j :| 0 <= j < n - 1 && ks[j].Str? {
      i := Fewest(ks, n - 1);
      if ks[n - 1].Str? && Lead(ks[n - 1].s) < Lead(ks[i].s) { i := n - 1; }
    } else {
      i := n - 1;
    }
  }

  /// Without sections every key is loaded with a colon more, so the one with the fewest colons does not come back.
  lemma PlainBack(ks: Slots, vs: Slots)
    requires |ks| == |vs| && KeysDiffer(ks) && !SomeSection(ks) && LoadText(DumpText(ks, vs)) == Loaded(Contents(ks, vs))
    ensures forall i | 0 <= i < |ks| :: ks[i] == Null
  {
    hide KeysDiffer, LoadText, DumpText, Contents, SomeSection, LastPlain, Loadable;
    LoadedClean(DumpText(ks, vs), ks, vs);
    forall i: nat | i < |ks| && ks[i].Str?
      ensures '\n' !in PlainValue(ks, vs, i)
    {
      LastPlainClean(ks, vs, i);
    }
    if j :| 0 <= j < |ks| && ks[j].Str? {
      var i := Fewest(ks, |ks|);
      PlainDumpWalk(ks, vs, Lead(ks[i].s), Contents(ks, vs));
      SlotOf(ks, vs, i);
      assert false;
    }
  }

  // ---------------------------------------------------------------- every dictionary

  /// For every dictionary, whatever its keys and values: loading its dump gives the pairs that are printed
  /// if and only if each printed line can be read; and it gives the dictionary itself if and only if,
  /// besides, sections have no value, pairs have one, and their sections are there.
  lemma DumpLoadsBack(ks: Slots, vs: Slots)
    requires |ks| == |vs| && KeysDiffer(ks)
    ensures LoadText(DumpText(ks, vs)) == Loaded(LoadedPairs(ks, vs)) <==> Readable(ks, vs)
    ensures LoadText(DumpText(ks, vs)) == Loaded(Contents(ks, vs)) <==> Readable(ks, vs) && Complete(ks, vs)
  {
    hide DumpText, LoadText, Contents, Dumpable, PlainDumpable, KeysDiffer, Complete, SomeSection;
    if SomeSection(ks) {
      PrintedExactly(ks, vs);
      SectionsExactly(ks, vs);
    } else {
      PlainExactly(ks, vs);
      PlainLost(ks, vs);
      NoneComplete(ks, vs);
      if LoadText(DumpText(ks, vs)) == Loaded(Contents(ks, vs)) { PlainBack(ks, vs); NoneReadable(ks, vs); }
    }
  }

  lemma NoneReadable(ks: Slots, vs: Slots)
    requires |ks| == |vs| && forall i | 0 <= i < |ks| :: ks[i] == Null
    ensures PlainDumpable(ks, vs)
  {
  }

  lemma TwoSlots(ks: Slots, vs: Slots)
    requires ks == [Str("s"), Str("s:a")] && vs == [Null, Str("x\ny")]
    ensures KeysDiffer(ks) && Complete(ks, vs) && !Readable(ks, vs)
  {
    assert |ks[0].s| != |ks[1].s|;
    assert ks[0] in ks && IsSection(ks[0]);
    NameOf(ks[1], "s");
    hide Loadable, PairText, SectionName, Find;
    assert CompleteAt(ks, vs, 0) && CompleteAt(ks, vs, 1);
    assert PrintedKeys(ks)[1] == ks[1] && PrintedValues(ks, vs)[1] == vs[1];
    assert vs[1].s[1] == '\n';
    assert !DumpableAt(PrintedKeys(ks), PrintedValues(ks, vs), 1);
  }

  /// In section s the key a has a value of two lines: it does not come back.
  lemma NewlineLost()
    ensures var ks, vs := [Str("s"), Str("s:a")], [Null, Str("x\ny")];
            KeysDiffer(ks) && Complete(ks, vs) && LoadText(DumpText(ks, vs)) != Loaded(Contents(ks, vs))
  {
    hide *;
    var ks, vs := [Str("s"), Str("s:a")], [Null, Str("x\ny")];
    TwoSlots(ks, vs);
    DumpLoadsBack(ks, vs);
  }
}
