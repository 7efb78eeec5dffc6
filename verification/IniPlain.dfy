/// A dictionary without sections is printed key by key. Its pairs are loaded under other keys,
/// so that with what IniPrinted says every dump that can be read is accounted for.
module IniPlain {
  import opened Dictionary
  import opened IniText
  import opened IniFile
  import opened IniPrinted

  ghost function PlainText(key: string, escaped: string): string { key + " = \"" + escaped + "\"" }

  /// The value printed last before slot j.
  ghost function LastPlain(ks: Slots, vs: Slots, j: nat): string
    requires j <= |ks| == |vs|
  {
    if j == 0 then [] else if ks[j - 1].Str? && vs[j - 1].Str? then vs[j - 1].s else LastPlain(ks, vs, j - 1)
  }

  ghost function PlainValue(ks: Slots, vs: Slots, i: nat): string
    requires i < |ks| == |vs|
  {
    if vs[i].Str? then vs[i].s else LastPlain(ks, vs, i)
  }

  /// The keys that are loaded: the section is the empty one.
  ghost function PlainKeys(ks: Slots): (r: Slots)
    ensures |r| == |ks| && forall i | 0 <= i < |ks| :: r[i] == if ks[i].Str? then Str(":" + ks[i].s) else Null
  {
    seq(|ks|, i requires 0 <= i < |ks| => if ks[i].Str? then Str(":" + ks[i].s) else Null)
  }

  ghost function PlainValues(ks: Slots, vs: Slots): (r: Slots)
    requires |ks| == |vs|
    ensures |r| == |ks| && forall i | 0 <= i < |ks| :: r[i] == Str(PlainValue(ks, vs, i))
  {
    seq(|ks|, i requires 0 <= i < |ks| => Str(PlainValue(ks, vs, i)))
  }

  ghost predicate PlainAt(key: string, v: string) {
    Loadable(key) && '\n' !in key && '\n' !in v && |PlainText(key, Escape(v))| <= ASCIILINESZ - 2
  }

  /// What is printed can be read.
  ghost predicate PlainDumpable(ks: Slots, vs: Slots)
    requires |ks| == |vs|
  {
    forall i: nat | i < |ks| && ks[i].Str? :: PlainAt(ks[i].s, PlainValue(ks, vs, i))
  }

  // ---------------------------------------------------------------- one line

  lemma PlainLine(key: string, v: string)
    requires Loadable(key)
    ensures ReadLine(PlainText(key, Escape(v))) == Pair(key, v)
  {
    hide Escape, ReadLine, ReadValue;
    Parts(key, Escape(v));
    BlankBehind(key);
    OneBlankMore(key);
    ReadParts(PlainText(key, Escape(v)), key + " ", " \"" + Escape(v) + "\"");
    QuotedRight(v);
  }

  lemma OneBlankMore(key: string)
    requires '=' !in key
    ensures '=' !in key + " "
  {
  }

  lemma BlankBehind(key: string)
    requires NoEndBlanks(key) && key != []
    ensures Strip(key + " ") == key
  {
    assert Spaces(1) == " " by { assert Spaces(0) == []; }
    StartTrimmed(key + " ");
    TrimSpaces(key, 1);
    EndTrimmed(key);
  }

  lemma PlainLineWhole(key: string, v: string)
    requires PlainAt(key, v)
    ensures WholeLine(PlainText(key, Escape(v)))
  {
    EscapeBounds(v);
    TextMembers(key, Escape(v));
    Parts(key, Escape(v));
    hide Escape;
  }

  lemma PlainLoads(key: string, v: string, more: string, m: Pairs)
    requires PlainAt(key, v)
    ensures Load(PlainText(key, Escape(v)) + "\n" + more, [], [], m, false) == Load(more, [], [], m[":" + key := Str(v)], false)
  {
    hide Load, ReadLine, PlainText, Escape, Loadable, WholeLine;
    PlainLineWhole(key, v);
    PlainLine(key, v);
    LoadLine(PlainText(key, Escape(v)), more, [], m, false);
    assert [] + ":" + key == ":" + key;
  }

  // ---------------------------------------------------------------- all lines

  lemma LinesStep(ks: Slots, vs: Slots, j: nat)
    requires j < |ks| == |vs|
    ensures var e := Escape(LastPlain(ks, vs, j));
            var e' := Escape(LastPlain(ks, vs, j + 1));
            PlainLines(ks, vs, j, e) ==
            if ks[j].Str? then PlainText(ks[j].s, Escape(PlainValue(ks, vs, j))) + "\n" + PlainLines(ks, vs, j + 1, e')
            else PlainLines(ks, vs, j + 1, e')
  {
    hide Escape;
    var e := Escape(LastPlain(ks, vs, j));
    if ks[j].Str? {
      var t := Escape(PlainValue(ks, vs, j));
      assert Escaped(vs[j], e) == t;
      assert ks[j].s + " = \"" + t + "\"\n" == ks[j].s + " = \"" + t + "\"" + "\n";
    }
  }

  lemma PlainDiffer(ks: Slots)
    requires KeysDiffer(ks)
    ensures KeysDiffer(PlainKeys(ks))
  {
    var r := PlainKeys(ks);
    forall i, j | 0 <= i < j < |r| && r[i].Str? && r[j].Str?
      ensures r[i] != r[j]
    {
      assert r[i].s[1..] == ks[i].s && r[j].s[1..] == ks[j].s;
    }
  }

  lemma {:induction false} PlainLinesLoad(ks: Slots, vs: Slots, j: nat, m: Pairs) returns (m': Pairs)
    requires j <= |ks| == |vs| && KeysDiffer(ks) && PlainDumpable(ks, vs) && Agrees(m, Contents(PlainKeys(ks), PlainValues(ks, vs)))
    ensures Load(PlainLines(ks, vs, j, Escape(LastPlain(ks, vs, j))), [], [], m, false) == Loaded(m')
    ensures Agrees(m', Contents(PlainKeys(ks), PlainValues(ks, vs))) && m.Keys <= m'.Keys
    ensures forall i | j <= i < |ks| && ks[i].Str? :: ":" + ks[i].s in m'
    decreases |ks| - j
  {
    hide KeysDiffer, Contents, Load, Escape, PlainText, PlainLines, LastPlain, PlainValue, PlainAt;
    if j == |ks| {
      PlainEnd(ks, vs, Escape(LastPlain(ks, vs, j)), m);
      m' := m;
    } else {
      LinesStep(ks, vs, j);
      if ks[j].Str? {
        var v := PlainValue(ks, vs, j);
        PlainLoads(ks[j].s, v, PlainLines(ks, vs, j + 1, Escape(LastPlain(ks, vs, j + 1))), m);
        PlainDiffer(ks);
        SlotOf(PlainKeys(ks), PlainValues(ks, vs), j);
        m' := PlainLinesLoad(ks, vs, j + 1, m[":" + ks[j].s := Str(v)]);
      } else {
        m' := PlainLinesLoad(ks, vs, j + 1, m);
      }
    }
  }

  lemma PlainEnd(ks: Slots, vs: Slots, e: string, m: Pairs)
    requires |ks| == |vs|
    ensures Load(PlainLines(ks, vs, |ks|, e), [], [], m, false) == Loaded(m)
  {
  }

  lemma NothingBefore(ks: Slots, vs: Slots)
    requires |ks| == |vs|
    ensures Escape(LastPlain(ks, vs, 0)) == []
  {
  }

  lemma AllPlain(ks: Slots, vs: Slots, m: Pairs)
    requires |ks| == |vs| && Agrees(m, Contents(PlainKeys(ks), PlainValues(ks, vs)))
    requires forall i | 0 <= i < |ks| && ks[i].Str? :: ":" + ks[i].s in m
    ensures m == Contents(PlainKeys(ks), PlainValues(ks, vs))
  {
    hide Contents;
    var C := Contents(PlainKeys(ks), PlainValues(ks, vs));
    forall k | k in C
      ensures k in m
    {
      ContentsKeys(PlainKeys(ks), PlainValues(ks, vs), k);
      var a := Index(PlainKeys(ks), k);
      assert k == ":" + ks[a].s;
    }
    assert m == C;
  }

  /// The result of loading the dump of a dictionary without sections.
  lemma PlainDumpLoads(ks: Slots, vs: Slots)
    requires |ks| == |vs| && KeysDiffer(ks) && !SomeSection(ks) && PlainDumpable(ks, vs)
    ensures LoadText(DumpText(ks, vs)) == Loaded(Contents(PlainKeys(ks), PlainValues(ks, vs)))
  {
    hide KeysDiffer, Load, Contents, PlainLines, Escape, PlainDumpable, SomeSection, LastPlain;
    NothingBefore(ks, vs);
    var m := PlainLinesLoad(ks, vs, 0, map[]);
    AllPlain(ks, vs, m);
  }

  lemma {:induction false} Longest(ks: Slots, n: nat) returns (i: nat)
    requires n <= |ks| && exists j :: 0 <= j < n && ks[j].Str?
    ensures i < n && ks[i].Str? && forall j | 0 <= j < n && ks[j].Str? :: |ks[j].s| <= |ks[i].s|
    decreases n
  {
    if j :| 0 <= j < n - 1 && ks[j].Str? {
      i := Longest(ks, n - 1);
      if ks[n - 1].Str? && |ks[n - 1].s| > |ks[i].s| { i := n - 1; }
    } else {
      i := n - 1;
    }
  }

  /// Only an empty dictionary comes back without sections: the longest key is loaded as a longer one.
  lemma PlainLost(ks: Slots, vs: Slots)
    requires |ks| == |vs| && KeysDiffer(ks)
    ensures Contents(PlainKeys(ks), PlainValues(ks, vs)) == Contents(ks, vs) <==> forall i | 0 <= i < |ks| :: ks[i] == Null
  {
    if j :| 0 <= j < |ks| && ks[j].Str? {
      var i := Longest(ks, |ks|);
      PlainDiffer(ks);
      SlotOf(PlainKeys(ks), PlainValues(ks, vs), i);
      var k := ":" + ks[i].s;
      ContentsKeys(ks, vs, k);
      assert forall a | 0 <= a < |ks| :: ks[a] != Str(k);
    } else {
      forall k
        ensures k !in Contents(ks, vs) && k !in Contents(PlainKeys(ks), PlainValues(ks, vs))
      {
        ContentsKeys(ks, vs, k);
        ContentsKeys(PlainKeys(ks), PlainValues(ks, vs), k);
      }
    }
  }

  // ---------------------------------------------------------------- every dictionary

  /// What is printed can be read.
  ghost predicate Readable(ks: Slots, vs: Slots)
    requires |ks| == |vs|
  {
    if SomeSection(ks) then Dumpable(PrintedKeys(ks), PrintedValues(ks, vs)) else PlainDumpable(ks, vs)
  }

  ghost function LoadedPairs(ks: Slots, vs: Slots): Pairs
    requires |ks| == |vs|
  {
    if SomeSection(ks) then Contents(PrintedKeys(ks), PrintedValues(ks, vs)) else Contents(PlainKeys(ks), PlainValues(ks, vs))
  }

  lemma NoneComplete(ks: Slots, vs: Slots)
    requires |ks| == |vs| && !SomeSection(ks)
    ensures Complete(ks, vs) <==> forall i | 0 <= i < |ks| :: ks[i] == Null
  {
    forall i | 0 <= i < |ks| && ks[i].Str?
      ensures !CompleteAt(ks, vs, i)
    {
      assert !IsSection(ks[i]);
      if HasKey(ks, SectionName(ks[i].s)) { SectionThere(ks, ks[i].s); }
    }
  }
}
