/// What a dump prints for any dictionary with sections: a NULL value as the value before it in the
/// section, no value of a section, and no pair without its section.
module IniPrinted {
  import opened Dictionary
  import opened IniText
  import opened IniFile

  ghost predicate IsPair(k: Text) { k.Str? && ':' in k.s }

  /// The name of the section that a pair belongs to.
  ghost function SectionName(k: string): string { k[..Find(k, ':')] }

  ghost predicate Orphan(ks: Slots, k: Text) { IsPair(k) && !HasKey(ks, SectionName(k.s)) }

  /// The value printed last in section s before slot j.
  ghost function LastValue(ks: Slots, vs: Slots, s: string, j: nat): string
    requires j <= |ks| == |vs|
  {
    if j == 0 then [] else if InSection(ks[j - 1], s) && vs[j - 1].Str? then vs[j - 1].s else LastValue(ks, vs, s, j - 1)
  }

  /// The keys that are printed.
  ghost function PrintedKeys(ks: Slots): (r: Slots)
    ensures |r| == |ks| && forall i | 0 <= i < |ks| :: r[i] == if Orphan(ks, ks[i]) then Null else ks[i]
  {
    seq(|ks|, i requires 0 <= i < |ks| => if Orphan(ks, ks[i]) then Null else ks[i])
  }

  ghost function PrintedValue(ks: Slots, vs: Slots, i: nat): Text
    requires i < |ks| == |vs|
  {
    if !IsPair(ks[i]) then Null
    else if vs[i].Str? then vs[i]
    else Str(LastValue(ks, vs, SectionName(ks[i].s), i))
  }

  /// The values that are printed.
  ghost function PrintedValues(ks: Slots, vs: Slots): (r: Slots)
    requires |ks| == |vs|
    ensures |r| == |ks| && forall i | 0 <= i < |ks| :: r[i] == PrintedValue(ks, vs, i)
  {
    seq(|ks|, i requires 0 <= i < |ks| => PrintedValue(ks, vs, i))
  }

  lemma NameOf(k: Text, s: string)
    requires ':' !in s && InSection(k, s)
    ensures IsPair(k) && SectionName(k.s) == s
  {
    assert k.s[|s|] == ':';
    SectionOf(k.s, s);
  }

  lemma SectionsPrinted(ks: Slots, s: string)
    requires ':' !in s
    ensures HasKey(PrintedKeys(ks), s) <==> HasKey(ks, s)
  {
    var r := PrintedKeys(ks);
    if HasKey(ks, s) {
      assert r[Index(ks, s)] == Str(s);
    }
    if HasKey(r, s) {
      assert ks[Index(r, s)] == Str(s);
    }
  }

  /// The lines of a section are those of what is printed.
  lemma {:induction false} SameLines(ks: Slots, vs: Slots, s: string, j: nat)
    requires j <= |ks| == |vs| && ':' !in s && HasKey(ks, s)
    ensures var e := Escape(LastValue(ks, vs, s, j));
            KeyLines(ks, vs, s, j, e) == KeyLines(PrintedKeys(ks), PrintedValues(ks, vs), s, j, e)
    decreases |ks| - j
  {
    hide Escape, PairText, SectionName, IsPair;
    if j < |ks| {
      SameLines(ks, vs, s, j + 1);
      if InSection(ks[j], s) {
        NameOf(ks[j], s);
      }
    }
  }

  lemma LowerColon(s: string)
    requires ':' !in s
    ensures ':' !in Lower(s)
  {
    assert forall i | 0 <= i < |s| :: s[i] in s && Lower(s)[i] != ':';
  }

  lemma SameSection(ks: Slots, vs: Slots, s: string)
    requires |ks| == |vs| && ':' !in s && HasKey(ks, s)
    ensures SectionText(ks, vs, s) == SectionText(PrintedKeys(ks), PrintedValues(ks, vs), s)
  {
    LowerColon(Cut(s));
    SectionsPrinted(ks, Lower(Cut(s)));
    SameLines(ks, vs, s, 0);
    assert Escape([]) == [];
    hide KeyLines, HasKey, Lower, Cut;
  }

  lemma {:induction false} SameSections(ks: Slots, vs: Slots, j: nat)
    requires j <= |ks| == |vs|
    ensures SectionTexts(ks, vs, j) == SectionTexts(PrintedKeys(ks), PrintedValues(ks, vs), j)
    decreases |ks| - j
  {
    hide SectionText, Orphan;
    if j < |ks| {
      SameSections(ks, vs, j + 1);
      KeptSlot(ks, j);
      if IsSection(ks[j]) {
        assert ks[j] in ks;
        SameSection(ks, vs, ks[j].s);
      }
    }
  }

  lemma KeptSlot(ks: Slots, j: nat)
    requires j < |ks|
    ensures IsSection(PrintedKeys(ks)[j]) <==> IsSection(ks[j])
    ensures IsSection(ks[j]) ==> PrintedKeys(ks)[j] == ks[j]
  {
  }

  /// The dump of a dictionary with sections is that of what is printed.
  lemma SameDump(ks: Slots, vs: Slots)
    requires |ks| == |vs| && SomeSection(ks)
    ensures DumpText(ks, vs) == DumpText(PrintedKeys(ks), PrintedValues(ks, vs))
  {
    SameSections(ks, vs, 0);
    var i :| 0 <= i < |ks| && IsSection(ks[i]);
    KeptSlot(ks, i);
    hide SectionTexts, IsSection;
    assert IsSection(PrintedKeys(ks)[i]);
  }

  /// The result of loading a dump, whatever the values are, when what is printed can be read.
  lemma DumpLoadsPrinted(ks: Slots, vs: Slots)
    requires |ks| == |vs| && KeysDiffer(ks) && SomeSection(ks) && Dumpable(PrintedKeys(ks), PrintedValues(ks, vs))
    ensures LoadText(DumpText(ks, vs)) == Loaded(Contents(PrintedKeys(ks), PrintedValues(ks, vs)))
  {
    SameDump(ks, vs);
    hide DumpText, LoadText, Contents, Dumpable;
    DumpLoads(PrintedKeys(ks), PrintedValues(ks, vs));
  }

  /// Sections have no value, pairs have one, and their section is there.
  ghost predicate Complete(ks: Slots, vs: Slots)
    requires |ks| == |vs|
  {
    forall i | 0 <= i < |ks| && ks[i].Str? :: CompleteAt(ks, vs, i)
  }

  ghost predicate CompleteAt(ks: Slots, vs: Slots, i: int)
    requires 0 <= i < |ks| == |vs|
  {
    if IsPair(ks[i]) then vs[i].Str? && !Orphan(ks, ks[i]) else vs[i] == Null
  }

  lemma PrintedDiffer(ks: Slots)
    requires KeysDiffer(ks)
    ensures KeysDiffer(PrintedKeys(ks))
  {
  }

  /// Contents depend on the slots in use only.
  lemma SameContents(ks: Slots, vs: Slots, us: Slots)
    requires |ks| == |vs| == |us| && KeysDiffer(ks) && forall i | 0 <= i < |ks| && ks[i].Str? :: us[i] == vs[i]
    ensures Contents(ks, us) == Contents(ks, vs)
  {
    forall k
      ensures k in Contents(ks, us) <==> HasKey(ks, k)
      ensures k in Contents(ks, vs) <==> HasKey(ks, k)
      ensures k in Contents(ks, us) && k in Contents(ks, vs) ==> Contents(ks, us)[k] == Contents(ks, vs)[k]
    {
      ContentsKeys(ks, us, k);
      ContentsKeys(ks, vs, k);
    }
  }

  /// A complete dictionary is printed as it is.
  lemma CompleteSame(ks: Slots, vs: Slots)
    requires |ks| == |vs| && KeysDiffer(ks) && Complete(ks, vs)
    ensures PrintedKeys(ks) == ks && Contents(PrintedKeys(ks), PrintedValues(ks, vs)) == Contents(ks, vs)
  {
    hide Contents, KeysDiffer;
    assert PrintedKeys(ks) == ks by { hide Orphan; AllKept(ks, vs); }
    forall i | 0 <= i < |ks| && ks[i].Str?
      ensures PrintedValues(ks, vs)[i] == vs[i]
    {
      assert CompleteAt(ks, vs, i);
    }
    SameContents(ks, vs, PrintedValues(ks, vs));
  }

  lemma AllKept(ks: Slots, vs: Slots)
    requires |ks| == |vs| && Complete(ks, vs)
    ensures PrintedKeys(ks) == ks
  {
    forall i | 0 <= i < |ks|
      ensures PrintedKeys(ks)[i] == ks[i]
    {
      if ks[i].Str? { assert CompleteAt(ks, vs, i); }
    }
  }

  // ---------------------------------------------------------------- an instance

  lemma PlainName(s: string)
    requires |s| == 1 && 'a' <= s[0] <= 'z'
    ensures Loadable(s) && ':' !in s && '\n' !in s && Lower(s) == s && NoEndBlanks(s)
  {
    assert Lower(s)[0] == s[0];
  }

  lemma ShortPair(name: string, v: string)
    requires |name| <= 30 && |v| <= 100
    ensures |PairText(name, Escape(v))| <= ASCIILINESZ - 2
  {
    EscapeBounds(v);
    PadIs(name);
    hide Escape, Pad;
  }

  lemma PairDumpable(ks: Slots, vs: Slots, i: nat, s: string, name: string)
    requires i < |ks| == |vs| && ks[i] == Str(s + ":" + name) && HasKey(ks, s) && ':' !in s && '\n' !in s && '\n' !in name && Loadable(name) && |name| <= 30
    requires vs[i].Str? && '\n' !in vs[i].s && |vs[i].s| <= 100
    ensures DumpableAt(ks, vs, i)
  {
    var k := s + ":" + name;
    assert s + ":" <= k && k[|s|] == ':';
    SectionOf(k, s);
    assert k[|s| + 1..] == name;
    ShortPair(name, vs[i].s);
    hide PairText, Escape, Loadable, Find, HasKey;
  }

  lemma ThreePrinted(ks: Slots, vs: Slots)
    requires ks == [Str("s"), Str("s:a"), Str("s:b")] && vs == [Null, Str("1"), Null]
    ensures SomeSection(ks) && PrintedKeys(ks) == ks && PrintedValues(ks, vs) == [Null, Str("1"), Str("1")]
  {
    assert ks[0] in ks && IsSection(ks[0]);
    NameOf(ks[1], "s");
    NameOf(ks[2], "s");
    assert LastValue(ks, vs, "s", 2) == "1";
    hide Find, LastValue, SectionName;
    assert PrintedKeys(ks) == ks;
    assert PrintedValues(ks, vs) == [Null, Str("1"), Str("1")];
  }

  lemma SectionDumpable(ks: Slots, us: Slots, i: nat)
    requires i < |ks| == |us| && ks[i].Str? && us[i] == Null && |ks[i].s| == 1 && 'a' <= ks[i].s[0] <= 'z'
    ensures DumpableAt(ks, us, i)
  {
    PlainName(ks[i].s);
    hide Lower, NoEndBlanks, Loadable, PairText, Find;
  }

  lemma ThreeDumpable(ks: Slots, us: Slots)
    requires ks == [Str("s"), Str("s:a"), Str("s:b")] && us == [Null, Str("1"), Str("1")]
    ensures Dumpable(ks, us)
  {
    assert ks[0] in ks;
    SectionDumpable(ks, us, 0);
    OnePairDumpable(ks, us, 1, "s", "a");
    OnePairDumpable(ks, us, 2, "s", "b");
    hide PairText, Escape, Loadable, Find, Lower, NoEndBlanks, DumpableAt;
  }

  lemma OnePairDumpable(ks: Slots, us: Slots, i: nat, s: string, name: string)
    requires i < |ks| == |us| && |s| == |name| == 1 && 'a' <= s[0] <= 'z' && 'a' <= name[0] <= 'z'
    requires HasKey(ks, s) && us[i] == Str("1") && ks[i].Str? && ks[i].s == [s[0], ':', name[0]]
    ensures DumpableAt(ks, us, i)
  {
    PlainName(s);
    PlainName(name);
    hide PairText, Escape, Loadable, Find, Lower, NoEndBlanks, DumpableAt, HasKey;
    assert ks[i].s == s + ":" + name;
    PairDumpable(ks, us, i, s, name);
  }

  lemma ThreeDiffer(ks: Slots)
    requires ks == [Str("s"), Str("s:a"), Str("s:b")]
    ensures KeysDiffer(ks)
  {
    assert |"s"| != |"s:a"| && "s:a"[2] != "s:b"[2];
  }

  /// In section s the key a has the value 1 and b has none: b comes back with the value 1.
  lemma NullRepeats()
    ensures var ks, vs := [Str("s"), Str("s:a"), Str("s:b")], [Null, Str("1"), Null];
            var m := map["s" := Null, "s:a" := Str("1"), "s:b" := Str("1")];
            LoadText(DumpText(ks, vs)) == Loaded(m) && Contents(ks, vs) == m["s:b" := Null]
  {
    hide *;
    var ks, vs, us := [Str("s"), Str("s:a"), Str("s:b")], [Null, Str("1"), Null], [Null, Str("1"), Str("1")];
    ThreePrinted(ks, vs);
    ThreeDumpable(ks, us);
    ThreeDiffer(ks);
    DumpLoadsPrinted(ks, vs);
    ThreePairs(ks, us);
    ThreePairs(ks, vs);
  }

  lemma ThreePairs(ks: Slots, vs: Slots)
    requires |vs| == 3 && ks == [Str("s"), Str("s:a"), Str("s:b")]
    ensures Contents(ks, vs) == map["s" := vs[0], "s:a" := vs[1], "s:b" := vs[2]]
  {
    assert "s" != "s:a" && "s" != "s:b" && "s:a"[2] != "s:b"[2];
    SlotOf(ks, vs, 0);
    SlotOf(ks, vs, 1);
    SlotOf(ks, vs, 2);
    var m := map["s" := vs[0], "s:a" := vs[1], "s:b" := vs[2]];
    forall k | k in Contents(ks, vs)
      ensures k in m
    {
      ContentsKeys(ks, vs, k);
    }
    assert m == Contents(ks, vs);
  }
}
