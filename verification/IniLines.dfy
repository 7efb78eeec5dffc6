/// What a line of any ini file means, by what stands in it: names, values with and without quotes,
/// comments, blanks, and lines that are not understood.
module IniLines {
  import opened Dictionary
  import opened IniText
  import opened IniFile
  import opened IniExact

  // ---------------------------------------------------------------- letters and blanks

  lemma LetterCases(c: char)
    ensures 'A' <= c <= 'Z' ==> 'a' <= LowerChar(c) <= 'z' && LowerChar(c) as int - 'a' as int == c as int - 'A' as int
    ensures !('A' <= c <= 'Z') ==> LowerChar(c) == c
  {
  }

  /// A string of blanks, tabs and line ends.
  ghost predicate Blank(s: string) { forall c | c in s :: c in " \t\n\U{B}\U{C}\r" }

  lemma BlankIsSpace(s: string)
    ensures Blank(s) <==> forall i | 0 <= i < |s| :: Space(s[i])
  {
    if Blank(s) {
      assert forall i | 0 <= i < |s| :: s[i] in s;
    }
  }

  lemma {:induction false} StartCut(a: string, b: string)
    requires b == [] || !Space(b[0])
    ensures TrimStart(a) != [] || b != [] ==> TrimStart(a + b) == TrimStart(a) + b
    ensures b == [] ==> TrimStart(a + b) == TrimStart(a)
    decreases |a|
  {
    if a != [] && Space(a[0]) {
      StartCut(a[1..], b);
      assert (a + b)[1..] == a[1..] + b;
    } else if a == [] {
      assert a + b == b;
    }
    assert b == [] ==> a + b == a;
  }

  lemma {:induction false} EndCut(a: string, b: string)
    requires a == [] || !Space(a[|a| - 1])
    ensures TrimEnd(a + b) == a + TrimEnd(b)
    decreases |b|
  {
    if b != [] && Space(b[|b| - 1]) {
      EndCut(a, b[..|b| - 1]);
      assert (a + b)[..|a + b| - 1] == a + b[..|b| - 1];
    } else if b != [] {
      assert (a + b)[|a + b| - 1] == b[|b| - 1];
    } else {
      assert a + b == a;
    }
  }

  lemma {:induction false} BlankGone(s: string)
    requires Blank(s)
    ensures TrimStart(s) == [] && TrimEnd(s) == []
    decreases |s|
  {
    if s != [] {
      BlankIsSpace(s);
      assert forall c | c in s[1..] :: c in s;
      assert forall c | c in s[..|s| - 1] :: c in s;
      BlankGone(s[1..]);
      BlankGone(s[..|s| - 1]);
    }
  }

  /// strstrip takes away exactly the blanks around.
  lemma StripOuter(a: string, s: string, b: string)
    requires Blank(a) && Blank(b) && NoEndBlanks(s)
    ensures Strip(a + s + b) == s
  {
    BlankGone(a);
    BlankGone(b);
    if s == [] {
      assert forall c | c in a + s + b :: c in a || c in b;
      BlankGone(a + s + b);
    } else {
      StartCut(a, s + b);
      assert a + s + b == a + (s + b) && [] + (s + b) == s + b;
      EndCut(s, b);
    }
  }

  // ---------------------------------------------------------------- lines without a pair

  /// The first character that is not a blank.
  ghost predicate Begins(line: string, cs: string) {
    var t := TrimStart(line);
    t != [] && t[0] in cs
  }

  lemma EmptyLine(line: string)
    requires Blank(line)
    ensures ReadLine(line) == Empty
  {
    BlankGone(line);
  }

  lemma FirstStays(line: string)
    requires TrimStart(line) != []
    ensures Strip(line) != [] && Strip(line)[0] == TrimStart(line)[0]
  {
    StartTrimmed(line);
    EndKept(TrimStart(line), 0);
    EndTrimmed(TrimStart(line));
  }

  lemma CommentLine(line: string)
    requires Begins(line, "#;")
    ensures ReadLine(line) == Comment
  {
    FirstStays(line);
    hide Strip, Find, ReadValue, Lower;
  }

  /// A heading, with blanks anywhere around the name and the brackets.
  lemma HeadingLine(a: string, s: string, b: string)
    requires Blank(a) && Blank(b)
    ensures ReadLine(a + ("[" + s + "]") + b) == Section(Lower(Strip(s)))
  {
    StripOuter(a, "[" + s + "]", b);
    InBrackets(s);
    StripFixed("[" + s + "]");
    hide Strip, Find, ReadValue, Lower;
  }

  /// Anything else without an equals sign, or without a name before it, is not understood.
  lemma BadLine(line: string)
    requires TrimStart(line) != [] && TrimStart(line)[0] !in "#;[" && ('=' !in line || TrimStart(line)[0] == '=')
    ensures ReadLine(line) == Error
  {
    FirstStays(line);
    Stripped(line);
    var t := Strip(line);
    hide Strip, ReadValue, Lower, TrimStart;
    if t[0] == '=' {
      FindIs(t, '=', 0);
    } else {
      assert t[..|t|] == t;
      FindIs(t, '=', |t|);
    }
  }

  // ---------------------------------------------------------------- pairs

  /// What can stand before the equals sign: a name, with blanks around it, that does not begin like a comment.
  ghost predicate Names(left: string) { '=' !in left && TrimStart(left) != [] && TrimStart(left)[0] !in "#;" }

  /// All the same the line is a heading, from its first bracket to its last.
  ghost predicate Bracketed(left: string, right: string) {
    var r := TrimEnd(right);
    TrimStart(left) != [] && TrimStart(left)[0] == '[' && r != [] && r[|r| - 1] == ']'
  }

  lemma NamesStrip(left: string)
    requires Names(left)
    ensures Strip(TrimStart(left)) == Strip(left) && '=' !in TrimStart(left)
  {
    StartTrimmed(left);
    StartTrimmed(TrimStart(left));
  }

  lemma StripSplit(left: string, right: string)
    requires Names(left)
    ensures Strip(left + "=" + right) == TrimStart(left) + "=" + TrimEnd(right)
  {
    var l, e := TrimStart(left), "=" + right;
    assert left + "=" + right == left + e && l + e == (l + "=") + right;
    StartCut(left, e);
    EndCut(l + "=", right);
    hide TrimStart, TrimEnd;
  }

  lemma LastOf(a: string, r: string)
    requires a != []
    ensures (a + r)[|a + r| - 1] == if r == [] then a[|a| - 1] else r[|r| - 1]
  {
  }

  lemma EqualsAt(l: string, r: string)
    requires '=' !in l && l != []
    ensures var t := l + "=" + r; Find(t, '=') == |l| && t[..|l|] == l && t[|l| + 1..] == r && t[0] == l[0]
  {
    var t := l + "=" + r;
    assert t[..|l|] == l && t[|l| + 1..] == r;
    FindIs(t, '=', |l|);
    hide Find;
  }

  lemma ReadSplit(line: string, l: string, r: string)
    requires Strip(line) == l + "=" + r && '=' !in l && l != [] && l[0] !in "#;"
    requires l[0] != '[' || r == [] || r[|r| - 1] != ']'
    ensures ReadLine(line) == Pair(Lower(Strip(l)), ReadValue(TrimStart(r)))
  {
    hide Strip, Find, ReadValue, Lower, TrimStart;
    EqualsAt(l, r);
    LastOf(l + "=", r);
    OtherLine(l[0]);
  }

  lemma OtherLine(c: char)
    ensures c !in "#;" ==> c != '#' && c != ';'
  {
  }

  /// A pair, by what is left and right of the first equals sign.
  lemma SplitLine(left: string, right: string)
    requires Names(left) && !Bracketed(left, right)
    ensures ReadLine(left + "=" + right) == Pair(Lower(Strip(left)), ReadValue(TrimStart(TrimEnd(right))))
  {
    StripSplit(left, right);
    NamesStrip(left);
    ReadSplit(left + "=" + right, TrimStart(left), TrimEnd(right));
  }

  lemma BracketedLine(left: string, right: string)
    requires Names(left) && Bracketed(left, right)
    ensures ReadLine(left + "=" + right).Section?
  {
    StripSplit(left, right);
    var l, r := TrimStart(left), TrimEnd(right);
    var line := left + "=" + right;
    assert Strip(line)[0] == l[0] && Strip(line)[|Strip(line)| - 1] == r[|r| - 1];
    hide Strip, Find, ReadValue, Lower, TrimStart;
  }

  lemma {:induction false} UpToAppend(v: string, b: string)
    requires ';' !in v && '#' !in v
    ensures UpToComment(v + b) == v + UpToComment(b)
    decreases |v|
  {
    if v != [] {
      UpToAppend(v[1..], b);
      assert (v + b)[1..] == v[1..] + b;
      assert v[0] in v;
    } else {
      assert v + b == b;
    }
  }

  /// What may follow a value: blanks, and perhaps a comment.
  ghost predicate Tail(tail: string) { TrimStart(tail) == [] || Begins(tail, ";#") }

  lemma StartSplit(s: string) returns (a: string)
    ensures Blank(a) && s == a + TrimStart(s)
  {
    StartTrimmed(s);
    a := s[..|s| - |TrimStart(s)|];
    BlankPrefix(s);
  }

  lemma {:induction false} BlankPrefix(s: string)
    ensures Blank(s[..|s| - |TrimStart(s)|])
    decreases |s|
  {
    if s != [] && Space(s[0]) {
      BlankPrefix(s[1..]);
      var k := |s| - |TrimStart(s)|;
      assert s[..k] == [s[0]] + s[1..][..k - 1];
    }
  }

  lemma SignKept(tail: string) returns (a: string)
    requires Begins(tail, ";#")
    ensures Blank(a) && ';' !in a && '#' !in a && TrimEnd(tail) == a + ([TrimStart(tail)[0]] + TrimEnd(TrimStart(tail)[1..]))
  {
    a := StartSplit(tail);
    var t := TrimStart(tail);
    hide TrimStart, TrimEnd;
    assert tail == (a + [t[0]]) + t[1..];
    EndCut(a + [t[0]], t[1..]);
  }

  /// Of a tail no more than blanks is read.
  lemma TailRead(tail: string)
    requires Tail(tail)
    ensures Blank(UpToComment(TrimEnd(tail)))
  {
    hide TrimStart, TrimEnd, Blank;
    if TrimStart(tail) == [] {
      var a := StartSplit(tail);
      assert tail == a;
      BlankGone(a);
      assert Blank([]) by { BlankIsSpace([]); }
    } else {
      var a := SignKept(tail);
      var s := [TrimStart(tail)[0]] + TrimEnd(TrimStart(tail)[1..]);
      UpToAppend(a, s);
      assert UpToComment(s) == [] && a + [] == a;
    }
  }

  /// A value without quotes: no comment sign in it, no blanks around it.
  ghost predicate Bare(v: string) { ';' !in v && '#' !in v && NoEndBlanks(v) && (v != [] ==> v[0] != '"' && v[0] != '\'') }

  lemma BareRead(v: string, tail: string)
    requires Bare(v) && v != [] && Tail(tail)
    ensures ReadValue(v + TrimEnd(tail)) == v
  {
    hide Strip, UpToComment, TrimEnd, Tail, Blank;
    var e := TrimEnd(tail);
    TailRead(tail);
    UpToAppend(v, e);
    BlankEnd(v, UpToComment(e));
    assert (v + e)[0] == v[0];
  }

  lemma BlankEnd(v: string, b: string)
    requires Blank(b) && NoEndBlanks(v)
    ensures Strip(v + b) == v
  {
    StripOuter([], v, b);
    assert [] + v + b == v + b;
  }

  lemma RightSide(gap: string, v: string, tail: string)
    requires Blank(gap) && v != [] && NoEndBlanks(v)
    ensures TrimStart(TrimEnd(gap + v + tail)) == v + TrimEnd(tail)
  {
    BlankGone(gap);
    EndCut(gap + v, tail);
    assert (gap + v)[|gap + v| - 1] == v[|v| - 1];
    StartCut(gap, v + TrimEnd(tail));
    assert (gap + v) + TrimEnd(tail) == gap + (v + TrimEnd(tail));
    assert [] + (v + TrimEnd(tail)) == v + TrimEnd(tail);
  }

  /// A value without quotes is what stands between the blanks behind the equals sign and the blanks
  /// and the comment after it, unless the whole line is in brackets.
  lemma BareLine(left: string, gap: string, v: string, tail: string)
    requires Names(left) && Blank(gap) && Bare(v) && v != [] && Tail(tail)
    ensures ReadLine(left + "=" + (gap + v + tail)) == Pair(Lower(Strip(left)), v) <==> !Bracketed(left, gap + v + tail)
  {
    var right := gap + v + tail;
    hide ReadLine, Names, Bracketed, Bare, Tail, Lower, Strip;
    if Bracketed(left, right) {
      BracketedLine(left, right);
    } else {
      SplitLine(left, right);
      BareSide(gap, v, tail);
    }
  }

  lemma BareSide(gap: string, v: string, tail: string)
    requires Blank(gap) && Bare(v) && v != [] && Tail(tail)
    ensures ReadValue(TrimStart(TrimEnd(gap + v + tail))) == v
  {
    RightSide(gap, v, tail);
    BareRead(v, tail);
  }

  /// No value, perhaps with a comment.
  lemma NoValueLine(left: string, tail: string)
    requires Names(left) && Tail(tail)
    ensures ReadLine(left + "=" + tail) == Pair(Lower(Strip(left)), "") <==> !Bracketed(left, tail)
  {
    hide ReadLine, Names, Bracketed, Tail, Lower, Strip;
    if Bracketed(left, tail) {
      BracketedLine(left, tail);
    } else {
      SplitLine(left, tail);
      NoValue(tail);
    }
  }

  lemma NoValue(tail: string)
    requires Tail(tail)
    ensures ReadValue(TrimStart(TrimEnd(tail))) == ""
  {
    StripFixed([]);
    if TrimStart(tail) == [] {
      var a := StartSplit(tail);
      assert tail == a;
      BlankGone(a);
    } else {
      var a := SignKept(tail);
      var s := [TrimStart(tail)[0]] + TrimEnd(TrimStart(tail)[1..]);
      BlankGone(a);
      StartCut(a, s);
      hide TrimStart, TrimEnd, Strip, Blank;
      assert [] + s == s && UpToComment(s) == [];
    }
  }

  lemma {:induction false} UnquotePlain(v: string, q: char, rest: string)
    requires q !in v && '\\' !in v && q != '\\'
    ensures Unquote(v + [q] + rest, q, false) == v
    decreases |v|
  {
    if v == [] {
      assert v + [q] + rest == [q] + rest;
    } else {
      UnquotePlain(v[1..], q, rest);
      assert v[0] in v && (v + [q] + rest)[1..] == v[1..] + [q] + rest;
    }
  }

  /// Inside quotes a backslash stands for the character behind it, whatever that is.
  lemma Backslash(c: char, quote: char, rest: string)
    requires quote != '\\'
    ensures Unquote(['\\', c] + rest, quote, false) == [c] + Unquote(rest, quote, false)
  {
    assert (['\\', c] + rest)[1..] == [c] + rest && ([c] + rest)[1..] == rest;
  }

  /// Escaping adds one character for each quote and each backslash, and nothing else.
  lemma {:induction false} EscapeLength(v: string)
    ensures |Escape(v)| == |v| + multiset(v)['"'] + multiset(v)['\\']
    decreases |v|
  {
    if v != [] {
      EscapeLength(v[1..]);
      assert v == [v[0]] + v[1..];
    }
  }

  lemma QuotedSide(gap: string, q: char, e: string, rest: string)
    requires Blank(gap) && !Space(q)
    ensures TrimStart(TrimEnd(gap + ([q] + e + [q]) + rest)) == [q] + (e + [q] + TrimEnd(rest))
  {
    RightSide(gap, [q] + e + [q], rest);
    assert ([q] + e + [q]) + TrimEnd(rest) == [q] + (e + [q] + TrimEnd(rest));
  }

  /// A value in double quotes is unescaped, blanks, comment signs and all; what follows the closing quote is not read.
  lemma DoubleQuoted(left: string, gap: string, v: string, rest: string)
    requires Names(left) && Blank(gap) && !Bracketed(left, gap + ("\"" + Escape(v) + "\"") + rest)
    ensures ReadLine(left + "=" + (gap + ("\"" + Escape(v) + "\"") + rest)) == Pair(Lower(Strip(left)), v)
  {
    hide Escape;
    SplitLine(left, gap + ("\"" + Escape(v) + "\"") + rest);
    QuotedSide(gap, '"', Escape(v), rest);
    var r := ['"'] + (Escape(v) + ['"'] + TrimEnd(rest));
    UnquoteUndoesEscape(v, TrimEnd(rest));
    hide Unquote, Strip, UpToComment, TrimEnd, TrimStart, ReadLine, Lower;
    assert r[1..] == Escape(v) + ['"'] + TrimEnd(rest) && r[0] == '"' && |r| >= 2;
  }

  /// A value in single quotes, without quotes or backslashes in it, is taken as it stands.
  lemma SingleQuoted(left: string, gap: string, v: string, rest: string)
    requires Names(left) && Blank(gap) && '\'' !in v && '\\' !in v && !Bracketed(left, gap + ("'" + v + "'") + rest)
    ensures ReadLine(left + "=" + (gap + ("'" + v + "'") + rest)) == Pair(Lower(Strip(left)), v)
  {
    SplitLine(left, gap + ("'" + v + "'") + rest);
    QuotedSide(gap, '\'', v, rest);
    var r := ['\''] + (v + ['\''] + TrimEnd(rest));
    UnquotePlain(v, '\'', TrimEnd(rest));
    hide Unquote, Strip, UpToComment, TrimEnd, TrimStart, ReadLine, Lower;
    assert r[1..] == v + ['\''] + TrimEnd(rest) && r[0] == '\'' && |r| >= 2;
  }

  // ---------------------------------------------------------------- lines of a file

  lemma ChunkIs(line: string, more: string, room: nat)
    requires '\n' !in line && |line| + 1 < room
    ensures var text := line + "\n" + more; var n := |line| + 1;
            ChunkLen(text, room) == n && text[..n] == line + "\n" && text[n..] == more
  {
    var text := line + "\n" + more;
    assert text[..|line|] == line && text[|line|] == '\n';
    FindIs(text, '\n', |line|);
    hide Find;
  }

  /// One turn of the loop, by what fgets reads and what is left of it without blanks at the end.
  lemma LoadTurn(rest: string, last: string, n: nat, line: string, t: string, more: string, section: string, m: Pairs, errs: bool)
    requires rest != [] && |last| <= ASCIILINESZ - 3 && n == ChunkLen(rest, ASCIILINESZ - |last|)
    requires line == last + rest[..n] && more == rest[n..] && |line| > 1 && t == TrimEnd(line) && t != [] && |t| <= ASCIILINESZ - 2
    requires line[|line| - 1] == '\n' || AtEof(rest, ASCIILINESZ - |last|)
    ensures Load(rest, last, section, m, errs) ==
            if t[|t| - 1] == '\\' then Load(more, t[..|t| - 1], section, m, errs) else LoadAfter(ReadLine(t), more, section, m, errs)
  {
    hide ReadLine, TrimEnd, ChunkLen, LoadAfter, AtEof;
  }

  lemma NewlineCut(t: string)
    requires t != [] && !Space(t[|t| - 1])
    ensures TrimEnd(t + "\n") == t
  {
    EndCut(t, "\n");
    assert TrimEnd("\n") == [] && t + [] == t;
  }

  /// What one line does that is complete with what is in the buffer.
  lemma LoadOne(last: string, line: string, more: string, section: string, m: Pairs, errs: bool)
    requires |last + line| <= ASCIILINESZ - 2 && |last| <= ASCIILINESZ - 3 && last + line != [] && '\n' !in line
    requires !Space((last + line)[|last + line| - 1])
    ensures var t := last + line;
            Load(line + "\n" + more, last, section, m, errs) ==
            if t[|t| - 1] == '\\' then Load(more, t[..|t| - 1], section, m, errs) else LoadAfter(ReadLine(t), more, section, m, errs)
  {
    hide Load, ReadLine, TrimEnd, ChunkLen, LoadAfter, Space, AtEof;
    var t := last + line;
    ChunkIs(line, more, ASCIILINESZ - |last|);
    NewlineCut(t);
    assert last + (line + "\n") == t + "\n";
    LoadTurn(line + "\n" + more, last, |line| + 1, t + "\n", t, more, section, m, errs);
  }

  /// The next line goes behind what is in the buffer.
  lemma LoadNext(last: string, line: string, more: string, section: string, m: Pairs, errs: bool)
    requires WholeLine(last + line) && |last| <= ASCIILINESZ - 3 && '\n' !in line
    ensures Load(line + "\n" + more, last, section, m, errs) == LoadAfter(ReadLine(last + line), more, section, m, errs)
  {
    LoadOne(last, line, more, section, m, errs);
    hide Load, LoadAfter, ReadLine, Space;
  }

  /// A line that ends in a backslash is continued by the next one.
  lemma JoinedLine(front: string, back: string, more: string, section: string, m: Pairs, errs: bool)
    requires WholeLine(front + back) && |front| <= ASCIILINESZ - 3 && '\n' !in front && '\n' !in back
    ensures Load(front + "\\\n" + (back + "\n" + more), [], section, m, errs) == LoadAfter(ReadLine(front + back), more, section, m, errs)
  {
    var rest := back + "\n" + more;
    BackslashKept(front, rest, section, m, errs);
    LoadNext(front, back, more, section, m, errs);
  }

  lemma BackslashKept(front: string, rest: string, section: string, m: Pairs, errs: bool)
    requires |front| <= ASCIILINESZ - 3 && '\n' !in front
    ensures Load(front + "\\\n" + rest, [], section, m, errs) == Load(rest, front, section, m, errs)
  {
    var t := front + "\\";
    LoadOne([], t, rest, section, m, errs);
    hide Load, LoadAfter, ReadLine;
    assert [] + t == t && t[..|t| - 1] == front;
    assert front + "\\\n" == t + "\n";
  }

  /// The last line needs no newline, unless it is a single character.
  lemma LastLine(line: string, section: string, m: Pairs, errs: bool)
    requires WholeLine(line)
    ensures Load(line, [], section, m, errs) == if |line| == 1 then Load([], [], section, m, errs) else LoadAfter(ReadLine(line), [], section, m, errs)
  {
    LastChunk(line);
    assert [] + line == line && line[|line|..] == [];
    if |line| > 1 {
      EndTrimmed(line);
      hide Load, ReadLine, TrimEnd, ChunkLen, LoadAfter, AtEof;
      LoadTurn(line, [], |line|, line, line, [], section, m, errs);
    } else {
      hide ReadLine, TrimEnd, ChunkLen, LoadAfter, AtEof;
    }
  }

  lemma LastChunk(line: string)
    requires '\n' !in line && |line| <= ASCIILINESZ - 2
    ensures ChunkLen(line, ASCIILINESZ) == |line| && AtEof(line, ASCIILINESZ) && line[..|line|] == line
  {
    assert line[..|line|] == line;
    FindIs(line, '\n', |line|);
    hide Find;
  }

  /// A line that does not fit the buffer makes the whole file fail.
  lemma TooLongLine(text: string, section: string, m: Pairs, errs: bool)
    requires |text| >= ASCIILINESZ - 1 && '\n' !in text[..ASCIILINESZ - 1]
    ensures Load(text, [], section, m, errs) == Failed
  {
    var n := ASCIILINESZ - 1;
    LongChunk(text);
    hide ReadLine, TrimEnd, ChunkLen, LoadAfter, AtEof;
    assert [] + text[..n] == text[..n];
    assert text[..n][n - 1] in text[..n];
  }

  lemma LongChunk(text: string)
    requires |text| >= ASCIILINESZ - 1 && '\n' !in text[..ASCIILINESZ - 1]
    ensures ChunkLen(text, ASCIILINESZ) == ASCIILINESZ - 1 && !AtEof(text, ASCIILINESZ)
  {
    assert forall k | 0 <= k < ASCIILINESZ - 1 :: text[k] == text[..ASCIILINESZ - 1][k];
    hide Find;
  }

  /// A comment or a blank line changes nothing and is no error.
  lemma LinePasses(line: string, more: string, section: string, m: Pairs, errs: bool)
    requires WholeLine(line) && Begins(line, "#;")
    ensures Load(line + "\n" + more, [], section, m, errs) == Load(more, [], section, m, errs)
  {
    hide Load, ReadLine, Begins;
    LoadLine(line, more, section, m, errs);
    CommentLine(line);
  }

  /// A line that is not understood makes the whole file fail.
  lemma LineFails(line: string, more: string, section: string, m: Pairs, errs: bool)
    requires WholeLine(line) && TrimStart(line) != [] && TrimStart(line)[0] !in "#;[" && ('=' !in line || TrimStart(line)[0] == '=')
    ensures Load(line + "\n" + more, [], section, m, errs) == Failed
  {
    hide Load, ReadLine;
    LoadLine(line, more, section, m, errs);
    BadLine(line);
    ErrsFail(more, [], section, m);
  }

  /// A pair is stored under the section that was read last.
  lemma LineStores(left: string, right: string, key: string, v: string, more: string, section: string, m: Pairs, errs: bool)
    requires WholeLine(left + "=" + right) && ReadLine(left + "=" + right) == Pair(key, v)
    ensures Load(left + "=" + right + "\n" + more, [], section, m, errs) == Load(more, [], section, m[section + ":" + key := Str(v)], errs)
  {
    hide Load, ReadLine;
    LoadLine(left + "=" + right, more, section, m, errs);
  }

  /// A heading starts a section and stores its name without a value.
  lemma LineOpens(s: string, more: string, section: string, m: Pairs, errs: bool)
    requires WholeLine("[" + s + "]")
    ensures var name := Lower(Strip(s)); Load("[" + s + "]" + "\n" + more, [], section, m, errs) == Load(more, [], name, m[name := Null], errs)
  {
    hide Load, ReadLine, Lower, Strip;
    LoadLine("[" + s + "]", more, section, m, errs);
    InBrackets(s);
  }

  /// So a line with a value without quotes stores that value, without the comment.
  lemma BareStored(left: string, gap: string, v: string, tail: string, more: string, section: string, m: Pairs, errs: bool)
    requires Names(left) && Blank(gap) && Bare(v) && v != [] && Tail(tail) && !Bracketed(left, gap + v + tail)
    requires WholeLine(left + "=" + (gap + v + tail))
    ensures Load(left + "=" + (gap + v + tail) + "\n" + more, [], section, m, errs)
      == Load(more, [], section, m[section + ":" + Lower(Strip(left)) := Str(v)], errs)
  {
    hide *;
    BareLine(left, gap, v, tail);
    LineStores(left, gap + v + tail, Lower(Strip(left)), v, more, section, m, errs);
  }

  // ---------------------------------------------------------------- the usual forms

  lemma NameSpaced(key: string, right: string)
    requires Loadable(key)
    ensures Names(key + " ") && Lower(Strip(key + " ")) == key
    ensures Bracketed(key + " ", right) <==> key[0] == '[' && TrimEnd(right) != [] && TrimEnd(right)[|TrimEnd(right)| - 1] == ']'
  {
    assert Blank(" ") && Blank([]);
    StripOuter([], key, " ");
    assert [] + key + " " == key + " ";
    StartTrimmed(key + " ");
    hide TrimStart, TrimEnd, Strip;
  }

  /// The usual form of a pair.
  lemma PlainPair(key: string, v: string)
    requires Loadable(key) && Bare(v) && v != []
    ensures ReadLine(key + " = " + v) == Pair(key, v) <==> !(key[0] == '[' && v[|v| - 1] == ']')
  {
    NameSpaced(key, " " + v + []);
    SmallTails();
    EndOfBare(v);
    BareLine(key + " ", " ", v, []);
    PairParts(key, v, []);
    hide *;
    assert key + " = " + v + [] == key + " = " + v;
  }

  lemma EndOfBare(v: string)
    requires Bare(v) && v != []
    ensures TrimEnd(" " + v + []) == " " + v
  {
    EndCut(" " + v, []);
    assert (" " + v)[|v|] == v[|v| - 1];
  }

  lemma SmallTails()
    ensures Blank(" ") && Tail([]) && TrimEnd([]) == []
  {
  }

  /// The same with a comment behind it, next to the value or after blanks.
  lemma PlainComment(key: string, v: string, gap: string, c: char, comment: string)
    requires Loadable(key) && Bare(v) && v != [] && Blank(gap) && (c == ';' || c == '#')
    ensures ReadLine(key + " = " + v + (gap + [c] + comment)) == Pair(key, v) <==> !(key[0] == '[' && EndsIn([c] + comment, ']'))
  {
    var tail := gap + [c] + comment;
    NameSpaced(key, " " + v + tail);
    SmallTails();
    TailKept(" " + v, gap, c, comment);
    BareLine(key + " ", " ", v, tail);
    PairParts(key, v, tail);
    hide Names, Bracketed, ReadLine, Strip, Lower, TrimEnd, TrimStart, Blank, Tail, Bare, Loadable;
  }

  lemma PairParts(key: string, v: string, tail: string)
    ensures (key + " ") + "=" + (" " + v + tail) == key + " = " + v + tail
  {
    assert " = " == " " + "=" + " ";
  }

  /// The last character that is not a blank.
  ghost predicate EndsIn(s: string, c: char) {
    var t := TrimEnd(s);
    t != [] && t[|t| - 1] == c
  }

  lemma TailKept(front: string, gap: string, c: char, comment: string)
    requires Blank(gap) && (c == ';' || c == '#')
    ensures Tail(gap + [c] + comment)
    ensures EndsIn(front + (gap + [c] + comment), ']') <==> EndsIn([c] + comment, ']')
  {
    hide EndsIn;
    SignBegins(gap, c, comment);
    assert front + (gap + [c] + comment) == (front + gap) + ([c] + comment);
    EndSame(front + gap, c, comment);
  }

  lemma SignBegins(gap: string, c: char, comment: string)
    requires Blank(gap) && (c == ';' || c == '#')
    ensures Tail(gap + [c] + comment)
  {
    var s := [c] + comment;
    BlankGone(gap);
    StartCut(gap, s);
    assert gap + s == gap + [c] + comment && [] + s == s;
  }

  lemma EndSame(p: string, c: char, comment: string)
    requires !Space(c)
    ensures EndsIn(p + ([c] + comment), ']') <==> EndsIn([c] + comment, ']')
  {
    EndCut(p + [c], comment);
    EndCut([c], comment);
    hide TrimEnd;
    assert p + ([c] + comment) == (p + [c]) + comment;
    assert (p + [c]) + TrimEnd(comment) == p + ([c] + TrimEnd(comment));
  }

  lemma PlainEmpty(key: string)
    requires Loadable(key)
    ensures ReadLine(key + " =") == Pair(key, "")
  {
    NameSpaced(key, []);
    NoValueLine(key + " ", []);
    assert (key + " ") + "=" + [] == key + " =";
  }

  lemma PlainSingle(key: string, v: string)
    requires Loadable(key) && '\'' !in v && '\\' !in v
    ensures ReadLine(key + " = '" + v + "'") == Pair(key, v)
  {
    var right := " " + ("'" + v + "'") + [];
    NameSpaced(key, right);
    assert Blank(" ");
    assert right == (" '" + v + "'") + [];
    EndCut(" '" + v + "'", []);
    assert TrimEnd(right) == " '" + v + "'";
    SingleQuoted(key + " ", " ", v, []);
    SingleText(key, v);
  }

  lemma SingleText(key: string, v: string)
    ensures (key + " ") + "=" + (" " + ("'" + v + "'") + []) == key + " = '" + v + "'"
  {
    assert " = '" == " " + "=" + " " + "'";
  }
}
