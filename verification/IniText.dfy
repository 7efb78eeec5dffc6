/// The text of an ini file: how values are escaped and read back, and what one line means.
module IniText {

  // ---------------------------------------------------------------- values in quotes

  ghost predicate NeedsEscape(c: char) { c == '\\' || c == '"' }

  ghost function Escape(s: string): string {
    if s == [] then [] else (if NeedsEscape(s[0]) then ['\\', s[0]] else [s[0]]) + Escape(s[1..])
  }

  /// What is read up to the closing quote, or to the end; escaped tells that a backslash came just before.
  ghost function Unquote(s: string, quote: char, escaped: bool): string {
    if s == [] then []
    else if !escaped && s[0] == '\\' then Unquote(s[1..], quote, true)
    else if !escaped && s[0] == quote then []
    else [s[0]] + Unquote(s[1..], quote, false)
  }

  lemma UnquoteOne(c: char, tail: string)
    ensures Unquote((if NeedsEscape(c) then ['\\', c] else [c]) + tail, '"', false) == [c] + Unquote(tail, '"', false)
  {
    if NeedsEscape(c) {
      assert (['\\', c] + tail)[1..] == [c] + tail;
    }
    assert ([c] + tail)[1..] == tail;
  }

  /// Reading undoes escaping: any value, followed by the closing quote and anything else, comes back.
  lemma {:induction false} UnquoteUndoesEscape(v: string, rest: string)
    ensures Unquote(Escape(v) + ['"'] + rest, '"', false) == v
    decreases |v|
  {
    if v == [] {
      assert Escape(v) + ['"'] + rest == ['"'] + rest;
    } else {
      var e, tail := if NeedsEscape(v[0]) then ['\\', v[0]] else [v[0]], Escape(v[1..]) + ['"'] + rest;
      UnquoteUndoesEscape(v[1..], rest);
      assert Escape(v) + ['"'] + rest == e + tail;
      hide Unquote, Escape;
      UnquoteOne(v[0], tail);
    }
  }

  lemma {:induction false} EscapeBounds(v: string)
    ensures |v| <= |Escape(v)| <= 2 * |v|
    ensures forall c | c in Escape(v) :: c in v || c == '\\'
    decreases |v|
  {
    if v != [] { EscapeBounds(v[1..]); }
  }

  lemma {:induction false} EscapeStep(v: string, i: nat)
    requires i < |v|
    ensures Escape(v[..i + 1]) == Escape(v[..i]) + (if NeedsEscape(v[i]) then ['\\', v[i]] else [v[i]])
    decreases i
  {
    if i > 0 {
      EscapeStep(v[1..], i - 1);
      assert v[..i + 1][1..] == v[1..][..i] && v[..i][1..] == v[1..][..i - 1];
    } else {
      assert v[..1][1..] == [] && v[..1][0] == v[0];
    }
  }

  lemma {:induction false} UnquoteBounds(s: string, quote: char, escaped: bool)
    ensures |Unquote(s, quote, escaped)| <= |s|
    ensures forall c | c in Unquote(s, quote, escaped) :: c in s
    decreases |s|
  {
    if s != [] {
      UnquoteBounds(s[1..], quote, false);
      UnquoteBounds(s[1..], quote, true);
    }
  }

  // ---------------------------------------------------------------- blanks and letters

  predicate Space(c: char) { c == ' ' || c == '\t' || c == '\n' || c == '\U{B}' || c == '\U{C}' || c == '\r' }

  ghost function TrimStart(s: string): (r: string)
    ensures |r| <= |s|
  {
    if s != [] && Space(s[0]) then TrimStart(s[1..]) else s
  }

  ghost function TrimEnd(s: string): (r: string)
    ensures |r| <= |s|
  {
    if s != [] && Space(s[|s| - 1]) then TrimEnd(s[..|s| - 1]) else s
  }

  /// strstrip
  ghost function Strip(s: string): string { TrimEnd(TrimStart(s)) }

  function LowerChar(c: char): char { if 'A' <= c <= 'Z' then (c as int + 32) as char else c }

  /// strlwc, when nothing is cut off
  ghost function Lower(s: string): (r: string)
    ensures |r| == |s| && forall i | 0 <= i < |s| :: r[i] == LowerChar(s[i])
  {
    if s == [] then [] else [LowerChar(s[0])] + Lower(s[1..])
  }

  ghost predicate NoEndBlanks(s: string) { s == [] || (!Space(s[0]) && !Space(s[|s| - 1])) }

  lemma {:induction false} StartTrimmed(s: string)
    ensures var r := TrimStart(s); (r == [] || !Space(r[0])) && (s == [] || !Space(s[0]) <==> r == s)
    ensures var r := TrimStart(s); r == s[|s| - |r|..]
    decreases |s|
  {
    if s != [] && Space(s[0]) {
      StartTrimmed(s[1..]);
    }
  }

  lemma {:induction false} EndTrimmed(s: string)
    ensures var r := TrimEnd(s); (r == [] || !Space(r[|r| - 1])) && (s == [] || !Space(s[|s| - 1]) <==> r == s)
    ensures var r := TrimEnd(s); r == s[..|r|]
    decreases |s|
  {
    if s != [] && Space(s[|s| - 1]) {
      EndTrimmed(s[..|s| - 1]);
    }
  }

  /// A stripped string has no blanks at its ends.
  lemma StripEnds(s: string)
    ensures NoEndBlanks(Strip(s))
  {
    StartTrimmed(s);
    EndTrimmed(TrimStart(s));
    hide TrimStart, TrimEnd, Space;
    var r := Strip(s);
    assert r != [] ==> r[0] == TrimStart(s)[0];
  }

  lemma StripFixed(s: string)
    requires NoEndBlanks(s)
    ensures Strip(s) == s
  {
    StartTrimmed(s);
    EndTrimmed(s);
    hide TrimStart, TrimEnd, Space;
  }

  lemma StripWithin(s: string)
    ensures |Strip(s)| <= |s| && forall c | c in Strip(s) :: c in s
  {
    var a := TrimStart(s);
    StartTrimmed(s);
    assert forall c | c in a :: c in s;
    PrefixMembers(a);
  }

  lemma PrefixMembers(s: string)
    ensures forall c | c in TrimEnd(s) :: c in s
  {
    EndTrimmed(s);
  }

  /// Only strings without blanks at their ends are left as they are.
  lemma Stripped(s: string)
    ensures NoEndBlanks(Strip(s)) && (NoEndBlanks(s) <==> Strip(s) == s)
    ensures |Strip(s)| <= |s| && forall c | c in Strip(s) :: c in s
  {
    hide Strip, NoEndBlanks;
    StripEnds(s);
    StripWithin(s);
    if NoEndBlanks(s) { StripFixed(s); }
  }

  lemma LowerCharTwice(c: char)
    ensures LowerChar(LowerChar(c)) == LowerChar(c) && (Space(LowerChar(c)) <==> Space(c))
  {
  }

  lemma LowerTwice(s: string)
    ensures Lower(Lower(s)) == Lower(s)
    ensures NoEndBlanks(Lower(s)) <==> NoEndBlanks(s)
  {
    hide Lower, LowerChar, Space;
    forall i | 0 <= i < |s|
      ensures Lower(Lower(s))[i] == Lower(s)[i] && (Space(Lower(s)[i]) <==> Space(s[i]))
    {
      LowerCharTwice(s[i]);
    }
  }

  lemma {:induction false} TrimSpaces(s: string, n: nat)
    ensures TrimEnd(s + Spaces(n)) == TrimEnd(s)
    decreases n
  {
    if n > 0 {
      var w := s + Spaces(n);
      assert w[..|w| - 1] == s + Spaces(n - 1);
      TrimSpaces(s, n - 1);
    } else {
      assert s + Spaces(0) == s;
    }
  }

  ghost function Spaces(n: nat): (r: string)
    ensures |r| == n && forall i | 0 <= i < n :: r[i] == ' '
  {
    if n == 0 then [] else Spaces(n - 1) + [' ']
  }

  /// Where c first stands, or the length.
  ghost function Find(s: string, c: char): (i: nat)
    ensures i <= |s| && c !in s[..i] && (i < |s| ==> s[i] == c)
  {
    if s == [] || s[0] == c then 0
    else
      var i := Find(s[1..], c);
      assert s[..i + 1] == [s[0]] + s[1..][..i];
      i + 1
  }

  lemma FindIs(s: string, c: char, i: nat)
    requires i <= |s| && c !in s[..i] && (i < |s| ==> s[i] == c)
    ensures Find(s, c) == i
  {
    var j := Find(s, c);
    assert forall k | 0 <= k < i :: s[k] == s[..i][k] != c;
    assert forall k | 0 <= k < j :: s[k] == s[..j][k] != c;
  }

  // ---------------------------------------------------------------- one line

  datatype Line = Empty | Comment | Section(name: string) | Pair(key: string, value: string) | Error

  /// What the conversion "%[^;#]" reads.
  ghost function UpToComment(s: string): string {
    if s == [] || s[0] == ';' || s[0] == '#' then [] else [s[0]] + UpToComment(s[1..])
  }

  /// The value of a pair, from the text behind the equals sign and the blanks after it.
  ghost function ReadValue(r: string): string {
    if |r| >= 2 && r[0] == '"' then Unquote(r[1..], '"', false)
    else if |r| >= 2 && r[0] == '\'' then Unquote(r[1..], '\'', false)
    else
      var v := Strip(UpToComment(r));
      if v == "\"\"" || v == "''" then "" else v
  }

  /// iniparser_line, on a line without newline.
  ghost function ReadLine(input: string): Line {
    var line := Strip(input);
    if line == [] then Empty
    else if line[0] == '#' || line[0] == ';' then Comment
    else if line[0] == '[' && line[|line| - 1] == ']' then Section(Lower(Strip(line[1..|line| - 1])))
    else
      var e := Find(line, '=');
      if e == 0 || e == |line| then Error
      else Pair(Lower(Strip(line[..e])), ReadValue(TrimStart(line[e + 1..])))
  }

  lemma {:induction false} CommentBounds(s: string)
    ensures |UpToComment(s)| <= |s| && UpToComment(s) == s[..|UpToComment(s)|]
    decreases |s|
  {
    if s != [] { CommentBounds(s[1..]); }
  }

  /// A name survives being written between brackets exactly if it is lower case without outer blanks.
  lemma SectionLine(s: string)
    ensures ReadLine("[" + s + "]") == Section(s) <==> NoEndBlanks(s) && Lower(s) == s
    ensures ReadLine("[" + s + "]") == Section(Lower(Strip(s)))
  {
    InBrackets(s);
    Stripped(s);
    LowerTwice(Strip(s));
    hide Strip, Lower, ReadLine, NoEndBlanks;
  }

  lemma InBrackets(s: string)
    ensures ReadLine("[" + s + "]") == Section(Lower(Strip(s)))
  {
    var line := "[" + s + "]";
    assert line[1..|line| - 1] == s && line[0] == '[' && line[|line| - 1] == ']';
    assert NoEndBlanks(line);
    StripFixed(line);
    hide Strip, Lower, Find, TrimStart;
  }

  // ---------------------------------------------------------------- the line of a pair

  /// "%-30s"
  ghost function Pad(r: string): (p: string)
    ensures |p| == (if |r| < 30 then 30 else |r|) && p[..|r|] == r && forall i | |r| <= i < |p| :: p[i] == ' '
  {
    if |r| >= 30 then r else r + Spaces(30 - |r|)
  }

  ghost function PairText(key: string, escaped: string): string { Pad(key) + " = \"" + escaped + "\"" }

  /// The names under which a pair comes back.
  ghost predicate Loadable(key: string) {
    key != [] && '=' !in key && NoEndBlanks(key) && Lower(key) == key && key[0] != '#' && key[0] != ';'
  }

  ghost function Fill(key: string): nat { if |key| >= 30 then 0 else 30 - |key| }

  lemma PadIs(key: string)
    ensures Pad(key) == key + Spaces(Fill(key))
  {
    assert key + Spaces(0) == key;
  }

  /// From a line's left part, equals sign and right part.
  lemma ReadParts(line: string, left: string, right: string)
    requires line == left + "=" + right && '=' !in left && left != [] && !Space(line[0]) && !Space(line[|line| - 1])
    requires line[0] != '#' && line[0] != ';' && line[|line| - 1] != ']'
    ensures ReadLine(line) == Pair(Lower(Strip(left)), ReadValue(TrimStart(right)))
  {
    StripFixed(line);
    var e := |left|;
    assert line[..e] == left && line[e] == '=' && line[e + 1..] == right;
    FindIs(line, '=', e);
    hide Strip, Lower, Find, TrimStart, ReadValue, Space;
  }

  lemma QuotedRight(v: string)
    ensures ReadValue(TrimStart(" \"" + Escape(v) + "\"")) == v
  {
    var q := "\"" + Escape(v) + "\"";
    assert " \"" + Escape(v) + "\"" == " " + q;
    OneBlank(q);
    InQuotes(v);
  }

  lemma OneBlank(q: string)
    requires q != [] && !Space(q[0])
    ensures TrimStart(" " + q) == q
  {
    assert (" " + q)[1..] == q;
    StartTrimmed(q);
  }

  lemma InQuotes(v: string)
    ensures ReadValue("\"" + Escape(v) + "\"") == v
  {
    var q := "\"" + Escape(v) + "\"";
    UnquoteUndoesEscape(v, []);
    assert q[1..] == Escape(v) + ['"'] + [];
    hide Escape, Unquote, Strip, UpToComment;
    assert |q| >= 2 && q[0] == '"';
  }

  lemma LeftName(key: string)
    requires NoEndBlanks(key) && key != []
    ensures Strip(Pad(key) + " ") == key
  {
    PadIs(key);
    var n := Fill(key);
    assert Spaces(n) + " " == Spaces(n + 1);
    assert Pad(key) + " " == key + Spaces(n + 1);
    StartTrimmed(key + Spaces(n + 1));
    TrimSpaces(key, n + 1);
    EndTrimmed(key);
  }

  lemma TextParts(key: string, v: string)
    ensures PairText(key, Escape(v)) == (Pad(key) + " ") + "=" + (" \"" + Escape(v) + "\"")
    ensures var t := PairText(key, Escape(v)); t[|t| - 1] == '"' && (key != [] ==> t[0] == key[0]) && t[..|Pad(key)|] == Pad(key)
  {
    Parts(Pad(key), Escape(v));
    hide Pad, Escape;
    assert key != [] ==> Pad(key)[..|key|][0] == Pad(key)[0];
  }

  lemma Parts(p: string, e: string)
    ensures p + " = \"" + e + "\"" == (p + " ") + "=" + (" \"" + e + "\"")
    ensures var t := p + " = \"" + e + "\""; t[|t| - 1] == '"' && t[..|p|] == p && (p != [] ==> t[0] == p[0])
  {
    var q := "\"" + e + "\"";
    assert " = \"" == " " + "=" + " " + "\"";
  }

  lemma PadMembers(key: string)
    ensures forall c :: c in Pad(key) ==> c in key || c == ' '
    ensures forall c :: c in key ==> c in Pad(key)
  {
    PadIs(key);
    forall c | c in key
      ensures c in Pad(key)
    {
      var i :| 0 <= i < |key| && key[i] == c;
      assert Pad(key)[i] == c;
    }
  }

  /// Loadable names come back with their value, whatever the value is.
  lemma PairLine(key: string, v: string)
    requires Loadable(key)
    ensures ReadLine(PairText(key, Escape(v))) == Pair(key, v)
  {
    TextParts(key, v);
    PadMembers(key);
    ReadParts(PairText(key, Escape(v)), Pad(key) + " ", " \"" + Escape(v) + "\"");
    QuotedRight(v);
    LeftName(key);
  }

  /// Other names do not.
  lemma PairLineOnly(key: string, v: string)
    requires ReadLine(PairText(key, Escape(v))) == Pair(key, v)
    ensures Loadable(key)
  {
    hide Escape, ReadValue, PairText;
    var t := PairText(key, Escape(v));
    PairName(t, key, v);
    if key == [] {
      EmptyName(v);
    } else {
      TextParts(key, v);
      NotComment(t, key, v);
    }
  }

  /// The name in a pair that was read.
  lemma PairName(t: string, key: string, v: string)
    requires ReadLine(t) == Pair(key, v)
    ensures '=' !in key && NoEndBlanks(key) && Lower(key) == key
  {
    hide TrimStart, TrimEnd, Strip, Lower, ReadValue, NoEndBlanks, Find;
    var line := Strip(t);
    var name := line[..Find(line, '=')];
    Stripped(name);
    LowerTwice(Strip(name));
    EqualsGone(name);
  }

  lemma NotComment(t: string, key: string, v: string)
    requires ReadLine(t) == Pair(key, v) && NoEndBlanks(key) && key != [] && t != [] && t[0] == key[0] && t[|t| - 1] == '"'
    ensures key[0] != '#' && key[0] != ';'
  {
    Stripped(t);
    hide Strip, Lower, ReadValue, Find, TrimStart;
  }

  lemma EqualsGone(name: string)
    requires '=' !in name
    ensures '=' !in Lower(Strip(name))
  {
    Stripped(name);
    var s := Strip(name);
    forall i | 0 <= i < |s|
      ensures Lower(s)[i] != '='
    {
      assert s[i] in s;
    }
  }

  /// A pair without a name is not read.
  lemma EmptyName(v: string)
    ensures ReadLine(PairText([], Escape(v))) == Error
  {
    var t, q := PairText([], Escape(v)), "= \"" + Escape(v) + "\"";
    BlanksFirst(Escape(v));
    TrimFront(31, q);
    EndTrimmed(q);
    hide Escape, ReadValue, Find, TrimStart, TrimEnd, PairText;
    assert Strip(t) == q && q[0] == '=';
    FindIs(q, '=', 0);
  }

  lemma BlanksFirst(e: string)
    ensures PairText([], e) == Spaces(31) + ("= \"" + e + "\"")
  {
    PadIs([]);
    assert [] + Spaces(30) == Spaces(30);
    assert Spaces(30) + " " == Spaces(31);
    hide Spaces, Pad;
    assert PairText([], e) == (Spaces(30) + " ") + ("= \"" + e + "\"");
  }

  lemma {:induction false} TrimFront(n: nat, q: string)
    requires q != [] && !Space(q[0])
    ensures TrimStart(Spaces(n) + q) == q
    decreases n
  {
    if n > 0 {
      assert (Spaces(n) + q)[1..] == Spaces(n - 1) + q;
      TrimFront(n - 1, q);
    } else {
      assert Spaces(0) + q == q;
    }
  }

  /// A pair is read back exactly under these names.
  lemma PairComesBack(key: string, v: string)
    ensures ReadLine(PairText(key, Escape(v))) == Pair(key, v) <==> Loadable(key)
  {
    if Loadable(key) {
      PairLine(key, v);
    } else if ReadLine(PairText(key, Escape(v))) == Pair(key, v) {
      PairLineOnly(key, v);
      assert false;
    }
  }
}
