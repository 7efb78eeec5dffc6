/// The character loops of the ini parser, and its loader and printer, which do
/// what the functions on texts say.
module IniParser {
  import opened Dictionary
  import opened IniText
  import opened IniFile
  import opened IniPrinted
  import opened IniPlain
  import opened IniExact

  const NUL: char := '\0'

  /// The buffer holds this string.
  ghost predicate Holds(a: array<char>, s: string)
    reads a
  {
    |s| < a.Length && a[..|s|] == s && a[|s|] == NUL && NUL !in s
  }

  /// xstrdup
  method Dup(a: array<char>, ghost s: string) returns (r: string)
    requires Holds(a, s)
    ensures r == s
  {
    var n := 0;
    assert forall k | 0 <= k < |s| :: a[k] == s[k] && s[k] in s;
    while a[n] != NUL
      invariant 0 <= n <= |s|
      decreases |s| - n
    {
      n := n + 1;
    }
    return a[..n];
  }

  /// What sscanf stores for a conversion.
  method Store(a: array<char>, s: string)
    requires |s| < a.Length && NUL !in s
    modifies a
    ensures Holds(a, s)
  {
    forall i | 0 <= i < |s| { a[i] := s[i]; }
    a[|s|] := NUL;
  }

  /// escape_value
  method EscapeValue(escaped: array<char>, value: Text)
    requires value.Str? ==> 2 * |value.s| < escaped.Length && NUL !in value.s
    modifies escaped
    ensures if value.Str? then Holds(escaped, Escape(value.s)) else escaped[..] == old(escaped[..])
  {
    hide Escape, NeedsEscape;
    if value == Null {
      return;
    }
    var v, e := 0, 0;
    assert value.s[..0] == [] && Escape([]) == [] by { EmptyEscape(); }
    while v < |value.s|
      invariant 0 <= v <= |value.s| && 0 <= e <= 2 * v && escaped[..e] == Escape(value.s[..v])
    {
      var c := value.s[v];
      EscapeStep(value.s, v);
      EscapeOf(c);
      if c == '\\' || c == '"' {
        escaped[e] := '\\';
        e := e + 1;
      }
      escaped[e] := c;
      v := v + 1;
      e := e + 1;
    }
    assert value.s[..v] == value.s;
    EscapeBounds(value.s);
    escaped[e] := NUL;
  }

  lemma EmptyEscape()
    ensures Escape([]) == []
  {
  }

  lemma EscapeOf(c: char)
    ensures NeedsEscape(c) <==> c == '\\' || c == '"'
  {
  }

  /// parse_quoted_value: the buffer is overwritten from a copy of itself.
  method ParseQuotedValue(value: array<char>, quote: char, ghost s: string)
    requires Holds(value, s)
    modifies value
    ensures Holds(value, Unquote(s, quote, false))
  {
    hide Unquote;
    var quoted := Dup(value, s);
    var q, v, esc := 0, 0, false;
    assert s[0..] == s;
    UnquoteBounds(s, quote, false);
    ghost var all, done, rest := Unquote(s, quote, false), [], Unquote(s, quote, false);
    while q < |quoted|
      invariant 0 <= v <= q <= |s| && value[..v] == done && rest == Unquote(s[q..], quote, esc) && all == done + rest
    {
      var c := quoted[q];
      UnquoteStep(s, q, quote, esc);
      if !esc {
        if c == '\\' {
          esc := true;
          rest := Unquote(s[q + 1..], quote, true);
          q := q + 1;
          continue;
        }
        if c == quote {
          break;
        }
      }
      esc := false;
      Append(value, v, c);
      done, rest := done + [c], Unquote(s[q + 1..], quote, false);
      v := v + 1;
      q := q + 1;
    }
    UnquoteEnd(quote, esc);
    assert q == |s| ==> s[q..] == [];
    assert done + [] == done;
    value[v] := NUL;
  }

  method Append(a: array<char>, v: nat, c: char)
    requires v < a.Length
    modifies a
    ensures a[..v + 1] == old(a[..v]) + [c]
  {
    a[v] := c;
  }

  lemma UnquoteStep(s: string, q: nat, quote: char, esc: bool)
    requires q < |s|
    ensures Unquote(s[q..], quote, esc) ==
            if !esc && s[q] == '\\' then Unquote(s[q + 1..], quote, true)
            else if !esc && s[q] == quote then []
            else [s[q]] + Unquote(s[q + 1..], quote, false)
  {
    assert s[q..][1..] == s[q + 1..];
  }

  lemma UnquoteEnd(quote: char, esc: bool)
    ensures Unquote([], quote, esc) == []
  {
  }

  /// strlwc. In place, every character is read before its place is written.
  method StrLwc(src: string, out: array<char>, len: nat)
    requires 0 < len && (|src| < len ==> |src| < out.Length) && (|src| >= len ==> len <= out.Length) && NUL !in src
    modifies out
    ensures Holds(out, Lower(src[..if |src| < len then |src| else len - 1]))
  {
    var i := 0;
    while i < |src| && i < len - 1
      invariant 0 <= i <= |src| && i <= len - 1 && out[..i] == Lower(src[..i])
    {
      out[i] := LowerChar(src[i]);
      i := i + 1;
      assert out[..i] == Lower(src[..i]);
    }
    LowerNul(src[..i]);
    out[i] := NUL;
  }

  lemma LowerNul(s: string)
    requires NUL !in s
    ensures NUL !in Lower(s)
  {
    assert forall i | 0 <= i < |s| :: s[i] in s && Lower(s)[i] != NUL;
  }

  /// strstrip
  method StrStrip(a: array<char>, ghost s: string) returns (size: nat)
    requires Holds(a, s)
    modifies a
    ensures Holds(a, Strip(s)) && size == |Strip(s)|
  {
    hide TrimStart, TrimEnd, Space;
    var line := Dup(a, s);
    var last, start := |line|, 0;
    assert s[0..] == s;
    while start < |line| && Space(line[start])
      invariant 0 <= start <= |s| && TrimStart(s) == TrimStart(s[start..])
    {
      StartStep(s, start);
      start := start + 1;
    }
    StartStep(s, start);
    assert s[start..] == s[start..last];
    while last > start
      invariant start <= last <= |s| && TrimEnd(TrimStart(s)) == TrimEnd(s[start..last])
    {
      EndStep(s, start, last);
      if !Space(line[last - 1]) {
        break;
      }
      last := last - 1;
    }
    EndTrimmed(s[start..last]);
    StripWithin(s);
    Store(a, line[start..last]);
    return last - start;
  }

  lemma StartStep(s: string, i: nat)
    requires i <= |s|
    ensures TrimStart(s[i..]) == if i < |s| && Space(s[i]) then TrimStart(s[i + 1..]) else s[i..]
  {
    if i < |s| { assert s[i..][1..] == s[i + 1..]; }
  }

  lemma EndStep(s: string, i: nat, j: nat)
    requires i < j <= |s|
    ensures TrimEnd(s[i..j]) == if Space(s[j - 1]) then TrimEnd(s[i..j - 1]) else s[i..j]
  {
    var p := s[i..j];
    assert p[..|p| - 1] == s[i..j - 1];
  }

  // ---------------------------------------------------------------- one line

  datatype LineStatus = LINE_ERROR | LINE_EMPTY | LINE_COMMENT | LINE_SECTION | LINE_VALUE

  /// The status and the buffers say what the line means.
  ghost predicate Says(l: Line, sta: LineStatus, section: array<char>, key: array<char>, value: array<char>)
    reads section, key, value
  {
    match l
    case Empty => sta == LINE_EMPTY
    case Comment => sta == LINE_COMMENT
    case Section(s) => sta == LINE_SECTION && Holds(section, s)
    case Pair(k, v) => sta == LINE_VALUE && Holds(key, k) && Holds(value, v)
    case Error => sta == LINE_ERROR
  }

  /// "%[^=]": where it stops.
  method ScanTo(s: string, c: char) returns (i: nat)
    ensures i == Find(s, c)
  {
    i := 0;
    while i < |s| && s[i] != c
      invariant 0 <= i <= |s| && c !in s[..i]
    {
      i := i + 1;
    }
    FindIs(s, c, i);
  }

  /// The blanks that a space in a format skips.
  method SkipBlanks(s: string) returns (r: string)
    ensures r == TrimStart(s)
  {
    r := s;
    while r != [] && Space(r[0])
      invariant TrimStart(r) == TrimStart(s)
    {
      r := r[1..];
    }
    StartTrimmed(r);
  }

  /// "%[^;#]"
  method ScanComment(s: string) returns (r: string)
    ensures r == UpToComment(s)
  {
    var i := 0;
    assert s[0..] == s;
    while i < |s| && s[i] != ';' && s[i] != '#'
      invariant 0 <= i <= |s| && UpToComment(s) == s[..i] + UpToComment(s[i..])
    {
      CommentStep(s, i);
      i := i + 1;
    }
    assert UpToComment(s[i..]) == [];
    return s[..i];
  }

  lemma CommentStep(s: string, i: nat)
    requires i < |s| && s[i] != ';' && s[i] != '#'
    ensures s[..i] + UpToComment(s[i..]) == s[..i + 1] + UpToComment(s[i + 1..])
  {
    assert s[i..][1..] == s[i + 1..] && s[..i + 1] == s[..i] + [s[i]];
  }

  /// A name is stripped and put in lower case where it is; len is the length of its line.
  method Normalise(buffer: array<char>, len: nat, ghost s: string)
    requires Holds(buffer, s) && |s| < len
    modifies buffer
    ensures Holds(buffer, Lower(Strip(s)))
  {
    var n := StrStrip(buffer, s);
    var name := Dup(buffer, Strip(s));
    assert name[..|name|] == name;
    StripWithin(s);
    StrLwc(name, buffer, len);
  }

  /// The two conversions with quotes: the value behind the quote, if the text begins with it.
  method ScanQuoted(r: string, quote: char) returns (found: bool, v: string)
    ensures found <==> |r| >= 2 && r[0] == quote
    ensures found ==> v == r[1..]
  {
    if |r| >= 2 && r[0] == quote {
      return true, r[1..];
    }
    return false, [];
  }

  /// iniparser_line, on a line without newline that fits the buffers.
  method IniLine(input: string, section: array<char>, key: array<char>, value: array<char>) returns (sta: LineStatus)
    requires |input| <= ASCIILINESZ && NUL !in input && '\n' !in input
    requires section.Length == key.Length == value.Length == ASCIILINESZ + 1 && section != key && section != value && key != value
    modifies section, key, value
    ensures Says(ReadLine(input), sta, section, key, value)
    ensures sta != LINE_SECTION ==> section[..] == old(section[..])
  {
    hide Strip, Lower, TrimStart, Find, ReadValue, UpToComment, Unquote;
    var copy := new char[|input| + 1];
    Store(copy, input);
    var len := StrStrip(copy, input);
    StripWithin(input);
    var line := Dup(copy, Strip(input));
    if len < 1 {
      return LINE_EMPTY;
    }
    if line[0] == '#' || line[0] == ';' {
      return LINE_COMMENT;
    }
    if line[0] == '[' && line[len - 1] == ']' {
      var name := line[1..len - 1];
      Sub(line, 1, len - 1);
      Store(section, name);
      Normalise(section, len, name);
      return LINE_SECTION;
    }
    var e := ScanTo(line, '=');
    if e == 0 || e == |line| {
      return LINE_ERROR;
    }
    Sub(line, 0, e);
    Store(key, line[..e]);
    Normalise(key, len, line[..e]);
    Sub(line, e + 1, len);
    var r := SkipBlanks(line[e + 1..]);
    StartWithin(line[e + 1..]);
    StoreValue(r, value);
    return LINE_VALUE;
  }

  lemma Sub(s: string, i: nat, j: nat)
    requires i <= j <= |s| && NUL !in s
    ensures NUL !in s[i..j] && (j == |s| ==> s[i..j] == s[i..])
  {
  }

  lemma StartWithin(s: string)
    ensures NUL !in s ==> NUL !in TrimStart(s)
  {
    StartTrimmed(s);
  }

  /// The value of a pair.
  method StoreValue(r: string, value: array<char>)
    requires |r| < value.Length && NUL !in r
    modifies value
    ensures Holds(value, ReadValue(r))
  {
    hide Strip, UpToComment, Unquote;
    var found, v := ScanQuoted(r, '"');
    if found {
      Store(value, v);
      ParseQuotedValue(value, '"', v);
      return;
    }
    found, v := ScanQuoted(r, '\'');
    if found {
      Store(value, v);
      ParseQuotedValue(value, '\'', v);
      return;
    }
    v := ScanComment(r);
    CommentBounds(r);
    Store(value, v);
    var n := StrStrip(value, v);
    var text := Dup(value, Strip(v));
    if text == "\"\"" || text == "''" {
      value[0] := NUL;
    }
  }

  // ---------------------------------------------------------------- the loader

  /// fgets: how much it reads, and whether it meets the end of the file.
  method FGets(rest: string, room: nat) returns (n: nat, eof: bool)
    requires room > 1
    ensures n == ChunkLen(rest, room) && eof == AtEof(rest, room)
  {
    n := 0;
    ghost var e := Find(rest, '\n');
    while n < |rest| && n < room - 1
      invariant 0 <= n <= e && n <= room - 1
    {
      n := n + 1;
      if rest[n - 1] == '\n' {
        At(rest, '\n', n - 1);
        return n, false;
      }
      NotAt(rest, '\n', n - 1);
    }
    eof := n == |rest| && n < room - 1;
  }

  lemma At(s: string, c: char, n: nat)
    requires n < |s| && s[n] == c && n <= Find(s, c)
    ensures Find(s, c) == n
  {
    var e := Find(s, c);
    assert forall k | 0 <= k < e :: s[..e][k] == s[k];
  }

  lemma NotAt(s: string, c: char, n: nat)
    requires n < |s| && s[n] != c && n <= Find(s, c)
    ensures n + 1 <= Find(s, c)
  {
  }

  /// The newline and the blanks at the end of the line are cut off.
  method CutBlanks(line: string) returns (t: string)
    ensures t == TrimEnd(line)
  {
    t := line;
    while t != [] && (t[|t| - 1] == '\n' || Space(t[|t| - 1]))
      invariant TrimEnd(t) == TrimEnd(line)
    {
      t := t[..|t| - 1];
    }
    EndTrimmed(t);
  }

  // One turn of the loader's loop, branch by branch.

  lemma LoadSkips(rest: string, last: string, section: string, m: Pairs, errs: bool, line: string, more: string, eof: bool)
    requires rest != [] && |last| <= ASCIILINESZ - 3 && NextChunk(rest, last, line, more, eof) && |line| <= 1
    ensures Load(rest, last, section, m, errs) == Load(more, last, section, m, errs)
  {
    hide TrimEnd, ChunkLen, AtEof, ReadLine, LoadAfter;
  }

  lemma LoadOverflows(rest: string, last: string, section: string, m: Pairs, errs: bool, line: string, more: string, eof: bool)
    requires rest != [] && |last| <= ASCIILINESZ - 3 && NextChunk(rest, last, line, more, eof)
    requires |line| > 1 && line[|line| - 1] != '\n' && !eof
    ensures Load(rest, last, section, m, errs) == Failed
  {
    hide TrimEnd, ChunkLen, AtEof, ReadLine, LoadAfter;
  }

  lemma LoadGoesOn(rest: string, last: string, section: string, m: Pairs, errs: bool, line: string, more: string, eof: bool, t: string)
    requires rest != [] && |last| <= ASCIILINESZ - 3 && NextChunk(rest, last, line, more, eof)
    requires |line| > 1 && (line[|line| - 1] == '\n' || eof) && TrimEnd(line) == t && t != [] && t[|t| - 1] == '\\'
    ensures |t| <= ASCIILINESZ - 2 && Load(rest, last, section, m, errs) == Load(more, t[..|t| - 1], section, m, errs)
  {
    hide TrimEnd, ChunkLen, AtEof, ReadLine, LoadAfter;
    ChunkRoom(rest, last, line, more, eof);
  }

  lemma LoadReads(rest: string, last: string, section: string, m: Pairs, errs: bool, line: string, more: string, eof: bool, t: string)
    requires rest != [] && |last| <= ASCIILINESZ - 3 && NextChunk(rest, last, line, more, eof)
    requires |line| > 1 && (line[|line| - 1] == '\n' || eof) && TrimEnd(line) == t && (t == [] || t[|t| - 1] != '\\')
    ensures Load(rest, last, section, m, errs) == LoadAfter(ReadLine(t), more, section, m, errs)
  {
    hide TrimEnd, ChunkLen, AtEof, ReadLine, LoadAfter;
  }

  method Chunk(rest: string, last: string) returns (line: string, more: string, eof: bool)
    requires rest != [] && |last| <= ASCIILINESZ - 3 && NUL !in rest && NUL !in last && '\n' !in last
    ensures NextChunk(rest, last, line, more, eof) && |more| < |rest|
    ensures NUL !in more && var t := TrimEnd(line); NUL !in t && '\n' !in t && |t| <= ASCIILINESZ
  {
    hide Find, TrimEnd;
    var room := ASCIILINESZ - |last|;
    LineText(rest, last, room);
    var n: nat;
    n, eof := FGets(rest, room);
    line, more := last + rest[..n], rest[n..];
  }

  /// What remains of a line in the buffer has no newline.
  lemma LineText(rest: string, last: string, room: nat)
    requires room > 1 && NUL !in rest && NUL !in last && '\n' !in last && rest != []
    ensures var n := ChunkLen(rest, room);
            var t := TrimEnd(last + rest[..n]);
            NUL !in rest[n..] && NUL !in t && '\n' !in t && |t| <= |last| + n
  {
    hide Find, TrimEnd;
    var n := ChunkLen(rest, room);
    var line := last + rest[..n];
    assert forall c | c in rest[n..] :: c in rest;
    assert forall c | c in line :: c in last || c in rest;
    BufferClean(rest, last, room);
    PrefixMembers(line);
  }

  /// iniparser_load_file; the result is null when a line is too long or was not understood.
  method LoadFile(text: string, hashOf: string -> int) returns (d: Dictionary?)
    requires NUL !in text
    ensures d == null <==> LoadText(text).Failed?
    ensures d != null ==> fresh(d) && d.Valid() && d.Map() == LoadText(text).pairs
  {
    hide Load, ReadLine, TrimEnd, NextChunk, Contents, KeysDiffer, Hashed, Used;
    LoadStarts(text);
    hide LoadText, LoadAfter, Dictionary.Valid, Dictionary.Map;
    var dict := new Dictionary(0, hashOf);
    var section := new char[ASCIILINESZ + 1](_ => NUL);
    var key := new char[ASCIILINESZ + 1](_ => NUL);
    var val := new char[ASCIILINESZ + 1](_ => NUL);
    ghost var current: string := [];
    var rest: string, last: string, errs := text, [], 0;
    assert Holds(section, current);
    hide Holds;
    while rest != []
      invariant fresh(dict) && dict.Valid() && fresh(dict.key) && fresh(dict.val) && fresh(dict.hash)
      invariant NUL !in rest && NUL !in last && '\n' !in last && |last| <= ASCIILINESZ - 3 && errs >= 0 && Holds(section, current)
      invariant Load(rest, last, current, dict.Map(), errs > 0) == LoadText(text)
      decreases |rest|
    {
      var line, more, eof := Chunk(rest, last);
      if |line| <= 1 {
        LoadSkips(rest, last, current, dict.Map(), errs > 0, line, more, eof);
        rest := more;
        continue;
      }
      if line[|line| - 1] != '\n' && !eof {
        LoadOverflows(rest, last, current, dict.Map(), errs > 0, line, more, eof);
        return null;
      }
      var t := CutBlanks(line);
      if t != [] && t[|t| - 1] == '\\' {
        LoadGoesOn(rest, last, current, dict.Map(), errs > 0, line, more, eof, t);
        rest, last := more, t[..|t| - 1];
        continue;
      }
      LoadReads(rest, last, current, dict.Map(), errs > 0, line, more, eof, t);
      rest, last := more, [];
      var bad;
      bad, current := Line(dict, t, section, key, val, current, rest, errs > 0);
      errs := if bad then errs + 1 else errs;
    }
    LoadEnds(last, current, dict.Map(), errs > 0);
    if errs > 0 {
      return null;
    }
    return dict;
  }

  lemma LoadStarts(text: string)
    ensures LoadText(text) == Load(text, [], [], map[], false)
  {
  }

  lemma LoadEnds(last: string, section: string, m: Pairs, errs: bool)
    requires |last| <= ASCIILINESZ - 3
    ensures Load([], last, section, m, errs) == if errs then Failed else Loaded(m)
  {
  }

  /// The switch over the status of one line; bad tells a line that was not understood.
  method Line(dict: Dictionary, t: string, section: array<char>, key: array<char>, val: array<char>, ghost current: string, ghost more: string, ghost errs: bool) returns (bad: bool, ghost current': string)
    requires dict.Valid() && |t| <= ASCIILINESZ && NUL !in t && '\n' !in t && Holds(section, current)
    requires section.Length == key.Length == val.Length == ASCIILINESZ + 1 && section != key && section != val && key != val
    modifies dict, dict.key, dict.val, dict.hash, section, key, val
    ensures dict.Valid() && (dict.key == old(dict.key) || fresh(dict.key)) && (dict.val == old(dict.val) || fresh(dict.val)) && (dict.hash == old(dict.hash) || fresh(dict.hash))
    ensures Holds(section, current')
    ensures LoadAfter(ReadLine(t), more, current, old(dict.Map()), errs) == Load(more, [], current', dict.Map(), errs || bad)
  {
    hide ReadLine, Load, Contents, KeysDiffer, Hashed, Used;
    bad, current' := false, current;
    ghost var m := dict.Map();
    var sta := IniLine(t, section, key, val);
    match sta {
      case LINE_EMPTY =>
      case LINE_COMMENT =>
      case LINE_SECTION =>
        current' := ReadLine(t).name;
        var name := Dup(section, current');
        var ret := dict.Set(Str(name), Null, true);
      case LINE_VALUE =>
        var s := Dup(section, current);
        var k := Dup(key, ReadLine(t).key);
        var v := Dup(val, ReadLine(t).value);
        var ret := dict.Set(Str(s + ":" + k), Str(v), true);
      case LINE_ERROR => bad := true;
    }
  }

  // ---------------------------------------------------------------- the printer

  /// strchr(key, ':') == NULL
  method HasNoColon(k: string) returns (r: bool)
    ensures r <==> ':' !in k
  {
    var i := ScanTo(k, ':');
    assert k[..|k|] == k;
    return i == |k|;
  }

  ghost function Sections(ks: Slots, j: nat): nat
    requires j <= |ks|
    decreases |ks| - j
  {
    if j == |ks| then 0 else (if IsSection(ks[j]) then 1 else 0) + Sections(ks, j + 1)
  }

  /// They are the keys without a colon.
  lemma {:induction false} SectionsCount(ks: Slots, j: nat)
    requires j <= |ks|
    ensures Sections(ks, j) == |set i | j <= i < |ks| && ks[i].Str? && ':' !in ks[i].s|
    decreases |ks| - j
  {
    var X := set i | j <= i < |ks| && ks[i].Str? && ':' !in ks[i].s;
    if j == |ks| {
      assert X == {};
    } else {
      SectionsCount(ks, j + 1);
      var Y := set i | j + 1 <= i < |ks| && ks[i].Str? && ':' !in ks[i].s;
      assert X == if ks[j].Str? && ':' !in ks[j].s then Y + {j} else Y;
    }
  }

  /// iniparser_getnsec
  method GetNSec(d: Dictionary) returns (nsec: nat)
    requires d.Valid()
    ensures nsec == Sections(d.key[..], 0)
  {
    nsec := 0;
    var i := 0;
    while i < d.size
      invariant 0 <= i <= d.size && nsec + Sections(d.key[..], i) == Sections(d.key[..], 0)
    {
      if d.key[i] != Null {
        var plain := HasNoColon(d.key[i].s);
        if plain {
          nsec := nsec + 1;
        }
      }
      i := i + 1;
    }
  }

  /// iniparser_getsecname: the slot of the n-th section.
  method GetSecName(d: Dictionary, n: nat) returns (i: nat)
    requires d.Valid() && n < Sections(d.key[..], 0)
    ensures i < d.size && IsSection(d.key[i]) && Sections(d.key[..], i) == Sections(d.key[..], 0) - n
  {
    i := 0;
    var found := 0;
    while i < d.size
      invariant 0 <= i <= d.size && found + Sections(d.key[..], i) == Sections(d.key[..], 0) && 0 <= found <= n
    {
      if d.key[i] != Null {
        var plain := HasNoColon(d.key[i].s);
        if plain {
          found := found + 1;
          if found > n {
            return;
          }
        }
      }
      i := i + 1;
    }
  }

  /// iniparser_find_entry
  method FindEntry(d: Dictionary, s: string) returns (found: bool)
    requires d.Valid() && NUL !in s
    ensures found <==> HasKey(d.key[..], Lower(Cut(s)))
  {
    var tmp := new char[ASCIILINESZ + 1](_ => NUL);
    assert s[..|s|] == s;
    StrLwc(s, tmp, ASCIILINESZ + 1);
    var name := Dup(tmp, Lower(Cut(s)));
    var i := d.Find(name);
    return i < d.size;
  }

  /// The name of a section is copied into a buffer with a colon behind it, after a test that lets two lengths too many pass.
  ghost predicate NameFits(s: string) { |s| < ASCIILINESZ || |s| > ASCIILINESZ + 1 }

  ghost predicate SlotPrints(k: Text, v: Text)
    requires k.Str?
  {
    (IsSection(k) ==> NameFits(k.s)) && NUL !in k.s && (v.Str? ==> |v.s| <= ASCIILINESZ && NUL !in v.s)
  }

  /// Section names and values fit the buffers of the printer, and all are C strings.
  ghost predicate Printable(ks: Slots, vs: Slots)
    requires |ks| == |vs|
  {
    forall i | 0 <= i < |ks| && ks[i].Str? :: SlotPrints(ks[i], vs[i])
  }

  /// "%-30s"
  method PadTo(r: string) returns (p: string)
    ensures p == Pad(r)
  {
    p := r;
    PadIs(r);
    assert r + Spaces(0) == r;
    ghost var n: nat := 0;
    while |p| < 30
      invariant p == r + Spaces(n) && n <= Fill(r)
    {
      assert r + Spaces(n + 1) == r + Spaces(n) + [' '];
      p := p + [' '];
      n := n + 1;
    }
  }

  /// strncmp(key, keym, seclen + 1) == 0
  method StartsWith(k: string, keym: string) returns (r: bool)
    ensures r <==> keym <= k
  {
    var i := 0;
    while i < |keym|
      invariant 0 <= i <= |keym| && i <= |k| && k[..i] == keym[..i]
    {
      if i == |k| || k[i] != keym[i] {
        return false;
      }
      i := i + 1;
    }
    assert keym[..i] == keym;
    return true;
  }

  /// iniparser_dumpsection_ini; the result is what is printed.
  method DumpSection(d: Dictionary, s: string) returns (out: string)
    requires d.Valid() && Printable(d.key[..], d.val[..]) && NameFits(s) && NUL !in s
    ensures out == SectionText(d.key[..], d.val[..], s)
  {
    hide Printable, Pad, Escape, Contents, KeysDiffer, Hashed, Used, InSection, HasKey, KeyLines, Holds, Lower, Cut;
    var found := FindEntry(d, s);
    if !found {
      return [];
    }
    if |s| > ASCIILINESZ + 1 {
      return [];
    }
    var escaped := EmptyBuffer();
    ghost var text: string, ks, vs := [], d.key[..], d.val[..];
    out := "\n[" + s + "]\n";
    var keym := s + ":";
    var j := 0;
    ghost var whole := out + KeyLines(ks, vs, s, 0, []);
    while j < d.size
      invariant 0 <= j <= d.size && d.key[..] == ks && d.val[..] == vs
      invariant escaped.Length == ASCIILINESZ * 2 + 2 && Holds(escaped, text)
      invariant whole == out + KeyLines(ks, vs, s, j, text)
    {
      if ks[j].Str? { SlotPrintable(ks, vs, j); }
      assert d.key[j] == ks[j] && d.val[j] == vs[j];
      ghost var before := text;
      var line;
      line, text := SlotOut(d.key[j], d.val[j], s, keym, escaped, text);
      KeyStep(ks, vs, s, j, before, text, line, out);
      out := out + line;
      j := j + 1;
    }
    KeysEnd(ks, vs, s, text);
    out := out + "\n";
  }

  /// escaped[] = ""
  method EmptyBuffer() returns (escaped: array<char>)
    ensures fresh(escaped) && escaped.Length == ASCIILINESZ * 2 + 2 && Holds(escaped, [])
  {
    escaped := new char[ASCIILINESZ * 2 + 2](_ => NUL);
  }

  /// The buffer behind the escaping of one value: a NULL value leaves it as it is.
  method EscapeNext(escaped: array<char>, v: Text, ghost text: string) returns (ghost text': string)
    requires Holds(escaped, text) && (v.Str? ==> 2 * |v.s| < escaped.Length && NUL !in v.s)
    modifies escaped
    ensures text' == Escaped(v, text) && Holds(escaped, text')
  {
    hide Escape;
    EscapeValue(escaped, v);
    text' := Escaped(v, text);
  }

  /// What one slot prints in section s, and the escaped value it leaves in the buffer.
  method SlotOut(k: Text, v: Text, s: string, keym: string, escaped: array<char>, ghost text: string) returns (line: string, ghost text': string)
    requires Holds(escaped, text) && escaped.Length == ASCIILINESZ * 2 + 2 && keym == s + ":" && (k.Str? ==> SlotPrints(k, v))
    modifies escaped
    ensures Holds(escaped, text')
    ensures text' == if InSection(k, s) then Escaped(v, text) else text
    ensures line == if InSection(k, s) then PairText(k.s[|s| + 1..], text') + "\n" else []
  {
    hide Escape, PairText, Escaped, Holds;
    line, text' := [], text;
    if k != Null {
      var inSection := StartsWith(k.s, keym);
      if inSection {
        text' := EscapeNext(escaped, v, text);
        line := PairOut(k.s[|s| + 1..], escaped, text');
      }
    }
  }

  lemma KeyStep(ks: Slots, vs: Slots, s: string, j: nat, before: string, text: string, line: string, out: string)
    requires j < |ks| == |vs| && text == (if InSection(ks[j], s) then Escaped(vs[j], before) else before)
    requires line == if InSection(ks[j], s) then PairText(ks[j].s[|s| + 1..], text) + "\n" else []
    ensures out + KeyLines(ks, vs, s, j, before) == (out + line) + KeyLines(ks, vs, s, j + 1, text)
  {
    hide PairText, Escaped, InSection;
  }

  lemma KeysEnd(ks: Slots, vs: Slots, s: string, text: string)
    requires |ks| == |vs|
    ensures KeyLines(ks, vs, s, |ks|, text) == []
  {
  }

  lemma SlotPrintable(ks: Slots, vs: Slots, j: nat)
    requires j < |ks| == |vs| && Printable(ks, vs) && ks[j].Str?
    ensures SlotPrints(ks[j], vs[j])
  {
  }

  /// fprintf(f, "%-30s = \"%s\"\n", name, escaped)
  method PairOut(name: string, escaped: array<char>, ghost text: string) returns (line: string)
    requires Holds(escaped, text)
    ensures line == PairText(name, text) + "\n"
  {
    var p := PadTo(name);
    var e := Dup(escaped, text);
    line := p + " = \"" + e + "\"" + "\n";
  }

  /// iniparser_dump_ini
  method DumpIni(d: Dictionary) returns (out: string)
    requires d.Valid() && Printable(d.key[..], d.val[..])
    ensures out == DumpText(d.key[..], d.val[..])
  {
    hide SectionText, Printable, SectionTexts, PlainLines, KeysDiffer, Hashed, Used, IsSection, Sections;
    ghost var ks, vs := d.key[..], d.val[..];
    var nsec := GetNSec(d);
    SomeCounted(ks, 0);
    if nsec < 1 {
      out := DumpPlain(d);
      return;
    }
    out := [];
    var i := 0;
    ghost var j: nat := 0;
    while i < nsec
      invariant 0 <= i <= nsec && j <= |ks| && Sections(ks, j) == nsec - i
      invariant SectionTexts(ks, vs, 0) == out + SectionTexts(ks, vs, j)
    {
      var p := GetSecName(d, i);
      OnlyOther(ks, vs, j, p);
      SlotPrintable(ks, vs, p);
      assert d.key[p] == ks[p];
      var text := DumpSection(d, d.key[p].s);
      SectionStep(ks, vs, p, out, text);
      out := out + text;
      j := p + 1;
      i := i + 1;
    }
    NoneCounted(ks, vs, j);
    out := out + "\n";
  }

  lemma SectionStep(ks: Slots, vs: Slots, p: nat, out: string, text: string)
    requires p < |ks| == |vs| && IsSection(ks[p]) && text == SectionText(ks, vs, ks[p].s)
    ensures out + SectionTexts(ks, vs, p) == (out + text) + SectionTexts(ks, vs, p + 1)
    ensures Sections(ks, p) == Sections(ks, p + 1) + 1
  {
    hide SectionText;
  }

  lemma {:induction false} SomeCounted(ks: Slots, j: nat)
    requires j <= |ks|
    ensures Sections(ks, j) > 0 <==> exists i :: j <= i < |ks| && IsSection(ks[i])
    decreases |ks| - j
  {
    if j < |ks| { SomeCounted(ks, j + 1); }
  }

  /// Between the slots j and p with the same number of sections behind them there is none.
  lemma {:induction false} OnlyOther(ks: Slots, vs: Slots, j: nat, p: nat)
    requires j <= |ks| == |vs| && p < |ks| && IsSection(ks[p]) && Sections(ks, j) == Sections(ks, p)
    ensures j <= p && SectionTexts(ks, vs, j) == SectionTexts(ks, vs, p)
    decreases |ks| - j
  {
    hide SectionText, IsSection;
    if p < j {
      Fewer(ks, p, j);
    } else if j < p {
      Fewer(ks, j, p);
      OnlyOther(ks, vs, j + 1, p);
    }
  }

  lemma {:induction false} Fewer(ks: Slots, a: nat, b: nat)
    requires a < b <= |ks|
    ensures Sections(ks, a) >= Sections(ks, b) + if IsSection(ks[a]) then 1 else 0
    decreases b - a
  {
    if a + 1 < b { Fewer(ks, a + 1, b); }
  }

  lemma {:induction false} NoneCounted(ks: Slots, vs: Slots, j: nat)
    requires j <= |ks| == |vs| && Sections(ks, j) == 0
    ensures SectionTexts(ks, vs, j) == []
    decreases |ks| - j
  {
    if j < |ks| { NoneCounted(ks, vs, j + 1); }
  }

  /// The branch without sections.
  method DumpPlain(d: Dictionary) returns (out: string)
    requires d.Valid() && Printable(d.key[..], d.val[..])
    ensures out == PlainLines(d.key[..], d.val[..], 0, [])
  {
    hide Printable, Escape, Escaped, Contents, KeysDiffer, Hashed, Used, PlainLines, Holds;
    var escaped := EmptyBuffer();
    ghost var text: string, ks, vs := [], d.key[..], d.val[..];
    out := [];
    var i := 0;
    while i < d.size
      invariant 0 <= i <= d.size && d.key[..] == ks && d.val[..] == vs
      invariant escaped.Length == ASCIILINESZ * 2 + 2 && Holds(escaped, text)
      invariant PlainLines(ks, vs, 0, []) == out + PlainLines(ks, vs, i, text)
    {
      assert d.key[i] == ks[i] && d.val[i] == vs[i];
      ghost var before := text;
      var line := "";
      if d.key[i] != Null {
        SlotPrintable(ks, vs, i);
        text := EscapeNext(escaped, d.val[i], text);
        var e := Dup(escaped, text);
        line := d.key[i].s + " = \"" + e + "\"\n";
      }
      PlainStep(ks, vs, i, before, text, line, out);
      out := out + line;
      i := i + 1;
    }
    PlainEnd(ks, vs, text);
  }

  lemma PlainStep(ks: Slots, vs: Slots, i: nat, before: string, text: string, line: string, out: string)
    requires i < |ks| == |vs| && text == (if ks[i].Str? then Escaped(vs[i], before) else before)
    requires line == if ks[i].Str? then ks[i].s + " = \"" + text + "\"\n" else []
    ensures out + PlainLines(ks, vs, i, before) == (out + line) + PlainLines(ks, vs, i + 1, text)
  {
    hide Escaped;
  }

  lemma PlainEnd(ks: Slots, vs: Slots, text: string)
    requires |ks| == |vs|
    ensures PlainLines(ks, vs, |ks|, text) == []
  {
  }

  // ---------------------------------------------------------------- from dictionary to text and back

  lemma LineNoNul(name: string, e: string)
    requires NUL !in name && NUL !in e
    ensures NUL !in PairText(name, e) + "\n"
  {
    PadMembers(name);
    hide Pad;
  }

  lemma EscapedNoNul(v: Text, before: string)
    requires NUL !in before && (v.Str? ==> NUL !in v.s)
    ensures NUL !in Escaped(v, before)
  {
    if v.Str? { EscapeBounds(v.s); }
  }

  lemma {:induction false} KeysNoNul(ks: Slots, vs: Slots, s: string, j: nat, e: string)
    requires j <= |ks| == |vs| && Printable(ks, vs) && NUL !in e
    ensures NUL !in KeyLines(ks, vs, s, j, e)
    decreases |ks| - j
  {
    hide Printable, PairText, Escaped;
    if j < |ks| {
      if InSection(ks[j], s) {
        SlotPrintable(ks, vs, j);
        EscapedNoNul(vs[j], e);
        Sub(ks[j].s, |s| + 1, |ks[j].s|);
        LineNoNul(ks[j].s[|s| + 1..], Escaped(vs[j], e));
        KeysNoNul(ks, vs, s, j + 1, Escaped(vs[j], e));
      } else {
        KeysNoNul(ks, vs, s, j + 1, e);
      }
    }
  }

  lemma {:induction false} SectionsNoNul(ks: Slots, vs: Slots, j: nat)
    requires j <= |ks| == |vs| && Printable(ks, vs)
    ensures NUL !in SectionTexts(ks, vs, j)
    decreases |ks| - j
  {
    hide Printable, KeyLines;
    if j < |ks| {
      SectionsNoNul(ks, vs, j + 1);
      if IsSection(ks[j]) {
        SlotPrintable(ks, vs, j);
        KeysNoNul(ks, vs, ks[j].s, 0, []);
      }
    }
  }

  lemma {:induction false} PlainNoNul(ks: Slots, vs: Slots, j: nat, e: string)
    requires j <= |ks| == |vs| && Printable(ks, vs) && NUL !in e
    ensures NUL !in PlainLines(ks, vs, j, e)
    decreases |ks| - j
  {
    hide Printable, Escaped;
    if j < |ks| {
      if ks[j].Str? {
        SlotPrintable(ks, vs, j);
        EscapedNoNul(vs[j], e);
        PlainNoNul(ks, vs, j + 1, Escaped(vs[j], e));
      } else {
        PlainNoNul(ks, vs, j + 1, e);
      }
    }
  }

  /// Dumping and loading: the pairs that are printed come back exactly if each printed line can be read, and the
  /// dictionary itself exactly if, besides, sections have no value, pairs have one, and their sections are there.
  method DumpAndLoad(d: Dictionary) returns (d': Dictionary?)
    requires d.Valid() && Printable(d.key[..], d.val[..])
    ensures d' != null ==> fresh(d') && d'.Valid()
    ensures d' != null && d'.Map() == LoadedPairs(d.key[..], d.val[..]) <==> Readable(d.key[..], d.val[..])
    ensures d' != null && d'.Map() == d.Map() <==> Readable(d.key[..], d.val[..]) && Complete(d.key[..], d.val[..])
  {
    hide Readable, Printable, LoadedPairs, Contents, LoadText, Complete, DumpText;
    DumpLoadsBack(d.key[..], d.val[..]);
    DumpNoNul(d.key[..], d.val[..]);
    var text := DumpIni(d);
    d' := LoadFile(text, d.hashOf);
  }

  lemma DumpNoNul(ks: Slots, vs: Slots)
    requires |ks| == |vs| && Printable(ks, vs)
    ensures NUL !in DumpText(ks, vs)
  {
    hide Printable, SectionTexts, PlainLines, SomeSection;
    SectionsNoNul(ks, vs, 0);
    PlainNoNul(ks, vs, 0, []);
  }
}
