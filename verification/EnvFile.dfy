/**
The .env template's parser and printer (internal/config/setup.go).  Text is a sequence of
Unicode characters; the code compares single ASCII bytes only, so nothing is lost by that.
*/
module EnvFile {
  // --------------------------------------------------------------- characters

  /** What strings.TrimSpace trims. */
  predicate Space(c: char) {
    var u := c as int;
    || 0x09 <= u <= 0x0D || u == 0x20 || u == 0x85 || u == 0xA0
    || u == 0x1680 || 0x2000 <= u <= 0x200A || u == 0x2028 || u == 0x2029 || u == 0x202F || u == 0x205F || u == 0x3000
  }

  /** The 25 characters with Unicode's property White_Space. */
  const SPACES: string :=
    "\t\n\U{B}\U{C}\r \U{85}\U{A0}\U{1680}"
    + "\U{2000}\U{2001}\U{2002}\U{2003}\U{2004}\U{2005}\U{2006}\U{2007}\U{2008}\U{2009}\U{200A}"
    + "\U{2028}\U{2029}\U{202F}\U{205F}\U{3000}"

  lemma SpacesAre(c: char)
    ensures |SPACES| == 25 && (Space(c) <==> c in SPACES)
  {
    if Space(c) {
      var u := c as int;
      var i := if u <= 0x0D then u - 9 else if u == 0x20 then 5 else if u == 0x85 then 6 else if u == 0xA0 then 7
               else if u == 0x1680 then 8 else if u <= 0x200A then 9 + u - 0x2000
               else if u <= 0x2029 then 20 + u - 0x2028 else if u == 0x202F then 22 else if u == 0x205F then 23 else 24;
      assert SPACES[i] == c;
    }
  }

  predicate Blank(c: char) { c == ' ' || c == '\t' }

  function FirstSolid(s: string, i: nat): (n: nat)
    requires i <= |s|
    ensures i <= n <= |s| && (n < |s| ==> !Space(s[n]))
    ensures forall j | i <= j < n :: Space(s[j])
    decreases |s| - i
  {
    if i < |s| && Space(s[i]) then FirstSolid(s, i + 1) else i
  }

  function LastSolid(s: string, i: nat): (n: nat)
    requires i <= |s|
    ensures n <= i && (n > 0 ==> !Space(s[n - 1]))
    ensures forall j | n <= j < i :: Space(s[j])
  {
    if i > 0 && Space(s[i - 1]) then LastSolid(s, i - 1) else i
  }

  function TrimLeft(s: string): string { s[FirstSolid(s, 0)..] }

  function TrimRight(s: string): string { s[..LastSolid(s, |s|)] }

  function Trim(s: string): string { TrimRight(TrimLeft(s)) }

  predicate Trimmed(s: string) { s != "" ==> !Space(s[0]) && !Space(s[|s| - 1]) }

  lemma TrimTrims(s: string)
    ensures Trimmed(Trim(s))
    ensures exists i, j :: 0 <= i <= j <= |s| && Trim(s) == s[i..j]
  {
    var i := FirstSolid(s, 0);
    var l := s[i..];
    var n := LastSolid(l, |l|);
    if n > 0 { assert l[..n][0] == s[i]; }
    assert Trim(s) == s[i..i + n];
  }

  lemma TrimKeeps(s: string)
    requires Trimmed(s)
    ensures Trim(s) == s
  {
    assert FirstSolid(s, 0) == 0;
    assert s[0..] == s;
    assert LastSolid(s, |s|) == |s|;
  }

  /** What is trimmed starts with the first character that is not a space. */
  lemma TrimStarts(s: string, i: nat)
    requires i < |s| && !Space(s[i]) && forall j | 0 <= j < i :: Space(s[j])
    ensures Trim(s) != "" && Trim(s)[0] == s[i]
  {
    assert FirstSolid(s, 0) == i;
    var l := s[i..];
    assert !Space(l[0]);
    assert LastSolid(l, |l|) > 0;
  }

  lemma TrimEmptyIff(s: string)
    ensures Trim(s) == "" <==> forall i | 0 <= i < |s| :: Space(s[i])
  {
    var i := FirstSolid(s, 0);
    if i < |s| { TrimStarts(s, i); }
  }

  /** The first index of a character, or the length. */
  function IndexOf(s: string, c: char): (i: nat)
    ensures i <= |s| && (i < |s| ==> s[i] == c)
    ensures forall j | 0 <= j < i :: s[j] != c
  {
    if s == "" || s[0] == c then 0 else IndexOf(s[1..], c) + 1
  }

  // -------------------------------------------------------- trailing comments

  /** A '#' after a blank. */
  predicate CommentAt(s: string, i: int) { 1 <= i < |s| && s[i] == '#' && Blank(s[i - 1]) }

  ghost predicate Whole(s: string) { forall i :: !CommentAt(s, i) }

  function FirstComment(s: string, i: nat): (c: nat)
    requires i <= |s|
    ensures i <= c <= |s| && (c < |s| ==> CommentAt(s, c))
    ensures forall j | i <= j < c :: !CommentAt(s, j)
    decreases |s| - i
  {
    if i == |s| || CommentAt(s, i) then i else FirstComment(s, i + 1)
  }

  function BlankStart(s: string, i: nat): (b: nat)
    requires i <= |s|
    ensures b <= i && forall j | b <= j < i :: Blank(s[j])
    ensures b > 0 ==> !Blank(s[b - 1])
  {
    if i > 0 && Blank(s[i - 1]) then BlankStart(s, i - 1) else i
  }

  /** A value and the note after it, with the blanks between them. */
  function SplitComment(rest: string): (string, string) {
    var c := FirstComment(rest, 0);
    if c == |rest| then (rest, "")
    else (rest[..BlankStart(rest, c)], rest[BlankStart(rest, c)..])
  }

  /** Nothing is lost, the value holds no comment, and there is a note exactly when the text held one. */
  lemma SplitIs(rest: string)
    ensures var (value, trailing) := SplitComment(rest);
      && value + trailing == rest
      && Whole(value)
      && (trailing == "" <==> Whole(rest))
      && (trailing != "" ==> Blank(trailing[0]) && |Trim(trailing)| > 0 && Trim(trailing)[0] == '#')
      && (trailing != "" && value != "" ==> !Blank(value[|value| - 1]))
  {
    var c := FirstComment(rest, 0);
    var (value, trailing) := SplitComment(rest);
    forall i ensures !CommentAt(value, i) {
      assert CommentAt(value, i) ==> CommentAt(rest, i);
    }
    if c < |rest| {
      var b := BlankStart(rest, c);
      assert b < c && CommentAt(rest, c);
      NoteTrims(trailing, c - b);
    }
  }

  lemma NoteTrims(note: string, n: nat)
    requires n < |note| && note[n] == '#' && forall i | 0 <= i < n :: Blank(note[i])
    ensures Trim(note) != "" && Trim(note)[0] == '#'
  {
    TrimStarts(note, n);
  }

  /** The scan for a comment, and back over the blanks before it. */
  method SplitTrailingComment(rest: string) returns (value: string, trailing: string)
    ensures (value, trailing) == SplitComment(rest)
  {
    var i := 1;
    while i < |rest|
      invariant 1 <= i && (i <= |rest| ==> FirstComment(rest, 0) >= i)
      invariant i > |rest| ==> rest == ""
    {
      if rest[i] != '#' || (rest[i - 1] != ' ' && rest[i - 1] != '\t') {
        assert !CommentAt(rest, i);
        i := i + 1;
        continue;
      }
      assert CommentAt(rest, i);
      var start := i;
      while start > 0 && (rest[start - 1] == ' ' || rest[start - 1] == '\t')
        invariant start <= i && BlankStart(rest, i) == BlankStart(rest, start)
      {
        start := start - 1;
      }
      return rest[..start], rest[start..];
    }
    return rest, "";
  }

  // -------------------------------------------------------------------- lines

  /** Every "\r\n" becomes "\n". */
  function Fold(s: string): string {
    if s == "" then ""
    else if |s| >= 2 && s[0] == '\r' && s[1] == '\n' then ['\n'] + Fold(s[2..])
    else [s[0]] + Fold(s[1..])
  }

  /** strings.Split at newlines. */
  function Split(s: string): (lines: seq<string>)
    ensures lines != []
    decreases |s|
  {
    var i := IndexOf(s, '\n');
    if i == |s| then [s] else [s[..i]] + Split(s[i + 1..])
  }

  function Unlines(lines: seq<string>): string {
    if lines == [] then "" else lines[0] + ['\n'] + Unlines(lines[1..])
  }

  predicate OneLine(s: string) { '\n' !in s }

  predicate AllOneLine(lines: seq<string>) { forall i | 0 <= i < |lines| :: OneLine(lines[i]) }

  /** Without the carriage return that the end of the line makes part of a line break. */
  function Chop(line: string): string {
    if line != "" && line[|line| - 1] == '\r' then line[..|line| - 1] else line
  }

  function ChopAll(lines: seq<string>): (chopped: seq<string>)
    ensures |chopped| == |lines| && forall i | 0 <= i < |lines| :: chopped[i] == Chop(lines[i])
  {
    seq(|lines|, i requires 0 <= i < |lines| => Chop(lines[i]))
  }

  lemma FoldHead(c: char, rest: string)
    requires c == '\r' ==> rest == "" || rest[0] != '\n'
    ensures Fold([c] + rest) == [c] + Fold(rest)
  {
    assert ([c] + rest)[1..] == rest;
  }

  lemma {:induction false} FoldLine(line: string, rest: string)
    requires OneLine(line)
    ensures Fold(line + ['\n'] + rest) == Chop(line) + ['\n'] + Fold(rest)
  {
    if line == "" {
      FoldHead('\n', rest);
      assert line + ['\n'] + rest == ['\n'] + rest;
    } else if line == ['\r'] {
      assert (line + ['\n'] + rest)[2..] == rest;
      assert Chop(line) == "";
    } else {
      FoldLine(line[1..], rest);
      FoldOn(line, rest, line[1..] + ['\n'] + rest);
    }
  }

  lemma FoldOn(line: string, rest: string, more: string)
    requires OneLine(line) && line != "" && line != ['\r'] && more == line[1..] + ['\n'] + rest
    requires Fold(more) == Chop(line[1..]) + ['\n'] + Fold(rest)
    ensures Fold(line + ['\n'] + rest) == Chop(line) + ['\n'] + Fold(rest)
  {
    FirstOfMore(line, rest);
    FoldHead(line[0], more);
    FrontAssoc(line[0], line[1..], rest);
    FrontAssoc(line[0], Chop(line[1..]), Fold(rest));
    ChopTail(line);
    assert line == [line[0]] + line[1..];
  }

  lemma FirstOfMore(line: string, rest: string)
    requires OneLine(line) && line != "" && line != ['\r']
    ensures line[0] == '\r' ==> (line[1..] + ['\n'] + rest)[0] != '\n'
  {
    if |line| > 1 { assert (line[1..] + ['\n'] + rest)[0] == line[1] && line[1] in line; }
  }

  lemma FrontAssoc(c: char, a: string, b: string)
    ensures [c] + a + ['\n'] + b == [c] + (a + ['\n'] + b)
  {
  }

  lemma ChopTail(line: string)
    requires line != "" && line != ['\r']
    ensures Chop(line) == [line[0]] + Chop(line[1..])
  {
  }

  lemma BreakAt(line: string, rest: string)
    requires OneLine(line)
    ensures IndexOf(line + ['\n'] + rest, '\n') == |line|
  {
    var s := line + ['\n'] + rest;
    assert s[|line|] == '\n';
    assert forall j | 0 <= j < |line| :: s[j] == line[j];
  }

  lemma SplitLine(line: string, rest: string)
    requires OneLine(line)
    ensures Split(line + ['\n'] + rest) == [line] + Split(rest)
  {
    var s := line + ['\n'] + rest;
    BreakAt(line, rest);
    assert s[..|line|] == line && s[|line| + 1..] == rest;
  }

  lemma ReadOneLine(line: string, rest: string)
    requires OneLine(line)
    ensures Split(Fold(line + ['\n'] + rest)) == [Chop(line)] + Split(Fold(rest))
  {
    FoldLine(line, rest);
    SplitLine(Chop(line), Fold(rest));
  }

  lemma ChopFirst(lines: seq<string>)
    requires lines != []
    ensures ChopAll(lines) == [Chop(lines[0])] + ChopAll(lines[1..])
  {
  }

  /** Splitting what was put together from lines gives the lines, and an empty one after the last break. */
  lemma {:induction false} SplitUnlines(lines: seq<string>)
    requires AllOneLine(lines)
    ensures Split(Fold(Unlines(lines))) == ChopAll(lines) + [""]
  {
    if lines == [] {
      assert ChopAll([]) == [];
    } else {
      SplitUnlines(lines[1..]);
      ReadOneLine(lines[0], Unlines(lines[1..]));
      ChopFirst(lines);
    }
  }

  /** strings.TrimRight of newlines. */
  function TrimBreaks(s: string): string {
    if s != "" && s[|s| - 1] == '\n' then TrimBreaks(s[..|s| - 1]) else s
  }

  /** The lines without the empty ones at the end, though never none. */
  function Kept(lines: seq<string>): seq<string> {
    if lines == [] then [""]
    else if lines[|lines| - 1] != "" then lines
    else Kept(lines[..|lines| - 1])
  }

  lemma {:induction false} UnlinesLast(lines: seq<string>, line: string)
    ensures Unlines(lines + [line]) == Unlines(lines) + line + ['\n']
  {
    if lines != [] {
      UnlinesLast(lines[1..], line);
      assert (lines + [line])[1..] == lines[1..] + [line];
    }
  }

  /** Trimming the breaks at the end drops the empty lines there. */
  lemma {:induction false} TrimUnlines(lines: seq<string>)
    requires AllOneLine(lines)
    ensures TrimBreaks(Unlines(lines)) + ['\n'] == Unlines(Kept(lines))
  {
    if lines != [] {
      var n := |lines| - 1;
      var line := lines[n];
      UnlinesLast(lines[..n], line);
      assert lines == lines[..n] + [line];
      var s := Unlines(lines);
      if line == "" {
        TrimUnlines(lines[..n]);
        assert s[..|s| - 1] == Unlines(lines[..n]);
      } else {
        assert s[..|s| - 1] == Unlines(lines[..n]) + line;
        assert (Unlines(lines[..n]) + line)[|s| - 2] == line[|line| - 1];
      }
    }
  }

  // ------------------------------------------------------------------ entries

  /** A line that is passed through, when the key is empty; otherwise a variable with its default and note. */
  datatype Entry = Entry(raw: string, key: string, value: string, trailing: string)

  const BLANK := Entry("", "", "", "")

  predicate PassesThrough(line: string) {
    var trimmed := Trim(line);
    '=' !in line || trimmed == "" || trimmed[0] == '#'
  }

  function ParseLine(line: string): Entry {
    if PassesThrough(line) then Entry(line, "", "", "")
    else
      var i := IndexOf(line, '=');
      var (value, trailing) := SplitComment(line[i + 1..]);
      Entry("", Trim(line[..i]), Trim(value), trailing)
  }

  function ParseLines(lines: seq<string>): (entries: seq<Entry>)
    ensures |entries| == |lines| && forall i | 0 <= i < |lines| :: entries[i] == ParseLine(lines[i])
  {
    seq(|lines|, i requires 0 <= i < |lines| => ParseLine(lines[i]))
  }

  function Parse(text: string): seq<Entry> { ParseLines(Split(Fold(text))) }

  function VarLine(key: string, value: string): string { key + ['='] + value }

  /** The lines an entry is written as: a note goes above its variable. */
  function LinesOf(e: Entry): seq<string> {
    if e.key == "" then [e.raw]
    else (if Trim(e.trailing) != "" then [Trim(e.trailing)] else []) + [VarLine(e.key, e.value)]
  }

  function Pieces(entries: seq<Entry>): (pieces: seq<seq<string>>)
    ensures |pieces| == |entries| && forall i | 0 <= i < |entries| :: pieces[i] == LinesOf(entries[i])
  {
    seq(|entries|, i requires 0 <= i < |entries| => LinesOf(entries[i]))
  }

  function Flat(pieces: seq<seq<string>>): seq<string> {
    if pieces == [] then [] else Flat(pieces[..|pieces| - 1]) + pieces[|pieces| - 1]
  }

  function AllLines(entries: seq<Entry>): seq<string> { Flat(Pieces(entries)) }

  lemma AllLinesLast(entries: seq<Entry>)
    requires entries != []
    ensures AllLines(entries) == AllLines(entries[..|entries| - 1]) + LinesOf(entries[|entries| - 1])
  {
    assert Pieces(entries)[..|entries| - 1] == Pieces(entries[..|entries| - 1]);
  }

  function Render(entries: seq<Entry>): string { TrimBreaks(Unlines(AllLines(entries))) + ['\n'] }

  method ParseEntry(line: string) returns (e: Entry)
    ensures e == ParseLine(line)
  {
    var trimmed := Trim(line);
    var cut := IndexOf(line, '=');
    if cut == |line| || trimmed == "" || trimmed[0] == '#' {
      return Entry(line, "", "", "");
    }
    var value, trailing := SplitTrailingComment(line[cut + 1..]);
    e := Entry("", Trim(line[..cut]), Trim(value), trailing);
  }

  lemma ParseMore(lines: seq<string>, i: nat)
    requires i < |lines|
    ensures ParseLines(lines[..i + 1]) == ParseLines(lines[..i]) + [ParseLine(lines[i])]
  {
  }

  method ParseExample(text: string) returns (entries: seq<Entry>)
    ensures entries == Parse(text)
  {
    var lines := Split(Fold(text));
    entries := [];
    for i := 0 to |lines|
      invariant entries == ParseLines(lines[..i])
    {
      var e := ParseEntry(lines[i]);
      entries := entries + [e];
      ParseMore(lines, i);
    }
    assert lines[..|lines|] == lines;
  }

  lemma {:induction false} UnlinesMore(a: seq<string>, b: seq<string>)
    ensures Unlines(a + b) == Unlines(a) + Unlines(b)
  {
    if a == [] {
      assert a + b == b;
    } else {
      UnlinesMore(a[1..], b);
      assert (a + b)[1..] == a[1..] + b;
    }
  }

  lemma UnlinesOne(line: string)
    ensures Unlines([line]) == line + ['\n']
  {
    assert [line][1..] == [];
  }

  method WriteEntry(e: Entry) returns (b: string)
    ensures b == Unlines(LinesOf(e))
  {
    if e.key == "" {
      UnlinesOne(e.raw);
      return e.raw + ['\n'];
    }
    b := "";
    var note := Trim(e.trailing);
    if note != "" {
      b := note + ['\n'];
    }
    ghost var line := VarLine(e.key, e.value);
    UnlinesOne(note);
    UnlinesOne(line);
    UnlinesMore([note], [line]);
    b := b + (e.key + ['='] + e.value + ['\n']);
  }

  lemma RenderedMore(entries: seq<Entry>, i: nat)
    requires i < |entries|
    ensures Unlines(AllLines(entries[..i + 1])) == Unlines(AllLines(entries[..i])) + Unlines(LinesOf(entries[i]))
  {
    assert entries[..i + 1][..i] == entries[..i];
    AllLinesLast(entries[..i + 1]);
    UnlinesMore(AllLines(entries[..i]), LinesOf(entries[i]));
  }

  /** The text writeEnv writes to the file. */
  method RenderEnv(entries: seq<Entry>) returns (rendered: string)
    ensures rendered == Render(entries)
  {
    var b := "";
    for i := 0 to |entries|
      invariant b == Unlines(AllLines(entries[..i]))
    {
      var text := WriteEntry(entries[i]);
      RenderedMore(entries, i);
      b := b + text;
    }
    assert entries[..|entries|] == entries;
    rendered := TrimBreaks(b) + ['\n'];
  }

  // -------------------------------------------------------------- round trips

  predicate KeyOk(key: string) { key != "" && Trimmed(key) && OneLine(key) && '=' !in key && key[0] != '#' }

  ghost predicate ValueOk(value: string) { Trimmed(value) && OneLine(value) && Whole(value) }

  predicate NoteOk(note: string) { OneLine(note) && (Trim(note) != "" ==> Trim(note)[0] == '#') }

  /** Entries that printing and parsing keep apart. */
  ghost predicate Settled(e: Entry) {
    if e.key == "" then OneLine(e.raw) && PassesThrough(e.raw) && Chop(e.raw) == e.raw
    else KeyOk(e.key) && ValueOk(e.value) && NoteOk(e.trailing)
  }

  lemma VarLineIs(key: string, value: string)
    requires key != ""
    ensures var line := VarLine(key, value);
      && |line| == |key| + 1 + |value| && line[0] == key[0] && line[|key|] == '='
      && line[..|key|] == key && line[|key| + 1..] == value
      && line[|line| - 1] == if value == "" then '=' else value[|value| - 1]
  {
  }

  lemma CutsAtEquals(key: string, value: string)
    requires key != "" && '=' !in key
    ensures IndexOf(VarLine(key, value), '=') == |key|
  {
    var line := VarLine(key, value);
    assert line[|key|] == '=';
    assert forall j | 0 <= j < |key| :: line[j] == key[j];
  }

  /** What a variable's line is read as, whatever its value. */
  lemma ReadsVariable(key: string, value: string)
    requires KeyOk(key)
    ensures ParseLine(VarLine(key, value)) == Entry("", key, Trim(SplitComment(value).0), SplitComment(value).1)
  {
    var line := VarLine(key, value);
    VarLineIs(key, value);
    TrimFirst(line);
    CutsAtEquals(key, value);
    assert line[|key|] in line;
    TrimKeeps(key);
  }

  lemma TrimFirst(s: string)
    requires s != "" && !Space(s[0])
    ensures Trim(s) != "" && Trim(s)[0] == s[0]
  {
    TrimStarts(s, 0);
  }

  /** A trimmed value is read back exactly when it holds no blank followed by '#'. */
  lemma ReadBackIff(key: string, value: string)
    requires KeyOk(key) && Trimmed(value)
    ensures ParseLine(VarLine(key, value)).value == value <==> Whole(value)
  {
    ReadsVariable(key, value);
    SplitIs(value);
    TrimKeeps(value);
    TrimTrims(SplitComment(value).0);
  }

  predicate Optional(key: string) { key in {"STATIC_DIR", "GEMINI_IMAGE_MODEL", "SERPAPI_API_KEY"} }

  predicate Interpolated(key: string) { key in {"POSTGRES_USER", "POSTGRES_PASSWORD", "POSTGRES_DB"} }

  datatype Problem = Fine | IsEmpty | HasDollar | HasComment

  function Validate(key: string, value: string): Problem {
    if value == "" then if Optional(key) then Fine else IsEmpty
    else if Interpolated(key) then
      if '$' in value then HasDollar else if SplitComment(value).1 != "" then HasComment else Fine
    else Fine
  }

  /**
  Only three settings may be empty; a database setting is accepted exactly when it is not
  empty, holds no '$' and is read back from the file, and any other when it is not empty.
  */
  lemma ValidatedIsReadBack(key: string, value: string)
    requires KeyOk(key) && Trimmed(value)
    ensures value == "" ==>
      (Validate(key, value) == Fine <==> key in {"STATIC_DIR", "GEMINI_IMAGE_MODEL", "SERPAPI_API_KEY"})
    ensures value != "" ==>
      (Validate(key, value) == Fine <==>
         (key in {"POSTGRES_USER", "POSTGRES_PASSWORD", "POSTGRES_DB"} ==>
            '$' !in value && ParseLine(VarLine(key, value)).value == value))
    ensures Validate(key, value) == IsEmpty ==> value == ""
    ensures Validate(key, value) == HasDollar ==> '$' in value
    ensures Validate(key, value) == HasComment ==> ParseLine(VarLine(key, value)).value != value
  {
    SplitIs(value);
    ReadBackIff(key, value);
  }

  /** What an entry is read back as: its note, on the line above, is an entry of its own. */
  function Spread(e: Entry): seq<Entry> {
    if e.key == "" then [Entry(e.raw, "", "", "")]
    else
      (if Trim(e.trailing) != "" then [Entry(Trim(e.trailing), "", "", "")] else [])
      + [Entry("", e.key, e.value, "")]
  }

  function SpreadAll(entries: seq<Entry>): seq<Entry> {
    if entries == [] then [] else SpreadAll(entries[..|entries| - 1]) + Spread(entries[|entries| - 1])
  }

  /** Entries without the blank lines at the end. */
  function Stripped(entries: seq<Entry>): seq<Entry> {
    if entries != [] && entries[|entries| - 1] == BLANK then Stripped(entries[..|entries| - 1]) else entries
  }

  lemma NoteIsComment(note: string)
    requires Trim(note) != "" && Trim(note)[0] == '#'
    ensures PassesThrough(Trim(note)) && Chop(Trim(note)) == Trim(note)
    ensures OneLine(note) ==> OneLine(Trim(note))
  {
    TrimTrims(note);
    TrimKeeps(Trim(note));
  }

  lemma ValueIsRead(key: string, value: string)
    requires KeyOk(key) && ValueOk(value)
    ensures ParseLine(VarLine(key, value)) == Entry("", key, value, "")
  {
    ReadsVariable(key, value);
    SplitIs(value);
    TrimKeeps(value);
  }

  lemma VariableIsOneLine(key: string, value: string)
    requires KeyOk(key) && ValueOk(value)
    ensures Chop(VarLine(key, value)) == VarLine(key, value) && OneLine(VarLine(key, value))
  {
    VarLineIs(key, value);
  }

  /** A line that reads as an entry and ends in no carriage return. */
  predicate ReadsAs(line: string, e: Entry) { ParseLine(line) == e && Chop(line) == line && OneLine(line) }

  predicate AllReadAs(lines: seq<string>, entries: seq<Entry>) {
    |lines| == |entries| && forall i | 0 <= i < |lines| :: ReadsAs(lines[i], entries[i])
  }

  lemma AllRead(lines: seq<string>, entries: seq<Entry>)
    requires AllReadAs(lines, entries)
    ensures ParseLines(lines) == entries && AllOneLine(lines) && ChopAll(lines) == lines
  {
    forall i | 0 <= i < |lines|
      ensures ParseLine(lines[i]) == entries[i] && OneLine(lines[i]) && Chop(lines[i]) == lines[i]
    {
      assert ReadsAs(lines[i], entries[i]);
    }
  }

  lemma AllReadMore(a: seq<string>, b: seq<string>, x: seq<Entry>, y: seq<Entry>)
    requires AllReadAs(a, x) && AllReadAs(b, y)
    ensures AllReadAs(a + b, x + y)
  {
  }

  lemma VariableReads(key: string, value: string)
    requires KeyOk(key) && ValueOk(value)
    ensures AllReadAs([VarLine(key, value)], [Entry("", key, value, "")])
  {
    ValueIsRead(key, value);
    VariableIsOneLine(key, value);
  }

  lemma NoteReads(note: string)
    requires NoteOk(note) && Trim(note) != ""
    ensures AllReadAs([Trim(note)], [Entry(Trim(note), "", "", "")])
  {
    NoteIsComment(note);
  }

  lemma SpreadReads(e: Entry)
    requires Settled(e)
    ensures AllReadAs(LinesOf(e), Spread(e))
  {
    if e.key != "" {
      VariableReads(e.key, e.value);
      if Trim(e.trailing) != "" {
        NoteReads(e.trailing);
        AllReadMore([Trim(e.trailing)], [VarLine(e.key, e.value)],
          [Entry(Trim(e.trailing), "", "", "")], [Entry("", e.key, e.value, "")]);
      } else {
        assert LinesOf(e) == [VarLine(e.key, e.value)] && Spread(e) == [Entry("", e.key, e.value, "")];
      }
    }
  }

  lemma {:induction false} SpreadReadsAll(entries: seq<Entry>)
    requires forall i | 0 <= i < |entries| :: Settled(entries[i])
    ensures AllReadAs(AllLines(entries), SpreadAll(entries))
  {
    if entries != [] {
      var n := |entries| - 1;
      SpreadReads(entries[n]);
      SpreadReadsAll(entries[..n]);
      AllLinesLast(entries);
      AllReadMore(AllLines(entries[..n]), LinesOf(entries[n]), SpreadAll(entries[..n]), Spread(entries[n]));
    }
  }

  lemma ParseConcat(a: seq<string>, b: seq<string>)
    ensures ParseLines(a + b) == ParseLines(a) + ParseLines(b)
  {
  }

  lemma ParseBlankEnd(lines: seq<string>)
    ensures Stripped(ParseLines(lines + [""])) == Stripped(ParseLines(lines))
  {
    ParseConcat(lines, [""]);
    var parsed := ParseLines(lines);
    assert ParseLines([""]) == [BLANK];
    assert (parsed + [BLANK])[..|parsed|] == parsed;
  }

  lemma OnlyABlank()
    ensures Stripped(ParseLines([""])) == Stripped(ParseLines([]))
  {
    ParseBlankEnd([]);
    assert [] + [""] == [""];
  }

  lemma {:induction false} KeptStripped(lines: seq<string>)
    ensures Stripped(ParseLines(Kept(lines))) == Stripped(ParseLines(lines))
  {
    if lines == [] {
      OnlyABlank();
    } else if lines[|lines| - 1] == "" {
      var n := |lines| - 1;
      KeptStripped(lines[..n]);
      ParseBlankEnd(lines[..n]);
      assert lines == lines[..n] + [""];
    }
  }

  lemma {:induction false} KeptLines(lines: seq<string>)
    ensures AllOneLine(lines) ==> AllOneLine(Kept(lines))
    ensures ChopAll(lines) == lines ==> ChopAll(Kept(lines)) == Kept(lines)
  {
    if lines != [] && lines[|lines| - 1] == "" {
      var n := |lines| - 1;
      KeptLines(lines[..n]);
      if ChopAll(lines) == lines { assert ChopAll(lines)[..n] == ChopAll(lines[..n]); }
    }
  }

  /** What a rendering is read back as. */
  lemma ParsedAgain(lines: seq<string>)
    requires AllOneLine(lines)
    ensures Parse(Unlines(lines)) == ParseLines(ChopAll(lines) + [""])
  {
    SplitUnlines(lines);
  }

  /** Parsing what was printed gives back the entries, notes above their variables, up to blank lines at the end. */
  lemma RoundTrip(entries: seq<Entry>)
    requires forall i | 0 <= i < |entries| :: Settled(entries[i])
    ensures Stripped(Parse(Render(entries))) == Stripped(SpreadAll(entries))
  {
    var lines := AllLines(entries);
    SpreadReadsAll(entries);
    AllRead(lines, SpreadAll(entries));
    TrimUnlines(lines);
    KeptStripped(lines);
    KeptLines(lines);
    ParsedAgain(Kept(lines));
    ParseBlankEnd(Kept(lines));
  }

  /** The variables and their values, in order. */
  function Pairs(entries: seq<Entry>): seq<(string, string)> {
    if entries == [] then []
    else
      var e := entries[|entries| - 1];
      Pairs(entries[..|entries| - 1]) + if e.key == "" then [] else [(e.key, e.value)]
  }

  lemma {:induction false} PairsAre(entries: seq<Entry>)
    requires forall e | e in entries :: e.key != ""
    ensures |Pairs(entries)| == |entries|
    ensures forall i | 0 <= i < |entries| :: Pairs(entries)[i] == (entries[i].key, entries[i].value)
  {
    if entries != [] {
      var n := |entries| - 1;
      PairsAre(entries[..n]);
      assert entries[n] in entries;
    }
  }

  lemma {:induction false} PairsStripped(entries: seq<Entry>)
    ensures Pairs(Stripped(entries)) == Pairs(entries)
  {
    if entries != [] && entries[|entries| - 1] == BLANK { PairsStripped(entries[..|entries| - 1]); }
  }

  lemma {:induction false} PairsMore(a: seq<Entry>, b: seq<Entry>)
    ensures Pairs(a + b) == Pairs(a) + Pairs(b)
  {
    if b == [] {
      assert a + b == a;
    } else {
      var n := |b| - 1;
      PairsMore(a, b[..n]);
      assert (a + b)[..|a + b| - 1] == a + b[..n];
    }
  }

  lemma PairsSpread(e: Entry)
    ensures Pairs(Spread(e)) == Pairs([e])
  {
    assert [e][..0] == [];
    if e.key != "" && Trim(e.trailing) != "" {
      var note := Entry(Trim(e.trailing), "", "", "");
      PairsMore([note], [Entry("", e.key, e.value, "")]);
      assert [note][..0] == [];
    }
  }

  lemma {:induction false} PairsSpreadAll(entries: seq<Entry>)
    ensures Pairs(SpreadAll(entries)) == Pairs(entries)
  {
    if entries != [] {
      var n := |entries| - 1;
      PairsSpread(entries[n]);
      PairsSpreadAll(entries[..n]);
      PairsMore(SpreadAll(entries[..n]), Spread(entries[n]));
      assert [entries[n]][..0] == [];
    }
  }

  /** In particular the same variables with the same values in the same order. */
  lemma PairsRoundTrip(entries: seq<Entry>)
    requires forall i | 0 <= i < |entries| :: Settled(entries[i])
    ensures Pairs(Parse(Render(entries))) == Pairs(entries)
  {
    RoundTrip(entries);
    PairsStripped(Parse(Render(entries)));
    PairsStripped(SpreadAll(entries));
    PairsSpreadAll(entries);
  }

  // ------------------------------------------------------ rendering what was parsed

  lemma PartIs(s: string, i: nat, j: nat)
    requires i <= j <= |s|
    ensures OneLine(s) ==> OneLine(s[i..j])
    ensures '=' !in s ==> '=' !in s[i..j]
    ensures Whole(s) ==> Whole(s[i..j])
  {
    if Whole(s) {
      forall k ensures !CommentAt(s[i..j], k) {
        assert !CommentAt(s, i + k);
      }
    }
  }

  lemma ParsedKey(line: string, n: nat)
    requires n < |line| && '=' !in line[..n] && OneLine(line)
    requires Trim(line) != "" && Trim(line)[0] != '#' && Trim(line[..n]) != ""
    ensures KeyOk(Trim(line[..n]))
  {
    var before := line[..n];
    TrimTrims(before);
    var i, j :| 0 <= i <= j <= |before| && Trim(before) == before[i..j];
    PartIs(line, 0, n);
    PartIs(before, i, j);
    TrimEmptyIff(before);
    var k := FirstSolid(before, 0);
    TrimStarts(before, k);
    assert forall m | 0 <= m <= k :: before[m] == line[m];
    TrimStarts(line, k);
  }

  lemma OneLineParts(a: string, b: string)
    requires OneLine(a + b)
    ensures OneLine(a) && OneLine(b)
  {
    assert forall c | c in a || c in b :: c in a + b;
  }

  lemma TrimOk(value: string)
    requires OneLine(value) && Whole(value)
    ensures ValueOk(Trim(value))
  {
    TrimTrims(value);
    var i, j :| 0 <= i <= j <= |value| && Trim(value) == value[i..j];
    PartIs(value, i, j);
  }

  lemma ParsedValue(rest: string)
    requires OneLine(rest)
    ensures ValueOk(Trim(SplitComment(rest).0)) && NoteOk(SplitComment(rest).1)
  {
    SplitIs(rest);
    var parts := SplitComment(rest);
    OneLineParts(parts.0, parts.1);
    TrimOk(parts.0);
    if parts.1 == "" { TrimEmptyIff(parts.1); }
  }

  lemma ParsedVariable(line: string, i: nat)
    requires OneLine(line) && i < |line| && '=' !in line[..i]
    requires Trim(line) != "" && Trim(line)[0] != '#' && Trim(line[..i]) != ""
    ensures KeyOk(Trim(line[..i]))
    ensures ValueOk(Trim(SplitComment(line[i + 1..]).0)) && NoteOk(SplitComment(line[i + 1..]).1)
  {
    assert line == line[..i + 1] + line[i + 1..];
    OneLineParts(line[..i + 1], line[i + 1..]);
    ParsedKey(line, i);
    ParsedValue(line[i + 1..]);
  }

  /** What is parsed prints and parses back, but for carriage returns at the end of passed-through lines. */
  lemma ParsedSettled(line: string)
    requires OneLine(line)
    ensures var e := ParseLine(line);
      if e.key == "" then OneLine(e.raw) && PassesThrough(e.raw) else Settled(e)
  {
    if !PassesThrough(line) && ParseLine(line).key != "" { ParsedVariable(line, IndexOf(line, '=')); }
  }

  ghost predicate Stable(line: string) { LinesOf(ParseLine(line)) == [line] }

  /** A carriage return is a space: without it the line still starts the same, if with anything. */
  lemma ChopTrims(line: string)
    ensures Trim(Chop(line)) == "" <==> Trim(line) == ""
    ensures Trim(line) != "" ==> Trim(Chop(line))[0] == Trim(line)[0]
  {
    var short := Chop(line);
    TrimEmptyIff(line);
    TrimEmptyIff(short);
    assert forall m | 0 <= m < |short| :: short[m] == line[m];
    if Trim(line) != "" {
      var k := FirstSolid(line, 0);
      assert k < |short|;
      TrimStarts(line, k);
      TrimStarts(short, k);
    }
  }

  lemma PassesChopped(line: string)
    requires PassesThrough(line)
    ensures PassesThrough(Chop(line)) && Stable(Chop(line))
  {
    ChopTrims(line);
  }

  /** The lines an entry that was parsed is written as. */
  lemma ParsedLines(line: string)
    requires OneLine(line)
    ensures var e := ParseLine(line);
      && AllOneLine(LinesOf(e))
      && (forall l | l in LinesOf(e) :: Stable(Chop(l)))
      && (e.key != "" ==> forall l | l in LinesOf(e) :: Chop(l) == l)
  {
    var e := ParseLine(line);
    ParsedSettled(line);
    if e.key == "" {
      PassesChopped(e.raw);
    } else {
      SpreadReads(e);
      AllRead(LinesOf(e), Spread(e));
      forall i | 0 <= i < |LinesOf(e)| ensures Chop(LinesOf(e)[i]) == LinesOf(e)[i] && Stable(LinesOf(e)[i]) {
        assert ReadsAs(LinesOf(e)[i], Spread(e)[i]);
        SpreadLine(e, i);
      }
    }
  }

  lemma NoteOnly(note: string)
    ensures LinesOf(Entry(note, "", "", "")) == [note]
  {
  }

  lemma VariableLines(e: Entry, note: string)
    requires e.key != "" && note == Trim(e.trailing)
    ensures note == "" ==> LinesOf(e) == [VarLine(e.key, e.value)] && Spread(e) == [Entry("", e.key, e.value, "")]
    ensures note != "" ==>
              (LinesOf(e) == [note, VarLine(e.key, e.value)]
               && Spread(e) == [Entry(note, "", "", ""), Entry("", e.key, e.value, "")])
  {
  }

  lemma VariableOnly(key: string, value: string)
    requires key != ""
    ensures LinesOf(Entry("", key, value, "")) == [VarLine(key, value)]
  {
    TrimEmptyIff("");
    VariableLines(Entry("", key, value, ""), "");
  }

  lemma SpreadLine(e: Entry, i: nat)
    requires e.key != "" && i < |LinesOf(e)| && |Spread(e)| == |LinesOf(e)|
    ensures LinesOf(Spread(e)[i]) == [LinesOf(e)[i]]
  {
    VariableLines(e, Trim(e.trailing));
    if i == |LinesOf(e)| - 1 { VariableOnly(e.key, e.value); } else { NoteOnly(Trim(e.trailing)); }
  }

  lemma {:induction false} SplitOneLine(s: string)
    ensures AllOneLine(Split(s))
    decreases |s|
  {
    var i := IndexOf(s, '\n');
    if i < |s| {
      SplitOneLine(s[i + 1..]);
      assert OneLine(s[..i]);
    }
  }

  ghost predicate LineStable(line: string) { OneLine(line) && Stable(Chop(line)) }

  /** The lines a template read from lines is printed as. */
  function Printed(lines: seq<string>): seq<string> { AllLines(ParseLines(lines)) }

  lemma PrintedLast(lines: seq<string>)
    requires lines != []
    ensures Printed(lines) == Printed(lines[..|lines| - 1]) + LinesOf(ParseLine(lines[|lines| - 1]))
  {
    assert ParseLines(lines)[..|lines| - 1] == ParseLines(lines[..|lines| - 1]);
    AllLinesLast(ParseLines(lines));
  }

  /** Every line of a template as it is printed is read back as itself, but for a carriage return at its end. */
  lemma {:induction false} PrintedStable(lines: seq<string>)
    requires AllOneLine(lines)
    ensures forall l {:trigger LineStable(l)} | l in Printed(lines) :: LineStable(l)
  {
    if lines != [] {
      var n := |lines| - 1;
      PrintedStable(lines[..n]);
      PrintedLast(lines);
      forall l | l in LinesOf(ParseLine(lines[n])) ensures LineStable(l) {
        ParsedLines(lines[n]);
        var ls := LinesOf(ParseLine(lines[n]));
        var k :| 0 <= k < |ls| && ls[k] == l;
      }
    }
  }

  lemma {:induction false} FlatSingles(pieces: seq<seq<string>>, lines: seq<string>)
    requires |pieces| == |lines| && forall i | 0 <= i < |lines| :: pieces[i] == [lines[i]]
    ensures Flat(pieces) == lines
  {
    if lines != [] {
      var n := |lines| - 1;
      FlatSingles(pieces[..n], lines[..n]);
      assert lines == lines[..n] + [lines[n]];
    }
  }

  lemma StableReads(lines: seq<string>)
    requires forall l {:trigger Stable(l)} | l in lines :: Stable(l)
    ensures Printed(lines) == lines
  {
    var pieces := Pieces(ParseLines(lines));
    forall i | 0 <= i < |lines| ensures pieces[i] == [lines[i]] {
      assert Stable(lines[i]);
    }
    FlatSingles(pieces, lines);
  }

  lemma {:induction false} KeptIs(lines: seq<string>)
    ensures Kept(lines) != []
    ensures forall l | l in Kept(lines) :: l in lines || l == ""
    ensures forall l | l in lines && l != "" :: l in Kept(lines)
    ensures Kept(Kept(lines)) == Kept(lines)
  {
    if lines != [] && lines[|lines| - 1] == "" {
      KeptIs(lines[..|lines| - 1]);
    } else if lines == [] {
      assert Kept([""]) == Kept([""][..0]) == Kept([]);
    }
  }

  lemma KeptBlank(lines: seq<string>)
    ensures Kept(lines + [""]) == Kept(lines)
  {
    assert (lines + [""])[..|lines|] == lines;
  }

  lemma BlankStable()
    ensures Stable("") && LineStable("")
  {
    TrimEmptyIff("");
  }

  lemma StableChopped(kept: seq<string>)
    requires forall l {:trigger LineStable(l)} | l in kept :: LineStable(l)
    ensures AllOneLine(kept) && AllOneLine(ChopAll(kept) + [""])
    ensures forall l {:trigger Stable(l)} | l in ChopAll(kept) + [""] :: Stable(l)
  {
    BlankStable();
    forall i | 0 <= i < |kept| ensures OneLine(kept[i]) && Stable(ChopAll(kept)[i]) && OneLine(ChopAll(kept)[i]) {
      assert LineStable(kept[i]);
    }
  }

  /** Printing what was read from lines that are all stable. */
  lemma PrintedAgain(kept: seq<string>)
    requires forall l {:trigger LineStable(l)} | l in kept :: LineStable(l)
    ensures Render(Parse(Unlines(kept))) == Unlines(Kept(ChopAll(kept)))
  {
    StableChopped(kept);
    ParsedAgain(kept);
    StableReads(ChopAll(kept) + [""]);
    TrimUnlines(ChopAll(kept) + [""]);
    KeptBlank(ChopAll(kept));
  }

  lemma {:induction false} ChoppedShorter(lines: seq<string>)
    ensures |Unlines(ChopAll(lines))| <= |Unlines(lines)|
    ensures |Unlines(ChopAll(lines))| == |Unlines(lines)| ==> ChopAll(lines) == lines
  {
    if lines != [] {
      ChoppedShorter(lines[1..]);
      assert ChopAll(lines) == [Chop(lines[0])] + ChopAll(lines[1..]);
      assert lines == [lines[0]] + lines[1..];
    }
  }

  lemma {:induction false} KeptShorter(lines: seq<string>)
    requires lines != []
    ensures |Unlines(Kept(lines))| <= |Unlines(lines)|
  {
    var n := |lines| - 1;
    if lines[n] == "" {
      assert lines == lines[..n] + [lines[n]];
      UnlinesLast(lines[..n], "");
      if n > 0 { KeptShorter(lines[..n]); } else { UnlinesOne(""); }
    }
  }

  /** A passed-through line that ends in a carriage return even after line breaks are folded. */
  predicate Stray(e: Entry) { e.key == "" && Chop(e.raw) != e.raw }

  predicate HasStrayReturn(text: string) { exists e | e in Parse(text) :: Stray(e) }

  predicate Returns(line: string) { Chop(line) != line }

  lemma StrayLine(line: string)
    requires OneLine(line)
    ensures Stray(ParseLine(line)) <==> exists l | l in LinesOf(ParseLine(line)) :: Returns(l)
  {
    ParsedLines(line);
    var e := ParseLine(line);
    if e.key == "" {
      assert LinesOf(e) == [e.raw] && e.raw in LinesOf(e);
      assert Returns(e.raw) <==> Stray(e);
    }
  }

  lemma {:induction false} StrayLines(lines: seq<string>)
    requires AllOneLine(lines)
    ensures (exists e | e in ParseLines(lines) :: Stray(e)) <==> (exists l | l in Printed(lines) :: Returns(l))
  {
    if lines != [] {
      var n := |lines| - 1;
      StrayLines(lines[..n]);
      PrintedLast(lines);
      StrayLine(lines[n]);
      StrayLast(lines);
      ReturnsMore(Printed(lines[..n]), LinesOf(ParseLine(lines[n])));
    }
  }

  lemma StrayLast(lines: seq<string>)
    requires lines != []
    ensures var n := |lines| - 1;
      (exists e | e in ParseLines(lines) :: Stray(e))
      <==> (exists e | e in ParseLines(lines[..n]) :: Stray(e)) || Stray(ParseLine(lines[n]))
  {
    var n := |lines| - 1;
    assert ParseLines(lines) == ParseLines(lines[..n]) + [ParseLine(lines[n])];
  }

  lemma ReturnsMore(a: seq<string>, b: seq<string>)
    ensures (exists l | l in a + b :: Returns(l))
       <==> (exists l | l in a :: Returns(l)) || (exists l | l in b :: Returns(l))
  {
  }

  lemma ChoppedDiffers(kept: seq<string>)
    requires kept != [] && Kept(kept) == kept
    ensures Unlines(Kept(ChopAll(kept))) == Unlines(kept) <==> forall l | l in kept :: !Returns(l)
  {
    if i :| 0 <= i < |kept| && Returns(kept[i]) {
      assert ChopAll(kept)[i] != kept[i];
      ChoppedShorter(kept);
      KeptShorter(ChopAll(kept));
    } else {
      assert ChopAll(kept) == kept;
    }
  }

  lemma PrintedOnce(printed: seq<string>)
    requires forall l {:trigger LineStable(l)} | l in printed :: LineStable(l)
    ensures TrimBreaks(Unlines(printed)) + ['\n'] == Unlines(Kept(printed))
  {
    forall i | 0 <= i < |printed| ensures OneLine(printed[i]) { assert LineStable(printed[i]); }
    TrimUnlines(printed);
  }

  /** What is printed from lines all stable is printed again the same, exactly when none ends in a carriage return. */
  lemma PrintedTwice(printed: seq<string>)
    requires forall l {:trigger LineStable(l)} | l in printed :: LineStable(l)
    ensures Render(Parse(Unlines(Kept(printed)))) == Unlines(Kept(printed)) <==> !exists l | l in printed :: Returns(l)
  {
    KeptIs(printed);
    BlankStable();
    PrintedAgain(Kept(printed));
    ChoppedDiffers(Kept(printed));
    assert !Returns("");
  }

  /**
  Printing a template that was read gives a text that reading and printing leaves alone,
  exactly when none of its passed-through lines ends in a stray carriage return.
  */
  lemma FixedPointIff(text: string)
    ensures Render(Parse(Render(Parse(text)))) == Render(Parse(text)) <==> !HasStrayReturn(text)
  {
    var lines := Split(Fold(text));
    SplitOneLine(Fold(text));
    PrintedStable(lines);
    StrayLines(lines);
    PrintedOnce(Printed(lines));
    PrintedTwice(Printed(lines));
  }

  // ------------------------------------------------------------- an empty key

  lemma {:induction false} NothingToFold(s: string)
    requires OneLine(s)
    ensures Fold(s) == s
  {
    if s != "" {
      assert |s| >= 2 ==> s[1] in s;
      NothingToFold(s[1..]);
      assert s == [s[0]] + s[1..];
    }
  }

  /** A variable's line with nothing but space before its '='. */
  predicate KeyIsBlank(line: string) {
    !PassesThrough(line) && forall i | 0 <= i < IndexOf(line, '=') :: Space(line[i])
  }

  /** A line is printed as a blank one exactly when it was one, or its key is blank: then its value is lost. */
  lemma PrintedBlankIff(line: string)
    ensures LinesOf(ParseLine(line)) == [""] <==> line == "" || KeyIsBlank(line)
  {
    if PassesThrough(line) {
      TrimEmptyIff("");
    } else {
      TrimEmptyIff(line[..IndexOf(line, '=')]);
      var e := ParseLine(line);
      var n := |LinesOf(e)| - 1;
      assert e.key != "" ==> LinesOf(e)[n] == VarLine(e.key, e.value) != "";
    }
  }

  /** So in every text exactly those of its lines come out blank. */
  lemma BlankLinesIff(text: string, i: nat)
    requires i < |Split(Fold(text))|
    ensures |Parse(text)| == |Split(Fold(text))|
    ensures var line := Split(Fold(text))[i]; LinesOf(Parse(text)[i]) == [""] <==> line == "" || KeyIsBlank(line)
  {
    PrintedBlankIff(Split(Fold(text))[i]);
  }

  lemma OneBlankLine()
    ensures TrimBreaks(Unlines([""])) + ['\n'] == "\n"
  {
    UnlinesOne("");
    assert "\n"[..0] == "";
  }

  lemma SomethingPrinted(lines: seq<string>)
    requires AllOneLine(lines) && lines != [] && lines[|lines| - 1] != ""
    ensures TrimBreaks(Unlines(lines)) + ['\n'] != "\n"
  {
    var n := |lines| - 1;
    TrimUnlines(lines);
    UnlinesLast(lines[..n], lines[n]);
    assert lines == lines[..n] + [lines[n]];
    assert |Unlines(lines)| >= 2;
  }

  lemma OneEntry(e: Entry)
    ensures Render([e]) == TrimBreaks(Unlines(LinesOf(e))) + ['\n']
  {
    assert Pieces([e]) == [LinesOf(e)] && [LinesOf(e)][..0] == [];
    assert AllLines([e]) == Flat([]) + LinesOf(e) == LinesOf(e);
  }

  lemma OneLineText(line: string)
    requires OneLine(line)
    ensures Parse(line) == [ParseLine(line)]
  {
    NothingToFold(line);
    assert IndexOf(line, '\n') == |line| by { assert forall i | 0 <= i < |line| :: line[i] in line; }
  }

  /** A text of one line is printed as nothing exactly when it is empty or its key is blank. */
  lemma EmptyKeyIsLost(line: string)
    requires OneLine(line)
    ensures Render(Parse(line)) == "\n" <==> line == "" || KeyIsBlank(line)
  {
    var e := ParseLine(line);
    OneLineText(line);
    OneEntry(e);
    ParsedLines(line);
    PrintedBlankIff(line);
    var n := |LinesOf(e)| - 1;
    assert e.key != "" ==> LinesOf(e)[n] == VarLine(e.key, e.value) != "";
    if LinesOf(e) == [""] { OneBlankLine(); } else { SomethingPrinted(LinesOf(e)); }
  }
}
