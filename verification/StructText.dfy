/** Reading the fields of a C struct body, line by line, as the statistics script does. */
module StructText {
  import opened Bytes
  import opened FwStats

  // ------------------------------------------------------------------ Python string operations

  /** str.isspace */
  predicate IsSpace(c: char) {
    var n := c as int;
    9 <= n <= 13 || 28 <= n <= 32 || n == 0x85 || n == 0xA0 || n == 0x1680 || 0x2000 <= n <= 0x200A
    || n == 0x2028 || n == 0x2029 || n == 0x202F || n == 0x205F || n == 0x3000
  }

  ghost predicate AllSpace(s: string) {
    forall i :: 0 <= i < |s| ==> IsSpace(s[i])
  }

  function LStrip(s: string): string {
    if s != "" && IsSpace(s[0]) then LStrip(s[1..]) else s
  }

  function RStrip(s: string): string {
    if s != "" && IsSpace(s[|s| - 1]) then RStrip(s[..|s| - 1]) else s
  }

  /** str.strip() */
  function Strip(s: string): string {
    RStrip(LStrip(s))
  }

  /** str.split('\\n') */
  function Split(s: string): (r: seq<string>)
    ensures |r| >= 1
  {
    if s == "" then [""]
    else
      var r := Split(s[1..]);
      if s[0] == '\n' then [""] + r else [[s[0]] + r[0]] + r[1..]
  }

  /** The text before the first occurrence of `needle`, or all of it. */
  function Before(s: string, needle: string): string {
    if OccursAt(needle, s, 0) || s == "" then "" else [s[0]] + Before(s[1..], needle)
  }

  function TakeWord(s: string): (w: string)
    ensures |w| <= |s|
    ensures s != "" && !IsSpace(s[0]) ==> |w| > 0
  {
    if s == "" || IsSpace(s[0]) then "" else [s[0]] + TakeWord(s[1..])
  }

  /** str.split() */
  function Words(s: string): seq<string>
    decreases |s|
  {
    if s == "" then []
    else if IsSpace(s[0]) then Words(s[1..])
    else var w := TakeWord(s); [w] + Words(s[|w|..])
  }

  /** ' '.join(ws) */
  function JoinSpace(ws: seq<string>): string {
    if ws == [] then "" else if |ws| == 1 then ws[0] else ws[0] + " " + JoinSpace(ws[1..])
  }

  // ------------------------------------------------------------------ the parser

  /** The field named in a line without comments: the last word before the semicolon. */
  function FieldOf(code: string): Option<Field> {
    if !Contains(";", code) then None
    else
      var parts := Words(Strip(Before(code, ";")));
      if |parts| < 2 then None
      else Some(Field(JoinSpace(parts[..|parts| - 1]), parts[|parts| - 1]))
  }

  function ParseStripped(line: string): Option<Field> {
    if line == "" || "//" <= line || "/*" <= line then None
    else FieldOf(Before(Before(line, "//"), "/*"))
  }

  function ParseLine(line: string): Option<Field> {
    ParseStripped(Strip(line))
  }

  /** The zero or one fields of a raw line. */
  function LineRead(line: string): seq<Field> {
    if ParseLine(line).Some? then [ParseLine(line).value] else []
  }

  /** The results of `f` on all lines, one after the other. */
  function Gather(f: string -> seq<Field>, lines: seq<string>): seq<Field> {
    if lines == [] then [] else f(lines[0]) + Gather(f, lines[1..])
  }

  function ParseBody(body: string): seq<Field> {
    Gather(LineRead, Split(Strip(body)))
  }

  lemma GatherFrom(f: string -> seq<Field>, lines: seq<string>, i: nat)
    requires i < |lines|
    ensures Gather(f, lines[i..]) == f(lines[i]) + Gather(f, lines[i + 1..])
  {
    assert lines[i..][0] == lines[i] && lines[i..][1..] == lines[i + 1..];
  }

  /** The loop body: skip blank and comment lines, cut comments off, take the field. */
  method ReadLine(raw: string, fields: seq<Field>) returns (r: seq<Field>)
    ensures r == fields + LineRead(raw)
  {
    var line := Strip(raw);
    if line == "" || "//" <= line || "/*" <= line {
      return fields;
    }
    var field := FieldOf(Before(Before(line, "//"), "/*"));
    if field.None? {
      return fields;
    }
    return fields + [field.value];
  }

  lemma FieldsAssoc(a: seq<Field>, b: seq<Field>, c: seq<Field>)
    ensures a + (b + c) == (a + b) + c
  {
  }

  method ReadLines(lines: seq<string>) returns (fields: seq<Field>)
    ensures fields == Gather(LineRead, lines)
  {
    fields := [];
    for i := 0 to |lines|
      invariant Gather(LineRead, lines) == fields + Gather(LineRead, lines[i..])
    {
      GatherFrom(LineRead, lines, i);
      FieldsAssoc(fields, LineRead(lines[i]), Gather(LineRead, lines[i + 1..]));
      fields := ReadLine(lines[i], fields);
    }
    assert lines[|lines|..] == [];
  }

  /** parse_struct_fields */
  method ParseStructFields(body: string) returns (fields: seq<Field>)
    ensures fields == ParseBody(body)
  {
    fields := ReadLines(Split(Strip(body)));
  }

  // ------------------------------------------------------------------ stripping

  lemma {:induction false} LStripSpaces(ws: string, x: string)
    requires AllSpace(ws) && (x == "" || !IsSpace(x[0]))
    ensures LStrip(ws + x) == x
  {
    if ws == "" {
      assert ws + x == x;
    } else {
      assert (ws + x)[1..] == ws[1..] + x;
      LStripSpaces(ws[1..], x);
    }
  }

  /** Stripping the end of `x + y` touches only `y` when `x` ends in something solid. */
  lemma {:induction false} RStripTail(x: string, y: string)
    requires x != "" && !IsSpace(x[|x| - 1])
    ensures RStrip(x + y) == x + RStrip(y)
  {
    if y == "" {
      assert x + y == x;
    } else {
      assert (x + y)[..|x + y| - 1] == x + y[..|y| - 1];
      RStripTail(x, y[..|y| - 1]);
    }
  }

  lemma {:induction false} LStripAppend(x: string, c: char)
    requires IsSpace(c)
    ensures RStrip(LStrip(x + [c])) == RStrip(LStrip(x))
  {
    if x == "" {
      assert x + [c] == [c] && [c][1..] == "";
    } else if IsSpace(x[0]) {
      assert (x + [c])[1..] == x[1..] + [c];
      LStripAppend(x[1..], c);
    } else {
      assert (x + [c])[..|x|] == x;
    }
  }

  /** A blank at either end of a line is stripped from it anyway. */
  lemma StripIgnoresEnds(x: string, c: char)
    requires IsSpace(c)
    ensures Strip([c] + x) == Strip(x)
    ensures Strip(x + [c]) == Strip(x)
  {
    assert ([c] + x)[1..] == x;
    LStripAppend(x, c);
  }

  lemma BlankLine(ws: string)
    requires AllSpace(ws)
    ensures ParseLine(ws) == None
  {
    LStripSpaces(ws, "");
    assert ws + "" == ws;
  }

  // ------------------------------------------------------------------ splitting

  lemma {:induction false} GatherConcat(f: string -> seq<Field>, a: seq<string>, b: seq<string>)
    ensures Gather(f, a + b) == Gather(f, a) + Gather(f, b)
  {
    if a == [] {
      assert a + b == b;
    } else {
      assert (a + b)[0] == a[0] && (a + b)[1..] == a[1..] + b;
      GatherConcat(f, a[1..], b);
    }
  }

  /** What one more character does to a list of lines. */
  function Extended(r: seq<string>, c: char): (r': seq<string>)
    requires r != []
    ensures r' != []
  {
    if c == '\n' then r + [""] else r[..|r| - 1] + [r[|r| - 1] + [c]]
  }

  /** And what a character in front does. */
  function Prefixed(c: char, r: seq<string>): seq<string>
    requires r != []
  {
    if c == '\n' then [""] + r else [[c] + r[0]] + r[1..]
  }

  lemma PrefixedExtended(d: char, r: seq<string>, c: char)
    requires r != []
    ensures Prefixed(d, Extended(r, c)) == Extended(Prefixed(d, r), c)
  {
    if |r| == 1 && d != '\n' && c != '\n' {
      assert [d] + (r[0] + [c]) == [d] + r[0] + [c];
    }
  }

  lemma {:induction false} SplitAppend(s: string, c: char)
    ensures Split(s + [c]) == Extended(Split(s), c)
  {
    if s == "" {
      assert s + [c] == [c] && [c][1..] == "";
      assert Split("") == [""];
      assert Split([c]) == Prefixed(c, [""]);
      assert [c] + "" == [c] && "" + [c] == [c];
      assert [""][1..] == [] && [""][..0] == [];
      assert c != '\n' ==> Prefixed(c, [""]) == [[c]] == Extended([""], c);
    } else {
      assert (s + [c])[1..] == s[1..] + [c];
      SplitAppend(s[1..], c);
      PrefixedExtended(s[0], Split(s[1..]), c);
    }
  }

  /** A line reader that does not see blanks at the ends of a line. */
  ghost predicate IgnoresEnds(f: string -> seq<Field>) {
    && f("") == []
    && forall x: string, c: char :: IsSpace(c) ==> f([c] + x) == f(x) && f(x + [c]) == f(x)
  }

  lemma LineReadIgnoresEnds()
    ensures IgnoresEnds(LineRead)
  {
    BlankLine("");
    forall x: string, c: char | IsSpace(c)
      ensures LineRead([c] + x) == LineRead(x) && LineRead(x + [c]) == LineRead(x)
    {
      StripIgnoresEnds(x, c);
    }
  }

  /** Dropping a blank at the front of the body loses no field. */
  lemma FrontBlank(f: string -> seq<Field>, s: string)
    requires IgnoresEnds(f) && s != "" && IsSpace(s[0])
    ensures Gather(f, Split(s[1..])) == Gather(f, Split(s))
  {
    var r := Split(s[1..]);
    if s[0] == '\n' {
      assert ([""] + r)[1..] == r;
    } else {
      assert f([s[0]] + r[0]) == f(r[0]);
      assert Split(s)[1..] == r[1..];
    }
  }

  lemma BackBlank(f: string -> seq<Field>, s: string, c: char)
    requires IgnoresEnds(f) && IsSpace(c)
    ensures Gather(f, Split(s + [c])) == Gather(f, Split(s))
  {
    SplitAppend(s, c);
    var r := Split(s);
    var init, last := r[..|r| - 1], r[|r| - 1];
    assert r == init + [last];
    if c == '\n' {
      GatherConcat(f, r, [""]);
      assert [""][1..] == [];
    } else {
      assert f(last + [c]) == f(last);
      GatherConcat(f, init, [last]);
      GatherConcat(f, init, [last + [c]]);
      assert [last][1..] == [] && [last + [c]][1..] == [];
    }
  }

  lemma {:induction false} LStripLosesNothing(f: string -> seq<Field>, s: string)
    requires IgnoresEnds(f)
    ensures Gather(f, Split(LStrip(s))) == Gather(f, Split(s))
  {
    if s != "" && IsSpace(s[0]) {
      LStripLosesNothing(f, s[1..]);
      FrontBlank(f, s);
    }
  }

  lemma {:induction false} RStripLosesNothing(f: string -> seq<Field>, s: string)
    requires IgnoresEnds(f)
    ensures Gather(f, Split(RStrip(s))) == Gather(f, Split(s))
  {
    if s != "" && IsSpace(s[|s| - 1]) {
      var t, c := s[..|s| - 1], s[|s| - 1];
      RStripLosesNothing(f, t);
      assert s == t + [c];
      BackBlank(f, t, c);
    }
  }

  /** The initial strip of the whole body never matters. */
  lemma ParseBodyBySplit(body: string)
    ensures ParseBody(body) == Gather(LineRead, Split(body))
  {
    LineReadIgnoresEnds();
    RStripLosesNothing(LineRead, LStrip(body));
    LStripLosesNothing(LineRead, body);
  }

  ghost predicate OneLine(s: string) {
    forall i :: 0 <= i < |s| ==> s[i] != '\n'
  }

  /** Lines written one under the other. */
  function JoinLines(lines: seq<string>): string {
    if lines == [] then ""
    else if |lines| == 1 then lines[0]
    else lines[0] + "\n" + JoinLines(lines[1..])
  }

  lemma {:induction false} SplitFirst(line: string, rest: string)
    requires OneLine(line)
    ensures Split(line + "\n" + rest) == [line] + Split(rest)
    ensures Split(line) == [line]
  {
    if line == "" {
      assert (line + "\n" + rest)[1..] == rest;
    } else {
      assert (line + "\n" + rest)[1..] == line[1..] + "\n" + rest;
      SplitFirst(line[1..], rest);
      assert [line[0]] + line[1..] == line;
    }
  }

  lemma {:induction false} SplitJoin(lines: seq<string>)
    requires lines != [] && forall i :: 0 <= i < |lines| ==> OneLine(lines[i])
    ensures Split(JoinLines(lines)) == lines
  {
    if |lines| == 1 {
      SplitFirst(lines[0], "");
    } else {
      SplitFirst(lines[0], JoinLines(lines[1..]));
      SplitJoin(lines[1..]);
    }
  }

  // ------------------------------------------------------------------ declarations as written

  /** A word of a declaration and the blanks after it. */
  datatype Item = Item(word: string, gap: string)

  /** A line as a programmer writes it; `after` is whatever follows the semicolon, comments included.  In a
      hidden line no semicolon stands before the comment, or there is none at all. */
  datatype Line =
    | Blank(blanks: string)
    | Comment(indent: string, text: string)
    | Hidden(code: string, comment: string)
    | Decl(indent: string, items: seq<Item>, after: string)

  /** No blank, semicolon or slash: what identifiers, keywords, stars and brackets are made of. */
  ghost predicate IsWord(w: string) {
    w != "" && forall i :: 0 <= i < |w| ==> !IsSpace(w[i]) && w[i] != ';' && w[i] != '/'
  }

  ghost predicate GoodItems(items: seq<Item>) {
    && (forall i :: 0 <= i < |items| ==> IsWord(items[i].word) && AllSpace(items[i].gap) && OneLine(items[i].gap))
    && (forall i :: 0 <= i < |items| - 1 ==> items[i].gap != "")
  }

  ghost predicate GoodLine(l: Line) {
    match l
    case Blank(b) => AllSpace(b) && OneLine(b)
    case Comment(ind, t) => AllSpace(ind) && OneLine(ind) && OneLine(t) && ("//" <= t || "/*" <= t)
    case Hidden(code, c) => OneLine(code) && OneLine(c) && NoneOf(code, ';') && (c == "" || "//" <= c || "/*" <= c)
    case Decl(ind, items, after) => AllSpace(ind) && OneLine(ind) && OneLine(after) && |items| >= 1 && GoodItems(items)
  }

  function ItemText(items: seq<Item>): string {
    if items == [] then "" else items[0].word + (items[0].gap + ItemText(items[1..]))
  }

  function LineText(l: Line): string {
    match l
    case Blank(b) => b
    case Comment(ind, t) => ind + t
    case Hidden(code, c) => code + c
    case Decl(ind, items, after) => ind + (ItemText(items) + (";" + after))
  }

  function WordsOf(items: seq<Item>): seq<string> {
    seq(|items|, i requires 0 <= i < |items| => items[i].word)
  }

  /** The type text of a declaration: its words, one blank after another. */
  function Spaced(ws: seq<string>): string
    requires ws != []
  {
    var n := |ws| - 1;
    if n == 0 then ws[0] else Spaced(ws[..n]) + " " + ws[n]
  }

  /** The types of more than one word are spelt as the type table has them, however they are spread out. */
  lemma SpacedTypes()
    ensures Spaced(["unsigned", "char"]) == "unsigned char" && Spaced(["signed", "char"]) == "signed char"
    ensures Spaced(["unsigned", "long", "long"]) == "unsigned long long"
  {
    assert ["unsigned", "char"][..1] == ["unsigned"];
    assert ["signed", "char"][..1] == ["signed"];
    assert ["unsigned", "long", "long"][..2] == ["unsigned", "long"] && ["unsigned", "long"][..1] == ["unsigned"];
  }

  /** The script's join gives the same text. */
  lemma {:induction false} JoinIsSpaced(ws: seq<string>)
    requires ws != []
    ensures JoinSpace(ws) == Spaced(ws)
  {
    if |ws| > 1 {
      JoinIsSpaced(ws[1..]);
      SpacedCons(ws);
    }
  }

  lemma {:induction false} SpacedCons(ws: seq<string>)
    requires |ws| > 1
    ensures Spaced(ws) == ws[0] + " " + Spaced(ws[1..])
  {
    var n := |ws| - 1;
    assert ws[1..][..n - 1] == ws[..n][1..] && ws[1..][n - 1] == ws[n];
    if n == 1 {
      assert ws[..1] == [ws[0]] && ws[1..] == [ws[1]];
    } else {
      SpacedCons(ws[..n]);
      assert (ws[0] + " " + Spaced(ws[..n][1..])) + " " + ws[n] == ws[0] + " " + (Spaced(ws[..n][1..]) + " " + ws[n]);
    }
  }

  /** The declared field: all words but the last are the type; a single word declares nothing. */
  function DeclaredBy(items: seq<Item>): Option<Field> {
    if |items| < 2 then None else Some(Field(Spaced(WordsOf(items)[..|items| - 1]), items[|items| - 1].word))
  }

  function LineFields(l: Line): seq<Field> {
    if l.Decl? && DeclaredBy(l.items).Some? then [DeclaredBy(l.items).value] else []
  }

  lemma {:induction false} TakeWordOf(w: string, rest: string)
    requires forall i :: 0 <= i < |w| ==> !IsSpace(w[i])
    requires rest == "" || IsSpace(rest[0])
    ensures TakeWord(w + rest) == w
  {
    if w == "" {
      assert w + rest == rest;
    } else {
      assert (w + rest)[1..] == w[1..] + rest;
      TakeWordOf(w[1..], rest);
    }
  }

  lemma {:induction false} WordsSkip(gap: string, rest: string)
    requires AllSpace(gap)
    ensures Words(gap + rest) == Words(rest)
  {
    if gap == "" {
      assert gap + rest == rest;
    } else {
      assert (gap + rest)[1..] == gap[1..] + rest;
      WordsSkip(gap[1..], rest);
    }
  }

  lemma {:induction false} WordsOfItems(items: seq<Item>)
    requires GoodItems(items)
    ensures Words(ItemText(items)) == WordsOf(items)
  {
    if items != [] {
      var w, g, rest := items[0].word, items[0].gap, ItemText(items[1..]);
      if |items| == 1 {
        assert items[1..] == [] && g + rest == g;
      } else {
        assert (g + rest)[0] == g[0];
      }
      TakeWordOf(w, g + rest);
      assert (w + (g + rest))[|w|..] == g + rest;
      WordsSkip(g, rest);
      WordsOfItems(items[1..]);
      assert WordsOf(items) == [w] + WordsOf(items[1..]);
    }
  }

  ghost predicate NoneOf(s: string, c: char) {
    forall i :: 0 <= i < |s| ==> s[i] != c
  }

  lemma {:induction false} ItemTextIsPlain(items: seq<Item>)
    requires GoodItems(items)
    ensures NoneOf(ItemText(items), ';') && NoneOf(ItemText(items), '/')
    ensures items != [] ==> ItemText(items) != "" && ItemText(items)[0] == items[0].word[0]
    ensures OneLine(ItemText(items))
  {
    if items != [] { ItemTextIsPlain(items[1..]); }
  }

  /** Cutting at a comment mark leaves everything before the first slash. */
  lemma {:induction false} BeforeKeepsPlain(x: string, y: string, needle: string) returns (z: string)
    requires |needle| == 2 && needle[0] == '/' && NoneOf(x, '/')
    ensures Before(x + y, needle) == x + z
  {
    if x == "" {
      assert x + y == y;
      z := Before(y, needle);
      assert x + z == z;
    } else {
      assert (x + y)[1..] == x[1..] + y;
      z := BeforeKeepsPlain(x[1..], y, needle);
      assert (x + y)[0] != needle[0];
      assert [x[0]] + (x[1..] + z) == x + z;
    }
  }

  lemma {:induction false} BeforeSemicolon(x: string, y: string)
    requires NoneOf(x, ';')
    ensures Before(x + (";" + y), ";") == x
    ensures Contains(";", x + (";" + y))
  {
    var s := x + (";" + y);
    assert s[|x|..|x| + 1] == ";";
    assert OccursAt(";", s, |x|);
    if x == "" {
      assert s == ";" + y;
      assert OccursAt(";", s, 0);
    } else {
      assert s[1..] == x[1..] + (";" + y);
      BeforeSemicolon(x[1..], y);
      assert s[0..1][0] == x[0];
      assert [x[0]] + x[1..] == x;
    }
  }

  /** The text without its trailing blanks has the same words. */
  lemma {:induction false} WordsOfRStrip(s: string)
    ensures Words(RStrip(s)) == Words(s)
  {
    if s != "" && IsSpace(s[|s| - 1]) {
      WordsOfRStrip(s[..|s| - 1]);
      WordsAppendSpace(s[..|s| - 1], s[|s| - 1]);
      assert s == s[..|s| - 1] + [s[|s| - 1]];
    }
  }

  lemma {:induction false} WordsAppendSpace(s: string, c: char)
    requires IsSpace(c)
    ensures Words(s + [c]) == Words(s)
    decreases |s|
  {
    if s == "" {
      assert s + [c] == [c] && [c][1..] == "";
    } else if IsSpace(s[0]) {
      assert (s + [c])[1..] == s[1..] + [c];
      WordsAppendSpace(s[1..], c);
    } else {
      var w := TakeWord(s);
      TakeWordAppendSpace(s, c);
      assert (s + [c])[|w|..] == s[|w|..] + [c];
      WordsAppendSpace(s[|w|..], c);
    }
  }

  lemma {:induction false} TakeWordAppendSpace(s: string, c: char)
    requires IsSpace(c)
    ensures TakeWord(s + [c]) == TakeWord(s)
  {
    if s == "" {
      assert s + [c] == [c];
    } else if !IsSpace(s[0]) {
      assert (s + [c])[1..] == s[1..] + [c];
      TakeWordAppendSpace(s[1..], c);
    }
  }

  lemma StripDecl(indent: string, body: string, after: string)
    requires AllSpace(indent) && body != "" && !IsSpace(body[0])
    ensures Strip(indent + (body + (";" + after))) == body + (";" + RStrip(after))
  {
    var x := body + ";";
    Reassociate(body, ";", after);
    Reassociate(body, ";", RStrip(after));
    assert x[0] == body[0];
    LStripSpaces(indent, x + after);
    RStripTail(x, after);
  }

  lemma Reassociate(a: string, b: string, c: string)
    ensures a + (b + c) == (a + b) + c
  {
  }

  /** Comment removal leaves a declaration up to and including its semicolon. */
  lemma CodeOfDecl(body: string, tail: string) returns (z: string)
    requires NoneOf(body, '/')
    ensures Before(Before(body + (";" + tail), "//"), "/*") == body + (";" + z)
  {
    assert body + (";" + tail) == (body + ";") + tail;
    var z1 := BeforeKeepsPlain(body + ";", tail, "//");
    z := BeforeKeepsPlain(body + ";", z1, "/*");
    assert (body + ";") + z == body + (";" + z);
  }

  lemma FieldOfDecl(items: seq<Item>, z: string)
    requires GoodItems(items) && |items| >= 1
    ensures FieldOf(ItemText(items) + (";" + z)) == DeclaredBy(items)
  {
    var body := ItemText(items);
    ItemTextIsPlain(items);
    BeforeSemicolon(body, z);
    assert LStrip(body) == body;
    WordsOfRStrip(body);
    WordsOfItems(items);
    if |items| >= 2 {
      JoinIsSpaced(WordsOf(items)[..|items| - 1]);
    }
  }

  /** One stripped declaration line. */
  lemma ParseDecl(items: seq<Item>, tail: string)
    requires GoodItems(items) && |items| >= 1
    ensures ParseStripped(ItemText(items) + (";" + tail)) == DeclaredBy(items)
  {
    var body := ItemText(items);
    ItemTextIsPlain(items);
    assert (body + (";" + tail))[0] == body[0] != '/';
    var z := CodeOfDecl(body, tail);
    FieldOfDecl(items, z);
  }

  lemma CommentParses(indent: string, t: string)
    requires AllSpace(indent) && ("//" <= t || "/*" <= t)
    ensures ParseLine(indent + t) == None
  {
    LStripSpaces(indent, t);
    assert t == t[..2] + t[2..];
    RStripTail(t[..2], t[2..]);
    assert t[..2] <= Strip(indent + t);
  }

  // ------------------------------------------------------------------ code cut off by a comment

  /** The text before the first occurrence, exactly. */
  lemma {:induction false} BeforeIs(s: string, needle: string)
    requires needle != ""
    ensures var k := |Before(s, needle)|;
            && k <= |s| && Before(s, needle) == s[..k]
            && (k < |s| ==> OccursAt(needle, s, k))
            && forall i :: 0 <= i < k ==> !OccursAt(needle, s, i)
  {
    if s != "" && !OccursAt(needle, s, 0) {
      BeforeIs(s[1..], needle);
      var k := |Before(s, needle)|;
      forall i: nat | i < |s|
        ensures OccursAt(needle, s, i + 1) <==> OccursAt(needle, s[1..], i)
      {
        OccursShift(needle, s, i);
      }
      forall i | 0 <= i < k
        ensures !OccursAt(needle, s, i)
      {
        if i > 0 {
          assert !OccursAt(needle, s[1..], i - 1);
        }
      }
    }
  }

  lemma OccursShift(needle: string, s: string, i: nat)
    requires s != ""
    ensures OccursAt(needle, s, i + 1) <==> OccursAt(needle, s[1..], i)
  {
    if i + 1 + |needle| <= |s| {
      assert s[1..][i..i + |needle|] == s[i + 1..i + 1 + |needle|];
    }
  }

  /** Two characters in a row. */
  lemma OccursTwo(needle: string, s: string, i: nat)
    requires |needle| == 2
    ensures OccursAt(needle, s, i) <==> i + 1 < |s| && s[i] == needle[0] && s[i + 1] == needle[1]
  {
    if i + 2 <= |s| {
      var w := s[i..i + 2];
      assert w[0] == s[i] && w[1] == s[i + 1];
      assert w == needle <==> w[0] == needle[0] && w[1] == needle[1];
    }
  }

  /** What is left of a line after both cuts ends before its comment. */
  lemma CutsEndBefore(x: string, y: string)
    requires y == "" || "//" <= y || "/*" <= y
    ensures var r := Before(Before(x + y, "//"), "/*"); |r| <= |x| && r == x[..|r|]
  {
    var s, n := x + y, |x|;
    var a := Before(s, "//");
    BeforeIs(s, "//");
    BeforeIs(a, "/*");
    var k := |a|;
    OccursTwo("//", s, n);
    OccursTwo("//", s, n + 1);
    OccursTwo("/*", a, n);
    if "/*" <= y {
      assert s[n] == y[0] == '/' && s[n + 1] == y[1] == '*';
      assert k != n && k != n + 1;
    } else if "//" <= y {
      assert s[n] == y[0] == '/' && s[n + 1] == y[1] == '/';
    }
  }

  lemma NoFieldWithout(code: string)
    requires NoneOf(code, ';')
    ensures FieldOf(code) == None
  {
    forall i: nat | i + 1 <= |code|
      ensures !OccursAt(";", code, i)
    {
      assert code[i..i + 1][0] == code[i];
    }
  }

  lemma {:induction false} LStripFront(x: string, y: string)
    requires y != "" && !IsSpace(y[0])
    ensures LStrip(x + y) == LStrip(x) + y
    ensures forall c :: NoneOf(x, c) ==> NoneOf(LStrip(x), c)
  {
    if x == "" {
      assert x + y == y;
    } else if IsSpace(x[0]) {
      assert (x + y)[1..] == x[1..] + y;
      LStripFront(x[1..], y);
      assert forall c :: NoneOf(x, c) ==> NoneOf(x[1..], c);
    } else {
      assert (x + y)[0] == x[0];
    }
  }

  lemma {:induction false} RStripKeepsNone(x: string, c: char)
    requires NoneOf(x, c)
    ensures NoneOf(RStrip(x), c)
  {
    if x != "" && IsSpace(x[|x| - 1]) { RStripKeepsNone(x[..|x| - 1], c); }
  }

  lemma {:induction false} LStripKeepsNone(x: string, c: char)
    requires NoneOf(x, c)
    ensures NoneOf(LStrip(x), c)
  {
    if x != "" && IsSpace(x[0]) { LStripKeepsNone(x[1..], c); }
  }

  /** A line with no semicolon before its comment declares nothing. */
  lemma HiddenParses(code: string, comment: string)
    requires NoneOf(code, ';') && (comment == "" || "//" <= comment || "/*" <= comment)
    ensures ParseLine(code + comment) == None
  {
    LStripKeepsNone(code, ';');
    if comment == "" {
      assert code + comment == code;
      RStripKeepsNone(LStrip(code), ';');
      var s := Strip(code);
      assert s + "" == s;
      CutsEndBefore(s, "");
      NoFieldWithout(Before(Before(s, "//"), "/*"));
    } else {
      var x, mark, rest := LStrip(code), comment[..2], comment[2..];
      assert comment == mark + rest;
      LStripFront(code, comment);
      assert x + comment == (x + mark) + rest;
      RStripTail(x + mark, rest);
      var y := mark + RStrip(rest);
      assert (x + mark) + RStrip(rest) == x + y;
      assert mark <= y;
      CutsEndBefore(x, y);
      NoFieldWithout(Before(Before(x + y, "//"), "/*"));
    }
  }

  lemma LineIsOneLine(l: Line)
    requires GoodLine(l)
    ensures OneLine(LineText(l))
  {
    if l.Decl? { ItemTextIsPlain(l.items); }
  }

  lemma LineParses(l: Line)
    requires GoodLine(l)
    ensures LineRead(LineText(l)) == LineFields(l)
  {
    match l
    case Blank(b) => BlankLine(b);
    case Comment(ind, t) => CommentParses(ind, t);
    case Hidden(code, c) => HiddenParses(code, c);
    case Decl(ind, items, after) =>
      ItemTextIsPlain(items);
      StripDecl(ind, ItemText(items), after);
      ParseDecl(items, RStrip(after));
  }

  function Texts(ls: seq<Line>): seq<string> {
    seq(|ls|, i requires 0 <= i < |ls| => LineText(ls[i]))
  }

  function Declared(ls: seq<Line>): seq<Field> {
    if ls == [] then [] else LineFields(ls[0]) + Declared(ls[1..])
  }

  lemma {:induction false} LinesParse(ls: seq<Line>)
    requires forall i :: 0 <= i < |ls| ==> GoodLine(ls[i])
    ensures Gather(LineRead, Texts(ls)) == Declared(ls)
  {
    if ls != [] {
      LineParses(ls[0]);
      assert Texts(ls)[1..] == Texts(ls[1..]);
      LinesParse(ls[1..]);
    }
  }

  /** Parsing undoes writing: for any lines of declarations, blanks, comments and hidden code, in any layout, the
      parser returns exactly the declared fields in order. */
  lemma ParseUndoesWriting(ls: seq<Line>)
    requires forall i :: 0 <= i < |ls| ==> GoodLine(ls[i])
    ensures ParseBody(JoinLines(Texts(ls))) == Declared(ls)
  {
    ParseBodyBySplit(JoinLines(Texts(ls)));
    if ls == [] {
      BlankLine("");
      assert Split("") == [""];
    } else {
      forall i | 0 <= i < |ls|
        ensures OneLine(Texts(ls)[i])
      {
        LineIsOneLine(ls[i]);
      }
      SplitJoin(Texts(ls));
      LinesParse(ls);
    }
  }
}
