/** The command parser of `lab4/tsh.c`. `parseline` cuts its copy of the line into C strings
    in place, by writing NULs over delimiters; `Tokens` is what those strings must be. */
module CommandLine {

  const MAXLINE: int := 1024
  const MAXARGS: int := 128
  const NUL: char := '\0'
  const NULLPTR: int := -1

  // ---------------------------------------------------------------- the words of a line

  /** The index of the first `c`, or the length. */
  function IndexOf(s: string, c: char): (k: nat)
    ensures k <= |s|
    ensures k < |s| ==> s[k] == c
    ensures forall m :: 0 <= m < k ==> s[m] != c
  {
    if s == "" || s[0] == c then 0 else 1 + IndexOf(s[1..], c)
  }

  function SkipSpaces(s: string): (r: string)
    ensures |r| <= |s| && (r != "" ==> r[0] != ' ')
  {
    if s != "" && s[0] == ' ' then SkipSpaces(s[1..]) else s
  }

  /** The words of a line: runs up to a space, or whatever stands between single quotes. A
      word that is not closed, and what follows it, is lost. */
  function Tokens(line: string): seq<string>
    decreases |line|
  {
    var s := SkipSpaces(line);
    if s == "" then []
    else if s[0] == '\'' then
      var d := IndexOf(s[1..], '\'');
      if d == |s| - 1 then [] else [s[1..][..d]] + Tokens(s[d + 2..])
    else
      var d := IndexOf(s, ' ');
      if d == |s| then [] else [s[..d]] + Tokens(s[d + 1..])
  }

  /** The line as `parseline` copies it: its last character becomes a space. */
  function Spaced(cmdline: string): string
    requires cmdline != ""
  {
    cmdline[..|cmdline| - 1] + " "
  }

  /** Whether a last word asks for the background. */
  predicate Ampersand(w: string) {
    w != "" && w[0] == '&'
  }

  /** The arguments and the return value of `parseline`. */
  function Arguments(cmdline: string): (seq<string>, bool)
    requires cmdline != ""
  {
    var ws := Tokens(Spaced(cmdline));
    if ws == [] then ([], true)
    else if Ampersand(ws[|ws| - 1]) then (ws[..|ws| - 1], true)
    else (ws, false)
  }

  // ---------------------------------------------------------------- printing and parsing

  /** A word as typed, after `gap` spaces. */
  datatype Word = Bare(gap: nat, text: string) | Quoted(gap: nat, text: string)

  function Spaces(n: nat): string {
    seq(n, _ => ' ')
  }

  function Render(w: Word): string {
    Spaces(w.gap) + if w.Bare? then w.text else "'" + w.text + "'"
  }

  /** A bare word is not empty, has no space and does not start with a quote; a quoted one has
      no quote inside. */
  predicate Typable(w: Word) {
    if w.Bare? then w.text != "" && w.text[0] != '\'' && ' ' !in w.text else '\'' !in w.text
  }

  /** Words that can stand next to each other: after a bare word there is a space. */
  predicate Typed(ws: seq<Word>) {
    && (forall w :: w in ws ==> Typable(w))
    && (forall i :: 0 < i < |ws| && ws[i - 1].Bare? ==> ws[i].gap > 0)
  }

  function RenderAll(ws: seq<Word>): string {
    if ws == [] then "" else Render(ws[0]) + RenderAll(ws[1..])
  }

  function Texts(ws: seq<Word>): (texts: seq<string>)
    ensures |texts| == |ws|
  {
    if ws == [] then [] else [ws[0].text] + Texts(ws[1..])
  }

  lemma {:induction false} SkipsSpaces(n: nat, s: string)
    ensures SkipSpaces(Spaces(n) + s) == SkipSpaces(s)
    decreases n
  {
    if n == 0 {
      assert Spaces(n) + s == s;
    } else {
      assert (Spaces(n) + s)[1..] == Spaces(n - 1) + s;
      SkipsSpaces(n - 1, s);
    }
  }

  /** Leading spaces do not matter. */
  lemma TokensSkip(n: nat, s: string)
    ensures Tokens(Spaces(n) + s) == Tokens(s)
  {
    SkipsSpaces(n, s);
    hide SkipSpaces, IndexOf;
  }

  lemma {:induction false} IndexInPrefix(s: string, c: char, t: string)
    requires c !in s
    ensures IndexOf(s + [c] + t, c) == |s|
  {
    var u := s + [c] + t;
    assert u[|s|] == c;
    forall m | 0 <= m < |s| ensures u[m] != c {
      assert u[m] == s[m];
    }
  }

  lemma BareWord(text: string, rest: string)
    requires Typable(Bare(0, text)) && rest != "" && rest[0] == ' '
    ensures Tokens(text + rest) == [text] + Tokens(rest)
  {
    var s := text + rest;
    assert s[0] == text[0] && text[0] in text;
    assert s == text + [' '] + rest[1..];
    IndexInPrefix(text, ' ', rest[1..]);
    assert s[..|text|] == text && s[|text| + 1..] == rest[1..];
    assert rest == Spaces(1) + rest[1..];
    TokensSkip(1, rest[1..]);
  }

  lemma QuotedWord(text: string, rest: string)
    requires Typable(Quoted(0, text))
    ensures Tokens("'" + text + "'" + rest) == [text] + Tokens(rest)
  {
    var s := "'" + text + "'" + rest;
    assert s[1..] == text + ['\''] + rest;
    IndexInPrefix(text, '\'', rest);
    assert s[1..][..|text|] == text && s[|text| + 2..] == rest;
  }

  /** One word at the front of a line, when what follows a bare word starts with a space. */
  lemma OneWord(w: Word, rest: string)
    requires Typable(w) && (w.Bare? ==> rest != "" && rest[0] == ' ')
    ensures Tokens(Render(w) + rest) == [w.text] + Tokens(rest)
  {
    hide Tokens;
    if w.Bare? {
      assert Render(w) + rest == Spaces(w.gap) + (w.text + rest);
      TokensSkip(w.gap, w.text + rest);
      BareWord(w.text, rest);
    } else {
      assert Render(w) + rest == Spaces(w.gap) + ("'" + w.text + "'" + rest);
      TokensSkip(w.gap, "'" + w.text + "'" + rest);
      QuotedWord(w.text, rest);
    }
  }

  /** The words come off the front of a line one by one. */
  lemma {:induction false} WordsThen(ws: seq<Word>, rest: string)
    requires Typed(ws) && (ws != [] && ws[|ws| - 1].Bare? ==> rest != "" && rest[0] == ' ')
    ensures Tokens(RenderAll(ws) + rest) == Texts(ws) + Tokens(rest)
  {
    hide Tokens;
    if ws == [] {
      assert RenderAll(ws) + rest == rest;
    } else {
      var rest' := RenderAll(ws[1..]) + rest;
      assert RenderAll(ws) + rest == Render(ws[0]) + rest';
      if ws[0].Bare? && |ws| > 1 {
        assert ws[1..][0].gap > 0;
        assert RenderAll(ws[1..])[0] == ' ';
      }
      OneWord(ws[0], rest');
      WordsThen(ws[1..], rest);
    }
  }

  lemma WordsRoundTrip(ws: seq<Word>, tail: nat)
    requires Typed(ws)
    ensures Tokens(RenderAll(ws) + Spaces(tail) + " ") == Texts(ws)
  {
    var rest := Spaces(tail) + " ";
    assert RenderAll(ws) + rest == RenderAll(ws) + Spaces(tail) + " ";
    assert rest == Spaces(tail + 1) + "";
    WordsThen(ws, rest);
    TokensSkip(tail + 1, "");
  }

  /** A quoted word that is never closed is lost, whatever it holds, and the words before it
      are kept. */
  lemma UnclosedQuoteLost(ws: seq<Word>, gap: nat, text: string)
    requires Typed(ws) && '\'' !in text && (ws != [] && ws[|ws| - 1].Bare? ==> gap > 0)
    ensures Tokens(RenderAll(ws) + (Spaces(gap) + ("'" + text + " "))) == Texts(ws)
  {
    var open := "'" + text + " ";
    var rest := Spaces(gap) + open;
    assert gap > 0 ==> rest[0] == ' ';
    WordsThen(ws, rest);
    hide Tokens, RenderAll, Texts, Typable;
    TokensSkip(gap, open);
    OpenQuote(text);
  }

  lemma OpenQuote(text: string)
    requires '\'' !in text
    ensures Tokens("'" + text + " ") == []
  {
    var s := "'" + text + " ";
    assert s[1..] == text + " ";
    assert SkipSpaces(s) == s;
  }

  /** Parsing inverts typing: any words, with any spacing, come back as they were, and a last
      word that starts with `&` is dropped and asks for the background. The character that ends
      the line does not matter. */
  lemma ParseInvertsTyping(ws: seq<Word>, tail: nat, newline: char)
    requires Typed(ws)
    ensures var n, texts := |ws|, Texts(ws);
            Arguments(RenderAll(ws) + Spaces(tail) + [newline]) ==
              if n == 0 then ([], true)
              else if ws[n - 1].text != "" && ws[n - 1].text[0] == '&' then (texts[..n - 1], true)
              else (texts, false)
  {
    var line := RenderAll(ws) + Spaces(tail) + [newline];
    assert Spaced(line) == RenderAll(ws) + Spaces(tail) + " ";
    hide Tokens;
    WordsRoundTrip(ws, tail);
    TextsAt(ws);
  }

  lemma {:induction false} TextsAt(ws: seq<Word>)
    ensures |Texts(ws)| == |ws| && forall i :: 0 <= i < |ws| ==> Texts(ws)[i] == ws[i].text
  {
    if ws != [] {
      TextsAt(ws[1..]);
      forall i | 0 <= i < |ws| ensures Texts(ws)[i] == ws[i].text {
        if i > 0 { assert Texts(ws)[i] == Texts(ws[1..])[i - 1]; }
      }
    }
  }

  // ---------------------------------------------------------------- in place

  /** The C string at `p`. */
  function CString(b: seq<char>, p: nat): string
    decreases |b| - p
  {
    if p >= |b| || b[p] == NUL then "" else [b[p]] + CString(b, p + 1)
  }

  /** `w` is the C string at `p`, and ends before `end`. */
  ghost predicate StringAt(b: seq<char>, p: int, w: string, end: nat) {
    && 0 <= p && p + |w| < end <= |b|
    && NUL !in w && b[p..p + |w|] == w && b[p + |w|] == NUL
  }

  lemma {:induction false} StringAtIsCString(b: seq<char>, p: int, w: string, end: nat)
    requires StringAt(b, p, w, end)
    ensures CString(b, p) == w
    decreases |w|
  {
    if w != "" {
      assert b[p] == b[p..p + |w|][0] == w[0];
      assert w[0] in w && forall c :: c in w[1..] ==> c in w;
      assert b[p + 1..p + 1 + |w[1..]|] == b[p..p + |w|][1..];
      StringAtIsCString(b, p + 1, w[1..], end);
    }
  }

  /** What `NextWord` finds from position `from`: no word, or the word at `[buf, delim)`. */
  ghost predicate Found(s: string, from: nat, buf: int, delim: int)
    requires from <= |s|
  {
    if delim == NULLPTR then Tokens(s[from..]) == []
    else
      && from <= buf <= delim < |s|
      && Tokens(s[from..]) == [s[buf..delim]] + Tokens(s[delim + 1..])
  }

  lemma QuotedFound(s: string, from: nat, q: nat)
    requires from <= q < |s| && s[q] == '\'' && SkipSpaces(s[from..]) == s[q..]
    ensures var k := IndexOf(s[q + 1..], '\'');
            Found(s, from, q + 1, if k == |s[q + 1..]| then NULLPTR else q + 1 + k)
  {
    hide SkipSpaces, IndexOf;
    var t, k := s[q..], IndexOf(s[q + 1..], '\'');
    assert t[1..] == s[q + 1..];
    if k < |s| - q - 1 {
      assert t[1..][..k] == s[q + 1..q + 1 + k];
      assert t[k + 2..] == s[q + 1 + k + 1..];
    }
  }

  lemma BareFound(s: string, from: nat, q: nat)
    requires from <= q <= |s| && (q < |s| ==> s[q] != '\'') && SkipSpaces(s[from..]) == s[q..]
    ensures var k := IndexOf(s[q..], ' ');
            Found(s, from, q, if k == |s[q..]| then NULLPTR else q + k)
  {
    hide SkipSpaces, IndexOf;
    var t, k := s[q..], IndexOf(s[q..], ' ');
    if k < |s| - q {
      assert t[..k] == s[q..q + k];
      assert t[k + 1..] == s[q + k + 1..];
    }
  }

  lemma FoundWord(s: string, ws: seq<string>, from: nat, buf: int, delim: int)
    requires from <= |s| && Found(s, from, buf, delim) && delim != NULLPTR
    requires Tokens(s) == ws + Tokens(s[from..])
    ensures from <= buf <= delim < |s|
    ensures Tokens(s) == ws + [s[buf..delim]] + Tokens(s[delim + 1..])
    ensures |ws| + 1 <= |Tokens(s)|
  {
  }

  lemma FoundEnd(s: string, ws: seq<string>, from: nat, buf: int)
    requires from <= |s| && Found(s, from, buf, NULLPTR) && Tokens(s) == ws + Tokens(s[from..])
    ensures Tokens(s) == ws
  {
  }

  class Parser {
    /** The static copy of the command line. */
    const line: array<char>

    constructor ()
      ensures fresh(line) && line.Length == MAXLINE
    {
      line := new char[MAXLINE](_ => NUL);
    }

    /** From `from` on, the buffer still holds the line `s`, closed by a NUL. */
    ghost predicate Holds(s: string, from: nat)
      reads line
    {
      && |s| < line.Length && from <= |s| && NUL !in s
      && line[from..|s|] == s[from..] && line[|s|] == NUL
    }

    /** `strchr` from `p`, -1 for NULL. */
    method StrChr(p: nat, c: char, ghost s: string, ghost from: nat) returns (d: int)
      requires Holds(s, from) && from <= p <= |s| && c != NUL
      ensures var k := IndexOf(s[p..], c); d == if k == |s[p..]| then NULLPTR else p + k
    {
      d := p;
      while line[d] != NUL && line[d] != c
        invariant p <= d <= |s|
        invariant IndexOf(s[p..], c) == d - p + IndexOf(s[d..], c)
        decreases |s| - d
      {
        At(s, from, d);
        assert s[d..][1..] == s[d + 1..];
        d := d + 1;
      }
      if d < |s| { At(s, from, d); } else { assert s[d..] == ""; }
      if line[d] == NUL {
        d := NULLPTR;
      }
    }

    lemma At(s: string, from: nat, d: nat)
      requires Holds(s, from) && from <= d < |s|
      ensures line[d] == s[d] && s[d] in s && line[d] != NUL
    {
      assert line[from..|s|][d - from] == s[from..][d - from];
    }

    /** Skip spaces, then find the end of the word that starts there. */
    method NextWord(from: nat, ghost s: string) returns (buf: nat, delim: int)
      requires Holds(s, from)
      ensures Found(s, from, buf, delim)
    {
      hide IndexOf, Tokens, Found;
      buf := from;
      while line[buf] != NUL && line[buf] == ' '
        invariant from <= buf <= |s|
        invariant SkipSpaces(s[from..]) == SkipSpaces(s[buf..])
        decreases |s| - buf
      {
        At(s, from, buf);
        assert s[buf..][1..] == s[buf + 1..];
        buf := buf + 1;
      }
      if buf < |s| { At(s, from, buf); }
      assert SkipSpaces(s[from..]) == s[buf..];
      hide SkipSpaces;
      if line[buf] == '\'' {
        QuotedFound(s, from, buf);
        buf := buf + 1;
        delim := StrChr(buf, '\'', s, from);
      } else {
        BareFound(s, from, buf);
        delim := StrChr(buf, ' ', s, from);
      }
    }

    /** `argv[k]` points to the string `ws[k]`, and all of them end before `from`. */
    ghost predicate Points(argv: array<int>, ws: seq<string>, from: nat)
      reads line, argv
    {
      && |ws| < argv.Length
      && forall k :: 0 <= k < |ws| ==> StringAt(line[..], argv[k], ws[k], from)
    }

    /** `strcpy` of the command line, and a space over its last character. */
    method CopyLine(cmdline: string)
      requires 0 < |cmdline| < line.Length && NUL !in cmdline
      modifies line
      ensures Holds(Spaced(cmdline), 0)
    {
      for i := 0 to |cmdline|
        invariant line[..i] == cmdline[..i]
      {
        line[i] := cmdline[i];
      }
      line[|cmdline|] := NUL;
      line[|cmdline| - 1] := ' ';
      var s := Spaced(cmdline);
      assert line[0..|s|] == s[0..];
    }

    /** `parseline`: the strings that `argv` points to are the words of the line, and the NUL
        written for one word never damages an earlier one. */
    method ParseLine(cmdline: string, argv: array<int>) returns (bg: bool)
      requires line.Length == MAXLINE && argv.Length == MAXARGS
      requires 0 < |cmdline| < MAXLINE && NUL !in cmdline
      requires |Tokens(Spaced(cmdline))| < MAXARGS
      modifies line, argv
      ensures var (ws, background) := Arguments(cmdline);
              && bg == background
              && |ws| < MAXARGS && argv[|ws|] == NULLPTR
              && forall k :: 0 <= k < |ws| ==> 0 <= argv[k] < MAXLINE && CString(line[..], argv[k]) == ws[k]
    {
      hide Tokens, CString, StringAt, Points, Holds, Found, IndexOf, SkipSpaces, Ampersand, Spaced;
      CopyLine(cmdline);
      ghost var s := Spaced(cmdline);
      ghost var ws: seq<string> := [];
      ghost var from := 0;
      StartParse(s, argv);
      var argc := 0;
      var buf, delim := NextWord(0, s);
      while delim != NULLPTR
        invariant from <= |s| && Holds(s, from) && Found(s, from, buf, delim)
        invariant argc == |ws| && Points(argv, ws, from)
        invariant Tokens(s) == ws + Tokens(s[from..])
        decreases |s| - from
      {
        FoundWord(s, ws, from, buf, delim);
        ghost var w := s[buf..delim];
        StoreWord(s, ws, from, argv, argc, buf, delim);
        argc := argc + 1;
        ws := ws + [w];
        from := delim + 1;
        buf, delim := NextWord(delim + 1, s);
      }
      FoundEnd(s, ws, from, buf);
      bg := CloseArgs(argv, argc, ws, from);
    }

    lemma StartParse(s: string, argv: array<int>)
      requires argv.Length > 0
      ensures s[0..] == s && Points(argv, [], 0) && Tokens(s) == [] + Tokens(s[0..])
    {
    }

    /** The end of `parseline`: close `argv`, and take a last word that starts with `&` as a
        request for the background. */
    method CloseArgs(argv: array<int>, argc: nat, ghost ws: seq<string>, ghost from: nat) returns (bg: bool)
      requires argc == |ws| && Points(argv, ws, from)
      modifies argv
      ensures bg <==> ws == [] || Ampersand(ws[|ws| - 1])
      ensures var kept := if bg && ws != [] then ws[..|ws| - 1] else ws;
              && argv[|kept|] == NULLPTR
              && forall k :: 0 <= k < |kept| ==> 0 <= argv[k] < line.Length && CString(line[..], argv[k]) == kept[k]
    {
      hide StringAt, CString;
      argv[argc] := NULLPTR;
      StringsRead(argv, ws, from);
      if argc == 0 {
        return true;
      }
      LastChar(argv, ws, from);
      bg := line[argv[argc - 1]] == '&';
      if bg {
        argv[argc - 1] := NULLPTR;
      }
    }

    /** One turn of the loop: point to the word and cut it off. */
    method StoreWord(ghost s: string, ghost ws: seq<string>, ghost from: nat, argv: array<int>,
                     argc: nat, buf: nat, delim: nat)
      requires Holds(s, from) && from <= buf <= delim < |s|
      requires argc == |ws| && Points(argv, ws, from) && argc + 1 < argv.Length
      modifies line, argv
      ensures Holds(s, delim + 1) && Points(argv, ws + [s[buf..delim]], delim + 1)
    {
      ghost var b := line[..];
      argv[argc] := buf;
      line[delim] := NUL;
      ghost var w := s[buf..delim];
      assert line[buf..buf + |w|] == w by {
        assert b[from..|s|] == s[from..];
        forall a | buf <= a < delim ensures line[a] == s[a] {
          assert b[from..|s|][a - from] == s[from..][a - from];
        }
      }
      assert line[delim + 1..|s|] == s[delim + 1..] by {
        assert s[delim + 1..] == s[from..][delim + 1 - from..] == b[from..|s|][delim + 1 - from..];
      }
      assert forall c :: c in w ==> c in s;
      forall k | 0 <= k < |ws| ensures StringAt(line[..], argv[k], ws[k], delim + 1) {
        assert StringAt(b, argv[k], ws[k], from);
        assert line[..][argv[k]..argv[k] + |ws[k]|] == b[argv[k]..argv[k] + |ws[k]|];
      }
    }

    lemma LastChar(argv: array<int>, ws: seq<string>, from: nat)
      requires ws != [] && Points(argv, ws, from)
      ensures var p, w := argv[|ws| - 1], ws[|ws| - 1];
              0 <= p < line.Length && (line[p] == '&' <==> Ampersand(w))
    {
    }

    lemma StringsRead(argv: array<int>, ws: seq<string>, from: nat)
      requires Points(argv, ws, from)
      ensures forall k :: 0 <= k < |ws| ==> 0 <= argv[k] < line.Length && CString(line[..], argv[k]) == ws[k]
    {
      forall k | 0 <= k < |ws| ensures CString(line[..], argv[k]) == ws[k] {
        StringAtIsCString(line[..], argv[k], ws[k], from);
      }
    }
  }
}
