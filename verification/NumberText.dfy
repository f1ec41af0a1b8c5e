/** Numbers as `hw6/fileio.c` reads and writes them: splitting text into tokens, converting a
    token, and printing an `int`. */
module NumberText {
  import opened Common

  const INT_MIN: int := -INT_LIMIT
  const INT_MAX: int := INT_LIMIT - 1

  predicate IsInt(n: int) { INT_MIN <= n <= INT_MAX }

  /** C's conversion of a `long` to a 32-bit `int`. */
  function ToInt(n: int): (r: int)
    ensures IsInt(r) && (IsInt(n) ==> r == n)
    ensures -0x8000_0000 <= r <= 0x7FFF_FFFF && (n - r) % 0x1_0000_0000 == 0
  {
    (n - INT_MIN) % SIZE_LIMIT + INT_MIN
  }

  // ---------------------------------------------------------------- tokens

  predicate Separator(c: char) {
    c == ' ' || c == '\n' || c == '\t'
  }

  predicate IsToken(t: string) {
    t != "" && forall c :: c in t ==> !Separator(c)
  }

  /** The length of the token at the front of `s`. */
  function TokenLength(s: string): (k: nat)
    ensures k <= |s|
    ensures forall i :: 0 <= i < k ==> !Separator(s[i])
    ensures k < |s| ==> Separator(s[k])
  {
    if s == "" || Separator(s[0]) then 0 else 1 + TokenLength(s[1..])
  }

  /** The maximal runs without a separator. */
  function Split(s: string): seq<string> {
    if s == "" then []
    else if Separator(s[0]) then Split(s[1..])
    else [s[..TokenLength(s)]] + Split(s[TokenLength(s)..])
  }

  /** What one `read` returns at most. */
  const CHUNK: nat := 512

  /** The tokens `readNumbers` sees: it splits each chunk by itself. */
  function Chunked(s: string): seq<string> {
    if |s| <= CHUNK then Split(s) else Split(s[..CHUNK]) + Chunked(s[CHUNK..])
  }

  /** A chunk ends inside a token. */
  predicate CutAt(s: string, i: nat) {
    0 < i < |s| && !Separator(s[i - 1]) && !Separator(s[i])
  }

  /** How many chunk boundaries fall inside a token. */
  function Cuts(s: string): nat {
    if |s| <= CHUNK then 0 else (if CutAt(s, CHUNK) then 1 else 0) + Cuts(s[CHUNK..])
  }

  lemma {:induction false} TokenLengthIs(s: string, k: nat)
    requires k <= |s| && (forall i :: 0 <= i < k ==> !Separator(s[i])) && (k < |s| ==> Separator(s[k]))
    ensures TokenLength(s) == k
  {
  }

  /** `x` is a token, or the start of one that goes on in `y`. */
  lemma SplitTokenJoin(x: string, y: string)
    requires IsToken(x)
    ensures !CutAt(x + y, |x|) ==> Split(x + y) == [x] + Split(y)
    ensures CutAt(x + y, |x|) ==> |Split(x + y)| == |Split(y)|
  {
    var s, k, m := x + y, |x|, TokenLength(y);
    assert x[0] in x && x[k - 1] in x;
    assert CutAt(s, k) <==> m > 0;
    TokenLengthIs(s, k + m);
    assert s[k + m..] == y[m..];
    hide TokenLength;
    if m == 0 { assert s[..k] == x && y[0..] == y; }
  }

  lemma CutSuffix(x: string, y: string, k: nat)
    requires k < |x|
    ensures x + y == x[..k] + (x[k..] + y)
    ensures CutAt(x + y, |x|) <==> CutAt(x[k..] + y, |x| - k)
  {
  }

  /** Splitting a text in two: nothing changes between tokens, and a token that is cut counts
      twice. */
  lemma {:induction false} SplitJoin(x: string, y: string)
    ensures !CutAt(x + y, |x|) ==> Split(x + y) == Split(x) + Split(y)
    ensures CutAt(x + y, |x|) ==> |Split(x + y)| + 1 == |Split(x)| + |Split(y)|
    decreases |x|
  {
    var s := x + y;
    if x == "" {
      assert s == y;
    } else if Separator(x[0]) {
      assert s[1..] == x[1..] + y;
      SplitJoin(x[1..], y);
      if |x| > 1 { CutSuffix(x, y, 1); }
    } else {
      var k := TokenLength(x);
      if k < |x| {
        TokenLengthIs(s, k);
        assert s[..k] == x[..k] && s[k..] == x[k..] + y;
        SplitJoin(x[k..], y);
        CutSuffix(x, y, k);
      } else {
        SplitWhole(x);
        SplitTokenJoin(x, y);
      }
    }
  }

  lemma SplitWhole(x: string)
    requires IsToken(x)
    ensures Split(x) == [x]
  {
    TokenLengthIs(x, |x|);
    assert x[..|x|] == x && x[|x|..] == "";
  }

  /** Reading by chunks finds one token too many for every boundary inside a token, and the
      right tokens exactly when there is none. */
  lemma {:induction false} ChunkedExact(s: string)
    ensures |Chunked(s)| == |Split(s)| + Cuts(s)
    ensures Chunked(s) == Split(s) <==> Cuts(s) == 0
  {
    if |s| > CHUNK {
      ChunkedExact(s[CHUNK..]);
      assert s == s[..CHUNK] + s[CHUNK..];
      SplitJoin(s[..CHUNK], s[CHUNK..]);
    }
  }

  predicate IsSpacing(c: char) {
    c == ' ' || c == '\n' || c == '\t'
  }

  /** Byte `512 * j` of the file continues a word. */
  predicate CutByChunk(s: string, j: nat) {
    0 < 512 * j < |s| && !IsSpacing(s[512 * j - 1]) && !IsSpacing(s[512 * j])
  }

  /** No token is cut exactly when no multiple of 512 bytes ends inside a word. */
  lemma {:induction false} CutsMeans(s: string)
    ensures Cuts(s) == 0 <==> forall j: nat :: !CutByChunk(s, j)
  {
    if |s| > 512 {
      var rest := s[512..];
      CutsMeans(rest);
      assert Cuts(s) == (if CutByChunk(s, 1) then 1 else 0) + Cuts(rest);
      forall j: nat | 1 <= j ensures CutByChunk(s, j + 1) <==> CutByChunk(rest, j) {
        if 512 * j < |rest| { assert rest[512 * j] == s[512 * (j + 1)] && rest[512 * j - 1] == s[512 * (j + 1) - 1]; }
      }
      if j: nat :| CutByChunk(rest, j) {
        assert CutByChunk(s, j + 1);
      }
      if j: nat :| CutByChunk(s, j) {
        if j > 1 { assert CutByChunk(rest, j - 1); }
      }
    }
  }

  // ---------------------------------------------------------------- what splitting finds

  /** A run of spaces, newlines and tabs. */
  predicate IsGap(g: string) {
    forall c :: c in g ==> IsSpacing(c)
  }

  /** Something without them. */
  predicate IsWord(t: string) {
    t != "" && ' ' !in t && '\n' !in t && '\t' !in t
  }

  /** Each word followed by its gap. */
  function Layout(ws: seq<string>, gaps: seq<string>): string
    requires |gaps| == |ws|
  {
    if ws == [] then "" else ws[0] + (gaps[0] + Layout(ws[1..], gaps[1..]))
  }

  lemma {:induction false} SkipGap(g: string, s: string)
    requires IsGap(g)
    ensures Split(g + s) == Split(s)
  {
    if g == "" {
      assert g + s == s;
    } else {
      assert g[0] in g && forall c :: c in g[1..] ==> c in g;
      assert (g + s)[1..] == g[1..] + s;
      SkipGap(g[1..], s);
    }
  }

  /** Splitting finds exactly the words, however they are spaced. */
  lemma {:induction false} SplitLayout(front: string, ws: seq<string>, gaps: seq<string>)
    requires |gaps| == |ws| && IsGap(front)
    requires forall i :: 0 <= i < |ws| ==> IsWord(ws[i]) && IsGap(gaps[i])
    requires forall i :: 0 <= i < |ws| - 1 ==> gaps[i] != ""
    ensures Split(front + Layout(ws, gaps)) == ws
    decreases |ws|
  {
    hide Split;
    SkipGap(front, Layout(ws, gaps));
    if ws == [] {
      SplitNothing();
    } else {
      var rest := gaps[0] + Layout(ws[1..], gaps[1..]);
      WordFirst(ws[0], rest) by {
        assert |ws| == 1 ==> rest == gaps[0];
        assert rest != "" ==> rest[0] == gaps[0][0] && gaps[0][0] in gaps[0];
      }
      SplitLayout(gaps[0], ws[1..], gaps[1..]);
    }
  }

  lemma SplitNothing()
    ensures Split("") == []
  {
  }

  lemma WordFirst(w: string, rest: string)
    requires IsWord(w) && (rest != "" ==> IsSpacing(rest[0]))
    ensures Split(w + rest) == [w] + Split(rest)
  {
    SplitTokenJoin(w, rest);
  }

  // ---------------------------------------------------------------- reading a token

  /** The value of a digit in bases up to 36, and 36 for any other character. */
  function DigitValue(c: char): int {
    if '0' <= c <= '9' then c as int - '0' as int
    else if 'a' <= c <= 'z' then c as int - 'a' as int + 10
    else if 'A' <= c <= 'Z' then c as int - 'A' as int + 10
    else 36
  }

  predicate IsBlank(c: char) {
    c == ' ' || 9 <= c as int <= 13
  }

  function SkipBlanks(s: string): string {
    if s != "" && IsBlank(s[0]) then SkipBlanks(s[1..]) else s
  }

  /** The leading digits of `s` appended to `acc`. */
  function Accumulate(s: string, base: int, acc: int): int {
    if s == "" || DigitValue(s[0]) >= base then acc
    else Accumulate(s[1..], base, acc * base + DigitValue(s[0]))
  }

  predicate HexPrefix(s: string) {
    |s| > 2 && s[0] == '0' && (s[1] == 'x' || s[1] == 'X') && DigitValue(s[2]) < 16
  }

  /** The magnitude `strtol` reads after blanks and sign. */
  function Magnitude(s: string, base: int): int {
    if (base == 0 || base == 16) && HexPrefix(s) then Accumulate(s[2..], 16, 0)
    else if base == 0 then Accumulate(s, if s != "" && s[0] == '0' then 8 else 10, 0)
    else Accumulate(s, base, 0)
  }

  predicate Signed(s: string) {
    s != "" && (s[0] == '-' || s[0] == '+')
  }

  /** `strtol` (section 7.22.1.4 of ISO/IEC 9899:2011) for bases 0, 10 and 16 and strings too
      short to overflow a `long`. */
  function StrToL(s: string, base: int): int {
    var t := SkipBlanks(s);
    var m := Magnitude(if Signed(t) then t[1..] else t, base);
    if t != "" && t[0] == '-' then -m else m
  }

  /** How `readNumbers` converts a token. */
  function ParseToken(t: string, readHex: bool): int {
    ToInt(if !readHex then StrToL(t, 10)
          else if |t| > 2 && t[0] == '0' && t[1] == 'x' then StrToL(t, 0)
          else StrToL(t, 16))
  }

  /** The branch for tokens that start with `0x` makes no difference. */
  lemma HexBranchesAgree(t: string)
    ensures ParseToken(t, true) == ToInt(StrToL(t, 16))
  {
    if |t| > 2 && t[0] == '0' && t[1] == 'x' {
      assert SkipBlanks(t) == t && !Signed(t);
      if !HexPrefix(t) {
        assert Accumulate(t[1..], 8, 0) == 0 && Accumulate(t[1..], 16, 0) == 0;
      }
    }
  }

  // ---------------------------------------------------------------- what a token is worth

  const LOWER := "0123456789abcdef"
  const UPPER := "0123456789ABCDEF"

  function Pow(b: int, k: nat): int {
    if k == 0 then 1 else b * Pow(b, k - 1)
  }

  /** The number with these digits, the first one most significant. */
  function Value(ds: seq<int>, base: int): int {
    if ds == [] then 0 else ds[0] * Pow(base, |ds| - 1) + Value(ds[1..], base)
  }

  /** `t` spells the digits `ds`, with letters of either case. */
  predicate Spells(t: string, ds: seq<int>, base: int)
    requires base == 10 || base == 16
  {
    && |t| == |ds|
    && forall i :: 0 <= i < |t| ==> 0 <= ds[i] < base && (t[i] == LOWER[ds[i]] || t[i] == UPPER[ds[i]])
  }

  /** The text ends here, or goes on with something that is not a digit. */
  predicate NoDigit(s: string, base: int)
    requires base == 10 || base == 16
  {
    s != "" ==> s[0] !in LOWER[..base] && s[0] !in UPPER[..base]
  }

  lemma DigitValues(c: char, d: int)
    requires 0 <= d < 16 && (c == LOWER[d] || c == UPPER[d])
    ensures DigitValue(c) == d && !IsBlank(c) && c != '+' && c != '-' && c != 'x' && c != 'X'
  {
  }

  lemma DigitListed(c: char, base: int)
    requires (base == 10 || base == 16) && DigitValue(c) < base
    ensures c in LOWER[..base] || c in UPPER[..base]
  {
    var d := DigitValue(c);
    assert c == LOWER[d] || c == UPPER[d];
    assert LOWER[..base][d] == LOWER[d] && UPPER[..base][d] == UPPER[d];
  }

  lemma NoDigitValue(c: char, base: int)
    requires (base == 10 || base == 16) && c !in LOWER[..base] && c !in UPPER[..base]
    ensures DigitValue(c) >= base
  {
    if DigitValue(c) < base { DigitListed(c, base); }
  }

  lemma Distribute(acc: int, b: int, d: int, p: int)
    ensures (acc * b + d) * p == acc * (b * p) + d * p
  {
  }

  lemma {:induction false} AccumulateSpelled(t: string, ds: seq<int>, rest: string, base: int, acc: int)
    requires (base == 10 || base == 16) && Spells(t, ds, base) && NoDigit(rest, base)
    ensures Accumulate(t + rest, base, acc) == acc * Pow(base, |ds|) + Value(ds, base)
    decreases |t|
  {
    if t == "" {
      assert t + rest == rest;
      if rest != "" { NoDigitValue(rest[0], base); }
    } else {
      DigitValues(t[0], ds[0]);
      assert (t + rest)[0] == t[0] && (t + rest)[1..] == t[1..] + rest;
      AccumulateSpelled(t[1..], ds[1..], rest, base, acc * base + ds[0]);
      Distribute(acc, base, ds[0], Pow(base, |ds| - 1));
    }
  }

  /** What a digit text is worth without a prefix, unless it is the 0 of one. */
  lemma MagnitudeSpelled(t: string, ds: seq<int>, rest: string, base: int)
    requires (base == 10 || base == 16) && t != "" && Spells(t, ds, base) && NoDigit(rest, base)
    requires base == 16 && t == "0" ==> |rest| < 2 || (rest[0] != 'x' && rest[0] != 'X') || NoDigit(rest[1..], 16)
    ensures Magnitude(t + rest, base) == Value(ds, base)
  {
    var s := t + rest;
    AccumulateSpelled(t, ds, rest, base, 0);
    if |t| >= 2 { DigitValues(t[1], ds[1]); }
    if base == 16 && HexPrefix(s) {
      assert |t| == 1 && t[0] == s[0];
      assert t == "0" && s[1] == rest[0] && s[2] == rest[1] == rest[1..][0];
      NoDigitValue(rest[1], 16);
    }
  }

  lemma MagnitudePrefixed(prefix: string, t: string, ds: seq<int>, rest: string)
    requires (prefix == "0x" || prefix == "0X") && t != "" && Spells(t, ds, 16) && NoDigit(rest, 16)
    ensures Magnitude(prefix + (t + rest), 16) == Value(ds, 16)
  {
    var s := prefix + (t + rest);
    assert s[2] == t[0] && s[2..] == t + rest;
    DigitValues(t[0], ds[0]);
    AccumulateSpelled(t, ds, rest, 16, 0);
  }

  /** White space as `strtol` skips it. */
  predicate IsWhite(g: string) {
    forall c :: c in g ==> c == ' ' || c == '\t' || c == '\n' || c == '\r' || c as int == 11 || c as int == 12
  }

  lemma {:induction false} SkipsWhite(g: string, s: string)
    requires IsWhite(g) && (s != "" ==> !IsBlank(s[0]))
    ensures SkipBlanks(g + s) == s
  {
    if g == "" {
      assert g + s == s;
    } else {
      assert g[0] in g && forall c :: c in g[1..] ==> c in g;
      assert (g + s)[1..] == g[1..] + s;
      SkipsWhite(g[1..], s);
    }
  }

  /** `strtol` of white space, a sign and a body that starts with neither. */
  lemma StrToLSigned(white: string, sign: string, body: string, base: int)
    requires IsWhite(white) && (sign == "" || sign == "+" || sign == "-")
    requires body != "" && !IsBlank(body[0]) && body[0] != '+' && body[0] != '-'
    ensures StrToL(white + (sign + body), base) == if sign == "-" then -Magnitude(body, base) else Magnitude(body, base)
  {
    var t := sign + body;
    SkipsWhite(white, t);
    if sign == "" { assert t == body; } else { assert t[1..] == body; }
  }

  /** A decimal token: white space, a sign, digits, and whatever follows them. */
  lemma DecimalToken(white: string, sign: string, t: string, ds: seq<int>, rest: string)
    requires IsWhite(white) && (sign == "" || sign == "+" || sign == "-")
    requires t != "" && Spells(t, ds, 10) && NoDigit(rest, 10)
    ensures ParseToken(white + (sign + (t + rest)), false) == ToInt(if sign == "-" then -Value(ds, 10) else Value(ds, 10))
  {
    DigitValues(t[0], ds[0]);
    assert (t + rest)[0] == t[0];
    StrToLSigned(white, sign, t + rest, 10);
    MagnitudeSpelled(t, ds, rest, 10);
  }

  /** A hexadecimal token, with or without a prefix, in letters of either case. */
  lemma HexToken(white: string, sign: string, prefix: string, t: string, ds: seq<int>, rest: string)
    requires IsWhite(white) && (sign == "" || sign == "+" || sign == "-")
    requires (prefix == "" || prefix == "0x" || prefix == "0X") && t != "" && Spells(t, ds, 16) && NoDigit(rest, 16)
    requires prefix == "" && t == "0" ==>
               |rest| < 2 || (rest[0] != 'x' && rest[0] != 'X') || NoDigit(rest[1..], 16)
    ensures ParseToken(white + (sign + (prefix + (t + rest))), true)
         == ToInt(if sign == "-" then -Value(ds, 16) else Value(ds, 16))
  {
    hide StrToL, Magnitude, Value, SkipBlanks, ToInt;
    var body := prefix + (t + rest);
    DigitValues(t[0], ds[0]);
    assert body[0] == if prefix == "" then t[0] else '0';
    HexBranchesAgree(white + (sign + body));
    StrToLSigned(white, sign, body, 16);
    if prefix == "" {
      assert body == t + rest;
      MagnitudeSpelled(t, ds, rest, 16);
    } else {
      MagnitudePrefixed(prefix, t, ds, rest);
    }
  }

  /** A token without a digit where one is expected is worth 0. */
  lemma EmptyToken(white: string, sign: string, rest: string, hex: bool)
    requires IsWhite(white) && (sign == "" || sign == "+" || sign == "-") && NoDigit(rest, if hex then 16 else 10)
    requires sign == "" && rest != "" ==> !IsWhite([rest[0]]) && rest[0] != '+' && rest[0] != '-'
    ensures ParseToken(white + (sign + rest), hex) == 0
  {
    var base := if hex then 16 else 10;
    var t := sign + rest;
    assert sign == "" ==> t == rest;
    SkipsWhite(white, t);
    assert sign != "" ==> t[1..] == rest;
    if rest != "" { NoDigitValue(rest[0], base); }
    assert Magnitude(rest, base) == 0;
    if hex { HexBranchesAgree(white + t); }
  }

  function ParseAll(ts: seq<string>, readHex: bool): (ns: seq<int>)
    ensures |ns| == |ts|
    ensures forall i :: 0 <= i < |ts| ==> ns[i] == ParseToken(ts[i], readHex)
  {
    seq(|ts|, i requires 0 <= i < |ts| => ParseToken(ts[i], readHex))
  }

  /** The numbers `readNumbers` finds in a file. */
  function NumbersIn(file: string, readHex: bool): seq<int> {
    ParseAll(Chunked(file), readHex)
  }

  // ---------------------------------------------------------------- writing a number

  function DigitChar(m: int): char
    requires 0 <= m < 16
  {
    if m >= 10 then (m - 10 + 'A' as int) as char else (m + '0' as int) as char
  }

  predicate IsBase(base: int) { base == 10 || base == 16 }

  /** The usual numeral of a natural number. */
  function Digits(n: nat, base: int): (d: string)
    requires IsBase(base)
    ensures d != ""
  {
    if n < base then [DigitChar(n)] else Digits(n / base, base) + [DigitChar(n % base)]
  }

  /** C's `abs`, which returns `INT_MIN` for itself. */
  function AbsInt(n: int): int {
    if n == INT_MIN then INT_MIN else if n < 0 then -n else n
  }

  /** C's remainder, which has the sign of the dividend. */
  function CRemainder(n: int, base: int): int
    requires IsBase(base)
  {
    if n >= 0 then n % base else -((-n) % base)
  }

  /** The characters the digit loop of `writeNumbers` leaves in its buffer. Its body runs once
      even for a negative number, which only `abs(INT_MIN)` can be. */
  function LoopDigits(n: int, base: int): string
    requires IsBase(base) && IsInt(n)
  {
    if n >= 0 then Digits(n, base) else [(CRemainder(n, base) + '0' as int) as char]
  }

  function Base(hex: bool): int { if hex then 16 else 10 }

  /** What `writeNumbers` writes for one number, without the newline. */
  function Numeral(n: int, hex: bool): string
    requires IsInt(n)
  {
    (if n < 0 then "-" else "") + LoopDigits(AbsInt(n), Base(hex))
  }

  predicate AreInts(ns: seq<int>) { forall n :: n in ns ==> IsInt(n) }

  /** What `writeNumbers` writes. */
  function Written(ns: seq<int>, hex: bool): string
    requires AreInts(ns)
  {
    if ns == [] then "" else Numeral(ns[0], hex) + "\n" + Written(ns[1..], hex)
  }

  // ---------------------------------------------------------------- the two together

  predicate PlainDigit(c: char, base: int) {
    DigitValue(c) < base && !IsBlank(c) && !Separator(c) && c != '-' && c != '+' && c != 'x' && c != 'X'
  }

  lemma PlainDigitChar(m: int, base: int)
    requires IsBase(base) && 0 <= m < base
    ensures PlainDigit(DigitChar(m), base) && DigitValue(DigitChar(m)) == m
  {
  }

  lemma {:induction false} DigitsPlain(n: nat, base: int)
    requires IsBase(base)
    ensures forall c :: c in Digits(n, base) ==> PlainDigit(c, base)
    decreases n
  {
    PlainDigitChar(n % base, base);
    if n >= base { DigitsPlain(n / base, base); }
  }

  lemma DivMod(n: nat, base: int)
    requires IsBase(base)
    ensures n / base * base + n % base == n && 0 <= n % base < base
  {
    if base == 10 { assert n / 10 * 10 + n % 10 == n; } else { assert n / 16 * 16 + n % 16 == n; }
  }

  lemma AccumulateOne(c: char, rest: string, base: int, acc: int)
    requires DigitValue(c) < base
    ensures Accumulate([c] + rest, base, acc) == Accumulate(rest, base, acc * base + DigitValue(c))
  {
    assert ([c] + rest)[1..] == rest;
  }

  /** Reading digits inverts writing them. */
  lemma {:induction false} AccumulateDigits(n: nat, base: int, rest: string)
    requires IsBase(base)
    ensures Accumulate(Digits(n, base) + rest, base, 0) == Accumulate(rest, base, n)
    decreases n
  {
    DivMod(n, base);
    var c := DigitChar(n % base);
    PlainDigitChar(n % base, base);
    hide DigitChar, DigitValue, PlainDigit, Accumulate;
    if n < base {
      AccumulateOne(c, rest, base, 0);
    } else {
      assert Digits(n, base) + rest == Digits(n / base, base) + ([c] + rest);
      AccumulateDigits(n / base, base, [c] + rest);
      AccumulateOne(c, rest, base, n / base);
    }
  }

  lemma {:induction false} ValueSnoc(ds: seq<int>, d: int, base: int)
    ensures Value(ds + [d], base) == Value(ds, base) * base + d
  {
    if ds == [] {
      assert [d][1..] == [] && Pow(base, 0) == 1;
    } else {
      assert (ds + [d])[1..] == ds[1..] + [d];
      ValueSnoc(ds[1..], d, base);
      Distribute(0, base, ds[0], Pow(base, |ds| - 1));
      var p := Pow(base, |ds| - 1);
      assert ds[0] * (base * p) == (ds[0] * p) * base;
      assert (ds[0] * p + Value(ds[1..], base)) * base == (ds[0] * p) * base + Value(ds[1..], base) * base;
    }
  }

  /** `t` is the numeral of `n`: upper-case digits worth `n`, without a leading zero. */
  ghost predicate IsNumeral(t: string, n: nat, base: int)
    requires base == 10 || base == 16
  {
    exists ds: seq<int> ::
      && |ds| == |t| > 0 && (forall i :: 0 <= i < |t| ==> 0 <= ds[i] < base && t[i] == UPPER[ds[i]])
      && Value(ds, base) == n && (|ds| > 1 ==> ds[0] != 0)
  }

  lemma NumeralSnoc(t: string, n: nat, m: nat, base: int)
    requires IsBase(base) && n > 0 && m < base && IsNumeral(t, n, base)
    ensures IsNumeral(t + [UPPER[m]], n * base + m, base)
  {
    var ds: seq<int> :|
      && |ds| == |t| > 0 && (forall i :: 0 <= i < |t| ==> 0 <= ds[i] < base && t[i] == UPPER[ds[i]])
      && Value(ds, base) == n && (|ds| > 1 ==> ds[0] != 0);
    ValueSnoc(ds, m, base);
    LeadingDigit(ds, n, base);
    hide Value;
    var all := ds + [m as int];
    assert |all| == |t + [UPPER[m]]| && Value(all, base) == n * base + m && all[0] == ds[0];
  }

  lemma NumeralOne(m: nat, base: int)
    requires IsBase(base) && m < base
    ensures IsNumeral([UPPER[m]], m, base)
  {
    ValueSnoc([], m, base);
    var ds: seq<int> := [m];
    assert ds == [] + [m as int] && Value(ds, base) == m && |ds| == |[UPPER[m]]|;
  }

  lemma UpperDigit(m: int)
    requires 0 <= m < 16
    ensures DigitChar(m) == UPPER[m]
  {
  }

  lemma {:induction false} DigitsAreNumeral(n: nat, base: int)
    requires IsBase(base)
    ensures IsNumeral(Digits(n, base), n, base)
    decreases n
  {
    hide IsNumeral, DigitChar;
    if n < base {
      UpperDigit(n);
      NumeralOne(n, base);
    } else {
      var q, m := n / base, n % base;
      DivMod(n, base);
      UpperDigit(m);
      assert Digits(n, base) == Digits(q, base) + [UPPER[m]];
      DigitsAreNumeral(q, base);
      NumeralSnoc(Digits(q, base), q, m, base);
    }
  }

  lemma LeadingDigit(ds: seq<int>, n: int, base: int)
    requires IsBase(base) && |ds| > 0 && Value(ds, base) == n > 0 && (|ds| > 1 ==> ds[0] != 0)
    ensures ds[0] != 0
  {
    if |ds| == 1 { assert ds[1..] == [] && Pow(base, 0) == 1; }
  }

  /** What is written for a number: its numeral, behind a minus sign if it is negative; and for
      `INT_MIN` a minus sign and one character. */
  lemma NumeralReads(n: int, hex: bool)
    requires IsInt(n)
    ensures n >= 0 ==> IsNumeral(Numeral(n, hex), n, if hex then 16 else 10)
    ensures INT_MIN < n < 0 ==> exists t :: IsNumeral(t, -n, if hex then 16 else 10) && Numeral(n, hex) == "-" + t
    ensures n == -0x8000_0000 ==> Numeral(n, hex) == if hex then "-0" else "-("
  {
    if n > INT_MIN {
      var t := Digits(AbsInt(n), Base(hex));
      DigitsAreNumeral(AbsInt(n), Base(hex));
      assert Numeral(n, hex) == (if n < 0 then "-" else "") + t;
      if n >= 0 { assert Numeral(n, hex) == t; }
    }
  }

  /** What `strtol` makes of a sign and plain digits. */
  lemma StrToLPlain(d: string, negative: bool, base: int)
    requires IsBase(base) && d != "" && forall c :: c in d ==> PlainDigit(c, base)
    ensures var t := (if negative then "-" else "") + d;
            StrToL(t, base) == if negative then -Accumulate(d, base, 0) else Accumulate(d, base, 0)
  {
    var t := (if negative then "-" else "") + d;
    assert d[0] in d;
    if |d| > 1 { assert d[1] in d; }
    if negative { assert t[1..] == d; } else { assert t == d; }
  }

  lemma IntMinUnread(hex: bool)
    ensures ParseToken(Numeral(INT_MIN, hex), hex) == 0
  {
    var t, base := Numeral(INT_MIN, hex), Base(hex);
    var c := (CRemainder(INT_MIN, base) + '0' as int) as char;
    assert t == "-" + [c];
    assert c == if hex then '0' else '(';
    assert t[1..] == [c] && [c][1..] == "";
    assert Accumulate([c], base, 0) == 0;
    assert StrToL(t, base) == 0;
  }

  /** A written number is read back in the same radix, except for `INT_MIN`, which reads 0. */
  lemma TokenRoundTrip(n: int, hex: bool)
    requires IsInt(n)
    ensures ParseToken(Numeral(n, hex), hex) == n <==> n != INT_MIN
  {
    hide Digits, StrToL, Accumulate;
    if n == INT_MIN {
      IntMinUnread(hex);
    } else {
      var base, d := Base(hex), Digits(AbsInt(n), Base(hex));
      DigitsPlain(AbsInt(n), base);
      StrToLPlain(d, n < 0, base);
      assert Accumulate(d, base, 0) == AbsInt(n) by {
        AccumulateDigits(AbsInt(n), base, "");
        AccumulateNothing(base, AbsInt(n));
        assert d + "" == d;
      }
      if hex { HexBranchesAgree(Numeral(n, hex)); }
    }
  }

  lemma AccumulateNothing(base: int, acc: int)
    ensures Accumulate("", base, acc) == acc
  {
  }
}
