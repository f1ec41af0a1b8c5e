/** Whole files of numbers: `readNumbers` and `writeNumbers` of `hw6/fileio.c`, and the
    read-sort-write program of `hw6/sortfile.c`. */
module NumberFile {
  import opened Common
  import opened NumberText
  import BubbleSort

  // ---------------------------------------------------------------- written files read back

  function Numerals(ns: seq<int>, hex: bool): (ts: seq<string>)
    requires AreInts(ns)
    ensures |ts| == |ns| && forall i :: 0 <= i < |ns| ==> ts[i] == Numeral(ns[i], hex)
  {
    seq(|ns|, i requires 0 <= i < |ns| => Numeral(ns[i], hex))
  }

  lemma NumeralIsToken(n: int, hex: bool)
    requires IsInt(n)
    ensures IsToken(Numeral(n, hex))
  {
    if n == INT_MIN {
      assert LoopDigits(AbsInt(n), Base(hex)) == if hex then "0" else "(";
    } else {
      DigitsPlain(AbsInt(n), Base(hex));
    }
  }

  /** A token, a newline and more text. */
  lemma SplitLine(t: string, rest: string)
    requires IsToken(t)
    ensures Split(t + "\n" + rest) == [t] + Split(rest)
  {
    var s := "\n" + rest;
    assert s[0] == '\n' && s[1..] == rest;
    assert t + "\n" + rest == t + s;
    assert !CutAt(t + s, |t|);
    SplitTokenJoin(t, s);
  }

  lemma {:induction false} SplitWritten(ns: seq<int>, hex: bool)
    requires AreInts(ns)
    ensures Split(Written(ns, hex)) == Numerals(ns, hex)
  {
    hide Numeral;
    if ns == [] {
      assert Written(ns, hex) == "";
    } else {
      hide Split, IsToken;
      NumeralIsToken(ns[0], hex);
      assert Written(ns, hex) == Numeral(ns[0], hex) + "\n" + Written(ns[1..], hex);
      SplitLine(Numeral(ns[0], hex), Written(ns[1..], hex));
      SplitWritten(ns[1..], hex);
      assert Numerals(ns, hex) == [Numeral(ns[0], hex)] + Numerals(ns[1..], hex);
    }
  }

  /** Splitting a written file chunk by chunk and converting its tokens gives the numbers that
      were written exactly when no 512-byte boundary falls inside a number and `INT_MIN` is not
      among them. */
  lemma NumbersWritten(ns: seq<int>, hex: bool)
    requires AreInts(ns)
    ensures NumbersIn(Written(ns, hex), hex) == ns <==> Cuts(Written(ns, hex)) == 0 && INT_MIN !in ns
  {
    hide Cuts, Chunked, Split, Written, Numeral, ParseToken;
    var file := Written(ns, hex);
    ChunkedExact(file);
    SplitWritten(ns, hex);
    if Cuts(file) == 0 {
      forall i | 0 <= i < |ns| ensures NumbersIn(file, hex)[i] == ns[i] <==> ns[i] != INT_MIN {
        TokenRoundTrip(ns[i], hex);
      }
    }
  }

  function Elevens(k: nat): seq<int> { seq(k, _ => 11) }

  lemma {:induction false} WrittenElevens(k: nat)
    ensures var w := Written(Elevens(k), false);
            |w| == 3 * k && (k > 0 ==> w[3 * k - 3] == '1' && w[3 * k - 2] == '1')
    decreases k
  {
    if k > 0 {
      assert Elevens(k)[1..] == Elevens(k - 1);
      WrittenElevens(k - 1);
      assert Digits(1, 10) == "1" && Digits(11, 10) == "11";
      var w, v := Written(Elevens(k), false), Written(Elevens(k - 1), false);
      assert w == "11\n" + v;
      if k > 1 { assert w[3 * k - 3] == v[3 * k - 6] && w[3 * k - 2] == v[3 * k - 5]; }
    }
  }

  lemma CutCounts(w: string)
    requires |w| > 512 && !Separator(w[511]) && !Separator(w[512])
    ensures Cuts(w) > 0
  {
  }

  /** 111 and then 170 times 11, written in decimal, do not read back: byte 512 is in the middle
      of the last 11. */
  lemma BoundaryBreaksNumber()
    ensures var ns := [111] + Elevens(170);
            AreInts(ns) && INT_MIN !in ns && NumbersIn(Written(ns, false), false) != ns
  {
    var ns := [111] + Elevens(170);
    var w := Written(ns, false);
    assert ns[1..] == Elevens(170);
    WrittenElevens(170);
    hide Elevens, NumbersIn, Cuts, Numeral;
    Numeral111();
    assert w == "111" + "\n" + Written(ns[1..], false);
    ShiftedDigits(w, Written(ns[1..], false));
    hide Written;
    CutCounts(w);
    NumbersWritten(ns, false);
  }

  lemma Numeral111()
    ensures Numeral(111, false) == "111"
  {
    assert Digits(1, 10) == "1" && Digits(11, 10) == "11";
  }

  lemma ShiftedDigits(w: string, v: string)
    requires w == "111" + "\n" + v && |v| == 510 && v[507] == '1' && v[508] == '1'
    ensures |w| == 514 && w[511] == '1' && w[512] == '1'
  {
  }

  // ---------------------------------------------------------------- token lengths

  /** A numeral has at most `k` digits exactly when the number is below the `k`-th power. */
  lemma {:induction false} DigitsLength(n: nat, base: int, k: nat)
    requires IsBase(base) && k > 0
    ensures |Digits(n, base)| <= k <==> n < Pow(base, k)
    decreases k
  {
    DivMod(n, base);
    if k == 1 {
      assert Pow(base, 1) == base;
      if n >= base { assert Digits(n / base, base) != ""; }
    } else {
      DigitsLength(n / base, base, k - 1);
      PowBound(n, base, k);
      if n < base { PowGrows(base, k); }
    }
  }

  lemma PowBound(n: nat, base: int, k: nat)
    requires IsBase(base) && k > 0
    ensures n / base < Pow(base, k - 1) <==> n < Pow(base, k)
  {
  }

  lemma {:induction false} PowGrows(base: int, k: nat)
    requires IsBase(base) && k > 0
    ensures Pow(base, k) >= base
  {
    if k > 1 { PowGrows(base, k - 1); }
  }

  /** The reader's 10-byte token buffer is large enough for every number but `INT_MIN` in hex,
      and in decimal exactly for these. */
  lemma NumeralLength(n: int, hex: bool)
    requires IsInt(n) && n != INT_MIN
    ensures |Numeral(n, hex)| <= TOKEN_MAX <==> hex || -99999999 <= n <= 999999999
  {
    var k := if n < 0 then 8 else 9;
    DigitsLength(AbsInt(n), Base(hex), k);
    assert Pow(10, 8) == 100000000 && Pow(10, 9) == 1000000000 && Pow(16, 8) == 0x1_0000_0000 by {
      assert Pow(10, 4) == 10000;
      assert Pow(16, 4) == 0x1_0000;
      assert Pow(10, 8) == 10 * 10 * 10 * 10 * Pow(10, 4);
      assert Pow(16, 8) == 16 * 16 * 16 * 16 * Pow(16, 4);
    }
    if hex && n >= 0 {
      DigitsLength(n, 16, 8);
    }
  }

  ghost predicate AllShort(ts: seq<string>, n: nat) {
    forall t :: t in ts ==> |t| <= n
  }

  /** Cutting a text never makes its tokens longer. */
  lemma {:induction false} PartsShort(x: string, y: string, n: nat)
    requires AllShort(Split(x + y), n)
    ensures AllShort(Split(x), n) && AllShort(Split(y), n)
    decreases |x|
  {
    var s := x + y;
    if x == "" {
      assert s == y;
    } else if Separator(x[0]) {
      assert s[1..] == x[1..] + y;
      PartsShort(x[1..], y, n);
    } else {
      var k := TokenLength(x);
      if k < |x| {
        TokenLengthIs(s, k);
        assert s[..k] == x[..k] && s[k..] == x[k..] + y;
        PartsShort(x[k..], y, n);
      } else {
        WholePartShort(x, y, n);
      }
    }
  }

  lemma WholePartShort(x: string, y: string, n: nat)
    requires IsToken(x) && AllShort(Split(x + y), n)
    ensures AllShort(Split(x), n) && AllShort(Split(y), n)
  {
    var s, k, m := x + y, |x|, TokenLength(y);
    assert x[0] in x;
    SplitWhole(x);
    TokenLengthIs(s, k + m);
    assert s[k + m..] == y[m..];
    assert Split(s) == [s[..k + m]] + Split(y[m..]);
    assert s[..k + m] in Split(s);
    forall t | t in Split(y[m..]) ensures |t| <= n {
      assert t in Split(s);
    }
    if m == 0 { assert y[0..] == y; } else { assert Split(y) == [y[..m]] + Split(y[m..]); }
  }

  lemma {:induction false} ChunksShort(s: string, n: nat)
    requires AllShort(Split(s), n)
    ensures AllShort(Chunked(s), n)
  {
    if |s| > CHUNK {
      assert s == s[..CHUNK] + s[CHUNK..];
      PartsShort(s[..CHUNK], s[CHUNK..], n);
      ChunksShort(s[CHUNK..], n);
    }
  }

  /** The longest token that fits the reader's 10-byte buffer with its NUL. */
  const TOKEN_MAX: nat := 9

  /** A number whose numeral fits the reader's buffer. */
  predicate Short(n: int, hex: bool) {
    n == INT_MIN || hex || -99999999 <= n <= 999999999
  }

  lemma NumeralShort(n: int, hex: bool)
    requires IsInt(n)
    ensures |Numeral(n, hex)| <= TOKEN_MAX <==> Short(n, hex)
  {
    if n == INT_MIN {
      assert |LoopDigits(AbsInt(INT_MIN), Base(hex))| == 1;
    } else {
      NumeralLength(n, hex);
    }
  }

  /** The written numerals all fit exactly when the numbers are short. */
  lemma NumeralsShort(ns: seq<int>, hex: bool)
    requires AreInts(ns)
    ensures AllShort(Split(Written(ns, hex)), TOKEN_MAX) <==> forall n :: n in ns ==> Short(n, hex)
  {
    hide Split, Written, Numeral, Short;
    SplitWritten(ns, hex);
    forall i | 0 <= i < |ns| ensures |Numeral(ns[i], hex)| <= TOKEN_MAX <==> Short(ns[i], hex) {
      NumeralShort(ns[i], hex);
    }
    assert forall i :: 0 <= i < |ns| ==> Numerals(ns, hex)[i] in Numerals(ns, hex) && ns[i] in ns;
  }

  /** What `readNumbers` returns for a file; `None` when some token of a chunk overruns its
      buffer, and C promises nothing. */
  ghost function ReadBack(file: string, hex: bool): Option<seq<int>> {
    if AllShort(Chunked(file), TOKEN_MAX) then Some(NumbersIn(file, hex)) else None
  }

  /** Reading back a written file gives the numbers that were written exactly when no 512-byte
      boundary falls inside a number, `INT_MIN` is not among them, and in decimal none has more
      than nine characters. */
  lemma RereadExact(ns: seq<int>, hex: bool)
    requires AreInts(ns)
    ensures ReadBack(Written(ns, hex), hex) == Some(ns)
       <==> && Cuts(Written(ns, hex)) == 0 && INT_MIN !in ns
            && (hex || forall n :: n in ns ==> -99999999 <= n <= 999999999)
  {
    hide Cuts, Chunked, Split, Written, AllShort, NumbersIn;
    NumbersWritten(ns, hex);
    NumeralsShort(ns, hex);
    ChunkedExact(Written(ns, hex));
  }

  // ---------------------------------------------------------------- readNumbers

  /** How much one `read` returns when `rest` is left of the file. */
  function ReadSize(rest: string): (n: nat)
    ensures n <= |rest| && n <= CHUNK && (n == 0 <==> rest == "")
  {
    if |rest| < CHUNK then |rest| else CHUNK
  }

  /** `read` of at most 512 bytes of what is left of the file. */
  method Read(rest: string, buffer: array<char>) returns (buffLen: nat)
    requires buffer.Length == CHUNK
    modifies buffer
    ensures buffLen == ReadSize(rest) && buffer[..buffLen] == rest[..buffLen]
  {
    buffLen := ReadSize(rest);
    for i := 0 to buffLen
      invariant buffer[..i] == rest[..i]
    {
      buffer[i] := rest[i];
    }
  }

  /** The token at `i`, copied into the 10-byte buffer of `readNumbers`. */
  method ReadToken(buffer: array<char>, buffLen: nat, i0: nat, str: array<char>) returns (i: nat, lenStr: nat)
    requires i0 < buffLen <= buffer.Length && !Separator(buffer[i0])
    requires str.Length == 10 && str != buffer
    requires TokenLength(buffer[i0..buffLen]) < str.Length
    modifies str
    ensures lenStr == TokenLength(buffer[i0..buffLen]) && i == i0 + lenStr
    ensures str[..lenStr] == buffer[i0..i]
  {
    i := i0;
    lenStr := 0;
    ghost var s := buffer[i0..buffLen];
    while i < buffLen && !Separator(buffer[i])
      invariant i0 <= i <= buffLen && i == i0 + lenStr && lenStr <= TokenLength(s)
      invariant str[..lenStr] == buffer[i0..i]
      decreases buffLen - i
    {
      assert s[lenStr] == buffer[i];
      str[lenStr] := buffer[i];
      i := i + 1;
      lenStr := lenStr + 1;
    }
    if i < buffLen { assert s[lenStr] == buffer[i]; }
    TokenLengthIs(s, lenStr);
  }

  /** `realloc` of the growing array: a longer copy. */
  method Grow(a: array<int>, limit: nat) returns (b: array<int>)
    requires a.Length < limit
    ensures fresh(b) && b.Length == limit && b[..a.Length] == a[..]
  {
    b := new int[limit];
    for i := 0 to a.Length
      invariant b[..i] == a[..i]
    {
      b[i] := a[i];
    }
  }

  /** The numbers of one chunk, appended to the first `count` elements of the array. */
  method ReadChunk(buffer: array<char>, buffLen: nat, readHex: bool, arr0: array<int>, count0: nat)
    returns (arr: array<int>, count: nat)
    requires buffLen <= buffer.Length && count0 < arr0.Length
    requires AllShort(Split(buffer[..buffLen]), TOKEN_MAX)
    modifies arr0
    ensures arr == arr0 || fresh(arr)
    ensures count < arr.Length
    ensures arr[..count] == old(arr0[..count0]) + ParseAll(Split(buffer[..buffLen]), readHex)
  {
    hide Split, ParseAll, TokenLength, AllShort, ParseToken, Separator;
    arr, count := arr0, count0;
    ghost var chunk := buffer[..buffLen];
    ghost var numbers := old(arr0[..count0]) + ParseAll(Split(chunk), readHex);
    var i := 0;
    assert chunk[0..] == chunk;
    while i < buffLen
      invariant 0 <= i <= buffLen && count < arr.Length && (arr == arr0 || fresh(arr))
      invariant buffer[..buffLen] == chunk
      invariant AllShort(Split(chunk[i..]), TOKEN_MAX)
      invariant numbers == arr[..count] + ParseAll(Split(chunk[i..]), readHex)
      decreases buffLen - i
    {
      assert chunk[i..][0] == chunk[i] == buffer[i] && chunk[i..] == buffer[i..buffLen];
      if !Separator(buffer[i]) {
        ParseFirst(chunk[i..], readHex);
        ghost var k := TokenLength(chunk[i..]);
        ghost var number := ParseToken(chunk[i..][..k], readHex);
        ghost var before, left := arr[..count], ParseAll(Split(chunk[i + k..]), readHex);
        assert chunk[i..][k..] == chunk[i + k..];
        arr, count, i := TakeToken(buffer, buffLen, i, readHex, arr, count);
        assert before + ([number] + left) == (before + [number]) + left;
      } else {
        SkipFirst(chunk[i..], readHex);
        assert chunk[i..][1..] == chunk[i + 1..];
        i := i + 1;
      }
    }
    assert chunk[i..] == "";
    ParseNothing(readHex);
  }

  /** Convert the token at `i0` and store the number. */
  method TakeToken(buffer: array<char>, buffLen: nat, i0: nat, readHex: bool, arr0: array<int>, count0: nat)
    returns (arr: array<int>, count: nat, i: nat)
    requires i0 < buffLen <= buffer.Length && !Separator(buffer[i0]) && count0 < arr0.Length
    requires TokenLength(buffer[i0..buffLen]) < 10
    modifies arr0
    ensures (arr == arr0 || fresh(arr)) && count < arr.Length
    ensures var k := TokenLength(buffer[i0..buffLen]);
            && i == i0 + k <= buffLen
            && arr[..count] == old(arr0[..count0]) + [ParseToken(buffer[i0..buffLen][..k], readHex)]
  {
    hide ParseToken;
    var str := new char[10](_ => '\0');
    var lenStr;
    i, lenStr := ReadToken(buffer, buffLen, i0, str);
    assert buffer[i0..buffLen][..lenStr] == str[..lenStr];
    arr := Append(arr0, count0, ParseToken(str[..lenStr], readHex));
    count := count0 + 1;
  }

  /** Store a number, and make the array longer when it is full. */
  method Append(arr0: array<int>, count: nat, number: int) returns (arr: array<int>)
    requires count < arr0.Length
    modifies arr0
    ensures arr == arr0 || fresh(arr)
    ensures count + 1 < arr.Length && arr[..count + 1] == old(arr0[..count]) + [number]
  {
    arr := arr0;
    arr[count] := number;
    assert arr[..count + 1] == arr[..count] + [number];
    if count + 1 == arr.Length {
      arr := Grow(arr, arr.Length + 50);
      assert arr[..count + 1] == arr0[..];
    }
  }

  lemma ParseNothing(readHex: bool)
    ensures ParseAll(Split(""), readHex) == [] && NumbersIn("", readHex) == []
  {
  }

  lemma SkipFirst(s: string, readHex: bool)
    requires s != "" && Separator(s[0])
    ensures Split(s) == Split(s[1..])
  {
  }

  lemma ParseFirst(s: string, readHex: bool)
    requires s != "" && !Separator(s[0]) && AllShort(Split(s), TOKEN_MAX)
    ensures var k := TokenLength(s);
            && 0 < k <= TOKEN_MAX
            && ParseAll(Split(s), readHex) == [ParseToken(s[..k], readHex)] + ParseAll(Split(s[k..]), readHex)
            && AllShort(Split(s[k..]), TOKEN_MAX)
  {
    var k := TokenLength(s);
    assert Split(s) == [s[..k]] + Split(s[k..]);
    assert s[..k] in Split(s);
    forall t | t in Split(s[k..]) ensures |t| <= TOKEN_MAX {
      assert t in Split(s);
    }
  }

  /** `readNumbers`: -1 when the file cannot be opened, otherwise the numbers of its chunks: one
      too many for every token that a chunk boundary cuts, and those of the file when none is.
      No store leaves the token buffer or the array. */
  method ReadNumbers(file: Option<string>, readHex: bool) returns (count: int, arr: array<int>)
    requires file.Some? ==> AllShort(Chunked(file.value), TOKEN_MAX)
    ensures fresh(arr)
    ensures file.None? ==> count == -1
    ensures file.Some? ==> 0 <= count <= arr.Length && arr[..count] == NumbersIn(file.value, readHex)
    ensures file.Some? ==> count == |Split(file.value)| + Cuts(file.value)
    ensures file.Some? && Cuts(file.value) == 0 ==> arr[..count] == ParseAll(Split(file.value), readHex)
  {
    arr := new int[100];
    if file.None? {
      return -1, arr;
    }
    hide Split, Chunked, ParseAll, AllShort, NumbersIn, ReadSize;
    var buffer := new char[CHUNK](_ => '\0');
    var rest := file.value;
    count := 0;
    ghost var numbers := NumbersIn(rest, readHex);
    var buffLen := Read(rest, buffer);
    while buffLen > 0
      invariant 0 <= count < arr.Length && fresh(arr) && fresh(buffer) && buffer.Length == CHUNK
      invariant buffLen == ReadSize(rest) && buffer[..buffLen] == rest[..buffLen]
      invariant AllShort(Chunked(rest), TOKEN_MAX)
      invariant numbers == arr[..count] + NumbersIn(rest, readHex)
      decreases |rest|
    {
      arr, count, rest, buffLen := NextChunk(rest, buffer, buffLen, readHex, arr, count);
    }
    ParseNothing(readHex);
    WholeFile(file.value, readHex);
  }

  lemma WholeFile(file: string, readHex: bool)
    ensures |NumbersIn(file, readHex)| == |Split(file)| + Cuts(file)
    ensures Cuts(file) == 0 ==> NumbersIn(file, readHex) == ParseAll(Split(file), readHex)
  {
    ChunkedExact(file);
  }

  /** One turn of the loop of `readNumbers`: convert a chunk, then read the next one. */
  method NextChunk(rest0: string, buffer: array<char>, buffLen0: nat, readHex: bool, arr0: array<int>, count0: nat)
    returns (arr: array<int>, count: nat, rest: string, buffLen: nat)
    requires buffer.Length == CHUNK && rest0 != "" && buffLen0 == ReadSize(rest0)
    requires buffer[..buffLen0] == rest0[..buffLen0]
    requires AllShort(Chunked(rest0), TOKEN_MAX) && count0 < arr0.Length
    modifies buffer, arr0
    ensures (arr == arr0 || fresh(arr)) && count < arr.Length
    ensures |rest| < |rest0| && buffLen == ReadSize(rest) && buffer[..buffLen] == rest[..buffLen]
    ensures AllShort(Chunked(rest), TOKEN_MAX)
    ensures old(arr0[..count0]) + NumbersIn(rest0, readHex) == arr[..count] + NumbersIn(rest, readHex)
  {
    hide Split, Chunked, ParseAll, AllShort, NumbersIn, ReadSize;
    ParseChunk(rest0, readHex);
    ghost var before, found := arr0[..count0], ParseAll(Split(rest0[..buffLen0]), readHex);
    arr, count := ReadChunk(buffer, buffLen0, readHex, arr0, count0);
    rest := rest0[buffLen0..];
    assert before + (found + NumbersIn(rest, readHex)) == (before + found) + NumbersIn(rest, readHex);
    buffLen := Read(rest, buffer);
  }

  /** The first chunk of what is left, and the rest. */
  lemma ParseChunk(s: string, readHex: bool)
    requires s != ""
    ensures var n := ReadSize(s);
            NumbersIn(s, readHex) == ParseAll(Split(s[..n]), readHex) + NumbersIn(s[n..], readHex)
    ensures AllShort(Chunked(s), TOKEN_MAX) ==>
              AllShort(Split(s[..ReadSize(s)]), TOKEN_MAX) && AllShort(Chunked(s[ReadSize(s)..]), TOKEN_MAX)
  {
    var chunk, rest := s[..ReadSize(s)], s[ReadSize(s)..];
    assert Chunked(s) == Split(chunk) + Chunked(rest) by {
      if |s| <= CHUNK { assert s == chunk && rest == ""; }
    }
    hide Chunked, Split;
    assert forall t :: t in Split(chunk) || t in Chunked(rest) ==> t in Chunked(s);
  }

  // ---------------------------------------------------------------- writeNumbers

  /** The digit loop of `writeNumbers`, which fills its 256-byte buffer from the end. */
  method PutDigits(n0: int, base: int, buf: array<char>) returns (k: int)
    requires IsInt(n0) && IsBase(base) && buf.Length == 256
    modifies buf
    ensures -1 <= k < 255 && buf[k + 1..] == LoopDigits(n0, base)
  {
    hide Digits, CRemainder, CQuotient, DigitChar, LoopDigits, DigitsLeft;
    DigitCount(n0, base);
    FirstDigit(n0, base);
    var n := n0;
    k := 255;
    PutDigit(buf, k, CRemainder(n, base));
    k := k - 1;
    n := CQuotient(n, base);
    while n > 0
      invariant -1 <= k < 255
      invariant LoopDigits(n0, base) == DigitsLeft(n, base) + buf[k + 1..]
      decreases n
    {
      LastDigit(n, base);
      assert |buf[k + 1..]| == 255 - k && 1 + 255 - k <= 10;
      ghost var tail := buf[k + 1..];
      PutDigit(buf, k, CRemainder(n, base));
      k := k - 1;
      n := CQuotient(n, base);
      assert buf[k + 1..] == [buf[k + 1]] + tail;
    }
    NothingLeft(n, base);
  }

  lemma NothingLeft(n: int, base: int)
    requires IsBase(base) && n <= 0
    ensures DigitsLeft(n, base) == ""
  {
  }

  /** The digits still to be written when the loop continues with `n`. */
  function DigitsLeft(n: int, base: int): string
    requires IsBase(base)
  {
    if n > 0 then Digits(n, base) else ""
  }

  /** Store one digit: a letter from 10 on. */
  method PutDigit(buf: array<char>, k: nat, m: int)
    requires k < buf.Length && -('0' as int) <= m < 16
    modifies buf
    ensures buf[k..] == [(if m >= 10 then m - 10 + 'A' as int else m + '0' as int) as char] + old(buf[k + 1..])
  {
    if m >= 10 {
      buf[k] := (m - 10 + 'A' as int) as char;
    } else {
      buf[k] := (m + '0' as int) as char;
    }
  }

  lemma LastDigit(n: int, base: int)
    requires IsBase(base) && n > 0
    ensures var m, q := CRemainder(n, base), CQuotient(n, base);
            && 0 <= m < 16 && q < n
            && DigitsLeft(n, base) == DigitsLeft(q, base) + [(if m >= 10 then m - 10 + 'A' as int else m + '0' as int) as char]
            && DigitsLeft(n, base) != ""
  {
    DivMod(n, base);
    if base == 10 { assert n / 10 < n; } else { assert n / 16 < n; }
  }

  lemma FirstDigit(n: int, base: int)
    requires IsBase(base) && IsInt(n)
    ensures var m, q := CRemainder(n, base), CQuotient(n, base);
            && -base < m < 16
            && LoopDigits(n, base) == DigitsLeft(q, base) + [(if m >= 10 then m - 10 + 'A' as int else m + '0' as int) as char]
  {
    if n > 0 {
      LastDigit(n, base);
    } else if n < 0 {
      DivMod(-n, base);
    }
  }

  /** C's quotient, which truncates towards zero. */
  function CQuotient(n: int, base: int): int
    requires IsBase(base)
  {
    if n >= 0 then n / base else -((-n) / base)
  }

  /** An `int` has at most 10 digits, so the buffer never runs out. */
  lemma DigitCount(n: int, base: int)
    requires IsInt(n) && IsBase(base)
    ensures |LoopDigits(n, base)| <= 10
  {
    if n >= 0 {
      assert Pow(10, 5) == 100000 && Pow(16, 5) == 0x10_0000;
      assert Pow(10, 10) == 10 * 10 * 10 * 10 * 10 * Pow(10, 5);
      assert Pow(16, 10) == 16 * 16 * 16 * 16 * 16 * Pow(16, 5);
      DigitsLength(n, base, 10);
    }
  }

  lemma {:induction false} WrittenSnoc(ns: seq<int>, n: int, hex: bool)
    requires AreInts(ns) && IsInt(n)
    ensures Written(ns + [n], hex) == Written(ns, hex) + (Numeral(n, hex) + "\n")
  {
    if ns == [] {
      assert Written([n], hex) == Numeral(n, hex) + "\n";
    } else {
      assert (ns + [n])[1..] == ns[1..] + [n];
      WrittenSnoc(ns[1..], n, hex);
    }
  }

  /** `writeNumbers`: the contents of the file it leaves. */
  method WriteNumbers(a: array<int>, size: nat, writeHex: bool) returns (file: string)
    requires size <= a.Length && AreInts(a[..size])
    ensures file == Written(a[..size], writeHex)
  {
    hide LoopDigits, Written;
    file := "";
    assert Written([], writeHex) == "" by { WrittenNothing(writeHex); }
    var buf := new char[256](_ => '\0');
    for i := 0 to size
      invariant file == Written(a[..i], writeHex)
    {
      var n := a[i];
      assert n in a[..size];
      var useSign := false;
      if n < 0 {
        n := AbsInt(n);
        useSign := true;
      }
      var k := PutDigits(n, Base(writeHex), buf);
      if useSign {
        file := file + "-";
      }
      file := file + buf[k + 1..];
      file := file + "\n";
      assert a[..i + 1] == a[..i] + [a[i]];
      WrittenSnoc(a[..i], a[i], writeHex);
      assert file == Written(a[..i], writeHex) + (Numeral(a[i], writeHex) + "\n");
    }
  }

  lemma WrittenNothing(hex: bool)
    ensures Written([], hex) == ""
  {
  }

  // ---------------------------------------------------------------- the program

  /** `main`: read, sort, write. `None` when the input cannot be opened. */
  method SortFile(input: Option<string>, readHex: bool, writeHex: bool) returns (output: Option<string>)
    requires input.Some? ==> AllShort(Chunked(input.value), TOKEN_MAX)
    ensures output.Some? <==> input.Some?
    ensures input.Some? ==> exists ns :: SortedNumbers(input.value, readHex, ns) && output.value == Written(ns, writeHex)
  {
    var count, numbers := ReadNumbers(input, readHex);
    if count >= 0 {
      ParsedAreInts(input.value, readHex);
      ghost var found := numbers[..count];
      var _ := BubbleSort.Sort(numbers, count, true);
      SameElementsAreInts(found, numbers[..count]);
      var file := WriteNumbers(numbers, count, writeHex);
      assert SortedNumbers(input.value, readHex, numbers[..count]);
      return Some(file);
    }
    return None;
  }

  /** `ns` is the sorted permutation of the numbers in a file. */
  ghost predicate SortedNumbers(file: string, readHex: bool, ns: seq<int>) {
    && AreInts(ns)
    && BubbleSort.Sorted(ns, true)
    && multiset(ns) == multiset(NumbersIn(file, readHex))
  }

  lemma ParsedAreInts(file: string, readHex: bool)
    ensures AreInts(NumbersIn(file, readHex))
  {
  }

  lemma SameElementsAreInts(xs: seq<int>, ys: seq<int>)
    requires AreInts(xs) && multiset(xs) == multiset(ys)
    ensures AreInts(ys)
  {
    forall n | n in ys ensures IsInt(n) {
      assert n in multiset(ys);
      assert n in xs;
    }
  }

  /** End to end: reading the program's output in its radix gives the sorted numbers of the
      input exactly when no chunk boundary of the output falls inside a number, the input does
      not contain `INT_MIN`, and in decimal none of its numbers has more than nine characters. */
  lemma SortedFileRereads(file: string, readHex: bool, ns: seq<int>, writeHex: bool)
    requires SortedNumbers(file, readHex, ns)
    ensures ReadBack(Written(ns, writeHex), writeHex) == Some(ns)
       <==> && Cuts(Written(ns, writeHex)) == 0 && INT_MIN !in NumbersIn(file, readHex)
            && (writeHex || forall n :: n in NumbersIn(file, readHex) ==> -99999999 <= n <= 999999999)
  {
    hide Cuts, Written, ReadBack, NumbersIn;
    RereadExact(ns, writeHex);
    SameMembers(ns, NumbersIn(file, readHex));
  }

  lemma SameMembers(xs: seq<int>, ys: seq<int>)
    requires multiset(xs) == multiset(ys)
    ensures forall n :: n in xs <==> n in ys
  {
    assert forall n :: n in xs <==> n in multiset(xs);
    assert forall n :: n in ys <==> n in multiset(ys);
  }

  /** The output can be handed back to `readNumbers`: its tokens fit the reader's buffer, unless
      a decimal number has more than nine characters. */
  lemma WrittenIsReadable(ns: seq<int>, hex: bool)
    requires AreInts(ns) && forall n :: n in ns ==> Short(n, hex)
    ensures AllShort(Chunked(Written(ns, hex)), TOKEN_MAX)
  {
    NumeralsShort(ns, hex);
    ChunksShort(Written(ns, hex), TOKEN_MAX);
  }

  /** The program, and then the reader on its output: what comes back is the sorted permutation
      `ns` of the input's numbers, exactly under the conditions above. */
  method SortAndReread(input: string, readHex: bool, writeHex: bool)
    returns (count: int, arr: array<int>, ghost ns: seq<int>)
    requires AllShort(Chunked(input), TOKEN_MAX)
    requires forall n :: n in NumbersIn(input, readHex) ==> Short(n, writeHex)
    ensures SortedNumbers(input, readHex, ns) && 0 <= count <= arr.Length
    ensures arr[..count] == ns <==> Cuts(Written(ns, writeHex)) == 0 && INT_MIN !in NumbersIn(input, readHex)
  {
    hide Cuts, Written, Chunked, AllShort, NumbersIn, Short;
    var output := SortFile(Some(input), readHex, writeHex);
    ns :| SortedNumbers(input, readHex, ns) && output.value == Written(ns, writeHex);
    SameMembers(ns, NumbersIn(input, readHex));
    WrittenIsReadable(ns, writeHex);
    NumbersWritten(ns, writeHex);
    count, arr := ReadNumbers(output, writeHex);
  }
}
