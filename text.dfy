/**
 * The pieces of Go's `strings`, `strconv` and `bufio` that gopher.go leans on,
 * each defined once and proved to behave as gopher.go uses them; where they differ from
 * the Go library, the README's Left out section says how.
 * A Go string is a sequence of bytes; here each byte is one `char`.
 */
module Text {
  import opened Wrappers

  const TAB: char := '\t'
  const CR: char := '\r'
  const LF: char := '\n'
  const CRLF: string := "\r\n"

  // ---------------------------------------------------------------------------
  // Searching and counting

  /** Index of the first `c` in `s`, or `|s|` when `s` holds no `c`. */
  function IndexOf(s: string, c: char): (k: nat)
    ensures k <= |s|
    ensures k < |s| ==> s[k] == c
    ensures forall j :: 0 <= j < k ==> s[j] != c
  {
    if |s| == 0 || s[0] == c then 0 else 1 + IndexOf(s[1..], c)
  }

  /** Number of occurrences of `c` in `s`. */
  function Count(s: string, c: char): nat
  {
    if |s| == 0 then 0 else (if s[0] == c then 1 else 0) + Count(s[1..], c)
  }

  lemma {:induction false} CountConcat(a: string, b: string, c: char)
    ensures Count(a + b, c) == Count(a, c) + Count(b, c)
  {
    if |a| > 0 {
      assert (a + b)[1..] == a[1..] + b;
      CountConcat(a[1..], b, c);
    } else {
      assert a + b == b;
    }
  }

  lemma {:induction false} CountAbsent(s: string, c: char)
    requires c !in s
    ensures Count(s, c) == 0
  {
    if |s| > 0 {
      CountAbsent(s[1..], c);
    }
  }

  /** The first `c` comes right after a prefix that holds none. */
  lemma {:induction false} IndexOfAfter(a: string, c: char, b: string)
    requires c !in a
    ensures IndexOf(a + [c] + b, c) == |a|
  {
    if |a| > 0 {
      assert (a + [c] + b)[1..] == a[1..] + [c] + b;
      IndexOfAfter(a[1..], c, b);
    }
  }

  predicate HasPrefix(s: string, p: string)
  {
    |p| <= |s| && s[..|p|] == p
  }

  /** strings.TrimPrefix */
  function TrimPrefix(s: string, p: string): (r: string)
    ensures HasPrefix(s, p) ==> s == p + r
    ensures !HasPrefix(s, p) ==> r == s
  {
    if HasPrefix(s, p) then s[|p|..] else s
  }

  /** strings.TrimSuffix */
  function TrimSuffix(s: string, p: string): (r: string)
    ensures |p| <= |s| && s[|s| - |p|..] == p ==> s == r + p
    ensures !(|p| <= |s| && s[|s| - |p|..] == p) ==> r == s
  {
    if |p| <= |s| && s[|s| - |p|..] == p then s[..|s| - |p|] else s
  }

  // ---------------------------------------------------------------------------
  // strings.Split and its inverse

  /** Joins `parts` with `sep` between neighbours (strings.Join with a one-byte separator). */
  function Join(parts: seq<string>, sep: char): string
  {
    if |parts| == 0 then ""
    else if |parts| == 1 then parts[0]
    else parts[0] + [sep] + Join(parts[1..], sep)
  }

  /** strings.Split(s, string(sep)): the pieces between separators, never none. */
  function Split(s: string, sep: char): (parts: seq<string>)
    ensures |parts| >= 1
    decreases |s|
  {
    var k := IndexOf(s, sep);
    if k == |s| then [s] else [s[..k]] + Split(s[k + 1..], sep)
  }

  /** No piece holds the separator, the first piece runs up to the first separator, and the pieces join back to `s`. */
  lemma {:induction false} SplitSpec(s: string, sep: char)
    ensures var parts := Split(s, sep);
      && (forall i :: 0 <= i < |parts| ==> sep !in parts[i])
      && parts[0] == s[..IndexOf(s, sep)]
      && Join(parts, sep) == s
    decreases |s|
  {
    var k := IndexOf(s, sep);
    if k == |s| {
      assert s[..k] == s;
    } else {
      var rest := Split(s[k + 1..], sep);
      SplitSpec(s[k + 1..], sep);
      assert s == s[..k] + [sep] + s[k + 1..];
      assert ([s[..k]] + rest)[1..] == rest;
      assert sep !in s[..k];
    }
  }

  /** Splitting yields one more piece than there are separators. */
  lemma {:induction false} SplitCount(s: string, sep: char)
    ensures |Split(s, sep)| == Count(s, sep) + 1
    decreases |s|
  {
    var k := IndexOf(s, sep);
    assert sep !in s[..k];
    if k == |s| {
      assert s[..k] == s;
      CountAbsent(s, sep);
    } else {
      assert s == s[..k] + [sep] + s[k + 1..];
      CountConcat(s[..k] + [sep], s[k + 1..], sep);
      CountConcat(s[..k], [sep], sep);
      CountAbsent(s[..k], sep);
      SplitCount(s[k + 1..], sep);
    }
  }

  /** With exactly one separator, the second piece is everything after it. */
  lemma SplitOneSeparator(s: string, sep: char)
    requires Count(s, sep) == 1
    ensures var k := IndexOf(s, sep);
      k < |s| && Split(s, sep) == [s[..k], s[k + 1..]]
  {
    var k := IndexOf(s, sep);
    SplitCount(s, sep);
    SplitCount(s[k + 1..], sep);
    assert s == s[..k] + [sep] + s[k + 1..];
    CountConcat(s[..k] + [sep], s[k + 1..], sep);
    CountConcat(s[..k], [sep], sep);
    assert sep !in s[..k];
    CountAbsent(s[..k], sep);
  }

  lemma JoinCons(x: string, parts: seq<string>, sep: char)
    requires |parts| >= 1
    ensures Join([x] + parts, sep) == x + [sep] + Join(parts, sep)
  {
    assert ([x] + parts)[1..] == parts;
  }

  lemma {:induction false} JoinSnoc(parts: seq<string>, x: string, sep: char)
    requires |parts| >= 1
    ensures Join(parts + [x], sep) == Join(parts, sep) + [sep] + x
  {
    if |parts| > 1 {
      assert (parts + [x])[1..] == parts[1..] + [x];
      JoinSnoc(parts[1..], x, sep);
    }
  }

  /** A join starts with the first byte of its first piece. */
  lemma JoinFirstChar(parts: seq<string>, sep: char)
    requires |parts| >= 1 && |parts[0]| > 0
    ensures |Join(parts, sep)| > 0 && Join(parts, sep)[0] == parts[0][0]
  {
    if |parts| > 1 {
      assert parts == [parts[0]] + parts[1..];
      JoinCons(parts[0], parts[1..], sep);
    }
  }

  /** A join ends with the last byte of its last piece. */
  lemma JoinLastChar(parts: seq<string>, sep: char)
    requires |parts| >= 1 && |parts[|parts| - 1]| > 0
    ensures var s, last := Join(parts, sep), parts[|parts| - 1];
      |s| > 0 && s[|s| - 1] == last[|last| - 1]
  {
    if |parts| > 1 {
      assert parts == parts[..|parts| - 1] + [parts[|parts| - 1]];
      JoinSnoc(parts[..|parts| - 1], parts[|parts| - 1], sep);
    }
  }

  /** A character other than the separator occurs in a join only if it occurs in a piece. */
  lemma {:induction false} JoinAvoids(parts: seq<string>, sep: char, c: char)
    requires c != sep
    requires forall i :: 0 <= i < |parts| ==> c !in parts[i]
    ensures c !in Join(parts, sep)
  {
    if |parts| > 1 {
      JoinAvoids(parts[1..], sep, c);
    }
  }

  /** Split undoes Join when no piece holds the separator. */
  lemma {:induction false} SplitOfJoin(parts: seq<string>, sep: char)
    requires |parts| >= 1
    requires forall i :: 0 <= i < |parts| ==> sep !in parts[i]
    ensures Split(Join(parts, sep), sep) == parts
  {
    var s := Join(parts, sep);
    if |parts| == 1 {
      assert s == parts[0] && sep !in s;
    } else {
      IndexOfAfter(parts[0], sep, Join(parts[1..], sep));
      assert s[IndexOf(s, sep) + 1..] == Join(parts[1..], sep);
      assert s[..IndexOf(s, sep)] == parts[0];
      SplitOfJoin(parts[1..], sep);
      assert [parts[0]] + parts[1..] == parts;
    }
  }

  // ---------------------------------------------------------------------------
  // strings.Trim(s, "\r\n")

  predicate IsLineEnd(c: char)
  {
    c == CR || c == LF
  }

  /** Drops the CR and LF bytes at the front. */
  function TrimLeft(s: string): string
  {
    if |s| > 0 && IsLineEnd(s[0]) then TrimLeft(s[1..]) else s
  }

  /** Drops the CR and LF bytes at the back. */
  function TrimRight(s: string): string
  {
    if |s| > 0 && IsLineEnd(s[|s| - 1]) then TrimRight(s[..|s| - 1]) else s
  }

  /** TrimLeft keeps a suffix that does not start with CR or LF, and drops only CR and LF. */
  lemma {:induction false} TrimLeftSpec(s: string)
    ensures var r := TrimLeft(s);
      && |r| <= |s| && r == s[|s| - |r|..]
      && (forall i :: 0 <= i < |s| - |r| ==> IsLineEnd(s[i]))
      && (r == "" || !IsLineEnd(r[0]))
  {
    if |s| > 0 && IsLineEnd(s[0]) {
      TrimLeftSpec(s[1..]);
    }
  }

  /** TrimRight keeps a prefix that does not end with CR or LF, and drops only CR and LF. */
  lemma {:induction false} TrimRightSpec(s: string)
    ensures var r := TrimRight(s);
      && |r| <= |s| && r == s[..|r|]
      && (forall i :: |r| <= i < |s| ==> IsLineEnd(s[i]))
      && (r == "" || !IsLineEnd(r[|r| - 1]))
  {
    if |s| > 0 && IsLineEnd(s[|s| - 1]) {
      TrimRightSpec(s[..|s| - 1]);
    }
  }

  /** strings.Trim with the cutset "\r\n". */
  function TrimLineEnds(s: string): string
  {
    TrimRight(TrimLeft(s))
  }

  /** The trimmed text neither starts nor ends with CR or LF, and is no longer than the original. */
  lemma TrimLineEndsClean(s: string)
    ensures var r := TrimLineEnds(s);
      |r| <= |s| && (r == "" || (!IsLineEnd(r[0]) && !IsLineEnd(r[|r| - 1])))
  {
    var l := TrimLeft(s);
    TrimLeftSpec(s);
    TrimRightSpec(l);
    var r := TrimRight(l);
    if r != "" {
      assert r[0] == l[0];
    }
  }

  predicate AllLineEnds(t: string)
  {
    forall i :: 0 <= i < |t| ==> IsLineEnd(t[i])
  }

  lemma {:induction false} TrimRightDropsEnds(s: string, t: string)
    requires s == "" || !IsLineEnd(s[|s| - 1])
    requires AllLineEnds(t)
    ensures TrimRight(s + t) == s
    decreases |t|
  {
    if |t| > 0 {
      assert (s + t)[..|s + t| - 1] == s + t[..|t| - 1];
      TrimRightDropsEnds(s, t[..|t| - 1]);
    } else {
      assert s + t == s;
    }
  }

  lemma {:induction false} TrimLeftAllEnds(t: string)
    requires AllLineEnds(t)
    ensures TrimLeft(t) == ""
  {
    if |t| > 0 {
      TrimLeftAllEnds(t[1..]);
    }
  }

  /** Trimming removes exactly the line ends that were appended to a clean text. */
  lemma TrimAppendedEnds(s: string, t: string)
    requires s == "" || (!IsLineEnd(s[0]) && !IsLineEnd(s[|s| - 1]))
    requires AllLineEnds(t)
    ensures TrimLineEnds(s + t) == s
  {
    if s == "" {
      assert s + t == t;
      TrimLeftAllEnds(t);
    } else {
      assert TrimLeft(s + t) == s + t;
      TrimRightDropsEnds(s, t);
    }
  }

  /** Text with no CR or LF at either end is left alone by trimming. */
  lemma TrimLineEndsOfClean(s: string)
    requires s == "" || (!IsLineEnd(s[0]) && !IsLineEnd(s[|s| - 1]))
    ensures TrimLineEnds(s) == s
  {
    assert s + "" == s;
    TrimAppendedEnds(s, "");
  }

  // ---------------------------------------------------------------------------
  // Decimal numbers: strconv.Itoa, strconv.Atoi, strconv.ParseInt(s, 10, 32)

  predicate IsDigit(c: char)
  {
    '0' <= c <= '9'
  }

  predicate AllDigits(s: string)
  {
    forall i :: 0 <= i < |s| ==> IsDigit(s[i])
  }

  function DigitChar(d: nat): (c: char)
    requires d < 10
    ensures IsDigit(c)
  {
    ('0' as int + d) as char
  }

  function DigitValue(c: char): nat
    requires IsDigit(c)
  {
    c as int - '0' as int
  }

  /** The decimal digits of `n`, most significant first. */
  function Digits(n: nat): (s: string)
    ensures |s| >= 1 && AllDigits(s)
    decreases n
  {
    if n < 10 then [DigitChar(n)] else Digits(n / 10) + [DigitChar(n % 10)]
  }

  /** The number a string of decimal digits denotes. */
  function DigitsValue(s: string): nat
    requires AllDigits(s)
    decreases |s|
  {
    if |s| == 0 then 0 else DigitsValue(s[..|s| - 1]) * 10 + DigitValue(s[|s| - 1])
  }

  lemma {:induction false} DigitsValueOfDigits(n: nat)
    ensures DigitsValue(Digits(n)) == n
    decreases n
  {
    if n >= 10 {
      var d := Digits(n / 10) + [DigitChar(n % 10)];
      assert d[..|d| - 1] == Digits(n / 10);
      DigitsValueOfDigits(n / 10);
    }
  }

  /** strconv.Itoa: an optional minus sign, then at least one digit. */
  function Itoa(n: int): (s: string)
    ensures |s| >= 1 && IsDigit(s[|s| - 1])
    ensures forall i :: 0 <= i < |s| ==> IsDigit(s[i]) || (i == 0 && s[i] == '-')
    ensures (s[0] == '-') == (n < 0)
  {
    if n < 0 then "-" + Digits(-n) else Digits(n)
  }

  /**
   * strconv.Atoi: an optional '+' or '-' followed by one or more decimal digits;
   * anything else is a syntax error (None).  Range clamping is not modelled.
   */
  function Atoi(s: string): (r: Option<int>)
    ensures r.Some? ==> |s| > 0 && IsDigit(s[|s| - 1])
  {
    if |s| > 0 && (s[0] == '+' || s[0] == '-') then
      var body := s[1..];
      if |body| > 0 && AllDigits(body) then
        var v: int := DigitsValue(body);
        Some(if s[0] == '-' then -v else v)
      else None
    else if |s| > 0 && AllDigits(s) then Some(DigitsValue(s))
    else None
  }

  /** Atoi reads back every number Itoa writes. */
  lemma AtoiOfItoa(n: int)
    ensures Atoi(Itoa(n)) == Some(n)
  {
    if n < 0 {
      assert Itoa(n)[1..] == Digits(-n);
      DigitsValueOfDigits(-n);
    } else {
      DigitsValueOfDigits(n);
    }
  }

  const MinInt32: int := -0x8000_0000
  const MaxInt32: int := 0x7FFF_FFFF

  /** strconv.ParseInt(s, 10, 32): Atoi's syntax, and a range error outside int32. */
  function ParseInt32(s: string): (r: Option<int>)
    ensures r.Some? ==> Atoi(s) == r && MinInt32 <= r.value <= MaxInt32
    ensures r.None? ==> Atoi(s).None? || Atoi(s).value < MinInt32 || Atoi(s).value > MaxInt32
  {
    match Atoi(s)
    case Some(n) => if MinInt32 <= n <= MaxInt32 then Some(n) else None
    case None => None
  }

  // ---------------------------------------------------------------------------
  // bufio.Scanner with bufio.ScanLines

  /** Drops one trailing carriage return. */
  function DropCR(s: string): string
  {
    if |s| > 0 && s[|s| - 1] == CR then s[..|s| - 1] else s
  }

  /**
   * The tokens a bufio.Scanner yields over `data` with bufio.ScanLines: the text between
   * line feeds, each without one trailing CR, and no empty token after a final line feed.
   */
  function ScanLines(data: string): seq<string>
    decreases |data|
  {
    if |data| == 0 then []
    else
      var k := IndexOf(data, LF);
      if k == |data| then [DropCR(data)]
      else [DropCR(data[..k])] + ScanLines(data[k + 1..])
  }

  /** No token holds a line feed. */
  lemma {:induction false} ScanLinesNoLineFeed(data: string)
    ensures forall i :: 0 <= i < |ScanLines(data)| ==> LF !in ScanLines(data)[i]
    decreases |data|
  {
    if |data| > 0 {
      var k := IndexOf(data, LF);
      if k < |data| {
        ScanLinesNoLineFeed(data[k + 1..]);
        assert LF !in data[..k];
      }
    }
  }

  /** A CRLF-terminated line that holds no other line feed is scanned as one token. */
  lemma ScanLinesCons(x: string, rest: string)
    requires LF !in x
    ensures ScanLines(x + CRLF + rest) == [x] + ScanLines(rest)
  {
    var data := x + CRLF + rest;
    assert data == (x + [CR]) + [LF] + rest;
    IndexOfAfter(x + [CR], LF, rest);
    assert data[..|x| + 1] == x + [CR];
    assert data[|x| + 2..] == rest;
  }

  /** Lines, each followed by CRLF. */
  function CrlfLines(lines: seq<string>): string
    decreases |lines|
  {
    if |lines| == 0 then "" else lines[0] + CRLF + CrlfLines(lines[1..])
  }

  /** The scanner hands CRLF-terminated lines without line feeds back one by one. */
  lemma {:induction false} ScanLinesOfCrlfLines(lines: seq<string>, rest: string)
    requires forall i :: 0 <= i < |lines| ==> LF !in lines[i]
    ensures ScanLines(CrlfLines(lines) + rest) == lines + ScanLines(rest)
    decreases |lines|
  {
    if |lines| > 0 {
      ScanLinesOfCrlfHead(lines, rest);
      ScanLinesOfCrlfLines(lines[1..], rest);
      ConsAppend(lines[0], lines[1..], ScanLines(rest));
      assert [lines[0]] + lines[1..] == lines;
    } else {
      assert CrlfLines(lines) + rest == rest;
    }
  }

  lemma ScanLinesOfCrlfHead(lines: seq<string>, rest: string)
    requires |lines| > 0 && LF !in lines[0]
    ensures ScanLines(CrlfLines(lines) + rest) == [lines[0]] + ScanLines(CrlfLines(lines[1..]) + rest)
  {
    var after := CrlfLines(lines[1..]) + rest;
    assert CrlfLines(lines) + rest == lines[0] + CRLF + after;
    ScanLinesCons(lines[0], after);
  }

  lemma ConsAppend<T>(x: T, a: seq<T>, b: seq<T>)
    ensures [x] + (a + b) == ([x] + a) + b
  {
  }

  // ---------------------------------------------------------------------------
  // strings.ToLower, restricted to ASCII

  function LowerChar(c: char): char
  {
    if 'A' <= c <= 'Z' then (c as int + 32) as char else c
  }

  function ToLower(s: string): (r: string)
    ensures |r| == |s|
    ensures forall i :: 0 <= i < |s| ==> r[i] == LowerChar(s[i])
  {
    seq(|s|, i requires 0 <= i < |s| => LowerChar(s[i]))
  }
}
