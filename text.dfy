/** The .NET string and number primitives both plug-ins lean on, written out:
    String.Split(char), String.Trim(), int.Parse / int.TryParse (NumberStyles.Integer,
    invariant culture), Int32.ToString() and the ASCII encoding. */
module Text {

  datatype Option<+T> = None | Some(value: T)

  /** A byte as System.Byte holds it. */
  type Byte = x: int | 0 <= x < 256

  const MinInt32: int := -0x8000_0000
  const MaxInt32: int := 0x7FFF_FFFF

  /** A value of C#'s `int`. */
  type Int32 = x: int | MinInt32 <= x <= MaxInt32

  // ---------------------------------------------------------------------------
  // String.Split(char) and its inverse

  /** `s.Split(sep)`: the pieces between separators, empty pieces included. */
  function Split(s: string, sep: char): (parts: seq<string>)
    ensures |parts| >= 1
    ensures forall k :: 0 <= k < |parts| ==> sep !in parts[k]
    decreases |s|
  {
    if s == [] then [""]
    else
      var rest := Split(s[1..], sep);
      if s[0] == sep then [""] + rest
      else [[s[0]] + rest[0]] + rest[1..]
  }

  /** `String.Join(sep, parts)`. */
  function Join(parts: seq<string>, sep: char): string
    requires |parts| >= 1
    decreases |parts|
  {
    if |parts| == 1 then parts[0] else parts[0] + [sep] + Join(parts[1..], sep)
  }

  /** `parts.Last()`. */
  function Last(parts: seq<string>): string
    requires |parts| >= 1
  {
    parts[|parts| - 1]
  }

  lemma {:induction false} JoinCons(c: char, first: string, tail: seq<string>, sep: char)
    ensures Join([[c] + first] + tail, sep) == [c] + Join([first] + tail, sep)
  {
    if tail != [] {
      assert ([[c] + first] + tail)[1..] == tail;
      assert ([first] + tail)[1..] == tail;
    }
  }

  lemma {:induction false} JoinSnoc(parts: seq<string>, x: string, sep: char)
    requires |parts| >= 1
    ensures Join(parts + [x], sep) == Join(parts, sep) + [sep] + x
    decreases |parts|
  {
    if |parts| == 1 {
      assert (parts + [x])[1..] == [x];
    } else {
      assert (parts + [x])[1..] == parts[1..] + [x];
      JoinSnoc(parts[1..], x, sep);
    }
  }

  /** Splitting and joining again gives the original text back. */
  lemma {:induction false} SplitJoin(s: string, sep: char)
    ensures Join(Split(s, sep), sep) == s
    decreases |s|
  {
    if s != [] {
      var rest := Split(s[1..], sep);
      SplitJoin(s[1..], sep);
      if s[0] == sep {
        assert ([""] + rest)[1..] == rest;
      } else {
        JoinCons(s[0], rest[0], rest[1..], sep);
        assert [rest[0]] + rest[1..] == rest;
      }
    }
  }

  /** Text without the separator is one piece. */
  lemma {:induction false} SplitNoSep(s: string, sep: char)
    requires sep !in s
    ensures Split(s, sep) == [s]
    decreases |s|
  {
    if s != [] {
      assert sep !in s[1..] by {
        forall c | c in s[1..] ensures c in s { }
      }
      SplitNoSep(s[1..], sep);
      assert [s[0]] + s[1..] == s;
    }
  }

  /** A separator after a separator-free prefix starts a new piece. */
  lemma {:induction false} SplitAppend(a: string, rest: string, sep: char)
    requires sep !in a
    ensures Split(a + [sep] + rest, sep) == [a] + Split(rest, sep)
    decreases |a|
  {
    var s := a + [sep] + rest;
    if a == [] {
      assert s == [sep] + rest;
      assert s[1..] == rest;
    } else {
      assert s[0] == a[0];
      assert s[1..] == a[1..] + [sep] + rest;
      assert sep !in a[1..] by {
        forall c | c in a[1..] ensures c in a { }
      }
      SplitAppend(a[1..], rest, sep);
      assert [a[0]] + a[1..] == a;
    }
  }

  /** Joining separator-free pieces and splitting again recovers the pieces. */
  lemma {:induction false} JoinSplit(parts: seq<string>, sep: char)
    requires |parts| >= 1
    requires forall k :: 0 <= k < |parts| ==> sep !in parts[k]
    ensures Split(Join(parts, sep), sep) == parts
    decreases |parts|
  {
    if |parts| == 1 {
      SplitNoSep(parts[0], sep);
    } else {
      JoinSplit(parts[1..], sep);
      SplitAppend(parts[0], Join(parts[1..], sep), sep);
      assert [parts[0]] + parts[1..] == parts;
    }
  }

  /** The first piece is the text before the first separator. */
  lemma SplitFirstPiece(a: string, rest: string, sep: char)
    requires sep !in a
    requires rest == [] || rest[0] == sep
    ensures Split(a + rest, sep)[0] == a
  {
    if rest == [] {
      assert a + rest == a;
      SplitNoSep(a, sep);
    } else {
      assert a + rest == a + [sep] + rest[1..];
      SplitAppend(a, rest[1..], sep);
    }
  }

  /** There is one piece exactly when the text holds no separator. */
  lemma SplitSingle(s: string, sep: char)
    ensures |Split(s, sep)| == 1 <==> sep !in s
  {
    var parts := Split(s, sep);
    SplitJoin(s, sep);
    if |parts| == 1 {
      assert s == parts[0];
    } else {
      assert s == parts[0] + [sep] + Join(parts[1..], sep);
      assert s[|parts[0]|] == sep;
    }
  }

  /** The first piece is the prefix of the text that ends at the first separator. */
  lemma SplitHead(s: string, sep: char)
    ensures var first := Split(s, sep)[0];
      && |first| <= |s| && s[..|first|] == first
      && (|Split(s, sep)| > 1 ==> |first| < |s| && s[|first|] == sep)
  {
    var parts := Split(s, sep);
    SplitJoin(s, sep);
    if |parts| > 1 {
      assert s == parts[0] + ([sep] + Join(parts[1..], sep));
    }
  }

  /** The last piece is the suffix of the text that starts after the last separator. */
  lemma SplitTail(s: string, sep: char)
    ensures var last := Last(Split(s, sep));
      && |last| <= |s| && s[|s| - |last|..] == last
      && (|Split(s, sep)| > 1 ==> |last| < |s| && s[|s| - |last| - 1] == sep)
  {
    var parts := Split(s, sep);
    var last := parts[|parts| - 1];
    SplitJoin(s, sep);
    if |parts| > 1 {
      var init := parts[..|parts| - 1];
      assert init + [last] == parts;
      JoinSnoc(init, last, sep);
      var front := Join(init, sep) + [sep];
      assert s == front + last;
      assert s[|s| - |last|..] == last;
      assert s[|s| - |last| - 1] == front[|front| - 1];
    }
  }

  /** Two separators make at least three pieces. */
  lemma SplitTwoSeparators(s: string, sep: char, k: nat, j: nat)
    requires k < j < |s| && s[k] == sep && s[j] == sep
    ensures |Split(s, sep)| >= 3
  {
    SplitSingle(s, sep);
    SplitHead(s, sep);
    var first := Split(s, sep)[0];
    assert forall i :: 0 <= i < |first| ==> s[i] == first[i];
    assert k >= |first|;
    var rest := s[|first| + 1..];
    assert s == first + [sep] + rest;
    SplitAppend(first, rest, sep);
    assert rest[j - |first| - 1] == sep;
    SplitSingle(rest, sep);
  }

  /** Extending a prefix by one element, after a fixed head. */
  lemma PrefixStep<T>(head: seq<T>, xs: seq<T>, i: nat)
    requires i < |xs|
    ensures head + xs[..i + 1] == (head + xs[..i]) + [xs[i]]
  {
    assert xs[..i + 1] == xs[..i] + [xs[i]];
  }

  // ---------------------------------------------------------------------------
  // Trimming

  /** Drops the leading characters satisfying `p`. */
  function DropStart(s: string, p: char -> bool): (r: string)
    ensures |r| <= |s| && r == s[|s| - |r|..]
    ensures r == [] || !p(r[0])
    ensures forall k :: 0 <= k < |s| - |r| ==> p(s[k])
    decreases |s|
  {
    if s != [] && p(s[0]) then DropStart(s[1..], p) else s
  }

  /** Drops the trailing characters satisfying `p`. */
  function DropEnd(s: string, p: char -> bool): (r: string)
    ensures |r| <= |s| && r == s[..|r|]
    ensures r == [] || !p(r[|r| - 1])
    ensures forall k :: |r| <= k < |s| ==> p(s[k])
    decreases |s|
  {
    if s != [] && p(s[|s| - 1]) then DropEnd(s[..|s| - 1], p) else s
  }

  /** Char.IsWhiteSpace, the set String.Trim() removes. */
  predicate IsWhiteSpace(c: char) {
    ('\t' <= c <= '\r') || c == ' ' || c == '\U{0085}' || c == '\U{00A0}' || c == '\U{1680}'
    || ('\U{2000}' <= c <= '\U{200A}') || c == '\U{2028}' || c == '\U{2029}'
    || c == '\U{202F}' || c == '\U{205F}' || c == '\U{3000}'
  }

  /** `s.Trim()`. */
  function Trim(s: string): string {
    DropEnd(DropStart(s, IsWhiteSpace), IsWhiteSpace)
  }

  // ---------------------------------------------------------------------------
  // Decimal numbers

  predicate IsDigit(c: char) { '0' <= c <= '9' }

  predicate AllDigits(s: string) { forall k :: 0 <= k < |s| ==> IsDigit(s[k]) }

  /** The white space NumberStyles.AllowLeadingWhite / AllowTrailingWhite accept. */
  predicate IsNumberWhite(c: char) { c == ' ' || ('\t' <= c <= '\r') }

  predicate IsNul(c: char) { c == '\0' }

  function DigitsValue(d: string): nat
    requires AllDigits(d)
    decreases |d|
  {
    if d == [] then 0 else 10 * DigitsValue(d[..|d| - 1]) + (d[|d| - 1] as int - '0' as int)
  }

  /** `int.Parse(s)` when it returns, `int.TryParse(s, out _)` when it is true: optional
      white space, an optional sign, at least one digit, optional white space and trailing
      NUL characters, and a value within the range of `int`. None stands for the
      FormatException or OverflowException int.Parse throws. */
  function ParseInt32(s: string): (r: Option<Int32>)
    ensures r.Some? ==> exists k :: 0 <= k < |s| && IsDigit(s[k])
  {
    var u := DropEnd(s, IsNul);
    var w := DropEnd(u, IsNumberWhite);
    var t := DropStart(w, IsNumberWhite);
    var sign := if |t| > 0 && (t[0] == '-' || t[0] == '+') then 1 else 0;
    var digits := t[sign..];
    if digits == [] || !AllDigits(digits) then None
    else
      assert IsDigit(s[|w| - |t| + sign]) by {
        assert digits[0] == t[sign] == w[|w| - |t| + sign] == u[|w| - |t| + sign];
      }
      var magnitude: int := DigitsValue(digits);
      var v := if t[0] == '-' then -magnitude else magnitude;
      if MinInt32 <= v <= MaxInt32 then Some(v) else None
  }

  function DigitChar(d: nat): (c: char)
    requires d < 10
    ensures IsDigit(c) && c as int - '0' as int == d
  {
    ('0' as int + d) as char
  }

  function NatToString(n: nat): (s: string)
    ensures |s| >= 1 && AllDigits(s)
    decreases n
  {
    if n < 10 then [DigitChar(n)] else NatToString(n / 10) + [DigitChar(n % 10)]
  }

  /** `n.ToString()` for an `int`: decimal digits, with a leading '-' when negative. */
  function IntToString(n: int): string {
    if n < 0 then "-" + NatToString(-n) else NatToString(n)
  }

  lemma {:induction false} NatToStringValue(n: nat)
    ensures DigitsValue(NatToString(n)) == n
    decreases n
  {
    if n >= 10 {
      var s := NatToString(n);
      assert s[..|s| - 1] == NatToString(n / 10);
      NatToStringValue(n / 10);
    }
  }

  lemma DropEndKeeps(s: string, p: char -> bool)
    requires s != [] && !p(s[|s| - 1])
    ensures DropEnd(s, p) == s
  {
  }

  lemma DropStartKeeps(s: string, p: char -> bool)
    requires s != [] && !p(s[0])
    ensures DropStart(s, p) == s
  {
  }

  /** Text that starts with a sign or a digit and ends with a digit loses nothing to the
      white-space and NUL trimming of ParseInt32. */
  lemma UntrimmedNumber(s: string)
    requires |s| >= 1 && IsDigit(s[|s| - 1]) && (IsDigit(s[0]) || s[0] == '-')
    ensures DropStart(DropEnd(DropEnd(s, IsNul), IsNumberWhite), IsNumberWhite) == s
  {
    DropEndKeeps(s, IsNul);
    DropEndKeeps(s, IsNumberWhite);
    DropStartKeeps(s, IsNumberWhite);
  }

  /** Parsing the decimal text of an `int` gives the `int` back. */
  lemma ParseIntToString(n: Int32)
    ensures ParseInt32(IntToString(n)) == Some(n)
  {
    var s := IntToString(n);
    var m: nat := if n < 0 then 0 - (n as int) else n;
    var d := NatToString(m);
    NatToStringValue(m);
    if n < 0 {
      assert s == "-" + d;
      assert s[1..] == d;
      assert s[|s| - 1] == d[|d| - 1];
    } else {
      assert s == d;
    }
    UntrimmedNumber(s);
    var digits := if s[0] == '-' || s[0] == '+' then s[1..] else s;
    assert digits == d;
  }

  // ---------------------------------------------------------------------------
  // ASCII

  predicate IsAscii(s: string) { forall k :: 0 <= k < |s| ==> s[k] as int < 128 }

  /** `Encoding.ASCII.GetBytes(s)`: a character outside ASCII becomes '?'. */
  function AsciiEncode(s: string): (bytes: seq<Byte>)
    ensures |bytes| == |s|
  {
    seq(|s|, k requires 0 <= k < |s| => if s[k] as int < 128 then s[k] as int else '?' as int)
  }

  /** `Encoding.ASCII.GetString(bytes)`: a byte above 0x7F becomes '?'. */
  function AsciiDecode(bytes: seq<Byte>): (s: string)
    ensures |s| == |bytes|
  {
    seq(|bytes|, k requires 0 <= k < |bytes| => if bytes[k] < 128 then bytes[k] as char else '?')
  }

  /** ASCII text survives encoding and decoding; any other character comes back as '?'. */
  lemma AsciiRoundTrip(s: string)
    ensures var r := AsciiDecode(AsciiEncode(s));
      forall k :: 0 <= k < |s| ==> r[k] == if s[k] as int < 128 then s[k] else '?'
    ensures IsAscii(s) ==> AsciiDecode(AsciiEncode(s)) == s
  {
  }
}
