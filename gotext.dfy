/** The behaviour of the Go standard-library text routines the parsers rely
    on (strings.HasPrefix/Contains/TrimSpace/Fields/SplitN, strconv.Atoi,
    the `(\d+)` regular expression, fmt.Sscanf "%d" and fmt "%d"), stated
    over `seq<char>`.  Go strings are UTF-8 bytes; for the ASCII text ethtool
    and sysfs print, bytes and characters coincide. */
module GoText {
  import opened Common

  const MaxInt64: int := 0x7FFF_FFFF_FFFF_FFFF
  const MinInt64: int := -0x8000_0000_0000_0000
  const MaxUint64: int := 0xFFFF_FFFF_FFFF_FFFF

  /** unicode.IsSpace: the ASCII white space, NEL, NBSP and the Unicode
      White_Space characters above U+00FF. */
  predicate IsSpace(c: char) {
    c == ' ' || c == '\t' || c == '\n' || c == '\r' || c == '\U{000B}' || c == '\U{000C}'
    || c == '\U{0085}' || c == '\U{00A0}' || c == '\U{1680}'
    || ('\U{2000}' <= c <= '\U{200A}')
    || c == '\U{2028}' || c == '\U{2029}' || c == '\U{202F}' || c == '\U{205F}' || c == '\U{3000}'
  }

  /** `\d` in Go's regexp syntax and a decimal digit for strconv: ASCII only. */
  predicate IsDigit(c: char) { '0' <= c <= '9' }

  function DigitValue(c: char): (d: nat)
    requires IsDigit(c)
    ensures d < 10
  {
    (c as int) - ('0' as int)
  }

  predicate HasPrefix(s: string, prefix: string) {
    |prefix| <= |s| && s[..|prefix|] == prefix
  }

  /** strings.Contains: `sub` occurs at some position of `s`. */
  predicate Contains(s: string, sub: string)
    decreases |s|
  {
    HasPrefix(s, sub) || (|s| > 0 && Contains(s[1..], sub))
  }

  /** Drops the leading white space. */
  function TrimLeft(s: string): (r: string)
    ensures |r| <= |s| && r == s[|s| - |r|..]
    ensures forall k :: 0 <= k < |s| - |r| ==> IsSpace(s[k])
    ensures r == [] || !IsSpace(r[0])
    decreases |s|
  {
    if s != [] && IsSpace(s[0]) then TrimLeft(s[1..]) else s
  }

  /** Drops the trailing white space. */
  function TrimRight(s: string): (r: string)
    ensures |r| <= |s| && r == s[..|r|]
    ensures forall k :: |r| <= k < |s| ==> IsSpace(s[k])
    ensures r == [] || !IsSpace(r[|r| - 1])
    decreases |s|
  {
    if s != [] && IsSpace(s[|s| - 1]) then TrimRight(s[..|s| - 1]) else s
  }

  /** strings.TrimSpace: white space removed from both ends. */
  function TrimSpace(s: string): (r: string)
    ensures |r| <= |s|
    ensures r == [] || (!IsSpace(r[0]) && !IsSpace(r[|r| - 1]))
  {
    TrimRight(TrimLeft(s))
  }

  /** `r` is `s` with its leading and trailing white space cut: a
      contiguous slice of `s`, starting after the leading white space,
      with only white space after it and none at either of its ends. */
  predicate IsTrimOf(r: string, s: string) {
    exists i | 0 <= i <= |s| :: IsTrimAt(r, s, i)
  }

  /** `r` is the slice of `s` starting at `i`, with only white space
      around it and none at either of its ends. */
  predicate IsTrimAt(r: string, s: string, i: int) {
    0 <= i && i + |r| <= |s| && r == s[i..i + |r|]
    && (forall k :: 0 <= k < i ==> IsSpace(s[k]))
    && (forall k :: i + |r| <= k < |s| ==> IsSpace(s[k]))
    && (r == [] || (!IsSpace(r[0]) && !IsSpace(r[|r| - 1])))
  }

  /** TrimSpace keeps a contiguous slice of its input and removes only white
      space on either side of it. */
  lemma TrimSpaceIsSlice(s: string)
    ensures IsTrimOf(TrimSpace(s), s)
  {
    var t := TrimLeft(s);
    var r := TrimRight(t);
    TrimOfSlices(s, t, r);
    assert IsTrimAt(TrimSpace(s), s, |s| - |t|);
  }

  /** Trimming the front and then the back of `s` leaves a slice of `s`
      surrounded by white space. */
  lemma TrimOfSlices(s: string, t: string, r: string)
    requires |t| <= |s| && t == s[|s| - |t|..]
    requires forall k :: 0 <= k < |s| - |t| ==> IsSpace(s[k])
    requires |r| <= |t| && r == t[..|r|]
    requires forall k :: |r| <= k < |t| ==> IsSpace(t[k])
    requires r == [] || (!IsSpace(r[0]) && !IsSpace(r[|r| - 1]))
    ensures IsTrimAt(r, s, |s| - |t|)
  {
    var i := |s| - |t|;
    forall k | i + |r| <= k < |s|
      ensures IsSpace(s[k])
    {
      assert s[k] == t[k - i];
    }
  }

  /** The maximal prefix of `s` without white space. */
  function Word(s: string): (w: string)
    ensures |w| <= |s| && w == s[..|w|]
    ensures forall k :: 0 <= k < |w| ==> !IsSpace(w[k])
    ensures |w| == |s| || IsSpace(s[|w|])
    decreases |s|
  {
    if s == [] || IsSpace(s[0]) then [] else [s[0]] + Word(s[1..])
  }

  /** strings.Fields: the maximal runs of non-white-space characters. */
  function Fields(s: string): seq<string>
    decreases |s|
  {
    if s == [] then []
    else if IsSpace(s[0]) then Fields(s[1..])
    else
      var w := Word(s);
      assert w[0] == s[0];
      [w] + Fields(s[|w|..])
  }

  /** The k-th field is a non-empty run without white space. */
  lemma {:induction false} FieldIsWord(s: string, k: nat)
    requires k < |Fields(s)|
    ensures Fields(s)[k] != [] && NoSpace(Fields(s)[k])
    decreases |s|
  {
    if IsSpace(s[0]) {
      FieldIsWord(s[1..], k);
    } else {
      var w := Word(s);
      assert w[0] == s[0];
      if k > 0 {
        FieldIsWord(s[|w|..], k - 1);
        ConsAt(w, Fields(s[|w|..]), k);
      }
    }
  }

  /** Every field is a non-empty run without white space. */
  lemma FieldsAreWords(s: string)
    ensures forall k :: 0 <= k < |Fields(s)| ==> Fields(s)[k] != [] && NoSpace(Fields(s)[k])
  {
    forall k | 0 <= k < |Fields(s)|
      ensures Fields(s)[k] != [] && NoSpace(Fields(s)[k])
    {
      FieldIsWord(s, k);
    }
  }

  /** The k-th element of `[x] + xs`, for k > 0, is the (k-1)-th of `xs`. */
  lemma ConsAt<T>(x: T, xs: seq<T>, k: nat)
    requires 0 < k <= |xs|
    ensures ([x] + xs)[k] == xs[k - 1]
  {
  }

  predicate NoSpace(w: string) {
    forall j :: 0 <= j < |w| ==> !IsSpace(w[j])
  }

  /** strings.SplitN(s, sep, 2) for a one-character separator: the whole
      string when `sep` does not occur, otherwise the text before and the
      text after its first occurrence. */
  function SplitN2(s: string, sep: char): (parts: seq<string>)
    ensures |parts| == 1 || |parts| == 2
    ensures |parts| == 1 <==> sep !in s
    ensures |parts| == 1 ==> parts[0] == s
    ensures |parts| == 2 ==> sep !in parts[0] && s == parts[0] + [sep] + parts[1]
  {
    if s == [] then [s]
    else if s[0] == sep then ["", s[1..]]
    else
      var rest := SplitN2(s[1..], sep);
      if |rest| == 1 then [s] else [[s[0]] + rest[0], rest[1]]
  }

  // ---------------------------------------------------------------------
  // strconv

  /** The outcome of strconv.ParseInt / ParseUint: a value, a syntax error
      (value 0), or a range error carrying the clamped value Go returns. */
  datatype NumResult = Parsed(value: int) | SyntaxError | RangeError(clamped: int)

  /** The digit loop of strconv.ParseUint(s, 10, 64) from accumulator `n`:
      a non-digit is a syntax error, and an accumulator that would exceed
      2^64 - 1 stops the scan at once with a range error. */
  function ScanUint(s: string, n: nat): (r: NumResult)
    requires n <= MaxUint64
    ensures r.Parsed? ==> 0 <= r.value <= MaxUint64
    ensures r.RangeError? ==> r.clamped == MaxUint64
    decreases |s|
  {
    if s == [] then Parsed(n)
    else if !IsDigit(s[0]) then SyntaxError
    else if n * 10 + DigitValue(s[0]) > MaxUint64 then RangeError(MaxUint64)
    else ScanUint(s[1..], n * 10 + DigitValue(s[0]))
  }

  /** strconv.ParseInt(s, 10, 64); strconv.Atoi on a 64-bit platform
      agrees with it (its short-string fast path never overflows). */
  function ParseInt(s: string): (r: NumResult)
    ensures r.Parsed? ==> MinInt64 <= r.value <= MaxInt64
    ensures r.RangeError? ==> r.clamped == MinInt64 || r.clamped == MaxInt64
  {
    if s == [] then SyntaxError
    else
      var neg := s[0] == '-';
      var digits := if s[0] == '+' || s[0] == '-' then s[1..] else s;
      var u := if digits == [] then SyntaxError else ScanUint(digits, 0);
      match u
      case SyntaxError => SyntaxError
      case RangeError(_) => RangeError(if neg then MinInt64 else MaxInt64)
      case Parsed(v) =>
        if !neg && v > MaxInt64 then RangeError(MaxInt64)
        else if neg && v > -MinInt64 then RangeError(MinInt64)
        else Parsed(if neg then -v else v)
  }

  /** The digit loop succeeds only on a string of digits. */
  lemma {:induction false} ScanUintOnlyDigits(s: string, n: nat)
    requires n <= MaxUint64
    requires ScanUint(s, n).Parsed?
    ensures forall k :: 0 <= k < |s| ==> IsDigit(s[k])
    decreases |s|
  {
    if s != [] {
      ScanUintOnlyDigits(s[1..], n * 10 + DigitValue(s[0]));
      assert forall k :: 1 <= k < |s| ==> s[k] == s[1..][k - 1];
    }
  }

  /** strconv accepts only an optional sign followed by at least one digit,
      and a negative value only after a minus sign. */
  lemma ParseIntAcceptsOnlyNumbers(s: string)
    requires ParseInt(s).Parsed?
    ensures SignLength(s) < |s| && forall k :: SignLength(s) <= k < |s| ==> IsDigit(s[k])
    ensures ParseInt(s).value < 0 ==> s[0] == '-'
  {
    ScanUintOnlyDigits(s[SignLength(s)..], 0);
    assert forall k :: SignLength(s) <= k < |s| ==> s[k] == s[SignLength(s)..][k - SignLength(s)];
  }

  /** 1 when `s` starts with a sign character, else 0. */
  function SignLength(s: string): nat {
    if s != [] && (s[0] == '+' || s[0] == '-') then 1 else 0
  }

  /** The value of `x, _ = strconv.Atoi(s)`: the error is dropped, so a
      syntax error reads as 0 and an out-of-range number as its clamp. */
  function AtoiValue(s: string): (v: int)
    ensures MinInt64 <= v <= MaxInt64
    ensures ParseInt(s).SyntaxError? ==> v == 0
    ensures ParseInt(s).Parsed? ==> v == ParseInt(s).value
    ensures ParseInt(s).RangeError? ==> v == ParseInt(s).clamped
  {
    match ParseInt(s)
    case Parsed(x) => x
    case SyntaxError => 0
    case RangeError(c) => c
  }

  /** The number a string of decimal digits denotes. */
  function DigitsValue(s: string): (v: nat)
    requires forall k :: 0 <= k < |s| ==> IsDigit(s[k])
    decreases |s|
  {
    if s == [] then 0 else DigitsValue(s[..|s| - 1]) * 10 + DigitValue(s[|s| - 1])
  }

  /** The digit scan accumulates the value of the digits read so far. */
  lemma {:induction false} ScanUintDigits(s: string, n: nat)
    requires n <= MaxUint64
    requires forall k :: 0 <= k < |s| ==> IsDigit(s[k])
    ensures ScanUint(s, n) == (if n * Pow10(|s|) + DigitsValue(s) <= MaxUint64
                               then Parsed(n * Pow10(|s|) + DigitsValue(s))
                               else RangeError(MaxUint64))
    decreases |s|
  {
    if s != [] {
      var d := DigitValue(s[0]);
      var m := n * 10 + d;
      DigitsSplit(s);
      Shift(n, d, Pow10(|s| - 1), DigitsValue(s[1..]));
      if m <= MaxUint64 {
        ScanUintDigits(s[1..], m);
      }
    }
  }

  /** Moving one digit from the unread text into the accumulator. */
  lemma Shift(n: nat, d: nat, p: nat, rest: nat)
    requires p >= 1
    ensures n * (10 * p) + (d * p + rest) == (n * 10 + d) * p + rest
    ensures (n * 10 + d) * p + rest >= n * 10 + d
  {
  }

  function Pow10(k: nat): (p: nat)
    ensures p >= 1
  {
    if k == 0 then 1 else 10 * Pow10(k - 1)
  }

  /** The arithmetic of moving the leading digit of a number with one more
      digit at the end: if `a` is d·p + mid, then a·10 + last is
      d·(10·p) + (mid·10 + last). */
  lemma LeadingDigitShift(d: int, p: int, mid: int, last: int, a: int, whole: int, rest: int, p10: int)
    requires a == d * p + mid && whole == a * 10 + last
    requires rest == mid * 10 + last && p10 == 10 * p
    ensures whole == d * p10 + rest
  {
  }

  /** Splitting off the leading digit. */
  lemma {:induction false} DigitsSplit(s: string)
    requires s != [] && forall k :: 0 <= k < |s| ==> IsDigit(s[k])
    ensures DigitsValue(s) == DigitValue(s[0]) * Pow10(|s| - 1) + DigitsValue(s[1..])
    decreases |s|
  {
    if |s| > 1 {
      var n := |s|;
      var init := s[..n - 1];
      DigitsSplit(init);
      assert init[1..] == s[1..][..n - 2];
      assert init[0] == s[0];
      var d, last, p := DigitValue(s[0]), DigitValue(s[n - 1]), Pow10(n - 2);
      var mid := DigitsValue(init[1..]);
      LeadingDigitShift(d, p, mid, last, DigitsValue(init), DigitsValue(s), DigitsValue(s[1..]), Pow10(n - 1));
    } else {
      assert s[1..] == [];
    }
  }

  /** A digit string is accepted by Atoi exactly when its value fits in a
      signed 64-bit integer, and then Atoi returns that value. */
  lemma DigitRunParse(s: string)
    requires s != [] && forall k :: 0 <= k < |s| ==> IsDigit(s[k])
    ensures DigitsValue(s) <= MaxInt64 ==> ParseInt(s) == Parsed(DigitsValue(s))
    ensures DigitsValue(s) > MaxInt64 ==> ParseInt(s).RangeError?
  {
    assert !(s[0] == '+' || s[0] == '-');
    ScanUintDigits(s, 0);
  }

  // ---------------------------------------------------------------------
  // regexp `(\d+)`

  /** The maximal prefix of `s` made of digits. */
  function DigitPrefix(s: string): (d: string)
    ensures |d| <= |s| && d == s[..|d|]
    ensures forall k :: 0 <= k < |d| ==> IsDigit(d[k])
    ensures |d| == |s| || !IsDigit(s[|d|])
    decreases |s|
  {
    if s == [] || !IsDigit(s[0]) then [] else [s[0]] + DigitPrefix(s[1..])
  }

  /** The first submatch of `(\d+)` on `s`: the leftmost maximal run of
      digits, if `s` holds a digit at all. */
  function FirstDigitRun(s: string): (r: Option<string>)
    ensures r.Some? <==> exists i :: 0 <= i < |s| && IsDigit(s[i])
    ensures r.Some? ==> r.value != [] && forall k :: 0 <= k < |r.value| ==> IsDigit(r.value[k])
    decreases |s|
  {
    if s == [] then None
    else if IsDigit(s[0]) then Some(DigitPrefix(s))
    else
      assert forall i :: 1 <= i < |s| ==> s[i] == s[1..][i - 1];
      FirstDigitRun(s[1..])
  }

  /** `d` is the slice s[i..j], no digit comes before `i`, and a non-digit
      or the end of `s` comes right after `j`. */
  predicate DigitRunAt(s: string, d: string, i: int, j: int) {
    0 <= i < j <= |s| && s[i..j] == d
    && (forall k :: 0 <= k < i ==> !IsDigit(s[k]))
    && (j == |s| || !IsDigit(s[j]))
  }

  /** The run FirstDigitRun returns starts at the first digit of `s` and
      extends to the next non-digit or the end. */
  lemma {:induction false} FirstDigitRunPosition(s: string)
    requires FirstDigitRun(s).Some?
    ensures exists i, j :: DigitRunAt(s, FirstDigitRun(s).value, i, j)
    decreases |s|
  {
    var d := FirstDigitRun(s).value;
    if IsDigit(s[0]) {
      assert s[0..|d|] == d;
      assert DigitRunAt(s, d, 0, |d|);
    } else {
      var tail := s[1..];
      FirstDigitRunPosition(tail);
      var i, j :| DigitRunAt(tail, d, i, j);
      assert s[i + 1..j + 1] == d;
      forall k | 0 <= k < i + 1
        ensures !IsDigit(s[k])
      {
        if k > 0 {
          assert s[k] == tail[k - 1];
        }
      }
      if j < |tail| {
        assert s[j + 1] == tail[j];
      }
      assert DigitRunAt(s, d, i + 1, j + 1);
    }
  }

  // ---------------------------------------------------------------------
  // fmt

  /** The maximal prefix of `s` made of the characters fmt accepts in a
      decimal integer token under the `%d` verb: ASCII digits only (fmt
      admits underscores between digits only under `%v`). */
  function NumberRun(s: string): (d: string)
    ensures |d| <= |s| && d == s[..|d|]
    decreases |s|
  {
    if s == [] || !IsDigit(s[0]) then [] else [s[0]] + NumberRun(s[1..])
  }

  /** fmt.Sscanf(s, "%d", &v) into an int on text without leading white
      space: an optional sign, at least one digit, then
      strconv.ParseInt(token, 10, 64); what follows the token is ignored. */
  function ScanfInt(s: string): (r: Option<int>)
    ensures r.Some? ==> MinInt64 <= r.value <= MaxInt64
  {
    var signLen := SignLength(s);
    var run := NumberRun(s[signLen..]);
    if run == [] then None
    else match ParseInt(s[..signLen] + run)
      case Parsed(v) => Some(v)
      case _ => None
  }

  /** A digit string followed by text that does not start with a digit
      is a whole number token. */
  lemma {:induction false} NumberRunDigits(s: string, rest: string)
    requires forall k :: 0 <= k < |s| ==> IsDigit(s[k])
    requires rest == [] || !IsDigit(rest[0])
    ensures NumberRun(s + rest) == s
    decreases |s|
  {
    if s == [] {
      assert s + rest == rest;
    } else {
      NumberRunDigits(s[1..], rest);
      assert (s + rest)[1..] == s[1..] + rest;
    }
  }

  /** A sign, a digit string and text that does not start with a digit:
      "%d" reads the sign and the digits as one token and ignores the
      rest. */
  lemma ScanfIntToken(sign: string, digits: string, rest: string, v: int)
    requires sign == [] || sign == "-"
    requires digits != [] && forall k :: 0 <= k < |digits| ==> IsDigit(digits[k])
    requires rest == [] || !IsDigit(rest[0])
    requires ParseInt(sign + digits) == Parsed(v)
    ensures ScanfInt(sign + digits + rest) == Some(v)
  {
    var t := sign + digits + rest;
    assert SignLength(t) == |sign| by {
      assert t[0] == if sign == [] then digits[0] else '-';
    }
    assert t[|sign|..] == digits + rest;
    NumberRunDigits(digits, rest);
    assert t[..|sign|] + digits == sign + digits;
  }

  /** "%d" scanning reads the number "%d" printing writes, for every 64-bit
      value, and ignores whatever follows it that is not a digit: a
      trailing newline, a unit, or an underscore. */
  lemma ScanfIntIgnoresRest(n: int, rest: string)
    requires MinInt64 <= n <= MaxInt64
    requires rest == [] || !IsDigit(rest[0])
    ensures ScanfInt(IntToString(n) + rest) == Some(n)
  {
    IntToStringParses(n);
    if n < 0 {
      var digits := NatToString(-n);
      ScanfIntToken("-", digits, rest, n);
    } else {
      var digits := NatToString(n);
      assert [] + digits == digits;
      ScanfIntToken([], digits, rest, n);
    }
  }

  /** "%d" scanning reads back what "%d" printing writes, for every 64-bit
      value. */
  lemma ScanfIntReadsBack(n: int)
    requires MinInt64 <= n <= MaxInt64
    ensures ScanfInt(IntToString(n)) == Some(n)
  {
    ScanfIntIgnoresRest(n, []);
    assert IntToString(n) + [] == IntToString(n);
  }

  /** The kernel writes -1 as the speed of a link that is down, and "%d"
      reads it as -1: a negative speed, not an error. */
  lemma ScanfIntDownLink()
    ensures ScanfInt("-1") == Some(-1)
  {
    ScanfIntReadsBack(-1);
    assert IntToString(-1) == "-1";
  }

  /** The decimal digits of a natural number. */
  function NatToString(n: nat): (s: string)
    ensures s != [] && forall k :: 0 <= k < |s| ==> IsDigit(s[k])
    ensures DigitsValue(s) == n
    decreases n
  {
    var last := ['0' + ((n % 10) as char)];
    assert DigitValue(last[0]) == n % 10;
    if n < 10 then
      assert DigitsValue(last) == DigitsValue([]) * 10 + n % 10;
      last
    else
      var s := NatToString(n / 10) + last;
      assert s[..|s| - 1] == NatToString(n / 10);
      s
  }

  /** fmt "%d" of an int. */
  function IntToString(n: int): (s: string)
    ensures s != []
  {
    if n < 0 then "-" + NatToString(-n) else NatToString(n)
  }

  /** "%d" output is read back by strconv for every 64-bit value. */
  lemma IntToStringParses(n: int)
    requires MinInt64 <= n <= MaxInt64
    ensures ParseInt(IntToString(n)) == Parsed(n)
  {
    if n < 0 {
      var s := IntToString(n);
      var digits := NatToString(-n);
      assert s[0] == '-' && s[1..] == digits;
      ScanUintDigits(digits, 0);
    } else {
      DigitRunParse(NatToString(n));
    }
  }
}
