/** The pieces of Go's standard text handling that the downloader relies on:
    `strings.Split` with a one-character separator, `strconv.Atoi` on a
    64-bit platform, and the `%d` rendering of a non-negative integer used
    to name chunk artifacts. */
module GoText {
  import opened Base

  /** Bounds of Go's `int` on a 64-bit platform; `strconv.Atoi` rejects text
      whose value falls outside them. */
  const Int64Min: int := -0x8000_0000_0000_0000
  const Int64Max: int := 0x7FFF_FFFF_FFFF_FFFF

  // ---------------------------------------------------------------------
  // strings.Split(s, sep) for a one-character separator

  /** Position of the first occurrence of `c` in `s`. */
  function IndexOf(s: string, c: char): (k: nat)
    requires c in s
    ensures k < |s| && s[k] == c && c !in s[..k]
  {
    if s[0] == c then 0
    else
      var k' := IndexOf(s[1..], c);
      assert s[..k' + 1] == [s[0]] + s[1..][..k'];
      1 + k'
  }

  /** `strings.Join(parts, sep)`: the parts with one separator between neighbours. */
  function Join(parts: seq<string>, sep: char): string
    requires |parts| >= 1
  {
    if |parts| == 1 then parts[0] else parts[0] + [sep] + Join(parts[1..], sep)
  }

  /** `strings.Split(s, sep)`: the pieces of `s` between separators, cut at
      every separator. Splitting never loses text: joining the pieces back gives
      `s`. */
  function Split(s: string, sep: char): (parts: seq<string>)
    ensures |parts| >= 1
    ensures forall i :: 0 <= i < |parts| ==> sep !in parts[i]
    ensures Join(parts, sep) == s
    decreases |s|
  {
    if sep !in s then [s]
    else
      var k := IndexOf(s, sep);
      var rest := Split(s[k + 1..], sep);
      assert ([s[..k]] + rest)[1..] == rest;
      assert s == s[..k] + [sep] + s[k + 1..];
      [s[..k]] + rest
  }

  /** The first separator of a text made of a separator-free piece, a separator
      and more text sits right after that piece. */
  lemma IndexOfAfterPiece(piece: string, sep: char, tail: string)
    requires sep !in piece
    ensures sep in piece + [sep] + tail
    ensures IndexOf(piece + [sep] + tail, sep) == |piece|
  {
    var s := piece + [sep] + tail;
    assert s[|piece|] == sep;
    assert s[..|piece|] == piece;
  }

  /** Splitting a separator-free piece, a separator and more text gives the
      piece followed by the split of the rest. */
  lemma SplitAfterPiece(piece: string, sep: char, tail: string)
    requires sep !in piece
    ensures Split(piece + [sep] + tail, sep) == [piece] + Split(tail, sep)
  {
    var s := piece + [sep] + tail;
    IndexOfAfterPiece(piece, sep, tail);
    assert s[..|piece|] == piece;
    assert s[|piece| + 1..] == tail;
  }

  /** Split undoes Join when no piece contains the separator. */
  lemma {:induction false} SplitOfJoin(parts: seq<string>, sep: char)
    requires |parts| >= 1
    requires forall i :: 0 <= i < |parts| ==> sep !in parts[i]
    ensures Split(Join(parts, sep), sep) == parts
  {
    if |parts| > 1 {
      var tail := Join(parts[1..], sep);
      assert Join(parts, sep) == parts[0] + [sep] + tail;
      SplitAfterPiece(parts[0], sep, tail);
      SplitOfJoin(parts[1..], sep);
      assert parts == [parts[0]] + parts[1..];
    }
  }

  // ---------------------------------------------------------------------
  // Decimal digits

  predicate IsDigit(c: char) { '0' <= c <= '9' }

  predicate AllDigits(s: string) { forall i :: 0 <= i < |s| ==> IsDigit(s[i]) }

  function DigitChar(d: nat): (c: char)
    requires d < 10
    ensures IsDigit(c)
  {
    ('0' as int + d) as char
  }

  function DigitValue(c: char): (d: nat)
    requires IsDigit(c)
    ensures d < 10 && DigitChar(d) == c
  {
    c as int - '0' as int
  }

  /** The number a non-empty run of decimal digits denotes (leading zeros allowed). */
  function DecimalValue(s: string): nat
    requires AllDigits(s)
  {
    if s == [] then 0 else 10 * DecimalValue(s[..|s| - 1]) + DigitValue(s[|s| - 1])
  }

  /** `fmt.Sprintf("%d", n)` for `n >= 0`: the shortest decimal rendering of `n`.
      Reading it back gives `n`, so distinct numbers render differently. */
  function DecimalString(n: nat): (s: string)
    ensures |s| >= 1 && AllDigits(s)
    ensures DecimalValue(s) == n
    ensures s[0] == '0' ==> n == 0
  {
    if n < 10 then [DigitChar(n)]
    else
      var prefix := DecimalString(n / 10);
      var s := prefix + [DigitChar(n % 10)];
      assert s[..|s| - 1] == prefix;
      s
  }

  /** `strconv.Itoa(n)`: a minus sign for negative numbers, then the digits. */
  function FormatInt(n: int): string
  {
    if n < 0 then "-" + DecimalString(-n) else DecimalString(n)
  }

  /** `%d` renderings of a few numbers. */
  lemma FormatIntExamples()
    ensures FormatInt(1234) == "1234"
    ensures FormatInt(-5) == "-5"
    ensures FormatInt(0) == "0"
  {
    assert DecimalString(1) == "1";
    assert DecimalString(12) == "12";
    assert DecimalString(123) == "123";
    assert DecimalString(1234) == "1234";
    assert DecimalString(5) == "5";
  }

  // ---------------------------------------------------------------------
  // strconv.Atoi

  /** The largest value of Go's `uint64`; `strconv.ParseUint` reports a range
      error as soon as the digits read so far exceed it. */
  const MaxUint64: int := 0xFFFF_FFFF_FFFF_FFFF

  /** The text after an optional leading `+` or `-`. */
  function Unsigned(s: string): string
  {
    if |s| > 0 && (s[0] == '+' || s[0] == '-') then s[1..] else s
  }

  /** An optional sign followed by at least one decimal digit and nothing else:
      the text `strconv.Atoi` can accept. */
  predicate IsDecimalInteger(s: string)
  {
    |Unsigned(s)| >= 1 && AllDigits(Unsigned(s))
  }

  /** The integer such a text denotes. */
  function SignedValue(s: string): int
    requires IsDecimalInteger(s)
  {
    var magnitude: int := DecimalValue(Unsigned(s));
    if s[0] == '-' then -magnitude else magnitude
  }

  /** The length of the run of decimal digits at the start of `s`. */
  function DigitRun(s: string): (k: nat)
    ensures k <= |s| && AllDigits(s[..k])
    ensures k < |s| ==> !IsDigit(s[k])
  {
    if |s| == 0 || !IsDigit(s[0]) then 0
    else
      var k := 1 + DigitRun(s[1..]);
      assert s[..k] == [s[0]] + s[1..][..k - 1];
      k
  }

  /** `strconv.Atoi(s)` on a 64-bit platform. The digits after an optional sign
      are read left to right; the value read so far is checked against 2^64-1
      before the next character is looked at, so an overflowing run of digits
      is a range error even when a non-digit follows it. Otherwise any
      non-digit, or no digit at all, is a syntax error, and a value outside
      the 64-bit `int` range is a range error. No spaces, underscores or base
      prefixes are accepted. */
  function Atoi(s: string): (r: Result<int>)
    ensures r.Ok? <==> IsDecimalInteger(s) && Int64Min <= SignedValue(s) <= Int64Max
    ensures r.Ok? ==> r.value == SignedValue(s)
    ensures r.Err? ==> r.error == Syntax(s) || r.error == OutOfRange(s)
  {
    var digits := Unsigned(s);
    var k := DigitRun(digits);
    assert AllDigits(digits) ==> k == |digits|;
    assert digits[..|digits|] == digits;
    if |digits| == 0 then Err(Syntax(s))
    else if DecimalValue(digits[..k]) > MaxUint64 then Err(OutOfRange(s))
    else if k < |digits| then Err(Syntax(s))
    else
      var v := SignedValue(s);
      if v < Int64Min || v > Int64Max then Err(OutOfRange(s)) else Ok(v)
  }

  /** A prefix of a run of digits denotes no more than the whole run. */
  lemma {:induction false} DecimalValueOfPrefix(s: string, j: nat)
    requires AllDigits(s) && j <= |s|
    ensures AllDigits(s[..j]) && DecimalValue(s[..j]) <= DecimalValue(s)
    decreases |s| - j
  {
    if j < |s| {
      var shorter := s[..|s| - 1];
      assert shorter[..j] == s[..j];
      DecimalValueOfPrefix(shorter, j);
    } else {
      assert s[..j] == s;
    }
  }

  /** The digit run of a text that starts with digits covers at least those digits. */
  lemma DigitRunCovers(digits: string, rest: string)
    requires AllDigits(digits)
    ensures |digits| <= DigitRun(digits + rest)
  {
  }

  /** A sign in front of text that starts with a digit is all Unsigned removes. */
  lemma UnsignedOfSigned(sign: string, tail: string)
    requires sign == "" || sign == "+" || sign == "-"
    requires |tail| >= 1 && IsDigit(tail[0])
    ensures Unsigned(sign + tail) == tail
  {
    if sign != "" {
      assert (sign + tail)[1..] == tail;
    }
  }

  /** Digits are read before anything after them is looked at: leading digits
      whose value exceeds 2^64-1 make a range error whatever follows them. */
  lemma AtoiOverflowComesFirst(sign: string, digits: string, rest: string)
    requires sign == "" || sign == "+" || sign == "-"
    requires |digits| >= 1 && AllDigits(digits) && DecimalValue(digits) > MaxUint64
    ensures Atoi(sign + digits + rest) == Err(OutOfRange(sign + digits + rest))
  {
    var tail := digits + rest;
    RegroupTrailing(sign, digits, rest);
    assert Unsigned(sign + tail) == tail by {
      assert tail[0] == digits[0];
      UnsignedOfSigned(sign, tail);
    }
    RunKeepsOverflow(digits, rest);
    AtoiOverflowsAt(sign + tail, tail, DigitRun(tail));
  }

  /** Digits that overflow still overflow with more digits after them. */
  lemma RunKeepsOverflow(digits: string, rest: string)
    requires AllDigits(digits) && DecimalValue(digits) > MaxUint64
    ensures var tail := digits + rest; DecimalValue(tail[..DigitRun(tail)]) > MaxUint64
  {
    var tail := digits + rest;
    var run := tail[..DigitRun(tail)];
    DigitRunCovers(digits, rest);
    assert run[..|digits|] == digits;
    DecimalValueOfPrefix(run, |digits|);
  }

  /** The range-error branch of Atoi, on its own. */
  lemma AtoiOverflowsAt(s: string, unsigned: string, k: nat)
    requires Unsigned(s) == unsigned && |unsigned| >= 1 && k == DigitRun(unsigned)
    requires DecimalValue(unsigned[..k]) > MaxUint64
    ensures Atoi(s) == Err(OutOfRange(s))
  {
  }

  /** A non-digit after digits that do not overflow is a syntax error. */
  lemma AtoiRejectsTrailingText(sign: string, digits: string, c: char, rest: string)
    requires sign == "" || sign == "+" || sign == "-"
    requires |digits| >= 1 && AllDigits(digits) && DecimalValue(digits) <= MaxUint64
    requires !IsDigit(c)
    ensures Atoi(sign + digits + [c] + rest) == Err(Syntax(sign + digits + [c] + rest))
  {
    var tail := digits + ([c] + rest);
    RegroupAfterDigits(sign, digits, c, rest);
    assert Unsigned(sign + tail) == tail by {
      assert tail[0] == digits[0];
      UnsignedOfSigned(sign, tail);
    }
    assert tail[..|digits|] == digits;
    DigitRunStops(digits, c, rest);
    AtoiStopsAtNonDigit(sign + tail, tail, |digits|);
  }

  /** Regrouping the text after the sign, kept apart from the Atoi facts. */
  lemma RegroupTrailing(sign: string, digits: string, rest: string)
    ensures sign + digits + rest == sign + (digits + rest)
  {
  }

  /** The same regrouping with one character between the digits and the rest. */
  lemma RegroupAfterDigits(sign: string, digits: string, c: char, rest: string)
    ensures sign + digits + [c] + rest == sign + (digits + ([c] + rest))
  {
  }

  /** The digit run of digits followed by a non-digit is exactly those digits. */
  lemma DigitRunStops(digits: string, c: char, rest: string)
    requires AllDigits(digits) && !IsDigit(c)
    ensures DigitRun(digits + ([c] + rest)) == |digits|
  {
    var tail := digits + ([c] + rest);
    DigitRunCovers(digits, [c] + rest);
    var k := DigitRun(tail);
    assert forall j :: 0 <= j < k ==> tail[..k][j] == tail[j];
    assert tail[|digits|] == c;
  }

  /** The syntax-error branch of Atoi, on its own. */
  lemma AtoiStopsAtNonDigit(s: string, unsigned: string, k: nat)
    requires Unsigned(s) == unsigned && k == DigitRun(unsigned) && k < |unsigned|
    requires DecimalValue(unsigned[..k]) <= MaxUint64
    ensures Atoi(s) == Err(Syntax(s))
  {
  }

  /** Texts Atoi rejects as malformed. */
  lemma AtoiSyntaxExamples(s: string)
    requires s == "12x"
    ensures Atoi(s) == Err(Syntax(s))
    ensures Atoi("") == Err(Syntax(""))
    ensures Atoi("+") == Err(Syntax("+"))
  {
    var digits := "12";
    assert DecimalValue(digits) == 12 by {
      assert digits[..1] == "1";
    }
    AtoiRejectsTrailingText("", digits, 'x', "");
    assert s == "" + digits + ['x'] + "";
  }

  /** 2^64 followed by a non-digit is a range error, not a syntax error. */
  lemma AtoiOverflowExample()
    ensures var s := DecimalString(MaxUint64 + 1) + "x";
      Atoi(s) == Err(OutOfRange(s))
  {
    var digits := DecimalString(MaxUint64 + 1);
    AtoiOverflowComesFirst("", digits, "x");
    assert "" + digits + "x" == digits + "x";
  }

  /** Atoi reads back what Itoa writes, for every 64-bit integer. */
  lemma AtoiOfFormatInt(n: int)
    requires Int64Min <= n <= Int64Max
    ensures Atoi(FormatInt(n)) == Ok(n)
  {
    var s := FormatInt(n);
    if n < 0 {
      var d := DecimalString(-n);
      assert s[0] == '-' && s[1..] == d;
    } else {
      assert IsDigit(s[0]);
    }
  }

  /** Atoi accepts a leading minus sign, so a negative value gets through. */
  lemma AtoiAcceptsNegative(n: nat)
    requires 0 < n <= -Int64Min
    ensures Atoi("-" + DecimalString(n)) == Ok(-(n as int))
  {
    AtoiOfFormatInt(-(n as int));
  }
}
