/** The few Ruby core semantics the modelled code leans on: `Array(x)`,
    `Array#[]` with an integer index, `String#chomp` and `String#to_i`. */
module RubyCore {
  import opened Wrappers
  import opened Decimal

  /** A record attribute that may hold nil, one string or a list of strings. */
  datatype Plural = Nil | One(item: string) | Many(items: seq<string>)

  /** Kernel#Array: nil is [], a list is itself, any other value is wrapped. */
  function ArrayOf(x: Plural): (r: seq<string>)
    ensures x.Nil? ==> r == []
    ensures x.One? ==> r == [x.item]
    ensures x.Many? ==> r == x.items
  {
    match x
    case Nil => []
    case One(s) => [s]
    case Many(items) => items
  }

  /** The range of a C `long` on a 64-bit platform: Array#[] converts an
      Integer index to a long before it looks anything up. */
  const LongMin: int := -0x8000_0000_0000_0000
  const LongMax: int := 0x7FFF_FFFF_FFFF_FFFF

  predicate FitsLong(i: int) {
    LongMin <= i <= LongMax
  }

  /** The message of the RangeError raised for an index no long can hold. */
  const LongRangeError := "bignum too big to convert into 'long'"

  /** Array#[] with an integer: an index outside the long range raises
      RangeError (a Failure here); otherwise indices in [0, n) count from the
      front, indices in [-n, 0) count from the back, and anything else
      answers nil. */
  function At<T>(xs: seq<T>, i: int): (r: Result<Option<T>, string>)
    ensures r.Failure? <==> !FitsLong(i)
    ensures r.Failure? ==> r.error == LongRangeError
    ensures FitsLong(i) && 0 <= i < |xs| ==> r == Success(Some(xs[i]))
    ensures FitsLong(i) && -|xs| <= i < 0 ==> r == Success(Some(xs[|xs| + i]))
    ensures r.Success? ==> (r.value.Some? <==> -|xs| <= i < |xs|)
    ensures r.Success? && r.value.Some? ==> r.value.value in xs && r.value.value == xs[i % |xs|]
  {
    if !FitsLong(i) then Failure(LongRangeError)
    else if 0 <= i < |xs| then
      ModFront(i, |xs|);
      Success(Some(xs[i]))
    else if -|xs| <= i < 0 then
      ModBack(i, |xs|);
      Success(Some(xs[|xs| + i]))
    else Success(None)
  }

  lemma ModFront(i: int, n: int)
    requires 0 <= i < n
    ensures i % n == i
  {
  }

  /** A negative index from the back is the index modulo the length. */
  lemma ModBack(i: int, n: int)
    requires -n <= i < 0
    ensures i % n == n + i
  {
    assert i == (-1) * n + (n + i);
  }

  /** String#chomp with no argument: drops one trailing "\r\n", "\n" or "\r". */
  function Chomp(s: string): (r: string)
    ensures |r| <= |s| && r == s[..|r|]
    ensures |s| - |r| <= 2
    ensures forall i :: |r| <= i < |s| ==> s[i] == '\r' || s[i] == '\n'
    ensures |s| > 0 && s[|s| - 1] == '\n' ==> |r| < |s|
  {
    if |s| >= 2 && s[|s| - 2..] == "\r\n" then s[..|s| - 2]
    else if |s| >= 1 && (s[|s| - 1] == '\n' || s[|s| - 1] == '\r') then s[..|s| - 1]
    else s
  }

  /** The whitespace String#to_i skips before the number. */
  predicate IsSpace(c: char) {
    c == ' ' || c == '\t' || c == '\n' || c == '\U{B}' || c == '\U{C}' || c == '\r'
  }

  function SkipSpace(s: string): (r: string)
    ensures |r| <= |s| && r == s[|s| - |r|..]
    ensures r == [] || !IsSpace(r[0])
  {
    if s != [] && IsSpace(s[0]) then SkipSpace(s[1..]) else s
  }

  /** The leading digits of `s`, where a single underscore between two digits
      is skipped; reading stops at anything else. */
  function DigitRun(s: string): (ds: string)
    ensures AllDigits(ds)
  {
    if s == [] || !IsDigit(s[0]) then ""
    else if |s| >= 3 && s[1] == '_' && IsDigit(s[2]) then [s[0]] + DigitRun(s[2..])
    else [s[0]] + DigitRun(s[1..])
  }

  /** The unsigned part of to_i: an optional "0d"/"0D" radix prefix, then a
      digit run; no digits reads as 0. */
  function Magnitude(s: string): nat {
    if |s| >= 2 && s[0] == '0' && (s[1] == 'd' || s[1] == 'D') then Value(DigitRun(s[2..]))
    else Value(DigitRun(s))
  }

  /** String#to_i (base 10): leading whitespace, an optional sign, the number;
      text without a leading number reads as 0. */
  function ToI(s: string): int {
    var t := SkipSpace(s);
    if t != [] && t[0] == '-' then -(Magnitude(t[1..]) as int)
    else if t != [] && t[0] == '+' then Magnitude(t[1..])
    else Magnitude(t)
  }

  /** Reading stops at the end of a digit string followed by a character that
      is neither a digit nor an underscore. */
  lemma {:induction false} DigitRunStops(ds: string, rest: string)
    requires AllDigits(ds)
    requires rest == [] || (!IsDigit(rest[0]) && rest[0] != '_')
    ensures DigitRun(ds + rest) == ds
    decreases |ds|
  {
    var s := ds + rest;
    if ds == [] {
      assert s == rest;
    } else {
      assert s[0] == ds[0];
      assert s[1..] == ds[1..] + rest;
      DigitRunStops(ds[1..], rest);
      if |ds| >= 2 {
        assert s[1] == ds[1];
      } else if |s| >= 2 {
        assert s[1] == rest[0];
      }
      assert [ds[0]] + ds[1..] == ds;
    }
  }

  /** to_i reads back the decimal rendering of a natural number, whatever
      non-numeric text follows it. */
  lemma ToIRender(n: nat, rest: string)
    requires rest == [] || (!IsDigit(rest[0]) && rest[0] != '_')
    requires n == 0 ==> rest == [] || (rest[0] != 'd' && rest[0] != 'D')
    ensures ToI(Render(n) + rest) == n
  {
    var s := Render(n) + rest;
    assert s[0] == Render(n)[0];
    assert !IsSpace(s[0]);
    assert SkipSpace(s) == s;
    DigitRunStops(Render(n), rest);
  }

  /** to_i reads a minus sign followed by the decimal rendering of a natural
      number as its negation. */
  lemma ToINegated(n: nat, rest: string)
    requires rest == [] || (!IsDigit(rest[0]) && rest[0] != '_')
    requires n == 0 ==> rest == [] || (rest[0] != 'd' && rest[0] != 'D')
    ensures ToI("-" + Render(n) + rest) == -(n as int)
  {
    var t := Render(n) + rest;
    var s := ['-'] + t;
    assert "-" + Render(n) + rest == s;
    assert SkipSpace(s) == s;
    assert s[1..] == t;
    MagnitudeRender(n, rest);
  }

  /** The unsigned reading of a rendered number followed by non-numeric text
      is that number. */
  lemma MagnitudeRender(n: nat, rest: string)
    requires rest == [] || (!IsDigit(rest[0]) && rest[0] != '_')
    requires n == 0 ==> rest == [] || (rest[0] != 'd' && rest[0] != 'D')
    ensures Magnitude(Render(n) + rest) == n
  {
    var t := Render(n) + rest;
    assert t[0] == Render(n)[0];
    DigitRunStops(Render(n), rest);
  }

  /** A line break trailing after digits is never part of the number. */
  lemma {:induction false} DigitRunLineBreak(x: string, y: string)
    requires y != [] && (y[0] == '\r' || y[0] == '\n')
    ensures DigitRun(x + y) == DigitRun(x)
    decreases |x|
  {
    var s := x + y;
    if x == [] {
      assert s == y;
    } else {
      assert s[0] == x[0];
      if IsDigit(x[0]) {
        if |x| >= 3 {
          assert s[1] == x[1] && s[2] == x[2];
          assert s[2..] == x[2..] + y;
          assert s[1..] == x[1..] + y;
          DigitRunLineBreak(x[2..], y);
          DigitRunLineBreak(x[1..], y);
        } else if |x| == 2 {
          assert s[1] == x[1] && s[2] == y[0];
          assert s[1..] == x[1..] + y;
          DigitRunLineBreak(x[1..], y);
          if x[1] == '_' {
            assert DigitRun(x[1..]) == "";
          }
        } else {
          assert s[1..] == y;
          assert s[1] == y[0];
        }
      }
    }
  }

  lemma MagnitudeLineBreak(x: string, y: string)
    requires y != [] && (y[0] == '\r' || y[0] == '\n')
    ensures Magnitude(x + y) == Magnitude(x)
  {
    var s := x + y;
    if |x| >= 2 {
      assert s[0] == x[0] && s[1] == x[1];
      assert s[2..] == x[2..] + y;
      DigitRunLineBreak(x[2..], y);
    } else if |x| == 1 {
      assert s[0] == x[0] && s[1] == y[0];
    }
    DigitRunLineBreak(x, y);
  }

  lemma {:induction false} SkipSpaceAppend(x: string, y: string)
    ensures SkipSpace(x) != [] ==> SkipSpace(x + y) == SkipSpace(x) + y
    ensures SkipSpace(x) == [] ==> SkipSpace(x + y) == SkipSpace(y)
    decreases |x|
  {
    if x == [] {
      assert x + y == y;
    } else {
      assert (x + y)[0] == x[0];
      if IsSpace(x[0]) {
        assert (x + y)[1..] == x[1..] + y;
        SkipSpaceAppend(x[1..], y);
      }
    }
  }

  /** Line-break characters after the text never change what to_i reads. */
  lemma ToILineBreak(x: string, y: string)
    requires y != [] && (y[0] == '\r' || y[0] == '\n')
    requires forall i :: 0 <= i < |y| ==> IsSpace(y[i])
    ensures ToI(x + y) == ToI(x)
  {
    SkipSpaceAppend(x, y);
    if SkipSpace(x) == [] {
      SpacesSkipped(y);
    } else {
      SignedLineBreak(SkipSpace(x), y);
    }
  }

  /** After the leading whitespace, a sign and the number read the same with
      line breaks appended. */
  lemma SignedLineBreak(t: string, y: string)
    requires t != [] && y != [] && (y[0] == '\r' || y[0] == '\n')
    ensures (t + y)[0] == t[0]
    ensures Magnitude((t + y)[1..]) == Magnitude(t[1..])
    ensures Magnitude(t + y) == Magnitude(t)
  {
    assert (t + y)[1..] == t[1..] + y;
    MagnitudeLineBreak(t, y);
    MagnitudeLineBreak(t[1..], y);
  }

  /** chomp never changes what to_i reads from an input line. */
  lemma ChompKeepsToI(s: string)
    ensures ToI(Chomp(s)) == ToI(s)
  {
    var r := Chomp(s);
    if r != s {
      var y := s[|r|..];
      assert s == r + y;
      ToILineBreak(r, y);
    }
  }

  lemma {:induction false} SpacesSkipped(s: string)
    requires forall i :: 0 <= i < |s| ==> IsSpace(s[i])
    ensures SkipSpace(s) == []
    decreases |s|
  {
    if s != [] {
      SpacesSkipped(s[1..]);
    }
  }
}
