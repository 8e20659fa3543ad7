/** The semantic version value the presenter answers for `version`: a
    major.minor.patch triple, its text form, and the cast from text. */
module Versions {
  import opened Wrappers
  import opened Decimal

  datatype Version = Version(major: nat, minor: nat, patch: nat)

  /** `Version#to_s`: "M.m.p". */
  function ToS(v: Version): string {
    Render(v.major) + "." + Render(v.minor) + "." + Render(v.patch)
  }

  /** Cuts `s` at every `sep`; there is always at least one piece. */
  function Split(s: string, sep: char): (pieces: seq<string>)
    ensures |pieces| >= 1
  {
    if s == [] then [""]
    else
      var rest := Split(s[1..], sep);
      if s[0] == sep then [""] + rest else [[s[0]] + rest[0]] + rest[1..]
  }

  /** The cast from text: the empty string is 0.0.0, three dot-separated digit
      runs are that triple, and anything else is not a version. */
  function Cast(s: string): Option<Version> {
    if s == "" then Some(Version(0, 0, 0))
    else
      var pieces := Split(s, '.');
      if |pieces| == 3 && forall i :: 0 <= i < 3 ==> pieces[i] != "" && AllDigits(pieces[i])
      then Some(Version(Value(pieces[0]), Value(pieces[1]), Value(pieces[2])))
      else None
  }

  lemma {:induction false} SplitWithoutSep(x: string, sep: char)
    requires sep !in x
    ensures Split(x, sep) == [x]
    decreases |x|
  {
    if x != [] {
      SplitWithoutSep(x[1..], sep);
      assert [x[0]] + x[1..] == x;
    }
  }

  lemma {:induction false} SplitAtFirstSep(x: string, sep: char, y: string)
    requires sep !in x
    ensures Split(x + [sep] + y, sep) == [x] + Split(y, sep)
    decreases |x|
  {
    var s := x + [sep] + y;
    if x == [] {
      assert s[1..] == y;
    } else {
      assert s[1..] == x[1..] + [sep] + y;
      SplitAtFirstSep(x[1..], sep, y);
      assert [x[0]] + x[1..] == x;
    }
  }

  /** Casting the text of a version gives that version back. */
  lemma CastToS(v: Version)
    ensures Cast(ToS(v)) == Some(v)
  {
    CastPieces(Render(v.major), Render(v.minor), Render(v.patch));
  }

  lemma NoDotInDigits(x: string)
    requires AllDigits(x)
    ensures '.' !in x
  {
    forall k | 0 <= k < |x| ensures x[k] != '.' {
      assert IsDigit(x[k]);
    }
  }

  /** Three non-empty digit runs joined by dots cast to their values. */
  lemma CastPieces(a: string, b: string, c: string)
    requires a != "" && b != "" && c != ""
    requires AllDigits(a) && AllDigits(b) && AllDigits(c)
    ensures Cast(a + "." + b + "." + c) == Some(Version(Value(a), Value(b), Value(c)))
  {
    NoDotInDigits(a);
    NoDotInDigits(b);
    NoDotInDigits(c);
    var bc := b + ['.'] + c;
    var t := a + ['.'] + bc;
    assert a + "." + b + "." + c == t;
    SplitWithoutSep(c, '.');
    SplitAtFirstSep(b, '.', c);
    SplitAtFirstSep(a, '.', bc);
    var pieces := Split(t, '.');
    assert pieces == [a, b, c];
    assert t != "";
    assert forall i :: 0 <= i < 3 ==> pieces[i] != "" && AllDigits(pieces[i]);
  }
}
