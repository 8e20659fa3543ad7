/** The picker: resolves a gem name to one installed specification, asking
    the user to choose by number when several are installed. The finder is a
    function from a name to its candidates; the terminal is an explicit list
    of written lines plus the one line the user types. */
module Picker {
  import opened Wrappers
  import opened Decimal
  import opened RubyCore
  import opened Presenters

  /** The prompt written after the numbered listing. */
  const Prompt := "\nPlease enter gem selection:"

  /** One run of `call`: either it returns a result (a chosen candidate may
      be nil) or an exception escapes it; either way, the lines written, the
      number of input lines read and the names the finder was asked for. */
  datatype Run =
    | Returned(
        result: Result<Option<Presenter>, string>,
        written: seq<string>,
        linesRead: nat,
        queries: seq<string>)
    | Raised(
        exception: string,
        written: seq<string>,
        linesRead: nat,
        queries: seq<string>)

  /** What `choose` writes and what its look-up answers: the candidate or
      nil, or the RangeError of an index no long can hold. */
  datatype Choice = Choice(lookup: Result<Option<Presenter>, string>, written: seq<string>)

  /** The numbered listing: line i is rank i + 1, a dot, and candidate i's
      named version. */
  function Listing(candidates: seq<Presenter>): (lines: seq<string>)
    ensures |lines| == |candidates|
    ensures forall i :: 0 <= i < |candidates| ==>
      lines[i] == Render(i + 1) + ". " + NamedVersion(candidates[i])
  {
    if candidates == [] then []
    else
      var n := |candidates|;
      Listing(candidates[..n - 1]) + [Render(n) + ". " + NamedVersion(candidates[n - 1])]
  }

  /** The 0-based index `choose` looks up for an input line. */
  function SelectionIndex(line: string): (i: int)
    ensures i == ToI(line) - 1
  {
    ChompKeepsToI(line);
    ToI(Chomp(line)) - 1
  }

  /** `choose`: write the listing and the prompt, read one line, and index the
      candidates with it. */
  function Choose(candidates: seq<Presenter>, line: string): (c: Choice)
    ensures c.written == Listing(candidates) + [Prompt]
    ensures c.lookup == At(candidates, ToI(line) - 1)
    ensures c.lookup.Failure? <==> !FitsLong(ToI(line) - 1)
    ensures c.lookup.Success? ==>
      (c.lookup.value.Some? <==> -|candidates| < ToI(line) <= |candidates|)
    ensures c.lookup.Success? && c.lookup.value.Some? ==> c.lookup.value.value in candidates
  {
    Choice(At(candidates, SelectionIndex(line)), Listing(candidates) + [Prompt])
  }

  /** `call`: ask the finder once, then branch on the number of candidates. */
  function Call(name: string, finder: string -> seq<Presenter>, line: string): (run: Run)
    ensures run.queries == [name]
    ensures |finder(name)| == 0 ==>
      run == Returned(Failure("Unknown or uninstalled gem: " + name + "."), [], 0, [name])
    ensures |finder(name)| == 1 ==>
      run == Returned(Success(Some(finder(name)[0])), [], 0, [name])
    ensures |finder(name)| >= 2 ==>
      run.linesRead == 1 && run.written == Listing(finder(name)) + [Prompt]
    ensures |finder(name)| >= 2 && FitsLong(ToI(line) - 1) ==>
      run.Returned? && run.result == Success(At(finder(name), ToI(line) - 1).value)
    ensures |finder(name)| >= 2 && !FitsLong(ToI(line) - 1) ==>
      run.Raised? && run.exception == LongRangeError
    ensures run.Raised? ==> |finder(name)| >= 2
    ensures run.Returned? && run.result.Success? && run.result.value.Some? ==>
      run.result.value.value in finder(name)
  {
    var candidates := finder(name);
    if |candidates| == 1 then Returned(Success(Some(candidates[0])), [], 0, [name])
    else if |candidates| >= 2 then
      var choice := Choose(candidates, line);
      match choice.lookup
      case Success(selected) => Returned(Success(selected), choice.written, 1, [name])
      case Failure(error) => Raised(error, choice.written, 1, [name])
    else Returned(Failure("Unknown or uninstalled gem: " + name + "."), [], 0, [name])
  }

  /** A line starting with the rank k, followed by text that is not part of
      a number, selects index k - 1. */
  lemma RankLineIndex(k: nat, rest: string)
    requires k >= 1
    requires rest == [] || (!IsDigit(rest[0]) && rest[0] != '_')
    ensures SelectionIndex(Render(k) + rest) == k - 1
  {
    ToIRender(k, rest);
    ChompKeepsToI(Render(k) + rest);
  }

  /** With several candidates, typing rank k (with or without the line break)
      picks the k-th candidate. A Ruby array never holds more elements than a
      long can count, hence the bound on the number of candidates. */
  lemma PickByRank(name: string, finder: string -> seq<Presenter>, k: nat, newline: bool)
    requires 2 <= |finder(name)| <= LongMax
    requires 1 <= k <= |finder(name)|
    ensures var run := Call(name, finder, Render(k) + (if newline then "\n" else ""));
      run.Returned? && run.result == Success(Some(finder(name)[k - 1]))
  {
    var line := Render(k) + (if newline then "\n" else "");
    RankLineIndex(k, if newline then "\n" else "");
    CallPicksRank(name, finder, line, k);
  }

  /** A line that `to_i` reads as rank k picks the k-th candidate. */
  lemma CallPicksRank(name: string, finder: string -> seq<Presenter>, line: string, k: nat)
    requires 2 <= |finder(name)| <= LongMax
    requires 1 <= k <= |finder(name)| && ToI(line) == k
    ensures Call(name, finder, line).Returned?
    ensures Call(name, finder, line).result == Success(Some(finder(name)[k - 1]))
  {
    var candidates := finder(name);
    assert At(candidates, k - 1) == Success(Some(candidates[k - 1])) by {
      assert FitsLong(k - 1);
    }
  }

  /** Typing a listing line back picks that line's candidate: `to_i` reads
      the rank the line starts with. */
  lemma ListedNumberPicks(candidates: seq<Presenter>, i: nat)
    requires 2 <= |candidates| <= LongMax && i < |candidates|
    ensures Choose(candidates, Listing(candidates)[i]).lookup == Success(Some(candidates[i]))
  {
    RankedLineSelects(candidates, i, Listing(candidates)[i]);
  }

  lemma RankedLineSelects(candidates: seq<Presenter>, i: nat, line: string)
    requires i < |candidates| <= LongMax
    requires line == Render(i + 1) + ". " + NamedVersion(candidates[i])
    ensures Choose(candidates, line).lookup == Success(Some(candidates[i]))
  {
    var rest := ". " + NamedVersion(candidates[i]);
    assert line == Render(i + 1) + rest;
    RankLineIndex(i + 1, rest);
  }

  /** Input "0" reads as index -1, which Array#[] takes from the back: the
      last candidate. */
  lemma ZeroPicksLast(name: string, finder: string -> seq<Presenter>)
    requires |finder(name)| >= 2
    ensures var run := Call(name, finder, "0");
      run.Returned? && run.result == Success(Some(finder(name)[|finder(name)| - 1]))
  {
    ToIRender(0, "");
    assert Render(0) + "" == "0";
    ChompKeepsToI("0");
    assert SelectionIndex("0") == -1;
  }

  /** An input outside ranks -n+1 .. n selects nothing: the answer is still a
      Success of nil while the index fits a long, and a RangeError escapes
      beyond that. */
  lemma OutOfRangeIsNil(name: string, finder: string -> seq<Presenter>, line: string)
    requires |finder(name)| >= 2
    requires ToI(line) > |finder(name)| || ToI(line) <= -|finder(name)|
    ensures FitsLong(ToI(line) - 1) ==>
      Call(name, finder, line) == Returned(Success(None), Listing(finder(name)) + [Prompt], 1, [name])
    ensures !FitsLong(ToI(line) - 1) ==>
      Call(name, finder, line) == Raised(LongRangeError, Listing(finder(name)) + [Prompt], 1, [name])
  {
  }

  /** A typed number whose index no long can hold, 2^63 + 1 or more either
      way, makes Array#[] raise RangeError out of `call`. */
  lemma BeyondLongRaises(name: string, finder: string -> seq<Presenter>, n: nat)
    requires |finder(name)| >= 2
    requires n > LongMax + 1
    ensures Call(name, finder, Render(n)).Raised?
    ensures Call(name, finder, "-" + Render(n)).Raised?
  {
    ToIRender(n, "");
    assert Render(n) + "" == Render(n);
    ToINegated(n, "");
    assert "-" + Render(n) + "" == "-" + Render(n);
  }

  /** Input "-k" reads as index -k - 1, which Array#[] counts from the back:
      for 1 <= k < n it picks candidate n - k - 1, so "-1" picks the
      second-to-last. */
  lemma NegativePicksFromBack(name: string, finder: string -> seq<Presenter>, k: nat)
    requires 2 <= |finder(name)| <= LongMax
    requires 1 <= k < |finder(name)|
    ensures var run := Call(name, finder, "-" + Render(k));
      run.Returned? && run.result == Success(Some(finder(name)[|finder(name)| - k - 1]))
  {
    ToINegated(k, "");
    assert "-" + Render(k) + "" == "-" + Render(k);
  }
}
