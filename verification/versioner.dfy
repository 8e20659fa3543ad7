/** The versioner's text rewrite: in a gemspec's content, the leftmost
    match of /version.+\n/ is replaced by `version = "V"` and a line break.
    Writing the file back and reloading it are not part of this module. */
module Versioner {
  import opened Wrappers

  const Keyword := "version"

  /** The text the match is replaced with. */
  function Replacement(v: string): string {
    Keyword + " = \"" + v + "\"\n"
  }

  /** The first line break at or after position j, if any. */
  function LineEnd(s: string, j: nat): (k: Option<nat>)
    ensures k.Some? ==> j <= k.value < |s| && s[k.value] == '\n'
    ensures k.Some? ==> forall m :: j <= m < k.value ==> s[m] != '\n'
    ensures k.None? ==> forall m :: j <= m < |s| ==> s[m] != '\n'
    decreases |s| - j
  {
    if j >= |s| then None
    else if s[j] == '\n' then Some(j)
    else LineEnd(s, j + 1)
  }

  /** /version.+\n/ matches at position i: the keyword, then at least one
      character that is not a line break, up to a line break. */
  predicate MatchesAt(s: string, i: nat) {
    && i + |Keyword| <= |s|
    && s[i..i + |Keyword|] == Keyword
    && LineEnd(s, i + |Keyword|).Some?
    && LineEnd(s, i + |Keyword|).value > i + |Keyword|
  }

  /** Where a match at i ends: just past the line break closing its line. */
  function MatchEnd(s: string, i: nat): (e: nat)
    requires MatchesAt(s, i)
    ensures i + |Keyword| + 2 <= e <= |s|
    ensures s[e - 1] == '\n'
    ensures forall m :: i <= m < e - 1 ==> s[m] != '\n'
  {
    assert forall m :: i <= m < i + |Keyword| ==> s[m] == Keyword[m - i];
    LineEnd(s, i + |Keyword|).value + 1
  }

  /** i is where Ruby's `sub` matches: the lowest position with a match. */
  predicate Leftmost(s: string, i: nat) {
    MatchesAt(s, i) && forall p: nat :: p < i ==> !MatchesAt(s, p)
  }

  /** The lowest match position at or after `from`. */
  function FindMatch(s: string, from: nat): (r: Option<nat>)
    ensures r.Some? ==> from <= r.value && MatchesAt(s, r.value)
    ensures r.Some? ==> forall p: nat :: from <= p < r.value ==> !MatchesAt(s, p)
    ensures r.None? ==> forall p: nat :: from <= p ==> !MatchesAt(s, p)
    decreases |s| - from
  {
    if from + |Keyword| > |s| then None
    else if MatchesAt(s, from) then Some(from)
    else FindMatch(s, from + 1)
  }

  /** `content.sub(/version.+\n/, %(version = "V"\n))`, with the replacement
      taken literally. */
  function Rewrite(s: string, v: string): (r: string)
    ensures (forall p: nat :: !MatchesAt(s, p)) ==> r == s
    ensures forall i: nat :: Leftmost(s, i) ==> r == s[..i] + Replacement(v) + s[MatchEnd(s, i)..]
  {
    LeftmostIsFound(s);
    match FindMatch(s, 0)
    case None => s
    case Some(i) => s[..i] + Replacement(v) + s[MatchEnd(s, i)..]
  }

  /** The match condition spelled out: the keyword at i, and a line break at
      some k past the keyword with no line break between. */
  lemma MatchesAtExactly(s: string, i: nat)
    ensures MatchesAt(s, i) <==>
      && i + |Keyword| <= |s|
      && s[i..i + |Keyword|] == Keyword
      && exists k :: i + |Keyword| < k < |s| && s[k] == '\n'
                     && forall m :: i + |Keyword| <= m < k ==> s[m] != '\n'
  {
    var j := i + |Keyword|;
    if j <= |s| && s[i..j] == Keyword {
      if exists k :: j < k < |s| && s[k] == '\n' && forall m :: j <= m < k ==> s[m] != '\n' {
        var k :| j < k < |s| && s[k] == '\n' && forall m :: j <= m < k ==> s[m] != '\n';
        assert LineEnd(s, j) == Some(k);
      }
      if MatchesAt(s, i) {
        var k := LineEnd(s, j).value;
        assert j < k < |s| && s[k] == '\n' && forall m :: j <= m < k ==> s[m] != '\n';
      }
    }
  }

  /** A final line without a line break never matches. */
  lemma LastLineNeverMatches(s: string, i: nat)
    requires forall m :: i <= m < |s| ==> s[m] != '\n'
    ensures !MatchesAt(s, i)
  {
  }

  /** The rewrite keeps everything before the match (so the start of the
      matched line) and everything after its line break, and its length
      changes by the replacement's length less the matched length. */
  lemma RewriteSplice(s: string, v: string, i: nat)
    requires Leftmost(s, i)
    ensures var r := Rewrite(s, v);
      var e := MatchEnd(s, i);
      && r[..i] == s[..i]
      && r[i..i + |Replacement(v)|] == Replacement(v)
      && r[i + |Replacement(v)|..] == s[e..]
      && |r| == |s| - (e - i) + |Replacement(v)|
  {
    var rep, e := Replacement(v), MatchEnd(s, i);
    var head, tail := s[..i], s[e..];
    assert Rewrite(s, v) == head + rep + tail;
    assert |head| == i;
  }

  lemma LeftmostIsFound(s: string)
    ensures forall i: nat :: Leftmost(s, i) ==> FindMatch(s, 0) == Some(i)
  {
    forall i: nat | Leftmost(s, i) ensures FindMatch(s, 0) == Some(i) {
      LeftmostFound(s, i);
    }
  }

  /** A match position is the result of the search from 0 when no earlier
      position matches. */
  lemma LeftmostFound(s: string, i: nat)
    requires Leftmost(s, i)
    ensures FindMatch(s, 0) == Some(i)
  {
  }

  /** The keyword has no proper suffix that is also a prefix: two keyword
      occurrences never overlap. */
  lemma KeywordNoSelfOverlap(s: string, p: nat, i: nat)
    requires p < i < p + |Keyword|
    requires i + |Keyword| <= |s|
    requires s[i..i + |Keyword|] == Keyword
    ensures s[p..p + |Keyword|] != Keyword
  {
    assert s[i] == 'v';
  }

  /** In the rewritten text the match sits where the old one began and ends
      with the replacement. */
  lemma ReplacementMatches(r: string, i: nat, v: string)
    requires '\n' !in v
    requires i + |Replacement(v)| <= |r|
    requires r[i..i + |Replacement(v)|] == Replacement(v)
    ensures MatchesAt(r, i) && MatchEnd(r, i) == i + |Replacement(v)|
  {
    var rep := Replacement(v);
    var j := i + |Keyword|;
    var k := i + |rep| - 1;
    assert r[i..j] == rep[..|Keyword|] == Keyword;
    assert forall m :: j <= m < k ==> r[m] == rep[m - i];
    assert forall m :: |Keyword| <= m < |rep| - 1 ==> rep[m] != '\n';
    assert r[k] == '\n';
    assert LineEnd(r, j) == Some(k);
  }

  /** Rewriting twice with the same version equals rewriting once, provided
      the version has no line break. */
  lemma RewriteIdempotent(s: string, v: string)
    requires '\n' !in v
    ensures Rewrite(Rewrite(s, v), v) == Rewrite(s, v)
  {
    var r := Rewrite(s, v);
    match FindMatch(s, 0)
    case None =>
    case Some(i) =>
      var rep := Replacement(v);
      var e := MatchEnd(s, i);
      assert r == s[..i] + rep + s[e..];
      assert r[i..i + |rep|] == rep;
      assert r[..i] == s[..i];
      assert rep[..|Keyword|] == Keyword;
      ReplacementMatches(r, i, v);
      forall p: nat | p < i
        ensures !MatchesAt(r, p)
      {
        EarlierStaysUnmatched(s, r, rep, i, p);
      }
      assert Leftmost(r, i);
      LeftmostFound(r, i);
      assert r[..i] == s[..i];
      assert r[i + |rep|..] == s[e..];
  }

  /** A keyword occurrence wholly before the leftmost match did not match,
      although its line would run on into the match: so its line breaks
      right after the keyword. */
  lemma BreaksAfterEarlierKeyword(s: string, i: nat, p: nat)
    requires Leftmost(s, i)
    requires p + |Keyword| <= i
    requires s[p..p + |Keyword|] == Keyword
    ensures p + |Keyword| < i && s[p + |Keyword|] == '\n'
  {
    var j := p + |Keyword|;
    var e := MatchEnd(s, i);
    assert !MatchesAt(s, p);
    assert LineEnd(s, j).Some? by {
      assert s[e - 1] == '\n' && j <= e - 1 < |s|;
    }
    assert s[i] == 'v' by {
      assert s[i..i + |Keyword|][0] == s[i];
    }
  }

  /** A position before the leftmost match does not match after the rewrite. */
  lemma EarlierStaysUnmatched(s: string, r: string, rep: string, i: nat, p: nat)
    requires Leftmost(s, i)
    requires |rep| >= |Keyword| && rep[..|Keyword|] == Keyword
    requires i + |rep| <= |r| && r[..i] == s[..i] && r[i..i + |rep|] == rep
    requires p < i
    ensures !MatchesAt(r, p)
  {
    var j := p + |Keyword|;
    if j <= |r| && r[p..j] == Keyword {
      if i < j {
        assert r[i..i + |Keyword|] == Keyword by {
          assert r[i..i + |Keyword|] == r[i..i + |rep|][..|Keyword|];
        }
        KeywordNoSelfOverlap(r, p, i);
      } else {
        assert s[p..j] == Keyword by {
          assert s[p..j] == s[..i][p..j] == r[..i][p..j] == r[p..j];
        }
        BreaksAfterEarlierKeyword(s, i, p);
        assert r[j] == '\n' by {
          assert r[j] == r[..i][j] == s[..i][j] == s[j];
        }
        assert LineEnd(r, j) == Some(j);
      }
    }
  }

  /** A version line `<receiver>version = "<previous>"` whose receiver holds no
      `v` becomes `<receiver>version = "V"`: the receiver is kept and only the
      version changes, so `spec.version = "0.0.0"` becomes
      `spec.version = "1.2.3"`. */
  lemma ReceiverKept(receiver: string, previous: string, v: string, rest: string)
    requires 'v' !in receiver && '\n' !in previous
    ensures Rewrite(receiver + Replacement(previous) + rest, v) == receiver + Replacement(v) + rest
  {
    var s := receiver + Replacement(previous) + rest;
    var i := |receiver|;
    assert s[i..i + |Replacement(previous)|] == Replacement(previous);
    ReplacementMatches(s, i, previous);
    forall p: nat | p < i
      ensures !MatchesAt(s, p)
    {
      assert s[p] == receiver[p];
      if p + |Keyword| <= |s| {
        assert s[p..p + |Keyword|][0] == s[p] != 'v';
      }
    }
    assert Leftmost(s, i);
    assert s[..i] == receiver;
    assert s[i + |Replacement(previous)|..] == rest;
  }
}
