/** The "compress-join" idiom the presenter repeats for its display strings:
    drop the nil and empty parts (`compress!`), join the rest with a separator. */
module Joins {
  import opened Wrappers

  /** A part `compress!` removes: nil or the empty string. */
  predicate Blank(part: Option<string>) {
    part.None? || part.value == ""
  }

  /** The non-blank parts, unwrapped, in their original order. */
  function Compress(parts: seq<Option<string>>): (kept: seq<string>)
    ensures |kept| <= |parts|
    ensures forall i :: 0 <= i < |kept| ==> kept[i] != ""
  {
    if parts == [] then []
    else (if Blank(parts[0]) then [] else [parts[0].value]) + Compress(parts[1..])
  }

  /** Array#join: the items with `sep` between neighbours. */
  function Join(items: seq<string>, sep: string): string {
    if items == [] then ""
    else if |items| == 1 then items[0]
    else items[0] + sep + Join(items[1..], sep)
  }

  function CompressJoin(parts: seq<Option<string>>, sep: string): string {
    Join(Compress(parts), sep)
  }

  /** Compressing a concatenation compresses each side: every part is kept or
      dropped on its own, and the kept ones stay in order. */
  lemma {:induction false} CompressAppend(a: seq<Option<string>>, b: seq<Option<string>>)
    ensures Compress(a + b) == Compress(a) + Compress(b)
    decreases |a|
  {
    if a == [] {
      assert a + b == b;
    } else {
      assert (a + b)[0] == a[0];
      assert (a + b)[1..] == a[1..] + b;
      CompressAppend(a[1..], b);
    }
  }

  /** A string survives compression exactly when it is non-empty and present. */
  lemma {:induction false} CompressKeeps(parts: seq<Option<string>>, s: string)
    ensures s in Compress(parts) <==> s != "" && Some(s) in parts
    decreases |parts|
  {
    if parts != [] {
      CompressKeeps(parts[1..], s);
      assert parts == [parts[0]] + parts[1..];
    }
  }

  /** Joining two non-empty runs puts exactly one separator at the seam. */
  lemma {:induction false} JoinAppend(a: seq<string>, b: seq<string>, sep: string)
    requires a != [] && b != []
    ensures Join(a + b, sep) == Join(a, sep) + sep + Join(b, sep)
    decreases |a|
  {
    if |a| == 1 {
      assert (a + b)[1..] == b;
    } else {
      assert (a + b)[1..] == a[1..] + b;
      JoinAppend(a[1..], b, sep);
    }
  }

  /** Joined non-empty items are empty only when there are no items. */
  lemma {:induction false} JoinEmpty(items: seq<string>, sep: string)
    requires forall i :: 0 <= i < |items| ==> items[i] != ""
    ensures Join(items, sep) == "" <==> items == []
    decreases |items|
  {
    if |items| > 1 {
      JoinEmpty(items[1..], sep);
    }
  }

  /** The compress-join is empty exactly when every part is blank. */
  lemma CompressJoinEmpty(parts: seq<Option<string>>, sep: string)
    ensures CompressJoin(parts, sep) == "" <==> forall i :: 0 <= i < |parts| ==> Blank(parts[i])
  {
    JoinEmpty(Compress(parts), sep);
    if Compress(parts) == [] {
      forall i | 0 <= i < |parts| ensures Blank(parts[i]) {
        if !Blank(parts[i]) {
          CompressKeeps(parts, parts[i].value);
        }
      }
    } else {
      var s := Compress(parts)[0];
      CompressKeeps(parts, s);
      var i :| 0 <= i < |parts| && parts[i] == Some(s);
      assert !Blank(parts[i]);
    }
  }

  /** The two-part case every caller uses: a blank part never leaves a
      leading, trailing or doubled separator behind. */
  lemma CompressJoinPair(a: Option<string>, b: Option<string>, sep: string)
    ensures Blank(a) && Blank(b) ==> CompressJoin([a, b], sep) == ""
    ensures Blank(a) && !Blank(b) ==> CompressJoin([a, b], sep) == b.value
    ensures !Blank(a) && Blank(b) ==> CompressJoin([a, b], sep) == a.value
    ensures !Blank(a) && !Blank(b) ==> CompressJoin([a, b], sep) == a.value + sep + b.value
  {
    assert [a, b][1..] == [b];
    assert [b][1..] == [];
    var kept := (if Blank(a) then [] else [a.value]) + (if Blank(b) then [] else [b.value]);
    assert Compress([a, b]) == kept;
    if !Blank(a) && !Blank(b) {
      assert kept == [a.value, b.value];
      assert kept[1..] == [b.value];
      assert Join(kept, sep) == a.value + sep + Join([b.value], sep);
    }
  }
}
