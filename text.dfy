/** Text operations the routing code relies on: ASCII lower-casing (how
    header names are normalised), substring search (`str::contains`), and
    joining / splitting on a separator (`Vec::join`). */
module Text {

  /** ASCII-only lower-casing of one character; everything else is kept. */
  function LowerChar(c: char): (d: char)
    ensures 'A' <= c <= 'Z' ==> 'a' <= d <= 'z' && d as int == c as int + 32
    ensures !('A' <= c <= 'Z') ==> d == c
  {
    if 'A' <= c <= 'Z' then (c as int - 'A' as int + 'a' as int) as char else c
  }

  /** `to_ascii_lowercase`: each character lower-cased on its own. */
  function Lower(s: string): (t: string)
    ensures |t| == |s|
    ensures forall i :: 0 <= i < |s| ==> t[i] == LowerChar(s[i])
  {
    seq(|s|, i requires 0 <= i < |s| => LowerChar(s[i]))
  }

  /** Lower-casing twice is lower-casing once, so a normalised name is its
      own normal form. */
  lemma LowerIdempotent(s: string)
    ensures Lower(Lower(s)) == Lower(s)
  {
    var t := Lower(s);
    assert forall i :: 0 <= i < |s| ==> LowerChar(t[i]) == t[i];
  }

  /** `needle` occurs in `hay` starting at position `i`. */
  ghost predicate OccursAt(needle: string, hay: string, i: int)
  {
    0 <= i && i + |needle| <= |hay| && hay[i..i + |needle|] == needle
  }

  /** `str::contains`: `needle` is a substring of `hay`. */
  function Contains(hay: string, needle: string): (r: bool)
    ensures r <==> exists i :: OccursAt(needle, hay, i)
    decreases |hay|
  {
    if |needle| <= |hay| && hay[..|needle|] == needle then
      assert OccursAt(needle, hay, 0);
      true
    else if hay == [] then
      assert forall i :: !OccursAt(needle, hay, i);
      false
    else
      var r := Contains(hay[1..], needle);
      assert forall i {:trigger OccursAt(needle, hay[1..], i)} ::
        OccursAt(needle, hay[1..], i) ==> OccursAt(needle, hay, i + 1);
      assert forall i :: OccursAt(needle, hay, i) && i > 0 ==> OccursAt(needle, hay[1..], i - 1);
      r
  }

  lemma EmptyIsContained(hay: string)
    ensures Contains(hay, "")
  {
    assert OccursAt("", hay, 0);
  }

  lemma NothingButEmptyInEmpty(needle: string)
    ensures Contains("", needle) <==> needle == ""
  {
  }

  /** The total length of a list of strings. */
  function TotalLength(items: seq<string>): nat
  {
    if items == [] then 0 else |items[0]| + TotalLength(items[1..])
  }

  /** `items.join(sep)`: the items in order, one separator between each
      two, and nothing else. */
  function Join(items: seq<string>, sep: char): (r: string)
    ensures items == [] ==> r == ""
    ensures items != [] ==> |r| == TotalLength(items) + |items| - 1
    ensures items != [] ==> r[..|items[0]|] == items[0]
  {
    if items == [] then ""
    else if |items| == 1 then items[0]
    else items[0] + [sep] + Join(items[1..], sep)
  }

  /** Splitting at every occurrence of `sep`: the inverse of `Join` for
      items free of the separator. */
  function Split(s: string, sep: char): (r: seq<string>)
    ensures |r| >= 1
    decreases |s|
  {
    if s == [] then [""]
    else
      var rest := Split(s[1..], sep);
      if s[0] == sep then [""] + rest
      else [[s[0]] + rest[0]] + rest[1..]
  }

  /** Splitting `item + [sep] + tail`, where `item` has no separator,
      yields `item` followed by the pieces of `tail`. */
  lemma {:induction false} SplitAfterItem(item: string, sep: char, tail: string)
    requires sep !in item
    ensures Split(item + [sep] + tail, sep) == [item] + Split(tail, sep)
    decreases |item|
  {
    if item == [] {
      assert [] + [sep] + tail == [sep] + tail;
      assert ([sep] + tail)[1..] == tail;
    } else {
      var s := item + [sep] + tail;
      assert s[0] == item[0] && s[1..] == item[1..] + [sep] + tail;
      SplitAfterItem(item[1..], sep, tail);
      assert [item[0]] + item[1..] == item;
    }
  }

  lemma {:induction false} SplitNoSeparator(item: string, sep: char)
    requires sep !in item
    ensures Split(item, sep) == [item]
    decreases |item|
  {
    if item != [] {
      SplitNoSeparator(item[1..], sep);
      assert [item[0]] + item[1..] == item;
    }
  }

  /** Round trip: a non-empty list of separator-free items is recovered by
      splitting its join. */
  lemma {:induction false} SplitJoin(items: seq<string>, sep: char)
    requires |items| >= 1
    requires forall i :: 0 <= i < |items| ==> sep !in items[i]
    ensures Split(Join(items, sep), sep) == items
    decreases |items|
  {
    if |items| == 1 {
      SplitNoSeparator(items[0], sep);
    } else {
      SplitJoin(items[1..], sep);
      SplitAfterItem(items[0], sep, Join(items[1..], sep));
      assert [items[0]] + items[1..] == items;
    }
  }

  /** Every character of a join comes from an item or is the separator. */
  lemma {:induction false} JoinChars(items: seq<string>, sep: char, c: char)
    requires c in Join(items, sep)
    ensures c == sep || exists i :: 0 <= i < |items| && c in items[i]
    decreases |items|
  {
    if |items| > 1 {
      var tail := Join(items[1..], sep);
      assert Join(items, sep) == items[0] + [sep] + tail;
      if c !in items[0] && c != sep {
        assert c in tail;
        JoinChars(items[1..], sep, c);
        var i :| 0 <= i < |items[1..]| && c in items[1..][i];
        assert c in items[i + 1];
      }
    }
  }
}
