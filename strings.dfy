/** `sep.join(parts)` and its converse, splitting a string at a separator character. */
module Strings {

  /** `sep.join(parts)`: the parts with sep between neighbours. */
  function Join(sep: string, parts: seq<string>): string
    decreases |parts|
  {
    if parts == [] then ""
    else if |parts| == 1 then parts[0]
    else parts[0] + sep + Join(sep, parts[1..])
  }

  /** The pieces of s between occurrences of c, like Python's `s.split(c)` for one character. */
  function Split(s: string, c: char): (pieces: seq<string>)
    ensures |pieces| >= 1
    decreases |s|
  {
    if s == [] then [""]
    else
      var rest := Split(s[1..], c);
      if s[0] == c then [""] + rest else [[s[0]] + rest[0]] + rest[1..]
  }

  /** A prefix free of c is glued onto the first piece of what follows it. */
  lemma {:induction false} SplitPrefix(a: string, s: string, c: char)
    requires c !in a
    ensures Split(a + s, c) == [a + Split(s, c)[0]] + Split(s, c)[1..]
    decreases |a|
  {
    if a != [] {
      assert (a + s)[0] == a[0];
      assert (a + s)[1..] == a[1..] + s;
      SplitPrefix(a[1..], s, c);
      assert [a[0]] + (a[1..] + Split(s, c)[0]) == a + Split(s, c)[0];
    } else {
      var p := Split(s, c);
      assert a + s == s && a + p[0] == p[0];
      assert [p[0]] + p[1..] == p;
    }
  }

  lemma SplitAtSeparator(s: string, c: char)
    ensures Split([c] + s, c) == [""] + Split(s, c)
  {
    assert ([c] + s)[1..] == s;
  }

  /**
   * Splitting `", ".join(parts)` at ',' gives back one piece per part, when
   * no part contains a comma: the first part as it was, each later one
   * behind the blank that followed its comma.
   */
  lemma {:induction false} SplitJoin(parts: seq<string>)
    requires |parts| >= 1
    requires forall i :: 0 <= i < |parts| ==> ',' !in parts[i]
    ensures |Split(Join(", ", parts), ',')| == |parts|
    ensures Split(Join(", ", parts), ',')[0] == parts[0]
    ensures forall i :: 1 <= i < |parts| ==> Split(Join(", ", parts), ',')[i] == " " + parts[i]
    decreases |parts|
  {
    if |parts| == 1 {
      SplitPrefix(parts[0], "", ',');
      assert parts[0] + "" == parts[0];
    } else {
      var rest := Join(", ", parts[1..]);
      SplitJoin(parts[1..]);
      var p := Split(rest, ',');
      // Split(" " + rest) glues the blank onto the first piece of rest.
      SplitPrefix(" ", rest, ',');
      var q := Split(" " + rest, ',');
      assert q == [" " + p[0]] + p[1..];
      SplitAtSeparator(" " + rest, ',');
      assert ", " + rest == [','] + (" " + rest);
      SplitPrefix(parts[0], ", " + rest, ',');
      assert Join(", ", parts) == parts[0] + (", " + rest);
      assert Split(", " + rest, ',') == [""] + q;
      var whole := Split(Join(", ", parts), ',');
      assert whole == [parts[0] + ""] + q;
      assert parts[0] + "" == parts[0];
      forall i | 1 <= i < |parts| ensures whole[i] == " " + parts[i] {
        assert whole[i] == q[i - 1];
        if i > 1 {
          assert q[i - 1] == p[i - 1];
        }
      }
    }
  }
}
