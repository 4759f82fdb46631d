/**
 * Model of Go's `strings.Split(s, sep)` for a one-character separator, as
 * the port-range parser uses it with `"-"`.  Go splits around every
 * occurrence of the separator, so the number of parts is always one more
 * than the number of separators: `""` gives `[""]` and `"-"` gives `["", ""]`.
 */
module GoStrings {

  /** The number of occurrences of `c` in `s` (Go's `strings.Count` for one character). */
  function CountOf(s: string, c: char): (n: nat)
    ensures n <= |s|
    ensures n == 0 <==> c !in s
  {
    if s == [] then 0
    else
      assert s == [s[0]] + s[1..];
      (if s[0] == c then 1 else 0) + CountOf(s[1..], c)
  }

  /** Go's `strings.Join(parts, string(sep))`: the parts with `sep` between neighbours. */
  function Join(parts: seq<string>, sep: char): string
  {
    if |parts| == 0 then ""
    else if |parts| == 1 then parts[0]
    else parts[0] + [sep] + Join(parts[1..], sep)
  }

  /**
   * Go's `strings.Split(s, string(sep))`.  Every part is free of the
   * separator and there is one part more than there are separators
   * (JoinOfSplit shows that joining the parts back gives the input).
   */
  function Split(s: string, sep: char): (parts: seq<string>)
    ensures |parts| == CountOf(s, sep) + 1
    ensures forall k :: 0 <= k < |parts| ==> sep !in parts[k]
    decreases |s|
  {
    if s == [] then [""]
    else
      var rest := Split(s[1..], sep);
      assert s == [s[0]] + s[1..];
      if s[0] == sep then [""] + rest
      else [[s[0]] + rest[0]] + rest[1..]
  }

  /** Join inverts Split: the parts, put back together, are the input. */
  lemma {:induction false} JoinOfSplit(s: string, sep: char)
    ensures Join(Split(s, sep), sep) == s
    decreases |s|
  {
    if s != [] {
      var rest := Split(s[1..], sep);
      JoinOfSplit(s[1..], sep);
      assert s == [s[0]] + s[1..];
      if s[0] == sep {
        assert ([""] + rest)[1..] == rest;
        assert Join([""] + rest, sep) == "" + [sep] + Join(rest, sep);
      } else {
        JoinCons(s[0], rest, sep);
      }
    }
  }

  /** Gluing `c` onto the first part glues it onto the front of the join. */
  lemma JoinCons(c: char, parts: seq<string>, sep: char)
    requires |parts| >= 1
    ensures Join([[c] + parts[0]] + parts[1..], sep) == [c] + Join(parts, sep)
  {
    var glued := [[c] + parts[0]] + parts[1..];
    assert glued[0] == [c] + parts[0] && glued[1..] == parts[1..];
    if |parts| > 1 {
      var tail := Join(parts[1..], sep);
      assert Join(glued, sep) == ([c] + parts[0]) + [sep] + tail;
      assert Join(parts, sep) == parts[0] + [sep] + tail;
    }
  }

  /** Splitting a separator-free prefix followed by `t` glues the prefix onto the first part of `t`. */
  lemma {:induction false} SplitPrefix(x: string, t: string, sep: char)
    requires sep !in x
    ensures Split(x + t, sep) == [x + Split(t, sep)[0]] + Split(t, sep)[1..]
    decreases |x|
  {
    if x == [] {
      var r := Split(t, sep);
      assert x + t == t && x + r[0] == r[0];
      assert r == [r[0]] + r[1..];
    } else {
      var u := Split(t, sep);
      var r := Split(x[1..] + t, sep);
      assert x == [x[0]] + x[1..];
      assert x[0] != sep && sep !in x[1..];
      assert (x + t)[0] == x[0] && (x + t)[1..] == x[1..] + t;
      assert Split(x + t, sep) == [[x[0]] + r[0]] + r[1..];
      SplitPrefix(x[1..], t, sep);
      assert r[0] == x[1..] + u[0] && r[1..] == u[1..];
      ConsConcat(x, u[0]);
    }
  }

  /** Putting the head of `x` back in front of the rest of `x` followed by `w` gives `x + w`. */
  lemma ConsConcat(x: string, w: string)
    requires x != []
    ensures [x[0]] + (x[1..] + w) == x + w
  {
    assert x == [x[0]] + x[1..];
  }

  /** Split inverts Join on non-empty lists of separator-free parts. */
  lemma {:induction false} SplitOfJoin(parts: seq<string>, sep: char)
    requires |parts| >= 1
    requires forall k :: 0 <= k < |parts| ==> sep !in parts[k]
    ensures Split(Join(parts, sep), sep) == parts
    decreases |parts|
  {
    if |parts| == 1 {
      SplitPrefix(parts[0], "", sep);
      assert parts[0] + "" == parts[0];
    } else {
      var tail := Join(parts[1..], sep);
      SplitOfJoin(parts[1..], sep);
      assert Join(parts, sep) == parts[0] + ([sep] + tail);
      assert ([sep] + tail)[0] == sep && ([sep] + tail)[1..] == tail;
      assert Split([sep] + tail, sep) == [""] + parts[1..];
      SplitPrefix(parts[0], [sep] + tail, sep);
      assert parts[0] + "" == parts[0];
      assert parts == [parts[0]] + parts[1..];
    }
  }

  /** A string with a single separator splits into the text before it and the text after it. */
  lemma SplitAroundSeparator(left: string, right: string, sep: char)
    requires sep !in left && sep !in right
    ensures Split(left + [sep] + right, sep) == [left, right]
  {
    var tail := [sep] + right;
    assert tail[0] == sep && tail[1..] == right;
    SplitPrefix(right, "", sep);
    assert right + "" == right && Split("", sep) == [""];
    assert Split(right, sep) == [right];
    assert Split(tail, sep) == ["", right];
    SplitPrefix(left, tail, sep);
    assert left + "" == left;
    assert left + [sep] + right == left + tail;
  }
}
