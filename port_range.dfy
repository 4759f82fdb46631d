/**
 * The port-range parser of gomap: `parsePorts(rangeStr)` turns a
 * `"start-end"` string into the inclusive ascending list of ports to scan,
 * or into one of two errors.  Go's `([]int, error)` return is modelled as a
 * pair `(ports, err)`; Go's nil slice is the empty sequence.
 */
module PortRange {
  import opened Wrappers
  import opened GoStrings
  import opened GoStrconv

  const MinPort: int := 1
  const MaxPort: int := 65535

  /** The two errors parsePorts returns; each carries the offending input. */
  datatype PortsError =
    | InvalidRange(input: string)    // the input does not split into exactly two parts
    | InvalidNumbers(input: string)  // a part is not an integer, or the bounds are wrong

  /** The text of the error, as `fmt.Errorf` formats it. */
  function Message(e: PortsError): string
  {
    match e
    case InvalidRange(s) => "invalid port range: " + s
    case InvalidNumbers(s) => "invalid port numbers: " + s
  }

  /**
   * The checks before the loop: split on `-`, demand two parts, parse both
   * with Atoi and demand `1 <= start`, `end <= 65535` and `start <= end`.
   */
  function Bounds(rangeStr: string): (r: Result<(int, int), PortsError>)
    ensures r.Err? ==> r.error.input == rangeStr
    ensures r == Err(InvalidRange(rangeStr)) <==> CountOf(rangeStr, '-') != 1
    ensures r.Ok? ==> MinPort <= r.value.0 <= r.value.1 <= MaxPort
  {
    var parts := Split(rangeStr, '-');
    if |parts| != 2 then Err(InvalidRange(rangeStr))
    else
      var start, end := Atoi(parts[0]), Atoi(parts[1]);
      if start.None? || end.None? || start.value < MinPort || end.value > MaxPort || start.value > end.value
      then Err(InvalidNumbers(rangeStr))
      else Ok((start.value, end.value))
  }

  /** The integers from `lo` to `hi`, both included, in ascending order. */
  function Range(lo: int, hi: int): (r: seq<int>)
    ensures |r| == if lo <= hi then hi - lo + 1 else 0
    ensures forall k :: 0 <= k < |r| ==> r[k] == lo + k
    decreases hi - lo
  {
    if lo > hi then [] else [lo] + Range(lo + 1, hi)
  }

  /** A list that counts up from `lo` to `hi` one by one is `Range(lo, hi)`. */
  lemma RangeOfCounting(ps: seq<int>, lo: int, hi: int)
    requires lo <= hi + 1 && |ps| == hi - lo + 1
    requires forall k :: 0 <= k < |ps| ==> ps[k] == lo + k
    ensures ps == Range(lo, hi)
  {
  }

  /** What parsePorts computes: the ports of a valid range, or its error. */
  function PortsOf(rangeStr: string): Result<seq<int>, PortsError>
  {
    match Bounds(rangeStr)
    case Ok((lo, hi)) => Ok(Range(lo, hi))
    case Err(e) => Err(e)
  }

  /**
   * parsePorts: the checks, then a loop that appends start, start + 1, ..., end
   * one at a time.  On error no port at all is returned.
   */
  method ParsePorts(rangeStr: string) returns (ports: seq<int>, err: Option<PortsError>)
    ensures err.None? <==> PortsOf(rangeStr).Ok?
    ensures err.None? ==> PortsOf(rangeStr) == Ok(ports)
    ensures err.Some? ==> ports == [] && PortsOf(rangeStr) == Err(err.value)
    ensures err.None? ==> 1 <= |ports| <= MaxPort
    ensures err.None? ==> forall k :: 0 <= k < |ports| ==> MinPort <= ports[k] <= MaxPort
    ensures err.None? ==> forall k :: 0 < k < |ports| ==> ports[k] == ports[k - 1] + 1
  {
    var bounds := Bounds(rangeStr);
    if bounds.Err? {
      assert PortsOf(rangeStr) == Err(bounds.error);
      return [], Some(bounds.error);
    }
    var start, end := bounds.value.0, bounds.value.1;
    assert PortsOf(rangeStr) == Ok(Range(start, end));
    ports := [];
    var i := start;
    while i <= end
      invariant start <= i <= end + 1
      invariant |ports| == i - start
      invariant forall k :: 0 <= k < |ports| ==> ports[k] == start + k
    {
      ports := ports + [i];
      i := i + 1;
    }
    err := None;
    RangeOfCounting(ports, start, end);
    AcceptedPortsWellFormed(rangeStr);
  }

  /** The only `-` in `s` is at index `i`. */
  predicate SoleDashAt(s: string, i: nat)
  {
    i < |s| && s[i] == '-' && '-' !in s[..i] && '-' !in s[i + 1..]
  }

  /** `s` is `left + "-" + right` with its only `-` at index `i`, and Atoi reads `a` and `b` from the two sides. */
  predicate RangeFields(s: string, i: nat, a: int, b: int)
  {
    SoleDashAt(s, i) && Atoi(s[..i]) == Some(a) && Atoi(s[i + 1..]) == Some(b)
  }

  /** A string with exactly one `-` has that `-` at some index. */
  lemma SoleDashOfCount(s: string)
    requires CountOf(s, '-') == 1
    ensures exists i: nat :: SoleDashAt(s, i)
  {
    var parts := Split(s, '-');
    JoinOfSplit(s, '-');
    var i := |parts[0]|;
    assert s == parts[0] + "-" + parts[1];
    assert s[..i] == parts[0] && s[i + 1..] == parts[1];
    assert SoleDashAt(s, i);
  }

  /** A string with a single `-`, at index `i`, splits into the text before it and the text after it. */
  lemma SplitAtSoleDash(s: string, i: nat)
    requires SoleDashAt(s, i)
    ensures Split(s, '-') == [s[..i], s[i + 1..]]
  {
    assert s == s[..i] + ['-'] + s[i + 1..];
    SplitAroundSeparator(s[..i], s[i + 1..], '-');
  }

  /** Without exactly one `-`, the split does not give two parts and the result is the range error. */
  lemma RejectsWrongDashCount(s: string)
    requires CountOf(s, '-') != 1
    ensures PortsOf(s) == Err(InvalidRange(s))
  {
  }

  /** With one `-`, a side that Atoi refuses (empty, non-digits, a sign alone) gives the numbers error. */
  lemma RejectsMalformedNumber(s: string, i: nat)
    requires SoleDashAt(s, i)
    requires !IsDecimal(s[..i]) || !IsDecimal(s[i + 1..])
    ensures PortsOf(s) == Err(InvalidNumbers(s))
  {
    SplitAtSoleDash(s, i);
  }

  /**
   * With one `-` and two integers on its sides, parsing succeeds exactly
   * when `1 <= a <= b <= 65535`, and then yields `a..b`; otherwise it is
   * the numbers error.
   */
  lemma AcceptsExactlyValidBounds(s: string, i: nat, a: int, b: int)
    requires RangeFields(s, i, a, b)
    ensures PortsOf(s) == if MinPort <= a <= b <= MaxPort then Ok(Range(a, b)) else Err(InvalidNumbers(s))
  {
    SplitAtSoleDash(s, i);
  }

  /** Every accepted input has the shape `a-b` with valid bounds, and its ports are `a..b`. */
  lemma AcceptedHasFields(s: string)
    requires PortsOf(s).Ok?
    ensures exists i: nat, a: int, b: int ::
      RangeFields(s, i, a, b) && MinPort <= a <= b <= MaxPort && PortsOf(s).value == Range(a, b)
  {
    var parts := Split(s, '-');
    JoinOfSplit(s, '-');
    var i := |parts[0]|;
    assert s == parts[0] + "-" + parts[1];
    assert s[..i] == parts[0] && s[i + 1..] == parts[1];
    var (a, b) := Bounds(s).value;
    assert RangeFields(s, i, a, b);
  }

  /** For every valid range, its plain decimal spelling `"<a>-<b>"` is accepted and yields `a..b`. */
  lemma AcceptsDecimalRange(a: int, b: int)
    requires MinPort <= a <= b <= MaxPort
    ensures PortsOf(FormatInt(a) + "-" + FormatInt(b)) == Ok(Range(a, b))
  {
    var left, right := FormatInt(a), FormatInt(b);
    var s := left + "-" + right;
    var i := |left|;
    assert s[..i] == left && s[i + 1..] == right;
    assert '-' !in left && '-' !in right by {
      assert forall k :: 0 <= k < |left| ==> IsDigit(left[k]);
      assert forall k :: 0 <= k < |right| ==> IsDigit(right[k]);
    }
    AtoiOfFormatInt(a);
    AtoiOfFormatInt(b);
    AcceptsExactlyValidBounds(s, i, a, b);
  }

  /**
   * An accepted range is a non-empty run of consecutive ports inside
   * 1..65535: `end - start + 1` ports from `start` to `end`, strictly
   * ascending, hence without duplicates.
   */
  lemma AcceptedPortsWellFormed(s: string)
    requires PortsOf(s).Ok?
    ensures var ps := PortsOf(s).value;
      var (lo, hi) := Bounds(s).value;
      |ps| == hi - lo + 1 && ps[0] == lo && ps[|ps| - 1] == hi &&
      (forall k :: 0 <= k < |ps| ==> MinPort <= ps[k] <= MaxPort) &&
      (forall k :: 0 < k < |ps| ==> ps[k] == ps[k - 1] + 1) &&
      (forall j, k :: 0 <= j < k < |ps| ==> ps[j] < ps[k])
  {
  }

  /** The two error messages differ whatever inputs they carry. */
  lemma MessagesDiffer(s: string, t: string)
    ensures Message(InvalidRange(s)) != Message(InvalidNumbers(t))
  {
    assert Message(InvalidRange(s))[13] == 'r';
    assert Message(InvalidNumbers(t))[13] == 'n';
  }

  /** The error text names the kind of error and the input: different errors never share a message. */
  lemma MessageInjective(e1: PortsError, e2: PortsError)
    requires Message(e1) == Message(e2)
    ensures e1 == e2
  {
    if e1.InvalidRange? != e2.InvalidRange? {
      if e1.InvalidRange? { MessagesDiffer(e1.input, e2.input); } else { MessagesDiffer(e2.input, e1.input); }
    } else {
      var n := if e1.InvalidRange? then |"invalid port range: "| else |"invalid port numbers: "|;
      assert e1.input == Message(e1)[n..];
      assert e2.input == Message(e2)[n..];
    }
  }

  /** The parse of `left + "-" + right` when neither side holds a `-` and Atoi reads `a` and `b` from them. */
  lemma ParseOfFields(left: string, right: string, a: int, b: int)
    requires '-' !in left && '-' !in right
    requires Atoi(left) == Some(a) && Atoi(right) == Some(b)
    ensures PortsOf(left + "-" + right) ==
      if MinPort <= a <= b <= MaxPort then Ok(Range(a, b)) else Err(InvalidNumbers(left + "-" + right))
  {
    var s := left + "-" + right;
    assert s[..|left|] == left && s[|left| + 1..] == right;
    AcceptsExactlyValidBounds(s, |left|, a, b);
  }

  /** A single-port range is accepted and yields that one port. */
  lemma SinglePortRange()
    ensures PortsOf("22-22") == Ok([22])
  {
    assert Atoi("22") == Some(22);
    ParseOfFields("22", "22", 22, 22);
    assert "22" + "-" + "22" == "22-22";
    assert Range(22, 22) == [22];
  }

  /** A start below 1 is refused. */
  lemma RejectsStartBelowOne()
    ensures PortsOf("0-100") == Err(InvalidNumbers("0-100"))
  {
    assert Atoi("0") == Some(0);
    assert Atoi("100") == Some(100);
    ParseOfFields("0", "100", 0, 100);
    assert "0" + "-" + "100" == "0-100";
  }

  /** An end above 65535 is refused. */
  lemma RejectsEndAboveMax()
    ensures PortsOf("1-65536") == Err(InvalidNumbers("1-65536"))
  {
    assert Atoi("1") == Some(1);
    assert Atoi("65536") == Some(65536);
    ParseOfFields("1", "65536", 1, 65536);
    assert "1" + "-" + "65536" == "1-65536";
  }

  /** A start above the end is refused. */
  lemma RejectsStartAboveEnd()
    ensures PortsOf("80-20") == Err(InvalidNumbers("80-20"))
  {
    assert Atoi("80") == Some(80);
    assert Atoi("20") == Some(20);
    ParseOfFields("80", "20", 80, 20);
    assert "80" + "-" + "20" == "80-20";
  }

  /** A `+` sign survives the split and Atoi accepts it. */
  lemma AcceptsPlusSign()
    ensures PortsOf("+5-10") == Ok(Range(5, 10))
  {
    assert Atoi("10") == Some(10);
    assert Atoi("+5") == Some(5);
    ParseOfFields("+5", "10", 5, 10);
    assert "+5" + "-" + "10" == "+5-10";
  }

  /** Leading zeros are accepted. */
  lemma AcceptsLeadingZeros()
    ensures PortsOf("08-010") == Ok(Range(8, 10))
  {
    assert Atoi("08") == Some(8);
    assert Atoi("010") == Some(10);
    ParseOfFields("08", "010", 8, 10);
    assert "08" + "-" + "010" == "08-010";
  }

  /** The empty string, a lone `-` and two dashes show the two errors on degenerate inputs. */
  lemma RejectsDegenerate()
    ensures PortsOf("") == Err(InvalidRange(""))
    ensures PortsOf("-") == Err(InvalidNumbers("-"))
    ensures PortsOf("1-2-3") == Err(InvalidRange("1-2-3"))
  {
    RejectsMalformedNumber("-", 0);
    assert CountOf("1-2-3", '-') == 2;
  }
}
