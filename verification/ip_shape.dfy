/**
 * The shape check applied to the ip field of a line: the three counters the
 * scan keeps (`pointCnt`, `digPart`, `afterPoint`) and what they amount to,
 * stated over the field's dot-separated segments.
 */
module IpShape {
  import opened JavaText

  /** A digit the scan counts: ASCII '1' through '9'. */
  predicate IsNonZeroDigit(c: char) {
    IsAsciiNumeric(c) && c > '0'
  }

  predicate HasNonZeroDigit(part: string) {
    exists k :: 0 <= k < |part| && IsNonZeroDigit(part[k])
  }

  predicate DotFree(parts: seq<string>) {
    forall i :: 0 <= i < |parts| ==> '.' !in parts[i]
  }

  /** The segments glued back together with '.' between them. */
  function Join(parts: seq<string>): string
    requires |parts| >= 1
  {
    if |parts| == 1 then parts[0]
    else Join(parts[..|parts| - 1]) + "." + parts[|parts| - 1]
  }

  /** The dot-separated segments of `s`, empty ones included: "1..2" has three. */
  function Split(s: string): (parts: seq<string>)
    ensures |parts| == Count(s, '.') + 1
    ensures DotFree(parts)
  {
    if |s| == 0 then [""]
    else
      var init := Split(s[..|s| - 1]);
      var c := s[|s| - 1];
      assert s == s[..|s| - 1] + [c];
      if c == '.' then
        var parts := init + [""];
        assert parts[..|parts| - 1] == init;
        parts
      else
        var m := |init|;
        var parts := init[..m - 1] + [init[m - 1] + [c]];
        assert parts[..|parts| - 1] == init[..m - 1];
        assert '.' !in init[m - 1] + [c];
        assert m > 1 ==> init[..m - 1][..m - 2] == init[..m - 2];
        parts
  }

  lemma JoinFour(a: string, b: string, c: string, d: string)
    ensures Join([a, b, c, d]) == a + "." + b + "." + c + "." + d
  {
    var parts := [a, b, c, d];
    assert parts[..3] == [a, b, c];
    assert [a, b, c][..2] == [a, b];
    assert [a, b][..1] == [a];
    assert Join([a]) == a;
    assert Join([a, b]) == a + "." + b;
    assert Join([a, b, c]) == Join([a, b]) + "." + c;
    assert Join(parts) == Join([a, b, c]) + "." + d;
  }

  lemma DotFreeInit(parts: seq<string>)
    requires |parts| >= 1 && DotFree(parts)
    ensures DotFree(parts[..|parts| - 1]) && '.' !in parts[|parts| - 1]
  {
    assert forall i :: 0 <= i < |parts| - 1 ==> parts[..|parts| - 1][i] == parts[i];
  }

  /** Splitting what was joined gives back the segments. */
  lemma {:induction false} SplitJoin(parts: seq<string>)
    requires |parts| >= 1 && DotFree(parts)
    ensures Split(Join(parts)) == parts
    decreases |parts|
  {
    if |parts| == 1 {
      SplitDotFree(parts[0]);
    } else {
      var init, last := parts[..|parts| - 1], parts[|parts| - 1];
      DotFreeInit(parts);
      SplitJoin(init);
      var j := Join(init);
      assert Join(parts) == j + "." + last;
      SplitAppendPart(j, last);
      assert init + [last] == parts;
    }
  }

  lemma {:induction false} SplitDotFree(y: string)
    requires '.' !in y
    ensures Split(y) == [y]
    decreases |y|
  {
    if |y| > 0 {
      var y', c := y[..|y| - 1], y[|y| - 1];
      assert y == y' + [c];
      SplitDotFree(y');
      SplitExtendLast(y', c);
    }
  }

  /** Joining the segments gives back the field. */
  lemma {:induction false} JoinSplit(s: string)
    ensures Join(Split(s)) == s
    decreases |s|
  {
    if |s| > 0 {
      var s', c := s[..|s| - 1], s[|s| - 1];
      assert s == s' + [c];
      JoinSplit(s');
      var init := Split(s');
      if c == '.' {
        var parts := init + [""];
        assert parts[..|parts| - 1] == init;
      } else {
        SplitExtendLast(s', c);
        var m := |init|;
        var parts := init[..m - 1] + [init[m - 1] + [c]];
        assert parts[..|parts| - 1] == init[..m - 1];
        if m > 1 {
          assert init[..m - 1] == init[..|init| - 1];
        }
      }
    }
  }

  /** A character other than '.' extends the last segment. */
  lemma SplitExtendLast(s: string, c: char)
    requires c != '.'
    ensures var init := Split(s); Split(s + [c]) == init[..|init| - 1] + [init[|init| - 1] + [c]]
  {
    assert (s + [c])[..|s|] == s;
  }

  /** A '.' opens a new, empty segment. */
  lemma SplitAtDot(s: string)
    ensures Split(s + ['.']) == Split(s) + [""]
  {
    assert (s + ['.'])[..|s|] == s;
  }

  lemma {:induction false} SplitAppendPart(x: string, y: string)
    requires '.' !in y
    ensures Split(x + "." + y) == Split(x) + [y]
    decreases |y|
  {
    if |y| == 0 {
      SplitAtDot(x);
      assert x + "." + y == x + ['.'];
    } else {
      var y', c := y[..|y| - 1], y[|y| - 1];
      assert x + "." + y == (x + "." + y') + [c];
      SplitAppendPart(x, y');
      SplitExtendLast(x + "." + y', c);
      assert y == y' + [c];
    }
  }

  /** The number of segments holding a counted digit. */
  function WithDigit(parts: seq<string>): (n: nat)
    ensures n <= |parts|
    ensures n == |parts| <==> forall i :: 0 <= i < |parts| ==> HasNonZeroDigit(parts[i])
  {
    if |parts| == 0 then 0
    else
      var init := parts[..|parts| - 1];
      assert forall i :: 0 <= i < |init| ==> init[i] == parts[i];
      WithDigit(init) + (if HasNonZeroDigit(parts[|parts| - 1]) then 1 else 0)
  }

  /** An ip field the parser accepts: exactly four segments, each holding a digit '1'..'9'. */
  predicate ValidIpShape(field: string) {
    var parts := Split(field);
    |parts| == 4 && forall i :: 0 <= i < |parts| ==> HasNonZeroDigit(parts[i])
  }

  /** The counters of the ip scan. */
  datatype ScanState = ScanState(pointCnt: nat, digPart: nat, afterPoint: bool)

  const Start := ScanState(0, 0, true)

  /** One iteration of the ip scan: a counted digit clears `afterPoint`, a '.' sets it. */
  function Step(st: ScanState, c: char): ScanState {
    if IsAsciiNumeric(c) && st.afterPoint && c > '0' then
      st.(digPart := st.digPart + 1, afterPoint := false)
    else if c == '.' then
      st.(pointCnt := st.pointCnt + 1, afterPoint := true)
    else
      st
  }

  /**
   * The counters after scanning all of `s`. A segment contributes at most one
   * count, so `digPart` never exceeds the number of segments, and it is below
   * it while the current segment has not contributed yet.
   */
  function Scan(s: string): (r: ScanState)
    ensures r.pointCnt == Count(s, '.')
    ensures r.digPart <= r.pointCnt + 1
    ensures r.afterPoint ==> r.digPart <= r.pointCnt
  {
    if |s| == 0 then Start
    else Step(Scan(s[..|s| - 1]), s[|s| - 1])
  }

  lemma HasNonZeroDigitAppend(part: string, c: char)
    ensures HasNonZeroDigit(part + [c]) <==> HasNonZeroDigit(part) || IsNonZeroDigit(c)
  {
    var p := part + [c];
    if HasNonZeroDigit(p) && !IsNonZeroDigit(c) {
      var k :| 0 <= k < |p| && IsNonZeroDigit(p[k]);
      assert k < |part| && part[k] == p[k];
    }
    if HasNonZeroDigit(part) {
      var k :| 0 <= k < |part| && IsNonZeroDigit(part[k]);
      assert p[k] == part[k];
    }
    if IsNonZeroDigit(c) {
      assert p[|part|] == c;
    }
  }

  /**
   * The scan's counters describe the segments of what it has read: `pointCnt`
   * is one less than the number of segments, `digPart` counts the segments
   * holding a digit '1'..'9', and `afterPoint` says the last segment holds none.
   */
  lemma {:induction false} ScanTracksSegments(s: string)
    ensures Scan(s).pointCnt == |Split(s)| - 1
    ensures Scan(s).digPart == WithDigit(Split(s))
    ensures Scan(s).afterPoint <==> !HasNonZeroDigit(Split(s)[|Split(s)| - 1])
    decreases |s|
  {
    if |s| > 0 {
      var init := s[..|s| - 1];
      var c := s[|s| - 1];
      ScanTracksSegments(init);
      var parts := Split(init);
      var m := |parts|;
      if c == '.' {
        assert Split(s) == parts + [""];
        assert (parts + [""])[..m] == parts;
      } else {
        var last := parts[m - 1];
        var now := parts[..m - 1] + [last + [c]];
        assert Split(s) == now;
        assert now[..m - 1] == parts[..m - 1];
        HasNonZeroDigitAppend(last, c);
        assert WithDigit(parts) == WithDigit(parts[..m - 1]) + (if HasNonZeroDigit(last) then 1 else 0);
      }
    }
  }

  /**
   * The acceptance test on the counters, `pointCnt == 3 && digPart == 4`, holds
   * exactly when the field is four dot-separated segments each holding a digit
   * '1'..'9'.
   */
  lemma CountersAcceptIff(field: string)
    ensures (Scan(field).pointCnt == 3 && Scan(field).digPart == 4) <==> ValidIpShape(field)
  {
    ScanTracksSegments(field);
  }

  /** The accepted fields, described without `Split`: four dot-free segments joined by dots. */
  lemma ValidIpShapeIff(field: string)
    ensures ValidIpShape(field) <==>
      exists parts :: |parts| == 4 && DotFree(parts) && Join(parts) == field &&
        forall i :: 0 <= i < 4 ==> HasNonZeroDigit(parts[i])
  {
    if exists parts :: |parts| == 4 && DotFree(parts) && Join(parts) == field &&
        forall i :: 0 <= i < 4 ==> HasNonZeroDigit(parts[i]) {
      var parts :| |parts| == 4 && DotFree(parts) && Join(parts) == field &&
        forall i :: 0 <= i < 4 ==> HasNonZeroDigit(parts[i]);
      SplitJoin(parts);
    }
    JoinSplit(field);
  }
}
