/**
 * The pieces of java.lang.String, java.lang.Integer and commons-lang
 * `CharUtils` that the ingestion code relies on, restated over Dafny strings.
 * A Java `char[]` is modelled as the `string` it came from.
 */
module JavaText {
  import opened Wrappers

  /** `CharUtils.isAsciiNumeric`: the characters '0' through '9'. */
  predicate IsAsciiNumeric(c: char) {
    '0' <= c <= '9'
  }

  /** The characters `String.trim` strips: every character up to and including the space. */
  predicate IsBlank(c: char) {
    c <= ' '
  }

  predicate AllBlank(s: string) {
    forall k :: 0 <= k < |s| ==> IsBlank(s[k])
  }

  /** Number of occurrences of `c` in `s`. */
  function Count(s: string, c: char): (n: nat)
    ensures n <= |s|
    ensures n == 0 <==> c !in s
  {
    if |s| == 0 then 0
    else Count(s[..|s| - 1], c) + (if s[|s| - 1] == c then 1 else 0)
  }

  /** `s.indexOf(c, from)`: the first position at or after `from` holding `c`. */
  function IndexOf(s: string, c: char, from: nat): (r: Option<nat>)
    ensures r.Some? ==> from <= r.value < |s| && s[r.value] == c
    ensures r.Some? ==> forall k :: from <= k < r.value ==> s[k] != c
    ensures r.None? ==> forall k :: from <= k < |s| ==> s[k] != c
    decreases |s| - from
  {
    if from >= |s| then None
    else if s[from] == c then Some(from)
    else IndexOf(s, c, from + 1)
  }

  /** The first `c` at or after `from` is the one `IndexOf` finds. */
  lemma IndexOfFinds(s: string, c: char, from: nat, i: nat)
    requires from <= i < |s| && s[i] == c
    requires forall k :: from <= k < i ==> s[k] != c
    ensures IndexOf(s, c, from) == Some(i)
  {
  }

  /** Searching from the end of `pre` finds the `c` that follows a stretch without `c`. */
  lemma IndexOfPast(pre: string, mid: string, c: char, post: string)
    requires c !in mid
    ensures IndexOf(pre + mid + [c] + post, c, |pre|) == Some(|pre| + |mid|)
  {
    var s := pre + mid + [c] + post;
    assert forall k :: |pre| <= k < |pre| + |mid| ==> s[k] == mid[k - |pre|];
    IndexOfFinds(s, c, |pre|, |pre| + |mid|);
  }

  lemma AbsentBetween(s: string, c: char, from: nat, to: nat)
    requires from <= to <= |s|
    requires forall k :: from <= k < to ==> s[k] != c
    ensures c !in s[from..to]
  {
    assert forall k :: 0 <= k < to - from ==> s[from..to][k] == s[from + k];
  }

  /** `s.lastIndexOf(c)`: the last position holding `c`, or -1 when there is none. */
  function LastIndexOf(s: string, c: char): (r: int)
    ensures -1 <= r < |s|
    ensures r == -1 <==> c !in s
    ensures 0 <= r ==> s[r] == c && forall k :: r < k < |s| ==> s[k] != c
  {
    if |s| == 0 then -1
    else if s[|s| - 1] == c then |s| - 1
    else
      assert s == s[..|s| - 1] + [s[|s| - 1]];
      LastIndexOf(s[..|s| - 1], c)
  }

  /** A position holding `c` with no `c` after it is the last one. */
  lemma LastIndexOfAt(s: string, c: char, i: nat)
    requires i < |s| && s[i] == c
    requires forall k :: i < k < |s| ==> s[k] != c
    ensures LastIndexOf(s, c) == i
  {
  }

  /** `s.endsWith(suffix)`, which is case-sensitive. */
  predicate EndsWith(s: string, suffix: string) {
    |suffix| <= |s| && s[|s| - |suffix|..] == suffix
  }

  /** `String.trim`: drops every leading and trailing character at or below the space. */
  function Trim(s: string): (r: string)
    ensures |r| <= |s|
    ensures r == [] || (!IsBlank(r[0]) && !IsBlank(r[|r| - 1]))
    ensures r == [] ==> AllBlank(s)
    ensures multiset(r) <= multiset(s)
  {
    var st := TrimStart(s, 0);
    var len := TrimEnd(s, st, |s|);
    SliceFacts(s, st, len);
    s[st..len]
  }

  /** A slice takes its characters from the string, first and last included. */
  lemma SliceFacts(s: string, st: nat, len: nat)
    requires st <= len <= |s|
    ensures multiset(s[st..len]) <= multiset(s)
    ensures st < len ==> s[st..len][0] == s[st] && s[st..len][len - st - 1] == s[len - 1]
  {
    assert s == s[..st] + s[st..len] + s[len..];
  }

  /** `st` stops at the first non-blank at or after where it starts. */
  lemma TrimStartAt(s: string, st: nat, i: nat)
    requires st <= i <= |s|
    requires forall k :: st <= k < i ==> IsBlank(s[k])
    requires i < |s| ==> !IsBlank(s[i])
    ensures TrimStart(s, st) == i
  {
  }

  /** `len` stops just past the last non-blank before where it starts, and not below `st`. */
  lemma TrimEndAt(s: string, st: nat, len: nat, i: nat)
    requires st <= i <= len <= |s|
    requires forall k :: i <= k < len ==> IsBlank(s[k])
    requires i > st ==> !IsBlank(s[i - 1])
    ensures TrimEnd(s, st, len) == i
  {
  }

  /** The first loop of `trim`: `st` moves past the leading blanks. */
  function TrimStart(s: string, st: nat): (r: nat)
    requires st <= |s|
    ensures st <= r <= |s|
    ensures forall k :: st <= k < r ==> IsBlank(s[k])
    ensures r < |s| ==> !IsBlank(s[r])
    decreases |s| - st
  {
    if st < |s| && IsBlank(s[st]) then TrimStart(s, st + 1) else st
  }

  /** The second loop of `trim`: `len` moves back over the trailing blanks, never below `st`. */
  function TrimEnd(s: string, st: nat, len: nat): (r: nat)
    requires st <= len <= |s|
    ensures st <= r <= len
    ensures forall k :: r <= k < len ==> IsBlank(s[k])
    ensures r > st ==> !IsBlank(s[r - 1])
    decreases len
  {
    if st < len && IsBlank(s[len - 1]) then TrimEnd(s, st, len - 1) else len
  }

  /** A string of blanks trims to nothing. */
  lemma TrimAllBlank(s: string)
    requires AllBlank(s)
    ensures Trim(s) == []
  {
  }

  /** Trim removes exactly the blank margins around a core that starts and ends with a non-blank. */
  lemma TrimPadded(before: string, core: string, after: string)
    requires AllBlank(before) && AllBlank(after)
    requires core == [] || (!IsBlank(core[0]) && !IsBlank(core[|core| - 1]))
    ensures Trim(before + core + after) == core
  {
    var s := before + core + after;
    var i, j := |before|, |before| + |core|;
    assert forall k :: 0 <= k < i ==> s[k] == before[k];
    assert forall k :: j <= k < |s| ==> s[k] == after[k - j];
    if core == [] {
      TrimStartAt(s, 0, |s|);
      TrimEndAt(s, |s|, |s|, |s|);
    } else {
      assert s[i] == core[0] && s[j - 1] == core[|core| - 1];
      TrimStartAt(s, 0, i);
      TrimEndAt(s, i, |s|, j);
      assert s[i..j] == core;
    }
  }

  /** Trimming twice is trimming once. */
  lemma TrimIdempotent(s: string)
    ensures Trim(Trim(s)) == Trim(s)
  {
    var r := Trim(s);
    assert r == [] + r + [];
    TrimPadded([], r, []);
  }

  // ---- Integer.parseInt(String) in radix 10 ----

  const IntMin: int := -0x8000_0000
  const IntMax: int := 0x7fff_ffff

  /** The range of a Java `int`. */
  predicate IsInt32(n: int) {
    IntMin <= n <= IntMax
  }

  predicate AllDigits(s: string) {
    forall k :: 0 <= k < |s| ==> IsAsciiNumeric(s[k])
  }

  function DigitValue(c: char): nat
    requires IsAsciiNumeric(c)
  {
    c as int - '0' as int
  }

  /** The value of a string of decimal digits, most significant first. */
  function DigitsValue(ds: string): nat
    requires AllDigits(ds)
  {
    if |ds| == 0 then 0
    else DigitsValue(ds[..|ds| - 1]) * 10 + DigitValue(ds[|ds| - 1])
  }

  /**
   * `Integer.parseInt(s)`: an optional leading '-' or '+', then at least one
   * decimal digit, with the value inside the `int` range; anything else throws
   * `NumberFormatException`, modelled as `None`.
   */
  function ParseInt(s: string): (r: Option<int>)
    ensures r.Some? ==> IsInt32(r.value)
    ensures r.Some? ==> |s| > 0 && (s[0] == '-' || s[0] == '+' || IsAsciiNumeric(s[0]))
    ensures r.Some? && r.value < 0 ==> s[0] == '-'
  {
    if |s| == 0 then None
    else
      var signed := s[0] == '-' || s[0] == '+';
      var digits := if signed then s[1..] else s;
      if |digits| == 0 || !AllDigits(digits) then None
      else
        var magnitude: int := DigitsValue(digits);
        var v := if s[0] == '-' then -magnitude else magnitude;
        if IsInt32(v) then Some(v) else None
  }

  /** Decimal digits of `n`, no leading zero: the digit part of `Integer.toString`. */
  function Digits(n: nat): (ds: string)
    ensures |ds| > 0 && AllDigits(ds)
    ensures DigitsValue(ds) == n
    ensures ds[0] != '0' || n == 0
  {
    var last := ('0' as int + n % 10) as char;
    if n < 10 then [last]
    else
      var init := Digits(n / 10);
      var ds := init + [last];
      assert ds[..|ds| - 1] == init;
      ds
  }

  /** `Integer.toString(n)`. */
  function FormatInt(n: int): string {
    if n < 0 then "-" + Digits(-n) else Digits(n)
  }

  /** Every Java `int` survives printing and parsing back. */
  lemma ParseFormatRoundTrip(n: int)
    requires IsInt32(n)
    ensures ParseInt(FormatInt(n)) == Some(n)
  {
    if n < 0 {
      var s := FormatInt(n);
      assert s[1..] == Digits(-n);
    }
  }

  /** Leading zeros are accepted and do not change the value. */
  lemma {:induction false} LeadingZeros(zeros: string, ds: string)
    requires forall k :: 0 <= k < |zeros| ==> zeros[k] == '0'
    requires AllDigits(ds)
    ensures AllDigits(zeros + ds)
    ensures DigitsValue(zeros + ds) == DigitsValue(ds)
    decreases |ds|, |zeros|
  {
    var s := zeros + ds;
    if |ds| > 0 {
      assert s[..|s| - 1] == zeros + ds[..|ds| - 1];
      LeadingZeros(zeros, ds[..|ds| - 1]);
    } else if |zeros| > 0 {
      assert s == zeros;
      assert s[..|s| - 1] == zeros[..|zeros| - 1] + ds;
      LeadingZeros(zeros[..|zeros| - 1], ds);
    } else {
      assert s == [];
    }
  }

  predicate AllZeros(s: string) {
    forall k :: 0 <= k < |s| ==> s[k] == '0'
  }

  /** A sign `Integer.parseInt` accepts in front of the digits: none, '+', or '-'. */
  predicate IsSign(sign: string) {
    sign == "" || sign == "+" || sign == "-"
  }

  lemma DigitsOne(d: nat)
    requires d < 10
    ensures Digits(d) == [('0' as int + d) as char]
  {
  }

  /** One more digit after a positive value appends that digit. */
  lemma DigitsSnoc(n: nat, d: nat)
    requires n > 0 && d < 10
    ensures Digits(n * 10 + d) == Digits(n) + [('0' as int + d) as char]
  {
    var m := n * 10 + d;
    assert m / 10 == n && m % 10 == d;
  }

  /** Every digit string is some leading zeros followed by the canonical digits of its value. */
  lemma {:induction false} DigitsCanonical(ds: string) returns (zeros: string)
    requires |ds| > 0 && AllDigits(ds)
    ensures AllZeros(zeros)
    ensures ds == zeros + Digits(DigitsValue(ds))
    decreases |ds|
  {
    var init, c := ds[..|ds| - 1], ds[|ds| - 1];
    var d := DigitValue(c);
    assert ds == init + [c] && ('0' as int + d) as char == c;
    assert DigitsValue(ds) == DigitsValue(init) * 10 + d;
    if |init| == 0 {
      zeros := [];
    } else {
      assert AllDigits(init) by {
        assert forall k :: 0 <= k < |init| ==> init[k] == ds[k];
      }
      var z := DigitsCanonical(init);
      var n := DigitsValue(init);
      if n == 0 {
        zeros := z + "0";
        assert Digits(DigitsValue(ds)) == [c] by {
          DigitsOne(d);
        }
        assert init == zeros by {
          assert Digits(0) == "0";
        }
      } else {
        zeros := z;
        assert Digits(DigitsValue(ds)) == Digits(n) + [c] by {
          DigitsSnoc(n, d);
        }
      }
    }
  }

  /**
   * What `Integer.parseInt` accepts is exactly a sign, leading zeros and the
   * canonical digits of the magnitude, where '-' goes with a value that is
   * not positive. Any other text throws.
   */
  lemma ParseIntShape(s: string) returns (sign: string, zeros: string)
    requires ParseInt(s).Some?
    ensures IsSign(sign) && (sign == "-" ==> ParseInt(s).value <= 0) && (sign != "-" ==> ParseInt(s).value >= 0)
    ensures AllZeros(zeros)
    ensures s == sign + zeros + Digits(if ParseInt(s).value < 0 then -ParseInt(s).value else ParseInt(s).value)
  {
    var digits;
    sign, digits := ParseIntParts(s);
    zeros := DigitsCanonical(digits);
    assert sign + digits == sign + zeros + Digits(DigitsValue(digits));
  }

  /** A successful `Integer.parseInt` splits its text into a sign and a digit run. */
  lemma ParseIntParts(s: string) returns (sign: string, digits: string)
    requires ParseInt(s).Some?
    ensures IsSign(sign) && s == sign + digits
    ensures |digits| > 0 && AllDigits(digits)
    ensures ParseInt(s).value == if sign == "-" then -(DigitsValue(digits) as int) else DigitsValue(digits)
  {
    var signed := s[0] == '-' || s[0] == '+';
    sign := if signed then s[..1] else "";
    digits := if signed then s[1..] else s;
    assert s == sign + digits;
  }

  /** A sign followed by a non-empty digit run parses to its signed value when that fits. */
  lemma ParseSignDigits(sign: string, digits: string)
    requires IsSign(sign) && |digits| > 0 && AllDigits(digits)
    ensures var v: int := if sign == "-" then -(DigitsValue(digits) as int) else DigitsValue(digits);
      ParseInt(sign + digits) == if IsInt32(v) then Some(v) else None
  {
    if sign == "" {
      assert sign + digits == digits;
      ParseUnsigned(digits);
    } else {
      ParseSigned(sign[0], digits);
      assert sign == [sign[0]];
    }
  }

  lemma ParseUnsigned(digits: string)
    requires |digits| > 0 && AllDigits(digits)
    ensures ParseInt(digits) == if IsInt32(DigitsValue(digits)) then Some(DigitsValue(digits)) else None
  {
    assert IsAsciiNumeric(digits[0]);
  }

  lemma ParseSigned(c: char, digits: string)
    requires (c == '-' || c == '+') && |digits| > 0 && AllDigits(digits)
    ensures var v: int := if c == '-' then -(DigitsValue(digits) as int) else DigitsValue(digits);
      ParseInt([c] + digits) == if IsInt32(v) then Some(v) else None
  {
    var s := [c] + digits;
    assert s[0] == c && s[1..] == digits;
  }

  /**
   * A sign, leading zeros and the canonical digits of `m` parse to the signed
   * value when it fits in an `int`, and throw otherwise.
   */
  lemma ParseIntCanonical(sign: string, zeros: string, m: nat)
    requires IsSign(sign) && AllZeros(zeros)
    ensures var v: int := if sign == "-" then -(m as int) else m;
      ParseInt(sign + zeros + Digits(m)) == if IsInt32(v) then Some(v) else None
  {
    var digits := zeros + Digits(m);
    LeadingZeros(zeros, Digits(m));
    ParseSignDigits(sign, digits);
    assert sign + zeros + Digits(m) == sign + digits;
  }
}
