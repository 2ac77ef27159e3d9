/**
 * `parseAndInsert`'s handling of one file: each line is scanned once, left to
 * right, for `<account>|<ip>|<ignored>`. A line either yields a record, is
 * skipped, or reads past the end of its character array, which throws and
 * aborts the whole run.
 */
module LineParser {
  import opened Wrappers
  import opened JavaText
  import opened IpShape

  /** An accepted line: the store key is `ip`, the value `account`. */
  datatype Record = Record(account: string, ip: string)

  /** `Crash` is the `ArrayIndexOutOfBoundsException` of a scan that finds no closing '|'. */
  datatype LineResult = Skip | Accept(rec: Record) | Crash

  /**
   * One line. The account ends at the first '|'; an empty account skips the
   * line. The ip field runs to the next '|' and is accepted when the scan
   * counts three dots and four counted digits. A missing separator crashes.
   */
  function ParseLine(line: string): LineResult {
    match IndexOf(line, '|', 0)
    case None => Crash
    case Some(accEnd) =>
      if accEnd == 0 then Skip
      else
        match IndexOf(line, '|', accEnd + 1)
        case None => Crash
        case Some(ipEnd) =>
          var field := line[accEnd + 1..ipEnd];
          var st := Scan(field);
          if accEnd == ipEnd || st.pointCnt != 3 || st.digPart != 4 then Skip
          else Accept(Record(Trim(line[..accEnd]), Trim(field)))
  }

  /** A counted digit is a character of the field. */
  lemma {:induction false} CountedDigitIn(s: string)
    requires Scan(s).digPart > 0
    ensures exists k :: 0 <= k < |s| && IsNonZeroDigit(s[k])
    decreases |s|
  {
    var init := s[..|s| - 1];
    if Scan(init).digPart > 0 {
      CountedDigitIn(init);
      var k :| 0 <= k < |init| && IsNonZeroDigit(init[k]);
      assert s[k] == init[k];
    } else {
      assert IsNonZeroDigit(s[|s| - 1]);
    }
  }

  lemma TrimKeepsOut(s: string, c: char)
    requires c !in s
    ensures c !in Trim(s)
  {
    assert multiset(s)[c] == 0;
  }

  lemma TrimNonBlank(s: string, k: nat)
    requires k < |s| && !IsBlank(s[k])
    ensures Trim(s) != []
  {
  }

  /** Where the two separators of an accepted line are, and what the line yields. */
  lemma AcceptedAt(line: string) returns (accEnd: nat, ipEnd: nat)
    requires ParseLine(line).Accept?
    ensures 0 < accEnd < ipEnd < |line|
    ensures '|' !in line[..accEnd] && '|' !in line[accEnd + 1..ipEnd]
    ensures Scan(line[accEnd + 1..ipEnd]).digPart == 4
    ensures ParseLine(line).rec == Record(Trim(line[..accEnd]), Trim(line[accEnd + 1..ipEnd]))
  {
    accEnd := IndexOf(line, '|', 0).value;
    ipEnd := IndexOf(line, '|', accEnd + 1).value;
    ParseLineAt(line, accEnd, ipEnd);
    AbsentBetween(line, '|', 0, accEnd);
    AbsentBetween(line, '|', accEnd + 1, ipEnd);
  }

  /**
   * The fields of an accepted line hold no '|', and the ip is never empty
   * after trimming (it holds a digit), though the account may be.
   */
  lemma AcceptedFields(line: string)
    requires ParseLine(line).Accept?
    ensures '|' !in ParseLine(line).rec.account && '|' !in ParseLine(line).rec.ip
    ensures ParseLine(line).rec.ip != []
  {
    var accEnd, ipEnd := AcceptedAt(line);
    var account, field := line[..accEnd], line[accEnd + 1..ipEnd];
    TrimKeepsOut(account, '|');
    TrimKeepsOut(field, '|');
    CountedDigitIn(field);
    var k :| 0 <= k < |field| && IsNonZeroDigit(field[k]);
    TrimNonBlank(field, k);
  }

  /**
   * The same line handled the way the source does it: two `while` loops over
   * the characters, the second keeping the three counters. A read at
   * `index == |line|` is where Java throws.
   */
  method ParseLineScan(line: string) returns (r: LineResult)
    ensures r == ParseLine(line)
  {
    var index := 0;
    while index < |line| && line[index] != '|'
      invariant 0 <= index <= |line|
      invariant forall k :: 0 <= k < index ==> line[k] != '|'
    {
      index := index + 1;
    }
    if index == |line| {
      return Crash;
    }
    var accEnd := index;
    IndexOfFinds(line, '|', 0, accEnd);
    if accEnd == 0 {
      return Skip;
    }
    var ipEnd, pointCnt, digPart, afterPoint := ScanIpField(line, accEnd + 1);
    if ipEnd == |line| {
      return Crash;
    }
    IndexOfFinds(line, '|', accEnd + 1, ipEnd);
    ParseLineAt(line, accEnd, ipEnd);
    if accEnd == ipEnd || pointCnt != 3 || digPart != 4 {
      return Skip;
    }
    var account := Trim(line[..accEnd]);
    var ip := Trim(line[accEnd + 1..ipEnd]);
    return Accept(Record(account, ip));
  }

  /**
   * The second loop: from `from`, up to the next '|' or the end of the line,
   * counting dots and the segments' first digits '1'..'9'.
   */
  method ScanIpField(line: string, from: nat) returns (index: nat, pointCnt: nat, digPart: nat, afterPoint: bool)
    requires from <= |line|
    ensures from <= index <= |line| && (index < |line| ==> line[index] == '|')
    ensures forall k :: from <= k < index ==> line[k] != '|'
    ensures ScanState(pointCnt, digPart, afterPoint) == Scan(line[from..index])
  {
    index, pointCnt, digPart, afterPoint := from, 0, 0, true;
    while index < |line| && line[index] != '|'
      invariant from <= index <= |line|
      invariant forall k :: from <= k < index ==> line[k] != '|'
      invariant ScanState(pointCnt, digPart, afterPoint) == Scan(line[from..index])
    {
      ScanExtend(line, from, index);
      if IsAsciiNumeric(line[index]) && afterPoint && line[index] > '0' {
        digPart := digPart + 1;
        afterPoint := false;
      } else if line[index] == '.' {
        pointCnt := pointCnt + 1;
        afterPoint := true;
      }
      index := index + 1;
    }
  }

  /** Scanning one more character of a slice is one more `Step`. */
  lemma ScanExtend(line: string, from: nat, i: nat)
    requires from <= i < |line|
    ensures Scan(line[from..i + 1]) == Step(Scan(line[from..i]), line[i])
  {
    assert line[from..i + 1][..i - from] == line[from..i];
  }

  // ---- Which lines do what ----

  /** A line starting with '|' has an empty account and is skipped, whatever follows. */
  lemma LeadingBarSkips(rest: string)
    ensures ParseLine("|" + rest) == Skip
  {
    assert IndexOf("|" + rest, '|', 0) == Some(0);
  }

  /** A line without any '|', the empty line included, crashes the scan. */
  lemma NoBarCrashes(line: string)
    requires '|' !in line
    ensures ParseLine(line) == Crash
  {
  }

  /** A non-empty account followed by only one '|' crashes the scan of the ip field. */
  lemma OneBarCrashes(account: string, tail: string)
    requires account != [] && '|' !in account && '|' !in tail
    ensures ParseLine(account + "|" + tail) == Crash
  {
    var line := account + "|" + tail;
    assert line[|account|] == '|';
    IndexOfFinds(line, '|', 0, |account|);
    assert forall k :: |account| + 1 <= k < |line| ==> line[k] == tail[k - |account| - 1];
  }

  /**
   * A line with two separators is accepted exactly when its ip field has the
   * accepted shape, and then yields the trimmed account and ip; what follows
   * the second '|' plays no part.
   */
  lemma TwoBars(account: string, field: string, rest: string)
    requires account != [] && '|' !in account && '|' !in field
    ensures ParseLine(account + "|" + field + "|" + rest) ==
      if ValidIpShape(field) then Accept(Record(Trim(account), Trim(field))) else Skip
  {
    var line := account + "|" + field + "|" + rest;
    var accEnd, ipEnd := |account|, |account| + 1 + |field|;
    assert line == [] + account + ['|'] + (field + "|" + rest);
    IndexOfPast([], account, '|', field + "|" + rest);
    IndexOfPast(account + "|", field, '|', rest);
    assert line[..accEnd] == account;
    assert line[accEnd + 1..ipEnd] == field;
    ParseLineAt(line, accEnd, ipEnd);
    CountersAcceptIff(field);
  }

  /**
   * The verdict on a line whose first two separators are at `accEnd` and
   * `ipEnd`. The second search starts past `accEnd`, so `ipEnd` is always
   * larger and the test `accEnd == ipEnd` never decides anything: the verdict
   * rests on the two counters alone.
   */
  lemma ParseLineAt(line: string, accEnd: nat, ipEnd: nat)
    requires 0 < accEnd && IndexOf(line, '|', 0) == Some(accEnd)
    requires IndexOf(line, '|', accEnd + 1) == Some(ipEnd)
    ensures accEnd < ipEnd
    ensures var st := Scan(line[accEnd + 1..ipEnd]);
      ParseLine(line) ==
        if st.pointCnt == 3 && st.digPart == 4
        then Accept(Record(Trim(line[..accEnd]), Trim(line[accEnd + 1..ipEnd])))
        else Skip
  {
  }

  /**
   * An empty ip field, two adjacent separators after a non-empty account, is
   * rejected whatever follows. The separators are found next to each other,
   * so the field between them is empty and its scan counts no dot.
   */
  lemma EmptyIpFieldRejected(account: string, rest: string)
    requires account != [] && '|' !in account
    ensures ParseLine(account + "||" + rest) == Skip
    ensures IndexOf(account + "||" + rest, '|', 0) == Some(|account|)
    ensures IndexOf(account + "||" + rest, '|', |account| + 1) == Some(|account| + 1)
  {
    var line := account + "||" + rest;
    assert line == [] + account + ['|'] + ("|" + rest);
    IndexOfPast([], account, '|', "|" + rest);
    assert line == (account + "|") + "" + ['|'] + rest;
    IndexOfPast(account + "|", "", '|', rest);
    TwoBars(account, "", rest);
    assert account + "|" + "" + "|" + rest == line;
    SplitDotFree("");
  }

  // ---- Worked lines ----

  /**
   * `alice|192.168.001.010|ignored` is accepted: leading zeros in a segment do
   * not matter as long as each segment has a digit '1'..'9'.
   */
  lemma ZeroPaddedIpAccepted(account: string, field: string, rest: string)
    requires account == "alice" && field == "192.168.001.010" && rest == "ignored"
    ensures ParseLine(account + "|" + field + "|" + rest) == Accept(Record(account, field))
  {
    ZeroPaddedShape(field);
    TwoBars(account, field, rest);
    TrimUnpadded(account);
    TrimUnpadded(field);
  }

  /** `bob|10.0.0.1|x` is rejected: a segment made only of zeros has no counted digit. */
  lemma ZeroSegmentRejected(account: string, field: string, rest: string)
    requires account == "bob" && field == "10.0.0.1" && rest == "x"
    ensures ParseLine(account + "|" + field + "|" + rest) == Skip
  {
    var parts := ["10", "0", "0", "1"];
    JoinFour(parts[0], parts[1], parts[2], parts[3]);
    assert Join(parts) == field;
    assert DotFree(parts);
    SplitJoin(parts);
    assert !HasNonZeroDigit(parts[1]);
    TwoBars(account, field, rest);
  }

  /** `bob|999|x` is rejected: its field has no dot. */
  lemma DotlessFieldRejected(account: string, field: string, rest: string)
    requires account == "bob" && field == "999" && rest == "x"
    ensures ParseLine(account + "|" + field + "|" + rest) == Skip
  {
    SplitDotFree(field);
    TwoBars(account, field, rest);
  }

  /**
   * A blank account, such as the two spaces of `  |1.1.1.1|`, passes the
   * `accEnd == 0` test and trims to "".
   */
  lemma BlankAccountAccepted(account: string, field: string, rest: string)
    requires account != [] && AllBlank(account)
    requires field == "1.1.1.1"
    ensures ParseLine(account + "|" + field + "|" + rest) == Accept(Record("", field))
  {
    OnesShape(field);
    TwoBars(account, field, rest);
    TrimAllBlank(account);
  }

  lemma OnesShape(field: string)
    requires field == "1.1.1.1"
    ensures ValidIpShape(field) && Trim(field) == field
  {
    var parts := ["1", "1", "1", "1"];
    JoinFour(parts[0], parts[1], parts[2], parts[3]);
    assert forall i :: 0 <= i < 4 ==> IsNonZeroDigit(parts[i][0]);
    FourSegments(parts, field);
    TrimUnpadded(field);
  }

  lemma ZeroPaddedShape(field: string)
    requires field == "192.168.001.010"
    ensures ValidIpShape(field)
  {
    var parts := ["192", "168", "001", "010"];
    JoinFour(parts[0], parts[1], parts[2], parts[3]);
    assert IsNonZeroDigit(parts[0][0]) && IsNonZeroDigit(parts[1][0]);
    assert IsNonZeroDigit(parts[2][2]) && IsNonZeroDigit(parts[3][1]);
    FourSegments(parts, field);
  }

  /** Four dot-free segments, each with a counted digit, joined by dots make an accepted field. */
  lemma FourSegments(parts: seq<string>, field: string)
    requires |parts| == 4 && DotFree(parts) && Join(parts) == field
    requires forall i :: 0 <= i < 4 ==> HasNonZeroDigit(parts[i])
    ensures ValidIpShape(field)
  {
    SplitJoin(parts);
  }

  lemma TrimUnpadded(s: string)
    requires s == [] || (!IsBlank(s[0]) && !IsBlank(s[|s| - 1]))
    ensures Trim(s) == s
  {
    TrimPadded([], s, []);
    assert [] + s + [] == s;
  }

  // ---- One file ----

  /** The verdict on each line of a file, in order. */
  function Classify(lines: seq<string>): (rs: seq<LineResult>)
    ensures |rs| == |lines|
    ensures forall i :: 0 <= i < |lines| ==> rs[i] == ParseLine(lines[i])
  {
    if |lines| == 0 then []
    else [ParseLine(lines[0])] + Classify(lines[1..])
  }

  /** Every accepted record, in line order, disregarding crashes. */
  function Accepted(rs: seq<LineResult>): (recs: seq<Record>)
    ensures |recs| <= |rs|
  {
    if |rs| == 0 then []
    else (if rs[0].Accept? then [rs[0].rec] else []) + Accepted(rs[1..])
  }

  lemma {:induction false} AcceptedAppend(a: seq<LineResult>, b: seq<LineResult>)
    ensures Accepted(a + b) == Accepted(a) + Accepted(b)
    decreases |a|
  {
    if |a| > 0 {
      assert (a + b)[0] == a[0];
      assert (a + b)[1..] == a[1..] + b;
      AcceptedAppend(a[1..], b);
    } else {
      assert a + b == b;
    }
  }

  predicate NoCrash(rs: seq<LineResult>) {
    forall i :: 0 <= i < |rs| ==> !rs[i].Crash?
  }

  /** The records a file emitted, and whether a line crashed the scan. */
  datatype FileOutcome = FileOutcome(records: seq<Record>, crashed: bool)

  /**
   * `parseAndInsert`'s outer loop over the verdicts of a file's lines: records
   * are emitted in order, skipped lines emit nothing, and a crash ends the file
   * (and the run) after the records of the lines before it.
   */
  function Emit(rs: seq<LineResult>): FileOutcome {
    if |rs| == 0 then FileOutcome([], false)
    else
      match rs[0]
      case Crash => FileOutcome([], true)
      case Skip => Emit(rs[1..])
      case Accept(rec) =>
        var out := Emit(rs[1..]);
        FileOutcome([rec] + out.records, out.crashed)
  }

  /** One file, given as its lines. */
  function ParseFile(lines: seq<string>): FileOutcome {
    Emit(Classify(lines))
  }

  /** Verdict `i` is the first crash, and `recs` are the records of the verdicts before it. */
  predicate CrashesFirstAt(rs: seq<LineResult>, i: int, recs: seq<Record>) {
    0 <= i < |rs| && rs[i].Crash? && NoCrash(rs[..i]) && recs == Accepted(rs[..i])
  }

  lemma NoCrashCons(rs: seq<LineResult>)
    requires |rs| > 0
    ensures NoCrash(rs) <==> !rs[0].Crash? && NoCrash(rs[1..])
  {
    assert forall i :: 0 <= i < |rs| - 1 ==> rs[1..][i] == rs[i + 1];
  }

  /** A file crashes exactly when one of its lines does. */
  lemma {:induction false} EmitCrashed(rs: seq<LineResult>)
    ensures Emit(rs).crashed <==> !NoCrash(rs)
    decreases |rs|
  {
    if |rs| > 0 {
      NoCrashCons(rs);
      EmitCrashed(rs[1..]);
    }
  }

  /** A file that does not crash emits every accepted record, in line order. */
  lemma {:induction false} EmitComplete(rs: seq<LineResult>)
    ensures !Emit(rs).crashed ==> Emit(rs).records == Accepted(rs)
    decreases |rs|
  {
    if |rs| > 0 {
      EmitComplete(rs[1..]);
    }
  }

  /** A file that crashes has emitted the records of the lines before its first crashing line. */
  lemma {:induction false} EmitCrashPrefix(rs: seq<LineResult>)
    ensures Emit(rs).crashed ==> exists i :: CrashesFirstAt(rs, i, Emit(rs).records)
    decreases |rs|
  {
    if |rs| > 0 {
      var rest := rs[1..];
      EmitCrashPrefix(rest);
      if rs[0].Crash? {
        assert rs[..0] == [];
        assert CrashesFirstAt(rs, 0, []);
      } else if Emit(rest).crashed {
        var i :| CrashesFirstAt(rest, i, Emit(rest).records);
        var pre := rs[..i + 1];
        assert pre[0] == rs[0] && pre[1..] == rest[..i];
        NoCrashCons(pre);
        assert CrashesFirstAt(rs, i + 1, Emit(rs).records);
      }
    }
  }

  /**
   * A file crashes exactly when one of its lines does; otherwise it emits
   * every accepted record. When it crashes, it has emitted the records of the
   * lines before the first crashing line.
   */
  lemma EmitSpec(rs: seq<LineResult>)
    ensures Emit(rs).crashed <==> !NoCrash(rs)
    ensures !Emit(rs).crashed ==> Emit(rs).records == Accepted(rs)
    ensures Emit(rs).crashed ==> exists i :: CrashesFirstAt(rs, i, Emit(rs).records)
  {
    EmitCrashed(rs);
    EmitComplete(rs);
    EmitCrashPrefix(rs);
  }

  /** What a file emits is always a prefix of what its lines accept. */
  lemma EmitPrefix(rs: seq<LineResult>)
    ensures Emit(rs).records <= Accepted(rs)
  {
    EmitSpec(rs);
    if Emit(rs).crashed {
      var i :| CrashesFirstAt(rs, i, Emit(rs).records);
      assert rs == rs[..i] + rs[i..];
      AcceptedAppend(rs[..i], rs[i..]);
    }
  }

  /** A line with an empty account emits nothing and the file goes on with the next line. */
  lemma EmptyAccountContinues(rest: string, lines: seq<string>)
    ensures ParseFile(["|" + rest] + lines) == ParseFile(lines)
  {
    LeadingBarSkips(rest);
    var all := ["|" + rest] + lines;
    assert all[1..] == lines;
    assert Classify(all) == [Skip] + Classify(lines);
    assert Classify(all)[1..] == Classify(lines);
  }
}
