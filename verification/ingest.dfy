/**
 * One run of the ingestion: select and order the files, then feed each file's
 * lines through the line parser and write every accepted record to the store.
 * The store is external, so writes made before an abort stay in it.
 */
module Ingest {
  import opened Wrappers
  import opened LineParser
  import opened Store
  import opened FileSelection

  /** `setex(ip, ttl, account)` when the TTL is positive, `set(ip, account)` otherwise. */
  function WriteOf(rec: Record, ttl: int): (w: Write)
    ensures w.key == rec.ip && w.value == rec.account
    ensures w.SetEx? <==> ttl > 0
    ensures w.SetEx? ==> w.seconds == ttl
  {
    if ttl > 0 then SetEx(rec.ip, ttl, rec.account) else Set(rec.ip, rec.account)
  }

  /** The TTL used when none is configured: records are then stored without expiry. */
  const DefaultTtl: int := -1

  /** Without a configured TTL every write is a plain `set`. */
  lemma DefaultTtlPlainSets(recs: seq<Record>)
    ensures forall i :: 0 <= i < |recs| ==> Writes(recs, DefaultTtl)[i] == Set(recs[i].ip, recs[i].account)
  {
  }

  /** The writes for a sequence of records, one per record, in order. */
  function Writes(recs: seq<Record>, ttl: int): (ws: seq<Write>)
    ensures |ws| == |recs|
    ensures forall i :: 0 <= i < |recs| ==> ws[i] == WriteOf(recs[i], ttl)
  {
    if |recs| == 0 then []
    else [WriteOf(recs[0], ttl)] + Writes(recs[1..], ttl)
  }

  lemma WritesAppend(a: seq<Record>, b: seq<Record>, ttl: int)
    ensures Writes(a + b, ttl) == Writes(a, ttl) + Writes(b, ttl)
  {
    var l, r := Writes(a + b, ttl), Writes(a, ttl) + Writes(b, ttl);
    forall i | 0 <= i < |l|
      ensures l[i] == r[i]
    {
      if i < |a| {
        assert (a + b)[i] == a[i];
      } else {
        assert (a + b)[i] == b[i - |a|];
      }
    }
  }

  lemma WritesPrefix(a: seq<Record>, b: seq<Record>, ttl: int)
    requires a <= b
    ensures Writes(a, ttl) <= Writes(b, ttl)
  {
    assert b == a + b[|a|..];
    WritesAppend(a, b[|a|..], ttl);
  }

  /** Whether the scan of the file's lines stops at a line it cannot finish. */
  predicate FileCrashes(f: FileEntry) {
    ParseFile(f.lines).crashed
  }

  /** A file crashes exactly when one of its lines lacks the separators the scan needs. */
  lemma FileCrashesIff(f: FileEntry)
    ensures FileCrashes(f) <==> exists i :: 0 <= i < |f.lines| && ParseLine(f.lines[i]).Crash?
  {
    EmitSpec(Classify(f.lines));
  }

  /** Every record the files' lines accept, file by file, disregarding crashes. */
  function AllRecords(files: seq<FileEntry>): (recs: seq<Record>) {
    if |files| == 0 then []
    else Accepted(Classify(files[0].lines)) + AllRecords(files[1..])
  }

  /** Why a run stopped before processing every file. */
  datatype Abort =
    | UnparsableOrderKey      // the sort comparator threw
    | MalformedLine(path: string)  // a line of this file has fewer than the two separators the scan needs

  datatype Status = Completed | Aborted(reason: Abort)

  /** The writes issued while processing files in order, and how processing ended. */
  datatype Processed = Processed(log: seq<Write>, status: Status)

  /** The loop over the sorted file list: each file's records are written; a crashing file ends the run. */
  function ProcessFiles(files: seq<FileEntry>, ttl: int): (r: Processed)
    ensures r.status.Completed? || r.status.reason.MalformedLine?
  {
    if |files| == 0 then Processed([], Completed)
    else
      var out := ParseFile(files[0].lines);
      if out.crashed then Processed(Writes(out.records, ttl), Aborted(MalformedLine(files[0].path)))
      else
        var rest := ProcessFiles(files[1..], ttl);
        Processed(Writes(out.records, ttl) + rest.log, rest.status)
  }

  lemma PrefixExtend<T>(a: seq<T>, b: seq<T>, c: seq<T>)
    requires b <= c
    ensures a + b <= a + c
  {
    assert forall i :: 0 <= i < |a + b| ==> (a + b)[i] == (a + c)[i];
  }

  /** Whatever happens, the writes issued are a prefix of those for every accepted record. */
  lemma {:induction false} ProcessLogPrefix(files: seq<FileEntry>, ttl: int)
    ensures ProcessFiles(files, ttl).log <= Writes(AllRecords(files), ttl)
    decreases |files|
  {
    if |files| > 0 {
      var rs := Classify(files[0].lines);
      var here, later := Accepted(rs), AllRecords(files[1..]);
      var out := Emit(rs);
      var log := ProcessFiles(files, ttl).log;
      assert AllRecords(files) == here + later;
      WritesAppend(here, later, ttl);
      EmitSpec(rs);
      if out.crashed {
        EmitPrefix(rs);
        WritesPrefix(out.records, here, ttl);
        assert log == Writes(out.records, ttl);
        PrefixExtend(Writes(here, ttl), [], Writes(later, ttl));
      } else {
        ProcessLogPrefix(files[1..], ttl);
        assert log == Writes(here, ttl) + ProcessFiles(files[1..], ttl).log;
        PrefixExtend(Writes(here, ttl), ProcessFiles(files[1..], ttl).log, Writes(later, ttl));
      }
    }
  }

  /**
   * Processing completes exactly when no file crashes, and then it has
   * written every accepted record, file after file, line after line.
   */
  lemma {:induction false} ProcessCompleted(files: seq<FileEntry>, ttl: int)
    ensures ProcessFiles(files, ttl).status.Completed? <==> forall i :: 0 <= i < |files| ==> !FileCrashes(files[i])
    ensures ProcessFiles(files, ttl).status.Completed? ==> ProcessFiles(files, ttl).log == Writes(AllRecords(files), ttl)
    decreases |files|
  {
    if |files| > 0 {
      var rest := files[1..];
      CleanCons(files);
      if !FileCrashes(files[0]) {
        ProcessClean(files, ttl);
        ProcessCompleted(rest, ttl);
        WritesAppend(Accepted(Classify(files[0].lines)), AllRecords(rest), ttl);
      }
    }
  }

  /** All files are clean exactly when the first is and all the others are. */
  lemma CleanCons(files: seq<FileEntry>)
    requires |files| > 0
    ensures (forall i :: 0 <= i < |files| ==> !FileCrashes(files[i])) <==>
      !FileCrashes(files[0]) && forall i :: 0 <= i < |files[1..]| ==> !FileCrashes(files[1..][i])
  {
    assert forall i :: 0 <= i < |files| - 1 ==> files[1..][i] == files[i + 1];
  }

  /** File `i` is the first that crashes. */
  predicate FirstCrashingFile(files: seq<FileEntry>, i: int) {
    0 <= i < |files| && FileCrashes(files[i]) && forall j :: 0 <= j < i ==> !FileCrashes(files[j])
  }

  /** An abort names the first file that crashes. */
  lemma {:induction false} ProcessAbortNamesFile(files: seq<FileEntry>, ttl: int)
    requires ProcessFiles(files, ttl).status.Aborted?
    ensures exists i :: FirstCrashingFile(files, i) && ProcessFiles(files, ttl).status.reason.path == files[i].path
    decreases |files|
  {
    var rest := files[1..];
    if FileCrashes(files[0]) {
      assert FirstCrashingFile(files, 0);
    } else {
      ProcessAbortNamesFile(rest, ttl);
      var i :| FirstCrashingFile(rest, i) && ProcessFiles(rest, ttl).status.reason.path == rest[i].path;
      assert forall j :: 0 < j <= i ==> files[j] == rest[j - 1];
      assert FirstCrashingFile(files, i + 1);
    }
  }

  /**
   * An aborted processing has written exactly the records of the clean files
   * before the first crashing file, then those the crashing file emitted
   * before its first crashing line, and nothing after.
   */
  lemma {:induction false} ProcessAbortLog(clean: seq<FileEntry>, bad: FileEntry, later: seq<FileEntry>, ttl: int)
    requires forall j :: 0 <= j < |clean| ==> !FileCrashes(clean[j])
    requires FileCrashes(bad)
    ensures ProcessFiles(clean + [bad] + later, ttl).status == Aborted(MalformedLine(bad.path))
    ensures ProcessFiles(clean + [bad] + later, ttl).log == Writes(AllRecords(clean) + ParseFile(bad.lines).records, ttl)
    decreases |clean|
  {
    var files := clean + [bad] + later;
    if |clean| == 0 {
      assert files[0] == bad;
      assert AllRecords(clean) + ParseFile(bad.lines).records == ParseFile(bad.lines).records;
    } else {
      assert files[0] == clean[0] && files[1..] == clean[1..] + [bad] + later;
      ProcessAbortLog(clean[1..], bad, later, ttl);
      AbortAfterCleanFile(files, clean, ParseFile(bad.lines).records, ttl);
    }
  }

  /** `ProcessAbortLog` with the first crashing file given by its position. */
  lemma ProcessAbortAt(files: seq<FileEntry>, ttl: int, i: int)
    requires FirstCrashingFile(files, i)
    ensures ProcessFiles(files, ttl).status == Aborted(MalformedLine(files[i].path))
    ensures ProcessFiles(files, ttl).log == Writes(AllRecords(files[..i]) + ParseFile(files[i].lines).records, ttl)
  {
    var clean, bad, later := files[..i], files[i], files[i + 1..];
    assert files == clean + [bad] + later;
    assert forall j :: 0 <= j < |clean| ==> clean[j] == files[j];
    ProcessAbortLog(clean, bad, later, ttl);
  }

  /** The step of `ProcessAbortLog`: a clean first file puts its records in front of the rest's log. */
  lemma AbortAfterCleanFile(files: seq<FileEntry>, clean: seq<FileEntry>, crashed: seq<Record>, ttl: int)
    requires |clean| > 0 && |files| > 0 && files[0] == clean[0] && !FileCrashes(files[0])
    requires ProcessFiles(files[1..], ttl).log == Writes(AllRecords(clean[1..]) + crashed, ttl)
    ensures ProcessFiles(files, ttl).log == Writes(AllRecords(clean) + crashed, ttl)
  {
    var here, before := Accepted(Classify(files[0].lines)), AllRecords(clean[1..]);
    ProcessClean(files, ttl);
    WritesAppend(here, before + crashed, ttl);
    assert here + before + crashed == here + (before + crashed);
  }

  /** A file that does not crash writes all its accepted records, and processing goes on with the next. */
  lemma ProcessClean(files: seq<FileEntry>, ttl: int)
    requires |files| > 0 && !FileCrashes(files[0])
    ensures var rest := ProcessFiles(files[1..], ttl);
      ProcessFiles(files, ttl) == Processed(Writes(Accepted(Classify(files[0].lines)), ttl) + rest.log, rest.status)
  {
    EmitComplete(Classify(files[0].lines));
  }

  /** The observable result of a run. */
  datatype RunOutcome = RunOutcome(order: seq<FileEntry>, store: Store, log: seq<Write>, status: Status)

  /**
   * The processing order: the eligible files sorted by key, or `None` when
   * the comparator throws.
   */
  function Order(listing: seq<FileEntry>, existing: set<string>, finishSuffix: string): Option<seq<FileEntry>> {
    SortByKey(SelectEligible(listing, existing, finishSuffix))
  }

  /**
   * The order fails exactly when two or more files are eligible and one of
   * them has no key; otherwise it holds the eligible files sorted by key.
   */
  lemma OrderSpec(listing: seq<FileEntry>, existing: set<string>, finishSuffix: string)
    ensures var eligible := SelectEligible(listing, existing, finishSuffix);
      Order(listing, existing, finishSuffix).None? <==>
        |eligible| >= 2 && exists i :: 0 <= i < |eligible| && OrderKey(eligible[i]).None?
    ensures var r := Order(listing, existing, finishSuffix);
      r.Some? ==> multiset(r.value) == multiset(SelectEligible(listing, existing, finishSuffix)) && SortedByKey(r.value)
  {
  }

  /** Processing an order the sort produced, or nothing when the sort threw. */
  function Finish(order: Option<seq<FileEntry>>, ttl: int, store0: Store): (r: RunOutcome)
    ensures r.store == ApplyAll(store0, r.log)
    ensures r.status == Aborted(UnparsableOrderKey) <==> order.None?
    ensures order.None? ==> r.log == [] && r.order == []
    ensures order.Some? ==> r.order == order.value
    ensures r.log <= Writes(AllRecords(r.order), ttl)
  {
    match order
    case None => RunOutcome([], store0, [], Aborted(UnparsableOrderKey))
    case Some(files) =>
      var p := ProcessFiles(files, ttl);
      ProcessLogPrefix(files, ttl);
      RunOutcome(files, ApplyAll(store0, p.log), p.log, p.status)
  }

  /**
   * `main` after its arguments are read: filter the listing, sort it, and
   * process the files in order against the store `store0`.
   */
  function Run(listing: seq<FileEntry>, existing: set<string>, finishSuffix: string, ttl: int, store0: Store): RunOutcome {
    Finish(Order(listing, existing, finishSuffix), ttl, store0)
  }

  /** A completed run has written every record accepted from the ordered files. */
  lemma RunCompleted(listing: seq<FileEntry>, existing: set<string>, finishSuffix: string, ttl: int, store0: Store)
    ensures var r := Run(listing, existing, finishSuffix, ttl, store0);
      r.status.Completed? <==> r.status != Aborted(UnparsableOrderKey) && forall i :: 0 <= i < |r.order| ==> !FileCrashes(r.order[i])
    ensures var r := Run(listing, existing, finishSuffix, ttl, store0);
      r.status.Completed? ==> r.log == Writes(AllRecords(r.order), ttl)
  {
    var eligible := SelectEligible(listing, existing, finishSuffix);
    if SortByKey(eligible).Some? {
      ProcessCompleted(SortByKey(eligible).value, ttl);
    }
  }

  /**
   * Last write wins across files: after a completed run, an ip holds the
   * account of the last record accepted for it.
   */
  lemma RunLastRecordWins(listing: seq<FileEntry>, existing: set<string>, finishSuffix: string, ttl: int, store0: Store, i: nat)
    requires var r := Run(listing, existing, finishSuffix, ttl, store0);
      var recs := AllRecords(r.order);
      && r.status.Completed?
      && i < |recs|
      && forall j :: i < j < |recs| ==> recs[j].ip != recs[i].ip
    ensures var r := Run(listing, existing, finishSuffix, ttl, store0);
      var recs := AllRecords(r.order);
      recs[i].ip in r.store && r.store[recs[i].ip] == recs[i].account
  {
    RunCompleted(listing, existing, finishSuffix, ttl, store0);
    var r := Run(listing, existing, finishSuffix, ttl, store0);
    var recs := AllRecords(r.order);
    LastWriteWins(store0, r.log, i);
  }

  /** An ip no file of the run accepts keeps its old value (or stays absent), however the run ends. */
  lemma RunUntouchedKey(listing: seq<FileEntry>, existing: set<string>, finishSuffix: string, ttl: int, store0: Store, k: string)
    requires var r := Run(listing, existing, finishSuffix, ttl, store0);
      forall j :: 0 <= j < |AllRecords(r.order)| ==> AllRecords(r.order)[j].ip != k
    ensures var r := Run(listing, existing, finishSuffix, ttl, store0);
      (k in r.store <==> k in store0) && (k in store0 ==> r.store[k] == store0[k])
  {
    var r := Run(listing, existing, finishSuffix, ttl, store0);
    var all := Writes(AllRecords(r.order), ttl);
    assert forall j :: 0 <= j < |r.log| ==> r.log[j] == all[j];
    UntouchedKey(store0, r.log, k);
  }

  /** Two files with distinct keys can be sorted only one way. */
  lemma SortedPair(order: seq<FileEntry>, older: FileEntry, newer: FileEntry)
    requires multiset(order) == multiset{older, newer} && SortedByKey(order)
    requires OrderKey(older).Some? && OrderKey(newer).Some? && OrderKey(older).value < OrderKey(newer).value
    ensures order == [older, newer]
  {
    TwoOfPair(order, older, newer);
    if order[0] == newer {
      SmallerKeyFirst(order, 1, 0);
    }
  }

  /** A sequence holding exactly two given elements is one of their two arrangements. */
  lemma TwoOfPair<T>(order: seq<T>, a: T, b: T)
    requires multiset(order) == multiset{a, b}
    ensures order == [a, b] || order == [b, a]
  {
    assert |order| == |multiset(order)| == 2;
    assert order == [order[0], order[1]];
    var x, y := order[0], order[1];
    assert multiset{x, y} == multiset{a, b};
    assert x in multiset{a, b} && y in multiset{a, b};
    if x == a && y == a {
      assert multiset{x, y}[b] == 0 || a == b;
    }
    if x == b && y == b {
      assert multiset{x, y}[a] == 0 || a == b;
    }
  }

  /** Two eligible files are both selected, in listing order. */
  lemma SelectBoth(a: FileEntry, b: FileEntry, existing: set<string>, finishSuffix: string)
    requires Eligible(a, existing, finishSuffix) && Eligible(b, existing, finishSuffix)
    ensures SelectEligible([a, b], existing, finishSuffix) == [a, b]
  {
    assert [a, b][1..] == [b];
    assert [a, b][1..][1..] == [];
  }

  /** Two files with known, distinct keys, listed in either order, are sorted oldest first. */
  lemma SortPair(older: FileEntry, newer: FileEntry, pair: seq<FileEntry>)
    requires multiset(pair) == multiset{older, newer}
    requires OrderKey(older).Some? && OrderKey(newer).Some? && OrderKey(older).value < OrderKey(newer).value
    ensures SortByKey(pair) == Some([older, newer])
  {
    PairKeys(pair, older, newer);
    SortKnownKeys(pair);
    var order := SortByKey(pair).value;
    SortedPair(order, older, newer);
  }

  lemma PairKeys(pair: seq<FileEntry>, older: FileEntry, newer: FileEntry)
    requires multiset(pair) == multiset{older, newer}
    requires OrderKey(older).Some? && OrderKey(newer).Some?
    ensures KeysKnown(pair)
  {
    OnlyPairMembers(pair, older, newer);
  }

  /** The comparator does not throw when every key is known. */
  lemma SortKnownKeys(fs: seq<FileEntry>)
    requires KeysKnown(fs)
    ensures SortByKey(fs).Some?
  {
  }

  /** A sequence holding exactly `a` and `b` holds nothing else. */
  lemma OnlyPairMembers<T>(s: seq<T>, a: T, b: T)
    requires multiset(s) == multiset{a, b}
    ensures forall i :: 0 <= i < |s| ==> s[i] == a || s[i] == b
  {
    forall i | 0 <= i < |s|
      ensures s[i] == a || s[i] == b
    {
      assert s[i] in multiset(s);
    }
  }

  /** When every listed file is eligible, the selection keeps all of them. */
  lemma SelectAllEligible(listing: seq<FileEntry>, older: FileEntry, newer: FileEntry, existing: set<string>, finishSuffix: string)
    requires multiset(listing) == multiset{older, newer}
    requires Eligible(older, existing, finishSuffix) && Eligible(newer, existing, finishSuffix)
    ensures multiset(SelectEligible(listing, existing, finishSuffix)) == multiset{older, newer}
  {
    var r := SelectEligible(listing, existing, finishSuffix);
    forall f
      ensures multiset(r)[f] == multiset{older, newer}[f]
    {
      SelectCount(listing, older, newer, existing, finishSuffix, f);
    }
    assert multiset(r) == multiset{older, newer};
  }

  lemma SelectCount(listing: seq<FileEntry>, older: FileEntry, newer: FileEntry, existing: set<string>, finishSuffix: string, f: FileEntry)
    requires multiset(listing) == multiset{older, newer}
    requires Eligible(older, existing, finishSuffix) && Eligible(newer, existing, finishSuffix)
    ensures multiset(SelectEligible(listing, existing, finishSuffix))[f] == multiset{older, newer}[f]
  {
    if f == older || f == newer {
      assert Eligible(f, existing, finishSuffix);
    } else {
      assert multiset(listing)[f] == 0;
    }
  }

  /** Two eligible files with known, distinct keys are processed oldest first, whichever way they are listed. */
  lemma OrderPair(older: FileEntry, newer: FileEntry, listing: seq<FileEntry>, existing: set<string>, finishSuffix: string)
    requires multiset(listing) == multiset{older, newer}
    requires Eligible(older, existing, finishSuffix) && Eligible(newer, existing, finishSuffix)
    requires OrderKey(older).Some? && OrderKey(newer).Some? && OrderKey(older).value < OrderKey(newer).value
    ensures Order(listing, existing, finishSuffix) == Some([older, newer])
  {
    SelectAllEligible(listing, older, newer, existing, finishSuffix);
    SortPair(older, newer, SelectEligible(listing, existing, finishSuffix));
  }

  /** Two clean files with one record each issue exactly those two writes, in order. */
  lemma ProcessPair(older: FileEntry, newer: FileEntry, recOld: Record, recNew: Record, ttl: int)
    requires ParseFile(older.lines) == FileOutcome([recOld], false)
    requires ParseFile(newer.lines) == FileOutcome([recNew], false)
    ensures ProcessFiles([older, newer], ttl) == Processed([WriteOf(recOld, ttl), WriteOf(recNew, ttl)], Completed)
  {
    assert [older, newer][1..] == [newer];
    assert [newer][1..] == [];
    assert ProcessFiles([], ttl) == Processed([], Completed);
    assert Writes([recNew], ttl) == [WriteOf(recNew, ttl)];
    assert ProcessFiles([newer], ttl) == Processed([WriteOf(recNew, ttl)], Completed);
    assert Writes([recOld], ttl) == [WriteOf(recOld, ttl)];
  }

  /**
   * Two eligible files, listed in either order (the listing holds exactly
   * the two of them), whose one accepted record
   * each maps the same ip: the sort puts the file with the smaller key first,
   * so the newer file's account is the one the ip ends up with.
   */
  lemma LaterFileWins(listing: seq<FileEntry>, existing: set<string>, finishSuffix: string, ttl: int, store0: Store,
                      older: FileEntry, newer: FileEntry, recOld: Record, recNew: Record)
    requires multiset(listing) == multiset{older, newer}
    requires Eligible(older, existing, finishSuffix) && Eligible(newer, existing, finishSuffix)
    requires OrderKey(older).Some? && OrderKey(newer).Some? && OrderKey(older).value < OrderKey(newer).value
    requires ParseFile(older.lines) == FileOutcome([recOld], false)
    requires ParseFile(newer.lines) == FileOutcome([recNew], false)
    requires recOld.ip == recNew.ip
    ensures var r := Run(listing, existing, finishSuffix, ttl, store0);
      r.status.Completed? && r.order == [older, newer] && recNew.ip in r.store && r.store[recNew.ip] == recNew.account
  {
    OrderPair(older, newer, listing, existing, finishSuffix);
    ProcessPair(older, newer, recOld, recNew, ttl);
    LastWriteWins(store0, [WriteOf(recOld, ttl), WriteOf(recNew, ttl)], 1);
  }

  /**
   * A run stopped by a malformed line names the first file, in processing
   * order, that has such a line.
   */
  lemma RunAborted(listing: seq<FileEntry>, existing: set<string>, finishSuffix: string, ttl: int, store0: Store)
    requires Run(listing, existing, finishSuffix, ttl, store0).status.Aborted?
    requires Run(listing, existing, finishSuffix, ttl, store0).status.reason.MalformedLine?
    ensures var r := Run(listing, existing, finishSuffix, ttl, store0);
      exists i :: FirstCrashingFile(r.order, i) && r.status.reason.path == r.order[i].path
  {
    var r := Run(listing, existing, finishSuffix, ttl, store0);
    ProcessAbortNamesFile(r.order, ttl);
  }

  /**
   * A run stopped by a malformed line in its `i`-th file has left in the store
   * exactly the writes for the records of the files before it, followed by
   * those of that file's lines before its first crashing line.
   */
  lemma RunAbortLog(listing: seq<FileEntry>, existing: set<string>, finishSuffix: string, ttl: int, store0: Store, i: int)
    requires var r := Run(listing, existing, finishSuffix, ttl, store0);
      r.status != Aborted(UnparsableOrderKey) && FirstCrashingFile(r.order, i)
    ensures var r := Run(listing, existing, finishSuffix, ttl, store0);
      && r.status == Aborted(MalformedLine(r.order[i].path))
      && r.log == Writes(AllRecords(r.order[..i]) + ParseFile(r.order[i].lines).records, ttl)
      && r.store == ApplyAll(store0, r.log)
  {
    var r := Run(listing, existing, finishSuffix, ttl, store0);
    ProcessAbortAt(r.order, ttl, i);
  }

  /** With nothing eligible the run completes without touching the store. */
  lemma NothingEligible(listing: seq<FileEntry>, existing: set<string>, finishSuffix: string, ttl: int, store0: Store)
    requires forall i :: 0 <= i < |listing| ==> !Eligible(listing[i], existing, finishSuffix)
    ensures Run(listing, existing, finishSuffix, ttl, store0) == RunOutcome([], store0, [], Completed)
  {
  }
}
