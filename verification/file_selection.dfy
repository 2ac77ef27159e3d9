/**
 * Which files of the source directory are ingested, and in what order: the
 * file filter handed to `FileUtils.listFiles` and the comparator handed to
 * `Collections.sort`. The directory listing itself is an input, in whatever
 * order the file system produced it.
 */
module FileSelection {
  import opened Wrappers
  import opened JavaText
  import opened FileNames

  /**
   * A listed file: its name, its absolute path, its length in bytes, and the
   * lines its content decodes to.
   */
  datatype FileEntry = FileEntry(name: string, path: string, size: nat, lines: seq<string>)

  /** The completion-marker suffix used when none is configured. */
  const DefaultFinishSuffix: string := "OK"

  /** The marker announcing that `f` is complete: its path without extension, plus the suffix. */
  function MarkerPath(f: FileEntry, finishSuffix: string): string {
    RemoveExtension(f.path) + finishSuffix
  }

  /**
   * The three filters: the name ends with "txt" (a plain, case-sensitive
   * suffix, not an extension test), the file is at least one byte long, and
   * its marker exists.
   */
  predicate Eligible(f: FileEntry, existing: set<string>, finishSuffix: string) {
    && EndsWith(f.name, "txt")
    && f.size >= 1
    && MarkerPath(f, finishSuffix) in existing
  }

  /** The listed files that pass the filters, in listing order. */
  function SelectEligible(files: seq<FileEntry>, existing: set<string>, finishSuffix: string): (r: seq<FileEntry>)
    ensures forall i :: 0 <= i < |r| ==> Eligible(r[i], existing, finishSuffix)
    ensures forall f :: multiset(r)[f] == if Eligible(f, existing, finishSuffix) then multiset(files)[f] else 0
  {
    if |files| == 0 then []
    else
      var head, rest := files[0], SelectEligible(files[1..], existing, finishSuffix);
      assert multiset(files) == multiset{head} + multiset(files[1..]) by {
        assert files == [head] + files[1..];
      }
      if Eligible(head, existing, finishSuffix) then
        var r := [head] + rest;
        assert r[1..] == rest;
        r
      else rest
  }

  /** "notxt" passes the name filter: the test is a suffix, not an extension. */
  lemma SuffixNotExtension(f: FileEntry, existing: set<string>, finishSuffix: string)
    requires f.name == "notxt"
    ensures Eligible(f, existing, finishSuffix) <==> f.size >= 1 && MarkerPath(f, finishSuffix) in existing
  {
    assert f.name[|f.name| - 3..] == "txt";
  }

  // ---- The sort key ----

  /**
   * `Integer.parseInt(baseName.substring(baseName.lastIndexOf('+') + 1 + 4))`:
   * skip the '+' and four more characters, and parse the rest. `None` is the
   * exception the comparator throws: `substring` past the end of the base
   * name, or a tail that is not a Java `int`.
   */
  function OrderKey(f: FileEntry): (k: Option<int>)
    ensures k.Some? ==> IsInt32(k.value)
  {
    KeyOfBaseName(GetBaseName(f.name))
  }

  /** The key read from a base name. */
  function KeyOfBaseName(base: string): (k: Option<int>)
    ensures k.Some? ==> IsInt32(k.value)
  {
    var start := LastIndexOf(base, '+') + 1 + 4;
    if start > |base| then None
    else ParseInt(base[start..])
  }

  /** Without a '+', `lastIndexOf` is -1 and the key is read from index 4 on. */
  lemma KeyWithoutPlus(base: string)
    requires '+' !in base
    ensures KeyOfBaseName(base) == if |base| < 4 then None else ParseInt(base[4..])
  {
    assert LastIndexOf(base, '+') == -1;
  }

  /** A base name shorter than four characters past its last '+' has no key. */
  lemma KeyPastEnd(f: FileEntry)
    requires |GetBaseName(f.name)| < LastIndexOf(GetBaseName(f.name), '+') + 5
    ensures OrderKey(f) == None
  {
  }

  /** In `<prefix>+<four chars><tail>` with no '+' after the one shown, the key is the parsed tail. */
  lemma KeyOfPlusTail(prefix: string, four: string, tail: string)
    requires |four| == 4 && '+' !in four && '+' !in tail
    ensures KeyOfBaseName(prefix + "+" + four + tail) == ParseInt(tail)
  {
    var base := prefix + "+" + four + tail;
    assert base[|prefix|] == '+';
    assert forall k :: |prefix| < k < |base| ==> base[k] == (four + tail)[k - |prefix| - 1];
    LastIndexOfAt(base, '+', |prefix|);
    assert base[|prefix| + 5..] == tail;
  }

  /** In `<prefix>+<four chars><tail>.txt` with no '+' after the one shown, the key is the parsed tail. */
  lemma KeyOfTxtName(f: FileEntry, prefix: string, four: string, tail: string)
    requires |four| == 4 && '+' !in four && '+' !in tail
    requires forall k :: 0 <= k < |f.name| ==> !IsSeparator(f.name[k])
    requires f.name == prefix + "+" + four + tail + ".txt"
    ensures OrderKey(f) == ParseInt(tail)
  {
    var base, ext := prefix + "+" + four + tail, ".txt";
    assert f.name == base + ext;
    assert forall k :: 0 <= k < |base| ==> base[k] == f.name[k];
    BaseNameOfPlain(base, ext);
    KeyOfPlusTail(prefix, four, tail);
  }

  // ---- Sorting ----

  predicate KeysKnown(fs: seq<FileEntry>) {
    forall i :: 0 <= i < |fs| ==> OrderKey(fs[i]).Some?
  }

  /** Non-decreasing keys; a list of fewer than two files is sorted whatever its keys. */
  predicate SortedByKey(fs: seq<FileEntry>) {
    forall i, j :: 0 <= i < j < |fs| ==>
      OrderKey(fs[i]).Some? && OrderKey(fs[j]).Some? && OrderKey(fs[i]).value <= OrderKey(fs[j]).value
  }

  /** The key of every file, computed once. */
  function KeyTable(fs: seq<FileEntry>): (key: map<FileEntry, int>)
    requires KeysKnown(fs)
    ensures forall i :: 0 <= i < |fs| ==> fs[i] in key && OrderKey(fs[i]) == Some(key[fs[i]])
  {
    map f | f in fs :: OrderKey(f).value
  }

  predicate Keyed(fs: seq<FileEntry>, key: map<FileEntry, int>) {
    forall i :: 0 <= i < |fs| ==> fs[i] in key
  }

  predicate SortedBy(fs: seq<FileEntry>, key: map<FileEntry, int>)
    requires Keyed(fs, key)
  {
    forall i, j :: 0 <= i < j < |fs| ==> key[fs[i]] <= key[fs[j]]
  }

  /** Puts `f` in front of the first file whose key is not smaller. */
  function Insert(f: FileEntry, fs: seq<FileEntry>, key: map<FileEntry, int>): (r: seq<FileEntry>)
    requires f in key && Keyed(fs, key) && SortedBy(fs, key)
    ensures multiset(r) == multiset(fs) + multiset{f}
    ensures r[0] == f || (|fs| > 0 && r[0] == fs[0])
    ensures Keyed(r, key) && SortedBy(r, key)
  {
    if |fs| == 0 then [f]
    else if key[f] <= key[fs[0]] then
      SortedCons(f, fs, key);
      [f] + fs
    else
      var rest := Insert(f, fs[1..], key);
      assert fs == [fs[0]] + fs[1..];
      SortedCons(fs[0], rest, key);
      [fs[0]] + rest
  }

  /** A file whose key is at most the first key of a sorted list can go in front of it. */
  lemma SortedCons(f: FileEntry, fs: seq<FileEntry>, key: map<FileEntry, int>)
    requires f in key && Keyed(fs, key) && SortedBy(fs, key)
    requires |fs| > 0 ==> key[f] <= key[fs[0]]
    ensures Keyed([f] + fs, key) && SortedBy([f] + fs, key)
  {
    var r := [f] + fs;
    assert forall i :: 1 <= i < |r| ==> r[i] == fs[i - 1];
  }

  /** Insertion sort by key; like `Collections.sort` it keeps files with equal keys in listing order. */
  function Sort(fs: seq<FileEntry>, key: map<FileEntry, int>): (r: seq<FileEntry>)
    requires Keyed(fs, key)
    ensures multiset(r) == multiset(fs)
    ensures Keyed(r, key) && SortedBy(r, key)
  {
    if |fs| == 0 then []
    else
      assert fs == [fs[0]] + fs[1..];
      Insert(fs[0], Sort(fs[1..], key), key)
  }

  /**
   * `Collections.sort(fileList, comparator)`. The comparator computes both
   * keys on every call; with two or more files every file takes part in some
   * comparison, so one key that cannot be computed aborts the sort, while a
   * list of fewer than two files is never compared at all.
   */
  function SortByKey(fs: seq<FileEntry>): (r: Option<seq<FileEntry>>)
    ensures r.None? <==> |fs| >= 2 && exists i :: 0 <= i < |fs| && OrderKey(fs[i]).None?
    ensures r.Some? ==> multiset(r.value) == multiset(fs) && SortedByKey(r.value)
  {
    if |fs| < 2 then Some(fs)
    else if !KeysKnown(fs) then None
    else
      var key := KeyTable(fs);
      var r := Sort(fs, key);
      SortedTableIsSortedByKey(fs, key, r);
      Some(r)
  }

  lemma SortedTableIsSortedByKey(fs: seq<FileEntry>, key: map<FileEntry, int>, r: seq<FileEntry>)
    requires KeysKnown(fs) && key == KeyTable(fs)
    requires multiset(r) == multiset(fs) && Keyed(r, key) && SortedBy(r, key)
    ensures SortedByKey(r)
  {
    forall i | 0 <= i < |r|
      ensures OrderKey(r[i]) == Some(key[r[i]])
    {
      assert r[i] in multiset(fs);
      var j :| 0 <= j < |fs| && fs[j] == r[i];
    }
  }

  /** In a sorted list, a file with a smaller key comes strictly earlier. */
  lemma SmallerKeyFirst(fs: seq<FileEntry>, i: nat, j: nat)
    requires SortedByKey(fs) && i < |fs| && j < |fs|
    requires OrderKey(fs[i]).Some? && OrderKey(fs[j]).Some?
    requires OrderKey(fs[i]).value < OrderKey(fs[j]).value
    ensures i < j
  {
    var ki, kj := OrderKey(fs[i]), OrderKey(fs[j]);
    if j < i {
      assert false;
    }
  }
}
