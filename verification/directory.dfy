/** Pass two of the generator (test/pack.c:97-104): a second walk over
    `argv` that writes one row of `packed_files[]` per file and then the
    `{NULL, NULL, 0, 0, 0}` sentinel. Its `-z` test is written differently
    from pass one's (`++i + 1 < argc` instead of `i + 1 < argc`), and its
    `zipped` column reads the final `zip_cmd` of pass one. */
module Directory {
  import opened Types
  import opened Args

  /** One row, as emitted: the name `"/" + path`, the argument position of
      the byte table it points at (`v<table>`), the `stat` time of the path
      and the zipped flag; or the terminating sentinel. */
  datatype Row = Row(name: string, table: nat, mtime: int, zipped: bool) | End

  /** The row pass two writes for argument position `k`. */
  function FileRow(argv: seq<string>, k: nat, zipped: bool, mtime: string -> int): Row
    requires k < |argv|
  {
    Row("/" + argv[k], k, mtime(argv[k]), zipped)
  }

  /** Pass two never reads `argv[argc]` from position `i` on. It does when a
      `-z` is the last argument it reaches: `stat` and `printf` then get the
      NULL that ends `argv`, which the C program leaves undefined. */
  predicate DefinedFrom(argv: seq<string>, i: nat)
    decreases |argv| - i
  {
    if i >= |argv| then true
    else if argv[i] == ZipFlag then
      if i + 2 < |argv| then DefinedFrom(argv, i + 2) else i + 1 < |argv|
    else DefinedFrom(argv, i + 1)
  }

  /** The rows pass two writes from argument position `i` on. After `-z`
      the index has already moved to the value; when no argument follows the
      value, the value itself gets a row. */
  function RowsFrom(argv: seq<string>, i: nat, zipped: bool, mtime: string -> int): seq<Row>
    requires DefinedFrom(argv, i)
    decreases |argv| - i
  {
    if i >= |argv| then []
    else if argv[i] == ZipFlag then
      if i + 2 < |argv| then RowsFrom(argv, i + 2, zipped, mtime)
      else [FileRow(argv, i + 1, zipped, mtime)]
    else [FileRow(argv, i, zipped, mtime)] + RowsFrom(argv, i + 1, zipped, mtime)
  }

  /** The whole directory as written: rows from `argv[1]` on, then the sentinel. */
  function Rows(argv: seq<string>, zipped: bool, mtime: string -> int): seq<Row>
    requires DefinedFrom(argv, 1)
  {
    RowsFrom(argv, 1, zipped, mtime) + [End]
  }

  /** The row for each pass-one entry, with one `zipped` value for all. */
  function EntryRows(es: seq<Entry>, zipped: bool, mtime: string -> int): (r: seq<Row>)
    ensures |r| == |es|
  {
    seq(|es|, k requires 0 <= k < |es| => Row("/" + es[k].path, es[k].index, mtime(es[k].path), zipped))
  }

  lemma EntryRowsCons(argv: seq<string>, e: Entry, es: seq<Entry>, zipped: bool, mtime: string -> int)
    requires e.index < |argv| && e.path == argv[e.index]
    ensures EntryRows([e] + es, zipped, mtime) == [FileRow(argv, e.index, zipped, mtime)] + EntryRows(es, zipped, mtime)
  {
  }

  /** Pass one obeyed a `-z value` pair whose value is the last argument. */
  predicate TrailingPair(argv: seq<string>, sc: Scan) {
    |sc.directives| > 0 && sc.directives[|sc.directives| - 1] + 2 == |argv|
  }

  /** Pass one read a lone `-z` in the last position as a file. */
  predicate LoneFlagFile(argv: seq<string>, sc: Scan) {
    && |sc.entries| > 0
    && sc.entries[|sc.entries| - 1].index + 1 == |argv|
    && sc.entries[|sc.entries| - 1].path == ZipFlag
  }

  /** Pass two is defined exactly when pass one did not take a final lone
      `-z` as a file. */
  lemma {:induction false} DefinedIff(argv: seq<string>, i: nat, filter: Option<string>)
    ensures DefinedFrom(argv, i) <==> !LoneFlagFile(argv, ScanFrom(argv, i, filter))
    decreases |argv| - i
  {
    var r := ScanFrom(argv, i, filter);
    if i >= |argv| {
    } else if argv[i] == ZipFlag && i + 1 < |argv| {
      DefinedIff(argv, i + 2, Some(argv[i + 1]));
    } else if argv[i] == ZipFlag {
      assert ScanFrom(argv, i + 1, filter).entries == [];
      assert r.entries == [Entry(i, argv[i], filter)];
    } else {
      var rest := ScanFrom(argv, i + 1, filter);
      DefinedIff(argv, i + 1, filter);
      assert r.entries == [Entry(i, argv[i], filter)] + rest.entries;
      if rest.entries == [] {
        assert r.entries == [Entry(i, argv[i], filter)];
      } else {
        assert r.entries[|r.entries| - 1] == rest.entries[|rest.entries| - 1];
      }
    }
  }

  /** The row list pass two should write after pass one's scan `r`. */
  function ExpectedRows(argv: seq<string>, r: Scan, zipped: bool, mtime: string -> int): seq<Row>
    requires |argv| > 0
  {
    EntryRows(r.entries, zipped, mtime)
      + (if TrailingPair(argv, r) then [FileRow(argv, |argv| - 1, zipped, mtime)] else [])
  }

  /** What pass two writes, in terms of pass one: one row per pass-one
      entry, in order, plus an extra row for the last argument exactly when
      pass one's last directive took that argument as its value. */
  lemma {:induction false} RowsFromScan(argv: seq<string>, i: nat, filter: Option<string>, zipped: bool, mtime: string -> int)
    requires DefinedFrom(argv, i)
    ensures |argv| > 0 ==> RowsFrom(argv, i, zipped, mtime) == ExpectedRows(argv, ScanFrom(argv, i, filter), zipped, mtime)
    ensures |argv| == 0 ==> RowsFrom(argv, i, zipped, mtime) == [] && ScanFrom(argv, i, filter).entries == []
    decreases |argv| - i, 1
  {
    if i >= |argv| {
    } else if argv[i] == ZipFlag {
      RowsFromScanDirective(argv, i, filter, zipped, mtime);
    } else {
      RowsFromScanFile(argv, i, filter, zipped, mtime);
    }
  }

  lemma {:induction false} RowsFromScanDirective(argv: seq<string>, i: nat, filter: Option<string>, zipped: bool, mtime: string -> int)
    requires i < |argv| && argv[i] == ZipFlag && DefinedFrom(argv, i)
    ensures RowsFrom(argv, i, zipped, mtime) == ExpectedRows(argv, ScanFrom(argv, i, filter), zipped, mtime)
    decreases |argv| - i, 0
  {
    var r := ScanFrom(argv, i, filter);
    var rest := ScanFrom(argv, i + 2, Some(argv[i + 1]));
    assert r.entries == rest.entries && r.directives == [i] + rest.directives;
    if i + 2 < |argv| {
      RowsFromScan(argv, i + 2, Some(argv[i + 1]), zipped, mtime);
      assert TrailingPair(argv, r) == TrailingPair(argv, rest);
    } else {
      assert rest.entries == [] && rest.directives == [];
      assert TrailingPair(argv, r);
    }
  }

  lemma {:induction false} RowsFromScanFile(argv: seq<string>, i: nat, filter: Option<string>, zipped: bool, mtime: string -> int)
    requires i < |argv| && argv[i] != ZipFlag && DefinedFrom(argv, i)
    ensures RowsFrom(argv, i, zipped, mtime) == ExpectedRows(argv, ScanFrom(argv, i, filter), zipped, mtime)
    decreases |argv| - i, 0
  {
    var r := ScanFrom(argv, i, filter);
    var rest := ScanFrom(argv, i + 1, filter);
    RowsFromScan(argv, i + 1, filter, zipped, mtime);
    assert r.entries == [Entry(i, argv[i], filter)] + rest.entries;
    assert r.directives == rest.directives;
    EntryRowsCons(argv, Entry(i, argv[i], filter), rest.entries, zipped, mtime);
  }

  /** The two passes agree whenever every obeyed `-z value` pair is
      followed by at least one more argument: pass two then writes exactly
      one row per pass-one entry, naming that entry's table. */
  lemma PassesAgree(argv: seq<string>, zipped: bool, mtime: string -> int)
    requires DefinedFrom(argv, 1)
    requires forall j :: 0 <= j < |ScanArgs(argv).directives| ==> ScanArgs(argv).directives[j] + 2 < |argv|
    ensures RowsFrom(argv, 1, zipped, mtime) == EntryRows(ScanArgs(argv).entries, zipped, mtime)
  {
    RowsFromScan(argv, 1, None, zipped, mtime);
  }

  /** When the value of the last obeyed directive is the last argument,
      pass two writes a row for that value pointing at `v<argc-1>`, a table
      pass one never declared. */
  lemma TrailingPairRow(argv: seq<string>, zipped: bool, mtime: string -> int)
    requires DefinedFrom(argv, 1)
    requires TrailingPair(argv, ScanArgs(argv))
    ensures var rows := RowsFrom(argv, 1, zipped, mtime);
      && |rows| == |ScanArgs(argv).entries| + 1
      && rows[|rows| - 1].Row?
      && rows[|rows| - 1].table == |argv| - 1
      && forall k :: 0 <= k < |ScanArgs(argv).entries| ==> ScanArgs(argv).entries[k].index != |argv| - 1
  {
    RowsFromScan(argv, 1, None, zipped, mtime);
    var sc := ScanArgs(argv);
    ScanPartition(argv, 1, None, |argv| - 1);
    assert (|argv| - 1) !in Indices(sc.entries);
    forall k | 0 <= k < |sc.entries|
      ensures sc.entries[k].index != |argv| - 1
    {
      assert Indices(sc.entries)[k] == sc.entries[k].index;
    }
  }

  /** The evidently intended directory: one row per pass-one entry, each
      flagged zipped exactly when that entry was read through a filter,
      then the sentinel. */
  function CorrectedRows(sc: Scan, mtime: string -> int): (r: seq<Row>)
    ensures |r| == |sc.entries| + 1 && r[|r| - 1] == End
    ensures forall k :: 0 <= k < |sc.entries| ==>
              r[k].Row? && r[k].table == sc.entries[k].index && r[k].name == "/" + sc.entries[k].path
              && (r[k].zipped <==> sc.entries[k].filter.Some?)
  {
    seq(|sc.entries|, k requires 0 <= k < |sc.entries| =>
      var e := sc.entries[k];
      Row("/" + e.path, e.index, mtime(e.path), e.filter.Some?)) + [End]
  }
}
