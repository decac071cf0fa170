/** Pass one of the generator (test/pack.c:52-64): a left-to-right walk over
    `argv[1..argc)` that carries the current filter command. `-z value` sets
    the filter; every other token is a file entry that is read through it. */
module Args {
  import opened Types

  /** The filter flag. */
  const ZipFlag: string := "-z"

  /** `sizeof(cmd)`: the command buffer holds at most 2047 characters and NUL. */
  const CmdCapacity: nat := 2048

  /** A file entry: its argument position, its path and the filter in force. */
  datatype Entry = Entry(index: nat, path: string, filter: Option<string>)

  /** What pass one leaves behind: the file entries in argument order, the
      positions of the `-z` tokens it obeyed, and the final `zip_cmd`. */
  datatype Scan = Scan(entries: seq<Entry>, directives: seq<nat>, filter: Option<string>)

  function Indices(es: seq<Entry>): (r: seq<nat>)
    ensures |r| == |es|
    ensures forall k {:trigger r[k]} :: 0 <= k < |es| ==> r[k] == es[k].index
  {
    seq(|es|, k requires 0 <= k < |es| => es[k].index)
  }

  predicate StrictlyIncreasing(xs: seq<nat>) {
    forall a, b :: 0 <= a < b < |xs| ==> xs[a] < xs[b]
  }

  /** The scan from argument position `i` on, with `filter` in force. */
  function ScanFrom(argv: seq<string>, i: nat, filter: Option<string>): (r: Scan)
    ensures r.filter.Some? <==> filter.Some? || |r.directives| > 0
    decreases |argv| - i
  {
    if i >= |argv| then Scan([], [], filter)
    else if argv[i] == ZipFlag && i + 1 < |argv| then
      var rest := ScanFrom(argv, i + 2, Some(argv[i + 1]));
      Scan(rest.entries, [i] + rest.directives, rest.filter)
    else
      var rest := ScanFrom(argv, i + 1, filter);
      Scan([Entry(i, argv[i], filter)] + rest.entries, rest.directives, rest.filter)
  }

  /** File entries keep their argument position and their own argument as
      path, in strictly increasing order. */
  predicate EntriesPlaced(argv: seq<string>, i: nat, es: seq<Entry>) {
    && StrictlyIncreasing(Indices(es))
    && forall k :: 0 <= k < |es| ==> i <= es[k].index < |argv| && es[k].path == argv[es[k].index]
  }

  /** Directives are obeyed `-z` tokens that have a following value, in
      strictly increasing order. */
  predicate DirectivesPlaced(argv: seq<string>, i: nat, ds: seq<nat>) {
    && StrictlyIncreasing(ds)
    && forall k :: 0 <= k < |ds| ==> i <= ds[k] && ds[k] + 1 < |argv| && argv[ds[k]] == ZipFlag
  }

  predicate WellPlaced(argv: seq<string>, i: nat, r: Scan) {
    EntriesPlaced(argv, i, r.entries) && DirectivesPlaced(argv, i, r.directives)
  }

  lemma {:induction false} ScanEntriesPlaced(argv: seq<string>, i: nat, filter: Option<string>)
    ensures EntriesPlaced(argv, i, ScanFrom(argv, i, filter).entries)
    decreases |argv| - i
  {
    if i >= |argv| {
    } else if argv[i] == ZipFlag && i + 1 < |argv| {
      ScanEntriesPlaced(argv, i + 2, Some(argv[i + 1]));
    } else {
      var rest := ScanFrom(argv, i + 1, filter).entries;
      var es := ScanFrom(argv, i, filter).entries;
      ScanEntriesPlaced(argv, i + 1, filter);
      assert es == [Entry(i, argv[i], filter)] + rest;
      assert Indices(es) == [i] + Indices(rest);
    }
  }

  lemma {:induction false} ScanDirectivesPlaced(argv: seq<string>, i: nat, filter: Option<string>)
    ensures DirectivesPlaced(argv, i, ScanFrom(argv, i, filter).directives)
    decreases |argv| - i
  {
    if i >= |argv| {
    } else if argv[i] == ZipFlag && i + 1 < |argv| {
      ScanDirectivesPlaced(argv, i + 2, Some(argv[i + 1]));
      var rest := ScanFrom(argv, i + 2, Some(argv[i + 1])).directives;
      assert ScanFrom(argv, i, filter).directives == [i] + rest;
    } else {
      ScanDirectivesPlaced(argv, i + 1, filter);
    }
  }

  lemma ScanShape(argv: seq<string>, i: nat, filter: Option<string>)
    ensures WellPlaced(argv, i, ScanFrom(argv, i, filter))
  {
    ScanEntriesPlaced(argv, i, filter);
    ScanDirectivesPlaced(argv, i, filter);
  }

  /** Pass one over the whole command line; `argv[0]` is the program name. */
  function ScanArgs(argv: seq<string>): Scan {
    ScanFrom(argv, 1, None)
  }

  /** The filter value set by the last directive in `ds` that lies before
      position `k`, or `init` when no directive does. */
  function LatestFilter(argv: seq<string>, ds: seq<nat>, k: nat, init: Option<string>): Option<string>
    requires forall j :: 0 <= j < |ds| ==> ds[j] + 1 < |argv|
    decreases |ds|
  {
    if ds == [] then init
    else if ds[|ds| - 1] < k then Some(argv[ds[|ds| - 1] + 1])
    else LatestFilter(argv, ds[..|ds| - 1], k, init)
  }

  lemma {:induction false} LatestFilterNone(argv: seq<string>, ds: seq<nat>, k: nat, init: Option<string>)
    requires forall j :: 0 <= j < |ds| ==> ds[j] + 1 < |argv|
    requires forall j :: 0 <= j < |ds| ==> k <= ds[j]
    ensures LatestFilter(argv, ds, k, init) == init
    decreases |ds|
  {
    if ds != [] {
      LatestFilterNone(argv, ds[..|ds| - 1], k, init);
    }
  }

  lemma {:induction false} LatestFilterCons(argv: seq<string>, d: nat, ds: seq<nat>, k: nat, init: Option<string>)
    requires d + 1 < |argv| && d < k
    requires forall j :: 0 <= j < |ds| ==> ds[j] + 1 < |argv|
    ensures LatestFilter(argv, [d] + ds, k, init) == LatestFilter(argv, ds, k, Some(argv[d + 1]))
    decreases |ds|
  {
    if ds != [] {
      var ds' := [d] + ds;
      assert ds'[..|ds'| - 1] == [d] + ds[..|ds| - 1];
      if ds[|ds| - 1] >= k {
        LatestFilterCons(argv, d, ds[..|ds| - 1], k, init);
      }
    }
  }

  /** Every file entry is read through the filter of the most recent
      directive before it (never cleared), and the final `zip_cmd` is the
      value of the last directive. */
  lemma {:induction false} ScanFilters(argv: seq<string>, i: nat, filter: Option<string>)
    ensures var r := ScanFrom(argv, i, filter);
      && WellPlaced(argv, i, r)
      && (forall k :: 0 <= k < |r.entries| ==>
            r.entries[k].filter == LatestFilter(argv, r.directives, r.entries[k].index, filter))
      && r.filter == LatestFilter(argv, r.directives, |argv|, filter)
    decreases |argv| - i
  {
    var r := ScanFrom(argv, i, filter);
    ScanShape(argv, i, filter);
    if i >= |argv| {
    } else if argv[i] == ZipFlag && i + 1 < |argv| {
      var f := Some(argv[i + 1]);
      var rest := ScanFrom(argv, i + 2, f);
      ScanFilters(argv, i + 2, f);
      forall k | 0 <= k < |r.entries|
        ensures r.entries[k].filter == LatestFilter(argv, r.directives, r.entries[k].index, filter)
      {
        LatestFilterCons(argv, i, rest.directives, r.entries[k].index, filter);
      }
      LatestFilterCons(argv, i, rest.directives, |argv|, filter);
    } else {
      var rest := ScanFrom(argv, i + 1, filter);
      ScanFilters(argv, i + 1, filter);
      LatestFilterNone(argv, rest.directives, i, filter);
      forall k | 0 <= k < |r.entries|
        ensures r.entries[k].filter == LatestFilter(argv, r.directives, r.entries[k].index, filter)
      {
        if k > 0 {
          assert r.entries[k] == rest.entries[k - 1];
        }
      }
    }
  }

  /** Every position from `i` on is exactly one of: a directive, the value
      of the directive just before it, or a file entry. */
  lemma {:induction false} ScanPartition(argv: seq<string>, i: nat, filter: Option<string>, p: nat)
    requires i <= p < |argv|
    ensures var r := ScanFrom(argv, i, filter);
      (p in Indices(r.entries)) <==> !(p in r.directives || (p > 0 && p - 1 in r.directives))
    ensures var r := ScanFrom(argv, i, filter);
      !(p in r.directives && p > 0 && p - 1 in r.directives)
    decreases |argv| - i
  {
    var r := ScanFrom(argv, i, filter);
    if argv[i] == ZipFlag && i + 1 < |argv| {
      var rest := ScanFrom(argv, i + 2, Some(argv[i + 1]));
      ScanShape(argv, i + 2, Some(argv[i + 1]));
      assert Indices(r.entries) == Indices(rest.entries);
      if p >= i + 2 {
        ScanPartition(argv, i + 2, Some(argv[i + 1]), p);
      } else {
        assert p !in rest.directives && p !in Indices(rest.entries);
        assert p == i || p - 1 == i;
      }
    } else {
      var rest := ScanFrom(argv, i + 1, filter);
      ScanShape(argv, i + 1, filter);
      assert Indices(r.entries) == [i] + Indices(rest.entries);
      if p > i {
        ScanPartition(argv, i + 1, filter, p);
      } else {
        assert p !in rest.directives;
        assert p - 1 !in rest.directives;
      }
    }
  }

  /** The converse of `ScanDirectivesPlaced`: a `-z` from `i` on that has a
      following argument and is not itself the value of the directive just
      before it is obeyed. With `ScanPartition` this fixes which positions
      pass one reads as files. */
  lemma {:induction false} ScanObeys(argv: seq<string>, i: nat, filter: Option<string>, p: nat)
    requires i <= p && p + 1 < |argv| && argv[p] == ZipFlag
    requires !(p > i && p - 1 in ScanFrom(argv, i, filter).directives)
    ensures p in ScanFrom(argv, i, filter).directives
    decreases |argv| - i
  {
    var r := ScanFrom(argv, i, filter);
    if argv[i] == ZipFlag && i + 1 < |argv| {
      var rest := ScanFrom(argv, i + 2, Some(argv[i + 1]));
      assert r.directives == [i] + rest.directives;
      if p > i {
        assert p != i + 1;
        assert p - 1 in rest.directives ==> p - 1 in r.directives;
        ScanObeys(argv, i + 2, Some(argv[i + 1]), p);
      }
    } else {
      var rest := ScanFrom(argv, i + 1, filter);
      assert r.directives == rest.directives;
      ScanObeys(argv, i + 1, filter, p);
    }
  }

  /** The command handed to `popen`: `"<filter> <path>"`, cut by `snprintf`
      to the capacity of the buffer. */
  function Command(filter: string, path: string): (cmd: string)
    ensures |cmd| < CmdCapacity
    ensures cmd <= filter + " " + path
    ensures |filter| + 1 + |path| < CmdCapacity ==> cmd == filter + " " + path
    ensures |filter| + 1 + |path| >= CmdCapacity ==> |cmd| == CmdCapacity - 1
  {
    var full := filter + " " + path;
    if |full| < CmdCapacity then full else full[..CmdCapacity - 1]
  }
}
