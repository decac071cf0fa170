/** End-to-end properties of one generator run: the compiled directory,
    the sentinel, the `mg_unpack` round trip, and the two places where pass
    two departs from pass one. */
module Properties {
  import opened Types
  import opened Args
  import opened ByteTable
  import opened Directory
  import opened Accessors
  import opened Packer

  /** The table ids are the entries' argument positions. */
  lemma {:induction false} TableIds(env: Env, es: seq<Entry>, tables: seq<Table>)
    requires Tables(env, es) == Ok(tables)
    ensures |tables| == |es|
    ensures forall k :: 0 <= k < |es| ==> tables[k].id == es[k].index
  {
  }

  /** With distinct ids, the table for entry k is the one `v<index>` names. */
  lemma {:induction false} FindTableAt(tables: seq<Table>, k: nat)
    requires k < |tables|
    requires forall j :: 0 <= j < k ==> tables[j].id != tables[k].id
    ensures FindTable(tables, tables[k].id) == Some(tables[k])
    decreases k
  {
    if k > 0 {
      FindTableAt(tables[1..], k - 1);
    }
  }

  /** A directory whose rows line up with pass one's entries. */
  predicate Aligned(env: Env, es: seq<Entry>, rows: seq<Row>) {
    && |rows| == |es| + 1
    && rows[|es|] == End
    && forall k :: 0 <= k < |es| ==>
         rows[k].Row? && rows[k].table == es[k].index && rows[k].name == "/" + es[k].path
         && rows[k].mtime == env.mtime(es[k].path)
  }

  /** The compiled directory of an aligned run: row k holds entry k's
      stream plus the zero terminator, `sizeof` = n + 1, the original
      path's mtime; the sentinel comes last. */
  predicate CompiledFrom(env: Env, es: seq<Entry>, rows: seq<Row>, dir: seq<PackedFile>)
    requires forall k :: 0 <= k < |es| ==> Acquire(env, es[k]).Ok?
    requires Aligned(env, es, rows)
  {
    && |dir| == |es| + 1
    && dir[|es|] == Sentinel
    && forall k :: 0 <= k < |es| ==>
         var bytes := Stream(env, es[k]);
         dir[k] == File("/" + es[k].path, bytes + [0], |bytes| + 1, env.mtime(es[k].path), rows[k].zipped)
  }

  /** Row k of an aligned directory finds entry k's table, whose literals
      are entry k's bytes and a zero. */
  lemma LinkRowAt(env: Env, es: seq<Entry>, tables: seq<Table>, rows: seq<Row>, k: nat)
    requires Tables(env, es) == Ok(tables)
    requires StrictlyIncreasing(Indices(es))
    requires Aligned(env, es, rows)
    requires k < |es|
    ensures Resolve(tables, rows[k])
         == Some(File("/" + es[k].path, Stream(env, es[k]) + [0], |Stream(env, es[k])| + 1,
                      env.mtime(es[k].path), rows[k].zipped))
  {
    TableIds(env, es, tables);
    forall j | 0 <= j < k
      ensures tables[j].id != tables[k].id
    {
      assert Indices(es)[j] < Indices(es)[k];
    }
    FindTableAt(tables, k);
    EncodeElements(Stream(env, es[k]));
  }

  /** Every row of an aligned directory compiles. */
  lemma LinkCompiles(env: Env, es: seq<Entry>, tables: seq<Table>, rows: seq<Row>)
    requires Tables(env, es) == Ok(tables)
    requires Aligned(env, es, rows)
    ensures LinkRows(tables, rows).Some?
  {
    TableIds(env, es, tables);
    forall k | 0 <= k < |rows|
      ensures Resolve(tables, rows[k]).Some?
    {
      RowCompiles(env, es, tables, rows, k);
    }
  }

  /** A row of an aligned directory names a declared table, or is the
      sentinel. */
  lemma RowCompiles(env: Env, es: seq<Entry>, tables: seq<Table>, rows: seq<Row>, k: nat)
    requires |tables| == |es| && forall j :: 0 <= j < |es| ==> tables[j].id == es[j].index
    requires Aligned(env, es, rows)
    requires k < |rows|
    ensures Resolve(tables, rows[k]).Some?
  {
    if k < |es| {
      assert tables[k].id == rows[k].table;
      assert FindTable(tables, rows[k].table).Some?;
    } else {
      assert rows[k] == End;
    }
  }

  lemma LinkAligned(env: Env, es: seq<Entry>, tables: seq<Table>, rows: seq<Row>)
    requires Tables(env, es) == Ok(tables)
    requires StrictlyIncreasing(Indices(es))
    requires Aligned(env, es, rows)
    ensures LinkRows(tables, rows).Some?
    ensures CompiledFrom(env, es, rows, LinkRows(tables, rows).value)
  {
    LinkCompiles(env, es, tables, rows);
    var dir := LinkRows(tables, rows).value;
    assert dir[|es|] == Sentinel;
    forall k | 0 <= k < |es|
      ensures dir[k] == File("/" + es[k].path, Stream(env, es[k]) + [0], |Stream(env, es[k])| + 1,
                             env.mtime(es[k].path), rows[k].zipped)
    {
      LinkRowAt(env, es, tables, rows, k);
    }
  }

  /** The sentinel: `mg_unlist(number_of_files)` is NULL, and the search of
      `mg_unpack` sees exactly the real rows. */
  lemma SentinelEnds(es: seq<Entry>, dir: seq<PackedFile>)
    requires |dir| == |es| + 1 && dir[|es|] == Sentinel
    requires forall k :: 0 <= k < |es| ==> dir[k].File?
    ensures HasSentinel(dir, 0)
    ensures FirstSentinel(dir, 0) == |es|
    ensures Unlist(dir, |es|) == None
  {
  }

  /** `mg_unpack("/" + path)` on an aligned directory: it hits exactly the
      names of entries, and for the first entry with that path it returns
      the stream followed by its zero terminator, reports n as the size and
      the original file's mtime, writing only through non-NULL pointers. */
  lemma {:induction false} UnpackAligned(env: Env, es: seq<Entry>, rows: seq<Row>, dir: seq<PackedFile>,
                                        name: string, size: Slot<nat>, mtime: Slot<int>)
    requires forall k :: 0 <= k < |es| ==> Acquire(env, es[k]).Ok?
    requires Aligned(env, es, rows)
    requires CompiledFrom(env, es, rows, dir)
    ensures HasSentinel(dir, 0)
    ensures Unpack(dir, name, size, mtime).data.Some? <==> exists k :: 0 <= k < |es| && name == "/" + es[k].path
    ensures Unpack(dir, name, size, mtime).data.None? ==> Unpack(dir, name, size, mtime) == Unpacked(None, size, mtime)
    ensures forall k :: 0 <= k < |es| && name == "/" + es[k].path && (forall j :: 0 <= j < k ==> es[j].path != es[k].path) ==>
              var bytes := Stream(env, es[k]);
              Unpack(dir, name, size, mtime)
                == Unpacked(Some(bytes + [0]), Store(size, |bytes|), Store(mtime, env.mtime(es[k].path)))
  {
    SentinelEnds(es, dir);
    forall j | 0 <= j < |es|
      ensures Named(dir[j], name) <==> name == "/" + es[j].path
    {
    }
    forall k | 0 <= k < |es| && name == "/" + es[k].path && (forall j :: 0 <= j < k ==> es[j].path != es[k].path)
      ensures Unpack(dir, name, size, mtime)
           == Unpacked(Some(Stream(env, es[k]) + [0]), Store(size, |Stream(env, es[k])|), Store(mtime, env.mtime(es[k].path)))
    {
      forall j | 0 <= j < k
        ensures !Named(dir[j], name)
      {
        assert es[j].path != es[k].path;
        assert ("/" + es[j].path)[1..] == es[j].path;
        assert ("/" + es[k].path)[1..] == es[k].path;
      }
      UnpackHit(dir, k, name, size, mtime);
    }
  }

  /** The two halves of a successful run as written. */
  lemma PackParts(env: Env, argv: seq<string>, art: Artifact)
    requires DefinedFrom(argv, 1)
    requires Pack(env, argv) == Ok(art)
    ensures Tables(env, ScanArgs(argv).entries) == Ok(art.tables)
    ensures art.rows == Rows(argv, ScanArgs(argv).filter.Some?, env.mtime)
  {
  }

  /** A run whose passes agree (every obeyed `-z value` pair is followed by
      another argument) compiles; every row carries the one zipped flag
      `zip_cmd != NULL`, true exactly when pass one obeyed some `-z`. */
  lemma WellFormedRun(env: Env, argv: seq<string>, art: Artifact)
    requires DefinedFrom(argv, 1)
    requires !TrailingPair(argv, ScanArgs(argv))
    requires Pack(env, argv) == Ok(art)
    ensures Aligned(env, ScanArgs(argv).entries, art.rows)
    ensures Link(art).Some?
    ensures CompiledFrom(env, ScanArgs(argv).entries, art.rows, Link(art).value)
    ensures Unlist(Link(art).value, |ScanArgs(argv).entries|).None?
    ensures forall k :: 0 <= k < |ScanArgs(argv).entries| ==>
              (Link(art).value[k].zipped <==> |ScanArgs(argv).directives| > 0)
  {
    var sc := ScanArgs(argv);
    WellFormedRows(env, argv, art);
    PackParts(env, argv, art);
    ScanShape(argv, 1, None);
    LinkAligned(env, sc.entries, art.tables, art.rows);
  }

  /** Pass two of such a run writes exactly the rows of pass one's entries,
      all carrying the run's one zipped flag. */
  lemma WellFormedRows(env: Env, argv: seq<string>, art: Artifact)
    requires DefinedFrom(argv, 1)
    requires !TrailingPair(argv, ScanArgs(argv))
    requires Pack(env, argv) == Ok(art)
    ensures Aligned(env, ScanArgs(argv).entries, art.rows)
    ensures forall k :: 0 <= k < |ScanArgs(argv).entries| ==> art.rows[k].zipped == ScanArgs(argv).filter.Some?
  {
    var sc := ScanArgs(argv);
    var zipped := sc.filter.Some?;
    PackParts(env, argv, art);
    RowsFromScan(argv, 1, None, zipped, env.mtime);
    assert art.rows == EntryRows(sc.entries, zipped, env.mtime) + [End];
  }

  /** The round trip of a successful run whose passes agree (no `-z value`
      pair ends `argv`): for the first file entry with a given path,
      `mg_unpack("/" + path, &size, &mtime)` returns the bytes read for it
      followed by a zero, sets size to their count and mtime to the
      original file's. */
  lemma RoundTrip(env: Env, argv: seq<string>, art: Artifact, k: nat, size0: nat, mtime0: int)
    requires DefinedFrom(argv, 1)
    requires !TrailingPair(argv, ScanArgs(argv))
    requires Pack(env, argv) == Ok(art)
    requires k < |ScanArgs(argv).entries|
    requires forall j :: 0 <= j < k ==> ScanArgs(argv).entries[j].path != ScanArgs(argv).entries[k].path
    ensures Link(art).Some? && HasSentinel(Link(art).value, 0)
    ensures var e := ScanArgs(argv).entries[k];
      var bytes := Stream(env, e);
      var got := Unpack(Link(art).value, "/" + e.path, Ptr(size0), Ptr(mtime0));
      && got.data.Some?
      && got.size == Ptr(|bytes|)
      && got.mtime == Ptr(env.mtime(e.path))
      && |got.data.value| == |bytes| + 1
      && got.data.value[..|bytes|] == bytes
      && got.data.value[|bytes|] == 0
  {
    var es := ScanArgs(argv).entries;
    var bytes := Stream(env, es[k]);
    WellFormedRun(env, argv, art);
    var dir := Link(art).value;
    var name := "/" + es[k].path;
    UnpackAligned(env, es, art.rows, dir, name, Ptr(size0), Ptr(mtime0));
    var got := Unpack(dir, name, Ptr(size0), Ptr(mtime0));
    assert got == Unpacked(Some(bytes + [0]), Ptr(|bytes|), Ptr(env.mtime(es[k].path)));
    assert got.data.value[..|bytes|] == bytes;
  }

  /** Pass-two discrepancy, as written: when the value of the last obeyed
      `-z` is the last argument, pass two adds a row for that value whose
      table `v<argc-1>` was never declared, so the output does not compile. */
  lemma TrailingPairBreaksLink(env: Env, argv: seq<string>, art: Artifact)
    requires DefinedFrom(argv, 1)
    requires TrailingPair(argv, ScanArgs(argv))
    requires Pack(env, argv) == Ok(art)
    ensures Link(art).None?
  {
    var sc := ScanArgs(argv);
    var zipped := sc.filter.Some?;
    TrailingPairRow(argv, zipped, env.mtime);
    var rows := RowsFrom(argv, 1, zipped, env.mtime);
    var last := |rows| - 1;
    PackParts(env, argv, art);
    assert art.rows[last] == rows[last];
    TableIds(env, sc.entries, art.tables);
    assert forall t :: 0 <= t < |art.tables| ==> art.tables[t].id != |argv| - 1;
    assert FindTable(art.tables, |argv| - 1).None?;
    assert Resolve(art.tables, art.rows[last]).None?;
  }

  /** Pass-two discrepancy, as written: `zipped` is one flag for the whole
      directory, so a file read directly is still marked zipped as soon as
      pass one obeyed any `-z`. */
  lemma UnfilteredFileMarkedZipped(argv: seq<string>, mtime: string -> int, k: nat)
    requires DefinedFrom(argv, 1)
    requires k < |ScanArgs(argv).entries|
    requires ScanArgs(argv).entries[k].filter.None?
    requires |ScanArgs(argv).directives| > 0
    ensures var e := ScanArgs(argv).entries[k];
      var rows := Rows(argv, ScanArgs(argv).filter.Some?, mtime);
      k < |rows| && rows[k] == Row("/" + e.path, e.index, mtime(e.path), true)
  {
    var sc := ScanArgs(argv);
    RowsFromScan(argv, 1, None, true, mtime);
    assert sc.filter.Some?;
    assert RowsFrom(argv, 1, true, mtime)[k] == EntryRows(sc.entries, true, mtime)[k];
  }

  /** The smallest such command line: `a.txt` comes before the `-z`. */
  lemma ZippedExample(mtime: string -> int)
    ensures var argv := ["pack", "a.txt", "-z", "gzip -c", "b.txt"];
      var sc := ScanArgs(argv);
      && DefinedFrom(argv, 1)
      && sc.entries[0] == Entry(1, "a.txt", None)
      && sc.entries[1] == Entry(4, "b.txt", Some("gzip -c"))
      && Rows(argv, sc.filter.Some?, mtime)[0] == Row("/a.txt", 1, mtime("a.txt"), true)
  {
  }

  /** The corrected run always compiles, and each row is flagged zipped
      exactly when its entry was read through a filter. */
  lemma FixedRun(env: Env, argv: seq<string>, art: Artifact)
    requires PackFixed(env, argv) == Ok(art)
    ensures Aligned(env, ScanArgs(argv).entries, art.rows)
    ensures Link(art).Some?
    ensures CompiledFrom(env, ScanArgs(argv).entries, art.rows, Link(art).value)
    ensures forall k :: 0 <= k < |ScanArgs(argv).entries| ==>
              (Link(art).value[k].zipped <==> ScanArgs(argv).entries[k].filter.Some?)
  {
    var sc := ScanArgs(argv);
    assert Tables(env, sc.entries) == Ok(art.tables);
    assert art.rows == CorrectedRows(sc, env.mtime);
    ScanShape(argv, 1, None);
    assert Aligned(env, sc.entries, art.rows);
    LinkAligned(env, sc.entries, art.tables, art.rows);
  }

  /** `./pack hello.txt`: pass one sees one unfiltered entry at position 1,
      and pass two writes its row. */
  lemma HelloScan()
    ensures DefinedFrom(["pack", "hello.txt"], 1)
    ensures ScanArgs(["pack", "hello.txt"]) == Scan([Entry(1, "hello.txt", None)], [], None)
    ensures !TrailingPair(["pack", "hello.txt"], ScanArgs(["pack", "hello.txt"]))
  {
  }

  /** With a five-byte `hello.txt` the run compiles to that entry's row and
      the sentinel. */
  lemma HelloRun(env: Env)
    requires env.readFile("hello.txt") == Some([104, 101, 108, 108, 111])
    ensures DefinedFrom(["pack", "hello.txt"], 1)
    ensures Pack(env, ["pack", "hello.txt"]).Ok?
    ensures var art := Pack(env, ["pack", "hello.txt"]).value;
      Link(art) == Some([File("/hello.txt", [104, 101, 108, 108, 111, 0], 6, env.mtime("hello.txt"), false), Sentinel])
  {
    var argv := ["pack", "hello.txt"];
    HelloScan();
    var sc := ScanArgs(argv);
    var bytes: Bytes := [104, 101, 108, 108, 111];
    assert Acquire(env, sc.entries[0]) == Ok(bytes);
    var art := Pack(env, argv).value;
    WellFormedRun(env, argv, art);
    var dir := Link(art).value;
    assert bytes + [0] == [104, 101, 108, 108, 111, 0];
    assert dir[0] == File("/hello.txt", [104, 101, 108, 108, 111, 0], 6, env.mtime("hello.txt"), false);
    assert dir[1] == Sentinel;
    assert dir == [dir[0], dir[1]];
  }

  /** With a five-byte `hello.txt`, `mg_unpack("/hello.txt", &size, &mtime)`
      gives the five bytes and a zero, size 5 and the file's mtime, and
      `mg_unpack("/nonexistent", NULL, NULL)` gives NULL. */
  lemma HelloExample(env: Env, size0: nat, mtime0: int)
    requires env.readFile("hello.txt") == Some([104, 101, 108, 108, 111])
    ensures DefinedFrom(["pack", "hello.txt"], 1)
    ensures Pack(env, ["pack", "hello.txt"]).Ok?
    ensures var art := Pack(env, ["pack", "hello.txt"]).value;
      && Link(art).Some?
      && HasSentinel(Link(art).value, 0)
      && Unpack(Link(art).value, "/hello.txt", Ptr(size0), Ptr(mtime0))
           == Unpacked(Some([104, 101, 108, 108, 111, 0]), Ptr(5), Ptr(env.mtime("hello.txt")))
      && Unpack(Link(art).value, "/nonexistent", Null, Null) == Unpacked(None, Null, Null)
  {
    HelloRun(env);
    var dir := [File("/hello.txt", [104, 101, 108, 108, 111, 0], 6, env.mtime("hello.txt"), false), Sentinel];
    assert dir[1].Sentinel?;
    assert dir[0].name != "/nonexistent";
  }

  /** `./pack -z "gzip -c" a.txt`: the one entry is read through the
      command `gzip -c a.txt`, and a failure to start it names that command. */
  lemma FilterExample(env: Env)
    ensures ScanArgs(["pack", "-z", "gzip -c", "a.txt"]) == Scan([Entry(3, "a.txt", Some("gzip -c"))], [1], Some("gzip -c"))
    ensures var e := Entry(3, "a.txt", Some("gzip -c"));
      && (env.runFilter("gzip -c a.txt").Some? ==> Acquire(env, e) == Ok(env.runFilter("gzip -c a.txt").value))
      && (env.runFilter("gzip -c a.txt").None? ==> Acquire(env, e) == Err(CannotOpen("gzip -c a.txt")))
  {
    var argv := ["pack", "-z", "gzip -c", "a.txt"];
    assert ScanFrom(argv, 4, Some("gzip -c")) == Scan([], [], Some("gzip -c"));
    assert ScanFrom(argv, 3, Some("gzip -c")) == Scan([Entry(3, "a.txt", Some("gzip -c"))], [], Some("gzip -c"));
    assert Command("gzip -c", "a.txt") == "gzip -c a.txt";
  }

  /** `pack missing.txt -z`: pass one takes the final `-z` as a file, so
      pass two would read past the arguments, but the run already stops
      at the first file it cannot open. */
  lemma LoneFlagFailure(env: Env)
    requires env.readFile("missing.txt") == None
    ensures ScanArgs(["pack", "missing.txt", "-z"]).entries == [Entry(1, "missing.txt", None), Entry(2, "-z", None)]
    ensures !DefinedFrom(["pack", "missing.txt", "-z"], 1)
    ensures Pack(env, ["pack", "missing.txt", "-z"]) == Err(CannotOpen("missing.txt"))
  {
    var argv := ["pack", "missing.txt", "-z"];
    assert ScanFrom(argv, 2, None) == Scan([Entry(2, "-z", None)], [], None);
    assert Acquire(env, Entry(1, "missing.txt", None)).Err?;
  }
}
