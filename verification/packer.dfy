/** The whole run of the generator (test/pack.c:43-109): pass one reads
    every file entry and declares its byte table, pass two writes the
    directory, and the accessors follow. The file system, the filter
    process and `stat` are oracles. */
module Packer {
  import opened Types
  import opened Args
  import opened ByteTable
  import opened Directory
  import opened Accessors

  /** What the outside world answers: the bytes `fopen` + `fgetc` read from
      a path (None when `fopen` fails), the bytes `popen` + `fgetc` read from
      a command's output (None when `popen` fails), and `stat`'s mtime. */
  datatype Env = Env(readFile: string -> Option<Bytes>, runFilter: string -> Option<Bytes>, mtime: string -> int)

  /** The fatal `Cannot open [target]` diagnostic. */
  datatype Failure = CannotOpen(target: string)

  /** The generated source: the byte tables in declaration order and the
      rows of `packed_files[]`. */
  datatype Artifact = Artifact(tables: seq<Table>, rows: seq<Row>)

  /** What is opened for an entry: the path itself, or the filter command. */
  function Target(e: Entry): string {
    match e.filter
    case None => e.path
    case Some(z) => Command(z, e.path)
  }

  /** The byte stream of one entry, or the fatal failure naming its target. */
  function Acquire(env: Env, e: Entry): (r: Result<Bytes, Failure>)
    ensures r.Err? ==> r.error == CannotOpen(Target(e))
    ensures e.filter.None? ==> (r.Ok? <==> env.readFile(e.path).Some?)
    ensures e.filter.Some? ==> (r.Ok? <==> env.runFilter(Command(e.filter.value, e.path)).Some?)
    ensures r.Ok? && e.filter.None? ==> Some(r.value) == env.readFile(e.path)
    ensures r.Ok? && e.filter.Some? ==> Some(r.value) == env.runFilter(Command(e.filter.value, e.path))
  {
    var src := if e.filter.None? then env.readFile(e.path) else env.runFilter(Command(e.filter.value, e.path));
    match src
    case None => Err(CannotOpen(Target(e)))
    case Some(bytes) => Ok(bytes)
  }

  /** Pass one's output: one table per entry in order, named after the
      entry's argument position; the first entry that cannot be opened ends
      the run. */
  function Tables(env: Env, es: seq<Entry>): (r: Result<seq<Table>, Failure>)
    ensures r.Ok? <==> forall k {:trigger Acquire(env, es[k])} :: 0 <= k < |es| ==> Acquire(env, es[k]).Ok?
    ensures r.Ok? ==> |r.value| == |es| && forall k {:trigger r.value[k]} :: 0 <= k < |es| ==>
              r.value[k] == Table(es[k].index, Encode(Acquire(env, es[k]).value))
    ensures r.Err? ==>
              exists k {:trigger Acquire(env, es[k])} :: 0 <= k < |es| && Acquire(env, es[k]) == Err(r.error)
                && forall j {:trigger Acquire(env, es[j])} :: 0 <= j < k ==> Acquire(env, es[j]).Ok?
    decreases |es|
  {
    if es == [] then Ok([])
    else
      var bytes :- Acquire(env, es[0]);
      var rest :- Tables(env, es[1..]);
      Ok([Table(es[0].index, Encode(bytes))] + rest)
  }

  /** The bytes read for an entry that could be opened. */
  function Stream(env: Env, e: Entry): Bytes
    requires Acquire(env, e).Ok?
  {
    Acquire(env, e).value
  }

  /** A run succeeds exactly when every file entry can be opened; otherwise
      it fails naming the target of the first one that cannot. */
  predicate FailsAtFirst(env: Env, es: seq<Entry>, r: Result<Artifact, Failure>) {
    && (r.Ok? <==> forall k :: 0 <= k < |es| ==> Acquire(env, es[k]).Ok?)
    && (r.Err? ==>
          exists k :: 0 <= k < |es| && r.error == CannotOpen(Target(es[k])) && Acquire(env, es[k]).Err?
            && forall j :: 0 <= j < k ==> Acquire(env, es[j]).Ok?)
  }

  /** One run as written. Pass two runs only after every entry was read,
      so only a run that reaches it needs `argv[argc]` left unread. */
  function Pack(env: Env, argv: seq<string>): (r: Result<Artifact, Failure>)
    requires Tables(env, ScanArgs(argv).entries).Ok? ==> DefinedFrom(argv, 1)
    ensures FailsAtFirst(env, ScanArgs(argv).entries, r)
  {
    var sc := ScanArgs(argv);
    var tables :- Tables(env, sc.entries);
    Ok(Artifact(tables, Rows(argv, sc.filter.Some?, env.mtime)))
  }

  /** One run with the directory derived from pass one's entries. */
  function PackFixed(env: Env, argv: seq<string>): (r: Result<Artifact, Failure>)
    ensures FailsAtFirst(env, ScanArgs(argv).entries, r)
  {
    var sc := ScanArgs(argv);
    var tables :- Tables(env, sc.entries);
    Ok(Artifact(tables, CorrectedRows(sc, env.mtime)))
  }

  /** The first table declared with identifier `v<id>`. */
  function FindTable(tables: seq<Table>, id: nat): (r: Option<Table>)
    ensures r.Some? <==> exists k :: 0 <= k < |tables| && tables[k].id == id
    ensures r.Some? ==> r.value in tables && r.value.id == id
    decreases |tables|
  {
    if tables == [] then None
    else if tables[0].id == id then Some(tables[0])
    else FindTable(tables[1..], id)
  }

  /** One compiled row: its data is the literals of the table it names and
      its size is their count (`sizeof`); a row naming a table that was
      never declared does not compile. A table id `i` stands for the C
      identifier `ByteTable.TableName(i)`, and `ByteTable.TableNamesDistinct`
      makes matching ids the same as matching identifiers. */
  function Resolve(tables: seq<Table>, row: Row): (r: Option<PackedFile>)
    ensures r.None? <==> row.Row? && FindTable(tables, row.table).None?
    ensures row.End? ==> r == Some(Sentinel)
    ensures r.Some? && row.Row? ==>
              exists t :: t in tables && t.id == row.table
                && r.value == File(row.name, Elements(t.body), |Elements(t.body)|, row.mtime, row.zipped)
  {
    match row
    case End => Some(Sentinel)
    case Row(name, id, mtime, zipped) =>
      match FindTable(tables, id)
      case None => None
      case Some(t) => Some(File(name, Elements(t.body), |Elements(t.body)|, mtime, zipped))
  }

  /** The compiled `packed_files[]`: it exists exactly when every row compiles. */
  function LinkRows(tables: seq<Table>, rows: seq<Row>): (r: Option<seq<PackedFile>>)
    ensures r.Some? <==> forall k :: 0 <= k < |rows| ==> Resolve(tables, rows[k]).Some?
    ensures r.Some? ==> |r.value| == |rows| && forall k :: 0 <= k < |rows| ==> r.value[k] == Resolve(tables, rows[k]).value
    decreases |rows|
  {
    if rows == [] then Some([])
    else
      match Resolve(tables, rows[0])
      case None => None
      case Some(p) =>
        match LinkRows(tables, rows[1..])
        case None => None
        case Some(rest) => Some([p] + rest)
  }

  function Link(art: Artifact): Option<seq<PackedFile>> {
    LinkRows(art.tables, art.rows)
  }
}
