/**
 * The per-line pipeline of pyline as its tests exercise it: every input
 * line becomes a context (the raw line, its words, its ordinal), a command
 * is evaluated against the context, each value is wrapped in a result
 * record numbered by its line, and the records are optionally sorted by
 * one column.
 */
module Pyline {
  import opened Wrappers
  import opened Text
  import opened StableSort

  /** What a command produces for one line: a string or a list of strings. */
  datatype Value = Str(s: string) | Fields(fields: seq<string>)

  /** The names a command can use for one line: `line`, `words` and the ordinal `i`. */
  datatype LineContext = LineContext(line: string, words: seq<string>, index: nat)

  /** One evaluated line: its ordinal `n` and its `result`. */
  datatype Record = Record(n: nat, result: Value)

  /**
   * The command evaluated per line: the expressions `line` and `words`, or a
   * caller-supplied function of the context (`codefunc`).
   */
  datatype Cmd = LineCmd | WordsCmd | CodeFunc(f: LineContext -> Value)

  /** `sort_asc` / `sort_desc`: one column index and a direction. */
  datatype SortKey = SortKey(column: nat, dir: Direction)

  datatype Options = Options(cmd: Cmd, sort: Option<SortKey>)

  /** Record `n` has no element at index `column`, so it has no sort key. */
  datatype Error = MissingColumn(n: nat, column: nat)

  /** The context of the line at ordinal `index`. */
  function BuildContext(line: string, index: nat): LineContext {
    LineContext(line, Split(line), index)
  }

  /** The value of `cmd` for one line. */
  function Evaluate(cmd: Cmd, ctx: LineContext): Value {
    match cmd
    case LineCmd => Str(ctx.line)
    case WordsCmd => Fields(ctx.words)
    case CodeFunc(f) => f(ctx)
  }

  /** The record of the line at ordinal `index`. */
  function RecordOf(cmd: Cmd, line: string, index: nat): Record {
    Record(index, Evaluate(cmd, BuildContext(line, index)))
  }

  /** The records of `lines`, numbered from `start`. */
  function RecordsFrom(lines: seq<string>, cmd: Cmd, start: nat): (rs: seq<Record>)
    ensures |rs| == |lines|
    ensures forall i :: 0 <= i < |rs| ==> rs[i] == RecordOf(cmd, lines[i], start + i)
    decreases |lines|
  {
    if lines == [] then []
    else
      var rest := RecordsFrom(lines[1..], cmd, start + 1);
      var rs := [RecordOf(cmd, lines[0], start)] + rest;
      rs
  }

  /** The records of `lines`: one per line, in input order, numbered from 0. */
  function Records(lines: seq<string>, cmd: Cmd): seq<Record> {
    RecordsFrom(lines, cmd, 0)
  }

  /** `[x.result for x in records]`. */
  function Results(rs: seq<Record>): (vs: seq<Value>)
    ensures |vs| == |rs|
    ensures forall i :: 0 <= i < |rs| ==> vs[i] == rs[i].result
  {
    if rs == [] then [] else [rs[0].result] + Results(rs[1..])
  }

  /** `result[column]` as a string, when the result has that index. */
  function Column(v: Value, column: nat): (k: Option<string>)
    ensures k.Some? <==> column < (match v case Str(s) => |s| case Fields(fs) => |fs|)
  {
    match v
    case Str(s) => if column < |s| then Some([s[column]]) else None
    case Fields(fs) => if column < |fs| then Some(fs[column]) else None
  }

  /** The sort key of a record, for a column every record has. */
  function ColumnKey(r: Record, column: nat): string {
    match Column(r.result, column)
    case Some(k) => k
    case None => []
  }

  /** The key function `sort_by` applies to every record. */
  function KeyOf(column: nat): Record -> string {
    r => ColumnKey(r, column)
  }

  /** Index of the first record without the column, if there is one. */
  function FirstMissing(rs: seq<Record>, column: nat): (m: Option<nat>)
    ensures m.None? <==> forall i :: 0 <= i < |rs| ==> Column(rs[i].result, column).Some?
    ensures m.Some? ==> m.value < |rs| && Column(rs[m.value].result, column).None?
    ensures m.Some? ==> forall i :: 0 <= i < m.value ==> Column(rs[i].result, column).Some?
  {
    if rs == [] then None
    else if Column(rs[0].result, column).None? then Some(0)
    else match FirstMissing(rs[1..], column)
      case None => None
      case Some(i) => Some(i + 1)
  }

  /**
   * Stable sort of the records by `result[column]`, keys compared as
   * strings. Fails, naming the record, when some record lacks the column.
   */
  function SortRecords(rs: seq<Record>, sk: SortKey): (r: Result<seq<Record>, Error>)
    ensures r.Success? <==> forall i :: 0 <= i < |rs| ==> Column(rs[i].result, sk.column).Some?
    ensures r.Success? ==> multiset(r.value) == multiset(rs)
    ensures r.Failure? ==> r.error.column == sk.column
    ensures r.Failure? ==> exists i :: 0 <= i < |rs| && rs[i].n == r.error.n
                                       && Column(rs[i].result, sk.column).None?
  {
    match FirstMissing(rs, sk.column)
    case Some(i) => Failure(MissingColumn(rs[i].n, sk.column))
    case None =>
      SortByPermutes(rs, KeyOf(sk.column), sk.dir);
      Success(SortBy(rs, KeyOf(sk.column), sk.dir))
  }

  /**
   * `main(iterable=lines, results=output, opts=...)`: the records of the
   * lines, sorted when a sort key is given.
   */
  function Main(lines: seq<string>, opts: Options): (r: Result<seq<Record>, Error>)
    ensures opts.sort.None? ==> r.Success?
    ensures r.Success? ==> |r.value| == |lines|
    ensures r.Success? ==> multiset(r.value) == multiset(Records(lines, opts.cmd))
  {
    var rs := Records(lines, opts.cmd);
    match opts.sort
    case None => Success(rs)
    case Some(sk) => SortRecords(rs, sk)
  }

  // ---------------------------------------------------------------------
  // What the records hold
  // ---------------------------------------------------------------------

  /** `[Str(l) for l in ls]`. */
  function Texts(ls: seq<string>): seq<Value> {
    seq(|ls|, i requires 0 <= i < |ls| => Str(ls[i]))
  }

  /** `[Fields(ws) for ws in wss]`. */
  function FieldLists(wss: seq<seq<string>>): seq<Value> {
    seq(|wss|, i requires 0 <= i < |wss| => Fields(wss[i]))
  }

  /** The ordinals of the records are 0, 1, 2, ... in input order. */
  lemma RecordsNumbered(lines: seq<string>, cmd: Cmd)
    ensures forall i :: 0 <= i < |Records(lines, cmd)| ==> Records(lines, cmd)[i].n == i
    ensures forall i, j :: 0 <= i < j < |Records(lines, cmd)| ==>
              Records(lines, cmd)[i].n < Records(lines, cmd)[j].n
  {
  }

  /** With the command `line` and no sort, the results are the input lines verbatim. */
  lemma LineModeVerbatim(lines: seq<string>)
    ensures Main(lines, Options(LineCmd, None)).Success?
    ensures Results(Main(lines, Options(LineCmd, None)).value) == Texts(lines)
  {
  }

  /** With the command `words` and no sort, each result is the `split()` of its line. */
  lemma WordsModeSplits(lines: seq<string>)
    ensures Main(lines, Options(WordsCmd, None)).Success?
    ensures Results(Main(lines, Options(WordsCmd, None)).value)
         == FieldLists(seq(|lines|, i requires 0 <= i < |lines| => Split(lines[i])))
  {
  }

  /**
   * A `codefunc` is applied once per line, in order, to the context of that
   * line, and each record holds what it returned.
   */
  lemma CodeFuncPerLine(lines: seq<string>, f: LineContext -> Value)
    ensures Main(lines, Options(CodeFunc(f), None)).Success?
    ensures |Main(lines, Options(CodeFunc(f), None)).value| == |lines|
    ensures forall i :: 0 <= i < |lines| ==>
              Main(lines, Options(CodeFunc(f), None)).value[i]
              == Record(i, f(LineContext(lines[i], Split(lines[i]), i)))
  {
  }

  /**
   * A sorted run returns the same records as the unsorted run, in order
   * by the column key, with equal-key records in input order.
   */
  lemma SortedMainOrdered(lines: seq<string>, cmd: Cmd, sk: SortKey)
    requires Main(lines, Options(cmd, Some(sk))).Success?
    ensures multiset(Main(lines, Options(cmd, Some(sk))).value) == multiset(Records(lines, cmd))
    ensures SortedBy(Main(lines, Options(cmd, Some(sk))).value, KeyOf(sk.column), sk.dir)
    ensures Stable(Records(lines, cmd), Main(lines, Options(cmd, Some(sk))).value, KeyOf(sk.column))
  {
    var rs := Records(lines, cmd);
    SortBySorted(rs, KeyOf(sk.column), sk.dir);
    SortByStable(rs, KeyOf(sk.column), sk.dir);
  }

  /** Sorting records that are already in order by the key changes nothing. */
  lemma SortedInputUnchanged(lines: seq<string>, cmd: Cmd, sk: SortKey)
    requires forall i :: 0 <= i < |lines| ==>
               Column(Evaluate(cmd, BuildContext(lines[i], i)), sk.column).Some?
    requires SortedBy(Records(lines, cmd), KeyOf(sk.column), sk.dir)
    ensures Main(lines, Options(cmd, Some(sk))) == Success(Records(lines, cmd))
  {
    SortByOfSorted(Records(lines, cmd), KeyOf(sk.column), sk.dir);
  }

  /**
   * Descending by a column whose values are all different is the exact
   * reverse of ascending by it.
   */
  lemma DescendingIsReversedAscending(lines: seq<string>, cmd: Cmd, column: nat)
    requires forall i :: 0 <= i < |lines| ==>
               Column(Evaluate(cmd, BuildContext(lines[i], i)), column).Some?
    requires DistinctKeys(Records(lines, cmd), KeyOf(column))
    ensures Main(lines, Options(cmd, Some(SortKey(column, Descending)))).Success?
    ensures Main(lines, Options(cmd, Some(SortKey(column, Descending)))).value
         == Reverse(Main(lines, Options(cmd, Some(SortKey(column, Ascending)))).value)
  {
    var rs := Records(lines, cmd);
    assert FirstMissing(rs, column).None?;
    DescendingReversesAscending(rs, KeyOf(column));
  }
}
