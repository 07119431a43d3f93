/**
 * The six-line dataset of the sort tests and the outcomes the tests
 * expect of it, with the codefunc scenario. Each sort scenario runs the
 * input the way the tests do: the text is cut with `splitlines(True)`,
 * passed to `main`, and the `result` of every record is collected; the
 * expected outcome is built from the expected text the same way the tests
 * build it (`splitlines(True)` in line mode, `splitwords` in words mode).
 */
module Fixtures {
  import opened Wrappers
  import opened Text
  import opened LexOrder
  import opened StableSort
  import opened Pyline

  /** The body of every line of the dataset, in input order. */
  const LinesA0: seq<string> := ["a 5 320", "b 4 310", "c 3 200", "d 2 100", "e 1 500", "f 0 300"]

  /** The bodies of the lines of `TEST_OUTPUT_A0_SORT_DESC_0`. */
  const LinesSortDesc0: seq<string> := ["f 0 300", "e 1 500", "d 2 100", "c 3 200", "b 4 310", "a 5 320"]

  /** The bodies of the lines of `TEST_OUTPUT_A0_SORT_ASC_2`. */
  const LinesSortAsc2: seq<string> := ["d 2 100", "c 3 200", "f 0 300", "b 4 310", "a 5 320", "e 1 500"]

  /** `TEST_INPUT_A0`: the six lines `a 5 320` to `f 0 300`, each ended by `\n`. */
  const InputA0: string := Unlines(LinesA0)

  const OutputSortAsc0: string := InputA0

  const OutputSortDesc0: string := Unlines(LinesSortDesc0)

  const OutputSortAsc1: string := OutputSortDesc0

  const OutputSortAsc2: string := Unlines(LinesSortAsc2)

  /** `'\n'.join(reversed lines of OutputSortAsc2)`: no final newline. */
  const OutputSortDesc2: string := Join("\n", Reverse(SplitLines(OutputSortAsc2, false)))

  /** The words of every line of the dataset, in input order. */
  const A0: seq<seq<string>> := [
    ["a", "5", "320"], ["b", "4", "310"], ["c", "3", "200"],
    ["d", "2", "100"], ["e", "1", "500"], ["f", "0", "300"]
  ]

  /** The line orders the expected outputs list, as input positions. */
  const OrderDesc0: seq<nat> := [5, 4, 3, 2, 1, 0]
  const OrderAsc2: seq<nat> := [3, 2, 5, 1, 0, 4]

  /** The elements of `s` at the positions `order`. */
  function Pick<T>(s: seq<T>, order: seq<nat>): seq<T>
    requires forall k :: 0 <= k < |order| ==> order[k] < |s|
  {
    seq(|order|, k requires 0 <= k < |order| => s[order[k]])
  }

  /** The test harness: run `main` on the lines of `input` and collect the results. */
  function RunTest(input: string, opts: Options): (r: Result<seq<Value>, Error>)
    ensures opts.sort.None? ==> r.Success?
    ensures r.Success? ==> |r.value| == |SplitLines(input, true)|
  {
    match Main(SplitLines(input, true), opts)
    case Success(rs) => Success(Results(rs))
    case Failure(e) => Failure(e)
  }

  /** The records of the dataset in words mode. */
  const WordRecordsA0: seq<Record> := seq(6, i requires 0 <= i < 6 => Record(i, Fields(A0[i])))

  /** The records of the dataset in line mode. */
  const LineRecordsA0: seq<Record> := seq(6, i requires 0 <= i < 6 => Record(i, Str(LinesA0[i] + "\n")))

  // ---------------------------------------------------------------------
  // The dataset as text
  // ---------------------------------------------------------------------

  /** Every line body is its words joined by single spaces, with no line break. */
  lemma LinesA0AreRows()
    ensures |LinesA0| == |A0| == 6
    ensures forall i :: 0 <= i < 6 ==> LinesA0[i] == Join(" ", A0[i])
    ensures forall i :: 0 <= i < 6 ==> NoLineBreak(LinesA0[i])
    ensures forall i, j :: 0 <= i < 6 && 0 <= j < |A0[i]| ==> A0[i][j] != [] && NoSpace(A0[i][j])
  {
    LinesA0AreJoins();
    LinesA0HaveNoBreak();
    A0WordsHaveNoSpace();
  }

  lemma LinesA0AreJoins()
    ensures |LinesA0| == |A0| == 6
    ensures forall i :: 0 <= i < 6 ==> LinesA0[i] == Join(" ", A0[i])
  {
  }

  lemma LinesA0HaveNoBreak()
    ensures |LinesA0| == 6
    ensures forall i :: 0 <= i < 6 ==> NoLineBreak(LinesA0[i])
  {
  }

  lemma A0WordsHaveNoSpace()
    ensures |A0| == 6
    ensures forall i, j :: 0 <= i < 6 && 0 <= j < |A0[i]| ==> A0[i][j] != [] && NoSpace(A0[i][j])
  {
  }

  lemma OutputSortDesc0Lines()
    ensures LinesSortDesc0 == Pick(LinesA0, OrderDesc0)
  {
  }

  lemma OutputSortAsc2Lines()
    ensures LinesSortAsc2 == Pick(LinesA0, OrderAsc2)
  {
  }

  /** `splitwords` of text made of dataset lines gives their word lists. */
  lemma SplitWordsOfRows(ls: seq<string>, order: seq<nat>)
    requires forall k :: 0 <= k < |order| ==> order[k] < 6
    requires ls == Pick(LinesA0, order)
    ensures SplitWords(Unlines(ls)) == Pick(A0, order)
  {
    LinesA0AreRows();
    SplitWordsUnlines(ls);
    forall k | 0 <= k < |order|
      ensures Split(ls[k]) == A0[order[k]]
    {
      SplitJoinRoundTrip(A0[order[k]], []);
      assert Join(" ", A0[order[k]]) + [] == ls[k];
    }
  }

  lemma SplitWordsOfInputA0()
    ensures SplitWords(InputA0) == A0
  {
    LinesA0AreRows();
    SplitWordsUnlines(LinesA0);
    forall i | 0 <= i < 6
      ensures SplitWords(InputA0)[i] == A0[i]
    {
      SplitJoinRoundTrip(A0[i], []);
      assert Join(" ", A0[i]) + [] == LinesA0[i];
    }
  }

  /** `TEST_INPUT_A0.splitlines(True)`: the six lines, each with its `\n`. */
  lemma LinesOfInputA0()
    ensures |SplitLines(InputA0, true)| == 6
    ensures forall i :: 0 <= i < 6 ==> SplitLines(InputA0, true)[i] == LinesA0[i] + "\n"
  {
    LinesA0AreRows();
    SplitLinesUnlines(LinesA0);
  }

  /** Each line of the dataset, with its terminator, splits into its three words. */
  lemma WordsOfLineA0(i: nat)
    requires i < 6
    ensures Split(LinesA0[i] + "\n") == A0[i]
  {
    LinesA0AreRows();
    var ws := A0[i];
    assert forall j :: 0 <= j < |ws| ==> ws[j] != [] && NoSpace(ws[j]);
    SplitJoinRoundTrip(ws, "\n");
  }

  /** In words mode `main` builds one record per line holding its three words. */
  lemma WordRecordsOfInputA0()
    ensures Records(SplitLines(InputA0, true), WordsCmd) == WordRecordsA0
  {
    LinesOfInputA0();
    var lines := SplitLines(InputA0, true);
    var rs := Records(lines, WordsCmd);
    forall i | 0 <= i < 6
      ensures rs[i] == WordRecordsA0[i]
    {
      WordsOfLineA0(i);
    }
  }

  /** In line mode `main` builds one record per line holding the line verbatim. */
  lemma LineRecordsOfInputA0()
    ensures Records(SplitLines(InputA0, true), LineCmd) == LineRecordsA0
  {
    LinesOfInputA0();
  }

  // ---------------------------------------------------------------------
  // Scenarios
  // ---------------------------------------------------------------------

  /** In line mode the first characters of the lines, `a` to `f`, are in ascending order. */
  lemma LineRecordsSortedByColumn0()
    ensures forall i :: 0 <= i < 6 ==> Column(LineRecordsA0[i].result, 0).Some?
    ensures SortedBy(LineRecordsA0, KeyOf(0), Ascending)
  {
    var rs := LineRecordsA0;
    var key := KeyOf(0);
    forall i | 0 <= i < 6
      ensures key(rs[i]) == [LinesA0[i][0]]
    {
      assert rs[i] == Record(i, Str(LinesA0[i] + "\n"));
      assert (LinesA0[i] + "\n")[0] == LinesA0[i][0];
      assert Column(rs[i].result, 0) == Some([LinesA0[i][0]]);
    }
    assert [LinesA0[0][0], LinesA0[1][0], LinesA0[2][0], LinesA0[3][0], LinesA0[4][0], LinesA0[5][0]]
        == ['a', 'b', 'c', 'd', 'e', 'f'];
    assert forall i :: 0 <= i < 5 ==> Before(Ascending, key(rs[i]), key(rs[i + 1]));
    SortedByNeighbours(rs, key, Ascending);
  }

  /** In words mode the first words, `a` to `f`, are in ascending order. */
  lemma WordRecordsSortedByColumn0()
    ensures forall i :: 0 <= i < 6 ==> Column(WordRecordsA0[i].result, 0).Some?
    ensures SortedBy(WordRecordsA0, KeyOf(0), Ascending)
  {
    var rs := WordRecordsA0;
    var key := KeyOf(0);
    assert forall i :: 0 <= i < 6 ==> key(rs[i]) == A0[i][0];
    assert forall i :: 0 <= i < 5 ==> Before(Ascending, key(rs[i]), key(rs[i + 1]));
    SortedByNeighbours(rs, key, Ascending);
  }

  /**
   * A line-mode run of the dataset sorted on a column that leaves the
   * records in place returns the input lines verbatim.
   */
  lemma RunLinesUnchanged(sk: SortKey)
    requires forall i :: 0 <= i < 6 ==> Column(LineRecordsA0[i].result, sk.column).Some?
    requires SortBy(LineRecordsA0, KeyOf(sk.column), sk.dir) == LineRecordsA0
    ensures RunTest(InputA0, Options(LineCmd, Some(sk))) == Success(Texts(SplitLines(InputA0, true)))
  {
    var lines := SplitLines(InputA0, true);
    LineRecordsOfInputA0();
    assert SortRecords(LineRecordsA0, sk) == Success(LineRecordsA0);
    assert Main(lines, Options(LineCmd, Some(sk))) == Success(LineRecordsA0);
    LineResultsA0();
  }

  /** The results of the line-mode records are the input's lines. */
  lemma LineResultsA0()
    ensures Results(LineRecordsA0) == Texts(SplitLines(InputA0, true))
  {
    LinesOfInputA0();
  }

  /** Ascending on column 0 in line mode: the input comes back unchanged. */
  lemma ScenarioLineAsc0()
    ensures RunTest(InputA0, Options(LineCmd, Some(SortKey(0, Ascending))))
         == Success(Texts(SplitLines(OutputSortAsc0, true)))
  {
    LineRecordsSortedByColumn0();
    SortByOfSorted(LineRecordsA0, KeyOf(0), Ascending);
    RunLinesUnchanged(SortKey(0, Ascending));
  }

  /** Ascending on column 0 in words mode: the input order is kept. */
  lemma ScenarioWordsAsc0()
    ensures RunTest(InputA0, Options(WordsCmd, Some(SortKey(0, Ascending))))
         == Success(FieldLists(SplitWords(OutputSortAsc0)))
  {
    var lines := SplitLines(InputA0, true);
    WordRecordsOfInputA0();
    WordRecordsSortedByColumn0();
    SortedInputUnchanged(lines, WordsCmd, SortKey(0, Ascending));
    SplitWordsOfInputA0();
    assert Results(WordRecordsA0) == FieldLists(A0);
  }

  /** In words mode the second words, `5` down to `0`, are all different and descending. */
  lemma WordRecordsByColumn1()
    ensures forall i :: 0 <= i < 6 ==> Column(WordRecordsA0[i].result, 1).Some?
    ensures SortedBy(WordRecordsA0, KeyOf(1), Descending)
    ensures DistinctKeys(WordRecordsA0, KeyOf(1))
  {
    var rs := WordRecordsA0;
    var key := KeyOf(1);
    WordKeys(1);
    SecondWordsDescend();
    assert forall i :: 0 <= i < 5 ==> Before(Descending, key(rs[i]), key(rs[i + 1]));
    StrictNeighboursDistinct(rs, key, Descending);
  }

  /** The key of a words-mode record on column `c` is word `c` of its line. */
  lemma WordKeys(c: nat)
    requires c < 3
    ensures forall i :: 0 <= i < 6 ==> Column(WordRecordsA0[i].result, c).Some?
    ensures forall i :: 0 <= i < 6 ==> KeyOf(c)(WordRecordsA0[i]) == A0[i][c]
  {
  }

  /** The second words, 5 down to 0, strictly descend. */
  lemma SecondWordsDescend()
    ensures forall i :: 0 <= i < 5 ==> LexLe(A0[i + 1][1], A0[i][1]) && A0[i + 1][1] != A0[i][1]
  {
  }

  /** In words mode the third words are all different. */
  lemma WordRecordsByColumn2()
    ensures forall i :: 0 <= i < 6 ==> Column(WordRecordsA0[i].result, 2).Some?
    ensures forall i :: 0 <= i < 6 ==> KeyOf(2)(WordRecordsA0[i]) == A0[i][2]
    ensures DistinctKeys(WordRecordsA0, KeyOf(2))
  {
  }

  /** The results of dataset records taken in some order are their word lists in that order. */
  lemma WordResultsPick(order: seq<nat>)
    requires forall k :: 0 <= k < |order| ==> order[k] < 6
    ensures Results(Pick(WordRecordsA0, order)) == FieldLists(Pick(A0, order))
  {
  }

  /** The dataset read backwards is the order `OrderDesc0`. */
  lemma ReverseIsOrderDesc0<T>(s: seq<T>)
    requires |s| == 6
    ensures Reverse(s) == Pick(s, OrderDesc0)
  {
    assert forall k :: 0 <= k < 6 ==> OrderDesc0[k] == 5 - k;
  }

  /** `splitwords(TEST_OUTPUT_A0_SORT_ASC_1)`: the word lists, f to a. */
  lemma SplitWordsOfOutputSortAsc1()
    ensures SplitWords(OutputSortAsc1) == Pick(A0, OrderDesc0)
  {
    OutputSortDesc0Lines();
    SplitWordsOfRows(LinesSortDesc0, OrderDesc0);
  }

  /**
   * Sorting the dataset's words ascending on column 1 reverses them: the
   * records are already descending on that column, with distinct keys.
   */
  lemma SortWordsByColumn1()
    ensures SortBy(WordRecordsA0, KeyOf(1), Ascending) == Pick(WordRecordsA0, OrderDesc0)
  {
    var rs := WordRecordsA0;
    var asc := SortBy(rs, KeyOf(1), Ascending);
    WordRecordsByColumn1();
    SortByOfSorted(rs, KeyOf(1), Descending);
    DescendingReversesAscending(rs, KeyOf(1));
    assert asc == Reverse(rs) by {
      assert rs == Reverse(asc);
      assert Reverse(Reverse(asc)) == asc;
    }
    ReverseIsOrderDesc0(rs);
  }

  /** A words-mode run of the dataset sorted on a column returns the sorted records' results. */
  lemma RunWordsSorted(sk: SortKey, out: seq<Record>)
    requires forall i :: 0 <= i < 6 ==> Column(WordRecordsA0[i].result, sk.column).Some?
    requires SortBy(WordRecordsA0, KeyOf(sk.column), sk.dir) == out
    ensures RunTest(InputA0, Options(WordsCmd, Some(sk))) == Success(Results(out))
  {
    var lines := SplitLines(InputA0, true);
    WordRecordsOfInputA0();
    assert SortRecords(WordRecordsA0, sk) == Success(out);
    assert Main(lines, Options(WordsCmd, Some(sk))) == Success(out);
  }

  /** Ascending on column 1 in words mode: f, e, d, c, b, a. */
  lemma ScenarioWordsAsc1()
    ensures RunTest(InputA0, Options(WordsCmd, Some(SortKey(1, Ascending))))
         == Success(FieldLists(SplitWords(OutputSortAsc1)))
  {
    SortWordsByColumn1();
    SplitWordsOfOutputSortAsc1();
    RunWordsExpected(SortKey(1, Ascending), OrderDesc0, OutputSortAsc1);
  }

  /** The third words in the order `OrderAsc2`. */
  const KeysAsc2: seq<string> := ["100", "200", "300", "310", "320", "500"]

  /** The records in the order `OrderAsc2` are the dataset's records. */
  lemma ByColumn2SameRecords()
    ensures forall x :: x in Pick(WordRecordsA0, OrderAsc2) <==> x in WordRecordsA0
  {
    var rs := WordRecordsA0;
    var p := Pick(rs, OrderAsc2);
    assert rs[0] == p[4] && rs[1] == p[3] && rs[2] == p[1];
    assert rs[3] == p[0] && rs[4] == p[5] && rs[5] == p[2];
  }

  /** The third words in the order `OrderAsc2` are 100, 200, 300, 310, 320, 500. */
  lemma ByColumn2Keys()
    ensures |Pick(WordRecordsA0, OrderAsc2)| == 6
    ensures forall k :: 0 <= k < 6 ==> KeyOf(2)(Pick(WordRecordsA0, OrderAsc2)[k]) == KeysAsc2[k]
  {
    WordRecordsByColumn2();
  }

  /** The records in the order `OrderAsc2` are ascending on column 2, with no two keys equal. */
  lemma ByColumn2Sorted()
    ensures SortedBy(Pick(WordRecordsA0, OrderAsc2), KeyOf(2), Ascending)
    ensures DistinctKeys(Pick(WordRecordsA0, OrderAsc2), KeyOf(2))
  {
    var e := Pick(WordRecordsA0, OrderAsc2);
    var key := KeyOf(2);
    ByColumn2Keys();
    KeysAsc2Ascend();
    assert forall k :: 0 <= k < 5 ==> Before(Ascending, key(e[k]), key(e[k + 1]));
    StrictNeighboursDistinct(e, key, Ascending);
  }

  /** 100, 200, 300, 310, 320, 500 strictly ascend as strings. */
  lemma KeysAsc2Ascend()
    ensures forall k :: 0 <= k < 5 ==> LexLe(KeysAsc2[k], KeysAsc2[k + 1]) && KeysAsc2[k] != KeysAsc2[k + 1]
  {
    assert LexLe("100", "200") && LexLe("200", "300") && LexLe("300", "310");
    assert LexLe("310", "320") && LexLe("320", "500");
  }

  /**
   * Sorting the dataset's words ascending on column 2 gives `OrderAsc2`:
   * the sort's outcome and that list are both sorted permutations of
   * the records with distinct keys, and there is only one such list.
   */
  lemma SortWordsByColumn2()
    ensures SortBy(WordRecordsA0, KeyOf(2), Ascending) == Pick(WordRecordsA0, OrderAsc2)
  {
    WordRecordsByColumn2();
    ByColumn2SameRecords();
    ByColumn2Sorted();
    SortByUnique(WordRecordsA0, Pick(WordRecordsA0, OrderAsc2), KeyOf(2), Ascending);
  }

  /** Ascending on column 2 in words mode: d, c, f, b, a, e. */
  lemma ScenarioWordsAsc2()
    ensures RunTest(InputA0, Options(WordsCmd, Some(SortKey(2, Ascending))))
         == Success(FieldLists(SplitWords(OutputSortAsc2)))
  {
    SortWordsByColumn2();
    SplitWordsOfOutputSortAsc2();
    RunWordsExpected(SortKey(2, Ascending), OrderAsc2, OutputSortAsc2);
  }

  /** `splitwords(TEST_OUTPUT_A0_SORT_ASC_2)`: the rows in the column-2 order. */
  lemma SplitWordsOfOutputSortAsc2()
    ensures SplitWords(OutputSortAsc2) == Pick(A0, OrderAsc2)
  {
    OutputSortAsc2Lines();
    SplitWordsOfRows(LinesSortAsc2, OrderAsc2);
  }

  /** Every word record of the dataset has three words, so columns 0 to 2. */
  lemma WordColumnsPresent(c: nat)
    requires c < 3
    ensures forall i :: 0 <= i < 6 ==> Column(WordRecordsA0[i].result, c).Some?
  {
  }

  /**
   * A words-mode run whose sort puts the dataset's records in `order`
   * yields `splitwords` of an expected text whose rows are in that order.
   */
  lemma RunWordsExpected(sk: SortKey, order: seq<nat>, out: string)
    requires forall k :: 0 <= k < |order| ==> order[k] < 6
    requires sk.column < 3
    requires SortBy(WordRecordsA0, KeyOf(sk.column), sk.dir) == Pick(WordRecordsA0, order)
    requires SplitWords(out) == Pick(A0, order)
    ensures RunTest(InputA0, Options(WordsCmd, Some(sk))) == Success(FieldLists(SplitWords(out)))
  {
    WordColumnsPresent(sk.column);
    RunWordsSorted(sk, Pick(WordRecordsA0, order));
    WordResultsPick(order);
  }

  /** The lines of `TEST_OUTPUT_A0_SORT_ASC_2` read backwards, as input positions. */
  const OrderDesc2: seq<nat> := [4, 0, 1, 5, 2, 3]

  /** `TEST_OUTPUT_A0_SORT_DESC_2.splitlines()`: the column-2 order reversed. */
  lemma LinesOfOutputSortDesc2()
    ensures SplitLines(OutputSortDesc2, false) == Pick(LinesA0, OrderDesc2)
  {
    var rev := Pick(LinesA0, OrderDesc2);
    PickedLinesHaveNoBreak(OrderAsc2);
    OutputSortAsc2Lines();
    SplitLinesUnlines(LinesSortAsc2);
    assert SplitLines(OutputSortAsc2, false) == Pick(LinesA0, OrderAsc2);
    ReverseOrderAsc2(LinesA0);
    assert OutputSortDesc2 == Join("\n", rev);
    PickedLinesHaveNoBreak(OrderDesc2);
    assert rev[5] == LinesA0[3];
    SplitLinesJoin(rev);
  }

  /** Dataset lines taken in any order have no line break inside them. */
  lemma PickedLinesHaveNoBreak(order: seq<nat>)
    requires forall k :: 0 <= k < |order| ==> order[k] < 6
    ensures forall k :: 0 <= k < |order| ==> NoLineBreak(Pick(LinesA0, order)[k])
  {
    LinesA0HaveNoBreak();
  }

  /** `splitwords(TEST_OUTPUT_A0_SORT_DESC_2)`: the column-2 order reversed. */
  lemma SplitWordsOfOutputSortDesc2()
    ensures SplitWords(OutputSortDesc2) == Pick(A0, OrderDesc2)
  {
    var rev := Pick(LinesA0, OrderDesc2);
    LinesOfOutputSortDesc2();
    LinesA0AreRows();
    SplitWordsOfRows(rev, OrderDesc2);
    SplitLinesUnlines(rev);
  }

  /** Reversing the column-2 order gives `OrderDesc2`. */
  lemma ReverseOrderAsc2<T>(s: seq<T>)
    requires |s| == 6
    ensures Reverse(Pick(s, OrderAsc2)) == Pick(s, OrderDesc2)
  {
  }

  /** Sorting the dataset's words descending on column 2 reverses the ascending order. */
  lemma SortWordsByColumn2Descending()
    ensures SortBy(WordRecordsA0, KeyOf(2), Descending) == Pick(WordRecordsA0, OrderDesc2)
  {
    WordRecordsByColumn2();
    SortWordsByColumn2();
    DescendingReversesAscending(WordRecordsA0, KeyOf(2));
    ReverseOrderAsc2(WordRecordsA0);
  }

  /** Descending on column 2 in words mode: e, a, b, f, c, d, the reverse of ascending. */
  lemma ScenarioWordsDesc2()
    ensures RunTest(InputA0, Options(WordsCmd, Some(SortKey(2, Descending))))
         == Success(FieldLists(SplitWords(OutputSortDesc2)))
  {
    SortWordsByColumn2Descending();
    SplitWordsOfOutputSortDesc2();
    RunWordsExpected(SortKey(2, Descending), OrderDesc2, OutputSortDesc2);
  }

  /** In line mode the character at index 1 of every line is a space. */
  lemma LineRecordsColumn1Tied()
    ensures forall i :: 0 <= i < 6 ==> Column(LineRecordsA0[i].result, 1).Some?
    ensures forall i :: 0 <= i < 6 ==> KeyOf(1)(LineRecordsA0[i]) == " "
  {
    forall i | 0 <= i < 6
      ensures KeyOf(1)(LineRecordsA0[i]) == " "
    {
      assert LineRecordsA0[i] == Record(i, Str(LinesA0[i] + "\n"));
      assert (LinesA0[i] + "\n")[1] == LinesA0[i][1];
    }
  }

  /** Ascending on column 1 in line mode: every key ties, so the input comes back unchanged. */
  lemma ScenarioLineAsc1()
    ensures RunTest(InputA0, Options(LineCmd, Some(SortKey(1, Ascending))))
         == Success(Texts(SplitLines(InputA0, true)))
  {
    LineRecordsColumn1Tied();
    SortByTied(LineRecordsA0, KeyOf(1), Ascending, " ");
    RunLinesUnchanged(SortKey(1, Ascending));
  }

  /** The dataset's lines read backwards are not the same lines: the first is `a 5 320`, the last `f 0 300`. */
  lemma InputA0NotPalindromic()
    ensures Texts(SplitLines(InputA0, true)) != Reverse(Texts(SplitLines(InputA0, true)))
  {
    var lines := SplitLines(InputA0, true);
    LinesOfInputA0();
    assert Texts(lines)[0] == Str(LinesA0[0] + "\n");
    assert Reverse(Texts(lines))[0] == Str(LinesA0[5] + "\n");
    assert (LinesA0[0] + "\n")[0] != (LinesA0[5] + "\n")[0];
  }

  /**
   * Descending on the tied column 1 in line mode also keeps the input
   * order, which is not the reverse of the ascending outcome: descending
   * reverses the comparator, not the ascending result.
   */
  lemma ScenarioLineDesc1Tied()
    ensures RunTest(InputA0, Options(LineCmd, Some(SortKey(1, Descending))))
         == Success(Texts(SplitLines(InputA0, true)))
    ensures Texts(SplitLines(InputA0, true)) != Reverse(Texts(SplitLines(InputA0, true)))
  {
    LineRecordsColumn1Tied();
    SortByTied(LineRecordsA0, KeyOf(1), Descending, " ");
    RunLinesUnchanged(SortKey(1, Descending));
    InputA0NotPalindromic();
  }

  /** The callable reversing each line maps `["one", "two"]` to `["eno", "owt"]`. */
  lemma ScenarioCodeFunc()
    ensures var r := Main(["one", "two"], Options(CodeFunc(ReverseLine), None));
            r.Success? && Results(r.value) == [Str("eno"), Str("owt")]
  {
    assert Reverse("one") == "eno";
    assert Reverse("two") == "owt";
  }

  /** `lambda x: x['line'][::-1]`. */
  function ReverseLine(ctx: LineContext): Value {
    Str(Reverse(ctx.line))
  }
}
