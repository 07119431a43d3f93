/**
 * The string operations the tests rely on, with Python 2 byte-string
 * semantics: `str.split()` with no separator, `str.splitlines(keepends)`,
 * `sep.join(...)` and slicing with step -1.
 */
module Text {

  /** The characters Python 2's `str.split()` treats as whitespace. */
  predicate IsSpace(c: char) {
    c == ' ' || c == '\t' || c == '\n' || c == '\r' || c == '\U{000B}' || c == '\U{000C}'
  }

  /** A string with no whitespace in it: one word. */
  predicate NoSpace(w: string) {
    forall i :: 0 <= i < |w| ==> !IsSpace(w[i])
  }

  /** All of `s` is whitespace. */
  predicate Blank(s: string) {
    forall i :: 0 <= i < |s| ==> IsSpace(s[i])
  }

  /** The characters that end a line for Python 2's `str.splitlines`. */
  predicate IsLineBreak(c: char) {
    c == '\n' || c == '\r'
  }

  /** A string with no line break in it: the body of one line. */
  predicate NoLineBreak(l: string) {
    forall i :: 0 <= i < |l| ==> !IsLineBreak(l[i])
  }

  /** `sep.join(ss)`. */
  function Join(sep: string, ss: seq<string>): string {
    if ss == [] then []
    else if |ss| == 1 then ss[0]
    else ss[0] + sep + Join(sep, ss[1..])
  }

  /** With no separator, joining puts the first string in front of the rest joined. */
  lemma JoinNothingCons(w: string, rest: seq<string>)
    ensures Join("", [w] + rest) == w + Join("", rest)
  {
    if rest == [] {
      assert [w] + rest == [w];
    } else {
      assert ([w] + rest)[1..] == rest;
    }
  }

  /** `s[::-1]`, for strings and lists alike. */
  function Reverse<T>(s: seq<T>): (r: seq<T>)
    ensures |r| == |s|
    ensures forall i :: 0 <= i < |s| ==> r[i] == s[|s| - 1 - i]
  {
    if s == [] then [] else Reverse(s[1..]) + [s[0]]
  }

  /** The characters of `s` that are not whitespace, in order. */
  function DropSpace(s: string): string {
    if s == [] then []
    else if IsSpace(s[0]) then DropSpace(s[1..])
    else [s[0]] + DropSpace(s[1..])
  }

  // ---------------------------------------------------------------------
  // Word splitting: str.split()
  // ---------------------------------------------------------------------

  /** Length of the run of whitespace that starts `s`. */
  function LeadingSpace(s: string): (k: nat)
    ensures k <= |s|
    ensures forall i :: 0 <= i < k ==> IsSpace(s[i])
    ensures k == |s| || !IsSpace(s[k])
  {
    if s != [] && IsSpace(s[0]) then 1 + LeadingSpace(s[1..]) else 0
  }

  /** Length of the run of non-whitespace that starts `s`. */
  function LeadingWord(s: string): (k: nat)
    ensures k <= |s|
    ensures forall i :: 0 <= i < k ==> !IsSpace(s[i])
    ensures k == |s| || IsSpace(s[k])
  {
    if s != [] && !IsSpace(s[0]) then 1 + LeadingWord(s[1..]) else 0
  }

  /**
   * `s.split()`: the maximal runs of non-whitespace of `s`, in order.
   * Leading and trailing whitespace produce no empty words.
   */
  function Split(s: string): (ws: seq<string>)
    ensures forall i :: 0 <= i < |ws| ==> ws[i] != [] && NoSpace(ws[i])
    decreases |s|
  {
    var t := s[LeadingSpace(s)..];
    if t == [] then []
    else
      var k := LeadingWord(t);
      [t[..k]] + Split(t[k..])
  }

  lemma {:induction false} DropSpaceAppend(a: string, b: string)
    ensures DropSpace(a + b) == DropSpace(a) + DropSpace(b)
    decreases |a|
  {
    if a == [] {
      assert a + b == b;
    } else {
      assert (a + b)[1..] == a[1..] + b;
      DropSpaceAppend(a[1..], b);
    }
  }

  lemma {:induction false} DropSpaceOfSpaces(s: string)
    requires Blank(s)
    ensures DropSpace(s) == []
    decreases |s|
  {
    if s != [] {
      DropSpaceOfSpaces(s[1..]);
    }
  }

  lemma {:induction false} DropSpaceOfWord(w: string)
    requires NoSpace(w)
    ensures DropSpace(w) == w
    decreases |w|
  {
    if w != [] {
      DropSpaceOfWord(w[1..]);
      assert w == [w[0]] + w[1..];
    }
  }

  /**
   * Splitting loses exactly the whitespace: the words, put back together,
   * are the non-whitespace characters of the line in their original order.
   */
  lemma {:induction false} SplitKeepsContent(s: string)
    ensures Join("", Split(s)) == DropSpace(s)
    decreases |s|
  {
    var t := s[LeadingSpace(s)..];
    DropLeadingSpace(s);
    if t != [] {
      var k := LeadingWord(t);
      SplitKeepsContent(t[k..]);
      DropSpaceAfterWord(t, k);
      JoinNothingCons(t[..k], Split(t[k..]));
    }
  }

  /** The whitespace that starts a line holds none of its content. */
  lemma DropLeadingSpace(s: string)
    ensures DropSpace(s) == DropSpace(s[LeadingSpace(s)..])
  {
    var a := LeadingSpace(s);
    assert s == s[..a] + s[a..];
    DropSpaceAppend(s[..a], s[a..]);
    DropSpaceOfSpaces(s[..a]);
  }

  /** The word that starts a line is kept whole. */
  lemma DropSpaceAfterWord(t: string, k: nat)
    requires k <= |t| && NoSpace(t[..k])
    ensures DropSpace(t) == t[..k] + DropSpace(t[k..])
  {
    assert t == t[..k] + t[k..];
    DropSpaceAppend(t[..k], t[k..]);
    DropSpaceOfWord(t[..k]);
  }

  /** A line with no non-whitespace character has no words, and conversely. */
  lemma SplitEmptyIffBlank(s: string)
    ensures Split(s) == [] <==> DropSpace(s) == []
  {
    SplitKeepsContent(s);
    var ws := Split(s);
    if ws != [] {
      JoinNothingCons(ws[0], ws[1..]);
      HeadTail(ws);
      assert |Join("", ws)| >= |ws[0]| > 0;
    }
  }

  lemma {:induction false} SplitSkipsLeadingSpace(s: string)
    requires s != [] && IsSpace(s[0])
    ensures Split(s) == Split(s[1..])
  {
    var a := LeadingSpace(s[1..]);
    assert LeadingSpace(s) == 1 + a;
    assert s[1 + a..] == s[1..][a..];
  }

  /** The whitespace run at the start of an all-whitespace string is all of it. */
  lemma SplitBlank(s: string)
    requires Blank(s)
    ensures Split(s) == []
  {
    assert LeadingSpace(s) == |s|;
  }

  /** A word at the start of a line, ended by whitespace or the end, is its first word. */
  lemma SplitFirstWord(w: string, rest: string)
    requires w != [] && NoSpace(w)
    requires rest == [] || IsSpace(rest[0])
    ensures Split(w + rest) == [w] + Split(rest)
  {
    var s := w + rest;
    assert LeadingSpace(s) == 0;
    assert s[0..] == s;
    WordPrefix(w, rest);
    assert s[..|w|] == w;
    assert s[|w|..] == rest;
  }

  /**
   * Words joined by single spaces split back into the same words, whatever
   * whitespace (a line terminator, say) trails them: `split` inverts
   * `" ".join` on non-empty, whitespace-free words.
   */
  lemma {:induction false} SplitJoinRoundTrip(ws: seq<string>, tail: string)
    requires forall i :: 0 <= i < |ws| ==> ws[i] != [] && NoSpace(ws[i])
    requires Blank(tail)
    ensures Split(Join(" ", ws) + tail) == ws
    decreases |ws|
  {
    if ws == [] {
      assert Join(" ", ws) + tail == tail;
      SplitBlank(tail);
    } else if |ws| == 1 {
      SplitLastWord(ws[0], tail);
    } else {
      SplitJoinFirst(ws, tail);
      SplitJoinRoundTrip(ws[1..], tail);
      HeadTail(ws);
    }
  }

  /** The last word followed by trailing whitespace splits into itself. */
  lemma SplitLastWord(w: string, tail: string)
    requires w != [] && NoSpace(w)
    requires Blank(tail)
    ensures Split(Join(" ", [w]) + tail) == [w]
  {
    assert Join(" ", [w]) + tail == w + tail;
    SplitFirstWord(w, tail);
    SplitBlank(tail);
  }

  /** Of several words joined by spaces, the first comes off first. */
  lemma SplitJoinFirst(ws: seq<string>, tail: string)
    requires |ws| > 1 && ws[0] != [] && NoSpace(ws[0])
    ensures Split(Join(" ", ws) + tail) == [ws[0]] + Split(Join(" ", ws[1..]) + tail)
  {
    var j := Join(" ", ws[1..]) + tail;
    assert Join(" ", ws) + tail == ws[0] + (" " + j);
    SplitWordThenSpace(ws[0], j);
  }

  /** A word followed by a space and more text is the first word of it. */
  lemma SplitWordThenSpace(w: string, j: string)
    requires w != [] && NoSpace(w)
    ensures Split(w + (" " + j)) == [w] + Split(j)
  {
    var rest := " " + j;
    SplitFirstWord(w, rest);
    SplitSkipsLeadingSpace(rest);
    assert rest[1..] == j;
  }

  /** A whitespace-free word followed by nothing or by whitespace is one run. */
  lemma {:induction false} WordPrefix(w: string, rest: string)
    requires NoSpace(w)
    requires rest == [] || IsSpace(rest[0])
    ensures LeadingWord(w + rest) == |w|
    decreases |w|
  {
    if w == [] {
    } else {
      assert (w + rest)[1..] == w[1..] + rest;
      WordPrefix(w[1..], rest);
    }
  }

  /** `ws[0] + seps[0] + ws[1] + ... + seps[n-1] + ws[n]`: words with a separator between each pair. */
  function Interleave(ws: seq<string>, seps: seq<string>): string
    requires |ws| == |seps| + 1
    decreases |seps|
  {
    if seps == [] then ws[0] else ws[0] + seps[0] + Interleave(ws[1..], seps[1..])
  }

  /** Leading whitespace, however long, contributes no word. */
  lemma {:induction false} SplitSkipsBlank(lead: string, s: string)
    requires Blank(lead)
    ensures Split(lead + s) == Split(s)
    decreases |lead|
  {
    if lead == [] {
      assert lead + s == s;
    } else {
      var t := lead + s;
      assert t[0] == lead[0];
      SplitSkipsLeadingSpace(t);
      assert t[1..] == lead[1..] + s;
      SplitSkipsBlank(lead[1..], s);
    }
  }

  /**
   * `split()` returns exactly the maximal runs of non-whitespace: a line
   * made of any leading whitespace, non-empty whitespace-free words
   * separated by non-empty runs of whitespace, and any trailing whitespace
   * splits into those words and no others.
   */
  lemma SplitMaximalRuns(lead: string, ws: seq<string>, seps: seq<string>, tail: string)
    requires Blank(lead) && Blank(tail)
    requires |ws| == |seps| + 1
    requires forall i :: 0 <= i < |ws| ==> ws[i] != [] && NoSpace(ws[i])
    requires forall i :: 0 <= i < |seps| ==> seps[i] != [] && Blank(seps[i])
    ensures Split(lead + Interleave(ws, seps) + tail) == ws
  {
    assert lead + Interleave(ws, seps) + tail == lead + (Interleave(ws, seps) + tail);
    SplitSkipsBlank(lead, Interleave(ws, seps) + tail);
    SplitInterleave(ws, seps, tail);
  }

  lemma {:induction false} SplitInterleave(ws: seq<string>, seps: seq<string>, tail: string)
    requires Blank(tail)
    requires |ws| == |seps| + 1
    requires forall i :: 0 <= i < |ws| ==> ws[i] != [] && NoSpace(ws[i])
    requires forall i :: 0 <= i < |seps| ==> seps[i] != [] && Blank(seps[i])
    ensures Split(Interleave(ws, seps) + tail) == ws
    decreases |seps|
  {
    if seps == [] {
      SplitLastWord(ws[0], tail);
      assert Interleave(ws, seps) == Join(" ", [ws[0]]) && ws == [ws[0]];
    } else {
      SplitInterleave(ws[1..], seps[1..], tail);
      SplitInterleaveFirst(ws, seps, tail);
      HeadTail(ws);
    }
  }

  /** The first word of an interleaving comes off first, with the separator after it. */
  lemma SplitInterleaveFirst(ws: seq<string>, seps: seq<string>, tail: string)
    requires |ws| == |seps| + 1 && seps != []
    requires ws[0] != [] && NoSpace(ws[0])
    requires seps[0] != [] && Blank(seps[0])
    ensures Split(Interleave(ws, seps) + tail) == [ws[0]] + Split(Interleave(ws[1..], seps[1..]) + tail)
  {
    var more := Interleave(ws[1..], seps[1..]) + tail;
    var rest := seps[0] + more;
    assert Interleave(ws, seps) + tail == ws[0] + rest;
    assert rest[0] == seps[0][0];
    SplitFirstWord(ws[0], rest);
    SplitSkipsBlank(seps[0], more);
  }

  // ---------------------------------------------------------------------
  // Line splitting: str.splitlines(keepends)
  // ---------------------------------------------------------------------

  /** Index of the first line break of `s`, or `|s|` when there is none. */
  function FirstBreak(s: string): (b: nat)
    ensures b <= |s|
    ensures NoLineBreak(s[..b])
    ensures b == |s| || IsLineBreak(s[b])
  {
    if s == [] || IsLineBreak(s[0]) then 0
    else
      var b := 1 + FirstBreak(s[1..]);
      assert s[..b] == [s[0]] + s[1..][..b - 1];
      b
  }

  /** Length of the first line of `s` including its terminator (`\n`, `\r` or `\r\n`). */
  function LineLength(s: string): (k: nat)
    requires s != []
    ensures FirstBreak(s) < k <= |s| || FirstBreak(s) == k == |s|
  {
    var b := FirstBreak(s);
    if b == |s| then b
    else if s[b] == '\r' && b + 1 < |s| && s[b + 1] == '\n' then b + 2
    else b + 1
  }

  /**
   * `s.splitlines(keepends)`: the lines of `s`, each with its terminator
   * when `keepends` holds and without it otherwise. A final terminator
   * does not start an extra empty line.
   */
  function SplitLines(s: string, keepends: bool): (ls: seq<string>)
    ensures !keepends ==> forall i :: 0 <= i < |ls| ==> NoLineBreak(ls[i])
    ensures keepends ==> forall i :: 0 <= i < |ls| ==> ls[i] != []
    decreases |s|
  {
    if s == [] then []
    else
      var k := LineLength(s);
      [if keepends then s[..k] else s[..FirstBreak(s)]] + SplitLines(s[k..], keepends)
  }

  /** One trailing line terminator removed, as `splitlines` without `keepends` does. */
  function Chomp(l: string): string {
    if |l| >= 2 && l[|l| - 2..] == "\r\n" then l[..|l| - 2]
    else if l != [] && IsLineBreak(l[|l| - 1]) then l[..|l| - 1]
    else l
  }

  /** The lines kept with their terminators put back together give the text. */
  lemma {:induction false} SplitLinesRoundTrip(s: string)
    ensures Join("", SplitLines(s, true)) == s
    decreases |s|
  {
    if s != [] {
      var k := LineLength(s);
      SplitLinesRoundTrip(s[k..]);
      JoinNothingCons(s[..k], SplitLines(s[k..], true));
      assert s == s[..k] + s[k..];
    }
  }

  /** A line with no terminator is left as it is. */
  lemma ChompUnterminated(l: string)
    requires NoLineBreak(l)
    ensures Chomp(l) == l
  {
    if |l| >= 2 {
      assert l[|l| - 2..][1] == l[|l| - 1];
    }
  }

  /** A `\r\n` terminator is removed whole. */
  lemma ChompCrLf(body: string)
    ensures Chomp(body + "\r\n") == body
  {
    var l := body + "\r\n";
    assert l[|l| - 2..] == "\r\n";
    assert l[..|l| - 2] == body;
  }

  /** A one-character terminator after a break-free body is removed. */
  lemma ChompSingleBreak(body: string, c: char)
    requires NoLineBreak(body) && IsLineBreak(c)
    ensures Chomp(body + [c]) == body
  {
    var l := body + [c];
    if |l| >= 2 {
      assert !IsLineBreak(body[|body| - 1]);
      assert l[|l| - 2..][0] == body[|body| - 1];
    }
    assert l[|l| - 1] == c;
    assert l[..|l| - 1] == body;
  }

  /** Removing the terminator of the first line leaves its body. */
  lemma ChompFirstLine(s: string)
    requires s != []
    ensures Chomp(s[..LineLength(s)]) == s[..FirstBreak(s)]
  {
    var b := FirstBreak(s);
    var k := LineLength(s);
    if b == |s| {
      assert s[..k] == s[..b];
      ChompUnterminated(s[..b]);
    } else if k == b + 2 {
      assert s[..k] == s[..b] + "\r\n";
      ChompCrLf(s[..b]);
    } else {
      assert s[..k] == s[..b] + [s[b]];
      ChompSingleBreak(s[..b], s[b]);
    }
  }

  /**
   * `splitlines()` and `splitlines(True)` cut at the same places; they
   * differ only by the terminator each line keeps.
   */
  lemma {:induction false} SplitLinesChomp(s: string)
    ensures |SplitLines(s, false)| == |SplitLines(s, true)|
    ensures forall i :: 0 <= i < |SplitLines(s, true)| ==>
              SplitLines(s, false)[i] == Chomp(SplitLines(s, true)[i])
    decreases |s|
  {
    if s != [] {
      var k := LineLength(s);
      SplitLinesChomp(s[k..]);
      ChompFirstLine(s);
    }
  }

  /**
   * A line ends at its first terminator, whichever of `\n`, `\r\n` or a
   * lone `\r` it is, and the terminator is kept whole: a `\r\n` is never
   * cut in two.
   */
  lemma SplitLinesFirstLine(l: string, brk: string, rest: string)
    requires NoLineBreak(l)
    requires brk == "\n" || brk == "\r\n" || brk == "\r"
    requires brk == "\r" ==> rest == [] || rest[0] != '\n'
    ensures SplitLines(l + brk + rest, false) == [l] + SplitLines(rest, false)
    ensures SplitLines(l + brk + rest, true) == [l + brk] + SplitLines(rest, true)
  {
    var s := l + brk + rest;
    assert s == l + (brk + rest);
    LineBreakAfter(l, brk + rest);
    assert s[|l|] == brk[0];
    if brk == "\r\n" {
      assert s[|l| + 1] == '\n';
    } else if brk == "\r" && rest != [] {
      assert s[|l| + 1] == rest[0];
    }
    assert LineLength(s) == |l| + |brk|;
    assert s[..|l| + |brk|] == l + brk;
    assert s[..|l|] == l;
    assert s[|l| + |brk|..] == rest;
  }

  /** A non-empty sequence is its first element followed by the rest. */
  lemma HeadTail<T>(s: seq<T>)
    requires s != []
    ensures [s[0]] + s[1..] == s
  {
  }

  /** Text written one line at a time, each line ended by `\n`. */
  function Unlines(ls: seq<string>): string {
    if ls == [] then [] else ls[0] + "\n" + Unlines(ls[1..])
  }

  /** A break-free line ended by `\n` is the first line of the text it starts. */
  lemma SplitLinesFirst(l: string, rest: string)
    requires NoLineBreak(l)
    ensures SplitLines(l + "\n" + rest, false) == [l] + SplitLines(rest, false)
    ensures SplitLines(l + "\n" + rest, true) == [l + "\n"] + SplitLines(rest, true)
  {
    SplitLinesFirstLine(l, "\n", rest);
  }

  /** `[l + "\n" for l in ls]`. */
  function Terminated(ls: seq<string>): (ts: seq<string>)
    ensures |ts| == |ls|
    ensures forall i :: 0 <= i < |ls| ==> ts[i] == ls[i] + "\n"
  {
    if ls == [] then [] else [ls[0] + "\n"] + Terminated(ls[1..])
  }

  /** The first line of text written line by line is its first line, with or without its `\n`. */
  lemma SplitLinesUnlinesFirst(ls: seq<string>)
    requires ls != [] && NoLineBreak(ls[0])
    ensures SplitLines(Unlines(ls), false) == [ls[0]] + SplitLines(Unlines(ls[1..]), false)
    ensures SplitLines(Unlines(ls), true) == [ls[0] + "\n"] + SplitLines(Unlines(ls[1..]), true)
  {
    SplitLinesFirst(ls[0], Unlines(ls[1..]));
  }

  lemma {:induction false} UnlinesWithoutEnds(ls: seq<string>)
    requires forall i :: 0 <= i < |ls| ==> NoLineBreak(ls[i])
    ensures SplitLines(Unlines(ls), false) == ls
    decreases |ls|
  {
    if ls != [] {
      SplitLinesUnlinesFirst(ls);
      UnlinesWithoutEnds(ls[1..]);
      HeadTail(ls);
    }
  }

  lemma {:induction false} UnlinesWithEnds(ls: seq<string>)
    requires forall i :: 0 <= i < |ls| ==> NoLineBreak(ls[i])
    ensures SplitLines(Unlines(ls), true) == Terminated(ls)
    decreases |ls|
  {
    if ls != [] {
      SplitLinesUnlinesFirst(ls);
      UnlinesWithEnds(ls[1..]);
    }
  }

  /** Lines without breaks, each ended by `\n`, split back into the same lines. */
  lemma SplitLinesUnlines(ls: seq<string>)
    requires forall i :: 0 <= i < |ls| ==> NoLineBreak(ls[i])
    ensures SplitLines(Unlines(ls), false) == ls
    ensures |SplitLines(Unlines(ls), true)| == |ls|
    ensures forall i :: 0 <= i < |ls| ==> SplitLines(Unlines(ls), true)[i] == ls[i] + "\n"
  {
    UnlinesWithoutEnds(ls);
    UnlinesWithEnds(ls);
  }

  /** Lines joined with `\n` split back into the same lines, unless the last one is empty. */
  lemma {:induction false} SplitLinesJoin(ls: seq<string>)
    requires forall i :: 0 <= i < |ls| ==> NoLineBreak(ls[i])
    requires ls == [] || ls[|ls| - 1] != []
    ensures SplitLines(Join("\n", ls), false) == ls
    decreases |ls|
  {
    if |ls| == 1 {
      var l := ls[0];
      LineBreakAfter(l, []);
      assert l[..|l|] == l;
    } else if |ls| > 1 {
      SplitLinesFirst(ls[0], Join("\n", ls[1..]));
      SplitLinesJoin(ls[1..]);
      HeadTail(ls);
    }
  }

  /** The first break of a break-free line followed by `rest` is where `rest` starts. */
  lemma {:induction false} LineBreakAfter(l: string, rest: string)
    requires NoLineBreak(l)
    requires rest == [] || IsLineBreak(rest[0])
    ensures FirstBreak(l + rest) == |l|
    decreases |l|
  {
    if l != [] {
      assert (l + rest)[1..] == l[1..] + rest;
      LineBreakAfter(l[1..], rest);
    }
  }

  /**
   * The test helper `splitwords`: one word list per line of `s`, each the
   * `split()` of that line.
   */
  function SplitWords(s: string): seq<seq<string>> {
    var ls := SplitLines(s, false);
    seq(|ls|, i requires 0 <= i < |ls| => Split(ls[i]))
  }

  /**
   * `splitwords` of text written line by line gives one word list per
   * line, each the `split()` of that line.
   */
  lemma SplitWordsUnlines(ls: seq<string>)
    requires forall i :: 0 <= i < |ls| ==> NoLineBreak(ls[i])
    ensures |SplitWords(Unlines(ls))| == |ls|
    ensures forall i :: 0 <= i < |ls| ==> SplitWords(Unlines(ls))[i] == Split(ls[i])
  {
    SplitLinesUnlines(ls);
  }
}
