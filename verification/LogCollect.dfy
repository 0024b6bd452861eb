/** Incremental collection of one log file, internal/agent/log_collect.go, with one record
    per line: read what is new, split it into lines, filter, emit records, advance the
    offset. What any number of ticks emits is compared with the file. LogTick has the line
    loop itself. Files are character sequences; the filter is a predicate on lines. */
module LogCollect {

  const READ_LIMIT: nat := 0x10_0000
  const MAX_RECORDS: nat := 1000

  datatype Record = Record(content: string, lineCount: nat, bytes: nat, startLine: string)

  // ------------------------------------------------------------------ lines

  /** strings.TrimRight(s, "\r"). */
  function TrimCR(s: string): (r: string)
    ensures r <= s && (r == "" || r[|r|-1] != '\r')
    ensures '\r' !in s ==> r == s
  {
    if s == "" || s[|s|-1] != '\r' then s else TrimCR(s[..|s|-1])
  }

  /** strings.TrimRight(s, "\r\n"). */
  function TrimEnd(s: string): (r: string)
    ensures r <= s && (r == "" || (r[|r|-1] != '\r' && r[|r|-1] != '\n'))
    ensures forall i | |r| <= i < |s| :: s[i] == '\r' || s[i] == '\n'
  {
    if s == "" || (s[|s|-1] != '\r' && s[|s|-1] != '\n') then s else TrimEnd(s[..|s|-1])
  }

  /** strings.Split(s, "\n"). */
  function Split(s: string): (ls: seq<string>)
    ensures ls != []
  {
    if s == "" then [""]
    else
      var rest := Split(s[1..]);
      if s[0] == '\n' then [""] + rest else [[s[0]] + rest[0]] + rest[1..]
  }

  function TrimAll(ls: seq<string>): (r: seq<string>)
    ensures |r| == |ls|
  {
    seq(|ls|, i requires 0 <= i < |ls| => TrimCR(ls[i]))
  }

  /** The raw lines of the data, before carriage returns are cut off. */
  function RawLines(s: string): seq<string> {
    if TrimEnd(s) == "" then [] else Split(TrimEnd(s))
  }

  function SplitLines(s: string): seq<string> {
    TrimAll(RawLines(s))
  }

  /** Lines written out, each followed by a newline. */
  function Unlines(ls: seq<string>): string {
    if ls == [] then "" else ls[0] + "\n" + Unlines(ls[1..])
  }

  lemma {:induction false} SplitUnlines(s: string)
    ensures Unlines(Split(s)) == s + "\n"
  {
    if s == "" {
      assert Split(s)[1..] == [];
    } else {
      SplitUnlines(s[1..]);
      UnlinesCons(s[0], Split(s[1..]));
      assert [s[0]] + s[1..] == s;
      assert [s[0]] + (s[1..] + "\n") == s + "\n";
    }
  }

  lemma UnlinesCons(c: char, rest: seq<string>)
    requires rest != []
    ensures Unlines(if c == '\n' then [""] + rest else [[c] + rest[0]] + rest[1..]) == [c] + Unlines(rest)
  {
    if c == '\n' {
      assert ([""] + rest)[1..] == rest;
    } else {
      var ls := [[c] + rest[0]] + rest[1..];
      assert ls[1..] == rest[1..];
      assert [c] + rest[0] + "\n" + Unlines(rest[1..]) == [c] + (rest[0] + "\n" + Unlines(rest[1..]));
    }
  }

  lemma {:induction false} SplitHasNoNewline(s: string)
    ensures forall l | l in Split(s) :: '\n' !in l
  {
    if s != "" { SplitHasNoNewline(s[1..]); }
  }

  lemma {:induction false} UnlinesConcat(a: seq<string>, b: seq<string>)
    ensures Unlines(a + b) == Unlines(a) + Unlines(b)
  {
    if a == [] {
      assert a + b == b;
    } else {
      assert (a + b)[1..] == a[1..] + b;
      UnlinesConcat(a[1..], b);
    }
  }

  // ------------------------------------------------- which lines are emitted

  predicate Emits(keep: string -> bool, l: string) {
    l != "" && keep(l)
  }

  function Kept(keep: string -> bool, ls: seq<string>): seq<string> {
    if ls == [] then []
    else (if Emits(keep, ls[0]) then [ls[0]] else []) + Kept(keep, ls[1..])
  }

  /** The kept non-empty lines of a text. */
  function KeptLines(keep: string -> bool, s: string): seq<string> {
    Kept(keep, Split(s))
  }

  lemma {:induction false} KeptConcat(keep: string -> bool, a: seq<string>, b: seq<string>)
    ensures Kept(keep, a + b) == Kept(keep, a) + Kept(keep, b)
  {
    if a == [] {
      assert a + b == b;
    } else {
      assert (a + b)[1..] == a[1..] + b && (a + b)[0] == a[0];
      KeptConcat(keep, a[1..], b);
    }
  }

  /** Two lists of lines put together: the last line of the one joins the first of the other. */
  function JoinSplits(x: seq<string>, y: seq<string>): seq<string>
    requires x != [] && y != []
  {
    x[..|x|-1] + [x[|x|-1] + y[0]] + y[1..]
  }

  lemma JoinAfterFirst(h: string, x: seq<string>, y: seq<string>)
    requires x != [] && y != []
    ensures JoinSplits([h] + x, y) == [h] + JoinSplits(x, y)
  {
    var z := [h] + x;
    assert z[..|z|-1] == [h] + x[..|x|-1];
    assert z[|z|-1] == x[|x|-1];
  }

  lemma JoinExtendFirst(c: char, x: seq<string>, y: seq<string>)
    requires x != [] && y != []
    ensures JoinSplits([[c] + x[0]] + x[1..], y) == [[c] + JoinSplits(x, y)[0]] + JoinSplits(x, y)[1..]
  {
    if |x| == 1 {
      assert [c] + x[0] + y[0] == [c] + (x[0] + y[0]);
      assert [[c] + x[0]] + x[1..] == [[c] + x[0]];
      assert JoinSplits(x, y) == [x[0] + y[0]] + y[1..];
    } else {
      JoinAfterFirst([c] + x[0], x[1..], y);
      JoinAfterFirst(x[0], x[1..], y);
      assert [x[0]] + x[1..] == x;
    }
  }

  lemma {:induction false} SplitConcat(a: string, b: string)
    ensures Split(a + b) == JoinSplits(Split(a), Split(b))
  {
    if a == "" {
      assert a + b == b && "" + Split(b)[0] == Split(b)[0];
    } else {
      assert (a + b)[1..] == a[1..] + b && (a + b)[0] == a[0];
      SplitConcat(a[1..], b);
      if a[0] == '\n' {
        JoinAfterFirst("", Split(a[1..]), Split(b));
      } else {
        JoinExtendFirst(a[0], Split(a[1..]), Split(b));
      }
    }
  }

  /** A cut between two reads is at a line boundary. */
  predicate CleanCut(a: string, b: string) {
    a == "" || b == "" || a[|a|-1] == '\n' || b[0] == '\n'
  }

  lemma {:induction false} LastOfSplit(a: string)
    ensures a == "" || a[|a|-1] == '\n' <==> Split(a)[|Split(a)|-1] == ""
  {
    if |a| > 1 { LastOfSplit(a[1..]); }
    else if |a| == 1 { assert a[1..] == ""; }
  }

  lemma FirstOfSplit(b: string)
    ensures b == "" || b[0] == '\n' <==> Split(b)[0] == ""
  {
  }

  function Everything(): string -> bool {
    (l: string) => true
  }

  /** The kept lines of two pieces and of their concatenation differ only around the cut. */
  lemma KeptAroundCut(keep: string -> bool, a: string, b: string)
    ensures var x, y := Split(a), Split(b);
            var init, last, first, tail := x[..|x|-1], x[|x|-1], y[0], y[1..];
            && KeptLines(keep, a + b) == Kept(keep, init) + Kept(keep, [last + first]) + Kept(keep, tail)
            && KeptLines(keep, a) == Kept(keep, init) + Kept(keep, [last])
            && KeptLines(keep, b) == Kept(keep, [first]) + Kept(keep, tail)
  {
    var x, y := Split(a), Split(b);
    var init, last, first, tail := x[..|x|-1], x[|x|-1], y[0], y[1..];
    SplitConcat(a, b);
    KeptConcat(keep, init + [last + first], tail);
    KeptConcat(keep, init, [last + first]);
    KeptConcat(keep, init, [last]);
    assert x == init + [last];
    KeptConcat(keep, [first], tail);
    assert y == [first] + tail;
  }

  lemma KeptAcrossCleanCut(keep: string -> bool, last: string, first: string)
    requires last == "" || first == ""
    ensures Kept(keep, [last + first]) == Kept(keep, [last]) + Kept(keep, [first])
  {
    assert last + first == if last == "" then first else last;
    KeptOne(keep, last + first);
    KeptOne(keep, last);
    KeptOne(keep, first);
  }

  lemma Regroup(p: seq<string>, q: seq<string>, r: seq<string>, t: seq<string>)
    ensures p + (q + r) + t == (p + q) + (r + t)
  {
  }

  lemma PiecesGiveWhole(keep: string -> bool, a: string, b: string)
    requires CleanCut(a, b)
    ensures KeptLines(keep, a + b) == KeptLines(keep, a) + KeptLines(keep, b)
  {
    var x, y := Split(a), Split(b);
    KeptAroundCut(keep, a, b);
    LastOfSplit(a);
    FirstOfSplit(b);
    KeptAcrossCleanCut(keep, x[|x|-1], y[0]);
    Regroup(Kept(keep, x[..|x|-1]), Kept(keep, [x[|x|-1]]), Kept(keep, [y[0]]), Kept(keep, y[1..]));
  }

  lemma PiecesLoseALine(a: string, b: string)
    requires !CleanCut(a, b)
    ensures |KeptLines(Everything(), a + b)| == |KeptLines(Everything(), a)| + |KeptLines(Everything(), b)| - 1
  {
    var x, y, all := Split(a), Split(b), Everything();
    KeptAroundCut(all, a, b);
    LastOfSplit(a);
    FirstOfSplit(b);
    KeptOne(all, x[|x|-1] + y[0]);
    KeptOne(all, x[|x|-1]);
    KeptOne(all, y[0]);
  }

  /** Collecting two pieces separately gives the lines of the whole, whatever the filter,
      exactly when the cut is clean. */
  lemma PiecesGiveWholeIff(a: string, b: string)
    ensures CleanCut(a, b) <==>
            forall keep :: KeptLines(keep, a + b) == KeptLines(keep, a) + KeptLines(keep, b)
  {
    if CleanCut(a, b) {
      forall keep: string -> bool ensures KeptLines(keep, a + b) == KeptLines(keep, a) + KeptLines(keep, b) {
        PiecesGiveWhole(keep, a, b);
      }
    } else {
      PiecesLoseALine(a, b);
      assert KeptLines(Everything(), a + b) != KeptLines(Everything(), a) + KeptLines(Everything(), b);
    }
  }

  lemma KeptOne(keep: string -> bool, l: string)
    ensures Kept(keep, [l]) == if Emits(keep, l) then [l] else []
  {
    assert [l][1..] == [];
  }

  // ------------------------------------------------------------- the line loop

  /** The loop state: records so far and the counts waiting for the next record. An empty
      kept line adds to the counts of the record that follows it. */
  datatype Acc = Acc(records: seq<Record>, lines: nat, bytes: nat)

  function OneLine(keep: string -> bool, acc: Acc, l: string): Acc {
    if !keep(l) then acc
    else if l == "" then acc.(lines := acc.lines + 1, bytes := acc.bytes + 1)
    else Acc(acc.records + [Record(l, acc.lines + 1, acc.bytes + |l| + 1, l)], 0, 0)
  }

  function Process(keep: string -> bool, ls: seq<string>): Acc {
    if ls == [] then Acc([], 0, 0) else OneLine(keep, Process(keep, ls[..|ls|-1]), ls[|ls|-1])
  }

  function Contents(rs: seq<Record>): seq<string> {
    seq(|rs|, i requires 0 <= i < |rs| => rs[i].content)
  }

  lemma {:induction false} ProcessEmitsKept(keep: string -> bool, ls: seq<string>)
    ensures Contents(Process(keep, ls).records) == Kept(keep, ls)
  {
    if ls != [] {
      var init, last := ls[..|ls|-1], ls[|ls|-1];
      ProcessEmitsKept(keep, init);
      assert ls == init + [last];
      KeptConcat(keep, init, [last]);
      KeptOne(keep, last);
    }
  }

  /** The length of the lines as the loop counts them: contents plus one each. */
  function Measured(ls: seq<string>): nat {
    if ls == [] then 0 else Measured(ls[..|ls|-1]) + |ls[|ls|-1]| + 1
  }

  lemma {:induction false} MeasuredIsLength(ls: seq<string>)
    ensures Measured(ls) == |Unlines(ls)|
  {
    if ls != [] {
      var init, last := ls[..|ls|-1], ls[|ls|-1];
      MeasuredIsLength(init);
      assert ls == init + [last];
      UnlinesConcat(init, [last]);
      assert [last][1..] == [];
    }
  }

  function KeptCount(keep: string -> bool, ls: seq<string>): nat {
    if ls == [] then 0 else KeptCount(keep, ls[..|ls|-1]) + (if keep(ls[|ls|-1]) then 1 else 0)
  }

  function SumLines(rs: seq<Record>): nat {
    if rs == [] then 0 else SumLines(rs[..|rs|-1]) + rs[|rs|-1].lineCount
  }

  /** Line counts are conserved: each kept line, empty ones included, is counted in exactly
      one record or still waiting for one. */
  lemma {:induction false} LineCountsConserved(keep: string -> bool, ls: seq<string>)
    ensures SumLines(Process(keep, ls).records) + Process(keep, ls).lines == KeptCount(keep, ls)
  {
    if ls != [] {
      var init, last := ls[..|ls|-1], ls[|ls|-1];
      LineCountsConserved(keep, init);
      var acc := Process(keep, init);
      if Emits(keep, last) {
        assert Process(keep, ls).records[..|acc.records|] == acc.records;
      }
    }
  }

  /** How many lines the loop handles before the record cap stops it. */
  function Handled(keep: string -> bool, ls: seq<string>, max: nat, k: nat): (n: nat)
    requires max > 0 && k <= |ls| && |Process(keep, ls[..k]).records| < max
    ensures k <= n <= |ls|
    ensures n < |ls| ==> |Process(keep, ls[..n]).records| == max
    ensures |Process(keep, ls[..n]).records| <= max
    ensures forall j | k <= j < n :: |Process(keep, ls[..j]).records| < max
    decreases |ls| - k
  {
    if k == |ls| then k
    else
      assert ls[..k+1][..k] == ls[..k];
      if |Process(keep, ls[..k+1]).records| >= max then k + 1
      else Handled(keep, ls, max, k + 1)
  }

  datatype Tick = Tick(records: seq<Record>, lines: nat, advance: nat)

  /** One tick on the data read: the records, the lines handled, the bytes consumed. */
  function Collect(keep: string -> bool, data: string, max: nat): Tick
    requires max > 0
  {
    var ls := SplitLines(data);
    var n := Handled(keep, ls, max, 0);
    var rs := Process(keep, ls[..n]).records;
    var processed := Measured(ls[..n]);
    Tick(rs, n, if |rs| >= max && processed < |data| then processed else |data|)
  }

  /** The loop stops at the first position where the cap is reached, or at the end. */
  lemma HandledAll(keep: string -> bool, ls: seq<string>, max: nat, n: nat)
    requires max > 0 && n <= |ls|
    requires forall j | 0 <= j < n :: |Process(keep, ls[..j]).records| < max
    requires |Process(keep, ls[..n]).records| >= max || n == |ls|
    ensures ls[..0] == [] && Handled(keep, ls, max, 0) == n
  {
    assert ls[..0] == [];
    var h := Handled(keep, ls, max, 0);
    assert h < n ==> |Process(keep, ls[..h]).records| < max;
  }

  lemma CollectStopsAt(keep: string -> bool, data: string, max: nat, n: nat)
    requires max > 0 && n <= |SplitLines(data)|
    requires forall j | 0 <= j < n :: |Process(keep, SplitLines(data)[..j]).records| < max
    requires |Process(keep, SplitLines(data)[..n]).records| >= max || n == |SplitLines(data)|
    ensures var rs, processed := Process(keep, SplitLines(data)[..n]).records, Measured(SplitLines(data)[..n]);
            Collect(keep, data, max) == Tick(rs, n, if |rs| >= max && processed < |data| then processed else |data|)
  {
    HandledAll(keep, SplitLines(data), max, n);
  }

  function StartOffset(offsets: map<string, nat>, file: string, content: string): (o: nat)
    ensures o <= |content|
  {
    if file in offsets && offsets[file] <= |content| then offsets[file] else 0
  }

  function ReadAt(content: string, offset: nat, limit: nat): string
    requires offset <= |content|
  {
    content[offset..if offset + limit < |content| then offset + limit else |content|]
  }

  // ------------------------------------------------------ what a tick consumes

  /** Without carriage returns, the lines the loop has handled are, byte for byte, the
      beginning of the data. */
  lemma HandledIsPrefix(keep: string -> bool, data: string, n: nat)
    requires n <= |RawLines(data)|
    requires Measured(RawLines(data)[..n]) <= |data| && '\r' !in data
    ensures data[..Measured(RawLines(data)[..n])] == Unlines(RawLines(data)[..n])
  {
    var s, raw := TrimEnd(data), RawLines(data);
    MeasuredIsLength(raw[..n]);
    if raw != [] {
      SplitUnlines(s);
      assert raw == raw[..n] + raw[n..];
      UnlinesConcat(raw[..n], raw[n..]);
      var m := Measured(raw[..n]);
      assert (s + "\n")[..m] == Unlines(raw[..n]);
      if m == |s| + 1 {
        assert data[|s|] in data;
        assert data[..m] == s + "\n";
      } else {
        assert data[..m] == s[..m] == (s + "\n")[..m];
      }
    }
  }

  lemma {:induction false} KeptOfUnlines(keep: string -> bool, ls: seq<string>)
    requires forall l | l in ls :: '\n' !in l
    ensures KeptLines(keep, Unlines(ls)) == Kept(keep, ls)
  {
    if ls != [] {
      KeptOfUnlines(keep, ls[1..]);
      PiecesGiveWhole(keep, ls[0] + "\n", Unlines(ls[1..]));
      SplitOneLine(ls[0]);
      KeptConcat(keep, [ls[0]], [""]);
      KeptOne(keep, "");
      KeptOne(keep, ls[0]);
    }
  }

  lemma {:induction false} SplitOneLine(l: string)
    requires '\n' !in l
    ensures Split(l + "\n") == [l, ""]
  {
    if l != "" {
      assert (l + "\n")[1..] == l[1..] + "\n" && (l + "\n")[0] == l[0];
      assert l[0] in l;
      SplitOneLine(l[1..]);
      assert [l[0]] + l[1..] == l;
    } else {
      assert l + "\n" == "\n" && "\n"[1..] == "";
    }
  }

  /** Newlines at the end of a text add no kept lines. */
  lemma {:induction false} TrailingNewlines(keep: string -> bool, s: string, data: string)
    requires s <= data && forall i | |s| <= i < |data| :: data[i] == '\n'
    ensures KeptLines(keep, data) == KeptLines(keep, s)
    decreases |data|
  {
    if |s| < |data| {
      var d := data[..|data|-1];
      TrailingNewlines(keep, s, d);
      assert data == d + "\n";
      PiecesGiveWhole(keep, d, "\n");
      assert Split("\n") == ["", ""] by { assert "\n"[1..] == ""; }
      KeptConcat(keep, [""], [""]);
      KeptOne(keep, "");
      assert [""] + [""] == ["", ""];
    } else {
      assert data == s;
    }
  }

  lemma RawIsTrimmed(data: string)
    requires '\r' !in data
    ensures SplitLines(data) == RawLines(data)
    ensures forall l | l in RawLines(data) :: '\n' !in l
  {
    var s := TrimEnd(data);
    if s != "" {
      SplitHasNoNewline(s);
      SplitHasNoCR(s);
    }
  }

  lemma {:induction false} SplitHasNoCR(s: string)
    requires '\r' !in s
    ensures forall l | l in Split(s) :: '\r' !in l
  {
    if s != "" { SplitHasNoCR(s[1..]); }
  }

  /** One tick on data without carriage returns, whatever it is cut from: the records are
      exactly the kept non-empty lines of the bytes it consumed, each once and in order, also
      when the record cap stops it early -- and then it stops behind a newline. */
  lemma TickIsExact(keep: string -> bool, data: string, max: nat)
    requires max > 0 && '\r' !in data
    ensures var t := Collect(keep, data, max);
            && t.advance <= |data| && (data != "" ==> t.advance > 0) && |t.records| <= max
            && Contents(t.records) == KeptLines(keep, data[..t.advance])
            && (t.advance < |data| ==> data[t.advance-1] == '\n')
  {
    var t := Collect(keep, data, max);
    var ls, s := SplitLines(data), TrimEnd(data);
    RawIsTrimmed(data);
    var n := Handled(keep, ls, max, 0);
    ProcessEmitsKept(keep, ls[..n]);
    MeasuredIsLength(ls[..n]);
    if n == 0 { assert Measured(ls[..n]) == 0 && Process(keep, ls[..n]) == Acc([], 0, 0); }
    if t.advance < |data| {
      HandledIsPrefix(keep, data, n);
      KeptOfUnlines(keep, ls[..n]);
      UnlinesEndsInNewline(ls[..n]);
    } else {
      assert data[..t.advance] == data;
      AllHandled(keep, data, max);
      assert ls[..|ls|] == ls;
      assert forall i | |s| <= i < |data| :: data[i] in data;
      TrailingNewlines(keep, s, data);
      if s == "" { KeptOne(keep, ""); }
    }
  }

  lemma {:induction false} UnlinesEndsInNewline(ls: seq<string>)
    ensures ls != [] ==> Unlines(ls) != "" && Unlines(ls)[|Unlines(ls)|-1] == '\n'
  {
    if |ls| > 1 { UnlinesEndsInNewline(ls[1..]); }
    else if |ls| == 1 { assert ls[1..] == []; }
  }

  /** A tick that consumes all its data has handled all its lines. */
  lemma AllHandled(keep: string -> bool, data: string, max: nat)
    requires max > 0 && '\r' !in data && Collect(keep, data, max).advance == |data|
    ensures Collect(keep, data, max).lines == |SplitLines(data)|
  {
    var ls := SplitLines(data);
    var n := Handled(keep, ls, max, 0);
    if n < |ls| {
      RawIsTrimmed(data);
      SomeLeftOver(TrimEnd(data), n);
    }
  }

  lemma SomeLeftOver(s: string, n: nat)
    requires s != "" && s[|s|-1] != '\n' && n < |Split(s)|
    ensures Measured(Split(s)[..n]) < |s|
  {
    var ls := Split(s);
    SplitUnlines(s);
    MeasuredIsLength(ls[..n]);
    assert ls == ls[..n] + ls[n..];
    UnlinesConcat(ls[..n], ls[n..]);
    LastLineNotEmpty(s);
    RestIsLonger(ls, n);
  }

  lemma {:induction false} LastLineNotEmpty(s: string)
    requires s != "" && s[|s|-1] != '\n'
    ensures Split(s)[|Split(s)|-1] != ""
  {
    LastOfSplit(s);
  }

  lemma RestIsLonger(ls: seq<string>, n: nat)
    requires n < |ls| && ls[|ls|-1] != ""
    ensures |Unlines(ls[n..])| >= 2
  {
    var rest := ls[n..];
    UnlinesConcat(rest[..|rest|-1], [rest[|rest|-1]]);
    assert rest == rest[..|rest|-1] + [rest[|rest|-1]];
    assert [rest[|rest|-1]][1..] == [];
  }

  // ------------------------------------------------------------ many ticks

  /** What has been emitted so far and how far the file has been read. */
  datatype Progress = Progress(emitted: seq<string>, offset: nat)

  function ReadFrom(p: Progress, content: string): (start: nat)
    ensures start <= |content|
  {
    if |content| < p.offset then 0 else p.offset
  }

  /** One poll of a file with this content. */
  function Poll(keep: string -> bool, p: Progress, content: string, limit: nat, max: nat): Progress
    requires limit > 0 && max > 0
  {
    var start := ReadFrom(p, content);
    var data := ReadAt(content, start, limit);
    if data == "" then p
    else
      var t := Collect(keep, data, max);
      Progress(p.emitted + Contents(t.records), start + t.advance)
  }

  /** What polling is for: exactly the kept non-empty lines of what has been consumed, each
      once and in order, up to a line boundary. */
  ghost predicate Exact(keep: string -> bool, p: Progress, file: string) {
    && p.offset <= |file| && p.emitted == KeptLines(keep, file[..p.offset])
    && (p.offset == 0 || file[p.offset-1] == '\n')
  }

  /** What is read ends at a line boundary: the writer has finished its line and the read
      limit does not cut one. */
  ghost predicate CleanRead(p: Progress, file: string, limit: nat) {
    && '\r' !in file
    && var data := ReadAt(file, ReadFrom(p, file), limit);
       data == "" || data[|data|-1] == '\n'
  }

  lemma ExtendKept(keep: string -> bool, file: string, start: nat, k: nat)
    requires start + k <= |file| && (start == 0 || file[start-1] == '\n')
    ensures KeptLines(keep, file[..start + k]) == KeptLines(keep, file[..start]) + KeptLines(keep, file[start..start + k])
  {
    var a, b := file[..start], file[start..start + k];
    assert a + b == file[..start + k];
    PiecesGiveWhole(keep, a, b);
  }

  lemma NothingKept(keep: string -> bool)
    ensures KeptLines(keep, "") == []
  {
    KeptOne(keep, "");
  }

  lemma SamePrefix(a: string, b: string, n: nat)
    requires a <= b && n <= |a|
    ensures n <= |b| && a[..n] == b[..n] && (n > 0 ==> a[n-1] == b[n-1])
  {
  }

  /** A tick that has consumed part of the data up to a newline and emitted its lines. */
  ghost predicate GoodTick(keep: string -> bool, data: string, t: Tick) {
    && 0 < t.advance <= |data| && data[t.advance-1] == '\n'
    && Contents(t.records) == KeptLines(keep, data[..t.advance])
  }

  lemma TickIsGood(keep: string -> bool, data: string, max: nat)
    requires max > 0 && '\r' !in data && data != "" && data[|data|-1] == '\n'
    ensures GoodTick(keep, data, Collect(keep, data, max))
  {
    TickIsExact(keep, data, max);
  }

  /** What a poll of new data does. */
  lemma PollTick(keep: string -> bool, p: Progress, file: string, limit: nat, max: nat) returns (t: Tick)
    requires limit > 0 && max > 0 && p.offset <= |file| && CleanRead(p, file, limit)
    requires ReadAt(file, p.offset, limit) != ""
    ensures GoodTick(keep, ReadAt(file, p.offset, limit), t)
    ensures Poll(keep, p, file, limit, max) == Progress(p.emitted + Contents(t.records), p.offset + t.advance)
  {
    var data := ReadAt(file, p.offset, limit);
    assert forall c | c in data :: c in file;
    TickIsGood(keep, data, max);
    t := Collect(keep, data, max);
  }

  lemma GoodTickKeepsExact(keep: string -> bool, p: Progress, file: string, limit: nat, t: Tick)
    requires Exact(keep, p, file) && GoodTick(keep, ReadAt(file, p.offset, limit), t)
    ensures Exact(keep, Progress(p.emitted + Contents(t.records), p.offset + t.advance), file)
  {
    var data, start, k := ReadAt(file, p.offset, limit), p.offset, t.advance;
    assert data[..k] == file[start..start + k];
    assert file[start + k - 1] == data[k - 1];
    ExtendKept(keep, file, start, k);
  }

  lemma PollKeepsExact(keep: string -> bool, p: Progress, before: string, file: string, limit: nat, max: nat)
    returns (q: Progress)
    requires limit > 0 && max > 0 && before <= file
    requires Exact(keep, p, before) && CleanRead(p, file, limit)
    ensures q == Poll(keep, p, file, limit, max)
    ensures Exact(keep, q, file) && p.offset <= q.offset && (p.offset < |file| ==> p.offset < q.offset)
  {
    SamePrefix(before, file, p.offset);
    if ReadAt(file, p.offset, limit) == "" {
      q := p;
    } else {
      var t := PollTick(keep, p, file, limit, max);
      GoodTickKeepsExact(keep, p, file, limit, t);
      q := Progress(p.emitted + Contents(t.records), p.offset + t.advance);
    }
  }

  ghost predicate Polls(keep: string -> bool, contents: seq<string>, states: seq<Progress>, limit: nat, max: nat, i: nat)
    requires limit > 0 && max > 0
  {
    i < |contents| && i + 1 < |states| && states[i+1] == Poll(keep, states[i], contents[i], limit, max)
  }

  /** Polling a file whose successive contents are `contents`. */
  ghost predicate IsPolling(keep: string -> bool, contents: seq<string>, states: seq<Progress>, limit: nat, max: nat)
    requires limit > 0 && max > 0
  {
    && |states| == |contents| + 1 && states[0] == Progress([], 0)
    && forall i: nat | i < |contents| :: Polls(keep, contents, states, limit, max, i)
  }

  /** Over any number of polls of a growing file, the consumed ranges follow one another
      without gap or overlap, and what has been emitted is exactly the kept non-empty lines of
      what has been consumed, also when the record cap stops polls early. */
  lemma {:induction false} PollingIsExact(keep: string -> bool, contents: seq<string>, states: seq<Progress>,
                                          limit: nat, max: nat, n: nat)
    requires limit > 0 && max > 0 && IsPolling(keep, contents, states, limit, max) && 0 < n <= |contents|
    requires forall i | 0 < i < |contents| :: contents[i-1] <= contents[i]
    requires forall i | 0 <= i < |contents| :: CleanRead(states[i], contents[i], limit)
    ensures Exact(keep, states[n], contents[n-1])
    ensures states[n-1].offset <= states[n].offset
    ensures states[n-1].offset < |contents[n-1]| ==> states[n-1].offset < states[n].offset
  {
    assert Polls(keep, contents, states, limit, max, n - 1);
    if n == 1 {
      NothingKept(keep);
      var q := PollKeepsExact(keep, states[0], "", contents[0], limit, max);
    } else {
      PollingIsExact(keep, contents, states, limit, max, n - 1);
      var q := PollKeepsExact(keep, states[n-1], contents[n-2], contents[n-1], limit, max);
    }
  }

  // -------------------------------------------------------- carriage returns

  function CutCRs(ls: seq<string>): nat {
    if ls == [] then 0 else CutCRs(ls[..|ls|-1]) + (|ls[|ls|-1]| - |TrimCR(ls[|ls|-1])|)
  }

  /** With carriage returns the loop counts short by one for each that it cut off: when the
      cap stops a tick, the next one starts that many bytes before the end of what has been
      handled -- exactly there when there was none. */
  lemma {:induction false} CountedShort(ls: seq<string>)
    ensures Measured(TrimAll(ls)) + CutCRs(ls) == |Unlines(ls)|
  {
    if ls != [] {
      var n := |ls| - 1;
      CountedShort(ls[..n]);
      assert ls == ls[..n] + [ls[n]];
      UnlinesConcat(ls[..n], [ls[n]]);
      assert [ls[n]][1..] == [];
      assert TrimAll(ls)[..n] == TrimAll(ls[..n]);
    }
  }

  lemma SplitFirstLine(l: string, rest: string)
    requires '\n' !in l
    ensures Split(l + "\n" + rest) == [l] + Split(rest)
  {
    SplitConcat(l + "\n", rest);
    SplitOneLine(l);
    assert "" + Split(rest)[0] == Split(rest)[0];
    assert [Split(rest)[0]] + Split(rest)[1..] == Split(rest);
    assert [l, ""][..1] == [l];
  }

  lemma {:induction false} SplitOfUnlines(ls: seq<string>, l: string)
    requires '\n' !in l && forall x | x in ls :: '\n' !in x
    ensures Split(Unlines(ls) + l) == ls + [l]
  {
    if ls == [] {
      SplitWithoutNewline(l);
      assert "" + l == l;
    } else {
      SplitOfUnlines(ls[1..], l);
      SplitFirstLine(ls[0], Unlines(ls[1..]) + l);
      assert Unlines(ls) + l == ls[0] + "\n" + (Unlines(ls[1..]) + l);
      assert [ls[0]] + (ls[1..] + [l]) == ls + [l];
    }
  }

  lemma {:induction false} SplitWithoutNewline(l: string)
    requires '\n' !in l
    ensures Split(l) == [l]
  {
    if l != "" {
      SplitWithoutNewline(l[1..]);
      assert l[0] in l && [l[0]] + l[1..] == l;
    }
  }
}
