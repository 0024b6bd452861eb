/** What happens to lines that end in carriage returns when the record cap stops a tick of
    internal/agent/log_collect.go: the count of handled bytes is short by the carriage returns
    that were cut off, so the next tick reads the end of what has been handled again. */
module LogRepeat {
  import opened LogCollect

  /** Nothing but line ends. */
  predicate AllEnds(s: string) {
    s == "" || ((s[|s|-1] == '\r' || s[|s|-1] == '\n') && AllEnds(s[..|s|-1]))
  }

  lemma {:induction false} AllEndsIf(s: string)
    requires forall i | 0 <= i < |s| :: s[i] == '\r' || s[i] == '\n'
    ensures AllEnds(s)
  {
    if s != "" { AllEndsIf(s[..|s|-1]); }
  }

  lemma {:induction false} AllEndsFrom(s: string, k: nat)
    requires AllEnds(s) && k <= |s|
    ensures AllEnds(s[k..])
  {
    if k < |s| {
      AllEndsFrom(s[..|s|-1], k);
      assert s[k..][..|s[k..]|-1] == s[..|s|-1][k..];
    }
  }

  function EndCRs(l: string): nat {
    |l| - |TrimCR(l)|
  }

  // ------------------------------------------------------------------ texts

  lemma SplitAtNewline(w: string, v: string)
    ensures Split(w + "\n" + v) == Split(w) + Split(v)
  {
    var x, y := Split(w), Split(v);
    SplitUnlines(w);
    SplitHasNoNewline(w);
    SplitOfUnlines(x, "");
    assert w + "\n" + "" == w + "\n";
    SplitConcat(w + "\n", v);
    JoinAfterAll(x, y);
  }

  lemma JoinAfterAll(x: seq<string>, y: seq<string>)
    requires y != []
    ensures JoinSplits(x + [""], y) == x + y
  {
    assert (x + [""])[..|x|] == x;
    assert "" + y[0] == y[0];
    assert [y[0]] + y[1..] == y;
  }

  lemma {:induction false} TrimCRCuts(l: string)
    ensures forall i | |TrimCR(l)| <= i < |l| :: l[i] == '\r'
  {
    if l != "" && l[|l|-1] == '\r' { TrimCRCuts(l[..|l|-1]); }
  }

  lemma {:induction false} TrimCROf(x: string, crs: string)
    requires x == "" || x[|x|-1] != '\r'
    requires forall i | 0 <= i < |crs| :: crs[i] == '\r'
    ensures TrimCR(x + crs) == x
    decreases |crs|
  {
    if crs == "" {
      assert x + crs == x;
    } else {
      assert (x + crs)[..|x + crs|-1] == x + crs[..|crs|-1];
      TrimCROf(x, crs[..|crs|-1]);
    }
  }

  lemma TrimAllConcat(a: seq<string>, b: seq<string>)
    ensures TrimAll(a + b) == TrimAll(a) + TrimAll(b)
  {
  }

  /** The lines a text would emit, carriage returns cut off. */
  function Again(keep: string -> bool, w: string): seq<string> {
    Kept(keep, TrimAll(Split(w)))
  }

  lemma AgainOneLine(keep: string -> bool, w: string)
    requires '\n' !in w
    ensures Again(keep, w) == if Emits(keep, TrimCR(w)) then [TrimCR(w)] else []
  {
    SplitWithoutNewline(w);
    assert TrimAll([w]) == [TrimCR(w)];
    KeptOne(keep, TrimCR(w));
  }

  lemma AgainAtNewline(keep: string -> bool, v: string, q: string)
    ensures Again(keep, v + "\n" + q) == Again(keep, v) + Again(keep, q)
  {
    SplitAtNewline(v, q);
    TrimAllConcat(Split(v), Split(q));
    KeptConcat(keep, TrimAll(Split(v)), TrimAll(Split(q)));
  }

  lemma AgainNothing(keep: string -> bool)
    ensures Again(keep, "") == []
  {
    AgainOneLine(keep, "");
  }

  /** A carriage return at the end of a text is trimmed with those before it. */
  lemma AgainCR(keep: string -> bool, x: string)
    ensures Again(keep, x + "\r") == Again(keep, x)
  {
    var ls := Split(x);
    SplitConcat(x, "\r");
    SplitWithoutNewline("\r");
    var init, last := ls[..|ls|-1], ls[|ls|-1];
    assert ls == init + [last];
    assert Split(x + "\r") == init + [last + "\r"];
    OneMoreCR(last);
    TrimAllConcat(init, [last]);
    TrimAllConcat(init, [last + "\r"]);
    assert TrimAll([last]) == TrimAll([last + "\r"]);
  }

  lemma OneMoreCR(l: string)
    ensures TrimCR(l + "\r") == TrimCR(l)
  {
    assert (l + "\r")[..|l|] == l;
  }

  lemma AgainNewline(keep: string -> bool, x: string)
    ensures Again(keep, x + "\n") == Again(keep, x)
  {
    AgainAtNewline(keep, x, "");
    AgainNothing(keep);
    assert x + "\n" + "" == x + "\n";
  }

  lemma AgainOneMore(keep: string -> bool, x: string, c: char)
    requires c == '\r' || c == '\n'
    ensures Again(keep, x + [c]) == Again(keep, x)
  {
    if c == '\r' { AgainCR(keep, x); } else { AgainNewline(keep, x); }
  }

  /** Line ends after the last text emit nothing. */
  lemma {:induction false} AgainEnds(keep: string -> bool, x: string, tail: string)
    requires AllEnds(tail)
    ensures Again(keep, x + tail) == Again(keep, x)
    decreases |tail|
  {
    if tail == "" {
      assert x + tail == x;
    } else {
      var most, last := tail[..|tail|-1], tail[|tail|-1];
      AgainEnds(keep, x, most);
      assert x + tail == (x + most) + [last];
      AgainOneMore(keep, x + most, last);
    }
  }

  lemma OnlyEnds(keep: string -> bool, tail: string)
    requires AllEnds(tail)
    ensures Again(keep, tail) == []
  {
    AgainEnds(keep, "", tail);
    AgainNothing(keep);
    assert "" + tail == tail;
  }

  /** What a tick without a cap emits of the text it reads. */
  lemma KeptIsAgain(keep: string -> bool, x: string)
    ensures Kept(keep, SplitLines(x)) == Again(keep, x)
  {
    var tail := TrimEndParts(x);
    AgainEnds(keep, TrimEnd(x), tail);
    if TrimEnd(x) == "" { AgainNothing(keep); }
  }

  lemma TrimEndParts(data: string) returns (tail: string)
    ensures data == TrimEnd(data) + tail && AllEnds(tail)
  {
    tail := data[|TrimEnd(data)|..];
    AllEndsIf(tail);
  }

  // ------------------------------------------ reading the end of a line again

  /** `over` characters of the end of the line `l` are read again: none, or an end, not all
      of it, that the filter drops. */
  predicate DropsEnd(keep: string -> bool, l: string, over: int) {
    over <= 0 || (over < |l| && !keep(l[|l| - over..]))
  }

  lemma OnlyCRs(keep: string -> bool, w: string)
    requires forall i | 0 <= i < |w| :: w[i] == '\r'
    ensures Again(keep, w) == []
  {
    assert w == "" + w;
    TrimCROf("", w);
    AgainOneLine(keep, w);
  }

  /** An end of a line, not of its carriage returns only. */
  lemma EndWithText(keep: string -> bool, w: string, end: string, crs: string)
    requires w == end + crs && end != "" && end[|end|-1] != '\r' && '\n' !in end
    requires forall i | 0 <= i < |crs| :: crs[i] == '\r'
    ensures |Again(keep, w)| == 0 <==> !keep(end)
  {
    TrimCROf(end, crs);
    assert '\n' !in w;
    AgainOneLine(keep, w);
  }

  lemma LastIsEmitted(keep: string -> bool, w: string, v: string, q: string)
    requires w == v + "\n" + q && '\n' !in q && Emits(keep, TrimCR(q))
    ensures |Again(keep, w)| > 0
  {
    AgainAtNewline(keep, v, q);
    AgainOneLine(keep, q);
  }

  /** The line `q` ends at `e` in the data, just before its newline, and begins the data or
      follows a newline; `l` is what was emitted of it. */
  predicate LineAt(data: string, e: nat, q: string, l: string) {
    && |q| <= e <= |data| && q == data[e - |q|..e] && '\n' !in q
    && (e == |q| || data[e - |q| - 1] == '\n')
    && |l| <= |q| && l == q[..|l|] && l != "" && l[|l|-1] != '\r'
    && forall i | |l| <= i < |q| :: q[i] == '\r'
  }

  lemma InLineEnd(keep: string -> bool, data: string, e: nat, q: string, l: string, at: nat)
    requires LineAt(data, e, q, l) && e - |q| + |l| <= at <= e
    ensures |Again(keep, data[at..e])| == 0
  {
    var w := data[at..e];
    assert forall i | 0 <= i < |w| :: w[i] == q[at - (e - |q|) + i];
    OnlyCRs(keep, w);
  }

  lemma InLineText(keep: string -> bool, data: string, e: nat, q: string, l: string, at: nat)
    requires LineAt(data, e, q, l) && e - |q| <= at < e - |q| + |l|
    ensures |Again(keep, data[at..e])| == 0 <==> !keep(l[at - (e - |q|)..])
  {
    var end := l[at - (e - |q|)..];
    assert data[at..e] == end + q[|l|..];
    EndWithText(keep, data[at..e], end, q[|l|..]);
  }

  lemma CutAtNewline(data: string, at: nat, m: nat, e: nat)
    requires at <= m < e <= |data| && data[m] == '\n'
    ensures data[at..e] == data[at..m] + "\n" + data[m+1..e]
  {
  }

  lemma LineInText(data: string, e: nat, q: string, l: string, at: nat)
    requires LineAt(data, e, q, l) && at < e - |q|
    ensures data[at..e] == data[at..e - |q| - 1] + "\n" + q
  {
    CutAtNewline(data, at, e - |q| - 1, e);
  }

  lemma BeforeLine(keep: string -> bool, data: string, e: nat, q: string, l: string, at: nat)
    requires LineAt(data, e, q, l) && Emits(keep, TrimCR(q)) && at < e - |q|
    ensures |Again(keep, data[at..e])| > 0
  {
    LineInText(data, e, q, l, at);
    LastIsEmitted(keep, data[at..e], data[at..e - |q| - 1], q);
  }

  lemma DropsFrom(keep: string -> bool, l: string, i: nat, over: int)
    requires i < |l| && over == |l| - i && keep(l)
    ensures !keep(l[i..]) <==> DropsEnd(keep, l, over)
  {
    assert l[0..] == l;
  }

  /** The text from `at` to the end of an emitted line emits nothing exactly when it is
      carriage returns only, or the end of the line, not all of it, with the filter dropping
      that end. */
  lemma EndEmitsNothingIff(keep: string -> bool, data: string, e: nat, q: string, l: string, at: nat)
    requires LineAt(data, e, q, l) && keep(l) && TrimCR(q) == l && at <= e
    ensures |Again(keep, data[at..e])| == 0 <==> DropsEnd(keep, l, e - at - (|q| - |l|))
  {
    var begin := e - |q|;
    if begin + |l| <= at {
      InLineEnd(keep, data, e, q, l, at);
    } else if begin <= at {
      InLineText(keep, data, e, q, l, at);
      DropsFrom(keep, l, at - begin, e - at - (|q| - |l|));
    } else {
      BeforeLine(keep, data, e, q, l, at);
    }
  }

  // ------------------------------------------------------- what is left to read

  function From(data: string, at: nat): string {
    if at < |data| then data[at..] else ""
  }

  /** After the line that ends at `e` comes its newline, or nothing but line ends. */
  predicate EndsAt(data: string, e: nat) {
    e <= |data| && ((e < |data| && data[e] == '\n') || AllEnds(data[e..]))
  }

  lemma NothingAfter(data: string, e: nat)
    requires e <= |data| && AllEnds(data[e..])
    ensures AllEnds(From(data, e + 1))
  {
    if e < |data| {
      AllEndsFrom(data[e..], 1);
      assert data[e..][1..] == data[e+1..];
    }
    if e + 1 == |data| { assert data[e+1..] == ""; }
  }

  /** Reading from `at` on is reading up to `e` and then from behind the newline on. */
  lemma ReadOn(keep: string -> bool, data: string, e: nat, at: nat)
    requires EndsAt(data, e) && at <= e
    ensures Again(keep, From(data, at)) == Again(keep, data[at..e]) + Again(keep, From(data, e + 1))
  {
    assert From(data, at) == data[at..];
    if e < |data| && data[e] == '\n' {
      CutAtNewline(data, at, e, |data|);
      assert data[at..|data|] == data[at..] && data[e+1..|data|] == From(data, e + 1);
      AgainAtNewline(keep, data[at..e], From(data, e + 1));
    } else {
      assert data[at..] == data[at..e] + data[e..];
      AgainEnds(keep, data[at..e], data[e..]);
      NothingAfter(data, e);
      OnlyEnds(keep, From(data, e + 1));
    }
  }

  // --------------------------------------------------- the tick that was capped

  /** The first `n` raw lines end before this position, their newlines included. */
  function HandledEnd(data: string, n: nat): nat
    requires n <= |RawLines(data)|
  {
    |Unlines(RawLines(data)[..n])|
  }

  lemma OneUnline(l: string)
    ensures Unlines([l]) == l + "\n"
  {
    assert [l][1..] == [];
  }

  lemma UnlinesThree(a: seq<string>, l: string, b: seq<string>)
    ensures Unlines(a + [l]) == Unlines(a) + (l + "\n")
    ensures Unlines(a + [l] + b) == Unlines(a) + (l + "\n") + Unlines(b)
  {
    UnlinesConcat(a, [l]);
    OneUnline(l);
    UnlinesConcat(a + [l], b);
  }

  lemma ThreeParts(ls: seq<string>, n: nat)
    requires 0 < n <= |ls|
    ensures ls[..n] == ls[..n-1] + [ls[n-1]] && ls == ls[..n-1] + [ls[n-1]] + ls[n..]
  {
  }

  lemma UnlinesAround(ls: seq<string>, n: nat)
    requires 0 < n <= |ls|
    ensures Unlines(ls[..n]) == Unlines(ls[..n-1]) + (ls[n-1] + "\n")
    ensures Unlines(ls) == Unlines(ls[..n-1]) + (ls[n-1] + "\n") + Unlines(ls[n..])
  {
    ThreeParts(ls, n);
    UnlinesThree(ls[..n-1], ls[n-1], ls[n..]);
  }

  lemma NewlineOrNothing(ls: seq<string>)
    ensures var u := Unlines(ls); (u == "") == (ls == []) && (u == "" || u[|u|-1] == '\n')
  {
    UnlinesEndsInNewline(ls);
  }

  lemma StandsIn(s: string, a: string, q: string, z: string)
    requires s + "\n" == a + (q + "\n") + z
    ensures |a| + |q| <= |s| && s[|a|..|a| + |q|] == q && s[..|a| + |q|] == a + q
    ensures a != "" ==> s[|a|-1] == a[|a|-1]
    ensures z == "" ==> |a| + |q| == |s|
    ensures z != "" ==> |a| + |q| < |s| && s[|a| + |q|] == '\n'
  {
    var t := s + "\n";
    assert |t| == |a| + |q| + 1 + |z|;
    assert t[|a|..|a| + |q|] == q && t[|a| + |q|] == '\n' && t[..|a| + |q|] == a + q;
    assert a != "" ==> t[|a|-1] == a[|a|-1];
    assert t[..|s|] == s;
  }

  /** Lines stand in their text one after the other. */
  lemma LineStands(s: string, n: nat) returns (a: string, z: string)
    requires 0 < n <= |Split(s)|
    ensures a == Unlines(Split(s)[..n-1]) && z == Unlines(Split(s)[n..])
    ensures s + "\n" == a + (Split(s)[n-1] + "\n") + z
    ensures |Unlines(Split(s)[..n])| == |a| + |Split(s)[n-1]| + 1
    ensures (a == "" || a[|a|-1] == '\n') && (z == "" <==> n == |Split(s)|)
  {
    var raw := Split(s);
    a, z := Unlines(raw[..n-1]), Unlines(raw[n..]);
    SplitUnlines(s);
    UnlinesAround(raw, n);
    NewlineOrNothing(raw[..n-1]);
    NewlineOrNothing(raw[n..]);
  }

  lemma AfterLine(s: string, n: nat, e: nat)
    requires 0 < n < |Split(s)| && e < |s| && s[e] == '\n' && s[..e] == Unlines(Split(s)[..n-1]) + Split(s)[n-1]
    ensures Split(s[e+1..]) == Split(s)[n..]
  {
    var raw := Split(s);
    SplitHasNoNewline(s);
    assert raw[n-1] in raw && forall l | l in raw[..n-1] :: l in raw;
    SplitOfUnlines(raw[..n-1], raw[n-1]);
    assert raw[..n-1] + [raw[n-1]] == raw[..n];
    assert s == s[..e] + "\n" + s[e+1..];
    SplitAtNewline(s[..e], s[e+1..]);
    SamePart(raw[..n], Split(s[e+1..]), raw, n);
  }

  lemma SamePart(a: seq<string>, b: seq<string>, raw: seq<string>, n: nat)
    requires raw == a + b && n == |a|
    ensures b == raw[n..]
  {
  }

  /** Line `n - 1` of a text, and what follows it. */
  lemma LineIn(s: string, n: nat) returns (e: nat)
    requires 0 < n <= |Split(s)|
    ensures e + 1 == |Unlines(Split(s)[..n])| && |Split(s)[n-1]| <= e <= |s|
    ensures Split(s)[n-1] == s[e - |Split(s)[n-1]|..e] && '\n' !in Split(s)[n-1]
    ensures e == |Split(s)[n-1]| || s[e - |Split(s)[n-1]| - 1] == '\n'
    ensures n == |Split(s)| ==> e == |s|
    ensures n < |Split(s)| ==> e < |s| && s[e] == '\n' && Split(s[e+1..]) == Split(s)[n..]
  {
    var a, z := LineStands(s, n);
    var q := Split(s)[n-1];
    StandsIn(s, a, q, z);
    SplitHasNoNewline(s);
    assert q in Split(s);
    e := |a| + |q|;
    if n < |Split(s)| { AfterLine(s, n, e); }
  }

  lemma InData(data: string, s: string, tail: string, e: nat, q: string, l: string)
    requires data == s + tail && AllEnds(tail)
    requires |q| <= e <= |s| && q == s[e - |q|..e] && '\n' !in q && (e == |q| || s[e - |q| - 1] == '\n')
    requires |l| <= |q| && l == q[..|l|] && l != "" && l[|l|-1] != '\r' && forall i | |l| <= i < |q| :: q[i] == '\r'
    requires e == |s| || s[e] == '\n'
    ensures LineAt(data, e, q, l) && EndsAt(data, e)
  {
    assert data[e - |q|..e] == q;
    if e == |s| {
      assert data[e..] == tail;
    }
  }

  lemma TrimCRParts(q: string) returns (l: string)
    ensures l == TrimCR(q) && |l| <= |q| && l == q[..|l|] && (l == "" || l[|l|-1] != '\r')
    ensures forall i | |l| <= i < |q| :: q[i] == '\r'
  {
    l := TrimCR(q);
    TrimCRCuts(q);
  }

  lemma LineInData(data: string, s: string, tail: string, n: nat) returns (e: nat)
    requires data == s + tail && AllEnds(tail) && 0 < n <= |Split(s)| && TrimCR(Split(s)[n-1]) != ""
    ensures e + 1 == |Unlines(Split(s)[..n])|
    ensures LineAt(data, e, Split(s)[n-1], TrimCR(Split(s)[n-1])) && EndsAt(data, e)
  {
    e := LineIn(s, n);
    var q := Split(s)[n-1];
    var l := TrimCRParts(q);
    InData(data, s, tail, e, q, l);
  }

  /** Where a handled line with text stands in the data. */
  lemma HandledLine(data: string, n: nat) returns (e: nat, q: string, l: string)
    requires 0 < n <= |RawLines(data)| && SplitLines(data)[n-1] != ""
    ensures e + 1 == HandledEnd(data, n) && q == RawLines(data)[n-1] && l == SplitLines(data)[n-1] == TrimCR(q)
    ensures LineAt(data, e, q, l) && EndsAt(data, e)
  {
    var tail := TrimEndParts(data);
    e := LineInData(data, TrimEnd(data), tail, n);
    q, l := RawLines(data)[n-1], SplitLines(data)[n-1];
  }

  /** A tick that was stopped by the record cap handled at least one line and emitted the
      last one it handled. */
  lemma LastHandledIsEmitted(keep: string -> bool, data: string, max: nat)
    requires max > 0 && |Collect(keep, data, max).records| >= max
    ensures var n := Collect(keep, data, max).lines;
            0 < n <= |SplitLines(data)| && Emits(keep, SplitLines(data)[n-1])
  {
    var ls := SplitLines(data);
    assert ls[..0] == [];
    var n := Handled(keep, ls, max, 0);
    assert n > 0;
    assert |Process(keep, ls[..n-1]).records| < max;
    assert ls[..n][..n-1] == ls[..n-1];
  }

  /** Where a capped tick leaves off: short of the handled lines by the carriage returns cut
      off them, unless the data ends before. */
  lemma CappedAdvance(keep: string -> bool, data: string, max: nat) returns (at: nat)
    requires max > 0 && |Collect(keep, data, max).records| >= max
    ensures var t := Collect(keep, data, max);
            && 0 < t.lines <= |RawLines(data)| && at + CutCRs(RawLines(data)[..t.lines]) == HandledEnd(data, t.lines)
            && t.advance == (if at < |data| then at else |data|) && From(data, t.advance) == From(data, at)
  {
    LastHandledIsEmitted(keep, data, max);
    var raw, n := RawLines(data), Collect(keep, data, max).lines;
    CountedShort(raw[..n]);
    assert TrimAll(raw[..n]) == SplitLines(data)[..n];
    at := HandledEnd(data, n) - CutCRs(raw[..n]);
  }

  lemma LeavesOff(keep: string -> bool, data: string, e: nat, q: string, l: string, at: nat) returns (a: seq<string>)
    requires LineAt(data, e, q, l) && EndsAt(data, e) && keep(l) && TrimCR(q) == l && at <= e
    ensures Again(keep, From(data, at)) == a + Again(keep, From(data, e + 1))
    ensures |a| == 0 <==> DropsEnd(keep, l, e - at - (|q| - |l|))
  {
    ReadOn(keep, data, e, at);
    EndEmitsNothingIff(keep, data, e, q, l, at);
    a := Again(keep, data[at..e]);
  }

  lemma NothingBefore(b: seq<string>)
    ensures [] + b == b
  {
  }

  lemma ReadsAgain(keep: string -> bool, data: string, e: nat, q: string, l: string, cut: nat, at: nat,
                   x: string, y: string) returns (again: seq<string>)
    requires LineAt(data, e, q, l) && EndsAt(data, e) && keep(l) && TrimCR(q) == l && at + cut == e + 1
    requires x == From(data, at) && y == From(data, e + 1)
    ensures Again(keep, x) == again + Again(keep, y)
    ensures |again| == 0 <==> DropsEnd(keep, l, cut - (|q| - |l| + 1))
  {
    if cut > 0 {
      again := LeavesOff(keep, data, e, q, l, at);
    } else {
      again := [];
      NothingBefore(Again(keep, y));
    }
  }

  /** A capped tick: the last handled line, the carriage returns cut off, and the text from
      the new offset on and from behind the handled lines on. */
  lemma CappedTick(keep: string -> bool, data: string, max: nat)
    returns (e: nat, q: string, l: string, cut: nat, at: nat, next: string, unread: string)
    requires max > 0 && |Collect(keep, data, max).records| >= max
    ensures var t := Collect(keep, data, max);
            && 0 < t.lines <= |RawLines(data)| && e + 1 == HandledEnd(data, t.lines)
            && q == RawLines(data)[t.lines-1] && l == SplitLines(data)[t.lines-1]
            && cut == CutCRs(RawLines(data)[..t.lines]) && next == From(data, t.advance)
    ensures LineAt(data, e, q, l) && EndsAt(data, e) && keep(l) && TrimCR(q) == l && at + cut == e + 1
    ensures next == From(data, at) && unread == From(data, e + 1)
  {
    at := CappedAdvance(keep, data, max);
    LastHandledIsEmitted(keep, data, max);
    e, q, l := HandledLine(data, Collect(keep, data, max).lines);
    cut := CutCRs(RawLines(data)[..Collect(keep, data, max).lines]);
    next, unread := From(data, at), From(data, e + 1);
  }

  /** After a tick that was stopped by the record cap, the text from the new offset on emits
      what the text behind the last handled line emits, and before that the lines in `again`
      a second time. There are none exactly when the carriage returns cut off the handled
      lines are at most those that end the last of them (`q`, which was emitted as `l`) and
      one more, or reach into its text, but not to its beginning, and the filter drops the end
      of the line that is read again. */
  lemma RepeatsNothingIff(keep: string -> bool, data: string, max: nat)
    returns (q: string, l: string, cut: nat, next: string, unread: string, again: seq<string>)
    requires max > 0 && |Collect(keep, data, max).records| >= max
    ensures var t := Collect(keep, data, max);
            && 0 < t.lines <= |RawLines(data)|
            && q == RawLines(data)[t.lines-1] && l == SplitLines(data)[t.lines-1] == TrimCR(q)
            && cut == CutCRs(RawLines(data)[..t.lines])
            && next == From(data, t.advance) && unread == From(data, HandledEnd(data, t.lines))
    ensures |again| == 0 <==> DropsEnd(keep, l, cut - (|q| - |l| + 1))
    ensures Again(keep, next) == again + Again(keep, unread)
  {
    var e, at;
    e, q, l, cut, at, next, unread := CappedTick(keep, data, max);
    again := ReadsAgain(keep, data, e, q, l, cut, at, next, unread);
  }

  // ---------------------------------------------------------------- a witness

  function Copies(l: string, n: nat): (ls: seq<string>)
    ensures |ls| == n
  {
    seq(n, i => l)
  }

  lemma {:induction false} CopiesMeasure(l: string, n: nat)
    ensures Measured(Copies(l, n)) == n * (|l| + 1)
  {
    if n > 0 {
      CopiesMeasure(l, n - 1);
      assert Copies(l, n)[..n-1] == Copies(l, n - 1);
    }
  }

  lemma {:induction false} CopiesProcess(l: string, n: nat)
    requires l != ""
    ensures |Process(Everything(), Copies(l, n)).records| == n
  {
    if n > 0 {
      CopiesProcess(l, n - 1);
      assert Copies(l, n)[..n-1] == Copies(l, n - 1);
    }
  }

  lemma TrimTwo(s: string)
    requires s != "" && s[|s|-1] != '\r' && s[|s|-1] != '\n'
    ensures TrimEnd(s + "\r\n") == s
  {
    var one := s + "\r";
    assert s + "\r\n" == one + "\n" && (one + "\n")[..|one|] == one && one[..|s|] == s;
    assert TrimEnd(one) == s;
  }

  lemma UnlinesCopies(n: nat)
    requires n > 0
    ensures Unlines(Copies("a\r", n)) == Unlines(Copies("a\r", n - 1)) + "a" + "\r\n"
  {
    var most, last := Copies("a\r", n - 1), ["a\r"];
    assert Copies("a\r", n) == most + last;
    UnlinesConcat(most, last);
    assert last[1..] == [] && Unlines(last) == "a\r" + "\n" + "" == "a" + "\r\n";
  }

  /** The raw lines of `n` lines "a\r\n": the last one loses its carriage return at once. */
  lemma RawLinesOfCopies(n: nat)
    requires n > 0
    ensures RawLines(Unlines(Copies("a\r", n))) == Copies("a\r", n - 1) + ["a"]
  {
    var most := Copies("a\r", n - 1);
    UnlinesCopies(n);
    TrimTwo(Unlines(most) + "a");
    SplitOfUnlines(most, "a");
  }

  lemma OneCopyMore(n: nat)
    requires n > 0
    ensures Copies("a\r", n)[0] == "a\r" && Copies("a\r", n)[1..] == Copies("a\r", n - 1)
    ensures ["a"] + Copies("a", n - 1) == Copies("a", n)
  {
  }

  lemma AgainA()
    ensures Again(Everything(), "a\r") == ["a"]
  {
    AgainOneLine(Everything(), "a\r");
    TrimCROf("a", "\r");
    assert "a" + "\r" == "a\r";
  }

  lemma {:induction false} AgainCopies(n: nat)
    ensures Again(Everything(), Unlines(Copies("a\r", n))) == Copies("a", n)
    ensures |Unlines(Copies("a\r", n))| == 3 * n
  {
    if n == 0 {
      AgainNothing(Everything());
    } else {
      AgainCopies(n - 1);
      OneCopyMore(n);
      AgainAtNewline(Everything(), "a\r", Unlines(Copies("a\r", n - 1)));
      AgainA();
    }
  }

  lemma CopiesSplit(k: nat, n: nat)
    requires k <= n
    ensures Unlines(Copies("a\r", n)) == Unlines(Copies("a\r", k)) + Unlines(Copies("a\r", n - k))
    ensures |Unlines(Copies("a\r", k))| == 3 * k
  {
    assert Copies("a\r", n) == Copies("a\r", k) + Copies("a\r", n - k);
    UnlinesConcat(Copies("a\r", k), Copies("a\r", n - k));
    AgainCopies(k);
  }

  /** Reading on from between the carriage return and the newline of line `k`. */
  lemma AgainFromWithin(k: nat, n: nat)
    requires 0 < k <= n
    ensures 3 * k - 1 < |Unlines(Copies("a\r", n))|
    ensures Again(Everything(), Unlines(Copies("a\r", n))[3 * k - 1..]) == Copies("a", n - k)
  {
    CopiesSplit(k, n);
    var before, rest := Unlines(Copies("a\r", k)), Unlines(Copies("a\r", n - k));
    NewlineOrNothing(Copies("a\r", k));
    assert (before + rest)[3 * k - 1..] == "" + "\n" + rest;
    AgainAtNewline(Everything(), "", rest);
    AgainNothing(Everything());
    AgainCopies(n - k);
  }

  lemma AgainFromBehind(k: nat, n: nat)
    requires k <= n
    ensures 3 * k <= |Unlines(Copies("a\r", n))|
    ensures Again(Everything(), Unlines(Copies("a\r", n))[3 * k..]) == Copies("a", n - k)
  {
    CopiesSplit(k, n);
    var before, rest := Unlines(Copies("a\r", k)), Unlines(Copies("a\r", n - k));
    assert (before + rest)[3 * k..] == rest;
    AgainCopies(n - k);
  }

  /** The code comment says that re-read bytes produce no duplicate records. For a file of
      more than 1000 lines "a\r\n" they do: the tick that emits the first 1000 lines advances
      only 2000 of their 3000 bytes, and from there 333 of them are emitted again before the
      lines that were not read. */
  lemma CarriageReturnsRepeatLines(n: nat)
    requires n > 1000
    ensures var data := Unlines(Copies("a\r", n));
            var t := Collect(Everything(), data, MAX_RECORDS);
            && |t.records| == t.lines == 1000 && t.advance == 2000 && |data| >= 3000
            && Again(Everything(), data[2000..]) == Copies("a", 333) + Again(Everything(), data[3000..])
  {
    CappedAtThousand(n);
    AgainFromWithin(667, n);
    AgainFromBehind(1000, n);
    assert Copies("a", n - 667) == Copies("a", 333) + Copies("a", n - 1000);
  }

  lemma CappedAtThousand(n: nat)
    requires n > 1000
    ensures var t := Collect(Everything(), Unlines(Copies("a\r", n)), MAX_RECORDS);
            |t.records| == t.lines == 1000 && t.advance == 2000
  {
    var data := Unlines(Copies("a\r", n));
    RawLinesOfCopies(n);
    var ls := SplitLines(data);
    assert TrimCR("a\r") == "a" by { assert "a\r"[..1] == "a"; }
    forall i | 0 <= i < n ensures ls[i] == "a" {
      assert i < n - 1 ==> RawLines(data)[i] == "a\r";
    }
    forall j | 0 <= j <= 1000 ensures |Process(Everything(), ls[..j]).records| == j {
      CopiesProcess("a", j);
      assert ls[..j] == Copies("a", j);
    }
    CopiesMeasure("a", 1000);
    assert ls[..1000] == Copies("a", 1000);
    CopiesMeasure("a\r", n);
    MeasuredIsLength(Copies("a\r", n));
    CollectStopsAt(Everything(), data, 1000, 1000);
  }
}
