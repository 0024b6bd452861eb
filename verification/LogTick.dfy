/** The line loop of `collectFile` in internal/agent/log_collect.go in full: filter, rate
    limit, merging of several lines into one record, and the record cap. What it emits is
    specified by groups of lines; LogCollect is the case without limit and merging. */
module LogTick {
  import opened Basics
  import opened LogCollect
  import opened RateLimit

  /** The filters as one predicate, the pattern of a record's first line (none: every line
      is a record), and the lines admitted a second (none if not positive). */
  datatype Rules = Rules(keep: string -> bool, starts: Option<string -> bool>, rateLimit: int)

  // ------------------------------------------------------- filter and limit

  /** The limiter, the lines it and the filter let through, and how many it dropped. */
  datatype Gate = Gate(limiter: Limiter, passed: seq<string>, dropped: nat)

  function GateLine(r: Rules, g: Gate, l: string, now: Time): Gate {
    if !r.keep(l) then g
    else if r.rateLimit <= 0 then g.(passed := g.passed + [l])
    else
      var (s, ok) := Step(r.rateLimit, g.limiter, now);
      if ok then Gate(s, g.passed + [l], g.dropped) else Gate(s, g.passed, g.dropped + 1)
  }

  /** `clock(i)` is the time at which line `i` reaches the limiter. */
  function GateLines(r: Rules, s: Limiter, ls: seq<string>, clock: nat -> Time): Gate {
    if ls == [] then Gate(s, [], 0)
    else GateLine(r, GateLines(r, s, ls[..|ls|-1], clock), ls[|ls|-1], clock(|ls|-1))
  }

  /** Every kept line is either let through or counted as dropped. */
  lemma {:induction false} KeptOrDropped(r: Rules, s: Limiter, ls: seq<string>, clock: nat -> Time)
    ensures var g := GateLines(r, s, ls, clock); |g.passed| + g.dropped == KeptCount(r.keep, ls)
  {
    if ls != [] {
      KeptOrDropped(r, s, ls[..|ls|-1], clock);
    }
  }

  // ---------------------------------------------------------------- merging

  /** Finished groups of lines and the group being collected. */
  datatype Merge = Merge(done: seq<seq<string>>, open: seq<string>)

  predicate Blank(g: seq<string>) {
    forall l | l in g :: l == ""
  }

  lemma BlankOneMore(g: seq<string>, l: string)
    ensures Blank(g + [l]) <==> Blank(g) && l == ""
  {
    assert l in g + [l] && forall x | x in g :: x in g + [l];
  }

  lemma BlankConcat(a: seq<string>, b: seq<string>)
    ensures Blank(a + b) <==> Blank(a) && Blank(b)
  {
    assert (forall x | x in a :: x in a + b) && (forall x | x in b :: x in a + b);
  }

  lemma BlankFirst(g: seq<string>)
    requires g != []
    ensures Blank(g) <==> g[0] == "" && Blank(g[1..])
  {
    assert g == [g[0]] + g[1..] && g[0] in g;
    BlankConcat([g[0]], g[1..]);
  }

  /** A group without any text is never closed: what follows joins it. */
  function Close(m: Merge): Merge {
    if Blank(m.open) then m else Merge(m.done + [m.open], [])
  }

  function Add(starts: Option<string -> bool>, m: Merge, l: string): Merge {
    var before := if starts.Some? && starts.value(l) then Close(m) else m;
    var after := before.(open := before.open + [l]);
    if starts.None? then Close(after) else after
  }

  function AddAll(starts: Option<string -> bool>, m: Merge, ls: seq<string>): Merge {
    if ls == [] then m else Add(starts, AddAll(starts, m, ls[..|ls|-1]), ls[|ls|-1])
  }

  function Merged(starts: Option<string -> bool>, ls: seq<string>): Merge {
    AddAll(starts, Merge([], []), ls)
  }

  /** The groups that become records once the tick is over. */
  function Groups(starts: Option<string -> bool>, ls: seq<string>): seq<seq<string>> {
    Close(Merged(starts, ls)).done
  }

  function Flat(gs: seq<seq<string>>): seq<string> {
    if gs == [] then [] else Flat(gs[..|gs|-1]) + gs[|gs|-1]
  }

  // ---------------------------------------------------------------- records

  /** The text of a group: its lines joined by newlines, from the first with text on. */
  function Text(g: seq<string>): string {
    if g == [] then ""
    else
      var t := Text(g[..|g|-1]);
      if t == "" then g[|g|-1] else t + "\n" + g[|g|-1]
  }

  function FirstText(g: seq<string>): string {
    if g == [] then ""
    else if FirstText(g[..|g|-1]) == "" then g[|g|-1] else FirstText(g[..|g|-1])
  }

  function Shown(g: seq<string>): Record {
    Record(Text(g), |g|, Measured(g), FirstText(g))
  }

  function Rendered(gs: seq<seq<string>>): seq<Record> {
    seq(|gs|, i requires 0 <= i < |gs| => Shown(gs[i]))
  }

  lemma {:induction false} NoTextIffBlank(g: seq<string>)
    ensures Text(g) == "" <==> Blank(g)
    ensures FirstText(g) == "" <==> Blank(g)
  {
    if g != [] {
      var init, last := g[..|g|-1], g[|g|-1];
      NoTextIffBlank(init);
      assert g == init + [last];
      BlankOneMore(init, last);
      assert |Text(init) + "\n" + last| > 0;
    }
  }

  /** The lines of a group without the blank ones it begins with. */
  function Unpadded(g: seq<string>): (r: seq<string>)
    ensures r == [] <==> Blank(g)
  {
    if g == [] then []
    else
      BlankFirst(g);
      if g[0] == "" then Unpadded(g[1..]) else g
  }

  lemma {:induction false} UnpaddedOneMore(g: seq<string>, l: string)
    ensures Unpadded(g + [l]) == if Blank(g) then (if l == "" then [] else [l]) else Unpadded(g) + [l]
  {
    if g == [] {
      assert g + [l] == [l] && [l][1..] == [];
    } else {
      UnpaddedOneMore(g[1..], l);
      BlankFirst(g);
      assert (g + [l])[1..] == g[1..] + [l];
      assert g == [g[0]] + g[1..];
    }
  }

  /** A record can be taken apart again: splitting its content gives the group's lines back,
      except for blank ones at the beginning. */
  lemma {:induction false} RecordShowsLines(g: seq<string>)
    requires !Blank(g) && forall l | l in g :: '\n' !in l
    ensures Split(Text(g)) == Unpadded(g)
    ensures FirstText(g) == Unpadded(g)[0]
  {
    var init, last := g[..|g|-1], g[|g|-1];
    assert g == init + [last];
    NoTextIffBlank(init);
    UnpaddedOneMore(init, last);
    if Blank(init) {
      SplitWithoutNewline(last);
    } else {
      RecordShowsLines(init);
      SplitAppend(Text(init), last);
    }
  }

  lemma SplitAppend(s: string, l: string)
    requires '\n' !in l
    ensures Split(s + "\n" + l) == Split(s) + [l]
  {
    SplitUnlines(s);
    SplitHasNoNewline(s);
    SplitOfUnlines(Split(s), l);
  }

  // ---------------------------------------------------------- the line loop

  method FlushBuf(records: seq<Record>, buf: Record, ghost m: Merge) returns (records': seq<Record>, buf': Record)
    requires records == Rendered(m.done) && buf == Shown(m.open)
    ensures records' == Rendered(Close(m).done) && buf' == Shown(Close(m).open)
  {
    NoTextIffBlank(m.open);
    records', buf' := records, buf;
    if |buf.content| == 0 {
      return;
    }
    records' := records + [buf];
    buf' := Record("", 0, 0, "");
  }

  /** What one more line does to the buffer. */
  function Appended(buf: Record, line: string): Record {
    Record(if |buf.content| > 0 then buf.content + "\n" + line else line, buf.lineCount + 1,
           buf.bytes + |line| + 1, if buf.startLine == "" then line else buf.startLine)
  }

  lemma ShownOneMore(g: seq<string>, l: string)
    ensures Shown(g + [l]) == Appended(Shown(g), l)
  {
    assert (g + [l])[..|g|] == g;
  }

  method AddLine(starts: Option<string -> bool>, records: seq<Record>, buf: Record, line: string, ghost m: Merge)
    returns (records': seq<Record>, buf': Record)
    requires records == Rendered(m.done) && buf == Shown(m.open)
    ensures var m' := Add(starts, m, line); records' == Rendered(m'.done) && buf' == Shown(m'.open)
  {
    records', buf' := records, buf;
    ghost var now := m;
    NoTextIffBlank(m.open);
    if starts.Some? && starts.value(line) && |buf'.content| > 0 {
      records', buf' := FlushBuf(records', buf', now);
      now := Close(now);
    }
    ShownOneMore(now.open, line);
    var content := buf'.content;
    if |content| > 0 {
      content := content + "\n";
    }
    var startLine := if buf'.startLine == "" then line else buf'.startLine;
    buf' := Record(content + line, buf'.lineCount + 1, buf'.bytes + |line| + 1, startLine);
    now := now.(open := now.open + [line]);
    if starts.None? {
      records', buf' := FlushBuf(records', buf', now);
    }
  }

  /** What has been let through and merged when the first `n` lines are handled. */
  function GateAt(r: Rules, s: Limiter, ls: seq<string>, clock: nat -> Time, n: nat): Gate
    requires n <= |ls|
  {
    GateLines(r, s, ls[..n], clock)
  }

  function DoneAt(r: Rules, s: Limiter, ls: seq<string>, clock: nat -> Time, n: nat): nat
    requires n <= |ls|
  {
    |Merged(r.starts, GateAt(r, s, ls, clock, n).passed).done|
  }

  /** The loop stops with the line that fills the cap, or after the last one. */
  ghost predicate StopsAt(r: Rules, s: Limiter, ls: seq<string>, clock: nat -> Time, max: nat, n: nat) {
    && n <= |ls|
    && (forall j | 0 <= j < n :: DoneAt(r, s, ls, clock, j) < max)
    && (n < |ls| ==> DoneAt(r, s, ls, clock, n) >= max)
  }

  lemma OneMoreLine(r: Rules, s: Limiter, ls: seq<string>, clock: nat -> Time, n: nat)
    requires n < |ls|
    ensures GateAt(r, s, ls, clock, n + 1) == GateLine(r, GateAt(r, s, ls, clock, n), ls[n], clock(n))
    ensures Measured(ls[..n+1]) == Measured(ls[..n]) + |ls[n]| + 1
  {
    assert ls[..n+1][..n] == ls[..n];
  }

  lemma AddedLast(starts: Option<string -> bool>, ls: seq<string>, l: string)
    ensures Merged(starts, ls + [l]) == Add(starts, Merged(starts, ls), l)
  {
    assert (ls + [l])[..|ls|] == ls;
  }

  /** How much of the data the tick consumes when the loop stops after `n` lines. */
  function Consumed(data: string, n: nat, hitLimit: bool): nat
    requires n <= |SplitLines(data)|
  {
    var processed := Measured(SplitLines(data)[..n]);
    if hitLimit && processed < |data| then processed else |data|
  }

  /** What one tick makes of the data read: the loop stops where it must; the records are
      the groups of the lines let through; `s` and `s'` are the limiter before and after. */
  ghost predicate IsTick(r: Rules, s: Limiter, data: string, clock: nat -> Time, max: nat,
                         records: seq<Record>, lines: nat, bytes: nat, dropped: nat, s': Limiter) {
    var ls := SplitLines(data);
    && StopsAt(r, s, ls, clock, max, lines)
    && bytes == Consumed(data, lines, DoneAt(r, s, ls, clock, lines) >= max)
    && var g := GateAt(r, s, ls, clock, lines);
    && records == Rendered(Groups(r.starts, g.passed)) && dropped == g.dropped && s' == g.limiter
  }

  class LogCollector {
    var offsets: map<string, nat>
    const limiter: LineLimiter

    function Rate(): Limiter
      reads limiter
    {
      Limiter(limiter.rateWindow, limiter.rateCount)
    }

    constructor ()
      ensures offsets == map[] && fresh(limiter) && Rate() == Idle
    {
      offsets := map[];
      limiter := new LineLimiter();
    }

    /** One tick on one file, whose content now is `content`. */
    method CollectFile(file: string, content: string, r: Rules, clock: nat -> Time)
      returns (records: seq<Record>, lines: nat, bytes: nat, dropped: nat)
      modifies this, limiter
      ensures var start := StartOffset(old(offsets), file, content);
              var data := ReadAt(content, start, READ_LIMIT);
              if data == "" then
                && records == [] && lines == bytes == dropped == 0
                && offsets == old(offsets) && Rate() == old(Rate())
              else
                && IsTick(r, old(Rate()), data, clock, MAX_RECORDS, records, lines, bytes, dropped, Rate())
                && offsets == old(offsets)[file := start + bytes]
    {
      var offset := if file in offsets then offsets[file] else 0;
      if |content| < offset {
        offset := 0;
      }
      assert offset == StartOffset(offsets, file, content);
      records, lines, bytes, dropped := [], 0, 0, 0;
      if |content| == offset {
        return;
      }
      var data := ReadAt(content, offset, READ_LIMIT);
      records, lines, bytes, dropped := HandleData(data, r, clock, MAX_RECORDS);
      offsets := offsets[file := offset + bytes];
    }

    method HandleData(data: string, r: Rules, clock: nat -> Time, max: nat)
      returns (records: seq<Record>, lines: nat, bytes: nat, dropped: nat)
      requires max > 0
      modifies limiter
      ensures IsTick(r, old(Rate()), data, clock, max, records, lines, bytes, dropped, Rate())
    {
      var processedChars, hitLimit;
      records, lines, processedChars, dropped, hitLimit := HandleLines(SplitLines(data), r, clock, max);
      bytes := |data|;
      if hitLimit && processedChars < bytes {
        bytes := processedChars;
      }
    }

    method HandleLines(ls: seq<string>, r: Rules, clock: nat -> Time, max: nat)
      returns (records: seq<Record>, lines: nat, processedChars: nat, dropped: nat, hitLimit: bool)
      requires max > 0
      modifies limiter
      ensures StopsAt(r, old(Rate()), ls, clock, max, lines)
      ensures hitLimit <==> DoneAt(r, old(Rate()), ls, clock, lines) >= max
      ensures processedChars == Measured(ls[..lines])
      ensures var g := GateAt(r, old(Rate()), ls, clock, lines);
              records == Rendered(Groups(r.starts, g.passed)) && dropped == g.dropped && Rate() == g.limiter
    {
      ghost var s := Rate();
      ghost var g := Gate(s, [], 0);
      var buf := Record("", 0, 0, "");
      records, lines, processedChars, dropped, hitLimit := [], 0, 0, 0, false;
      while lines < |ls| && !hitLimit
        invariant lines <= |ls|
        invariant g == GateAt(r, s, ls, clock, lines)
        invariant Rate() == g.limiter && dropped == g.dropped
        invariant records == Rendered(Merged(r.starts, g.passed).done) && buf == Shown(Merged(r.starts, g.passed).open)
        invariant processedChars == Measured(ls[..lines])
        invariant forall j | 0 <= j < lines :: DoneAt(r, s, ls, clock, j) < max
        invariant hitLimit <==> DoneAt(r, s, ls, clock, lines) >= max
      {
        OneMoreLine(r, s, ls, clock, lines);
        var line := ls[lines];
        ghost var passed := g.passed;
        g := GateLine(r, g, line, clock(lines));
        lines := lines + 1;
        processedChars := processedChars + |line| + 1;
        if !r.keep(line) {
          continue;
        }
        if r.rateLimit > 0 {
          var ok := limiter.AllowRate(r.rateLimit, clock(lines - 1));
          if !ok {
            dropped := dropped + 1;
            continue;
          }
        }
        AddedLast(r.starts, passed, line);
        records, buf := AddLine(r.starts, records, buf, line, Merged(r.starts, passed));
        hitLimit := |records| >= max;
      }
      records, buf := FlushBuf(records, buf, Merged(r.starts, g.passed));
    }
  }

  // ------------------------------------------------- what the groups are

  /** Nothing after the first line with text begins a record; without a pattern there is
      nothing after it at all. */
  ghost predicate OneRecord(starts: Option<string -> bool>, g: seq<string>) {
    forall i | 0 < i < |g| && (starts.Some? ==> starts.value(g[i])) :: Blank(g[..i])
  }

  /** A group begins the log or begins with a line that begins a record. */
  ghost predicate Begins(starts: Option<string -> bool>, g: seq<string>) {
    g != [] && (starts.Some? ==> starts.value(g[0]))
  }

  /** The lines cut into groups, all of them and in order, each one record. */
  ghost predicate IsGrouping(starts: Option<string -> bool>, m: Merge, ls: seq<string>) {
    && Flat(m.done) + m.open == ls
    && (forall g | g in m.done :: !Blank(g) && OneRecord(starts, g))
    && OneRecord(starts, m.open)
    && (forall k | 0 < k < |m.done| :: Begins(starts, m.done[k]))
    && (m.done != [] && m.open != [] ==> Begins(starts, m.open))
    && (starts.None? ==> Blank(m.open))
  }

  lemma {:induction false} MergedIsGrouping(starts: Option<string -> bool>, ls: seq<string>)
    ensures IsGrouping(starts, Merged(starts, ls), ls)
  {
    if ls != [] {
      var init, last := ls[..|ls|-1], ls[|ls|-1];
      assert ls == init + [last];
      MergedIsGrouping(starts, init);
      var m := Merged(starts, init);
      if starts.Some? && starts.value(last) {
        CloseKeepsGrouping(starts, m, init);
        AppendKeepsGrouping(starts, Close(m), init, last);
      } else {
        AppendKeepsGrouping(starts, m, init, last);
      }
    }
  }

  /** Grouping, but for the rule that nothing stays open with text in it. */
  ghost predicate NearlyGrouping(starts: Option<string -> bool>, m: Merge, ls: seq<string>) {
    && Flat(m.done) + m.open == ls
    && (forall g | g in m.done :: !Blank(g) && OneRecord(starts, g))
    && OneRecord(starts, m.open)
    && (forall k | 0 < k < |m.done| :: Begins(starts, m.done[k]))
    && (m.done != [] && m.open != [] ==> Begins(starts, m.open))
  }

  lemma FlatOneMore(done: seq<seq<string>>, open: seq<string>)
    ensures Flat(done + [open]) + [] == Flat(done) + open
  {
    assert (done + [open])[..|done|] == done;
  }

  lemma BeginsOneMore(starts: Option<string -> bool>, done: seq<seq<string>>, open: seq<string>)
    requires forall k | 0 < k < |done| :: Begins(starts, done[k])
    requires done != [] ==> Begins(starts, open)
    ensures forall k | 0 < k < |done + [open]| :: Begins(starts, (done + [open])[k])
  {
  }

  lemma CloseKeepsGrouping(starts: Option<string -> bool>, m: Merge, ls: seq<string>)
    requires NearlyGrouping(starts, m, ls)
    ensures NearlyGrouping(starts, Close(m), ls) && Blank(Close(m).open)
    ensures IsGrouping(starts, Close(m), ls)
  {
    if !Blank(m.open) {
      FlatOneMore(m.done, m.open);
      BeginsOneMore(starts, m.done, m.open);
    }
  }

  lemma AppendKeepsGrouping(starts: Option<string -> bool>, m: Merge, ls: seq<string>, l: string)
    requires IsGrouping(starts, m, ls)
    requires starts.Some? ==> if starts.value(l) then Blank(m.open) else m.done == [] || m.open != []
    ensures IsGrouping(starts, Add(starts, m, l), ls + [l])
  {
    assert starts.Some? && starts.value(l) ==> Close(m) == m;
    var after := m.(open := m.open + [l]);
    assert Flat(m.done) + (m.open + [l]) == ls + [l];
    forall i | 0 < i < |after.open| && (starts.Some? ==> starts.value(after.open[i]))
      ensures Blank(after.open[..i])
    {
      if i < |m.open| {
        assert after.open[..i] == m.open[..i];
      } else {
        assert after.open[..i] == m.open;
      }
    }
    if starts.None? {
      CloseKeepsGrouping(starts, after, ls + [l]);
    }
  }

  // ---------------------------------------------------------- cuts between ticks

  lemma {:induction false} AddAllConcat(starts: Option<string -> bool>, m: Merge, a: seq<string>, b: seq<string>)
    ensures AddAll(starts, m, a + b) == AddAll(starts, AddAll(starts, m, a), b)
  {
    if b == [] {
      assert a + b == a;
    } else {
      AddAllConcat(starts, m, a, b[..|b|-1]);
      assert (a + b)[..|a + b|-1] == a + b[..|b|-1];
    }
  }

  /** Groups already finished have no influence on what follows. */
  lemma {:induction false} AddAllAfter(starts: Option<string -> bool>, done: seq<seq<string>>, open: seq<string>, b: seq<string>)
    ensures var m, all := AddAll(starts, Merge([], open), b), AddAll(starts, Merge(done, open), b);
            all == Merge(done + m.done, m.open) && Close(all).done == done + Close(m).done
  {
    if b != [] {
      AddAllAfter(starts, done, open, b[..|b|-1]);
    }
  }

  /** The records that come of the lines `b` when the group `open` is being collected. */
  function Rest(starts: Option<string -> bool>, open: seq<string>, b: seq<string>): seq<seq<string>> {
    Close(AddAll(starts, Merge([], open), b)).done
  }

  lemma GroupsAcross(starts: Option<string -> bool>, a: seq<string>, b: seq<string>)
    ensures var m := Merged(starts, a);
            Groups(starts, a + b) == m.done + Rest(starts, m.open, b)
  {
    var m := Merged(starts, a);
    AddAllConcat(starts, Merge([], []), a, b);
    AddAllAfter(starts, m.done, m.open, b);
  }

  /** An open group with text grows into the next record, unless a new one begins. */
  lemma {:induction false} FirstGroupGrows(starts: Option<string -> bool>, open: seq<string>, b: seq<string>)
    requires !Blank(open)
    ensures var m := AddAll(starts, Merge([], open), b);
            && (m.done == [] ==> open <= m.open && !Blank(m.open))
            && (m.done != [] ==> open <= m.done[0])
            && Rest(starts, open, b) != [] && open <= Rest(starts, open, b)[0]
  {
    if b != [] {
      FirstGroupGrows(starts, open, b[..|b|-1]);
      var m := AddAll(starts, Merge([], open), b[..|b|-1]);
      BlankOneMore(m.open, b[|b|-1]);
    }
  }

  function Padded(pad: seq<string>, m: Merge): Merge {
    if m.done == [] then Merge([], pad + m.open) else Merge([pad + m.done[0]] + m.done[1..], m.open)
  }

  /** Blank lines left open only lengthen the record that follows. */
  lemma {:induction false} BlankOpenPads(starts: Option<string -> bool>, pad: seq<string>, b: seq<string>)
    requires Blank(pad)
    ensures AddAll(starts, Merge([], pad), b) == Padded(pad, AddAll(starts, Merge([], []), b))
    ensures Rest(starts, pad, b) == Padded(pad, Close(AddAll(starts, Merge([], []), b))).done
  {
    if b == [] {
      assert pad + [] == pad;
      ClosePadded(pad, Merge([], []));
    } else {
      var init, last := b[..|b|-1], b[|b|-1];
      BlankOpenPads(starts, pad, init);
      var m := AddAll(starts, Merge([], []), init);
      ClosePadded(pad, m);
      var before := if starts.Some? && starts.value(last) then Close(m) else m;
      var after := before.(open := before.open + [last]);
      assert pad + (before.open + [last]) == pad + before.open + [last];
      ClosePadded(pad, after);
      ClosePadded(pad, AddAll(starts, Merge([], []), b));
    }
  }

  lemma ClosePadded(pad: seq<string>, m: Merge)
    requires Blank(pad)
    ensures Close(Padded(pad, m)) == Padded(pad, Close(m))
  {
    BlankConcat(pad, m.open);
  }

  lemma {:induction false} FlatBlank(gs: seq<seq<string>>)
    requires Blank(Flat(gs)) && forall g | g in gs :: !Blank(g)
    ensures gs == []
  {
    if gs != [] {
      assert gs[|gs|-1] in gs;
      BlankConcat(Flat(gs[..|gs|-1]), gs[|gs|-1]);
    }
  }

  lemma NoRecordIffBlank(starts: Option<string -> bool>, b: seq<string>)
    ensures Groups(starts, b) == [] <==> Blank(b)
  {
    MergedIsGrouping(starts, b);
    var m := Merged(starts, b);
    CloseKeepsGrouping(starts, m, b);
    BlankConcat(Flat(Close(m).done), Close(m).open);
    if Blank(b) { FlatBlank(Close(m).done); }
  }

  /** Nothing is open, nothing follows, or what follows begins a record where one with text
      is open, or adds only blank lines where none is. */
  ghost predicate CleanBreak(starts: Option<string -> bool>, open: seq<string>, b: seq<string>) {
    open == [] || b == [] || if Blank(open) then Blank(b) else starts.Some? && starts.value(b[0])
  }

  /** Every tick starts with an empty buffer. Merging the lines of two ticks separately gives
      the records of all the lines exactly when the break between them is clean. */
  lemma CutMergesIff(starts: Option<string -> bool>, a: seq<string>, b: seq<string>)
    ensures Groups(starts, a + b) == Groups(starts, a) + Groups(starts, b)
            <==> CleanBreak(starts, Merged(starts, a).open, b)
  {
    var m := Merged(starts, a);
    GroupsAcross(starts, a, b);
    if Blank(m.open) {
      BlankOpenPads(starts, m.open, b);
      NoRecordIffBlank(starts, b);
      if m.open != [] && !Blank(b) {
        assert Rest(starts, m.open, b)[0] != Groups(starts, b)[0];
        assert (m.done + Rest(starts, m.open, b))[|m.done|..] == Rest(starts, m.open, b);
        assert (m.done + Groups(starts, b))[|m.done|..] == Groups(starts, b);
      }
    } else {
      MergedIsGrouping(starts, a);
      if b == [] {
        assert a + b == a;
      } else if starts.value(b[0]) {
        NewRecordAfter(starts, m.open, b);
        assert m.done + ([m.open] + Groups(starts, b)) == m.done + [m.open] + Groups(starts, b);
      } else {
        LongerRecord(starts, m.open, b);
        assert (m.done + Rest(starts, m.open, b))[|m.done|] == Rest(starts, m.open, b)[0];
        assert (m.done + [m.open] + Groups(starts, b))[|m.done|] == m.open;
      }
    }
  }

  lemma FirstAdded(starts: Option<string -> bool>, m: Merge, b: seq<string>)
    requires b != []
    ensures AddAll(starts, m, b) == AddAll(starts, Add(starts, m, b[0]), b[1..])
  {
    AddAllConcat(starts, m, b[..1], b[1..]);
    assert b == b[..1] + b[1..] && b[..1] == [b[0]] && [b[0]][..0] == [];
    assert AddAll(starts, m, [b[0]]) == Add(starts, AddAll(starts, m, []), b[0]);
  }

  lemma NewRecordAfter(starts: Option<string -> bool>, open: seq<string>, b: seq<string>)
    requires !Blank(open) && b != [] && starts.Some? && starts.value(b[0])
    ensures Rest(starts, open, b) == [open] + Groups(starts, b)
  {
    FirstAdded(starts, Merge([], open), b);
    FirstAdded(starts, Merge([], []), b);
    assert Add(starts, Merge([], open), b[0]) == Merge([open], [b[0]]) by {
      assert [] + [open] == [open] && [] + [b[0]] == [b[0]];
    }
    assert Add(starts, Merge([], []), b[0]) == Merge([], [b[0]]) by {
      assert [] + [b[0]] == [b[0]];
    }
    AddAllAfter(starts, [open], [b[0]], b[1..]);
  }

  lemma LongerRecord(starts: Option<string -> bool>, open: seq<string>, b: seq<string>)
    requires !Blank(open) && b != [] && starts.Some? && !starts.value(b[0])
    ensures Rest(starts, open, b) != [] && |Rest(starts, open, b)[0]| > |open|
  {
    FirstAdded(starts, Merge([], open), b);
    BlankOneMore(open, b[0]);
    FirstGroupGrows(starts, open + [b[0]], b[1..]);
  }

  // ------------------------------------------------------------ the record cap

  lemma NothingLeftOpen(ls: seq<string>)
    ensures Blank(Merged(None, ls).open)
  {
    MergedIsGrouping(None, ls);
  }

  /** One more line finishes at most one group; with a pattern it is then alone in the next. */
  lemma OneGroupMore(r: Rules, g: Gate, l: string, now: Time)
    ensures var passed := GateLine(r, g, l, now).passed;
            var before, after := Merged(r.starts, g.passed), Merged(r.starts, passed);
            && |after.done| <= |before.done| + 1
            && (r.starts.Some? && |after.done| > |before.done| ==>
                  passed != [] && after.open == [passed[|passed|-1]])
  {
    AddedLast(r.starts, g.passed, l);
  }

  /** A tick emits at most one record over the cap, and none over it without merging. When
      the cap stops it with a pattern, the record left open holds a single line. */
  lemma CapIsKept(r: Rules, s: Limiter, ls: seq<string>, clock: nat -> Time, max: nat, n: nat)
    requires max > 0 && StopsAt(r, s, ls, clock, max, n)
    ensures var passed := GateAt(r, s, ls, clock, n).passed;
            && |Groups(r.starts, passed)| <= (if r.starts.None? then max else max + 1)
            && (r.starts.Some? && DoneAt(r, s, ls, clock, n) >= max ==>
                  passed != [] && Merged(r.starts, passed).open == [passed[|passed|-1]])
  {
    var passed := GateAt(r, s, ls, clock, n).passed;
    if r.starts.None? { NothingLeftOpen(passed); }
    if n == 0 {
      assert ls[..0] == [];
    } else {
      OneMoreLine(r, s, ls, clock, n - 1);
      OneGroupMore(r, GateAt(r, s, ls, clock, n - 1), ls[n-1], clock(n-1));
      assert DoneAt(r, s, ls, clock, n - 1) < max;
    }
  }

  /** So a tick stopped by the cap cuts a record in two exactly when the lines of the next
      ticks go on with it. */
  lemma CapCutsIff(r: Rules, s: Limiter, ls: seq<string>, clock: nat -> Time, max: nat, n: nat, next: seq<string>)
    requires max > 0 && StopsAt(r, s, ls, clock, max, n) && DoneAt(r, s, ls, clock, n) >= max
    requires next != [] && r.starts.Some?
    ensures var passed := GateAt(r, s, ls, clock, n).passed;
            && passed != []
            && (Groups(r.starts, passed + next) == Groups(r.starts, passed) + Groups(r.starts, next) <==>
                  if passed[|passed|-1] == "" then Blank(next) else r.starts.value(next[0]))
  {
    var passed := GateAt(r, s, ls, clock, n).passed;
    CapIsKept(r, s, ls, clock, max, n);
    CutMergesIff(r.starts, passed, next);
    var last := passed[|passed|-1];
    assert last in [last];
  }

  // ------------------------------------------------ no limit and no merging

  predicate Plain(r: Rules) {
    r.starts.None? && r.rateLimit <= 0
  }

  lemma {:induction false} PlainGroups(r: Rules, s: Limiter, ls: seq<string>, clock: nat -> Time)
    requires Plain(r)
    ensures var g := GateLines(r, s, ls, clock);
            var m, acc := Merged(None, g.passed), Process(r.keep, ls);
            && g.dropped == 0 && g.limiter == s
            && Rendered(m.done) == acc.records && Blank(m.open)
            && |m.open| == acc.lines && Measured(m.open) == acc.bytes
  {
    if ls != [] {
      var init, last := ls[..|ls|-1], ls[|ls|-1];
      PlainGroups(r, s, init, clock);
      var g := GateLines(r, s, init, clock);
      if r.keep(last) { PlainLine(r.keep, g.passed, init, last); }
    }
  }

  /** One kept line, in both descriptions. */
  lemma PlainLine(keep: string -> bool, passed: seq<string>, init: seq<string>, l: string)
    requires keep(l)
    requires var m, acc := Merged(None, passed), Process(keep, init);
             Rendered(m.done) == acc.records && Blank(m.open) && |m.open| == acc.lines && Measured(m.open) == acc.bytes
    ensures var m, acc := Merged(None, passed + [l]), OneLine(keep, Process(keep, init), l);
            Rendered(m.done) == acc.records && Blank(m.open) && |m.open| == acc.lines && Measured(m.open) == acc.bytes
  {
    var m := Merged(None, passed);
    AddedLast(None, passed, l);
    ShownPadded(m.open, l);
    assert (m.open + [l])[..|m.open|] == m.open;
  }

  lemma ShownPadded(open: seq<string>, l: string)
    requires Blank(open)
    ensures Blank(open + [l]) <==> l == ""
    ensures Shown(open + [l]) == Record(l, |open| + 1, Measured(open) + |l| + 1, l)
  {
    BlankOneMore(open, l);
    NoTextIffBlank(open);
    assert (open + [l])[..|open|] == open;
  }

  function SumBytes(rs: seq<Record>): nat {
    if rs == [] then 0 else SumBytes(rs[..|rs|-1]) + rs[|rs|-1].bytes
  }

  lemma {:induction false} GroupCounts(gs: seq<seq<string>>)
    ensures SumLines(Rendered(gs)) == |Flat(gs)| && SumBytes(Rendered(gs)) == |Unlines(Flat(gs))|
  {
    if gs != [] {
      var init, last := gs[..|gs|-1], gs[|gs|-1];
      GroupCounts(init);
      assert Rendered(gs)[..|gs|-1] == Rendered(init);
      MeasuredIsLength(last);
      UnlinesConcat(Flat(init), last);
    }
  }

  /** Whatever the pattern, the line and byte counts of a tick's records add up to the lines let
      through, each with its newline, but for blank lines no text has followed. */
  lemma RecordsAddUp(starts: Option<string -> bool>, ls: seq<string>) returns (rest: seq<string>)
    ensures |rest| <= |ls| && rest == ls[|ls|-|rest|..] && Blank(rest)
    ensures SumLines(Rendered(Groups(starts, ls))) + |rest| == |ls|
    ensures SumBytes(Rendered(Groups(starts, ls))) + |Unlines(rest)| == |Unlines(ls)|
  {
    var m := Merged(starts, ls);
    MergedIsGrouping(starts, ls);
    CloseKeepsGrouping(starts, m, ls);
    rest := Close(m).open;
    GroupCounts(Groups(starts, ls));
    UnlinesConcat(Flat(Groups(starts, ls)), rest);
  }

  /** Without limit and pattern the tick is the one whose exactness over all polls
      LogCollect proves, whatever the clock and the limiter. */
  lemma PlainTickCollects(r: Rules, s: Limiter, data: string, clock: nat -> Time, max: nat,
                          records: seq<Record>, lines: nat, bytes: nat, dropped: nat, s': Limiter)
    requires Plain(r) && max > 0 && IsTick(r, s, data, clock, max, records, lines, bytes, dropped, s')
    ensures Collect(r.keep, data, max) == Tick(records, lines, bytes) && dropped == 0 && s' == s
  {
    var ls := SplitLines(data);
    forall j | 0 <= j <= lines
      ensures DoneAt(r, s, ls, clock, j) == |Process(r.keep, ls[..j]).records|
    {
      PlainGroups(r, s, ls[..j], clock);
      assert |Rendered(Merged(None, GateAt(r, s, ls, clock, j).passed).done)| == DoneAt(r, s, ls, clock, j);
    }
    PlainGroups(r, s, ls[..lines], clock);
    CollectStopsAt(r.keep, data, max, lines);
  }

  /** And a tick without limit and pattern is a poll of the file from where the last one left
      off, or from its beginning if it has become shorter: what CollectFile promises is what
      LogCollect follows over any number of polls. */
  lemma PlainTickPolls(r: Rules, s: Limiter, offsets: map<string, nat>, file: string, content: string, clock: nat -> Time,
                       p: Progress, records: seq<Record>, lines: nat, bytes: nat, dropped: nat, s': Limiter)
    requires Plain(r) && p.offset == if file in offsets then offsets[file] else 0
    requires var data := ReadAt(content, StartOffset(offsets, file, content), READ_LIMIT);
             data != "" ==> IsTick(r, s, data, clock, MAX_RECORDS, records, lines, bytes, dropped, s')
    ensures var start := StartOffset(offsets, file, content);
            && start == (if p.offset <= |content| then p.offset else 0)
            && Poll(r.keep, p, content, READ_LIMIT, MAX_RECORDS) ==
                 if ReadAt(content, start, READ_LIMIT) == "" then p
                 else Progress(p.emitted + Contents(records), start + bytes)
  {
    var data := ReadAt(content, StartOffset(offsets, file, content), READ_LIMIT);
    if data != "" {
      PlainTickCollects(r, s, data, clock, MAX_RECORDS, records, lines, bytes, dropped, s');
    }
  }

  // -------------------------------------------------- what the limit drops

  /** The lines the filter keeps, and when they reach the limiter. */
  function FilteredLines(r: Rules, ls: seq<string>): seq<string> {
    if ls == [] then []
    else FilteredLines(r, ls[..|ls|-1]) + (if r.keep(ls[|ls|-1]) then [ls[|ls|-1]] else [])
  }

  function FilteredTimes(r: Rules, ls: seq<string>, clock: nat -> Time): seq<Time> {
    if ls == [] then []
    else FilteredTimes(r, ls[..|ls|-1], clock) + (if r.keep(ls[|ls|-1]) then [clock(|ls|-1)] else [])
  }

  /** The lines whose requests the limiter admits. */
  function LetThrough(limit: int, lines: seq<string>, times: seq<Time>, states: seq<Limiter>): seq<string>
    requires |lines| == |times| < |states|
  {
    if lines == [] then []
    else
      var n := |lines| - 1;
      LetThrough(limit, lines[..n], times[..n], states[..n+1])
      + (if Step(limit, states[n], times[n]).1 then [lines[n]] else [])
  }

  ghost predicate ClockRuns(clock: nat -> Time, n: nat) {
    forall i: nat, j: nat | i <= j < n :: clock(i) <= clock(j)
  }

  lemma {:induction false} FilteredInOrder(r: Rules, ls: seq<string>, clock: nat -> Time)
    requires ClockRuns(clock, |ls|)
    ensures var times := FilteredTimes(r, ls, clock);
            && |times| == |FilteredLines(r, ls)|
            && (forall i | 0 <= i < |times| :: ls != [] && times[i] <= clock(|ls|-1))
            && (forall i, j | 0 <= i <= j < |times| :: times[i] <= times[j])
  {
    if ls != [] {
      var init, n := ls[..|ls|-1], |ls| - 1;
      FilteredInOrder(r, init, clock);
      var before := FilteredTimes(r, init, clock);
      assert n > 0 ==> clock(n - 1) <= clock(n);
      assert forall i | 0 <= i < |before| :: before[i] <= clock(n);
    }
  }

  /** With a limit, the lines let through are those whose requests a limiter that starts idle
      admits, one request for each line the filter keeps: what is proved of the limiter's runs
      says which lines are dropped. */
  lemma {:induction false} LimitedLines(r: Rules, ls: seq<string>, clock: nat -> Time) returns (states: seq<Limiter>)
    requires r.rateLimit > 0 && ClockRuns(clock, |ls|)
    ensures var lines, times, g := FilteredLines(r, ls), FilteredTimes(r, ls, clock), GateLines(r, Idle, ls, clock);
            && |lines| == |times| == |states| - 1 && IsRun(r.rateLimit, times, states)
            && g.limiter == states[|times|] && g.passed == LetThrough(r.rateLimit, lines, times, states)
  {
    if ls == [] {
      states := [Idle];
    } else {
      var init, last := ls[..|ls|-1], ls[|ls|-1];
      assert ls == init + [last];
      states := LimitedLines(r, init, clock);
      if r.keep(last) {
        states := OneRequestMore(r, init, last, clock, states);
      } else {
        assert FilteredLines(r, ls) == FilteredLines(r, init);
        assert FilteredTimes(r, ls, clock) == FilteredTimes(r, init, clock);
      }
    }
  }

  lemma OneRequestMore(r: Rules, init: seq<string>, last: string, clock: nat -> Time, before: seq<Limiter>)
    returns (states: seq<Limiter>)
    requires r.rateLimit > 0 && r.keep(last) && ClockRuns(clock, |init| + 1)
    requires var lines, times, g := FilteredLines(r, init), FilteredTimes(r, init, clock), GateLines(r, Idle, init, clock);
             && |lines| == |times| == |before| - 1 && IsRun(r.rateLimit, times, before)
             && g.limiter == before[|times|] && g.passed == LetThrough(r.rateLimit, lines, times, before)
    ensures var ls := init + [last];
            var lines, times, g := FilteredLines(r, ls), FilteredTimes(r, ls, clock), GateLines(r, Idle, ls, clock);
            && |lines| == |times| == |states| - 1 && IsRun(r.rateLimit, times, states)
            && g.limiter == states[|times|] && g.passed == LetThrough(r.rateLimit, lines, times, states)
  {
    var ls := init + [last];
    assert ls[..|ls|-1] == init && ls[|ls|-1] == last;
    var n := |before| - 1;
    var lines, times := FilteredLines(r, ls), FilteredTimes(r, ls, clock);
    FilteredInOrder(r, ls, clock);
    assert lines[..n] == FilteredLines(r, init) && times[..n] == FilteredTimes(r, init, clock);
    assert lines[n] == last && times[n] == clock(|init|);
    states := before + [Step(r.rateLimit, before[n], clock(|init|)).0];
    assert states[..n+1] == before;
    forall i: nat | i < |times| ensures Moves(r.rateLimit, times, states, i) {
      if i < n { assert Moves(r.rateLimit, times[..n], before, i); }
    }
  }
}
