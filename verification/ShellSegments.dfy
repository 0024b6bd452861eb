/** Cutting a shell command at its separators, internal/agent/agent.go. */
module ShellSegments {

  predicate Next(c: string, i: nat, x: char) {
    i + 1 < |c| && c[i+1] == x
  }

  /** An '&' that belongs to a redirection: "&>" or ">&". */
  predicate Redirects(c: string, i: nat)
    requires i < |c|
  {
    c[i] == '&' && (Next(c, i, '>') || (i > 0 && c[i-1] == '>'))
  }

  predicate Separates(c: string, i: nat)
    requires i < |c|
  {
    c[i] == '|' || (c[i] == '&' && !Redirects(c, i))
  }

  /** "&&" and "||" count as one separator. */
  function Width(c: string, i: nat): (w: nat)
    requires i < |c|
    ensures i + w <= |c| && 1 <= w <= 2
  {
    if Next(c, i, c[i]) then 2 else 1
  }

  /** The segments of the rest of the command when `cur` has been collected. */
  function Segments(c: string, i: nat, cur: string): (segs: seq<string>)
    requires i <= |c|
    ensures segs != []
    decreases |c| - i
  {
    if i == |c| then [cur]
    else if Separates(c, i) then [cur] + Segments(c, i + Width(c, i), "")
    else Segments(c, i + 1, cur + [c[i]])
  }

  /** The separators taken. */
  function Separators(c: string, i: nat): seq<string>
    requires i <= |c|
    decreases |c| - i
  {
    if i == |c| then []
    else if Separates(c, i) then [c[i..i+Width(c, i)]] + Separators(c, i + Width(c, i))
    else Separators(c, i + 1)
  }

  method SplitShellSegments(command: string) returns (segs: seq<string>)
    ensures segs == Segments(command, 0, "")
  {
    segs := [];
    var cur := "";
    var i := 0;
    while i < |command|
      invariant 0 <= i <= |command|
      invariant segs + Segments(command, i, cur) == Segments(command, 0, "")
    {
      var c := command[i];
      if c == '&' {
        if i + 1 < |command| && command[i+1] == '>' {
          cur := cur + [c];
          i := i + 1;
          continue;
        }
        if i > 0 && command[i-1] == '>' {
          cur := cur + [c];
          i := i + 1;
          continue;
        }
        if i + 1 < |command| && command[i+1] == '&' {
          i := i + 1;
        }
        segs := segs + [cur];
        cur := "";
      } else if c == '|' {
        if i + 1 < |command| && command[i+1] == '|' {
          i := i + 1;
        }
        segs := segs + [cur];
        cur := "";
      } else {
        cur := cur + [c];
      }
      i := i + 1;
    }
    segs := segs + [cur];
  }

  function Interleave(segs: seq<string>, seps: seq<string>): string
    requires |segs| == |seps| + 1
  {
    if seps == [] then segs[0] else segs[0] + seps[0] + Interleave(segs[1..], seps[1..])
  }

  lemma Recut(c: string, i: nat, w: nat, cur: string)
    requires i + w <= |c|
    ensures cur + c[i..i+w] + c[i+w..] == cur + c[i..]
  {
  }

  /** Nothing is lost: the segments with the separators between them are the command. */
  lemma {:induction false} SegmentsRebuild(c: string, i: nat, cur: string)
    requires i <= |c|
    ensures |Segments(c, i, cur)| == |Separators(c, i)| + 1
    ensures Interleave(Segments(c, i, cur), Separators(c, i)) == cur + c[i..]
    decreases |c| - i
  {
    if i == |c| {
      assert cur + c[i..] == cur;
    } else if Separates(c, i) {
      var w := Width(c, i);
      SegmentsRebuild(c, i + w, "");
      assert Segments(c, i, cur)[1..] == Segments(c, i + w, "");
      assert Separators(c, i)[1..] == Separators(c, i + w);
      assert "" + c[i+w..] == c[i+w..];
      Recut(c, i, w, cur);
    } else {
      SegmentsRebuild(c, i + 1, cur + [c[i]]);
      assert c[i..i+1] == [c[i]];
      Recut(c, i, 1, cur);
    }
  }

  /** The separators taken are the four operators. */
  lemma {:induction false} SeparatorsAreOperators(c: string, i: nat)
    requires i <= |c|
    ensures forall s | s in Separators(c, i) :: s == "&&" || s == "&" || s == "||" || s == "|"
    decreases |c| - i
  {
    if i < |c| {
      if Separates(c, i) {
        var w := Width(c, i);
        SeparatorsAreOperators(c, i + w);
        if w == 2 { assert c[i..i+2] == [c[i], c[i]]; } else { assert c[i..i+1] == [c[i]]; }
      } else {
        SeparatorsAreOperators(c, i + 1);
      }
    }
  }

  predicate TouchesRedirect(s: string, j: nat)
    requires j < |s|
  {
    (j > 0 && s[j-1] == '>') || (j + 1 < |s| && s[j+1] == '>')
  }

  /** No pipe, and every '&' is part of a redirection within the segment. */
  predicate Atomic(s: string) {
    forall j: nat | j < |s| :: s[j] != '|' && (s[j] == '&' ==> TouchesRedirect(s, j))
  }

  /** The same for a segment still being collected: its last '&' may be waiting for a '>'. */
  predicate AlmostAtomic(c: string, i: nat, cur: string)
    requires i <= |c|
  {
    && (forall j: nat | j < |cur| :: cur[j] != '|'
          && (cur[j] == '&' ==> TouchesRedirect(cur, j) || (j == |cur| - 1 && i < |c| && c[i] == '>')))
    && (i > 0 && c[i-1] == '>' ==> cur != "" && cur[|cur|-1] == '>')
  }

  lemma Collecting(c: string, i: nat, cur: string)
    requires i < |c| && AlmostAtomic(c, i, cur) && !Separates(c, i)
    ensures AlmostAtomic(c, i + 1, cur + [c[i]])
  {
    var more := cur + [c[i]];
    forall j: nat | j < |more|
      ensures more[j] != '|'
      ensures more[j] == '&' ==> TouchesRedirect(more, j) || (j == |more| - 1 && i + 1 < |c| && c[i+1] == '>')
    {
      if j < |cur| {
        assert more[j] == cur[j];
        if j > 0 { assert more[j-1] == cur[j-1]; }
        if j + 1 < |cur| { assert more[j+1] == cur[j+1]; } else { assert more[j+1] == c[i]; }
      } else if i > 0 && c[i-1] == '>' {
        assert more[j-1] == '>';
      }
    }
  }

  /** No segment can chain commands: it contains no '|', and each '&' left in it touches a
      '>' of the same segment. */
  lemma {:induction false} SegmentsAreAtomic(c: string, i: nat, cur: string)
    requires i <= |c| && AlmostAtomic(c, i, cur)
    ensures forall s | s in Segments(c, i, cur) :: Atomic(s)
    decreases |c| - i
  {
    if i < |c| {
      if Separates(c, i) {
        SegmentsAreAtomic(c, i + Width(c, i), "");
      } else {
        Collecting(c, i, cur);
        SegmentsAreAtomic(c, i + 1, cur + [c[i]]);
      }
    }
  }

  lemma CommandSegments(command: string)
    ensures var segs, seps := Segments(command, 0, ""), Separators(command, 0);
            && |segs| == |seps| + 1 && Interleave(segs, seps) == command
            && (forall s | s in seps :: s == "&&" || s == "&" || s == "||" || s == "|")
            && (forall s | s in segs :: Atomic(s))
  {
    SegmentsRebuild(command, 0, "");
    SeparatorsAreOperators(command, 0);
    SegmentsAreAtomic(command, 0, "");
    assert "" + command[0..] == command;
  }

  // ------------------------------------------------------- where it is cut

  /** The positions at which separators begin. */
  function Cuts(c: string, i: nat): seq<nat>
    requires i <= |c|
    decreases |c| - i
  {
    if i == |c| then []
    else if Separates(c, i) then [i] + Cuts(c, i + Width(c, i))
    else Cuts(c, i + 1)
  }

  /** A pipe, or an ampersand that has no '>' on either side. */
  predicate Operator(c: string, j: nat)
    requires j < |c|
  {
    c[j] == '|' || (c[j] == '&' && !(j + 1 < |c| && c[j+1] == '>') && !(j > 0 && c[j-1] == '>'))
  }

  lemma {:induction false} CutsFrom(c: string, i: nat)
    requires i <= |c|
    ensures forall k | 0 <= k < |Cuts(c, i)| :: i <= Cuts(c, i)[k] < |c|
    ensures forall k, l | 0 <= k < l < |Cuts(c, i)| :: Cuts(c, i)[k] < Cuts(c, i)[l]
    decreases |c| - i
  {
    if i < |c| { CutsFrom(c, if Separates(c, i) then i + Width(c, i) else i + 1); }
  }

  /** The second character of a doubled separator. */
  ghost predicate Doubled(c: string, cuts: seq<nat>, j: nat)
    requires j < |c|
  {
    j > 0 && j - 1 in cuts && c[j] == c[j-1]
  }

  lemma {:induction false} CutFrom(c: string, i: nat, j: nat)
    requires i <= j < |c|
    ensures j in Cuts(c, i) <==> Operator(c, j) && !(j > i && j - 1 in Cuts(c, i) && c[j] == c[j-1])
    decreases |c| - i
  {
    var next := if Separates(c, i) then i + Width(c, i) else i + 1;
    CutsFrom(c, next);
    if next <= j {
      CutFrom(c, next, j);
    }
  }

  /** The command is cut at every operator, except that a doubled one is cut once, and nowhere
      else: in particular not at an ampersand of a redirection. */
  lemma CutIff(c: string, j: nat)
    requires j < |c|
    ensures j in Cuts(c, 0) <==> Operator(c, j) && !Doubled(c, Cuts(c, 0), j)
  {
    CutFrom(c, 0, j);
  }

  /** How long the separator at a cut is. */
  function SepWidth(c: string, j: nat): (w: nat)
    requires j < |c|
    ensures j + w <= |c|
  {
    if j + 1 < |c| && c[j+1] == c[j] then 2 else 1
  }

  /** Cuts in order, with room for their separators. */
  ghost predicate InOrder(c: string, begin: nat, cuts: seq<nat>)
    decreases |cuts|
  {
    if cuts == [] then begin <= |c|
    else begin <= cuts[0] < |c| && InOrder(c, cuts[0] + SepWidth(c, cuts[0]), cuts[1..])
  }

  /** The texts between the cuts, from `begin` on. */
  ghost function Pieces(c: string, begin: nat, cuts: seq<nat>): seq<string>
    requires InOrder(c, begin, cuts)
    decreases |cuts|
  {
    if cuts == [] then [c[begin..]]
    else [c[begin..cuts[0]]] + Pieces(c, cuts[0] + SepWidth(c, cuts[0]), cuts[1..])
  }

  /** The segments are the texts between the cuts. */
  lemma {:induction false} SegmentsBetween(c: string, i: nat, cur: string, begin: nat)
    requires begin <= i <= |c| && cur == c[begin..i]
    ensures InOrder(c, begin, Cuts(c, i)) && Segments(c, i, cur) == Pieces(c, begin, Cuts(c, i))
    decreases |c| - i
  {
    if i == |c| {
      assert c[begin..] == c[begin..i];
    } else if Separates(c, i) {
      SegmentsBetween(c, i + Width(c, i), "", i + Width(c, i));
      assert Cuts(c, i)[1..] == Cuts(c, i + Width(c, i));
    } else {
      assert c[begin..i+1] == cur + [c[i]];
      SegmentsBetween(c, i + 1, cur + [c[i]], begin);
    }
  }

  lemma CommandPieces(c: string)
    ensures InOrder(c, 0, Cuts(c, 0)) && Segments(c, 0, "") == Pieces(c, 0, Cuts(c, 0))
  {
    SegmentsBetween(c, 0, "", 0);
  }
}
