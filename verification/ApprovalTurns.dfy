/** Whose turn it is in an approval step, over all the orders in which its approvers may
    decide. A step is a list of slots, one for each decision it needs. Two steps go alike
    exactly when their courses, which are computed from their fields, are equal. */
module ApprovalTurns {

  /** A decision that anyone who has not decided yet may take, or one that is reserved. */
  datatype Seat = Anyone | Only(name: string)

  /** The people who have not decided yet and the decisions that are still needed. */
  datatype Plan = Plan(people: set<string>, slots: seq<Seat>)

  function Turn(p: Plan): set<string> {
    if p.slots == [] then {}
    else match p.slots[0]
         case Anyone => p.people
         case Only(u) => if u in p.people then {u} else {}
  }

  /** What is left when `u` has taken the first slot. */
  function After(p: Plan, u: string): Plan
    requires p.slots != []
  {
    Plan(p.people - {u}, p.slots[1..])
  }

  /** Whatever the order of approvals, the same people may decide next, and the step is
      complete at the same moment. */
  ghost predicate Alike(p: Plan, q: Plan)
    decreases |p.slots|
  {
    && Turn(p) == Turn(q)
    && (Turn(p) != {} ==>
          && (|p.slots| == 1 <==> |q.slots| == 1)
          && (|p.slots| > 1 ==> forall u | u in Turn(p) :: Alike(After(p, u), After(q, u))))
  }

  // ------------------------------------------------------------------ reach

  /** The first slot reserved for `u`, or the number of slots. */
  function FirstFor(slots: seq<Seat>, u: string): (k: nat)
    ensures k <= |slots|
  {
    if slots == [] then 0 else if slots[0] == Only(u) then 0 else 1 + FirstFor(slots[1..], u)
  }

  lemma {:induction false} FirstForIff(slots: seq<Seat>, u: string)
    ensures FirstFor(slots, u) < |slots| <==> Only(u) in slots
  {
    if slots != [] {
      FirstForIff(slots[1..], u);
      assert slots == [slots[0]] + slots[1..];
    }
  }

  /** How many slots `room` people can fill when everyone takes the right one: up to one
      reserved for somebody who is not in `free` (any more). */
  function Fit(free: set<string>, room: nat, slots: seq<Seat>): (l: nat)
    ensures l <= |slots| && l <= room
  {
    if slots == [] || room == 0 then 0
    else match slots[0]
         case Anyone => 1 + Fit(free, room - 1, slots[1..])
         case Only(u) => if u in free then 1 + Fit(free - {u}, room - 1, slots[1..]) else 0
  }

  function Reach(p: Plan): (l: nat)
    ensures l <= |p.slots| && l <= |p.people|
  {
    Fit(p.people, |p.people|, p.slots)
  }

  ghost predicate Fits(free: set<string>, slots: seq<Seat>) {
    && (forall i | 0 <= i < |slots| && slots[i].Only? :: slots[i].name in free)
    && (forall i, j | 0 <= i < j < |slots| && slots[i].Only? :: slots[i] != slots[j])
  }

  lemma {:induction false} FitFits(free: set<string>, room: nat, slots: seq<Seat>)
    ensures Fits(free, slots[..Fit(free, room, slots)])
  {
    var l := Fit(free, room, slots);
    if l > 0 {
      var rest := slots[1..];
      var less := if slots[0].Only? then free - {slots[0].name} else free;
      FitFits(less, room - 1, rest);
      assert slots[..l] == [slots[0]] + rest[..l-1];
      assert forall i | 0 < i < l :: slots[i] == rest[..l-1][i-1];
    }
  }

  lemma {:induction false} FitAll(free: set<string>, room: nat, slots: seq<Seat>)
    requires Fits(free, slots) && |slots| <= room
    ensures Fit(free, room, slots) == |slots|
  {
    if slots != [] {
      var rest := slots[1..];
      var less := if slots[0].Only? then free - {slots[0].name} else free;
      assert forall i | 0 <= i < |rest| :: rest[i] == slots[i+1];
      FitAll(less, room - 1, rest);
    }
  }

  /** Without `u` the slots can be filled up to the one reserved for `u`. */
  lemma {:induction false} FitWithout(free: set<string>, room: nat, slots: seq<Seat>, u: string)
    ensures var l, k := Fit(free, room, slots), FirstFor(slots, u);
            Fit(free - {u}, room, slots) == if k < l then k else l
  {
    if slots != [] && room > 0 {
      var rest := slots[1..];
      match slots[0] {
        case Anyone => FitWithout(free, room - 1, rest, u);
        case Only(v) =>
          if v in free && v != u {
            assert (free - {u}) - {v} == (free - {v}) - {u};
            FitWithout(free - {v}, room - 1, rest, u);
          }
      }
    }
  }

  // ---------------------------------------------------------------- courses

  /** The slots that can be filled, the people if anyone may take some slot, and whether
      filling them completes the step. */
  datatype Course = Course(slots: seq<Seat>, people: set<string>, done: bool)

  predicate AllNamed(slots: seq<Seat>) {
    Anyone !in slots
  }

  function Names(slots: seq<Seat>): set<string> {
    set i | 0 <= i < |slots| && slots[i].Only? :: slots[i].name
  }

  /** All slots are reserved but the last, for which only one person will be left. */
  predicate LastIsForced(people: set<string>, slots: seq<Seat>) {
    slots != [] && |slots| == |people| && slots[|slots|-1] == Anyone && AllNamed(slots[..|slots|-1])
  }

  function LeftOver(people: set<string>, slots: seq<Seat>): set<string> {
    people - Names(slots)
  }

  ghost function Someone(people: set<string>): (x: string)
    requires people != {}
    ensures x in people
  {
    var x :| x in people; x
  }

  /** A forced last slot is as good as reserved. */
  ghost function Forced(people: set<string>, slots: seq<Seat>): (r: seq<Seat>)
    ensures |r| == |slots|
  {
    if LastIsForced(people, slots) && LeftOver(people, slots) != {} then
      slots[|slots|-1 := Only(Someone(LeftOver(people, slots)))]
    else slots
  }

  ghost function Seal(people: set<string>, slots: seq<Seat>, done: bool): (c: Course)
    ensures |c.slots| == |slots|
  {
    var s := Forced(people, slots);
    Course(s, if AllNamed(s) then {} else people, done && s != [])
  }

  ghost function CourseOf(p: Plan): Course {
    Seal(p.people, p.slots[..Reach(p)], Reach(p) == |p.slots|)
  }

  ghost function CourseTurn(c: Course): set<string> {
    if c.slots == [] then {} else if c.slots[0].Only? then {c.slots[0].name} else c.people
  }

  ghost function CourseAfter(c: Course, u: string): Course
    requires c.slots != []
  {
    var rest := c.slots[1..];
    var k := FirstFor(rest, u);
    Seal(c.people - {u}, rest[..k], c.done && k == |rest|)
  }

  lemma NamesOneMore(init: seq<Seat>, last: Seat)
    ensures Names(init + [last]) == Names(init) + (if last.Only? then {last.name} else {})
  {
    var all := init + [last];
    forall x | x in Names(init) ensures x in Names(all) {
      var i :| 0 <= i < |init| && init[i].Only? && init[i].name == x;
      assert all[i] == init[i];
    }
    if last.Only? { assert all[|init|] == last && last.name in Names(all); }
  }

  lemma {:induction false} NamesCount(slots: seq<Seat>)
    ensures |Names(slots)| <= |slots|
  {
    if slots != [] {
      var init, last := slots[..|slots|-1], slots[|slots|-1];
      assert slots == init + [last];
      NamesOneMore(init, last);
      NamesCount(init);
    }
  }

  lemma {:induction false} AllNamesCount(slots: seq<Seat>)
    requires AllNamed(slots) && forall i, j | 0 <= i < j < |slots| :: slots[i] != slots[j]
    ensures |Names(slots)| == |slots|
  {
    if slots != [] {
      var init, last := slots[..|slots|-1], slots[|slots|-1];
      assert slots == init + [last];
      assert last in slots && forall x | x in init :: x in slots;
      NamesOneMore(init, last);
      AllNamesCount(init);
      forall i | 0 <= i < |init| && init[i].Only? ensures init[i].name != last.name {
        assert slots[i] != slots[|slots|-1];
      }
    }
  }

  lemma NamesWithout(people: set<string>, slots: seq<Seat>)
    requires Fits(people, slots)
    ensures Names(slots) <= people && |LeftOver(people, slots)| == |people| - |Names(slots)|
  {
    assert people == LeftOver(people, slots) + Names(slots);
  }

  /** One person is left for a forced slot. */
  lemma ForcedIsOne(people: set<string>, slots: seq<Seat>)
    requires Fits(people, slots) && LastIsForced(people, slots)
    ensures |LeftOver(people, slots)| == 1
  {
    var init := slots[..|slots|-1];
    assert Names(slots) == Names(init);
    assert forall i, j | 0 <= i < j < |init| :: init[i] == slots[i] != slots[j] == init[j];
    AllNamesCount(init);
    NamesWithout(people, slots);
  }

  lemma TheOne(s: set<string>, x: string)
    requires |s| == 1 && x in s
    ensures s == {x}
  {
    assert |s - {x}| == 0;
    assert s == (s - {x}) + {x};
  }

  lemma CourseHasTurn(p: Plan)
    ensures CourseTurn(CourseOf(p)) == Turn(p)
  {
    var l := Reach(p);
    var slots := p.slots[..l];
    FitFits(p.people, |p.people|, p.slots);
    if l > 0 && LastIsForced(p.people, slots) {
      ForcedIsOne(p.people, slots);
      if l == 1 {
        assert Names(slots) == {};
        assert LeftOver(p.people, slots) == p.people;
        TheOne(p.people, Someone(p.people));
      }
    }
    if l == 0 && p.slots != [] && p.people != {} {
      assert |p.people| > 0;
    }
    if l > 0 { assert slots[0] == p.slots[0]; }
  }

  lemma {:induction false} FirstForPrefix(slots: seq<Seat>, l: nat, u: string)
    requires l <= |slots|
    ensures FirstFor(slots[..l], u) == if FirstFor(slots, u) < l then FirstFor(slots, u) else l
  {
    if l > 0 {
      FirstForPrefix(slots[1..], l - 1, u);
      assert slots[..l][1..] == slots[1..][..l-1];
    }
  }

  lemma LeftOverTail(people: set<string>, slots: seq<Seat>, u: string)
    requires slots != [] && slots[0] == Only(u)
    ensures LeftOver(people - {u}, slots[1..]) == LeftOver(people, slots)
  {
    var rest := slots[1..];
    assert slots == [Only(u)] + rest;
    forall x ensures x in Names(slots) <==> x == u || x in Names(rest) {
      if x in Names(rest) {
        var i :| 0 <= i < |rest| && rest[i].Only? && rest[i].name == x;
        assert slots[i+1] == rest[i];
      }
    }
  }

  lemma LastIsForcedTail(people: set<string>, slots: seq<Seat>, u: string)
    requires |slots| > 1 && slots[0] == Only(u) && u in people
    ensures LastIsForced(people, slots) <==> LastIsForced(people - {u}, slots[1..])
  {
    var rest := slots[1..];
    assert slots[..|slots|-1] == [Only(u)] + rest[..|rest|-1];
    assert |people - {u}| == |people| - 1;
  }

  /** Taking a reserved first slot changes nothing in the others. */
  lemma ForcedTail(people: set<string>, slots: seq<Seat>, u: string)
    requires slots != [] && slots[0] == Only(u) && u in people
    ensures Forced(people, slots) == [Only(u)] + Forced(people - {u}, slots[1..])
  {
    LeftOverTail(people, slots, u);
    if |slots| > 1 { LastIsForcedTail(people, slots, u); }
    assert slots == [Only(u)] + slots[1..];
    if LastIsForced(people, slots) && LeftOver(people, slots) != {} {
      assert |slots| > 1;
      var n, last := |slots|, Forced(people, slots)[|slots|-1];
      assert slots[n-1 := last] == [Only(u)] + slots[1..][n-2 := last];
    }
  }

  lemma ForcedIsFresh(people: set<string>, slots: seq<Seat>, u: string)
    requires Fits(people, slots) && slots != [] && slots[0] == Only(u)
    ensures Only(u) !in Forced(people, slots)[1..]
  {
    var f := Forced(people, slots);
    forall i | 0 < i < |f| ensures f[i] != Only(u) {
      assert u in Names(slots);
    }
  }

  lemma SealTail(people: set<string>, slots: seq<Seat>, u: string, done: bool)
    requires Fits(people, slots) && slots != [] && slots[0] == Only(u)
    ensures CourseAfter(Seal(people, slots, done), u) == Seal(people - {u}, slots[1..], done)
  {
    ForcedTail(people, slots, u);
    ForcedIsFresh(people, slots, u);
    var rest := Forced(people, slots)[1..];
    FirstForIff(rest, u);
    assert rest[..|rest|] == rest;
    SealedOnce(people - {u}, slots[1..]);
  }

  /** A forced slot is not forced again. */
  lemma SealedOnce(people: set<string>, slots: seq<Seat>)
    ensures forall some: set<string> :: AllNamed(Forced(people, slots)) ==> Forced(some, Forced(people, slots)) == Forced(people, slots)
    ensures !AllNamed(Forced(people, slots)) ==> Forced(people, slots) == slots
  {
    var f := Forced(people, slots);
    if LastIsForced(people, slots) && LeftOver(people, slots) != {} {
      var n := |slots|;
      forall i | 0 <= i < n ensures f[i] != Anyone {
        if i < n - 1 { assert slots[i] == slots[..n-1][i]; }
      }
    }
    if AllNamed(f) {
      forall some: set<string> ensures Forced(some, f) == f {
        if f != [] { assert f[|f|-1] in f; }
      }
    }
  }

  lemma AfterReserved(p: Plan, u: string)
    requires u in Turn(p) && p.slots[0] == Only(u)
    ensures CourseOf(After(p, u)) == CourseAfter(CourseOf(p), u)
  {
    var l := Reach(p);
    FitFits(p.people, |p.people|, p.slots);
    SealTail(p.people, p.slots[..l], u, l == |p.slots|);
    assert p.slots[..l][1..] == p.slots[1..][..l-1];
    assert Reach(After(p, u)) == l - 1;
  }

  lemma AfterOnlyFree(p: Plan, u: string)
    requires u in Turn(p) && p.slots[0] == Anyone && Reach(p) == 1
    ensures CourseOf(After(p, u)) == CourseAfter(CourseOf(p), u)
  {
    FitWithout(p.people, |p.people| - 1, p.slots[1..], u);
    assert Reach(After(p, u)) == 0;
    assert CourseOf(p).slots[1..] == [];
  }

  lemma FitCut(free: set<string>, room: nat, slots: seq<Seat>, u: string)
    ensures Fit(free - {u}, room, slots) == FirstFor(slots[..Fit(free, room, slots)], u)
  {
    FitWithout(free, room, slots, u);
    FirstForPrefix(slots, Fit(free, room, slots), u);
  }

  lemma OneFewer(people: set<string>, u: string)
    requires u in people
    ensures |people - {u}| == |people| - 1
  {
  }

  lemma ReachAfterFree(people: set<string>, slots: seq<Seat>, u: string)
    requires u in people && slots != [] && slots[0] == Anyone
    ensures var l := Reach(Plan(people, slots));
            l > 0 && Reach(Plan(people - {u}, slots[1..])) == FirstFor(slots[1..][..l-1], u)
  {
    OneFewer(people, u);
    var l := Fit(people, |people| - 1, slots[1..]);
    assert Fit(people, |people|, slots) == 1 + l;
    FitCut(people, |people| - 1, slots[1..], u);
  }

  lemma FreeCourse(p: Plan)
    requires Reach(p) > 1 && p.slots[0] == Anyone
    ensures CourseOf(p) == Course(p.slots[..Reach(p)], p.people, Reach(p) == |p.slots|)
    ensures CourseOf(p).slots[1..] == p.slots[1..][..Reach(p)-1]
  {
    FreeStays(p.people, p.slots[..Reach(p)]);
  }

  lemma AfterFree(p: Plan, u: string)
    requires u in Turn(p) && p.slots[0] == Anyone && Reach(p) > 1
    ensures CourseOf(After(p, u)) == CourseAfter(CourseOf(p), u)
  {
    var tail, l := p.slots[1..], Reach(p);
    FreeCourse(p);
    ReachAfterFree(p.people, p.slots, u);
    var k := FirstFor(tail[..l-1], u);
    assert tail[..l-1][..k] == tail[..k];
    assert CourseAfter(CourseOf(p), u) == Seal(p.people - {u}, tail[..k], k == |tail|);
  }

  lemma FreeStays(people: set<string>, slots: seq<Seat>)
    requires |slots| > 1 && slots[0] == Anyone
    ensures Forced(people, slots) == slots && !AllNamed(slots)
  {
    assert slots[..|slots|-1][0] == Anyone;
    assert Anyone in slots[..|slots|-1];
    assert slots[0] in slots;
  }

  lemma CourseGoesOn(p: Plan, u: string)
    requires u in Turn(p)
    ensures CourseOf(p).slots != [] && CourseOf(After(p, u)) == CourseAfter(CourseOf(p), u)
  {
    assert Reach(p) > 0;
    if p.slots[0].Only? { AfterReserved(p, u); }
    else if Reach(p) == 1 { AfterOnlyFree(p, u); }
    else { AfterFree(p, u); }
  }

  // ------------------------------------------- a course says everything

  /** What the course of a plan satisfies. */
  ghost predicate IsCourse(c: Course) {
    && (c.slots == [] ==> !c.done)
    && (forall i, j | 0 <= i < j < |c.slots| && c.slots[i].Only? :: c.slots[i] != c.slots[j])
    && (if AllNamed(c.slots) then c.people == {}
        else |c.slots| <= |c.people| && Fits(c.people, c.slots) && !LastIsForced(c.people, c.slots))
  }

  lemma CourseIsCourse(p: Plan)
    ensures IsCourse(CourseOf(p))
  {
    var slots := p.slots[..Reach(p)];
    FitFits(p.people, |p.people|, p.slots);
    if LastIsForced(p.people, slots) {
      ForcedIsOne(p.people, slots);
      var f, n := Forced(p.people, slots), |slots|;
      assert slots[..n-1] == f[..n-1] && f == f[..n-1] + [f[n-1]];
      forall i | 0 <= i < n - 1 ensures f[i] != f[n-1] {
        assert f[i] == slots[i] && slots[i] in slots[..n-1];
      }
    }
  }

  lemma NotAllTaken(people: set<string>, names: set<string>)
    requires |names| < |people|
    ensures people - names != {}
  {
    assert people == (people - names) + people * names;
    assert names == (names - people) + people * names;
  }

  /** Somebody can take a free first slot without spoiling a later one. */
  lemma Harmless(people: set<string>, slots: seq<Seat>) returns (u: string)
    requires 0 < |slots| <= |people|
    ensures u in people && Only(u) !in slots[1..]
  {
    var rest := slots[1..];
    NamesCount(rest);
    NotAllTaken(people, Names(rest));
    u :| u in people - Names(rest);
    forall i | 0 <= i < |rest| ensures rest[i] != Only(u) {
      assert rest[i].Only? ==> rest[i].name in Names(rest);
    }
  }

  lemma WholeRest(c: Course, u: string)
    requires c.slots != []
    ensures |CourseAfter(c, u).slots| == FirstFor(c.slots[1..], u)
    ensures Only(u) !in c.slots[1..] ==>
              CourseAfter(c, u) == Seal(c.people - {u}, c.slots[1..], c.done)
  {
    var rest := c.slots[1..];
    FirstForIff(rest, u);
    assert rest[..|rest|] == rest;
  }

  /** Two lists that look the same to everyone who can take the slot before them. */
  lemma SameRest(people: set<string>, a: seq<Seat>, b: seq<Seat>, u: string)
    requires u in people && |a| == |b| && Only(u) !in a && Only(u) !in b
    requires Fits(people, a) && Fits(people, b)
    requires Forced(people - {u}, a) == Forced(people - {u}, b)
    requires forall v | v in people :: FirstFor(a, v) == FirstFor(b, v)
    ensures a == b
  {
    var left := people - {u};
    if Renamed(left, a) && Renamed(left, b) {
      BothRenamed(left, a, b);
    } else if Renamed(left, a) {
      RenamedShows(left, a);
    } else if Renamed(left, b) {
      RenamedShows(left, b);
    }
  }

  lemma BothRenamed(people: set<string>, a: seq<Seat>, b: seq<Seat>)
    requires Renamed(people, a) && Renamed(people, b) && Forced(people, a) == Forced(people, b)
    ensures a == b
  {
    var n := |a|;
    assert |b| == |Forced(people, b)| == n;
    assert a == Forced(people, a)[..n-1] + [Anyone];
    assert b == Forced(people, b)[..n-1] + [Anyone];
  }

  ghost predicate Renamed(people: set<string>, slots: seq<Seat>) {
    LastIsForced(people, slots) && LeftOver(people, slots) != {}
  }

  /** The name put on a forced slot is a new one. */
  lemma RenamedShows(people: set<string>, slots: seq<Seat>)
    requires Renamed(people, slots)
    ensures var x := Someone(LeftOver(people, slots));
            x in people && FirstFor(slots, x) == |slots| && FirstFor(Forced(people, slots), x) < |slots|
  {
    var x := Someone(LeftOver(people, slots));
    assert Forced(people, slots)[|slots|-1] == Only(x);
    assert Only(x) in Forced(people, slots);
    FirstForIff(slots, x);
    FirstForIff(Forced(people, slots), x);
    forall i | 0 <= i < |slots| ensures slots[i] != Only(x) {
      assert slots[i].Only? ==> slots[i].name in Names(slots);
    }
  }

  /** A course is determined by whose turn it is and by how it goes on for each of them. */
  lemma CourseDetermined(c: Course, d: Course)
    requires IsCourse(c) && IsCourse(d) && CourseTurn(c) == CourseTurn(d) != {}
    requires |c.slots| == 1 && |d.slots| == 1 ==> c.done == d.done
    requires forall u | u in CourseTurn(c) :: CourseAfter(c, u) == CourseAfter(d, u)
    ensures c == d
  {
    if c.slots[0].Only? && d.slots[0].Only? {
      ReservedDetermined(c, d, c.slots[0].name);
    } else if c.slots[0].Anyone? && d.slots[0].Anyone? {
      FreeDetermined(c, d);
    } else if c.slots[0].Anyone? {
      NotBoth(c, d.slots[0].name);
    } else {
      NotBoth(d, c.slots[0].name);
    }
  }

  lemma NotBoth(c: Course, u: string)
    requires IsCourse(c) && c.slots != [] && c.slots[0].Anyone?
    ensures c.people != {u}
  {
    assert c.slots[0] in c.slots;
    assert AllNamed(c.slots[..0]);
    assert |c.people| != 1;
    assert |{u}| == 1;
  }

  lemma ReservedRest(c: Course, u: string)
    requires IsCourse(c) && c.slots != [] && c.slots[0] == Only(u)
    ensures CourseAfter(c, u) == Course(c.slots[1..], c.people - {u}, c.done && |c.slots| > 1)
    ensures c.people != {} ==> u in c.people
    ensures c.people == {} <==> AllNamed(c.slots[1..])
  {
    var rest := c.slots[1..];
    assert c.slots == [Only(u)] + rest;
    forall i | 0 <= i < |rest| ensures rest[i] != Only(u) { assert c.slots[i+1] == rest[i]; }
    WholeRest(c, u);
    if !AllNamed(rest) {
      assert u in c.people;
      LastIsForcedTail(c.people, c.slots, u);
      assert Forced(c.people - {u}, rest) == rest;
    } else {
      assert Forced(c.people - {u}, rest) == rest;
    }
  }

  lemma ReservedDetermined(c: Course, d: Course, u: string)
    requires IsCourse(c) && IsCourse(d) && c.slots != [] && d.slots != []
    requires c.slots[0] == d.slots[0] == Only(u)
    requires |c.slots| == 1 && |d.slots| == 1 ==> c.done == d.done
    requires CourseAfter(c, u) == CourseAfter(d, u)
    ensures c == d
  {
    ReservedRest(c, u);
    ReservedRest(d, u);
    assert c.slots == [Only(u)] + c.slots[1..] && d.slots == [Only(u)] + d.slots[1..];
    if c.people != {} {
      assert c.people == (c.people - {u}) + {u} && d.people == (d.people - {u}) + {u};
    }
  }

  lemma FreeAsLong(c: Course, d: Course) returns (u: string)
    requires IsCourse(c) && IsCourse(d) && c.slots != [] && d.slots != []
    requires c.slots[0] == d.slots[0] == Anyone && c.people == d.people
    requires forall w | w in c.people :: FirstFor(c.slots[1..], w) == FirstFor(d.slots[1..], w)
    ensures |c.slots| == |d.slots|
    ensures u in c.people && Only(u) !in c.slots[1..] && Only(u) !in d.slots[1..]
  {
    assert c.slots[0] in c.slots && d.slots[0] in d.slots;
    u := Harmless(c.people, c.slots);
    var v := Harmless(d.people, d.slots);
    FirstForIff(c.slots[1..], u);
    FirstForIff(d.slots[1..], u);
    FirstForIff(c.slots[1..], v);
    FirstForIff(d.slots[1..], v);
    assert FirstFor(c.slots[1..], u) == FirstFor(d.slots[1..], u);
    assert FirstFor(c.slots[1..], v) == FirstFor(d.slots[1..], v);
  }

  lemma FitsRest(people: set<string>, slots: seq<Seat>)
    requires Fits(people, slots) && slots != []
    ensures Fits(people, slots[1..])
  {
    var rest := slots[1..];
    forall i | 0 <= i < |rest| && rest[i].Only?
      ensures rest[i].name in people
      ensures forall j | i < j < |rest| :: rest[i] != rest[j]
    {
      assert slots[i+1] == rest[i];
      assert forall j | i < j < |rest| :: rest[j] == slots[j+1];
    }
  }

  lemma FreeFits(c: Course)
    requires IsCourse(c) && c.slots != [] && c.slots[0] == Anyone
    ensures Fits(c.people, c.slots[1..])
  {
    assert c.slots[0] in c.slots;
    FitsRest(c.people, c.slots);
  }

  lemma SealedRest(c: Course, d: Course, u: string)
    requires c.slots != [] && d.slots != [] && c.people == d.people && |c.slots| == |d.slots|
    requires Only(u) !in c.slots[1..] && Only(u) !in d.slots[1..]
    requires CourseAfter(c, u) == CourseAfter(d, u)
    ensures Forced(c.people - {u}, c.slots[1..]) == Forced(c.people - {u}, d.slots[1..])
    ensures |c.slots| > 1 ==> c.done == d.done
  {
    WholeRest(c, u);
    WholeRest(d, u);
  }

  lemma SameFirst(c: Course, d: Course)
    requires c.slots != [] && d.slots != []
    requires forall u | u in c.people :: CourseAfter(c, u) == CourseAfter(d, u)
    ensures forall w | w in c.people :: FirstFor(c.slots[1..], w) == FirstFor(d.slots[1..], w)
  {
    forall w | w in c.people ensures FirstFor(c.slots[1..], w) == FirstFor(d.slots[1..], w) {
      assert CourseAfter(c, w) == CourseAfter(d, w);
      WholeRest(c, w);
      WholeRest(d, w);
    }
  }

  lemma FreeDetermined(c: Course, d: Course)
    requires IsCourse(c) && IsCourse(d) && c.slots != [] && d.slots != []
    requires c.slots[0] == d.slots[0] == Anyone && c.people == d.people
    requires |c.slots| == 1 && |d.slots| == 1 ==> c.done == d.done
    requires forall u | u in c.people :: CourseAfter(c, u) == CourseAfter(d, u)
    ensures c == d
  {
    var a, b := c.slots[1..], d.slots[1..];
    SameFirst(c, d);
    var u := FreeAsLong(c, d);
    assert CourseAfter(c, u) == CourseAfter(d, u);
    SealedRest(c, d, u);
    FreeFits(c);
    FreeFits(d);
    SameRest(c.people, a, b, u);
    assert c.slots == [Anyone] + a && d.slots == [Anyone] + b;
  }

  /** Two steps go alike, over every order of approvals, exactly when their courses are
      equal. */
  lemma {:induction false} AlikeIffSameCourse(p: Plan, q: Plan)
    ensures Alike(p, q) <==> CourseOf(p) == CourseOf(q)
    decreases |p.slots|
  {
    CourseHasTurn(p);
    CourseHasTurn(q);
    if Turn(p) == Turn(q) && Turn(p) != {} {
      assert Reach(p) > 0 && Reach(q) > 0;
      forall u | u in Turn(p)
        ensures CourseOf(After(p, u)) == CourseAfter(CourseOf(p), u)
        ensures CourseOf(After(q, u)) == CourseAfter(CourseOf(q), u)
        ensures Alike(After(p, u), After(q, u)) <==> CourseOf(After(p, u)) == CourseOf(After(q, u))
      {
        CourseGoesOn(p, u);
        CourseGoesOn(q, u);
        AlikeIffSameCourse(After(p, u), After(q, u));
      }
      CourseIsCourse(p);
      CourseIsCourse(q);
      if Alike(p, q) {
        if |p.slots| == 1 { SingleSlot(p, q); } else { CourseDetermined(CourseOf(p), CourseOf(q)); }
      }
    } else if Turn(p) == Turn(q) {
      NobodysTurn(p);
      NobodysTurn(q);
    }
  }

  lemma NobodysTurn(p: Plan)
    requires Turn(p) == {}
    ensures CourseOf(p) == Course([], {}, false)
  {
    assert Reach(p) == 0;
  }

  lemma SingleSlot(p: Plan, q: Plan)
    requires |p.slots| == |q.slots| == 1 && Turn(p) == Turn(q) != {}
    ensures CourseOf(p) == CourseOf(q)
  {
    CourseHasTurn(p);
    CourseHasTurn(q);
    CourseIsCourse(p);
    CourseIsCourse(q);
    var c, d := CourseOf(p), CourseOf(q);
    assert |c.slots| == 1 && |d.slots| == 1 && c.done && d.done;
    forall u | u in Turn(p) ensures CourseAfter(c, u) == CourseAfter(d, u) {
      assert c.slots[1..] == d.slots[1..] == [];
    }
    CourseDetermined(c, d);
  }
}
