/** The two complementary argument filters of cmd/opsmesh/main.go. */
module SubcmdArgs {
  import opened Basics

  function TrimDashes(a: string): string {
    if a != "" && a[0] == '-' then TrimDashes(a[1..]) else a
  }

  /** The flag name: without dashes and without "=value". */
  function Name(a: string): string {
    var t := TrimDashes(a);
    t[..IndexOf(t, '=')]
  }

  predicate HasEq(a: string) {
    var t := TrimDashes(a);
    IndexOf(t, '=') < |t|
  }

  /** A flag of the subcommand; `specs` tells for each name whether it takes a value. */
  predicate Recognized(a: string, specs: map<string, bool>) {
    a != "" && a[0] == '-' && Name(a) in specs
  }

  /** How many tokens a recognized flag uses up. */
  function Span(a: string, specs: map<string, bool>): nat
    requires Recognized(a, specs)
  {
    if specs[Name(a)] && !HasEq(a) then 2 else 1
  }

  /** The positions kept for the global configuration. */
  function Kept(args: seq<string>, subcmd: string, specs: map<string, bool>, i: nat): seq<nat>
    decreases |args| - i
  {
    if i >= |args| then []
    else if args[i] == subcmd then Kept(args, subcmd, specs, i + 1)
    else if Recognized(args[i], specs) then Kept(args, subcmd, specs, i + Span(args[i], specs))
    else [i] + Kept(args, subcmd, specs, i + 1)
  }

  /** The positions of the subcommand tokens dropped on the way. */
  function Dropped(args: seq<string>, subcmd: string, specs: map<string, bool>, i: nat): seq<nat>
    decreases |args| - i
  {
    if i >= |args| then []
    else if args[i] == subcmd then [i] + Dropped(args, subcmd, specs, i + 1)
    else if Recognized(args[i], specs) then Dropped(args, subcmd, specs, i + Span(args[i], specs))
    else Dropped(args, subcmd, specs, i + 1)
  }

  /** The positions picked for the subcommand's own flags. */
  function Picked(args: seq<string>, specs: map<string, bool>, i: nat): seq<nat>
    decreases |args| - i
  {
    if i >= |args| then []
    else if !Recognized(args[i], specs) then Picked(args, specs, i + 1)
    else if Span(args[i], specs) == 2 && i + 1 < |args| then [i, i + 1] + Picked(args, specs, i + 2)
    else [i] + Picked(args, specs, i + Span(args[i], specs))
  }

  function At(args: seq<string>, q: seq<nat>): seq<string>
    requires forall k | 0 <= k < |q| :: q[k] < |args|
  {
    seq(|q|, k requires 0 <= k < |q| => args[q[k]])
  }

  /** Ascending positions from `lo` on. */
  ghost predicate Positions(q: seq<nat>, lo: nat, n: nat) {
    && (forall k | 0 <= k < |q| :: lo <= q[k] < n)
    && (forall k, l | 0 <= k < l < |q| :: q[k] < q[l])
  }

  lemma {:induction false} KeptAscends(args: seq<string>, subcmd: string, specs: map<string, bool>, i: nat)
    ensures Positions(Kept(args, subcmd, specs, i), i, |args|)
    decreases |args| - i
  {
    if i < |args| {
      KeptAscends(args, subcmd, specs, i + 1);
      if Recognized(args[i], specs) { KeptAscends(args, subcmd, specs, i + Span(args[i], specs)); }
    }
  }

  lemma {:induction false} DroppedAscends(args: seq<string>, subcmd: string, specs: map<string, bool>, i: nat)
    ensures Positions(Dropped(args, subcmd, specs, i), i, |args|)
    decreases |args| - i
  {
    if i < |args| {
      DroppedAscends(args, subcmd, specs, i + 1);
      if Recognized(args[i], specs) { DroppedAscends(args, subcmd, specs, i + Span(args[i], specs)); }
    }
  }

  lemma {:induction false} PickedAscends(args: seq<string>, specs: map<string, bool>, i: nat)
    ensures Positions(Picked(args, specs, i), i, |args|)
    decreases |args| - i
  {
    if i < |args| {
      if !Recognized(args[i], specs) {
        PickedAscends(args, specs, i + 1);
      } else {
        PickedAscends(args, specs, i + Span(args[i], specs));
      }
    }
  }

  predicate InRange(q: seq<nat>, n: nat) {
    forall k | 0 <= k < |q| :: q[k] < n
  }

  lemma AtConcat(args: seq<string>, a: seq<nat>, b: seq<nat>)
    requires InRange(a, |args|) && InRange(b, |args|)
    ensures InRange(a + b, |args|) && At(args, a + b) == At(args, a) + At(args, b)
  {
  }

  /** The positions a recognized flag at `i` takes. */
  function Taken(args: seq<string>, specs: map<string, bool>, i: nat): seq<nat>
    requires i < |args| && Recognized(args[i], specs)
  {
    if Span(args[i], specs) == 2 && i + 1 < |args| then [i, i + 1] else [i]
  }

  lemma PickedOneMore(args: seq<string>, specs: map<string, bool>, i: nat, next: nat)
    requires i < |args| && Recognized(args[i], specs) && next == i + |Taken(args, specs, i)|
    ensures Picked(args, specs, i) == Taken(args, specs, i) + Picked(args, specs, next)
  {
    if Span(args[i], specs) == 2 && i + 1 >= |args| {
      assert Picked(args, specs, i + 2) == Picked(args, specs, i + 1) == [];
    }
  }

  /** What is still to be kept from position `i` on. */
  function KeptArgs(args: seq<string>, subcmd: string, specs: map<string, bool>, i: nat): seq<string> {
    KeptAscends(args, subcmd, specs, i);
    At(args, Kept(args, subcmd, specs, i))
  }

  function PickedArgs(args: seq<string>, specs: map<string, bool>, i: nat): seq<string> {
    PickedAscends(args, specs, i);
    At(args, Picked(args, specs, i))
  }

  lemma KeepOne(args: seq<string>, subcmd: string, specs: map<string, bool>, i: nat)
    requires i < |args| && args[i] != subcmd && !Recognized(args[i], specs)
    ensures KeptArgs(args, subcmd, specs, i) == [args[i]] + KeptArgs(args, subcmd, specs, i + 1)
  {
    KeptAscends(args, subcmd, specs, i + 1);
    AtConcat(args, [i], Kept(args, subcmd, specs, i + 1));
    assert At(args, [i]) == [args[i]];
  }

  lemma SkipOne(args: seq<string>, subcmd: string, specs: map<string, bool>, i: nat)
    requires i < |args| && (args[i] == subcmd || Recognized(args[i], specs))
    ensures KeptArgs(args, subcmd, specs, i) ==
            KeptArgs(args, subcmd, specs, i + if args[i] == subcmd then 1 else Span(args[i], specs))
  {
  }

  lemma AtTaken(args: seq<string>, i: nat, t: seq<nat>)
    requires i < |args| && (t == [i] || (i + 1 < |args| && t == [i, i + 1]))
    ensures InRange(t, |args|) && At(args, t) == args[i..i + |t|]
  {
  }

  lemma PickOne(args: seq<string>, specs: map<string, bool>, i: nat, next: nat)
    requires i < |args| && Recognized(args[i], specs) && next == i + |Taken(args, specs, i)|
    ensures next <= |args| && PickedArgs(args, specs, i) == args[i..next] + PickedArgs(args, specs, next)
  {
    var t := Taken(args, specs, i);
    PickedOneMore(args, specs, i, next);
    PickedAscends(args, specs, next);
    AtTaken(args, i, t);
    AtConcat(args, t, Picked(args, specs, next));
  }

  lemma PickNothing(args: seq<string>, specs: map<string, bool>, i: nat)
    requires i < |args| && !Recognized(args[i], specs)
    ensures Picked(args, specs, i) == Picked(args, specs, i + 1)
    ensures PickedArgs(args, specs, i) == PickedArgs(args, specs, i + 1)
  {
  }

  method FilterSubcmdArgs(args: seq<string>, subcmd: string, specs: map<string, bool>) returns (out: seq<string>)
    ensures out == KeptArgs(args, subcmd, specs, 0)
  {
    out := [];
    var i := 0;
    while i < |args|
      invariant 0 <= i
      invariant out + KeptArgs(args, subcmd, specs, i) == KeptArgs(args, subcmd, specs, 0)
    {
      var a := args[i];
      if a == subcmd {
        SkipOne(args, subcmd, specs, i);
        i := i + 1;
        continue;
      }
      if a != "" && a[0] == '-' {
        var name := Name(a);
        if name in specs {
          SkipOne(args, subcmd, specs, i);
          if specs[name] && !HasEq(a) {
            i := i + 1;
          }
          i := i + 1;
          continue;
        }
      }
      KeepOne(args, subcmd, specs, i);
      out := out + [a];
      i := i + 1;
    }
  }

  lemma Append(out: seq<string>, args: seq<string>, i: nat, next: nat, rest: seq<string>)
    requires i < next <= |args| && next <= i + 2
    ensures out + (args[i..next] + rest) ==
            (if next == i + 2 then out + [args[i]] + [args[i+1]] else out + [args[i]]) + rest
  {
  }

  method PickSubcmdArgs(args: seq<string>, specs: map<string, bool>) returns (out: seq<string>)
    ensures out == PickedArgs(args, specs, 0)
  {
    out := [];
    var i := 0;
    while i < |args|
      invariant 0 <= i
      invariant out + PickedArgs(args, specs, i) == PickedArgs(args, specs, 0)
    {
      var a := args[i];
      if a == "" || a[0] != '-' {
        PickNothing(args, specs, i);
        i := i + 1;
        continue;
      }
      var name := Name(a);
      if name !in specs {
        PickNothing(args, specs, i);
        i := i + 1;
        continue;
      }
      ghost var next := i + |Taken(args, specs, i)|;
      PickOne(args, specs, i, next);
      Append(out, args, i, next, PickedArgs(args, specs, next));
      out := out + [a];
      if specs[name] && !HasEq(a) && i + 1 < |args| {
        i := i + 1;
        out := out + [args[i]];
      }
      i := i + 1;
      assert i == next;
    }
  }

  // --------------------------------------------------------- complementarity

  function Hits(q: seq<nat>, j: nat): nat {
    if j in q then 1 else 0
  }

  /** Every position goes to exactly one place. */
  ghost predicate Partition(args: seq<string>, subcmd: string, specs: map<string, bool>) {
    forall j: nat | j < |args| :: Places(args, subcmd, specs, 0, j) == 1
  }

  /** Where position `j` goes when the filters start at `i`. */
  function Places(args: seq<string>, subcmd: string, specs: map<string, bool>, i: nat, j: nat): nat {
    Hits(Kept(args, subcmd, specs, i), j) + Hits(Dropped(args, subcmd, specs, i), j) + Hits(Picked(args, specs, i), j)
  }

  lemma NotLater(args: seq<string>, subcmd: string, specs: map<string, bool>, i: nat, j: nat)
    requires j < i
    ensures Places(args, subcmd, specs, i, j) == 0
  {
    KeptAscends(args, subcmd, specs, i);
    DroppedAscends(args, subcmd, specs, i);
    PickedAscends(args, specs, i);
  }

  lemma HitsConcat(a: seq<nat>, b: seq<nat>, j: nat)
    requires j !in a || j !in b
    ensures Hits(a + b, j) == Hits(a, j) + Hits(b, j)
  {
  }

  lemma SkippedByFilter(args: seq<string>, subcmd: string, specs: map<string, bool>, i: nat)
    requires i < |args| && Recognized(args[i], specs) && args[i] != subcmd
    ensures Kept(args, subcmd, specs, i) == Kept(args, subcmd, specs, i + |Taken(args, specs, i)|)
    ensures Dropped(args, subcmd, specs, i) == Dropped(args, subcmd, specs, i + |Taken(args, specs, i)|)
  {
    if Span(args[i], specs) == 2 && i + 1 >= |args| {
      assert Kept(args, subcmd, specs, i + 2) == Kept(args, subcmd, specs, i + 1) == [];
      assert Dropped(args, subcmd, specs, i + 2) == Dropped(args, subcmd, specs, i + 1) == [];
    }
  }

  lemma PlacesAtFlag(args: seq<string>, subcmd: string, specs: map<string, bool>, i: nat, j: nat)
    requires i <= j < |args| && Recognized(args[i], specs) && args[i] != subcmd
    ensures Places(args, subcmd, specs, i, j) ==
            Places(args, subcmd, specs, i + |Taken(args, specs, i)|, j) + Hits(Taken(args, specs, i), j)
  {
    var t := Taken(args, specs, i);
    var next := i + |t|;
    SkippedByFilter(args, subcmd, specs, i);
    PickedOneMore(args, specs, i, next);
    PickedAscends(args, specs, next);
    HitsConcat(t, Picked(args, specs, next), j);
  }

  lemma PlacesElsewhere(args: seq<string>, subcmd: string, specs: map<string, bool>, i: nat, j: nat)
    requires i <= j < |args| && !Recognized(args[i], specs)
    ensures Places(args, subcmd, specs, i, j) ==
            Places(args, subcmd, specs, i + 1, j) + (if i == j then 1 else 0)
  {
    PickNothing(args, specs, i);
    if args[i] == subcmd {
      DroppedAscends(args, subcmd, specs, i + 1);
      HitsConcat([i], Dropped(args, subcmd, specs, i + 1), j);
    } else {
      KeptAscends(args, subcmd, specs, i + 1);
      HitsConcat([i], Kept(args, subcmd, specs, i + 1), j);
    }
  }

  lemma HitsTaken(args: seq<string>, specs: map<string, bool>, i: nat, j: nat)
    requires i <= j && i < |args| && Recognized(args[i], specs)
    ensures Hits(Taken(args, specs, i), j) == if j < i + |Taken(args, specs, i)| then 1 else 0
  {
  }

  /** The filters' next step: `w` positions are disposed of, each in one place. */
  lemma PlacesNext(args: seq<string>, subcmd: string, specs: map<string, bool>, i: nat, j: nat) returns (w: nat)
    requires !Recognized(subcmd, specs) && i <= j < |args|
    ensures w > 0 && Places(args, subcmd, specs, i, j) ==
                     Places(args, subcmd, specs, i + w, j) + (if j < i + w then 1 else 0)
  {
    if Recognized(args[i], specs) {
      w := |Taken(args, specs, i)|;
      PlacesAtFlag(args, subcmd, specs, i, j);
      HitsTaken(args, specs, i, j);
    } else {
      w := 1;
      PlacesElsewhere(args, subcmd, specs, i, j);
    }
  }

  lemma {:induction false} SplitFrom(args: seq<string>, subcmd: string, specs: map<string, bool>, i: nat, j: nat)
    requires !Recognized(subcmd, specs) && i <= j < |args|
    ensures Places(args, subcmd, specs, i, j) == 1
    decreases |args| - i
  {
    var w := PlacesNext(args, subcmd, specs, i, j);
    if i + w <= j {
      SplitFrom(args, subcmd, specs, i + w, j);
    } else {
      NotLater(args, subcmd, specs, i + w, j);
    }
  }

  lemma NameIsAFlag(subcmd: string, specs: map<string, bool>)
    requires Recognized(subcmd, specs)
    ensures !Partition([subcmd], subcmd, specs)
  {
    var args := [subcmd];
    assert Dropped(args, subcmd, specs, 0) == [0] + Dropped(args, subcmd, specs, 1);
    PickedOneMore(args, specs, 0, 1);
    assert Hits(Dropped(args, subcmd, specs, 0), 0) == 1;
    assert Hits(Picked(args, specs, 0), 0) == 1;
    assert Places(args, subcmd, specs, 0, 0) != 1;
  }

  /** The filters are complementary for all arguments exactly when the subcommand's name is
      not itself one of its flags; a name that does not begin with '-' never is. */
  lemma FiltersAreComplementaryIff(subcmd: string, specs: map<string, bool>)
    ensures (forall args :: Partition(args, subcmd, specs)) <==> !Recognized(subcmd, specs)
  {
    if Recognized(subcmd, specs) {
      NameIsAFlag(subcmd, specs);
    } else {
      forall args ensures Partition(args, subcmd, specs) {
        forall j: nat | j < |args|
          ensures Places(args, subcmd, specs, 0, j) == 1
        {
          SplitFrom(args, subcmd, specs, 0, j);
        }
      }
    }
  }

  // ------------------------------------------------- what goes where

  /** The forms of a flag: one or two dashes, with or without a value attached. */
  lemma FlagForms(name: string, value: string, specs: map<string, bool>)
    requires '=' !in name && (name == "" || name[0] != '-')
    ensures forall a | a in {"-" + name, "--" + name} ::
              Name(a) == name && !HasEq(a) && (Recognized(a, specs) <==> name in specs)
    ensures forall a | a in {"-" + name + "=" + value, "--" + name + "=" + value} ::
              Name(a) == name && HasEq(a) && (Recognized(a, specs) <==> name in specs)
  {
    Trimmed(name);
    Trimmed(name + "=" + value);
    assert "-" + name + "=" + value == "-" + (name + "=" + value);
    assert "--" + name + "=" + value == "--" + (name + "=" + value);
    NameEnds(name, "");
    NameEnds(name, "=" + value);
    assert name + "" == name && name + ("=" + value) == name + "=" + value;
  }

  lemma Trimmed(t: string)
    requires t == "" || t[0] != '-'
    ensures TrimDashes("-" + t) == t && TrimDashes("--" + t) == t
  {
    assert ("-" + t)[1..] == t && ("--" + t)[1..] == "-" + t;
  }

  lemma NameEnds(name: string, rest: string)
    requires '=' !in name && (rest == "" || rest[0] == '=')
    ensures IndexOf(name + rest, '=') == |name| && (name + rest)[..|name|] == name
  {
    assert rest != "" ==> (name + rest)[|name|] == '=';
    assert forall i | 0 <= i < |name| :: name[i] in name;
  }

  /** What does not begin with a dash is no flag. */
  lemma NoDashNoFlag(a: string, specs: map<string, bool>)
    requires a == "" || a[0] != '-'
    ensures !Recognized(a, specs)
  {
  }

  /** The token is the value of the flag before it: that flag takes one, has none attached, and
      is not a value itself. */
  predicate ValueAt(args: seq<string>, specs: map<string, bool>, j: nat)
    requires j <= |args|
  {
    && j > 0 && !ValueAt(args, specs, j - 1)
    && Recognized(args[j-1], specs) && specs[Name(args[j-1])] && !HasEq(args[j-1])
  }

  lemma {:induction false} PickedFrom(args: seq<string>, specs: map<string, bool>, i: nat, j: nat)
    requires i <= j < |args| && !ValueAt(args, specs, i)
    ensures j in Picked(args, specs, i) <==> Recognized(args[j], specs) || ValueAt(args, specs, j)
    decreases |args| - i
  {
    if !Recognized(args[i], specs) {
      PickNothing(args, specs, i);
      PickedAscends(args, specs, i + 1);
      if j > i { PickedFrom(args, specs, i + 1, j); }
    } else {
      var t := Taken(args, specs, i);
      var next := i + |t|;
      PickedOneMore(args, specs, i, next);
      PickedAscends(args, specs, next);
      if next <= j {
        PickedFrom(args, specs, next, j);
      } else {
        assert j in t;
        assert j == i || (j == i + 1 && ValueAt(args, specs, j));
      }
    }
  }

  /** Picked for the subcommand: its flags and their values, and nothing else. */
  lemma PickedIff(args: seq<string>, specs: map<string, bool>, j: nat)
    requires j < |args|
    ensures j in Picked(args, specs, 0) <==> Recognized(args[j], specs) || ValueAt(args, specs, j)
  {
    PickedFrom(args, specs, 0, j);
  }

  lemma {:induction false} DroppedFrom(args: seq<string>, subcmd: string, specs: map<string, bool>, i: nat, j: nat)
    requires !Recognized(subcmd, specs) && i <= j < |args| && !ValueAt(args, specs, i)
    ensures j in Dropped(args, subcmd, specs, i) <==> args[j] == subcmd && !ValueAt(args, specs, j)
    decreases |args| - i
  {
    if Recognized(args[i], specs) {
      var next := i + |Taken(args, specs, i)|;
      SkippedByFilter(args, subcmd, specs, i);
      DroppedAscends(args, subcmd, specs, next);
      if next <= j {
        DroppedFrom(args, subcmd, specs, next, j);
      } else {
        assert j == i || (j == i + 1 && ValueAt(args, specs, j));
      }
    } else {
      DroppedAscends(args, subcmd, specs, i + 1);
      if i < j { DroppedFrom(args, subcmd, specs, i + 1, j); }
    }
  }

  /** Kept for the global configuration: everything but the subcommand's name, its flags and
      their values. */
  lemma KeptIff(args: seq<string>, subcmd: string, specs: map<string, bool>, j: nat)
    requires !Recognized(subcmd, specs) && j < |args|
    ensures j in Kept(args, subcmd, specs, 0) <==>
            args[j] != subcmd && !Recognized(args[j], specs) && !ValueAt(args, specs, j)
  {
    SplitFrom(args, subcmd, specs, 0, j);
    PickedFrom(args, specs, 0, j);
    DroppedFrom(args, subcmd, specs, 0, j);
  }
}
