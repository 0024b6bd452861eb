/** Printing and parsing the attributes of a CI, internal/cmdb/handler.go. */
module CsvAttrs {
  import opened Basics

  /** unicode.IsSpace. */
  predicate IsSpace(c: char) {
    || c == ' ' || ('\t' <= c <= '\r') || c == '\U{0085}' || c == '\U{00A0}' || c == '\U{1680}'
    || ('\U{2000}' <= c <= '\U{200A}') || c == '\U{2028}' || c == '\U{2029}' || c == '\U{202F}'
    || c == '\U{205F}' || c == '\U{3000}'
  }

  function TrimLeft(s: string): (r: string)
    ensures r == "" || !IsSpace(r[0])
    ensures |r| <= |s| && r == s[|s| - |r|..]
  {
    if s == "" || !IsSpace(s[0]) then s else TrimLeft(s[1..])
  }

  function TrimRight(s: string): (r: string)
    ensures r == "" || !IsSpace(r[|r|-1])
    ensures r <= s
  {
    if s == "" || !IsSpace(s[|s|-1]) then s else TrimRight(s[..|s|-1])
  }

  /** strings.TrimSpace. */
  function TrimSpace(s: string): string {
    TrimRight(TrimLeft(s))
  }

  lemma TrimSpaceTrims(s: string)
    ensures var r := TrimSpace(s);
            && (r != "" ==> !IsSpace(r[0]) && !IsSpace(r[|r|-1]))
            && (forall c | c in r :: c in s)
  {
    var l := TrimLeft(s);
    assert forall c | c in l :: c in s;
    assert forall c | c in TrimRight(l) :: c in l;
  }

  lemma NothingToTrim(s: string)
    requires s != "" && !IsSpace(s[0]) && !IsSpace(s[|s|-1])
    ensures TrimSpace(s) == s
  {
  }

  /** strings.Split on ';'. */
  function Split(s: string): (ps: seq<string>)
    ensures ps != []
  {
    if s == "" then [""]
    else
      var rest := Split(s[1..]);
      if s[0] == ';' then [""] + rest else [[s[0]] + rest[0]] + rest[1..]
  }

  function Join(ps: seq<string>): string {
    if ps == [] then "" else if |ps| == 1 then ps[0] else ps[0] + ";" + Join(ps[1..])
  }

  lemma {:induction false} SplitHasNoSemicolon(s: string)
    ensures forall p | p in Split(s) :: ';' !in p
  {
    if s != "" { SplitHasNoSemicolon(s[1..]); }
  }

  lemma {:induction false} SplitPrefixed(p: string, rest: string)
    requires ';' !in p
    ensures Split(p + ";" + rest) == [p] + Split(rest)
  {
    if p == "" {
      assert (p + ";" + rest)[1..] == rest;
    } else {
      assert p[0] in p;
      assert (p + ";" + rest)[1..] == p[1..] + ";" + rest && (p + ";" + rest)[0] == p[0];
      SplitPrefixed(p[1..], rest);
      assert [p[0]] + p[1..] == p;
    }
  }

  lemma {:induction false} SplitWhole(p: string)
    requires ';' !in p
    ensures Split(p) == [p]
  {
    if p != "" {
      assert p[0] in p;
      SplitWhole(p[1..]);
      assert [p[0]] + p[1..] == p;
    }
  }

  lemma {:induction false} SplitJoin(ps: seq<string>)
    requires ps != [] && forall p | p in ps :: ';' !in p
    ensures Split(Join(ps)) == ps
  {
    if |ps| == 1 {
      SplitWhole(ps[0]);
    } else {
      SplitJoin(ps[1..]);
      SplitPrefixed(ps[0], Join(ps[1..]));
    }
  }

  // ------------------------------------------------------- printing, parsing

  function Pairs(keys: seq<string>, m: map<string, string>): seq<string>
    requires forall k | k in keys :: k in m
  {
    seq(|keys|, i requires 0 <= i < |keys| => keys[i] + "=" + m[keys[i]])
  }

  /** `keys` lists the keys of the map, each once: an order in which Go may visit them. */
  ghost predicate Visits(keys: seq<string>, m: map<string, string>) {
    && (forall k :: k in keys <==> k in m)
    && (forall i, j | 0 <= i < j < |keys| :: keys[i] != keys[j])
  }

  method CiAttrsToCSV(attrs: map<string, string>) returns (s: string, ghost keys: seq<string>)
    ensures Visits(keys, attrs) && s == Join(Pairs(keys, attrs))
  {
    var parts: seq<string> := [];
    keys := [];
    var todo := attrs.Keys;
    while todo != {}
      invariant todo <= attrs.Keys
      invariant forall k :: k in keys <==> k in attrs.Keys - todo
      invariant forall i, j | 0 <= i < j < |keys| :: keys[i] != keys[j]
      invariant parts == Pairs(keys, attrs)
      decreases todo
    {
      var k :| k in todo;
      assert k !in keys;
      todo := todo - {k};
      parts := parts + [k + "=" + attrs[k]];
      keys := keys + [k];
    }
    s := Join(parts);
  }

  /** Storing a trimmed pair; one without '=' is skipped, the empty one too. */
  function Store(m: map<string, string>, p: string): map<string, string> {
    var i := IndexOf(p, '=');
    if i == |p| then m else m[p[..i] := p[i+1..]]
  }

  function AddPair(m: map<string, string>, pair: string): map<string, string> {
    Store(m, TrimSpace(pair))
  }

  function ParsePairs(ps: seq<string>): map<string, string> {
    if ps == [] then map[] else AddPair(ParsePairs(ps[..|ps|-1]), ps[|ps|-1])
  }

  function Parse(s: string): map<string, string> {
    if TrimSpace(s) == "" then map[] else ParsePairs(Split(TrimSpace(s)))
  }

  method CsvAttrsToMap(s: string) returns (out: map<string, string>)
    ensures out == Parse(s)
  {
    out := map[];
    var t := TrimSpace(s);
    if t == "" {
      return;
    }
    out := ReadPairs(Split(t));
  }

  method ReadPairs(ps: seq<string>) returns (out: map<string, string>)
    ensures out == ParsePairs(ps)
  {
    out := map[];
    for i := 0 to |ps|
      invariant out == ParsePairs(ps[..i])
    {
      ParseOneMore(ps, i);
      out := ReadPair(out, ps[i]);
    }
    assert ps[..|ps|] == ps;
  }

  lemma ParseOneMore(ps: seq<string>, i: nat)
    requires i < |ps|
    ensures ParsePairs(ps[..i+1]) == AddPair(ParsePairs(ps[..i]), ps[i])
  {
    assert ps[..i+1][..i] == ps[..i];
  }

  method ReadPair(m: map<string, string>, raw: string) returns (out: map<string, string>)
    ensures out == AddPair(m, raw)
  {
    out := m;
    var pair := TrimSpace(raw);
    if pair == "" {
      return;
    }
    var idx := IndexOf(pair, '=');
    if idx == |pair| {
      return;
    }
    out := out[pair[..idx] := pair[idx+1..]];
  }

  // ------------------------------------------------------------- round trip

  predicate CleanKey(k: string) {
    ';' !in k && '=' !in k && (k == "" || !IsSpace(k[0]))
  }

  /** A value may contain '='. */
  predicate CleanValue(v: string) {
    ';' !in v && (v == "" || !IsSpace(v[|v|-1]))
  }

  ghost predicate Clean(m: map<string, string>) {
    forall k | k in m :: CleanKey(k) && CleanValue(m[k])
  }

  lemma StoreIsClean(m: map<string, string>, p: string)
    requires Clean(m) && ';' !in p && (p != "" ==> !IsSpace(p[0]) && !IsSpace(p[|p|-1]))
    ensures Clean(Store(m, p))
  {
    var i := IndexOf(p, '=');
    if i < |p| {
      assert forall c | c in p[..i] :: c in p;
      assert forall c | c in p[i+1..] :: c in p;
      assert CleanKey(p[..i]) && CleanValue(p[i+1..]);
    }
  }

  lemma AddPairIsClean(m: map<string, string>, pair: string)
    requires Clean(m) && ';' !in pair
    ensures Clean(AddPair(m, pair))
  {
    TrimSpaceTrims(pair);
    StoreIsClean(m, TrimSpace(pair));
  }

  lemma {:induction false} ParsePairsIsClean(ps: seq<string>)
    requires forall p | p in ps :: ';' !in p
    ensures Clean(ParsePairs(ps))
  {
    if ps != [] {
      ParsePairsIsClean(ps[..|ps|-1]);
      AddPairIsClean(ParsePairs(ps[..|ps|-1]), ps[|ps|-1]);
    }
  }

  lemma ParseIsClean(s: string)
    ensures Clean(Parse(s))
  {
    SplitHasNoSemicolon(TrimSpace(s));
    if TrimSpace(s) != "" { ParsePairsIsClean(Split(TrimSpace(s))); }
  }

  /** The first '=' is the one between key and value. */
  lemma {:induction false} IndexInPair(k: string, v: string)
    requires '=' !in k
    ensures IndexOf(k + "=" + v, '=') == |k|
  {
    var p := k + "=" + v;
    if k != "" {
      assert k[0] in k && p[0] == k[0] && p[1..] == k[1..] + "=" + v;
      IndexInPair(k[1..], v);
    }
  }

  lemma PairIsTrimmed(k: string, v: string)
    requires CleanKey(k) && CleanValue(v)
    ensures TrimSpace(k + "=" + v) == k + "=" + v
  {
    var p := k + "=" + v;
    assert p[0] == if k == "" then '=' else k[0];
    assert p[|p|-1] == if v == "" then '=' else v[|v|-1];
    NothingToTrim(p);
  }

  lemma PairIsReadBack(m: map<string, string>, k: string, v: string)
    requires CleanKey(k) && CleanValue(v)
    ensures AddPair(m, k + "=" + v) == m[k := v]
  {
    PairIsTrimmed(k, v);
    StoreReadsBack(m, k, v);
  }

  lemma StoreReadsBack(m: map<string, string>, k: string, v: string)
    requires '=' !in k
    ensures Store(m, k + "=" + v) == m[k := v]
  {
    var p := k + "=" + v;
    IndexInPair(k, v);
    assert p[..|k|] == k && p[|k|+1..] == v;
  }

  /** The entries of `m` for `keys`, written one after the other. */
  function Written(keys: seq<string>, m: map<string, string>): map<string, string>
    requires forall k | k in keys :: k in m
  {
    if keys == [] then map[] else Written(keys[..|keys|-1], m)[keys[|keys|-1] := m[keys[|keys|-1]]]
  }

  lemma {:induction false} WrittenEntries(keys: seq<string>, m: map<string, string>)
    requires forall k | k in keys :: k in m
    ensures forall k :: k in Written(keys, m) <==> k in keys
    ensures forall k | k in keys :: Written(keys, m)[k] == m[k]
  {
    if keys != [] {
      WrittenEntries(keys[..|keys|-1], m);
      assert keys == keys[..|keys|-1] + [keys[|keys|-1]];
    }
  }

  lemma ReadOneMore(ps: seq<string>, k: string, v: string)
    requires CleanKey(k) && CleanValue(v)
    ensures ParsePairs(ps + [k + "=" + v]) == ParsePairs(ps)[k := v]
  {
    var more := ps + [k + "=" + v];
    assert more[..|more|-1] == ps && more[|more|-1] == k + "=" + v;
    PairIsReadBack(ParsePairs(ps), k, v);
  }

  lemma PairsOneMore(keys: seq<string>, m: map<string, string>)
    requires keys != [] && forall x | x in keys :: x in m
    ensures var init, last := keys[..|keys|-1], keys[|keys|-1];
            Pairs(keys, m) == Pairs(init, m) + [last + "=" + m[last]]
  {
  }

  lemma {:induction false} PairsAreReadBack(keys: seq<string>, m: map<string, string>)
    requires forall k | k in keys :: k in m && CleanKey(k) && CleanValue(m[k])
    ensures ParsePairs(Pairs(keys, m)) == Written(keys, m)
  {
    if keys != [] {
      var init, last := keys[..|keys|-1], keys[|keys|-1];
      assert last in keys;
      PairsAreReadBack(init, m);
      PairsOneMore(keys, m);
      ReadOneMore(Pairs(init, m), last, m[last]);
    }
  }

  lemma {:induction false} JoinEnds(ps: seq<string>)
    requires ps != [] && forall i | 0 <= i < |ps| :: ps[i] != ""
    ensures var s, q := Join(ps), ps[|ps|-1]; s != "" && s[0] == ps[0][0] && s[|s|-1] == q[|q|-1]
  {
    if |ps| > 1 {
      var rest := Join(ps[1..]);
      JoinEnds(ps[1..]);
      assert Join(ps) == ps[0] + ";" + rest;
    }
  }

  lemma PrintedIsTrimmed(keys: seq<string>, m: map<string, string>)
    requires Clean(m) && keys != [] && forall k | k in keys :: k in m
    ensures TrimSpace(Join(Pairs(keys, m))) == Join(Pairs(keys, m)) != ""
    ensures forall p | p in Pairs(keys, m) :: ';' !in p
  {
    var ps := Pairs(keys, m);
    forall i | 0 <= i < |ps| ensures ps[i] != "" && ';' !in ps[i] {
      var k := keys[i];
      assert k in m && CleanKey(k) && CleanValue(m[k]);
    }
    JoinEnds(ps);
    var first, last := keys[0], keys[|keys|-1];
    assert CleanKey(first) && CleanValue(m[last]);
    assert ps[0][0] == if first == "" then '=' else first[0];
    var q := ps[|ps|-1];
    assert q[|q|-1] == if m[last] == "" then '=' else m[last][|m[last]|-1];
    NothingToTrim(Join(ps));
  }

  lemma PrintedIsReadBack(keys: seq<string>, m: map<string, string>)
    requires Visits(keys, m) && Clean(m)
    ensures Parse(Join(Pairs(keys, m))) == m
  {
    if keys == [] {
      NothingPrinted(m);
    } else {
      var ps := Pairs(keys, m);
      PrintedIsTrimmed(keys, m);
      SplitJoin(ps);
      ParseTrimmed(Join(ps));
      assert forall k | k in keys :: k in m && CleanKey(k) && CleanValue(m[k]);
      PairsAreReadBack(keys, m);
      WrittenIsAll(keys, m);
    }
  }

  lemma NothingPrinted(m: map<string, string>)
    requires Visits([], m)
    ensures m == map[] && Parse(Join(Pairs([], m))) == map[]
  {
    assert forall k :: k !in m;
    assert Join(Pairs([], m)) == "";
  }

  lemma ParseTrimmed(s: string)
    requires TrimSpace(s) == s != ""
    ensures Parse(s) == ParsePairs(Split(s))
  {
  }

  lemma WrittenIsAll(keys: seq<string>, m: map<string, string>)
    requires Visits(keys, m)
    ensures Written(keys, m) == m
  {
    WrittenEntries(keys, m);
  }

  /** For any order of the keys, parsing what was printed gives the attributes back exactly
      when no key contains ';' or '=' or begins with a space and no value contains ';' or ends
      with a space. */
  lemma RoundTripIff(m: map<string, string>, keys: seq<string>)
    requires Visits(keys, m)
    ensures Parse(Join(Pairs(keys, m))) == m <==> Clean(m)
  {
    var s := Join(Pairs(keys, m));
    ParseIsClean(s);
    if Clean(m) {
      PrintedIsReadBack(keys, m);
    }
  }

  // ------------------------------------------------------ what is parsed

  predicate AllSpaces(s: string) {
    forall i | 0 <= i < |s| :: IsSpace(s[i])
  }

  /** Trimming cuts off spaces at both ends and nothing else. */
  lemma TrimParts(s: string) returns (a: string, b: string)
    ensures s == a + TrimSpace(s) + b && AllSpaces(a) && AllSpaces(b)
    ensures var r := TrimSpace(s); r != "" ==> !IsSpace(r[0]) && !IsSpace(r[|r|-1])
  {
    a := LeftPart(s);
    b := RightPart(TrimLeft(s));
    Outside(a, TrimSpace(s), b, TrimLeft(s), s);
    TrimSpaceTrims(s);
  }

  lemma Outside(a: string, r: string, b: string, t: string, s: string)
    requires s == a + t && t == r + b
    ensures s == a + r + b
  {
  }

  lemma LeftPart(s: string) returns (a: string)
    ensures s == a + TrimLeft(s) && AllSpaces(a)
  {
    a := s[..|s| - |TrimLeft(s)|];
    LeftSpaces(s);
  }

  lemma RightPart(s: string) returns (b: string)
    ensures s == TrimRight(s) + b && AllSpaces(b)
  {
    b := s[|TrimRight(s)|..];
    RightSpaces(s);
  }

  lemma {:induction false} LeftSpaces(s: string)
    ensures forall i | 0 <= i < |s| - |TrimLeft(s)| :: IsSpace(s[i])
  {
    if s != "" && IsSpace(s[0]) {
      var rest := s[1..];
      LeftSpaces(rest);
      forall i | 0 < i < |s| - |TrimLeft(s)| ensures IsSpace(s[i]) {
        assert rest[i-1] == s[i];
      }
    }
  }

  lemma {:induction false} RightSpaces(s: string)
    ensures forall i | |TrimRight(s)| <= i < |s| :: IsSpace(s[i])
  {
    if s != "" && IsSpace(s[|s|-1]) { RightSpaces(s[..|s|-1]); }
  }

  /** Splitting loses nothing but the semicolons. */
  lemma {:induction false} JoinSplit(s: string)
    ensures Join(Split(s)) == s
  {
    if s != "" {
      var rest := Split(s[1..]);
      JoinSplit(s[1..]);
      if s[0] == ';' {
        assert ([""] + rest)[1..] == rest;
        assert "" + ";" + Join(rest) == [s[0]] + s[1..];
      } else {
        JoinFirst(s[0], rest);
      }
    }
  }

  lemma JoinFirst(c: char, ps: seq<string>)
    requires ps != []
    ensures Join([[c] + ps[0]] + ps[1..]) == [c] + Join(ps)
  {
    var qs := [[c] + ps[0]] + ps[1..];
    assert qs[1..] == ps[1..];
    if |ps| > 1 {
      assert [c] + ps[0] + ";" + Join(ps[1..]) == [c] + (ps[0] + ";" + Join(ps[1..]));
    }
  }

  /** The piece says that `k` is `v`: it is "k=v", spaces around it aside, and `k` ends at the
      first '='. */
  ghost predicate Says(piece: string, k: string, v: string) {
    '=' !in k && TrimSpace(piece) == k + "=" + v
  }

  /** The piece says something about `k`. */
  ghost predicate About(piece: string, k: string) {
    '=' !in k && k + "=" <= TrimSpace(piece)
  }

  lemma AboutIffSays(piece: string, k: string)
    ensures About(piece, k) <==> exists v :: Says(piece, k, v)
  {
    if About(piece, k) {
      var p := TrimSpace(piece);
      assert p == k + "=" + p[|k|+1..];
      assert Says(piece, k, p[|k|+1..]);
    }
    if v :| Says(piece, k, v) {
      assert k + "=" <= k + "=" + v;
    }
  }

  /** The last piece that is `about` something is one that `says` it. */
  ghost predicate LastThat(ps: seq<string>, says: string -> bool, about: string -> bool) {
    exists i: nat :: i < |ps| && says(ps[i]) && forall j | i < j < |ps| :: !about(ps[j])
  }

  ghost function Saying(k: string, v: string): string -> bool {
    piece => Says(piece, k, v)
  }

  ghost function Concerning(k: string): string -> bool {
    piece => About(piece, k)
  }

  /** The last piece about `k` says that it is `v`. */
  ghost predicate LastSays(ps: seq<string>, k: string, v: string) {
    LastThat(ps, Saying(k, v), Concerning(k))
  }

  lemma StoreSays(m: map<string, string>, p: string, k: string, v: string)
    ensures (k in Store(m, p) && Store(m, p)[k] == v) <==>
            ('=' !in k && p == k + "=" + v) ||
            (k in m && m[k] == v && !('=' !in k && k + "=" <= p))
  {
    if '=' !in k && k + "=" <= p {
      var rest := p[|k|+1..];
      assert p == k + "=" + rest;
      StoreReadsBack(m, k, rest);
      assert (k + "=" + v)[|k|+1..] == v;
    } else {
      StoreOtherKey(m, p, k);
      assert k + "=" <= k + "=" + v;
    }
  }

  lemma StoreOtherKey(m: map<string, string>, p: string, k: string)
    requires !('=' !in k && k + "=" <= p)
    ensures k in Store(m, p) <==> k in m
    ensures k in m ==> Store(m, p)[k] == m[k]
  {
    var i := IndexOf(p, '=');
    if i < |p| {
      assert p == p[..i] + "=" + p[i+1..];
      assert p[..i] + "=" <= p;
    }
  }

  lemma LastThatOneMore(init: seq<string>, last: string, says: string -> bool, about: string -> bool)
    ensures LastThat(init + [last], says, about) <==> says(last) || (LastThat(init, says, about) && !about(last))
  {
    var ps, n := init + [last], |init|;
    if says(last) {
      assert says(ps[n]);
    } else if LastThat(init, says, about) && !about(last) {
      var i: nat :| i < n && says(init[i]) && forall j | i < j < n :: !about(init[j]);
      assert says(ps[i]) && forall j | i < j < n :: ps[j] == init[j];
    }
    if i: nat :| i < |ps| && says(ps[i]) && forall j | i < j < |ps| :: !about(ps[j]) {
      if i < n {
        assert says(init[i]) && !about(ps[n]);
        assert forall j | i < j < n :: init[j] == ps[j];
      }
    }
  }

  /** The parsed map holds exactly what the last piece about a key says of it; pieces that say
      nothing are skipped. */
  lemma {:induction false} ParsedIff(ps: seq<string>, k: string, v: string)
    ensures (k in ParsePairs(ps) && ParsePairs(ps)[k] == v) <==> LastSays(ps, k, v)
  {
    if ps != [] {
      var init, last := ps[..|ps|-1], ps[|ps|-1];
      assert ps == init + [last];
      ParsedIff(init, k, v);
      StoreSays(ParsePairs(init), TrimSpace(last), k, v);
      LastThatOneMore(init, last, Saying(k, v), Concerning(k));
    }
  }

  /** What parsing a text yields, for every key and value. */
  lemma ParseMeaning(s: string, k: string, v: string)
    ensures (k in Parse(s) && Parse(s)[k] == v) <==> LastSays(Split(TrimSpace(s)), k, v)
  {
    ParsedIff(Split(TrimSpace(s)), k, v);
    if TrimSpace(s) == "" {
      assert Split("") == [""] && TrimSpace("") == "";
    }
  }
}
