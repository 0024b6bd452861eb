/** Query normalisation, the searchable fields of a CI and the single scorer
    `matchCI` of internal/cmdb/search.go. */
module CmdbSearch {
  import opened Basics
  import opened Text
  import opened Sorting
  import opened Fulltext

  /** One configuration item. `attrs` is None for Go's nil map; times are integers. */
  datatype CiItem = CiItem(
    id: string, ciType: string, tenantID: string, name: string, status: string, approvalStatus: string,
    attrs: Option<map<string, string>>, source: string, agentID: string, deviceID: string,
    version: int, createdAt: int, updatedAt: int)

  datatype Mode = All | Any | Phrase
  datatype Query = Query(query: string, ciType: string, status: string, limit: int, mode: string)
  datatype Field = Field(weight: real, tokens: seq<string>)
  datatype Hit = Hit(item: CiItem, score: real, matched: seq<string>)

  const DEFAULT_LIMIT := 50
  const MAX_LIMIT := 500

  // -------------------------------------------------------- normalisation

  /** `s` without repetitions, each element at its first position. */
  function Dedupe(s: seq<string>): seq<string> {
    if s == [] then []
    else
      var init, last := s[..|s|-1], s[|s|-1];
      if last in init then Dedupe(init) else Dedupe(init) + [last]
  }

  lemma {:induction false} DedupeKeepsElements(s: seq<string>)
    ensures forall x :: x in Dedupe(s) <==> x in s
  {
    if s != [] {
      DedupeKeepsElements(s[..|s|-1]);
      assert s == s[..|s|-1] + [s[|s|-1]];
    }
  }

  lemma {:induction false} DedupeIsDistinct(s: seq<string>)
    ensures Distinct(Dedupe(s))
  {
    if s != [] {
      DedupeIsDistinct(s[..|s|-1]);
      DedupeKeepsElements(s[..|s|-1]);
    }
  }

  /** Deduplication shortens exactly the lists that repeat something. */
  lemma {:induction false} DedupeShortens(s: seq<string>)
    ensures Distinct(s) ==> Dedupe(s) == s
    ensures !Distinct(s) ==> |Dedupe(s)| < |s|
  {
    if s != [] {
      var init, last := s[..|s|-1], s[|s|-1];
      DedupeShortens(init);
      assert s == init + [last];
      if last in init {
        var i :| 0 <= i < |init| && init[i] == last;
        assert s[i] == s[|s|-1];
      } else if !Distinct(s) {
        var i, j :| 0 <= i < j < |s| && s[i] == s[j];
        assert s[i] == init[i];
        assert !Distinct(init);
      }
    }
  }

  method DedupeStrings(xs: seq<string>) returns (out: seq<string>)
    ensures out == Dedupe(xs)
  {
    out := [];
    var seen: set<string> := {};
    for i := 0 to |xs|
      invariant out == Dedupe(xs[..i])
      invariant forall x :: x in seen <==> x in xs[..i]
    {
      assert xs[..i+1][..i] == xs[..i];
      if xs[i] !in seen {
        seen := seen + {xs[i]};
        out := out + [xs[i]];
      }
    }
    assert xs[..|xs|] == xs;
  }

  function QueryTokens(q: Query): seq<string> {
    Dedupe(TokensOf(q.query))
  }

  /** An unknown mode name means All. */
  function ModeOf(q: Query): Mode {
    if q.mode == "any" then Any else if q.mode == "phrase" then Phrase else All
  }

  function LimitOf(q: Query): (n: int)
    ensures 1 <= n <= MAX_LIMIT
  {
    if q.limit <= 0 then DEFAULT_LIMIT else if q.limit > MAX_LIMIT then MAX_LIMIT else q.limit
  }

  function StatusOf(q: Query): string {
    if q.status == "" then "active" else q.status
  }

  method NormalizeCiSearch(q: Query) returns (tokens: seq<string>, mode: Mode, limit: int, status: string)
    ensures tokens == QueryTokens(q) && mode == ModeOf(q) && limit == LimitOf(q) && status == StatusOf(q)
  {
    var raw := Tokenize(q.query);
    tokens := DedupeStrings(raw);
    mode, limit, status := ModeOf(q), LimitOf(q), StatusOf(q);
  }

  // --------------------------------------------------------------- fields

  function AttrMap(it: CiItem): map<string, string> {
    if it.attrs.Some? then it.attrs.value else map[]
  }

  /** The attribute text fed to the tokenizer: every key and value followed by a space. */
  function AttrText(keys: seq<string>, m: map<string, string>): string
    requires forall k | k in keys :: k in m
  {
    if keys == [] then "" else keys[0] + " " + m[keys[0]] + " " + AttrText(keys[1..], m)
  }

  function AttrParts(keys: seq<string>, m: map<string, string>): seq<string>
    requires forall k | k in keys :: k in m
  {
    if keys == [] then [] else [keys[0], m[keys[0]]] + AttrParts(keys[1..], m)
  }

  function IdentParts(it: CiItem): seq<string> {
    [it.id, it.agentID, it.deviceID, it.source]
  }

  ghost function Fields(it: CiItem): seq<Field> {
    var m := AttrMap(it);
    [Field(3.0, TokensOf(it.name)),
     Field(1.5, TokensOf(it.ciType)),
     Field(2.0, TokensOf(AttrText(SortedTerms(m.Keys), m))),
     Field(1.0, TokensOf(JoinSpace(IdentParts(it))))]
  }

  ghost function SearchParts(it: CiItem): seq<string> {
    var m := AttrMap(it);
    [it.name, it.ciType] + AttrParts(SortedTerms(m.Keys), m) + IdentParts(it)
  }

  /** The whole text of the item, as it is put into the inverted index. */
  ghost function SearchText(it: CiItem): string {
    JoinSpace(SearchParts(it))
  }

  method SortedAttrKeys(m: map<string, string>) returns (keys: seq<string>)
    ensures keys == SortedTerms(m.Keys)
  {
    var xs: seq<string> := [];
    var todo := m.Keys;
    while todo != {}
      invariant todo <= m.Keys
      invariant forall k :: k in xs <==> k in m.Keys - todo
      invariant Distinct(xs)
      decreases todo
    {
      var k :| k in todo;
      assert k !in xs;
      todo := todo - {k};
      xs := xs + [k];
    }
    LessIsStrictTotal(m.Keys);
    keys := Sort(Less, xs, m.Keys);
  }

  lemma AttrTextStep(before: string, keys: seq<string>, m: map<string, string>, i: nat)
    requires i < |keys| && forall k | k in keys :: k in m
    ensures before + AttrText(keys[i..], m)
         == before + (keys[i] + " " + m[keys[i]] + " ") + AttrText(keys[i+1..], m)
  {
    var rest := AttrText(keys[i+1..], m);
    assert keys[i..][1..] == keys[i+1..];
    assert before + (keys[i] + " " + m[keys[i]] + " " + rest) == before + (keys[i] + " " + m[keys[i]] + " ") + rest;
  }

  method AttrTextOf(m: map<string, string>) returns (attrText: string)
    ensures attrText == AttrText(SortedTerms(m.Keys), m)
  {
    var keys := SortedAttrKeys(m);
    attrText := "";
    for i := 0 to |keys|
      invariant attrText + AttrText(keys[i..], m) == AttrText(keys, m)
    {
      AttrTextStep(attrText, keys, m, i);
      attrText := attrText + (keys[i] + " " + m[keys[i]] + " ");
    }
    assert keys[|keys|..] == [];
    assert attrText + "" == attrText;
  }

  method CiSearchFields(it: CiItem) returns (fields: seq<Field>)
    ensures fields == Fields(it)
  {
    var name := Tokenize(it.name);
    var ciType := Tokenize(it.ciType);
    var attrText := AttrTextOf(AttrMap(it));
    var attrs := Tokenize(attrText);
    var ident := Tokenize(JoinSpace(IdentParts(it)));
    fields := [Field(3.0, name), Field(1.5, ciType), Field(2.0, attrs), Field(1.0, ident)];
  }

  method CiSearchText(it: CiItem) returns (text: string)
    ensures text == SearchText(it)
  {
    var m := AttrMap(it);
    var keys := SortedAttrKeys(m);
    var parts := [it.name, it.ciType];
    for i := 0 to |keys|
      invariant parts + AttrParts(keys[i..], m) == [it.name, it.ciType] + AttrParts(keys, m)
    {
      assert keys[i..][1..] == keys[i+1..];
      ghost var before, rest := parts, AttrParts(keys[i+1..], m);
      parts := parts + [keys[i], m[keys[i]]];
      assert parts + rest == before + ([keys[i], m[keys[i]]] + rest);
    }
    assert keys[|keys|..] == [];
    assert parts + [] == parts;
    parts := parts + IdentParts(it);
    text := JoinSpace(parts);
  }

  lemma {:induction false} AttrTextTokens(keys: seq<string>, m: map<string, string>)
    requires forall k | k in keys :: k in m
    ensures TokensOf(AttrText(keys, m)) == TokensOfAll(AttrParts(keys, m))
  {
    if keys != [] {
      var k, v, rest := keys[0], m[keys[0]], AttrText(keys[1..], m);
      AttrTextTokens(keys[1..], m);
      assert AttrText(keys, m) == k + " " + (v + " " + rest);
      TokensAcrossSpace(k, v + " " + rest);
      TokensAcrossSpace(v, rest);
      TokensOfAllConcat([k, v], AttrParts(keys[1..], m));
      TokensOfAllTwo(k, v);
    }
  }

  lemma TokensOfAllTwo(a: string, b: string)
    ensures TokensOfAll([a, b]) == TokensOf(a) + TokensOf(b)
  {
    assert [a, b][1..] == [b] && [b][1..] == [];
    assert TokensOfAll([b]) == TokensOf(b) + [];
  }

  /** The equation the index relies on: tokenizing the whole text gives the tokens
      of the fields, one field after the other. */
  lemma SearchTextTokens(it: CiItem)
    ensures var f := Fields(it);
            TokensOf(SearchText(it)) == f[0].tokens + f[1].tokens + f[2].tokens + f[3].tokens
  {
    var m := AttrMap(it);
    var attrs := AttrParts(SortedTerms(m.Keys), m);
    TokensOfJoin(SearchParts(it));
    TokensOfAllConcat([it.name, it.ciType] + attrs, IdentParts(it));
    TokensOfAllConcat([it.name, it.ciType], attrs);
    TokensOfAllTwo(it.name, it.ciType);
    AttrTextTokens(SortedTerms(m.Keys), m);
    TokensOfJoin(IdentParts(it));
  }

  // --------------------------------------------------------------- scorer

  /** All the scorer needs of log10: it is never negative from 1 on. */
  ghost predicate LogLike(log10: nat -> real) {
    forall n: nat | 1 <= n :: log10(n) >= 0.0
  }

  /** How many tokens of a field start with `tok`. */
  function Tf(ts: seq<string>, tok: string): nat {
    if ts == [] then 0
    else Tf(ts[..|ts|-1], tok) + (if tok <= ts[|ts|-1] then 1 else 0)
  }

  function FieldScore(log10: nat -> real, f: Field, tok: string): real {
    var tf := Tf(f.tokens, tok);
    if tf == 0 then 0.0 else f.weight * (1.0 + log10(tf))
  }

  /** The contribution of `tok`: its best field. */
  function Best(log10: nat -> real, fields: seq<Field>, tok: string): real {
    if fields == [] then 0.0
    else
      var b := Best(log10, fields[..|fields|-1], tok);
      var w := FieldScore(log10, fields[|fields|-1], tok);
      if w > b then w else b
  }

  function Matched(log10: nat -> real, fields: seq<Field>, tokens: seq<string>): seq<string> {
    if tokens == [] then []
    else
      var init, last := tokens[..|tokens|-1], tokens[|tokens|-1];
      Matched(log10, fields, init) + (if Best(log10, fields, last) > 0.0 then [last] else [])
  }

  function Total(log10: nat -> real, fields: seq<Field>, tokens: seq<string>): real {
    if tokens == [] then 0.0
    else
      var init, last := tokens[..|tokens|-1], tokens[|tokens|-1];
      Total(log10, fields, init) + Best(log10, fields, last)
  }

  ghost predicate PhraseAt(ts: seq<string>, tokens: seq<string>, i: nat) {
    i + |tokens| <= |ts| && forall j | 0 <= j < |tokens| :: tokens[j] <= ts[i + j]
  }

  ghost predicate PhraseIn(ts: seq<string>, tokens: seq<string>) {
    exists i: nat :: PhraseAt(ts, tokens, i)
  }

  ghost predicate HasPhrase(fields: seq<Field>, tokens: seq<string>) {
    exists f :: f in fields && PhraseIn(f.tokens, tokens)
  }

  /** The share of query tokens that matched, the weight of an `any` hit. */
  function Coverage(matched: seq<string>, tokens: seq<string>): real
    requires tokens != []
  {
    |matched| as real / |tokens| as real
  }

  /** A score weighted by coverage. */
  function Covered(score: real, matched: seq<string>, tokens: seq<string>): real
    requires tokens != []
  {
    score * Coverage(matched, tokens)
  }

  /** What `matchCI` returns. */
  ghost function Match(log10: nat -> real, it: CiItem, tokens: seq<string>, mode: Mode): (real, seq<string>) {
    var fields := Fields(it);
    var matched := Matched(log10, fields, tokens);
    var score := Total(log10, fields, tokens);
    if |tokens| == 0 then (0.0, [])
    else match mode
      case Any =>
        if |matched| == 0 then (0.0, []) else (Covered(score, matched, tokens), matched)
      case Phrase =>
        if |matched| != |tokens| || !HasPhrase(fields, tokens) then (0.0, []) else (score, matched)
      case All =>
        if |matched| != |tokens| then (0.0, []) else (score, matched)
  }

  method CiHasPhrase(fields: seq<Field>, tokens: seq<string>) returns (found: bool)
    ensures found <==> HasPhrase(fields, tokens)
  {
    for k := 0 to |fields|
      invariant forall f | f in fields[..k] :: !PhraseIn(f.tokens, tokens)
    {
      var f := fields[k];
      assert fields[..k+1] == fields[..k] + [f];
      var i := 0;
      while i + |tokens| <= |f.tokens|
        invariant 0 <= i
        invariant forall i': nat | i' < i :: !PhraseAt(f.tokens, tokens, i')
      {
        var ok := true;
        for j := 0 to |tokens|
          invariant ok
          invariant forall j' | 0 <= j' < j :: tokens[j'] <= f.tokens[i + j']
        {
          if !(tokens[j] <= f.tokens[i + j]) {
            ok := false;
            break;
          }
        }
        if ok {
          assert PhraseAt(f.tokens, tokens, i);
          return true;
        }
        assert !PhraseAt(f.tokens, tokens, i);
        i := i + 1;
      }
    }
    assert fields[..|fields|] == fields;
    return false;
  }

  method CountPrefixed(ts: seq<string>, tok: string) returns (tf: nat)
    ensures tf == Tf(ts, tok)
  {
    tf := 0;
    for d := 0 to |ts|
      invariant tf == Tf(ts[..d], tok)
    {
      assert ts[..d+1][..d] == ts[..d];
      if tok <= ts[d] {
        tf := tf + 1;
      }
    }
    assert ts[..|ts|] == ts;
  }

  /** A field that mentions the token `n` times contributes this much. */
  ghost predicate Contributes(log10: nat -> real, f: Field, tok: string, w: real) {
    var n := Tf(f.tokens, tok);
    n > 0 && w == f.weight * (1.0 + log10(n))
  }

  /** No field contributes more, and one contributes this much, or none contributes more than
      nothing. */
  ghost predicate IsBest(log10: nat -> real, fields: seq<Field>, tok: string, best: real) {
    && (forall f, w | f in fields && Contributes(log10, f, tok, w) :: w <= best)
    && (best > 0.0 ==> exists f :: f in fields && Contributes(log10, f, tok, best))
    && best >= 0.0
  }

  lemma {:induction false} BestIsBest(log10: nat -> real, fields: seq<Field>, tok: string)
    ensures IsBest(log10, fields, tok, Best(log10, fields, tok))
  {
    if fields != [] {
      var init, last := fields[..|fields|-1], fields[|fields|-1];
      assert fields == init + [last] && last in fields;
      BestIsBest(log10, init, tok);
      var b := Best(log10, init, tok);
      if b > 0.0 {
        var f :| f in init && Contributes(log10, f, tok, b);
        assert f in fields;
      }
      forall f, w | f in fields && Contributes(log10, f, tok, w) ensures w <= Best(log10, fields, tok) {
        assert f in init || f == last;
      }
    }
  }

  /** The greatest contribution of a field. */
  method BestField(log10: nat -> real, fields: seq<Field>, tok: string) returns (best: real)
    ensures best == Best(log10, fields, tok)
    ensures IsBest(log10, fields, tok, best)
  {
    BestIsBest(log10, fields, tok);
    best := 0.0;
    for k := 0 to |fields|
      invariant best == Best(log10, fields[..k], tok) && best >= 0.0
    {
      var f := fields[k];
      assert fields[..k+1][..k] == fields[..k];
      var tf := CountPrefixed(f.tokens, tok);
      if tf == 0 {
        continue;
      }
      var w := f.weight * (1.0 + log10(tf));
      if w > best {
        best := w;
      }
    }
    assert fields[..|fields|] == fields;
  }

  method ScoreTokens(log10: nat -> real, fields: seq<Field>, tokens: seq<string>)
    returns (score: real, matched: seq<string>)
    ensures score == Total(log10, fields, tokens) && matched == Matched(log10, fields, tokens)
  {
    matched := [];
    score := 0.0;
    for n := 0 to |tokens|
      invariant matched == Matched(log10, fields, tokens[..n])
      invariant score == Total(log10, fields, tokens[..n])
    {
      var best := BestField(log10, fields, tokens[n]);
      BestNotNegative(log10, fields, tokens[n]);
      assert tokens[..n+1][..n] == tokens[..n];
      if best > 0.0 {
        matched := matched + [tokens[n]];
        score := score + best;
      }
    }
    assert tokens[..|tokens|] == tokens;
  }

  lemma {:induction false} BestNotNegative(log10: nat -> real, fields: seq<Field>, tok: string)
    ensures Best(log10, fields, tok) >= 0.0
  {
    if fields != [] { BestNotNegative(log10, fields[..|fields|-1], tok); }
  }

  method MatchCI(log10: nat -> real, it: CiItem, tokens: seq<string>, mode: Mode)
    returns (score: real, matched: seq<string>)
    ensures score == Match(log10, it, tokens, mode).0 && matched == Match(log10, it, tokens, mode).1
  {
    if |tokens| == 0 {
      return 0.0, [];
    }
    var fields := CiSearchFields(it);
    score, matched := ScoreTokens(log10, fields, tokens);
    match mode {
      case Any =>
        if |matched| == 0 {
          return 0.0, [];
        }
        score := score * Coverage(matched, tokens);
      case Phrase =>
        var phrase := CiHasPhrase(fields, tokens);
        if |matched| != |tokens| || !phrase {
          return 0.0, [];
        }
      case All =>
        if |matched| != |tokens| {
          return 0.0, [];
        }
    }
  }

  // ------------------------------------------- what a positive score means

  /** Some token of the field starts with `tok`. */
  ghost predicate Mentions(ts: seq<string>, tok: string) {
    exists t :: t in ts && tok <= t
  }

  ghost predicate ItemMentions(it: CiItem, tok: string) {
    exists f :: f in Fields(it) && Mentions(f.tokens, tok)
  }

  /** The documented meaning of the three modes, without any score. */
  ghost predicate IsHit(it: CiItem, tokens: seq<string>, mode: Mode) {
    tokens != [] &&
    match mode
    case All => forall tok | tok in tokens :: ItemMentions(it, tok)
    case Any => exists tok :: tok in tokens && ItemMentions(it, tok)
    case Phrase => HasPhrase(Fields(it), tokens)
  }

  /** The term frequency is the number of positions that begin with the token. */
  lemma {:induction false} TfCounts(ts: seq<string>, tok: string)
    ensures Tf(ts, tok) == |set i | 0 <= i < |ts| && tok <= ts[i]|
  {
    if ts != [] {
      var n := |ts| - 1;
      TfCounts(ts[..n], tok);
      var before := set i | 0 <= i < n && tok <= ts[..n][i];
      assert (set i | 0 <= i < |ts| && tok <= ts[i]) == before + (if tok <= ts[n] then {n} else {});
    }
  }

  lemma {:induction false} TfPositive(ts: seq<string>, tok: string)
    ensures Tf(ts, tok) > 0 <==> Mentions(ts, tok)
  {
    if ts != [] {
      var init, last := ts[..|ts|-1], ts[|ts|-1];
      assert ts == init + [last];
      TfPositive(init, tok);
      if Mentions(ts, tok) && !(tok <= last) {
        var t :| t in ts && tok <= t;
        assert t in init;
      }
      if Mentions(init, tok) {
        var t :| t in init && tok <= t;
        assert t in ts;
      }
      assert last in ts;
    }
  }

  lemma {:induction false} BestPositive(log10: nat -> real, fields: seq<Field>, tok: string)
    requires LogLike(log10) && forall f | f in fields :: f.weight > 0.0
    ensures Best(log10, fields, tok) >= 0.0
    ensures Best(log10, fields, tok) > 0.0 <==> exists f :: f in fields && Mentions(f.tokens, tok)
  {
    if fields != [] {
      var init, last := fields[..|fields|-1], fields[|fields|-1];
      assert fields == init + [last];
      BestPositive(log10, init, tok);
      TfPositive(last.tokens, tok);
      var tf := Tf(last.tokens, tok);
      assert tf > 0 ==> last.weight * (1.0 + log10(tf)) > 0.0;
    }
  }

  lemma {:induction false} TotalPositive(log10: nat -> real, fields: seq<Field>, tokens: seq<string>)
    requires LogLike(log10) && forall f | f in fields :: f.weight > 0.0
    ensures |Matched(log10, fields, tokens)| <= |tokens|
    ensures Total(log10, fields, tokens) >= 0.0
    ensures Total(log10, fields, tokens) > 0.0 <==> Matched(log10, fields, tokens) != []
    ensures forall t :: t in Matched(log10, fields, tokens) <==> t in tokens && Best(log10, fields, t) > 0.0
    ensures |Matched(log10, fields, tokens)| == |tokens| <==> forall t | t in tokens :: Best(log10, fields, t) > 0.0
    ensures |Matched(log10, fields, tokens)| == |tokens| ==> Matched(log10, fields, tokens) == tokens
  {
    if tokens != [] {
      var init, last := tokens[..|tokens|-1], tokens[|tokens|-1];
      assert tokens == init + [last];
      TotalPositive(log10, fields, init);
      BestPositive(log10, fields, last);
    }
  }

  lemma FieldWeightsPositive(it: CiItem)
    ensures forall f | f in Fields(it) :: f.weight > 0.0
  {
  }

  /** A phrase mentions every one of its tokens. */
  lemma PhraseMentionsAll(it: CiItem, tokens: seq<string>)
    requires HasPhrase(Fields(it), tokens)
    ensures forall tok | tok in tokens :: ItemMentions(it, tok)
  {
    var f :| f in Fields(it) && PhraseIn(f.tokens, tokens);
    var i: nat :| PhraseAt(f.tokens, tokens, i);
    forall tok | tok in tokens ensures ItemMentions(it, tok) {
      var j :| 0 <= j < |tokens| && tokens[j] == tok;
      assert tok <= f.tokens[i + j];
      assert f.tokens[i + j] in f.tokens;
      assert Mentions(f.tokens, tok);
    }
  }

  /** All three modes reduce to which query tokens the item mentions. */
  lemma MatchedTokens(log10: nat -> real, it: CiItem, tokens: seq<string>)
    requires LogLike(log10)
    ensures var matched, total := Matched(log10, Fields(it), tokens), Total(log10, Fields(it), tokens);
            && total >= 0.0 && (total > 0.0 <==> matched != [])
            && (forall t :: t in matched <==> t in tokens && ItemMentions(it, t))
            && (|matched| == |tokens| <==> forall t | t in tokens :: ItemMentions(it, t))
            && (|matched| == |tokens| ==> matched == tokens)
  {
    var fields := Fields(it);
    FieldWeightsPositive(it);
    TotalPositive(log10, fields, tokens);
    forall tok ensures Best(log10, fields, tok) > 0.0 <==> ItemMentions(it, tok) {
      BestPositive(log10, fields, tok);
    }
  }

  /** The scorer decides exactly the documented modes: a score above zero and a hit
      are the same thing, no score is negative, and a hit reports the query tokens
      the item mentions. */
  lemma ScoreDecidesHit(log10: nat -> real, it: CiItem, tokens: seq<string>, mode: Mode)
    requires LogLike(log10)
    ensures var r := Match(log10, it, tokens, mode);
            && r.0 >= 0.0
            && (r.0 > 0.0 <==> IsHit(it, tokens, mode))
            && (r.0 == 0.0 ==> r.1 == [])
            && (r.0 > 0.0 ==> forall t :: t in r.1 <==> t in tokens && ItemMentions(it, t))
            && (r.0 > 0.0 && !mode.Any? ==> r.1 == tokens)
  {
    MatchedTokens(log10, it, tokens);
    var matched := Matched(log10, Fields(it), tokens);
    if tokens != [] {
      match mode {
        case Any =>
          if matched != [] {
            ScaledPositive(Total(log10, Fields(it), tokens), matched, tokens);
            assert matched[0] in matched;
          }
        case Phrase =>
          if HasPhrase(Fields(it), tokens) { PhraseMentionsAll(it, tokens); }
        case All =>
          assert tokens[0] in tokens;
      }
    }
  }

  lemma ScaledPositive(x: real, matched: seq<string>, tokens: seq<string>)
    requires x > 0.0 && matched != [] && tokens != []
    ensures Covered(x, matched, tokens) > 0.0
  {
    assert Coverage(matched, tokens) > 0.0;
  }

  /** Every hit shares a token prefix with its indexed text, so recalling the union of
      the prefix lookups loses no hit in any mode. */
  lemma RecallIsSuperset(it: CiItem, tokens: seq<string>, mode: Mode)
    requires IsHit(it, tokens, mode)
    ensures exists tok, t :: tok in tokens && t in TokensOf(SearchText(it)) && tok <= t
  {
    var tok: string;
    if mode.Phrase? { PhraseMentionsAll(it, tokens); }
    if mode.Any? {
      tok :| tok in tokens && ItemMentions(it, tok);
    } else {
      tok := tokens[0];
      assert tok in tokens;
    }
    var f :| f in Fields(it) && Mentions(f.tokens, tok);
    var t :| t in f.tokens && tok <= t;
    SearchTextTokens(it);
    assert t in TokensOf(SearchText(it));
  }

  // ---------------------------------------------------- phrases and dedupe

  /** An item with nothing but a name. */
  function Named(name: string): CiItem {
    CiItem("", "", "", name, "active", "approved", None, "", "", "", 1, 0, 0)
  }

  lemma NamedFields(name: string)
    ensures var f := Fields(Named(name));
            f[0].tokens == TokensOf(name) && f[1].tokens == f[2].tokens == f[3].tokens == []
  {
    var empty := ["", "", "", ""];
    TokensOfJoin(empty);
    assert empty[1..] == ["", "", ""] && empty[1..][1..] == ["", ""] && empty[1..][1..][1..] == [""];
    assert TokensOfAll([""]) == [] by { assert [""][1..] == []; }
    assert TokensOfAll(["", ""]) == [] by { assert ["", ""][1..] == [""]; }
    assert TokensOfAll(["", "", ""]) == [] by { assert ["", "", ""][1..] == ["", ""]; }
    assert TokensOfAll(empty) == [];
    var none := SortedTerms({});
    assert none == [] by { if none != [] { SomethingToSort(none, {}); } }
    assert AttrMap(Named(name)).Keys == {};
  }

  /** Phrase search is documented to find the query's words next to each other in one
      field. Because the query is deduplicated first, it does so for every item
      exactly when the query repeats no word. */
  lemma PhraseSearchExactness(q: Query)
    ensures Distinct(TokensOf(q.query)) <==>
            forall it :: HasPhrase(Fields(it), QueryTokens(q)) <==> HasPhrase(Fields(it), TokensOf(q.query))
  {
    DedupeShortens(TokensOf(q.query));
    if !Distinct(TokensOf(q.query)) {
      ShortenedPhraseFindsMore(q);
    }
  }

  /** An item named by the deduplicated words matches them, but is too short to
      contain the words as they were typed. */
  lemma ShortenedPhraseFindsMore(q: Query)
    requires !Distinct(TokensOf(q.query))
    ensures var it := Named(JoinSpace(QueryTokens(q)));
            HasPhrase(Fields(it), QueryTokens(q)) && !HasPhrase(Fields(it), TokensOf(q.query))
  {
    var ts, ds := TokensOf(q.query), QueryTokens(q);
    DedupeShortens(ts);
    TokensAreTokens(q.query);
    DedupeKeepsElements(ts);
    TokensRoundTrip(ds);
    NamedFields(JoinSpace(ds));
    var f := Fields(Named(JoinSpace(ds)));
    assert f[0].tokens == ds;
    assert PhraseAt(f[0].tokens, ds, 0);
    assert f[0] in f;
    assert forall g | g in f :: |g.tokens| < |ts|;
  }

  /** The other side of the same effect: the item named by an IP address with a
      repeated octet is not found by a phrase search for that very address. */
  lemma PhraseSearchMissesOwnName()
    ensures var q := Query("10.0.0.1", "", "", 0, "phrase");
            !IsHit(Named(q.query), QueryTokens(q), ModeOf(q))
  {
    var ts, ds := ["10", "0", "0", "1"], ["10", "0", "1"];
    TokensOfTenDotOne();
    DedupeTenDotOne();
    NamedFields("10.0.0.1");
    forall i: nat ensures !PhraseAt(ts, ds, i) {
      if i == 0 { assert !(ds[2] <= ts[2]); }
      if i == 1 { assert !(ds[0] <= ts[1]); }
    }
    assert forall i: nat :: !PhraseAt([], ds, i);
  }

  lemma DedupeOneMore(init: seq<string>, last: string)
    ensures Dedupe(init + [last]) == if last in init then Dedupe(init) else Dedupe(init) + [last]
  {
    assert (init + [last])[..|init|] == init;
  }

  lemma DedupeTenDotOne()
    ensures Dedupe(["10", "0", "0", "1"]) == ["10", "0", "1"]
  {
    DedupeOneMore([], "10");
    assert [] + ["10"] == ["10"];
    DedupeOneMore(["10"], "0");
    assert ["10"] + ["0"] == ["10", "0"] && "0" !in ["10"];
    DedupeOneMore(["10", "0"], "0");
    assert ["10", "0"] + ["0"] == ["10", "0", "0"] && "0" in ["10", "0"];
    DedupeOneMore(["10", "0", "0"], "1");
    assert ["10", "0", "0"] + ["1"] == ["10", "0", "0", "1"] && "1" !in ["10", "0", "0"];
  }

  lemma TokensAcrossDot(a: string, b: string)
    requires IsToken(a)
    ensures TokensOf(a + "." + b) == [a] + TokensOf(b)
  {
    ScanAcrossSeparator(a, '.', b, []);
    TokenIsItself(a);
  }

  lemma TokensOfTail()
    ensures TokensOf("0.0.1") == ["0", "0", "1"]
  {
    TokenIsItself("1");
    TokensAcrossDot("0", "1");
    assert "0" + "." + "1" == "0.1";
    TokensAcrossDot("0", "0.1");
    assert "0" + "." + "0.1" == "0.0.1";
  }

  lemma TokensOfTenDotOne()
    ensures TokensOf("10.0.0.1") == ["10", "0", "0", "1"]
  {
    TokensOfTail();
    TokensAcrossDot("10", "0.0.1");
    assert "10" + "." + "0.0.1" == "10.0.0.1";
  }
}
