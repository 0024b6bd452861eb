/** How CMDB hits are ranked: what a score is made of, and what that means for the order of
    the answer. */
module CmdbRank {
  import opened Basics
  import opened Text
  import Sorting
  import opened Fulltext
  import opened CmdbSearch
  import opened CmdbStore

  // ------------------------------------------------------------ the score

  /** The contributions of the query tokens add up, whatever the order of adding. */
  lemma {:induction false} TotalAddsUp(log10: nat -> real, fields: seq<Field>, a: seq<string>, b: seq<string>)
    ensures Total(log10, fields, a + b) == Total(log10, fields, a) + Total(log10, fields, b)
  {
    if b == [] {
      assert a + b == a;
    } else {
      var init := b[..|b|-1];
      TotalAddsUp(log10, fields, a, init);
      assert (a + b)[..|a + b|-1] == a + init;
    }
  }

  lemma TotalOfOne(log10: nat -> real, fields: seq<Field>, tok: string)
    ensures IsBest(log10, fields, tok, Total(log10, fields, [tok]))
  {
    BestIsBest(log10, fields, tok);
    assert [tok][..0] == [] && Total(log10, fields, []) == 0.0;
    assert Total(log10, fields, [tok]) == 0.0 + Best(log10, fields, tok);
  }

  lemma {:induction false} MatchedConcat(log10: nat -> real, fields: seq<Field>, a: seq<string>, b: seq<string>)
    ensures Matched(log10, fields, a + b) == Matched(log10, fields, a) + Matched(log10, fields, b)
  {
    if b == [] {
      assert a + b == a;
    } else {
      var init := b[..|b|-1];
      MatchedConcat(log10, fields, a, init);
      assert (a + b)[..|a + b|-1] == a + init;
    }
  }

  /** The score of a hit is the sum of the contributions of the query tokens, all of which
      matched, except that ... */
  lemma FullHitScore(log10: nat -> real, it: CiItem, tokens: seq<string>, mode: Mode)
    requires LogLike(log10) && IsHit(it, tokens, mode) && !mode.Any?
    ensures Match(log10, it, tokens, mode) == (Total(log10, Fields(it), tokens), tokens)
  {
    ScoreDecidesHit(log10, it, tokens, mode);
  }

  /** ... an `any` hit counts in proportion to the share of tokens that matched. */
  lemma AnyHitScore(log10: nat -> real, it: CiItem, tokens: seq<string>)
    requires LogLike(log10) && IsHit(it, tokens, Any)
    ensures var matched := Match(log10, it, tokens, Any).1;
            && Match(log10, it, tokens, Any).0 == Covered(Total(log10, Fields(it), tokens), matched, tokens)
            && (forall t :: t in matched <==> t in tokens && ItemMentions(it, t))
  {
    MatchedTokens(log10, it, tokens);
    var tok :| tok in tokens && ItemMentions(it, tok);
    assert tok in Matched(log10, Fields(it), tokens);
    AnyMatchIs(log10, it, tokens);
  }

  lemma AnyMatchIs(log10: nat -> real, it: CiItem, tokens: seq<string>)
    requires tokens != [] && Matched(log10, Fields(it), tokens) != []
    ensures var matched := Matched(log10, Fields(it), tokens);
            Match(log10, it, tokens, Any) == (Covered(Total(log10, Fields(it), tokens), matched, tokens), matched)
  {
  }

  lemma CoveredIsShare(score: real, matched: seq<string>, tokens: seq<string>)
    requires tokens != []
    ensures Covered(score, matched, tokens) == score * (|matched| as real / |tokens| as real)
  {
  }

  // --------------------------------------------------- which field counts

  /** Nowhere more than one mention of the token. */
  ghost predicate AtMostOnce(fields: seq<Field>, tok: string) {
    forall f | f in fields :: Tf(f.tokens, tok) <= 1
  }

  /** The greatest weight of a field that mentions the token is `w`. */
  ghost predicate Heaviest(fields: seq<Field>, tok: string, w: real) {
    && (forall f | f in fields && Mentions(f.tokens, tok) :: f.weight <= w)
    && exists f :: f in fields && Mentions(f.tokens, tok) && f.weight == w
  }

  /** What a single mention in a field of weight `w` contributes. */
  function Once(log10: nat -> real, w: real): real {
    w * (1.0 + log10(1))
  }

  lemma OnceMonotone(log10: nat -> real, w: real, v: real)
    requires LogLike(log10) && w > v
    ensures Once(log10, w) > Once(log10, v)
  {
    assert (w - v) * (1.0 + log10(1)) > 0.0;
  }

  /** With single mentions the heaviest field counts. */
  lemma HeaviestCounts(log10: nat -> real, fields: seq<Field>, tok: string, w: real, best: real)
    requires LogLike(log10) && AtMostOnce(fields, tok) && Heaviest(fields, tok, w) && w > 0.0
    requires IsBest(log10, fields, tok, best)
    ensures best == Once(log10, w)
  {
    var f :| f in fields && Mentions(f.tokens, tok) && f.weight == w;
    SingleMention(log10, f, tok, Once(log10, w));
    if best > 0.0 {
      var g :| g in fields && Contributes(log10, g, tok, best);
      SingleMention(log10, g, tok, best);
      if g.weight < w { OnceMonotone(log10, w, g.weight); }
    }
  }

  lemma SingleMention(log10: nat -> real, f: Field, tok: string, x: real)
    requires Tf(f.tokens, tok) <= 1
    ensures Contributes(log10, f, tok, x) <==> Mentions(f.tokens, tok) && x == Once(log10, f.weight)
  {
    TfPositive(f.tokens, tok);
  }

  /** The four fields with their weights: name, type, attributes, identifiers. */
  lemma WeightsOfFields(it: CiItem)
    ensures |Fields(it)| == 4
    ensures Fields(it)[0] == Field(3.0, TokensOf(it.name))
    ensures Fields(it)[1] == Field(1.5, TokensOf(it.ciType))
    ensures Fields(it)[2].weight == 2.0 && Fields(it)[3].weight == 1.0
    ensures forall t :: t in Fields(it)[3].tokens <==>
                        t in TokensOf(it.id) || t in TokensOf(it.agentID) || t in TokensOf(it.deviceID) || t in TokensOf(it.source)
    ensures forall t :: t in Fields(it)[2].tokens <==>
                        exists k :: k in AttrMap(it) && (t in TokensOf(k) || t in TokensOf(AttrMap(it)[k]))
  {
    var p, m := IdentParts(it), AttrMap(it);
    TokensOfJoin(p);
    AllTokens(p);
    var keys := SortedTerms(m.Keys);
    AttrTextTokens(keys, m);
    AttrTokens(keys, m);
    assert forall k :: k in keys <==> k in m;
  }

  lemma {:induction false} AllTokens(parts: seq<string>)
    ensures forall t :: t in TokensOfAll(parts) <==> exists p :: p in parts && t in TokensOf(p)
  {
    if parts != [] {
      AllTokens(parts[1..]);
      assert parts == [parts[0]] + parts[1..];
    }
  }

  lemma {:induction false} AttrTokens(keys: seq<string>, m: map<string, string>)
    requires forall k | k in keys :: k in m
    ensures forall t :: t in TokensOfAll(AttrParts(keys, m)) <==>
                        exists k :: k in keys && (t in TokensOf(k) || t in TokensOf(m[k]))
  {
    if keys != [] {
      AttrTokens(keys[1..], m);
      TokensOfAllConcat([keys[0], m[keys[0]]], AttrParts(keys[1..], m));
      TokensOfAllTwo(keys[0], m[keys[0]]);
      assert keys == [keys[0]] + keys[1..];
    }
  }

  /** The score of a hit of a one-word query, each of whose fields mentions the word at most
      once: the weight of the heaviest field that does. */
  lemma OneWordScore(log10: nat -> real, it: CiItem, tok: string, mode: Mode, w: real)
    requires LogLike(log10) && IsHit(it, [tok], mode) && AtMostOnce(Fields(it), tok) && Heaviest(Fields(it), tok, w)
    ensures Match(log10, it, [tok], mode).0 == Once(log10, w)
  {
    FieldWeightsPositive(it);
    TotalOfOne(log10, Fields(it), tok);
    HeaviestCounts(log10, Fields(it), tok, w, Total(log10, Fields(it), [tok]));
    SingleTokenScore(log10, it, tok, mode);
  }

  lemma SingleTokenScore(log10: nat -> real, it: CiItem, tok: string, mode: Mode)
    requires LogLike(log10) && IsHit(it, [tok], mode)
    ensures Match(log10, it, [tok], mode).0 == Total(log10, Fields(it), [tok])
  {
    if mode.Any? {
      MatchedTokens(log10, it, [tok]);
      assert tok in [tok] && ItemMentions(it, tok);
      assert Matched(log10, Fields(it), [tok]) == [tok];
      assert Coverage([tok], [tok]) == 1.0;
    } else {
      FullHitScore(log10, it, [tok], mode);
    }
  }

  // -------------------------------------------------------- the ranking

  ghost predicate OneWord(q: Query, tok: string) {
    QueryTokens(q) == [tok]
  }

  lemma HitOfHit(log10: nat -> real, items: map<string, CiItem>, tenantID: string, q: Query, h: Hit)
    requires Keyed(items) && LogLike(log10) && h in BruteForce(log10, items, tenantID, q)
    ensures h == HitOf(log10, h.item, q) && IsHit(h.item, QueryTokens(q), ModeOf(q))
  {
    AnswerIsHit(log10, items, tenantID, q, h);
    ScoreDecidesHit(log10, h.item, QueryTokens(q), ModeOf(q));
  }

  /** A heavier field means a higher score. */
  lemma HeavierScoresHigher(log10: nat -> real, q: Query, tok: string, a: CiItem, b: CiItem, w: real, v: real)
    requires LogLike(log10) && OneWord(q, tok)
    requires IsHit(a, [tok], ModeOf(q)) && AtMostOnce(Fields(a), tok) && Heaviest(Fields(a), tok, w)
    requires IsHit(b, [tok], ModeOf(q)) && AtMostOnce(Fields(b), tok) && Heaviest(Fields(b), tok, v) && w > v
    ensures HitOf(log10, a, q).score > HitOf(log10, b, q).score
  {
    OneWordScore(log10, a, tok, ModeOf(q), w);
    OneWordScore(log10, b, tok, ModeOf(q), v);
    OnceMonotone(log10, w, v);
  }

  lemma HigherComesFirst(hits: seq<Hit>, i: nat, j: nat)
    requires Sorting.Ascending(Before, hits) && i < |hits| && j < |hits| && hits[i].score > hits[j].score
    ensures i < j
  {
    if j < i { Sorting.AscendingAt(Before, hits, j, i); }
  }

  /** Among the answers to a one-word query that mention the word once a field, the one with
      the heavier field comes first. */
  lemma HeavierComesFirst(log10: nat -> real, items: map<string, CiItem>, tenantID: string, q: Query, hits: seq<Hit>,
                          tok: string, i: nat, j: nat, w: real, v: real)
    requires Keyed(items) && LogLike(log10) && OneWord(q, tok) && hits == BruteForce(log10, items, tenantID, q)
    requires i < |hits| && AtMostOnce(Fields(hits[i].item), tok) && Heaviest(Fields(hits[i].item), tok, w)
    requires j < |hits| && AtMostOnce(Fields(hits[j].item), tok) && Heaviest(Fields(hits[j].item), tok, v)
    requires w > v
    ensures i < j
  {
    assert hits[i] in hits && hits[j] in hits;
    HitOfHit(log10, items, tenantID, q, hits[i]);
    HitOfHit(log10, items, tenantID, q, hits[j]);
    HeavierScoresHigher(log10, q, tok, hits[i].item, hits[j].item, w, v);
    BruteForceMeaning(log10, items, tenantID, q);
    HigherComesFirst(hits, i, j);
  }

  /** The item that has the word in its name comes before one that has it elsewhere only. */
  lemma NameComesFirst(log10: nat -> real, items: map<string, CiItem>, tenantID: string, q: Query, hits: seq<Hit>,
                       tok: string, i: nat, j: nat)
    requires Keyed(items) && LogLike(log10) && OneWord(q, tok) && hits == BruteForce(log10, items, tenantID, q)
    requires i < |hits| && AtMostOnce(Fields(hits[i].item), tok) && Mentions(TokensOf(hits[i].item.name), tok)
    requires j < |hits| && AtMostOnce(Fields(hits[j].item), tok) && !Mentions(TokensOf(hits[j].item.name), tok)
    ensures i < j
  {
    NameIsHeaviest(hits[i].item, tok);
    assert hits[j] in hits;
    HitOfHit(log10, items, tenantID, q, hits[j]);
    var v := OtherIsLighter(hits[j].item, tok, ModeOf(q));
    HeavierComesFirst(log10, items, tenantID, q, hits, tok, i, j, 3.0, v);
  }

  lemma NameIsHeaviest(it: CiItem, tok: string)
    requires Mentions(TokensOf(it.name), tok)
    ensures Heaviest(Fields(it), tok, 3.0)
  {
    WeightsOfFields(it);
    assert Fields(it)[0] in Fields(it);
  }

  lemma HitMentions(it: CiItem, tok: string, mode: Mode)
    requires IsHit(it, [tok], mode)
    ensures ItemMentions(it, tok)
  {
    if mode.Phrase? { PhraseMentionsAll(it, [tok]); }
    assert tok in [tok];
  }

  lemma OtherIsLighter(it: CiItem, tok: string, mode: Mode) returns (v: real)
    requires IsHit(it, [tok], mode) && !Mentions(TokensOf(it.name), tok)
    ensures v < 3.0 && Heaviest(Fields(it), tok, v)
  {
    WeightsOfFields(it);
    HitMentions(it, tok, mode);
    var f := Fields(it);
    assert f[1] in f && f[2] in f && f[3] in f;
    v := if Mentions(f[2].tokens, tok) then 2.0 else if Mentions(f[1].tokens, tok) then 1.5 else 1.0;
  }

  /** Nor does the limit drop it while the other one is answered. */
  lemma NameIsNotCutOff(log10: nat -> real, items: map<string, CiItem>, tenantID: string, q: Query, hits: seq<Hit>,
                        tok: string, id: string, other: Hit)
    requires Keyed(items) && LogLike(log10) && OneWord(q, tok) && hits == BruteForce(log10, items, tenantID, q)
    requires id in items && CiMatchesFilter(items[id], tenantID, q.ciType, StatusOf(q))
    requires AtMostOnce(Fields(items[id]), tok) && Mentions(TokensOf(items[id].name), tok)
    requires other in hits && AtMostOnce(Fields(other.item), tok) && !Mentions(TokensOf(other.item.name), tok)
    ensures HitOf(log10, items[id], q) in hits
  {
    var a := items[id];
    NameIsHeaviest(a, tok);
    NameIsHit(a, tok, ModeOf(q));
    HitOfHit(log10, items, tenantID, q, other);
    var v := OtherIsLighter(other.item, tok, ModeOf(q));
    HeavierScoresHigher(log10, q, tok, a, other.item, 3.0, v);
    HigherIsAnswered(log10, items, tenantID, q, hits, id, other);
  }

  lemma HigherIsAnswered(log10: nat -> real, items: map<string, CiItem>, tenantID: string, q: Query, hits: seq<Hit>,
                         id: string, other: Hit)
    requires Keyed(items) && LogLike(log10) && hits == BruteForce(log10, items, tenantID, q) && other in hits
    requires id in items && CiMatchesFilter(items[id], tenantID, q.ciType, StatusOf(q))
    requires IsHit(items[id], QueryTokens(q), ModeOf(q)) && HitOf(log10, items[id], q).score > other.score
    ensures HitOf(log10, items[id], q) in hits
  {
    BruteForceMeaning(log10, items, tenantID, q);
    assert !Before(other, HitOf(log10, items[id], q));
  }

  lemma NameIsHit(it: CiItem, tok: string, mode: Mode)
    requires Mentions(TokensOf(it.name), tok)
    ensures IsHit(it, [tok], mode)
  {
    WeightsOfFields(it);
    var f := Fields(it)[0];
    assert f in Fields(it);
    var t :| t in f.tokens && tok <= t;
    var k :| 0 <= k < |f.tokens| && f.tokens[k] == t;
    assert PhraseAt(f.tokens, [tok], k);
    assert tok in [tok] && ItemMentions(it, tok);
  }

  // ------------------------------------------- the heaviest field need not win

  function Contribution(log10: nat -> real, f: Field, tok: string): real {
    f.weight * (1.0 + log10(Tf(f.tokens, tok)))
  }

  /** The scorer's comment says that a query token counts with its heaviest field. It counts
      with the field that contributes most, and that is the heaviest one exactly when no
      lighter field makes up for its weight by repetition. */
  lemma HeaviestFieldCountsIff(log10: nat -> real, fields: seq<Field>, tok: string, top: Field)
    requires LogLike(log10) && (forall f | f in fields :: f.weight > 0.0)
    requires top in fields && Mentions(top.tokens, tok) && Heaviest(fields, tok, top.weight)
    ensures Best(log10, fields, tok) == Contribution(log10, top, tok) <==>
            !exists f :: f in fields && Mentions(f.tokens, tok)
                         && Contribution(log10, f, tok) > Contribution(log10, top, tok)
  {
    BestIsBest(log10, fields, tok);
    BestPositive(log10, fields, tok);
    forall f | f in fields && Mentions(f.tokens, tok)
      ensures Contribution(log10, f, tok) <= Best(log10, fields, tok)
    {
      ContributesIff(log10, f, tok, Contribution(log10, f, tok));
    }
    var g :| g in fields && Contributes(log10, g, tok, Best(log10, fields, tok));
    ContributesIff(log10, g, tok, Best(log10, fields, tok));
  }

  lemma ContributesIff(log10: nat -> real, f: Field, tok: string, w: real)
    ensures Contributes(log10, f, tok, w) <==> Mentions(f.tokens, tok) && w == Contribution(log10, f, tok)
  {
    TfPositive(f.tokens, tok);
  }

  /** Ten mentions among the attributes outweigh one in the name. */
  lemma TenAttributesBeatTheName(log10: nat -> real, tok: string)
    requires log10(1) == 0.0 && log10(10) == 1.0 && LogLike(log10)
    ensures var fields := [Field(3.0, [tok]), Field(2.0, seq(10, i => tok))];
            Best(log10, fields, tok) == 4.0 > 3.0
  {
    var many := seq(10, i => tok);
    var name, attrs := Field(3.0, [tok]), Field(2.0, many);
    var fields := [name, attrs];
    TfCounts([tok], tok);
    TfCounts(many, tok);
    assert (set i | 0 <= i < 1 && tok <= [tok][i]) == {0};
    assert (set i | 0 <= i < 10 && tok <= many[i]) == {0, 1, 2, 3, 4, 5, 6, 7, 8, 9};
    BestIsBest(log10, fields, tok);
    assert attrs in fields && Contributes(log10, attrs, tok, 4.0);
  }

  // ------------------------------------------------------ what is answered

  /** Only items of the tenant, the type and the status that were asked for are answered;
      without a status only active ones. Equal scores are listed by id, and no more hits than
      the limit, which is 50 if none is given and 500 at most. */
  lemma AnswersAreInScope(log10: nat -> real, items: map<string, CiItem>, tenantID: string, q: Query, hits: seq<Hit>)
    requires Keyed(items) && LogLike(log10) && hits == BruteForce(log10, items, tenantID, q)
    ensures forall h | h in hits ::
              && h.item.id in items && items[h.item.id] == h.item
              && (tenantID != "" ==> h.item.tenantID == tenantID)
              && (q.ciType != "" ==> h.item.ciType == q.ciType)
              && h.item.status == (if q.status != "" then q.status else "active")
    ensures forall i, j | 0 <= i < j < |hits| ::
              hits[i].score > hits[j].score || (hits[i].score == hits[j].score && Less(hits[i].item.id, hits[j].item.id))
    ensures |hits| <= 500 && (q.limit > 0 ==> |hits| <= q.limit) && (q.limit <= 0 ==> |hits| <= 50)
  {
    BruteForceMeaning(log10, items, tenantID, q);
    forall i, j | 0 <= i < j < |hits|
      ensures hits[i].score > hits[j].score || (hits[i].score == hits[j].score && Less(hits[i].item.id, hits[j].item.id))
    {
      Sorting.AscendingAt(Before, hits, i, j);
    }
  }

  /** And a hit of that kind is left out only when the answer is as long as the limit. */
  lemma NothingIsLeftOut(log10: nat -> real, items: map<string, CiItem>, tenantID: string, q: Query, hits: seq<Hit>, id: string)
    requires Keyed(items) && LogLike(log10) && hits == BruteForce(log10, items, tenantID, q)
    requires id in items && (tenantID != "" ==> items[id].tenantID == tenantID)
    requires (q.ciType != "" ==> items[id].ciType == q.ciType)
    requires items[id].status == (if q.status != "" then q.status else "active")
    requires IsHit(items[id], QueryTokens(q), ModeOf(q))
    requires |hits| < (if q.limit <= 0 then 50 else if q.limit <= 500 then q.limit else 500)
    ensures HitOf(log10, items[id], q) in hits
  {
    BruteForceMeaning(log10, items, tenantID, q);
  }

  /** A deleted item is not answered unless the query asks for deleted ones. */
  lemma DeletedIsNotFound(log10: nat -> real, items: map<string, CiItem>, tenantID: string, q: Query, hits: seq<Hit>, id: string)
    requires Keyed(items) && LogLike(log10) && hits == BruteForce(log10, items, tenantID, q)
    requires id in items && items[id].status == "deleted" && q.status != "deleted"
    ensures forall h | h in hits :: h.item.id != id
  {
    AnswersAreInScope(log10, items, tenantID, q, hits);
  }

  /** An item is found, in every mode, by every word of its name, type, attributes and
      identifiers, and by the beginning of every word. */
  lemma FoundByItsWords(it: CiItem, text: string, t: string, tok: string, mode: Mode)
    requires || text in [it.name, it.ciType, it.id, it.agentID, it.deviceID, it.source]
             || exists k :: k in AttrMap(it) && (text == k || text == AttrMap(it)[k])
    requires t in TokensOf(text) && tok <= t
    ensures IsHit(it, [tok], mode)
  {
    WeightsOfFields(it);
    var f := Fields(it);
    var k: nat :| k < 4 && t in f[k].tokens;
    assert f[k] in f;
    var i :| 0 <= i < |f[k].tokens| && f[k].tokens[i] == t;
    assert PhraseAt(f[k].tokens, [tok], i);
    assert PhraseIn(f[k].tokens, [tok]);
    assert Mentions(f[k].tokens, tok);
    assert tok in [tok] && ItemMentions(it, tok);
  }

  /** A field is a phrase hit exactly if its words have the form a, m, b with as many words in m
      as the query has, each beginning with the query's word in its place. */
  ghost predicate ReadsLike(ts: seq<string>, tokens: seq<string>) {
    exists a: seq<string>, m: seq<string>, b: seq<string> :: ts == a + m + b && BeginsLike(m, tokens)
  }

  ghost predicate BeginsLike(m: seq<string>, tokens: seq<string>) {
    |m| == |tokens| && forall j | 0 <= j < |m| :: |tokens[j]| <= |m[j]| && m[j][..|tokens[j]|] == tokens[j]
  }

  lemma PhraseHitIff(it: CiItem, tokens: seq<string>)
    requires tokens != []
    ensures IsHit(it, tokens, Phrase) <==> exists f :: f in Fields(it) && ReadsLike(f.tokens, tokens)
  {
    forall f | f in Fields(it) ensures PhraseIn(f.tokens, tokens) <==> ReadsLike(f.tokens, tokens) {
      PhraseInIff(f.tokens, tokens);
    }
  }

  lemma PhraseInIff(ts: seq<string>, tokens: seq<string>)
    ensures PhraseIn(ts, tokens) <==> ReadsLike(ts, tokens)
  {
    if PhraseIn(ts, tokens) {
      var i: nat :| PhraseAt(ts, tokens, i);
      CutOut(ts, tokens, i);
    }
    if ReadsLike(ts, tokens) {
      var a, m, b :| ts == a + m + b && BeginsLike(m, tokens);
      Embedded(a, m, b, tokens);
    }
  }

  lemma CutOut(ts: seq<string>, tokens: seq<string>, i: nat)
    requires PhraseAt(ts, tokens, i)
    ensures ReadsLike(ts, tokens)
  {
    var a, m, b := ts[..i], ts[i..i+|tokens|], ts[i+|tokens|..];
    forall j | 0 <= j < |m| ensures |tokens[j]| <= |m[j]| && m[j][..|tokens[j]|] == tokens[j] {
      assert m[j] == ts[i + j];
    }
    assert BeginsLike(m, tokens);
    assert ts == a + m + b;
  }

  lemma Embedded(a: seq<string>, m: seq<string>, b: seq<string>, tokens: seq<string>)
    requires BeginsLike(m, tokens)
    ensures PhraseIn(a + m + b, tokens)
  {
    var ts := a + m + b;
    forall j | 0 <= j < |tokens| ensures tokens[j] <= ts[|a| + j] {
      assert ts[|a| + j] == m[j];
    }
    assert PhraseAt(ts, tokens, |a|);
  }
}
