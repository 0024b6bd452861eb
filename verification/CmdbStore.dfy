/** The in-memory CMDB store of internal/cmdb/memory.go and the proof that its
    index-backed search returns exactly what a scan over all items would. */
module CmdbStore {
  import opened Basics
  import opened Text
  import opened Sorting
  import opened Fulltext
  import opened CmdbSearch

  /** An empty string leaves that dimension unfiltered. */
  predicate CiMatchesFilter(it: CiItem, tenantID: string, ciType: string, status: string) {
    && (tenantID != "" ==> it.tenantID == tenantID)
    && (ciType != "" ==> it.ciType == ciType)
    && (status != "" ==> it.status == status)
  }

  /** Descending score, ascending id among equals. */
  predicate Before(a: Hit, b: Hit) {
    if a.score != b.score then a.score > b.score else Less(a.item.id, b.item.id)
  }

  /** Items are stored under their own id. */
  ghost predicate Keyed(items: map<string, CiItem>) {
    forall id | id in items :: items[id].id == id
  }

  // ------------------------------------------------- the brute-force answer

  ghost function HitOf(log10: nat -> real, it: CiItem, q: Query): Hit {
    var r := Match(log10, it, QueryTokens(q), ModeOf(q));
    Hit(it, r.0, r.1)
  }

  ghost predicate Qualifies(log10: nat -> real, it: CiItem, tenantID: string, q: Query) {
    CiMatchesFilter(it, tenantID, q.ciType, StatusOf(q)) && HitOf(log10, it, q).score > 0.0
  }

  ghost function HitSet(log10: nat -> real, items: map<string, CiItem>, tenantID: string, q: Query): set<Hit> {
    set id | id in items && Qualifies(log10, items[id], tenantID, q) :: HitOf(log10, items[id], q)
  }

  lemma HitsAreOrdered(log10: nat -> real, items: map<string, CiItem>, tenantID: string, q: Query)
    requires Keyed(items)
    ensures StrictTotalOn(Before, HitSet(log10, items, tenantID, q))
  {
    var s := HitSet(log10, items, tenantID, q);
    forall x | x in s ensures !Before(x, x) { LessIrreflexive(x.item.id); }
    forall x, y, z | x in s && y in s && z in s && Before(x, y) && Before(y, z) ensures Before(x, z) {
      if x.score == y.score == z.score { LessTransitive(x.item.id, y.item.id, z.item.id); }
    }
    forall x, y | x in s && y in s ensures Before(x, y) || x == y || Before(y, x) {
      LessTotal(x.item.id, y.item.id);
    }
  }

  function Take<T>(q: seq<T>, n: nat): seq<T> {
    if |q| > n then q[..n] else q
  }

  /** Score every item, keep the hits, sort, cut: no index involved. */
  ghost function BruteForce(log10: nat -> real, items: map<string, CiItem>, tenantID: string, q: Query): seq<Hit>
    requires Keyed(items)
  {
    HitsAreOrdered(log10, items, tenantID, q);
    Take(Sorted(Before, HitSet(log10, items, tenantID, q)), LimitOf(q))
  }

  /** What that answer is, without sorting: it holds `limit` hits if there are that
      many, lists them in order, shows only items that pass the filter and match in
      the documented sense, and leaves out no hit that belongs before a shown one. */
  lemma BruteForceMeaning(log10: nat -> real, items: map<string, CiItem>, tenantID: string, q: Query)
    requires Keyed(items) && LogLike(log10)
    ensures var hits := BruteForce(log10, items, tenantID, q);
            && Ascending(Before, hits)
            && |hits| <= LimitOf(q)
            && (forall h | h in hits ::
                  && h.item.id in items && items[h.item.id] == h.item
                  && CiMatchesFilter(h.item, tenantID, q.ciType, StatusOf(q))
                  && IsHit(h.item, QueryTokens(q), ModeOf(q)))
            && (forall id | id in items && CiMatchesFilter(items[id], tenantID, q.ciType, StatusOf(q))
                            && IsHit(items[id], QueryTokens(q), ModeOf(q)) ::
                  || HitOf(log10, items[id], q) in hits
                  || (|hits| == LimitOf(q) && forall h | h in hits :: Before(h, HitOf(log10, items[id], q))))
  {
    HitsAreOrdered(log10, items, tenantID, q);
    var s := HitSet(log10, items, tenantID, q);
    var all := Sorted(Before, s);
    var n := LimitOf(q);
    var hits := Take(all, n);
    TakeAscending(all, n);
    forall h | h in hits
      ensures h.item.id in items && items[h.item.id] == h.item
      ensures CiMatchesFilter(h.item, tenantID, q.ciType, StatusOf(q)) && IsHit(h.item, QueryTokens(q), ModeOf(q))
    {
      assert h in s;
      ScoreDecidesHit(log10, h.item, QueryTokens(q), ModeOf(q));
    }
    forall id | id in items && CiMatchesFilter(items[id], tenantID, q.ciType, StatusOf(q))
                && IsHit(items[id], QueryTokens(q), ModeOf(q))
      ensures HitOf(log10, items[id], q) in hits
              || (|hits| == n && forall h | h in hits :: Before(h, HitOf(log10, items[id], q)))
    {
      ScoreDecidesHit(log10, items[id], QueryTokens(q), ModeOf(q));
      var x := HitOf(log10, items[id], q);
      assert x in s;
      TakeKeepsFirst(all, n, x);
    }
  }

  lemma AnswerIsHit(log10: nat -> real, items: map<string, CiItem>, tenantID: string, q: Query, h: Hit)
    requires Keyed(items) && h in BruteForce(log10, items, tenantID, q)
    ensures h in HitSet(log10, items, tenantID, q)
  {
    HitsAreOrdered(log10, items, tenantID, q);
    var all := Sorted(Before, HitSet(log10, items, tenantID, q));
    assert h in all;
  }

  lemma TakeAscending(all: seq<Hit>, n: nat)
    requires Ascending(Before, all)
    ensures Ascending(Before, Take(all, n))
    decreases all
  {
    if |all| > n > 0 {
      TakeAscending(all[1..], n - 1);
      assert all[..n][1..] == all[1..][..n-1];
    }
  }

  lemma TakeKeepsFirst(all: seq<Hit>, n: nat, x: Hit)
    requires Ascending(Before, all) && x in all
    ensures x in Take(all, n) || (|Take(all, n)| == n && forall h | h in Take(all, n) :: Before(h, x))
  {
    if x !in Take(all, n) {
      var j :| 0 <= j < |all| && all[j] == x;
      forall h | h in Take(all, n) ensures Before(h, x) {
        var i :| 0 <= i < n && all[i] == h;
        assert forall k | 0 <= k < n :: all[k] == Take(all, n)[k];
        AscendingAt(Before, all, i, j);
      }
    }
  }

  // ------------------------------------------------------------- the store

  /** The documents a complete index holds for these items. */
  ghost function IndexedText(items: map<string, CiItem>): map<string, seq<string>> {
    map id | id in items :: TokensOf(SearchText(items[id]))
  }

  ghost function Except(docs: map<string, seq<string>>, todo: set<string>): map<string, seq<string>> {
    map id | id in docs && id !in todo :: docs[id]
  }

  lemma ExceptOneLess(docs: map<string, seq<string>>, todo: set<string>, id: string)
    requires id in docs && id in todo
    ensures Except(docs, todo - {id}) == Except(docs, todo)[id := docs[id]]
  {
  }

  lemma NewText(items: map<string, CiItem>, it: CiItem)
    ensures IndexedText(items[it.id := it]) == IndexedText(items)[it.id := TokensOf(SearchText(it))]
  {
  }

  /** Status, approval and timestamps are not searched. */
  lemma SameText(items: map<string, CiItem>, id: string, it: CiItem)
    requires id in items
    requires it.(status := items[id].status, approvalStatus := items[id].approvalStatus,
                 updatedAt := items[id].updatedAt) == items[id]
    ensures IndexedText(items[id := it]) == IndexedText(items)
  {
    assert SearchParts(it) == SearchParts(items[id]);
  }

  /** What CreateCI stores: version 1, attributes and approval status filled in. */
  function Created(ci: CiItem): CiItem {
    ci.(version := 1,
        attrs := if ci.attrs.None? then Some(map[]) else ci.attrs,
        approvalStatus := if ci.approvalStatus == "" then "approved" else ci.approvalStatus)
  }

  /** What UpdateCI stores over `existing`. */
  function Updated(existing: CiItem, ci: CiItem, now: int): CiItem {
    ci.(version := existing.version + 1,
        createdAt := existing.createdAt,
        updatedAt := now,
        attrs := if ci.attrs.None? then existing.attrs else ci.attrs)
  }

  method BuildIndex(items: map<string, CiItem>) returns (idx: Index)
    requires Keyed(items)
    ensures fresh(idx) && idx.Valid() && idx.docs == IndexedText(items)
  {
    idx := new Index();
    ghost var docs := IndexedText(items);
    var todo := items.Keys;
    assert Except(docs, todo) == map[];
    while todo != {}
      invariant todo <= items.Keys == docs.Keys
      invariant fresh(idx) && idx.Valid()
      invariant idx.docs == Except(docs, todo)
      decreases todo
    {
      var id :| id in todo;
      ExceptOneLess(docs, todo, id);
      todo := todo - {id};
      var text := CiSearchText(items[id]);
      assert TokensOf(text) == docs[id];
      idx.Add(items[id].id, text);
    }
    assert Except(docs, {}) == docs;
  }

  class MemoryCiStore {
    const types: set<string>
    const log10: nat -> real
    var items: map<string, CiItem>
    var idx: Index?

    /** The index, when there is one, is sound; and a full-size index is complete. A
        missing or short index is repaired by the next search. */
    ghost predicate Searchable()
      reads this, idx
    {
      && LogLike(log10) && Keyed(items)
      && (idx != null ==> idx.Valid() && (|idx.docs| == |items| ==> idx.docs == IndexedText(items)))
    }

    /** The invariant of every store built by the constructor and the operations. */
    ghost predicate Valid()
      reads this, idx
    {
      && LogLike(log10) && Keyed(items)
      && idx != null && idx.Valid() && idx.docs == IndexedText(items)
    }

    constructor (log10: nat -> real)
      requires LogLike(log10)
      ensures Valid() && fresh(idx) && items == map[]
      ensures types == {"machine", "os", "service", "app", "cluster"} && this.log10 == log10
    {
      this.types := {"machine", "os", "service", "app", "cluster"};
      this.log10 := log10;
      this.items := map[];
      this.idx := new Index();
    }

    method CreateCI(ci: CiItem) returns (ok: bool)
      requires Valid()
      modifies this`items, idx
      ensures Valid()
      ensures ok <==> ci.ciType in types
      ensures items == if ok then old(items)[ci.id := Created(ci)] else old(items)
    {
      if ci.ciType !in types {
        return false;
      }
      var stored := Created(ci);
      NewText(items, stored);
      items := items[ci.id := stored];
      IndexCI(stored);
      return true;
    }

    /** Re-enters one item into the index, if there is one; the next search makes up for it
        if not. */
    method IndexCI(ci: CiItem)
      requires idx != null ==> idx.Valid()
      modifies idx
      ensures idx != null ==> idx.Valid() && idx.docs == old(idx.docs)[ci.id := TokensOf(SearchText(ci))]
    {
      if idx == null {
        return;
      }
      var text := CiSearchText(ci);
      idx.Add(ci.id, text);
    }

    method UpdateCI(ci: CiItem, now: int) returns (ok: bool)
      requires Valid()
      modifies this`items, idx
      ensures Valid()
      ensures ok <==> ci.id in old(items) && (ci.tenantID != "" ==> old(items)[ci.id].tenantID == ci.tenantID)
      ensures items == if ok then old(items)[ci.id := Updated(old(items)[ci.id], ci, now)] else old(items)
    {
      if ci.id !in items {
        return false;
      }
      var existing := items[ci.id];
      if ci.tenantID != "" && existing.tenantID != ci.tenantID {
        return false;
      }
      var stored := Updated(existing, ci, now);
      NewText(items, stored);
      items := items[ci.id := stored];
      IndexCI(stored);
      return true;
    }

    /** Approval changes nothing that is searched, so the index stays as it is. */
    method SetApproval(id: string, tenantID: string, approvalStatus: string, now: int) returns (ok: bool)
      requires Valid()
      modifies this`items
      ensures Valid()
      ensures ok <==> id in old(items) && (tenantID != "" ==> old(items)[id].tenantID == tenantID)
      ensures items == if ok then old(items)[id := old(items)[id].(approvalStatus := approvalStatus, updatedAt := now)]
                       else old(items)
    {
      if id !in items || (tenantID != "" && items[id].tenantID != tenantID) {
        return false;
      }
      var item := items[id].(approvalStatus := approvalStatus, updatedAt := now);
      SameText(items, id, item);
      items := items[id := item];
      return true;
    }

    /** Deletion only marks the item. */
    method DeleteCI(id: string, tenantID: string) returns (ok: bool)
      requires Valid()
      modifies this`items
      ensures Valid()
      ensures ok <==> id in old(items) && (tenantID != "" ==> old(items)[id].tenantID == tenantID)
      ensures items == if ok then old(items)[id := old(items)[id].(status := "deleted")] else old(items)
    {
      if id !in items || (tenantID != "" && items[id].tenantID != tenantID) {
        return false;
      }
      var item := items[id].(status := "deleted");
      SameText(items, id, item);
      items := items[id := item];
      return true;
    }

    /** Rebuilds the index from the items. */
    method RebuildSearchIndex()
      requires LogLike(log10) && Keyed(items)
      modifies this`idx
      ensures Valid() && fresh(idx)
    {
      idx := BuildIndex(items);
    }

    /** The ids recalled for the query tokens: the union of the prefix lookups, or every
        id when there is no index. */
    method CandidateIDs(tokens: seq<string>) returns (ids: set<string>)
      requires idx != null ==> idx.Valid()
      requires forall t | t in tokens :: IsToken(t)
      modifies idx
      ensures idx != null ==> idx.Valid() && idx.docs == old(idx.docs)
      ensures idx == null ==> ids == items.Keys
      ensures idx != null ==> forall id :: id in ids <==> exists t :: t in tokens && Owns(idx.docs, id, t)
    {
      if idx == null {
        return items.Keys;
      }
      ids := {};
      for i := 0 to |tokens|
        invariant idx.Valid() && idx.docs == old(idx.docs)
        invariant forall id :: id in ids <==> exists t :: t in tokens[..i] && Owns(idx.docs, id, t)
      {
        var tok := tokens[i];
        assert tokens[..i+1] == tokens[..i] + [tok];
        TokenIsLower(tok);
        var found := idx.SearchPrefix(tok);
        ids := ids + found;
      }
      assert tokens[..|tokens|] == tokens;
    }

    /** Filters and scores the candidates. */
    method CollectHits(q: Query, ids: set<string>, tokens: seq<string>, mode: Mode, tenantID: string, status: string)
      returns (hits: seq<Hit>)
      requires Keyed(items)
      requires tokens == QueryTokens(q) && mode == ModeOf(q) && status == StatusOf(q)
      ensures Distinct(hits)
      ensures forall h :: h in hits <==> FoundIn(log10, items, ids, tenantID, q, h)
    {
      hits := [];
      var todo := ids;
      while todo != {}
        invariant todo <= ids
        invariant Distinct(hits)
        invariant forall h :: h in hits <==> FoundIn(log10, items, ids - todo, tenantID, q, h)
        decreases todo
      {
        var id :| id in todo;
        assert forall h | h in hits :: h.item.id != id;
        FoundInOneMore(log10, items, ids - todo, id, tenantID, q);
        assert ids - (todo - {id}) == ids - todo + {id};
        todo := todo - {id};
        if id !in items {
          continue;
        }
        if !CiMatchesFilter(items[id], tenantID, q.ciType, status) {
          continue;
        }
        var score, matched := MatchCI(log10, items[id], tokens, mode);
        if score <= 0.0 {
          continue;
        }
        assert items[id].id == id;
        hits := hits + [Hit(items[id], score, matched)];
      }
      assert ids - {} == ids;
    }

    /** Recall, filter, score, sort, cut. */
    method SearchLocked(q: Query, tokens: seq<string>, mode: Mode, limit: int, tenantID: string, status: string)
      returns (hits: seq<Hit>)
      requires Valid()
      requires tokens == QueryTokens(q) && mode == ModeOf(q) && limit == LimitOf(q) && status == StatusOf(q)
      modifies idx
      ensures Valid()
      ensures hits == BruteForce(log10, items, tenantID, q)
    {
      QueryTokensAreTokens(q);
      var ids := CandidateIDs(tokens);
      hits := CollectHits(q, ids, tokens, mode, tenantID, status);
      assert idx.docs == IndexedText(items);
      RecallCoversHits(log10, items, ids, hits, tokens, tenantID, q);
      hits := SortAndCut(log10, items, tenantID, q, hits, limit);
    }

    /** In every reachable state, and even when the index is missing or has lost entries,
        searching is scanning. */
    method SearchCIs(tenantID: string, q: Query) returns (hits: seq<Hit>)
      requires Searchable()
      modifies this`idx, idx
      ensures Searchable() && (QueryTokens(q) != [] || old(Valid()) ==> Valid())
      ensures items == old(items)
      ensures hits == BruteForce(log10, items, tenantID, q)
    {
      var tokens, mode, limit, status := NormalizeCiSearch(q);
      if |tokens| == 0 {
        EmptyQueryFindsNothing(log10, items, tenantID, q);
        return [];
      }
      var size := -1;
      if idx != null {
        size := idx.Size();
      }
      if size != |items| {
        RebuildSearchIndex();
      }
      hits := SearchLocked(q, tokens, mode, limit, tenantID, status);
    }
  }

  lemma QueryTokensAreTokens(q: Query)
    ensures forall t | t in QueryTokens(q) :: IsToken(t)
  {
    TokensAreTokens(q.query);
    DedupeKeepsElements(TokensOf(q.query));
  }

  lemma EmptyQueryFindsNothing(log10: nat -> real, items: map<string, CiItem>, tenantID: string, q: Query)
    requires Keyed(items) && QueryTokens(q) == []
    ensures BruteForce(log10, items, tenantID, q) == []
  {
    HitsAreOrdered(log10, items, tenantID, q);
    var s := HitSet(log10, items, tenantID, q);
    assert s == {};
    var all := Sorted(Before, s);
    if all != [] { SomethingToSort(all, s); }
  }

  method SortAndCut(ghost log10: nat -> real, ghost items: map<string, CiItem>, ghost tenantID: string,
                    ghost q: Query, found: seq<Hit>, limit: int) returns (hits: seq<Hit>)
    requires Keyed(items) && limit == LimitOf(q)
    requires Distinct(found) && Holds(found, HitSet(log10, items, tenantID, q))
    ensures hits == BruteForce(log10, items, tenantID, q)
  {
    HitsAreOrdered(log10, items, tenantID, q);
    hits := Sort(Before, found, HitSet(log10, items, tenantID, q));
    if |hits| > limit {
      hits := hits[..limit];
    }
  }

  ghost predicate FoundIn(log10: nat -> real, items: map<string, CiItem>, ids: set<string>,
                          tenantID: string, q: Query, h: Hit) {
    && h.item.id in ids && h.item.id in items && items[h.item.id] == h.item
    && Qualifies(log10, h.item, tenantID, q) && h == HitOf(log10, h.item, q)
  }

  lemma FoundInOneMore(log10: nat -> real, items: map<string, CiItem>, ids: set<string>, id: string,
                       tenantID: string, q: Query)
    requires Keyed(items)
    ensures forall h :: FoundIn(log10, items, ids + {id}, tenantID, q, h) <==>
                        FoundIn(log10, items, ids, tenantID, q, h)
                        || (id in items && Qualifies(log10, items[id], tenantID, q) && h == HitOf(log10, items[id], q))
  {
  }

  /** What was found among the candidates is what there is to find. */
  lemma RecallCoversHits(log10: nat -> real, items: map<string, CiItem>, ids: set<string>, hits: seq<Hit>,
                         tokens: seq<string>, tenantID: string, q: Query)
    requires Keyed(items) && LogLike(log10) && tokens == QueryTokens(q)
    requires forall id :: id in ids <==> exists t :: t in tokens && Owns(IndexedText(items), id, t)
    requires forall h :: h in hits <==> FoundIn(log10, items, ids, tenantID, q, h)
    ensures Holds(hits, HitSet(log10, items, tenantID, q))
  {
    forall id | id in items && Qualifies(log10, items[id], tenantID, q) ensures id in ids {
      var tok := RecalledBy(log10, items, id, tokens, q);
    }
  }

  /** A token of the query by which the index recalls a qualifying item. */
  lemma RecalledBy(log10: nat -> real, items: map<string, CiItem>, id: string, tokens: seq<string>, q: Query)
    returns (tok: string)
    requires LogLike(log10) && tokens == QueryTokens(q) && id in items && HitOf(log10, items[id], q).score > 0.0
    ensures tok in tokens && Owns(IndexedText(items), id, tok)
  {
    ScoreDecidesHit(log10, items[id], tokens, ModeOf(q));
    RecallIsSuperset(items[id], tokens, ModeOf(q));
    var t: string;
    tok, t :| tok in tokens && t in TokensOf(SearchText(items[id])) && tok <= t;
    assert t in IndexedText(items)[id];
  }

  // ---------------------------------------------------------------- versions

  /** The item after updates with these contents at these times. */
  function UpdatedAll(it: CiItem, cis: seq<CiItem>, times: seq<int>): CiItem
    requires |cis| == |times|
  {
    if cis == [] then it
    else Updated(UpdatedAll(it, cis[..|cis|-1], times[..|times|-1]), cis[|cis|-1], times[|times|-1])
  }

  /** The version of an item counts its updates, the creation included; its creation time
      stays, its update time is that of the last update, and attributes an update does not
      give stay as they were. */
  lemma {:induction false} VersionCountsUpdates(ci: CiItem, cis: seq<CiItem>, times: seq<int>)
    requires |cis| == |times|
    ensures var it := UpdatedAll(Created(ci), cis, times);
            && it.version == |cis| + 1 && it.createdAt == ci.createdAt && it.attrs.Some?
            && (cis == [] ==> it.updatedAt == ci.updatedAt)
            && (cis != [] ==> it.updatedAt == times[|times|-1])
            && ((forall c | c in cis :: c.attrs.None?) && ci.attrs.Some? ==> it.attrs == ci.attrs)
  {
    if cis != [] {
      var n := |cis| - 1;
      VersionCountsUpdates(ci, cis[..n], times[..n]);
      assert forall c | c in cis[..n] :: c in cis;
      assert cis[n] in cis;
    }
  }

  /** What else is stored is what the caller gave. */
  lemma StoredAsGiven(ci: CiItem, existing: CiItem, now: int)
    ensures var it := Created(ci);
            && it.(version := ci.version, attrs := ci.attrs, approvalStatus := ci.approvalStatus) == ci
            && (ci.approvalStatus != "" ==> it.approvalStatus == ci.approvalStatus)
            && (ci.approvalStatus == "" ==> it.approvalStatus == "approved")
            && (ci.attrs.None? ==> it.attrs == Some(map[])) && (ci.attrs.Some? ==> it.attrs == ci.attrs)
    ensures var it := Updated(existing, ci, now);
            it.(version := ci.version, createdAt := ci.createdAt, updatedAt := ci.updatedAt, attrs := ci.attrs) == ci
  {
  }
}
