/** The inverted index of internal/fulltext: posting lists per term, kept as the
    inverse of the documents, with a cached sorted term list for prefix search.
    Frequencies and positions inside a posting feed only ranking and phrase
    search, which the CMDB does not use, so a posting list is a set of ids. */
module Fulltext {
  import opened Basics
  import opened Text
  import opened Sorting

  lemma LessIsStrictTotal(s: set<string>)
    ensures StrictTotalOn(Less, s)
  {
    forall x | x in s ensures !Less(x, x) { LessIrreflexive(x); }
    forall x, y, z | x in s && y in s && z in s && Less(x, y) && Less(y, z) ensures Less(x, z) {
      LessTransitive(x, y, z);
    }
    forall x, y | x in s && y in s ensures Less(x, y) || x == y || Less(y, x) { LessTotal(x, y); }
  }

  /** The terms of `keys` in ascending order. */
  ghost function SortedTerms(keys: set<string>): (q: seq<string>)
    ensures IsSorted(Less, q, keys)
  {
    LessIsStrictTotal(keys);
    Sorted(Less, keys)
  }

  predicate Has(postings: map<string, set<string>>, t: string, id: string) {
    t in postings && id in postings[t]
  }

  /** `postings` is `docs` turned around, without empty posting lists, except that
      the entries of document `d` for the terms `missing` are absent. */
  ghost predicate InvertsExcept(postings: map<string, set<string>>, docs: map<string, seq<string>>,
                                d: string, missing: set<string>) {
    && (forall t, id :: Has(postings, t, id) <==> (id in docs && t in docs[id] && !(id == d && t in missing)))
    && (forall t | t in postings :: postings[t] != {})
  }

  ghost predicate Inverts(postings: map<string, set<string>>, docs: map<string, seq<string>>) {
    && (forall t, id :: Has(postings, t, id) <==> (id in docs && t in docs[id]))
    && (forall t | t in postings :: postings[t] != {})
  }

  function AddPosting(postings: map<string, set<string>>, tok: string, d: string): map<string, set<string>> {
    postings[tok := (if tok in postings then postings[tok] else {}) + {d}]
  }

  function RemovePosting(postings: map<string, set<string>>, tok: string, d: string): map<string, set<string>> {
    if tok !in postings then postings
    else if postings[tok] - {d} == {} then postings - {tok}
    else postings[tok := postings[tok] - {d}]
  }

  lemma AddPostingStep(postings: map<string, set<string>>, docs: map<string, seq<string>>,
                       d: string, missing: set<string>, tok: string)
    requires InvertsExcept(postings, docs, d, missing) && tok in missing && d in docs && tok in docs[d]
    ensures InvertsExcept(AddPosting(postings, tok, d), docs, d, missing - {tok})
  {
    var r := AddPosting(postings, tok, d);
    forall t, id
      ensures Has(r, t, id) <==> (id in docs && t in docs[id] && !(id == d && t in missing - {tok}))
    {
      assert Has(r, t, id) <==> Has(postings, t, id) || (t == tok && id == d);
    }
  }

  lemma RemovePostingStep(postings: map<string, set<string>>, docs: map<string, seq<string>>,
                          d: string, missing: set<string>, tok: string)
    requires InvertsExcept(postings, docs, d, missing)
    ensures InvertsExcept(RemovePosting(postings, tok, d), docs, d, missing + {tok})
  {
    var r := RemovePosting(postings, tok, d);
    forall t, id
      ensures Has(r, t, id) <==> (id in docs && t in docs[id] && !(id == d && t in missing + {tok}))
    {
      assert Has(r, t, id) <==> Has(postings, t, id) && !(t == tok && id == d) by {
        if t == tok && id != d && Has(postings, t, id) { assert id in postings[tok] - {d}; }
      }
    }
  }

  lemma AddDocument(postings: map<string, set<string>>, docs: map<string, seq<string>>, d: string, tokens: seq<string>)
    requires d !in docs && Inverts(postings, docs)
    ensures InvertsExcept(postings, docs[d := tokens], d, set t | t in tokens)
    ensures |docs[d := tokens]| == |docs| + 1
  {
  }

  lemma NothingMissing(postings: map<string, set<string>>, docs: map<string, seq<string>>, d: string)
    requires InvertsExcept(postings, docs, d, {})
    ensures Inverts(postings, docs)
  {
  }

  lemma RemoveDocument(postings: map<string, set<string>>, docs: map<string, seq<string>>, d: string, all: set<string>)
    requires d in docs && InvertsExcept(postings, docs, d, all) && all == set t | t in docs[d]
    ensures Inverts(postings, docs - {d}) && |docs - {d}| == |docs| - 1
  {
    assert (docs - {d}).Keys == docs.Keys - {d};
    forall t, id ensures Has(postings, t, id) <==> (id in docs - {d} && t in (docs - {d})[id]) {
      if id == d && id in docs && t in docs[id] { assert t in all; }
    }
  }

  /** sort.SearchStrings: the first position whose string is not below `x`. */
  method SearchStrings(a: seq<string>, x: string) returns (lo: nat)
    requires Ascending(Less, a)
    ensures lo <= |a|
    ensures forall i | 0 <= i < lo :: Less(a[i], x)
    ensures forall i | lo <= i < |a| :: !Less(a[i], x)
  {
    lo := 0;
    var hi := |a|;
    while lo < hi
      invariant 0 <= lo <= hi <= |a|
      invariant forall i | 0 <= i < lo :: Less(a[i], x)
      invariant forall i | hi <= i < |a| :: !Less(a[i], x)
    {
      var mid := (lo + hi) / 2;
      if Less(a[mid], x) {
        forall i | 0 <= i < mid ensures Less(a[i], x) {
          AscendingAt(Less, a, i, mid);
          LessTransitive(a[i], a[mid], x);
        }
        lo := mid + 1;
      } else {
        forall i | mid < i < |a| ensures !Less(a[i], x) {
          AscendingAt(Less, a, mid, i);
          if Less(a[i], x) { LessTransitive(a[mid], a[i], x); }
        }
        hi := mid;
      }
    }
  }

  /** Document `id` has a token that starts with `p`. */
  ghost predicate Owns(docs: map<string, seq<string>>, id: string, p: string) {
    id in docs && exists t :: t in docs[id] && p <= t
  }

  ghost predicate InScanned(postings: map<string, set<string>>, terms: seq<string>, start: nat, i: nat, id: string) {
    exists j :: start <= j < i && j < |terms| && Has(postings, terms[j], id)
  }

  class Index {
    var docs: map<string, seq<string>>
    var postings: map<string, set<string>>
    var docCount: int
    var sorted: Option<seq<string>>
    var sortedDirty: bool

    ghost predicate CacheValid()
      reads this
    {
      !sortedDirty && sorted.Some? ==> sorted.value == SortedTerms(postings.Keys)
    }

    ghost predicate Valid()
      reads this
    {
      docCount == |docs| && Inverts(postings, docs) && CacheValid()
    }

    constructor ()
      ensures Valid() && docs == map[]
    {
      docs, postings, docCount, sorted, sortedDirty := map[], map[], 0, None, false;
    }

    method Add(docID: string, text: string)
      requires Valid()
      modifies this
      ensures Valid()
      ensures docs == old(docs)[docID := TokensOf(text)]
    {
      var tokens := Tokenize(text);
      if docID in docs {
        Remove(docID);
      }
      ghost var before := docs;
      var todo := set t | t in tokens;
      AddDocument(postings, docs, docID, tokens);
      docs := docs[docID := tokens];
      docCount := docCount + 1;
      while todo != {}
        invariant todo <= set t | t in tokens
        invariant docs == before[docID := tokens] && docCount == |docs|
        invariant InvertsExcept(postings, docs, docID, todo)
        invariant CacheValid()
        decreases todo
      {
        var tok :| tok in todo;
        AddPostingStep(postings, docs, docID, todo, tok);
        todo := todo - {tok};
        if tok !in postings {
          sortedDirty := true;
        } else {
          assert AddPosting(postings, tok, docID).Keys == postings.Keys;
        }
        postings := AddPosting(postings, tok, docID);
      }
      NothingMissing(postings, docs, docID);
    }

    /** Removing a document that is not indexed changes nothing. */
    method Remove(docID: string)
      requires Valid()
      modifies this
      ensures Valid()
      ensures docs == old(docs) - {docID}
    {
      if docID !in docs {
        return;
      }
      var todo := set t | t in docs[docID];
      ghost var all := todo;
      while todo != {}
        invariant todo <= all
        invariant docs == old(docs) && docCount == old(docCount)
        invariant InvertsExcept(postings, docs, docID, all - todo)
        invariant CacheValid()
        decreases todo
      {
        var tok :| tok in todo;
        RemovePostingStep(postings, docs, docID, all - todo, tok);
        assert all - todo + {tok} == all - (todo - {tok});
        todo := todo - {tok};
        if tok in postings && postings[tok] - {docID} == {} {
          sortedDirty := true;
        } else {
          assert RemovePosting(postings, tok, docID).Keys == postings.Keys;
        }
        postings := RemovePosting(postings, tok, docID);
      }
      RemoveDocument(postings, docs, docID, all);
      docs := docs - {docID};
      docCount := docCount - 1;
    }

    method Size() returns (n: int)
      requires Valid()
      ensures n == |docs|
    {
      n := docCount;
    }

    /** The sorted terms, rebuilding the cache only when it is missing or stale. */
    method Terms() returns (out: seq<string>)
      requires Valid()
      modifies this`sorted, this`sortedDirty
      ensures Valid()
      ensures out == SortedTerms(postings.Keys)
    {
      if sortedDirty || sorted.None? {
        var keys: seq<string> := [];
        var todo := postings.Keys;
        while todo != {}
          invariant todo <= postings.Keys
          invariant forall t :: t in keys <==> t in postings.Keys - todo
          invariant Distinct(keys)
          decreases todo
        {
          var t :| t in todo;
          assert t !in keys;
          todo := todo - {t};
          keys := keys + [t];
        }
        LessIsStrictTotal(postings.Keys);
        var q := Sort(Less, keys, postings.Keys);
        sorted := Some(q);
        sortedDirty := false;
      }
      out := sorted.value;
    }

    /** The documents that own a token with the given (non-empty) prefix. */
    method SearchPrefix(prefix: string) returns (ids: set<string>)
      requires Valid()
      modifies this`sorted, this`sortedDirty
      ensures Valid()
      ensures forall id :: id in ids <==> prefix != "" && Owns(docs, id, ToLowerAll(prefix))
    {
      var p := ToLowerAll(prefix);
      ids := {};
      if p == "" {
        return;
      }
      var terms := Terms();
      var start := SearchStrings(terms, p);
      ids := ScanFrom(postings, terms, p, start);
      forall id
        ensures id in ids <==> Owns(docs, id, p)
      {
        var i: nat :| ScannedTo(postings, terms, p, start, i, ids);
        ScanFindsOwners(docs, postings, terms, p, start, i, id);
      }
    }
  }

  /** The scan from `start` stopped at `i` and collected the posting lists before it. */
  ghost predicate ScannedTo(postings: map<string, set<string>>, terms: seq<string>, p: string,
                            start: nat, i: nat, ids: set<string>) {
    && start <= i <= |terms|
    && (forall j | start <= j < i :: p <= terms[j])
    && (i < |terms| ==> !(p <= terms[i]))
    && (forall id :: id in ids <==> InScanned(postings, terms, start, i, id))
  }

  lemma InScannedOneMore(postings: map<string, set<string>>, terms: seq<string>, start: nat, i: nat)
    requires start <= i < |terms| && terms[i] in postings
    ensures forall id :: InScanned(postings, terms, start, i + 1, id) <==>
                         InScanned(postings, terms, start, i, id) || id in postings[terms[i]]
  {
    forall id
      ensures InScanned(postings, terms, start, i + 1, id) <==>
              InScanned(postings, terms, start, i, id) || id in postings[terms[i]]
    {
      if id in postings[terms[i]] { assert Has(postings, terms[i], id); }
    }
  }

  method ScanFrom(postings: map<string, set<string>>, terms: seq<string>, p: string, start: nat)
    returns (ids: set<string>)
    requires start <= |terms| && forall t | t in terms :: t in postings
    ensures exists i: nat :: ScannedTo(postings, terms, p, start, i, ids)
  {
    ids := {};
    var i := start;
    while i < |terms| && p <= terms[i]
      invariant start <= i <= |terms|
      invariant forall j | start <= j < i :: p <= terms[j]
      invariant forall id :: id in ids <==> InScanned(postings, terms, start, i, id)
    {
      assert terms[i] in terms;
      InScannedOneMore(postings, terms, start, i);
      ids := ids + postings[terms[i]];
      i := i + 1;
    }
    assert ScannedTo(postings, terms, p, start, i, ids);
  }

  /** The scan of an ascending list from the lower bound of `p` may stop at the
      first term without that prefix. */
  lemma ScanStopsRightly(terms: seq<string>, p: string, i: nat, j: nat)
    requires Ascending(Less, terms) && i <= j < |terms|
    requires !Less(terms[i], p) && !(p <= terms[i])
    ensures !(p <= terms[j])
  {
    if i < j {
      AscendingAt(Less, terms, i, j);
      PastPrefixRange(p, terms[i], terms[j]);
    }
  }

  /** The scanned posting lists contain exactly the owners of the prefix. */
  lemma ScanFindsOwners(docs: map<string, seq<string>>, postings: map<string, set<string>>,
                        terms: seq<string>, p: string, start: nat, i: nat, id: string)
    requires Inverts(postings, docs) && IsSorted(Less, terms, postings.Keys)
    requires start <= i <= |terms|
    requires forall k | 0 <= k < start :: Less(terms[k], p)
    requires forall k | start <= k < |terms| :: !Less(terms[k], p)
    requires forall j | start <= j < i :: p <= terms[j]
    requires i < |terms| ==> !(p <= terms[i])
    ensures InScanned(postings, terms, start, i, id) <==> Owns(docs, id, p)
  {
    if InScanned(postings, terms, start, i, id) {
      var j :| start <= j < i && j < |terms| && Has(postings, terms[j], id);
      assert terms[j] in docs[id] && p <= terms[j];
    }
    if Owns(docs, id, p) {
      var t :| t in docs[id] && p <= t;
      assert Has(postings, t, id);
      assert t in terms;
      var j :| 0 <= j < |terms| && terms[j] == t;
      PrefixNotBelow(p, t);
      if i <= j { ScanStopsRightly(terms, p, i, j); }
    }
  }
}
