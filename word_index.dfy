/**
 * The inverted word index and the conjunctive search that both revisions of the
 * recipe store (RecipeDatabase and RecipeBase) implement with the same code:
 * `index` adds an id to the posting set of every lower-cased word of a text;
 * `searchRecipes` counts, per id, how many distinct query words hit it and
 * keeps the ids hit by all of them, grouped by name in a TreeMap.
 */
module WordIndex {
  import opened JavaLang
  import opened TreeMaps

  /** indexMap: search word -> set of recipe ids. */
  type Index = map<string, set<int>>

  /** The distinct elements of a word list. */
  function Elems(ws: seq<string>): set<string>
  {
    set w | w in ws
  }

  /** The words `index` records for a text: its split(" ") pieces, lower-cased. */
  function Words(text: string): (ws: set<string>)
    ensures forall w :: w in ws ==> ' ' !in w
  {
    Elems(LowerAll(Split(text)))
  }

  /** The terms of a search string: lower-cased, split(" "), duplicates dropped. */
  function Terms(searchString: string): set<string>
  {
    Elems(Split(Lower(searchString)))
  }

  /** A search string yields exactly the words the index records for the same text. */
  lemma TermsAreWords(searchString: string)
    ensures Terms(searchString) == Words(searchString)
  {
    SplitLower(searchString);
  }

  /** A query made only of spaces has no terms, so it needs k = 0 hits and matches nothing. */
  lemma BlankQueryHasNoTerms(searchString: string)
    requires |searchString| > 0 && forall i :: 0 <= i < |searchString| ==> searchString[i] == ' '
    ensures Terms(searchString) == {}
  {
    SplitLower(searchString);
    SplitOfSpaces(searchString);
  }

  /** The empty query is the one-word query for the empty token. */
  lemma EmptyQueryIsEmptyToken()
    ensures Terms("") == {""}
  {
    assert Lower("") == "";
    assert Split("") == [""];
  }

  /** The index after id has been added to the posting set of every word of ws. */
  function Posted(idx: Index, ws: set<string>, id: int): Index
  {
    map w | w in idx.Keys + ws :: (if w in idx then idx[w] else {}) + (if w in ws then {id} else {})
  }

  /** Posting adds the id under the words of ws, and nothing else. */
  lemma PostedFacts(idx: Index, ws: set<string>, id: int)
    ensures var r := Posted(idx, ws, id);
      && r.Keys == idx.Keys + ws
      && (forall w :: w in idx ==> idx[w] <= r[w])
      && (forall w :: w in ws ==> id in r[w])
      && (forall w, i :: w in r && i in r[w] ==> (w in idx && i in idx[w]) || (w in ws && i == id))
  {
  }

  /** Posting one word more is one step of the indexing loop. */
  lemma PostedStep(idx: Index, ws: set<string>, w: string, id: int)
    ensures var p := Posted(idx, ws, id);
            var q := if w in p then p else p[w := {}];
            q[w := q[w] + {id}] == Posted(idx, ws + {w}, id)
  {
    var p := Posted(idx, ws, id);
    var q := if w in p then p else p[w := {}];
    var lhs := q[w := q[w] + {id}];
    var rhs := Posted(idx, ws + {w}, id);
    assert lhs.Keys == rhs.Keys;
    forall x | x in lhs
      ensures lhs[x] == rhs[x]
    {
    }
  }

  /** Posting under no word leaves the index as it was. */
  lemma PostedNone(idx: Index, id: int)
    ensures Posted(idx, {}, id) == idx
  {
    var p := Posted(idx, {}, id);
    assert p.Keys == idx.Keys;
    forall x | x in p
      ensures p[x] == idx[x]
    {
    }
  }

  /** Indexing two texts one after the other posts the id under the words of both. */
  lemma PostedUnion(idx: Index, a: set<string>, b: set<string>, id: int)
    ensures Posted(Posted(idx, a, id), b, id) == Posted(idx, a + b, id)
  {
    var p := Posted(idx, a, id);
    var lhs := Posted(p, b, id);
    var rhs := Posted(idx, a + b, id);
    assert lhs.Keys == rhs.Keys;
    forall x | x in lhs
      ensures lhs[x] == rhs[x]
    {
      var old0: set<int> := if x in idx then idx[x] else {};
      assert rhs[x] == old0 + (if x in a + b then {id} else {});
      var mid: set<int> := if x in p then p[x] else {};
      assert mid == old0 + (if x in a then {id} else {});
      assert lhs[x] == mid + (if x in b then {id} else {});
    }
  }

  /** The first loop of `index`: lower-case every word in place. */
  method LowerWords(words: seq<string>) returns (lowered: seq<string>)
    ensures lowered == LowerAll(words)
  {
    lowered := words;
    for i := 0 to |lowered|
      invariant |lowered| == |words|
      invariant forall j :: 0 <= j < i ==> lowered[j] == Lower(words[j])
      invariant forall j :: i <= j < |lowered| ==> lowered[j] == words[j]
    {
      lowered := lowered[i := Lower(lowered[i])];
    }
  }

  /**
   * The index holds exactly the stored ids under exactly their recipes' words:
   * every posted id is stored and was indexed under that word, and every
   * stored recipe is posted under each of its words.
   */
  ghost predicate IndexExact<R>(idx: Index, ids: map<int, R>, wordsOf: R -> set<string>) {
    && (forall w, i :: w in idx && i in idx[w] ==> i in ids && w in wordsOf(ids[i]))
    && (forall i, w :: i in ids && w in wordsOf(ids[i]) ==> w in idx && i in idx[w])
  }

  /** Posting a new id under its recipe's words keeps the index exact. */
  lemma PostedKeepsExact<R>(idx: Index, ids: map<int, R>, wordsOf: R -> set<string>, id: int, r: R)
    requires IndexExact(idx, ids, wordsOf)
    requires id !in ids
    ensures IndexExact(Posted(idx, wordsOf(r), id), ids[id := r], wordsOf)
  {
    PostedFacts(idx, wordsOf(r), id);
  }

  /** An exact index posts only stored ids, so idMap.get(i) in a search never returns null. */
  lemma ExactPostingsStored<R>(idx: Index, ids: map<int, R>, wordsOf: R -> set<string>)
    requires IndexExact(idx, ids, wordsOf)
    ensures PostingsStored(idx, ids)
  {
    forall w | w in idx
      ensures idx[w] <= ids.Keys
    {
      forall i | i in idx[w]
        ensures i in ids
      {
      }
    }
  }

  /** Against an exact index, an id matches the terms iff its recipe has all of them as words. */
  lemma ExactMatches<R>(idx: Index, ids: map<int, R>, wordsOf: R -> set<string>, terms: set<string>, id: int)
    requires IndexExact(idx, ids, wordsOf)
    requires id in ids
    ensures Matches(idx, terms, id) <==> terms != {} && terms <= wordsOf(ids[id])
  {
  }

  /** RecipeDatabase.index / RecipeBase.index, on the index as a value. */
  method AddWords(idx: Index, text: string, id: int) returns (updated: Index)
    ensures updated == Posted(idx, Words(text), id)
  {
    var words := Split(text);
    words := LowerWords(words);
    updated := idx;
    PostedNone(idx, id);
    assert Elems(words[..0]) == {};
    for j := 0 to |words|
      invariant updated == Posted(idx, Elems(words[..j]), id)
    {
      var word := words[j];
      PostedStep(idx, Elems(words[..j]), word, id);
      if word !in updated {
        updated := updated[word := {}];
      }
      updated := updated[word := updated[word] + {id}];
      assert Elems(words[..j + 1]) == Elems(words[..j]) + {word} by {
        assert words[..j + 1] == words[..j] + [word];
      }
    }
    assert words[..|words|] == words;
  }

  /** The number of distinct terms whose posting set holds id. */
  function HitCount(idx: Index, terms: set<string>, id: int): nat
  {
    |set w | w in terms && w in idx && id in idx[w]|
  }

  lemma HitCountStep(idx: Index, done: set<string>, s: string, id: int)
    requires s !in done
    ensures HitCount(idx, done + {s}, id)
         == HitCount(idx, done, id) + (if s in idx && id in idx[s] then 1 else 0)
  {
    var before := set w | w in done && w in idx && id in idx[w];
    var after := set w | w in done + {s} && w in idx && id in idx[w];
    if s in idx && id in idx[s] {
      assert after == before + {s};
    } else {
      assert after == before;
    }
  }

  lemma {:induction false} SubsetCard<T>(a: set<T>, b: set<T>)
    requires a <= b
    ensures |a| <= |b|
    ensures |a| == |b| ==> a == b
    decreases b
  {
    if b != {} {
      var x :| x in b;
      SubsetCard(a - {x}, b - {x});
      if x in a {
        assert a == (a - {x}) + {x};
      }
    }
  }

  /**
   * Posting sets are sets and the terms are distinct, so an id is hit exactly
   * |terms| times iff every term's posting set holds it.
   */
  lemma HitCountAll(idx: Index, terms: set<string>, id: int)
    ensures HitCount(idx, terms, id) == |terms| <==> forall w :: w in terms ==> w in idx && id in idx[w]
  {
    var hit := set w | w in terms && w in idx && id in idx[w];
    SubsetCard(hit, terms);
    if forall w :: w in terms ==> w in idx && id in idx[w] {
      assert hit == terms;
    }
  }

  /** Every id in a posting set has a recipe in idMap. */
  ghost predicate PostingsStored<R>(idx: Index, idMap: map<int, R>) {
    forall w :: w in idx ==> idx[w] <= idMap.Keys
  }

  /** for (int i : set) count one hit for idMap.get(i).recipeId. */
  method AddHits<R>(hitTable: map<int, int>, posting: set<int>, idMap: map<int, R>, idOf: R -> int)
      returns (updated: map<int, int>)
    requires posting <= idMap.Keys
    requires forall i :: i in idMap ==> idOf(idMap[i]) == i
    ensures updated.Keys == hitTable.Keys + posting
    ensures forall i :: i in updated ==>
      updated[i] == (if i in hitTable then hitTable[i] else 0) + (if i in posting then 1 else 0)
  {
    updated := hitTable;
    var pending := posting;
    while pending != {}
      invariant pending <= posting
      invariant updated.Keys == hitTable.Keys + (posting - pending)
      invariant forall i :: i in updated ==>
        updated[i] == (if i in hitTable then hitTable[i] else 0) + (if i in posting && i !in pending then 1 else 0)
      decreases pending
    {
      ghost var some := Pick(pending);
      var i :| i in pending;
      var id := idOf(idMap[i]);
      if id !in updated {
        updated := updated[id := 1];
      } else {
        updated := updated[id := updated[id] + 1];
      }
      pending := pending - {i};
    }
  }

  /** The hit table after the terms in done have been counted. */
  ghost predicate Counted(idx: Index, done: set<string>, hitTable: map<int, int>) {
    (forall i :: i in hitTable <==> HitCount(idx, done, i) > 0) &&
    (forall i :: i in hitTable ==> hitTable[i] == HitCount(idx, done, i))
  }

  /** Counting the posting set of one more term keeps the table exact. */
  lemma CountedStep(idx: Index, done: set<string>, s: string, posting: set<int>,
                    before: map<int, int>, after: map<int, int>)
    requires s !in done
    requires posting == if s in idx then idx[s] else {}
    requires Counted(idx, done, before)
    requires after.Keys == before.Keys + posting
    requires forall i :: i in after ==>
      after[i] == (if i in before then before[i] else 0) + (if i in posting then 1 else 0)
    ensures Counted(idx, done + {s}, after)
  {
    forall i
      ensures i in after <==> HitCount(idx, done + {s}, i) > 0
      ensures i in after ==> after[i] == HitCount(idx, done + {s}, i)
    {
      HitCountStep(idx, done, s, i);
    }
  }

  /**
   * The hitTable loop of searchRecipes: for each distinct term, for each id in
   * its posting set, count one hit for that id.
   */
  method CountHits<R>(idx: Index, idMap: map<int, R>, idOf: R -> int, terms: set<string>)
      returns (hitTable: map<int, int>)
    requires PostingsStored(idx, idMap)
    requires forall i :: i in idMap ==> idOf(idMap[i]) == i
    ensures hitTable.Keys <= idMap.Keys
    ensures Counted(idx, terms, hitTable)
  {
    hitTable := map[];
    var todo := terms;
    while todo != {}
      invariant todo <= terms
      invariant hitTable.Keys <= idMap.Keys
      invariant Counted(idx, terms - todo, hitTable)
      decreases todo
    {
      ghost var some := Pick(todo);
      var s :| s in todo;
      ghost var before := hitTable;
      ghost var posting: set<int> := {};
      if s in idx {
        posting := idx[s];
        hitTable := AddHits(hitTable, idx[s], idMap, idOf);
      }
      CountedStep(idx, terms - todo, s, posting, before, hitTable);
      assert (terms - todo) + {s} == terms - (todo - {s});
      todo := todo - {s};
    }
    assert terms - todo == terms;
  }

  /**
   * The resultTree loop of searchRecipes: every id whose hit count equals
   * numTerms goes, as its recipe, into the list kept under the recipe's name.
   */
  method GroupMatches<R(==)>(hitTable: map<int, int>, numTerms: int, idMap: map<int, R>,
                             idOf: R -> int, nameOf: R -> string)
      returns (tree: map<string, seq<R>>)
    requires hitTable.Keys <= idMap.Keys
    requires forall i :: i in idMap ==> idOf(idMap[i]) == i
    ensures Grouped(tree, nameOf)
    ensures forall k :: k in tree ==> Distinct(tree[k])
    ensures forall r :: nameOf(r) in tree && r in tree[nameOf(r)] <==>
      idOf(r) in hitTable && hitTable[idOf(r)] == numTerms && idMap[idOf(r)] == r
  {
    tree := map[];
    var rest := hitTable.Keys;
    while rest != {}
      invariant rest <= hitTable.Keys
      invariant Grouped(tree, nameOf)
      invariant forall k :: k in tree ==> Distinct(tree[k])
      invariant forall r :: nameOf(r) in tree && r in tree[nameOf(r)] <==>
        idOf(r) in hitTable && idOf(r) !in rest && hitTable[idOf(r)] == numTerms && idMap[idOf(r)] == r
      decreases rest
    {
      ghost var some := Pick(rest);
      var i :| i in rest;
      if hitTable[i] == numTerms {
        var recipe := idMap[i];
        var name := nameOf(recipe);
        if name !in tree {
          tree := tree[name := []];
        }
        tree := tree[name := tree[name] + [recipe]];
      }
      rest := rest - {i};
    }
  }

  /**
   * What searchRecipes returns, on the index and idMap as values:
   * each recipe whose id is in the posting set of every term, once, by name.
   */
  method Search<R(==)>(idx: Index, idMap: map<int, R>, idOf: R -> int, nameOf: R -> string,
                       searchString: string)
      returns (result: seq<R>)
    requires PostingsStored(idx, idMap)
    requires forall i :: i in idMap ==> idOf(idMap[i]) == i
    ensures forall r :: r in result <==>
      idOf(r) in idMap && idMap[idOf(r)] == r && Matches(idx, Terms(searchString), idOf(r))
    ensures Distinct(result)
    ensures SortedBy(result, nameOf)
  {
    var lowered := Lower(searchString);
    var searchWords := Split(lowered);
    var searchWordSet := Dedupe(searchWords);
    var numTerms := |searchWordSet|;
    var hitTable := CountHits(idx, idMap, idOf, searchWordSet);
    CountedMatches(idx, searchWordSet, hitTable);
    var resultTree := GroupMatches(hitTable, numTerms, idMap, idOf, nameOf);
    result := FlattenLists(resultTree, nameOf, idOf);
  }

  /** The loop that eliminates duplicate search terms. */
  method Dedupe(words: seq<string>) returns (wordSet: set<string>)
    ensures wordSet == Elems(words)
  {
    wordSet := {};
    for j := 0 to |words|
      invariant wordSet == Elems(words[..j])
    {
      assert words[..j + 1] == words[..j] + [words[j]];
      wordSet := wordSet + {words[j]};
    }
    assert words[..|words|] == words;
  }

  /** An id reaches the full count of distinct terms exactly when it matches them all. */
  lemma CountedMatches(idx: Index, terms: set<string>, hitTable: map<int, int>)
    requires Counted(idx, terms, hitTable)
    ensures forall id :: (id in hitTable && hitTable[id] == |terms|) <==> Matches(idx, terms, id)
  {
    forall id
      ensures (id in hitTable && hitTable[id] == |terms|) <==> Matches(idx, terms, id)
    {
      HitCountAll(idx, terms, id);
    }
  }

  /** An id matches when the terms are not empty and each term's posting set holds it. */
  ghost predicate Matches(idx: Index, terms: set<string>, id: int) {
    terms != {} && forall w :: w in terms ==> w in idx && id in idx[w]
  }
}
