/** What every spider shares: the shape an article is stored in, the
    duplicate test over the documents a query returned, and the lookup of
    a collection by name. The database itself is outside the model: a
    query's results are an input and an insertion is returned as the
    collection and document to insert. */
module BaseSpider {
  import opened Wrappers
  import opened PyStrings

  /** The values an article dictionary holds. */
  datatype Value =
    | Text(s: string)
    | Number(n: int)
    | Flag(b: bool)
    | Timestamp(t: int)
    | Dict(fields: map<string, Value>)
    | List(items: seq<Value>)
    | Null

  type Article = map<string, Value>

  const MetaKey := "_scrapy_meta"
  const UpdatedKey := "last_updated"

  /** `key[0].islower()`, for a key with a first character. */
  predicate IsMetaKey(k: string)
    requires |k| > 0
  {
    IsAsciiLower(k[0])
  }

  // ---------------------------------------------------------------------
  // save_article
  // ---------------------------------------------------------------------

  /** The fields treated as crawler metadata: keys starting lowercase. */
  function MetaFields(article: Article): map<string, Value> {
    map k | k in article && |k| > 0 && IsMetaKey(k) :: article[k]
  }

  /** The fields kept at the top level. */
  function TopFields(article: Article): map<string, Value> {
    map k | k in article && |k| > 0 && !IsMetaKey(k) :: article[k]
  }

  /** The stored document: top-level fields, then the metadata under
      `_scrapy_meta`, then the time of saving under `last_updated`.
      An empty key raises IndexError at `key[0]`. */
  function Shaped(article: Article, now: int): Result<Article> {
    if "" in article then Failure(IndexError)
    else Success(TopFields(article)[MetaKey := Dict(MetaFields(article))][UpdatedKey := Timestamp(now)])
  }

  /** Where a spider saves to: a collection object or a collection name. */
  datatype Target<C> = Col(c: C) | Name(name: string)

  /** `get_col`: a collection is used as given, a name is looked up
      (KeyError when the spider has no such collection). */
  function GetCol<C>(to: Target<C>, collections: map<string, C>): (r: Result<C>)
    ensures to.Col? ==> r == Success(to.c)
    ensures to.Name? ==> (r.Success? <==> to.name in collections)
    ensures to.Name? && r.Success? ==> r.value == collections[to.name]
    ensures r.Failure? ==> r.error == KeyError
  {
    match to
    case Col(c) => Success(c)
    case Name(n) => if n in collections then Success(collections[n]) else Failure(KeyError)
  }

  /** The loop of `save_article` that moves the lowercase keys aside. */
  method SplitMeta(article: Article) returns (r: Result<(Article, map<string, Value>)>)
    ensures "" in article <==> r.Failure?
    ensures r.Failure? ==> r.error == IndexError
    ensures r.Success? ==> r.value == (TopFields(article), MetaFields(article))
  {
    var metaDict: map<string, Value> := map[];
    var rest := article;
    var todo := article.Keys;
    while todo != {}
      invariant todo <= article.Keys
      invariant "" in article ==> "" in todo
      invariant rest == map k | k in article && (k in todo || !IsMetaKey(k)) :: article[k]
      invariant metaDict == map k | k in article && k !in todo && IsMetaKey(k) :: article[k]
      decreases todo
    {
      var key :| key in todo;
      if |key| == 0 {
        return Failure(IndexError);
      }
      if IsMetaKey(key) {
        metaDict := metaDict[key := article[key]];
        rest := rest - {key};
      }
      todo := todo - {key};
    }
    assert "" !in article;
    assert rest == TopFields(article);
    assert metaDict == MetaFields(article);
    return Success((rest, metaDict));
  }

  /** `save_article`: the article is reshaped and inserted into the target
      collection; returns the collection and the document inserted. */
  method SaveArticle<C>(article: Article, to: Target<C>, collections: map<string, C>, now: int)
    returns (r: Result<(C, Article)>)
    ensures r.Failure? <==> "" in article || GetCol(to, collections).Failure?
    ensures "" in article ==> r == Failure(IndexError)
    ensures r.Failure? && "" !in article ==> r.error == KeyError
    ensures r.Success? ==> r.value == (GetCol(to, collections).value, Shaped(article, now).value)
  {
    var split := SplitMeta(article);
    if split.Failure? {
      return Failure(split.error);
    }
    var (rest, metaDict) := split.value;
    var doc := rest[MetaKey := Dict(metaDict)];
    doc := doc[UpdatedKey := Timestamp(now)];
    var col :- GetCol(to, collections);
    return Success((col, doc));
  }

  /** Every lowercase key moves under `_scrapy_meta` with its value; every
      other key stays where it was, unless it is one of the two keys the
      method writes; the document then has exactly those keys. */
  lemma ShapedMovesLowercaseKeys(article: Article, now: int)
    requires "" !in article
    ensures var d := Shaped(article, now).value;
      && d.Keys == (set k | k in article && !IsMetaKey(k)) + {MetaKey, UpdatedKey}
      && d[MetaKey] == Dict(MetaFields(article))
      && d[UpdatedKey] == Timestamp(now)
      && (forall k :: k in article && IsMetaKey(k) ==>
            k in MetaFields(article) && MetaFields(article)[k] == article[k])
      && (forall k :: k in MetaFields(article) ==> k in article && IsMetaKey(k))
      && (forall k :: k in article && !IsMetaKey(k) && k != MetaKey ==> d[k] == article[k])
      && (forall k :: k in article && IsMetaKey(k) && k != UpdatedKey ==> k !in d)
  {
    var d := Shaped(article, now).value;
    assert !IsMetaKey(MetaKey);
    assert IsMetaKey(UpdatedKey);
    forall k | k in article && IsMetaKey(k) && k != UpdatedKey ensures k !in d {
      assert k != MetaKey;
    }
  }

  /** An empty key is the only way `save_article` raises IndexError. */
  lemma ShapedFailsOnEmptyKey(article: Article, now: int)
    ensures Shaped(article, now).Failure? <==> "" in article
    ensures Shaped(article, now).Failure? ==> Shaped(article, now).error == IndexError
  {
  }

  lemma MetaAndTopPartition(article: Article)
    requires "" !in article
    ensures MetaFields(article).Keys !! TopFields(article).Keys
    ensures MetaFields(article) + TopFields(article) == article
  {
  }

  // ---------------------------------------------------------------------
  // has_duplicate
  // ---------------------------------------------------------------------

  /** Python's three possible answers: True, False or the implicit None. */
  function Truthy(r: Option<bool>): bool { r == Some(true) }

  /** What `has_duplicate` decides: some returned document matches
      (any document does when there is no comparator). */
  ghost predicate SomeMatch<D>(results: seq<D>, comparator: Option<D -> bool>) {
    exists i :: 0 <= i < |results| && Matches(comparator, results[i])
  }

  /** `comparator(doc)`, where a missing comparator accepts everything. */
  predicate Matches<D>(comparator: Option<D -> bool>, doc: D) {
    comparator.None? || comparator.value(doc)
  }

  /** `has_duplicate` over the documents the query returned:
      False for none, True at the first match, and None when a comparator
      rejected every document. */
  method HasDuplicate<D>(results: seq<D>, comparator: Option<D -> bool>) returns (r: Option<bool>)
    ensures |results| == 0 <==> r == Some(false)
    ensures |results| > 0 ==> (r == Some(true) <==> SomeMatch(results, comparator))
    ensures |results| > 0 && !SomeMatch(results, comparator) ==> r == None
    ensures comparator.None? && |results| > 0 ==> r == Some(true)
    ensures Truthy(r) <==> SomeMatch(results, comparator)
  {
    if |results| == 0 {
      return Some(false);
    }
    for i := 0 to |results|
      invariant forall k :: 0 <= k < i ==> !Matches(comparator, results[k])
    {
      if comparator.Some? {
        if comparator.value(results[i]) {
          assert Matches(comparator, results[i]);
          return Some(true);
        }
      } else {
        assert Matches(comparator, results[i]);
        return Some(true);
      }
    }
    assert !Matches(comparator, results[0]);
    return None;
  }
}
