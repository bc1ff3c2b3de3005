/** What main prints: the grids ranked by their number of posts and, for
    each grid, its five most frequent hashtags. */
module Report {
  import opened Data
  import opened PyDict
  import opened GridLookup
  import opened Filter
  import opened Stat
  import opened Ranking

  /** How many hashtags are listed per grid. */
  const TOP_K: nat := 5

  /** The sort key of a grid item: its number of posts. */
  function PostsKey(item: (Key, GridStats)): int {
    item.1.numPosts
  }

  /** The sort key of a hashtag item: its count. */
  function CountKey(item: (Key, nat)): int {
    item.1
  }

  function Min(a: nat, b: nat): nat {
    if a <= b then a else b
  }

  /** sorted(d.items(), key=..., reverse=True). */
  function SortItems<V>(d: Dict<V>, key: ((Key, V)) -> int): (r: seq<(Key, V)>)
    requires Valid(d)
    ensures |r| == |d.keys|
  {
    SortDesc(Items(d), key)
  }

  /** grid_ls: the grids of grid_dict, most posts first. */
  function RankGrids(gridDict: Dict<GridStats>): seq<(Key, GridStats)>
    requires Valid(gridDict)
  {
    SortItems(gridDict, PostsKey)
  }

  /** hashtag_ls[:5]: a grid's hashtags, most frequent first, cut to TOP_K. */
  function TopHashtags(h: Dict<nat>): (r: seq<(Key, nat)>)
    requires Valid(h)
    ensures |r| <= TOP_K
  {
    var sorted := SortItems(h, CountKey);
    sorted[..Min(TOP_K, |sorted|)]
  }

  /** The ranking of the grid dictionary built from the filtered records. */
  function RankRecords(recs: seq<Record>): seq<(Key, GridStats)> {
    StatValid(recs);
    RankGrids(StatOf(recs))
  }

  /** The ranking main computes from the raw tweets and the grid boxes. */
  function GridRanking(tweets: seq<Tweet>, grids: seq<Grid>): seq<(Key, GridStats)> {
    RankRecords(Filtered(tweets, grids))
  }

  // ---- The sorted items ----

  /** Sorting the items reorders them and nothing more. */
  lemma SortItemsContents<V>(d: Dict<V>, key: ((Key, V)) -> int)
    requires Valid(d)
    ensures multiset(SortItems(d, key)) == multiset(Items(d))
    ensures |SortItems(d, key)| == |d.entries|
  {
    SortDescPermutes(Items(d), key);
    SizeIsKeyCount(d);
    assert |multiset(SortItems(d, key))| == |multiset(Items(d))|;
  }

  /** Each sorted item is a key of d with its value, and every key of d has
      an item. */
  lemma SortItemsEntries<V>(d: Dict<V>, key: ((Key, V)) -> int)
    requires Valid(d)
    ensures var r := SortItems(d, key);
            forall i :: 0 <= i < |r| ==> r[i].0 in d.entries && d.entries[r[i].0] == r[i].1
    ensures var r := SortItems(d, key);
            forall k :: k in d.entries ==> exists i :: 0 <= i < |r| && r[i].0 == k
  {
    var r := SortItems(d, key);
    SortItemsContents(d, key);
    ItemsMembership(d);
    forall i | 0 <= i < |r|
      ensures r[i] in Items(d)
    {
      assert r[i] in multiset(r);
    }
    forall k | k in d.entries
      ensures exists i :: 0 <= i < |r| && r[i].0 == k
    {
      assert (k, d.entries[k]) in multiset(Items(d));
      assert (k, d.entries[k]) in r;
    }
  }

  /** The sorted items have non-increasing keys, and items with equal keys
      keep the dictionary's insertion order. */
  lemma SortItemsOrder<V>(d: Dict<V>, key: ((Key, V)) -> int)
    requires Valid(d)
    ensures Descending(SortItems(d, key), key)
    ensures forall k :: WithKey(SortItems(d, key), key, k) == WithKey(Items(d), key, k)
  {
    SortDescDescending(Items(d), key);
    SortDescStableAll(Items(d), key);
  }

  // ---- The top hashtags ----

  /** The top list holds min(5, number of distinct hashtags) entries, each a
      hashtag of the grid with its count, largest count first. */
  lemma TopHashtagsContents(h: Dict<nat>)
    requires Valid(h)
    ensures |TopHashtags(h)| == Min(TOP_K, |h.entries|)
    ensures Descending(TopHashtags(h), CountKey)
    ensures var r := TopHashtags(h);
            forall i :: 0 <= i < |r| ==> r[i].0 in h.entries && h.entries[r[i].0] == r[i].1
  {
    SortItemsContents(h, CountKey);
    SortItemsOrder(h, CountKey);
    SortItemsEntries(h, CountKey);
  }

  /** No hashtag left off the list has a larger count than one on it. */
  lemma TopHashtagsOmitted(h: Dict<nat>)
    requires Valid(h)
    ensures forall x, y :: x in TopHashtags(h) && y in Items(h) && y !in TopHashtags(h) ==> CountKey(y) <= CountKey(x)
  {
    SortItemsContents(h, CountKey);
    SortItemsOrder(h, CountKey);
    var sorted := SortItems(h, CountKey);
    forall y | y in Items(h)
      ensures y in sorted
    {
      assert y in multiset(Items(h));
    }
    PrefixDominates(sorted, |TopHashtags(h)|, CountKey);
  }

  /** Among hashtags with the same count, the ones listed are the first ones
      inserted, in insertion order. */
  lemma TopHashtagsTies(h: Dict<nat>)
    requires Valid(h)
    ensures forall k :: WithKey(TopHashtags(h), CountKey, k) <= WithKey(Items(h), CountKey, k)
  {
    SortItemsOrder(h, CountKey);
    var sorted := SortItems(h, CountKey);
    forall k
      ensures WithKey(TopHashtags(h), CountKey, k) <= WithKey(Items(h), CountKey, k)
    {
      WithKeyPrefix(sorted, |TopHashtags(h)|, CountKey, k);
    }
  }

  // ---- The ranking of the whole run ----

  lemma {:induction false} ItemsTotalPrefix(d: Dict<GridStats>, m: nat)
    requires Valid(d)
    requires m <= |d.keys|
    ensures forall k :: k in d.keys[..m] ==> k in d.entries
    ensures Total(Items(d)[..m], PostsKey) == TotalPosts(d.keys[..m], d.entries)
    decreases m
  {
    assert forall k :: k in d.keys[..m] ==> k in set k' | k' in d.keys;
    if m > 0 {
      ItemsTotalPrefix(d, m - 1);
      assert Items(d)[..m][..m - 1] == Items(d)[..m - 1];
      assert d.keys[..m][..m - 1] == d.keys[..m - 1];
    }
  }

  /** Summing num_posts over the items is summing it over the keys. */
  lemma ItemsTotal(d: Dict<GridStats>)
    requires Valid(d)
    ensures forall k :: k in d.keys ==> k in d.entries
    ensures Total(Items(d), PostsKey) == TotalPosts(d.keys, d.entries)
  {
    ItemsTotalPrefix(d, |d.keys|);
    assert Items(d)[..|d.keys|] == Items(d);
    assert d.keys[..|d.keys|] == d.keys;
  }

  /** The numbers of posts in the ranking add up to the number of records. */
  lemma RankedTotal(recs: seq<Record>)
    ensures Total(RankRecords(recs), PostsKey) == |recs|
  {
    var d := StatOf(recs);
    StatValid(recs);
    StatTotalPosts(recs);
    SortItemsContents(d, PostsKey);
    TotalPermutation(RankRecords(recs), Items(d), PostsKey);
    ItemsTotal(d);
  }

  /** The ranking lists every grid that occurs in the records and nothing else. */
  lemma RankedGrids(recs: seq<Record>)
    ensures var r := RankRecords(recs);
            && (forall g :: g in GridsOf(recs) ==> exists i :: 0 <= i < |r| && r[i].0 == g)
            && (forall i :: 0 <= i < |r| ==> r[i].0 in GridsOf(recs))
  {
    var d := StatOf(recs);
    StatValid(recs);
    StatKeys(recs);
    var r := SortItems(d, PostsKey);
    assert RankRecords(recs) == r;
    SortItemsEntries(d, PostsKey);
    forall g | g in GridsOf(recs)
      ensures exists i :: 0 <= i < |r| && r[i].0 == g
    {
      assert g in d.entries;
    }
    forall i | 0 <= i < |r|
      ensures r[i].0 in GridsOf(recs)
    {
      assert r[i].0 in d.entries;
    }
  }

  /** The ranking has one entry per grid that occurs in the records, so with
      RankedGrids each such grid is listed exactly once. */
  lemma RankedLength(recs: seq<Record>)
    ensures |RankRecords(recs)| == |GridsOf(recs)|
  {
    StatValid(recs);
    StatKeys(recs);
    SortItemsContents(StatOf(recs), PostsKey);
  }

  /** Each ranked grid carries its number of records (at least one) and, for
      every hashtag text, the number of times it occurs in that grid's records. */
  lemma RankedCounts(recs: seq<Record>)
    ensures var r := RankRecords(recs);
            forall i :: 0 <= i < |r| ==>
              && r[i].1.numPosts == PostCount(recs, r[i].0) >= 1
              && Valid(r[i].1.hashtags)
              && forall t :: Get(r[i].1.hashtags, t, 0) == TagCount(recs, r[i].0, t)
  {
    StatValid(recs);
    StatPostCounts(recs);
    StatTagCounts(recs);
    SortItemsEntries(StatOf(recs), PostsKey);
  }

  /** No ranked grid is "Other". */
  lemma RankingNeverOther(tweets: seq<Tweet>, grids: seq<Grid>)
    ensures var r := GridRanking(tweets, grids);
            forall i :: 0 <= i < |r| ==> r[i].0 != OTHER
  {
    var recs := Filtered(tweets, grids);
    var r := GridRanking(tweets, grids);
    FilteredNeverOther(tweets, grids);
    RankedGrids(recs);
    forall i | 0 <= i < |r|
      ensures r[i].0 != OTHER
    {
      var rec :| rec in recs && rec.grid == r[i].0;
    }
  }

  // ---- The hashtag table ----

  /** The TASK 2 table: for each grid of the ranking, in the ranking's order,
      its top hashtags. */
  function HashtagTable(recs: seq<Record>): seq<(Key, seq<(Key, nat)>)> {
    var r := RankRecords(recs);
    RankedCounts(recs);
    seq(|r|, i requires 0 <= i < |r| => (r[i].0, TopHashtags(r[i].1.hashtags)))
  }

  /** Row i of the hashtag table is the grid of row i of the ranking, with at
      most five of its hashtags, each with the number of times it occurs in
      that grid's records, largest count first. */
  lemma HashtagTableRows(recs: seq<Record>)
    ensures var r := RankRecords(recs);
            var table := HashtagTable(recs);
            && |table| == |r|
            && forall i :: 0 <= i < |table| ==>
                 && table[i].0 == r[i].0
                 && |table[i].1| == Min(TOP_K, |r[i].1.hashtags.entries|)
                 && Descending(table[i].1, CountKey)
                 && forall j :: 0 <= j < |table[i].1| ==> table[i].1[j].1 == TagCount(recs, r[i].0, table[i].1[j].0)
  {
    var r := RankRecords(recs);
    var table := HashtagTable(recs);
    RankedCounts(recs);
    forall i | 0 <= i < |table|
      ensures |table[i].1| == Min(TOP_K, |r[i].1.hashtags.entries|)
      ensures Descending(table[i].1, CountKey)
      ensures forall j :: 0 <= j < |table[i].1| ==> table[i].1[j].1 == TagCount(recs, r[i].0, table[i].1[j].0)
    {
      var h := r[i].1.hashtags;
      assert table[i].1 == TopHashtags(h);
      TopHashtagsContents(h);
      forall j | 0 <= j < |table[i].1|
        ensures table[i].1[j].1 == TagCount(recs, r[i].0, table[i].1[j].0)
      {
        assert Get(h, table[i].1[j].0, 0) == TagCount(recs, r[i].0, table[i].1[j].0);
      }
    }
  }

  /** Two sorted items with equal keys come from keys of d in the same order. */
  lemma SortedTiesFollowKeys<V>(d: Dict<V>, key: ((Key, V)) -> int, i: nat, j: nat)
    requires Valid(d)
    requires i < j < |SortItems(d, key)|
    requires key(SortItems(d, key)[i]) == key(SortItems(d, key)[j])
    ensures exists a, b :: 0 <= a < b < |d.keys| && d.keys[a] == SortItems(d, key)[i].0 && d.keys[b] == SortItems(d, key)[j].0
  {
    var items := Items(d);
    var r := SortItems(d, key);
    SortItemsOrder(d, key);
    SameOrderForTies(r, items, key, i, j);
    var a, b :| 0 <= a < b < |items| && items[a] == r[i] && items[b] == r[j];
    assert d.keys[a] == r[i].0 && d.keys[b] == r[j].0;
  }

  lemma RankedTiePair(recs: seq<Record>, i: nat, j: nat, m: nat)
    requires i < j < |RankRecords(recs)|
    requires RankRecords(recs)[i].1.numPosts == RankRecords(recs)[j].1.numPosts
    requires m < |recs| && recs[m].grid == RankRecords(recs)[j].0
    ensures RankRecords(recs)[i].0 in GridsOf(recs[..m])
  {
    var d := StatOf(recs);
    var r := RankRecords(recs);
    StatValid(recs);
    assert r == SortItems(d, PostsKey);
    SortedTiesFollowKeys(d, PostsKey, i, j);
    var a, b :| 0 <= a < b < |d.keys| && d.keys[a] == r[i].0 && d.keys[b] == r[j].0;
    FirstSeenPair(recs, a, b, m);
  }

  /** Grids with equal num_posts are ranked in the order in which their grids
      first occur in the records: wherever the later-ranked grid occurs, the
      earlier-ranked one has occurred before. */
  lemma RankedTies(recs: seq<Record>)
    ensures var r := RankRecords(recs);
            forall i, j, m :: 0 <= i < j < |r| && r[i].1.numPosts == r[j].1.numPosts &&
                              0 <= m < |recs| && recs[m].grid == r[j].0 ==>
                                r[i].0 in GridsOf(recs[..m])
  {
    var r := RankRecords(recs);
    forall i, j, m | 0 <= i < j < |r| && r[i].1.numPosts == r[j].1.numPosts &&
                     0 <= m < |recs| && recs[m].grid == r[j].0
      ensures r[i].0 in GridsOf(recs[..m])
    {
      RankedTiePair(recs, i, j, m);
    }
  }

  /** A hashtag whose count exceeds that of a listed hashtag is listed too. */
  lemma TopHashtagsComplete(h: Dict<nat>)
    requires Valid(h)
    ensures var top := TopHashtags(h);
            forall t, j :: t in h.entries && 0 <= j < |top| && h.entries[t] > top[j].1 ==>
                             exists l :: 0 <= l < |top| && top[l].0 == t
  {
    var top := TopHashtags(h);
    forall t, j | t in h.entries && 0 <= j < |top| && h.entries[t] > top[j].1
      ensures exists l :: 0 <= l < |top| && top[l].0 == t
    {
      var y := (t, h.entries[t]);
      ItemsMembership(h);
      TopHashtagsOmitted(h);
      assert top[j] in top;
      assert y in Items(h);
      assert y in top;
    }
  }

  /** In the hashtag table, a hashtag of a grid that occurs more often in the
      grid's records than a hashtag listed in the grid's row is listed too. */
  lemma HashtagTableComplete(recs: seq<Record>)
    ensures var r := RankRecords(recs);
            var table := HashtagTable(recs);
            forall i, j, t :: 0 <= i < |table| && 0 <= i < |r| && 0 <= j < |table[i].1| &&
                              TagCount(recs, r[i].0, t) > table[i].1[j].1 ==>
                                exists l :: 0 <= l < |table[i].1| && table[i].1[l].0 == t
  {
    var r := RankRecords(recs);
    var table := HashtagTable(recs);
    RankedCounts(recs);
    forall i | 0 <= i < |table| && 0 <= i < |r|
      ensures forall j, t :: 0 <= j < |table[i].1| && TagCount(recs, r[i].0, t) > table[i].1[j].1 ==>
                               exists l :: 0 <= l < |table[i].1| && table[i].1[l].0 == t
    {
      var h := r[i].1.hashtags;
      assert table[i].1 == TopHashtags(h);
      TopHashtagsComplete(h);
      forall j, t | 0 <= j < |table[i].1| && TagCount(recs, r[i].0, t) > table[i].1[j].1
        ensures t in h.entries && h.entries[t] == TagCount(recs, r[i].0, t)
      {
        assert Get(h, t, 0) == TagCount(recs, r[i].0, t);
      }
    }
  }
}
