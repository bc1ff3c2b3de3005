/** stat_tweet: per-grid post counts and hashtag counts, built in one pass. */
module Stat {
  import opened Data
  import opened PyDict

  /** One value of grid_dict: {"num_posts": n, "hashtags": {text: count}}. */
  datatype GridStats = GridStats(numPosts: nat, hashtags: Dict<nat>)

  /** hashtags[text] = hashtags.get(text, 0) + 1 */
  function Bump(h: Dict<nat>, text: string): Dict<nat> {
    Put(h, text, Get(h, text, 0) + 1)
  }

  /** The inner loop over the hashtag texts of one tweet. */
  function Tally(h: Dict<nat>, texts: seq<string>): Dict<nat> {
    if texts == [] then h
    else Bump(Tally(h, texts[..|texts| - 1]), texts[|texts| - 1])
  }

  /** One pass of the outer loop: create the grid's entry on first sight,
      count the post and tally its hashtags. */
  function AddRecord(d: Dict<GridStats>, r: Record): Dict<GridStats> {
    var s := StatsOf(d, r.grid);
    Put(d, r.grid, GridStats(s.numPosts + 1, Tally(s.hashtags, r.hashtags)))
  }

  /** The entry of grid g, or the fresh {"num_posts": 0, "hashtags": {}}
      that the loop creates when g is not yet a key. */
  function StatsOf(d: Dict<GridStats>, g: string): GridStats {
    if g in d.entries then d.entries[g] else GridStats(0, Empty())
  }

  /** The dictionary stat_tweet has built after reading all of recs. */
  function StatOf(recs: seq<Record>): Dict<GridStats> {
    if recs == [] then Empty()
    else AddRecord(StatOf(recs[..|recs| - 1]), recs[|recs| - 1])
  }

  /** stat_tweet */
  method StatTweet(recs: seq<Record>) returns (gridDict: Dict<GridStats>)
    ensures gridDict == StatOf(recs)
  {
    gridDict := Empty();
    for i := 0 to |recs|
      invariant gridDict == StatOf(recs[..i])
    {
      StatOfStep(recs, i);
      var tweet := recs[i];
      var grid := tweet.grid;
      ghost var before := gridDict;
      if grid !in gridDict.entries {
        gridDict := Put(gridDict, grid, GridStats(0, Empty()));
      }
      ghost var created := gridDict;
      var stats := gridDict.entries[grid];
      gridDict := Put(gridDict, grid, stats.(numPosts := stats.numPosts + 1));
      for j := 0 to |tweet.hashtags|
        invariant gridDict == Put(created, grid, GridStats(stats.numPosts + 1, Tally(stats.hashtags, tweet.hashtags[..j])))
      {
        TallyStep(stats.hashtags, tweet.hashtags, j);
        var text := tweet.hashtags[j];
        var current := gridDict.entries[grid];
        assert current.hashtags == Tally(stats.hashtags, tweet.hashtags[..j]);
        var tags := current.hashtags;
        ghost var next := current.(hashtags := Bump(tags, text));
        gridDict := Put(gridDict, grid, current.(hashtags := Put(tags, text, Get(tags, text, 0) + 1)));
        PutPut(created, grid, current, next);
      }
      assert tweet.hashtags[..|tweet.hashtags|] == tweet.hashtags;
      ghost var final := GridStats(stats.numPosts + 1, Tally(stats.hashtags, tweet.hashtags));
      assert stats == StatsOf(before, grid);
      PutPut(before, grid, GridStats(0, Empty()), final);
      assert gridDict == AddRecord(before, tweet);
    }
    assert recs[..|recs|] == recs;
  }

  lemma StatOfStep(recs: seq<Record>, i: nat)
    requires i < |recs|
    ensures StatOf(recs[..i + 1]) == AddRecord(StatOf(recs[..i]), recs[i])
  {
    assert recs[..i + 1][..i] == recs[..i];
  }

  lemma TallyStep(h: Dict<nat>, texts: seq<string>, j: nat)
    requires j < |texts|
    ensures Tally(h, texts[..j + 1]) == Bump(Tally(h, texts[..j]), texts[j])
  {
    assert texts[..j + 1][..j] == texts[..j];
  }

  // ---- What the dictionary means ----

  /** The number of records of grid g. */
  function PostCount(recs: seq<Record>, g: string): nat {
    if recs == [] then 0
    else PostCount(recs[..|recs| - 1], g) + (if recs[|recs| - 1].grid == g then 1 else 0)
  }

  /** The number of hashtag entries with text t over the records of grid g,
      a tweet that repeats a hashtag counting it each time. */
  function TagCount(recs: seq<Record>, g: string, t: string): nat {
    if recs == [] then 0
    else
      var last := recs[|recs| - 1];
      TagCount(recs[..|recs| - 1], g, t) + (if last.grid == g then multiset(last.hashtags)[t] else 0)
  }

  /** The distinct grid values of recs. */
  function GridsOf(recs: seq<Record>): set<string> {
    set r | r in recs :: r.grid
  }

  /** The sum of num_posts over the given keys. */
  function TotalPosts(keys: seq<string>, m: map<string, GridStats>): int
    requires forall k :: k in keys ==> k in m
  {
    if keys == [] then 0
    else TotalPosts(keys[..|keys| - 1], m) + m[keys[|keys| - 1]].numPosts
  }

  // ---- Properties of the dictionary ----

  lemma {:induction false} TallyValid(h: Dict<nat>, texts: seq<string>)
    requires Valid(h)
    ensures Valid(Tally(h, texts))
    decreases |texts|
  {
    if texts != [] {
      var n := |texts| - 1;
      TallyValid(h, texts[..n]);
      PutValid(Tally(h, texts[..n]), texts[n], Get(Tally(h, texts[..n]), texts[n], 0) + 1);
    }
  }

  /** The inner loop adds to each text's count the number of times it occurs
      in the tweet, and adds exactly the tweet's texts as keys. */
  lemma {:induction false} TallyCounts(h: Dict<nat>, texts: seq<string>)
    ensures forall t :: Get(Tally(h, texts), t, 0) == Get(h, t, 0) + multiset(texts)[t]
    ensures forall t :: t in Tally(h, texts).entries <==> t in h.entries || t in texts
    decreases |texts|
  {
    if texts != [] {
      var n := |texts| - 1;
      TallyCounts(h, texts[..n]);
      assert texts == texts[..n] + [texts[n]];
    }
  }

  /** grid_dict is a well-formed dict, and so is every hashtag dict in it. */
  lemma {:induction false} StatValid(recs: seq<Record>)
    ensures Valid(StatOf(recs))
    ensures forall g :: g in StatOf(recs).entries ==> Valid(StatOf(recs).entries[g].hashtags)
    decreases |recs|
  {
    if recs != [] {
      var n := |recs| - 1;
      var d := StatOf(recs[..n]);
      var r := recs[n];
      StatValid(recs[..n]);
      var s := StatsOf(d, r.grid);
      TallyValid(s.hashtags, r.hashtags);
      PutValid(d, r.grid, GridStats(s.numPosts + 1, Tally(s.hashtags, r.hashtags)));
    }
  }

  lemma GridsOfLast(recs: seq<Record>)
    requires recs != []
    ensures GridsOf(recs) == GridsOf(recs[..|recs| - 1]) + {recs[|recs| - 1].grid}
  {
    var n := |recs| - 1;
    assert recs == recs[..n] + [recs[n]];
  }

  /** The keys of grid_dict are exactly the distinct grids of the input. */
  lemma {:induction false} StatKeys(recs: seq<Record>)
    ensures StatOf(recs).entries.Keys == GridsOf(recs)
    decreases |recs|
  {
    if recs != [] {
      StatKeys(recs[..|recs| - 1]);
      GridsOfLast(recs);
    }
  }

  /** The keys of grid_dict are in the order in which their grids first occur
      in the input: wherever the grid of a later key occurs, the grid of every
      earlier key has occurred before. */
  lemma {:induction false} StatFirstSeen(recs: seq<Record>)
    ensures var keys := StatOf(recs).keys;
            forall p, q, j :: 0 <= p < q < |keys| && 0 <= j < |recs| && recs[j].grid == keys[q] ==>
              keys[p] in GridsOf(recs[..j])
    decreases |recs|
  {
    if recs != [] {
      var n := |recs| - 1;
      var init := recs[..n];
      var d := StatOf(init);
      var keys := StatOf(recs).keys;
      StatFirstSeen(init);
      StatKeys(init);
      StatValid(init);
      assert recs[..n] == init;
      forall p, q, j | 0 <= p < q < |keys| && 0 <= j < |recs| && recs[j].grid == keys[q]
        ensures keys[p] in GridsOf(recs[..j])
      {
        assert p < |d.keys|;
        assert keys[p] == d.keys[p];
        if j < n {
          assert recs[..j] == init[..j];
          assert init[j] == recs[j];
          assert init[j] in init;
          assert q < |d.keys|;
        } else {
          assert d.keys[p] in d.entries.Keys;
        }
      }
    }
  }

  /** StatFirstSeen for one pair of keys and one position. */
  lemma FirstSeenPair(recs: seq<Record>, p: nat, q: nat, j: nat)
    requires p < q < |StatOf(recs).keys|
    requires j < |recs| && recs[j].grid == StatOf(recs).keys[q]
    ensures StatOf(recs).keys[p] in GridsOf(recs[..j])
  {
    StatFirstSeen(recs);
  }

  /** num_posts of every grid is its number of records (0 for a grid that is
      not a key); so every key has num_posts >= 1. */
  lemma {:induction false} StatPostCounts(recs: seq<Record>)
    ensures forall g :: StatsOf(StatOf(recs), g).numPosts == PostCount(recs, g)
    ensures forall g :: g in StatOf(recs).entries ==> StatOf(recs).entries[g].numPosts >= 1
    decreases |recs|
  {
    if recs != [] {
      StatPostCounts(recs[..|recs| - 1]);
    }
  }

  /** hashtags[g][t] is the number of hashtag entries with text t over the
      records of grid g, and t is a key of hashtags[g] exactly when that
      number is positive. */
  lemma {:induction false} StatTagCounts(recs: seq<Record>)
    ensures forall g, t :: Get(StatsOf(StatOf(recs), g).hashtags, t, 0) == TagCount(recs, g, t)
    ensures forall g, t :: t in StatsOf(StatOf(recs), g).hashtags.entries <==> TagCount(recs, g, t) > 0
    decreases |recs|
  {
    if recs != [] {
      var n := |recs| - 1;
      var d := StatOf(recs[..n]);
      var r := recs[n];
      var e := StatOf(recs);
      StatTagCounts(recs[..n]);
      var before := StatsOf(d, r.grid).hashtags;
      TallyCounts(before, r.hashtags);
      forall g, t
        ensures Get(StatsOf(e, g).hashtags, t, 0) == TagCount(recs, g, t)
        ensures t in StatsOf(e, g).hashtags.entries <==> TagCount(recs, g, t) > 0
      {
        if g == r.grid {
          assert StatsOf(e, g).hashtags == Tally(before, r.hashtags);
          assert t in r.hashtags <==> multiset(r.hashtags)[t] > 0;
        } else {
          assert StatsOf(e, g) == StatsOf(d, g);
        }
      }
    }
  }

  lemma {:induction false} TotalPostsOutside(keys: seq<string>, m: map<string, GridStats>, g: string, v: GridStats)
    requires forall k :: k in keys ==> k in m
    requires g !in keys
    ensures TotalPosts(keys, m[g := v]) == TotalPosts(keys, m)
    decreases |keys|
  {
    if keys != [] {
      TotalPostsOutside(keys[..|keys| - 1], m, g, v);
    }
  }

  lemma {:induction false} TotalPostsUpdate(keys: seq<string>, m: map<string, GridStats>, g: string, v: GridStats)
    requires forall k :: k in keys ==> k in m
    requires forall i, j :: 0 <= i < j < |keys| ==> keys[i] != keys[j]
    requires g in keys
    ensures TotalPosts(keys, m[g := v]) == TotalPosts(keys, m) - m[g].numPosts + v.numPosts
    decreases |keys|
  {
    var n := |keys| - 1;
    if keys[n] == g {
      assert g !in keys[..n];
      TotalPostsOutside(keys[..n], m, g, v);
    } else {
      TotalPostsUpdate(keys[..n], m, g, v);
    }
  }

  /** Storing v under g replaces g's num_posts in the sum (0 for a new key). */
  lemma PutTotal(d: Dict<GridStats>, g: string, v: GridStats)
    requires Valid(d)
    ensures forall k :: k in Put(d, g, v).keys ==> k in Put(d, g, v).entries
    ensures TotalPosts(Put(d, g, v).keys, Put(d, g, v).entries) == TotalPosts(d.keys, d.entries) - StatsOf(d, g).numPosts + v.numPosts
  {
    var e := Put(d, g, v);
    if g in d.entries {
      TotalPostsUpdate(d.keys, d.entries, g, v);
    } else {
      assert e.keys[..|d.keys|] == d.keys;
      TotalPostsOutside(d.keys, d.entries, g, v);
    }
  }

  /** The num_posts of all keys add up to the number of input records. */
  lemma {:induction false} StatTotalPosts(recs: seq<Record>)
    ensures forall k :: k in StatOf(recs).keys ==> k in StatOf(recs).entries
    ensures TotalPosts(StatOf(recs).keys, StatOf(recs).entries) == |recs|
    decreases |recs|
  {
    if recs != [] {
      var n := |recs| - 1;
      StatTotalPosts(recs[..n]);
      StatValid(recs[..n]);
      var d := StatOf(recs[..n]);
      var g := recs[n].grid;
      var s := StatsOf(d, g);
      var v := GridStats(s.numPosts + 1, Tally(s.hashtags, recs[n].hashtags));
      assert StatOf(recs) == AddRecord(d, recs[n]) == Put(d, g, v);
      PutTotal(d, g, v);
    }
  }
}
