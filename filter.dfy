/** get_filtered_tweets: keep the tweets that have a point inside some grid,
    as {grid, hashtags} records, in input order. */
module Filter {
  import opened Data
  import opened GridLookup

  /** What one pass of the loop keeps of tweet t: nothing when its coordinates
      are null or its point lies in no grid, otherwise its grid and hashtags. */
  function Classify(t: Tweet, grids: seq<Grid>): (r: Option<Record>)
    ensures t.coordinates.None? ==> r.None?
    ensures r.Some? ==> r.value.grid != OTHER && r.value.hashtags == t.hashtags
  {
    match t.coordinates
    case None => None
    case Some(p) =>
      var grid := GetTweetGrid(p, grids);
      if grid == OTHER then None else Some(Record(grid, t.hashtags))
  }

  /** A kept tweet's record names a grid whose box holds the tweet's point,
      and a tweet whose point lies in no grid is dropped. */
  lemma ClassifyGrid(t: Tweet, grids: seq<Grid>)
    ensures Classify(t, grids).Some? ==>
              t.coordinates.Some? &&
              exists i :: 0 <= i < |grids| && Contains(grids[i], t.coordinates.value) &&
                          Classify(t, grids).value.grid == grids[i].id
    ensures t.coordinates.Some? && (forall i :: 0 <= i < |grids| ==> !Contains(grids[i], t.coordinates.value)) ==>
              Classify(t, grids).None?
    ensures t.coordinates.Some? && (forall i :: 0 <= i < |grids| ==> grids[i].id != OTHER) ==>
              (Classify(t, grids).Some? <==> exists i :: 0 <= i < |grids| && Contains(grids[i], t.coordinates.value))
  {
    if t.coordinates.Some? {
      GetTweetGridFirstMatch(t.coordinates.value, grids);
      if forall i :: 0 <= i < |grids| ==> grids[i].id != OTHER {
        OtherIffNoGrid(t.coordinates.value, grids);
      }
    }
  }

  function AsSeq(o: Option<Record>): seq<Record> {
    match o
    case None => []
    case Some(r) => [r]
  }

  /** The records the loop has appended after reading all of tweets. */
  function Filtered(tweets: seq<Tweet>, grids: seq<Grid>): (rs: seq<Record>)
    ensures |rs| <= |tweets|
  {
    if tweets == [] then []
    else
      var n := |tweets| - 1;
      Filtered(tweets[..n], grids) + AsSeq(Classify(tweets[n], grids))
  }

  /** No output record carries the "Other" sentinel as its grid. */
  lemma {:induction false} FilteredNeverOther(tweets: seq<Tweet>, grids: seq<Grid>)
    ensures forall k :: 0 <= k < |Filtered(tweets, grids)| ==> Filtered(tweets, grids)[k].grid != OTHER
    decreases |tweets|
  {
    if tweets != [] {
      FilteredNeverOther(tweets[..|tweets| - 1], grids);
    }
  }

  /** get_filtered_tweets */
  method GetFilteredTweets(tweets: seq<Tweet>, grids: seq<Grid>) returns (filtered: seq<Record>)
    ensures filtered == Filtered(tweets, grids)
  {
    filtered := [];
    for i := 0 to |tweets|
      invariant filtered == Filtered(tweets[..i], grids)
    {
      assert tweets[..i + 1][..i] == tweets[..i];
      var tweet := tweets[i];
      if tweet.coordinates.None? {
        continue;
      }
      var coordinates := tweet.coordinates.value;
      var grid := GetTweetGrid(coordinates, grids);
      if grid == OTHER {
        continue;
      }
      filtered := filtered + [Record(grid, tweet.hashtags)];
    }
    assert tweets[..|tweets|] == tweets;
  }

  /** Filtering distributes over concatenation, so it keeps the input order. */
  lemma {:induction false} FilteredAppend(a: seq<Tweet>, b: seq<Tweet>, grids: seq<Grid>)
    ensures Filtered(a + b, grids) == Filtered(a, grids) + Filtered(b, grids)
    decreases |b|
  {
    if b == [] {
      assert a + b == a;
    } else {
      var n := |b| - 1;
      assert (a + b)[..|a + b| - 1] == a + b[..n];
      FilteredAppend(a, b[..n], grids);
    }
  }

  /** Each tweet contributes exactly what Classify keeps of it, placed between
      the records of the tweets before it and those of the tweets after it:
      the output is the subsequence of kept tweets, in input order. */
  lemma FilteredDecomposes(a: seq<Tweet>, t: Tweet, b: seq<Tweet>, grids: seq<Grid>)
    ensures Filtered(a + [t] + b, grids) == Filtered(a, grids) + AsSeq(Classify(t, grids)) + Filtered(b, grids)
  {
    assert [t][..0] == [];
    FilteredAppend(a + [t], b, grids);
    FilteredAppend(a, [t], grids);
  }

  /** A tweet whose coordinates are null leaves the output unchanged wherever
      it stands, so it reaches no count. */
  lemma NullTweetDropped(a: seq<Tweet>, t: Tweet, b: seq<Tweet>, grids: seq<Grid>)
    requires t.coordinates.None?
    ensures Filtered(a + [t] + b, grids) == Filtered(a + b, grids)
  {
    FilteredDecomposes(a, t, b, grids);
    FilteredAppend(a, b, grids);
  }
}
