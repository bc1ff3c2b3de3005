# Grid tweet statistics, modelled in Dafny

`proj.py` counts geotagged tweets per rectangular grid cell of Melbourne and
ranks the hashtags of each cell. It works in three steps:

1. `get_tweet_grid` finds the cell of a point. It walks the grid list in order
   and answers the id of the first cell whose box holds the point, with both
   bounds inclusive on both axes. It answers `"Other"` when no box holds the
   point.
2. `get_filtered_tweets` drops tweets with null coordinates and tweets whose
   point maps to `"Other"`. It emits one `{grid, hashtags}` record per kept
   tweet, in input order.
3. `stat_tweet` builds `grid_dict` in place. A grid key is created on its
   first record. Each record adds one to `num_posts`, and each hashtag entry
   adds one to its text's count. `main` then sorts the grids by `num_posts`,
   largest first (`grid_ls`). For each grid it sorts the hashtags by count,
   largest first, and keeps the first five.

The Dafny modules follow these steps:

- `Data` holds the flattened JSON entities: `Point`, `Grid`, `Tweet` and
  `Record`.
- `PyDict` models a Python dictionary as the map of its entries plus the
  sequence of its keys in insertion order. Assignment to an existing key keeps
  its place; a new key goes last. This order decides ties in the two sorts.
- `GridLookup` holds `get_tweet_grid` as a recursive function, with lemmas on
  the first match.
- `Filter` holds `get_filtered_tweets` as a method with a loop that appends.
  It is proved equal to the fold `Filtered`, and the subsequence and dropping
  properties are proved about `Filtered`.
- `Stat` holds `stat_tweet` as a method with the source's two nested loops,
  updating the dictionary. It is proved equal to the fold `StatOf`, and the
  counting properties are proved about `StatOf` against independent counting
  functions (`PostCount`, `TagCount`, `GridsOf`).
- `Ranking` models Python's `sorted(..., reverse=True)` as a stable insertion
  sort. It proves that the sort permutes, orders and keeps ties in input order.
- `Report` holds the two sorts and the `[:5]` slice of `main`, plus the
  end-to-end facts about the ranking that `main` prints.

## Model

| member | source | states |
|---|---|---|
| GridLookup.GetTweetGrid | proj.py:18-36 | `get_tweet_grid`: walks the grids in list order and answers the id of the first one whose box holds the point, both bounds inclusive, or "Other" after the last grid; its contract is stated by the three lemmas below |
| GridLookup.GetTweetGridFirstMatch | proj.py:18-36 | If some grid holds the point, the answer is the id of a grid that holds it and no earlier grid holds it; if none holds it, the answer is "Other" |
| GridLookup.FirstContainingWins | proj.py:21-33 | When grid i holds the point and no earlier grid does, the answer is grid i's id (a boundary point goes to the earlier cell) |
| GridLookup.OtherIffNoGrid | proj.py:32-36 | When no grid is named "Other", the answer is "Other" exactly when no grid holds the point |
| Filter.Classify | proj.py:46-60 | A tweet with null coordinates yields no record; a record that is produced never names "Other" and carries the tweet's hashtags unchanged |
| Filter.ClassifyGrid | proj.py:46-54 | A kept tweet has coordinates and its record names a grid whose box holds the point; a point in no box is dropped; with no grid named "Other", a tweet with coordinates is kept exactly when some box holds its point |
| Filter.Filtered | proj.py:38-62 | The output has no more records than there are input tweets |
| Filter.GetFilteredTweets | proj.py:38-62 | The loop's appended list equals the record-by-record fold `Filtered` of the input |
| Filter.FilteredNeverOther | proj.py:50-54 | No output record has grid "Other" |
| Filter.FilteredAppend | proj.py:43-60 | Filtering a concatenation is the concatenation of the filtered parts, so input order is kept |
| Filter.FilteredDecomposes | proj.py:43-60 | Each input tweet contributes at most its own record, at its own position between the records of the tweets before and after it |
| Filter.NullTweetDropped | proj.py:46-47 | Removing a tweet with null coordinates leaves the output unchanged, so such a tweet adds nothing to any count |
| Stat.Tally | proj.py:76-78 | The inner loop as a fold: each hashtag text in turn gets `get(text, 0) + 1`; its counts are stated by `Stat.TallyCounts` |
| Stat.AddRecord | proj.py:67-78 | One pass of the outer loop: create the grid's entry with 0 posts and no hashtags if absent, add one post, tally the record's hashtags |
| Stat.StatOf | proj.py:64-80 | `grid_dict` after the outer loop, as a fold of `AddRecord` over the records; its contents are stated by the `Stat` lemmas below |
| Stat.StatTweet | proj.py:64-80 | The nested loops that create keys and increment counters leave `grid_dict` equal to the fold `StatOf` of the records |
| Stat.TallyCounts | proj.py:76-78 | Counting a list of hashtag texts adds each text's multiplicity in that list to its count; a key exists exactly when it did before or the text occurs |
| Stat.StatValid | proj.py:65-78 | `grid_dict` and every inner hashtag dictionary keep distinct keys matching their entries |
| Stat.StatKeys | proj.py:66-70 | The keys of `grid_dict` are exactly the distinct grid values of the records |
| Stat.StatFirstSeen | proj.py:69-70 | Keys are in first-occurrence order: wherever a later key's grid occurs, every earlier key's grid has already occurred |
| Stat.StatPostCounts | proj.py:69-73 | `num_posts` of each grid is its number of records, and every key has `num_posts >= 1` |
| Stat.StatTagCounts | proj.py:76-78 | The count of text t in grid g is the number of hashtag entries with text t over g's records, repeats within one tweet included; a text is a key exactly when that number is positive |
| Stat.StatTotalPosts | proj.py:66-73 | The sum of `num_posts` over all keys is the number of records |
| Ranking.SortDesc | proj.py:91 | `sorted(..., reverse=True)` as a stable insertion sort, largest key first; it keeps the length, and its order and permutation facts are the three lemmas below |
| Ranking.SortDescPermutes | proj.py:91 | The descending sort returns a permutation of its input |
| Ranking.SortDescDescending | proj.py:91 | The keys of the sorted sequence never increase |
| Ranking.SortDescStable | proj.py:91 | For each key value, the elements with that key keep their input order |
| Ranking.TotalPermutation | proj.py:91 | Reordering leaves a sum of keys unchanged |
| Ranking.WithKeyPrefix | proj.py:102 | Cutting a sequence short keeps, for each key value, a prefix of the elements with that key |
| Ranking.PrefixDominates | proj.py:102 | In a descending sequence nothing after a cut has a larger key than anything before it |
| Report.SortItems | proj.py:91 | `sorted(d.items(), key=..., reverse=True)`: one item per key of the dictionary |
| Report.RankGrids | proj.py:91 | `grid_ls`: the items of `grid_dict` sorted by `num_posts`, largest first |
| Report.TopHashtags | proj.py:102 | `hashtag_ls`: a grid's hashtag items sorted by count, largest first, cut by `[:5]` to at most five entries |
| Report.SortItemsContents | proj.py:91 | `sorted(d.items())` is a permutation of the items and has one entry per key |
| Report.SortItemsEntries | proj.py:91 | Every sorted item is a key of the dictionary with its own value, and every key has an item |
| Report.SortItemsOrder | proj.py:91 | Sorted items have non-increasing keys, and items with equal keys are in the dictionary's insertion order |
| Report.TopHashtagsContents | proj.py:102 | The top list has min(5, number of distinct hashtags) entries, is non-increasing by count, and each entry is a hashtag with its own count |
| Report.TopHashtagsOmitted | proj.py:102 | No hashtag left out of the top list has a larger count than one in it |
| Report.TopHashtagsTies | proj.py:102 | For each count, the listed hashtags with that count are the first ones inserted with it, in insertion order |
| Report.TopHashtagsComplete | proj.py:102 | A hashtag whose count exceeds that of a listed hashtag is listed too |
| Report.RankRecords | proj.py:89-91 | `grid_ls` computed from the filtered records: `stat_tweet` followed by the sort |
| Report.GridRanking | proj.py:87-91 | `grid_ls` computed from the raw tweets and grids: filter, count, sort |
| Report.RankedTotal | proj.py:87-91 | The `num_posts` of the ranked grids add up to the number of filtered records |
| Report.RankedGrids | proj.py:87-91 | The ranking lists every grid that occurs in the records and no other grid |
| Report.RankedLength | proj.py:87-91 | The ranking has one entry per distinct grid of the records, so each grid is listed exactly once |
| Report.RankedCounts | proj.py:87-91 | Each ranked grid carries its record count (at least one) and, for every text, the number of its hashtag entries |
| Report.RankedTies | proj.py:66-91 | Grids with equal `num_posts` are ranked in the order in which they first occur in the records |
| Report.RankingNeverOther | proj.py:50-54 | No grid in the ranking computed from the raw tweets is "Other" |
| Report.HashtagTable | proj.py:100-102 | The TASK 2 data: for each grid of `grid_ls`, in that order, the grid and its `hashtag_ls` |
| Report.HashtagTableRows | proj.py:100-102 | Row i of the hashtag table belongs to grid i of the ranking and lists min(5, distinct hashtags) entries, largest count first, each with its true count over the grid's records |
| Report.HashtagTableComplete | proj.py:100-102 | In each row of the table, a hashtag of the grid that occurs more often in the grid's records than a listed hashtag is listed too |

## Left out

- `read_grid`, `read_tweet` and the file names (proj.py:3-16) are file and JSON input. The grids and tweets are parameters instead.
- The printing in `main` (proj.py:93-103) is presentation. The model stops at the data it prints: `Report.RankRecords` / `Report.GridRanking` for TASK 1 and `Report.HashtagTable` for TASK 2.
- Coordinates and box bounds are `real`. The code only compares them with `<=`/`>=`, and NaN and infinities are not modelled.
- Nested JSON access is flattened into datatype fields. A grid is its id and four bounds. A tweet is an optional point and the list of its hashtag texts. The hashtag objects' other fields are dropped. A missing key in malformed JSON, which raises `KeyError` in Python, is not modelled.
- A grid whose id is literally `"Other"` cannot be told apart from the no-match answer, so its tweets are dropped as the code drops them. `GridLookup.OtherIffNoGrid` and the converse part of `Filter.ClassifyGrid` therefore assume no grid has that id.
- `Filter.GetFilteredTweets` and `Stat.StatTweet` build their list and dictionaries as values that each step reassigns. Object identity is not modelled. The inner dictionary stored at proj.py:70 and its `"hashtags"` dictionary are changed in place at proj.py:73 and proj.py:78. They can only be reached through `grid_dict[grid]`, so changing them in place has the same effect as storing a new value under `grid`, which is what the model does. The records share the input's hashtag lists, and nothing ever changes those lists.
- `PyDict.Valid` (distinct keys, key order matching the entries) is a precondition of the sorts. A Python dictionary always satisfies it, and `Stat.StatValid` proves that `grid_dict` and its inner dictionaries do.
- None of the following is in `proj.py`, so none is modelled:
  - partitioning the input across several workers and merging their counts;
  - a rank-inclusive top-5 that keeps every hashtag tied with the fifth (the code takes a plain positional `[:5]` slice);
  - lower-casing or de-duplicating hashtag texts (`"AFL"` and `"afl"` count separately, and a tweet repeating a hashtag counts it each time);
  - cells with zero posts (a grid becomes a key only when one of its tweets is seen, so cells without tweets are absent from both tables).
