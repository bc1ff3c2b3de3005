/** get_tweet_grid: which grid cell a point falls in. */
module GridLookup {
  import opened Data

  /** The id returned for a point that lies in no grid. */
  const OTHER: string := "Other"

  /** The box of g holds p; both bounds are inclusive on both axes. */
  predicate Contains(g: Grid, p: Point) {
    g.xmin <= p.x <= g.xmax && g.ymin <= p.y <= g.ymax
  }

  /** Walks the grids in order and answers the id of the first one whose box
      holds p, or OTHER when none does. The order of the list decides a
      point on a boundary shared by two cells. */
  function GetTweetGrid(p: Point, grids: seq<Grid>): string {
    if grids == [] then OTHER
    else if Contains(grids[0], p) then grids[0].id
    else GetTweetGrid(p, grids[1..])
  }

  /** The answer is the id of the lowest-index grid holding p; OTHER when
      no grid holds p. */
  lemma {:induction false} GetTweetGridFirstMatch(p: Point, grids: seq<Grid>)
    ensures (exists i :: 0 <= i < |grids| && Contains(grids[i], p)) ==>
              exists i :: 0 <= i < |grids| && Contains(grids[i], p) && GetTweetGrid(p, grids) == grids[i].id &&
                          forall j :: 0 <= j < i ==> !Contains(grids[j], p)
    ensures (forall i :: 0 <= i < |grids| ==> !Contains(grids[i], p)) ==> GetTweetGrid(p, grids) == OTHER
  {
    if grids != [] && !Contains(grids[0], p) {
      GetTweetGridFirstMatch(p, grids[1..]);
      assert forall i :: 1 <= i < |grids| ==> grids[i] == grids[1..][i - 1];
      if exists i :: 0 <= i < |grids| && Contains(grids[i], p) {
        var i :| 0 <= i < |grids| && Contains(grids[i], p);
        assert Contains(grids[1..][i - 1], p);
        var k :| 0 <= k < |grids| - 1 && Contains(grids[1..][k], p) && GetTweetGrid(p, grids[1..]) == grids[1..][k].id &&
                 forall j :: 0 <= j < k ==> !Contains(grids[1..][j], p);
        assert forall j :: 1 <= j < k + 1 ==> !Contains(grids[j], p);
      }
    }
  }

  /** The grid that wins is the lowest-index one holding p: a point on an
      edge shared by grids i and j > i goes to grid i (or to an earlier grid). */
  lemma FirstContainingWins(p: Point, grids: seq<Grid>, i: nat)
    requires i < |grids| && Contains(grids[i], p)
    requires forall j :: 0 <= j < i ==> !Contains(grids[j], p)
    ensures GetTweetGrid(p, grids) == grids[i].id
  {
    GetTweetGridFirstMatch(p, grids);
    var r := GetTweetGrid(p, grids);
    var k :| 0 <= k < |grids| && Contains(grids[k], p) && r == grids[k].id &&
             forall j :: 0 <= j < k ==> !Contains(grids[j], p);
    assert k == i;
  }

  /** When no grid is named "Other", the sentinel comes back exactly for the
      points that lie in no grid. */
  lemma {:induction false} OtherIffNoGrid(p: Point, grids: seq<Grid>)
    requires forall i :: 0 <= i < |grids| ==> grids[i].id != OTHER
    ensures GetTweetGrid(p, grids) == OTHER <==> forall i :: 0 <= i < |grids| ==> !Contains(grids[i], p)
  {
    GetTweetGridFirstMatch(p, grids);
  }
}
