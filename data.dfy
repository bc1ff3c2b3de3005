/** The values the pipeline works on, with the nested JSON fields flattened. */
module Data {

  datatype Option<T> = None | Some(value: T)

  /** A tweet's location, as the pair (x, y) of its GeoJSON "coordinates". */
  datatype Point = Point(x: real, y: real)

  /** One cell of the grid file: its id and its bounding box (both bounds inclusive). */
  datatype Grid = Grid(id: string, xmin: real, xmax: real, ymin: real, ymax: real)

  /** A tweet, reduced to what the pipeline reads: its optional point
      (null "coordinates" is None) and the "text" of each hashtag entry, in order. */
  datatype Tweet = Tweet(coordinates: Option<Point>, hashtags: seq<string>)

  /** The {"grid": ..., "hashtags": ...} record kept for a tweet that lies in a grid. */
  datatype Record = Record(grid: string, hashtags: seq<string>)
}
