/** `World`: the map from chunk positions to chunks. The world holds a
    single chunk, built at the origin when the world is constructed. */
module Worlds {
  import opened Chunks

  const ORIGIN: Point := Point(0, 0, 0)

  class World {
    var chunkMap: map<Point, Chunk>

    /** One chunk, keyed at the origin, whose own position is that key and
        which holds the filled box and its mesh. */
    ghost predicate Valid()
      reads this, chunkMap.Values
    {
      && chunkMap.Keys == {ORIGIN}
      && chunkMap[ORIGIN].chunkPos == ORIGIN
      && chunkMap[ORIGIN].Valid()
    }

    /** `World()`: a new map holding one new chunk, built at the origin, whose
        edge is `chunkSize` (`Constants.CHUNK_SIZE`). */
    constructor (chunkSize: int)
      ensures Valid()
      ensures |chunkMap| == 1
      ensures fresh(chunkMap[ORIGIN]) && chunkMap[ORIGIN].chunkSize == chunkSize
    {
      chunkMap := map[];
      new;
      var chunkPos := ORIGIN;
      var chunk := new Chunk(chunkPos, chunkSize);
      chunkMap := chunkMap[chunkPos := chunk];
    }

    /** `getChunkMap()`: the world's own map, with its one chunk at the
        origin, itself positioned at the origin. */
    function GetChunkMap(): (m: map<Point, Chunk>)
      reads this, chunkMap.Values
      requires Valid()
      ensures m == chunkMap
      ensures |m| == 1 && ORIGIN in m && m[ORIGIN].chunkPos == ORIGIN
      ensures forall p :: p in m ==> m[p].chunkPos == p
    {
      chunkMap
    }
  }
}
