/** Splitting block coordinates into chunk, section and place within the section. */
module Position {

  datatype BlockPos = BlockPos(x: int, y: int, z: int) {
    function ToChunkPos(): ChunkPos {
      ChunkPos(x / 16, z / 16)
    }

    function ChunkRelative(): (int, int) {
      (x % 16, z % 16)
    }

    function SectionY(): int {
      y / 16
    }

    function SectionRelativeY(): int {
      y % 16
    }
  }

  datatype ChunkPos = ChunkPos(x: int, z: int)

  datatype SectionKey = SectionKey(chunk: ChunkPos, y: int)

  function SectionOf(p: BlockPos): SectionKey {
    SectionKey(p.ToChunkPos(), p.SectionY())
  }

  /** y * 256 + z * 16 + x within the section. */
  function LocalIndex(p: BlockPos): int {
    p.SectionRelativeY() * 256 + p.ChunkRelative().1 * 16 + p.ChunkRelative().0
  }

  /** Places are numbered along x first, then along z, then upwards, from the lowest corner of the section. */
  lemma IndexSteps(p: BlockPos)
    ensures p.x % 16 == 0 && p.y % 16 == 0 && p.z % 16 == 0 ==> LocalIndex(p) == 0
    ensures p.x % 16 < 15 ==> LocalIndex(p.(x := p.x + 1)) == LocalIndex(p) + 1
    ensures p.z % 16 < 15 ==> LocalIndex(p.(z := p.z + 1)) == LocalIndex(p) + 16
    ensures p.y % 16 < 15 ==> LocalIndex(p.(y := p.y + 1)) == LocalIndex(p) + 256
  {
    NextInSection(p.x);
    NextInSection(p.y);
    NextInSection(p.z);
  }

  lemma NextInSection(a: int)
    ensures a % 16 < 15 ==> (a + 1) % 16 == a % 16 + 1
  {
  }

  /** A section is the cube of sixteen blocks a side that holds the block, below zero as well. */
  lemma SectionHolds(p: BlockPos)
    ensures
      var s := SectionOf(p);
      && 16 * s.chunk.x <= p.x < 16 * s.chunk.x + 16
      && 16 * s.y <= p.y < 16 * s.y + 16
      && 16 * s.chunk.z <= p.z < 16 * s.chunk.z + 16
  {
  }

  /** The block at a place in a section. */
  function BlockAt(s: SectionKey, index: int): BlockPos {
    BlockPos(s.chunk.x * 16 + index % 16, s.y * 16 + index / 256, s.chunk.z * 16 + index / 16 % 16)
  }

  /** The split loses nothing: its index fits the section and the block can be found again. */
  lemma SplitRoundTrip(p: BlockPos)
    ensures 0 <= LocalIndex(p) <= 4095
    ensures BlockAt(SectionOf(p), LocalIndex(p)) == p
  {
    var x, y, z := p.x % 16, p.y % 16, p.z % 16;
    Digits(x, y, z);
  }

  lemma Digits(x: int, y: int, z: int)
    requires 0 <= x < 16 && 0 <= y < 16 && 0 <= z < 16
    ensures var i := y * 256 + z * 16 + x; i % 16 == x && i / 256 == y && i / 16 % 16 == z
  {
    var i := y * 256 + z * 16 + x;
    assert i == 16 * (16 * y + z) + x;
    assert i / 16 == 16 * y + z;
  }

  /** Every place of every section is one block, and two blocks never share a place. */
  lemma SplitBijective(s: SectionKey, index: int)
    requires 0 <= index <= 4095
    ensures SectionOf(BlockAt(s, index)) == s && LocalIndex(BlockAt(s, index)) == index
  {
    var y, z, x := index / 256, index / 16 % 16, index % 16;
    assert index == y * 256 + z * 16 + x;
    Shifted(s.chunk.x, x);
    Shifted(s.chunk.z, z);
    Shifted(s.y, y);
  }

  lemma Shifted(a: int, b: int)
    requires 0 <= b < 16
    ensures (a * 16 + b) / 16 == a && (a * 16 + b) % 16 == b
  {
  }
}
