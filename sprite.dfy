/**
 * The keyboard sprite: a sheet of equal-width cells (cell 0 the bare
 * keyboard, cell n+1 the keyboard with note n lit) and the list of cells to
 * overlay on the next draw. The image itself and the drawing are not modelled.
 */
module Sprites {

  class Sprite {
    var frames: seq<int>
    const width: int
    const height: int

    /** A new sprite overlays cell 0 only. */
    constructor (width: int, height: int)
      ensures frames == [0] && this.width == width && this.height == height
    {
      this.width := width;
      this.height := height;
      frames := [0];
    }

    /** update: the overlay list is replaced wholesale. */
    method Update(frameIndices: seq<int>)
      modifies this
      ensures frames == frameIndices
    {
      frames := frameIndices;
    }
  }
}
