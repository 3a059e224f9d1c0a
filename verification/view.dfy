/**
 * The two presentation rules the gallery applies on top of its state:
 * the title and scroll hint chosen from the photo count, and where a new
 * photo tile goes in the grid.
 */
module GalleryView {
  import opened GalleryStorage

  /** The gallery title: plain, or followed by the photo count in parentheses. */
  datatype Title = PlainTitle | CountedTitle(count: nat)

  datatype Heading = Heading(title: Title, hintVisible: bool)

  /** `updateGalleryCounter`: the title and scroll hint for `count` indexed photos. */
  function HeadingFor(count: nat): (h: Heading)
    ensures h.title == PlainTitle <==> count == 0
    ensures h.title.CountedTitle? ==> h.title.count == count
    ensures h.hintVisible <==> count > 2
    ensures h.hintVisible ==> h.title.CountedTitle?
  {
    if count == 0 then Heading(PlainTitle, false)
    else Heading(CountedTitle(count), count > 2)
  }

  /**
   * The heading `updateGalleryCounter` shows for the stored index: it counts
   * the index's length, orphans included, and an absent index counts as 0.
   */
  function HeadingOf(st: Storage): (h: Heading)
    ensures h.title == PlainTitle <==> SavedIndex(st) == []
    ensures h.title.CountedTitle? ==> h.title.count == |SavedIndex(st)|
    ensures h.hintVisible <==> |SavedIndex(st)| > 2
  {
    HeadingFor(|SavedIndex(st)|)
  }

  /** After clearing, the title has no number and the hint is hidden. */
  lemma HeadingAfterClear(st: Storage)
    ensures HeadingOf(ClearAll(st)) == Heading(PlainTitle, false)
  {
  }

  /** A child of the photo grid: the "take your first photo" notice or a photo. */
  datatype Tile = EmptyNotice | PhotoTile(number: int)

  /**
   * Where `addPhotoToGallery` puts a new tile: after everything when the
   * notice is the grid's first child, otherwise in front.
   */
  function Place(grid: seq<Tile>, tile: Tile): (r: seq<Tile>)
    ensures multiset(r) == multiset(grid) + multiset{tile}
  {
    if |grid| > 0 && grid[0] == EmptyNotice then grid + [tile]
    else [tile] + grid
  }

  /** Places the tiles one after another, `tiles[0]` first. */
  function PlaceAll(grid: seq<Tile>, tiles: seq<Tile>): (r: seq<Tile>)
    ensures multiset(r) == multiset(grid) + multiset(tiles)
    decreases |tiles|
  {
    if tiles == [] then grid
    else
      assert tiles == [tiles[0]] + tiles[1..];
      PlaceAll(Place(grid, tiles[0]), tiles[1..])
  }

  function Reversed(s: seq<Tile>): (r: seq<Tile>) {
    if s == [] then [] else Reversed(s[1..]) + [s[0]]
  }

  /** While the notice leads the grid, new tiles pile up at the end, oldest first. */
  lemma {:induction false} PlaceAllBehindNotice(grid: seq<Tile>, tiles: seq<Tile>)
    requires |grid| > 0 && grid[0] == EmptyNotice
    ensures PlaceAll(grid, tiles) == grid + tiles
    decreases |tiles|
  {
    if tiles != [] {
      PlaceAllBehindNotice(grid + [tiles[0]], tiles[1..]);
      assert grid + [tiles[0]] + tiles[1..] == grid + tiles;
    }
  }

  /** Without the notice in front, new tiles go before the older ones: newest first. */
  lemma {:induction false} PlaceAllInFront(grid: seq<Tile>, tiles: seq<Tile>)
    requires |grid| == 0 || grid[0] != EmptyNotice
    requires EmptyNotice !in tiles
    ensures PlaceAll(grid, tiles) == Reversed(tiles) + grid
    decreases |tiles|
  {
    if tiles != [] {
      assert tiles[0] in tiles;
      PlaceAllInFront([tiles[0]] + grid, tiles[1..]);
      assert Reversed(tiles[1..]) + ([tiles[0]] + grid) == Reversed(tiles) + grid;
    }
  }
}
