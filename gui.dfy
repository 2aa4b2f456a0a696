/** The preview layout of src/utils/gui.py: `HandwritingGUI.preview` lays the
    stripped input text out row by row in a grid of `columns` by `rows`
    cells, one cell per character, and adds an SVG glyph or a blank text
    item for each character to the scene. */
module Gui {
  import opened Strings
  import opened Picker

  /** `cell_size`: the side of one grid cell, in scene pixels. */
  const CellSize: nat := 15
  /** `margin`: the distance from the scene's top-left corner to the grid. */
  const Margin: nat := 10
  /** `cell_size // 4`: the offset of a fallback text item inside its cell. */
  const TextOffset: nat := CellSize / 4

  /** One item added to the scene: an SVG glyph item placed at `(x, y)`,
      or a text item holding a fallback blank placed at `(x, y)`. */
  datatype Item =
    | SvgItem(path: string, x: int, y: int)
    | TextItem(text: string, x: int, y: int)

  /** A scene rectangle `(x, y, width, height)`. */
  datatype Rect = Rect(x: int, y: int, width: int, height: int)

  /** `row = idx // columns`. */
  function RowOf(idx: nat, columns: nat): nat
    requires columns >= 1
  {
    idx / columns
  }

  /** `col = idx % columns`. */
  function ColOf(idx: nat, columns: nat): nat
    requires columns >= 1
  {
    idx % columns
  }

  /** `x = margin + col * cell_size`. */
  function CellX(idx: nat, columns: nat): int
    requires columns >= 1
  {
    Margin + ColOf(idx, columns) * CellSize
  }

  /** `y = margin + row * cell_size`. */
  function CellY(idx: nat, columns: nat): int
    requires columns >= 1
  {
    Margin + RowOf(idx, columns) * CellSize
  }

  /** `max_chars = columns * rows`: the number of cells of the grid. */
  function MaxChars(columns: nat, rows: nat): nat
  {
    columns * rows
  }

  /** The rectangle `setSceneRect` receives. */
  function SceneRect(columns: nat, rows: nat): Rect
  {
    Rect(0, 0, Margin * 2 + columns * CellSize, Margin * 2 + rows * CellSize)
  }

  /** `text[:max_chars]`: Python slicing keeps the whole text when it is
      shorter than the bound. */
  function Truncate(text: string, maxChars: nat): (r: string)
    ensures |r| == if |text| <= maxChars then |text| else maxChars
    ensures r == text[..|r|]
  {
    if |text| <= maxChars then text else text[..maxChars]
  }

  /** `item` is what `preview` adds for character `c` at index `idx`: a glyph
      item at the cell's corner holding a path the picker may return for `c`,
      or, exactly when `c` has no `.svg` file, a text item holding the
      fallback blank, moved `cell_size // 4` into the cell. */
  ghost predicate PlacedAt(picker: HandwritingPicker, assets: AssetListing, c: char,
                           idx: nat, columns: nat, item: Item)
    requires columns >= 1
  {
    var x, y := CellX(idx, columns), CellY(idx, columns);
    match item
    case SvgItem(p, ix, iy) =>
      ix == x && iy == y && picker.IsPick(assets, c, p)
    case TextItem(t, ix, iy) =>
      (c !in assets || SvgFiles(assets[c]) == [])
      && t == picker.GetFallbackChar(c) && ix == x + TextOffset && iy == y + TextOffset
  }

  class HandwritingGUI {
    /** `self.picker`, created with its default asset directory. */
    const picker: HandwritingPicker
    /** The items of `self.svg_scene`, in the order they were added. */
    var scene: seq<Item>
    /** The last rectangle given to `setSceneRect`, if any. */
    var sceneRect: Option<Rect>

    constructor ()
      ensures picker == HandwritingPicker("asset")
      ensures scene == [] && sceneRect == None
    {
      picker := HandwritingPicker("asset");
      scene := [];
      sceneRect := None;
    }

    /** One pass of `preview`'s loop: the cell of index `idx` and the item
        for character `c` in it, a glyph item when the picker finds a path
        and a fallback text item otherwise. */
    method PlaceChar(assets: AssetListing, c: char, idx: nat, columns: nat) returns (item: Item)
      requires columns >= 1
      ensures PlacedAt(picker, assets, c, idx, columns, item)
    {
      var row, col := RowOf(idx, columns), ColOf(idx, columns);
      var x, y := Margin + col * CellSize, Margin + row * CellSize;
      var svgPath := picker.PickSvgForChar(assets, c);
      if svgPath.Some? {
        PickIsSvgOfListing(picker, assets, c, svgPath.value);
      }
      if svgPath.Some? && svgPath.value != "" {
        item := SvgItem(svgPath.value, x, y);
      } else {
        var fallback := picker.GetFallbackChar(c);
        item := TextItem(fallback, x + TextOffset, y + TextOffset);
      }
    }

    /** `preview`'s loop: clears the scene and adds, for each character of
        `text` in turn, the item `PlaceChar` makes for it. */
    method PlaceAll(assets: AssetListing, text: string, columns: nat)
      requires columns >= 1
      modifies this
      ensures sceneRect == old(sceneRect)
      ensures |scene| == |text|
      ensures forall i :: 0 <= i < |text| ==> PlacedAt(picker, assets, text[i], i, columns, scene[i])
    {
      scene := [];
      for idx := 0 to |text|
        invariant sceneRect == old(sceneRect)
        invariant |scene| == idx
        invariant forall i :: 0 <= i < idx ==> PlacedAt(picker, assets, text[i], i, columns, scene[i])
      {
        var item := PlaceChar(assets, text[idx], idx, columns);
        ghost var before := scene;
        scene := scene + [item];
        assert forall i :: 0 <= i < idx ==> scene[i] == before[i];
      }
    }

    /** `preview`: `input` is the text box's plain text and `columns`,
        `rows` the two spin boxes' values (each limited to 1..100). When the
        stripped text is empty only the prompt is shown (`prompted`) and the
        scene is left as it was. Otherwise the scene is cleared and holds
        one item per character of the stripped text, up to
        `columns * rows` of them, and the scene rectangle encloses the grid
        with its margins. */
    method Preview(assets: AssetListing, input: string, columns: int, rows: int)
      returns (prompted: bool)
      requires 1 <= columns <= 100 && 1 <= rows <= 100
      modifies this
      ensures prompted <==> Strip(input) == []
      ensures prompted ==> scene == old(scene) && sceneRect == old(sceneRect)
      ensures !prompted ==>
        |scene| == (if |Strip(input)| <= MaxChars(columns, rows) then |Strip(input)| else MaxChars(columns, rows))
      ensures !prompted ==> forall i :: 0 <= i < |scene| ==>
        PlacedAt(picker, assets, Strip(input)[i], i, columns, scene[i])
      ensures !prompted ==> sceneRect == Some(SceneRect(columns, rows))
    {
      var stripped := Strip(input);
      if stripped == [] {
        return true;
      }
      var maxChars := MaxChars(columns, rows);
      var text := Truncate(stripped, maxChars);
      PlaceAll(assets, text, columns);
      TruncatedLayout(picker, assets, stripped, maxChars, columns, scene);
      sceneRect := Some(SceneRect(columns, rows));
      return false;
    }
  }

  /** A scene laid out for the first `maxChars` characters of `text` is laid
      out for `text` itself, item by item, and holds
      `min(len(text), maxChars)` items. */
  lemma TruncatedLayout(picker: HandwritingPicker, assets: AssetListing, text: string, maxChars: nat,
                        columns: nat, scene: seq<Item>)
    requires columns >= 1
    requires |scene| == |Truncate(text, maxChars)|
    requires forall i :: 0 <= i < |scene| ==>
      PlacedAt(picker, assets, Truncate(text, maxChars)[i], i, columns, scene[i])
    ensures |scene| == if |text| <= maxChars then |text| else maxChars
    ensures forall i :: 0 <= i < |scene| ==> PlacedAt(picker, assets, text[i], i, columns, scene[i])
  {
    var t := Truncate(text, maxChars);
    assert forall i :: 0 <= i < |t| ==> t[i] == text[i];
  }

  /** Every index below `columns * rows` falls in the grid: its column is
      below `columns`, its row below `rows`, and the index is recovered
      row-major as `row * columns + col`. */
  lemma GridCoordinates(idx: nat, columns: nat, rows: nat)
    requires columns >= 1 && idx < MaxChars(columns, rows)
    ensures ColOf(idx, columns) < columns && RowOf(idx, columns) < rows
    ensures idx == RowOf(idx, columns) * columns + ColOf(idx, columns)
  {
  }

  /** Multiplying by a natural number keeps the order. */
  lemma MulMonotone(a: nat, b: nat, n: nat)
    requires a <= b
    ensures a * n <= b * n
  {
  }

  /** Row-major order: a later index lies in a later row, or further right
      in the same row. */
  lemma RowMajorOrder(i: nat, j: nat, columns: nat)
    requires columns >= 1 && i < j
    ensures RowOf(i, columns) < RowOf(j, columns)
         || (RowOf(i, columns) == RowOf(j, columns) && ColOf(i, columns) < ColOf(j, columns))
  {
    var ri, rj := RowOf(i, columns), RowOf(j, columns);
    var ci, cj := ColOf(i, columns), ColOf(j, columns);
    assert i == ri * columns + ci && j == rj * columns + cj;
    if rj < ri {
      MulMonotone(rj + 1, ri, columns);
      assert false;
    }
  }

  /** Distinct indices are placed at distinct positions; a later index is
      placed lower, or to the right on the same line. */
  lemma PositionsDistinct(i: nat, j: nat, columns: nat)
    requires columns >= 1 && i < j
    ensures CellY(i, columns) < CellY(j, columns)
         || (CellY(i, columns) == CellY(j, columns) && CellX(i, columns) < CellX(j, columns))
    ensures (CellX(i, columns), CellY(i, columns)) != (CellX(j, columns), CellY(j, columns))
  {
    RowMajorOrder(i, j, columns);
  }

  /** The cell `[x, x + cell_size) x [y, y + cell_size)` of every index below
      `columns * rows` lies inside the scene rectangle. */
  lemma CellInsideScene(idx: nat, columns: nat, rows: nat)
    requires columns >= 1 && idx < MaxChars(columns, rows)
    ensures var r := SceneRect(columns, rows);
      && r.x <= CellX(idx, columns) && CellX(idx, columns) + CellSize <= r.x + r.width
      && r.y <= CellY(idx, columns) && CellY(idx, columns) + CellSize <= r.y + r.height
  {
    GridCoordinates(idx, columns, rows);
    var c, ro := ColOf(idx, columns), RowOf(idx, columns);
    assert (c + 1) * CellSize <= columns * CellSize;
    assert (ro + 1) * CellSize <= rows * CellSize;
  }

  /** What `PlacedAt` promises, item by item: a glyph item sits at the cell
      corner and exists only for a character with an `.svg` file; a text item
      sits `cell_size // 4` inside the cell and exists only for a character
      without one. So an item is a glyph exactly when the picker finds a path. */
  lemma PlacedItemKind(picker: HandwritingPicker, assets: AssetListing, c: char,
                       idx: nat, columns: nat, item: Item)
    requires columns >= 1 && PlacedAt(picker, assets, c, idx, columns, item)
    ensures item.SvgItem? <==> c in assets && SvgFiles(assets[c]) != []
    ensures item.SvgItem? ==>
              item.x == CellX(idx, columns) && item.y == CellY(idx, columns) && EndsWith(item.path, ".svg")
    ensures item.TextItem? ==>
              item.x == CellX(idx, columns) + 3 && item.y == CellY(idx, columns) + 3
              && item.text == picker.GetFallbackChar(c)
  {
    if item.SvgItem? {
      PickIsSvgOfListing(picker, assets, c, item.path);
      var f :| f in SvgFiles(assets[c]) && item.path == Join(picker.Folder(c), f);
    }
  }
}
