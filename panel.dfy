/** How a panel-wide image is cut into one 72x72 crop per key. Keys are
    numbered column + row * 5 and the device's columns run right to left, so
    key 0 shows the top-right square of the picture. */
module Panel {
  import opened Protocol
  import opened Imaging

  /** One key and the rectangle of the panel image it shows. */
  datatype Crop = Crop(key: int, rect: Rect)

  /** The 360x216 rectangle a panel image covers when it starts at (0, 0). */
  const PanelRect: Rect := Rect(Point(0, 0), Point(NumColumns * IconSize, NumRows * IconSize))

  /** The crop taken at loop position (column, row). */
  function CropAt(column: int, row: int): (crop: Crop)
    ensures 0 <= column < NumColumns && 0 <= row < NumRows ==>
      0 <= crop.key < NumButtons && Within(crop.rect, PanelRect) &&
      Width(crop.rect) == IconSize && Height(crop.rect) == IconSize
  {
    var startX := (NumColumns - 1 - column) * IconSize;
    var startY := row * IconSize;
    Crop(column + row * NumColumns, Rect(Point(startX, startY), Point(startX + IconSize, startY + IconSize)))
  }

  /** The crops in the order the panel operation visits them: column by
      column, and within a column row by row. */
  function PanelCrops(): (crops: seq<Crop>)
    ensures |crops| == NumButtons
  {
    seq(NumButtons, n => CropAt(n / NumRows, n % NumRows))
  }

  /** The crops the panel loop has visited when it reaches position
      (column, row): every row of the earlier columns, then the earlier rows
      of this column. */
  function CropsBefore(column: nat, row: nat): (crops: seq<Crop>)
    decreases column, row
  {
    if row > 0 then CropsBefore(column, row - 1) + [CropAt(column, row - 1)]
    else if column > 0 then CropsBefore(column - 1, NumRows)
    else []
  }

  /** The crops visited before (column, row) are the first column * 3 + row
      crops of PanelCrops. */
  lemma {:induction false} CropsBeforeIs(column: nat, row: nat)
    requires (column < NumColumns && row <= NumRows) || (column == NumColumns && row == 0)
    ensures CropsBefore(column, row) == PanelCrops()[..column * NumRows + row]
    decreases column, row
  {
    var crops := PanelCrops();
    if row > 0 {
      var n := column * NumRows + (row - 1);
      CropsBeforeIs(column, row - 1);
      assert n / NumRows == column && n % NumRows == row - 1;
      assert crops[..n + 1] == crops[..n] + [crops[n]];
    } else if column > 0 {
      CropsBeforeIs(column - 1, NumRows);
      assert (column - 1) * NumRows + NumRows == column * NumRows;
    } else {
      assert crops[..0] == [];
    }
  }

  /** The square a key shows, addressed by the key alone. */
  function KeyRect(key: int): (r: Rect)
  {
    var startX := (NumColumns - 1 - key % NumColumns) * IconSize;
    var startY := key / NumColumns * IconSize;
    Rect(Point(startX, startY), Point(startX + IconSize, startY + IconSize))
  }

  /** The loop position at which key k is visited. */
  function Visit(key: int): (n: int)
  {
    key % NumColumns * NumRows + key / NumColumns
  }

  /** The n-th crop visited is the one for column n / 3 and row n % 3, i.e.
      position (column, row) of the nested loop is crop column * 3 + row. */
  lemma PanelCropOrder()
    ensures forall column, row | 0 <= column < NumColumns && 0 <= row < NumRows ::
      PanelCrops()[column * NumRows + row] == CropAt(column, row)
  {
    forall column, row | 0 <= column < NumColumns && 0 <= row < NumRows
      ensures PanelCrops()[column * NumRows + row] == CropAt(column, row)
    {
      var n := column * NumRows + row;
      assert n / NumRows == column && n % NumRows == row;
    }
  }

  /** The panel operation visits every key 0..14 exactly once, and the crop
      it takes for a key is the square KeyRect names; key 0 is the
      top-right square. */
  lemma PanelVisitsEveryKeyOnce()
    ensures forall n | 0 <= n < NumButtons :: 0 <= PanelCrops()[n].key < NumButtons
    ensures forall n, m | 0 <= n < m < NumButtons :: PanelCrops()[n].key != PanelCrops()[m].key
    ensures forall k | 0 <= k < NumButtons :: 0 <= Visit(k) < NumButtons && PanelCrops()[Visit(k)].key == k
    ensures forall n | 0 <= n < NumButtons :: PanelCrops()[n].rect == KeyRect(PanelCrops()[n].key)
    ensures PanelCrops()[0].key == 0 && PanelCrops()[0].rect == Rect(Point(288, 0), Point(360, 72))
  {
    var crops := PanelCrops();
    forall n | 0 <= n < NumButtons
      ensures 0 <= crops[n].key < NumButtons && crops[n].rect == KeyRect(crops[n].key)
    {
      var column, row := n / NumRows, n % NumRows;
      var key := column + row * NumColumns;
      assert key % NumColumns == column && key / NumColumns == row;
    }
    forall k | 0 <= k < NumButtons
      ensures 0 <= Visit(k) < NumButtons && crops[Visit(k)].key == k
    {
      var n := Visit(k);
      assert n / NumRows == k % NumColumns && n % NumRows == k / NumColumns;
    }
  }

  /** The 15 crops tile the 360x216 panel: each is a 72x72 square inside it,
      every point of the panel lies in one of them, and no point lies in two. */
  lemma PanelTiling()
    ensures forall n | 0 <= n < NumButtons ::
      Within(PanelCrops()[n].rect, PanelRect) &&
      Width(PanelCrops()[n].rect) == IconSize && Height(PanelCrops()[n].rect) == IconSize
    ensures forall x, y | Contains(PanelRect, x, y) ::
      exists n :: 0 <= n < NumButtons && Contains(PanelCrops()[n].rect, x, y)
    ensures forall n, m, x, y | 0 <= n < NumButtons && 0 <= m < NumButtons &&
      Contains(PanelCrops()[n].rect, x, y) && Contains(PanelCrops()[m].rect, x, y) :: n == m
  {
    var crops := PanelCrops();
    forall x, y | Contains(PanelRect, x, y)
      ensures exists n :: 0 <= n < NumButtons && Contains(crops[n].rect, x, y)
    {
      var column, row := NumColumns - 1 - x / IconSize, y / IconSize;
      var n := column * NumRows + row;
      assert n / NumRows == column && n % NumRows == row;
      assert Contains(crops[n].rect, x, y);
    }
    forall n, m, x, y | 0 <= n < NumButtons && 0 <= m < NumButtons &&
      Contains(crops[n].rect, x, y) && Contains(crops[m].rect, x, y)
      ensures n == m
    {
      assert n / NumRows == m / NumRows;
      assert n % NumRows == m % NumRows;
    }
  }

  /** For an image covering exactly the panel, each crop cuts out exactly
      its square. */
  lemma PanelSubImages(img: Image)
    requires img.bounds == PanelRect
    ensures forall n | 0 <= n < NumButtons :: SubImage(img, PanelCrops()[n].rect).bounds == PanelCrops()[n].rect
  {
    PanelTiling();
    forall n | 0 <= n < NumButtons ensures SubImage(img, PanelCrops()[n].rect).bounds == PanelCrops()[n].rect {
      var r := PanelCrops()[n].rect;
      var b := Intersect(r, img.bounds);
      assert Contains(r, r.min.x, r.min.y) && Contains(r, r.max.x - 1, r.max.y - 1);
      assert Contains(b, r.min.x, r.min.y) && Contains(b, r.max.x - 1, r.max.y - 1);
    }
  }
}
