/**
  `draw_shape`: writes an N by N grid as a binary PPM file. The file is the
  sequence of bytes the routine hands to the stream, in order; whether the
  file could be opened is a parameter, and `None` stands for "no file".
 */
module PpmWriter {
  import opened Wrappers
  import opened PpmFormat

  /**
    Opens the file (or gives up when `openOk` is false), writes the header,
    then for each row y and each column x writes the triplet of cell y*N + x.
    The grid is only read: the method has no `modifies` clause, so it cannot
    change the grid.
   */
  method DrawShape(arr: array<int>, N: int, openOk: bool) returns (file: Option<seq<byte>>)
    requires CellCount(N) <= arr.Length
    ensures !openOk ==> file == None
    ensures openOk ==> file == Some(EncodePPM(arr[..], N))
  {
    if !openOk {
      return None;
    }
    ghost var grid := arr[..];
    ghost var total := CellCount(N);
    ghost var done := 0;  // the number of cells written so far
    var out := Header(N);
    ghost var header := out;
    var y := 0;
    while y < N
      invariant 0 <= y && (N <= 0 ==> y == 0) && (N > 0 ==> y <= N)
      invariant done == y * N <= total
      invariant out == header + Body(grid[..done])
    {
      var x := 0;
      while x < N
        invariant 0 <= x <= N
        invariant done == y * N + x <= total
        invariant out == header + Body(grid[..done])
      {
        CellIndexInBounds(y, x, N);
        var idx := y * N + x;
        var pixel := new byte[3];
        if arr[idx] != 0 {
          pixel[0] := 255;
          pixel[1] := 255;
          pixel[2] := 255;
          assert pixel[..] == [255, 255, 255];
        } else {
          pixel[0] := 0;
          pixel[1] := 0;
          pixel[2] := 0;
          assert pixel[..] == [0, 0, 0];
        }
        assert pixel[..] == Triplet(grid[idx]);
        BodyStep(header, grid, idx);
        out := out + pixel[..];
        done := done + 1;
        x := x + 1;
      }
      NextRow(y, N);
      y := y + 1;
    }
    assert done == total;
    file := Some(out);
  }

  /**
    Finishing row y moves the cell count from y*N to (y+1)*N. Kept as a lemma
    so that this product step is proved apart from the loop's other facts.
   */
  lemma {:induction false} NextRow(y: int, N: int)
    ensures y * N + N == (y + 1) * N
  {
  }
}
