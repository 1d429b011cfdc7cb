/**
  `main`: allocates an N by N buffer, clears it, marks the main diagonal
  (the cells whose row equals their column) with 1, and hands it to
  `draw_shape`. The program fixes N at 512; here N is any positive size.
  Whether the allocation and the file open succeed are parameters.
 */
module Harness {
  import opened Wrappers
  import opened PpmFormat
  import opened PpmReader
  import opened PpmWriter

  /** Cell k of an N by N grid lies on the diagonal when its row k / N equals its column k % N. */
  predicate OnDiagonal(N: int, k: int)
    requires N > 0
    ensures OnDiagonal(N, k) <==> k == (k / N) * N + k / N
  {
    k / N == k % N
  }

  /** The grid `main` produces: 1 on the diagonal, 0 everywhere else. */
  function Diagonal(N: int): (g: seq<int>)
    requires N > 0
    ensures |g| == N * N
    ensures forall k :: 0 <= k < N * N ==> (g[k] != 0 <==> OnDiagonal(N, k))
  {
    seq(N * N, k requires 0 <= k < N * N => if OnDiagonal(N, k) then 1 else 0)
  }

  /** The number of nonzero cells. */
  function NonzeroCount(cells: seq<int>): nat {
    if cells == [] then 0
    else NonzeroCount(cells[..|cells| - 1]) + (if cells[|cells| - 1] != 0 then 1 else 0)
  }

  /** The number of white pixels. */
  function WhiteCount(px: seq<Rgb>): nat {
    if px == [] then 0
    else WhiteCount(px[..|px| - 1]) + (if px[|px| - 1] == White then 1 else 0)
  }

  /** `memset(pixels, 0, ...)`: every cell becomes 0. */
  method ZeroFill(pixels: array<int>)
    modifies pixels
    ensures forall k :: 0 <= k < pixels.Length ==> pixels[k] == 0
  {
    forall k | 0 <= k < pixels.Length {
      pixels[k] := 0;
    }
  }

  /** The loop `pixels[i*N + i] = 1` for i from 0 to N-1: diagonal cells become 1, the others keep their value. */
  method MarkDiagonal(pixels: array<int>, N: int)
    requires N > 0 && pixels.Length == N * N
    modifies pixels
    ensures forall k :: 0 <= k < N * N ==> pixels[k] == if OnDiagonal(N, k) then 1 else old(pixels[k])
  {
    var i := 0;
    while i < N
      invariant 0 <= i <= N
      invariant forall k :: 0 <= k < N * N ==>
        pixels[k] == if OnDiagonal(N, k) && k / N < i then 1 else old(pixels[k])
    {
      DiagonalIndex(N, i);
      pixels[i * N + i] := 1;
      forall k | 0 <= k < N * N && k != i * N + i
        ensures !(OnDiagonal(N, k) && k / N == i)
      {
        RowMajorSplit(N, k);
      }
      i := i + 1;
    }
  }

  /**
    The whole program: exit status 1 without drawing when allocation fails,
    otherwise status 0 after drawing the diagonal grid (also when the file
    cannot be opened, since `draw_shape` does not report that to its caller).
   */
  method Run(N: int, allocOk: bool, openOk: bool) returns (status: int, file: Option<seq<byte>>)
    requires N > 0
    ensures !allocOk ==> status == 1 && file == None
    ensures allocOk ==> status == 0
    ensures allocOk && openOk ==> file == Some(EncodePPM(Diagonal(N), N))
    ensures allocOk && !openOk ==> file == None
  {
    if !allocOk {
      return 1, None;
    }
    var pixels := new int[N * N];
    ZeroFill(pixels);
    MarkDiagonal(pixels, N);
    assert pixels[..] == Diagonal(N);
    file := DrawShape(pixels, N, openOk);
    status := 0;
  }

  lemma {:induction false} MulNonneg(a: int, b: int)
    requires a >= 0 && b >= 0
    ensures a * b >= 0
  {
  }

  /** Cell (y, x) is cell y*N + x: its row is y and its column x. */
  lemma {:induction false} RowMajorIndex(N: int, y: int, x: int)
    requires N > 0 && 0 <= y && 0 <= x < N
    ensures (y * N + x) / N == y && (y * N + x) % N == x
  {
    var k := y * N + x;
    var q, r := k / N, k % N;
    assert k == q * N + r;
    if q > y {
      MulNonneg(q - y - 1, N);
    } else if q < y {
      MulNonneg(y - q - 1, N);
    }
  }

  /** Every cell k of an N by N grid is y*N + x for its row y < N and column x < N. */
  lemma {:induction false} RowMajorSplit(N: int, k: int)
    requires N > 0 && 0 <= k < N * N
    ensures k == (k / N) * N + k % N
    ensures 0 <= k / N < N && 0 <= k % N < N
  {
    var q := k / N;
    if q >= N {
      MulNonneg(q - N, N);
    }
  }

  /** The index the loop writes, i*N + i, is in the buffer and lies on the diagonal. */
  lemma {:induction false} DiagonalIndex(N: int, i: int)
    requires N > 0 && 0 <= i < N
    ensures 0 <= i * N + i < N * N
    ensures OnDiagonal(N, i * N + i) && (i * N + i) / N == i
  {
    CellIndexInBounds(i, i, N);
    RowMajorIndex(N, i, i);
  }

  /** Cell (y, x) of the diagonal grid is 1 when x == y and 0 otherwise. */
  lemma {:induction false} DiagonalCell(N: int, y: int, x: int)
    requires N > 0 && 0 <= y < N && 0 <= x < N
    ensures 0 <= y * N + x < N * N
    ensures Diagonal(N)[y * N + x] == if x == y then 1 else 0
  {
    CellIndexInBounds(y, x, N);
    RowMajorIndex(N, y, x);
  }

  lemma {:induction false} NonzeroCountAppend(a: seq<int>, b: seq<int>)
    ensures NonzeroCount(a + b) == NonzeroCount(a) + NonzeroCount(b)
  {
    if b == [] {
      assert a + b == a;
    } else {
      var c := a + b;
      assert c[..|c| - 1] == a + b[..|b| - 1];
      assert c[|c| - 1] == b[|b| - 1];
      NonzeroCountAppend(a, b[..|b| - 1]);
    }
  }

  /** The first x cells of row y hold one nonzero cell when they reach past column y, none otherwise. */
  lemma {:induction false} RowPrefixCount(N: int, y: int, x: int)
    requires N > 0 && 0 <= y < N && 0 <= x <= N
    ensures y * N + x <= N * N
    ensures NonzeroCount(Diagonal(N)[y * N..y * N + x]) == if y < x then 1 else 0
  {
    if x == 0 {
      CellIndexInBounds(y, 0, N);
      assert Diagonal(N)[y * N..y * N] == [];
    } else {
      RowPrefixCount(N, y, x - 1);
      DiagonalCell(N, y, x - 1);
      var row := Diagonal(N)[y * N..y * N + x];
      assert row[..x - 1] == Diagonal(N)[y * N..y * N + x - 1];
    }
  }

  /**
    Row y of an N-wide grid starts N cells after row y - 1 and ends inside the
    grid. Kept as a lemma so that these products are proved apart from the
    facts about the grid's contents.
   */
  lemma {:induction false} RowStep(N: int, y: int)
    requires N > 0 && 0 < y <= N
    ensures (y - 1) * N + N == y * N <= N * N
  {
  }

  /** The first y rows of the diagonal grid hold exactly y nonzero cells. */
  lemma {:induction false} RowsCount(N: int, y: int)
    requires N > 0 && 0 <= y <= N
    ensures y * N <= N * N
    ensures NonzeroCount(Diagonal(N)[..y * N]) == y
  {
    if y == 0 {
      assert Diagonal(N)[..0] == [];
    } else {
      RowsCount(N, y - 1);
      RowPrefixCount(N, y - 1, N);
      var g := Diagonal(N);
      var a, b := (y - 1) * N, y * N;
      RowStep(N, y);
      assert g[..b] == g[..a] + g[a..b];
      NonzeroCountAppend(g[..a], g[a..b]);
    }
  }

  /** Exactly N cells of the diagonal grid are nonzero, so N*N - N are zero. */
  lemma {:induction false} DiagonalCount(N: int)
    requires N > 0
    ensures NonzeroCount(Diagonal(N)) == N
    ensures |Diagonal(N)| - NonzeroCount(Diagonal(N)) == N * N - N
  {
    RowsCount(N, N);
    assert Diagonal(N)[..N * N] == Diagonal(N);
  }

  lemma {:induction false} WhiteCountColours(cells: seq<int>)
    ensures WhiteCount(Colours(cells)) == NonzeroCount(cells)
  {
    if cells != [] {
      var n := |cells| - 1;
      assert Colours(cells)[..n] == Colours(cells[..n]);
      WhiteCountColours(cells[..n]);
    }
  }

  /**
    Decoding the image of the diagonal grid: it is N by N, has exactly N white
    pixels, and pixel k is white exactly when cell k lies on the diagonal.
   */
  lemma {:induction false} DiagonalImage(N: int)
    requires N > 0
    ensures DecodePPM(EncodePPM(Diagonal(N), N)) == Some(Image(N, N, Colours(Diagonal(N))))
    ensures WhiteCount(Colours(Diagonal(N))) == N
    ensures forall k :: 0 <= k < N * N ==> (Colours(Diagonal(N))[k] == White <==> OnDiagonal(N, k))
  {
    var g := Diagonal(N);
    DecodeEncode(g, N);
    assert g[..N * N] == g;
    WhiteCountColours(g);
    DiagonalCount(N);
  }

  /** In the file for the diagonal grid, the triplet of cell i*N + i, at offset |header| + 3*(i*N + i), is white. */
  lemma {:induction false} DiagonalWhiteOffsets(N: int, i: int)
    requires N > 0 && 0 <= i < N
    ensures var file := EncodePPM(Diagonal(N), N);
      var off := |Header(N)| + 3 * (i * N + i);
      off + 3 <= |file| && file[off..off + 3] == [255, 255, 255]
  {
    DiagonalIndex(N, i);
    EncodePixel(Diagonal(N), N, i * N + i);
  }
}
