/**
  The byte layout `draw_shape` writes: a binary ("raw", P6) Netpbm image whose
  header is the text "P6\n<N> <N>\n255\n" and whose body holds one RGB
  triplet per grid cell, in row-major order, white for a nonzero cell and
  black for a zero one.
 */
module PpmFormat {
  import opened Decimal

  newtype byte = x: int | 0 <= x < 256

  datatype Rgb = Rgb(r: byte, g: byte, b: byte)

  const White: Rgb := Rgb(255, 255, 255)
  const Black: Rgb := Rgb(0, 0, 0)

  predicate IsAscii(s: string) {
    forall i :: 0 <= i < |s| ==> s[i] as int < 128
  }

  /** The bytes of an ASCII string, one per character, as `fprintf` emits them. */
  function Ascii(s: string): (b: seq<byte>)
    requires IsAscii(s)
    ensures |b| == |s|
    ensures forall i :: 0 <= i < |s| ==> b[i] as int == s[i] as int
  {
    seq(|s|, i requires 0 <= i < |s| => (s[i] as int) as byte)
  }

  /** The characters of a byte string, one per byte. */
  function Text(b: seq<byte>): (s: string)
    ensures |s| == |b|
    ensures forall i :: 0 <= i < |b| ==> s[i] as int == b[i] as int
  {
    seq(|b|, i requires 0 <= i < |b| => (b[i] as int) as char)
  }

  lemma {:induction false} AsciiConcat(a: string, b: string)
    requires IsAscii(a) && IsAscii(b)
    ensures IsAscii(a + b)
  {
    forall i | 0 <= i < |a + b|
      ensures (a + b)[i] as int < 128
    {
      if i >= |a| {
        assert (a + b)[i] == b[i - |a|];
      }
    }
  }

  /** The text `%d` writes is ASCII: a possible minus sign and digits. */
  lemma {:induction false} DecIntAscii(n: int)
    ensures IsAscii(DecInt(n))
  {
    var s := DecInt(n);
    if n < 0 {
      forall i | 1 <= i < |s|
        ensures s[i] as int < 128
      {
        assert IsDigit(s[1..][i - 1]);
      }
    }
  }

  /** The header text `fprintf(f, "P6\n%d %d\n255\n", width, height)` writes. */
  function HeaderText(width: int, height: int): (s: string)
    ensures IsAscii(s)
  {
    DecIntAscii(width);
    DecIntAscii(height);
    AsciiConcat(DecInt(height), "\n255\n");
    AsciiConcat(" ", DecInt(height) + "\n255\n");
    AsciiConcat(DecInt(width), " " + (DecInt(height) + "\n255\n"));
    AsciiConcat("P6\n", DecInt(width) + (" " + (DecInt(height) + "\n255\n")));
    "P6\n" + (DecInt(width) + (" " + (DecInt(height) + "\n255\n")))
  }

  /** The header of the image of an N by N grid: width and height are both N. */
  function Header(N: int): (h: seq<byte>)
    ensures Text(h) == HeaderText(N, N)
  {
    Ascii(HeaderText(N, N))
  }

  /** The header is "P6\n", the two dimensions with a space and a newline, and "255\n": 9 bytes besides the digits. */
  lemma {:induction false} HeaderLength(N: int)
    ensures |Header(N)| == 2 * |DecInt(N)| + 9
    ensures Header(N)[..3] == [80, 54, 10]
  {
    var s := HeaderText(N, N);
    assert s[..3] == "P6\n";
  }

  /** The number of cells the nested loops visit: N*N, or none when N is not positive. */
  function CellCount(N: int): (c: nat)
    ensures c == 0 <==> N <= 0
    ensures N > 0 ==> c == N * N
  {
    if N > 0 then N * N else 0
  }

  /** The colour of one cell: white when nonzero, black when zero. */
  function Colour(v: int): (c: Rgb)
    ensures c == White <==> v != 0
    ensures c == Black <==> v == 0
  {
    if v != 0 then White else Black
  }

  function RgbBytes(c: Rgb): seq<byte> {
    [c.r, c.g, c.b]
  }

  /** The three bytes written for one cell. */
  function Triplet(v: int): (t: seq<byte>)
    ensures |t| == 3 && t[0] == t[1] == t[2]
    ensures t[0] == 255 <==> v != 0
    ensures t[0] == 0 <==> v == 0
  {
    RgbBytes(Colour(v))
  }

  /** The triplets of the given cells, one after another with nothing between them. */
  function Body(cells: seq<int>): (b: seq<byte>)
    ensures |b| == 3 * |cells|
  {
    if cells == [] then [] else Body(cells[..|cells| - 1]) + Triplet(cells[|cells| - 1])
  }

  /** The whole file `draw_shape` writes for `grid` and `N`. */
  function EncodePPM(grid: seq<int>, N: int): (file: seq<byte>)
    requires CellCount(N) <= |grid|
    ensures |file| == |Header(N)| + 3 * CellCount(N)
    ensures file[..|Header(N)|] == Header(N)
  {
    Header(N) + Body(grid[..CellCount(N)])
  }

  /** Reading the text of a header followed by arbitrary bytes. */
  lemma {:induction false} TextOfAscii(s: string, rest: seq<byte>)
    requires IsAscii(s)
    ensures Text(Ascii(s) + rest) == s + Text(rest)
  {
    var t := Text(Ascii(s) + rest);
    assert forall i :: 0 <= i < |s| ==> t[i] == s[i];
    assert forall i :: |s| <= i < |t| ==> t[i] == Text(rest)[i - |s|];
  }

  /** Triplet `k` of the body stands at offset 3*k and encodes cell `k`. */
  lemma {:induction false} BodyTriplet(cells: seq<int>, k: nat)
    requires k < |cells|
    ensures Body(cells)[3 * k..3 * k + 3] == Triplet(cells[k])
  {
    var n := |cells| - 1;
    var prefix := cells[..n];
    assert Body(cells) == Body(prefix) + Triplet(cells[n]);
    if k < n {
      BodyTriplet(prefix, k);
      assert prefix[k] == cells[k];
    }
  }

  /** Writing one more cell appends its triplet to what was written so far, header included. */
  lemma {:induction false} BodyStep(header: seq<byte>, cells: seq<int>, k: nat)
    requires k < |cells|
    ensures Body(cells[..k + 1]) == Body(cells[..k]) + Triplet(cells[k])
    ensures header + Body(cells[..k + 1]) == (header + Body(cells[..k])) + Triplet(cells[k])
  {
    assert cells[..k + 1][..k] == cells[..k];
  }

  /** 0 <= y*N + x < N*N for every cell the nested loops visit. */
  lemma {:induction false} CellIndexInBounds(y: int, x: int, N: int)
    requires 0 <= y < N && 0 <= x < N
    ensures 0 <= y * N + x < CellCount(N)
  {
    assert y * N + x < y * N + N == (y + 1) * N;
    assert (y + 1) * N <= N * N;
  }

  /** The triplet for cell `idx` stands at offset |header| + 3*idx and is white iff the cell is nonzero. */
  lemma {:induction false} EncodePixel(grid: seq<int>, N: int, idx: nat)
    requires CellCount(N) <= |grid|
    requires idx < CellCount(N)
    ensures var off := |Header(N)| + 3 * idx;
      EncodePPM(grid, N)[off..off + 3] == Triplet(grid[idx]) &&
      (grid[idx] != 0 ==> EncodePPM(grid, N)[off..off + 3] == [255, 255, 255]) &&
      (grid[idx] == 0 ==> EncodePPM(grid, N)[off..off + 3] == [0, 0, 0])
  {
    var cells := grid[..CellCount(N)];
    BodyTriplet(cells, idx);
    var h, b := Header(N), Body(cells);
    assert EncodePPM(grid, N) == h + b;
    SliceAfter(h, b, 3 * idx, 3 * idx + 3);
  }

  /** A slice of the part after a prefix, read through the whole sequence. */
  lemma {:induction false} SliceAfter(h: seq<byte>, b: seq<byte>, i: nat, j: nat)
    requires i <= j <= |b|
    ensures (h + b)[|h| + i..|h| + j] == b[i..j]
  {
    assert forall k :: 0 <= k < j - i ==> (h + b)[|h| + i..|h| + j][k] == b[i..j][k];
  }

  /** Row-major order: cell (y, x) is triplet y*N + x, with no padding between rows. */
  lemma {:induction false} EncodeRowMajor(grid: seq<int>, N: int, y: int, x: int)
    requires CellCount(N) <= |grid|
    requires 0 <= y < N && 0 <= x < N
    ensures 0 <= y * N + x < CellCount(N)
    ensures var off := |Header(N)| + 3 * (y * N + x);
      EncodePPM(grid, N)[off..off + 3] == Triplet(grid[y * N + x])
  {
    CellIndexInBounds(y, x, N);
    EncodePixel(grid, N, y * N + x);
  }

  /** Every body byte is 0 or 255: 255 exactly when the cell it belongs to is nonzero. */
  lemma {:induction false} BodyByte(grid: seq<int>, N: int, j: nat)
    requires CellCount(N) <= |grid|
    requires |Header(N)| <= j < |EncodePPM(grid, N)|
    ensures var idx := (j - |Header(N)|) / 3;
      idx < CellCount(N) &&
      EncodePPM(grid, N)[j] == (if grid[idx] != 0 then 255 else 0)
  {
    var cells := grid[..CellCount(N)];
    var h, b := Header(N), Body(cells);
    assert EncodePPM(grid, N) == h + b;
    var d := j - |h|;
    BodyByteOf(cells, d);
    assert (h + b)[j] == b[d];
    assert cells[d / 3] == grid[d / 3];
  }

  /** Byte d of the body belongs to cell d / 3 and is 255 or 0 as that cell is nonzero or zero. */
  lemma {:induction false} BodyByteOf(cells: seq<int>, d: nat)
    requires d < |Body(cells)|
    ensures d / 3 < |cells|
    ensures Body(cells)[d] == if cells[d / 3] != 0 then 255 else 0
  {
    var idx, r := d / 3, d % 3;
    assert d == 3 * idx + r && r < 3;
    BodyTriplet(cells, idx);
    assert Body(cells)[d] == Body(cells)[3 * idx..3 * idx + 3][r];
  }

  /** The demonstration size: for N = 512 the header "P6\n512 512\n255\n" is 15 bytes and the file 786,447. */
  lemma {:induction false} Size512(grid: seq<int>)
    requires |grid| == 512 * 512
    ensures |Header(512)| == 15
    ensures |EncodePPM(grid, 512)| == 786447
  {
    assert DecNat(512) == DecNat(51) + ['2'];
    assert DecNat(51) == DecNat(5) + ['1'];
    assert |DecInt(512)| == 3;
  }

  /** A 2 by 2 diagonal grid: header "P6\n2 2\n255\n", then white, black, black, white. */
  lemma {:induction false} SmallDiagonalExample()
    ensures EncodePPM([1, 0, 0, 1], 2) ==
      Ascii("P6\n2 2\n255\n") + [255, 255, 255, 0, 0, 0, 0, 0, 0, 255, 255, 255]
  {
    assert DecInt(2) == "2";
    assert [1, 0, 0, 1][..CellCount(2)] == [1, 0, 0, 1];
    assert Body([1, 0, 0, 1]) == [255, 255, 255, 0, 0, 0, 0, 0, 0, 255, 255, 255] by {
      assert [1, 0, 0, 1][..3] == [1, 0, 0];
      assert [1, 0, 0][..2] == [1, 0];
      assert [1, 0][..1] == [1];
      assert [1][..0] == [];
    }
  }

  /** A 1 by 1 black grid: header "P6\n1 1\n255\n", then one black triplet. */
  lemma {:induction false} SingleBlackExample()
    ensures EncodePPM([0], 1) == Ascii("P6\n1 1\n255\n") + [0, 0, 0]
  {
    assert DecInt(1) == "1";
    assert [0][..CellCount(1)] == [0];
    assert [0][..0] == [];
  }
}
