# Diagonal-line PPM writer, modelled in Dafny

The program has two parts. `draw_shape` takes an N by N grid of `int` cells.
It writes the grid as a binary ("raw", P6) Netpbm image:

- the header text `P6\n<N> <N>\n255\n`;
- then one RGB triplet per cell, row by row. A nonzero cell gives white
  (255, 255, 255) and a zero cell gives black (0, 0, 0).

If the file cannot be opened it writes nothing. `main` allocates an N by N
buffer of `int`s and clears it. It sets the cells `i*N + i` for i from 0 to
N-1 to 1, which is the main diagonal. Then it calls `draw_shape` and frees the
buffer. It returns 1 if the allocation fails and 0 otherwise.

The project is organised as follows:

- `wrappers.dfy` (`Wrappers`): the `Option` type.
- `decimal.dfy` (`Decimal`): the decimal text that `%d` prints. It also has a
  reader for that text: reading back what was written recovers the number.
- `ppm_format.dfy` (`PpmFormat`): the byte layout of the file.
  - `EncodePPM(grid, N)` is the function that specifies the whole output.
  - The lemmas cover the header prefix and its length, the triplet of every
    cell at offset `|header| + 3*(y*N + x)`, row-major order, and that every
    body byte is 0 or 255.
- `ppm_reader.dfy` (`PpmReader`): a decoder for that layout, a left
  inverse of the encoder. Decoding the file for an N by N grid gives back N, N,
  the maximum value 255 and the colour of every cell.
- `ppm_writer.dfy` (`PpmWriter`): `DrawShape`, the nested `y`/`x` loops.
  - The output stream is the sequence of bytes written in order.
  - The method is proved to produce exactly `EncodePPM` of the grid, and to
    leave the grid unchanged.
  - Whether `fopen` succeeds is a parameter. `None` means no file was
    produced.
- `harness.dfy` (`Harness`): `main`, made up of the following.
  - `ZeroFill` models `memset`.
  - `MarkDiagonal` models the marking loop.
  - `Run` models the whole program. Whether `malloc` succeeds is a parameter.
  - Lemmas about the resulting grid: exactly N nonzero cells, all on the
    diagonal, and each one gives a white triplet at `|header| + 3*(i*N + i)`.

## Model

| member | source | states |
|---|---|---|
| Decimal.DecInt | homeworks/homework-3/problem-3/code/draw_shape.c:16 | `%d` text is non-empty; it is all digits for n >= 0, and a '-' followed by digits for n < 0 |
| Decimal.DecNat | homeworks/homework-3/problem-3/code/draw_shape.c:16 | the digits `%d` prints for a natural number: never empty, only digits, and no leading zero except for 0 itself |
| Decimal.DecNatValue | homeworks/homework-3/problem-3/code/draw_shape.c:16 | the digits written for a natural number denote that number |
| Decimal.ParseNat | homeworks/homework-3/problem-3/code/draw_shape.c:16 | reading digits fails exactly when the text does not start with a digit; otherwise it consumes the whole digit run |
| Decimal.ParseNatRoundTrip | homeworks/homework-3/problem-3/code/draw_shape.c:16 | reading back the digits of n, followed by a non-digit, gives n and the number of characters written |
| Decimal.ParseIntRoundTrip | homeworks/homework-3/problem-3/code/draw_shape.c:16 | reading back the `%d` text of any integer n, followed by a non-digit, gives n and the length of that text |
| Decimal.NegativeRoundTrip | homeworks/homework-3/problem-3/code/draw_shape.c:16 | the negative case of the round trip: a minus sign, then the digits of -n |
| PpmFormat.HeaderText | homeworks/homework-3/problem-3/code/draw_shape.c:16 | the header text is ASCII, so `fprintf` writes it one byte per character |
| PpmFormat.Header | homeworks/homework-3/problem-3/code/draw_shape.c:16 | the header bytes are the header text one byte per character: read back as text they give exactly that text |
| PpmFormat.HeaderLength | homeworks/homework-3/problem-3/code/draw_shape.c:16 | the header starts with the bytes of "P6\n" and is 9 bytes longer than the two dimensions' digits |
| PpmFormat.CellCount | homeworks/homework-3/problem-3/code/draw_shape.c:18-19 | the nested loops visit N*N cells when N > 0, and none exactly when N <= 0 |
| PpmFormat.Colour | homeworks/homework-3/problem-3/code/draw_shape.c:23-33 | a cell is white iff it is nonzero, and black iff it is zero |
| PpmFormat.Triplet | homeworks/homework-3/problem-3/code/draw_shape.c:21-33 | three equal bytes per cell: 255 iff the cell is nonzero, 0 iff it is zero |
| PpmFormat.Body | homeworks/homework-3/problem-3/code/draw_shape.c:18-36 | the body has exactly 3 bytes per cell visited, with no padding |
| PpmFormat.EncodePPM | homeworks/homework-3/problem-3/code/draw_shape.c:16-37 | the file starts with the header and is the header plus 3 bytes per cell of the N*N grid (no cells when N <= 0) |
| PpmFormat.TextOfAscii | homeworks/homework-3/problem-3/code/draw_shape.c:16 | the bytes of the header, read as text, give the header text back, whatever follows |
| PpmFormat.BodyTriplet | homeworks/homework-3/problem-3/code/draw_shape.c:18-35 | triplet k of the body lies at offset 3k and encodes cell k |
| PpmFormat.BodyStep | homeworks/homework-3/problem-3/code/draw_shape.c:35 | writing one more cell appends exactly its triplet to what was written |
| PpmFormat.CellIndexInBounds | homeworks/homework-3/problem-3/code/draw_shape.c:18-20 | every index y*N + x the loops compute lies in 0 .. N*N-1 |
| PpmFormat.EncodePixel | homeworks/homework-3/problem-3/code/draw_shape.c:20-35 | the triplet of cell idx lies 3*idx bytes after the end of the header; it is [255,255,255] for a nonzero cell and [0,0,0] for a zero cell |
| PpmFormat.EncodeRowMajor | homeworks/homework-3/problem-3/code/draw_shape.c:18-20 | row-major order: cell (y, x) is triplet y*N + x of the body |
| PpmFormat.BodyByte | homeworks/homework-3/problem-3/code/draw_shape.c:23-35 | every body byte is 255 when the cell it belongs to is nonzero and 0 otherwise, so it is always 0 or 255 |
| PpmFormat.BodyByteOf | homeworks/homework-3/problem-3/code/draw_shape.c:23-35 | byte d of the body belongs to cell d / 3 and is 255 when that cell is nonzero and 0 when it is zero |
| PpmFormat.Size512 | homeworks/homework-3/problem-3/code/main.c:11 | for N = 512 the header is 15 bytes and the file 786,447 bytes |
| PpmFormat.SmallDiagonalExample | homeworks/homework-3/problem-3/code/draw_shape.c:16-35 | the exact bytes for the 2 by 2 diagonal grid |
| PpmFormat.SingleBlackExample | homeworks/homework-3/problem-3/code/draw_shape.c:16-35 | the exact bytes for a 1 by 1 zero grid |
| PpmReader.Field | homeworks/homework-3/problem-3/code/draw_shape.c:16 | a header field read consumes at least its separator, and an unsigned field is non-negative |
| PpmReader.ParseHeaderText | homeworks/homework-3/problem-3/code/draw_shape.c:16 | a header read leaves strictly less text than it was given |
| PpmReader.Pixels | homeworks/homework-3/problem-3/code/draw_shape.c:35 | body bytes are grouped in order: pixel k is bytes 3k .. 3k+2 |
| PpmReader.DecodePPM | homeworks/homework-3/problem-3/code/draw_shape.c:16-37 | a decoded image has exactly width*height pixels |
| PpmReader.Colours | homeworks/homework-3/problem-3/code/draw_shape.c:23-33 | pixel k is white iff cell k is nonzero, and black iff it is zero |
| PpmReader.FieldRoundTrip | homeworks/homework-3/problem-3/code/draw_shape.c:16 | a `%d` field followed by its separator reads back as the same number, with the text after the separator left over |
| PpmReader.ParseHeaderTextOf | homeworks/homework-3/problem-3/code/draw_shape.c:16 | the format "P6\n%d %d\n%d\n" with any width, height and maximum value reads back to those three numbers, and what follows is left unread |
| PpmReader.HeaderOfFields | homeworks/homework-3/problem-3/code/draw_shape.c:16 | "P6\n" followed by three fields read one after another gives those three values |
| PpmReader.HeaderIsLayout | homeworks/homework-3/problem-3/code/draw_shape.c:16 | the header `draw_shape` writes is that format with width N, height N and maximum 255 |
| PpmReader.HeaderTextRoundTrip | homeworks/homework-3/problem-3/code/draw_shape.c:16 | parsing the header text gives back N, N and 255, and ends exactly where the header ends |
| PpmReader.HeaderRoundTrip | homeworks/homework-3/problem-3/code/draw_shape.c:16 | parsing the header bytes, followed by any bytes, gives back N, N and 255, and leaves the following bytes unread |
| PpmReader.PixelsOfBody | homeworks/homework-3/problem-3/code/draw_shape.c:18-35 | regrouping the body into triplets gives the colour of every cell, in order |
| PpmReader.DecodeEncode | homeworks/homework-3/problem-3/code/draw_shape.c:16-37 | decoding the file for N >= 0 gives an N by N image whose pixels are the colours of the first N*N cells |
| PpmReader.NegativeSideRejected | homeworks/homework-3/problem-3/code/draw_shape.c:16-19 | for N < 0 only the header is written (the loops do not run), and the file does not decode |
| PpmWriter.DrawShape | homeworks/homework-3/problem-3/code/draw_shape.c:7-41 | when the open fails there is no file; otherwise the bytes written are exactly `EncodePPM` of the grid; with no `modifies` clause it cannot change the grid |
| Harness.OnDiagonal | homeworks/homework-3/problem-3/code/main.c:22-24 | cell k is on the diagonal exactly when it is row*N + row for its own row k / N, the form of the indices i*N + i the loop writes |
| Harness.Diagonal | homeworks/homework-3/problem-3/code/main.c:18-24 | the grid `main` builds has N*N cells, and a cell is nonzero iff its row equals its column |
| Harness.ZeroFill | homeworks/homework-3/problem-3/code/main.c:18 | every cell of the buffer becomes 0 |
| Harness.MarkDiagonal | homeworks/homework-3/problem-3/code/main.c:22-24 | diagonal cells become 1; every other cell keeps its value |
| Harness.Run | homeworks/homework-3/problem-3/code/main.c:10-31 | allocation failure gives status 1 and no file. Otherwise the status is 0, and the file is the encoding of the diagonal grid, or nothing when the open fails |
| Harness.RowMajorIndex | homeworks/homework-3/problem-3/code/main.c:23 | index y*N + x has row y and column x |
| Harness.RowMajorSplit | homeworks/homework-3/problem-3/code/main.c:23 | every index below N*N is row*N + column with row and column below N |
| Harness.DiagonalIndex | homeworks/homework-3/problem-3/code/main.c:22-24 | the index i*N + i the loop writes lies in the buffer and on the diagonal, in row i |
| Harness.DiagonalCell | homeworks/homework-3/problem-3/code/main.c:22-24 | cell (y, x) of the grid is 1 when x == y and 0 otherwise |
| Harness.RowPrefixCount | homeworks/homework-3/problem-3/code/main.c:22-24 | the first x cells of row y hold one nonzero cell if x > y and none otherwise |
| Harness.RowsCount | homeworks/homework-3/problem-3/code/main.c:22-24 | the first y rows hold exactly y nonzero cells |
| Harness.DiagonalCount | homeworks/homework-3/problem-3/code/main.c:18-24 | exactly N cells are nonzero and N*N - N are zero |
| Harness.NonzeroCountAppend | homeworks/homework-3/problem-3/code/main.c:18-24 | the count of nonzero cells adds up over concatenation |
| Harness.WhiteCountColours | homeworks/homework-3/problem-3/code/draw_shape.c:23-33 | the number of white pixels equals the number of nonzero cells |
| Harness.DiagonalImage | homeworks/homework-3/problem-3/code/main.c:26 | the image decodes as N by N, has exactly N white pixels, and pixel k is white iff cell k is on the diagonal |
| Harness.DiagonalWhiteOffsets | homeworks/homework-3/problem-3/code/main.c:22-26 | in the file, the triplet 3*(i*N + i) bytes after the header is white for every i < N |

## Left out

- File I/O is not modelled as calls. The file name `output.ppm`, `perror` and the `printf` messages (draw_shape.c:8, 11, 40; main.c:14, 29) are console and file-system effects. The file is the byte sequence written, and an open failure is the `openOk` parameter.
- A failing `fwrite` or `fclose` is not modelled. Each write is assumed to append its bytes, since the source ignores both results.
- `malloc` and `free` are not modelled as memory management. Allocation success is the `allocOk` parameter of `Harness.Run`. The buffer is a fresh Dafny array, and `free` has no observable effect here.
- `sizeof(int)` and byte counts for `malloc`/`memset` are not modelled. `ZeroFill` clears every `int` cell, which is what `memset` with `N * N * sizeof(int)` bytes does.
- 32-bit `int` arithmetic is not modelled. N and the cells are unbounded integers. For N = 512, N*N*sizeof(int) = 1,048,576 is far from overflow, and `%d` of any 32-bit value is covered by `DecInt`.
- Harness.Run: holds for every N > 0, not only for the fixed N = 512. `Size512` gives the concrete sizes for 512.
- The header `P6\n512 512\n255\n` is 15 bytes: 3 for `P6\n`, 7 for `512 512` and 5 for `\n255\n`. So the file is 786,447 bytes (`PpmFormat.Size512`).
- The comment "x + y = 0" at main.c:21 does not describe the loop. The loop marks the cells with x == y (the main diagonal). The model follows the code.
- The reader in `PpmReader` reads only the exact header layout that `draw_shape` writes: single space and newline separators, no comments, maximum value 255. It exists to state the round trips; it is not a general Netpbm reader.
- For N <= 0, `draw_shape` writes only the header, which has the non-positive numbers in it. `PpmReader.NegativeSideRejected` shows that for N < 0 no image decodes. N = 0 decodes as an empty 0 by 0 image (`DecodeEncode`).
