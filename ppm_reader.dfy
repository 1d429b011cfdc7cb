/**
  A reader for the files `draw_shape` writes: it recognises the header layout
  "P6\n<width> <height>\n<maxval>\n" and splits the body into RGB triplets.
  It is a left inverse of the encoder: decoding an encoded grid gives back its
  dimensions and its colours.
 */
module PpmReader {
  import opened Wrappers
  import opened Decimal
  import opened PpmFormat

  /** A number read from the front of a string, and the text after its separator. */
  datatype FieldRead = FieldRead(value: int, rest: string)

  /** What a header declares. */
  datatype PpmHeader = PpmHeader(width: int, height: int, maxval: int)

  /** A header read from the front of a text, and the text after it. */
  datatype HeaderRead = HeaderRead(header: PpmHeader, rest: string)

  /** A decoded image: its dimensions and its pixels in row-major order. */
  datatype Image = Image(width: nat, height: nat, pixels: seq<Rgb>)

  /**
    Reads a number at the front of `s` (with a sign when `signed`) that must be
    followed by the separator `sep`; gives the number and what follows `sep`.
   */
  function Field(s: string, signed: bool, sep: char): (r: Option<FieldRead>)
    ensures r.Some? ==> |r.value.rest| < |s|
    ensures r.Some? && !signed ==> r.value.value >= 0
  {
    var p :- if signed then ParseInt(s) else ParseNat(s);
    if p.used >= |s| || s[p.used] != sep then None
    else Some(FieldRead(p.value, s[p.used + 1..]))
  }

  /** Reads "P6\n", the width, one space, the height, a newline, the maximum value and a newline. */
  function ParseHeaderText(s: string): (r: Option<HeaderRead>)
    ensures r.Some? ==> |r.value.rest| < |s|
  {
    if |s| < 3 || s[..3] != "P6\n" then None
    else
      var width :- Field(s[3..], true, ' ');
      var height :- Field(width.rest, true, '\n');
      var maxval :- Field(height.rest, false, '\n');
      Some(HeaderRead(PpmHeader(width.value, height.value, maxval.value), maxval.rest))
  }

  /** Reads the header of a file; the body is the last |rest| bytes. */
  function ParseHeader(file: seq<byte>): (r: Option<HeaderRead>)
    ensures r.Some? ==> |r.value.rest| < |file|
  {
    ParseHeaderText(Text(file))
  }

  /** Groups a body into RGB triplets; bytes after the last whole triplet are not read. */
  function Pixels(body: seq<byte>): (px: seq<Rgb>)
    ensures |px| == |body| / 3
    ensures forall k :: 0 <= k < |px| ==> RgbBytes(px[k]) == body[3 * k..3 * k + 3]
  {
    seq(|body| / 3, k requires 0 <= k < |body| / 3 => Rgb(body[3 * k], body[3 * k + 1], body[3 * k + 2]))
  }

  /**
    Decodes a whole file: the header must declare non-negative dimensions and
    the maximum value 255, and exactly width*height triplets must follow it.
   */
  function DecodePPM(file: seq<byte>): (r: Option<Image>)
    ensures r.Some? ==> |r.value.pixels| == r.value.width * r.value.height
  {
    var read :- ParseHeader(file);
    ImageOf(read.header, file[|file| - |read.rest|..])
  }

  /** The image a header and the bytes after it describe, if they agree. */
  function ImageOf(h: PpmHeader, body: seq<byte>): (r: Option<Image>)
    ensures r.Some? ==> |r.value.pixels| == r.value.width * r.value.height
  {
    if h.width < 0 || h.height < 0 || h.maxval != 255 then None
    else
      var count := h.width * h.height;
      if |body| != 3 * count then None
      else
        assert |body| % 3 == 0 && |body| / 3 == count;
        Some(Image(h.width, h.height, Pixels(body)))
  }

  /** The colours of a sequence of cells. */
  function Colours(cells: seq<int>): (px: seq<Rgb>)
    ensures |px| == |cells|
    ensures forall k :: 0 <= k < |cells| ==> (px[k] == White <==> cells[k] != 0)
    ensures forall k :: 0 <= k < |cells| ==> (px[k] == Black <==> cells[k] == 0)
  {
    seq(|cells|, k requires 0 <= k < |cells| => Colour(cells[k]))
  }

  /** A field written as `%d` followed by its separator is read back whole. */
  lemma {:induction false} FieldRoundTrip(n: int, sep: char, post: string)
    requires !IsDigit(sep)
    ensures Field(DecInt(n) + ([sep] + post), true, sep) == Some(FieldRead(n, post))
    ensures n >= 0 ==> Field(DecInt(n) + ([sep] + post), false, sep) == Some(FieldRead(n, post))
  {
    var d := DecInt(n);
    var s := d + ([sep] + post);
    ParseIntRoundTrip(n, [sep] + post);
    assert s[|d|] == sep;
    assert s[|d| + 1..] == post;
    if n >= 0 {
      ParseNatRoundTrip(n, [sep] + post);
    }
  }

  /**
    The header layout with width `w`, height `h` and maximum value `m`, followed
    by `t`. It is `HeaderText` with the maximum value left open and the text
    that follows the header appended, nested so that each field and its
    separator come first; `HeaderIsLayout` proves that the two agree.
   */
  function Layout(w: int, h: int, m: int, t: string): string {
    "P6\n" + (DecInt(w) + ([' '] + (DecInt(h) + (['\n'] + (DecInt(m) + (['\n'] + t))))))
  }

  /** The header layout, with any three numbers, is read back field by field. */
  lemma {:induction false} ParseHeaderTextOf(w: int, h: int, m: nat, t: string)
    ensures ParseHeaderText(Layout(w, h, m, t)) == Some(HeaderRead(PpmHeader(w, h, m), t))
  {
    var r2 := DecInt(m) + (['\n'] + t);
    var r1 := DecInt(h) + (['\n'] + r2);
    var r0 := DecInt(w) + ([' '] + r1);
    assert Field(r0, true, ' ') == Some(FieldRead(w, r1)) by {
      FieldRoundTrip(w, ' ', r1);
    }
    assert Field(r1, true, '\n') == Some(FieldRead(h, r2)) by {
      FieldRoundTrip(h, '\n', r2);
    }
    assert Field(r2, false, '\n') == Some(FieldRead(m, t)) by {
      FieldRoundTrip(m, '\n', t);
    }
    HeaderOfFields(r0, w, h, m, r1, r2, t);
  }

  /** "P6\n" followed by three fields read one after another. */
  lemma {:induction false} HeaderOfFields(r0: string, w: int, h: int, m: int, r1: string, r2: string, t: string)
    requires Field(r0, true, ' ') == Some(FieldRead(w, r1))
    requires Field(r1, true, '\n') == Some(FieldRead(h, r2))
    requires Field(r2, false, '\n') == Some(FieldRead(m, t))
    ensures ParseHeaderText("P6\n" + r0) == Some(HeaderRead(PpmHeader(w, h, m), t))
  {
    var s := "P6\n" + r0;
    assert s[..3] == "P6\n" && s[3..] == r0;
  }

  lemma {:induction false} Assoc(a: string, b: string, c: string)
    ensures (a + b) + c == a + (b + c)
  {
  }

  /** The header `draw_shape` writes, followed by `t`, is the header layout with maximum value 255. */
  lemma {:induction false} HeaderIsLayout(N: int, t: string)
    ensures HeaderText(N, N) + t == Layout(N, N, 255, t)
  {
    var d := DecInt(N);
    assert DecInt(255) == "255" by {
      assert DecNat(255) == DecNat(25) + [DigitChar(5)];
      assert DecNat(25) == DecNat(2) + [DigitChar(5)];
    }
    var tail := "\n255\n";
    assert tail + t == ['\n'] + (DecInt(255) + (['\n'] + t));
    Assoc(d, tail, t);
    Assoc(" ", d + tail, t);
    Assoc(d, " " + (d + tail), t);
    Assoc("P6\n", d + (" " + (d + tail)), t);
  }

  /** Parsing the header text back recovers width N, height N and maximum value 255, and stops where the header ends. */
  lemma {:induction false} HeaderTextRoundTrip(N: int, t: string)
    ensures ParseHeaderText(HeaderText(N, N) + t) == Some(HeaderRead(PpmHeader(N, N, 255), t))
  {
    HeaderIsLayout(N, t);
    ParseHeaderTextOf(N, N, 255, t);
  }

  /** Parsing the header back recovers width N, height N and maximum value 255; what follows it is left unread. */
  lemma {:induction false} HeaderRoundTrip(N: int, rest: seq<byte>)
    ensures ParseHeader(Header(N) + rest) == Some(HeaderRead(PpmHeader(N, N, 255), Text(rest)))
  {
    TextOfAscii(HeaderText(N, N), rest);
    HeaderTextRoundTrip(N, Text(rest));
  }

  /** Grouping the body of some cells into triplets gives the cells' colours. */
  lemma {:induction false} PixelsOfBody(cells: seq<int>)
    ensures Pixels(Body(cells)) == Colours(cells)
  {
    var px := Pixels(Body(cells));
    forall k | 0 <= k < |cells|
      ensures px[k] == Colours(cells)[k]
    {
      BodyTriplet(cells, k);
      assert RgbBytes(px[k]) == RgbBytes(Colour(cells[k]));
    }
  }

  /** A header declaring w by w pixels of maximum 255, followed by exactly w*w triplets, gives those pixels. */
  lemma {:induction false} ImageOfSquare(w: nat, count: nat, body: seq<byte>)
    requires count == w * w && |body| == 3 * count
    ensures ImageOf(PpmHeader(w, w, 255), body) == Some(Image(w, w, Pixels(body)))
  {
  }

  /** Round trip: decoding the file for an N by N grid gives back N, N and the colour of every cell. */
  lemma {:induction false} DecodeEncode(grid: seq<int>, N: int)
    requires N >= 0
    requires CellCount(N) <= |grid|
    ensures DecodePPM(EncodePPM(grid, N)) == Some(Image(N, N, Colours(grid[..N * N])))
  {
    var cells := grid[..CellCount(N)];
    var file := EncodePPM(grid, N);
    var h, b := Header(N), Body(cells);
    assert file == h + b;
    HeaderRoundTrip(N, b);
    assert file[|file| - |Text(b)|..] == b;
    ImageOfSquare(N, |cells|, b);
    PixelsOfBody(cells);
  }

  /**
    For a non-positive N the nested loops write no pixel, but the header then
    declares width and height N; for a negative N no reader accepts the file.
   */
  lemma {:induction false} NegativeSideRejected(grid: seq<int>, N: int)
    requires N < 0
    ensures EncodePPM(grid, N) == Header(N)
    ensures DecodePPM(EncodePPM(grid, N)) == None
  {
    HeaderRoundTrip(N, []);
    assert EncodePPM(grid, N) == Header(N) + [];
  }
}
