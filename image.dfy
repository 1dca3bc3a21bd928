/** A single-channel 8-bit matrix as the percentile selector and the median estimator see
    it: `rows` x `cols` samples inside a buffer, row `r` starting at
    `offset + r * step`. A matrix whose rows follow each other without gaps is
    continuous and can be read as one block. */
module Image {
  import opened PixelStats

  datatype Mat = Mat(data: seq<Pixel>, offset: nat, step: nat, rows: nat, cols: nat) {

    /** Every row lies inside the buffer and rows do not overlap. */
    ghost predicate Valid() {
      && cols <= step
      && offset <= |data|
      && (rows > 0 ==> offset + (rows - 1) * step + cols <= |data|)
    }

    /** One block holds all samples: a single row, or rows with no padding
        between them. The `rows * cols` samples of a valid continuous matrix
        then lie one after another from its first sample on. */
    predicate IsContinuous(): (b: bool)
      ensures b && Valid() ==> offset + rows * cols <= |data|
    {
      SpanInBuffer(this);
      rows <= 1 || step == cols
    }

    /** The samples of row `r`. */
    function Row(r: nat): (row: seq<Pixel>)
      requires Valid() && r < rows
      ensures |row| == cols
    {
      RowInBuffer(this, r);
      data[offset + r * step .. offset + r * step + cols]
    }

    /** Where sample (r, c) is stored in the buffer. */
    function Sample(r: nat, c: nat): nat {
      offset + r * step + c
    }

    /** The logical image: its rows, top to bottom, each sample (r, c) read
        from its place in the buffer. */
    function Grid(): (g: seq<seq<Pixel>>)
      requires Valid()
      ensures |g| == rows
      ensures forall r :: 0 <= r < rows ==> g[r] == Row(r)
      ensures forall r, c :: 0 <= r < rows && 0 <= c < cols ==>
        c < |g[r]| && Sample(r, c) < |data| && g[r][c] == data[Sample(r, c)]
    {
      forall r, c | 0 <= r < rows && 0 <= c < cols
        ensures Sample(r, c) < |data| && Row(r)[c] == data[Sample(r, c)]
      {
        RowSample(this, r, c);
      }
      seq(rows, r requires 0 <= r < rows => Row(r))
    }

    /** The block a continuous matrix is stored in, from its first sample on. */
    function Span(): (s: seq<Pixel>)
      requires Valid() && IsContinuous()
      ensures |s| == rows * cols
    {
      data[offset .. offset + rows * cols]
    }
  }

  lemma RowInBuffer(m: Mat, r: nat)
    requires m.Valid() && r < m.rows
    ensures m.offset + r * m.step + m.cols <= |m.data|
  {
    MulLeft(r, m.rows - 1, m.step);
  }

  lemma SpanInBuffer(m: Mat)
    ensures m.Valid() && (m.rows <= 1 || m.step == m.cols) ==> m.offset + m.rows * m.cols <= |m.data|
  {
    if m.Valid() && m.rows > 1 && m.step == m.cols {
      assert (m.rows - 1) * m.cols + m.cols == m.rows * m.cols;
    }
  }

  lemma MulLeft(a: nat, b: nat, c: nat)
    requires a <= b
    ensures a * c <= b * c
  {
  }

  lemma MulSucc(a: nat, c: nat)
    ensures (a + 1) * c == a * c + c
  {
  }

  /** Row-major concatenation of rows; every row fits inside the result. */
  function Flatten(g: seq<seq<Pixel>>): (s: seq<Pixel>)
    ensures forall i :: 0 <= i < |g| ==> |g[i]| <= |s|
  {
    if g == [] then [] else Flatten(g[..|g| - 1]) + g[|g| - 1]
  }

  /** The samples of a matrix in row-major order: none exactly when the
      matrix has no rows or no columns. */
  function Pixels(m: Mat): (s: seq<Pixel>)
    requires m.Valid()
    ensures |s| == 0 <==> m.rows == 0 || m.cols == 0
  {
    FlattenEmpty(m.Grid(), m.cols);
    Flatten(m.Grid())
  }

  lemma {:induction false} FlattenLength(g: seq<seq<Pixel>>, cols: nat)
    requires forall r :: 0 <= r < |g| ==> |g[r]| == cols
    ensures |Flatten(g)| == |g| * cols
  {
    if g != [] {
      FlattenLength(g[..|g| - 1], cols);
      MulSucc(|g| - 1, cols);
    }
  }

  /** Flattening a grid of rows of `cols` samples puts sample (r, c) at
      index `r * cols + c`. */
  lemma {:induction false} FlattenAt(g: seq<seq<Pixel>>, cols: nat, r: nat, c: nat)
    requires forall i :: 0 <= i < |g| ==> |g[i]| == cols
    requires r < |g| && c < cols
    ensures r * cols + c < |Flatten(g)|
    ensures Flatten(g)[r * cols + c] == g[r][c]
  {
    var n := |g| - 1;
    var front := g[..n];
    FlattenLength(front, cols);
    FlattenLength(g, cols);
    MulSucc(r, cols);
    if r < n {
      FlattenAt(front, cols, r, c);
    } else {
      assert r * cols == |Flatten(front)|;
    }
  }

  /** Rows of `cols` samples flatten to nothing exactly when there are no rows
      or no columns. */
  lemma FlattenEmpty(g: seq<seq<Pixel>>, cols: nat)
    requires forall r :: 0 <= r < |g| ==> |g[r]| == cols
    ensures |Flatten(g)| == 0 <==> |g| == 0 || cols == 0
  {
    FlattenLength(g, cols);
    if |g| > 0 && cols > 0 {
      MulLeft(1, |g|, cols);
    }
  }

  /** An image holds `rows * cols` samples, none when either dimension is zero. */
  lemma PixelCount(image: Mat)
    requires image.Valid()
    ensures |Pixels(image)| == image.rows * image.cols
    ensures |Pixels(image)| == 0 <==> image.rows == 0 || image.cols == 0
  {
    FlattenLength(image.Grid(), image.cols);
  }

  /** Sample (r, c) of a matrix sits at index `r * cols + c` of its row-major
      samples, which are `rows * cols` values in all. */
  lemma PixelAt(m: Mat, r: nat, c: nat)
    requires m.Valid() && r < m.rows && c < m.cols
    ensures r * m.cols + c < |Pixels(m)|
    ensures m.offset + r * m.step + c < |m.data|
    ensures Pixels(m)[r * m.cols + c] == m.data[m.offset + r * m.step + c]
    ensures |Pixels(m)| == m.rows * m.cols
  {
    GridAt(m, r, c);
    RowSample(m, r, c);
  }

  lemma GridAt(m: Mat, r: nat, c: nat)
    requires m.Valid() && r < m.rows && c < m.cols
    ensures |Flatten(m.Grid())| == m.rows * m.cols
    ensures r * m.cols + c < |Flatten(m.Grid())|
    ensures Flatten(m.Grid())[r * m.cols + c] == m.Row(r)[c]
  {
    FlattenLength(m.Grid(), m.cols);
    FlattenAt(m.Grid(), m.cols, r, c);
  }

  lemma RowSample(m: Mat, r: nat, c: nat)
    requires m.Valid() && r < m.rows && c < m.cols
    ensures m.offset + r * m.step + c < |m.data|
    ensures m.Row(r)[c] == m.data[m.offset + r * m.step + c]
  {
    RowInBuffer(m, r);
  }

  /** Index `k` below `rows * cols` is row `k / cols`, column `k % cols`. */
  lemma RowColumn(k: nat, rows: nat, cols: nat)
    requires k < rows * cols
    ensures cols > 0 && k / cols < rows && k == k / cols * cols + k % cols
  {
    if rows <= k / cols {
      MulLeft(rows, k / cols, cols);
    }
  }

  /** In a continuous matrix the `k`-th stored sample from the first one is
      sample (k / cols, k % cols). */
  lemma ContinuousAt(m: Mat, k: nat)
    requires m.Valid() && m.IsContinuous() && k < m.rows * m.cols
    ensures m.offset + k < |m.data|
    ensures k < |Pixels(m)| && Pixels(m)[k] == m.data[m.offset + k]
  {
    var r, c := k / m.cols, k % m.cols;
    RowColumn(k, m.rows, m.cols);
    assert m.offset + r * m.step + c == m.offset + k by {
      if m.rows <= 1 {
        assert r == 0;
      }
    }
    PixelAt(m, r, c);
  }

  /** Reading a continuous matrix as one block yields the same sequence as
      reading it row by row. */
  lemma ContinuousSpanIsRowMajor(m: Mat)
    requires m.Valid() && m.IsContinuous()
    ensures m.Span() == Pixels(m)
  {
    var n := m.rows * m.cols;
    var span := m.data[m.offset .. m.offset + n];
    var pixels := Pixels(m);
    assert |pixels| == n by {
      FlattenLength(m.Grid(), m.cols);
    }
    forall k | 0 <= k < n
      ensures span[k] == pixels[k]
    {
      ContinuousAt(m, k);
    }
    assert span == pixels;
  }
}
