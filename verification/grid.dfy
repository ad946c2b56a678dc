/** Row-major buffers: a flat sequence read as rows of a fixed width, and
    rows concatenated back into a flat sequence. */
module Grid {
  lemma RowBound(k: nat, w: nat, h: nat)
    requires k < h
    ensures k * w + w <= w * h
  {
    assert k * w + w == (k + 1) * w <= h * w;
  }

  /** Row k of a flat row-major buffer of width w (empty past the end). */
  function RowOf<T>(buf: seq<T>, w: nat, k: nat): (row: seq<T>)
    ensures k * w + w <= |buf| ==> |row| == w && forall z :: 0 <= z < w ==> row[z] == buf[k * w + z]
  {
    if k * w + w <= |buf| then buf[k * w .. k * w + w] else []
  }

  function Flatten<T>(rows: seq<seq<T>>): seq<T> {
    if rows == [] then [] else rows[0] + Flatten(rows[1..])
  }

  lemma {:induction false} FlattenRow<T>(rows: seq<seq<T>>, w: nat, j: nat)
    requires forall i :: 0 <= i < |rows| ==> |rows[i]| == w
    requires j < |rows|
    ensures |Flatten(rows)| == |rows| * w
    ensures j * w + w <= |Flatten(rows)| && RowOf(Flatten(rows), w, j) == rows[j]
  {
    FlattenLength(rows, w);
    RowBound(j, w, |rows|);
    assert Flatten(rows) == rows[0] + Flatten(rows[1..]);
    if j == 0 {
      assert Flatten(rows)[..w] == rows[0];
    } else {
      FlattenRow(rows[1..], w, j - 1);
      RowOfAfter(rows[0], Flatten(rows[1..]), w, j);
    }
  }

  /** Past a first row of width w, row j is row j - 1 of the rest. */
  lemma RowOfAfter<T>(x: seq<T>, y: seq<T>, w: nat, j: nat)
    requires |x| == w && j >= 1 && (j - 1) * w + w <= |y|
    ensures RowOf(x + y, w, j) == RowOf(y, w, j - 1)
  {
    var k := (j - 1) * w;
    assert j * w == k + w;
    assert (x + y)[k + w .. k + w + w] == y[k .. k + w];
  }

  lemma {:induction false} FlattenLength<T>(rows: seq<seq<T>>, w: nat)
    requires forall i :: 0 <= i < |rows| ==> |rows[i]| == w
    ensures |Flatten(rows)| == |rows| * w
  {
    if rows != [] {
      FlattenLength(rows[1..], w);
      assert |rows| * w == w + (|rows| - 1) * w;
    }
  }

  lemma {:induction false} FlattenSnoc<T>(rows: seq<seq<T>>, last: seq<T>)
    ensures Flatten(rows + [last]) == Flatten(rows) + last
  {
    if rows == [] {
      assert [last][1..] == [];
    } else {
      assert (rows + [last])[1..] == rows[1..] + [last];
      FlattenSnoc(rows[1..], last);
    }
  }

  /** Two buffers of h rows of width w that agree row by row are equal. */
  lemma RowsDetermineBuffer<T>(a: seq<T>, b: seq<T>, w: nat, h: nat)
    requires |a| == w * h && |b| == w * h
    requires forall j :: 0 <= j < h ==> RowOf(a, w, j) == RowOf(b, w, j)
    ensures a == b
  {
    forall i | 0 <= i < |a|
      ensures a[i] == b[i]
    {
      var j, z := RowCol(i, w, h);
      RowBound(j, w, h);
      assert RowOf(a, w, j)[z] == RowOf(b, w, j)[z];
    }
  }

  /** The row and column of index i in a buffer of h rows of width w. */
  lemma RowCol(i: nat, w: nat, h: nat) returns (j: nat, z: nat)
    requires i < w * h
    ensures j < h && z < w && i == j * w + z
    ensures j == i / w && z == i % w
  {
    j, z := i / w, i % w;
    assert (h - j) * w == h * w - j * w;
    assert (h - j) * w > 0;
  }

  /** Quotient and remainder are determined by the row decomposition. */
  lemma DivModUnique(i: int, w: int, j: int, z: int)
    requires w > 0 && 0 <= z < w && i == j * w + z
    ensures i / w == j && i % w == z
  {
    var q, r := i / w, i % w;
    assert (q - j) * w == z - r;
    SmallMultiple(q - j, w);
  }

  lemma SmallMultiple(x: int, w: int)
    requires w > 0 && -w < x * w < w
    ensures x == 0
  {
  }

  /** The buffer with row k replaced by `row`. */
  function WriteRow<T>(buf: seq<T>, w: nat, k: nat, row: seq<T>): (r: seq<T>)
    requires k * w + w <= |buf| && |row| == w
    ensures |r| == |buf|
    ensures RowOf(r, w, k) == row
    ensures forall j: nat :: j != k ==> RowOf(r, w, j) == RowOf(buf, w, j)
    ensures forall i :: k * w + w <= i < |buf| ==> r[i] == buf[i]
  {
    var r := buf[..k * w] + row + buf[k * w + w..];
    WriteRowKeepsOthers(buf, w, k, row, r);
    r
  }

  lemma WriteRowKeepsOthers<T>(buf: seq<T>, w: nat, k: nat, row: seq<T>, r: seq<T>)
    requires k * w + w <= |buf| && |row| == w
    requires r == buf[..k * w] + row + buf[k * w + w..]
    ensures forall j: nat :: j != k ==> RowOf(r, w, j) == RowOf(buf, w, j)
  {
    forall j: nat | j != k
      ensures RowOf(r, w, j) == RowOf(buf, w, j)
    {
      if j * w + w <= |buf| {
        if j < k {
          RowBound(j, w, k);
        } else {
          RowBound(k, w, j);
        }
        assert RowOf(r, w, j) == r[j * w .. j * w + w] == buf[j * w .. j * w + w];
      }
    }
  }

  /** Rows that end inside a prefix read the same from the prefix. */
  lemma RowOfPrefix<T>(buf: seq<T>, n: nat, w: nat, j: nat)
    requires n <= |buf| && j * w + w <= n
    ensures RowOf(buf[..n], w, j) == RowOf(buf, w, j)
  {
  }
}
