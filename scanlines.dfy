/** Scanline reconstruction: the inverse of the five per-row filters of
    section 6 of RFC 2083 (None, Sub, Up, Average, Paeth), with the
    mod-256 byte arithmetic of `PNG.unfilter_1` .. `PNG.unfilter_4`.

    A row is reconstructed left to right: byte i depends on the already
    reconstructed byte bpp positions to its left ("left"), on byte i of the
    previous reconstructed row ("above") and on byte i - bpp of that row
    ("upper left"). Neighbours left of column 0 and the row above the first
    row count as 0. The previous row is `[]` when there is none: the source
    tests `if prev_row`, which treats None and an empty row alike. */
module Scanlines {
  import opened Bytes

  datatype FilterType = None | Sub | Up | Average | Paeth

  /** The filter byte values the decoder accepts. */
  predicate IsFilterByte(b: byte)
  {
    b <= 4
  }

  function FilterOf(b: byte): (f: FilterType)
    requires IsFilterByte(b)
    ensures b == 0 <==> f == None
    ensures b == 1 <==> f == Sub
    ensures b == 2 <==> f == Up
    ensures b == 3 <==> f == Average
    ensures b == 4 <==> f == Paeth
  {
    match b
    case 0 => None
    case 1 => Sub
    case 2 => Up
    case 3 => Average
    case 4 => Paeth
  }

  /** A previous row the filters can read at every column of row. */
  predicate FitsAbove(prev: seq<byte>, row: seq<byte>)
  {
    prev == [] || |row| <= |prev|
  }

  /** `result[i - bpp] if i >= bpp else 0` */
  function Left(r: seq<byte>, i: nat, bpp: nat): byte
    requires 0 < bpp && i <= |r|
  {
    if i >= bpp then r[i - bpp] else 0
  }

  /** `prev_row[i] if prev_row else 0` */
  function Above(prev: seq<byte>, i: nat): byte
    requires prev == [] || i < |prev|
  {
    if prev == [] then 0 else prev[i]
  }

  /** `prev_row[i - bpp] if i >= bpp and prev_row else 0` */
  function UpperLeft(prev: seq<byte>, i: nat, bpp: nat): byte
    requires prev == [] || i < |prev|
  {
    if i >= bpp && prev != [] then prev[i - bpp] else 0
  }

  function Abs(x: int): nat
  {
    if x < 0 then -x else x
  }

  /** The Paeth predictor over left (a), above (b) and upper left (c). */
  function PaethPredictor(a: int, b: int, c: int): int
  {
    var p := a + b - c;
    var pa, pb, pc := Abs(p - a), Abs(p - b), Abs(p - c);
    if pa <= pb && pa <= pc then a
    else if pb <= pc then b
    else c
  }

  /** The Paeth predictor picks whichever of left, above and upper left
      lies nearest to p = a + b - c; on a tie left wins, then above. */
  lemma PaethPredictorNearest(a: int, b: int, c: int)
    ensures var r := PaethPredictor(a, b, c);
      r == a || r == b || r == c
    ensures var r, p := PaethPredictor(a, b, c), a + b - c;
      Abs(p - r) <= Abs(p - a) && Abs(p - r) <= Abs(p - b) && Abs(p - r) <= Abs(p - c)
    ensures var r, p := PaethPredictor(a, b, c), a + b - c;
      Abs(p - a) <= Abs(p - b) && Abs(p - a) <= Abs(p - c) ==> r == a
    ensures var r, p := PaethPredictor(a, b, c), a + b - c;
      Abs(p - a) > Abs(p - b) && Abs(p - b) <= Abs(p - c) ==> r == b
  {
  }

  /** The value the filter f predicted for a byte from its neighbours. */
  function Predict(f: FilterType, left: byte, above: byte, upperLeft: byte): byte
  {
    match f
    case None => 0
    case Sub => left
    case Up => above
    case Average => (left + above) / 2
    case Paeth =>
      var r := PaethPredictor(left, above, upperLeft);
      assert r == left || r == above || r == upperLeft;
      r
  }

  /** One reconstructed byte: the filtered byte x plus the prediction of
      f from the byte's neighbours, mod 256. */
  function Reconstruct(f: FilterType, x: byte, left: byte, above: byte, upperLeft: byte): byte
  {
    (x + Predict(f, left, above, upperLeft)) % 256
  }

  /** Byte i of r is the reconstruction of byte i of row from the bytes of
      r to its left and the row above. */
  ghost predicate ByteReconstructed(f: FilterType, row: seq<byte>, prev: seq<byte>, bpp: nat, r: seq<byte>, i: nat)
    requires 0 < bpp && FitsAbove(prev, row) && |r| == |row| && i < |row|
  {
    r[i] == Reconstruct(f, row[i], Left(r, i, bpp), Above(prev, i), UpperLeft(prev, i, bpp))
  }

  /** r is a reconstruction of the filtered row under f: every byte is
      reconstructed from its already reconstructed neighbours. */
  ghost predicate IsUnfiltering(f: FilterType, row: seq<byte>, prev: seq<byte>, bpp: nat, r: seq<byte>)
  {
    && 0 < bpp
    && FitsAbove(prev, row)
    && |r| == |row|
    && forall i :: 0 <= i < |row| ==> ByteReconstructed(f, row, prev, bpp, r, i)
  }

  /** The reconstruction of row under f, computed byte by byte from the left. */
  function Unfiltered(f: FilterType, row: seq<byte>, prev: seq<byte>, bpp: nat): (r: seq<byte>)
    requires 0 < bpp && FitsAbove(prev, row)
    ensures |r| == |row|
    decreases |row|
  {
    if row == [] then []
    else
      var n := |row| - 1;
      var s := Unfiltered(f, row[..n], prev, bpp);
      s + [Reconstruct(f, row[n], Left(s, n, bpp), Above(prev, n), UpperLeft(prev, n, bpp))]
  }

  lemma {:induction false} UnfilteredIsUnfiltering(f: FilterType, row: seq<byte>, prev: seq<byte>, bpp: nat)
    requires 0 < bpp && FitsAbove(prev, row)
    ensures IsUnfiltering(f, row, prev, bpp, Unfiltered(f, row, prev, bpp))
    decreases |row|
  {
    if row != [] {
      var n := |row| - 1;
      var s := Unfiltered(f, row[..n], prev, bpp);
      UnfilteredIsUnfiltering(f, row[..n], prev, bpp);
      UnfilteringSnoc(f, row, prev, bpp, s);
      assert Unfiltered(f, row, prev, bpp) == s + [Reconstruct(f, row[n], Left(s, n, bpp), Above(prev, n), UpperLeft(prev, n, bpp))];
    }
  }

  /** Appending a byte leaves the left neighbour of every earlier byte as it was. */
  lemma LeftSnoc(r: seq<byte>, x: byte, bpp: nat)
    requires 0 < bpp
    ensures forall j :: 0 <= j <= |r| ==> Left(r + [x], j, bpp) == Left(r, j, bpp)
  {
  }

  /** A reconstruction of all but the last byte, extended by the last
      byte's reconstruction, reconstructs the whole row. */
  lemma {:induction false} UnfilteringSnoc(f: FilterType, row: seq<byte>, prev: seq<byte>, bpp: nat, s: seq<byte>)
    requires row != [] && 0 < bpp && FitsAbove(prev, row)
    requires IsUnfiltering(f, row[..|row| - 1], prev, bpp, s)
    ensures var n := |row| - 1;
      IsUnfiltering(f, row, prev, bpp, s + [Reconstruct(f, row[n], Left(s, n, bpp), Above(prev, n), UpperLeft(prev, n, bpp))])
  {
    var n := |row| - 1;
    var x := Reconstruct(f, row[n], Left(s, n, bpp), Above(prev, n), UpperLeft(prev, n, bpp));
    var r := s + [x];
    forall i | 0 <= i < |row|
      ensures ByteReconstructed(f, row, prev, bpp, r, i)
    {
      if i < n {
        UnfilteringPrefixByte(f, row, prev, bpp, s, x, i);
      } else {
        LeftSnoc(s, x, bpp);
        assert r[i] == x && Left(r, i, bpp) == Left(s, n, bpp);
      }
    }
  }

  /** Byte i < n of s keeps its equation once x is appended to s. */
  lemma UnfilteringPrefixByte(f: FilterType, row: seq<byte>, prev: seq<byte>, bpp: nat, s: seq<byte>, x: byte, i: nat)
    requires row != [] && 0 < bpp && FitsAbove(prev, row)
    requires IsUnfiltering(f, row[..|row| - 1], prev, bpp, s)
    requires i < |row| - 1
    ensures ByteReconstructed(f, row, prev, bpp, s + [x], i)
  {
    assert row[i] == row[..|row| - 1][i];
    assert ByteReconstructed(f, row[..|row| - 1], prev, bpp, s, i);
    LeftSnoc(s, x, bpp);
  }

  /** Two reconstructions of one row agree on every byte: the recurrence
      determines the row. */
  lemma {:induction false} UnfilteringUnique(f: FilterType, row: seq<byte>, prev: seq<byte>, bpp: nat, r1: seq<byte>, r2: seq<byte>)
    requires IsUnfiltering(f, row, prev, bpp, r1)
    requires IsUnfiltering(f, row, prev, bpp, r2)
    ensures r1 == r2
  {
    var k := 0;
    while k < |row|
      invariant 0 <= k <= |row|
      invariant r1[..k] == r2[..k]
    {
      assert Left(r1, k, bpp) == Left(r2, k, bpp) by {
        if k >= bpp { assert r1[k - bpp] == r1[..k][k - bpp] && r2[k - bpp] == r2[..k][k - bpp]; }
      }
      assert ByteReconstructed(f, row, prev, bpp, r1, k) && ByteReconstructed(f, row, prev, bpp, r2, k);
      assert r1[..k + 1] == r1[..k] + [r1[k]] && r2[..k + 1] == r2[..k] + [r2[k]];
      k := k + 1;
    }
    assert r1 == r1[..k] && r2 == r2[..k];
  }

  /** The function Unfiltered is exactly the solution of the recurrence. */
  lemma UnfilteringIffUnfiltered(f: FilterType, row: seq<byte>, prev: seq<byte>, bpp: nat, r: seq<byte>)
    requires 0 < bpp && FitsAbove(prev, row)
    ensures IsUnfiltering(f, row, prev, bpp, r) <==> r == Unfiltered(f, row, prev, bpp)
  {
    UnfilteredIsUnfiltering(f, row, prev, bpp);
    if IsUnfiltering(f, row, prev, bpp, r) {
      UnfilteringUnique(f, row, prev, bpp, r, Unfiltered(f, row, prev, bpp));
    }
  }

  /** Filter 0 (None) reconstructs the row as it stands, whatever the row above. */
  lemma UnfilteredNoneIsIdentity(row: seq<byte>, prev: seq<byte>, bpp: nat)
    requires 0 < bpp && FitsAbove(prev, row)
    ensures Unfiltered(None, row, prev, bpp) == row
  {
    UnfilteringIffUnfiltered(None, row, prev, bpp, row);
  }

  /** Filter 2 (Up) with no row above reconstructs the row as it stands. */
  lemma UnfilteredUpFirstRow(row: seq<byte>, bpp: nat)
    requires 0 < bpp
    ensures Unfiltered(Up, row, [], bpp) == row
  {
    UnfilteringIffUnfiltered(Up, row, [], bpp, row);
  }

  /** Unfiltered grows by one reconstructed byte per byte of the row. */
  lemma UnfilteredSnoc(f: FilterType, row: seq<byte>, prev: seq<byte>, bpp: nat, i: nat, s: seq<byte>, x: byte)
    requires 0 < bpp && FitsAbove(prev, row) && i < |row|
    requires s == Unfiltered(f, row[..i], prev, bpp)
    requires x == Reconstruct(f, row[i], Left(s, i, bpp), Above(prev, i), UpperLeft(prev, i, bpp))
    ensures Unfiltered(f, row[..i + 1], prev, bpp) == s + [x]
  {
    assert row[..i + 1][..i] == row[..i];
  }

  /** Sub reads no byte of the row above: its reconstruction is the same
      whatever that row holds. */
  lemma {:induction false} SubIgnoresAbove(row: seq<byte>, prev: seq<byte>, bpp: nat)
    requires 0 < bpp && FitsAbove(prev, row)
    ensures Unfiltered(Sub, row, prev, bpp) == Unfiltered(Sub, row, [], bpp)
    decreases |row|
  {
    if row != [] {
      var n := |row| - 1;
      SubIgnoresAbove(row[..n], prev, bpp);
      var s := Unfiltered(Sub, row[..n], [], bpp);
      assert Unfiltered(Sub, row, prev, bpp)
          == s + [Reconstruct(Sub, row[n], Left(s, n, bpp), Above(prev, n), UpperLeft(prev, n, bpp))];
      assert Unfiltered(Sub, row, [], bpp)
          == s + [Reconstruct(Sub, row[n], Left(s, n, bpp), Above([], n), UpperLeft([], n, bpp))];
    }
  }

  /** `unfilter_1` (Sub), which takes no previous row. */
  method UnfilterSub(row: seq<byte>, bpp: nat) returns (r: seq<byte>)
    requires bpp > 0
    ensures r == Unfiltered(Sub, row, [], bpp)
  {
    r := [];
    for i := 0 to |row|
      invariant r == Unfiltered(Sub, row[..i], [], bpp)
    {
      var left: int := if i >= bpp then r[i - bpp] else 0;
      var x: byte := (row[i] + left) % 256;
      UnfilteredSnoc(Sub, row, [], bpp, i, r, x);
      r := r + [x];
    }
    assert row[..|row|] == row;
  }

  /** `unfilter_2` (Up), which takes no bytes-per-pixel count. */
  method UnfilterUp(row: seq<byte>, prev: seq<byte>) returns (r: seq<byte>)
    requires FitsAbove(prev, row)
    ensures |r| == |row|
    ensures prev == [] ==> r == row
    ensures prev != [] ==> forall i :: 0 <= i < |row| ==> r[i] == (row[i] as int + prev[i]) % 256
  {
    r := [];
    for i := 0 to |row|
      invariant |r| == i
      invariant forall j :: 0 <= j < i ==> r[j] == (row[j] + Above(prev, j)) % 256
    {
      var above: int := if prev != [] then prev[i] else 0;
      r := r + [(row[i] + above) % 256];
    }
  }

  /** What UnfilterUp promises is the Up reconstruction, for any count of
      bytes per pixel. */
  lemma UpSolves(row: seq<byte>, prev: seq<byte>, bpp: nat, r: seq<byte>)
    requires bpp > 0 && FitsAbove(prev, row) && |r| == |row|
    requires prev == [] ==> r == row
    requires prev != [] ==> forall i :: 0 <= i < |row| ==> r[i] == (row[i] as int + prev[i]) % 256
    ensures r == Unfiltered(Up, row, prev, bpp)
  {
    forall i | 0 <= i < |row|
      ensures ByteReconstructed(Up, row, prev, bpp, r, i)
    {
      if prev == [] {
        assert r[i] == row[i];
      }
    }
    UnfilteringIffUnfiltered(Up, row, prev, bpp, r);
  }

  /** `unfilter_3` (Average): the prediction is the floor of the mean of
      left and above. */
  method UnfilterAverage(row: seq<byte>, prev: seq<byte>, bpp: nat) returns (r: seq<byte>)
    requires bpp > 0 && FitsAbove(prev, row)
    ensures r == Unfiltered(Average, row, prev, bpp)
  {
    r := [];
    for i := 0 to |row|
      invariant r == Unfiltered(Average, row[..i], prev, bpp)
    {
      var left: int := if i >= bpp then r[i - bpp] else 0;
      var above: int := if prev != [] then prev[i] else 0;
      var avg := (left + above) / 2;
      var x: byte := (row[i] + avg) % 256;
      UnfilteredSnoc(Average, row, prev, bpp, i, r, x);
      r := r + [x];
    }
    assert row[..|row|] == row;
  }

  /** `unfilter_4` (Paeth). */
  method UnfilterPaeth(row: seq<byte>, prev: seq<byte>, bpp: nat) returns (r: seq<byte>)
    requires bpp > 0 && FitsAbove(prev, row)
    ensures r == Unfiltered(Paeth, row, prev, bpp)
  {
    r := [];
    for i := 0 to |row|
      invariant r == Unfiltered(Paeth, row[..i], prev, bpp)
    {
      var left: byte := if i >= bpp then r[i - bpp] else 0;
      var above: byte := if prev != [] then prev[i] else 0;
      var upperLeft: byte := if i >= bpp && prev != [] then prev[i - bpp] else 0;
      var p := left + above - upperLeft;
      var pa, pb, pc := Abs(p - left), Abs(p - above), Abs(p - upperLeft);
      var predictor: byte;
      if pa <= pb && pa <= pc {
        predictor := left;
      } else if pb <= pc {
        predictor := above;
      } else {
        predictor := upperLeft;
      }
      assert predictor == PaethPredictor(left, above, upperLeft);
      var x: byte := (row[i] + predictor) % 256;
      UnfilteredSnoc(Paeth, row, prev, bpp, i, r, x);
      r := r + [x];
    }
    assert row[..|row|] == row;
  }

  /** Sub byte by byte: the first bpp bytes stand as they are, every later
      byte adds the reconstructed byte bpp places to its left, mod 256. */
  lemma SubBytes(row: seq<byte>, bpp: nat)
    requires 0 < bpp
    ensures var r := Unfiltered(Sub, row, [], bpp);
      && |r| == |row|
      && (forall i {:trigger row[i]} :: 0 <= i < |row| && i < bpp ==> r[i] == row[i])
      && (forall i {:trigger row[i]} :: bpp <= i < |row| ==> r[i] == (row[i] as int + r[i - bpp]) % 256)
  {
    var r := Unfiltered(Sub, row, [], bpp);
    UnfilteredIsUnfiltering(Sub, row, [], bpp);
    forall i | 0 <= i < |row|
      ensures r[i] == (row[i] + Left(r, i, bpp)) % 256
    {
      assert ByteReconstructed(Sub, row, [], bpp, r, i);
    }
  }

  /** Sub propagates the first pixel into the second: [5,5,5,10,10,10]
      reconstructs to [5,5,5,15,15,15] with 3 bytes per pixel. */
  lemma SubExample()
    ensures Unfiltered(Sub, [5, 5, 5, 10, 10, 10], [], 3) == [5, 5, 5, 15, 15, 15]
  {
    var row: seq<byte> := [5, 5, 5, 10, 10, 10];
    UnfilteringIffUnfiltered(Sub, row, [], 3, [5, 5, 5, 15, 15, 15]);
  }
}
