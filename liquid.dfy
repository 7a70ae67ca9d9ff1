/**
 * The render mask of one chunk's liquid (src/noggit/Liquid.cpp): an 8 x 8
 * grid of flags, mTileData.mRender[i][j] with row i and column j, telling
 * which liquid tiles are drawn, and the size of the drawn area kept in
 * xtiles and ytiles.
 */
module Liquids {

  /** Tiles per side of a chunk's liquid. */
  const Side: nat := 8

  /** The number of set flags in a row. */
  function RowCount(row: seq<bool>): (c: nat)
    ensures c <= |row|
  {
    if row == [] then 0 else RowCount(row[..|row| - 1]) + (if row[|row| - 1] then 1 else 0)
  }

  /** The number of rows with at least one set flag. */
  function Height(rows: seq<seq<bool>>): (h: nat)
    ensures h <= |rows|
  {
    if rows == [] then 0 else Height(rows[..|rows| - 1]) + (if true in rows[|rows| - 1] then 1 else 0)
  }

  /** The largest number of set flags in any row. */
  function Width(rows: seq<seq<bool>>): nat
  {
    if rows == [] then 0
    else
      var w := Width(rows[..|rows| - 1]);
      var c := RowCount(rows[|rows| - 1]);
      if c > w then c else w
  }

  /** A row has a set flag exactly when its count is positive. */
  lemma {:induction false} RowCountPositive(row: seq<bool>)
    ensures RowCount(row) > 0 <==> true in row
    decreases |row|
  {
    if row != [] {
      var init := row[..|row| - 1];
      RowCountPositive(init);
      assert row == init + [row[|row| - 1]];
      assert true in row <==> true in init || row[|row| - 1];
    }
  }

  /** The width is the count of some row (or 0), and no row counts more. */
  lemma {:induction false} WidthIsMax(rows: seq<seq<bool>>)
    ensures forall i :: 0 <= i < |rows| ==> RowCount(rows[i]) <= Width(rows)
    ensures Width(rows) == 0 || exists i :: 0 <= i < |rows| && RowCount(rows[i]) == Width(rows)
    decreases |rows|
  {
    if rows != [] {
      var init := rows[..|rows| - 1];
      WidthIsMax(init);
      forall i | 0 <= i < |rows| ensures RowCount(rows[i]) <= Width(rows) {
        if i < |init| {
          assert rows[i] == init[i];
        }
      }
      if Width(rows) != 0 && Width(rows) != RowCount(rows[|rows| - 1]) {
        var i :| 0 <= i < |init| && RowCount(init[i]) == Width(init);
        assert rows[i] == init[i];
      }
    }
  }

  /** Both sizes are 0 exactly when no row has a set flag. */
  lemma {:induction false} EmptySizes(rows: seq<seq<bool>>)
    ensures Height(rows) == 0 <==> forall i :: 0 <= i < |rows| ==> true !in rows[i]
    ensures Width(rows) == 0 <==> Height(rows) == 0
    decreases |rows|
  {
    if rows != [] {
      var init := rows[..|rows| - 1];
      EmptySizes(init);
      RowCountPositive(rows[|rows| - 1]);
      assert forall i :: 0 <= i < |init| ==> init[i] == rows[i];
    }
  }

  class Liquid {
    /** mTileData.mRender. */
    const render: array2<bool>
    var xtiles: int
    var ytiles: int

    predicate Valid()
    {
      render.Length0 == Side && render.Length1 == Side
    }

    /** The mask as rows of flags. */
    function Mask(): (rows: seq<seq<bool>>)
      reads render
      requires Valid()
      ensures |rows| == Side
      ensures forall i :: 0 <= i < Side ==> |rows[i]| == Side
      ensures forall i, j :: 0 <= i < Side && 0 <= j < Side ==> rows[i][j] == render[i, j]
    {
      seq(Side, i requires 0 <= i < Side reads render => Row(i))
    }

    /** Row i of the mask. */
    function Row(i: nat): (row: seq<bool>)
      reads render
      requires Valid() && i < Side
      ensures |row| == Side
      ensures forall j :: 0 <= j < Side ==> row[j] == render[i, j]
    {
      seq(Side, j requires 0 <= j < Side reads render => render[i, j])
    }

    /** xtiles and ytiles describe the current mask, as recalcSize leaves them. */
    predicate Sized()
      reads this, render
      requires Valid()
    {
      xtiles == Width(Mask()) && ytiles == Height(Mask())
    }

    /** An empty mask (the flags are read in by code not modelled here). */
    constructor ()
      ensures Valid() && Sized()
      ensures forall i, j :: 0 <= i < Side && 0 <= j < Side ==> !render[i, j]
    {
      render := new bool[Side, Side]((i, j) => false);
      xtiles := 0;
      ytiles := 0;
      new;
      EmptySizes(Mask());
    }

    /** getWidth (Liquid.cpp:422-424): the widest row's number of drawn tiles. */
    function GetWidth(): (w: int)
      reads this, render
      requires Valid() && Sized()
      ensures 0 <= w <= Side
      ensures forall i :: 0 <= i < Side ==> RowCount(Mask()[i]) <= w
    {
      WidthIsMax(Mask());
      xtiles
    }

    /** getHeight (Liquid.cpp:426-428): the number of rows with a drawn tile. */
    function GetHeight(): (h: int)
      reads this, render
      requires Valid() && Sized()
      ensures 0 <= h <= Side
      ensures h == 0 <==> forall i, j :: 0 <= i < Side && 0 <= j < Side ==> !render[i, j]
    {
      EmptySizes(Mask());
      assert forall i :: 0 <= i < Side ==> (true !in Mask()[i] <==> forall j :: 0 <= j < Side ==> !Mask()[i][j]);
      ytiles
    }

    /** isRendered (Liquid.cpp:464-466). */
    function IsRendered(i: nat, j: nat): (drawn: bool)
      reads this, render
      requires Valid() && i < Side && j < Side
      ensures drawn <==> Mask()[i][j]
      ensures drawn ==> Width(Mask()) >= 1 && Height(Mask()) >= 1
    {
      EmptySizes(Mask());
      assert render[i, j] ==> true in Mask()[i];
      render[i, j]
    }

    /**
     * getXOffset (Liquid.cpp:430-440): the smallest column holding a drawn
     * tile, or 8 when none is drawn.
     */
    method GetXOffset() returns (ret: int)
      requires Valid()
      ensures 0 <= ret <= Side
      ensures forall i, j :: 0 <= i < Side && 0 <= j < Side && render[i, j] ==> ret <= j
      ensures ret < Side ==> exists i :: 0 <= i < Side && render[i, ret]
    {
      ret := Side;
      for i := 0 to Side
        invariant 0 <= ret <= Side
        invariant forall a, b :: 0 <= a < i && 0 <= b < Side && render[a, b] ==> ret <= b
        invariant ret < Side ==> exists a :: 0 <= a < i && render[a, ret]
      {
        for j := 0 to Side
          invariant 0 <= ret <= Side
          invariant forall a, b :: 0 <= a < i && 0 <= b < Side && render[a, b] ==> ret <= b
          invariant forall b :: 0 <= b < j && render[i, b] ==> ret <= b
          invariant ret < Side ==> exists a :: 0 <= a <= i && render[a, ret]
        {
          if render[i, j] && j < ret {
            ret := j;
          }
        }
      }
    }

    /**
     * getYOffset (Liquid.cpp:442-452): the smallest row holding a drawn
     * tile, or 8 when none is drawn.
     */
    method GetYOffset() returns (ret: int)
      requires Valid()
      ensures 0 <= ret <= Side
      ensures forall i, j :: 0 <= i < Side && 0 <= j < Side && render[i, j] ==> ret <= i
      ensures ret < Side ==> exists j :: 0 <= j < Side && render[ret, j]
    {
      ret := Side;
      for i := 0 to Side
        invariant 0 <= ret <= Side
        invariant forall a, b :: 0 <= a < i && 0 <= b < Side && render[a, b] ==> ret <= a
        invariant ret < Side ==> exists b :: 0 <= b < Side && render[ret, b]
      {
        for j := 0 to Side
          invariant 0 <= ret <= Side
          invariant forall a, b :: 0 <= a < i && 0 <= b < Side && render[a, b] ==> ret <= a
          invariant forall b :: 0 <= b < j && render[i, b] ==> ret <= i
          invariant ret < Side ==> exists b :: 0 <= b < Side && render[ret, b]
        {
          if render[i, j] && i < ret {
            ret := i;
          }
        }
      }
    }

    /** isNotEmpty (Liquid.cpp:454-462): some tile is drawn. */
    method IsNotEmpty() returns (ret: bool)
      requires Valid()
      ensures ret <==> exists i, j :: 0 <= i < Side && 0 <= j < Side && render[i, j]
    {
      ret := false;
      for i := 0 to Side
        invariant ret <==> exists a, b :: 0 <= a < i && 0 <= b < Side && render[a, b]
      {
        for j := 0 to Side
          invariant ret <==> (exists a, b :: 0 <= a < i && 0 <= b < Side && render[a, b]) ||
                             (exists b :: 0 <= b < j && render[i, b])
        {
          ret := ret || render[i, j];
        }
      }
    }

    /**
     * recalcSize (Liquid.cpp:478-496): ytiles becomes the number of rows
     * with a drawn tile and xtiles the largest number of drawn tiles in
     * one row.
     */
    method RecalcSize()
      requires Valid()
      modifies this
      ensures Valid() && Sized()
      ensures 0 <= xtiles <= Side && 0 <= ytiles <= Side
    {
      var rows := Mask();
      var h := 0;
      var w := 0;
      for i := 0 to Side
        invariant h == Height(rows[..i]) && w == Width(rows[..i])
      {
        var hRaised := false;
        var wTmp := 0;
        for j := 0 to Side
          invariant wTmp == RowCount(rows[i][..j])
          invariant hRaised <==> true in rows[i][..j]
        {
          assert rows[i][..j + 1] == rows[i][..j] + [rows[i][j]];
          if render[i, j] {
            hRaised := true;
            wTmp := wTmp + 1;
          }
        }
        assert rows[i][..Side] == rows[i];
        assert rows[..i + 1][..i] == rows[..i];
        w := if w > wTmp then w else wTmp;
        if hRaised {
          h := h + 1;
        }
      }
      assert rows[..Side] == rows;
      WidthIsMax(rows);
      xtiles := w;
      ytiles := h;
    }

    /** setRender (Liquid.cpp:468-471): draws tile (i, j) and refreshes the sizes. */
    method SetRender(i: nat, j: nat)
      requires Valid() && i < Side && j < Side
      modifies this, render
      ensures Valid() && Sized() && IsRendered(i, j)
      ensures forall a, b :: 0 <= a < Side && 0 <= b < Side && (a, b) != (i, j) ==> render[a, b] == old(render[a, b])
    {
      render[i, j] := true;
      RecalcSize();
    }

    /** unsetRender (Liquid.cpp:473-476): hides tile (i, j) and refreshes the sizes. */
    method UnsetRender(i: nat, j: nat)
      requires Valid() && i < Side && j < Side
      modifies this, render
      ensures Valid() && Sized() && !IsRendered(i, j)
      ensures forall a, b :: 0 <= a < Side && 0 <= b < Side && (a, b) != (i, j) ==> render[a, b] == old(render[a, b])
    {
      render[i, j] := false;
      RecalcSize();
    }
  }
}
