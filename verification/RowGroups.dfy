// The row groups of an image with several components: the context-row controller counts
// those of the last iMCU row for the first component only.

module RowGroups {
  import opened CodeBits
  import opened FrameGeometry
  import opened ContextRows

  // Vertical sampling factor, and how many times the smallest the scaled IDCT size is.
  datatype Sampling = Sampling(v: nat, s: nat)

  // The image: height, greatest sampling factor, block size, and smallest scaled IDCT size.
  datatype Scaling = Scaling(height: nat, maxV: nat, blockSize: nat, minSize: nat)

  predicate ValidScaling(z: Scaling, c: Sampling) {
    z.height >= 1 && z.maxV >= 1 && z.blockSize >= 1 && z.minSize >= 2 && c.v >= 1 && c.s >= 1
  }

  // Rows of an iMCU row of the component.
  function RowsInIMcu(z: Scaling, c: Sampling): (n: nat)
    requires ValidScaling(z, c)
    ensures n >= 1
  {
    MulMonotone(1, z.minSize, c.s);
    MulMonotone(1, c.v, z.minSize * c.s);
    c.v * (z.minSize * c.s)
  }

  // Rows of a row group, and the number of rows of the component after scaling.
  function GeometryOf(z: Scaling, c: Sampling): Geometry
    requires ValidScaling(z, c)
  {
    Geometry(RowsInIMcu(z, c) / z.minSize, z.minSize,
             CeilDiv(z.height * RowsInIMcu(z, c), McuSize(z.maxV, z.blockSize)))
  }

  lemma GroupIsWhole(z: Scaling, c: Sampling)
    requires ValidScaling(z, c)
    ensures GeometryOf(z, c).r == c.v * c.s >= 1
    ensures RowsInIMcu(z, c) == GeometryOf(z, c).r * z.minSize
  {
    MulMonotone(1, c.v, c.s);
    assert c.v * (z.minSize * c.s) == (c.v * c.s) * z.minSize;
    DivideExactly(c.v * c.s, z.minSize, 0);
  }

  lemma GeometryIsValid(z: Scaling, c: Sampling)
    requires ValidScaling(z, c)
    ensures ValidGeometry(GeometryOf(z, c))
  {
    GroupIsWhole(z, c);
    MulMonotone(1, z.height, RowsInIMcu(z, c));
    CeilDivBounds(z.height * RowsInIMcu(z, c), McuSize(z.maxV, z.blockSize));
  }

  lemma CeilDivOfPositive(a: nat, b: nat)
    requires a >= 1 && b >= 1
    ensures CeilDiv(a, b) == (a - 1) / b + 1
  {
    var q, r := (a - 1) / b, (a - 1) % b;
    assert a - 1 == q * b + r;
    assert (q + 1) * b == q * b + b;
    DivideExactly(q + 1, b, r);
  }

  // Every component has the iMCU rows of the image, and the number of its row groups does
  // not depend on the component either.
  lemma GroupsOfImage(z: Scaling, c: Sampling)
    requires ValidScaling(z, c)
    ensures var g := GeometryOf(z, c);
      && ValidGeometry(g)
      && TotalIMcuRows(g) == CeilDiv(z.height, McuSize(z.maxV, z.blockSize))
      && RealGroups(g) == CeilDiv(z.height * z.minSize, McuSize(z.maxV, z.blockSize))
  {
    hide McuSize;
    var g, d := GeometryOf(z, c), McuSize(z.maxV, z.blockSize);
    GeometryIsValid(z, c);
    GroupIsWhole(z, c);
    IMcuHeightBound(g);
    BlocksMakeMcus(z.height, g.r * z.minSize, d);
    CeilDivOfPositive(g.height, g.r * z.minSize);
    MulMonotone(1, z.height, z.minSize);
    assert z.height * (g.r * z.minSize) == (z.height * z.minSize) * g.r;
    BlocksMakeMcus(z.height * z.minSize, g.r, d);
    CeilDivOfPositive(g.height, g.r);
  }

  // Main result: the count that is taken from the first component is right for all.
  lemma SameGroups(z: Scaling, c: Sampling, e: Sampling)
    requires ValidScaling(z, c) && ValidScaling(z, e)
    ensures ValidGeometry(GeometryOf(z, c)) && ValidGeometry(GeometryOf(z, e))
    ensures TotalIMcuRows(GeometryOf(z, c)) == TotalIMcuRows(GeometryOf(z, e))
    ensures LastGroups(GeometryOf(z, c)) == LastGroups(GeometryOf(z, e))
  {
    hide GeometryOf, TotalIMcuRows, RealGroups, LastGroups, McuSize;
    GroupsOfImage(z, c);
    GroupsOfImage(z, e);
    LastGroupsFit(GeometryOf(z, c));
    LastGroupsFit(GeometryOf(z, e));
    assert GeometryOf(z, c).m == GeometryOf(z, e).m == z.minSize by { MinIsGroups(z, c); MinIsGroups(z, e); }
  }

  lemma MinIsGroups(z: Scaling, c: Sampling)
    requires ValidScaling(z, c)
    ensures GeometryOf(z, c).m == z.minSize
  {
  }
}
