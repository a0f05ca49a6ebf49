// Sizes of an image in blocks and MCUs, the blocks that pad it, and the MCUs of a scan: what
// every coefficient controller is supposed to send.

module FrameGeometry {
  import opened CodeBits
  import opened Coefficients

  const MAX_SAMP_FACTOR := 4
  const MAX_BLOCKS_IN_MCU := 10

  // ----- Rounding up -----

  function CeilDiv(a: nat, b: nat): (q: nat)
    requires b > 0
  {
    (a + b - 1) / b
  }

  lemma CeilDivBounds(a: nat, b: nat)
    requires a > 0 && b > 0
    ensures CeilDiv(a, b) >= 1 && (CeilDiv(a, b) - 1) * b < a <= CeilDiv(a, b) * b
  {
    var q, r := (a + b - 1) / b, (a + b - 1) % b;
    assert a + b - 1 == q * b + r;
    assert (q - 1) * b == q * b - b;
    if q < 1 {
      MulMonotone(q, 0, b);
    }
  }

  lemma CeilDivIs(a: nat, b: nat, q: nat)
    requires b > 0 && q >= 1 && (q - 1) * b < a <= q * b
    ensures CeilDiv(a, b) == q
  {
    assert (q - 1) * b == q * b - b;
    DivideExactly(q, b, a + b - 1 - q * b);
  }

  // How much of the last of several parts of size k is used.
  function LastPart(n: nat, k: nat): (r: nat)
    requires k > 0
    ensures 1 <= r <= k
  {
    if n % k == 0 then k else n % k
  }

  lemma LastPartFills(n: nat, k: nat)
    requires n > 0 && k > 0
    ensures CeilDiv(n, k) >= 1 && n == (CeilDiv(n, k) - 1) * k + LastPart(n, k)
  {
    var q := n / k;
    assert n == q * k + n % k;
    var m := if n % k == 0 then q else q + 1;
    assert (q - 1) * k == q * k - k && (q + 1) * k == q * k + k;
    if q == 0 {
      assert q * k == 0;
    }
    CeilDivIs(n, k, m);
  }

  // Blocks of a component, grouped by its sampling factor, make up the MCUs of the image.
  lemma BlocksMakeMcus(w: nat, h: nat, d: nat)
    requires w > 0 && h > 0 && d > 0
    ensures w * h > 0 && CeilDiv(CeilDiv(w * h, d), h) == CeilDiv(w, d)
  {
    MulMonotone(1, w, h);
    var b, m := CeilDiv(w * h, d), CeilDiv(w, d);
    CeilDivBounds(w * h, d);
    CeilDivBounds(w, d);
    Cancel(w * h, b - 1, m * h, d) by { Regroup(w, m, h, d); }
    Cancel(b * d, (m - 1) * h, b, d) by { Regroup2(w, m, h, d); }
    assert (m - 1) * h < b <= m * h;
    CeilDivIs(b, h, m);
  }

  lemma Cancel(x: int, p: int, q: int, d: nat)
    requires p * d < x <= q * d
    ensures p < q
  {
    if p >= q {
      MulMonotone(q, p, d);
    }
  }

  lemma Regroup(w: nat, m: nat, h: nat, d: nat)
    requires w <= m * d
    ensures w * h <= (m * h) * d
  {
    MulMonotone(w, m * d, h);
    assert (m * d) * h == (m * h) * d;
  }

  lemma Regroup2(w: nat, m: nat, h: nat, d: nat)
    requires m >= 1 && (m - 1) * d < w && h > 0
    ensures ((m - 1) * h) * d < w * h
  {
    MulMonotone((m - 1) * d + 1, w, h);
    assert ((m - 1) * d + 1) * h == ((m - 1) * h) * d + h;
  }

  // ----- Frames and scans -----

  // Sampling factors, and size in samples of what becomes a block.
  datatype Component = Component(h: nat, v: nat, dctWidth: nat, dctHeight: nat)

  datatype Frame = Frame(width: nat, height: nat, blockSize: nat, comps: seq<Component>)

  function MaxH(comps: seq<Component>): (m: nat)
    ensures m >= 1 && forall i :: 0 <= i < |comps| ==> comps[i].h <= m
  {
    if comps == [] then 1
    else
      var m := MaxH(comps[..|comps| - 1]);
      if comps[|comps| - 1].h > m then comps[|comps| - 1].h else m
  }

  function MaxV(comps: seq<Component>): (m: nat)
    ensures m >= 1 && forall i :: 0 <= i < |comps| ==> comps[i].v <= m
  {
    if comps == [] then 1
    else
      var m := MaxV(comps[..|comps| - 1]);
      if comps[|comps| - 1].v > m then comps[|comps| - 1].v else m
  }

  // What initial_setup insists on.
  ghost predicate ValidFrame(f: Frame) {
    && f.width > 0 && f.height > 0 && 1 <= f.blockSize <= 16
    && forall i :: 0 <= i < |f.comps| ==>
      && 1 <= f.comps[i].h <= MAX_SAMP_FACTOR && 1 <= f.comps[i].v <= MAX_SAMP_FACTOR
      && f.comps[i].dctWidth > 0 && f.comps[i].dctHeight > 0
  }

  function McuSize(max: nat, blockSize: nat): (d: nat)
    requires max >= 1 && blockSize >= 1
    ensures d >= 1
  {
    MulMonotone(1, max, blockSize);
    max * blockSize
  }

  function WidthInBlocks(f: Frame, ci: nat): (w: nat)
    requires ValidFrame(f) && ci < |f.comps|
    ensures w >= 1 && CeilDiv(w, f.comps[ci].h) == McusAcross(f)
  {
    BlocksMakeMcus(f.width, f.comps[ci].h, McuSize(MaxH(f.comps), f.blockSize));
    CeilDivBounds(f.width * f.comps[ci].h, McuSize(MaxH(f.comps), f.blockSize));
    CeilDiv(f.width * f.comps[ci].h, McuSize(MaxH(f.comps), f.blockSize))
  }

  function HeightInBlocks(f: Frame, ci: nat): (h: nat)
    requires ValidFrame(f) && ci < |f.comps|
    ensures h >= 1 && CeilDiv(h, f.comps[ci].v) == McusDown(f)
  {
    BlocksMakeMcus(f.height, f.comps[ci].v, McuSize(MaxV(f.comps), f.blockSize));
    CeilDivBounds(f.height * f.comps[ci].v, McuSize(MaxV(f.comps), f.blockSize));
    CeilDiv(f.height * f.comps[ci].v, McuSize(MaxV(f.comps), f.blockSize))
  }

  // Size of the image in MCUs of interleaved scans; its rows are the iMCU rows.
  function McusAcross(f: Frame): (m: nat)
    requires ValidFrame(f)
    ensures m >= 1
  {
    CeilDivBounds(f.width, McuSize(MaxH(f.comps), f.blockSize));
    CeilDiv(f.width, McuSize(MaxH(f.comps), f.blockSize))
  }

  function McusDown(f: Frame): (m: nat)
    requires ValidFrame(f)
    ensures m >= 1
  {
    CeilDivBounds(f.height, McuSize(MaxV(f.comps), f.blockSize));
    CeilDiv(f.height, McuSize(MaxV(f.comps), f.blockSize))
  }

  // A component as per_scan_setup prepares it for a scan.
  datatype CompInfo = CompInfo(ci: nat, mcuWidth: nat, mcuHeight: nat, lastColWidth: nat, lastRowHeight: nat)

  datatype ScanSetup = ScanSetup(comps: seq<CompInfo>, mcusPerRow: nat, mcuRows: nat)

  // The components of a scan, given by their indexes.
  ghost predicate ValidScan(f: Frame, cs: seq<nat>) {
    ValidFrame(f) && |cs| > 0 && forall k :: 0 <= k < |cs| ==> cs[k] < |f.comps|
  }

  // per_scan_setup
  function PerScanSetup(f: Frame, cs: seq<nat>): (s: ScanSetup)
    requires ValidScan(f, cs)
    ensures |s.comps| == |cs| && s.mcusPerRow >= 1 && s.mcuRows >= 1
  {
    if |cs| == 1 then
      var c := f.comps[cs[0]];
      ScanSetup([CompInfo(cs[0], 1, 1, 1, LastPart(HeightInBlocks(f, cs[0]), c.v))],
                WidthInBlocks(f, cs[0]), HeightInBlocks(f, cs[0]))
    else
      ScanSetup(seq(|cs|, k requires 0 <= k < |cs| => Interleaved(f, cs[k])), McusAcross(f), McusDown(f))
  }

  function Interleaved(f: Frame, ci: nat): CompInfo
    requires ValidFrame(f) && ci < |f.comps|
  {
    var c := f.comps[ci];
    CompInfo(ci, c.h, c.v, LastPart(WidthInBlocks(f, ci), c.h), LastPart(HeightInBlocks(f, ci), c.v))
  }

  // A component of a scan fits the frame: rows and columns of blocks end in the last MCU.
  ghost predicate Fitting(f: Frame, i: CompInfo, perRow: nat, single: bool)
    requires ValidFrame(f)
  {
    && i.ci < |f.comps| && perRow >= 1
    && 1 <= i.lastColWidth <= i.mcuWidth && 1 <= i.lastRowHeight <= f.comps[i.ci].v
    && WidthInBlocks(f, i.ci) == (perRow - 1) * i.mcuWidth + i.lastColWidth
    && HeightInBlocks(f, i.ci) == (McusDown(f) - 1) * f.comps[i.ci].v + i.lastRowHeight
    && (if single then i.mcuWidth == i.mcuHeight == 1
        else i.mcuWidth == f.comps[i.ci].h && i.mcuHeight == f.comps[i.ci].v && perRow == McusAcross(f))
  }

  lemma SetupFits(f: Frame, cs: seq<nat>, k: nat)
    requires ValidScan(f, cs) && k < |cs|
    ensures var s := PerScanSetup(f, cs);
      s.comps[k].ci == cs[k] && Fitting(f, s.comps[k], s.mcusPerRow, |cs| == 1)
  {
    var c := f.comps[cs[k]];
    LastPartFills(WidthInBlocks(f, cs[k]), c.h);
    LastPartFills(HeightInBlocks(f, cs[k]), c.v);
  }

  // ----- Padded components -----

  // The real blocks of each component: component, row, column.
  type Source = (nat, nat, nat) -> Block

  // All zeros but for the DC coefficient.
  function Dummy(dc: int): (b: Block)
    ensures b[0] == dc && forall k :: 1 <= k < BLOCK ==> b[k] == 0
  {
    seq(BLOCK, k => if k == 0 then dc else 0)
  }

  // Column of the last real block of the MCU that column col belongs to.
  function LastReal(f: Frame, ci: nat, col: nat): (c: nat)
    requires ValidFrame(f) && ci < |f.comps|
  {
    var w, h := WidthInBlocks(f, ci), f.comps[ci].h;
    if col / h * h + h <= w then col / h * h + h - 1 else w - 1
  }

  // The block of a component at a position in the image or in its padding. Padding repeats
  // the DC coefficient of the last real block: to the right that of the row, below that of
  // the MCU in the last row.
  function Padded(f: Frame, src: Source, ci: nat, row: nat, col: nat): (b: Block)
    requires ValidFrame(f) && ci < |f.comps|
  {
    var w, h := WidthInBlocks(f, ci), HeightInBlocks(f, ci);
    if row < h && col < w then src(ci, row, col)
    else if row < h then Dummy(src(ci, row, w - 1)[0])
    else Dummy(src(ci, h - 1, LastReal(f, ci, col))[0])
  }

  // ----- MCUs -----

  // Blocks of one row of an MCU.
  function RowBlocks(f: Frame, src: Source, i: CompInfo, row: nat, col: nat): (m: seq<Block>)
    requires ValidFrame(f) && i.ci < |f.comps|
    ensures |m| == i.mcuWidth && forall x :: 0 <= x < i.mcuWidth ==> m[x] == Padded(f, src, i.ci, row, col + x)
  {
    seq<Block>(i.mcuWidth, x requires 0 <= x < i.mcuWidth => Padded(f, src, i.ci, row, col + x))
  }

  // Blocks of the first n rows of a component in an MCU whose first block is at (row, col).
  function CompBlocks(f: Frame, src: Source, i: CompInfo, row: nat, col: nat, n: nat): (m: seq<Block>)
    requires ValidFrame(f) && i.ci < |f.comps|
    ensures |m| == n * i.mcuWidth
  {
    if n == 0 then [] else CompBlocks(f, src, i, row, col, n - 1) + RowBlocks(f, src, i, row + n - 1, col)
  }

  ghost predicate ValidSetup(f: Frame, s: ScanSetup) {
    ValidFrame(f) && s.mcusPerRow >= 1 && |s.comps| > 0
      && forall k :: 0 <= k < |s.comps| ==> Fitting(f, s.comps[k], s.mcusPerRow, |s.comps| == 1)
  }

  function BlocksInMcu(comps: seq<CompInfo>, k: nat): nat
    requires k <= |comps|
  {
    if k == 0 then 0 else BlocksInMcu(comps, k - 1) + comps[k - 1].mcuHeight * comps[k - 1].mcuWidth
  }

  // The first n rows of component k in the MCU in row mr and column mc.
  ghost function ComponentInMcu(f: Frame, src: Source, s: ScanSetup, mr: nat, mc: nat, k: nat, n: nat): (m: seq<Block>)
    requires ValidSetup(f, s) && k < |s.comps|
    ensures |m| == n * s.comps[k].mcuWidth
  {
    var i := s.comps[k];
    CompBlocks(f, src, i, mr * i.mcuHeight, ColAt(i, mc), n)
  }

  // The first k components of the MCU in row mr and column mc.
  ghost function McuBlocks(f: Frame, src: Source, s: ScanSetup, mr: nat, mc: nat, k: nat): (m: seq<Block>)
    requires ValidSetup(f, s) && k <= |s.comps|
    ensures |m| == BlocksInMcu(s.comps, k)
  {
    if k == 0 then []
    else
      McuBlocks(f, src, s, mr, mc, k - 1) + ComponentInMcu(f, src, s, mr, mc, k - 1, s.comps[k - 1].mcuHeight)
  }

  ghost function McuAt(f: Frame, src: Source, s: ScanSetup, mr: nat, mc: nat): (m: seq<Block>)
    requires ValidSetup(f, s)
  {
    McuBlocks(f, src, s, mr, mc, |s.comps|)
  }

  // MCU number n of a scan, row by row.
  ghost function NthMcu(f: Frame, src: Source, s: ScanSetup, n: nat): (m: seq<Block>)
    requires ValidSetup(f, s)
  {
    McuAt(f, src, s, n / s.mcusPerRow, n % s.mcusPerRow)
  }

  // The first n MCUs of a scan.
  ghost function Stream(f: Frame, src: Source, s: ScanSetup, n: nat): (ms: seq<seq<Block>>)
    requires ValidSetup(f, s)
    ensures |ms| == n
  {
    if n == 0 then []
    else Stream(f, src, s, n - 1) + [NthMcu(f, src, s, n - 1)]
  }

  // ----- Where an MCU has real blocks and where it has padding -----

  // Block x of row y of a component in MCU (mr, mc), whose rows start at row offset of iMCU
  // row k.
  ghost predicate InRow(f: Frame, i: CompInfo, perRow: nat, single: bool, k: nat, offset: nat, y: nat, mc: nat) {
    && ValidFrame(f) && Fitting(f, i, perRow, single) && k < McusDown(f) && mc < perRow && y < i.mcuHeight
    && i.ci < |f.comps| && i.mcuWidth >= 1
    && offset < (if single then if k < McusDown(f) - 1 then f.comps[i.ci].v else i.lastRowHeight else 1)
  }

  function RowAt(f: Frame, ci: nat, k: nat, r: nat): nat
    requires ci < |f.comps|
  {
    k * f.comps[ci].v + r
  }

  function ColAt(i: CompInfo, mc: nat): (c: nat) {
    mc * i.mcuWidth
  }

  predicate RealRow(f: Frame, i: CompInfo, k: nat, r: nat)
    requires ValidFrame(f)
  {
    k < McusDown(f) - 1 || r < i.lastRowHeight
  }

  function BlockCount(i: CompInfo, perRow: nat, mc: nat): (n: nat)
  {
    if mc + 1 < perRow then i.mcuWidth else i.lastColWidth
  }

  // Rows: the tests that the controllers make are right.
  lemma RowIsReal(f: Frame, i: CompInfo, perRow: nat, single: bool, k: nat, offset: nat, y: nat, mc: nat)
    requires InRow(f, i, perRow, single, k, offset, y, mc)
    ensures RealRow(f, i, k, offset + y) <==> RowAt(f, i.ci, k, offset + y) < HeightInBlocks(f, i.ci)
    ensures offset + y < f.comps[i.ci].v
    ensures !RealRow(f, i, k, offset + y) ==> !single && y > 0
  {
    var v, t := f.comps[i.ci].v, McusDown(f);
    if k < t - 1 {
      MulMonotone(k + 1, t - 1, v);
      assert (k + 1) * v == k * v + v;
    }
  }

  // Columns.
  lemma ColumnIsReal(f: Frame, i: CompInfo, perRow: nat, single: bool, mc: nat, x: nat)
    requires ValidFrame(f) && Fitting(f, i, perRow, single) && mc < perRow && x < i.mcuWidth
    ensures x < BlockCount(i, perRow, mc) <==> ColAt(i, mc) + x < WidthInBlocks(f, i.ci)
    ensures 1 <= BlockCount(i, perRow, mc) <= i.mcuWidth
  {
    hide WidthInBlocks, HeightInBlocks, McusAcross, McusDown;
    ColumnBounds(mc, perRow, i.mcuWidth, i.lastColWidth, x);
  }

  lemma ColumnBounds(mc: nat, perRow: nat, w: nat, last: nat, x: nat)
    requires mc < perRow && x < w && 1 <= last <= w
    ensures mc * w + x < (perRow - 1) * w + last <==> (x < if mc + 1 < perRow then w else last)
  {
    if mc + 1 < perRow {
      MulMonotone(mc + 1, perRow - 1, w);
      assert (mc + 1) * w == mc * w + w;
    }
  }

  // Column of the last real block of MCU column mc.
  function LastColumn(f: Frame, i: CompInfo, perRow: nat, mc: nat): (c: int)
    requires ValidFrame(f) && i.ci < |f.comps|
  {
    if BlockCount(i, perRow, mc) == i.mcuWidth then ColAt(i, mc) + i.mcuWidth - 1 else WidthInBlocks(f, i.ci) - 1
  }

  lemma PaddedIs(f: Frame, src: Source, i: CompInfo, perRow: nat, single: bool, k: nat, offset: nat, y: nat, mc: nat,
                 x: nat)
    requires InRow(f, i, perRow, single, k, offset, y, mc) && x < i.mcuWidth
    ensures LastColumn(f, i, perRow, mc) >= 0
    ensures var row, col := RowAt(f, i.ci, k, offset + y), ColAt(i, mc) + x;
      Padded(f, src, i.ci, row, col) ==
        if RealRow(f, i, k, offset + y) then
          if x < BlockCount(i, perRow, mc) then src(i.ci, row, col)
          else Dummy(src(i.ci, row, WidthInBlocks(f, i.ci) - 1)[0])
        else Dummy(src(i.ci, HeightInBlocks(f, i.ci) - 1, LastColumn(f, i, perRow, mc))[0])
  {
    hide Dummy, CeilDiv, LastReal, Fitting;
    RowIsReal(f, i, perRow, single, k, offset, y, mc);
    ColumnIsReal(f, i, perRow, single, mc, x);
    if !RealRow(f, i, k, offset + y) {
      LastOfMcu(f, i, perRow, mc, x);
    }
  }

  // Every block of padding repeats the DC coefficient of the block before it: its left
  // neighbour in the MCU, or the last block of the row above.
  lemma PaddingRepeats(f: Frame, src: Source, i: CompInfo, perRow: nat, single: bool, k: nat, offset: nat, y: nat,
                       mc: nat, x: nat)
    requires InRow(f, i, perRow, single, k, offset, y, mc) && x < i.mcuWidth
    requires !RealRow(f, i, k, offset + y) || x >= BlockCount(i, perRow, mc)
    ensures var row, col := RowAt(f, i.ci, k, offset + y), ColAt(i, mc);
      && (x == 0 ==> row > 0)
      && Padded(f, src, i.ci, row, col + x) == Dummy(Before(f, src, i, row, col, x)[0])
  {
    hide Padded, Dummy, CeilDiv, LastReal, Fitting, ColAt;
    RowIsReal(f, i, perRow, single, k, offset, y, mc);
    PaddedIs(f, src, i, perRow, single, k, offset, y, mc, x);
    ColumnIsReal(f, i, perRow, single, mc, x);
    if x > 0 {
      PaddedIs(f, src, i, perRow, single, k, offset, y, mc, x - 1);
      ColumnEnds(f, i, perRow, single, mc);
    } else {
      RowAbove(f, i, perRow, single, k, offset, y, mc);
      PaddedIs(f, src, i, perRow, single, k, offset, y - 1, mc, i.mcuWidth - 1);
      ColumnEnds(f, i, perRow, single, mc);
    }
  }

  // The block that comes before one in an MCU.
  function Before(f: Frame, src: Source, i: CompInfo, row: nat, col: nat, x: nat): Block
    requires ValidFrame(f) && i.ci < |f.comps| && i.mcuWidth > 0
  {
    if x > 0 then Padded(f, src, i.ci, row, col + x - 1)
    else if row > 0 then Padded(f, src, i.ci, row - 1, col + i.mcuWidth - 1)
    else Dummy(0)
  }

  lemma ColumnEnds(f: Frame, i: CompInfo, perRow: nat, single: bool, mc: nat)
    requires ValidFrame(f) && Fitting(f, i, perRow, single) && mc < perRow
    ensures BlockCount(i, perRow, mc) < i.mcuWidth ==>
      ColAt(i, mc) + BlockCount(i, perRow, mc) == WidthInBlocks(f, i.ci)
  {
  }

  // All blocks of a row of padding refer to the same real block.
  lemma LastOfMcu(f: Frame, i: CompInfo, perRow: nat, mc: nat, x: nat)
    requires ValidFrame(f) && Fitting(f, i, perRow, false) && mc < perRow && x < i.mcuWidth
    ensures LastReal(f, i.ci, ColAt(i, mc) + x) == LastColumn(f, i, perRow, mc)
  {
    var h := i.mcuWidth;
    DivideExactly(mc, h, x);
    if mc + 1 < perRow {
      MulMonotone(mc + 1, perRow - 1, h);
      assert (mc + 1) * h == mc * h + h;
    }
  }

  lemma RowAbove(f: Frame, i: CompInfo, perRow: nat, single: bool, k: nat, offset: nat, y: nat, mc: nat)
    requires InRow(f, i, perRow, single, k, offset, y, mc) && !RealRow(f, i, k, offset + y)
    ensures y > 0 && RowAt(f, i.ci, k, offset + y) > 0
    ensures RowAt(f, i.ci, k, offset + y) - 1 == RowAt(f, i.ci, k, offset + (y - 1))
    ensures RealRow(f, i, k, offset + (y - 1)) ==> RowAt(f, i.ci, k, offset + y) == HeightInBlocks(f, i.ci)
  {
    RowIsReal(f, i, perRow, single, k, offset, y, mc);
  }
}
