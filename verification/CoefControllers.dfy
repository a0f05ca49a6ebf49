// The coefficient controllers of the compressor: single-pass, full-image buffer, and the
// transcoder's, which pads on the fly. All of them send the entropy coder the same MCUs,
// however often it suspends.

module CoefControllers {
  import opened CodeBits
  import opened Coefficients
  import opened FrameGeometry

  // An entropy coder that takes MCUs as long as there is room for its output.
  class EntropyCoder {
    var sent: seq<seq<Block>>
    var room: nat

    constructor ()
      ensures sent == [] && room == 0
    {
      sent, room := [], 0;
    }

    // Nothing is lost: MCUs sent and room left add up.
    ghost function Budget(): nat
      reads this
    {
      |sent| + room
    }

    method EncodeMcu(mcu: seq<Block>) returns (ok: bool)
      modifies this
      ensures ok == (old(room) > 0) && Budget() == old(Budget()) && (!ok ==> room == 0)
      ensures sent == if ok then old(sent) + [mcu] else old(sent)
    {
      ok := room > 0;
      if ok {
        sent, room := sent + [mcu], room - 1;
      }
    }
  }

  // Where blocks come from: the DCT of the samples, or arrays. In the first pass of a
  // multi-pass run they go through the arrays.
  datatype Mode = PassThrough | SaveAndPass | CrankDest | Transcode

  // The DCT, of which nothing is assumed: component, iMCU row, and position of the samples
  // in the component's part of that row.
  type Dct = (nat, nat, nat, nat) -> Block

  function Transformed(f: Frame, dct: Dct): Source {
    (ci, row, col) => TransformedAt(f, dct, ci, row, col)
  }

  function TransformedAt(f: Frame, dct: Dct, ci: nat, row: nat, col: nat): Block {
    if ci < |f.comps| && f.comps[ci].v > 0 then
      dct(ci, row / f.comps[ci].v, row % f.comps[ci].v * f.comps[ci].dctHeight, col * f.comps[ci].dctWidth)
    else Dummy(0)
  }

  // An array of exactly the real blocks of a component.
  ghost predicate HoldsBlocks(f: Frame, src: Source, a: array2<Block>, ci: nat)
    requires ValidFrame(f) && ci < |f.comps|
    reads a
  {
    && a.Length0 == HeightInBlocks(f, ci) && a.Length1 == WidthInBlocks(f, ci)
    && forall row, col :: 0 <= row < a.Length0 && 0 <= col < a.Length1 ==> a[row, col] == src(ci, row, col)
  }

  class CoefController {
    const f: Frame
    const dct: Dct
    const entropy: EntropyCoder
    const mcuBuffer: array<Block>
    const dummyBuffer: array<Block>
    const whole: seq<array2<Block>>    // one array for each component, padded or not
    var mode: Mode
    var setup: ScanSetup               // the components of the current scan
    var iMcuRow: nat
    var mcuCtr: nat
    var vertOffset: nat
    var mcuRowsPerIMcuRow: nat
    ghost const src: Source            // the real blocks
    ghost var before: seq<seq<Block>>  // what was sent before this pass
    ghost var loaded: nat              // iMCU rows that have gone into the arrays

    ghost predicate Single()
      reads this`setup
    {
      |setup.comps| == 1
    }

    // MCU rows of iMCU row k.
    ghost function RowsOf(k: nat): nat
      requires ValidSetup(f, setup)
      reads this`setup
    {
      var i := setup.comps[0];
      if !Single() then 1 else if k < McusDown(f) - 1 then f.comps[i.ci].v else i.lastRowHeight
    }

    // First MCU row of iMCU row k.
    ghost function RowBase(k: nat): nat
      requires ValidSetup(f, setup)
      reads this`setup
    {
      var i := setup.comps[0];
      if !Single() then k
      else if k < McusDown(f) then k * f.comps[i.ci].v else HeightInBlocks(f, i.ci)
    }

    ghost predicate Sized()
      reads this`setup
    {
      && ValidSetup(f, setup) && BlocksInMcu(setup.comps, |setup.comps|) <= MAX_BLOCKS_IN_MCU
      && mcuBuffer.Length == dummyBuffer.Length == MAX_BLOCKS_IN_MCU && mcuBuffer != dummyBuffer
    }

    // The MCUs sent so far are the first ones of the scan.
    ghost predicate Sending(row: nat, col: nat)
      requires ValidSetup(f, setup)
      reads this`setup, this`before, entropy
    {
      entropy.sent == before + Stream(f, src, setup, row * setup.mcusPerRow + col)
    }

    ghost predicate Counters()
      requires ValidSetup(f, setup)
      reads this
    {
      && iMcuRow <= McusDown(f)
      && (iMcuRow < McusDown(f) ==>
            mcuRowsPerIMcuRow == RowsOf(iMcuRow) && vertOffset < mcuRowsPerIMcuRow && mcuCtr < setup.mcusPerRow)
      && (iMcuRow == McusDown(f) ==> vertOffset == mcuCtr == 0)
    }

    constructor (frame: Frame, m: Mode, transform: Dct, coder: EntropyCoder, arrays: seq<array2<Block>>,
                 first: ScanSetup, ghost blocks: Source)
      requires ValidSetup(frame, first) && BlocksInMcu(first.comps, |first.comps|) <= MAX_BLOCKS_IN_MCU
      requires coder.sent == []
      ensures f == frame && mode == m && dct == transform && entropy == coder && whole == arrays && src == blocks
      ensures entropy.room == coder.room && Sized() && setup == first && before == [] && fresh(mcuBuffer)
      ensures fresh(dummyBuffer)
      ensures Dummies()
      ensures iMcuRow == mcuCtr == vertOffset == loaded == 0 && Counters() && Sending(RowBase(0), 0)
    {
      f, mode, dct, entropy, whole, setup, src, before := frame, m, transform, coder, arrays, first, blocks, [];
      loaded := 0;
      mcuBuffer := new Block[MAX_BLOCKS_IN_MCU](_ => Dummy(0));
      dummyBuffer := new Block[MAX_BLOCKS_IN_MCU](_ => Dummy(0));
      iMcuRow, mcuCtr, vertOffset := 0, 0, 0;
      mcuRowsPerIMcuRow := if |first.comps| > 1 then 1
                           else if McusDown(frame) > 1 then frame.comps[first.comps[0].ci].v
                           else first.comps[0].lastRowHeight;
      new;
      assert Stream(f, src, setup, 0) == [];
    }

    // start_iMCU_row
    method StartIMcuRow()
      requires ValidSetup(f, setup)
      modifies this`mcuCtr, this`vertOffset, this`mcuRowsPerIMcuRow
      ensures mcuCtr == vertOffset == 0 && mcuRowsPerIMcuRow == RowsOf(iMcuRow) > 0
    {
      if |setup.comps| > 1 {
        mcuRowsPerIMcuRow := 1;
      } else if iMcuRow < McusDown(f) - 1 {
        mcuRowsPerIMcuRow := f.comps[setup.comps[0].ci].v;
      } else {
        mcuRowsPerIMcuRow := setup.comps[0].lastRowHeight;
      }
      mcuCtr, vertOffset := 0, 0;
    }

    // ----- One row of blocks of a component in an MCU -----

    // What the row needs to know: where it is, and what stands before it in the buffer.
    ghost predicate RowStarts(i: CompInfo, yoffset: nat, yindex: nat, mcuCol: nat, blkn: nat)
      requires Sized()
      reads this`setup, this`iMcuRow, mcuBuffer
    {
      && InRow(f, i, setup.mcusPerRow, Single(), iMcuRow, yoffset, yindex, mcuCol)
      && blkn + i.mcuWidth <= MAX_BLOCKS_IN_MCU
      && (yindex > 0 ==>
            && blkn > 0 && RowAt(f, i.ci, iMcuRow, yoffset + yindex) > 0
            && mcuBuffer[blkn - 1] == Padded(f, src, i.ci, RowAt(f, i.ci, iMcuRow, yoffset + yindex) - 1,
                                             ColAt(i, mcuCol) + i.mcuWidth - 1))
    }

    // The first n blocks of the row are in the buffer.
    ghost predicate RowHas(i: CompInfo, row: nat, col: nat, blkn: nat, n: nat)
      requires Sized() && i.ci < |f.comps| && blkn + n <= MAX_BLOCKS_IN_MCU
      reads this`setup, mcuBuffer
    {
      forall j :: blkn <= j < blkn + n ==> mcuBuffer[j] == Padded(f, src, i.ci, row, col + (j - blkn))
    }

    // forward_DCT for n blocks.
    method ForwardDct(i: CompInfo, ypos: nat, xpos: nat, blkn: nat, n: nat)
      requires i.ci < |f.comps| && blkn + n <= mcuBuffer.Length
      modifies mcuBuffer
      ensures mcuBuffer[..blkn] == old(mcuBuffer[..blkn])
      ensures forall j :: blkn <= j < blkn + n ==>
        mcuBuffer[j] == dct(i.ci, iMcuRow, ypos, xpos + (j - blkn) * f.comps[i.ci].dctWidth)
    {
      var at := xpos;
      for x := 0 to n
        invariant at == xpos + x * f.comps[i.ci].dctWidth && mcuBuffer[..blkn] == old(mcuBuffer[..blkn])
        invariant forall j :: blkn <= j < blkn + x ==>
          mcuBuffer[j] == dct(i.ci, iMcuRow, ypos, xpos + (j - blkn) * f.comps[i.ci].dctWidth)
      {
        mcuBuffer[blkn + x] := dct(i.ci, iMcuRow, ypos, at);
        NextRow(x, f.comps[i.ci].dctWidth);
        at := at + f.comps[i.ci].dctWidth;
      }
    }

    // Dummy blocks to the right, each with the DC coefficient of the block before it.
    method PadRight(i: CompInfo, yoffset: nat, yindex: nat, mcuCol: nat, blkn: nat, from: nat)
      requires Sized() && RowStarts(i, yoffset, yindex, mcuCol, blkn) && 1 <= from <= i.mcuWidth
      requires from >= BlockCount(i, setup.mcusPerRow, mcuCol)
      requires RowHas(i, RowAt(f, i.ci, iMcuRow, yoffset + yindex), ColAt(i, mcuCol), blkn, from)
      modifies mcuBuffer
      ensures mcuBuffer[..blkn] == old(mcuBuffer[..blkn])
      ensures RowHas(i, RowAt(f, i.ci, iMcuRow, yoffset + yindex), ColAt(i, mcuCol), blkn, i.mcuWidth)
    {
      hide Padded, BlocksInMcu, Fitting, RealRow, ValidSetup, Dummy;
      ghost var row, col := RowAt(f, i.ci, iMcuRow, yoffset + yindex), ColAt(i, mcuCol);
      for x := from to i.mcuWidth
        invariant mcuBuffer[..blkn] == old(mcuBuffer[..blkn]) && RowHas(i, row, col, blkn, x)
      {
        PaddingRepeats(f, src, i, setup.mcusPerRow, Single(), iMcuRow, yoffset, yindex, mcuCol, x);
        assert mcuBuffer[blkn + x - 1] == Padded(f, src, i.ci, row, col + (x - 1));
        mcuBuffer[blkn + x] := Dummy(mcuBuffer[blkn + x - 1][0]);
      }
    }

    // A whole row of dummy blocks with the DC coefficient of the last block above.
    method PadBelow(i: CompInfo, yoffset: nat, yindex: nat, mcuCol: nat, blkn: nat)
      requires Sized() && RowStarts(i, yoffset, yindex, mcuCol, blkn) && !RealRow(f, i, iMcuRow, yoffset + yindex)
      modifies mcuBuffer
      ensures mcuBuffer[..blkn] == old(mcuBuffer[..blkn])
      ensures RowHas(i, RowAt(f, i.ci, iMcuRow, yoffset + yindex), ColAt(i, mcuCol), blkn, i.mcuWidth)
    {
      hide Padded, BlocksInMcu, Fitting, RealRow, ValidSetup, InRow, RowAt, BlockCount;
      InRowFacts(f, i, setup.mcusPerRow, Single(), iMcuRow, yoffset, yindex, mcuCol);
      RowIsReal(f, i, setup.mcusPerRow, Single(), iMcuRow, yoffset, yindex, mcuCol);
      ghost var row, col := RowAt(f, i.ci, iMcuRow, yoffset + yindex), ColAt(i, mcuCol);
      ghost var dc := mcuBuffer[blkn - 1][0];
      for x := 0 to i.mcuWidth
        invariant mcuBuffer[..blkn] == old(mcuBuffer[..blkn]) && RowHas(i, row, col, blkn, x)
        invariant x > 0 ==> Padded(f, src, i.ci, row, col + x - 1) == Dummy(dc)
      {
        PaddingRepeats(f, src, i, setup.mcusPerRow, Single(), iMcuRow, yoffset, yindex, mcuCol, x);
        assert mcuBuffer[blkn - 1] == old(mcuBuffer[..blkn])[blkn - 1];
        mcuBuffer[blkn + x] := Dummy(mcuBuffer[blkn - 1][0]);
      }
    }

    // A row of compress_data: transformed samples, then padding.
    method RowByDct(i: CompInfo, yoffset: nat, yindex: nat, mcuCol: nat, blkn: nat)
      requires Sized() && RowStarts(i, yoffset, yindex, mcuCol, blkn) && src == Transformed(f, dct)
      modifies mcuBuffer
      ensures mcuBuffer[..blkn] == old(mcuBuffer[..blkn])
      ensures RowHas(i, RowAt(f, i.ci, iMcuRow, yoffset + yindex), ColAt(i, mcuCol), blkn, i.mcuWidth)
    {
      hide Padded, BlocksInMcu, Fitting, ValidSetup, Dummy, RowHas, InRow;
      InRowFacts(f, i, setup.mcusPerRow, Single(), iMcuRow, yoffset, yindex, mcuCol);
      ColumnIsReal(f, i, setup.mcusPerRow, Single(), mcuCol, 0);
      var blockcnt := if mcuCol < setup.mcusPerRow - 1 then i.mcuWidth else i.lastColWidth;
      if iMcuRow < McusDown(f) - 1 || yoffset + yindex < i.lastRowHeight {
        TransformRow(i, yoffset, yindex, mcuCol, blkn, blockcnt);
        if blockcnt < i.mcuWidth {
          assert RowStarts(i, yoffset, yindex, mcuCol, blkn) by {
            SamePrefix(mcuBuffer[..blkn], old(mcuBuffer[..blkn]));
          }
          PadRight(i, yoffset, yindex, mcuCol, blkn, blockcnt);
        }
      } else {
        PadBelow(i, yoffset, yindex, mcuCol, blkn);
      }
    }

    method TransformRow(i: CompInfo, yoffset: nat, yindex: nat, mcuCol: nat, blkn: nat, blockcnt: nat)
      requires Sized() && RowStarts(i, yoffset, yindex, mcuCol, blkn) && src == Transformed(f, dct)
      requires blockcnt == BlockCount(i, setup.mcusPerRow, mcuCol) <= i.mcuWidth
      requires RealRow(f, i, iMcuRow, yoffset + yindex)
      modifies mcuBuffer
      ensures mcuBuffer[..blkn] == old(mcuBuffer[..blkn])
      ensures RowHas(i, RowAt(f, i.ci, iMcuRow, yoffset + yindex), ColAt(i, mcuCol), blkn, blockcnt)
    {
      hide Padded, BlocksInMcu, Fitting, ValidSetup, Dummy, RealRow, BlockCount;
      var c := f.comps[i.ci];
      ForwardDct(i, SampleRow(c, yoffset, yindex), SampleColumn(i, c, mcuCol), blkn, blockcnt);
      ghost var row, col := RowAt(f, i.ci, iMcuRow, yoffset + yindex), ColAt(i, mcuCol);
      forall j | blkn <= j < blkn + blockcnt
        ensures mcuBuffer[j] == Padded(f, src, i.ci, row, col + (j - blkn))
      {
        SamplesOfBlock(f, i, setup.mcusPerRow, Single(), iMcuRow, yoffset, yindex, mcuCol, j - blkn, dct);
      }
    }

    // A row of the transcoder's compress_output: blocks of the array, then padding that is
    // made in the dummy buffer, whose AC entries stay zero.
    method RowFromArray(i: CompInfo, yoffset: nat, yindex: nat, mcuCol: nat, blkn: nat)
      requires Sized() && RowStarts(i, yoffset, yindex, mcuCol, blkn) && Dummies()
      requires i.ci < |whole| && HoldsBlocks(f, src, whole[i.ci], i.ci)
      modifies mcuBuffer, dummyBuffer
      ensures mcuBuffer[..blkn] == old(mcuBuffer[..blkn]) && Dummies()
      ensures RowHas(i, RowAt(f, i.ci, iMcuRow, yoffset + yindex), ColAt(i, mcuCol), blkn, i.mcuWidth)
    {
      hide Padded, BlocksInMcu, Fitting, ValidSetup, Dummy, RowHas, InRow;
      InRowFacts(f, i, setup.mcusPerRow, Single(), iMcuRow, yoffset, yindex, mcuCol);
      ColumnIsReal(f, i, setup.mcusPerRow, Single(), mcuCol, 0);
      var blockcnt := if mcuCol < setup.mcusPerRow - 1 then i.mcuWidth else i.lastColWidth;
      if iMcuRow < McusDown(f) - 1 || yindex + yoffset < i.lastRowHeight {
        CopyRow(i, yoffset, yindex, mcuCol, blkn, blockcnt);
        assert RowStarts(i, yoffset, yindex, mcuCol, blkn) by { SamePrefix(mcuBuffer[..blkn], old(mcuBuffer[..blkn])); }
      } else {
        blockcnt := 0;
        assert RowHas(i, RowAt(f, i.ci, iMcuRow, yoffset + yindex), ColAt(i, mcuCol), blkn, 0) by {
          RowHasNone(i, blkn);
        }
      }
      PadFrom(i, yoffset, yindex, mcuCol, blkn, blockcnt);
    }

    lemma RowHasNone(i: CompInfo, blkn: nat)
      requires Sized() && i.ci < |f.comps| && blkn <= MAX_BLOCKS_IN_MCU
      ensures forall row, col :: RowHas(i, row, col, blkn, 0)
    {
    }

    method CopyRow(i: CompInfo, yoffset: nat, yindex: nat, mcuCol: nat, blkn: nat, blockcnt: nat)
      requires Sized() && InRow(f, i, setup.mcusPerRow, Single(), iMcuRow, yoffset, yindex, mcuCol)
      requires blockcnt == BlockCount(i, setup.mcusPerRow, mcuCol) <= i.mcuWidth
      requires RealRow(f, i, iMcuRow, yoffset + yindex)
      requires blkn + i.mcuWidth <= MAX_BLOCKS_IN_MCU && i.ci < |whole| && HoldsBlocks(f, src, whole[i.ci], i.ci)
      modifies mcuBuffer
      ensures mcuBuffer[..blkn] == old(mcuBuffer[..blkn])
      ensures RowHas(i, RowAt(f, i.ci, iMcuRow, yoffset + yindex), ColAt(i, mcuCol), blkn, blockcnt)
    {
      hide Padded, BlocksInMcu, Fitting, ValidSetup, RealRow, BlockCount, InRow;
      InRowFacts(f, i, setup.mcusPerRow, Single(), iMcuRow, yoffset, yindex, mcuCol);
      RowIsReal(f, i, setup.mcusPerRow, Single(), iMcuRow, yoffset, yindex, mcuCol);
      var row, startCol := iMcuRow * f.comps[i.ci].v + yindex + yoffset, ColAt(i, mcuCol);
      for xindex := 0 to blockcnt
        invariant mcuBuffer[..blkn] == old(mcuBuffer[..blkn]) && RowHas(i, row, startCol, blkn, xindex)
      {
        ColumnIsReal(f, i, setup.mcusPerRow, Single(), mcuCol, xindex);
        PaddedInside(f, src, i.ci, row, startCol + xindex);
        mcuBuffer[blkn + xindex] := whole[i.ci][row, startCol + xindex];
      }
    }

    method PadFrom(i: CompInfo, yoffset: nat, yindex: nat, mcuCol: nat, blkn: nat, from: nat)
      requires Sized() && RowStarts(i, yoffset, yindex, mcuCol, blkn) && Dummies() && from <= i.mcuWidth
      requires !RealRow(f, i, iMcuRow, yoffset + yindex) || from >= BlockCount(i, setup.mcusPerRow, mcuCol) > 0
      requires RowHas(i, RowAt(f, i.ci, iMcuRow, yoffset + yindex), ColAt(i, mcuCol), blkn, from)
      modifies mcuBuffer, dummyBuffer
      ensures mcuBuffer[..blkn] == old(mcuBuffer[..blkn]) && Dummies()
      ensures RowHas(i, RowAt(f, i.ci, iMcuRow, yoffset + yindex), ColAt(i, mcuCol), blkn, i.mcuWidth)
    {
      hide Padded, BlocksInMcu, Fitting, ValidSetup, Dummy, RealRow, BlockCount, InRow, Dummies, Before;
      RowIsReal(f, i, setup.mcusPerRow, Single(), iMcuRow, yoffset, yindex, mcuCol);
      InRowFacts(f, i, setup.mcusPerRow, Single(), iMcuRow, yoffset, yindex, mcuCol);
      ghost var row, startCol := RowAt(f, i.ci, iMcuRow, yoffset + yindex), ColAt(i, mcuCol);
      for xindex := from to i.mcuWidth
        invariant mcuBuffer[..blkn] == old(mcuBuffer[..blkn])
        invariant RowHas(i, row, startCol, blkn, xindex) && Dummies()
      {
        PaddingRepeats(f, src, i, setup.mcusPerRow, Single(), iMcuRow, yoffset, yindex, mcuCol, xindex);
        BeforeInBuffer(i, yoffset, yindex, mcuCol, blkn, xindex, old(mcuBuffer[..blkn]));
        SetDummy(blkn + xindex, mcuBuffer[blkn + xindex - 1][0]);
        mcuBuffer[blkn + xindex] := dummyBuffer[blkn + xindex];
      }
    }

    ghost predicate Dummies()
      reads dummyBuffer
    {
      forall j :: 0 <= j < dummyBuffer.Length ==> dummyBuffer[j] == Dummy(dummyBuffer[j][0])
    }

    method SetDummy(j: nat, dc: int)
      requires j < dummyBuffer.Length && Dummies()
      modifies dummyBuffer
      ensures Dummies() && dummyBuffer[j] == Dummy(dc)
    {
      var b := dummyBuffer[j];
      dummyBuffer[j] := b[0 := dc];
      assert b[0 := dc] == Dummy(dc);
    }

    // The block before block x of the row is where the loop looks for it.
    lemma BeforeInBuffer(i: CompInfo, yoffset: nat, yindex: nat, mcuCol: nat, blkn: nat, x: nat, was: seq<Block>)
      requires Sized() && InRow(f, i, setup.mcusPerRow, Single(), iMcuRow, yoffset, yindex, mcuCol) && x < i.mcuWidth
      requires blkn + i.mcuWidth <= MAX_BLOCKS_IN_MCU && mcuBuffer[..blkn] == was
      requires var row, col := RowAt(f, i.ci, iMcuRow, yoffset + yindex), ColAt(i, mcuCol);
        && RowHas(i, row, col, blkn, x)
        && (x == 0 ==> row > 0 && blkn > 0 && was[blkn - 1] == Padded(f, src, i.ci, row - 1, col + i.mcuWidth - 1))
      ensures blkn + x > 0
      ensures mcuBuffer[blkn + x - 1]
        == Before(f, src, i, RowAt(f, i.ci, iMcuRow, yoffset + yindex), ColAt(i, mcuCol), x)
    {
      hide Padded, Fitting, Dummy, ValidSetup, BlocksInMcu;
      if x == 0 {
        assert mcuBuffer[blkn - 1] == was[blkn - 1];
      } else {
        var j := blkn + x - 1;
        assert blkn <= j < blkn + x;
      }
    }

    // A padded array of component ci, filled for the first n iMCU rows.
    ghost predicate LoadedTo(a: array2<Block>, ci: nat, n: nat)
      requires ValidFrame(f) && ci < |f.comps|
      reads a
    {
      && PaddedSize(f, a, ci) && n <= McusDown(f)
      && forall row, col :: 0 <= row < n * f.comps[ci].v && row < a.Length0 && 0 <= col < a.Length1 ==>
           a[row, col] == Padded(f, src, ci, row, col)
    }

    // A row of compress_output: blocks of the padded array.
    method RowFromWhole(i: CompInfo, yoffset: nat, yindex: nat, mcuCol: nat, blkn: nat)
      requires Sized() && InRow(f, i, setup.mcusPerRow, Single(), iMcuRow, yoffset, yindex, mcuCol)
      requires blkn + i.mcuWidth <= MAX_BLOCKS_IN_MCU && i.ci < |whole| && iMcuRow < loaded
      requires LoadedTo(whole[i.ci], i.ci, loaded)
      modifies mcuBuffer
      ensures mcuBuffer[..blkn] == old(mcuBuffer[..blkn])
      ensures RowHas(i, RowAt(f, i.ci, iMcuRow, yoffset + yindex), ColAt(i, mcuCol), blkn, i.mcuWidth)
    {
      hide Padded, BlocksInMcu, ValidSetup, InRow, Fitting, LoadedTo;
      InRowFacts(f, i, setup.mcusPerRow, Single(), iMcuRow, yoffset, yindex, mcuCol);
      var row, startCol := iMcuRow * f.comps[i.ci].v + yindex + yoffset, ColAt(i, mcuCol);
      for xindex := 0 to i.mcuWidth
        invariant mcuBuffer[..blkn] == old(mcuBuffer[..blkn]) && RowHas(i, row, startCol, blkn, xindex)
      {
        WholeAt(i, yoffset, yindex, mcuCol, row, startCol + xindex);
        mcuBuffer[blkn + xindex] := whole[i.ci][row, startCol + xindex];
      }
    }

    lemma WholeAt(i: CompInfo, yoffset: nat, yindex: nat, mcuCol: nat, row: nat, col: nat)
      requires Sized() && InRow(f, i, setup.mcusPerRow, Single(), iMcuRow, yoffset, yindex, mcuCol)
      requires i.ci < |whole| && iMcuRow < loaded && LoadedTo(whole[i.ci], i.ci, loaded)
      requires row == RowAt(f, i.ci, iMcuRow, yoffset + yindex)
      requires ColAt(i, mcuCol) <= col < ColAt(i, mcuCol) + i.mcuWidth
      ensures row < whole[i.ci].Length0 && col < whole[i.ci].Length1
      ensures whole[i.ci][row, col] == Padded(f, src, i.ci, row, col)
    {
      hide Padded, BlocksInMcu, Fitting, LoadedTo;
      InRowFacts(f, i, setup.mcusPerRow, Single(), iMcuRow, yoffset, yindex, mcuCol);
      RowIsReal(f, i, setup.mcusPerRow, Single(), iMcuRow, yoffset, yindex, mcuCol);
      InsideArray(f, i, setup.mcusPerRow, Single(), iMcuRow, yoffset + yindex, mcuCol);
      MulMonotone(iMcuRow + 1, loaded, f.comps[i.ci].v);
      LoadedSize(whole[i.ci], i.ci, loaded);
      MulMonotone(loaded, McusDown(f), f.comps[i.ci].v);
      LoadedAt(whole[i.ci], i.ci, loaded, row, col);
    }

    lemma LoadedSize(a: array2<Block>, ci: nat, n: nat)
      requires ValidFrame(f) && ci < |f.comps| && LoadedTo(a, ci, n)
      ensures n <= McusDown(f)
    {
      hide Padded;
    }

    lemma LoadedAt(a: array2<Block>, ci: nat, n: nat, row: nat, col: nat)
      requires ValidFrame(f) && ci < |f.comps| && LoadedTo(a, ci, n)
      requires row < n * f.comps[ci].v <= McusDown(f) * f.comps[ci].v && col < McusAcross(f) * f.comps[ci].h
      ensures row < a.Length0 && col < a.Length1 && a[row, col] == Padded(f, src, ci, row, col)
    {
      hide Padded;
    }

    // ----- One MCU -----

    // The arrays are padded and filled as far as they have been loaded.
    ghost predicate Arrays()
      reads this`loaded, whole
    {
      && ValidFrame(f) && |whole| == |f.comps| && loaded <= McusDown(f)
      && (forall c, d :: 0 <= c < d < |whole| ==> whole[c] != whole[d])
      && forall c :: 0 <= c < |whole| ==> LoadedTo(whole[c], c, loaded)
    }

    // Between two calls.
    ghost predicate Stocked()
      reads this`mode, this`iMcuRow, this`loaded, dummyBuffer, whole
    {
      match mode
      case PassThrough => src == Transformed(f, dct)
      case Transcode =>
        && ValidFrame(f) && |whole| == |f.comps| && Dummies()
        && forall c :: 0 <= c < |whole| ==> HoldsBlocks(f, src, whole[c], c)
      case SaveAndPass => Arrays() && src == Transformed(f, dct) && iMcuRow <= loaded <= iMcuRow + 1
      case CrankDest => Arrays() && loaded == McusDown(f)
    }

    // The blocks of the current iMCU row are there.
    ghost predicate Supplied()
      reads this`mode, this`iMcuRow, this`loaded, dummyBuffer, whole
    {
      Stocked() && ValidFrame(f) && iMcuRow < McusDown(f) && (mode == SaveAndPass ==> loaded == iMcuRow + 1)
    }

    // One row of a component, from where this pass gets it.
    method BuildRow(i: CompInfo, yoffset: nat, yindex: nat, mcuCol: nat, blkn: nat)
      requires Sized() && RowStarts(i, yoffset, yindex, mcuCol, blkn) && Supplied()
      modifies mcuBuffer, dummyBuffer
      ensures mcuBuffer[..blkn] == old(mcuBuffer[..blkn]) && Supplied()
      ensures RowHas(i, RowAt(f, i.ci, iMcuRow, yoffset + yindex), ColAt(i, mcuCol), blkn, i.mcuWidth)
    {
      hide Padded, BlocksInMcu, Fitting, ValidSetup, RowHas, HoldsBlocks, LoadedTo, Dummies;
      match mode {
        case PassThrough => RowByDct(i, yoffset, yindex, mcuCol, blkn);
        case Transcode => RowFromArray(i, yoffset, yindex, mcuCol, blkn);
        case SaveAndPass => RowFromWhole(i, yoffset, yindex, mcuCol, blkn);
        case CrankDest => RowFromWhole(i, yoffset, yindex, mcuCol, blkn);
      }
    }

    // All rows of a component.
    method BuildComponent(k: nat, yoffset: nat, mcuCol: nat, blkn: nat)
      requires Sized() && k < |setup.comps| && Supplied() && Here(yoffset, mcuCol)
      requires blkn == BlocksInMcu(setup.comps, k) <= MAX_BLOCKS_IN_MCU
      modifies mcuBuffer, dummyBuffer
      ensures Sized() && Supplied()
      ensures blkn <= BlocksInMcu(setup.comps, k + 1) <= MAX_BLOCKS_IN_MCU
      ensures mcuBuffer[..BlocksInMcu(setup.comps, k + 1)] ==
        old(mcuBuffer[..blkn])
        + ComponentInMcu(f, src, setup, RowBase(iMcuRow) + yoffset, mcuCol, k, setup.comps[k].mcuHeight)
    {
      hide Padded, Fitting, Supplied, BlocksInMcu, CompBlocks, ValidSetup, RowsOf, InRow, RowAt, ColAt, McusDown,
           Here, RowBase;
      var i := setup.comps[k];
      ghost var was := mcuBuffer[..blkn];
      ghost var row0, col := (RowBase(iMcuRow) + yoffset) * i.mcuHeight, ColAt(i, mcuCol);
      SetupInfo(k);
      var at := blkn;
      NoRows(f, src, i, row0, col);
      for yindex := 0 to i.mcuHeight
        invariant at == blkn + yindex * i.mcuWidth && Supplied()
        invariant mcuBuffer[..at] == was + CompBlocks(f, src, i, row0, col, yindex)
      {
        RowRoom(yindex, i.mcuHeight, i.mcuWidth);
        RowHere(k, yoffset, yindex, mcuCol);
        BuildNextRow(i, yoffset, yindex, mcuCol, at, was, row0);
        at := at + i.mcuWidth;
      }
    }

    // One more row of a component.
    method BuildNextRow(i: CompInfo, yoffset: nat, yindex: nat, mcuCol: nat, at: nat, ghost was: seq<Block>,
                        ghost row0: nat)
      requires Sized() && Supplied() && InRow(f, i, setup.mcusPerRow, Single(), iMcuRow, yoffset, yindex, mcuCol)
      requires at + i.mcuWidth <= MAX_BLOCKS_IN_MCU && i.ci < |f.comps|
      requires RowAt(f, i.ci, iMcuRow, yoffset + yindex) == row0 + yindex
      requires mcuBuffer[..at] == was + CompBlocks(f, src, i, row0, ColAt(i, mcuCol), yindex)
      modifies mcuBuffer, dummyBuffer
      ensures Supplied()
      ensures mcuBuffer[..at + i.mcuWidth] == was + CompBlocks(f, src, i, row0, ColAt(i, mcuCol), yindex + 1)
    {
      hide Padded, Fitting, Supplied, RowHas, InRow, BlocksInMcu, RowBlocks, CompBlocks, RowAt;
      InRowFacts(f, i, setup.mcusPerRow, Single(), iMcuRow, yoffset, yindex, mcuCol);
      LastOfRows(f, src, i, row0, ColAt(i, mcuCol), yindex);
      BuildRow(i, yoffset, yindex, mcuCol, at);
      AddRow(i, row0, ColAt(i, mcuCol), yindex, at, mcuBuffer[..at], was);
    }

    // MCU row and column that the loops of a call may be at.
    ghost predicate Here(yoffset: nat, mcuCol: nat)
      requires Sized()
      reads this`setup, this`iMcuRow
    {
      iMcuRow < McusDown(f) && yoffset < RowsOf(iMcuRow) && mcuCol < setup.mcusPerRow
    }

    lemma SetupInfo(k: nat)
      requires Sized() && k < |setup.comps|
      ensures ValidFrame(f) && setup.comps[k].ci < |f.comps| && Fitting(f, setup.comps[k], setup.mcusPerRow, Single())
      ensures BlocksInMcu(setup.comps, k) + setup.comps[k].mcuHeight * setup.comps[k].mcuWidth
        == BlocksInMcu(setup.comps, k + 1)
      ensures BlocksInMcu(setup.comps, k + 1) <= MAX_BLOCKS_IN_MCU
    {
      BlocksMonotone(setup.comps, k + 1, |setup.comps|);
    }

    // Where a row of an MCU is in its component.
    lemma RowHere(k: nat, yoffset: nat, yindex: nat, mcuCol: nat)
      requires Sized() && k < |setup.comps| && Here(yoffset, mcuCol) && yindex < setup.comps[k].mcuHeight
      ensures var i := setup.comps[k];
        && InRow(f, i, setup.mcusPerRow, Single(), iMcuRow, yoffset, yindex, mcuCol)
        && RowAt(f, i.ci, iMcuRow, yoffset + yindex) == (RowBase(iMcuRow) + yoffset) * i.mcuHeight + yindex
    {
      hide BlocksInMcu;
    }

    lemma AddRow(i: CompInfo, row0: nat, col: nat, y: nat, at: nat, pre: seq<Block>, was: seq<Block>)
      requires Sized() && i.ci < |f.comps| && at + i.mcuWidth <= MAX_BLOCKS_IN_MCU
      requires mcuBuffer[..at] == pre && pre == was + CompBlocks(f, src, i, row0, col, y)
      requires RowHas(i, row0 + y, col, at, i.mcuWidth)
      ensures mcuBuffer[..at + i.mcuWidth] == was + CompBlocks(f, src, i, row0, col, y + 1)
    {
      hide Padded, BlocksInMcu, Fitting;
      var more := RowBlocks(f, src, i, row0 + y, col);
      assert mcuBuffer[at..at + i.mcuWidth] == more;
      assert mcuBuffer[..at + i.mcuWidth] == mcuBuffer[..at] + mcuBuffer[at..at + i.mcuWidth];
    }

    // The MCU at a place of the scan.
    method BuildMcu(yoffset: nat, mcuCol: nat) returns (blkn: nat)
      requires Sized() && Supplied() && Here(yoffset, mcuCol)
      modifies mcuBuffer, dummyBuffer
      ensures Sized() && Supplied() && blkn <= MAX_BLOCKS_IN_MCU
      ensures mcuBuffer[..blkn] == McuAt(f, src, setup, RowBase(iMcuRow) + yoffset, mcuCol)
    {
      hide Padded, Supplied, BlocksInMcu, ComponentInMcu, ValidSetup, RowsOf, Fitting, RowBase, McuBlocks;
      blkn := 0;
      ghost var mr := RowBase(iMcuRow) + yoffset;
      NoComponents(f, src, setup, mr, mcuCol);
      for k := 0 to |setup.comps|
        invariant Sized() && Supplied() && blkn == BlocksInMcu(setup.comps, k) <= MAX_BLOCKS_IN_MCU
        invariant mcuBuffer[..blkn] == McuBlocks(f, src, setup, mr, mcuCol, k)
      {
        SetupInfo(k);
        NextComponent(f, src, setup, mr, mcuCol, k);
        BuildComponent(k, yoffset, mcuCol, blkn);
        blkn := blkn + setup.comps[k].mcuHeight * setup.comps[k].mcuWidth;
      }
    }

    // ----- One iMCU row -----

    // Between two MCUs of a call.
    ghost predicate Underway(yoffset: nat, mcuCol: nat)
      reads this`setup, this`before, this`mode, this`iMcuRow, this`loaded, this`mcuRowsPerIMcuRow, dummyBuffer, whole
      reads entropy
    {
      && Sized() && Supplied() && iMcuRow < McusDown(f) && mcuRowsPerIMcuRow == RowsOf(iMcuRow)
      && Sending(RowBase(iMcuRow) + yoffset, mcuCol)
    }

    // The loops that all three routines have in common: true if the iMCU row is completed,
    // false if the entropy coder suspends.
    method SendMcus() returns (ok: bool)
      requires Underway(vertOffset, mcuCtr) && Counters()
      modifies this`iMcuRow, this`mcuCtr, this`vertOffset, this`mcuRowsPerIMcuRow, mcuBuffer, dummyBuffer, entropy
      ensures Sized() && Counters() && Stocked() && Sending(RowBase(iMcuRow) + vertOffset, mcuCtr)
      ensures iMcuRow == if ok then old(iMcuRow) + 1 else old(iMcuRow)
      ensures entropy.Budget() == old(entropy.Budget()) && (!ok ==> entropy.room == 0)
    {
      hide Sized, BlocksInMcu, ValidSetup, RowsOf, RowBase, Sending, Stocked, Underway;
      var yoffset: nat, rows := vertOffset, mcuRowsPerIMcuRow;
      while yoffset < rows
        invariant yoffset <= rows == mcuRowsPerIMcuRow && iMcuRow == old(iMcuRow) && mcuCtr <= setup.mcusPerRow
        invariant (yoffset == rows ==> mcuCtr == 0) && Underway(yoffset, mcuCtr)
        invariant entropy.Budget() == old(entropy.Budget())
      {
        var mcuCol;
        ok, mcuCol := SendMcuRow(yoffset, mcuCtr);
        if !ok {
          UnderwayFacts(yoffset, mcuCol);
          vertOffset, mcuCtr := yoffset, mcuCol;
          return;
        }
        RowDone(yoffset);
        mcuCtr := 0;
        yoffset := yoffset + 1;
      }
      CompleteIMcuRow();
      ok := true;
    }

    lemma UnderwayFacts(yoffset: nat, mcuCol: nat)
      requires Underway(yoffset, mcuCol)
      ensures Sized() && Stocked() && Sending(RowBase(iMcuRow) + yoffset, mcuCol)
      ensures mcuRowsPerIMcuRow == RowsOf(iMcuRow) && iMcuRow < McusDown(f)
    {
      hide BlocksInMcu, ValidSetup, RowsOf, RowBase, Sending, Stocked;
    }

    // The iMCU row is completed: advance the counters.
    method CompleteIMcuRow()
      requires Underway(mcuRowsPerIMcuRow, mcuCtr) && mcuCtr == 0
      modifies this`iMcuRow, this`mcuCtr, this`vertOffset, this`mcuRowsPerIMcuRow
      ensures Sized() && Counters() && Stocked() && Sending(RowBase(iMcuRow) + vertOffset, mcuCtr)
      ensures iMcuRow == old(iMcuRow) + 1
    {
      hide Padded, BlocksInMcu, Fitting, RowsOf, RowBase, Sending, Dummies, Arrays, HoldsBlocks;
      BaseNext(iMcuRow);
      iMcuRow := iMcuRow + 1;
      StartIMcuRow();
    }

    // The rest of an MCU row, up to column mcuCol.
    method SendMcuRow(yoffset: nat, from: nat) returns (ok: bool, mcuCol: nat)
      requires Underway(yoffset, from) && yoffset < mcuRowsPerIMcuRow && from <= setup.mcusPerRow
      modifies mcuBuffer, dummyBuffer, entropy
      ensures Underway(yoffset, mcuCol)
      ensures entropy.Budget() == old(entropy.Budget()) && (!ok ==> entropy.room == 0)
      ensures if ok then mcuCol == setup.mcusPerRow else mcuCol < setup.mcusPerRow
    {
      hide Padded, Supplied, BlocksInMcu, RowsOf, RowBase, Sending, McuAt;
      mcuCol := from;
      while mcuCol < setup.mcusPerRow
        invariant mcuCol <= setup.mcusPerRow && Underway(yoffset, mcuCol) && entropy.Budget() == old(entropy.Budget())
      {
        ok := SendMcu(yoffset, mcuCol);
        if !ok {
          return;
        }
        mcuCol := mcuCol + 1;
      }
      ok := true;
    }

    // ----- The arrays of a multi-pass run -----

    // Row r of iMCU row iMcuRow is filled, and no other row has changed.
    ghost predicate RowFilled(a: array2<Block>, ci: nat, row: nat)
      requires ValidFrame(f) && ci < |f.comps| && row < a.Length0
      reads a
    {
      forall col :: 0 <= col < a.Length1 ==> a[row, col] == Padded(f, src, ci, row, col)
    }

    // A row of real blocks, padded to a whole number of MCUs.
    method FillRealRow(ci: nat, r: nat)
      requires ValidFrame(f) && ci < |f.comps| && ci < |whole| && src == Transformed(f, dct) && iMcuRow < McusDown(f)
      requires PaddedSize(f, whole[ci], ci)
      requires r < f.comps[ci].v && RowAt(f, ci, iMcuRow, r) < HeightInBlocks(f, ci)
      requires RowAt(f, ci, iMcuRow, r) < whole[ci].Length0
      modifies whole[ci]
      ensures RowFilled(whole[ci], ci, RowAt(f, ci, iMcuRow, r))
      ensures forall row, col ::
        0 <= row < whole[ci].Length0 && 0 <= col < whole[ci].Length1 && row != RowAt(f, ci, iMcuRow, r) ==>
        whole[ci][row, col] == old(whole[ci][row, col])
    {
      hide Dummy, CeilDiv;
      var a, c := whole[ci], f.comps[ci];
      var row, blocksAcross := iMcuRow * c.v + r, WidthInBlocks(f, ci);
      PaddingWidth(f, ci);
      DivideExactly(iMcuRow, c.v, r);
      for col := 0 to blocksAcross
        invariant forall k :: 0 <= k < col ==> a[row, k] == src(ci, row, k)
        invariant forall q, k :: 0 <= q < a.Length0 && 0 <= k < a.Length1 && q != row ==> a[q, k] == old(a[q, k])
      {
        a[row, col] := dct(ci, iMcuRow, r * c.dctHeight, col * c.dctWidth);
      }
      var ndummy := blocksAcross % c.h;
      if ndummy > 0 {
        ndummy := c.h - ndummy;
      }
      if ndummy > 0 {
        var lastDc := a[row, blocksAcross - 1][0];
        for bi := 0 to ndummy
          invariant forall k :: 0 <= k < blocksAcross ==> a[row, k] == src(ci, row, k)
          invariant forall k :: blocksAcross <= k < blocksAcross + bi ==> a[row, k] == Dummy(lastDc)
          invariant forall q, k :: 0 <= q < a.Length0 && 0 <= k < a.Length1 && q != row ==> a[q, k] == old(a[q, k])
        {
          a[row, blocksAcross + bi] := Dummy(lastDc);
        }
      }
    }

    // A row of dummy blocks at the bottom: within each MCU the DC coefficients match that of
    // the last block above.
    method FillDummyRow(ci: nat, r: nat)
      requires ValidFrame(f) && ci < |f.comps| && ci < |whole| && iMcuRow < McusDown(f)
      requires PaddedSize(f, whole[ci], ci)
      requires 1 <= r < f.comps[ci].v && HeightInBlocks(f, ci) <= RowAt(f, ci, iMcuRow, r) < whole[ci].Length0
      requires RowFilled(whole[ci], ci, RowAt(f, ci, iMcuRow, r) - 1)
      modifies whole[ci]
      ensures RowFilled(whole[ci], ci, RowAt(f, ci, iMcuRow, r))
      ensures forall row, col ::
        0 <= row < whole[ci].Length0 && 0 <= col < whole[ci].Length1 && row != RowAt(f, ci, iMcuRow, r) ==>
        whole[ci][row, col] == old(whole[ci][row, col])
    {
      hide Dummy, CeilDiv, Padded;
      var a, h := whole[ci], f.comps[ci].h;
      var row, across := iMcuRow * f.comps[ci].v + r, McusAcross(f);
      var start := 0;
      for mcu := 0 to across
        invariant start == mcu * h
        invariant forall k :: 0 <= k < start && k < a.Length1 ==> a[row, k] == Padded(f, src, ci, row, k)
        invariant forall q, k :: 0 <= q < a.Length0 && 0 <= k < a.Length1 && q != row ==> a[q, k] == old(a[q, k])
      {
        McuInside(mcu, across, h);
        assert a[row - 1, start + h - 1] == old(a[row - 1, start + h - 1]);
        var lastDc := a[row - 1, start + h - 1][0];
        AllDummiesBelow(ci, r, mcu, row, start, h, lastDc);
        FillDummyMcu(a, ci, row, start, h, lastDc);
        NextRow(mcu, h);
        start := start + h;
      }
      assert RowFilled(a, ci, row) by { FilledAll(a, ci, row); }
    }

    lemma AllDummiesBelow(ci: nat, r: nat, mcu: nat, row: nat, start: nat, h: nat, lastDc: int)
      requires ValidFrame(f) && ci < |f.comps| && iMcuRow < McusDown(f) && mcu < McusAcross(f)
      requires 1 <= r < f.comps[ci].v && HeightInBlocks(f, ci) <= RowAt(f, ci, iMcuRow, r)
      requires h == f.comps[ci].h >= 1 && start == mcu * h && row == RowAt(f, ci, iMcuRow, r) >= 1
      requires lastDc == Padded(f, src, ci, row - 1, start + h - 1)[0]
      ensures forall k :: start <= k < start + h ==> Padded(f, src, ci, row, k) == Dummy(lastDc)
    {
      hide Dummy, CeilDiv, Padded;
      forall k | start <= k < start + h
        ensures Padded(f, src, ci, row, k) == Dummy(lastDc)
      {
        DummyBelow(f, src, ci, iMcuRow, r, mcu, k - start);
      }
    }

    lemma FilledAll(a: array2<Block>, ci: nat, row: nat)
      requires ValidFrame(f) && ci < |f.comps| && row < a.Length0
      requires forall k :: 0 <= k < a.Length1 ==> a[row, k] == Padded(f, src, ci, row, k)
      ensures RowFilled(a, ci, row)
    {
      hide Padded;
    }

    // The dummy blocks of one MCU.
    method FillDummyMcu(a: array2<Block>, ci: nat, row: nat, start: nat, h: nat, lastDc: int)
      requires ValidFrame(f) && ci < |f.comps| && row < a.Length0 && start + h <= a.Length1
      requires forall k :: start <= k < start + h ==> Padded(f, src, ci, row, k) == Dummy(lastDc)
      requires forall k :: 0 <= k < start ==> a[row, k] == Padded(f, src, ci, row, k)
      modifies a
      ensures forall k :: 0 <= k < start + h ==> a[row, k] == Padded(f, src, ci, row, k)
      ensures forall q, k :: 0 <= q < a.Length0 && 0 <= k < a.Length1 && q != row ==> a[q, k] == old(a[q, k])
    {
      hide Dummy, Padded;
      for bi := 0 to h
        invariant forall k :: 0 <= k < start + bi ==> a[row, k] == Padded(f, src, ci, row, k)
        invariant forall q, k :: 0 <= q < a.Length0 && 0 <= k < a.Length1 && q != row ==> a[q, k] == old(a[q, k])
      {
        a[row, start + bi] := Dummy(lastDc);
      }
    }

    // The rows of an array below row n are as they should be.
    ghost predicate RowsFilled(a: array2<Block>, ci: nat, n: nat)
      requires ValidFrame(f) && ci < |f.comps|
      reads a
    {
      n <= a.Length0 && forall row :: 0 <= row < n ==> RowFilled(a, ci, row)
    }

    // One more row, real or dummy.
    method FillRow(ci: nat, r: nat, dummy: bool)
      requires ValidFrame(f) && ci < |f.comps| && ci < |whole| && src == Transformed(f, dct) && iMcuRow < McusDown(f)
      requires PaddedSize(f, whole[ci], ci)
      requires r < f.comps[ci].v && RowAt(f, ci, iMcuRow, r) < whole[ci].Length0
      requires dummy <==> RowAt(f, ci, iMcuRow, r) >= HeightInBlocks(f, ci)
      requires dummy ==> r >= 1
      requires RowsFilled(whole[ci], ci, RowAt(f, ci, iMcuRow, r))
      modifies whole[ci]
      ensures RowsFilled(whole[ci], ci, RowAt(f, ci, iMcuRow, r) + 1)
    {
      hide Padded, CeilDiv;
      ghost var row := RowAt(f, ci, iMcuRow, r);
      if dummy {
        assert RowFilled(whole[ci], ci, row - 1);
        FillDummyRow(ci, r);
      } else {
        FillRealRow(ci, r);
      }
      forall q | 0 <= q < row + 1
        ensures RowFilled(whole[ci], ci, q)
      {
        assert q < row ==> old(RowFilled(whole[ci], ci, q));
      }
    }

    // One component of the iMCU row.
    method FillComponent(ci: nat)
      requires ValidFrame(f) && ci < |f.comps| && ci < |whole| && src == Transformed(f, dct) && iMcuRow < McusDown(f)
      requires LoadedTo(whole[ci], ci, iMcuRow)
      modifies whole[ci]
      ensures LoadedTo(whole[ci], ci, iMcuRow + 1)
    {
      hide Padded, CeilDiv, RowFilled, RowsFilled;
      var v := f.comps[ci].v;
      var blockRows := v;
      if iMcuRow == McusDown(f) - 1 {
        blockRows := HeightInBlocks(f, ci) % v;
        if blockRows == 0 {
          blockRows := v;
        }
      }
      RowsOfArray(f, ci, iMcuRow);
      LoadedRows(whole[ci], ci, iMcuRow);
      for blockRow := 0 to blockRows
        invariant RowsFilled(whole[ci], ci, RowAt(f, ci, iMcuRow, blockRow))
      {
        RowsOfBlocks(f, ci, iMcuRow, blockRow);
        FillRow(ci, blockRow, false);
      }
      if iMcuRow == McusDown(f) - 1 {
        for blockRow := blockRows to v
          invariant RowsFilled(whole[ci], ci, RowAt(f, ci, iMcuRow, blockRow))
        {
          RowsOfBlocks(f, ci, iMcuRow, blockRow);
          FillRow(ci, blockRow, true);
        }
      }
      RowsLoaded(whole[ci], ci, iMcuRow + 1);
    }

    lemma LoadedRows(a: array2<Block>, ci: nat, n: nat)
      requires ValidFrame(f) && ci < |f.comps| && LoadedTo(a, ci, n) && n * f.comps[ci].v <= a.Length0
      ensures RowsFilled(a, ci, n * f.comps[ci].v)
    {
      hide Padded;
    }

    lemma RowsLoaded(a: array2<Block>, ci: nat, n: nat)
      requires ValidFrame(f) && ci < |f.comps| && n <= McusDown(f)
      requires PaddedSize(f, a, ci)
      requires RowsFilled(a, ci, n * f.comps[ci].v)
      ensures LoadedTo(a, ci, n)
    {
      hide Padded;
      forall row, col | 0 <= row < n * f.comps[ci].v && row < a.Length0 && 0 <= col < a.Length1
        ensures a[row, col] == Padded(f, src, ci, row, col)
      {
        assert RowFilled(a, ci, row);
      }
    }

    lemma LoadedLess(a: array2<Block>, ci: nat, n: nat, m: nat)
      requires ValidFrame(f) && ci < |f.comps| && LoadedTo(a, ci, n) && m <= n
      ensures LoadedTo(a, ci, m)
    {
      hide Padded;
      MulMonotone(m, n, f.comps[ci].v);
    }

    // The strip of the arrays for the current iMCU row.
    method LoadStrip()
      requires Arrays() && src == Transformed(f, dct) && iMcuRow < McusDown(f) && iMcuRow <= loaded <= iMcuRow + 1
      modifies this`loaded, set c | 0 <= c < |whole| :: whole[c]
      ensures Arrays() && loaded == iMcuRow + 1
    {
      hide Padded, CeilDiv, LoadedTo;
      for ci := 0 to |f.comps|
        invariant iMcuRow <= loaded == old(loaded)
        invariant forall c :: 0 <= c < |whole| ==> LoadedTo(whole[c], c, if c < ci then iMcuRow + 1 else loaded)
      {
        LoadedLess(whole[ci], ci, loaded, iMcuRow);
        label before:
        FillComponent(ci);
        forall c | 0 <= c < |whole|
          ensures LoadedTo(whole[c], c, if c < ci + 1 then iMcuRow + 1 else loaded)
        {
          if c != ci {
            assert whole[c] != whole[ci];
            assert old@before(LoadedTo(whole[c], c, if c < ci then iMcuRow + 1 else loaded));
          }
        }
      }
      loaded := iMcuRow + 1;
    }

    // ----- Calls and passes -----

    // Between two calls.
    ghost predicate Valid()
      reads this, entropy, mcuBuffer, dummyBuffer, whole
    {
      && Sized() && Counters() && Stocked() && Sending(RowBase(iMcuRow) + vertOffset, mcuCtr)
    }

    // The arrays that this pass fills.
    ghost function Written(): set<object>
      reads this`mode
    {
      if mode == SaveAndPass then set c | 0 <= c < |whole| :: whole[c] else {}
    }

    // compress_data, compress_first_pass or compress_output
    method Compress() returns (ok: bool)
      requires Valid() && iMcuRow < McusDown(f)
      modifies this`iMcuRow, this`mcuCtr, this`vertOffset, this`mcuRowsPerIMcuRow, this`loaded
      modifies mcuBuffer, dummyBuffer, entropy, Written()
      ensures Valid() && iMcuRow == if ok then old(iMcuRow) + 1 else old(iMcuRow)
      ensures entropy.Budget() == old(entropy.Budget()) && (!ok ==> entropy.room == 0)
    {
      hide Padded, BlocksInMcu, Fitting, RowsOf, RowBase, Sending, Arrays, Dummies, HoldsBlocks;
      if mode == SaveAndPass {
        LoadStrip();
      }
      ok := SendMcus();
    }

    // All calls of a pass, with as much room for the entropy coder's output as the schedule
    // says from one suspension to the next.
    method RunPass(schedule: seq<nat>)
      requires Valid() && entropy.room == 0
      modifies this`iMcuRow, this`mcuCtr, this`vertOffset, this`mcuRowsPerIMcuRow, this`loaded
      modifies mcuBuffer, dummyBuffer, entropy, Written()
      ensures Valid()
      ensures |entropy.sent| <= old(|entropy.sent|) + Total(schedule)
      ensures iMcuRow < McusDown(f) ==> |entropy.sent| == old(|entropy.sent|) + Total(schedule)
    {
      assert ValidFrame(f) && iMcuRow <= McusDown(f);
      assert Total(schedule[..0]) == 0;
      hide Valid;
      for j := 0 to |schedule|
        invariant Valid() && iMcuRow <= McusDown(f) && |entropy.sent| <= old(|entropy.sent|) + Total(schedule[..j])
        invariant iMcuRow < McusDown(f) ==>
          entropy.room == 0 && |entropy.sent| == old(|entropy.sent|) + Total(schedule[..j])
      {
        assert schedule[..j + 1][..j] == schedule[..j];
        if iMcuRow < McusDown(f) {
          SetRoom(schedule[j]);
          ghost var budget := entropy.Budget();
          var ok := true;
          while ok && iMcuRow < McusDown(f)
            invariant Valid() && iMcuRow <= McusDown(f) && entropy.Budget() == budget && (!ok ==> entropy.room == 0)
            decreases ok, McusDown(f) - iMcuRow
          {
            ok := Compress();
          }
        }
      }
      assert schedule[..|schedule|] == schedule;
    }

    method SetRoom(room: nat)
      requires Valid()
      modifies entropy`room
      ensures Valid() && entropy.room == room
    {
      hide Padded, BlocksInMcu, ValidSetup, RowsOf, RowBase, Sized, Counters, Stocked;
      entropy.room := room;
    }

    // When all iMCU rows are done, the whole stream has been sent.
    lemma Sent()
      requires Valid()
      ensures ValidSetup(f, setup)
      ensures iMcuRow == McusDown(f) ==>
        entropy.sent == before + Stream(f, src, setup, TotalRows() * setup.mcusPerRow)
      ensures iMcuRow < McusDown(f) ==> |entropy.sent| < |before| + TotalRows() * setup.mcusPerRow
    {
      hide Padded, BlocksInMcu, Stocked, Stream;
      if iMcuRow < McusDown(f) {
        BaseNext(iMcuRow);
        BaseBound(iMcuRow + 1);
        var row := RowBase(iMcuRow) + vertOffset;
        NextRow(row, setup.mcusPerRow);
        MulMonotone(row + 1, TotalRows(), setup.mcusPerRow);
      }
    }

    lemma BaseBound(k: nat)
      requires ValidSetup(f, setup) && k <= McusDown(f)
      ensures RowBase(k) <= TotalRows()
    {
      if Single() && k < McusDown(f) {
        assert Fitting(f, setup.comps[0], setup.mcusPerRow, true);
        MulMonotone(k, McusDown(f) - 1, f.comps[setup.comps[0].ci].v);
      }
    }

    // MCU rows of the scan.
    ghost function TotalRows(): nat
      requires ValidSetup(f, setup)
      reads this`setup
    {
      if Single() then HeightInBlocks(f, setup.comps[0].ci) else McusDown(f)
    }

    // start_pass for a later pass, in which another scan is output from the arrays.
    method StartLaterPass(next: ScanSetup)
      requires Valid() && mode in {SaveAndPass, CrankDest} && iMcuRow == McusDown(f) == loaded
      requires ValidSetup(f, next) && BlocksInMcu(next.comps, |next.comps|) <= MAX_BLOCKS_IN_MCU
      modifies this
      ensures Valid() && mode == CrankDest && setup == next && before == entropy.sent && iMcuRow == 0
    {
      hide Padded, BlocksInMcu, Fitting, Arrays;
      mode, setup, before, iMcuRow := CrankDest, next, entropy.sent, 0;
      StartIMcuRow();
      assert Stream(f, src, next, 0) == [];
    }

    lemma RowDone(yoffset: nat)
      requires Underway(yoffset, setup.mcusPerRow)
      ensures Underway(yoffset + 1, 0)
    {
      hide Supplied, BlocksInMcu, ValidSetup, RowsOf, RowBase;
      NextRow(RowBase(iMcuRow) + yoffset, setup.mcusPerRow);
    }

    lemma BaseNext(k: nat)
      requires ValidSetup(f, setup) && k < McusDown(f)
      ensures RowBase(k + 1) == RowBase(k) + RowsOf(k)
    {
      if Single() {
        assert Fitting(f, setup.comps[0], setup.mcusPerRow, true);
        assert (k + 1) * f.comps[setup.comps[0].ci].v
          == k * f.comps[setup.comps[0].ci].v + f.comps[setup.comps[0].ci].v;
      }
    }

    // One MCU to the entropy coder.
    method SendMcu(yoffset: nat, mcuCol: nat) returns (ok: bool)
      requires Underway(yoffset, mcuCol) && Here(yoffset, mcuCol)
      modifies mcuBuffer, dummyBuffer, entropy
      ensures Underway(yoffset, if ok then mcuCol + 1 else mcuCol)
      ensures entropy.Budget() == old(entropy.Budget()) && (!ok ==> entropy.room == 0)
    {
      hide Padded, Supplied, BlocksInMcu, RowsOf, RowBase, McuAt, Fitting;
      var blkn := BuildMcu(yoffset, mcuCol);
      StreamNext(f, src, setup, RowBase(iMcuRow) + yoffset, mcuCol);
      ok := entropy.EncodeMcu(mcuBuffer[..blkn]);
    }
  }

  lemma McuInside(mcu: nat, across: nat, h: nat)
    requires mcu < across
    ensures mcu * h + h <= across * h
  {
    RowRoom(mcu, across, h);
  }

  // All dummy blocks of an MCU in a row of them match the last block above.
  lemma {:induction false} DummyBelow(f: Frame, src: Source, ci: nat, k: nat, r: nat, mcu: nat, x: nat)
    requires ValidFrame(f) && ci < |f.comps| && k < McusDown(f) && mcu < McusAcross(f) && x < f.comps[ci].h
    requires 1 <= r < f.comps[ci].v && HeightInBlocks(f, ci) <= RowAt(f, ci, k, r)
    ensures var row, col := RowAt(f, ci, k, r), mcu * f.comps[ci].h;
      row > 0 && Padded(f, src, ci, row, col + x) == Dummy(Padded(f, src, ci, row - 1, col + f.comps[ci].h - 1)[0])
  {
    hide Padded, Dummy, CeilDiv;
    var i := Interleaved(f, ci);
    LastPartFills(WidthInBlocks(f, ci), f.comps[ci].h);
    LastPartFills(HeightInBlocks(f, ci), f.comps[ci].v);
    RowIsReal(f, i, McusAcross(f), false, k, 0, r, mcu);
    PaddingRepeats(f, src, i, McusAcross(f), false, k, 0, r, mcu, x);
    if x > 0 {
      DummyBelow(f, src, ci, k, r, mcu, x - 1);
      DummyAgain(Padded(f, src, ci, RowAt(f, ci, k, r) - 1, ColAt(i, mcu) + f.comps[ci].h - 1)[0]);
    }
  }

  lemma DummyAgain(dc: int)
    ensures Dummy(Dummy(dc)[0]) == Dummy(dc)
  {
  }

  // The rows of an iMCU row.
  lemma RowsOfArray(f: Frame, ci: nat, k: nat)
    requires ValidFrame(f) && ci < |f.comps| && k < McusDown(f)
    ensures RowAt(f, ci, k, 0) == k * f.comps[ci].v <= McusDown(f) * f.comps[ci].v
    ensures RowAt(f, ci, k, f.comps[ci].v) == (k + 1) * f.comps[ci].v <= McusDown(f) * f.comps[ci].v
  {
    MulMonotone(k + 1, McusDown(f), f.comps[ci].v);
    MulMonotone(k, McusDown(f), f.comps[ci].v);
  }

  // Which of them are real.
  lemma RowsOfBlocks(f: Frame, ci: nat, k: nat, r: nat)
    requires ValidFrame(f) && ci < |f.comps| && k < McusDown(f) && r < f.comps[ci].v
    ensures RowAt(f, ci, k, r) < McusDown(f) * f.comps[ci].v && RowAt(f, ci, k, r + 1) == RowAt(f, ci, k, r) + 1
    ensures RowAt(f, ci, k, r) < HeightInBlocks(f, ci) <==>
      k < McusDown(f) - 1 || r < (if HeightInBlocks(f, ci) % f.comps[ci].v == 0 then f.comps[ci].v
                                  else HeightInBlocks(f, ci) % f.comps[ci].v)
  {
    LastPartFills(HeightInBlocks(f, ci), f.comps[ci].v);
    RowsOfArray(f, ci, k);
    if k < McusDown(f) - 1 {
      MulMonotone(k + 1, McusDown(f) - 1, f.comps[ci].v);
    }
  }

  // Real and dummy blocks of a row fill its MCUs.
  lemma PaddingWidth(f: Frame, ci: nat)
    requires ValidFrame(f) && ci < |f.comps|
    ensures var w, h := WidthInBlocks(f, ci), f.comps[ci].h;
      w + (if w % h > 0 then h - w % h else 0) == McusAcross(f) * h
  {
    var w, h := WidthInBlocks(f, ci), f.comps[ci].h;
    LastPartFills(w, h);
    assert (McusAcross(f) - 1) * h == McusAcross(f) * h - h;
  }

  lemma NoComponents(f: Frame, src: Source, s: ScanSetup, mr: nat, mc: nat)
    requires ValidSetup(f, s)
    ensures McuBlocks(f, src, s, mr, mc, 0) == [] && BlocksInMcu(s.comps, 0) == 0
  {
  }

  lemma NextComponent(f: Frame, src: Source, s: ScanSetup, mr: nat, mc: nat, k: nat)
    requires ValidSetup(f, s) && k < |s.comps|
    ensures ValidFrame(f) && s.comps[k].ci < |f.comps|
    ensures McuBlocks(f, src, s, mr, mc, k + 1)
         == McuBlocks(f, src, s, mr, mc, k) + ComponentInMcu(f, src, s, mr, mc, k, s.comps[k].mcuHeight)
  {
    hide ComponentInMcu;
    assert Fitting(f, s.comps[k], s.mcusPerRow, |s.comps| == 1);
  }

  lemma {:induction false} BlocksMonotone(comps: seq<CompInfo>, k: nat, n: nat)
    requires k <= n <= |comps|
    ensures BlocksInMcu(comps, k) <= BlocksInMcu(comps, n)
  {
    if k < n {
      BlocksMonotone(comps, k, n - 1);
    }
  }

  lemma RowRoom(y: nat, h: nat, w: nat)
    requires y < h
    ensures y * w + w == (y + 1) * w <= h * w
  {
    MulMonotone(y + 1, h, w);
  }

  lemma NoRows(f: Frame, src: Source, i: CompInfo, row: nat, col: nat)
    requires ValidFrame(f) && i.ci < |f.comps|
    ensures CompBlocks(f, src, i, row, col, 0) == []
  {
  }

  // The block that the next row follows.
  lemma LastOfRows(f: Frame, src: Source, i: CompInfo, row: nat, col: nat, n: nat)
    requires ValidFrame(f) && i.ci < |f.comps| && i.mcuWidth > 0
    ensures var m := CompBlocks(f, src, i, row, col, n);
      n > 0 ==> |m| > 0 && m[|m| - 1] == Padded(f, src, i.ci, row + n - 1, col + i.mcuWidth - 1)
  {
    hide Padded;
  }

  // The array has room for the padded component.
  lemma InsideArray(f: Frame, i: CompInfo, perRow: nat, single: bool, k: nat, r: nat, mc: nat)
    requires ValidFrame(f) && Fitting(f, i, perRow, single) && k < McusDown(f) && mc < perRow && r < f.comps[i.ci].v
    ensures k * f.comps[i.ci].v + r < (k + 1) * f.comps[i.ci].v <= McusDown(f) * f.comps[i.ci].v
    ensures ColAt(i, mc) + i.mcuWidth <= McusAcross(f) * f.comps[i.ci].h
  {
    var v, h := f.comps[i.ci].v, f.comps[i.ci].h;
    assert (k + 1) * v == k * v + v;
    MulMonotone(k + 1, McusDown(f), v);
    assert ColAt(i, mc + 1) == ColAt(i, mc) + i.mcuWidth;
    MulMonotone(mc + 1, perRow, i.mcuWidth);
    CeilDivBounds(WidthInBlocks(f, i.ci), h);
  }

  lemma InRowFacts(f: Frame, i: CompInfo, perRow: nat, single: bool, k: nat, offset: nat, y: nat, mc: nat)
    requires InRow(f, i, perRow, single, k, offset, y, mc)
    ensures ValidFrame(f) && i.ci < |f.comps| && i.mcuWidth >= 1 && Fitting(f, i, perRow, single) && mc < perRow
  {
  }

  lemma SamePrefix(a: seq<Block>, b: seq<Block>)
    requires a == b
    ensures |a| > 0 ==> a[|a| - 1] == b[|b| - 1]
  {
  }

  lemma PaddedInside(f: Frame, src: Source, ci: nat, row: nat, col: nat)
    requires ValidFrame(f) && ci < |f.comps| && row < HeightInBlocks(f, ci) && col < WidthInBlocks(f, ci)
    ensures Padded(f, src, ci, row, col) == src(ci, row, col)
  {
  }

  // Where the samples of a row of an MCU, and of its first column, are.
  function SampleRow(c: Component, offset: nat, y: nat): nat {
    offset * c.dctHeight + y * c.dctHeight
  }

  function SampleColumn(i: CompInfo, c: Component, mc: nat): nat {
    mc * (i.mcuWidth * c.dctWidth)
  }

  // The samples that the DCT of a real block gets are its own.
  lemma SamplesOfBlock(f: Frame, i: CompInfo, perRow: nat, single: bool, k: nat, offset: nat, y: nat, mc: nat, x: nat,
                       dct: Dct)
    requires InRow(f, i, perRow, single, k, offset, y, mc) && RealRow(f, i, k, offset + y)
    requires x < BlockCount(i, perRow, mc)
    ensures var c := f.comps[i.ci];
      Padded(f, Transformed(f, dct), i.ci, RowAt(f, i.ci, k, offset + y), ColAt(i, mc) + x)
      == dct(i.ci, k, SampleRow(c, offset, y), SampleColumn(i, c, mc) + x * c.dctWidth)
  {
    hide Dummy, CeilDiv, Padded;
    RowIsReal(f, i, perRow, single, k, offset, y, mc);
    ColumnIsReal(f, i, perRow, single, mc, if x < i.mcuWidth then x else 0);
    PaddedInside(f, Transformed(f, dct), i.ci, RowAt(f, i.ci, k, offset + y), ColAt(i, mc) + x);
    DivideExactly(k, f.comps[i.ci].v, offset + y);
    Distribute(offset, y, f.comps[i.ci].dctHeight);
    DistributeColumn(mc, i.mcuWidth, f.comps[i.ci].dctWidth, x);
  }

  lemma Distribute(a: nat, b: nat, d: nat)
    ensures (a + b) * d == a * d + b * d
  {
  }

  lemma DistributeColumn(mc: nat, w: nat, d: nat, x: nat)
    ensures (mc * w + x) * d == mc * (w * d) + x * d
  {
    Distribute(mc * w, x, d);
  }

  // Room for MCUs in all.
  function Total(schedule: seq<nat>): nat {
    if schedule == [] then 0 else Total(schedule[..|schedule| - 1]) + schedule[|schedule| - 1]
  }

  // The next MCU of a stream.
  lemma StreamNext(f: Frame, src: Source, s: ScanSetup, row: nat, col: nat)
    requires ValidSetup(f, s) && col < s.mcusPerRow
    ensures Stream(f, src, s, row * s.mcusPerRow + col + 1)
         == Stream(f, src, s, row * s.mcusPerRow + col) + [McuAt(f, src, s, row, col)]
  {
    DivideExactly(row, s.mcusPerRow, col);
  }

  lemma NextRow(row: nat, perRow: nat)
    ensures row * perRow + perRow == (row + 1) * perRow
  {
  }

  // ----- The three ways to send a scan -----

  // Scans that per_scan_setup accepts.
  ghost predicate Acceptable(f: Frame, cs: seq<nat>) {
    && ValidScan(f, cs) && BlocksInMcu(PerScanSetup(f, cs).comps, |cs|) <= MAX_BLOCKS_IN_MCU
  }

  // All MCUs of a scan.
  ghost function WholeScan(f: Frame, src: Source, cs: seq<nat>): seq<seq<Block>>
    requires ValidScan(f, cs)
  {
    SetupIsValid(f, cs);
    var s := PerScanSetup(f, cs);
    Stream(f, src, s, s.mcuRows * s.mcusPerRow)
  }

  lemma SetupIsValid(f: Frame, cs: seq<nat>)
    requires ValidScan(f, cs)
    ensures ValidSetup(f, PerScanSetup(f, cs))
  {
    hide Fitting;
    forall k | 0 <= k < |cs|
      ensures Fitting(f, PerScanSetup(f, cs).comps[k], PerScanSetup(f, cs).mcusPerRow, |cs| == 1)
    {
      SetupFits(f, cs, k);
    }
  }

  lemma SentAll(c: CoefController, cs: seq<nat>)
    requires c.Valid() && ValidScan(c.f, cs) && c.setup == PerScanSetup(c.f, cs)
    ensures ValidFrame(c.f) && c.iMcuRow <= McusDown(c.f)
    ensures |c.entropy.sent| >= |c.before| && c.entropy.sent[..|c.before|] == c.before
    ensures c.iMcuRow == McusDown(c.f) ==> c.entropy.sent == c.before + WholeScan(c.f, c.src, cs)
    ensures c.iMcuRow < McusDown(c.f) ==> |c.entropy.sent| < |c.before| + |WholeScan(c.f, c.src, cs)|
  {
    hide Stream, Padded, CoefController.Stocked;
    SetupIsValid(c.f, cs);
    c.Sent();
  }

  // Straight from the DCT.
  method SinglePass(f: Frame, cs: seq<nat>, dct: Dct, schedule: seq<nat>) returns (sent: seq<seq<Block>>, done: bool)
    requires Acceptable(f, cs)
    ensures done <==> Total(schedule) >= |WholeScan(f, Transformed(f, dct), cs)|
    ensures done ==> sent == WholeScan(f, Transformed(f, dct), cs)
  {
    hide CoefController.Valid, WholeScan, PerScanSetup, Transformed;
    SetupIsValid(f, cs);
    var coder := new EntropyCoder();
    var c := new CoefController(f, PassThrough, dct, coder, [], PerScanSetup(f, cs), Transformed(f, dct));
    assert c.Valid() by { FreshIsValid(c); }
    c.RunPass(schedule);
    SentAll(c, cs);
    sent, done := coder.sent, c.iMcuRow == McusDown(f);
  }

  lemma FreshIsValid(c: CoefController)
    requires c.Sized() && c.Counters() && c.Stocked() && c.iMcuRow == c.mcuCtr == c.vertOffset == 0
    requires c.Sending(c.RowBase(0), 0)
    ensures c.Valid()
  {
    hide CoefController.Counters, CoefController.Stocked, BlocksInMcu, Fitting;
  }

  // Through padded arrays: one scan while they are filled, another one after that.
  method MultiPass(f: Frame, first: seq<nat>, cs: seq<nat>, dct: Dct, schedule: seq<nat>, later: seq<nat>)
    returns (sent: seq<seq<Block>>, more: seq<seq<Block>>, filled: bool, done: bool)
    requires Acceptable(f, first) && Acceptable(f, cs)
    ensures filled <==> Total(schedule) >= |WholeScan(f, Transformed(f, dct), first)|
    ensures filled ==> sent == WholeScan(f, Transformed(f, dct), first)
    ensures done <==> filled && Total(later) >= |WholeScan(f, Transformed(f, dct), cs)|
    ensures done ==> more == WholeScan(f, Transformed(f, dct), cs)
  {
    hide CoefController.Valid, WholeScan, PerScanSetup, Transformed;
    SetupIsValid(f, first);
    SetupIsValid(f, cs);
    var coder := new EntropyCoder();
    var arrays := NewArrays(f);
    var c := new CoefController(f, SaveAndPass, dct, coder, arrays, PerScanSetup(f, first), Transformed(f, dct));
    NothingLoaded(c);
    FreshIsValid(c);
    c.RunPass(schedule);
    SentAll(c, first);
    sent, more, filled, done := coder.sent, [], c.iMcuRow == McusDown(f), false;
    if filled {
      AllLoaded(c);
      c.StartLaterPass(PerScanSetup(f, cs));
      c.SetRoom(0);
      c.RunPass(later);
      SentAll(c, cs);
      done := c.iMcuRow == McusDown(f);
      more := coder.sent[|sent|..];
    }
  }

  ghost predicate PaddedSize(f: Frame, a: array2<Block>, ci: nat)
    requires ValidFrame(f) && ci < |f.comps|
  {
    a.Length0 == McusDown(f) * f.comps[ci].v && a.Length1 == McusAcross(f) * f.comps[ci].h
  }

  method NewArrays(f: Frame) returns (arrays: seq<array2<Block>>)
    requires ValidFrame(f)
    ensures |arrays| == |f.comps|
    ensures forall c, d :: 0 <= c < d < |arrays| ==> arrays[c] != arrays[d]
    ensures forall c :: 0 <= c < |arrays| ==> fresh(arrays[c]) && PaddedSize(f, arrays[c], c)
  {
    arrays := [];
    for k := 0 to |f.comps|
      invariant |arrays| == k && forall c, d :: 0 <= c < d < k ==> arrays[c] != arrays[d]
      invariant forall c :: 0 <= c < k ==> fresh(arrays[c]) && PaddedSize(f, arrays[c], c)
    {
      var a := new Block[McusDown(f) * f.comps[k].v, McusAcross(f) * f.comps[k].h]((_, _) => Dummy(0));
      arrays := arrays + [a];
    }
  }

  lemma NothingLoaded(c: CoefController)
    requires ValidFrame(c.f) && |c.whole| == |c.f.comps| && c.loaded == 0
    requires forall i, j :: 0 <= i < j < |c.whole| ==> c.whole[i] != c.whole[j]
    requires forall i :: 0 <= i < |c.whole| ==> PaddedSize(c.f, c.whole[i], i)
    ensures c.Arrays()
  {
    hide Padded;
  }

  lemma AllLoaded(c: CoefController)
    requires c.Valid() && c.mode == SaveAndPass && c.iMcuRow == McusDown(c.f)
    ensures c.loaded == McusDown(c.f)
  {
    hide Padded, CoefController.Sending, CoefController.Counters;
  }

  // From coefficient arrays, padded on the fly.
  method Transcoding(f: Frame, cs: seq<nat>, arrays: seq<array2<Block>>, ghost src: Source, dct: Dct,
                     schedule: seq<nat>)
    returns (sent: seq<seq<Block>>, done: bool)
    requires Acceptable(f, cs) && |arrays| == |f.comps|
    requires forall c :: 0 <= c < |arrays| ==> HoldsBlocks(f, src, arrays[c], c)
    ensures done <==> Total(schedule) >= |WholeScan(f, src, cs)|
    ensures done ==> sent == WholeScan(f, src, cs)
  {
    hide CoefController.Valid, WholeScan, PerScanSetup, HoldsBlocks;
    SetupIsValid(f, cs);
    var coder := new EntropyCoder();
    var c := new CoefController(f, Transcode, dct, coder, arrays, PerScanSetup(f, cs), src);
    FreshIsValid(c);
    c.RunPass(schedule);
    SentAll(c, cs);
    sent, done := coder.sent, c.iMcuRow == McusDown(f);
  }

  // Main result: however the entropy coder suspends, the three controllers send the same MCUs,
  // padding included, and stop only for lack of room.
  method ThreeWays(f: Frame, cs: seq<nat>, dct: Dct, arrays: seq<array2<Block>>, first: seq<nat>,
                   schedules: seq<seq<nat>>)
    returns (one: seq<seq<Block>>, two: seq<seq<Block>>, three: seq<seq<Block>>, done: bool)
    requires Acceptable(f, cs) && Acceptable(f, first) && |schedules| == 4 && |arrays| == |f.comps|
    requires forall c :: 0 <= c < |arrays| ==> HoldsBlocks(f, Transformed(f, dct), arrays[c], c)
    ensures done ==> one == two == three == WholeScan(f, Transformed(f, dct), cs)
    ensures done <==>
      && Total(schedules[1]) >= |WholeScan(f, Transformed(f, dct), first)|
      && forall k :: k in {0, 2, 3} ==> Total(schedules[k]) >= |WholeScan(f, Transformed(f, dct), cs)|
  {
    hide WholeScan, Transformed, Total, HoldsBlocks;
    var a, b, c, filled, sent;
    one, a := SinglePass(f, cs, dct, schedules[0]);
    sent, two, filled, b := MultiPass(f, first, cs, dct, schedules[1], schedules[2]);
    three, c := Transcoding(f, cs, arrays, Transformed(f, dct), dct, schedules[3]);
    done := a && b && c;
  }
}
