// The path that a scan takes through the blocks of a frame: every block of every component
// of the scan once, in the order in which the controllers send them.

module FramePaths {
  import opened CodeBits
  import opened FrameGeometry
  import opened ScanScript
  import opened ArithmeticBlock
  import opened ProgressiveRun
  import opened CoefControllers

  // ----- Places of an MCU -----

  function RowPlaces(ci: nat, row: nat, col: nat, w: nat): (r: seq<Place>)
    ensures |r| == w && forall x :: 0 <= x < w ==> r[x] == Place(ci, row, col + x)
  {
    seq(w, x requires 0 <= x < w => Place(ci, row, col + x))
  }

  // The first n rows of a component.
  function ComponentPlaces(i: CompInfo, row: nat, col: nat, n: nat): (r: seq<Place>)
    ensures |r| == n * i.mcuWidth
  {
    if n == 0 then [] else ComponentPlaces(i, row, col, n - 1) + RowPlaces(i.ci, row + n - 1, col, i.mcuWidth)
  }

  function FirstRow(i: CompInfo, mr: nat): nat {
    mr * i.mcuHeight
  }

  // The first k components of the MCU in row mr and column mc.
  function McuPlaces(s: ScanSetup, mr: nat, mc: nat, k: nat): (r: seq<Place>)
    requires k <= |s.comps|
    ensures |r| == BlocksInMcu(s.comps, k)
  {
    if k == 0 then []
    else
      var i := s.comps[k - 1];
      McuPlaces(s, mr, mc, k - 1) + ComponentPlaces(i, FirstRow(i, mr), ColAt(i, mc), i.mcuHeight)
  }

  // MCU_membership: the component of each block of an MCU.
  function Members(s: ScanSetup, k: nat): (r: seq<nat>)
    requires k <= |s.comps|
    ensures |r| == BlocksInMcu(s.comps, k)
    ensures forall j :: 0 <= j < |r| ==> r[j] < k
  {
    if k == 0 then []
    else Members(s, k - 1) + seq(s.comps[k - 1].mcuHeight * s.comps[k - 1].mcuWidth, _ => k - 1)
  }

  // The place lies in the part of component i that belongs to an MCU.
  predicate InMcu(i: CompInfo, mr: nat, mc: nat, pl: Place) {
    && pl.ci == i.ci
    && FirstRow(i, mr) <= pl.row < FirstRow(i, mr) + i.mcuHeight
    && ColAt(i, mc) <= pl.col < ColAt(i, mc) + i.mcuWidth
  }

  lemma {:induction false} ComponentPlacesAre(i: CompInfo, row: nat, col: nat, n: nat, pl: Place)
    ensures pl in ComponentPlaces(i, row, col, n) <==>
      pl.ci == i.ci && row <= pl.row < row + n && col <= pl.col < col + i.mcuWidth
  {
    if n > 0 {
      ComponentPlacesAre(i, row, col, n - 1, pl);
      var last := RowPlaces(i.ci, row + n - 1, col, i.mcuWidth);
      if pl.ci == i.ci && pl.row == row + n - 1 && col <= pl.col < col + i.mcuWidth {
        assert last[pl.col - col] == pl;
      }
    }
  }

  lemma {:induction false} ComponentPlacesDistinct(i: CompInfo, row: nat, col: nat, n: nat)
    ensures Distinct(ComponentPlaces(i, row, col, n))
  {
    if n > 0 {
      ComponentPlacesDistinct(i, row, col, n - 1);
      var front, last := ComponentPlaces(i, row, col, n - 1), RowPlaces(i.ci, row + n - 1, col, i.mcuWidth);
      forall p, q | 0 <= p < |front| && 0 <= q < |last|
        ensures front[p] != last[q]
      {
        ComponentPlacesAre(i, row, col, n - 1, front[p]);
      }
      DistinctAppend(front, last);
    }
  }

  lemma DistinctAppend(a: seq<Place>, b: seq<Place>)
    requires Distinct(a) && Distinct(b)
    requires forall p, q :: 0 <= p < |a| && 0 <= q < |b| ==> a[p] != b[q]
    ensures Distinct(a + b)
  {
  }

  // Which component a place of an MCU belongs to.
  lemma {:induction false} McuPlaceOf(s: ScanSetup, mr: nat, mc: nat, k: nat, pl: Place) returns (j: nat)
    requires k <= |s.comps| && pl in McuPlaces(s, mr, mc, k)
    ensures j < k && InMcu(s.comps[j], mr, mc, pl)
  {
    var i := s.comps[k - 1];
    ComponentPlacesAre(i, FirstRow(i, mr), ColAt(i, mc), i.mcuHeight, pl);
    if pl in McuPlaces(s, mr, mc, k - 1) {
      j := McuPlaceOf(s, mr, mc, k - 1, pl);
    } else {
      j := k - 1;
    }
  }

  lemma {:induction false} McuHasPlace(s: ScanSetup, mr: nat, mc: nat, k: nat, j: nat, pl: Place)
    requires j < k <= |s.comps| && InMcu(s.comps[j], mr, mc, pl)
    ensures pl in McuPlaces(s, mr, mc, k)
  {
    var i := s.comps[k - 1];
    ComponentPlacesAre(i, FirstRow(i, mr), ColAt(i, mc), i.mcuHeight, pl);
    if j < k - 1 {
      McuHasPlace(s, mr, mc, k - 1, j, pl);
    }
  }

  ghost predicate DistinctComponents(s: ScanSetup) {
    forall j, k :: 0 <= j < k < |s.comps| ==> s.comps[j].ci != s.comps[k].ci
  }

  lemma {:induction false} McuPlacesDistinct(s: ScanSetup, mr: nat, mc: nat, k: nat)
    requires k <= |s.comps| && DistinctComponents(s)
    ensures Distinct(McuPlaces(s, mr, mc, k))
  {
    if k > 0 {
      McuPlacesDistinct(s, mr, mc, k - 1);
      var i := s.comps[k - 1];
      ComponentPlacesDistinct(i, FirstRow(i, mr), ColAt(i, mc), i.mcuHeight);
      var front, last := McuPlaces(s, mr, mc, k - 1), ComponentPlaces(i, FirstRow(i, mr), ColAt(i, mc), i.mcuHeight);
      forall p, q | 0 <= p < |front| && 0 <= q < |last|
        ensures front[p] != last[q]
      {
        var j := McuPlaceOf(s, mr, mc, k - 1, front[p]);
        ComponentPlacesAre(i, FirstRow(i, mr), ColAt(i, mc), i.mcuHeight, last[q]);
      }
      DistinctAppend(front, last);
    }
  }

  // Block b of an MCU belongs to the component that the membership list names.
  lemma {:induction false} MembersAre(s: ScanSetup, mr: nat, mc: nat, k: nat, b: nat)
    requires k <= |s.comps| && b < BlocksInMcu(s.comps, k)
    ensures McuPlaces(s, mr, mc, k)[b].ci == s.comps[Members(s, k)[b]].ci
  {
    var n := BlocksInMcu(s.comps, k - 1);
    if b < n {
      MembersAre(s, mr, mc, k - 1, b);
    } else {
      var i := s.comps[k - 1];
      var last := ComponentPlaces(i, FirstRow(i, mr), ColAt(i, mc), i.mcuHeight);
      ComponentPlacesAre(i, FirstRow(i, mr), ColAt(i, mc), i.mcuHeight, last[b - n]);
    }
  }

  // ----- The blocks that the controllers send are those at the places of the path -----

  lemma {:induction false} ComponentBlocksAt(f: Frame, src: Source, i: CompInfo, row: nat, col: nat, n: nat, b: nat)
    requires ValidFrame(f) && i.ci < |f.comps| && b < n * i.mcuWidth
    ensures var pl := ComponentPlaces(i, row, col, n)[b];
      pl.ci == i.ci && CompBlocks(f, src, i, row, col, n)[b] == Padded(f, src, pl.ci, pl.row, pl.col)
  {
    hide Padded;
    assert n * i.mcuWidth == (n - 1) * i.mcuWidth + i.mcuWidth;
    if b < (n - 1) * i.mcuWidth {
      ComponentBlocksAt(f, src, i, row, col, n - 1, b);
    }
  }

  lemma {:induction false} McuBlocksAt(f: Frame, src: Source, s: ScanSetup, mr: nat, mc: nat, k: nat, b: nat)
    requires ValidSetup(f, s) && k <= |s.comps| && b < BlocksInMcu(s.comps, k)
    ensures var pl := McuPlaces(s, mr, mc, k)[b];
      pl.ci < |f.comps| && McuBlocks(f, src, s, mr, mc, k)[b] == Padded(f, src, pl.ci, pl.row, pl.col)
  {
    hide Padded, Fitting, CompBlocks, ComponentPlaces, HeightInBlocks, WidthInBlocks, FirstRow, ColAt;
    var n, i := BlocksInMcu(s.comps, k - 1), s.comps[k - 1];
    InFrame(f, s, k - 1);
    var blocks, places := McuBlocks(f, src, s, mr, mc, k - 1), McuPlaces(s, mr, mc, k - 1);
    var more := ComponentInMcu(f, src, s, mr, mc, k - 1, i.mcuHeight);
    var last := ComponentPlaces(i, FirstRow(i, mr), ColAt(i, mc), i.mcuHeight);
    assert McuBlocks(f, src, s, mr, mc, k) == blocks + more && McuPlaces(s, mr, mc, k) == places + last;
    if b < n {
      McuBlocksAt(f, src, s, mr, mc, k - 1, b);
    } else {
      LastComponent(f, src, s, mr, mc, k - 1);
      ComponentBlocksAt(f, src, i, FirstRow(i, mr), ColAt(i, mc), i.mcuHeight, b - n);
    }
  }

  lemma InFrame(f: Frame, s: ScanSetup, k: nat)
    requires ValidSetup(f, s) && k < |s.comps|
    ensures ValidFrame(f) && s.comps[k].ci < |f.comps|
  {
    assert Fitting(f, s.comps[k], s.mcusPerRow, |s.comps| == 1);
  }

  lemma LastComponent(f: Frame, src: Source, s: ScanSetup, mr: nat, mc: nat, k: nat)
    requires ValidSetup(f, s) && k < |s.comps|
    ensures ValidFrame(f) && s.comps[k].ci < |f.comps|
    ensures ComponentInMcu(f, src, s, mr, mc, k, s.comps[k].mcuHeight) ==
      CompBlocks(f, src, s.comps[k], FirstRow(s.comps[k], mr), ColAt(s.comps[k], mc), s.comps[k].mcuHeight)
  {
    hide CompBlocks;
    InFrame(f, s, k);
  }

  // ----- Scans -----

  // The places of all MCUs, row by row.
  function Visits(s: ScanSetup, n: nat): (r: seq<seq<Place>>)
    requires s.mcusPerRow >= 1
    ensures |r| == n
    ensures forall k :: 0 <= k < n ==> r[k] == McuPlaces(s, k / s.mcusPerRow, k % s.mcusPerRow, |s.comps|)
  {
    seq(n, k requires 0 <= k < n => McuPlaces(s, k / s.mcusPerRow, k % s.mcusPerRow, |s.comps|))
  }

  // No place is in two MCUs.
  lemma OneMcu(s: ScanSetup, j: nat, k: nat, pl: Place)
    requires s.mcusPerRow >= 1 && DistinctComponents(s)
    requires pl in McuPlaces(s, j / s.mcusPerRow, j % s.mcusPerRow, |s.comps|)
    requires pl in McuPlaces(s, k / s.mcusPerRow, k % s.mcusPerRow, |s.comps|)
    ensures j == k
  {
    hide McuPlaces;
    var n := s.mcusPerRow;
    var p := McuPlaceOf(s, j / n, j % n, |s.comps|, pl);
    var q := McuPlaceOf(s, k / n, k % n, |s.comps|, pl);
    assert p == q;
    SameGroup(j / n, k / n, s.comps[p].mcuHeight, pl.row);
    SameGroup(j % n, k % n, s.comps[p].mcuWidth, pl.col);
    SameIndex(j, k, n);
  }

  lemma SameGroup(a: nat, b: nat, h: nat, x: nat)
    requires a * h <= x < a * h + h && b * h <= x < b * h + h
    ensures a == b
  {
    DivideExactly(a, h, x - a * h);
    DivideExactly(b, h, x - b * h);
  }

  lemma SameIndex(j: nat, k: nat, n: nat)
    requires n > 0 && j / n == k / n && j % n == k % n
    ensures j == k
  {
    assert j == j / n * n + j % n && k == k / n * n + k % n;
  }

  lemma {:induction false} SeenIs(mcus: seq<seq<Place>>, n: nat, pl: Place) returns (k: nat)
    requires n <= |mcus| && pl in Seen(mcus, n)
    ensures k < n && pl in mcus[k]
  {
    if pl in mcus[n - 1] {
      k := n - 1;
    } else {
      k := SeenIs(mcus, n - 1, pl);
    }
  }

  lemma {:induction false} IsSeen(mcus: seq<seq<Place>>, n: nat, k: nat, pl: Place)
    requires k < n <= |mcus| && pl in mcus[k]
    ensures pl in Seen(mcus, n)
  {
    if k < n - 1 {
      IsSeen(mcus, n - 1, k, pl);
    }
  }

  // The real blocks of a component.
  ghost predicate RealPlace(f: Frame, pl: Place)
    requires ValidFrame(f)
  {
    pl.ci < |f.comps| && pl.row < HeightInBlocks(f, pl.ci) && pl.col < WidthInBlocks(f, pl.ci)
  }

  // The MCU of a real block.
  lemma RealIsVisited(f: Frame, cs: seq<nat>, c: nat, pl: Place) returns (n: nat)
    requires ValidScan(f, cs) && c < |cs| && RealPlace(f, pl) && pl.ci == cs[c]
    ensures var s := PerScanSetup(f, cs);
      n < s.mcuRows * s.mcusPerRow && pl in McuPlaces(s, n / s.mcusPerRow, n % s.mcusPerRow, |s.comps|)
  {
    hide WidthInBlocks, HeightInBlocks, McuPlaces, PerScanSetup;
    var s: ScanSetup := PerScanSetup(f, cs);
    var i := s.comps[c];
    McuOfBlock(f, cs, c);
    hide InMcu;
    var perRow := s.mcusPerRow;
    var mr, mc := GroupOf(i, s.mcuRows, perRow, HeightInBlocks(f, pl.ci), WidthInBlocks(f, pl.ci), pl);
    IndexInside(mr, s.mcuRows, perRow, mc);
    n := mr * perRow + mc;
    McuHasPlace(s, mr, mc, |s.comps|, c, pl);
  }

  lemma GroupOf(i: CompInfo, rows: nat, perRow: nat, height: nat, width: nat, pl: Place) returns (mr: nat, mc: nat)
    requires i.mcuHeight >= 1 && i.mcuWidth >= 1 && pl.ci == i.ci
    requires pl.row < height <= rows * i.mcuHeight && pl.col < width <= perRow * i.mcuWidth
    ensures mr < rows && mc < perRow && InMcu(i, mr, mc, pl)
  {
    mr, mc := pl.row / i.mcuHeight, pl.col / i.mcuWidth;
    QuotientInside(pl.row, i.mcuHeight, rows, height);
    QuotientInside(pl.col, i.mcuWidth, perRow, width);
  }

  lemma IndexInside(mr: nat, rows: nat, perRow: nat, mc: nat)
    requires mr < rows && mc < perRow
    ensures mr * perRow + mc < rows * perRow
    ensures (mr * perRow + mc) / perRow == mr && (mr * perRow + mc) % perRow == mc
  {
    DivideExactly(mr, perRow, mc);
    MulMonotone(mr + 1, rows, perRow);
  }

  // As many MCUs as it takes to hold all blocks.
  lemma McuOfBlock(f: Frame, cs: seq<nat>, c: nat)
    requires ValidScan(f, cs) && c < |cs|
    ensures var s := PerScanSetup(f, cs); var i := s.comps[c];
      && i.ci == cs[c] && i.mcuHeight >= 1 && i.mcuWidth >= 1
      && HeightInBlocks(f, cs[c]) <= s.mcuRows * i.mcuHeight && WidthInBlocks(f, cs[c]) <= s.mcusPerRow * i.mcuWidth
  {
    CeilDivBounds(HeightInBlocks(f, cs[c]), f.comps[cs[c]].v);
    CeilDivBounds(WidthInBlocks(f, cs[c]), f.comps[cs[c]].h);
  }

  lemma QuotientInside(x: nat, k: nat, n: nat, size: nat)
    requires k > 0 && x < size <= n * k
    ensures x / k < n && x / k * k <= x < x / k * k + k
  {
    var q := x / k;
    assert x == q * k + x % k;
    if q >= n {
      MulMonotone(n, q, k);
    }
  }

  // The components of a scan of an accepted script.
  ghost function ComponentsOf(f: Frame, info: ScanInfo): (cs: seq<nat>)
    requires ValidFrame(f) && ComponentsOk(|f.comps|, info)
    ensures |cs| == |info.comps| && forall j :: 0 <= j < |cs| ==> cs[j] == info.comps[j]
    ensures ValidScan(f, cs)
  {
    PlanNeeds(|f.comps|, info);
    seq(|info.comps|, j requires 0 <= j < |info.comps| => info.comps[j])
  }

  ghost function PathOf(f: Frame, info: ScanInfo, interval: nat): ScanPath
    requires ValidFrame(f) && ComponentsOk(|f.comps|, info)
  {
    var s := PerScanSetup(f, ComponentsOf(f, info));
    ScanPath(Members(s, |s.comps|), Visits(s, s.mcuRows * s.mcusPerRow), interval)
  }

  // An image of a frame: all blocks and the padding around them; the real ones are shown.
  ghost predicate ImageOf(f: Frame, source: Image, shown: set<Place>) {
    && ValidFrame(f)
    && (forall pl :: pl in source <==> PaddedPlace(f, pl))
    && (forall pl :: pl in shown <==> RealPlace(f, pl))
    && forall pl :: pl in source ==> CoefsFit(source[pl])
  }

  ghost predicate PaddedPlace(f: Frame, pl: Place)
    requires ValidFrame(f)
  {
    pl.ci < |f.comps| && pl.row < McusDown(f) * f.comps[pl.ci].v && pl.col < McusAcross(f) * f.comps[pl.ci].h
  }

  lemma RealIsPadded(f: Frame, pl: Place)
    requires ValidFrame(f) && RealPlace(f, pl)
    ensures PaddedPlace(f, pl)
  {
    CeilDivBounds(HeightInBlocks(f, pl.ci), f.comps[pl.ci].v);
    CeilDivBounds(WidthInBlocks(f, pl.ci), f.comps[pl.ci].h);
  }

  // What a scan visits is there; a scan of one component keeps to its real blocks.
  lemma VisitedIsThere(f: Frame, cs: seq<nat>, n: nat, pl: Place)
    requires ValidScan(f, cs)
    requires var s := PerScanSetup(f, cs);
      n < s.mcuRows * s.mcusPerRow && pl in McuPlaces(s, n / s.mcusPerRow, n % s.mcusPerRow, |s.comps|)
    ensures if |cs| == 1 then RealPlace(f, pl) else PaddedPlace(f, pl)
  {
    hide McuPlaces, CeilDiv;
    var s := PerScanSetup(f, cs);
    var p := s.mcusPerRow;
    var j := McuPlaceOf(s, n / p, n % p, |s.comps|, pl);
    SetupFits(f, cs, j);
    RowInside(n, s.mcuRows, p);
    MulMonotone(n / p + 1, s.mcuRows, s.comps[j].mcuHeight);
    MulMonotone(n % p + 1, p, s.comps[j].mcuWidth);
    NextMultiple(n / p, s.comps[j].mcuHeight);
    NextMultiple(n % p, s.comps[j].mcuWidth);
  }

  lemma NextMultiple(a: nat, h: nat)
    ensures (a + 1) * h == a * h + h
  {
  }

  lemma RowInside(n: nat, rows: nat, perRow: nat)
    requires perRow > 0 && n < rows * perRow
    ensures n / perRow < rows && n % perRow < perRow
  {
    QuotientInside(n, perRow, rows, rows * perRow);
  }

  // The MCUs of the path are as a progressive run needs them.
  lemma VisitsAreOk(f: Frame, info: ScanInfo, interval: nat, source: Image, shown: set<Place>, k: nat)
    requires ImageOf(f, source, shown) && ComponentsOk(|f.comps|, info) && RangesOk(info)
    requires k < |PathOf(f, info, interval).mcus|
    ensures McuOk(info, PathOf(f, info, interval), source, shown, k)
  {
    hide McuPlaces, Members, PerScanSetup, ImageOf, PaddedPlace, RealPlace, Seen, Distinct;
    var cs, path := ComponentsOf(f, info), PathOf(f, info, interval);
    var s, places := PerScanSetup(f, cs), path.mcus[k];
    var p := s.mcusPerRow;
    ComponentsDiffer(f, info);
    McuPlacesDistinct(s, k / p, k % p, |s.comps|);
    forall j | 0 <= j < |places|
      ensures places[j] in source && (info.ss > 0 ==> places[j] in shown)
      ensures places[j].ci == info.comps[path.members[j]] && places[j] !in Seen(path.mcus, k)
    {
      VisitedIsThere(f, cs, k, places[j]);
      PlaceInImage(f, source, shown, places[j]);
      MembersAre(s, k / p, k % p, |s.comps|, j);
      SetupOf(f, cs, path.members[j]);
      if places[j] in Seen(path.mcus, k) {
        var m := SeenIs(path.mcus, k, places[j]);
        OneMcu(s, m, k, places[j]);
      }
    }
  }

  lemma PlaceInImage(f: Frame, source: Image, shown: set<Place>, pl: Place)
    requires ImageOf(f, source, shown)
    ensures RealPlace(f, pl) ==> pl in shown && pl in source
    ensures PaddedPlace(f, pl) ==> pl in source
  {
    hide RealPlace, PaddedPlace;
    if RealPlace(f, pl) {
      RealIsPadded(f, pl);
    }
  }

  lemma SetupOf(f: Frame, cs: seq<nat>, j: nat)
    requires ValidScan(f, cs) && j < |cs|
    ensures PerScanSetup(f, cs).comps[j].ci == cs[j]
  {
  }

  lemma ComponentsDiffer(f: Frame, info: ScanInfo)
    requires ValidFrame(f) && ComponentsOk(|f.comps|, info)
    ensures DistinctComponents(PerScanSetup(f, ComponentsOf(f, info)))
  {
    var cs := ComponentsOf(f, info);
    forall j, k | 0 <= j < k < |cs|
      ensures PerScanSetup(f, cs).comps[j].ci != PerScanSetup(f, cs).comps[k].ci
    {
      SetupOf(f, cs, j);
      SetupOf(f, cs, k);
      Increasing(|f.comps|, info, j, k);
    }
  }

  lemma PathIsOk(f: Frame, info: ScanInfo, interval: nat, source: Image, shown: set<Place>)
    requires ImageOf(f, source, shown) && ComponentsOk(|f.comps|, info) && RangesOk(info)
    ensures PathOk(info, PathOf(f, info, interval), source, shown)
  {
    assert ValidFrame(f);
    hide McuPlaces, McuOk, RealPlace, Seen, ImageOf, PerScanSetup, InScan;
    var cs, path := ComponentsOf(f, info), PathOf(f, info, interval);
    SetupLength(f, cs);
    forall k | 0 <= k < |path.mcus|
      ensures McuOk(info, path, source, shown, k)
    {
      VisitsAreOk(f, info, interval, source, shown, k);
    }
    forall pl | pl in shown && InScan(info, pl.ci)
      ensures pl in Seen(path.mcus, |path.mcus|)
    {
      ShownIsSeen(f, info, interval, source, shown, pl);
    }
    if info.ss > 0 {
      OneBlock(f, cs);
    }
  }

  lemma ShownIsSeen(f: Frame, info: ScanInfo, interval: nat, source: Image, shown: set<Place>, pl: Place)
    requires ImageOf(f, source, shown) && ComponentsOk(|f.comps|, info) && pl in shown && InScan(info, pl.ci)
    ensures var mcus := PathOf(f, info, interval).mcus; pl in Seen(mcus, |mcus|)
  {
    assert ValidFrame(f);
    hide McuPlaces, RealPlace, Seen, ImageOf, PerScanSetup, ComponentsOk;
    var cs, mcus := ComponentsOf(f, info), PathOf(f, info, interval).mcus;
    var c :| 0 <= c < |info.comps| && info.comps[c] == pl.ci;
    ShownIsReal(f, source, shown, pl);
    var n := RealIsVisited(f, cs, c, pl);
    IsSeen(mcus, |mcus|, n, pl);
  }

  lemma ShownIsReal(f: Frame, source: Image, shown: set<Place>, pl: Place)
    requires ImageOf(f, source, shown) && pl in shown
    ensures RealPlace(f, pl)
  {
    hide RealPlace, PaddedPlace;
  }

  lemma OneBlock(f: Frame, cs: seq<nat>)
    requires ValidScan(f, cs) && |cs| == 1
    ensures BlocksInMcu(PerScanSetup(f, cs).comps, 1) == 1
  {
    hide WidthInBlocks, HeightInBlocks;
    var comps := PerScanSetup(f, cs).comps;
    assert BlocksInMcu(comps, 0) == 0;
  }

  // Main result: a frame, tables for its components, and any script that is accepted for it
  // make a progressive run, whatever the coefficients and the restart intervals.
  lemma FrameRunIsValid(f: Frame, t: Tables, script: seq<ScanInfo>, intervals: seq<nat>, source: Image,
                        shown: set<Place>)
    returns (r: Run)
    requires ImageOf(f, source, shown) && ValidTables(|f.comps|, t)
    requires ValidScript(|f.comps|, script) && IsProgressive(script) && |intervals| == |script|
    ensures ValidRun(r) && r.n == |f.comps| && r.t == t && r.script == script && r.source == source && r.shown == shown
    ensures forall i :: 0 <= i < |script| ==>
      ComponentsOk(|f.comps|, script[i]) && r.paths[i] == PathOf(f, script[i], intervals[i])
  {
    hide ValidTables, ValidScript, PathOf, PathOk, RealPlace, PaddedPlace;
    forall i | 0 <= i < |script|
      ensures ComponentsOk(|f.comps|, script[i]) && RangesOk(script[i])
    {
      AcceptedScansAreExpected(|f.comps|, script, i);
    }
    var paths := seq(|script|, i requires 0 <= i < |script| => PathOf(f, script[i], intervals[i]));
    forall i | 0 <= i < |script|
      ensures PathOk(script[i], paths[i], source, shown)
    {
      PathIsOk(f, script[i], intervals[i], source, shown);
    }
    forall pl | pl in shown
      ensures pl in source
    {
      ShownIsReal(f, source, shown, pl);
      RealIsPadded(f, pl);
    }
    forall pl | pl in source
      ensures pl.ci < |f.comps|
    {
      InPadded(f, source, shown, pl);
    }
    r := Run(|f.comps|, t, script, paths, source, shown);
  }

  lemma InPadded(f: Frame, source: Image, shown: set<Place>, pl: Place)
    requires ImageOf(f, source, shown) && pl in source
    ensures pl.ci < |f.comps|
  {
    hide RealPlace;
  }

  // The coefficient controllers send the run's MCUs.
  lemma ControllersSendThem(f: Frame, src: Source, info: ScanInfo, interval: nat, source: Image, shown: set<Place>)
    requires ImageOf(f, source, shown) && ComponentsOk(|f.comps|, info) && RangesOk(info)
    requires forall pl :: pl in source ==> pl.ci < |f.comps| && source[pl] == Padded(f, src, pl.ci, pl.row, pl.col)
    ensures forall k :: 0 <= k < |PathOf(f, info, interval).mcus| ==> Inside(source, PathOf(f, info, interval).mcus[k])
    ensures WholeScan(f, src, ComponentsOf(f, info)) == SourceMcus(source, PathOf(f, info, interval).mcus)
  {
    assert ValidFrame(f);
    hide PerScanSetup, Padded, Stream, ImageOf, PathOf, NthMcu, Visits;
    var cs, mcus := ComponentsOf(f, info), PathOf(f, info, interval).mcus;
    var s := PerScanSetup(f, cs);
    SetupIsValid(f, cs);
    PathLength(f, info, interval);
    forall k | 0 <= k < |mcus|
      ensures Inside(source, mcus[k])
    {
      VisitsAreOk(f, info, interval, source, shown, k);
    }
    forall k | 0 <= k < |mcus|
      ensures WholeScan(f, src, cs)[k] == McuOf(source, mcus[k])
    {
      SameMcu(f, src, info, interval, source, k);
      StreamAt(f, src, s, |mcus|, k);
    }
  }

  lemma PathLength(f: Frame, info: ScanInfo, interval: nat)
    requires ValidFrame(f) && ComponentsOk(|f.comps|, info)
    ensures var s := PerScanSetup(f, ComponentsOf(f, info));
      |PathOf(f, info, interval).mcus| == s.mcuRows * s.mcusPerRow
  {
    hide PerScanSetup;
  }

  lemma SameMcu(f: Frame, src: Source, info: ScanInfo, interval: nat, source: Image, k: nat)
    requires ValidFrame(f) && ComponentsOk(|f.comps|, info) && ValidSetup(f, PerScanSetup(f, ComponentsOf(f, info)))
    requires forall pl :: pl in source ==> pl.ci < |f.comps| && source[pl] == Padded(f, src, pl.ci, pl.row, pl.col)
    requires k < |PathOf(f, info, interval).mcus| && Inside(source, PathOf(f, info, interval).mcus[k])
    ensures NthMcu(f, src, PerScanSetup(f, ComponentsOf(f, info)), k)
      == McuOf(source, PathOf(f, info, interval).mcus[k])
  {
    hide PerScanSetup, Padded, McuPlaces, McuBlocks, ValidSetup, ComponentsOk;
    var s := PerScanSetup(f, ComponentsOf(f, info));
    SetupLength(f, ComponentsOf(f, info));
    var mr, mc := k / s.mcusPerRow, k % s.mcusPerRow;
    var places := McuPlaces(s, mr, mc, |s.comps|);
    forall b | 0 <= b < |places|
      ensures McuBlocks(f, src, s, mr, mc, |s.comps|)[b] == source[places[b]]
    {
      McuBlocksAt(f, src, s, mr, mc, |s.comps|, b);
    }
  }

  lemma SetupLength(f: Frame, cs: seq<nat>)
    requires ValidScan(f, cs)
    ensures |PerScanSetup(f, cs).comps| == |cs| && PerScanSetup(f, cs).mcusPerRow >= 1
  {
  }

  lemma {:induction false} StreamAt(f: Frame, src: Source, s: ScanSetup, n: nat, k: nat)
    requires ValidSetup(f, s) && k < n
    ensures Stream(f, src, s, n)[k] == NthMcu(f, src, s, k)
  {
    hide NthMcu, ValidSetup;
    if k < n - 1 {
      StreamAt(f, src, s, n - 1, k);
    }
  }
}
