// A whole progressive file: all scans of an accepted script are arithmetic-coded and decoded
// in order, and in the end the decoder holds of every coefficient the bits that were sent.

module ProgressiveRun {
  import opened CodeBits
  import opened Coefficients
  import opened PointTransform
  import opened ArithmeticDecoder
  import opened ArithmeticBlock
  import opened ArithmeticSegments
  import opened ArithmeticScan
  import opened ArithmeticScanCoder
  import opened ArithmeticBandDecoder
  import opened ProgressiveScan
  import opened ScanScript

  // A block of a component.
  datatype Place = Place(ci: nat, row: nat, col: nat)

  type Image = map<Place, seq<int>>

  // The components of the blocks of an MCU (as indexes into those of the scan), the blocks
  // of each MCU in the order they are coded, and the restart interval.
  datatype ScanPath = ScanPath(members: seq<nat>, mcus: seq<seq<Place>>, interval: nat)

  // Coefficient order, tables of each component, and conditioning of each table.
  datatype Tables = Tables(order: seq<nat>, dc: seq<nat>, ac: seq<nat>, dcL: seq<nat>, dcU: seq<nat>, acK: seq<nat>)

  ghost predicate ValidTables(n: nat, t: Tables) {
    && ValidOrder(t.order) && |t.dc| == |t.ac| == n && |t.dcL| == |t.dcU| == |t.acK| == TABLES
    && forall c :: 0 <= c < n ==> t.dc[c] < TABLES && t.ac[c] < TABLES
  }

  // ----- Blocks in and out of the image -----

  ghost predicate ValidImage(image: Image) {
    forall pl :: pl in image ==> |image[pl]| == BLOCK
  }

  ghost predicate Inside(image: Image, places: seq<Place>) {
    forall j :: 0 <= j < |places| ==> places[j] in image
  }

  ghost predicate Distinct(places: seq<Place>) {
    forall i, j :: 0 <= i < j < |places| ==> places[i] != places[j]
  }

  function McuOf(image: Image, places: seq<Place>): (mcu: Mcu)
    requires Inside(image, places)
    ensures |mcu| == |places| && forall j :: 0 <= j < |places| ==> mcu[j] == image[places[j]]
  {
    seq(|places|, j requires 0 <= j < |places| => image[places[j]])
  }

  method Load(image: Image, places: seq<Place>) returns (blocks: seq<array<int>>)
    requires ValidImage(image) && Inside(image, places)
    ensures |blocks| == |places| && forall i :: 0 <= i < |blocks| ==> fresh(blocks[i]) && blocks[i].Length == BLOCK
    ensures forall i, j :: 0 <= i < j < |blocks| ==> blocks[i] != blocks[j]
    ensures Contents(blocks) == McuOf(image, places)
  {
    blocks := [];
    for k := 0 to |places|
      invariant |blocks| == k && forall i :: 0 <= i < k ==> fresh(blocks[i]) && blocks[i].Length == BLOCK
      invariant forall i, j :: 0 <= i < j < k ==> blocks[i] != blocks[j]
      invariant forall i :: 0 <= i < k ==> blocks[i][..] == image[places[i]]
    {
      var b := image[places[k]];
      var a := new int[BLOCK](p requires 0 <= p < BLOCK => b[p]);
      assert a[..] == b;
      blocks := blocks + [a];
    }
  }

  // The image with the blocks at these places replaced.
  ghost predicate Stored(now: Image, was: Image, places: seq<Place>, mcu: Mcu) {
    && now.Keys == was.Keys && |mcu| == |places| && Inside(was, places)
    && (forall j :: 0 <= j < |places| ==> now[places[j]] == mcu[j])
    && forall pl :: pl in was && pl !in places ==> now[pl] == was[pl]
  }

  method Store(was: Image, places: seq<Place>, blocks: seq<array<int>>) returns (now: Image)
    requires Inside(was, places) && Distinct(places) && |blocks| == |places|
    ensures Stored(now, was, places, Contents(blocks))
  {
    now := was;
    for k := 0 to |places|
      invariant now.Keys == was.Keys
      invariant forall j :: 0 <= j < k ==> now[places[j]] == blocks[j][..]
      invariant forall pl :: pl in was && pl !in places[..k] ==> now[pl] == was[pl]
    {
      now := now[places[k] := blocks[k][..]];
      assert places[..k + 1] == places[..k] + [places[k]];
    }
    assert places[..|places|] == places;
  }

  // ----- The blocks that a scan visits -----

  ghost function Seen(mcus: seq<seq<Place>>, n: nat): set<Place>
    requires n <= |mcus|
  {
    if n == 0 then {} else Seen(mcus, n - 1) + PlacesOf(mcus[n - 1])
  }

  ghost function PlacesOf(places: seq<Place>): (r: set<Place>)
    ensures forall pl :: pl in r <==> pl in places
  {
    set pl | pl in places
  }

  // MCU k consists of blocks of the right components, none of which the scan has visited
  // before; AC scans are confined to the blocks that make up the image.
  ghost predicate McuOk(info: ScanInfo, path: ScanPath, source: Image, shown: set<Place>, k: nat)
    requires k < |path.mcus|
  {
    var places := path.mcus[k];
    && |places| == |path.members| && Inside(source, places) && Distinct(places)
    && (forall j :: 0 <= j < |places| ==>
          && path.members[j] < |info.comps| && places[j].ci == info.comps[path.members[j]]
          && places[j] !in Seen(path.mcus, k)
          && (info.ss > 0 ==> places[j] in shown))
  }

  ghost predicate PathOk(info: ScanInfo, path: ScanPath, source: Image, shown: set<Place>) {
    && (info.ss > 0 ==> |path.members| == 1)
    && (forall j :: 0 <= j < |path.members| ==> path.members[j] < |info.comps|)
    && (forall k :: 0 <= k < |path.mcus| ==> McuOk(info, path, source, shown, k))
    && forall pl :: pl in shown && InScan(info, pl.ci) ==> pl in Seen(path.mcus, |path.mcus|)
  }

  // The parameters of a scan as its header gives them.
  function PlanFor(t: Tables, info: ScanInfo, members: seq<nat>): ProgScan
    requires RangesOk(info) && |t.dc| == |t.ac|
    requires forall j :: 0 <= j < |info.comps| ==> 0 <= info.comps[j] < |t.dc|
    requires forall j :: 0 <= j < |members| ==> members[j] < |info.comps|
  {
    var layout := seq(|members|, j requires 0 <= j < |members| =>
      Slot(members[j], t.dc[info.comps[members[j]]], t.ac[info.comps[members[j]]]));
    ProgScan(ScanPlan(t.order, info.se, layout, |info.comps|, t.dcL, t.dcU, t.acK), info.ss, info.ah, info.al)
  }

  // The contents of the MCUs.
  function SourceMcus(source: Image, mcus: seq<seq<Place>>): (ms: seq<Mcu>)
    requires forall k :: 0 <= k < |mcus| ==> Inside(source, mcus[k])
    ensures |ms| == |mcus| && forall k :: 0 <= k < |mcus| ==> ms[k] == McuOf(source, mcus[k])
  {
    seq(|mcus|, k requires 0 <= k < |mcus| => McuOf(source, mcus[k]))
  }

  ghost predicate ValidSource(n: nat, source: Image, shown: set<Place>) {
    && (forall pl :: pl in source ==> CoefsFit(source[pl]) && pl.ci < n)
    && forall pl :: pl in shown ==> pl in source
  }

  // ----- What the decoder holds -----

  // Every block of the image is at its component's precision: the new one for those that
  // the scan has visited.
  ghost predicate Halfway(order: seq<nat>, source: Image, image: Image, shown: set<Place>,
                          before: BitPositions, after: BitPositions, seen: set<Place>) {
    && image.Keys == source.Keys && ValidImage(image) && |before| == |after|
    && forall pl :: pl in shown ==> HalfwayAt(order, source, image, before, after, seen, pl)
  }

  ghost predicate HalfwayAt(order: seq<nat>, source: Image, image: Image,
                            before: BitPositions, after: BitPositions, seen: set<Place>, pl: Place) {
    && pl in source && pl in image && pl.ci < |before| == |after|
    && AtPrecision(order, source[pl], image[pl], if pl in seen then after[pl.ci] else before[pl.ci])
  }

  ghost predicate Holds(order: seq<nat>, source: Image, image: Image, shown: set<Place>, bits: BitPositions) {
    Halfway(order, source, image, shown, bits, bits, {})
  }

  // Bits of the blocks of an MCU.
  ghost function BitsOf(bits: BitPositions, places: seq<Place>): (b: seq<seq<int>>)
    requires forall j :: 0 <= j < |places| ==> places[j].ci < |bits|
    ensures |b| == |places| && forall j :: 0 <= j < |places| ==> b[j] == bits[places[j].ci]
  {
    seq(|places|, j requires 0 <= j < |places| => bits[places[j].ci])
  }

  // A scan in its place: what it finds, and what it is to leave behind.
  datatype Stage = Stage(s: ProgScan, info: ScanInfo, path: ScanPath, source: Image, shown: set<Place>,
                         before: BitPositions, after: BitPositions)

  ghost predicate ValidStage(g: Stage) {
    var n := |g.before|;
    && ValidProg(g.s) && ValidMcusOf(g) && ValidSource(n, g.source, g.shown)
    && Table(n, g.before) && g.after == AfterScan(g.before, g.info)
    && PathOk(g.info, g.path, g.source, g.shown)
    && g.s.ss == g.info.ss && g.s.ah == g.info.ah && g.s.al == g.info.al && g.s.plan.se == g.info.se
    && |g.s.plan.layout| == |g.path.members|
    && forall c :: 0 <= c < n && InScan(g.info, c) ==>
      Uniform(g.before[c], g.s.ss, g.s.plan.se, if g.s.ah == 0 then -1 else g.s.ah)
  }

  ghost predicate ValidMcusOf(g: Stage) {
    && (forall k :: 0 <= k < |g.path.mcus| ==> Inside(g.source, g.path.mcus[k]))
    && ValidMcus(g.s.plan, SourceMcus(g.source, g.path.mcus))
  }

  // Before MCU k of the scan.
  ghost predicate Midway(g: Stage, image: Image, k: nat)
    requires k <= |g.path.mcus|
  {
    Halfway(g.s.plan.order, g.source, image, g.shown, g.before, g.after, Seen(g.path.mcus, k))
  }

  lemma StageStart(g: Stage, image: Image)
    requires ValidStage(g) && Holds(g.s.plan.order, g.source, image, g.shown, g.before)
    ensures Midway(g, image, 0)
  {
    hide AtPrecision, ValidProg, ValidMcusOf, PathOk;
    forall pl | pl in g.shown
      ensures HalfwayAt(g.s.plan.order, g.source, image, g.before, g.after, {}, pl)
    {
      assert HalfwayAt(g.s.plan.order, g.source, image, g.before, g.before, {}, pl);
    }
  }

  lemma StageEnd(g: Stage, image: Image)
    requires ValidStage(g) && Midway(g, image, |g.path.mcus|)
    ensures Holds(g.s.plan.order, g.source, image, g.shown, g.after)
  {
    hide AtPrecision, ValidProg, ValidMcusOf, McuOk, Seen;
    var seen := Seen(g.path.mcus, |g.path.mcus|);
    forall pl | pl in g.shown
      ensures HalfwayAt(g.s.plan.order, g.source, image, g.after, g.after, {}, pl)
    {
      assert HalfwayAt(g.s.plan.order, g.source, image, g.before, g.after, seen, pl);
    }
  }

  // The blocks of MCU k before it is decoded.
  lemma McuKnown(g: Stage, image: Image, k: nat, j: nat)
    requires ValidStage(g) && k < |g.path.mcus| && Midway(g, image, k) && j < |g.path.mcus[k]|
    ensures var places := g.path.mcus[k];
      && Inside(image, places) && Inside(g.source, places) && places[j].ci < |g.before|
      && (places[j] in g.shown ==>
            Known(g.s, g.source[places[j]], image[places[j]], g.before[places[j].ci]))
  {
    hide AtPrecision, ValidProg, ValidMcusOf, Uniform, Seen;
    var places := g.path.mcus[k];
    assert McuOk(g.info, g.path, g.source, g.shown, k);
    if places[j] in g.shown {
      assert HalfwayAt(g.s.plan.order, g.source, image, g.before, g.after, Seen(g.path.mcus, k), places[j]);
      assert InScan(g.info, places[j].ci);
    }
  }

  // Decoding MCU k.
  lemma McuDecoded(g: Stage, was: Image, now: Image, k: nat, zs: Mcu)
    requires ValidStage(g) && k < |g.path.mcus| && Midway(g, was, k)
    requires Inside(was, g.path.mcus[k]) && Inside(g.source, g.path.mcus[k])
    requires forall j :: 0 <= j < |g.path.mcus[k]| ==> g.path.mcus[k][j].ci < |g.before|
    requires McuImproves(g.s, McuOf(g.source, g.path.mcus[k]), McuOf(was, g.path.mcus[k]), zs,
                         BitsOf(g.before, g.path.mcus[k]))
    requires Stored(now, was, g.path.mcus[k], zs)
    ensures Midway(g, now, k + 1)
  {
    hide AtPrecision, ValidProg, ValidMcusOf, Uniform, Known, PathOk, HalfwayAt, Seen, Improves;
    var places := g.path.mcus[k];
    PathMcu(g, k);
    forall pl | pl in now
      ensures |now[pl]| == BLOCK
    {
      if pl in places {
        var j :| 0 <= j < |places| && places[j] == pl;
        BlockDecoded(g, was, now, k, zs, j);
      }
    }
    forall pl | pl in g.shown
      ensures HalfwayAt(g.s.plan.order, g.source, now, g.before, g.after, Seen(g.path.mcus, k + 1), pl)
    {
      if pl in places {
        var j :| 0 <= j < |places| && places[j] == pl;
        BlockDecoded(g, was, now, k, zs, j);
      } else {
        BlockKept(g, was, now, k, pl);
      }
    }
  }

  lemma PathMcu(g: Stage, k: nat)
    requires ValidStage(g) && k < |g.path.mcus|
    ensures McuOk(g.info, g.path, g.source, g.shown, k)
  {
    hide AtPrecision, ValidProg, ValidMcusOf, Uniform, McuOk;
  }

  // A block of MCU k.
  lemma BlockDecoded(g: Stage, was: Image, now: Image, k: nat, zs: Mcu, j: nat)
    requires ValidStage(g) && k < |g.path.mcus| && Midway(g, was, k) && j < |g.path.mcus[k]|
    requires Inside(was, g.path.mcus[k]) && Inside(g.source, g.path.mcus[k])
    requires forall j :: 0 <= j < |g.path.mcus[k]| ==> g.path.mcus[k][j].ci < |g.before|
    requires McuImproves(g.s, McuOf(g.source, g.path.mcus[k]), McuOf(was, g.path.mcus[k]), zs,
                         BitsOf(g.before, g.path.mcus[k]))
    requires Stored(now, was, g.path.mcus[k], zs)
    ensures var pl := g.path.mcus[k][j];
      && pl in now && |now[pl]| == BLOCK
      && (pl in g.shown ==> HalfwayAt(g.s.plan.order, g.source, now, g.before, g.after, Seen(g.path.mcus, k + 1), pl))
  {
    hide AtPrecision, ValidStage, Known, McuOk, Midway, Improves, Seen;
    var pl := g.path.mcus[k][j];
    ImprovesAt(g, was, k, zs, j);
    SeenNow(g, k, j);
    McuKnown(g, was, k, j);
    PlaceInScan(g, k, j);
    MidwaySizes(g, was, k);
    if pl in g.shown {
      BlockGains(g, g.source[pl], was[pl], zs[j], pl.ci);
    } else {
      BlockSize(g, g.source[pl], was[pl], zs[j], pl.ci);
    }
  }

  lemma ImprovesAt(g: Stage, was: Image, k: nat, zs: Mcu, j: nat)
    requires k < |g.path.mcus| && j < |g.path.mcus[k]|
    requires Inside(was, g.path.mcus[k]) && Inside(g.source, g.path.mcus[k])
    requires forall j :: 0 <= j < |g.path.mcus[k]| ==> g.path.mcus[k][j].ci < |g.before|
    requires McuImproves(g.s, McuOf(g.source, g.path.mcus[k]), McuOf(was, g.path.mcus[k]), zs,
                         BitsOf(g.before, g.path.mcus[k]))
    ensures var pl := g.path.mcus[k][j];
      && j < |zs| && pl.ci < |g.before| && pl in g.source && pl in was
      && Improves(g.s, g.source[pl], was[pl], zs[j], g.before[pl.ci])
  {
    hide Improves;
  }

  lemma SeenNow(g: Stage, k: nat, j: nat)
    requires k < |g.path.mcus| && j < |g.path.mcus[k]|
    ensures g.path.mcus[k][j] in Seen(g.path.mcus, k + 1)
  {
  }

  lemma MidwaySizes(g: Stage, image: Image, k: nat)
    requires k <= |g.path.mcus| && Midway(g, image, k)
    ensures |g.after| == |g.before| && image.Keys == g.source.Keys
  {
    hide AtPrecision, Seen;
  }

  lemma BlockGains(g: Stage, x: seq<int>, y: seq<int>, z: seq<int>, c: nat)
    requires ValidStage(g) && c < |g.before| && InScan(g.info, c)
    requires Improves(g.s, x, y, z, g.before[c]) && Known(g.s, x, y, g.before[c])
    ensures |z| == BLOCK && |g.after| == |g.before| && AtPrecision(g.s.plan.order, x, z, g.after[c])
  {
    hide AtPrecision, ValidProg, ValidMcusOf, Uniform, PathOk, Known;
  }

  lemma BlockSize(g: Stage, x: seq<int>, y: seq<int>, z: seq<int>, c: nat)
    requires c < |g.before| && Improves(g.s, x, y, z, g.before[c])
    ensures |z| == BLOCK
  {
    hide AtPrecision, Known;
  }

  lemma PlaceInScan(g: Stage, k: nat, j: nat)
    requires ValidStage(g) && k < |g.path.mcus| && j < |g.path.mcus[k]|
    ensures InScan(g.info, g.path.mcus[k][j].ci)
  {
    hide AtPrecision, ValidProg, ValidMcusOf, Uniform;
    PathMcu(g, k);
  }

  // A block outside MCU k.
  lemma BlockKept(g: Stage, was: Image, now: Image, k: nat, pl: Place)
    requires k < |g.path.mcus| && Midway(g, was, k) && pl in g.shown && pl !in g.path.mcus[k]
    requires now.Keys == was.Keys && forall p :: p in was && p !in g.path.mcus[k] ==> now[p] == was[p]
    ensures HalfwayAt(g.s.plan.order, g.source, now, g.before, g.after, Seen(g.path.mcus, k + 1), pl)
  {
    hide AtPrecision;
    assert HalfwayAt(g.s.plan.order, g.source, was, g.before, g.after, Seen(g.path.mcus, k), pl);
  }

  // ----- One scan -----

  ghost function StageMcus(g: Stage): (ms: seq<Mcu>)
    requires ValidMcusOf(g)
    ensures |ms| == |g.path.mcus| && ValidMcus(g.s.plan, ms)
  {
    SourceMcus(g.source, g.path.mcus)
  }

  ghost function StageTraces(g: Stage): (ts: Traces)
    requires ValidStage(g)
    ensures |ts| == |g.path.mcus|
  {
    ProgTraces(g.s, StageMcus(g), g.path.interval)
  }

  // All DC differences of the scan, if it codes any, can be read.
  ghost predicate StageFits(g: Stage)
    requires ValidStage(g)
  {
    IsDcFirst(g.s) ==> forall k :: 0 <= k < |g.path.mcus| ==> McuReadable(g, k)
  }

  ghost predicate McuReadable(g: Stage, k: nat)
    requires ValidStage(g) && IsDcFirst(g.s) && k < |g.path.mcus|
  {
    Recoverable(g.s.plan, DcTracesOf(g.s, StageMcus(g), g.path.interval), g.path.interval, k)
  }

  ghost predicate Covering(g: Stage, image: Image) {
    image.Keys == g.source.Keys && ValidImage(image)
  }

  lemma StoredCovering(g: Stage, was: Image, now: Image, places: seq<Place>, mcu: Mcu)
    requires Covering(g, was) && Stored(now, was, places, mcu) && Blocks(mcu)
    ensures Covering(g, now)
  {
    forall pl | pl in now
      ensures |now[pl]| == BLOCK
    {
      if pl in places {
        var j :| 0 <= j < |places| && places[j] == pl;
        assert now[places[j]] == mcu[j];
      }
    }
  }

  lemma McuPlaces(g: Stage, image: Image, k: nat)
    requires ValidStage(g) && k < |g.path.mcus| && image.Keys == g.source.Keys
    ensures var places := g.path.mcus[k];
      && Inside(image, places) && Inside(g.source, places) && Distinct(places) && |places| == |g.s.plan.layout|
      && ValidMcu(g.s.plan, McuOf(g.source, places)) && StageMcus(g)[k] == McuOf(g.source, places)
      && forall j :: 0 <= j < |places| ==> places[j].ci < |g.before|
  {
    hide AtPrecision, ValidProg, Uniform, CoefsFit;
    PathMcu(g, k);
    assert ValidMcu(g.s.plan, StageMcus(g)[k]);
  }

  lemma MidwayCovers(g: Stage, image: Image, k: nat)
    requires k <= |g.path.mcus| && Midway(g, image, k)
    ensures Covering(g, image)
  {
    hide AtPrecision, Seen;
  }

  // A first DC scan.
  method DecodeFirstDcScan(s: ProgScan, interval: nat, input: seq<Byte>, mcus: seq<seq<Place>>, start: Image,
                           ghost g: Stage)
    returns (image: Image, ok: bool)
    requires ValidStage(g) && g.s == s && g.path.mcus == mcus && g.path.interval == interval && IsDcFirst(s)
    requires Usable(StageTraces(g)) && Chain(StageTraces(g), interval, input, 0, 0, 0)
    requires Midway(g, start, 0)
    ensures ok <==> StageFits(g)
    ensures ok ==> Midway(g, image, |mcus|)
  {
    hide ValidStage, Midway, Chain, Usable, ScanDecoder.Valid, SegmentDecoder.Valid, McuReadable, Contents, McuImproves,
         Covering, ValidImage, Inside, Distinct, ValidProg, Blocks;
    image, ok := start, true;
    MidwayCovers(g, image, 0);
    PlanOfStage(g);
    var seg := NewSegmentDecoder(input, interval, StageTraces(g));
    ghost var dcs := DcTracesOf(s, StageMcus(g), interval);
    var d := new ScanDecoder(seg, s.plan, dcs);
    for k := 0 to |mcus|
      invariant d.seg == seg && d.plan == s.plan && d.mcus == dcs && seg.interval == interval && seg.done == k
      invariant fresh(d) && fresh(seg) && fresh(seg.coder) && fresh(seg.coder.bins) && d.Valid()
      invariant Covering(g, image)
      invariant ok <==> forall j :: 0 <= j < k ==> McuReadable(g, j)
      invariant ok ==> Midway(g, image, k)
    {
      image, ok := DecodeDcMcu(d, s, mcus[k], image, ok, g, k);
    }
  }

  lemma PlanOfStage(g: Stage)
    requires ValidStage(g)
    ensures ValidProg(g.s) && ValidScanPlan(g.s.plan) && ValidMcusOf(g)
    ensures IsDcFirst(g.s) ==>
      && g.s.plan.se == 0
      && StageTraces(g) == ScanTraces(g.s.plan, DcTracesOf(g.s, StageMcus(g), g.path.interval), g.path.interval)
  {
    hide Uniform, PathOk, ValidMcusOf, ValidScanPlan;
  }

  method DecodeDcMcu(d: ScanDecoder, s: ProgScan, places: seq<Place>, was: Image, sofar: bool, ghost g: Stage,
                     ghost k: nat)
    returns (image: Image, ok: bool)
    requires ValidStage(g) && g.s == s && IsDcFirst(s) && k < |g.path.mcus| && places == g.path.mcus[k]
    requires ValidMcusOf(g) && d.plan == s.plan && d.mcus == DcTracesOf(s, StageMcus(g), g.path.interval)
    requires d.Valid() && d.seg.interval == g.path.interval && d.seg.done == k
    requires Covering(g, was) && (sofar ==> Midway(g, was, k))
    modifies d`lastDc, d`dcContext, d.seg, d.seg.coder, d.seg.coder.bins
    ensures d.Valid() && d.seg.done == k + 1
    ensures Covering(g, image)
    ensures ok <==> sofar && McuReadable(g, k)
    ensures ok ==> Midway(g, image, k + 1)
  {
    hide ValidStage, Midway, ScanDecoder.Valid, McuImproves, McuReadable, ValidProg, Contents, Stored, ValidMcusOf,
         Covering;
    CoveredValid(g, was);
    McuPlaces(g, was, k);
    var blocks := Load(was, places);
    ghost var before := Contents(blocks);
    var good := DecodeDcBlocks(d, s, blocks, g, k, before);
    image := Store(was, places, blocks);
    StoredCovering(g, was, image, places, Contents(blocks));
    ok := sofar && good;
    if ok {
      McuDecoded(g, was, image, k, Contents(blocks));
    }
  }

  lemma CoveredValid(g: Stage, image: Image)
    requires Covering(g, image)
    ensures image.Keys == g.source.Keys && ValidImage(image)
  {
  }

  method DecodeDcBlocks(d: ScanDecoder, s: ProgScan, blocks: seq<array<int>>, ghost g: Stage, ghost k: nat,
                        ghost before: Mcu)
    returns (good: bool)
    requires ValidStage(g) && g.s == s && IsDcFirst(s) && k < |g.path.mcus|
    requires ValidMcusOf(g) && d.plan == s.plan && d.mcus == DcTracesOf(s, StageMcus(g), g.path.interval)
    requires d.Valid() && d.seg.interval == g.path.interval && d.seg.done == k
    requires Inside(g.source, g.path.mcus[k]) && forall j :: 0 <= j < |g.path.mcus[k]| ==>
      g.path.mcus[k][j].ci < |g.before|
    requires Contents(blocks) == before && |blocks| == |g.path.mcus[k]|
    requires forall i :: 0 <= i < |blocks| ==>
      blocks[i].Length == BLOCK && blocks[i] as object != d.seg.coder.bins as object
    requires forall i, j :: 0 <= i < j < |blocks| ==> blocks[i] != blocks[j]
    modifies blocks, d`lastDc, d`dcContext, d.seg, d.seg.coder, d.seg.coder.bins
    ensures d.Valid() && d.seg.done == k + 1 && Blocks(Contents(blocks))
    ensures good <==> McuReadable(g, k)
    ensures good ==>
      McuImproves(s, McuOf(g.source, g.path.mcus[k]), before, Contents(blocks), BitsOf(g.before, g.path.mcus[k]))
  {
    hide ValidStage, ScanDecoder.Valid, McuImproves, Recoverable, ValidProg, CoefsFit, Contents, ToCoef, DcBlock,
         ValidMcusOf;
    PlanOfStage(g);
    McuPlaces(g, g.source, k);
    McuFit(s.plan, McuOf(g.source, g.path.mcus[k]));
    good := d.DecodeMcuDcFirst(blocks, s.al);
    if good {
      AllImproveFirst(s, McuOf(g.source, g.path.mcus[k]), before, Contents(blocks), BitsOf(g.before, g.path.mcus[k]));
    }
  }

  lemma McuFit(plan: ScanPlan, mcu: Mcu)
    requires ValidMcu(plan, mcu)
    ensures Blocks(mcu) && forall i :: 0 <= i < |mcu| ==> CoefsFit(mcu[i])
  {
  }

  // Any other scan: nothing in it can overflow.
  method DecodeLaterScan(s: ProgScan, interval: nat, input: seq<Byte>, mcus: seq<seq<Place>>, start: Image,
                         ghost g: Stage)
    returns (image: Image)
    requires ValidStage(g) && g.s == s && g.path.mcus == mcus && g.path.interval == interval && !IsDcFirst(s)
    requires Usable(StageTraces(g)) && Chain(StageTraces(g), interval, input, 0, 0, 0)
    requires Midway(g, start, 0)
    ensures Midway(g, image, |mcus|)
  {
    hide ValidStage, Midway, Chain, Usable, SegmentDecoder.Valid, StageTraces;
    image := start;
    var seg := NewSegmentDecoder(input, interval, StageTraces(g));
    for k := 0 to |mcus|
      invariant seg.interval == interval && seg.done == k && seg.ts == StageTraces(g) && !seg.failed
      invariant fresh(seg) && fresh(seg.coder) && fresh(seg.coder.bins) && seg.Valid()
      invariant Midway(g, image, k)
    {
      image := DecodeLaterMcu(seg, s, mcus[k], image, g, k);
    }
  }

  lemma LaterMcu(g: Stage, image: Image, k: nat)
    requires ValidStage(g) && k < |g.path.mcus| && Midway(g, image, k) && !IsDcFirst(g.s)
    ensures |StageTraces(g)| == |g.path.mcus| && ValidProg(g.s)
    ensures var places := g.path.mcus[k];
      && Inside(image, places) && Inside(g.source, places) && ValidMcu(g.s.plan, McuOf(g.source, places))
      && (forall j :: 0 <= j < |places| ==> places[j].ci < |g.before|)
      && StageTraces(g)[k] == McuDecisions(g.s, McuOf(g.source, places))
      && Blocks(BitsOf(g.before, places))
      && (g.s.ss > 0 ==>
            |places| == 1 && Known(g.s, g.source[places[0]], image[places[0]], g.before[places[0].ci]))
  {
    hide AtPrecision, Uniform, McuDecisions, CoefsFit, Known, ValidScanPlan;
    var places := g.path.mcus[k];
    PlanOfStage(g);
    MidwayCovers(g, image, k);
    McuPlaces(g, image, k);
    ProgTraceOf(g.s, StageMcus(g), g.path.interval, k);
    if g.s.ss > 0 {
      PathMcu(g, k);
      McuKnown(g, image, k, 0);
    }
  }

  method DecodeLaterMcu(seg: SegmentDecoder, s: ProgScan, places: seq<Place>, was: Image, ghost g: Stage, ghost k: nat)
    returns (image: Image)
    requires ValidStage(g) && g.s == s && !IsDcFirst(s) && k < |g.path.mcus| && places == g.path.mcus[k]
    requires seg.Valid() && seg.ts == StageTraces(g) && seg.done == k && !seg.failed && Midway(g, was, k)
    modifies seg, seg.coder, seg.coder.bins
    ensures seg.Valid() && seg.done == k + 1 && !seg.failed && Midway(g, image, k + 1)
  {
    hide ValidStage, Midway, McuImproves, ValidProg, ValidMcu, Contents, McuDecisions, StageTraces, Known,
         SegmentDecoder.Valid, Stored;
    MidwayCovers(g, was, k);
    McuPlaces(g, was, k);
    var blocks := Load(was, places);
    DecodeLaterBlocks(seg, s, blocks, g, k, was);
    image := Store(was, places, blocks);
    McuDecoded(g, was, image, k, Contents(blocks));
  }

  method DecodeLaterBlocks(seg: SegmentDecoder, s: ProgScan, blocks: seq<array<int>>, ghost g: Stage, ghost k: nat,
                           ghost was: Image)
    requires ValidStage(g) && g.s == s && !IsDcFirst(s) && k < |g.path.mcus|
    requires seg.Valid() && seg.ts == StageTraces(g) && seg.done == k && !seg.failed && Midway(g, was, k)
    requires Inside(was, g.path.mcus[k]) && Inside(g.source, g.path.mcus[k])
    requires forall j :: 0 <= j < |g.path.mcus[k]| ==> g.path.mcus[k][j].ci < |g.before|
    requires Contents(blocks) == McuOf(was, g.path.mcus[k])
    requires forall i :: 0 <= i < |blocks| ==>
      blocks[i].Length == BLOCK && blocks[i] as object != seg.coder.bins as object
    requires forall i, j :: 0 <= i < j < |blocks| ==> blocks[i] != blocks[j]
    modifies blocks, seg, seg.coder, seg.coder.bins
    ensures seg.Valid() && seg.done == k + 1 && !seg.failed
    ensures McuImproves(s, McuOf(g.source, g.path.mcus[k]), McuOf(was, g.path.mcus[k]), Contents(blocks),
                        BitsOf(g.before, g.path.mcus[k]))
  {
    hide ValidStage, Midway, McuImproves, ValidProg, ValidMcu, Contents, McuDecisions, StageTraces, Known,
         Decoder.Valid, Decoder.Tracks, SegmentDecoder.Placed, SegmentDecoder.Rest, SegmentDecoder.Aim, Improves,
         Inside;
    LaterMcu(g, was, k);
    McuHasBlocks(s.plan, McuOf(g.source, g.path.mcus[k]));
    ghost var mcu, bitss, before := McuOf(g.source, g.path.mcus[k]), BitsOf(g.before, g.path.mcus[k]), Contents(blocks);
    assert s.ss > 0 ==> before[0] == blocks[0][..];
    var _ := seg.Begin();
    var ok := DecodeLater(seg.coder, s, blocks, mcu, bitss, seg.Rest(), seg.Aim());
    seg.failed := !ok;
  }

  // ----- The whole run -----

  datatype Run = Run(n: nat, t: Tables, script: seq<ScanInfo>, paths: seq<ScanPath>, source: Image, shown: set<Place>)

  ghost predicate ValidRun(r: Run) {
    && ValidTables(r.n, r.t) && ValidScript(r.n, r.script) && IsProgressive(r.script) && |r.paths| == |r.script|
    && ValidSource(r.n, r.source, r.shown)
    && forall i :: 0 <= i < |r.script| ==> PathOk(r.script[i], r.paths[i], r.source, r.shown)
  }

  ghost function StageOf(r: Run, i: nat): (g: Stage)
    requires ValidRun(r) && i < |r.script|
    ensures ValidStage(g)
  {
    StageIsValid(r, i);
    RawStage(r, i)
  }

  ghost function RawStage(r: Run, i: nat): (g: Stage)
    requires ValidRun(r) && i < |r.script|
  {
    AcceptedScansAreExpected(r.n, r.script, i);
    assert PathOk(r.script[i], r.paths[i], r.source, r.shown);
    PlanNeeds(r.n, r.script[i]);
    var before := BitsAfter(r.n, r.script, i);
    Stage(PlanFor(r.t, r.script[i], r.paths[i].members), r.script[i], r.paths[i], r.source, r.shown, before,
          AfterScan(before, r.script[i]))
  }

  lemma PlanNeeds(n: nat, info: ScanInfo)
    requires ComponentsOk(n, info)
    ensures |info.comps| > 0 && forall j :: 0 <= j < |info.comps| ==> 0 <= info.comps[j] < n
  {
    forall j | 0 <= j < |info.comps|
      ensures 0 <= info.comps[j] < n
    {
      assert ComponentOk(n, info, j);
    }
  }

  // No scan of an accepted script leaves less than nothing behind.
  lemma {:induction false} BitsAtLeast(n: nat, script: seq<ScanInfo>, i: nat, c: nat, k: nat)
    requires ValidScript(n, script) && IsProgressive(script) && i <= |script| && c < n && k < BLOCK
    ensures BitsAfter(n, script, i)[c][k] >= -1
  {
    if i > 0 {
      BitsAtLeast(n, script, i - 1, c, k);
      AcceptedScansAreExpected(n, script, i - 1);
    }
  }

  lemma StageIsValid(r: Run, i: nat)
    requires ValidRun(r) && i < |r.script|
    ensures ValidStage(RawStage(r, i))
  {
    hide ValidOrder, CoefsFit, McuOk, ValidScript;
    var g, info, path := RawStage(r, i), r.script[i], r.paths[i];
    AcceptedScansAreExpected(r.n, r.script, i);
    PlanNeeds(r.n, info);
    assert PathOk(info, path, r.source, r.shown);
    StageMcusValid(r, i);
    StageProgression(r, i);
  }

  lemma StageMcusValid(r: Run, i: nat)
    requires ValidRun(r) && i < |r.script|
    ensures ValidScanPlan(RawStage(r, i).s.plan) && ValidMcusOf(RawStage(r, i))
  {
    hide ValidOrder, CoefsFit, BitsAfter, ValidScript;
    var g, info, path := RawStage(r, i), r.script[i], r.paths[i];
    AcceptedScansAreExpected(r.n, r.script, i);
    PlanNeeds(r.n, info);
    assert PathOk(info, path, r.source, r.shown);
    forall k | 0 <= k < |path.mcus|
      ensures Inside(r.source, path.mcus[k]) && ValidMcu(g.s.plan, McuOf(r.source, path.mcus[k]))
    {
      assert McuOk(info, path, r.source, r.shown, k);
    }
  }

  // The scan header describes a progressive scan.
  lemma StageProgression(r: Run, i: nat)
    requires ValidRun(r) && i < |r.script|
    ensures var g, info := RawStage(r, i), r.script[i];
      && (info.ah > 0 ==> info.al == info.ah - 1)
      && forall c :: 0 <= c < r.n && InScan(info, c) ==>
        Uniform(g.before[c], info.ss, info.se, if info.ah == 0 then -1 else info.ah)
  {
    hide ValidOrder, CoefsFit, PathOk, BitsAfter;
    var info, bits := r.script[i], BitsAfter(r.n, r.script, i);
    AcceptedScansAreExpected(r.n, r.script, i);
    assert ScanOk(r.n, r.script, i);
    PlanNeeds(r.n, info);
    var first := info.comps[0];
    assert InScan(info, first) && Covers(info, first, info.ss);
    FirstOrRefinement(r.n, bits, info, first, info.ss);
    forall c | 0 <= c < r.n && InScan(info, c)
      ensures Uniform(bits[c], info.ss, info.se, if info.ah == 0 then -1 else info.ah)
    {
      forall k | info.ss <= k <= info.se
        ensures bits[c][k] == if info.ah == 0 then -1 else info.ah
      {
        assert Covers(info, c, k);
        FirstOrRefinement(r.n, bits, info, c, k);
        BitsAtLeast(r.n, r.script, i, c, k);
      }
    }
  }

  // The image before anything has been decoded.
  function BlankImage(source: Image): (image: Image)
    ensures image.Keys == source.Keys
  {
    map pl | pl in source :: seq(BLOCK, _ => 0)
  }

  // The decoder's status table after i scans.
  ghost predicate Recorded(r: Run, coefBits: array2<int>, i: nat)
    requires i <= |r.script|
    reads coefBits
  {
    TableShape(coefBits, r.n) && Records(coefBits, BitsAfter(r.n, r.script, i))
  }

  // What the decoder holds after i scans.
  ghost predicate Decoded(r: Run, image: Image, i: nat)
    requires i <= |r.script|
  {
    Holds(r.t.order, r.source, image, r.shown, BitsAfter(r.n, r.script, i))
  }

  // The first i scans can be read.
  ghost predicate FitsUpTo(r: Run, i: nat)
    requires ValidRun(r) && i <= |r.script|
  {
    forall k :: 0 <= k < i ==> StageFits(StageOf(r, k))
  }

  lemma FitsNext(r: Run, i: nat)
    requires ValidRun(r) && i < |r.script|
    ensures FitsUpTo(r, i + 1) <==> FitsUpTo(r, i) && StageFits(StageOf(r, i))
    ensures FitsUpTo(r, |r.script|) ==> StageFits(StageOf(r, i))
  {
    hide StageFits, StageOf, ValidRun;
  }

  // The value of every coefficient of every block of the image: the bits that the last scan
  // covering it has completed, and zero if there is none.
  lemma DecodedValue(r: Run, image: Image, i: nat, pl: Place, j: nat) returns (s: nat)
    requires ValidRun(r) && i <= |r.script| && Decoded(r, image, i) && pl in r.shown && j < BLOCK
    ensures pl in image && pl in r.source && |image[pl]| == |r.source[pl]| == BLOCK && r.t.order[j] < BLOCK
    ensures var x, y := r.source[pl][r.t.order[j]], image[pl][r.t.order[j]];
      if s < i then
        && r.script[s].al >= 0 && Covers(r.script[s], pl.ci, j)
        && (forall k :: s < k < i ==> !Covers(r.script[k], pl.ci, j))
        && y == if j == 0 then Shifted(x, r.script[s].al) * Pow2(r.script[s].al) else Truncate(x, r.script[s].al)
      else
        y == 0 && forall k :: 0 <= k < i ==> !Covers(r.script[k], pl.ci, j)
  {
    hide Truncate, Shifted, ValidScript, AtPrecision, PathOk, CoefsFit;
    var bits := BitsAfter(r.n, r.script, i);
    assert HalfwayAt(r.t.order, r.source, image, bits, bits, {}, pl);
    PrecisionOrder(r.t.order, r.source[pl], image[pl], bits[pl.ci]);
    PrecisionAt(r.t.order, r.source[pl], image[pl], bits[pl.ci], j);
    Entries(r.t.order);
    s := BitsAreLastSent(r.n, r.script, i, pl.ci, j);
    if s < i {
      AcceptedScansAreExpected(r.n, r.script, s);
    }
  }

  // The script has sent all bits of every coefficient of component ci.
  ghost predicate AllSent(n: nat, script: seq<ScanInfo>, ci: nat)
    requires ci < n
  {
    forall j :: 0 <= j < BLOCK ==> BitsAfter(n, script, |script|)[ci][j] == 0
  }

  // Then a block of that component comes back exactly.
  lemma CompleteIsExact(r: Run, image: Image, pl: Place)
    requires ValidRun(r) && Decoded(r, image, |r.script|) && pl in r.shown
    ensures pl in image && pl in r.source && pl.ci < r.n
    ensures AllSent(r.n, r.script, pl.ci) ==> image[pl] == r.source[pl]
  {
    hide ValidScript, PathOk, CoefsFit;
    var bits := BitsAfter(r.n, r.script, |r.script|);
    assert HalfwayAt(r.t.order, r.source, image, bits, bits, {}, pl);
    if AllSent(r.n, r.script, pl.ci) {
      FullPrecision(r.t.order, r.source[pl], image[pl], bits[pl.ci]);
    }
  }

  lemma BlankHoldsNothing(r: Run)
    requires ValidRun(r)
    ensures Decoded(r, BlankImage(r.source), 0) && FitsUpTo(r, 0)
  {
    hide ValidOrder, ValidScript, PathOk;
    var image, bits := BlankImage(r.source), NothingSent(r.n);
    forall pl | pl in r.shown
      ensures HalfwayAt(r.t.order, r.source, image, bits, bits, {}, pl)
    {
      assert CoefsFit(r.source[pl]);
      Entries(r.t.order);
    }
  }

  // What the stage of scan i takes from the run.
  lemma StageFacts(r: Run, i: nat)
    requires ValidRun(r) && i < |r.script|
    ensures var g, info, path := StageOf(r, i), r.script[i], r.paths[i];
      && RangesOk(info) && ComponentsOk(r.n, info) && LegalScan(info)
      && AllExpected(r.n, BitsAfter(r.n, r.script, i), info)
      && |r.t.dc| == |r.t.ac| == r.n
      && (forall j :: 0 <= j < |info.comps| ==> 0 <= info.comps[j] < r.n)
      && (forall j :: 0 <= j < |path.members| ==> path.members[j] < |info.comps|)
      && g.s == PlanFor(r.t, info, path.members) && g.path == path && g.info == info
      && g.source == r.source && g.shown == r.shown
      && g.before == BitsAfter(r.n, r.script, i) && g.after == BitsAfter(r.n, r.script, i + 1)
      && g.s.plan.order == r.t.order
  {
    hide ValidOrder, CoefsFit, McuOk, ValidScript, AllExpected;
    AcceptedScansAreExpected(r.n, r.script, i);
    PlanNeeds(r.n, r.script[i]);
    assert PathOk(r.script[i], r.paths[i], r.source, r.shown);
  }

  // One scan, from the image to bytes and back.
  method CodeAndDecodeScan(r: Run, i: nat, marker: Byte, tail: seq<Byte>, was: Image, coefBits: array2<int>)
    returns (image: Image, ok: bool, warnings: nat)
    requires ValidRun(r) && i < |r.script| && marker != 0 && marker != 0xFF
    requires Recorded(r, coefBits, i) && Decoded(r, was, i)
    modifies coefBits
    ensures warnings == 0 && Recorded(r, coefBits, i + 1)
    ensures ok <==> StageFits(StageOf(r, i))
    ensures ok ==> Decoded(r, image, i + 1)
  {
    assert |r.paths| == |r.script|;
    hide ValidRun, ValidStage, StageFits, Holds, BitsAfter, Records, Chain, Usable, Midway, ValidMcus, ComponentsOk,
         AllExpected, ValidProg, ProgTraces;
    ghost var g := StageOf(r, i);
    StageFacts(r, i);
    PlanOfStage(g);
    var info, path := r.script[i], r.paths[i];
    var s := PlanFor(r.t, info, path.members);
    var output := EncodeProgressive(s, path.interval, SourceMcus(r.source, path.mcus));
    var input := output + [0xFF, marker] + tail;
    var legal;
    legal, warnings := StartPass(coefBits, info, BitsAfter(r.n, r.script, i));
    StageStart(g, was);
    if IsDcFirst(s) {
      image, ok := DecodeFirstDcScan(s, path.interval, input, path.mcus, was, g);
    } else {
      image := DecodeLaterScan(s, path.interval, input, path.mcus, was, g);
      ok := true;
      LaterFits(g);
    }
    if ok {
      StageEnd(g, image);
    }
    ok := ok && legal;
  }

  lemma LaterFits(g: Stage)
    requires ValidStage(g) && !IsDcFirst(g.s)
    ensures StageFits(g)
  {
  }

  // Main result: the decoder follows the script without an error or a warning. If no DC
  // difference of a first DC scan exceeds 2^15 in magnitude, then in the end it holds of every
  // coefficient the bits down to the last position sent; otherwise it reports an overflow.
  method CodeAndDecode(r: Run, marker: Byte, tail: seq<Byte>) returns (image: Image, ok: bool, warnings: nat)
    requires ValidRun(r) && marker != 0 && marker != 0xFF
    ensures warnings == 0 && (ok <==> FitsUpTo(r, |r.script|))
    ensures ok ==> Decoded(r, image, |r.script|)
  {
    hide ValidRun, StageFits, Decoded, Recorded, FitsUpTo, StageOf;
    var coefBits := new int[r.n, BLOCK]((_, _) => -1);
    NothingRecorded(r, coefBits);
    warnings := 0;
    image, ok := BlankImage(r.source), true;
    BlankHoldsNothing(r);
    for i := 0 to |r.script|
      invariant FitsUpTo(r, i) && Decoded(r, image, i)
      invariant warnings == 0 && Recorded(r, coefBits, i) && fresh(coefBits)
    {
      var more;
      image, ok, more := CodeAndDecodeScan(r, i, marker, tail, image, coefBits);
      FitsNext(r, i);
      warnings := warnings + more;
      if !ok {
        return;
      }
    }
    ok := true;
  }

  lemma NothingRecorded(r: Run, t: array2<int>)
    requires TableShape(t, r.n) && forall c, k :: 0 <= c < r.n && 0 <= k < BLOCK ==> t[c, k] == -1
    ensures Recorded(r, t, 0)
  {
    forall c | 0 <= c < r.n
      ensures RowIs(t, c, BitsAfter(r.n, r.script, 0)[c])
    {
    }
  }

  // ----- When nothing can overflow -----

  lemma ShiftedSmall(x: int, al: nat)
    requires Small(x)
    ensures Small(Shifted(x, al))
  {
    var q, w := x / Pow2(al), Pow2(al);
    assert x == q * w + x % w;
    MulMonotone(1, w, if q > 0 then q else 0);
    MulMonotone(if q < -0x4000 then q else -0x4001, -0x4001, w);
  }

  // With DC coefficients of 15 bits the run succeeds.
  lemma SmallRunFits(r: Run)
    requires ValidRun(r) && forall pl :: pl in r.source ==> Small(r.source[pl][0])
    ensures FitsUpTo(r, |r.script|)
  {
    hide ValidRun, Recoverable, Shifted;
    forall i | 0 <= i < |r.script|
      ensures StageFits(StageOf(r, i))
    {
      var g := StageOf(r, i);
      StageFacts(r, i);
      if IsDcFirst(g.s) {
        SmallStageFits(g);
      }
    }
  }

  lemma SmallStageFits(g: Stage)
    requires ValidStage(g) && IsDcFirst(g.s)
    requires forall pl :: pl in g.source ==> |g.source[pl]| == BLOCK && Small(g.source[pl][0])
    ensures StageFits(g)
  {
    hide ValidStage, Recoverable, Shifted, ValidProg, ValidScanPlan;
    PlanOfStage(g);
    var dcs := DcTracesOf(g.s, StageMcus(g), g.path.interval);
    forall k | 0 <= k < |dcs|
      ensures SmallDcs(dcs[k])
    {
      McuPlaces(g, g.source, k);
      var places := g.path.mcus[k];
      forall j | 0 <= j < |dcs[k]|
        ensures |dcs[k][j]| == BLOCK && Small(dcs[k][j][0])
      {
        ShiftedSmall(g.source[places[j]][0], g.s.al);
      }
    }
    forall k | 0 <= k < |g.path.mcus|
      ensures McuReadable(g, k)
    {
      SmallRecoverable(g.s.plan, dcs, g.path.interval, k);
    }
  }
}
