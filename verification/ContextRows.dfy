// The main buffer controller of the decompressor when upsampling needs context rows: two
// lists of row pointers into one workspace, arranged so that the rows above and below each
// row group appear to be its neighbours.

module ContextRows {
  import opened CodeBits

  // Rows of a row group, row groups of an iMCU row, and rows of the image, for one component.
  datatype Geometry = Geometry(r: nat, m: nat, height: nat)

  predicate ValidGeometry(g: Geometry) {
    g.r >= 1 && g.m >= 2 && g.height >= 1
  }

  function IMcuHeight(g: Geometry): nat { g.r * g.m }

  lemma IMcuHeightBound(g: Geometry)
    requires ValidGeometry(g)
    ensures IMcuHeight(g) >= 2 * g.r
  {
    assert g.m * g.r >= 2 * g.r;
  }

  // Number of iMCU rows, real rows in the last of them, and real row groups.
  function TotalIMcuRows(g: Geometry): (t: nat)
    requires ValidGeometry(g)
    ensures t >= 1
  {
    IMcuHeightBound(g);
    (g.height - 1) / IMcuHeight(g) + 1
  }

  function RowsLeft(g: Geometry): (n: int)
    requires ValidGeometry(g)
    ensures 1 <= n <= IMcuHeight(g) && (TotalIMcuRows(g) - 1) * IMcuHeight(g) + n == g.height
  {
    IMcuHeightBound(g);
    g.height - (TotalIMcuRows(g) - 1) * IMcuHeight(g)
  }

  // The row count that the source computes.
  lemma RowsLeftIsRemainder(g: Geometry)
    requires ValidGeometry(g)
    ensures IMcuHeight(g) > 0
    ensures RowsLeft(g) == if g.height % IMcuHeight(g) == 0 then IMcuHeight(g) else g.height % IMcuHeight(g)
  {
    IMcuHeightBound(g);
    var q, h := TotalIMcuRows(g) - 1, IMcuHeight(g);
    if RowsLeft(g) == h {
      DivideExactly(q + 1, h, 0);
      assert (q + 1) * h == q * h + h;
    } else {
      DivideExactly(q, h, RowsLeft(g));
    }
  }

  // ----- What should be seen -----

  // Image row n below or above the image is the last or the first row of it. Only the row
  // group before the last iMCU row sees rows of that iMCU row as they are.
  function RowSeen(g: Geometry, y: int, postponed: bool): int {
    if y < 0 then 0 else if y < g.height || postponed then y else g.height - 1
  }

  // Row group n is postponed until the last iMCU row has been read.
  predicate BeforeLast(g: Geometry, n: nat)
    requires ValidGeometry(g)
  {
    n + 1 == (TotalIMcuRows(g) - 1) * g.m
  }

  // Row group n with the row groups above and below it.
  function Presented(g: Geometry, n: nat): (rows: seq<int>)
    requires ValidGeometry(g)
    ensures |rows| == 3 * g.r
  {
    seq(3 * g.r, j => RowSeen(g, (n - 1) * g.r + j, BeforeLast(g, n)))
  }

  // Number of row groups with a real row.
  function RealGroups(g: Geometry): nat
    requires ValidGeometry(g)
  {
    (g.height - 1) / g.r + 1
  }

  // Real row groups of the last iMCU row.
  function LastGroups(g: Geometry): (n: nat)
    requires ValidGeometry(g)
    ensures 1 <= n
  {
    (RowsLeft(g) - 1) / g.r + 1
  }

  lemma LastGroupsFit(g: Geometry)
    requires ValidGeometry(g)
    ensures (LastGroups(g) - 1) * g.r < RowsLeft(g) <= LastGroups(g) * g.r
    ensures LastGroups(g) <= g.m
    ensures RealGroups(g) == (TotalIMcuRows(g) - 1) * g.m + LastGroups(g)
  {
    GroupBounds(RowsLeft(g) - 1, g.r, g.m);
    var k, q := LastGroups(g) - 1, TotalIMcuRows(g) - 1;
    Regroup(q, g.r, g.m);
    assert (q * g.m + k) * g.r == (q * g.m) * g.r + k * g.r;
    DivideExactly(q * g.m + k, g.r, RowsLeft(g) - 1 - k * g.r);
  }

  lemma Regroup(q: nat, r: nat, m: nat)
    ensures q * (r * m) == (q * m) * r
  {
  }

  lemma GroupBounds(n: nat, r: nat, m: nat)
    requires r > 0 && n < r * m
    ensures n / r * r <= n < (n / r + 1) * r && (n / r + 1) * r == n / r * r + r
    ensures n / r < m
  {
    var k := n / r;
    assert n == k * r + n % r && n % r < r;
    if k >= m {
      MulMonotone(m, k, r);
    }
  }

  // ----- Lists of row pointers -----

  // Row s of list w: in the second list the last four row groups are in swapped order.
  function Base(h: nat, r: nat, w: nat, s: nat): nat
    requires h >= 2 * r
  {
    if w == 0 then s
    else if h - 2 * r <= s < h then s + 2 * r
    else if h <= s < h + 2 * r then s - 2 * r
    else s
  }

  // The rows of a list proper; entry s + r is row s.
  ghost predicate Middle(h: nat, r: nat, w: nat, x: seq<nat>) {
    h >= 2 * r && |x| == h + 4 * r && forall a :: r <= a < h + 3 * r ==> x[a] == Base(h, r, w, a - r)
  }

  // The row group above duplicates the first row.
  ghost predicate TopOfImage(h: nat, r: nat, x: seq<nat>) {
    |x| == h + 4 * r && forall a :: 0 <= a < r ==> x[a] == 0
  }

  // The row groups above and below are the last and the first of the list.
  ghost predicate Wrapped(h: nat, r: nat, w: nat, x: seq<nat>) {
    && h >= 2 * r && |x| == h + 4 * r
    && (forall a :: 0 <= a < r ==> x[a] == Base(h, r, w, h + r + a))
    && (forall a :: h + 3 * r <= a < h + 4 * r ==> x[a] == Base(h, r, w, a - h - 3 * r))
  }

  // One list, at the top of the image or in the normal state.
  ghost predicate ListOf(h: nat, r: nat, w: nat, x: seq<nat>, wrapped: bool) {
    Middle(h, r, w, x) && if wrapped then Wrapped(h, r, w, x) else w == 0 ==> TopOfImage(h, r, x)
  }

  ghost predicate Lists(h: nat, r: nat, x0: seq<nat>, x1: seq<nat>, wrapped: bool) {
    ListOf(h, r, 0, x0, wrapped) && ListOf(h, r, 1, x1, wrapped)
  }

  // ----- The workspace -----

  // iMCU row u is in the workspace as list w shows it, with the last two row groups of the
  // iMCU row before behind it.
  ghost predicate Holds(h: nat, r: nat, w: nat, work: seq<int>, u: nat) {
    && h >= 2 * r && |work| == h + 2 * r
    && (forall s :: 0 <= s < h ==> work[Base(h, r, w, s)] == u * h + s)
    && (u > 0 ==> forall s :: h <= s < h + 2 * r ==> work[Base(h, r, w, s)] == u * h + s - h - 2 * r)
  }

  // Through list x the workspace shows the rows from r rows above iMCU row u up to n rows.
  ghost predicate Shows(g: Geometry, x: seq<nat>, work: seq<int>, u: nat, n: nat) {
    && n <= |x|
    && (forall a :: 0 <= a < n ==> x[a] < |work|)
    && forall a :: 0 <= a < n ==> work[x[a]] == RowSeen(g, u * IMcuHeight(g) + a - g.r, false)
  }

  // Reading the next iMCU row through the other list, v, keeps the last two row groups.
  lemma NextRow(h: nat, r: nat, w: nat, v: nat, work: seq<int>, next: seq<int>, u: nat)
    requires w < 2 && v == 1 - w && Holds(h, r, w, work, u) && |next| == |work|
    requires forall s :: 0 <= s < h ==> next[Base(h, r, v, s)] == (u + 1) * h + s
    requires forall s :: h <= s < h + 2 * r ==> next[Base(h, r, v, s)] == work[Base(h, r, v, s)]
    ensures Holds(h, r, v, next, u + 1)
  {
    assert (u + 1) * h == u * h + h;
    forall s | h <= s < h + 2 * r
      ensures next[Base(h, r, v, s)] == (u + 1) * h + s - h - 2 * r
    {
      assert Base(h, r, v, s) == Base(h, r, w, s - 2 * r);
    }
  }

  // The list of an iMCU row that is not the last shows it with the row group above.
  lemma ShowsInside(g: Geometry, w: nat, x: seq<nat>, work: seq<int>, u: nat)
    requires ValidGeometry(g) && w < 2 && u + 1 < TotalIMcuRows(g) && (u == 0 ==> w == 0)
    requires ListOf(IMcuHeight(g), g.r, w, x, u > 0) && Holds(IMcuHeight(g), g.r, w, work, u)
    ensures Shows(g, x, work, u, IMcuHeight(g) + g.r)
  {
    hide TotalIMcuRows, IMcuHeight;
    var h, r := IMcuHeight(g), g.r;
    InsideImage(g, u);
    forall a | 0 <= a < h + r
      ensures x[a] < |work| && work[x[a]] == RowSeen(g, u * h + a - r, false)
    {
      RowAbove(g, w, x, work, u, a);
    }
  }

  // A row from the row group above or from iMCU row u itself.
  lemma RowAbove(g: Geometry, w: nat, x: seq<nat>, work: seq<int>, u: nat, a: nat)
    requires ValidGeometry(g) && w < 2 && u < TotalIMcuRows(g) && (u == 0 ==> w == 0)
    requires ListOf(IMcuHeight(g), g.r, w, x, u > 0) && Holds(IMcuHeight(g), g.r, w, work, u)
    requires a < IMcuHeight(g) + g.r && (a >= g.r ==> u * IMcuHeight(g) + a - g.r < g.height)
    ensures x[a] < |work| && work[x[a]] == RowSeen(g, u * IMcuHeight(g) + a - g.r, false)
  {
    hide TotalIMcuRows, IMcuHeight;
    var h, r := IMcuHeight(g), g.r;
    InsideImage(g, u);
    if a < r {
      if u > 0 {
        MulMonotone(1, u, h);
      } else {
        assert work[Base(h, r, 0, 0)] == 0;
      }
    }
  }

  lemma InsideImage(g: Geometry, u: nat)
    requires ValidGeometry(g) && u < TotalIMcuRows(g)
    ensures IMcuHeight(g) >= 2 * g.r && u * IMcuHeight(g) < g.height
    ensures u + 1 < TotalIMcuRows(g) ==> (u + 1) * IMcuHeight(g) < g.height
    ensures u + 1 == TotalIMcuRows(g) ==> u * IMcuHeight(g) + RowsLeft(g) == g.height
    ensures (u + 1) * IMcuHeight(g) == u * IMcuHeight(g) + IMcuHeight(g)
  {
    IMcuHeightBound(g);
    if u + 1 < TotalIMcuRows(g) {
      MulMonotone(u + 1, TotalIMcuRows(g) - 1, IMcuHeight(g));
    }
  }

  // In the last iMCU row the pointers behind the last real row duplicate it.
  ghost predicate BottomOf(x: seq<nat>, y: seq<nat>, left: nat, r: nat) {
    && |y| == |x| && left >= 1 && left + 3 * r <= |x|
    && (forall a :: 0 <= a < left + r ==> y[a] == x[a])
    && (forall a :: left + r <= a < left + 3 * r ==> y[a] == x[left + r - 1])
  }

  lemma ShowsBottom(g: Geometry, w: nat, x: seq<nat>, y: seq<nat>, work: seq<int>, u: nat)
    requires ValidGeometry(g) && w < 2 && u + 1 == TotalIMcuRows(g) && (u == 0 ==> w == 0)
    requires ListOf(IMcuHeight(g), g.r, w, x, u > 0) && Holds(IMcuHeight(g), g.r, w, work, u)
    requires BottomOf(x, y, RowsLeft(g), g.r)
    ensures Shows(g, y, work, u, (LastGroups(g) + 2) * g.r)
  {
    hide TotalIMcuRows, IMcuHeight, RowsLeft, LastGroups;
    var h, r, left := IMcuHeight(g), g.r, RowsLeft(g);
    InsideImage(g, u);
    LastGroupsFit(g);
    assert (LastGroups(g) + 2) * r == (LastGroups(g) - 1) * r + 3 * r;
    forall a | 0 <= a < left + 3 * r
      ensures y[a] < |work| && work[y[a]] == RowSeen(g, u * h + a - r, false)
    {
      RowAbove(g, w, x, work, u, if a < left + r then a else left + r - 1);
    }
  }

  // From entry `from` of list x on the workspace shows these rows.
  ghost predicate ShowsAt(x: seq<nat>, work: seq<int>, from: nat, rows: seq<int>) {
    from + |rows| <= |x| && forall j :: 0 <= j < |rows| ==> EntryShows(x, work, from + j, rows[j])
  }

  ghost predicate EntryShows(x: seq<nat>, work: seq<int>, a: nat, row: int) {
    a < |x| && x[a] < |work| && work[x[a]] == row
  }

  // The postponed row group and its neighbours, at index m + 1 of the other list.
  lemma ShowsPostponed(g: Geometry, w: nat, x: seq<nat>, work: seq<int>, u: nat)
    requires ValidGeometry(g) && w < 2 && 0 < u < TotalIMcuRows(g)
    requires ListOf(IMcuHeight(g), g.r, w, x, true) && Holds(IMcuHeight(g), g.r, w, work, u)
    ensures u * g.m >= 1
    ensures ShowsAt(x, work, IMcuHeight(g) + g.r, Presented(g, u * g.m - 1))
  {
    hide TotalIMcuRows, BeforeLast, Holds, Wrapped;
    var h, r, n := IMcuHeight(g), g.r, u * g.m - 1;
    MulMonotone(1, u, g.m);
    var rows := Presented(g, n);
    forall j | 0 <= j < |rows|
      ensures EntryShows(x, work, h + r + j, rows[j])
    {
      RowOfPostponed(g, w, x, work, u, j);
      assert rows[j] == RowSeen(g, (n - 1) * r + j, BeforeLast(g, n));
    }
  }

  lemma RowOfPostponed(g: Geometry, w: nat, x: seq<nat>, work: seq<int>, u: nat, j: nat)
    requires ValidGeometry(g) && w < 2 && 0 < u < TotalIMcuRows(g) && j < 3 * g.r
    requires ListOf(IMcuHeight(g), g.r, w, x, true) && Holds(IMcuHeight(g), g.r, w, work, u)
    ensures u * g.m >= 1 && |x| == IMcuHeight(g) + 4 * g.r
    ensures var a := IMcuHeight(g) + g.r + j;
      x[a] < |work| && work[x[a]] == RowSeen(g, (u * g.m - 2) * g.r + j, BeforeLast(g, u * g.m - 1))
  {
    hide TotalIMcuRows, IMcuHeight;
    MulMonotone(1, u, g.m);
    MulMonotone(1, u, IMcuHeight(g));
    InsideImage(g, u);
    GroupRow(g, u);
    SameProduct(u, TotalIMcuRows(g) - 1, g.m);
    var a := IMcuHeight(g) + g.r + j;
    assert x[a] == x[a];
  }

  lemma GroupRow(g: Geometry, u: nat)
    ensures (u * g.m - 2) * g.r == u * IMcuHeight(g) - 2 * g.r
  {
    Regroup(u, g.r, g.m);
  }

  lemma SameProduct(u: nat, v: nat, m: nat)
    requires m > 0
    ensures u * m == v * m <==> u == v
  {
    if u < v {
      MulMonotone(u + 1, v, m);
    } else if u > v {
      MulMonotone(v + 1, u, m);
    }
  }

  // A row group c of iMCU row u that is shown without delay.
  lemma ShowsGroup(g: Geometry, x: seq<nat>, work: seq<int>, u: nat, c: nat, n: nat)
    requires ValidGeometry(g) && u < TotalIMcuRows(g) && Shows(g, x, work, u, n)
    requires (c + 3) * g.r <= n
    requires if u + 1 < TotalIMcuRows(g) then c + 1 < g.m else true
    ensures ShowsAt(x, work, c * g.r, Presented(g, u * g.m + c))
  {
    hide TotalIMcuRows, BeforeLast;
    var r, k := g.r, u * g.m + c;
    assert (c + 3) * r == c * r + 3 * r;
    assert (k - 1) * r == u * IMcuHeight(g) + c * r - r by {
      Regroup(u, r, g.m);
      assert (k - 1) * r == (u * g.m) * r + (c - 1) * r;
      assert (c - 1) * r == c * r - r;
    }
    NotBeforeLast(g, u, c);
    var rows := Presented(g, k);
    forall j | 0 <= j < |rows|
      ensures EntryShows(x, work, c * r + j, rows[j])
    {
      var a := c * r + j;
      assert a < n;
    }
  }

  lemma NotBeforeLast(g: Geometry, u: nat, c: nat)
    requires ValidGeometry(g) && u < TotalIMcuRows(g)
    requires if u + 1 < TotalIMcuRows(g) then c + 1 < g.m else true
    ensures !BeforeLast(g, u * g.m + c)
  {
    var t := TotalIMcuRows(g) - 1;
    if u < t {
      MulMonotone(u + 1, t, g.m);
      assert (u + 1) * g.m == u * g.m + g.m;
    }
  }

  datatype ContextState = PrepareForIMcu | ProcessIMcu | PostponedRow

  class MainController {
    const g: Geometry
    const work: array<int>         // the workspace: m + 2 row groups of rows, each named by its number in the image
    const xbuffer0: array<nat>     // pointer lists; entry s + r is row s, negative rows come first
    const xbuffer1: array<nat>
    var bufferFull: bool
    var rowgroupCtr: nat
    var whichptr: nat
    var contextState: ContextState
    var rowgroupsAvail: nat
    var iMcuRowCtr: nat
    ghost var shown: seq<seq<int>> // row groups that the postprocessor has finished, with their neighbours

    ghost predicate Shape()
      reads this, work, xbuffer0, xbuffer1
    {
      && ValidGeometry(g) && IMcuHeight(g) >= 2 * g.r
      && work.Length == IMcuHeight(g) + 2 * g.r
      && xbuffer0.Length == xbuffer1.Length == IMcuHeight(g) + 4 * g.r
      && xbuffer0 != xbuffer1 && work as object != xbuffer0 as object && work as object != xbuffer1 as object
      && whichptr < 2
    }

    function Current(): array<nat>
      reads this
    {
      if whichptr == 0 then xbuffer0 else xbuffer1
    }

    ghost predicate ListsOf(wrapped: bool)
      requires ValidGeometry(g)
      reads this, xbuffer0, xbuffer1
    {
      Lists(IMcuHeight(g), g.r, xbuffer0[..], xbuffer1[..], wrapped)
    }

    // The row groups shown are the first ones of the image, in order and as they should be.
    ghost predicate InOrder()
      requires ValidGeometry(g)
      reads this
    {
      forall n :: 0 <= n < |shown| ==> shown[n] == Presented(g, n)
    }

    // Before the first M - 1 row groups of iMCU row u, or of the real ones if it is the last.
    ghost predicate Prepared(u: nat)
      requires ValidGeometry(g)
      reads this, work, xbuffer0, xbuffer1
    {
      && Shape() && InOrder() && bufferFull
      && u < TotalIMcuRows(g) && iMcuRowCtr == u + 1 && whichptr == u % 2 && |shown| == u * g.m
      && ListsOf(u > 0) && Holds(IMcuHeight(g), g.r, u % 2, work[..], u)
    }

    // Before the postponed row group of iMCU row u - 1.
    ghost predicate Postponed(u: nat)
      requires ValidGeometry(g)
      reads this, work, xbuffer0, xbuffer1
    {
      && Shape() && InOrder() && bufferFull
      && 0 < u < TotalIMcuRows(g) && iMcuRowCtr == u + 1 && whichptr == u % 2 && |shown| == u * g.m - 1
      && rowgroupCtr == g.m + 1 && rowgroupsAvail == g.m + 2
      && ListsOf(true) && Holds(IMcuHeight(g), g.r, u % 2, work[..], u)
    }

    // While iMCU row u is fed to the postprocessor.
    ghost predicate Feeding(u: nat)
      requires ValidGeometry(g)
      reads this, work, xbuffer0, xbuffer1
    {
      && Shape() && InOrder() && bufferFull
      && u < TotalIMcuRows(g) && iMcuRowCtr == u + 1 && whichptr == u % 2 && |shown| == u * g.m + rowgroupCtr
      && rowgroupCtr <= rowgroupsAvail == (if u + 1 == TotalIMcuRows(g) then LastGroups(g) else g.m - 1)
      && Shows(g, Current()[..], work[..], u, (rowgroupsAvail + 2) * g.r)
      && (u + 1 < TotalIMcuRows(g) ==> ListsOf(u > 0) && Holds(IMcuHeight(g), g.r, u % 2, work[..], u))
    }

    // Between iMCU row u and the next one, or at the end.
    ghost predicate Waiting(u: nat)
      requires ValidGeometry(g)
      reads this, work, xbuffer0, xbuffer1
    {
      && Shape() && InOrder() && !bufferFull && iMcuRowCtr == u + 1
      && rowgroupCtr == g.m + 1 && rowgroupsAvail == g.m + 2
      && if u + 1 < TotalIMcuRows(g) then
           && whichptr == (u + 1) % 2 && |shown| == (u + 1) * g.m - 1
           && ListsOf(true) && Holds(IMcuHeight(g), g.r, u % 2, work[..], u)
         else |shown| == RealGroups(g)
    }

    ghost predicate Valid()
      reads this, work, xbuffer0, xbuffer1
    {
      && Shape() && InOrder() && iMcuRowCtr <= TotalIMcuRows(g)
      && if iMcuRowCtr == 0 then
           !bufferFull && contextState == PrepareForIMcu && whichptr == 0 && ListsOf(false) && shown == []
         else
           var u := iMcuRowCtr - 1;
           match contextState
           case PrepareForIMcu => Prepared(u)
           case ProcessIMcu => Feeding(u) && rowgroupCtr < rowgroupsAvail
           case PostponedRow => if bufferFull then Postponed(u) else Waiting(u)
    }

    // All row groups of the image have been shown.
    predicate Finished()
      requires ValidGeometry(g)
      reads this
    {
      iMcuRowCtr == TotalIMcuRows(g) && contextState == PostponedRow && !bufferFull
    }

    // jinit_d_main_controller and start_pass_main
    constructor (geometry: Geometry)
      requires ValidGeometry(geometry)
      ensures Valid() && g == geometry && shown == [] && iMcuRowCtr == 0
      ensures fresh(work) && fresh(xbuffer0) && fresh(xbuffer1)
    {
      g := geometry;
      IMcuHeightBound(geometry);
      var h := IMcuHeight(geometry);
      work := new int[h + 2 * geometry.r];
      xbuffer0 := new nat[h + 4 * geometry.r];
      xbuffer1 := new nat[h + 4 * geometry.r];
      bufferFull, rowgroupCtr, whichptr, rowgroupsAvail, iMcuRowCtr := false, 0, 0, 0, 0;
      contextState, shown := PrepareForIMcu, [];
      new;
      MakeFunnyPointers();
    }

    // make_funny_pointers
    method MakeFunnyPointers()
      requires Shape()
      modifies xbuffer0, xbuffer1
      ensures ListsOf(false)
    {
      CopyPointers(xbuffer0, IMcuHeight(g), g.r);
      CopyPointers(xbuffer1, IMcuHeight(g), g.r);
      SwapLastGroups(xbuffer1, IMcuHeight(g), g.r);
      DuplicateTop(xbuffer0, IMcuHeight(g), g.r);
    }

    // set_wraparound_pointers
    method SetWraparoundPointers()
      requires Shape()
      modifies xbuffer0, xbuffer1
      ensures old(ListsOf(false)) ==> ListsOf(true)
    {
      hide Middle, Wrapped;
      WrapAround(xbuffer0, 0, IMcuHeight(g), g.r);
      WrapAround(xbuffer1, 1, IMcuHeight(g), g.r);
    }

    // set_bottom_pointers
    method SetBottomPointers()
      requires Shape() && Current().Length >= RowsLeft(g) + 3 * g.r
      modifies xbuffer0, xbuffer1, this`rowgroupsAvail
      ensures rowgroupsAvail == LastGroups(g)
      ensures BottomOf(old(Current()[..]), Current()[..], RowsLeft(g), g.r)
    {
      RowsLeftIsRemainder(g);
      var h := IMcuHeight(g);
      var left := g.height % h;
      if left == 0 {
        left := h;
      }
      rowgroupsAvail := (left - 1) / g.r + 1;
      var x := Current();
      DuplicateBottom(x, left, g.r);
    }

    // decompress_data: the next iMCU row goes where the current list points.
    method Receive()
      requires Shape() && Middle(IMcuHeight(g), g.r, whichptr, Current()[..])
      modifies work
      ensures forall s :: 0 <= s < IMcuHeight(g) ==>
        work[Base(IMcuHeight(g), g.r, whichptr, s)] == iMcuRowCtr * IMcuHeight(g) + s
      ensures forall s :: IMcuHeight(g) <= s < IMcuHeight(g) + 2 * g.r ==>
        work[Base(IMcuHeight(g), g.r, whichptr, s)] == old(work[Base(IMcuHeight(g), g.r, whichptr, s)])
    {
      WriteRows(work, Current(), whichptr, IMcuHeight(g), g.r, iMcuRowCtr);
    }

    // post_process_data: up to `take` row groups are finished.
    method PostProcess(take: nat, ghost first: int)
      requires Shape() && rowgroupCtr <= rowgroupsAvail
      requires first + rowgroupCtr == |shown| && InOrder()
      requires forall c :: rowgroupCtr <= c < rowgroupsAvail ==>
        ShowsAt(Current()[..], work[..], c * g.r, Presented(g, first + c))
      modifies this`rowgroupCtr, this`shown
      ensures rowgroupCtr <= rowgroupsAvail && rowgroupCtr == Min(old(rowgroupCtr) + take, rowgroupsAvail)
      ensures |shown| == first + rowgroupCtr && InOrder()
    {
      hide Presented, ShowsAt, ReadRows, IMcuHeight;
      var left := take;
      while left > 0 && rowgroupCtr < rowgroupsAvail
        invariant rowgroupCtr <= rowgroupsAvail && |shown| == first + rowgroupCtr && InOrder()
        invariant old(rowgroupCtr) <= rowgroupCtr && rowgroupCtr + left == old(rowgroupCtr) + take
      {
        assert ShowsAt(Current()[..], work[..], rowgroupCtr * g.r, Presented(g, first + rowgroupCtr));
        ghost var rows := ReadRows(Current()[..], work[..], rowgroupCtr * g.r, 3 * g.r);
        ReadWhatIsShown(Current()[..], work[..], rowgroupCtr * g.r, Presented(g, first + rowgroupCtr));
        shown := shown + [rows];
        rowgroupCtr := rowgroupCtr + 1;
        left := left - 1;
      }
    }

    // Another iMCU row arrives.
    method Fill()
      requires Valid() && !Finished() && !bufferFull
      modifies work, this`bufferFull, this`iMcuRowCtr
      ensures iMcuRowCtr == old(iMcuRowCtr) + 1 && shown == old(shown)
      ensures if contextState == PrepareForIMcu then Prepared(iMcuRowCtr - 1) else Postponed(iMcuRowCtr - 1)
      ensures contextState == PostponedRow || contextState == PrepareForIMcu
    {
      hide Middle, Wrapped, TopOfImage, Holds, TotalIMcuRows, IMcuHeight;
      ghost var before := work[..];
      Receive();
      if iMcuRowCtr == 0 {
        FirstRow(IMcuHeight(g), g.r, work[..]);
      } else {
        ParityFlips(iMcuRowCtr - 1);
        NextRow(IMcuHeight(g), g.r, (iMcuRowCtr - 1) % 2, iMcuRowCtr % 2, before, work[..], iMcuRowCtr - 1);
      }
      bufferFull := true;
      iMcuRowCtr := iMcuRowCtr + 1;
    }

    // The postponed row group.
    method FeedPostponed(take: nat, ghost u: nat)
      requires ValidGeometry(g) && Postponed(u)
      modifies this`rowgroupCtr, this`shown
      ensures take == 0 ==> Postponed(u) && rowgroupCtr < rowgroupsAvail
      ensures take > 0 ==> Prepared(u) && rowgroupCtr == rowgroupsAvail
    {
      hide Middle, Wrapped, Holds, TotalIMcuRows, Presented, ShowsAt;
      ShowsPostponed(g, whichptr, Current()[..], work[..], u);
      assert (g.m + 1) * g.r == IMcuHeight(g) + g.r;
      assert u * g.m - 1 >= 0;
      PostProcess(take, u * g.m - 1 - (g.m + 1));
    }

    // Pointers and counts for the iMCU row just read.
    method Prepare(ghost u: nat)
      requires ValidGeometry(g) && Prepared(u)
      modifies this`rowgroupCtr, this`rowgroupsAvail, this`contextState, xbuffer0, xbuffer1
      ensures Feeding(u) && rowgroupCtr == 0 && contextState == ProcessIMcu && rowgroupsAvail > 0
    {
      hide Middle, Wrapped, Holds, TotalIMcuRows, RowsLeft, LastGroups, Shows, BottomOf, IMcuHeight;
      rowgroupCtr := 0;
      rowgroupsAvail := g.m - 1;
      ghost var x := Current()[..];
      if iMcuRowCtr == TotalIMcuRows(g) {
        LastRowFits(g);
        SetBottomPointers();
        ShowsBottom(g, whichptr, x, Current()[..], work[..], u);
      } else {
        ShowsInside(g, whichptr, x, work[..], u);
        OneGroupMore(g);
      }
      contextState := ProcessIMcu;
    }

    // Row groups that need not wait.
    method Feed(take: nat, ghost u: nat)
      requires ValidGeometry(g) && Feeding(u)
      modifies this`rowgroupCtr, this`shown
      ensures Feeding(u) && rowgroupCtr == Min(old(rowgroupCtr) + take, rowgroupsAvail)
    {
      hide Middle, Wrapped, Holds, TotalIMcuRows, Presented, ShowsAt, Shows, LastGroups;
      forall c | rowgroupCtr <= c < rowgroupsAvail
        ensures ShowsAt(Current()[..], work[..], c * g.r, Presented(g, u * g.m + c))
      {
        MulMonotone(c + 3, rowgroupsAvail + 2, g.r);
        ShowsGroup(g, Current()[..], work[..], u, c, (rowgroupsAvail + 2) * g.r);
      }
      PostProcess(take, u * g.m);
    }

    // After the last row group that need not wait: on to the other list.
    method SwitchLists(ghost u: nat)
      requires ValidGeometry(g) && Feeding(u) && rowgroupCtr == rowgroupsAvail
      modifies this`whichptr, this`bufferFull, this`rowgroupCtr, this`rowgroupsAvail, this`contextState, xbuffer0
      modifies xbuffer1
      ensures Waiting(u) && contextState == PostponedRow && shown == old(shown)
    {
      hide Holds, TotalIMcuRows, Presented, Shows, LastGroups, Lists, ListOf;
      ParityFlips(u);
      if u + 1 == TotalIMcuRows(g) {
        LastGroupsFit(g);
      } else {
        assert (u + 1) * g.m == u * g.m + g.m;
      }
      if iMcuRowCtr == 1 {
        SetWraparoundPointers();
      }
      whichptr := 1 - whichptr;
      bufferFull := false;
      rowgroupCtr := g.m + 1;
      rowgroupsAvail := g.m + 2;
      contextState := PostponedRow;
    }

    // process_data_context_main, called with whatever progress the source and the
    // postprocessor make: ready says whether the source has another iMCU row, takePostponed
    // and take how many row groups the postprocessor can finish, filled whether the postponed
    // one just filled the output buffer.
    method ProcessData(ready: bool, takePostponed: nat, take: nat, filled: bool)
      requires Valid() && !Finished()
      modifies this, work, xbuffer0, xbuffer1
      ensures Valid() && |shown| >= old(|shown|)
      ensures Finished() ==> |shown| == RealGroups(g)
      ensures ready && take > 0 && takePostponed > 0 ==> |shown| > old(|shown|)
    {
      hide Holds, TotalIMcuRows, Presented, Shows, LastGroups, Lists, ListOf;
      if !bufferFull {
        if !ready {
          return;
        }
        Fill();
      }
      ghost var u: nat := iMcuRowCtr - 1;
      if contextState == PostponedRow {
        FeedPostponed(takePostponed, u);
        if rowgroupCtr < rowgroupsAvail {
          return;
        }
        contextState := PrepareForIMcu;
        if filled {
          return;
        }
      }
      if contextState == PrepareForIMcu {
        Prepare(u);
      }
      Feed(take, u);
      if rowgroupCtr < rowgroupsAvail {
        return;
      }
      SwitchLists(u);
    }
  }

  // One call: see ProcessData.
  datatype Progress = Progress(ready: bool, takePostponed: nat, take: nat, filled: bool)

  // Every call makes progress.
  predicate Eager(calls: seq<Progress>) {
    forall i :: 0 <= i < |calls| ==> calls[i].ready && calls[i].take > 0 && calls[i].takePostponed > 0
  }

  // Main result: whatever the progress, the row groups shown are the first ones of the image,
  // each once and in order; when the controller is through they are all of them.
  method ShowImage(g: Geometry, calls: seq<Progress>) returns (c: MainController, done: bool)
    requires ValidGeometry(g)
    ensures c.g == g && (done ==> |c.shown| == RealGroups(g))
    ensures forall n :: 0 <= n < |c.shown| ==> c.shown[n] == Presented(g, n)
    ensures !done && Eager(calls) ==> |c.shown| >= |calls|
  {
    c := new MainController(g);
    done := false;
    for i := 0 to |calls|
      invariant fresh(c) && fresh(c.work) && fresh(c.xbuffer0) && fresh(c.xbuffer1)
      invariant c.g == g && c.Valid() && !c.Finished()
      invariant Eager(calls[..i]) ==> |c.shown| >= i
    {
      hide MainController.Valid;
      assert Eager(calls[..i + 1]) ==> Eager(calls[..i]) && calls[i] == calls[..i + 1][i];
      c.ProcessData(calls[i].ready, calls[i].takePostponed, calls[i].take, calls[i].filled);
      if c.Finished() {
        done := true;
        assert c.InOrder() by { IsInOrder(c); }
        return;
      }
    }
  }

  lemma IsInOrder(c: MainController)
    requires c.Valid()
    ensures ValidGeometry(c.g) && c.InOrder()
  {
  }

  // ----- Are these the true neighbours? -----

  // The rows of the image, with the first and the last duplicated above and below.
  function TrueRow(g: Geometry, y: int): int {
    if y < 0 then 0 else if y < g.height then y else g.height - 1
  }

  ghost predicate TrueNeighbours(g: Geometry, n: nat)
    requires ValidGeometry(g)
  {
    forall j :: 0 <= j < 3 * g.r ==> Presented(g, n)[j] == TrueRow(g, (n - 1) * g.r + j)
  }

  // The row above a row group, its own real rows and the row below are always right.
  lemma NearestRowsAreTrue(g: Geometry, n: nat, j: nat)
    requires ValidGeometry(g) && n < RealGroups(g) && g.r - 1 <= j <= 2 * g.r
    requires g.r <= j < 2 * g.r ==> (n - 1) * g.r + j < g.height
    ensures Presented(g, n)[j] == TrueRow(g, (n - 1) * g.r + j)
  {
    hide TotalIMcuRows, RealGroups;
    GroupInside(g, n);
    assert (n - 1) * g.r == n * g.r - g.r;
    if BeforeLast(g, n) {
      InsideImage(g, TotalIMcuRows(g) - 1);
      Regroup(TotalIMcuRows(g) - 1, g.r, g.m);
      assert (n + 1) * g.r == n * g.r + g.r;
    }
  }

  lemma GroupInside(g: Geometry, n: nat)
    requires ValidGeometry(g) && n < RealGroups(g)
    ensures n * g.r < g.height
  {
    var q := (g.height - 1) / g.r;
    assert g.height - 1 == q * g.r + (g.height - 1) % g.r;
    MulMonotone(n, q, g.r);
  }

  lemma PresentedAt(g: Geometry, n: nat, j: nat)
    requires ValidGeometry(g) && j < 3 * g.r
    ensures Presented(g, n)[j] == RowSeen(g, (n - 1) * g.r + j, BeforeLast(g, n))
  {
  }

  // Rows further below are right exactly if the last iMCU row has a full row group of real
  // rows, or there is only one iMCU row: the row group postponed until the last iMCU row has
  // arrived sees its padding.
  lemma ContextIsTrueIff(g: Geometry)
    requires ValidGeometry(g)
    ensures (forall n :: 0 <= n < RealGroups(g) ==> TrueNeighbours(g, n)) <==>
      TotalIMcuRows(g) == 1 || RowsLeft(g) >= g.r
  {
    hide TotalIMcuRows, RowsLeft, RealGroups, TrueNeighbours, Presented, BeforeLast;
    if TotalIMcuRows(g) == 1 || RowsLeft(g) >= g.r {
      forall n | 0 <= n < RealGroups(g)
        ensures TrueNeighbours(g, n)
      {
        ContextIsTrue(g, n);
      }
    } else {
      var n := ContextIsPadded(g);
    }
  }

  lemma ContextIsTrue(g: Geometry, n: nat)
    requires ValidGeometry(g) && (TotalIMcuRows(g) == 1 || RowsLeft(g) >= g.r)
    ensures TrueNeighbours(g, n)
  {
    hide TotalIMcuRows, RowsLeft, Presented;
    forall j | 0 <= j < 3 * g.r
      ensures Presented(g, n)[j] == TrueRow(g, (n - 1) * g.r + j)
    {
      PresentedAt(g, n, j);
      if BeforeLast(g, n) {
        LastSeen(g, n);
      }
    }
  }

  lemma ContextIsPadded(g: Geometry) returns (n: nat)
    requires ValidGeometry(g) && TotalIMcuRows(g) > 1 && RowsLeft(g) < g.r
    ensures n < RealGroups(g) && !TrueNeighbours(g, n)
  {
    hide TotalIMcuRows, RowsLeft, Presented, RealGroups;
    var t := TotalIMcuRows(g) - 1;
    MulMonotone(1, t, g.m);
    n := t * g.m - 1;
    LastGroupsFit(g);
    LastSeen(g, n);
    MulMonotone(0, n - 1, g.r);
    var j := 2 * g.r + RowsLeft(g);
    PresentedAt(g, n, j);
    assert Presented(g, n)[j] != TrueRow(g, (n - 1) * g.r + j);
  }

  // The row group before the last iMCU row ends where that begins.
  lemma LastSeen(g: Geometry, n: nat)
    requires ValidGeometry(g) && BeforeLast(g, n)
    ensures (n - 1) * g.r + 2 * g.r + RowsLeft(g) == g.height
  {
    hide TotalIMcuRows, RowsLeft;
    var t := TotalIMcuRows(g) - 1;
    InsideImage(g, t);
    Regroup(t, g.r, g.m);
    assert (n + 1) * g.r == (n - 1) * g.r + 2 * g.r;
  }

  // Five rows in row groups of two: row group 1 is followed by row 4 and a row of padding.
  lemma PaddingIsSeen()
    ensures var g := Geometry(2, 2, 5);
      Presented(g, 1) == [0, 1, 2, 3, 4, 5] && !TrueNeighbours(g, 1)
  {
    hide TotalIMcuRows, Presented;
    var g := Geometry(2, 2, 5);
    TwoIMcuRows();
    forall j | 0 <= j < 6
      ensures Presented(g, 1)[j] == j
    {
      PresentedAt(g, 1, j);
    }
    assert Presented(g, 1)[5] != TrueRow(g, (1 - 1) * g.r + 5);
  }

  lemma TwoIMcuRows()
    ensures TotalIMcuRows(Geometry(2, 2, 5)) == 2
  {
    assert IMcuHeight(Geometry(2, 2, 5)) == 4;
  }

  lemma LastRowFits(g: Geometry)
    requires ValidGeometry(g)
    ensures RowsLeft(g) + 3 * g.r <= IMcuHeight(g) + 4 * g.r
  {
  }

  lemma OneGroupMore(g: Geometry)
    ensures (g.m - 1 + 2) * g.r == IMcuHeight(g) + g.r
  {
  }

  lemma FirstRow(h: nat, r: nat, work: seq<int>)
    requires h >= 2 * r && |work| == h + 2 * r && forall s :: 0 <= s < h ==> work[Base(h, r, 0, s)] == 0 * h + s
    ensures Holds(h, r, 0, work, 0)
  {
  }

  lemma ParityFlips(u: nat)
    ensures (u + 1) % 2 == 1 - u % 2 && u % 2 < 2
  {
  }

  function Min(a: nat, b: nat): nat { if a < b then a else b }

  // What the postprocessor finds from entry `from` of a list on.
  ghost function ReadRows(x: seq<nat>, work: seq<int>, from: nat, n: nat): (rows: seq<int>)
    ensures |rows| == n
  {
    seq(n, j requires 0 <= j < n => if from + j < |x| && x[from + j] < |work| then work[x[from + j]] else 0)
  }

  lemma ReadWhatIsShown(x: seq<nat>, work: seq<int>, from: nat, rows: seq<int>)
    requires ShowsAt(x, work, from, rows)
    ensures ReadRows(x, work, from, |rows|) == rows
  {
    forall j | 0 <= j < |rows|
      ensures ReadRows(x, work, from, |rows|)[j] == rows[j]
    {
      assert EntryShows(x, work, from + j, rows[j]);
    }
  }

  // The last real row, just before entry left + r, is duplicated behind itself.
  method DuplicateBottom(x: array<nat>, left: nat, r: nat)
    requires left >= 1 && left + 3 * r <= x.Length
    modifies x
    ensures BottomOf(old(x[..]), x[..], left, r)
  {
    var i := 0;
    while i < 2 * r
      invariant 0 <= i <= 2 * r
      invariant forall a :: 0 <= a < left + r ==> x[a] == old(x[a])
      invariant forall a :: left + r <= a < left + r + i ==> x[a] == old(x[left + r - 1])
    {
      x[left + r + i] := x[left + r - 1];
      i := i + 1;
    }
  }

  // iMCU row u is written through the pointers of list w.
  method WriteRows(work: array<int>, x: array<nat>, ghost w: nat, h: nat, r: nat, u: nat)
    requires w < 2 && h >= 2 * r && work.Length == h + 2 * r && Middle(h, r, w, x[..])
    requires work as object != x as object
    modifies work
    ensures forall s :: 0 <= s < h ==> work[Base(h, r, w, s)] == u * h + s
    ensures forall s :: h <= s < h + 2 * r ==> work[Base(h, r, w, s)] == old(work[Base(h, r, w, s)])
  {
    ghost var x0 := x[..];
    var i := 0;
    while i < h
      invariant 0 <= i <= h && x[..] == x0
      invariant forall s :: 0 <= s < i ==> work[Base(h, r, w, s)] == u * h + s
      invariant forall s :: h <= s < h + 2 * r ==> work[Base(h, r, w, s)] == old(work[Base(h, r, w, s)])
    {
      assert x0[i + r] == Base(h, r, w, i);
      work[x[i + r]] := u * h + i;
      i := i + 1;
    }
  }

  // The workspace pointers as they are.
  method CopyPointers(x: array<nat>, h: nat, r: nat)
    requires x.Length == h + 4 * r
    modifies x
    ensures forall a :: r <= a < h + 3 * r ==> x[a] == a - r
  {
    var i := 0;
    while i < h + 2 * r
      invariant 0 <= i <= h + 2 * r
      invariant forall a :: r <= a < i + r ==> x[a] == a - r
    {
      x[i + r] := i;
      i := i + 1;
    }
  }

  // In the second list the last four row groups are in swapped order.
  method SwapLastGroups(x: array<nat>, h: nat, r: nat)
    requires h >= 2 * r && x.Length == h + 4 * r && forall a :: r <= a < h + 3 * r ==> x[a] == a - r
    modifies x
    ensures Middle(h, r, 1, x[..])
  {
    var i := 0;
    while i < 2 * r
      invariant 0 <= i <= 2 * r
      invariant forall a :: r <= a < h - r ==> x[a] == a - r
      invariant forall a :: h - r <= a < h + r ==> x[a] == if a < h - r + i then a + r else a - r
      invariant forall a :: h + r <= a < h + 3 * r ==> x[a] == if a < h + r + i then a - 3 * r else a - r
    {
      x[h - r + i] := h + i;
      x[h + r + i] := h - 2 * r + i;
      i := i + 1;
    }
  }

  // At first the row group above the image duplicates its first row.
  method DuplicateTop(x: array<nat>, h: nat, r: nat)
    requires h >= 2 * r && r >= 1 && x.Length == h + 4 * r && forall a :: r <= a < h + 3 * r ==> x[a] == a - r
    modifies x
    ensures Middle(h, r, 0, x[..]) && TopOfImage(h, r, x[..])
  {
    var i := 0;
    while i < r
      invariant 0 <= i <= r
      invariant forall a :: r <= a < h + 3 * r ==> x[a] == a - r
      invariant forall a :: 0 <= a < i ==> x[a] == 0
    {
      x[i] := x[r];
      i := i + 1;
    }
  }

  // Above and below, the list wraps around.
  method WrapAround(x: array<nat>, ghost w: nat, h: nat, r: nat)
    requires h >= 2 * r && x.Length == h + 4 * r
    modifies x
    ensures old(Middle(h, r, w, x[..])) ==> ListOf(h, r, w, x[..], true)
  {
    hide Base;
    ghost var good := Middle(h, r, w, x[..]);
    var i := 0;
    while i < r
      invariant 0 <= i <= r
      invariant good ==> forall a :: r <= a < h + 3 * r ==> x[a] == Base(h, r, w, a - r)
      invariant good ==> forall a :: 0 <= a < i ==> x[a] == Base(h, r, w, h + r + a)
      invariant good ==> forall a :: h + 3 * r <= a < h + 3 * r + i ==> x[a] == Base(h, r, w, a - h - 3 * r)
    {
      x[i] := x[h + 2 * r + i];
      x[h + 3 * r + i] := x[r + i];
      i := i + 1;
    }
  }
}
