// The passes of a compression run: statistics and output of one scan after the other, with
// or without a first pass that reads the image, until the last pass is through.

module PassSequence {

  // The parameters of a scan that decide whether it needs a Huffman table.
  datatype Scan = Scan(ss: nat, ah: nat)

  // What a run does, in the order it does it.
  datatype Event = FrameHeader | ScanHeader(scan: nat) | ScanData(scan: nat) | Statistics(scan: nat) | Trailer

  datatype PassType = MainPass | HuffOptPass | OutputPass

  datatype Job = Job(scans: seq<Scan>, optimize: bool, transcode: bool)

  // A DC refinement scan after the first pass needs no table and hence no statistics.
  predicate NeedsStatistics(job: Job, k: nat)
    requires k < |job.scans|
  {
    job.optimize && ((k == 0 && !job.transcode) || job.scans[k].ss != 0 || job.scans[k].ah == 0)
  }

  function StatisticsOf(job: Job, k: nat): seq<Event>
    requires k < |job.scans|
  {
    if NeedsStatistics(job, k) then [Statistics(k)] else []
  }

  function HeadersOf(k: nat): seq<Event> {
    if k == 0 then [FrameHeader, ScanHeader(k)] else [ScanHeader(k)]
  }

  // Everything about scan k.
  function ScanEvents(job: Job, k: nat): seq<Event>
    requires k < |job.scans|
  {
    StatisticsOf(job, k) + HeadersOf(k) + [ScanData(k)]
  }

  // Everything about the first n scans.
  function Events(job: Job, n: nat): seq<Event>
    requires n <= |job.scans|
  {
    if n == 0 then [] else Events(job, n - 1) + ScanEvents(job, n - 1)
  }

  // What has been done when the data of scan k is about to be counted or put out.
  function BeforeData(job: Job, k: nat, gathering: bool): seq<Event>
    requires k < |job.scans|
  {
    if gathering then Events(job, k) else Events(job, k) + StatisticsOf(job, k) + HeadersOf(k)
  }

  // ----- What the order of events means -----

  function IndicesOf(log: seq<Event>, e: Event): (s: set<nat>) {
    set i: nat | i < |log| && log[i] == e
  }

  // Every scan is put out once, right behind its header, and scans follow each other in order.
  lemma {:induction false} EachScanOnce(job: Job, n: nat, k: nat)
    requires k < n <= |job.scans|
    ensures exists i: nat :: i + 1 < |Events(job, n)| && IndicesOf(Events(job, n), ScanData(k)) == {i + 1}
                             && IndicesOf(Events(job, n), ScanHeader(k)) == {i}
                             && |Events(job, k)| <= i < |Events(job, k + 1)|
  {
    EventsAt(job, n, k);
  }

  // The position of the header of scan k in the log.
  function HeaderAt(job: Job, k: nat): (i: nat)
    requires k < |job.scans|
  {
    |Events(job, k)| + |ScanEvents(job, k)| - 2
  }

  lemma {:induction false} EventsAt(job: Job, n: nat, k: nat)
    requires k < n <= |job.scans|
    ensures HeaderAt(job, k) + 1 < |Events(job, n)|
    ensures IndicesOf(Events(job, n), ScanHeader(k)) == {HeaderAt(job, k)}
    ensures IndicesOf(Events(job, n), ScanData(k)) == {HeaderAt(job, k) + 1}
    ensures |Events(job, k)| <= HeaderAt(job, k) < |Events(job, k + 1)|
  {
    forall i: nat | i < |Events(job, n)|
      ensures Events(job, n)[i] == ScanHeader(k) <==> i == HeaderAt(job, k)
      ensures Events(job, n)[i] == ScanData(k) <==> i == HeaderAt(job, k) + 1
    {
      PlaceOf(job, n, i, k);
    }
    PrefixLength(job, k + 1, n);
  }

  lemma {:induction false} PrefixLength(job: Job, m: nat, n: nat)
    requires m <= n <= |job.scans|
    ensures |Events(job, m)| <= |Events(job, n)|
  {
    if m < n {
      PrefixLength(job, m, n - 1);
    }
  }

  lemma {:induction false} PlaceOf(job: Job, n: nat, i: nat, k: nat)
    requires n <= |job.scans| && i < |Events(job, n)| && k < |job.scans|
    ensures Events(job, n)[i] == ScanHeader(k) <==> i == HeaderAt(job, k)
    ensures Events(job, n)[i] == ScanData(k) <==> i == HeaderAt(job, k) + 1
  {
    hide ScanEvents;
    var front, last := Events(job, n - 1), ScanEvents(job, n - 1);
    ScanEventsAre(job, n - 1);
    if i < |front| {
      PlaceOf(job, n - 1, i, k);
    } else {
      assert Events(job, n)[i] == last[i - |front|];
      if k < n - 1 {
        PrefixLength(job, k + 1, n - 1);
        ScanEventsAre(job, k);
      } else if k > n - 1 {
        PrefixLength(job, n, k);
        ScanEventsAre(job, k);
      }
    }
  }

  lemma ScanEventsAre(job: Job, k: nat)
    requires k < |job.scans|
    ensures var e := ScanEvents(job, k);
      && |e| >= 2 && e[|e| - 2] == ScanHeader(k) && e[|e| - 1] == ScanData(k)
      && forall i :: 0 <= i < |e| - 2 ==> e[i] == Statistics(k) || e[i] == FrameHeader
  {
  }

  lemma ScanIsDone(job: Job, k: nat)
    requires k < |job.scans|
    ensures BeforeData(job, k, false) + [ScanData(k)] == Events(job, k + 1)
  {
  }

  lemma NoStatistics(job: Job, k: nat)
    requires k < |job.scans| && !NeedsStatistics(job, k)
    ensures Events(job, k) + StatisticsOf(job, k) == Events(job, k)
  {
  }

  lemma NothingDone(job: Job)
    requires |job.scans| > 0
    ensures Events(job, 0) == []
  {
  }

  lemma StatisticsAreDone(job: Job, k: nat)
    requires k < |job.scans| && NeedsStatistics(job, k)
    ensures BeforeData(job, k, true) + [Statistics(k)] == Events(job, k) + StatisticsOf(job, k)
  {
  }

  class CompMaster {
    const job: Job
    const totalPasses: nat
    var passType: PassType
    var passNumber: nat
    var scanNumber: nat          // current index in the scan script
    var loaded: nat              // scan whose parameters were selected last
    var gathering: bool          // what the entropy coder was started for
    var callPassStartup: bool
    var isLastPass: bool
    var log: seq<Event>

    // The scan whose output ends the pass is the last one.
    ghost predicate Numbered()
      reads this
    {
      && totalPasses == (if job.optimize then 2 * |job.scans| else |job.scans|)
      && passNumber == (if job.optimize then 2 * scanNumber + (if passType == OutputPass then 1 else 0) else scanNumber)
    }

    // Between two passes.
    ghost predicate Between()
      reads this
    {
      && Numbered() && scanNumber < |job.scans|
      && match passType
         case MainPass => scanNumber == 0 && !job.transcode && log == []
         case HuffOptPass => job.optimize && (scanNumber > 0 || job.transcode) && log == Events(job, scanNumber)
         case OutputPass =>
           && log == Events(job, scanNumber) + StatisticsOf(job, scanNumber)
           && (if job.optimize then NeedsStatistics(job, scanNumber) else scanNumber > 0 || job.transcode)
           && (job.optimize ==> loaded == scanNumber)
    }

    // Ready to run a pass.
    ghost predicate Prepared()
      reads this
    {
      && Numbered() && scanNumber < |job.scans| && loaded == scanNumber
      && isLastPass == (passNumber + 1 == totalPasses)
      && (callPassStartup ==> passType == MainPass && !job.optimize)
      && (passType == MainPass ==> scanNumber == 0 && !job.transcode)
      && (passType == HuffOptPass ==> job.optimize)
      && gathering == (job.optimize && passType != OutputPass)
      && log == (if callPassStartup then [] else BeforeData(job, scanNumber, gathering))
      && (gathering ==> NeedsStatistics(job, scanNumber))
    }

    // After the last scan.
    ghost predicate Through()
      reads this
    {
      Numbered() && scanNumber == |job.scans| && log == Events(job, |job.scans|)
    }

    // jinit_c_master_control
    constructor (j: Job)
      requires |j.scans| > 0
      ensures job == j && Between() && !isLastPass
    {
      job := j;
      passType := if !j.transcode then MainPass else if j.optimize then HuffOptPass else OutputPass;
      scanNumber, passNumber, loaded := 0, 0, |j.scans|;
      totalPasses := if j.optimize then |j.scans| * 2 else |j.scans|;
      gathering, callPassStartup, isLastPass, log := false, false, false, [];
    }

    // select_scan_parameters
    method SelectScanParameters()
      requires scanNumber < |job.scans|
      modifies this`loaded
      ensures loaded == scanNumber
    {
      loaded := scanNumber;
    }

    // prepare_for_pass. The scan script is only consulted for scans that it has, and every
    // pass runs with the parameters of its own scan.
    method PrepareForPass()
      requires Between()
      modifies this
      ensures Prepared() && scanNumber == old(scanNumber) && Remaining() <= old(Remaining())
      ensures isLastPass <==> !gathering && scanNumber + 1 == |job.scans|
    {
      hide Events, HeadersOf;
      NothingDone(job);
      if !NeedsStatistics(job, scanNumber) {
        NoStatistics(job, scanNumber);
      }
      callPassStartup := false;
      match passType {
        case MainPass =>
          SelectScanParameters();
          gathering := job.optimize;
          callPassStartup := !job.optimize;
        case HuffOptPass =>
          SelectScanParameters();
          var scan := job.scans[loaded];
          if scan.ss != 0 || scan.ah == 0 {
            gathering := true;
          } else {
            // DC refinement needs no Huffman table: go on with the output pass.
            passType := OutputPass;
            passNumber := passNumber + 1;
            StartOutput();
          }
        case OutputPass =>
          StartOutput();
      }
      isLastPass := passNumber == totalPasses - 1;
    }

    // The output half of prepare_for_pass.
    method StartOutput()
      requires scanNumber < |job.scans| && (job.optimize ==> loaded == scanNumber)
      modifies this`gathering, this`log, this`loaded
      ensures !gathering && loaded == scanNumber
      ensures log == old(log) + HeadersOf(scanNumber)
    {
      // The statistics pass of the scan has selected its parameters already.
      if !job.optimize {
        SelectScanParameters();
      }
      gathering := false;
      if scanNumber == 0 {
        log := log + [FrameHeader];
      }
      log := log + [ScanHeader(loaded)];
    }

    // pass_startup: headers of a single-pass run, before the first row is written.
    method PassStartup()
      requires Prepared() && callPassStartup
      modifies this`callPassStartup, this`log
      ensures Prepared() && !callPassStartup
    {
      callPassStartup := false;
      log := log + [FrameHeader] + [ScanHeader(loaded)];
      assert log == [FrameHeader, ScanHeader(0)];
    }

    // The data of the pass goes to the entropy coder, which counts or writes it.
    method RunPass()
      requires Prepared() && !callPassStartup
      modifies this`log
      ensures Ran()
    {
      log := log + [if gathering then Statistics(loaded) else ScanData(loaded)];
    }

    // A pass is through.
    ghost predicate Ran()
      reads this
    {
      && Numbered() && scanNumber < |job.scans| && loaded == scanNumber
      && isLastPass == (passNumber + 1 == totalPasses)
      && gathering == (job.optimize && passType != OutputPass)
      && (passType == MainPass ==> scanNumber == 0 && !job.transcode)
      && (passType == HuffOptPass ==> job.optimize)
      && (gathering ==> NeedsStatistics(job, scanNumber))
      && log == BeforeData(job, scanNumber, gathering)
                + [if gathering then Statistics(scanNumber) else ScanData(scanNumber)]
    }

    // Passes still to come.
    ghost function Remaining(): int
      reads this
    {
      totalPasses - passNumber
    }

    // finish_pass_master
    method FinishPass()
      requires Ran()
      modifies this`passType, this`scanNumber, this`passNumber
      ensures isLastPass ==> Through()
      ensures !isLastPass ==> Between() && Remaining() == old(Remaining()) - 1 > 0
    {
      hide Events, StatisticsOf, HeadersOf;
      if !gathering {
        ScanIsDone(job, scanNumber);
        assert log == Events(job, scanNumber + 1);
        if !job.optimize && scanNumber + 1 < |job.scans| {
          NoStatistics(job, scanNumber + 1);
        }
      } else {
        StatisticsAreDone(job, scanNumber);
        assert log == Events(job, scanNumber) + StatisticsOf(job, scanNumber);
      }
      match passType {
        case MainPass =>
          passType := OutputPass;
          if !job.optimize {
            scanNumber := scanNumber + 1;
          }
        case HuffOptPass =>
          passType := OutputPass;
        case OutputPass =>
          if job.optimize {
            passType := HuffOptPass;
          }
          scanNumber := scanNumber + 1;
      }
      passNumber := passNumber + 1;
    }

    // jpeg_start_compress, the application and jpeg_finish_compress together. The passes come
    // to an end, and everything has been done once and in order.
    method Compress()
      requires Between() && !isLastPass && (passType == MainPass || job.transcode)
      modifies this
      ensures log == Events(job, |job.scans|) + [Trailer] && scanNumber == |job.scans|
    {
      if !job.transcode {
        PrepareForPass();
        if callPassStartup {
          PassStartup();
        }
        RunPass();
        FinishPass();
      }
      while !isLastPass
        invariant if isLastPass then Through() else Between() && passType != MainPass
        decreases if isLastPass then 0 else Remaining()
      {
        PrepareForPass();
        RunPass();
        FinishPass();
      }
      log := log + [Trailer];
    }
  }
}
