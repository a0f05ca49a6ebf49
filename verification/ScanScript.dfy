// Scan scripts: what the compressor accepts as a script, which bits of which coefficients
// the scans of an accepted script have sent at any time, and why no decoder has anything to
// say against such a sequence of scans.

module ScanScript {
  import opened Coefficients

  const MAX_COMPS_IN_SCAN := 4
  const MAX_AH_AL := 10

  // One entry of a script, not yet checked.
  datatype ScanInfo = ScanInfo(comps: seq<int>, ss: int, se: int, ah: int, al: int)

  datatype ScriptError = NoScans | ComponentCount | BadComponents(scan: nat) | BadProgression(scan: nat) | MissingData

  datatype Verdict = Accepted(progressive: bool) | Refused(error: ScriptError)

  // For every component and index in zigzag order the position of the last bit sent, or -1.
  type BitPositions = seq<seq<int>>

  ghost predicate Table(n: nat, bits: BitPositions) {
    |bits| == n && forall c :: 0 <= c < n ==> |bits[c]| == BLOCK
  }

  // Positions with bit al sent for the coefficients from ss up to hi.
  function Sent(row: seq<int>, ss: int, hi: int, al: int): (r: seq<int>)
    ensures |r| == |row|
    ensures forall k :: 0 <= k < |row| ==> r[k] == if ss <= k < hi then al else row[k]
  {
    seq(|row|, k requires 0 <= k < |row| => if ss <= k < hi then al else row[k])
  }

  function NothingSent(n: nat): (bits: BitPositions)
    ensures |bits| == n && forall c :: 0 <= c < n ==> |bits[c]| == BLOCK && forall k :: 0 <= k < BLOCK ==>
      bits[c][k] == -1
  {
    seq(n, _ => seq(BLOCK, _ => -1))
  }

  predicate InScan(info: ScanInfo, c: nat) {
    c in info.comps
  }

  ghost function AfterScan(bits: BitPositions, info: ScanInfo): (r: BitPositions)
    ensures |r| == |bits|
    ensures forall c :: 0 <= c < |bits| ==>
      r[c] == if InScan(info, c) then Sent(bits[c], info.ss, info.se + 1, info.al) else bits[c]
  {
    seq(|bits|, c requires 0 <= c < |bits| =>
      if InScan(info, c) then Sent(bits[c], info.ss, info.se + 1, info.al) else bits[c])
  }

  // What the first i scans have sent.
  ghost function BitsAfter(n: nat, script: seq<ScanInfo>, i: nat): (bits: BitPositions)
    requires i <= |script|
    ensures Table(n, bits)
  {
    if i == 0 then NothingSent(n) else AfterScan(BitsAfter(n, script, i - 1), script[i - 1])
  }

  predicate Covers(info: ScanInfo, c: nat, k: nat) {
    InScan(info, c) && info.ss <= k <= info.se
  }

  // The table records the last scan that covered a coefficient.
  lemma {:induction false} BitsAreLastSent(n: nat, script: seq<ScanInfo>, i: nat, c: nat, k: nat) returns (s: nat)
    requires i <= |script| && c < n && k < BLOCK
    ensures s < i ==> Covers(script[s], c, k) && BitsAfter(n, script, i)[c][k] == script[s].al
    ensures s < i ==> forall t :: s < t < i ==> !Covers(script[t], c, k)
    ensures s >= i ==> BitsAfter(n, script, i)[c][k] == -1 && forall t :: 0 <= t < i ==> !Covers(script[t], c, k)
  {
    s := 0;
    if i > 0 {
      var earlier := BitsAfter(n, script, i - 1);
      assert |earlier[c]| == BLOCK;
      s := BitsAreLastSent(n, script, i - 1, c, k);
      if Covers(script[i - 1], c, k) {
        s := i - 1;
      } else if s >= i - 1 {
        s := i;
      }
    }
  }

  // ----- What a script has to satisfy -----

  ghost predicate ComponentsOk(n: nat, info: ScanInfo) {
    && 1 <= |info.comps| <= MAX_COMPS_IN_SCAN
    && forall j :: 0 <= j < |info.comps| ==> ComponentOk(n, info, j)
  }

  predicate ComponentOk(n: nat, info: ScanInfo, j: nat)
    requires j < |info.comps|
  {
    0 <= info.comps[j] < n && (j > 0 ==> info.comps[j - 1] < info.comps[j])
  }

  predicate RangesOk(info: ScanInfo) {
    && 0 <= info.ss <= info.se < BLOCK && 0 <= info.ah <= MAX_AH_AL && 0 <= info.al <= MAX_AH_AL
    && (if info.ss == 0 then info.se == 0 else |info.comps| == 1)
  }

  // A coefficient is first sent without Ah, and then refined by one bit at a time.
  predicate NextBit(last: int, info: ScanInfo) {
    if last < 0 then info.ah == 0 else info.ah == last && info.al == info.ah - 1
  }

  // Row of one component of the scan, up to index hi.
  ghost predicate RowOk(row: seq<int>, info: ScanInfo, hi: int)
    requires |row| == BLOCK && 0 <= info.ss && hi <= BLOCK
  {
    && (info.ss != 0 ==> row[0] >= 0)
    && forall k :: info.ss <= k < hi ==> NextBit(row[k], info)
  }

  ghost predicate ProgressiveOk(n: nat, bits: BitPositions, info: ScanInfo)
    requires Table(n, bits)
  {
    && ComponentsOk(n, info) && RangesOk(info)
    && forall c :: 0 <= c < n && InScan(info, c) ==> RowOk(bits[c], info, info.se + 1)
  }

  predicate SequentialParameters(info: ScanInfo) {
    info.ss == 0 && info.se == BLOCK - 1 && info.ah == 0 && info.al == 0
  }

  ghost predicate SentBefore(script: seq<ScanInfo>, i: nat, c: nat)
    requires i <= |script|
  {
    exists t :: 0 <= t < i && InScan(script[t], c)
  }

  ghost predicate SequentialOk(n: nat, script: seq<ScanInfo>, i: nat)
    requires i < |script|
  {
    && ComponentsOk(n, script[i]) && SequentialParameters(script[i])
    && forall c :: 0 <= c < n && InScan(script[i], c) ==> !SentBefore(script, i, c)
  }

  // The first scan decides about the mode.
  predicate IsProgressive(script: seq<ScanInfo>)
    requires |script| > 0
  {
    script[0].ss != 0 || script[0].se != BLOCK - 1
  }

  ghost predicate ScanOk(n: nat, script: seq<ScanInfo>, i: nat)
    requires i < |script|
  {
    if IsProgressive(script) then ProgressiveOk(n, BitsAfter(n, script, i), script[i]) else SequentialOk(n, script, i)
  }

  ghost predicate ScansOk(n: nat, script: seq<ScanInfo>, i: nat)
    requires i <= |script|
  {
    forall t :: 0 <= t < i ==> ScanOk(n, script, t)
  }

  // The scan that a script is refused for.
  ghost predicate FirstBad(n: nat, script: seq<ScanInfo>, i: int) {
    0 <= i < |script| && ScansOk(n, script, i) && !ScanOk(n, script, i)
  }

  ghost predicate Complete(n: nat, script: seq<ScanInfo>)
    requires |script| > 0
  {
    forall c :: 0 <= c < n ==> ComponentSent(n, script, c)
  }

  ghost predicate ComponentSent(n: nat, script: seq<ScanInfo>, c: nat)
    requires |script| > 0 && c < n
  {
    if IsProgressive(script) then BitsAfter(n, script, |script|)[c][0] >= 0 else SentBefore(script, |script|, c)
  }

  ghost predicate ValidScript(n: nat, script: seq<ScanInfo>) {
    |script| > 0 && ScansOk(n, script, |script|) && Complete(n, script)
  }

  // ----- Tables in memory -----

  ghost predicate TableShape(t: array2<int>, n: nat) {
    t.Length0 == n && t.Length1 == BLOCK
  }

  ghost predicate RowIs(t: array2<int>, c: nat, row: seq<int>)
    requires c < t.Length0 && t.Length1 == BLOCK
    reads t
  {
    |row| == BLOCK && forall k :: 0 <= k < BLOCK ==> t[c, k] == row[k]
  }

  ghost predicate Records(t: array2<int>, bits: BitPositions)
    requires t.Length1 == BLOCK
    reads t
  {
    |bits| == t.Length0 && forall c :: 0 <= c < t.Length0 ==> RowIs(t, c, bits[c])
  }

  lemma EntryOfRow(t: array2<int>, bits: BitPositions, c: nat, k: nat)
    requires t.Length1 == BLOCK && Records(t, bits) && c < t.Length0 && k < BLOCK
    ensures |bits| == t.Length0 && |bits[c]| == BLOCK && t[c, k] == bits[c][k]
  {
    assert RowIs(t, c, bits[c]);
  }

  // One more entry of row c.
  method Enter(t: array2<int>, c: nat, k: nat, al: int, ghost bits: BitPositions, ghost ss: int)
    requires t.Length1 == BLOCK && c < t.Length0 && k < BLOCK && |bits| == t.Length0 && ss <= k
    requires Records(t, bits[c := Sent(bits[c], ss, k, al)])
    modifies t
    ensures Records(t, bits[c := Sent(bits[c], ss, k + 1, al)])
  {
    ghost var was, next := bits[c := Sent(bits[c], ss, k, al)], bits[c := Sent(bits[c], ss, k + 1, al)];
    label before:
    assert forall d :: 0 <= d < t.Length0 ==> RowIs(t, d, was[d]);
    t[c, k] := al;
    forall d | 0 <= d < t.Length0
      ensures RowIs(t, d, next[d])
    {
      assert old@before(RowIs(t, d, was[d]));
    }
  }

  // ----- validate_script -----

  class Validator {
    const n: nat                    // components of the image
    const lastBitpos: array2<int>
    const componentSent: array<bool>

    constructor (components: nat)
      ensures n == components && fresh(lastBitpos) && fresh(componentSent)
      ensures lastBitpos.Length0 == n && lastBitpos.Length1 == BLOCK && componentSent.Length == n
    {
      n := components;
      lastBitpos := new int[components, BLOCK];
      componentSent := new bool[components];
    }

    ghost predicate Shaped()
    {
      TableShape(lastBitpos, n) && componentSent.Length == n
    }

    ghost predicate Marks(script: seq<ScanInfo>, i: nat)
      requires Shaped() && i <= |script|
      reads componentSent
    {
      forall c :: 0 <= c < n ==> (componentSent[c] <==> SentBefore(script, i, c))
    }

    method Reset()
      requires Shaped()
      modifies lastBitpos, componentSent
      ensures Records(lastBitpos, NothingSent(n)) && forall c :: 0 <= c < n ==> !componentSent[c]
    {
      forall c, k | 0 <= c < n && 0 <= k < BLOCK {
        lastBitpos[c, k] := -1;
      }
      forall c | 0 <= c < n {
        componentSent[c] := false;
      }
    }

    // Component indexes in range and in increasing order.
    method CheckComponents(info: ScanInfo, scan: nat) returns (v: Verdict)
      ensures v.Accepted? <==> ComponentsOk(n, info)
      ensures v.Refused? ==> v.error in {ComponentCount, BadComponents(scan)}
    {
      if |info.comps| == 0 || |info.comps| > MAX_COMPS_IN_SCAN {
        return Refused(ComponentCount);
      }
      for j := 0 to |info.comps|
        invariant forall i :: 0 <= i < j ==> ComponentOk(n, info, i)
      {
        if info.comps[j] < 0 || info.comps[j] >= n || (j > 0 && info.comps[j] <= info.comps[j - 1]) {
          assert !ComponentOk(n, info, j);
          return Refused(BadComponents(scan));
        }
      }
      v := Accepted(true);
    }

    // The progression of one component.
    method CheckRow(c: nat, info: ScanInfo, scan: nat, ghost bits: BitPositions) returns (v: Verdict)
      requires Shaped() && c < n && Records(lastBitpos, bits) && RangesOk(info)
      modifies lastBitpos
      ensures v.Accepted? <==> RowOk(bits[c], info, info.se + 1)
      ensures v.Accepted? ==> Records(lastBitpos, bits[c := Sent(bits[c], info.ss, info.se + 1, info.al)])
      ensures v.Refused? ==> v.error == BadProgression(scan)
    {
      ghost var row := bits[c];
      EntryOfRow(lastBitpos, bits, c, 0);
      assert Sent(row, info.ss, info.ss, info.al) == row && bits[c := row] == bits;
      hide RowIs;
      if info.ss != 0 && lastBitpos[c, 0] < 0 {
        return Refused(BadProgression(scan));
      }
      for k := info.ss to info.se + 1
        invariant RowOk(row, info, k)
        invariant Records(lastBitpos, bits[c := Sent(row, info.ss, k, info.al)])
      {
        EntryOfRow(lastBitpos, bits[c := Sent(row, info.ss, k, info.al)], c, k);
        if lastBitpos[c, k] < 0 {
          if info.ah != 0 {
            assert !NextBit(row[k], info);
            return Refused(BadProgression(scan));
          }
        } else if info.ah != lastBitpos[c, k] || info.al != info.ah - 1 {
          assert !NextBit(row[k], info);
          return Refused(BadProgression(scan));
        }
        Enter(lastBitpos, c, k, info.al, bits, info.ss);
      }
      v := Accepted(true);
    }

    // A scan in progressive mode.
    method CheckProgressive(info: ScanInfo, scan: nat, ghost bits: BitPositions) returns (v: Verdict)
      requires Shaped() && Records(lastBitpos, bits) && Table(n, bits) && ComponentsOk(n, info)
      modifies lastBitpos
      ensures v.Accepted? <==> ProgressiveOk(n, bits, info)
      ensures v.Accepted? ==> Records(lastBitpos, AfterScan(bits, info))
      ensures v.Refused? ==> v.error == BadProgression(scan)
    {
      hide RowOk, RowIs;
      if info.ss < 0 || info.ss >= BLOCK || info.se < info.ss || info.se >= BLOCK || info.ah < 0 || info.ah > MAX_AH_AL
         || info.al < 0 || info.al > MAX_AH_AL {
        return Refused(BadProgression(scan));
      }
      if info.ss == 0 {
        if info.se != 0 {
          return Refused(BadProgression(scan));
        }
      } else if |info.comps| != 1 {
        return Refused(BadProgression(scan));
      }
      ghost var now := bits;
      for j := 0 to |info.comps|
        invariant Records(lastBitpos, now) && Table(n, now)
        invariant forall c :: 0 <= c < n ==>
          now[c] == if c in info.comps[..j] then Sent(bits[c], info.ss, info.se + 1, info.al) else bits[c]
        invariant forall c :: 0 <= c < n && c in info.comps[..j] ==> RowOk(bits[c], info, info.se + 1)
      {
        NotBefore(n, info, j);
        var c := info.comps[j];
        v := CheckRow(c, info, scan, now);
        if v.Refused? {
          assert InScan(info, c);
          return;
        }
        now := now[c := Sent(now[c], info.ss, info.se + 1, info.al)];
        assert info.comps[..j + 1] == info.comps[..j] + [c];
      }
      assert info.comps[..|info.comps|] == info.comps;
      assert now == AfterScan(bits, info);
      v := Accepted(true);
    }

    // A scan in sequential mode: everything at once, no component twice.
    method CheckSequential(ghost script: seq<ScanInfo>, ghost i: nat, info: ScanInfo, scan: nat) returns (v: Verdict)
      requires Shaped() && i < |script| && script[i] == info && ComponentsOk(n, info) && Marks(script, i)
      modifies componentSent
      ensures v.Accepted? <==> SequentialOk(n, script, i)
      ensures v.Accepted? ==> Marks(script, i + 1)
      ensures v.Refused? ==> v.error in {BadProgression(scan), BadComponents(scan)}
    {
      hide SentBefore;
      if info.ss != 0 || info.se != BLOCK - 1 || info.ah != 0 || info.al != 0 {
        return Refused(BadProgression(scan));
      }
      for j := 0 to |info.comps|
        invariant forall c :: 0 <= c < n ==> (componentSent[c] <==> SentBefore(script, i, c) || c in info.comps[..j])
        invariant forall c :: 0 <= c < n && c in info.comps[..j] ==> !SentBefore(script, i, c)
      {
        NotBefore(n, info, j);
        var c := info.comps[j];
        if componentSent[c] {
          assert InScan(info, c) && SentBefore(script, i, c);
          return Refused(BadComponents(scan));
        }
        componentSent[c] := true;
        assert info.comps[..j + 1] == info.comps[..j] + [c];
      }
      assert info.comps[..|info.comps|] == info.comps;
      forall c: nat
        ensures SentBefore(script, i + 1, c) <==> SentBefore(script, i, c) || InScan(info, c)
      {
        SentBeforeNext(script, i, c);
      }
      v := Accepted(false);
    }

    // A script is accepted exactly if it is valid.
    method ValidateScript(script: seq<ScanInfo>) returns (v: Verdict)
      requires Shaped()
      modifies lastBitpos, componentSent
      ensures v.Accepted? <==> ValidScript(n, script)
      ensures v.Accepted? ==> v.progressive == IsProgressive(script)
      ensures v == Refused(NoScans) <==> script == []
      ensures v == Refused(MissingData) <==> script != [] && ScansOk(n, script, |script|) && !Complete(n, script)
      ensures v.Refused? && (v.error.BadComponents? || v.error.BadProgression?) ==>
        FirstBad(n, script, v.error.scan - 1)
      ensures v == Accepted(true) ==> Records(lastBitpos, BitsAfter(n, script, |script|))
    {
      hide ProgressiveOk, SequentialOk, SentBefore, AfterScan, RowIs, SequentialParameters;
      if |script| == 0 {
        return Refused(NoScans);
      }
      var progressive := IsProgressive(script);
      Reset();
      NoneSentBefore(script);
      for i := 0 to |script|
        invariant ScansOk(n, script, i)
        invariant progressive ==> Records(lastBitpos, BitsAfter(n, script, i))
        invariant !progressive ==> Marks(script, i)
      {
        OkNeedsComponents(n, script, i);
        v := CheckComponents(script[i], i + 1);
        if v.Refused? {
          assert !ScanOk(n, script, i);
          return;
        }
        if progressive {
          v := CheckProgressive(script[i], i + 1, BitsAfter(n, script, i));
        } else {
          v := CheckSequential(script, i, script[i], i + 1);
        }
        if v.Refused? {
          assert !ScanOk(n, script, i);
          return;
        }
      }
      ghost var bits := BitsAfter(n, script, |script|);
      for c := 0 to n
        invariant progressive ==> Records(lastBitpos, bits)
        invariant !progressive ==> Marks(script, |script|)
        invariant forall d :: 0 <= d < c ==> ComponentSent(n, script, d)
      {
        var missing: bool;
        if progressive {
          EntryOfRow(lastBitpos, bits, c, 0);
          missing := lastBitpos[c, 0] < 0;
        } else {
          missing := !componentSent[c];
        }
        assert ComponentSent(n, script, c) <==> !missing;
        if missing {
          return Refused(MissingData);
        }
      }
      v := Accepted(progressive);
    }
  }

  // Components come in increasing order.
  lemma {:induction false} Increasing(n: nat, info: ScanInfo, i: nat, j: nat)
    requires ComponentsOk(n, info) && i < j < |info.comps|
    ensures info.comps[i] < info.comps[j]
  {
    assert ComponentOk(n, info, j);
    if i < j - 1 {
      Increasing(n, info, i, j - 1);
    }
  }

  lemma NotBefore(n: nat, info: ScanInfo, j: nat)
    requires ComponentsOk(n, info) && j < |info.comps|
    ensures 0 <= info.comps[j] < n && info.comps[j] !in info.comps[..j]
  {
    assert ComponentOk(n, info, j);
    forall i | 0 <= i < j
      ensures info.comps[i] != info.comps[j]
    {
      Increasing(n, info, i, j);
    }
  }

  lemma NoneSentBefore(script: seq<ScanInfo>)
    ensures forall c :: !SentBefore(script, 0, c)
  {
  }

  lemma SentBeforeNext(script: seq<ScanInfo>, i: nat, c: nat)
    requires i < |script|
    ensures SentBefore(script, i + 1, c) <==> SentBefore(script, i, c) || InScan(script[i], c)
  {
    if InScan(script[i], c) {
      assert 0 <= i < i + 1;
    }
    if SentBefore(script, i, c) {
      var t :| 0 <= t < i && InScan(script[t], c);
      assert 0 <= t < i + 1;
    }
  }

  lemma OkNeedsComponents(n: nat, script: seq<ScanInfo>, i: nat)
    requires i < |script|
    ensures ScanOk(n, script, i) ==> ComponentsOk(n, script[i])
  {
  }

  // ----- The decoder's progression status -----

  // What start_pass of a decoder requires of a scan by itself.
  predicate LegalScan(info: ScanInfo) {
    && (if info.ss == 0 then info.se == 0 else info.ss <= info.se < BLOCK && |info.comps| == 1)
    && (info.ah != 0 ==> info.al == info.ah - 1)
    && info.al <= 13
  }

  // What it expects of coefficient k, given what was sent before.
  predicate Expected(row: seq<int>, info: ScanInfo, k: nat)
    requires k < |row|
  {
    info.ah == if row[k] < 0 then 0 else row[k]
  }

  ghost predicate RowExpected(row: seq<int>, info: ScanInfo, hi: int)
    requires |row| == BLOCK && 0 <= info.ss && hi <= BLOCK
  {
    (info.ss != 0 ==> row[0] >= 0) && forall k :: info.ss <= k < hi ==> Expected(row, info, k)
  }

  ghost predicate AllExpected(n: nat, bits: BitPositions, info: ScanInfo)
    requires Table(n, bits) && 0 <= info.ss && info.se < BLOCK
  {
    forall c :: 0 <= c < n && InScan(info, c) ==> RowExpected(bits[c], info, info.se + 1)
  }

  // One row of the status table. Inconsistencies are counted as warnings.
  method UpdateRow(coefBits: array2<int>, c: nat, info: ScanInfo, ghost bits: BitPositions) returns (warnings: nat)
    requires coefBits.Length1 == BLOCK && c < coefBits.Length0 && Records(coefBits, bits)
    requires 0 <= info.ss <= info.se < BLOCK
    modifies coefBits
    ensures |bits[c]| == BLOCK && (warnings == 0 <==> RowExpected(bits[c], info, info.se + 1))
    ensures Records(coefBits, bits[c := Sent(bits[c], info.ss, info.se + 1, info.al)])
  {
    hide RowIs;
    ghost var row := bits[c];
    EntryOfRow(coefBits, bits, c, 0);
    assert Sent(row, info.ss, info.ss, info.al) == row && bits[c := row] == bits;
    warnings := 0;
    if info.ss != 0 && coefBits[c, 0] < 0 {
      warnings := 1;
    }
    for k := info.ss to info.se + 1
      invariant warnings == 0 <==> RowExpected(row, info, k)
      invariant Records(coefBits, bits[c := Sent(row, info.ss, k, info.al)])
    {
      EntryOfRow(coefBits, bits[c := Sent(row, info.ss, k, info.al)], c, k);
      var expected := if coefBits[c, k] < 0 then 0 else coefBits[c, k];
      assert Expected(row, info, k) <==> info.ah == expected;
      if info.ah != expected {
        warnings := warnings + 1;
      }
      Enter(coefBits, c, k, info.al, bits, info.ss);
    }
  }

  // start_pass of a decoder: an illegal scan is an error, an unexpected one a warning.
  method StartPass(coefBits: array2<int>, info: ScanInfo, ghost bits: BitPositions) returns (ok: bool, warnings: nat)
    requires TableShape(coefBits, |bits|) && Table(|bits|, bits) && Records(coefBits, bits)
    requires ComponentsOk(|bits|, info) && 0 <= info.ss && 0 <= info.se
    modifies coefBits
    ensures ok <==> LegalScan(info)
    ensures ok ==> Records(coefBits, AfterScan(bits, info)) && (warnings == 0 <==> AllExpected(|bits|, bits, info))
  {
    hide RowExpected, RowIs;
    warnings := 0;
    if info.ss == 0 {
      if info.se != 0 {
        return false, 0;
      }
    } else if info.se < info.ss || info.se >= BLOCK || |info.comps| != 1 {
      return false, 0;
    }
    if (info.ah != 0 && info.ah - 1 != info.al) || info.al > 13 {
      return false, 0;
    }
    ghost var n, now := |bits|, bits;
    for j := 0 to |info.comps|
      invariant Records(coefBits, now) && Table(n, now)
      invariant forall c :: 0 <= c < n ==>
        now[c] == if c in info.comps[..j] then Sent(bits[c], info.ss, info.se + 1, info.al) else bits[c]
      invariant warnings == 0 <==>
        forall c :: 0 <= c < n && c in info.comps[..j] ==> RowExpected(bits[c], info, info.se + 1)
    {
      NotBefore(n, info, j);
      var c := info.comps[j];
      var more := UpdateRow(coefBits, c, info, now);
      warnings := warnings + more;
      now := now[c := Sent(now[c], info.ss, info.se + 1, info.al)];
      assert info.comps[..j + 1] == info.comps[..j] + [c];
    }
    assert info.comps[..|info.comps|] == info.comps;
    assert now == AfterScan(bits, info);
    ok := true;
  }

  // A decoder that follows an accepted script never finds a scan illegal or unexpected.
  lemma AcceptedScansAreExpected(n: nat, script: seq<ScanInfo>, i: nat)
    requires ValidScript(n, script) && IsProgressive(script) && i < |script|
    ensures RangesOk(script[i]) && ComponentsOk(n, script[i])
    ensures LegalScan(script[i]) && AllExpected(n, BitsAfter(n, script, i), script[i])
  {
    var info, bits := script[i], BitsAfter(n, script, i);
    assert ScanOk(n, script, i);
    var c := info.comps[0];
    assert ComponentOk(n, info, 0);
    assert InScan(info, c) && RowOk(bits[c], info, info.se + 1);
    assert NextBit(bits[c][info.ss], info);
    forall c | 0 <= c < n && InScan(info, c)
      ensures RowExpected(bits[c], info, info.se + 1)
    {
      forall k | info.ss <= k <= info.se
        ensures Expected(bits[c], info, k)
      {
        assert NextBit(bits[c][k], info);
      }
    }
  }

  // An accepted scan sends its coefficients either for the first time or all from the same
  // precision on.
  lemma FirstOrRefinement(n: nat, bits: BitPositions, info: ScanInfo, c: nat, k: nat)
    requires Table(n, bits) && ProgressiveOk(n, bits, info) && c < n && Covers(info, c, k)
    ensures info.ah == 0 ==> bits[c][k] < 0
    ensures info.ah > 0 ==> bits[c][k] == info.ah && info.al == info.ah - 1
  {
    assert RowOk(bits[c], info, info.se + 1) && NextBit(bits[c][k], info);
  }
}
