/** The ACK analysis of `analysis/analyze_ack.py`: the TCP series (per RTT
    window and cumulative), the QUIC series with its RTT sampled from the first
    acknowledged packet, and the names of the plot and CSV files. */
module AnalyzeAck {
  import opened Outcomes
  import opened Series
  import opened Packets
  import opened FlightTable
  import opened PyOps

  // ---------------------------------------------------------------------------
  // TCP

  /** The columns of a TCP analysis: time in ms, time in RTTs, sequence and
      acknowledgment numbers, and the cumulative column. */
  datatype TcpSeries = TcpSeries(times: seq<real>, rtts: seq<real>, seqs: seq<int>, acks: seq<int>, cumAcks: seq<int>)

  /** The index of the first FIN segment at or after `k`, or |d| if there is none. */
  function FinIndex(d: seq<TcpSegment>, k: nat): (r: nat)
    requires k <= |d|
    ensures k <= r <= |d|
    ensures r < |d| ==> d[r].fin
    ensures forall j :: k <= j < r ==> !d[j].fin
    decreases |d| - k
  {
    if k == |d| || d[k].fin then k else FinIndex(d, k + 1)
  }

  /** The segments a TCP analysis records: the client ACK segments from the
      first segment carrying an initial RTT up to the first FIN at or after
      it. Segments before that first one are not looked at, FINs included. */
  function TcpRecords(d: seq<TcpSegment>): seq<TcpSegment>
  {
    match FirstRttIndex(d)
    case None => []
    case Some(k0) => ClientAcks(d[k0..FinIndex(d, k0)])
  }

  /** The state of a TCP scan before segment i: until a segment carrying an
      initial RTT is met nothing is recorded; from the first one, k0, the scan
      goes on until it has passed a FIN. */
  ghost predicate Scanning(d: seq<TcpSegment>, i: nat, k0: nat, initialRtt: Option<real>, isFin: bool)
  {
    i <= |d| &&
    (initialRtt.None? ==> !isFin && forall j :: 0 <= j < i ==> d[j].initialRtt.None?) &&
    (initialRtt.Some? ==>
      k0 < i && FirstRttIndex(d) == Some(k0) && initialRtt == TcpRtt(d) &&
      (forall j :: k0 <= j < i - 1 ==> !d[j].fin) &&
      (!isFin ==> forall j :: k0 <= j < i ==> !d[j].fin)) &&
    (isFin ==> 0 < i && d[i - 1].fin)
  }

  /** The scan of segment i. */
  lemma ScanStep(d: seq<TcpSegment>, i: nat, k0: nat, initialRtt: Option<real>)
    requires i < |d| && Scanning(d, i, k0, initialRtt, false)
    ensures var found := initialRtt.None? && d[i].initialRtt.Some?;
      var rtt' := if found then Some(d[i].initialRtt.value * 1000.0) else initialRtt;
      Scanning(d, i + 1, if found then i else k0, rtt', rtt'.Some? && d[i].fin)
  {
    if initialRtt.None? && d[i].initialRtt.Some? {
      FirstRttAt(d, i);
    }
  }

  /** The scan that stopped after segment i - 1, at the end of the capture or
      at the first FIN after k0, has seen exactly the recorded segments. */
  lemma ScanRecords(d: seq<TcpSegment>, k0: nat, i: nat)
    requires FirstRttIndex(d) == Some(k0)
    requires k0 < i <= |d|
    requires forall j :: k0 <= j < i - 1 ==> !d[j].fin
    requires i == |d| || d[i - 1].fin
    ensures TcpRecords(d) == ClientAcks(d[k0..i])
  {
    if d[i - 1].fin {
      ScanRecordsToFin(d, k0, i);
    } else {
      assert i == |d|;
      assert forall j :: k0 <= j < i ==> !d[j].fin by {
        forall j | k0 <= j < i ensures !d[j].fin {
          if j == i - 1 {
          }
        }
      }
      ScanRecordsToEnd(d, k0);
    }
  }

  /** A scan stopped by the FIN at i - 1 has seen the recorded segments. */
  lemma ScanRecordsToFin(d: seq<TcpSegment>, k0: nat, i: nat)
    requires FirstRttIndex(d) == Some(k0)
    requires k0 < i <= |d|
    requires forall j :: k0 <= j < i - 1 ==> !d[j].fin
    requires d[i - 1].fin
    ensures TcpRecords(d) == ClientAcks(d[k0..i])
  {
    assert TcpRecords(d) == ClientAcks(d[k0..i - 1]) by {
      FinIndexAt(d, k0, i - 1);
      TcpRecordsTo(d, k0, i - 1);
    }
    ClientAcksBeforeFin(d, k0, i);
  }

  /** A FIN ending the scanned segments adds no client ACK. */
  lemma ClientAcksBeforeFin(d: seq<TcpSegment>, k0: nat, i: nat)
    requires k0 < i <= |d| && d[i - 1].fin
    ensures ClientAcks(d[k0..i]) == ClientAcks(d[k0..i - 1])
  {
    var s := d[k0..i];
    assert s[..|s| - 1] == d[k0..i - 1];
    assert !IsClientAck(s[|s| - 1]);
  }

  /** A scan that reached the end without a FIN has seen the recorded segments. */
  lemma ScanRecordsToEnd(d: seq<TcpSegment>, k0: nat)
    requires FirstRttIndex(d) == Some(k0)
    requires k0 < |d|
    requires forall j :: k0 <= j < |d| ==> !d[j].fin
    ensures TcpRecords(d) == ClientAcks(d[k0..|d|])
  {
    FinIndexAt(d, k0, |d|);
    TcpRecordsTo(d, k0, |d|);
  }

  /** The recorded segments are the client ACKs from k0 to the first FIN. */
  lemma TcpRecordsTo(d: seq<TcpSegment>, k0: nat, f: nat)
    requires FirstRttIndex(d) == Some(k0) && k0 <= |d| && FinIndex(d, k0) == f
    ensures TcpRecords(d) == ClientAcks(d[k0..f])
  {
  }

  /** The first FIN at or after k is the r with no FIN in between. */
  lemma FinIndexAt(d: seq<TcpSegment>, k: nat, r: nat)
    requires k <= r <= |d|
    requires forall j :: k <= j < r ==> !d[j].fin
    requires r < |d| ==> d[r].fin
    ensures FinIndex(d, k) == r
  {
  }

  /** A client ACK segment met before any FIN is recorded. */
  lemma ScannedIsRecorded(d: seq<TcpSegment>, k0: nat, i: nat)
    requires FirstRttIndex(d) == Some(k0)
    requires k0 <= i < |d|
    requires forall j :: k0 <= j <= i ==> !d[j].fin
    requires IsClientAck(d[i])
    ensures |TcpRecords(d)| > 0
  {
    var f := FinIndex(d, k0);
    FinIndexBeyond(d, k0, i);
    var s := d[k0..f];
    assert d[i] in ClientAcks(s) by {
      assert s[i - k0] == d[i];
      ClientAcksSelects(s);
    }
    assert TcpRecords(d) == ClientAcks(s);
  }

  /** With no FIN in [k, i], the first FIN from k lies beyond i. */
  lemma FinIndexBeyond(d: seq<TcpSegment>, k: nat, i: nat)
    requires k <= i < |d|
    requires forall j :: k <= j <= i ==> !d[j].fin
    ensures FinIndex(d, k) > i
  {
    var f := FinIndex(d, k);
    assert f < |d| ==> d[f].fin;
  }

  /** The first segment carrying an initial RTT is the one the scan meets first. */
  lemma FirstRttAt(d: seq<TcpSegment>, k: nat)
    requires k < |d| && d[k].initialRtt.Some?
    requires forall j :: 0 <= j < k ==> d[j].initialRtt.None?
    ensures FirstRttIndex(d) == Some(k)
    ensures TcpRtt(d) == Some(d[k].initialRtt.value * 1000.0)
  {
  }

  /** One more segment scanned. */
  lemma ClientAcksStep(d: seq<TcpSegment>, k0: nat, i: nat)
    requires k0 <= i < |d|
    ensures ClientAcks(d[k0..i + 1]) == ClientAcks(d[k0..i]) + if IsClientAck(d[i]) then [d[i]] else []
  {
    assert d[k0..i + 1][..i - k0] == d[k0..i];
  }

  /** Where the scan ends: the segments it saw from k0 on are the recorded
      ones, and a zero RTT estimate leaves nothing recorded. */
  lemma ScanDone(d: seq<TcpSegment>, i: nat, k0: nat, initialRtt: Option<real>, isFin: bool)
    requires Scanning(d, i, k0, initialRtt, isFin)
    requires i == |d| || isFin
    requires initialRtt == Some(0.0) ==> ClientAcks(d[k0..i]) == []
    ensures TcpRtt(d) == initialRtt
    ensures initialRtt.Some? ==> TcpRecords(d) == ClientAcks(d[k0..i])
    ensures initialRtt.None? ==> TcpRecords(d) == []
    ensures TcpRtt(d) == Some(0.0) ==> TcpRecords(d) == []
  {
    if initialRtt.Some? {
      ScanRecords(d, k0, i);
    }
  }

  /** Where the scan raises: a client ACK segment before any FIN. */
  lemma ScanRaises(d: seq<TcpSegment>, i: nat, k0: nat, initialRtt: Option<real>)
    requires i < |d| && Scanning(d, i + 1, k0, initialRtt, false)
    requires initialRtt.Some? && k0 <= i && IsClientAck(d[i])
    ensures |TcpRecords(d)| > 0 && TcpRtt(d) == initialRtt
  {
    ScannedIsRecorded(d, k0, i);
  }

  /** The columns other than the cumulative one describe the segments `recs`,
      each time divided by the RTT estimate `rtt`. */
  predicate Columns(times: seq<real>, rtts: seq<real>, seqs: seq<int>, acks: seq<int>, recs: seq<TcpSegment>, rtt: Option<real>)
  {
    |times| == |recs| && |rtts| == |recs| && |seqs| == |recs| && |acks| == |recs| &&
    forall i :: 0 <= i < |recs| ==>
      times[i] == 1000.0 * recs[i].time && seqs[i] == recs[i].seqNum && acks[i] == recs[i].ackNum &&
      rtt.Some? && rtts[i] * rtt.value == times[i]
  }

  /** Recording one more segment extends the columns. */
  lemma ExtendColumns(times: seq<real>, rtts: seq<real>, seqs: seq<int>, acks: seq<int>, recs: seq<TcpSegment>, rtt: real, p: TcpSegment)
    requires Columns(times, rtts, seqs, acks, recs, Some(rtt)) && rtt != 0.0
    ensures Columns(times + [p.time * 1000.0], rtts + [p.time * 1000.0 / rtt], seqs + [p.seqNum], acks + [p.ackNum],
                    recs + [p], Some(rtt))
  {
  }

  /** The RTT window reached after `rtts`: the largest `int(rtt)` so far, 0 before any. */
  function Window(rtts: seq<real>): int
  {
    if rtts == [] then 0
    else
      var w := Window(rtts[..|rtts| - 1]);
      var t := Trunc(rtts[|rtts| - 1]);
      if t > w then t else w
  }

  /** The window is the largest `int(rtt)` seen, and 0 when none is positive. */
  lemma {:induction false} WindowIsMax(rtts: seq<real>)
    ensures Window(rtts) >= 0
    ensures forall i :: 0 <= i < |rtts| ==> Trunc(rtts[i]) <= Window(rtts)
    ensures Window(rtts) == 0 || exists i :: 0 <= i < |rtts| && Trunc(rtts[i]) == Window(rtts)
  {
    if rtts != [] {
      var init := rtts[..|rtts| - 1];
      WindowIsMax(init);
      assert forall i :: 0 <= i < |init| ==> rtts[i] == init[i];
      if Window(init) != 0 && Window(rtts) == Window(init) {
        var i :| 0 <= i < |init| && Trunc(init[i]) == Window(init);
        assert Trunc(rtts[i]) == Window(rtts);
      }
    }
  }

  /** Entry i opens a new RTT window. */
  predicate NewWindow(rtts: seq<real>, i: nat)
    requires i < |rtts|
  {
    Trunc(rtts[i]) > Window(rtts[..i])
  }

  /** The per-window cumulative column: the first entry is its ACK number; an
      entry that opens a new window holds the bytes ACKed since the previous
      entry; any other entry adds those bytes to the previous entry. */
  predicate IsWindowedCum(rtts: seq<real>, acks: seq<int>, cumAcks: seq<int>)
  {
    |rtts| == |acks| && |cumAcks| == |acks| &&
    (|acks| > 0 ==> cumAcks[0] == acks[0]) &&
    forall i :: 0 < i < |acks| ==>
      cumAcks[i] == if NewWindow(rtts, i) then acks[i] - acks[i - 1] else cumAcks[i - 1] + acks[i] - acks[i - 1]
  }

  lemma ExtendWindowedCum(rtts: seq<real>, acks: seq<int>, cumAcks: seq<int>, rtt: real, ack: int, c: int)
    requires IsWindowedCum(rtts, acks, cumAcks)
    requires |acks| == 0 ==> c == ack
    requires |acks| > 0 ==>
      c == if Trunc(rtt) > Window(rtts) then ack - acks[|acks| - 1] else cumAcks[|acks| - 1] + ack - acks[|acks| - 1]
    ensures IsWindowedCum(rtts + [rtt], acks + [ack], cumAcks + [c])
  {
    var rtts', acks', cumAcks' := rtts + [rtt], acks + [ack], cumAcks + [c];
    forall i | 0 < i < |acks'|
      ensures cumAcks'[i] == if NewWindow(rtts', i) then acks'[i] - acks'[i - 1] else cumAcks'[i - 1] + acks'[i] - acks'[i - 1]
    {
      if i < |acks| {
        assert rtts'[..i] == rtts[..i];
        assert NewWindow(rtts', i) == NewWindow(rtts, i);
      } else {
        assert rtts'[..i] == rtts;
      }
    }
  }

  /** What the per-window column means: entries in the window that starts at
      `s` hold the bytes ACKed since the last ACK before the window (since 0 in
      the first window). */
  lemma {:induction false} WindowedCumFromStart(rtts: seq<real>, acks: seq<int>, cumAcks: seq<int>, s: nat, i: nat)
    requires IsWindowedCum(rtts, acks, cumAcks)
    requires s <= i < |acks|
    requires s == 0 || NewWindow(rtts, s)
    requires forall k :: s < k <= i ==> !NewWindow(rtts, k)
    ensures cumAcks[i] == acks[i] - (if s == 0 then 0 else acks[s - 1])
  {
    if i > s {
      WindowedCumFromStart(rtts, acks, cumAcks, s, i - 1);
    }
  }

  /** The series the per-window analysis builds from the recorded segments
      `recs` with the initial RTT `rtt`, one segment at a time. The ACK number
      the current window counts from is the last one recorded when the segment
      opens a new window, and stays otherwise (0 before any). */
  function PerRttSeries(recs: seq<TcpSegment>, rtt: real): (r: TcpSeries)
    requires rtt != 0.0
    ensures |r.acks| == |recs| && |r.cumAcks| == |recs|
  {
    if recs == [] then TcpSeries([], [], [], [], [])
    else PerRttStep(PerRttSeries(recs[..|recs| - 1], rtt), recs[|recs| - 1], rtt)
  }

  /** The per-window series `s` with the segment `p` appended. */
  function PerRttStep(s: TcpSeries, p: TcpSegment, rtt: real): (r: TcpSeries)
    requires rtt != 0.0 && |s.cumAcks| == |s.acks|
    ensures |r.acks| == |s.acks| + 1 && |r.cumAcks| == |s.cumAcks| + 1
  {
    var time := p.time * 1000.0;
    var rttNorm := time / rtt;
    var from :=
      if s.acks == [] then 0
      else if Trunc(rttNorm) > Window(s.rtts) then s.acks[|s.acks| - 1]
      else s.acks[|s.acks| - 1] - s.cumAcks[|s.cumAcks| - 1];
    TcpSeries(s.times + [time], s.rtts + [rttNorm], s.seqs + [p.seqNum], s.acks + [p.ackNum], s.cumAcks + [p.ackNum - from])
  }

  /** The per-window series describes the recorded segments, and its
      cumulative column is the per-window one. */
  lemma PerRttSeriesMeans(recs: seq<TcpSegment>, rtt: real)
    requires rtt != 0.0
    ensures var s := PerRttSeries(recs, rtt);
      Columns(s.times, s.rtts, s.seqs, s.acks, recs, Some(rtt)) && IsWindowedCum(s.rtts, s.acks, s.cumAcks)
  {
    PerRttColumns(recs, rtt);
    PerRttWindowed(recs, rtt);
  }

  lemma {:induction false} PerRttColumns(recs: seq<TcpSegment>, rtt: real)
    requires rtt != 0.0
    ensures var s := PerRttSeries(recs, rtt); Columns(s.times, s.rtts, s.seqs, s.acks, recs, Some(rtt))
  {
    if recs != [] {
      var init, p := recs[..|recs| - 1], recs[|recs| - 1];
      PerRttColumns(init, rtt);
      PerRttStepColumns(PerRttSeries(init, rtt), init, rtt, p);
      assert init + [p] == recs;
    }
  }

  lemma PerRttStepColumns(s: TcpSeries, recs: seq<TcpSegment>, rtt: real, p: TcpSegment)
    requires rtt != 0.0 && |s.cumAcks| == |s.acks|
    requires Columns(s.times, s.rtts, s.seqs, s.acks, recs, Some(rtt))
    ensures var s' := PerRttStep(s, p, rtt); Columns(s'.times, s'.rtts, s'.seqs, s'.acks, recs + [p], Some(rtt))
  {
    ExtendColumns(s.times, s.rtts, s.seqs, s.acks, recs, rtt, p);
  }

  lemma {:induction false} PerRttWindowed(recs: seq<TcpSegment>, rtt: real)
    requires rtt != 0.0
    ensures var s := PerRttSeries(recs, rtt); IsWindowedCum(s.rtts, s.acks, s.cumAcks)
  {
    if recs != [] {
      var init, p := recs[..|recs| - 1], recs[|recs| - 1];
      var s := PerRttSeries(init, rtt);
      PerRttWindowed(init, rtt);
      var s' := PerRttSeries(recs, rtt);
      assert s' == PerRttStep(s, p, rtt);
      var r := p.time * 1000.0 / rtt;
      var c := s'.cumAcks[|s'.cumAcks| - 1];
      assert s'.rtts == s.rtts + [r] && s'.acks == s.acks + [p.ackNum] && s'.cumAcks == s.cumAcks + [c];
      ExtendWindowedCum(s.rtts, s.acks, s.cumAcks, r, p.ackNum, c);
    }
  }

  /** The per-window series of one more recorded segment. */
  lemma PerRttSeriesStep(recs: seq<TcpSegment>, rtt: real, p: TcpSegment)
    requires rtt != 0.0
    ensures PerRttSeries(recs + [p], rtt) == PerRttStep(PerRttSeries(recs, rtt), p, rtt)
  {
    assert (recs + [p])[..|recs|] == recs;
  }

  /** The window after one more normalised time. */
  lemma WindowStep(rtts: seq<real>, r: real)
    ensures Window(rtts + [r]) == if Trunc(r) > Window(rtts) then Trunc(r) else Window(rtts)
  {
    assert (rtts + [r])[..|rtts|] == rtts;
  }

  /** The window variables of the per-window scan after the series `s`: the
      current window, the last ACK number recorded, and the ACK number the
      current window counts from. */
  predicate WindowState(s: TcpSeries, currRtt: int, cumAckPrev: int, cumAckCurr: int)
  {
    |s.cumAcks| == |s.acks| &&
    currRtt == Window(s.rtts) &&
    cumAckPrev == (if s.acks == [] then 0 else s.acks[|s.acks| - 1]) &&
    cumAckCurr == (if s.acks == [] then 0 else s.acks[|s.acks| - 1] - s.cumAcks[|s.cumAcks| - 1])
  }

  /** Recording one client ACK segment `p` in the per-window analysis: its
      columns, and the window bookkeeping for its ACK number. */
  method RecordPerRtt(s: TcpSeries, currRtt: int, cumAckPrev: int, cumAckCurr: int, initialRtt: real, p: TcpSegment)
    returns (s': TcpSeries, currRtt': int, cumAckPrev': int, cumAckCurr': int)
    requires initialRtt != 0.0
    requires WindowState(s, currRtt, cumAckPrev, cumAckCurr)
    ensures s' == PerRttStep(s, p, initialRtt) && WindowState(s', currRtt', cumAckPrev', cumAckCurr')
  {
    var time := p.time * 1000.0;
    var rtt := time / initialRtt;
    currRtt', cumAckCurr' := currRtt, cumAckCurr;
    if Trunc(rtt) > currRtt {
      currRtt' := Trunc(rtt);
      cumAckCurr' := cumAckPrev;
    }
    cumAckPrev' := p.ackNum;
    s' := TcpSeries(s.times + [time], s.rtts + [rtt], s.seqs + [p.seqNum], s.acks + [p.ackNum], s.cumAcks + [p.ackNum - cumAckCurr']);
    WindowStep(s.rtts, rtt);
  }

  /** The state of the per-window scan after segments 0 .. i - 1: the scan
      itself, the series of the client ACKs recorded so far, and the window
      variables. */
  ghost predicate PerRttScan(d: seq<TcpSegment>, i: nat, k0: nat, initialRtt: Option<real>, isFin: bool,
                             s: TcpSeries, currRtt: int, cumAckPrev: int, cumAckCurr: int)
  {
    Scanning(d, i, k0, initialRtt, isFin) &&
    (initialRtt.None? ==> s == TcpSeries([], [], [], [], [])) &&
    (initialRtt == Some(0.0) ==> ClientAcks(d[k0..i]) == [] && s == TcpSeries([], [], [], [], [])) &&
    (initialRtt.Some? && initialRtt.value != 0.0 ==> s == PerRttSeries(ClientAcks(d[k0..i]), initialRtt.value)) &&
    WindowState(s, currRtt, cumAckPrev, cumAckCurr)
  }

  /** One iteration of the per-window scan, on segment i: it either raises,
      dividing by a zero initial RTT, or moves the scan state on by one segment. */
  method ScanPerRtt(d: seq<TcpSegment>, i: nat, ghost k0: nat, initialRtt: Option<real>,
                    s: TcpSeries, currRtt: int, cumAckPrev: int, cumAckCurr: int)
    returns (raised: bool, ghost k0': nat, initialRtt': Option<real>, isFin': bool,
             s': TcpSeries, currRtt': int, cumAckPrev': int, cumAckCurr': int)
    requires i < |d| && PerRttScan(d, i, k0, initialRtt, false, s, currRtt, cumAckPrev, cumAckCurr)
    ensures raised ==> |TcpRecords(d)| > 0 && TcpRtt(d) == Some(0.0)
    ensures !raised ==> PerRttScan(d, i + 1, k0', initialRtt', isFin', s', currRtt', cumAckPrev', cumAckCurr')
  {
    var p := d[i];
    ScanStep(d, i, k0, initialRtt);
    if initialRtt.None? && p.initialRtt.None? {
      return false, k0, initialRtt, false, s, currRtt, cumAckPrev, cumAckCurr;
    }
    k0', initialRtt' := k0, initialRtt;
    if initialRtt.None? {
      initialRtt' := Some(p.initialRtt.value * 1000.0);
      k0' := i;
      assert d[k0'..i] == [];
    }
    isFin' := p.fin;
    raised, s', currRtt', cumAckPrev', cumAckCurr' :=
      RecordScanned(d, i, k0', initialRtt'.value, s, currRtt, cumAckPrev, cumAckCurr);
  }

  /** Segment i of the per-window scan once the initial RTT is known: a client
      ACK is recorded, or raises when the initial RTT is zero. */
  method RecordScanned(d: seq<TcpSegment>, i: nat, ghost k0: nat, initialRtt: real,
                       s: TcpSeries, currRtt: int, cumAckPrev: int, cumAckCurr: int)
    returns (raised: bool, s': TcpSeries, currRtt': int, cumAckPrev': int, cumAckCurr': int)
    requires k0 <= i < |d| && Scanning(d, i + 1, k0, Some(initialRtt), d[i].fin)
    requires initialRtt == 0.0 ==> ClientAcks(d[k0..i]) == [] && s == TcpSeries([], [], [], [], [])
    requires initialRtt != 0.0 ==> s == PerRttSeries(ClientAcks(d[k0..i]), initialRtt)
    requires WindowState(s, currRtt, cumAckPrev, cumAckCurr)
    ensures raised ==> |TcpRecords(d)| > 0 && TcpRtt(d) == Some(0.0)
    ensures !raised ==> PerRttScan(d, i + 1, k0, Some(initialRtt), d[i].fin, s', currRtt', cumAckPrev', cumAckCurr')
  {
    raised, s', currRtt', cumAckPrev', cumAckCurr' := false, s, currRtt, cumAckPrev, cumAckCurr;
    var p := d[i];
    ClientAcksStep(d, k0, i);
    ghost var recs := ClientAcks(d[k0..i]);
    var isReceive := p.srcPort == ServerPort;
    if !(isReceive || p.fin) {
      if initialRtt == 0.0 {
        ScanRaises(d, i, k0, Some(initialRtt));
        return true, s', currRtt', cumAckPrev', cumAckCurr';
      }
      s', currRtt', cumAckPrev', cumAckCurr' := RecordPerRtt(s, currRtt, cumAckPrev, cumAckCurr, initialRtt, p);
      PerRttSeriesStep(recs, initialRtt, p);
      assert ClientAcks(d[k0..i + 1]) == recs + [p];
    } else {
      assert ClientAcks(d[k0..i + 1]) == recs;
    }
  }

  /** `analyze_pcap_tcp_per_RTT`: the recorded segments, their times divided
      by the initial RTT, and the per-window cumulative column. A zero
      initial RTT raises once a segment is recorded. */
  method AnalyzePcapTcpPerRtt(d: seq<TcpSegment>) returns (r: Outcome<TcpSeries>)
    ensures r.Raised? <==> |TcpRecords(d)| > 0 && TcpRtt(d) == Some(0.0)
    ensures r.Raised? ==> r.error == ZeroDivisionError
    ensures r.Ok? ==> Columns(r.value.times, r.value.rtts, r.value.seqs, r.value.acks, TcpRecords(d), TcpRtt(d))
    ensures r.Ok? ==> IsWindowedCum(r.value.rtts, r.value.acks, r.value.cumAcks)
  {
    var s := TcpSeries([], [], [], [], []);
    var isFin := false;
    var initialRtt: Option<real> := None;
    var currRtt := 0;
    var cumAckPrev := 0;
    var cumAckCurr := 0;
    ghost var k0: nat := 0;
    var i: nat := 0;
    while i < |d| && !isFin
      invariant PerRttScan(d, i, k0, initialRtt, isFin, s, currRtt, cumAckPrev, cumAckCurr)
    {
      var raised;
      raised, k0, initialRtt, isFin, s, currRtt, cumAckPrev, cumAckCurr :=
        ScanPerRtt(d, i, k0, initialRtt, s, currRtt, cumAckPrev, cumAckCurr);
      if raised {
        return Raised(ZeroDivisionError);
      }
      i := i + 1;
    }
    ScanDone(d, i, k0, initialRtt, isFin);
    if initialRtt.Some? && initialRtt.value != 0.0 {
      PerRttSeriesMeans(ClientAcks(d[k0..i]), initialRtt.value);
    }
    r := Ok(s);
  }

  /** The state of the cumulative scan after segments 0 .. i - 1. */
  ghost predicate CumScan(d: seq<TcpSegment>, i: nat, k0: nat, initialRtt: Option<real>, isFin: bool,
                          times: seq<real>, rtts: seq<real>, seqs: seq<int>, acks: seq<int>, cumAcks: seq<int>)
  {
    Scanning(d, i, k0, initialRtt, isFin) &&
    (initialRtt.None? ==> times == [] && rtts == [] && seqs == [] && acks == []) &&
    (initialRtt.Some? ==> Columns(times, rtts, seqs, acks, ClientAcks(d[k0..i]), initialRtt)) &&
    (initialRtt == Some(0.0) ==> ClientAcks(d[k0..i]) == []) &&
    cumAcks == acks
  }

  /** One iteration of the cumulative scan, on segment i. */
  method ScanCum(d: seq<TcpSegment>, i: nat, ghost k0: nat, initialRtt: Option<real>,
                 times: seq<real>, rtts: seq<real>, seqs: seq<int>, acks: seq<int>, cumAcks: seq<int>)
    returns (raised: bool, ghost k0': nat, initialRtt': Option<real>, isFin': bool,
             times': seq<real>, rtts': seq<real>, seqs': seq<int>, acks': seq<int>, cumAcks': seq<int>)
    requires i < |d| && CumScan(d, i, k0, initialRtt, false, times, rtts, seqs, acks, cumAcks)
    ensures raised ==> |TcpRecords(d)| > 0 && TcpRtt(d) == Some(0.0)
    ensures !raised ==> CumScan(d, i + 1, k0', initialRtt', isFin', times', rtts', seqs', acks', cumAcks')
  {
    var p := d[i];
    ScanStep(d, i, k0, initialRtt);
    if initialRtt.None? && p.initialRtt.None? {
      return false, k0, initialRtt, false, times, rtts, seqs, acks, cumAcks;
    }
    k0', initialRtt' := k0, initialRtt;
    if initialRtt.None? {
      initialRtt' := Some(p.initialRtt.value * 1000.0);
      k0' := i;
      assert d[k0'..i] == [];
    }
    isFin' := p.fin;
    raised, times', rtts', seqs', acks', cumAcks' :=
      RecordScannedCum(d, i, k0', initialRtt'.value, times, rtts, seqs, acks, cumAcks);
  }

  /** Segment i of the cumulative scan once the initial RTT is known. */
  method RecordScannedCum(d: seq<TcpSegment>, i: nat, ghost k0: nat, initialRtt: real,
                          times: seq<real>, rtts: seq<real>, seqs: seq<int>, acks: seq<int>, cumAcks: seq<int>)
    returns (raised: bool, times': seq<real>, rtts': seq<real>, seqs': seq<int>, acks': seq<int>, cumAcks': seq<int>)
    requires k0 <= i < |d| && Scanning(d, i + 1, k0, Some(initialRtt), d[i].fin)
    requires Columns(times, rtts, seqs, acks, ClientAcks(d[k0..i]), Some(initialRtt))
    requires initialRtt == 0.0 ==> ClientAcks(d[k0..i]) == []
    requires cumAcks == acks
    ensures raised ==> |TcpRecords(d)| > 0 && TcpRtt(d) == Some(0.0)
    ensures !raised ==> CumScan(d, i + 1, k0, Some(initialRtt), d[i].fin, times', rtts', seqs', acks', cumAcks')
  {
    raised, times', rtts', seqs', acks', cumAcks' := false, times, rtts, seqs, acks, cumAcks;
    var p := d[i];
    ClientAcksStep(d, k0, i);
    var time := p.time * 1000.0;
    var isReceive := p.srcPort == ServerPort;
    var sq, ack := p.seqNum, p.ackNum;
    if !(isReceive || p.fin) {
      if initialRtt == 0.0 {
        ScanRaises(d, i, k0, Some(initialRtt));
        return true, times', rtts', seqs', acks', cumAcks';
      }
      ExtendColumns(times, rtts, seqs, acks, ClientAcks(d[k0..i]), initialRtt, p);
      times', seqs', acks' := times + [time], seqs + [sq], acks + [ack];
      var rtt := time / initialRtt;
      rtts' := rtts + [rtt];
      cumAcks' := cumAcks + [ack];
    }
  }

  /** `analyze_pcap_tcp_cum`: the same scan, with the ACK numbers themselves
      as the cumulative column. */
  method AnalyzePcapTcpCum(d: seq<TcpSegment>) returns (r: Outcome<TcpSeries>)
    ensures r.Raised? <==> |TcpRecords(d)| > 0 && TcpRtt(d) == Some(0.0)
    ensures r.Raised? ==> r.error == ZeroDivisionError
    ensures r.Ok? ==> Columns(r.value.times, r.value.rtts, r.value.seqs, r.value.acks, TcpRecords(d), TcpRtt(d))
    ensures r.Ok? ==> r.value.cumAcks == r.value.acks
  {
    var times: seq<real>, rtts: seq<real>, seqs: seq<int>, acks: seq<int>, cumAcks: seq<int> := [], [], [], [], [];
    var isFin := false;
    var initialRtt: Option<real> := None;
    ghost var k0: nat := 0;
    var i: nat := 0;
    while i < |d| && !isFin
      invariant CumScan(d, i, k0, initialRtt, isFin, times, rtts, seqs, acks, cumAcks)
    {
      var raised;
      raised, k0, initialRtt, isFin, times, rtts, seqs, acks, cumAcks :=
        ScanCum(d, i, k0, initialRtt, times, rtts, seqs, acks, cumAcks);
      if raised {
        return Raised(ZeroDivisionError);
      }
      i := i + 1;
    }
    ScanDone(d, i, k0, initialRtt, isFin);
    r := Ok(TcpSeries(times, rtts, seqs, acks, cumAcks));
  }

  // ---------------------------------------------------------------------------
  // QUIC

  /** The analysis state: bytes outstanding and timestamp per packet number,
      the RTT sample once taken, and the series built so far. */
  datatype Tally = Tally(table: Table, rtt: Option<real>, times: seq<real>, acks: seq<int>, cumAcks: seq<int>)

  const EmptyTally: Tally := Tally(map[], None, [], [], [])

  /** The RTT sample after an ACK of [lo, hi) at `time`: an existing sample
      is kept; otherwise the age of the highest acknowledged packet number the
      table holds, if any. */
  function Sample(m: Table, lo: int, hi: int, rtt: Option<real>, time: real): Option<real>
  {
    if rtt.Some? then rtt
    else
      match HighestPresent(m, lo, hi)
      case None => None
      case Some(n) => Some(time - m[n].stamp)
  }

  /** One frame. A client's ACK frame acknowledges largest - firstRange through
      largest: their bytes are counted and their entries reset to (0, 0.0),
      the RTT is sampled, and one entry is appended. Server ACK frames and
      other frames change nothing. */
  function TallyFrame(t: Tally, f: Frame, time: real, isReceive: bool): Tally
  {
    if f.AckFrame? && !isReceive then
      var lo, hi := f.largest - f.firstRange, f.largest + 1;
      var acked := CoveredBytes(t.table, lo, hi);
      Tally(ZeroSpan(t.table, lo, hi), Sample(t.table, lo, hi, t.rtt, time),
            t.times + [time], t.acks + [acked], t.cumAcks + [NextCumulative(t.cumAcks, acked)])
    else t
  }

  function TallyFrames(t: Tally, frames: seq<Frame>, time: real, isReceive: bool): Tally
  {
    if frames == [] then t
    else TallyFrame(TallyFrames(t, frames[..|frames| - 1], time, isReceive), frames[|frames| - 1], time, isReceive)
  }

  /** One QUIC packet, in either direction. Without a packet number it is
      skipped; without a length `int(None)` raises; otherwise its length is
      added to its entry, and a packet without frames raises on the lookup. */
  function TallyPacket(t: Tally, q: QuicPacket, time: real, isReceive: bool): (r: Outcome<Tally>)
    ensures r.Raised? ==> r.error == TypeError || r.error == KeyError
  {
    if q.pktNum.None? then Ok(t)
    else if q.pktLen.None? then Raised(TypeError)
    else
      var t' := t.(table := AddBytes(t.table, q.pktNum.value, q.pktLen.value, time));
      if q.frames.None? then Raised(KeyError)
      else Ok(TallyFrames(t', q.frames.value, time, isReceive))
  }

  function TallyPackets(t: Tally, qs: seq<QuicPacket>, time: real, isReceive: bool): (r: Outcome<Tally>)
    ensures r.Raised? ==> r.error == TypeError || r.error == KeyError
    decreases |qs|
  {
    if qs == [] then Ok(t)
    else
      match TallyPacket(t, qs[0], time, isReceive)
      case Raised(e) => Raised(e)
      case Ok(t') => TallyPackets(t', qs[1..], time, isReceive)
  }

  /** One datagram: skipped unless it has a UDP layer and QUIC packets. */
  function TallyDatagram(t: Tally, p: Datagram): (r: Outcome<Tally>)
    ensures r.Raised? ==> r.error == TypeError || r.error == KeyError
  {
    if p.udp.None? || p.quic.None? then Ok(t)
    else TallyPackets(t, p.quic.value, 1000.0 * p.udp.value.time, p.udp.value.srcPort == ServerPort)
  }

  function TallyFrom(t: Tally, d: seq<Datagram>): (r: Outcome<Tally>)
    ensures r.Raised? ==> r.error == TypeError || r.error == KeyError
    decreases |d|
  {
    if d == [] then Ok(t)
    else
      match TallyDatagram(t, d[0])
      case Raised(e) => Raised(e)
      case Ok(t') => TallyFrom(t', d[1..])
  }

  /** The columns of a QUIC analysis. */
  datatype QuicSeries = QuicSeries(times: seq<real>, rtts: seq<real>, acks: seq<int>, cumAcks: seq<int>)

  /** `analyze_pcap_quic` as a function of the capture: the tally, then every
      time divided by the RTT sample, which raises when there is a time to
      divide and the sample is missing (`TypeError`) or zero. */
  function QuicSeriesOf(d: seq<Datagram>): (r: Outcome<QuicSeries>)
    ensures r.Raised? ==> r.error == TypeError || r.error == KeyError || r.error == ZeroDivisionError
    ensures r.Ok? ==> |r.value.rtts| == |r.value.times|
  {
    match TallyFrom(EmptyTally, d)
    case Raised(e) => Raised(e)
    case Ok(t) =>
      if t.times == [] then Ok(QuicSeries([], [], t.acks, t.cumAcks))
      else if t.rtt.None? then Raised(TypeError)
      else if t.rtt.value == 0.0 then Raised(ZeroDivisionError)
      else Ok(QuicSeries(t.times, DividedBy(t.times, t.rtt.value), t.acks, t.cumAcks))
  }

  /** Bytes of the QUIC packets the analysis adds to the table, both directions. */
  function PacketBytes(q: QuicPacket): nat
  {
    if q.pktNum.Some? && q.pktLen.Some? then q.pktLen.value else 0
  }

  function PacketsBytes(qs: seq<QuicPacket>): nat
  {
    if qs == [] then 0 else PacketBytes(qs[0]) + PacketsBytes(qs[1..])
  }

  function DatagramBytes(p: Datagram): nat
  {
    if p.udp.None? || p.quic.None? then 0 else PacketsBytes(p.quic.value)
  }

  function Counted(d: seq<Datagram>): nat
  {
    if d == [] then 0 else DatagramBytes(d[0]) + Counted(d[1..])
  }

  /** Bookkeeping invariant: aligned columns, non-negative ACK entries with
      their running sums, and every counted byte either ACKed once or still
      outstanding. */
  ghost predicate Balanced(t: Tally, counted: int)
  {
    |t.times| == |t.acks| &&
    (forall i :: 0 <= i < |t.acks| ==> t.acks[i] >= 0) &&
    IsRunningSum(t.acks, t.cumAcks) &&
    Sum(t.acks) + Outstanding(t.table) == counted
  }

  /** `t'` continues `t`: the columns only grow, and an RTT sample once taken is kept. */
  ghost predicate Continues(t: Tally, t': Tally)
  {
    (t.rtt.Some? ==> t'.rtt == t.rtt) &&
    |t.times| <= |t'.times| && t'.times[..|t.times|] == t.times &&
    |t.acks| <= |t'.acks| && t'.acks[..|t.acks|] == t.acks
  }

  lemma ContinuesTransitive(t: Tally, t': Tally, t'': Tally)
    requires Continues(t, t') && Continues(t', t'')
    ensures Continues(t, t'')
  {
    assert t''.times[..|t.times|] == t''.times[..|t'.times|][..|t.times|];
    assert t''.acks[..|t.acks|] == t''.acks[..|t'.acks|][..|t.acks|];
  }

  lemma TallyFrameSound(t: Tally, f: Frame, time: real, isReceive: bool, counted: int)
    requires Balanced(t, counted)
    ensures Balanced(TallyFrame(t, f, time, isReceive), counted)
    ensures Continues(t, TallyFrame(t, f, time, isReceive))
  {
    if f.AckFrame? && !isReceive {
      var lo, hi := f.largest - f.firstRange, f.largest + 1;
      var acked := CoveredBytes(t.table, lo, hi);
      var t' := Tally(ZeroSpan(t.table, lo, hi), Sample(t.table, lo, hi, t.rtt, time),
        t.times + [time], t.acks + [acked], t.cumAcks + [NextCumulative(t.cumAcks, acked)]);
      assert TallyFrame(t, f, time, isReceive) == t';
      ZeroSpanConserves(t.table, lo, hi);
      ExtendRunningSum(t.acks, t.cumAcks, acked);
      assert t'.acks[..|t.acks|] == t.acks;
      assert t'.times[..|t.times|] == t.times;
    }
  }

  lemma {:induction false} TallyFramesSound(t: Tally, frames: seq<Frame>, time: real, isReceive: bool, counted: int)
    requires Balanced(t, counted)
    ensures Balanced(TallyFrames(t, frames, time, isReceive), counted)
    ensures Continues(t, TallyFrames(t, frames, time, isReceive))
  {
    if frames == [] {
      assert t.times[..|t.times|] == t.times && t.acks[..|t.acks|] == t.acks;
    } else {
      var t' := TallyFrames(t, frames[..|frames| - 1], time, isReceive);
      TallyFramesSound(t, frames[..|frames| - 1], time, isReceive, counted);
      TallyFrameSound(t', frames[|frames| - 1], time, isReceive, counted);
      ContinuesTransitive(t, t', TallyFrame(t', frames[|frames| - 1], time, isReceive));
    }
  }

  lemma TallyPacketSound(t: Tally, q: QuicPacket, time: real, isReceive: bool, counted: int)
    requires Balanced(t, counted)
    requires TallyPacket(t, q, time, isReceive).Ok?
    ensures Balanced(TallyPacket(t, q, time, isReceive).value, counted + PacketBytes(q))
    ensures Continues(t, TallyPacket(t, q, time, isReceive).value)
  {
    if q.pktNum.None? {
      assert t.times[..|t.times|] == t.times && t.acks[..|t.acks|] == t.acks;
    } else {
      var t' := t.(table := AddBytes(t.table, q.pktNum.value, q.pktLen.value, time));
      AddBytesConserves(t.table, q.pktNum.value, q.pktLen.value, time);
      assert t.times[..|t.times|] == t.times && t.acks[..|t.acks|] == t.acks;
      TallyFramesSound(t', q.frames.value, time, isReceive, counted + PacketBytes(q));
    }
  }

  lemma {:induction false} TallyPacketsSound(t: Tally, qs: seq<QuicPacket>, time: real, isReceive: bool, counted: int)
    requires Balanced(t, counted)
    requires TallyPackets(t, qs, time, isReceive).Ok?
    ensures Balanced(TallyPackets(t, qs, time, isReceive).value, counted + PacketsBytes(qs))
    ensures Continues(t, TallyPackets(t, qs, time, isReceive).value)
    decreases |qs|
  {
    if qs == [] {
      assert t.times[..|t.times|] == t.times && t.acks[..|t.acks|] == t.acks;
    } else {
      var t' := TallyPacket(t, qs[0], time, isReceive).value;
      TallyPacketSound(t, qs[0], time, isReceive, counted);
      TallyPacketsSound(t', qs[1..], time, isReceive, counted + PacketBytes(qs[0]));
      ContinuesTransitive(t, t', TallyPackets(t', qs[1..], time, isReceive).value);
    }
  }

  lemma {:induction false} TallyFromSound(t: Tally, d: seq<Datagram>, counted: int)
    requires Balanced(t, counted)
    requires TallyFrom(t, d).Ok?
    ensures Balanced(TallyFrom(t, d).value, counted + Counted(d))
    ensures Continues(t, TallyFrom(t, d).value)
    decreases |d|
  {
    if d == [] {
      assert t.times[..|t.times|] == t.times && t.acks[..|t.acks|] == t.acks;
    } else {
      var p := d[0];
      var t' := TallyDatagram(t, p).value;
      if p.udp.None? || p.quic.None? {
        assert t.times[..|t.times|] == t.times && t.acks[..|t.acks|] == t.acks;
      } else {
        TallyPacketsSound(t, p.quic.value, 1000.0 * p.udp.value.time, p.udp.value.srcPort == ServerPort, counted);
      }
      TallyFromSound(t', d[1..], counted + DatagramBytes(p));
      ContinuesTransitive(t, t', TallyFrom(t', d[1..]).value);
    }
  }

  /** What a completed QUIC analysis promises: aligned columns, running sums
      that never decrease, no more bytes ACKed than were sent, and every RTT
      entry its time divided by the one RTT sample. */
  lemma QuicSeriesSound(d: seq<Datagram>)
    requires QuicSeriesOf(d).Ok?
    ensures var s := QuicSeriesOf(d).value;
      |s.times| == |s.rtts| == |s.acks| && IsRunningSum(s.acks, s.cumAcks) &&
      (forall i, j :: 0 <= i <= j < |s.cumAcks| ==> s.cumAcks[i] <= s.cumAcks[j]) &&
      Sum(s.acks) <= Counted(d) &&
      (|s.times| > 0 ==>
        var rtt := TallyFrom(EmptyTally, d).value.rtt;
        rtt.Some? && rtt.value != 0.0 && forall i :: 0 <= i < |s.times| ==> s.rtts[i] * rtt.value == s.times[i])
  {
    QuicSeriesSums(d);
    QuicSeriesRtts(d);
  }

  /** The columns of a completed QUIC analysis, and its byte count. */
  lemma QuicSeriesSums(d: seq<Datagram>)
    requires QuicSeriesOf(d).Ok?
    ensures var s := QuicSeriesOf(d).value;
      |s.times| == |s.rtts| == |s.acks| && IsRunningSum(s.acks, s.cumAcks) &&
      (forall i, j :: 0 <= i <= j < |s.cumAcks| ==> s.cumAcks[i] <= s.cumAcks[j]) &&
      Sum(s.acks) <= Counted(d)
  {
    assert Outstanding(map[]) == 0;
    TallyFromSound(EmptyTally, d, 0);
    var t := TallyFrom(EmptyTally, d).value;
    RunningSumMonotone(t.acks, t.cumAcks);
  }

  /** The RTT column of a completed QUIC analysis: each time divided by the sample. */
  lemma QuicSeriesRtts(d: seq<Datagram>)
    requires QuicSeriesOf(d).Ok?
    ensures var s := QuicSeriesOf(d).value;
      |s.times| > 0 ==>
        var rtt := TallyFrom(EmptyTally, d).value.rtt;
        rtt.Some? && rtt.value != 0.0 && forall i :: 0 <= i < |s.times| ==> s.rtts[i] * rtt.value == s.times[i]
  {
    var t := TallyFrom(EmptyTally, d).value;
    if |t.times| > 0 {
      assert QuicSeriesOf(d).value.rtts == DividedBy(t.times, t.rtt.value);
    }
  }

  /** A tally that has sampled the RTT keeps that sample to the end: the RTT
      is the age of the first packet acknowledged. */
  lemma {:induction false} RttSampledOnce(t: Tally, d: seq<Datagram>)
    requires t.rtt.Some?
    requires TallyFrom(t, d).Ok?
    ensures TallyFrom(t, d).value.rtt == t.rtt
    decreases |d|
  {
    if d != [] {
      var p := d[0];
      var t' := TallyDatagram(t, p).value;
      if p.udp.Some? && p.quic.Some? {
        RttKeptPackets(t, p.quic.value, 1000.0 * p.udp.value.time, p.udp.value.srcPort == ServerPort);
      }
      RttSampledOnce(t', d[1..]);
    }
  }

  lemma {:induction false} RttKeptPackets(t: Tally, qs: seq<QuicPacket>, time: real, isReceive: bool)
    requires t.rtt.Some?
    requires TallyPackets(t, qs, time, isReceive).Ok?
    ensures TallyPackets(t, qs, time, isReceive).value.rtt == t.rtt
    decreases |qs|
  {
    if qs != [] {
      var q := qs[0];
      var t' := TallyPacket(t, q, time, isReceive).value;
      if q.pktNum.Some? {
        RttKeptFrames(t.(table := AddBytes(t.table, q.pktNum.value, q.pktLen.value, time)), q.frames.value, time, isReceive);
      }
      RttKeptPackets(t', qs[1..], time, isReceive);
    }
  }

  lemma {:induction false} RttKeptFrames(t: Tally, frames: seq<Frame>, time: real, isReceive: bool)
    requires t.rtt.Some?
    ensures TallyFrames(t, frames, time, isReceive).rtt == t.rtt
  {
    if frames != [] {
      RttKeptFrames(t, frames[..|frames| - 1], time, isReceive);
    }
  }

  /** The first ACK range of one client ACK frame, swept from the largest
      acknowledged packet number down: each entry present is counted and reset,
      and the first one met sets the RTT sample if there is none. */
  method SweepAck(m: Table, rtt: Option<real>, largest: int, firstRange: int, time: real)
    returns (m': Table, rtt': Option<real>, acked: nat)
    ensures m' == ZeroSpan(m, largest - firstRange, largest + 1)
    ensures acked == CoveredBytes(m, largest - firstRange, largest + 1)
    ensures rtt' == Sample(m, largest - firstRange, largest + 1, rtt, time)
  {
    var lo, hi := largest - firstRange, largest + 1;
    m', rtt', acked := m, rtt, 0;
    var n := largest;
    while n > lo - 1
      invariant (if lo <= hi then lo - 1 else largest) <= n <= largest
      invariant m' == ZeroSpan(m, n + 1, hi)
      invariant acked == CoveredBytes(m, n + 1, hi)
      invariant rtt' == Sample(m, n + 1, hi, rtt, time)
    {
      ZeroSpanBottom(m, n, hi);
      if n in m' {
        if rtt'.None? {
          rtt' := Some(time - m'[n].stamp);
        }
        acked := acked + m'[n].bytes;
        m' := m'[n := Empty];
      }
      n := n - 1;
    }
    if hi < lo {
      assert ZeroSpan(m, hi, hi) == m == ZeroSpan(m, lo, hi);
    }
  }

  /** The frames of one QUIC packet. */
  method ProcessFrames(t: Tally, frames: seq<Frame>, time: real, isReceive: bool) returns (t': Tally)
    ensures t' == TallyFrames(t, frames, time, isReceive)
  {
    t' := t;
    var k := 0;
    while k < |frames|
      invariant 0 <= k <= |frames|
      invariant t' == TallyFrames(t, frames[..k], time, isReceive)
    {
      assert frames[..k + 1][..k] == frames[..k];
      var f := frames[k];
      if f.AckFrame? && !isReceive {
        var m, rtt, acked := SweepAck(t'.table, t'.rtt, f.largest, f.firstRange, time);
        var next := NextCumulative(t'.cumAcks, acked);
        t' := Tally(m, rtt, t'.times + [time], t'.acks + [acked], t'.cumAcks + [next]);
      }
      k := k + 1;
    }
    assert frames[..|frames|] == frames;
  }

  /** The QUIC packets of one datagram. */
  method ProcessPackets(t: Tally, qs: seq<QuicPacket>, time: real, isReceive: bool) returns (r: Outcome<Tally>)
    ensures r == TallyPackets(t, qs, time, isReceive)
  {
    var cur := t;
    var j := 0;
    while j < |qs|
      invariant 0 <= j <= |qs|
      invariant TallyPackets(t, qs, time, isReceive) == TallyPackets(cur, qs[j..], time, isReceive)
    {
      assert qs[j..][0] == qs[j] && qs[j..][1..] == qs[j + 1..];
      var q := qs[j];
      if q.pktNum.None? {
        j := j + 1;
        continue;
      }
      var pktNum := q.pktNum.value;
      if q.pktLen.None? {
        return Raised(TypeError);
      }
      var pktLen := q.pktLen.value;
      var e := if pktNum in cur.table then cur.table[pktNum] else Empty;
      cur := cur.(table := cur.table[pktNum := Entry(e.bytes + pktLen, time)]);
      if q.frames.None? {
        return Raised(KeyError);
      }
      cur := ProcessFrames(cur, q.frames.value, time, isReceive);
      j := j + 1;
    }
    r := Ok(cur);
  }

  /** `analyze_pcap_quic`. */
  method AnalyzePcapQuic(d: seq<Datagram>) returns (r: Outcome<QuicSeries>)
    ensures r == QuicSeriesOf(d)
  {
    var t := EmptyTally;
    var i := 0;
    while i < |d|
      invariant 0 <= i <= |d|
      invariant TallyFrom(EmptyTally, d) == TallyFrom(t, d[i..])
    {
      assert d[i..][0] == d[i] && d[i..][1..] == d[i + 1..];
      var p := d[i];
      if p.udp.Some? && p.quic.Some? {
        var isReceive := p.udp.value.srcPort == ServerPort;
        var time := p.udp.value.time * 1000.0;
        var o := ProcessPackets(t, p.quic.value, time, isReceive);
        if o.Raised? {
          return Raised(o.error);
        }
        t := o.value;
      }
      i := i + 1;
    }
    var rtts: seq<real> := [];
    var k := 0;
    while k < |t.times|
      invariant 0 <= k <= |t.times|
      invariant k > 0 ==> t.rtt.Some? && t.rtt.value != 0.0
      invariant |rtts| == k
      invariant forall j :: 0 <= j < k ==> rtts[j] == t.times[j] / t.rtt.value
    {
      if t.rtt.None? {
        return Raised(TypeError);
      }
      if t.rtt.value == 0.0 {
        return Raised(ZeroDivisionError);
      }
      rtts := rtts + [t.times[k] / t.rtt.value];
      k := k + 1;
    }
    if |t.times| > 0 {
      assert rtts == DividedBy(t.times, t.rtt.value);
    }
    r := Ok(QuicSeries(t.times, rtts, t.acks, t.cumAcks));
  }

  // ---------------------------------------------------------------------------
  // Titles and file names

  const TitleBase: string := "Bytes ACKed vs RTT"
  const TitleFor: string := " for "
  const PlotsDir: string := "./plots"
  const CsvDir: string := "./csv"

  /** The scatterplot title, naming the client when there is one. */
  function GetPlotTitle(client: Option<string>): (r: string)
    ensures |TitleBase| <= |r| && r[..|TitleBase|] == TitleBase
    ensures r == TitleBase <==> client.None?
  {
    if client.Some? then TitleBase + TitleFor + client.value else TitleBase
  }

  /** Reads the client back out of a title. */
  function ClientOfTitle(title: string): Option<string>
  {
    var n := |TitleBase + TitleFor|;
    if |title| >= n && title[..n] == TitleBase + TitleFor then Some(title[n..]) else None
  }

  /** The title determines the client: reading it back gives the client it was made for. */
  lemma PlotTitleRoundTrip(client: Option<string>)
    ensures ClientOfTitle(GetPlotTitle(client)) == client
  {
    var n := |TitleBase + TitleFor|;
    if client.Some? {
      var t := GetPlotTitle(client);
      assert t[..n] == TitleBase + TitleFor;
      assert t[n..] == client.value;
    } else {
      assert |TitleBase| < n;
    }
  }

  /** The plot file of a capture: "json" becomes "pdf", "pcap" becomes the
      plots directory, and the algorithm's name, if any, is inserted with a
      dash before the last four characters. */
  function GetPlotFilename(pcapFile: string, alg: Option<string>): (r: string)
    ensures var plotFile := Replace(Replace(pcapFile, "json", "pdf"), "pcap", PlotsDir);
      (alg.None? ==> r == plotFile) &&
      (alg.Some? && |plotFile| >= 4 ==>
        r == plotFile[..|plotFile| - 4] + "-" + alg.value + plotFile[|plotFile| - 4..]) &&
      (alg.Some? && |plotFile| < 4 ==> r == "-" + alg.value + plotFile)
  {
    var plotFile := Replace(Replace(pcapFile, "json", "pdf"), "pcap", PlotsDir);
    if alg.Some? then
      InsertBeforeExtension(plotFile, alg.value);
      Slice(plotFile, 0, -4) + "-" + alg.value + SliceFrom(plotFile, -4)
    else plotFile
  }

  /** `f[:-4] + '-' + a + f[-4:]` puts `-a` before the last four characters,
      or in front of a name shorter than that. */
  lemma InsertBeforeExtension(f: string, a: string)
    ensures |f| >= 4 ==> Slice(f, 0, -4) + "-" + a + SliceFrom(f, -4) == f[..|f| - 4] + "-" + a + f[|f| - 4..]
    ensures |f| < 4 ==> Slice(f, 0, -4) + "-" + a + SliceFrom(f, -4) == "-" + a + f
  {
    if |f| < 4 {
      assert Slice(f, 0, -4) == [];
      assert SliceFrom(f, -4) == f[0..] == f;
    }
  }

  /** Replacing in "./pcap/" + stem + ext, where neither `stem` nor `ext`
      starts or holds `pat` across the directory separator. */
  lemma ReplaceInCapture(stem: string, ext: string, pat: string, rep: string)
    requires |pat| > 0 && '/' !in pat && '.' !in pat
    requires !Occurs(stem, pat)
    requires |ext| > 0 && ext[0] == '.'
    ensures Replace("./pcap/" + stem + ext, pat, rep) ==
      Replace("./pcap", pat, rep) + "/" + stem + Replace(ext, pat, rep)
  {
    var b := "/" + stem;
    assert "./pcap/" + stem + ext == ("./pcap" + b) + ext;
    ReplaceSplit("./pcap" + b, ext, pat, rep);
    ReplaceSplit("./pcap", b, pat, rep);
    AbsentCons('/', stem, pat);
    ReplaceAbsent(b, pat, rep);
  }

  // The replacements on the fixed parts of a capture's name, one fact each.

  lemma DirKeptByJson(rep: string)
    ensures Replace("./pcap", "json", rep) == "./pcap"
  {
    AbsentFirst("./pcap", "json");
    ReplaceAbsent("./pcap", "json", rep);
  }

  lemma DirRenamed(rep: string)
    ensures Replace("./pcap", "pcap", rep) == "./" + rep
  {
    assert "./pcap" == ['.'] + "/pcap";
    assert "/pcap" == ['/'] + "pcap";
    ReplaceCons('.', "/pcap", "pcap", rep);
    ReplaceCons('/', "pcap", "pcap", rep);
    ReplaceWhole("pcap", rep);
  }

  lemma ExtJsonRenamed(rep: string)
    ensures Replace(".json", "json", rep) == "." + rep
  {
    assert ".json" == ['.'] + "json";
    ReplaceCons('.', "json", "json", rep);
    ReplaceWhole("json", rep);
  }

  lemma PdfKeptByPcap(rep: string)
    ensures Replace(".pdf", "pcap", rep) == ".pdf"
  {
    assert ".pdf" == ['.'] + "pdf";
    ReplaceCons('.', "pdf", "pcap", rep);
  }

  /** An extension without a 'p' after its dot is left alone by the "pcap" pass. */
  lemma ExtKeptByPcap(ext: string, rep: string)
    requires |ext| > 0 && ext[0] == '.' && 'p' !in ext[1..]
    ensures Replace(ext, "pcap", rep) == ext
  {
    assert ext == ['.'] + ext[1..];
    AbsentFirst(ext[1..], "pcap");
    AbsentCons('.', ext[1..], "pcap");
    ReplaceAbsent(ext, "pcap", rep);
  }

  /** The plot file of the capture "./pcap/<stem>.json" is
      "././plots/<stem>[-<alg>].pdf" whenever `stem` holds neither "json" nor "pcap". */
  lemma PlotFilenameOfCapture(stem: string, alg: Option<string>)
    requires !Occurs(stem, "json") && !Occurs(stem, "pcap")
    ensures GetPlotFilename("./pcap/" + stem + ".json", alg) ==
      "././plots/" + stem + (if alg.Some? then "-" + alg.value else "") + ".pdf"
  {
    var plotFile := "././plots/" + stem + ".pdf";
    PlotFileOfCapture(stem);
    assert plotFile[..|plotFile| - 4] == "././plots/" + stem;
    assert plotFile[|plotFile| - 4..] == ".pdf";
  }

  lemma PlotFileOfCapture(stem: string)
    requires !Occurs(stem, "json") && !Occurs(stem, "pcap")
    ensures Replace(Replace("./pcap/" + stem + ".json", "json", "pdf"), "pcap", PlotsDir) == "././plots/" + stem + ".pdf"
  {
    JsonToPdf(stem);
    PdfIntoPlots(stem);
  }

  // The replacements on a capture's name, one pass at a time: each changes
  // only the extension or only the directory.

  lemma JsonToPdf(stem: string)
    requires !Occurs(stem, "json")
    ensures Replace("./pcap/" + stem + ".json", "json", "pdf") == "./pcap/" + stem + ".pdf"
  {
    ReplaceInCapture(stem, ".json", "json", "pdf");
    DirKeptByJson("pdf");
    ExtJsonRenamed("pdf");
  }

  lemma JsonToCsv(stem: string)
    requires !Occurs(stem, "json")
    ensures Replace("./pcap/" + stem + ".json", "json", "csv") == "./pcap/" + stem + ".csv"
  {
    ReplaceInCapture(stem, ".json", "json", "csv");
    DirKeptByJson("csv");
    ExtJsonRenamed("csv");
  }

  lemma PdfIntoPlots(stem: string)
    requires !Occurs(stem, "pcap")
    ensures Replace("./pcap/" + stem + ".pdf", "pcap", PlotsDir) == "././plots/" + stem + ".pdf"
  {
    ReplaceInCapture(stem, ".pdf", "pcap", PlotsDir);
    DirRenamed(PlotsDir);
    assert "./" + PlotsDir + "/" == "././plots/";
    PdfKeptByPcap(PlotsDir);
  }

  lemma CsvIntoCsvDir(stem: string)
    requires !Occurs(stem, "pcap")
    ensures Replace("./pcap/" + stem + ".csv", "pcap", CsvDir) == "././csv/" + stem + ".csv"
  {
    ReplaceInCapture(stem, ".csv", "pcap", CsvDir);
    DirRenamed(CsvDir);
    assert "./" + CsvDir + "/" == "././csv/";
    ExtKeptByPcap(".csv", CsvDir);
  }

  lemma JsonIntoCsvDir(stem: string)
    requires !Occurs(stem, "pcap")
    ensures Replace("./pcap/" + stem + ".json", "pcap", CsvDir) == "././csv/" + stem + ".json"
  {
    ReplaceInCapture(stem, ".json", "pcap", CsvDir);
    DirRenamed(CsvDir);
    assert "./" + CsvDir + "/" == "././csv/";
    ExtKeptByPcap(".json", CsvDir);
  }

  /** The CSV file name as written: the result of the first replacement is
      discarded, so only "pcap" is replaced. */
  function GetCsvFilenameAsWritten(pcapFile: string): (r: string)
    ensures !Occurs(pcapFile, "pcap") ==> r == pcapFile
  {
    var csvFile := Replace(pcapFile, "json", "csv");
    ReplaceIfAbsent(pcapFile, "pcap", CsvDir);
    Replace(pcapFile, "pcap", CsvDir)
  }

  /** The CSV file name as evidently intended: both replacements applied in turn. */
  function GetCsvFilename(pcapFile: string): (r: string)
    ensures !Occurs(pcapFile, "json") && !Occurs(pcapFile, "pcap") ==> r == pcapFile
  {
    ReplaceIfAbsent(pcapFile, "json", "csv");
    ReplaceIfAbsent(pcapFile, "pcap", CsvDir);
    Replace(Replace(pcapFile, "json", "csv"), "pcap", CsvDir)
  }

  /** The CSV file the code as written produces for a capture keeps the
      ".json" extension. */
  lemma CsvFilenameAsWrittenKeepsJson(stem: string)
    requires !Occurs(stem, "json") && !Occurs(stem, "pcap")
    ensures GetCsvFilenameAsWritten("./pcap/" + stem + ".json") == "././csv/" + stem + ".json"
  {
    JsonIntoCsvDir(stem);
  }

  /** The intended CSV file of "./pcap/<stem>.json" is "././csv/<stem>.csv". */
  lemma CsvFilenameOfCapture(stem: string)
    requires !Occurs(stem, "json") && !Occurs(stem, "pcap")
    ensures GetCsvFilename("./pcap/" + stem + ".json") == "././csv/" + stem + ".csv"
  {
    JsonToCsv(stem);
    CsvIntoCsvDir(stem);
  }
}
