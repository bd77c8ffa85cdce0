# ACK analysis and trace divergence of quic-automated, in Dafny

This project models the analysis core of quic-automated. quic-automated
captures TCP and QUIC downloads and turns each capture into series of bytes
acknowledged against time and against RTTs. It then fits polynomials to the
segments of such a series and decides whether two QUIC traces diverge. The
model covers four Python files:

- `analysis/analyze.py`:
  - the static RTT estimate of a TCP capture (the first `tcp.analysis.initial_rtt`);
  - the static RTT estimate of a QUIC capture (the time of the first datagram from port 443);
  - the cumulative-ACK series of TCP captures (client ACK numbers summed);
  - the cumulative-ACK series of QUIC captures (bytes in flight per packet number, released by ACK frames);
  - their normalisation by the RTT.
- `analysis/analyze_ack.py`:
  - the TCP series per RTT window and cumulatively, both stopping after the first FIN;
  - the QUIC series, whose RTT is sampled from the first acknowledged packet;
  - the plot title and the plot and CSV file names.
- `analysis/polyfit.py`:
  - polynomial evaluation and the mean squared error of a polynomial on a segment;
  - the degree penalty;
  - the choice of a best polynomial per segment.
- `analysis/divergence.py`:
  - the coefficient MSE of two polynomials;
  - the segment-by-segment comparison of two traces.

Captures are the already-loaded JSON dissections, as typed records:

- `Packets.TcpSegment` holds the `tcp` layer.
- `Packets.Datagram` holds the `udp` layer and the QUIC packets of the capture.

Python exceptions are values of `Outcomes.Outcome`: `Raised(KeyError | TypeError | IndexError | ZeroDivisionError | UnboundLocalError)`.
Each series-building loop is a `method` proved equal to a recursive
specification function. The properties are proved about those functions:

- running sums;
- conservation of bytes between the in-flight table and the bytes acknowledged;
- RTT windows;
- first minimum over degrees;
- segments that partition the series;
- the meaning of the divergence verdict.

The model is organised in modules:

- `Outcomes`: Option and exceptions.
- `PyOps`: Python slicing, `int()` on floats, and `str.replace`.
- `Series`: running sums and division by the RTT.
- `Packets`: capture records and TCP RTT.
- `FlightTable`: the packet-number table of bytes in flight.
- `Analyze`, `AnalyzeAck`, `Polyfit` and `Divergence`: one module per source file.

## Model

| member | source | states |
|---|---|---|
| PyOps.Slice | analysis/polyfit.py:101-102 | a Python slice `s[lo:hi]` is the plain subsequence when the bounds are in range, and never longer than `s` |
| PyOps.SliceFrom | analysis/polyfit.py:98-99 | `s[lo:]` is the plain suffix when `lo` is in range |
| PyOps.Trunc | analysis/analyze_ack.py:79-80 | `int(x)` truncates toward zero: for x >= 0 it is the floor, for x < 0 the ceiling |
| PyOps.ReplaceAbsent | analysis/analyze_ack.py:271-272 | `str.replace` leaves a string without the pattern unchanged |
| PyOps.ReplaceIfAbsent | analysis/analyze_ack.py:271-272 | for every string: when the pattern does not occur in it, `str.replace` leaves it unchanged |
| PyOps.ReplaceSplit | analysis/analyze_ack.py:271-272 | `str.replace` acts separately on two parts when the second starts with a character that is not in the pattern |
| Series.RunningSum | analysis/analyze.py:95-98 | the cumulative column is the running sum of the ACK column: first element the first ACK, each later one the previous plus the new ACK |
| Series.RunningSumUnique | analysis/analyze.py:95-98 | only one column is the running sum of a given ACK column |
| Series.ExtendRunningSum | analysis/analyze.py:184-187 | appending `cum_acks[-1] + acked` (or `acked` to an empty column) keeps the running-sum relation |
| Series.RunningSumTotal | analysis/analyze.py:184-187 | the last cumulative value is the total of all ACKs |
| Series.RunningSumMonotone | analysis/analyze_ack.py:233-236 | with non-negative ACKs the cumulative column never decreases |
| Series.SumPrefixMonotone | analysis/analyze_ack.py:233-236 | with non-negative ACKs a longer prefix never sums to less |
| Series.DividedBy | analysis/analyze.py:23-24 | dividing every time by a non-zero RTT keeps the length, and each result times the RTT gives the time back |
| Packets.ClientAcksSelects | analysis/analyze.py:84-89 | the client-ACK filter keeps exactly the segments not from port 443 that are not FINs |
| Packets.ClientAcksAppend | analysis/analyze.py:81-89 | filtering a concatenation filters each part |
| Packets.FirstRttIndex | analysis/analyze.py:34-41 | the first segment carrying an initial RTT: none carries one before it, and none at all when the result is None |
| FlightTable.AddBytes | analysis/analyze.py:154-157 | recording a packet adds its length to the bytes of its number (starting from 0), stamps it with the time, and leaves the other numbers alone |
| FlightTable.AddBytesConserves | analysis/analyze.py:154-157 | recording a packet raises the bytes in flight by exactly its length |
| FlightTable.DeleteSpan | analysis/analyze.py:174-178 | acknowledging a range deletes exactly the numbers of the range that are present; by its definition every other entry keeps its bytes and timestamp |
| FlightTable.DeleteSpanNothing | analysis/analyze.py:174 | an empty range deletes nothing |
| FlightTable.DeleteSpanConserves | analysis/analyze.py:174-178 | the bytes in flight before equal the bytes counted for the range plus the bytes in flight after |
| FlightTable.ZeroSpan | analysis/analyze_ack.py:223-228 | zeroing a range keeps every packet number; by its definition the entries of the range become (0, 0.0) and every other entry keeps its value |
| FlightTable.ZeroSpanConserves | analysis/analyze_ack.py:223-228 | the bytes in flight before equal the bytes counted for the range plus the bytes in flight after zeroing |
| FlightTable.HighestPresent | analysis/analyze_ack.py:223-226 | the highest number of the range that is present, which is the first one the downward sweep meets; None when no number of the range is present |
| Analyze.NormalizeByRtt | analysis/analyze.py:23-24 | dividing by a zero RTT raises ZeroDivisionError exactly when there is a time to divide; otherwise each result times the RTT is its time |
| Analyze.GetRttStaticTcp | analysis/analyze.py:27-43 | the loop returns the first initial RTT of the capture in ms, or None |
| Analyze.FirstFromServer | analysis/analyze.py:52-64 | the first datagram with a `udp` layer from port 443; none before it |
| Analyze.GetRttStaticQuic | analysis/analyze.py:45-65 | the loop returns the time in ms of the first datagram from the server, or None |
| Analyze.TcpCumAcks | analysis/analyze.py:81-98 | the times and ACK numbers of the client ACKs, with their running sum |
| Analyze.DescribesUnique | analysis/analyze.py:81-98 | those three columns are determined by the client ACKs |
| Analyze.GetCumackTcp | analysis/analyze.py:72-105 | None exactly for an empty capture; otherwise the columns of the client ACKs |
| Analyze.AckOneConserves | analysis/analyze.py:169-178 | an ACK frame moves bytes from the in-flight table to the bytes acknowledged, losing and creating none |
| Analyze.AckRangeConserves | analysis/analyze.py:174-178 | the bytes counted for a range plus the bytes in flight after deleting it equal the bytes in flight before |
| Analyze.AckAllConserves | analysis/analyze.py:167-178 | so do all the frames of a packet |
| Analyze.RecordPacketBalanced | analysis/analyze.py:135-187 | one QUIC packet keeps bytes in flight plus bytes acknowledged equal to the bytes received |
| Analyze.RecordPacketsBalanced | analysis/analyze.py:135-187 | so do all the packets of a datagram |
| Analyze.LedgerBalanced | analysis/analyze.py:119-187 | over the whole capture, bytes in flight plus bytes acknowledged equal the bytes received |
| Analyze.QuicCumAcksSound | analysis/analyze.py:182-187 | one time per ACK count; the cumulative column is the running sum and never decreases; the total acknowledged never exceeds the bytes received |
| Analyze.RecordPacket | analysis/analyze.py:135-187 | one QUIC packet appends at most one ACK entry, and keeps one time and one cumulative entry per ACK entry |
| Analyze.RecordPackets | analysis/analyze.py:135-187 | the packets of a datagram append at most one ACK entry each, keeping the columns aligned |
| Analyze.LedgerOf | analysis/analyze.py:119-187 | the ledger after the whole capture has one time and one cumulative entry per ACK entry |
| Analyze.QuicCumAcks | analysis/analyze.py:189-194 | the QUIC series of a capture has three equally long columns, which the assertions at analyze.py:227-228 demand |
| Analyze.ServerPacketBalanced | analysis/analyze.py:136-157 | a server packet adds its recorded length to the bytes in flight and to the bytes received |
| Analyze.ClientPacketBalanced | analysis/analyze.py:159-187 | a client packet moves the bytes its ACK frames acknowledge from the table to the ACK column, keeping the running sum |
| Analyze.AckFirstRange | analysis/analyze.py:170-178 | the loop over `range(largest - first_range, largest + 1)` deletes the packets present and sums their bytes |
| Analyze.AckFrames | analysis/analyze.py:166-178 | the frame loop gives the table and the bytes acknowledged that `AckAll` defines |
| Analyze.RecordQuics | analysis/analyze.py:135-187 | the packet loop gives the ledger `RecordPackets` defines |
| Analyze.GetCumackQuic | analysis/analyze.py:107-194 | None exactly for an empty capture; otherwise `QuicCumAcks` of the capture, the `quic` layer being read before it is tested |
| Analyze.CumackQuicAsWritten | analysis/analyze.py:119-124 | as written, testing `quics` before assigning it raises UnboundLocalError at the first datagram with a `udp` layer; a capture without one gives empty columns |
| Analyze.CumackQuicAsWrittenRaises | analysis/analyze.py:123 | a two-datagram capture on which the code as written raises, while the intended series acknowledges 1200 bytes |
| Analyze.GetCumackRtt | analysis/analyze.py:202-237 | None when there is no RTT estimate; otherwise the capture's columns with the times divided by the RTT, raising ZeroDivisionError on a zero RTT; the four columns are equally long, so the assertions at lines 227-228 hold; a QUIC capture goes through the corrected `GetCumackQuic` of the `analyze.py:123` Finding |
| AnalyzeAck.FinIndex | analysis/analyze_ack.py:49-51 | the first FIN at or after k, or the end of the capture |
| AnalyzeAck.ScanDone | analysis/analyze_ack.py:49-61 | after the loop, the RTT held is the capture's first initial RTT, and the segments kept are the client ACKs from the one carrying it up to the first FIN |
| AnalyzeAck.WindowIsMax | analysis/analyze_ack.py:79-80 | the current RTT window is the largest truncated RTT so far, and 0 before any |
| AnalyzeAck.WindowedCumFromStart | analysis/analyze_ack.py:79-83 | inside a window, each cumulative value is the ACK minus the last ACK before the window (0 in the first) |
| AnalyzeAck.PerRttSeriesMeans | analysis/analyze_ack.py:71-83 | the per-RTT series holds the kept segments' times, RTTs, sequence and ACK numbers, and its cumulative column is windowed |
| AnalyzeAck.RecordPerRtt | analysis/analyze_ack.py:71-83 | one client ACK appends its time, RTT quotient, sequence and ACK numbers and its windowed cumulative value, and keeps the window variables in step |
| AnalyzeAck.ScanPerRtt | analysis/analyze_ack.py:49-83 | one pass of the loop raises ZeroDivisionError only on a capture with client ACKs and a zero initial RTT; otherwise the RTT held is the first one so far and the series is that of the client ACKs kept so far |
| AnalyzeAck.RecordScanned | analysis/analyze_ack.py:63-83 | once the RTT is known, a client ACK extends the series (raising on a zero RTT) and any other segment leaves it as it is |
| AnalyzeAck.AnalyzePcapTcpPerRtt | analysis/analyze_ack.py:29-91 | raises ZeroDivisionError exactly when a segment must be divided by a zero initial RTT; otherwise the columns of the kept client ACKs, with the windowed cumulative column |
| AnalyzeAck.ScanCum | analysis/analyze_ack.py:111-140 | one pass of the cumulative loop raises ZeroDivisionError only on a capture with client ACKs and a zero initial RTT; otherwise its columns are those of the client ACKs kept so far |
| AnalyzeAck.RecordScannedCum | analysis/analyze_ack.py:125-140 | once the RTT is known, a client ACK appends its row, with the cumulative value equal to its ACK number, and any other segment changes nothing |
| AnalyzeAck.AnalyzePcapTcpCum | analysis/analyze_ack.py:94-148 | raises ZeroDivisionError exactly when a segment must be divided by a zero initial RTT; otherwise the columns of the kept client ACKs, with the cumulative column equal to the ACK column |
| AnalyzeAck.TallyFrameSound | analysis/analyze_ack.py:215-236 | an ACK frame sent by the client moves bytes from outstanding to acknowledged and appends one running-sum entry; other frames change nothing |
| AnalyzeAck.TallyFramesSound | analysis/analyze_ack.py:215-236 | so do all the frames of a packet |
| AnalyzeAck.TallyPacketSound | analysis/analyze_ack.py:186-236 | a QUIC packet with a number adds its length to what is outstanding, whichever way it travels |
| AnalyzeAck.TallyPacketsSound | analysis/analyze_ack.py:183-236 | so do all the packets of a datagram |
| AnalyzeAck.TallyFromSound | analysis/analyze_ack.py:167-236 | over the capture, outstanding plus acknowledged equal the bytes of all numbered packets, and earlier entries are never rewritten |
| AnalyzeAck.QuicSeriesSound | analysis/analyze_ack.py:229-241 | the columns are equally long; the cumulative column is the running sum and never decreases; the total acknowledged never exceeds the bytes counted; every RTT entry times the sampled non-zero RTT is its time |
| AnalyzeAck.TallyPacket | analysis/analyze_ack.py:186-236 | one QUIC packet raises only TypeError (a number without a length) or KeyError (no frames) |
| AnalyzeAck.TallyPackets | analysis/analyze_ack.py:183-236 | the packets of a datagram raise only those two errors |
| AnalyzeAck.TallyFrom | analysis/analyze_ack.py:167-236 | the capture loop raises only those two errors |
| AnalyzeAck.QuicSeriesOf | analysis/analyze_ack.py:151-248 | `analyze_pcap_quic` raises only TypeError, KeyError or ZeroDivisionError, and on success has one RTT entry per time |
| AnalyzeAck.RttSampledOnce | analysis/analyze_ack.py:225-226 | once an RTT is sampled it is never replaced |
| AnalyzeAck.SweepAck | analysis/analyze_ack.py:222-228 | the downward sweep zeroes the range, sums its bytes, and samples the RTT from the highest packet present if none is held |
| AnalyzeAck.ProcessFrames | analysis/analyze_ack.py:215-236 | the frame loop gives the tally `TallyFrames` defines |
| AnalyzeAck.ProcessPackets | analysis/analyze_ack.py:183-236 | the packet loop gives `TallyPackets`, raising TypeError for a missing length and KeyError for missing frames |
| AnalyzeAck.AnalyzePcapQuic | analysis/analyze_ack.py:151-248 | the capture loop and the normalisation give `QuicSeriesOf` of the capture, raising as it does |
| AnalyzeAck.GetPlotTitle | analysis/analyze_ack.py:250-259 | the title starts with `Bytes ACKed vs RTT`, and is exactly that when there is no client |
| AnalyzeAck.PlotTitleRoundTrip | analysis/analyze_ack.py:250-259 | the client name, or its absence, can be read back from the title |
| AnalyzeAck.GetPlotFilename | analysis/analyze_ack.py:261-275 | after the `json` and `pcap` replacements, the algorithm's name is inserted as `-<alg>` before the last four characters, or in front of a name shorter than four |
| AnalyzeAck.InsertBeforeExtension | analysis/analyze_ack.py:274 | `f[:-4] + '-' + a + f[-4:]` with Python's negative slice bounds resolved |
| AnalyzeAck.PlotFilenameOfCapture | analysis/analyze_ack.py:261-275 | `./pcap/<stem>.json` gets the plot file `././plots/<stem>[-<alg>].pdf` |
| AnalyzeAck.GetCsvFilenameAsWritten | analysis/analyze_ack.py:324-327 | as written, a name without `pcap` comes back unchanged, whatever `json` it holds |
| AnalyzeAck.GetCsvFilename | analysis/analyze_ack.py:324-327 | with the replacements applied in turn, a name holding neither `json` nor `pcap` comes back unchanged |
| AnalyzeAck.CsvFilenameAsWrittenKeepsJson | analysis/analyze_ack.py:324-327 | as written, the CSV name of `./pcap/<stem>.json` keeps the `.json` extension |
| AnalyzeAck.CsvFilenameOfCapture | analysis/analyze_ack.py:324-327 | with both replacements applied in turn, the CSV name is `././csv/<stem>.csv` |
| Polyfit.PolyValueIsHorner | analysis/polyfit.py:16-24 | the sum of `p[i] * x**(deg - i)` equals Horner evaluation of the coefficients, highest degree first |
| Polyfit.PolyValueAtZero | analysis/polyfit.py:16-24 | at 0 a polynomial takes its constant term `p[deg]` |
| Polyfit.EvalPoly | analysis/polyfit.py:4-24 | the loop computes the polynomial's value |
| Polyfit.SquaredResidualsZero | analysis/polyfit.py:45-50 | the sum of squared residuals is non-negative, and 0 exactly when the polynomial passes through every point |
| Polyfit.MseZeroIffFits | analysis/polyfit.py:45-51 | the MSE is non-negative, and 0 exactly when the polynomial fits every point |
| Polyfit.GetPolyMse | analysis/polyfit.py:26-51 | raises ZeroDivisionError exactly on an empty segment; otherwise the mean squared residual |
| Polyfit.CorrectPolyError | analysis/polyfit.py:53-70 | a constant polynomial is not penalised, and with a non-negative factor, degree and coefficient sum the corrected error is never below the MSE |
| Polyfit.CorrectPolyErrorNoPenalty | analysis/polyfit.py:53-70 | with no penalty factor the corrected error is the MSE |
| Polyfit.CorrectPolyErrorMonotone | analysis/polyfit.py:53-70 | with a non-negative coefficient sum, a larger factor never lowers the corrected error |
| Polyfit.BestBelow | analysis/polyfit.py:107-115 | a degree is chosen exactly when one is tried; it lies in the range, and the polynomial and error are the fitter's and the score's at that degree |
| Polyfit.BestBelowIsFirstMinimum | analysis/polyfit.py:113-115 | the chosen degree has the least error of all tried, and every lower degree has a strictly larger one |
| Polyfit.SegmentFit | analysis/polyfit.py:105-116 | the polynomial kept for one segment is the fitter's at some tried degree, with 2 to `poly_max_deg_plus_1` coefficients |
| Polyfit.BestFit | analysis/polyfit.py:107-116 | the degree loop keeps the first minimum, raising UnboundLocalError when no degree is tried and TypeError on an empty segment |
| Polyfit.JoinedPrefix | analysis/polyfit.py:95-103 | with ordered breakpoints inside the series, the first n segments join up to breakpoint n - 1 |
| Polyfit.SegmentsPartition | analysis/polyfit.py:95-103 | with ordered breakpoints inside the series, the segments joined in order give the series back |
| Polyfit.SegmentAt | analysis/polyfit.py:97-103 | the x and y segments of iteration i are the slices from the previous breakpoint to breakpoint i, or to the end for the last one; `start` moves to breakpoint i only while one is left |
| Polyfit.SegmentLengths | analysis/polyfit.py:97-102 | the x and y segments are equally long |
| Polyfit.CollectOk | analysis/polyfit.py:116 | the list of best polynomials is built exactly when every segment has one, and holds them in order |
| Polyfit.CollectRaised | analysis/polyfit.py:116 | otherwise the error is the one raised by the first segment that fails |
| Polyfit.BestPolys | analysis/polyfit.py:94-118 | on success, one polynomial per segment: one more than there are breakpoints |
| Polyfit.GetBestPolys | analysis/polyfit.py:72-118 | the segment loop gives one polynomial per segment, or the first error |
| Polyfit.BestPolysPerSegment | analysis/polyfit.py:94-118 | on success, there are as many polynomials as segments, and each is the degree loop's choice for its segment |
| Polyfit.BestPolysRaises | analysis/polyfit.py:107-116 | it raises exactly when no degree is tried (UnboundLocalError) or some segment is empty (TypeError) |
| Polyfit.BestPolysDegrees | analysis/polyfit.py:107-116 | every kept polynomial has between 2 and `poly_max_deg_plus_1` coefficients |
| Polyfit.BestPolysAsWritten | analysis/polyfit.py:94-116 | as written, the loop always raises: IndexError at `brkps[i]` with no breakpoints, TypeError from `np.polyfit(x, y)` without a degree, UnboundLocalError when no degree is tried |
| Polyfit.BestPolysAsWrittenRaises | analysis/polyfit.py:103-110 | on four points with one breakpoint the code as written raises, while fitting each segment gives two polynomials |
| Divergence.SquaredDiffsZero | analysis/divergence.py:13-15 | the summed squared coefficient differences are non-negative, and 0 exactly when the coefficients agree |
| Divergence.SquaredDiffsSymmetric | analysis/divergence.py:13-15 | they do not depend on the order of the polynomials |
| Divergence.CoeffMseProperties | analysis/divergence.py:6-17 | the coefficient MSE is non-negative, 0 exactly for equal polynomials, and symmetric |
| Divergence.GetCoeffMse | analysis/divergence.py:6-17 | raises ZeroDivisionError exactly for empty polynomials; otherwise the coefficient MSE |
| Divergence.DropSentinel | analysis/divergence.py:56-57 | the last breakpoint, which marks the series' end, is removed when there is one |
| Divergence.CompareFrom | analysis/divergence.py:62-82 | the comparison from segment i raises only ZeroDivisionError; a difference always names a segment, at or after i and inside the lists |
| Divergence.CompareFromMeans | analysis/divergence.py:62-82 | the traces are the same exactly when every segment pair agrees (same degree, MSE below 5.0); a difference names the first diverging segment, after segments that all agree; it raises only on empty polynomials |
| Divergence.CompareFromOk | analysis/divergence.py:62-82 | with no empty polynomial the comparison never raises |
| Divergence.CompareFromSelf | analysis/divergence.py:62-82 | a list of polynomials compared with itself is the same |
| Divergence.CompareFromSymmetric | analysis/divergence.py:62-82 | swapping the two lists gives the same verdict at the same segment |
| Divergence.ComparePolys | analysis/divergence.py:62-82 | the loop with its two `break`s gives `CompareFrom` from segment 0 |
| Divergence.PolysAligned | analysis/divergence.py:58-60 | with equal numbers of changepoints the two lists of polynomials are equally long and hold no empty polynomial, so the assertion holds |
| Divergence.CheckDivergenceOf | analysis/divergence.py:41-84 | a difference without a segment comes only from different changepoint counts; a named segment is one of the first trace's polynomials |
| Divergence.CheckDivergence | analysis/divergence.py:24-84 | the count check, sentinel removal, fitting and comparison give `CheckDivergenceOf`, fitting each trace with the corrected `Polyfit.BestPolys` of the `polyfit.py:103` and `:110` Findings |
| Divergence.CheckDivergenceMeans | analysis/divergence.py:41-84 | with the corrected fitter, it raises only when fitting a trace raises; different changepoint counts differ at no segment; otherwise the traces are the same exactly when every segment pair agrees, and a difference names the first diverging segment |
| Divergence.CheckDivergenceSelf | analysis/divergence.py:24-84 | with the corrected fitter, a trace compared with itself is the same, unless fitting it raises |
| Divergence.CheckDivergenceSymmetric | analysis/divergence.py:24-84 | with the corrected fitter, swapping the traces gives the same verdict at the same segment, and raises exactly when the original order does |

## Left out

- Loading the JSON dissection and failing to open a file (`pcap_file_to_json`, the `try`/`open` blocks): every operation takes the already-loaded capture. An empty capture stands for the falsy `d` of `analyze.py`.
- The JSON layout itself: the dictionary lookups that could raise KeyError on a malformed dissection are not modelled. This covers `_source`/`layers`, `udp.dstport` and `quic.frame_type`, which `Packets.Frame` replaces by a tag. The one exception is the missing `quic.frame` of `analyze_ack.py:210`, which is modelled.
- Port fields are compared as integers, where `analyze_ack.py` compares the string `'443'`. The two agree on the decimal text tshark writes.
- Floating point: times, RTTs, MSEs and coefficients are `real`, so rounding and `float()` parsing are not modelled.
- `np.polyfit` is the abstract parameter `Polyfit.Fitter`, assumed only to return `deg + 1` coefficients for degree `deg`. Least squares itself is not modelled.
- `get_cp_pelt` and `analysis/changepoint.py` are not part of this model: `Divergence.Trace` carries the changepoints.
- `get_cumack_rtt` inside `check_divergence` and the conversion of its columns to arrays are not modelled: a `Divergence.Trace` holds the RTT and cumulative columns as reals. The `np.ndarray(rtts1)` calls at `divergence.py:34` and `:38` construct arrays from shapes rather than from data. They are left out, and the columns are taken as given.
- The message strings of `DivergenceResults`: `Divergence.Reason` carries the numbers and polynomials each message prints.
- Plotting and CSV output (`generate_plot_*`, `make_dirs`, `read_csv_quic`, matplotlib): file and drawing I/O.
- `print` calls for skipped packets or unknown packet numbers: console output only.
- The `times` list of `check_divergence`, which is read but never used.
- `analysis/analyze_ack.py`'s `Changepoint` enum: `AnalyzeAck.GetPlotFilename` takes the algorithm's name as an optional string.
- AnalyzeAck.PlotFilenameOfCapture, AnalyzeAck.CsvFilenameOfCapture: stated for names of the form `./pcap/<stem>.json` whose stem contains neither `json` nor `pcap`, not for every string.

## Findings

| source | as written | input that shows it | evidently intended | confidence | as-written member | corrected member |
|---|---|---|---|---|---|---|
| analysis/analyze.py:123 | `quics` is tested before it is assigned at line 130, so the first datagram with a `udp` layer raises UnboundLocalError | a server datagram carrying a 1200-byte packet 0, then a client ACK of packet 0 | read the `quic` layer first, then skip datagrams without one | not executed | Analyze.CumackQuicAsWrittenRaises | Analyze.GetCumackQuic |
| analysis/polyfit.py:103 | `start = brkps[i]` runs for the last segment too, so the final iteration reads past the end of `brkps`; with no breakpoints the first does | x = y = [0, 1, 2, 3], brkps = [] | advance `start` only while `i < len(brkps)` | not executed | Polyfit.BestPolysAsWrittenRaises | Polyfit.GetBestPolys |
| analysis/polyfit.py:110 | `np.polyfit(x, y)` omits the degree and fits the whole series, not the segment | x = y = [0, 1, 2, 3], brkps = [2] | `np.polyfit(xs, ys, deg)` | not executed | Polyfit.BestPolysAsWrittenRaises | Polyfit.BestPolysPerSegment |
| analysis/analyze_ack.py:326 | the second `replace` starts again from `pcap_file`, discarding the `json` to `csv` replacement | `./pcap/x.json` gives `././csv/x.json` | replace in `csv_file` | not executed | AnalyzeAck.CsvFilenameAsWrittenKeepsJson | AnalyzeAck.CsvFilenameOfCapture |
