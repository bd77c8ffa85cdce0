/** The per-packet-number table both QUIC collectors keep: packet number to
    (bytes not yet acknowledged, timestamp of the latest packet with that
    number), and the arithmetic of acknowledging a range of packet numbers. */
module FlightTable {
  import opened Outcomes

  /** One table entry: `(bytes, timestamp)` in the source. */
  datatype Entry = Entry(bytes: nat, stamp: real)

  /** The entry of a packet number the table does not hold yet, and the one an
      acknowledged entry is reset to: `(0, 0.0)`. */
  const Empty: Entry := Entry(0, 0.0)

  type Table = map<int, Entry>

  /** Total bytes held in the table. */
  ghost function Outstanding(m: Table): nat
    decreases |m|
  {
    if |m| == 0 then 0
    else
      HasKey(m);
      var k :| k in m;
      m[k].bytes + Outstanding(m - {k})
  }

  /** A table with an entry has a key. */
  lemma HasKey(m: Table)
    requires |m| > 0
    ensures exists k :: k in m
  {
    if forall k :: k !in m {
      assert false;
    }
  }

  /** Taking any one entry out of the table takes its bytes out of the total. */
  lemma {:induction false} OutstandingRemove(m: Table, k: int)
    requires k in m
    ensures Outstanding(m) == m[k].bytes + Outstanding(m - {k})
    decreases |m|
  {
    var j :| j in m && Outstanding(m) == m[j].bytes + Outstanding(m - {j});
    if j != k {
      var mj, mk := m - {j}, m - {k};
      assert Outstanding(mj) == m[k].bytes + Outstanding(mj - {k}) by {
        assert k in mj && mj[k] == m[k];
        assert |mj| == |m| - 1;
        OutstandingRemove(mj, k);
      }
      assert Outstanding(mk) == m[j].bytes + Outstanding(mk - {j}) by {
        assert j in mk && mk[j] == m[j];
        assert |mk| == |m| - 1;
        OutstandingRemove(mk, j);
      }
      assert mj - {k} == mk - {j};
    }
  }

  /** Overwriting the entry of `k` with `e` changes the total by the difference. */
  lemma OutstandingSet(m: Table, k: int, e: Entry)
    ensures Outstanding(m[k := e]) + (if k in m then m[k].bytes else 0) == Outstanding(m) + e.bytes
  {
    OutstandingRemove(m[k := e], k);
    assert m[k := e] - {k} == m - {k};
    if k in m {
      OutstandingRemove(m, k);
    } else {
      assert m - {k} == m;
    }
  }

  /** The table after a packet `pktNum` of `pktLen` bytes is seen at `time`:
      its entry (created as `Empty` if missing) gains `pktLen` bytes and takes
      `time` as its timestamp; no other entry changes. */
  function AddBytes(m: Table, pktNum: int, pktLen: nat, time: real): (r: Table)
    ensures r.Keys == m.Keys + {pktNum}
    ensures r[pktNum].bytes == (if pktNum in m then m[pktNum].bytes else 0) + pktLen
    ensures r[pktNum].stamp == time
    ensures forall n :: n in m && n != pktNum ==> r[n] == m[n]
  {
    var e := if pktNum in m then m[pktNum] else Empty;
    m[pktNum := Entry(e.bytes + pktLen, time)]
  }

  /** Adding a packet adds its length to the total. */
  lemma AddBytesConserves(m: Table, pktNum: int, pktLen: nat, time: real)
    ensures Outstanding(AddBytes(m, pktNum, pktLen, time)) == Outstanding(m) + pktLen
  {
    var e := if pktNum in m then m[pktNum] else Empty;
    OutstandingSet(m, pktNum, Entry(e.bytes + pktLen, time));
  }

  /** The table without the entries of packet numbers in [lo, hi). */
  function DeleteSpan(m: Table, lo: int, hi: int): (r: Table)
    ensures r.Keys == m.Keys - (set k | k in m && lo <= k < hi)
  {
    map k | k in m && !(lo <= k < hi) :: m[k]
  }

  lemma DeleteSpanTop(m: Table, lo: int, hi: int)
    requires lo < hi
    ensures hi - 1 in m ==> hi - 1 in DeleteSpan(m, lo, hi - 1) && DeleteSpan(m, lo, hi - 1)[hi - 1] == m[hi - 1]
    ensures DeleteSpan(m, lo, hi) ==
      if hi - 1 in m then DeleteSpan(m, lo, hi - 1) - {hi - 1} else DeleteSpan(m, lo, hi - 1)
  {
  }

  lemma DeleteSpanNothing(m: Table, lo: int, hi: int)
    requires hi <= lo
    ensures DeleteSpan(m, lo, hi) == m
  {
  }

  /** The bytes the table holds for the packet numbers in [lo, hi). */
  function CoveredBytes(m: Table, lo: int, hi: int): nat
    decreases hi - lo
  {
    if lo >= hi then 0
    else (if lo in m then m[lo].bytes else 0) + CoveredBytes(m, lo + 1, hi)
  }

  /** `CoveredBytes` grows at the top of the range by the entry there. */
  lemma {:induction false} CoveredBytesTop(m: Table, lo: int, hi: int)
    requires lo <= hi
    ensures CoveredBytes(m, lo, hi + 1) == CoveredBytes(m, lo, hi) + (if hi in m then m[hi].bytes else 0)
    decreases hi - lo
  {
    if lo < hi {
      CoveredBytesTop(m, lo + 1, hi);
    }
  }

  /** Deleting the entries of [lo, hi) takes exactly their bytes out of the
      total: the bytes of a deleted packet are counted once and then gone. */
  lemma {:induction false} DeleteSpanConserves(m: Table, lo: int, hi: int)
    ensures Outstanding(m) == CoveredBytes(m, lo, hi) + Outstanding(DeleteSpan(m, lo, hi))
    decreases if hi <= lo then 0 else hi - lo
  {
    if hi <= lo {
      DeleteSpanNothing(m, lo, hi);
    } else {
      DeleteSpanConserves(m, lo, hi - 1);
      CoveredBytesTop(m, lo, hi - 1);
      DeleteSpanTop(m, lo, hi);
      if hi - 1 in m {
        OutstandingRemove(DeleteSpan(m, lo, hi - 1), hi - 1);
      }
    }
  }

  /** The table with every entry of [lo, hi) reset to `Empty`; the keys stay. */
  function ZeroSpan(m: Table, lo: int, hi: int): (z: Table)
    ensures z.Keys == m.Keys
  {
    map k | k in m :: if lo <= k < hi then Empty else m[k]
  }

  lemma ZeroSpanBottom(m: Table, lo: int, hi: int)
    requires lo < hi
    ensures ZeroSpan(m, lo, hi) == if lo in m then ZeroSpan(m, lo + 1, hi)[lo := Empty] else ZeroSpan(m, lo + 1, hi)
  {
  }

  lemma ZeroSpanNothing(m: Table, lo: int, hi: int)
    requires hi <= lo
    ensures ZeroSpan(m, lo, hi) == m
  {
  }

  /** Resetting the lowest entry of the range as well takes its bytes out. */
  lemma ZeroSpanLowest(m: Table, lo: int, hi: int)
    requires lo < hi && lo in m
    ensures Outstanding(ZeroSpan(m, lo, hi)) + m[lo].bytes == Outstanding(ZeroSpan(m, lo + 1, hi))
  {
    var upper := ZeroSpan(m, lo + 1, hi);
    assert lo in upper && upper[lo] == m[lo];
    ZeroSpanBottom(m, lo, hi);
    OutstandingSet(upper, lo, Empty);
  }

  /** Resetting the entries of [lo, hi) takes exactly their bytes out of the total. */
  lemma {:induction false} ZeroSpanConserves(m: Table, lo: int, hi: int)
    ensures Outstanding(m) == CoveredBytes(m, lo, hi) + Outstanding(ZeroSpan(m, lo, hi))
    decreases if hi <= lo then 0 else hi - lo
  {
    if hi <= lo {
      ZeroSpanNothing(m, lo, hi);
    } else {
      var upper := ZeroSpan(m, lo + 1, hi);
      assert Outstanding(m) == CoveredBytes(m, lo + 1, hi) + Outstanding(upper) by {
        ZeroSpanConserves(m, lo + 1, hi);
      }
      assert CoveredBytes(m, lo, hi) == (if lo in m then m[lo].bytes else 0) + CoveredBytes(m, lo + 1, hi);
      if lo in m {
        ZeroSpanLowest(m, lo, hi);
      } else {
        assert ZeroSpan(m, lo, hi) == upper by {
          ZeroSpanBottom(m, lo, hi);
        }
      }
    }
  }

  /** The largest packet number in [lo, hi) that the table holds, if any. */
  function HighestPresent(m: Table, lo: int, hi: int): (r: Option<int>)
    ensures r.Some? ==> lo <= r.value < hi && r.value in m
    ensures r.Some? ==> forall n :: r.value < n < hi ==> n !in m
    ensures r.None? ==> forall n :: lo <= n < hi ==> n !in m
    decreases hi - lo
  {
    if lo >= hi then None
    else
      match HighestPresent(m, lo + 1, hi)
      case Some(k) => Some(k)
      case None => if lo in m then Some(lo) else None
  }
}
