/** Bookkeeping shared by the ack collectors: running sums of bytes ACKed and
    RTT normalisation of timestamps. */
module Series {

  /** acks[0] + ... + acks[|acks| - 1]. */
  function Sum(acks: seq<int>): int
  {
    if acks == [] then 0 else Sum(acks[..|acks| - 1]) + acks[|acks| - 1]
  }

  /** `cumAcks` is the running sum of `acks`: entry i is acks[0] + ... + acks[i]. */
  predicate IsRunningSum(acks: seq<int>, cumAcks: seq<int>)
  {
    |acks| == |cumAcks| &&
    forall i :: 0 <= i < |cumAcks| ==> cumAcks[i] == Sum(acks[..i + 1])
  }

  /** The running sums of `acks`. */
  function RunningSum(acks: seq<int>): (cumAcks: seq<int>)
    ensures IsRunningSum(acks, cumAcks)
  {
    seq(|acks|, i requires 0 <= i < |acks| => Sum(acks[..i + 1]))
  }

  /** The running sums of a sequence are unique. */
  lemma RunningSumUnique(acks: seq<int>, cumAcks: seq<int>)
    requires IsRunningSum(acks, cumAcks)
    ensures cumAcks == RunningSum(acks)
  {
  }

  /** The value the collectors append to `cum_acks` after ACKing `acked` more
      bytes: `acked` for the first entry, the last entry plus `acked` otherwise. */
  function NextCumulative(cumAcks: seq<int>, acked: int): int
  {
    if |cumAcks| == 0 then acked else cumAcks[|cumAcks| - 1] + acked
  }

  /** Appending `NextCumulative` keeps `cumAcks` the running sum of `acks`. */
  lemma ExtendRunningSum(acks: seq<int>, cumAcks: seq<int>, acked: int)
    requires IsRunningSum(acks, cumAcks)
    ensures IsRunningSum(acks + [acked], cumAcks + [NextCumulative(cumAcks, acked)])
  {
    var acks', cum' := acks + [acked], cumAcks + [NextCumulative(cumAcks, acked)];
    forall i | 0 <= i < |cum'| ensures cum'[i] == Sum(acks'[..i + 1]) {
      if i < |cumAcks| {
        assert acks'[..i + 1] == acks[..i + 1];
      } else {
        assert acks'[..i + 1] == acks';
        assert acks'[..i] == acks;
        if i > 0 {
          assert acks[..i] == acks;
        }
      }
    }
  }

  /** The last running sum is the total. */
  lemma RunningSumTotal(acks: seq<int>, cumAcks: seq<int>)
    requires IsRunningSum(acks, cumAcks) && |acks| > 0
    ensures cumAcks[|cumAcks| - 1] == Sum(acks)
  {
    assert acks[..|acks|] == acks;
  }

  /** A sum of non-negative amounts is non-negative. */
  lemma {:induction false} SumNonNegative(acks: seq<int>)
    requires forall i :: 0 <= i < |acks| ==> acks[i] >= 0
    ensures Sum(acks) >= 0
  {
    if acks != [] {
      SumNonNegative(acks[..|acks| - 1]);
    }
  }

  /** When no ACK is negative, the running sum never decreases. */
  lemma RunningSumMonotone(acks: seq<int>, cumAcks: seq<int>)
    requires IsRunningSum(acks, cumAcks)
    requires forall i :: 0 <= i < |acks| ==> acks[i] >= 0
    ensures forall i, j :: 0 <= i <= j < |cumAcks| ==> cumAcks[i] <= cumAcks[j]
  {
    forall i, j | 0 <= i <= j < |cumAcks| ensures cumAcks[i] <= cumAcks[j] {
      SumPrefixMonotone(acks, i + 1, j + 1);
    }
  }

  lemma {:induction false} SumPrefixMonotone(acks: seq<int>, m: nat, n: nat)
    requires m <= n <= |acks|
    requires forall i :: 0 <= i < |acks| ==> acks[i] >= 0
    ensures Sum(acks[..m]) <= Sum(acks[..n])
    decreases n - m
  {
    if m < n {
      SumPrefixMonotone(acks, m, n - 1);
      assert acks[..n][..n - 1] == acks[..n - 1];
    }
  }

  /** Every timestamp divided by `rtt`: the RTT-normalised time axis. */
  function DividedBy(times: seq<real>, rtt: real): (rtts: seq<real>)
    requires rtt != 0.0
    ensures |rtts| == |times|
    ensures forall i :: 0 <= i < |times| ==> rtts[i] * rtt == times[i]
  {
    seq(|times|, i requires 0 <= i < |times| => times[i] / rtt)
  }
}
