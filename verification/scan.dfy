/**
 * The page script's range scan: every range query is expanded with
 * `parseIPRange`, its hosts are probed on port 443 in slices of ten, and two
 * running counters record how many hosts were tested and how many passed.
 *
 * The probe (`fetchSingleIPCheck`, a request to this worker's `/check`) is a
 * parameter: a function from the target to the reply the page received, or
 * to `Threw` when the request or its JSON failed. The hosts of one slice are
 * probed concurrently in the source; the model probes them one after the
 * other, which the counters cannot tell apart.
 */
module Scan {
  import opened Ranges

  /** The slice length of the scan loop. */
  const BatchSize: nat := 10

  /** What the page appends to each host before probing it. */
  const ProbePort: string := ":443"

  /** The outcome of one probe as the page sees it. */
  datatype ProbeReply = Replied(success: bool, proxyIP: string) | Threw

  /**
   * The scan's running state: `totalCheckedCountAcrossRanges`,
   * `totalSuccessCountAcrossRanges`, and the `proxyIP` of every successful
   * probe.
   */
  datatype Tally = Tally(checked: nat, succeeded: nat, found: seq<string>)

  const Start: Tally := Tally(0, 0, [])

  function Min(a: int, b: int): int {
    if a <= b then a else b
  }

  predicate Succeeded(reply: ProbeReply) {
    reply.Replied? && reply.success
  }

  /**
   * One probe's effect: the checked counter always grows by one, whether the
   * probe succeeds, fails or throws; success also grows the success counter
   * and records the reported address.
   */
  function Record(t: Tally, reply: ProbeReply): Tally {
    if Succeeded(reply) then Tally(t.checked + 1, t.succeeded + 1, t.found + [reply.proxyIP])
    else Tally(t.checked + 1, t.succeeded, t.found)
  }

  /** Probing `hosts` in order, starting from `t`. */
  function ScanHosts(t: Tally, hosts: seq<string>, probe: string -> ProbeReply): Tally {
    if |hosts| == 0 then t
    else Record(ScanHosts(t, hosts[..|hosts| - 1], probe), probe(hosts[|hosts| - 1] + ProbePort))
  }

  /** The host list `parseIPRange` gives for each range query, in query order. */
  function Expansions(queries: seq<string>): (r: seq<seq<string>>)
    ensures |r| == |queries|
    ensures forall i :: 0 <= i < |queries| ==> r[i] == ParseIpRange(queries[i])
  {
    seq(|queries|, i requires 0 <= i < |queries| => ParseIpRange(queries[i]))
  }

  /** Probing every range's hosts, range after range. */
  function ScanAll(t: Tally, ranges: seq<seq<string>>, probe: string -> ProbeReply): Tally {
    if |ranges| == 0 then t
    else ScanHosts(ScanAll(t, ranges[..|ranges| - 1], probe), ranges[|ranges| - 1], probe)
  }

  // ---------------------------------------------------------------------------
  // Reference counts

  /** The addresses reported by the successful probes of `hosts`, in order. */
  function Successes(hosts: seq<string>, probe: string -> ProbeReply): (r: seq<string>)
    ensures |r| <= |hosts|
  {
    if |hosts| == 0 then []
    else
      var reply := probe(hosts[|hosts| - 1] + ProbePort);
      Successes(hosts[..|hosts| - 1], probe) + (if Succeeded(reply) then [reply.proxyIP] else [])
  }

  /** The number of hosts of all the ranges together. */
  function TotalHosts(ranges: seq<seq<string>>): nat {
    if |ranges| == 0 then 0
    else TotalHosts(ranges[..|ranges| - 1]) + |ranges[|ranges| - 1]|
  }

  /** The addresses reported by the successful probes of every range, in order. */
  function Found(ranges: seq<seq<string>>, probe: string -> ProbeReply): seq<string> {
    if |ranges| == 0 then []
    else Found(ranges[..|ranges| - 1], probe) + Successes(ranges[|ranges| - 1], probe)
  }

  /** There are never more successful probes than hosts. */
  lemma {:induction false} FoundBound(ranges: seq<seq<string>>, probe: string -> ProbeReply)
    ensures |Found(ranges, probe)| <= TotalHosts(ranges)
  {
    if |ranges| > 0 {
      FoundBound(ranges[..|ranges| - 1], probe);
    }
  }

  /**
   * Probing a list of hosts adds one check per host, one success per
   * successful probe, and records exactly the successful probes' addresses.
   */
  lemma {:induction false} ScanHostsTotals(t: Tally, hosts: seq<string>, probe: string -> ProbeReply)
    ensures ScanHosts(t, hosts, probe).checked == t.checked + |hosts|
    ensures ScanHosts(t, hosts, probe).succeeded == t.succeeded + |Successes(hosts, probe)|
    ensures ScanHosts(t, hosts, probe).found == t.found + Successes(hosts, probe)
  {
    if |hosts| > 0 {
      ScanHostsTotals(t, hosts[..|hosts| - 1], probe);
    }
  }

  /**
   * After all ranges, the checked counter is the total number of hosts, the
   * recorded addresses are exactly the successful probes' ones, and the
   * success counter counts them.
   */
  lemma {:induction false} ScanAllTotals(ranges: seq<seq<string>>, probe: string -> ProbeReply)
    ensures ScanAll(Start, ranges, probe).checked == TotalHosts(ranges)
    ensures ScanAll(Start, ranges, probe).found == Found(ranges, probe)
    ensures ScanAll(Start, ranges, probe).succeeded == |Found(ranges, probe)|
  {
    if |ranges| > 0 {
      var init := ranges[..|ranges| - 1];
      ScanAllTotals(init, probe);
      ScanHostsTotals(ScanAll(Start, init, probe), ranges[|ranges| - 1], probe);
    }
  }

  // ---------------------------------------------------------------------------
  // Slicing

  /** The slices `hosts.slice(i, i + 10)` for `i = start, start + 10, …` below the length. */
  function Batches(hosts: seq<string>, start: nat): seq<seq<string>>
    decreases |hosts| - start
  {
    if start >= |hosts| then []
    else [hosts[start..Min(start + BatchSize, |hosts|)]] + Batches(hosts, start + BatchSize)
  }

  function Flatten(batches: seq<seq<string>>): seq<string> {
    if |batches| == 0 then [] else batches[0] + Flatten(batches[1..])
  }

  /**
   * The slices are consecutive and cover every host exactly once: joined
   * together they give the list back. Each holds one to ten hosts, and all
   * but the last hold exactly ten.
   */
  lemma {:induction false} BatchesCover(hosts: seq<string>, start: nat)
    requires start <= |hosts|
    decreases |hosts| - start
    ensures Flatten(Batches(hosts, start)) == hosts[start..]
    ensures forall k :: 0 <= k < |Batches(hosts, start)| ==> 1 <= |Batches(hosts, start)[k]| <= BatchSize
    ensures forall k :: 0 <= k < |Batches(hosts, start)| - 1 ==> |Batches(hosts, start)[k]| == BatchSize
  {
    if start < |hosts| {
      var end := Min(start + BatchSize, |hosts|);
      BatchesCover(hosts, end);
      assert Batches(hosts, end) == Batches(hosts, start + BatchSize);
      var bs := Batches(hosts, start);
      assert bs[1..] == Batches(hosts, end);
      assert hosts[start..] == hosts[start..end] + hosts[end..];
      forall k | 0 <= k < |bs|
        ensures 1 <= |bs[k]| <= BatchSize
      {
        if k > 0 {
          assert bs[k] == Batches(hosts, end)[k - 1];
        }
      }
      forall k | 0 <= k < |bs| - 1
        ensures |bs[k]| == BatchSize
      {
        if k > 0 {
          assert bs[k] == Batches(hosts, end)[k - 1];
        } else {
          assert |Batches(hosts, end)| > 0;
        }
      }
    }
  }

  /** Slice `b` starts `b` slices after `start` and runs ten hosts on, or to the end. */
  lemma {:induction false} BatchAt(hosts: seq<string>, start: nat, b: nat)
    requires start + b * BatchSize < |hosts|
    decreases b
    ensures b < |Batches(hosts, start)|
    ensures Batches(hosts, start)[b] == hosts[start + b * BatchSize..Min(start + b * BatchSize + BatchSize, |hosts|)]
  {
    if b > 0 {
      BatchAt(hosts, start + BatchSize, b - 1);
      assert start + BatchSize + (b - 1) * BatchSize == start + b * BatchSize;
    }
  }

  /** Once `b` slices reach past the end, there are no more than `b` slices. */
  lemma {:induction false} BatchCount(hosts: seq<string>, start: nat, b: nat)
    requires start + b * BatchSize >= |hosts|
    decreases b
    ensures |Batches(hosts, start)| <= b
  {
    if b > 0 && start < |hosts| {
      BatchCount(hosts, start + BatchSize, b - 1);
    }
  }

  // ---------------------------------------------------------------------------
  // The loop

  /** Probing one more host extends the fold by one step. */
  lemma {:induction false} ScanHostsStep(t: Tally, hosts: seq<string>, n: nat, probe: string -> ProbeReply)
    requires n < |hosts|
    ensures ScanHosts(t, hosts[..n + 1], probe) == Record(ScanHosts(t, hosts[..n], probe), probe(hosts[n] + ProbePort))
  {
    assert hosts[..n + 1][..n] == hosts[..n];
  }

  /** Processing one more range extends the fold by that range's hosts. */
  lemma {:induction false} ScanAllStep(t: Tally, ranges: seq<seq<string>>, n: nat, probe: string -> ProbeReply)
    requires n < |ranges|
    ensures ScanAll(t, ranges[..n + 1], probe) == ScanHosts(ScanAll(t, ranges[..n], probe), ranges[n], probe)
  {
    assert ranges[..n + 1][..n] == ranges[..n];
  }

  /**
   * One slice `hosts[i..end]`: probe each of its hosts once, in order,
   * adding each outcome to the running tally.
   */
  method ScanBatch(ghost t0: Tally, t1: Tally, hosts: seq<string>, i: nat, end: nat, probe: string -> ProbeReply)
    returns (t: Tally)
    requires i <= end <= |hosts|
    requires t1 == ScanHosts(t0, hosts[..i], probe)
    ensures t == ScanHosts(t0, hosts[..end], probe)
  {
    t := t1;
    var batch := hosts[i..end];
    for j := 0 to |batch|
      invariant t == ScanHosts(t0, hosts[..i + j], probe)
    {
      assert batch[j] == hosts[i + j];
      ScanHostsStep(t0, hosts, i + j, probe);
      t := Record(t, probe(batch[j] + ProbePort));
    }
  }

  /**
   * The inner loop for one range: probe its hosts slice by slice. The
   * loop's `b`-th slice is `Batches(hosts, 0)[b]`, and it runs once per
   * slice.
   */
  method ScanHostList(t0: Tally, hosts: seq<string>, probe: string -> ProbeReply) returns (t: Tally)
    ensures t == ScanHosts(t0, hosts, probe)
  {
    t := t0;
    var i := 0;
    ghost var b := 0;
    while i < |hosts|
      invariant i == b * BatchSize && b <= |Batches(hosts, 0)|
      invariant i <= |hosts| ==> t == ScanHosts(t0, hosts[..i], probe)
      invariant i > |hosts| ==> t == ScanHosts(t0, hosts, probe)
      decreases |hosts| - i
    {
      var end := Min(i + BatchSize, |hosts|);
      BatchAt(hosts, 0, b);
      assert hosts[i..end] == Batches(hosts, 0)[b];
      t := ScanBatch(t0, t, hosts, i, end, probe);
      if end == |hosts| {
        assert hosts[..end] == hosts;
      }
      i := i + BatchSize;
      b := b + 1;
    }
    BatchCount(hosts, 0, b);
    assert b == |Batches(hosts, 0)|;
    if i == |hosts| {
      assert hosts[..i] == hosts;
    }
  }

  /**
   * The scan loop of `checkInputs`, over `Expansions(queries)`: skip a range
   * that expands to nothing, and otherwise probe its hosts slice by slice.
   * (`parseIPRange` is pure, so expanding each query as the loop reaches it,
   * as the page does, yields the same host lists.) It ends with one check per
   * host of every range and with the addresses of exactly the successful
   * probes, in probing order, which the success counter counts.
   */
  method ScanRanges(ranges: seq<seq<string>>, probe: string -> ProbeReply) returns (t: Tally)
    ensures t.checked == TotalHosts(ranges)
    ensures t.found == Found(ranges, probe)
    ensures t.succeeded == |t.found| && t.succeeded <= t.checked
  {
    t := Start;
    for q := 0 to |ranges|
      invariant t == ScanAll(Start, ranges[..q], probe)
    {
      var hosts := ranges[q];
      ScanAllStep(Start, ranges, q, probe);
      if |hosts| == 0 {
        continue;
      }
      t := ScanHostList(t, hosts, probe);
    }
    assert ranges[..|ranges|] == ranges;
    ScanAllTotals(ranges, probe);
    FoundBound(ranges, probe);
  }

  /**
   * `checkInputs` on the range text area: split it into lines, keep the
   * non-blank preprocessed ones as queries, and scan their expansions.
   */
  method ScanInput(raw: string, probe: string -> ProbeReply) returns (t: Tally)
    ensures t.checked == TotalHosts(Expansions(RangeQueries(raw)))
    ensures t.found == Found(Expansions(RangeQueries(raw)), probe)
    ensures t.succeeded == |t.found| && t.succeeded <= t.checked
  {
    t := ScanRanges(Expansions(RangeQueries(raw)), probe);
  }
}
