/**
  UARTDevice.wait_until(): pybricks/iodevices/pb_type_uart_device.c.

  The pattern is compared with bytes as they are consumed. A byte that does not match is dropped
  together with the bytes matched before it, and comparing starts over behind it.
 */
module Uart {
  import opened Common

  // ---------- The search on a whole stream ----------

  /** From its i-th byte on, where the pattern laid at a position first disagrees; its length if it never does. */
  function Mismatch(p: seq<byte>, s: seq<byte>, at: nat, i: nat): (m: nat)
    requires i <= |p| && at + |p| <= |s|
    ensures i <= m <= |p| && (m < |p| ==> s[at + m] != p[m])
    ensures forall j | i <= j < m :: s[at + j] == p[j]
    decreases |p| - i
  {
    if i == |p| || s[at + i] != p[i] then i else Mismatch(p, s, at, i + 1)
  }

  /**
    Searching from a position in a stream of which `limit` bytes have arrived: whether the pattern is
    found, and the position up to which bytes are consumed.
   */
  function Scan(p: seq<byte>, s: seq<byte>, at: nat, limit: nat): (r: (bool, nat))
    requires p != [] && at <= limit <= |s|
    ensures at <= r.1 <= limit
    decreases limit - at
  {
    if at + |p| > limit then (false, at)
    else
      var m := Mismatch(p, s, at, 0);
      if m == |p| then (true, at + m) else Scan(p, s, at + m + 1, limit)
  }

  lemma ScanStep(p: seq<byte>, s: seq<byte>, at: nat, limit: nat)
    requires p != [] && at + |p| <= limit <= |s|
    ensures var m := Mismatch(p, s, at, 0);
            Scan(p, s, at, limit) == if m == |p| then (true, at + m) else Scan(p, s, at + m + 1, limit)
  {
  }

  // ---------- The device ----------

  datatype Progress = Again | Success

  /** Whether a wait for a pattern may start while one for this many bytes is recorded. */
  function WaitAnswer(waitLen: nat, pattern: seq<byte>, busy: int): Result<()> {
    if waitLen != 0 then Err(Pbio(busy)) else if pattern == [] then Err(InvalidArg) else Ok(())
  }

  class UartDevice {
    /** The receive queue of the driver. */
    var rx: seq<byte>
    var waitData: seq<byte>
    var waitLen: nat

    constructor ()
      ensures rx == [] && waitLen == 0
    {
      rx, waitData, waitLen := [], [], 0;
    }

    /** Bytes come in, at any time. */
    method Receive(bytes: seq<byte>)
      modifies this`rx
      ensures rx == old(rx) + bytes
    {
      rx := rx + bytes;
    }

    /** wait_until(pattern), up to the awaitable that polls. */
    method WaitUntil(pattern: seq<byte>, busy: int) returns (r: Result<()>)
      modifies this`waitData, this`waitLen
      ensures r == WaitAnswer(old(waitLen), pattern, busy)
      ensures old(waitLen) != 0 ==> r == Err(Pbio(busy)) && waitData == old(waitData) && waitLen == old(waitLen)
      ensures old(waitLen) == 0 ==> waitData == pattern && waitLen == |pattern|
      ensures old(waitLen) == 0 ==> r == if pattern == [] then Err(InvalidArg) else Ok(())
    {
      if waitLen != 0 {
        return Err(Pbio(busy));
      }
      waitData, waitLen := pattern, |pattern|;
      if waitLen == 0 {
        return Err(InvalidArg);
      }
      r := Ok(());
    }

    /**
      Reads the pattern byte by byte; at the first byte that does not match it stops, having consumed
      it. The waiting bytes are those from `at` to `limit` of some stream s.
     */
    method ReadPattern(ghost s: seq<byte>, ghost at: nat, ghost limit: nat) returns (matched: bool, ghost next: nat)
      requires 0 < waitLen == |waitData| <= |rx|
      requires at <= limit <= |s| && rx == s[at..limit]
      modifies this`rx
      ensures matched <==> Mismatch(waitData, s, at, 0) == waitLen
      ensures next == at + Mismatch(waitData, s, at, 0) + if matched then 0 else 1
      ensures at <= next <= limit && rx == s[next..limit]
      ensures Scan(waitData, s, at, limit) == if matched then (true, next) else Scan(waitData, s, next, limit)
    {
      ScanStep(waitData, s, at, limit);
      for i := 0 to waitLen
        invariant Mismatch(waitData, s, at, 0) == Mismatch(waitData, s, at, i)
        invariant rx == s[at + i..limit]
      {
        var received := rx[0];
        rx := rx[1..];
        if received != waitData[i] {
          return false, at + i + 1;
        }
      }
      matched, next := true, at + waitLen;
    }

    /**
      One poll. Of any stream whose bytes from `at` to `limit` are waiting, it consumes exactly what
      the search on that stream consumes.
     */
    method WaitUntilIterOnce(ghost s: seq<byte>, ghost at: nat, ghost limit: nat) returns (r: Progress)
      requires waitLen == |waitData| > 0
      requires at <= limit <= |s| && rx == s[at..limit]
      modifies this`rx
      ensures rx == s[Scan(waitData, s, at, limit).1..limit]
      ensures r.Success? <==> Scan(waitData, s, at, limit).0
    {
      ghost var p, from, end := waitData, at, Scan(waitData, s, at, limit);
      while |rx| >= waitLen
        invariant at <= from <= limit && rx == s[from..limit]
        invariant Scan(p, s, from, limit) == end
        decreases |rx|
      {
        var matched;
        matched, from := ReadPattern(s, from, limit);
        if matched {
          return Success;
        }
      }
      r := Again;
    }

    /** The return map, which ends the wait. */
    method WaitUntilReturnMap()
      modifies this`waitData, this`waitLen
      ensures waitLen == 0
    {
      waitData, waitLen := [], 0;
    }
  }

  // ---------- Arrival independence ----------

  /** Stopping for lack of bytes and going on when more have come is the same as never stopping. */
  lemma {:induction false} ScanResumes(p: seq<byte>, s: seq<byte>, at: nat, limit: nat, more: nat)
    requires p != [] && at <= limit <= more <= |s|
    ensures var (found, end) := Scan(p, s, at, limit);
            Scan(p, s, at, more) == if found then (true, end) else Scan(p, s, end, more)
    decreases limit - at
  {
    if at + |p| <= limit {
      var m := Mismatch(p, s, at, 0);
      if m < |p| {
        ScanResumes(p, s, at + m + 1, limit, more);
      }
    }
  }

  /** So many more bytes of the stream arrive, or the wait is polled. */
  datatype Event = Arrive(n: nat) | Poll

  function Arrivals(es: seq<Event>): nat {
    if es == [] then 0
    else Arrivals(es[..|es| - 1]) + (if es[|es| - 1].Arrive? then es[|es| - 1].n else 0)
  }

  /** How many bytes were consumed, and whether a poll has succeeded, after which nothing polls. */
  datatype Waiting = Waiting(at: nat, found: bool)

  function Run(p: seq<byte>, s: seq<byte>, es: seq<Event>): (w: Waiting)
    requires p != [] && Arrivals(es) <= |s|
    ensures w.at <= Arrivals(es)
  {
    if es == [] then Waiting(0, false)
    else
      var w := Run(p, s, es[..|es| - 1]);
      if es[|es| - 1].Arrive? || w.found then w
      else
        var (found, end) := Scan(p, s, w.at, Arrivals(es));
        Waiting(end, found)
  }

  /** After any run, the search over all that has arrived stands or continues where consumption does. */
  lemma {:induction false} RunAgrees(p: seq<byte>, s: seq<byte>, es: seq<Event>)
    requires p != [] && Arrivals(es) <= |s|
    ensures var w := Run(p, s, es);
            Scan(p, s, 0, Arrivals(es)) == if w.found then (true, w.at) else Scan(p, s, w.at, Arrivals(es))
  {
    if es != [] {
      var before := es[..|es| - 1];
      var w := Run(p, s, before);
      RunAgrees(p, s, before);
      ScanResumes(p, s, 0, Arrivals(before), Arrivals(es));
      if !w.found {
        ScanResumes(p, s, w.at, Arrivals(before), Arrivals(es));
        ScanResumes(p, s, w.at, Arrivals(es), Arrivals(es));
      }
    }
  }

  /**
    However arrivals and polls interleave, once polled after the last arrival the wait has the
    outcome of one search over everything that arrived, and has consumed the same bytes.
   */
  lemma ArrivalIndependence(p: seq<byte>, s: seq<byte>, es: seq<Event>)
    requires p != [] && Arrivals(es) == |s|
    ensures Arrivals(es + [Poll]) == |s|
    ensures var (found, end) := Scan(p, s, 0, |s|);
            Run(p, s, es + [Poll]) == Waiting(end, found)
  {
    assert (es + [Poll])[..|es|] == es;
    RunAgrees(p, s, es);
  }

  // ---------- What a search does, byte by byte ----------

  /**
    The search is determined: for lack of bytes it stops where it is, behind a match it ends, and a
    match of m bytes that breaks drops these and the byte that broke it, and nothing else.
   */
  lemma ScanIs(p: seq<byte>, s: seq<byte>, at: nat, limit: nat, m: nat)
    requires p != [] && at <= limit <= |s| && m <= |p|
    ensures limit < at + |p| ==> Scan(p, s, at, limit) == (false, at)
    ensures at + |p| <= limit && (forall j | 0 <= j < |p| :: s[at + j] == p[j]) ==>
              Scan(p, s, at, limit) == (true, at + |p|)
    ensures at + |p| <= limit && m < |p| && (forall j | 0 <= j < m :: s[at + j] == p[j]) && s[at + m] != p[m] ==>
              Scan(p, s, at, limit) == Scan(p, s, at + m + 1, limit)
  {
    if at + |p| <= limit {
      var first := Mismatch(p, s, at, 0);
      assert forall j | 0 <= j < first :: s[at + j] == p[j];
    }
  }

  /** A search that fails has left fewer bytes than the pattern is long. */
  lemma {:induction false} FailureLeavesTooFew(p: seq<byte>, s: seq<byte>, at: nat, limit: nat)
    requires p != [] && at <= limit <= |s| && !Scan(p, s, at, limit).0
    ensures Scan(p, s, at, limit).1 + |p| > limit
    decreases limit - at
  {
    if at + |p| <= limit {
      FailureLeavesTooFew(p, s, at + Mismatch(p, s, at, 0) + 1, limit);
    }
  }

  /** A match that starts at a place breaks before another place is reached. */
  ghost predicate BreaksBefore(p: seq<byte>, s: seq<byte>, a: nat, k: nat)
    requires k <= |s|
  {
    exists j :: 0 <= j < |p| && a + j < k && s[a + j] != p[j]
  }

  /** An occurrence is found, right at its end, unless a match that started before it runs into it. */
  lemma {:induction false} FoundUnlessRunInto(p: seq<byte>, s: seq<byte>, at: nat, k: nat, limit: nat)
    requires p != [] && at <= k && k + |p| <= limit <= |s| && OccursAt(p, s, k)
    requires forall a: nat | at <= a < k :: BreaksBefore(p, s, a, k)
    ensures Scan(p, s, at, limit) == (true, k + |p|)
    decreases k - at
  {
    var m := Mismatch(p, s, at, 0);
    if at < k {
      assert BreaksBefore(p, s, at, k);
      assert at + m < k;
      FoundUnlessRunInto(p, s, at + m + 1, k, limit);
    }
  }

  /** So noise in front of a pattern does no harm if it does not contain the first byte of the pattern. */
  lemma FoundBehindNoise(p: seq<byte>, s: seq<byte>, at: nat, k: nat, limit: nat)
    requires p != [] && at <= k && k + |p| <= limit <= |s| && OccursAt(p, s, k)
    requires forall j | at <= j < k :: s[j] != p[0]
    ensures Scan(p, s, at, limit) == (true, k + |p|)
  {
    forall a: nat | at <= a < k ensures BreaksBefore(p, s, a, k) {
      assert s[a + 0] != p[0];
    }
    FoundUnlessRunInto(p, s, at, k, limit);
  }

  // ---------- What success means, and what is found ----------

  predicate OccursAt(p: seq<byte>, s: seq<byte>, k: nat) {
    k + |p| <= |s| && forall j | 0 <= j < |p| :: s[k + j] == p[j]
  }

  ghost predicate Occurs(p: seq<byte>, s: seq<byte>) {
    exists k :: OccursAt(p, s, k)
  }

  /** On success the last bytes consumed are the pattern, and nothing behind it is consumed. */
  lemma {:induction false} SuccessEndsWithPattern(p: seq<byte>, s: seq<byte>, at: nat, limit: nat)
    requires p != [] && at <= limit <= |s| && Scan(p, s, at, limit).0
    ensures at + |p| <= Scan(p, s, at, limit).1 && OccursAt(p, s, Scan(p, s, at, limit).1 - |p|)
    decreases limit - at
  {
    var m := Mismatch(p, s, at, 0);
    if m < |p| {
      SuccessEndsWithPattern(p, s, at + m + 1, limit);
    }
  }

  predicate AllEqual(p: seq<byte>) {
    forall i | 0 <= i < |p| :: p[i] == p[0]
  }

  lemma {:induction false} UniformPatternIsFound(p: seq<byte>, s: seq<byte>, at: nat, k: nat)
    requires p != [] && AllEqual(p) && at <= k && OccursAt(p, s, k)
    ensures Scan(p, s, at, |s|).0
    decreases |s| - at
  {
    var m := Mismatch(p, s, at, 0);
    assert k <= at + m < k + |p| ==> s[k + (at + m - k)] == p[at + m - k] == p[0];
    if m < |p| && at + m < k {
      UniformPatternIsFound(p, s, at + m + 1, k);
    }
  }

  /** A pattern whose bytes differ first at i is missed behind its own first i bytes. */
  lemma MixedPatternIsMissed(p: seq<byte>, i: nat) returns (s: seq<byte>)
    requires 0 < i < |p| && p[i] != p[0] && forall j | 0 <= j < i :: p[j] == p[0]
    ensures s == p[..i] + p && OccursAt(p, s, i) && !Scan(p, s, 0, |s|).0
  {
    s := p[..i] + p;
    var m := Mismatch(p, s, 0, 0);
    assert s[0 + i] == p[0] && forall j | 0 <= j < i :: s[0 + j] == p[j];
    assert m == i;
    assert Scan(p, s, i + 1, |s|) == (false, i + 1);
  }

  ghost predicate FindsEveryOccurrence(p: seq<byte>)
    requires p != []
  {
    forall s :: Occurs(p, s) ==> Scan(p, s, 0, |s|).0
  }

  lemma UniformFindsEvery(p: seq<byte>)
    requires p != [] && AllEqual(p)
    ensures FindsEveryOccurrence(p)
  {
    forall s, k | OccursAt(p, s, k) ensures Scan(p, s, 0, |s|).0 {
      UniformPatternIsFound(p, s, 0, k);
    }
  }

  lemma MixedMissesSome(p: seq<byte>)
    requires p != [] && !AllEqual(p)
    ensures !FindsEveryOccurrence(p)
  {
    var i := FirstDifferent(p);
    var s := MixedPatternIsMissed(p, i);
    assert Occurs(p, s);
  }

  /** wait_until() finds its pattern in every stream where it occurs exactly if all its bytes are equal. */
  lemma FindsEveryOccurrenceIffUniform(p: seq<byte>)
    requires p != []
    ensures FindsEveryOccurrence(p) <==> AllEqual(p)
  {
    if AllEqual(p) {
      UniformFindsEvery(p);
    } else {
      MixedMissesSome(p);
    }
  }

  lemma FirstDifferent(p: seq<byte>) returns (i: nat)
    requires p != [] && !AllEqual(p)
    ensures 0 < i < |p| && p[i] != p[0] && forall j | 0 <= j < i :: p[j] == p[0]
  {
    i := 1;
    while i < |p| && p[i] == p[0]
      invariant 0 < i <= |p| && forall j | 0 <= j < i :: p[j] == p[0]
    {
      i := i + 1;
    }
  }
}
