/** The HTTP upload of bricks/picow/main.c, which drives the handler, and what holds over all its runs. */
module OtaSession {
  import opened Common
  import opened Ota

  function Joined(chunks: seq<seq<byte>>): seq<byte> {
    if chunks == [] then [] else Joined(chunks[..|chunks| - 1]) + chunks[|chunks| - 1]
  }

  lemma JoinedNext(before: seq<byte>, chunks: seq<seq<byte>>, i: nat)
    requires i < |chunks|
    ensures before + Joined(chunks[..i + 1]) == before + Joined(chunks[..i]) + chunks[i]
  {
    assert chunks[..i + 1][..i] == chunks[..i];
  }

  /** The last request was the update, made when exactly this image was checked and marked. */
  ghost predicate UpdatedTo(log: seq<Request>, image: seq<byte>) {
    log != [] && log[|log| - 1] == Update && PhaseOf(log[..|log| - 1]) == Marked(image)
  }

  /** The three callbacks of the server. The board never runs on once the update is performed. */
  class UploadSession {
    const ota: OtaHandler
    var size: int
    var received: nat

    ghost predicate Valid()
      reads this, ota, ota.buffer
    {
      ota.Valid()
    }

    ghost predicate Running()
      reads this, ota
    {
      !PhaseOf(ota.log).Updating?
    }

    constructor ()
      ensures Valid() && Running() && fresh(ota) && fresh(ota.buffer) && ota.log == [] && !ota.inProgress
    {
      ota := new OtaHandler();
      size, received := 0, 0;
    }

    /** Accepts an upload to the right place when none is in progress. */
    method PostBegin(isUpload: bool, contentLen: int) returns (ok: bool)
      requires Valid() && Running()
      modifies this, ota
      ensures Valid() && Running()
      ensures ok <==> isUpload && !old(ota.inProgress)
      ensures ok ==> ota.log == old(ota.log) + [Initialize] && ota.inProgress && ota.stream == [] && received == 0 && size == contentLen
      ensures !ok ==> ota.log == old(ota.log) && ota.inProgress == old(ota.inProgress)
    {
      if isUpload {
        var began := ota.Begin();
        if !began {
          return false;
        }
        size, received := contentLen, 0;
        return true;
      }
      ok := false;
    }

    /** Passes the chained buffers on, one by one, and gives the upload up at the first failure. */
    method PostReceiveData(chunks: seq<seq<byte>>, fails: nat -> bool) returns (ok: bool)
      requires Valid() && Running()
      modifies this, ota, ota.buffer
      ensures Valid() && Running() && old(ota.log) <= ota.log
      ensures ok ==> NoWriteFailed(ota.log, |old(ota.log)|, fails)
      ensures !old(ota.inProgress) ==> ota.log == old(ota.log) && (ok <==> chunks == [])
      ensures !ok && old(ota.inProgress) ==> ota.FailedAtLast(|old(ota.log)|, fails)
      ensures ok && old(ota.inProgress) ==>
                && ota.inProgress && ota.stream == old(ota.stream) + Joined(chunks)
                && received == old(received) + |Joined(chunks)|
      ensures !ok ==> !ota.inProgress
    {
      var i := 0;
      while i < |chunks|
        invariant i <= |chunks| && Valid() && Running()
        invariant old(ota.log) <= ota.log && NoWriteFailed(ota.log, |old(ota.log)|, fails)
        invariant i == 0 ==> ota.log == old(ota.log) && ota.inProgress == old(ota.inProgress) && ota.stream == old(ota.stream)
        invariant i > 0 ==> old(ota.inProgress) && ota.inProgress
        invariant ota.inProgress ==> ota.stream == old(ota.stream) + Joined(chunks[..i])
        invariant received == old(received) + |Joined(chunks[..i])|
      {
        JoinedNext(old(ota.stream), chunks, i);
        var r := ota.Write(chunks[i], fails);
        if r != 0 {
          ota.Abort();
          return false;
        }
        received := received + |chunks[i]|;
        i := i + 1;
      }
      assert chunks[..i] == chunks;
      ok := true;
    }

    /** Ends the upload. The update is performed exactly if the last write and the check succeed. */
    method PostFinished(fails: nat -> bool, checkFails: bool) returns (updates: bool)
      requires Valid() && Running()
      modifies this, ota, ota.buffer
      ensures Valid() && !ota.inProgress
      ensures updates <==> PhaseOf(ota.log).Updating?
      ensures updates <==>
                old(ota.inProgress) && !RestFails(|old(ota.stream)|, |old(ota.log)|, fails) && !checkFails
      ensures updates ==> NoWriteFailed(ota.log, |old(ota.log)|, fails) && UpdatedTo(ota.log, Padded(old(ota.stream)))
      ensures !updates && old(ota.inProgress) ==>
                if RestFails(|old(ota.stream)|, |old(ota.log)|, fails)
                then ota.FailedAtLast(|old(ota.log)|, fails)
                else CheckFailed(ota.log, Padded(old(ota.stream)))
      ensures !old(ota.inProgress) ==> ota.log == old(ota.log)
      ensures old(ota.log) <= ota.log
    {
      var r := ota.End(fails, checkFails);
      if r != 0 {
        ota.Abort();
        return false;
      }
      ota.PerformUpdate();
      updates := true;
    }
  }

  // ---------- Whole uploads ----------

  /** The bytes of all packets, each a chain of buffers. */
  function Content(packets: seq<seq<seq<byte>>>): seq<byte> {
    if packets == [] then [] else Content(packets[..|packets| - 1]) + Joined(packets[|packets| - 1])
  }

  /** Packets arrive until one is refused. */
  method Receive(session: UploadSession, packets: seq<seq<seq<byte>>>, fails: nat -> bool) returns (ok: bool)
    requires session.Valid() && session.Running() && session.ota.inProgress && session.ota.stream == []
    modifies session, session.ota, session.ota.buffer
    ensures session.Valid() && session.Running() && old(session.ota.log) <= session.ota.log
    ensures ok ==> session.ota.inProgress && session.ota.stream == Content(packets)
    ensures ok ==> NoWriteFailed(session.ota.log, |old(session.ota.log)|, fails)
    ensures !ok ==> !session.ota.inProgress && session.ota.FailedAtLast(|old(session.ota.log)|, fails)
  {
    var i := 0;
    while i < |packets|
      invariant i <= |packets| && session.Valid() && session.Running() && old(session.ota.log) <= session.ota.log
      invariant session.ota.inProgress && session.ota.stream == Content(packets[..i])
      invariant NoWriteFailed(session.ota.log, |old(session.ota.log)|, fails)
    {
      assert packets[..i + 1][..i] == packets[..i];
      ok := session.PostReceiveData(packets[i], fails);
      if !ok {
        return false;
      }
      i := i + 1;
    }
    assert packets[..i] == packets;
    ok := true;
  }

  /**
    One whole upload, as the server drives it: begin, receive, and finish in any case. However the
    stream is cut, the update to its padded image is performed exactly if no write that was requested
    fails and the check passes.
   */
  method Upload(session: UploadSession, packets: seq<seq<seq<byte>>>, fails: nat -> bool, checkFails: bool)
    returns (updates: bool)
    requires session.Valid() && session.Running() && !session.ota.inProgress
    modifies session, session.ota, session.ota.buffer
    ensures session.Valid() && !session.ota.inProgress && old(session.ota.log) + [Initialize] <= session.ota.log
    ensures updates <==> NoWriteFailed(session.ota.log, |old(session.ota.log)|, fails) && !checkFails
    ensures updates <==> UpdatedTo(session.ota.log, Padded(Content(packets)))
    ensures !updates ==>
              session.ota.FailedAtLast(|old(session.ota.log)|, fails) || CheckFailed(session.ota.log, Padded(Content(packets)))
  {
    var began := session.PostBegin(true, |Content(packets)|);
    ghost var start := session.ota.log;
    var ok := Receive(session, packets, fails);
    ghost var received := session.ota.log;
    updates := session.PostFinished(fails, checkFails);
    UploadFailures(old(session.ota.log), start, received, session.ota.log, fails);
  }

  /** The initialization is no write, so failures lie in what was received or in what ended the upload. */
  lemma UploadFailures(before: seq<Request>, start: seq<Request>, received: seq<Request>, after: seq<Request>,
                       fails: nat -> bool)
    requires start == before + [Initialize] && start <= received <= after
    ensures NoWriteFailed(after, |before|, fails) <==>
            NoWriteFailed(received, |start|, fails) && NoWriteFailed(after, |received|, fails)
    ensures before + [Initialize] <= after
  {
    JoinNoFailures(start, received, |before|, fails);
    JoinNoFailures(received, after, |before|, fails);
    assert NoWriteFailed(start, |before|, fails);
  }

  /** An upload cut at any places, empty chunks included, in one packet each. */
  method UploadSplit(session: UploadSession, stream: seq<byte>, cuts: seq<nat>, fails: nat -> bool, checkFails: bool)
    returns (updates: bool)
    requires Ascending(stream, cuts)
    requires session.Valid() && session.Running() && !session.ota.inProgress
    modifies session, session.ota, session.ota.buffer
    ensures session.Valid() && !session.ota.inProgress
    ensures updates <==> NoWriteFailed(session.ota.log, |old(session.ota.log)|, fails) && !checkFails
    ensures updates <==> UpdatedTo(session.ota.log, Padded(stream))
  {
    var chunks := SplitAll(stream, cuts);
    SplitAllJoins(stream, cuts);
    updates := Upload(session, InSinglePackets(chunks), fails, checkFails);
  }

  /** The chunks that end at the given places and at the end of the stream. */
  function SplitAll(stream: seq<byte>, cuts: seq<nat>): seq<seq<byte>>
    requires Ascending(stream, cuts)
  {
    Split(stream, cuts + [|stream|])
  }

  lemma SplitAllJoins(stream: seq<byte>, cuts: seq<nat>)
    requires Ascending(stream, cuts)
    ensures Content(InSinglePackets(SplitAll(stream, cuts))) == stream
  {
    JoinedOfSplit(stream, cuts + [|stream|]);
    SinglePackets(SplitAll(stream, cuts));
  }

  function InSinglePackets(chunks: seq<seq<byte>>): seq<seq<seq<byte>>> {
    if chunks == [] then [] else InSinglePackets(chunks[..|chunks| - 1]) + [[chunks[|chunks| - 1]]]
  }

  lemma {:induction false} SinglePackets(chunks: seq<seq<byte>>)
    ensures Content(InSinglePackets(chunks)) == Joined(chunks)
  {
    if chunks != [] {
      var n := |chunks| - 1;
      SinglePackets(chunks[..n]);
      assert InSinglePackets(chunks)[..|InSinglePackets(chunks)| - 1] == InSinglePackets(chunks[..n]);
      var single := [chunks[n]];
      assert single[..0] == [] && Joined(single) == chunks[n];
    }
  }

  // ---------- What a record without wrong phases means ----------

  lemma {:induction false} PrefixNotWrong(log: seq<Request>, i: nat)
    requires i <= |log| && !PhaseOf(log).Wrong?
    ensures !PhaseOf(log[..i]).Wrong?
    decreases |log|
  {
    if i < |log| {
      assert log[..|log| - 1][..i] == log[..i];
      PrefixNotWrong(log[..|log| - 1], i);
    } else {
      assert log[..i] == log;
    }
  }

  /** All pages written by a stretch of requests, in order. */
  function Written(rs: seq<Request>): seq<byte> {
    if rs == [] then []
    else Written(rs[..|rs| - 1]) + (if rs[|rs| - 1].PageWrite? then rs[|rs| - 1].data else [])
  }

  /** Consecutive, whole, non-empty pages from address 0 up. */
  predicate Contiguous(rs: seq<Request>) {
    rs != [] ==>
      var before, w := rs[..|rs| - 1], rs[|rs| - 1];
      Contiguous(before) && w.PageWrite? && w.offset == |Written(before)| && w.data != [] && |w.data| % PAGE == 0
  }

  lemma WriteExtends(rs: seq<Request>, w: Request)
    requires Contiguous(rs) && w.PageWrite? && w.offset == |Written(rs)| && w.data != [] && |w.data| % PAGE == 0
    ensures Contiguous(rs + [w]) && Written(rs + [w]) == Written(rs) + w.data
  {
    assert (rs + [w])[..|rs|] == rs;
  }

  /** The last request of an upload that is receiving either began it or wrote at the end of the image. */
  lemma ReceivingStep(log: seq<Request>)
    requires PhaseOf(log).Receiving?
    ensures log != []
    ensures var last, before := log[|log| - 1], PhaseOf(log[..|log| - 1]);
            if last.Initialize? then PhaseOf(log).image == []
            else
              && before.Receiving? && last.PageWrite? && last.offset == |before.image|
              && last.data != [] && |last.data| % PAGE == 0 && PhaseOf(log).image == before.image + last.data
  {
  }

  lemma LastBehind(log: seq<Request>, front: seq<Request>, since: seq<Request>)
    requires log != [] && log[..|log| - 1] == front + since
    ensures log == front + (since + [log[|log| - 1]])
  {
    assert log == log[..|log| - 1] + [log[|log| - 1]];
  }

  /** Receiving means: up to an initialization anything, and since then nothing but writes that cover the image. */
  lemma {:induction false} ReceivingSplits(log: seq<Request>) returns (front: seq<Request>, since: seq<Request>)
    requires PhaseOf(log).Receiving?
    ensures log == front + since && front != [] && front[|front| - 1] == Initialize
    ensures Contiguous(since) && Written(since) == PhaseOf(log).image
    decreases |log|
  {
    ReceivingStep(log);
    var last := log[|log| - 1];
    if last.Initialize? {
      front, since := log, [];
    } else {
      front, since := ReceivingSplits(log[..|log| - 1]);
      LastBehind(log, front, since);
      WriteExtends(since, last);
      since := since + [last];
    }
  }

  /** The same by position. */
  lemma ReceivingSince(log: seq<Request>) returns (b: nat)
    requires PhaseOf(log).Receiving?
    ensures b < |log| && log[b] == Initialize
    ensures Contiguous(log[b + 1..]) && Written(log[b + 1..]) == PhaseOf(log).image
  {
    var front, since := ReceivingSplits(log);
    b := |front| - 1;
    assert log[b + 1..] == since;
  }

  /**
    Session safety. Wherever an update was requested, it was preceded by marking the slot, that by a
    passed check over the exact number of bytes written, and that by writes alone, all successful,
    contiguous and in whole pages, since the latest initialization.
   */
  lemma UpdateOnlyAfterVerifiedImage(log: seq<Request>, u: nat) returns (b: nat)
    requires !PhaseOf(log).Wrong? && u < |log| && log[u] == Update
    ensures b + 3 <= u && log[b] == Initialize
    ensures Contiguous(log[b + 1..u - 2])
    ensures log[u - 2] == Check(|Written(log[b + 1..u - 2])|, true) && log[u - 1] == MarkValid
  {
    PrefixNotWrong(log, u + 1);
    StepOf(log, u);
    assert PhaseOf(log[..u]).Marked?;
    StepOf(log, u - 1);
    assert PhaseOf(log[..u - 1]).Verified?;
    StepOf(log, u - 2);
    assert PhaseOf(log[..u - 2]).Receiving?;
    b := ReceivingSince(log[..u - 2]);
    assert log[..u - 2][b + 1..] == log[b + 1..u - 2];
  }

  lemma StepOf(log: seq<Request>, i: nat)
    requires i < |log|
    ensures PhaseOf(log[..i + 1]) == NextPhase(PhaseOf(log[..i]), log[i])
  {
    assert log[..i + 1][..i] == log[..i];
  }

  /**
    The image that an update is made to is the one in flash: since the latest initialization it was
    written from address 0 on, page by page, then checked as a whole and marked.
   */
  lemma UpdatedImageIsWritten(log: seq<Request>, image: seq<byte>) returns (b: nat)
    requires UpdatedTo(log, image)
    ensures b + 4 <= |log| && log[b] == Initialize
    ensures var end := |log| - 3;
            && Contiguous(log[b + 1..end]) && Written(log[b + 1..end]) == image
            && log[end] == Check(|image|, true) && log[end + 1] == MarkValid && log[end + 2] == Update
  {
    var end := |log| - 3;
    assert log[..|log| - 1] != [];
    StepOf(log, end + 1);
    assert PhaseOf(log[..end + 1]) == Verified(image);
    StepOf(log, end);
    assert PhaseOf(log[..end]) == Receiving(image);
    b := ReceivingSince(log[..end]);
    assert log[..end][b + 1..] == log[b + 1..end];
  }

  /** Between two markings there is an initialization: each upload marks the slot at most once. */
  lemma {:induction false} MarkedOncePerBegin(log: seq<Request>, i: nat, j: nat)
    requires !PhaseOf(log).Wrong? && i < j < |log| && log[i] == MarkValid && log[j] == MarkValid
    ensures exists b :: i < b < j && log[b] == Initialize
  {
    if forall b | i < b < j :: log[b] != Initialize {
      StepOf(log, i);
      PrefixNotWrong(log, i + 1);
      NotVerifiedWithoutBegin(log, i, j);
      StepOf(log, j);
      PrefixNotWrong(log, j + 1);
    }
  }

  lemma {:induction false} NotVerifiedWithoutBegin(log: seq<Request>, i: nat, j: nat)
    requires !PhaseOf(log).Wrong? && i < j <= |log|
    requires PhaseOf(log[..i + 1]).Marked?
    requires forall b | i < b < j :: log[b] != Initialize
    ensures PhaseOf(log[..j]).Marked? || PhaseOf(log[..j]).Updating?
  {
    if j > i + 1 {
      NotVerifiedWithoutBegin(log, i, j - 1);
      StepOf(log, j - 1);
      PrefixNotWrong(log, j);
    }
  }

  predicate Ascending(stream: seq<byte>, cuts: seq<nat>) {
    && (forall i | 0 <= i < |cuts| :: cuts[i] <= |stream|)
    && forall i, j | 0 <= i < j < |cuts| :: cuts[i] <= cuts[j]
  }

  lemma JoinedSnoc(chunks: seq<seq<byte>>, chunk: seq<byte>)
    ensures Joined(chunks + [chunk]) == Joined(chunks) + chunk
  {
    assert (chunks + [chunk])[..|chunks|] == chunks;
  }

  lemma SliceUpTo(stream: seq<byte>, a: nat, b: nat)
    requires a <= b <= |stream|
    ensures stream[..a] + stream[a..b] == stream[..b]
  {
  }

  /** The chunks up to a cut join to the stream up to there. */
  lemma {:induction false} JoinedOfSplit(stream: seq<byte>, cuts: seq<nat>)
    requires Ascending(stream, cuts)
    ensures Joined(Split(stream, cuts)) == stream[..LastCut(cuts)]
  {
    if cuts != [] {
      var before, end := cuts[..|cuts| - 1], cuts[|cuts| - 1];
      JoinedOfSplit(stream, before);
      JoinedSnoc(Split(stream, before), stream[LastCut(before)..end]);
      SliceUpTo(stream, LastCut(before), end);
    }
  }

  /** Where the chunk behind these cuts begins. */
  function LastCut(cuts: seq<nat>): nat {
    if cuts == [] then 0 else cuts[|cuts| - 1]
  }

  /** The chunks that end at the given places. */
  function Split(stream: seq<byte>, cuts: seq<nat>): (chunks: seq<seq<byte>>)
    requires Ascending(stream, cuts)
    ensures |chunks| == |cuts|
  {
    if cuts == [] then []
    else
      var before := cuts[..|cuts| - 1];
      Split(stream, before) + [stream[LastCut(before)..cuts[|cuts| - 1]]]
  }
}
