/**
  Firmware upload: bricks/picow/ota_handler.c and its HTTP driver in bricks/picow/main.c.

  The flash driver is an oracle that may fail any write and any checksum. What it was asked to do is
  recorded, and the phases of that record say what a correct sequence of requests is.
 */
module Ota {
  import opened Common

  const BUFFER_SIZE: nat := 4096

  const PAGE: nat := 256

  // ---------- Requests to the flash driver ----------

  datatype Request =
    | Initialize
    | PageWrite(offset: nat, data: seq<byte>)
    | FailedWrite(offset: nat, size: nat)
    | Check(total: nat, passed: bool)
    | MarkValid
    | Update

  /** How far the requests have come since the last initialization, with the image written so far. */
  datatype Phase =
    | Idle
    | Receiving(image: seq<byte>)
    | Verified(image: seq<byte>)
    | Marked(image: seq<byte>)
    | Updating
    | Wrong

  function NextPhase(p: Phase, r: Request): Phase {
    match r
    case Initialize => if p.Updating? || p.Wrong? then Wrong else Receiving([])
    case PageWrite(offset, data) =>
      if p.Receiving? && offset == |p.image| && data != [] && |data| % PAGE == 0 then Receiving(p.image + data) else Wrong
    case FailedWrite(offset, size) => if p.Receiving? && offset == |p.image| then Idle else Wrong
    case Check(total, passed) =>
      if p.Receiving? && total == |p.image| then (if passed then Verified(p.image) else Idle) else Wrong
    case MarkValid => if p.Verified? then Marked(p.image) else Wrong
    case Update => if p.Marked? then Updating else Wrong
  }

  function PhaseOf(log: seq<Request>): Phase {
    if log == [] then Idle else NextPhase(PhaseOf(log[..|log| - 1]), log[|log| - 1])
  }

  lemma Logged(log: seq<Request>, r: Request)
    ensures PhaseOf(log + [r]) == NextPhase(PhaseOf(log), r)
  {
    assert (log + [r])[..|log|] == log;
  }

  /** The received bytes, filled up with erased bytes to whole pages. */
  function Padded(stream: seq<byte>): seq<byte> {
    stream + seq((PAGE - |stream| % PAGE) % PAGE, _ => 0xFF)
  }

  ghost predicate NoWriteFailed(log: seq<Request>, from: nat, fails: nat -> bool) {
    forall k | from <= k < |log| && (log[k].PageWrite? || log[k].FailedWrite?) :: !fails(k)
  }

  lemma JoinNoFailures(before: seq<Request>, after: seq<Request>, from: nat, fails: nat -> bool)
    requires from <= |before| && before <= after
    ensures NoWriteFailed(after, from, fails) <==> NoWriteFailed(before, from, fails) && NoWriteFailed(after, |before|, fails)
  {
    forall k | 0 <= k < |before| ensures before[k] == after[k] {}
  }

  /** The upload came as far as the check of its whole image, which failed. */
  ghost predicate CheckFailed(log: seq<Request>, image: seq<byte>) {
    && log != [] && log[|log| - 1] == Check(|image|, false)
    && PhaseOf(log[..|log| - 1]) == Receiving(image)
  }

  /** Bytes behind the last whole page remain to be written, and the driver fails the next request. */
  predicate RestFails(length: nat, next: nat, fails: nat -> bool) {
    length % PAGE != 0 && fails(next)
  }

  /** Padding in numbers: the stream, and then as few bytes 0xFF as make the length a multiple of 256. */
  lemma PaddedIs(stream: seq<byte>)
    ensures stream <= Padded(stream) && |Padded(stream)| % 256 == 0 && |Padded(stream)| < |stream| + 256
    ensures forall i | |stream| <= i < |Padded(stream)| :: Padded(stream)[i] == 0xFF
  {
  }

  // ---------- The handler ----------

  class OtaHandler {
    const buffer: array<byte>
    var pos: nat
    var total: nat
    var inProgress: bool
    /** All requests so far. */
    var log: seq<Request>
    /** The bytes received since the upload began. */
    ghost var stream: seq<byte>

    /** While an upload is in progress, flash and buffer together hold exactly what was received. */
    ghost predicate Consistent()
      reads this, buffer
    {
      && buffer.Length == BUFFER_SIZE
      && !PhaseOf(log).Wrong?
      && (inProgress ==>
            && PhaseOf(log).Receiving?
            && |PhaseOf(log).image| == total && total % PAGE == 0 && pos <= BUFFER_SIZE
            && PhaseOf(log).image + buffer[..pos] == stream)
    }

    /** At rest the buffer has room, and no whole pages wait in it. */
    ghost predicate Valid()
      reads this, buffer
    {
      && Consistent()
      && (inProgress ==> pos < BUFFER_SIZE && (pos % PAGE == 0 ==> pos == 0))
    }

    /** The last request, made since the log had the given length, was a write that the driver failed. */
    ghost predicate FailedAtLast(from: nat, fails: nat -> bool)
      reads this
    {
      from < |log| && log[|log| - 1].FailedWrite? && fails(|log| - 1)
    }

    constructor ()
      ensures Valid() && fresh(buffer) && !inProgress && log == []
    {
      buffer := new byte[BUFFER_SIZE];
      pos, total, inProgress, log, stream := 0, 0, false, [], [];
    }

    method Begin() returns (ok: bool)
      requires Valid() && !PhaseOf(log).Updating?
      modifies this
      ensures Valid()
      ensures ok <==> !old(inProgress)
      ensures ok ==> inProgress && stream == [] && log == old(log) + [Initialize]
      ensures !ok ==> unchanged(this)
    {
      if inProgress {
        return false;
      }
      Logged(log, Initialize);
      log := log + [Initialize];
      pos, total, inProgress, stream := 0, 0, true, [];
      ok := true;
    }

    /** Copies as much as fits behind the buffered bytes. */
    method Fill(data: seq<byte>, offset: nat, toCopy: nat)
      requires buffer.Length == BUFFER_SIZE
      requires pos + toCopy <= BUFFER_SIZE && offset + toCopy <= |data|
      modifies this`pos, buffer
      ensures pos == old(pos) + toCopy
      ensures buffer[..pos] == old(buffer[..pos]) + data[offset..offset + toCopy]
    {
      forall i | 0 <= i < toCopy {
        buffer[pos + i] := data[offset + i];
      }
      pos := pos + toCopy;
    }

    /** Writes whole pages from the start of the buffer; false if the driver reports an error. */
    method WritePages(size: nat, fails: nat -> bool) returns (ok: bool)
      requires buffer.Length == BUFFER_SIZE && 0 < size <= BUFFER_SIZE && size % PAGE == 0
      requires PhaseOf(log).Receiving? && |PhaseOf(log).image| == total && total % PAGE == 0
      modifies this`log, this`total, this`inProgress
      ensures !PhaseOf(log).Wrong?
      ensures ok <==> !fails(|old(log)|)
      ensures ok ==>
                && log == old(log) + [PageWrite(old(total), buffer[..size])] && inProgress == old(inProgress)
                && PhaseOf(log) == Receiving(PhaseOf(old(log)).image + buffer[..size])
                && total == old(total) + size
      ensures !ok ==> !inProgress && log == old(log) + [FailedWrite(old(total), size)]
    {
      if fails(|log|) {
        Logged(log, FailedWrite(total, size));
        log := log + [FailedWrite(total, size)];
        inProgress := false;
        return false;
      }
      Logged(log, PageWrite(total, buffer[..size]));
      log := log + [PageWrite(total, buffer[..size])];
      total := total + size;
      ok := true;
    }

    /** Flushes the buffer when it holds whole pages only. */
    method FlushWholePages(fails: nat -> bool) returns (ok: bool)
      requires Consistent() && inProgress
      modifies this
      ensures Valid() && old(log) <= log && stream == old(stream)
      ensures inProgress <==> ok
      ensures ok ==> NoWriteFailed(log, |old(log)|, fails)
      ensures !ok ==> FailedAtLast(|old(log)|, fails)
    {
      if pos >= PAGE && pos % PAGE == 0 {
        // Nothing is left behind the pages that would have to be moved to the front.
        var flushSize := pos / PAGE * PAGE;
        assert flushSize == pos;
        ok := WritePages(flushSize, fails);
        if !ok {
          return false;
        }
        pos := pos - flushSize;
        assert buffer[..0] == [] && PhaseOf(log).image + [] == PhaseOf(log).image;
      }
      ok := true;
    }

    /** Returns 0, -1 if no upload is in progress, or -2 if a flash write fails. */
    method Write(data: seq<byte>, fails: nat -> bool) returns (r: int)
      requires Valid() && !PhaseOf(log).Updating?
      modifies this, buffer
      ensures Valid() && old(log) <= log && r in {0, -1, -2}
      ensures r == -1 <==> !old(inProgress)
      ensures r == -1 ==> log == old(log) && !inProgress
      ensures r == 0 ==> inProgress && stream == old(stream) + data
      ensures r == 0 ==> NoWriteFailed(log, |old(log)|, fails)
      ensures r == -2 ==> !inProgress && FailedAtLast(|old(log)|, fails)
    {
      if !inProgress {
        return -1;
      }
      var remaining, offset := |data|, 0;
      while remaining > 0
        invariant Valid() && inProgress && offset <= |data| && remaining == |data| - offset
        invariant stream == old(stream) + data[..offset]
        invariant old(log) <= log && NoWriteFailed(log, |old(log)|, fails)
      {
        var toCopy := BUFFER_SIZE - pos;
        if toCopy > remaining {
          toCopy := remaining;
        }
        Received(PhaseOf(log).image, buffer[..pos], old(stream), data, offset, toCopy);
        Fill(data, offset, toCopy);
        stream := stream + data[offset..offset + toCopy];
        offset, remaining := offset + toCopy, remaining - toCopy;
        var ok := FlushWholePages(fails);
        if !ok {
          return -2;
        }
      }
      assert data[..offset] == data;
      r := 0;
    }

    /** Fills the last page with erased bytes and writes it. */
    method FlushRest(fails: nat -> bool) returns (ok: bool)
      requires Valid() && inProgress
      modifies this, buffer
      ensures stream == old(stream) && old(log) <= log && !PhaseOf(log).Wrong?
      ensures ok <==> !RestFails(|stream|, |old(log)|, fails)
      ensures ok ==> NoWriteFailed(log, |old(log)|, fails)
      ensures ok ==> inProgress && PhaseOf(log) == Receiving(Padded(stream)) && total == |Padded(stream)|
      ensures !ok ==> !inProgress && FailedAtLast(|old(log)|, fails)
    {
      PaddingOfPages(PhaseOf(log).image, buffer[..pos]);
      assert |stream| % PAGE == 0 <==> pos == 0;
      ok := true;
      if pos > 0 {
        var paddedSize := (pos + 255) / PAGE * PAGE;
        ghost var head := buffer[..pos];
        forall i | pos <= i < paddedSize {
          buffer[i] := 0xFF;
        }
        PaddedHead(buffer[..paddedSize], head);
        ok := WritePages(paddedSize, fails);
      } else {
        assert buffer[..0] == [] && Padded([]) == [];
      }
    }

    /** Returns 0, -1 without an upload, -2 if the last write fails, or -3 if the checksum does not match. */
    method End(fails: nat -> bool, checkFails: bool) returns (r: int)
      requires Valid() && !PhaseOf(log).Updating?
      modifies this, buffer
      ensures Valid() && !inProgress && r in {0, -1, -2, -3}
      ensures r == -1 <==> !old(inProgress)
      ensures old(log) <= log && (r == -1 ==> log == old(log))
      ensures r == -2 <==> old(inProgress) && RestFails(|old(stream)|, |old(log)|, fails)
      ensures r == -2 ==> FailedAtLast(|old(log)|, fails)
      ensures r == 0 <==> old(inProgress) && !RestFails(|old(stream)|, |old(log)|, fails) && !checkFails
      ensures r == 0 ==> NoWriteFailed(log, |old(log)|, fails) && PhaseOf(log) == Marked(Padded(old(stream)))
      ensures r == -3 ==> CheckFailed(log, Padded(old(stream)))
    {
      if !inProgress {
        return -1;
      }
      var ok := FlushRest(fails);
      if !ok {
        return -2;
      }
      Logged(log, Check(total, !checkFails));
      assert (log + [Check(total, !checkFails)])[..|log|] == log;
      log := log + [Check(total, !checkFails)];
      inProgress := false;
      if checkFails {
        return -3;
      }
      Logged(log, MarkValid);
      log := log + [MarkValid];
      r := 0;
    }

    method Abort()
      requires Valid()
      modifies this
      ensures Valid() && !inProgress && log == old(log)
    {
      inProgress, pos, total := false, 0, 0;
    }

    method PerformUpdate()
      requires Valid() && !inProgress && PhaseOf(log).Marked?
      modifies this
      ensures Valid() && !inProgress && log == old(log) + [Update] && PhaseOf(log).Updating?
    {
      Logged(log, Update);
      log := log + [Update];
    }
  }

  lemma Received(image: seq<byte>, head: seq<byte>, before: seq<byte>, data: seq<byte>, offset: nat, n: nat)
    requires offset + n <= |data| && image + head == before + data[..offset]
    ensures image + (head + data[offset..offset + n]) == before + data[..offset + n]
    ensures before + data[..offset] + data[offset..offset + n] == before + data[..offset + n]
  {
    var piece := data[offset..offset + n];
    assert data[..offset + n] == data[..offset] + piece;
    assert image + (head + piece) == image + head + piece;
    assert before + (data[..offset] + piece) == before + data[..offset] + piece;
  }

  lemma PaddedHead(pages: seq<byte>, head: seq<byte>)
    requires |head| <= |pages| < |head| + PAGE && |pages| % PAGE == 0
    requires pages[..|head|] == head && forall i | |head| <= i < |pages| :: pages[i] == 0xFF
    ensures pages == Padded(head)
  {
  }

  /** Padding only concerns the part behind the last whole page. */
  lemma PaddingOfPages(pages: seq<byte>, rest: seq<byte>)
    requires |pages| % PAGE == 0
    ensures Padded(pages + rest) == pages + Padded(rest)
  {
    assert |pages + rest| % PAGE == |rest| % PAGE;
  }
}
