/**
  Notifications of an LWP3 device: pybricks/iodevices/pb_type_iodevices_lwp3device.c.

  A ring of fixed-size slots. When it is full, the oldest notification makes room for the newest.
  Messages begin with their length, as the Common Message Header of the LEGO Wireless Protocol 3.0
  has it for messages of this size.
 */
module Lwp3 {
  import opened Common

  const HEADER_SIZE: nat := 3

  /** LWP3_MAX_MESSAGE_SIZE */
  const SLOT: nat := 20

  // ---------- The queue it should be ----------

  /** A slot after a notification was copied into it: bytes behind the notification are left over. */
  function Overwritten(slot: seq<byte>, value: seq<byte>): (r: seq<byte>)
    requires |slot| == SLOT
    ensures |r| == SLOT
  {
    if |value| < SLOT then value + slot[|value|..] else value[..SLOT]
  }

  /** What read() makes of a slot; implausible lengths are dropped silently. */
  function Message(slot: seq<byte>): Option<seq<byte>>
    requires |slot| == SLOT
  {
    if slot[0] < HEADER_SIZE || slot[0] > SLOT then None else Some(slot[..slot[0]])
  }

  /** A message that says its own length. */
  predicate WellFormed(value: seq<byte>) {
    HEADER_SIZE <= |value| <= SLOT && value[0] == |value|
  }

  /** Such a message comes out of the slot as it went in, whatever the slot held before. */
  lemma StaleBytesDoNotMatter(slot: seq<byte>, value: seq<byte>)
    requires |slot| == SLOT && WellFormed(value)
    ensures Message(Overwritten(slot, value)) == Some(value)
  {
    assert Overwritten(slot, value)[0] == value[0];
    assert Overwritten(slot, value)[..|value|] == value;
  }

  /**
    What is read of a notification of any length. A first byte that is no length from 3 to 20 loses it.
    Otherwise it is cut to this length, and filled up with what was in the slot if it is shorter.
   */
  lemma WhatIsRead(slot: seq<byte>, value: seq<byte>)
    requires |slot| == 20 && value != []
    ensures !(3 <= value[0] <= 20) ==> Message(Overwritten(slot, value)) == None
    ensures 3 <= value[0] <= 20 ==>
              Message(Overwritten(slot, value)) ==
              Some(if value[0] <= |value| then value[..value[0]] else value + slot[|value|..value[0]])
  {
    var written, n := Overwritten(slot, value), value[0];
    assert written[0] == n;
    if 3 <= n <= 20 {
      assert n <= |value| ==> written[..n] == value[..n];
      assert n > |value| ==> written[..n] == value + slot[|value|..n];
    }
  }

  function Enqueued<T>(q: seq<T>, capacity: nat, x: T): seq<T>
    requires capacity > 0
  {
    if |q| < capacity then q + [x] else if q == [] then [x] else q[1..] + [x]
  }

  // ---------- Rings ----------

  /** k places behind place i of a ring. */
  function Advance(i: nat, k: nat, n: nat): (p: nat)
    requires i < n && k <= n
    ensures p < n
  {
    if i + k < n then i + k else i + k - n
  }

  /** The code advances an index by one modulo the size. */
  lemma NextIndex(i: nat, n: nat)
    requires i < n
    ensures (i + 1) % n == Advance(i, 1, n)
  {
  }

  /** The queue that starts at a place and has so many entries. */
  function QueueOf(slots: seq<seq<byte>>, start: nat, count: nat): (q: seq<seq<byte>>)
    requires start < |slots| && count <= |slots|
    ensures |q| == count
  {
    seq(count, i requires 0 <= i < count => slots[Advance(start, i, |slots|)])
  }

  lemma EnqueueBehind(slots: seq<seq<byte>>, start: nat, count: nat, x: seq<byte>)
    requires start < |slots| && count < |slots|
    ensures QueueOf(slots[Advance(start, count, |slots|) := x], start, count + 1) == QueueOf(slots, start, count) + [x]
  {
  }

  lemma DequeueFront(slots: seq<seq<byte>>, start: nat, count: nat)
    requires start < |slots| && 0 < count <= |slots|
    ensures QueueOf(slots, start, count)[0] == slots[start]
    ensures QueueOf(slots, start, count)[1..] == QueueOf(slots, Advance(start, 1, |slots|), count - 1)
  {
  }

  /** The number of entries that two indices and the full flag stand for. */
  function CountOf(idxRead: nat, idxWrite: nat, full: bool, n: nat): nat
    requires idxRead < n && idxWrite < n
  {
    if full then n
    else if idxWrite >= idxRead then idxWrite - idxRead
    else idxWrite + n - idxRead
  }

  /** Writing a slot and advancing the indices is an insertion into the bounded queue. */
  lemma IndicesRefineQueue(slots: seq<seq<byte>>, idxRead: nat, idxWrite: nat, full: bool, x: seq<byte>)
    requires idxRead < |slots| && idxWrite < |slots| && (full ==> idxRead == idxWrite)
    ensures var n := |slots|;
            var read, write := if full then Advance(idxRead, 1, n) else idxRead, Advance(idxWrite, 1, n);
            QueueOf(slots[idxWrite := x], read, CountOf(read, write, read == write, n)) ==
            Enqueued(QueueOf(slots, idxRead, CountOf(idxRead, idxWrite, full, n)), n, x)
  {
    var n := |slots|;
    if full {
      DequeueFront(slots, idxRead, n);
      EnqueueBehind(slots, Advance(idxRead, 1, n), n - 1, x);
    } else {
      EnqueueBehind(slots, idxRead, CountOf(idxRead, idxWrite, full, n), x);
    }
  }

  lemma IndicesRefineTake(slots: seq<seq<byte>>, idxRead: nat, idxWrite: nat, full: bool)
    requires idxRead < |slots| && idxWrite < |slots| && (full <==> idxRead == idxWrite)
    ensures var n := |slots|;
            var q, next := QueueOf(slots, idxRead, CountOf(idxRead, idxWrite, full, n)), Advance(idxRead, 1, n);
            q != [] && q[0] == slots[idxRead] && q[1..] == QueueOf(slots, next, CountOf(next, idxWrite, false, n))
  {
    DequeueFront(slots, idxRead, CountOf(idxRead, idxWrite, full, |slots|));
  }

  /** Where the message in a slot lies in the whole buffer. */
  lemma SlotBytes(bytes: seq<byte>, at: nat, slot: seq<byte>)
    requires at + SLOT <= |bytes| && slot == bytes[at..at + SLOT]
    ensures Message(slot) ==
            if bytes[at] < HEADER_SIZE || bytes[at] > SLOT then None else Some(bytes[at..at + bytes[at]])
  {
    assert slot[0] == bytes[at];
    assert bytes[at] <= SLOT ==> slot[..bytes[at]] == bytes[at..at + bytes[at]];
  }

  /** The slots that a buffer is divided into. */
  function SlotsOf(bytes: seq<byte>, num: nat): (s: seq<seq<byte>>)
    requires num * SLOT <= |bytes|
    ensures |s| == num && forall i | 0 <= i < num :: |s[i]| == SLOT
  {
    seq(num, i requires 0 <= i < num => bytes[i * SLOT..i * SLOT + SLOT])
  }

  /** Copying bytes to the start of one slot changes that slot only. */
  lemma SliceAfterCopy(was: seq<byte>, slot: nat, copied: seq<byte>, i: nat)
    requires i * SLOT + SLOT <= |was| && |copied| <= SLOT && slot * SLOT + SLOT <= |was|
    ensures var now := was[..slot * SLOT] + copied + was[slot * SLOT + |copied|..];
            && |now| == |was|
            && now[i * SLOT..i * SLOT + SLOT] ==
               if i == slot then copied + was[i * SLOT..i * SLOT + SLOT][|copied|..] else was[i * SLOT..i * SLOT + SLOT]
  {
  }

  lemma CopyChangesOneSlot(was: seq<byte>, now: seq<byte>, num: nat, slot: nat, value: seq<byte>)
    requires num * SLOT <= |was| && slot < num
    requires var copied := if |value| < SLOT then value else value[..SLOT];
             now == was[..slot * SLOT] + copied + was[slot * SLOT + |copied|..]
    ensures |now| == |was| && SlotsOf(now, num) == SlotsOf(was, num)[slot := Overwritten(SlotsOf(was, num)[slot], value)]
  {
    var copied := if |value| < SLOT then value else value[..SLOT];
    forall i | 0 <= i < num
      ensures SlotsOf(now, num)[i] == if i == slot then Overwritten(SlotsOf(was, num)[slot], value) else SlotsOf(was, num)[i]
    {
      SliceAfterCopy(was, slot, copied, i);
    }
  }

  // ---------- The device ----------

  class Lwp3Device {
    /** How many notifications fit; a byte, so that 256 of them are none. */
    const num: nat
    var idxRead: nat
    var idxWrite: nat
    var full: bool
    const buffer: array<byte>

    ghost predicate Valid()
      reads this
    {
      && 0 < num < 256 && num * SLOT <= buffer.Length
      && idxRead < num && idxWrite < num && (full ==> idxRead == idxWrite)
    }

    ghost function Slots(): (s: seq<seq<byte>>)
      requires num * SLOT <= buffer.Length
      reads buffer
      ensures |s| == num && forall i | 0 <= i < num :: |s[i]| == SLOT
    {
      SlotsOf(buffer[..], num)
    }

    /** The waiting notifications, oldest first. */
    ghost function Queue(): seq<seq<byte>>
      requires Valid()
      reads this, buffer
    {
      QueueOf(Slots(), idxRead, CountOf(idxRead, idxWrite, full, num))
    }

    constructor (requested: nat)
      ensures fresh(buffer) && num == (if requested == 0 then 1 else requested) % 256
      ensures num > 0 ==> Valid() && Queue() == []
    {
      var n := if requested == 0 then 1 else requested;
      num := n % 256;
      buffer := new byte[n * SLOT](_ => 0);
      idxRead, idxWrite, full := 0, 0, false;
    }

    /** A notification comes in; it is ignored if there are no slots. */
    method HandleNotification(value: seq<byte>)
      requires num > 0 ==> Valid()
      modifies this, buffer
      ensures num == 0 ==> unchanged(this) && unchanged(buffer)
      ensures num > 0 ==> Valid()
      ensures num > 0 ==> Queue() == Enqueued(old(Queue()), num, Overwritten(old(Slots()[idxWrite]), value))
    {
      if num == 0 {
        return;
      }
      Store(value);
    }

    /** The oldest notification is dropped if there is no room. */
    method Store(value: seq<byte>)
      requires Valid()
      modifies this, buffer
      ensures Valid()
      ensures Queue() == Enqueued(old(Queue()), num, Overwritten(old(Slots()[idxWrite]), value))
    {
      NextIndex(idxRead, num);
      NextIndex(idxWrite, num);
      IndicesRefineQueue(Slots(), idxRead, idxWrite, full, Overwritten(Slots()[idxWrite], value));
      if full {
        idxRead := (idxRead + 1) % num;
      }
      CopyToSlot(idxWrite, value);
      idxWrite := (idxWrite + 1) % num;
      full := idxRead == idxWrite;
    }

    /** memcpy of at most a slot. */
    method CopyToSlot(slot: nat, value: seq<byte>)
      requires num * SLOT <= buffer.Length && slot < num
      modifies buffer
      ensures Slots() == old(Slots())[slot := Overwritten(old(Slots()[slot]), value)]
    {
      var n := if |value| < SLOT then |value| else SLOT;
      ghost var was := buffer[..];
      forall i | 0 <= i < n {
        buffer[slot * SLOT + i] := value[i];
      }
      assert buffer[..] == was[..slot * SLOT] + value[..n] + was[slot * SLOT + n..];
      assert |value| < SLOT ==> value[..n] == value;
      CopyChangesOneSlot(was, buffer[..], num, slot, value);
    }

    /** The message in a slot. */
    method ReadSlot(index: nat) returns (r: Option<seq<byte>>)
      requires num * SLOT <= buffer.Length && index < num
      ensures r == Message(Slots()[index])
    {
      var at := index * SLOT;
      var len := buffer[at];
      SlotBytes(buffer[..], at, Slots()[index]);
      if len < HEADER_SIZE || len > SLOT {
        return None;
      }
      r := Some(buffer[at..at + len]);
    }

    /** read(): the oldest notification is taken out of the queue, even if it is malformed. */
    method Read(failed: int) returns (r: Result<Option<seq<byte>>>)
      requires num > 0 ==> Valid()
      modifies this`idxRead, this`full
      ensures num == 0 ==> r == Err(Pbio(failed)) && unchanged(this)
      ensures num > 0 ==> Valid()
      ensures num > 0 && old(Queue()) == [] ==> r == Ok(None) && Queue() == []
      ensures num > 0 && old(Queue()) != [] ==>
                && |old(Queue())[0]| == SLOT
                && r == Ok(Message(old(Queue())[0])) && Queue() == old(Queue())[1..]
    {
      if num == 0 {
        return Err(Pbio(failed));
      }
      if !full && idxWrite == idxRead {
        return Ok(None);
      }
      IndicesRefineTake(Slots(), idxRead, idxWrite, full);
      NextIndex(idxRead, num);
      var index := idxRead;
      full := false;
      idxRead := (idxRead + 1) % num;
      var message := ReadSlot(index);
      r := Ok(message);
    }
  }

  /**
    The number of notifications is cut to a byte: asking for 256 of them, or any multiple, gives a
    device that keeps none, and read() raises an error even after a notification.
   */
  method ReadWithoutSlots(k: nat, value: seq<byte>, failed: int) returns (r: Result<Option<seq<byte>>>)
    requires k > 0
    ensures r == Err(Pbio(failed))
  {
    var device := new Lwp3Device(k * 256);
    device.HandleNotification(value);
    r := device.Read(failed);
  }

  // ---------- Whole runs ----------

  datatype Event = Notify(value: seq<byte>) | Take

  /** A run of the bounded queue; `removed` counts what was read or dropped, `taken` lists what was read. */
  datatype Run = Run(queue: seq<seq<byte>>, taken: seq<seq<byte>>, removed: nat)

  /** Notifications drop the oldest entry when there is no room; reading takes the oldest. */
  function After(capacity: nat, es: seq<Event>): Run
    requires capacity > 0
  {
    if es == [] then Run([], [], 0)
    else
      var r := After(capacity, es[..|es| - 1]);
      match es[|es| - 1]
      case Notify(value) =>
        r.(queue := Enqueued(r.queue, capacity, value), removed := if |r.queue| < capacity then r.removed else r.removed + 1)
      case Take =>
        if r.queue == [] then r else Run(r.queue[1..], r.taken + [r.queue[0]], r.removed + 1)
  }

  function Notified(es: seq<Event>): seq<seq<byte>> {
    if es == [] then []
    else Notified(es[..|es| - 1]) + (if es[|es| - 1].Notify? then [es[|es| - 1].value] else [])
  }

  /** The positions in ascending order pick the entries of a sequence. */
  ghost predicate Picks(at: seq<nat>, all: seq<seq<byte>>, picked: seq<seq<byte>>, limit: nat) {
    && |at| == |picked| && limit <= |all|
    && (forall i | 0 <= i < |at| :: at[i] < limit && picked[i] == all[at[i]])
    && (forall i, j | 0 <= i < j < |at| :: at[i] < at[j])
  }

  /**
    Over every run the queue holds exactly the newest notifications that were not removed. What was
    read is a subsequence of what came in, in order and without duplicates, all older than what still
    waits. Nothing is lost while there is room.
   */
  lemma {:induction false} QueueHoldsNewest(capacity: nat, es: seq<Event>) returns (at: seq<nat>)
    requires capacity > 0
    ensures var r, all := After(capacity, es), Notified(es);
            && |r.queue| <= capacity
            && r.removed + |r.queue| == |all| && r.queue == all[r.removed..]
            && Picks(at, all, r.taken, r.removed)
  {
    at := [];
    if es != [] {
      var before := es[..|es| - 1];
      var r, all := After(capacity, before), Notified(before);
      at := QueueHoldsNewest(capacity, before);
      match es[|es| - 1]
      case Notify(value) =>
      case Take =>
        assert all + [] == all;
        if r.queue != [] {
          at := at + [r.removed];
        }
    }
  }

  /** The slots waiting in the device, when the k-th event finds the bytes stale[k] in the slot it writes. */
  function SlotsAfter(capacity: nat, es: seq<Event>, stale: seq<seq<byte>>): (q: seq<seq<byte>>)
    requires capacity > 0 && |stale| == |es| && forall k | 0 <= k < |stale| :: |stale[k]| == SLOT
    ensures forall i | 0 <= i < |q| :: |q[i]| == SLOT
    decreases |es|
  {
    if es == [] then []
    else
      var n := |es| - 1;
      var q := SlotsAfter(capacity, es[..n], stale[..n]);
      match es[n]
      case Notify(value) => Enqueued(q, capacity, Overwritten(stale[n], value))
      case Take => if q == [] then q else q[1..]
  }

  /**
    The device is the queue of messages: over every run of well-formed notifications and reads, what
    waits in its slots reads as exactly the messages that wait in the queue, whatever was left over
    in the slots.
   */
  lemma {:induction false} SlotsHoldMessages(capacity: nat, es: seq<Event>, stale: seq<seq<byte>>)
    requires capacity > 0 && |stale| == |es| && forall k | 0 <= k < |stale| :: |stale[k]| == SLOT
    requires forall k | 0 <= k < |es| && es[k].Notify? :: WellFormed(es[k].value)
    ensures var q, messages := SlotsAfter(capacity, es, stale), After(capacity, es).queue;
            |q| == |messages| && forall i | 0 <= i < |q| :: Message(q[i]) == Some(messages[i])
    decreases |es|
  {
    if es != [] {
      var n := |es| - 1;
      SlotsHoldMessages(capacity, es[..n], stale[..n]);
      if es[n].Notify? {
        StaleBytesDoNotMatter(stale[n], es[n].value);
      }
    }
  }
}
