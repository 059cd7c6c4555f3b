/**
 The window of sequence numbers: which requests are outstanding, which number the next one gets,
 and which request a reply's 16-bit number belongs to. Also the round-trip time estimator.
 */
module BarfWindow {
  import opened Common

  /** The outstanding table's size, a power of two; `seqno & (size - 1)` is the slot. */
  const BARF_WINDOW_SIZE := 32
  const SEQUENCE_FIELD := 0x1_0000

  /** A slot of the outstanding table: no request, or one with its number and its was-sent flag. */
  datatype Slot = Free | Live(seqno: nat, sent: bool)

  function SlotOf(seqno: nat): (i: nat)
    ensures i < BARF_WINDOW_SIZE
  {
    seqno % BARF_WINDOW_SIZE
  }

  /** Numbers less than a table apart never share a slot. */
  lemma SlotsDiffer(a: nat, b: nat)
    requires a < b < a + BARF_WINDOW_SIZE
    ensures SlotOf(a) != SlotOf(b)
  {
  }

  class BarfDisk {
    const table: array<Slot>
    var oldest: nat
    var next: nat
    var windowSize: nat
    /** Every number that was ever put on the wire. */
    ghost var onWire: set<nat>
    /** Those whose write timed out, and those that were then handed back as the newest although they had been on the
        wire. */
    ghost var timedOut: set<nat>
    ghost var handedBack: set<nat>

    /** The table only ever holds requests of the window, each in its own slot. */
    ghost predicate Slotted()
      reads this, table
    {
      && table.Length == BARF_WINDOW_SIZE
      && forall i | 0 <= i < table.Length && table[i].Live? ::
           oldest <= table[i].seqno < next && SlotOf(table[i].seqno) == i
    }

    ghost predicate Valid()
      reads this, table
    {
      && Slotted()
      && windowSize <= BARF_WINDOW_SIZE && oldest <= next <= oldest + windowSize
      && (oldest < next ==> table[SlotOf(oldest)].Live?)
      && Traced()
    }

    /** What is known of the numbers that were on the wire: the unsent flag of one means that its write timed out, and
        those to come again were handed back. */
    ghost predicate Traced()
      requires Slotted()
      reads this, table
    {
      && handedBack <= timedOut * onWire
      && (forall s: nat | next <= s :: s in onWire <==> s in handedBack)
      && forall s: nat | Outstanding(s) && s in onWire && !table[SlotOf(s)].sent :: s in timedOut
    }

    /** The request of this number is outstanding. */
    predicate Outstanding(seqno: nat)
      requires table.Length == BARF_WINDOW_SIZE
      reads table
    {
      var slot := table[SlotOf(seqno)];
      slot.Live? && slot.seqno == seqno
    }

    /** The slot of the request says whether it was sent, and no other slot has changed. */
    twostate predicate OnlyThisChanged(seqno: nat, sent: bool)
      requires table.Length == BARF_WINDOW_SIZE
      reads table
    {
      && table[SlotOf(seqno)] == Live(seqno, sent)
      && forall i | 0 <= i < table.Length && i != SlotOf(seqno) :: table[i] == old(table[i])
    }

    constructor ()
      ensures Valid() && fresh(table) && oldest == next == 0 && windowSize == BARF_WINDOW_SIZE
      ensures onWire == timedOut == handedBack == {}
      ensures forall s: nat :: !Outstanding(s)
    {
      table := new Slot[BARF_WINDOW_SIZE](_ => Free);
      oldest, next, windowSize := 0, 0, BARF_WINDOW_SIZE;
      onWire, timedOut, handedBack := {}, {}, {};
    }

    /** GetServerRequest with GetSequenceNum: no request when the window is full, else one with the next number,
        which was on the wire before if and only if it was handed back after its write had timed out. */
    method GetServerRequest() returns (req: Option<nat>)
      requires Valid()
      modifies this`next, table
      ensures Valid()
      ensures req.None? <==> old(next) - oldest >= windowSize
      ensures req.None? ==> next == old(next) && table[..] == old(table[..])
      ensures req.Some? ==> req.value == old(next) && next == old(next) + 1
      ensures req.Some? ==> (req.value in onWire <==> req.value in handedBack)
      ensures req.Some? ==> OnlyThisChanged(req.value, false)
      ensures req.Some? ==> forall s: nat :: Outstanding(s) <==> old(Outstanding(s)) || s == req.value
    {
      if next - oldest >= windowSize {
        return None;
      }
      var seqno := next;
      next := next + 1;
      assert table[SlotOf(seqno)].Free? by {
        if table[SlotOf(seqno)].Live? {
          SlotsDiffer(table[SlotOf(seqno)].seqno, seqno);
        }
      }
      table[SlotOf(seqno)] := Live(seqno, false);
      return Some(seqno);
    }

    /** SubmitServerRequest put the request on the wire. */
    method MarkSent(seqno: nat)
      requires Valid() && Outstanding(seqno)
      modifies this`onWire, table
      ensures Valid() && onWire == old(onWire) + {seqno} && OnlyThisChanged(seqno, true)
      ensures forall s: nat :: Outstanding(s) <==> old(Outstanding(s))
    {
      table[SlotOf(seqno)] := Live(seqno, true);
      onWire := onWire + {seqno};
    }

    /** The scheduler saw the write time out, and cleared the flag. The write may still get through. */
    method WriteTimedOut(seqno: nat)
      requires Valid() && Outstanding(seqno)
      modifies this`timedOut, table
      ensures Valid() && timedOut == old(timedOut) + {seqno}
      ensures forall s: nat :: Outstanding(s) <==> old(Outstanding(s))
      ensures OnlyThisChanged(seqno, false)
    {
      table[SlotOf(seqno)] := Live(seqno, false);
      timedOut := timedOut + {seqno};
    }

    /** ReleaseSequenceNum: the number of a request that was never sent is used again at once, and the window
        then starts at the oldest request that is still outstanding. */
    method ReleaseSequenceNum(seqno: nat)
      requires Valid() && Outstanding(seqno)
      modifies this`oldest, this`next, this`handedBack, table
      ensures Valid()
      ensures forall s: nat :: Outstanding(s) <==> old(Outstanding(s)) && s != seqno
      ensures next == if !old(table[SlotOf(seqno)].sent) && seqno + 1 == old(next) then seqno else old(next)
      ensures handedBack == old(handedBack) + if next < old(next) && seqno in onWire then {seqno} else {}
      ensures old(oldest) <= oldest && forall s: nat | old(oldest) <= s < oldest :: !Outstanding(s)
      ensures oldest == next || Outstanding(oldest)
      ensures forall i | 0 <= i < table.Length && i != SlotOf(seqno) :: table[i] == old(table[i])
    {
      var sent := table[SlotOf(seqno)].sent;
      FreeSlot(seqno);
      if !sent && seqno + 1 == next {
        next := next - 1;
        if seqno in onWire {
          handedBack := handedBack + {seqno};
        }
      }
      AdvanceOldest();
    }

    method FreeSlot(seqno: nat)
      requires Valid() && Outstanding(seqno)
      modifies table
      ensures Slotted() && Traced()
      ensures forall s: nat :: Outstanding(s) <==> old(Outstanding(s)) && s != seqno
      ensures !old(table[SlotOf(seqno)].sent) && seqno in onWire ==> seqno in timedOut
      ensures forall i | 0 <= i < table.Length && i != SlotOf(seqno) :: table[i] == old(table[i])
    {
      table[SlotOf(seqno)] := Free;
    }

    /** The window starts at the oldest request that is outstanding, or is empty. */
    method AdvanceOldest()
      requires Slotted() && windowSize <= BARF_WINDOW_SIZE && oldest <= next <= oldest + windowSize && Traced()
      modifies this`oldest
      ensures Valid() && old(oldest) <= oldest
      ensures forall s: nat | old(oldest) <= s < oldest :: !Outstanding(s)
      ensures oldest == next || Outstanding(oldest)
    {
      var first := oldest;
      while first < next
        invariant oldest <= first <= next
        invariant forall s | oldest <= s < first :: table[SlotOf(s)].Free?
      {
        if table[SlotOf(first)].Live? {
          break;
        } else {
          first := first + 1;
        }
      }
      oldest := first;
    }

    /** The lookup at the head of ProcessReply. A 16-bit number finds the one outstanding request it is the
        number of, or nothing if there is none. */
    method LookUp(field: nat) returns (req: Option<nat>)
      requires Valid() && field < SEQUENCE_FIELD
      ensures req.Some? ==> Outstanding(req.value) && req.value % SEQUENCE_FIELD == field
      ensures forall s: nat | Outstanding(s) && s % SEQUENCE_FIELD == field :: req == Some(s)
    {
      var slot := table[SlotOf(field)];
      forall s: nat | s % SEQUENCE_FIELD == field ensures SlotOf(s) == SlotOf(field) {
        SameSlot(s, field);
      }
      if slot.Free? || slot.seqno % SEQUENCE_FIELD != field {
        return None;
      }
      return Some(slot.seqno);
    }

    /** RF_START: the server reports its own, possibly smaller, window. The window stays consistent exactly if no
        more numbers are in use than the server allows. */
    method Started(reported: nat)
      requires Valid()
      modifies this`windowSize
      ensures windowSize <= reported && windowSize <= old(windowSize)
      ensures windowSize == reported || windowSize == old(windowSize)
      ensures Valid() <==> next - oldest <= reported
    {
      if windowSize > reported {
        windowSize := reported;
      }
    }
  }

  method SendAndTimeOut(d: BarfDisk) returns (seqno: nat)
    requires d.Valid() && d.next - d.oldest < d.windowSize
    modifies d, d.table
    ensures d.Valid() && seqno == old(d.next) && d.next == seqno + 1 && seqno in d.onWire
    ensures d.Outstanding(seqno) && !d.table[SlotOf(seqno)].sent
    ensures d.oldest == old(d.oldest) && d.windowSize == old(d.windowSize)
  {
    var req := d.GetServerRequest();
    seqno := req.value;
    d.MarkSent(seqno);
    d.WriteTimedOut(seqno);
  }

  /** Such a number can come at once: a request is sent, its write times out, and it is answered after all. The next
      request gets the number that is still on the wire, so a repeated answer to the first one is taken for its own. */
  method ReuseAfterTimeOut(d: BarfDisk) returns (first: nat, again: nat, late: Option<nat>)
    requires d.Valid() && d.next - d.oldest < d.windowSize
    modifies d, d.table
    ensures d.Valid() && again == first == old(d.next) && again in d.onWire && d.Outstanding(again)
    ensures late == Some(again)
  {
    first := SendAndTimeOut(d);
    d.ReleaseSequenceNum(first);
    var req := d.GetServerRequest();
    again := req.value;
    late := d.LookUp(first % SEQUENCE_FIELD);
  }

  /** RF_START is only sent when the filesystem is mounted, as the first request of all: the window then stays
      consistent for every report but that of no window at all. */
  method StartAtMount(reported: nat) returns (d: BarfDisk)
    ensures fresh(d) && d.next == d.oldest + 1 && d.table.Length == BARF_WINDOW_SIZE && d.Outstanding(0)
    ensures d.windowSize == if reported < BARF_WINDOW_SIZE then reported else BARF_WINDOW_SIZE
    ensures d.Valid() <==> 0 < reported
  {
    d := new BarfDisk();
    var req := d.GetServerRequest();
    d.MarkSent(req.value);
    d.Started(reported);
  }

  lemma SameSlot(s: nat, field: nat)
    requires s % SEQUENCE_FIELD == field
    ensures SlotOf(s) == SlotOf(field)
  {
    assert s == SEQUENCE_FIELD * (s / SEQUENCE_FIELD) + field;
  }

  // ---------------------------------------------------------------- the timeout estimator

  /** The scaled average is kept times 8, the scaled variance times 4. */
  datatype TimeOutInfo = TimeOutInfo(scaledAvg: int, scaledVariance: int, timeOut: int)

  /** UpdateTimeOut; `>>` on a non-negative number halves and rounds down. */
  method UpdateTimeOut(toi: TimeOutInfo, delay: int) returns (toi': TimeOutInfo)
    requires 0 <= toi.scaledAvg && 0 <= toi.scaledVariance && 0 <= delay
    ensures 0 <= toi'.scaledAvg && 0 <= toi'.scaledVariance
    ensures delay <= toi'.timeOut
    ensures Between(toi.scaledAvg / 8, toi'.scaledAvg / 8, delay)
    ensures Between(toi.scaledVariance / 4, toi'.scaledVariance / 4, Magnitude(Error(toi, delay)))
    ensures toi'.timeOut - toi'.scaledAvg / 8 >= Magnitude(Error(toi, delay))
  {
    var error := delay - toi.scaledAvg / 8;
    var avg := toi.scaledAvg + error;
    if error < 0 {
      error := -error;
    }
    error := error - toi.scaledVariance / 4;
    var variance := toi.scaledVariance + error;
    toi' := TimeOutInfo(avg, variance, avg / 8 + variance);
  }

  /** The new estimate lies between the old one and what was seen: it never overshoots. */
  predicate Between(was: int, now: int, seen: int) {
    was <= now <= seen || seen <= now <= was
  }

  /** How far an observed delay is from the expected one. */
  function Error(toi: TimeOutInfo, delay: int): int { delay - toi.scaledAvg / 8 }

  function Magnitude(n: int): int { if n < 0 then -n else n }
}
