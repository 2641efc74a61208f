/**
  The message-level protocol client (usbtemp.c lines 338-496): one method per
  `usb_message_*` function, each issuing one vendor control transfer on a
  `Pipe` and decoding the reply, and the rescan wait loops of lines 102-103 and
  248-252.

  The transfer itself is an oracle: `Pipe.Control` may return any negative
  status, or any buffer of the requested length. The pipe keeps a log of the
  requests it carried and the transfers they produced, and the contracts below
  say what each message returns in terms of the logged transfer.
 */
module Protocol {
  import opened Wrappers
  import opened Wire
  import opened Temperature

  function Last<T>(s: seq<T>): T
    requires s != []
  {
    s[|s| - 1]
  }

  /** The default control pipe of the attached device. */
  class Pipe {
    /** Every control transfer so far, oldest first. */
    var log: seq<Exchange>

    ghost predicate Valid()
      reads this
    {
      forall k :: 0 <= k < |log| ==> Delivered(log[k].setup, log[k].reply)
    }

    constructor ()
      ensures Valid() && log == []
    {
      log := [];
    }

    /** usb_control_msg on the receive pipe: the device answers however it likes. */
    method Control(setup: Setup) returns (t: Transfer)
      requires Valid()
      modifies this
      ensures Valid()
      ensures Delivered(setup, t)
      ensures log == old(log) + [Exchange(setup, t)]
    {
      assert Delivered(setup, Failed(-1));
      t :| Delivered(setup, t);
      log := log + [Exchange(setup, t)];
    }
  }

  /** `after` is `before` plus one transfer for `s`. */
  ghost predicate Issued(before: seq<Exchange>, after: seq<Exchange>, s: Setup) {
    |after| == |before| + 1 && after[..|before|] == before && after[|before|].setup == s
  }

  // ---------------------------------------------------------------------------
  // Decoding the replies

  /** What usb_message_short returns for a transfer: `supported_probes`, or 255 on error. */
  function ShortReply(t: Transfer): (r: byte)
    requires Delivered(ShortQuery, t)
    ensures t.Received? ==> r == t.buffer[6]
    ensures t.Failed? ==> r == 255
  {
    if t.Failed? then NO_VALUE else DecodeShortStatus(t.buffer).supportedProbes
  }

  /** What usb_message_rescan_status returns for a transfer. */
  function RescanStatus(t: Transfer): (r: int)
    requires Delivered(RescanStatusQuery, t)
    ensures r == 0 || r == 1
    ensures r == 1 <==> t.Received? && t.buffer[0] == 23
  {
    if t.Received? && t.buffer[0] == RESCAN_DONE then 1 else 0
  }

  /** `data[i].flags`. */
  function Flags(buf: seq<byte>, i: nat): byte
    requires PROBE_STATUS_SIZE * (i + 1) <= |buf|
  {
    Record(buf, i).flags
  }

  /** `print_temp(data[i].temperature[0], data[i].temperature[1])`. */
  function SampleOf(buf: seq<byte>, i: nat): Temp
    requires PROBE_STATUS_SIZE * (i + 1) <= |buf|
  {
    PrintTemp(Record(buf, i).tempLow, Record(buf, i).tempHigh)
  }

  /** The number of populated records among the first `n`. */
  function CountPopulated(buf: seq<byte>, n: nat): (c: nat)
    requires PROBE_STATUS_SIZE * n <= |buf|
    ensures c <= n
  {
    if n == 0 then 0
    else CountPopulated(buf, n - 1) + (if Flags(buf, n - 1) == POPULATED then 1 else 0)
  }

  /** The indices of the populated records among the first `n`, in order: the
      physical slot behind each probe ordinal. */
  function PopulatedSlots(buf: seq<byte>, n: nat): (slots: seq<nat>)
    requires PROBE_STATUS_SIZE * n <= |buf|
    ensures forall k :: 0 <= k < |slots| ==> slots[k] < n
  {
    if n == 0 then []
    else PopulatedSlots(buf, n - 1) + (if Flags(buf, n - 1) == POPULATED then [n - 1] else [])
  }

  /** What usb_message_long leaves in `*storage`. */
  datatype Reading = Untouched | Stored(temp: Temp) | OutOfBounds

  /** The read mode of usb_message_long as written: it decodes `data[type]`, whatever its
      flags; an index outside the `possible` records reads past the buffer. */
  function ReadAsWritten(buf: seq<byte>, possible: nat, kind: int): (r: Reading)
    requires PROBE_STATUS_SIZE * possible <= |buf|
    ensures r.Stored? <==> 0 <= kind < possible
    ensures r.Stored? ==> r.temp == PrintTemp(buf[PROBE_STATUS_SIZE * kind + 8], buf[PROBE_STATUS_SIZE * kind + 9])
  {
    if 0 <= kind < possible then Stored(SampleOf(buf, kind)) else OutOfBounds
  }

  /** The read the loop of usb_message_long searches for: the `ordinal`-th populated
      record, as probe ordinals are handed out. */
  function ReadOrdinal(buf: seq<byte>, possible: nat, ordinal: nat): Reading
    requires PROBE_STATUS_SIZE * possible <= |buf|
  {
    var slots := PopulatedSlots(buf, possible);
    if ordinal < |slots| then Stored(SampleOf(buf, slots[ordinal])) else Untouched
  }

  datatype LongResult = LongResult(ret: byte, reading: Reading)

  /** What usb_message_long returns and stores for a transfer: the number of populated
      records when `type == -1`, otherwise 255 and the read of `data[type]`; 255 and
      nothing stored when the transfer failed. */
  function LongOutcome(t: Transfer, possible: byte, kind: int): (r: LongResult)
    requires Delivered(LongQuery(possible), t)
    ensures t.Failed? ==> r == LongResult(255, Untouched)
    ensures kind != -1 ==> r.ret == 255
    ensures kind == -1 ==> r.reading == Untouched
    ensures kind == -1 && t.Received? ==> r.ret <= possible && r.ret as int == CountPopulated(t.buffer, possible as int)
  {
    if t.Failed? then LongResult(NO_VALUE, Untouched)
    else if kind == -1 then LongResult(CountPopulated(t.buffer, possible as int) as byte, Untouched)
    else LongResult(NO_VALUE, ReadAsWritten(t.buffer, possible as int, kind))
  }

  /** The probe count the discovery code takes from a long-status transfer. */
  function LongCount(t: Transfer, possible: byte): byte
    requires Delivered(LongQuery(possible), t)
  {
    LongOutcome(t, possible, -1).ret
  }

  // ---------------------------------------------------------------------------
  // Properties of the decoding

  /** Each populated slot has as many populated slots before it as its position in the
      list: ordinal k is the slot with exactly k populated slots in front. */
  lemma {:induction false} PopulatedSlotsRank(buf: seq<byte>, n: nat, k: nat)
    requires PROBE_STATUS_SIZE * n <= |buf|
    requires k < |PopulatedSlots(buf, n)|
    ensures |PopulatedSlots(buf, n)| == CountPopulated(buf, n)
    ensures var s := PopulatedSlots(buf, n)[k];
            Flags(buf, s) == POPULATED && CountPopulated(buf, s) == k
  {
    PopulatedSlotsLength(buf, n);
    if n > 0 {
      PopulatedSlotsLength(buf, n - 1);
      if k < |PopulatedSlots(buf, n - 1)| {
        PopulatedSlotsRank(buf, n - 1, k);
      }
    }
  }

  lemma {:induction false} PopulatedSlotsLength(buf: seq<byte>, n: nat)
    requires PROBE_STATUS_SIZE * n <= |buf|
    ensures |PopulatedSlots(buf, n)| == CountPopulated(buf, n)
  {
    if n > 0 {
      PopulatedSlotsLength(buf, n - 1);
    }
  }

  /** Every populated slot among the first `n` is listed. */
  lemma {:induction false} PopulatedSlotsComplete(buf: seq<byte>, n: nat, i: nat)
    requires PROBE_STATUS_SIZE * n <= |buf|
    requires i < n && Flags(buf, i) == POPULATED
    ensures i in PopulatedSlots(buf, n)
  {
    if i < n - 1 {
      PopulatedSlotsComplete(buf, n - 1, i);
    }
  }

  /** The corrected read finds a value exactly for the ordinals below the probe count,
      and the slot it reads is populated with `ordinal` populated slots before it. */
  lemma ReadOrdinalReadsNthPopulated(buf: seq<byte>, possible: nat, ordinal: nat)
    requires PROBE_STATUS_SIZE * possible <= |buf|
    ensures ReadOrdinal(buf, possible, ordinal).Stored? <==> ordinal < CountPopulated(buf, possible)
    ensures ReadOrdinal(buf, possible, ordinal).Stored? ==>
              exists s :: 0 <= s < possible && Flags(buf, s) == POPULATED && CountPopulated(buf, s) == ordinal
                          && ReadOrdinal(buf, possible, ordinal) == Stored(SampleOf(buf, s))
  {
    PopulatedSlotsLength(buf, possible);
    if ordinal < CountPopulated(buf, possible) {
      PopulatedSlotsRank(buf, possible, ordinal);
    }
  }

  // ---------------------------------------------------------------------------
  // The loops of usb_message_long

  /** The counting loop of usb_message_long (lines 361-368). */
  method CountFlags(buf: seq<byte>, possible: byte) returns (count: byte)
    requires |buf| == PROBE_STATUS_SIZE * possible as int
    ensures count as int == CountPopulated(buf, possible as int)
    ensures count <= possible
  {
    count := 0;
    for i := 0 to possible as int
      invariant count as int == CountPopulated(buf, i)
    {
      if Flags(buf, i) == POPULATED {
        count := U8(count as int + 1);
      }
    }
  }

  /** The read branch of usb_message_long (lines 372-383). The search loop stores
      `data[type]` when it meets the type-th populated slot, and line 383 then stores
      `data[type]` again unconditionally, so the loop never decides the outcome. */
  method ReadOne(buf: seq<byte>, possible: byte, kind: int) returns (reading: Reading)
    requires |buf| == PROBE_STATUS_SIZE * possible as int
    ensures reading == ReadAsWritten(buf, possible as int, kind)
  {
    reading := Untouched;
    var found := 0;
    // The loop is kept because the source has it: `found` stops at `kind`, and the
    // store it makes is overwritten below.
    for i := 0 to possible as int
      invariant found == if 0 <= kind < CountPopulated(buf, i) then kind else CountPopulated(buf, i)
      invariant reading == if 0 <= kind < CountPopulated(buf, i) then Stored(SampleOf(buf, kind)) else Untouched
    {
      if Flags(buf, i) == POPULATED {
        if found == kind {
          reading := Stored(SampleOf(buf, kind));
        } else {
          found := found + 1;
        }
      }
    }
    reading := if 0 <= kind < possible as int then Stored(SampleOf(buf, kind)) else OutOfBounds;
  }

  /** The read branch with the search loop deciding the outcome: the record stored is
      the one met when `found` reaches `kind`, and nothing is stored when fewer than
      `kind + 1` records are populated. */
  method ReadNth(buf: seq<byte>, possible: byte, kind: int) returns (reading: Reading)
    requires |buf| == PROBE_STATUS_SIZE * possible as int
    ensures kind >= 0 ==> reading == ReadOrdinal(buf, possible as int, kind)
    ensures kind < 0 ==> reading == Untouched
  {
    reading := Untouched;
    var found := 0;
    for i := 0 to possible as int
      invariant found == CountPopulated(buf, i)
      invariant kind >= 0 ==> reading == ReadOrdinal(buf, i, kind)
      invariant kind < 0 ==> reading == Untouched
    {
      PopulatedSlotsLength(buf, i);
      if Flags(buf, i) == POPULATED {
        if found == kind {
          reading := Stored(SampleOf(buf, i));
        }
        found := found + 1;
      }
    }
  }

  /** Two records, only the second populated, with different samples: the read as written
      shows the empty first record for ordinal 0, the corrected read the populated one. */
  lemma ReadAsWrittenIgnoresFlags()
    ensures var empty := ProbeStatus([0, 0, 0, 0, 0, 0], 0, 0x00, 0x00, 0x00, 0, [0, 0]);
            var probe := ProbeStatus([0, 0, 0, 0, 0, 0], 0, POPULATED, 0x00, 0x01, 0, [0, 0]);
            var buf := EncodeProbeStatus(empty) + EncodeProbeStatus(probe);
            && |buf| == PROBE_STATUS_SIZE * 2
            && ReadAsWritten(buf, 2, 0) == Stored(Temp(0, 0))
            && ReadOrdinal(buf, 2, 0) == Stored(Temp(16, 0))
  {
    var empty := ProbeStatus([0, 0, 0, 0, 0, 0], 0, 0x00, 0x00, 0x00, 0, [0, 0]);
    var probe := ProbeStatus([0, 0, 0, 0, 0, 0], 0, POPULATED, 0x00, 0x01, 0, [0, 0]);
    var buf := EncodeProbeStatus(empty) + EncodeProbeStatus(probe);
    TwoRecords(empty, probe);
    assert Flags(buf, 0) != POPULATED && Flags(buf, 1) == POPULATED;
    assert PopulatedSlots(buf, 1) == [];
    assert PopulatedSlots(buf, 2) == [1];
    assert SampleOf(buf, 0) == PrintTemp(0x00, 0x00) == Temp(0, 0);
    RawTwoFiftySix();
  }

  lemma TwoRecords(a: ProbeStatus, b: ProbeStatus)
    ensures var buf := EncodeProbeStatus(a) + EncodeProbeStatus(b);
            |buf| == PROBE_STATUS_SIZE * 2 && Record(buf, 0) == a && Record(buf, 1) == b
  {
    var buf := EncodeProbeStatus(a) + EncodeProbeStatus(b);
    assert buf[0..16] == EncodeProbeStatus(a);
    assert buf[16..32] == EncodeProbeStatus(b);
    ProbeStatusRoundTrip(a);
    ProbeStatusRoundTrip(b);
  }

  // ---------------------------------------------------------------------------
  // The messages. `allocOk` is false when the kmalloc of the reply buffer fails.

  /** usb_message_short (lines 390-416). */
  method MessageShort(pipe: Pipe, allocOk: bool) returns (r: byte)
    requires pipe.Valid()
    modifies pipe
    ensures pipe.Valid()
    ensures !allocOk ==> r == NO_VALUE && pipe.log == old(pipe.log)
    ensures allocOk ==> Issued(old(pipe.log), pipe.log, ShortQuery) && r == ShortReply(Last(pipe.log).reply)
  {
    if !allocOk {
      return NO_VALUE;
    }
    var t := pipe.Control(ShortQuery);
    r := NO_VALUE;
    if t.Received? {
      r := DecodeShortStatus(t.buffer).supportedProbes;
    }
  }

  /** usb_message_long (lines 338-388): `kind` is its `type` argument. */
  method MessageLong(pipe: Pipe, allocOk: bool, possible: byte, kind: int) returns (r: byte, reading: Reading)
    requires pipe.Valid()
    modifies pipe
    ensures pipe.Valid()
    ensures !allocOk ==> r == NO_VALUE && reading == Untouched && pipe.log == old(pipe.log)
    ensures allocOk ==> Issued(old(pipe.log), pipe.log, LongQuery(possible))
                        && LongResult(r, reading) == LongOutcome(Last(pipe.log).reply, possible, kind)
  {
    if !allocOk {
      return NO_VALUE, Untouched;
    }
    var t := pipe.Control(LongQuery(possible));
    r, reading := NO_VALUE, Untouched;
    if t.Received? {
      if kind == -1 {
        r := CountFlags(t.buffer, possible);
      } else {
        reading := ReadOne(t.buffer, possible, kind);
      }
    }
  }

  /** usb_message_reset (lines 418-439): the reply is ignored. */
  method MessageReset(pipe: Pipe, allocOk: bool)
    requires pipe.Valid()
    modifies pipe
    ensures pipe.Valid()
    ensures !allocOk ==> pipe.log == old(pipe.log)
    ensures allocOk ==> Issued(old(pipe.log), pipe.log, ResetCommand)
  {
    if allocOk {
      var _ := pipe.Control(ResetCommand);
    }
  }

  /** usb_message_rescan (lines 442-466): the answer is only logged. */
  method MessageRescan(pipe: Pipe, allocOk: bool)
    requires pipe.Valid()
    modifies pipe
    ensures pipe.Valid()
    ensures !allocOk ==> pipe.log == old(pipe.log)
    ensures allocOk ==> Issued(old(pipe.log), pipe.log, RescanTrigger)
  {
    if allocOk {
      var _ := pipe.Control(RescanTrigger);
    }
  }

  /** usb_message_rescan_status (lines 469-496): 1 when the device answers 23, -1 when
      the buffer cannot be allocated, otherwise 0. */
  method MessageRescanStatus(pipe: Pipe, allocOk: bool) returns (r: int)
    requires pipe.Valid()
    modifies pipe
    ensures pipe.Valid()
    ensures !allocOk ==> r == -1 && pipe.log == old(pipe.log)
    ensures allocOk ==> Issued(old(pipe.log), pipe.log, RescanStatusQuery) && r == RescanStatus(Last(pipe.log).reply)
  {
    if !allocOk {
      return -1;
    }
    var t := pipe.Control(RescanStatusQuery);
    r := 0;
    if t.Received? && t.buffer[0] == RESCAN_DONE {
      r := 1;
    }
  }

  // ---------------------------------------------------------------------------
  // Waiting for the rescan to finish

  ghost predicate IsPoll(e: Exchange) {
    e.setup == RescanStatusQuery && Delivered(RescanStatusQuery, e.reply)
  }

  /** Every transfer is a rescan-status poll and none reported completion. */
  ghost predicate NoneDone(polls: seq<Exchange>) {
    forall k :: 0 <= k < |polls| ==> IsPoll(polls[k]) && RescanStatus(polls[k].reply) != 1
  }

  /** A run of polls that the wait loop leaves after: only the last reported completion. */
  ghost predicate DoneAtLast(polls: seq<Exchange>) {
    polls != [] && NoneDone(polls[..|polls| - 1]) && IsPoll(Last(polls)) && RescanStatus(Last(polls).reply) == 1
  }

  /** `while (usb_message_rescan_status(dev) != 1)`: the driver polls without bound; the model
      follows at most `maxPolls` polls and reports `done == false` where the driver would go
      on polling. The 250 ms sleep of add_new_probes is timing only. */
  method AwaitRescan(pipe: Pipe, maxPolls: nat) returns (done: bool)
    requires pipe.Valid()
    modifies pipe
    ensures pipe.Valid()
    ensures |old(pipe.log)| <= |pipe.log| && pipe.log[..|old(pipe.log)|] == old(pipe.log)
    ensures done ==> DoneAtLast(pipe.log[|old(pipe.log)|..])
    ensures !done ==> NoneDone(pipe.log[|old(pipe.log)|..]) && |pipe.log| == |old(pipe.log)| + maxPolls
  {
    ghost var start := pipe.log;
    done := false;
    var polls := 0;
    while !done && polls < maxPolls
      invariant pipe.Valid()
      invariant polls <= maxPolls
      invariant |pipe.log| == |start| + polls && pipe.log[..|start|] == start
      invariant !done ==> NoneDone(pipe.log[|start|..])
      invariant done ==> DoneAtLast(pipe.log[|start|..])
    {
      ghost var before := pipe.log;
      var status := MessageRescanStatus(pipe, true);
      assert pipe.log == before + [Last(pipe.log)];
      assert pipe.log[|start|..] == before[|start|..] + [Last(pipe.log)];
      assert pipe.log[|start|..][..|pipe.log[|start|..]| - 1] == before[|start|..];
      done := status == 1;
      polls := polls + 1;
    }
  }

  /** The number of polls the wait loop makes on a run of rescan-status replies, or None
      when none of them reports completion. */
  function PollsUntilDone(replies: seq<Transfer>): Option<nat>
    requires forall k :: 0 <= k < |replies| ==> Delivered(RescanStatusQuery, replies[k])
  {
    if replies == [] then None
    else if RescanStatus(replies[0]) == 1 then Some(1)
    else match PollsUntilDone(replies[1..])
      case None => None
      case Some(n) => Some(n + 1)
  }

  /** PollsUntilDone stops at the first reply that reports completion. */
  lemma {:induction false} PollsUntilDoneIsFirst(replies: seq<Transfer>, n: nat)
    requires forall k :: 0 <= k < |replies| ==> Delivered(RescanStatusQuery, replies[k])
    ensures PollsUntilDone(replies) == Some(n) <==>
              0 < n <= |replies| && RescanStatus(replies[n - 1]) == 1
              && forall k :: 0 <= k < n - 1 ==> RescanStatus(replies[k]) != 1
    decreases |replies|
  {
    if replies != [] && RescanStatus(replies[0]) != 1 && n > 0 {
      PollsUntilDoneIsFirst(replies[1..], n - 1);
      if 0 < n <= |replies| && RescanStatus(replies[n - 1]) == 1
         && forall k :: 0 <= k < n - 1 ==> RescanStatus(replies[k]) != 1 {
        if n == 1 {
          assert false;
        }
        assert forall k :: 0 <= k < n - 2 ==> RescanStatus(replies[1..][k]) != 1 by {
          forall k | 0 <= k < n - 2 ensures RescanStatus(replies[1..][k]) != 1 {
            assert replies[1..][k] == replies[k + 1];
          }
        }
      }
    }
  }

  /** The replies of a run of polls. */
  ghost function RepliesOf(polls: seq<Exchange>): (r: seq<Transfer>)
    ensures |r| == |polls| && forall k :: 0 <= k < |polls| ==> r[k] == polls[k].reply
  {
    seq(|polls|, k requires 0 <= k < |polls| => polls[k].reply)
  }

  /** The wait loop stops exactly where PollsUntilDone says: after a finished wait the
      run's length is the poll count, and a wait that ran out saw no completion. */
  lemma AwaitRescanMatchesPollsUntilDone(polls: seq<Exchange>)
    requires DoneAtLast(polls) || NoneDone(polls)
    ensures forall k :: 0 <= k < |polls| ==> Delivered(RescanStatusQuery, RepliesOf(polls)[k])
    ensures DoneAtLast(polls) ==> PollsUntilDone(RepliesOf(polls)) == Some(|polls|)
    ensures NoneDone(polls) ==> PollsUntilDone(RepliesOf(polls)) == None
  {
    var r := RepliesOf(polls);
    if DoneAtLast(polls) {
      assert forall k :: 0 <= k < |polls| - 1 ==> polls[..|polls| - 1][k] == polls[k];
      PollsUntilDoneIsFirst(r, |polls|);
    } else {
      if PollsUntilDone(r).Some? {
        var n := PollsUntilDone(r).value;
        PollsUntilDoneIsFirst(r, n);
      }
    }
  }

  // ---------------------------------------------------------------------------
  // The replies in terms of the records the device sends

  /** usb_message_short returns the `supported_probes` field of the record the device
      sent, and 255 when the transfer failed. */
  lemma ShortReplyReadsSupportedProbes(s: ShortStatus, e: ErrStatus)
    ensures ShortReply(Received(EncodeShortStatus(s))) == s.supportedProbes
    ensures ShortReply(Failed(e)) == 255
  {
    ShortStatusRoundTrip(s);
  }

  /** A long-status reply: the records laid end to end. */
  function EncodeRecords(rs: seq<ProbeStatus>): (b: seq<byte>)
    ensures |b| == PROBE_STATUS_SIZE * |rs|
  {
    if rs == [] then [] else EncodeRecords(rs[..|rs| - 1]) + EncodeProbeStatus(rs[|rs| - 1])
  }

  /** The number of records whose flags say populated. */
  function PopulatedCount(rs: seq<ProbeStatus>): (c: nat)
    ensures c <= |rs|
  {
    if rs == [] then 0
    else PopulatedCount(rs[..|rs| - 1]) + (if rs[|rs| - 1].flags == POPULATED then 1 else 0)
  }

  /** `data[i]` of an encoded reply is the i-th record sent. */
  lemma {:induction false} RecordOfEncoded(rs: seq<ProbeStatus>, i: nat)
    requires i < |rs|
    ensures Record(EncodeRecords(rs), i) == rs[i]
    decreases |rs|
  {
    var n := |rs| - 1;
    var front := EncodeRecords(rs[..n]);
    var b := EncodeRecords(rs);
    assert b == front + EncodeProbeStatus(rs[n]);
    if i == n {
      assert b[PROBE_STATUS_SIZE * i .. PROBE_STATUS_SIZE * (i + 1)] == EncodeProbeStatus(rs[n]);
      ProbeStatusRoundTrip(rs[n]);
    } else {
      assert b[PROBE_STATUS_SIZE * i .. PROBE_STATUS_SIZE * (i + 1)]
          == front[PROBE_STATUS_SIZE * i .. PROBE_STATUS_SIZE * (i + 1)];
      RecordOfEncoded(rs[..n], i);
    }
  }

  lemma {:induction false} CountPopulatedOfEncoded(rs: seq<ProbeStatus>, n: nat)
    requires n <= |rs|
    ensures CountPopulated(EncodeRecords(rs), n) == PopulatedCount(rs[..n])
  {
    if n > 0 {
      CountPopulatedOfEncoded(rs, n - 1);
      RecordOfEncoded(rs, n - 1);
      assert rs[..n][..n - 1] == rs[..n - 1];
    }
  }

  /** On a reply carrying `rs`, the count query returns the number of populated records. */
  lemma LongCountOfRecords(rs: seq<ProbeStatus>)
    requires |rs| < 256
    ensures LongCount(Received(EncodeRecords(rs)), |rs| as byte) as int == PopulatedCount(rs)
  {
    var buf := EncodeRecords(rs);
    CountPopulatedOfEncoded(rs, |rs|);
    assert rs[..|rs|] == rs;
    assert CountPopulated(buf, |rs|) == PopulatedCount(rs) < 256;
  }

  /** On a reply carrying `rs`, a read of `k` decodes the sample of record `k` whatever its
      flags, and any other `k` but -1 reads outside the reply. */
  lemma LongReadOfRecords(rs: seq<ProbeStatus>, k: int)
    requires |rs| < 256 && k != -1
    ensures 0 <= k < |rs| ==> LongOutcome(Received(EncodeRecords(rs)), |rs| as byte, k)
                                == LongResult(NO_VALUE, Stored(PrintTemp(rs[k].tempLow, rs[k].tempHigh)))
    ensures !(0 <= k < |rs|) ==> LongOutcome(Received(EncodeRecords(rs)), |rs| as byte, k) == LongResult(NO_VALUE, OutOfBounds)
  {
    if 0 <= k < |rs| {
      RecordOfEncoded(rs, k);
    }
  }
}
