/**
  The attribute-table lifecycle of one USB interface (usbtemp.c lines 97-331)
  and the attribute callbacks that drive it (lines 497-563).

  `struct usb_interface_data` becomes the fields `probeCount` and `table` of an
  `Interface`, with `bound` standing for `usb_get_intfdata(interface) != NULL`.
  The table holds `probe_count + 2` optional attributes: slot 0 is
  `temp_rescan`, slot 1 is `temp_restart`, slot `i >= 2` is the probe file
  `"probe" + (i - 2)`. The interface's sysfs directory is the set `exposed` of
  attribute names it currently shows. `device_create_file` fails when the name
  is already shown (sysfs refuses duplicates) or, for any other reason, when
  the slot index is in the caller-supplied set `rejected`; a failed slot is
  left empty. Allocation inside these routines is taken to succeed.
 */
module Lifecycle {
  import opened Wrappers
  import opened Wire
  import opened Temperature
  import opened Names
  import opened Protocol

  /** Which show/store pair an attribute carries. */
  datatype Kind = RescanControl | RestartControl | ProbeReading

  /** A `struct device_attribute` the driver allocated. `gen` is the table build that
      allocated it: attributes of different builds are different objects. */
  datatype Attribute = Attribute(gen: nat, name: string, kind: Kind)

  type Slot = Option<Attribute>

  function SlotNames(s: Slot): set<string> {
    if s.Some? then {s.value.name} else {}
  }

  /** The names of the attributes a table holds. */
  function NamesOf(slots: seq<Slot>): set<string> {
    set k | 0 <= k < |slots| && slots[k].Some? :: slots[k].value.name
  }

  /** The outcome of allocating an attribute and calling device_create_file on it. */
  function Created(name: string, kind: Kind, slot: nat, exposed: set<string>, rejected: set<nat>, gen: nat): Slot {
    if name in exposed || slot in rejected then None else Some(Attribute(gen, name, kind))
  }

  /** The slot of probe ordinal `j`, created against the directory `exposed`. */
  function ProbeSlot(j: nat, exposed: set<string>, rejected: set<nat>, gen: nat): Slot {
    Created(ProbeName(j), ProbeReading, j + 2, exposed, rejected, gen)
  }

  /** Slots 2 .. n+1 as one build creates them. */
  function ProbeSlots(n: nat, exposed: set<string>, rejected: set<nat>, gen: nat): (s: seq<Slot>)
    ensures |s| == n
  {
    seq(n, j requires 0 <= j < n => ProbeSlot(j, exposed, rejected, gen))
  }

  /** The table setup_sysfs installs for `n` probes. */
  function Installed(n: nat, exposed: set<string>, rejected: set<nat>, gen: nat): (t: seq<Slot>)
    ensures |t| == n + 2
    ensures t[0].Some? <==> RESCAN_NAME !in exposed && 0 !in rejected
    ensures t[1].Some? <==> RESTART_NAME !in exposed && 1 !in rejected
  {
    [Created(RESCAN_NAME, RescanControl, 0, exposed, rejected, gen),
     Created(RESTART_NAME, RestartControl, 1, exposed, rejected, gen)]
    + ProbeSlots(n, exposed, rejected, gen)
  }

  /** Every filled slot holds the attribute its index calls for. */
  ghost predicate WellNamed(table: seq<Slot>) {
    && |table| >= 2
    && (table[0].Some? ==> table[0].value.name == RESCAN_NAME && table[0].value.kind == RescanControl)
    && (table[1].Some? ==> table[1].value.name == RESTART_NAME && table[1].value.kind == RestartControl)
    && forall i :: 2 <= i < |table| && table[i].Some? ==>
         table[i].value.name == ProbeName(i - 2) && table[i].value.kind == ProbeReading
  }

  // ---------------------------------------------------------------------------
  // Facts about tables

  lemma NamesOfSnoc(s: seq<Slot>, x: Slot)
    ensures NamesOf(s + [x]) == NamesOf(s) + SlotNames(x)
  {
    var t := s + [x];
    forall nm | nm in NamesOf(t) ensures nm in NamesOf(s) + SlotNames(x) {
      var k :| 0 <= k < |t| && t[k].Some? && t[k].value.name == nm;
      if k < |s| { assert s[k] == t[k]; }
    }
    forall nm | nm in NamesOf(s) ensures nm in NamesOf(t) {
      var k :| 0 <= k < |s| && s[k].Some? && s[k].value.name == nm;
      assert t[k] == s[k];
    }
    if x.Some? {
      assert t[|s|] == x;
    }
  }

  lemma NamesOfSplit(t: seq<Slot>)
    requires |t| >= 2
    ensures NamesOf(t) == SlotNames(t[0]) + SlotNames(t[1]) + NamesOf(t[2..])
  {
    forall nm | nm in NamesOf(t) ensures nm in SlotNames(t[0]) + SlotNames(t[1]) + NamesOf(t[2..]) {
      var k :| 0 <= k < |t| && t[k].Some? && t[k].value.name == nm;
      if k >= 2 { assert t[2..][k - 2] == t[k]; }
    }
    forall nm | nm in NamesOf(t[2..]) ensures nm in NamesOf(t) {
      var k :| 0 <= k < |t[2..]| && t[2..][k].Some? && t[2..][k].value.name == nm;
      assert t[k + 2] == t[2..][k];
    }
    if t[0].Some? { assert t[0].value.name in NamesOf(t); }
    if t[1].Some? { assert t[1].value.name in NamesOf(t); }
  }

  /** The control names are never among a well-named table's probe names. */
  lemma ControlNotProbeNames(t: seq<Slot>)
    requires WellNamed(t)
    ensures RESCAN_NAME !in NamesOf(t[2..]) && RESTART_NAME !in NamesOf(t[2..])
  {
    forall k | 0 <= k < |t[2..]| && t[2..][k].Some?
      ensures t[2..][k].value.name != RESCAN_NAME && t[2..][k].value.name != RESTART_NAME
    {
      assert t[2..][k] == t[k + 2];
      ProbeNameNotControl(k);
    }
  }

  /** A well-named table never shows one name twice. */
  lemma {:induction false} WellNamedDistinct(t: seq<Slot>, i: nat, j: nat)
    requires WellNamed(t)
    requires i < j < |t| && t[i].Some? && t[j].Some?
    ensures t[i].value.name != t[j].value.name
  {
    if j >= 2 {
      ProbeNameNotControl(j - 2);
      if i >= 2 && t[i].value.name == t[j].value.name {
        ProbeNameInjective(i - 2, j - 2);
      }
    }
  }

  /** A build creates a probe file exactly when its name was free and its slot not
      rejected, and every name it creates was free. */
  lemma ProbeSlotsCreateFreeNames(n: nat, exposed: set<string>, rejected: set<nat>, gen: nat)
    ensures NamesOf(ProbeSlots(n, exposed, rejected, gen)) !! exposed
    ensures forall j :: 0 <= j < n ==>
              (ProbeName(j) in NamesOf(ProbeSlots(n, exposed, rejected, gen))
               <==> ProbeName(j) !in exposed && j + 2 !in rejected)
  {
    var s := ProbeSlots(n, exposed, rejected, gen);
    forall j | 0 <= j < n
      ensures ProbeName(j) in NamesOf(s) <==> ProbeName(j) !in exposed && j + 2 !in rejected
    {
      if ProbeName(j) in NamesOf(s) {
        var k :| 0 <= k < |s| && s[k].Some? && s[k].value.name == ProbeName(j);
        ProbeNameInjective(k, j);
      }
      if ProbeName(j) !in exposed && j + 2 !in rejected {
        assert s[j].Some?;
      }
    }
  }

  /** The table setup_sysfs installs is well named and has `n + 2` slots. */
  lemma InstalledWellNamed(n: nat, exposed: set<string>, rejected: set<nat>, gen: nat)
    ensures |Installed(n, exposed, rejected, gen)| == n + 2
    ensures WellNamed(Installed(n, exposed, rejected, gen))
  {
    var t := Installed(n, exposed, rejected, gen);
    forall i | 2 <= i < |t| && t[i].Some?
      ensures t[i].value.name == ProbeName(i - 2) && t[i].value.kind == ProbeReading
    {
      assert t[i] == ProbeSlot(i - 2, exposed, rejected, gen);
    }
  }

  /** A probe name not yet given to any slot below `i`. */
  lemma FreshProbeName(slots: seq<Slot>, i: nat)
    requires 2 <= i
    requires forall j :: 0 <= j < |slots| && slots[j].Some? ==> 2 <= j < i && slots[j].value.name == ProbeName(j - 2)
    ensures ProbeName(i - 2) !in NamesOf(slots)
  {
    if ProbeName(i - 2) in NamesOf(slots) {
      var k :| 0 <= k < |slots| && slots[k].Some? && slots[k].value.name == ProbeName(i - 2);
      ProbeNameInjective(k - 2, i - 2);
    }
  }

  lemma NamesOfUpdate(slots: seq<Slot>, i: nat, a: Attribute)
    requires i < |slots| && slots[i] == None
    ensures NamesOf(slots[i := Some(a)]) == NamesOf(slots) + {a.name}
  {
    var t := slots[i := Some(a)];
    assert t[i] == Some(a);
    forall nm | nm in NamesOf(t) ensures nm in NamesOf(slots) + {a.name} {
      var k :| 0 <= k < |t| && t[k].Some? && t[k].value.name == nm;
      if k != i { assert slots[k] == t[k]; }
    }
    forall nm | nm in NamesOf(slots) ensures nm in NamesOf(t) {
      var k :| 0 <= k < |slots| && slots[k].Some? && slots[k].value.name == nm;
      assert t[k] == slots[k];
    }
  }

  // ---------------------------------------------------------------------------
  // The transfers each discovery makes

  /** setup_sysfs: a short query, rescan-status polls until one reports completion, and a
      long query sized by the short reply whose count is `count`. */
  ghost predicate AttachDiscovery(run: seq<Exchange>, count: byte) {
    && |run| >= 3
    && run[0].setup == ShortQuery && Delivered(ShortQuery, run[0].reply)
    && DoneAtLast(run[1..|run| - 1])
    && var possible := ShortReply(run[0].reply);
       && Last(run).setup == LongQuery(possible) && Delivered(LongQuery(possible), Last(run).reply)
       && count == LongCount(Last(run).reply, possible)
  }

  /** add_new_probes: polls until one reports completion, then a short query and a long
      query sized by it whose count is `count`. */
  ghost predicate RescanDiscovery(run: seq<Exchange>, count: byte) {
    && |run| >= 3
    && DoneAtLast(run[..|run| - 2])
    && var short := run[|run| - 2];
       && short.setup == ShortQuery && Delivered(ShortQuery, short.reply)
       && var possible := ShortReply(short.reply);
          && Last(run).setup == LongQuery(possible) && Delivered(LongQuery(possible), Last(run).reply)
          && count == LongCount(Last(run).reply, possible)
  }

  /** What deactivate_sysfs as written leaves in the directory: line 226 removes slot 0's
      file a second time, through the attribute freed at line 222, where slot 1's is meant. */
  function ExposedAfterTeardownAsWritten(exposed: set<string>, table: seq<Slot>): set<string>
    requires |table| >= 2
  {
    var probesGone := exposed - NamesOf(table[2..]);
    var rescanGone := probesGone - SlotNames(table[0]);
    if table[1].Some? then rescanGone - SlotNames(table[0]) else rescanGone
  }

  /** The as-written teardown leaves `temp_restart` in the directory; removing every
      attribute of the table, as intended, does not. */
  lemma TeardownAsWrittenLeavesRestart(exposed: set<string>, table: seq<Slot>)
    requires WellNamed(table) && table[0].Some? && table[1].Some?
    requires RESTART_NAME in exposed
    ensures RESTART_NAME in ExposedAfterTeardownAsWritten(exposed, table)
    ensures RESTART_NAME !in exposed - NamesOf(table)
  {
    ControlNotProbeNames(table);
    NamesOfSplit(table);
  }

  // ---------------------------------------------------------------------------
  // The interface

  class Interface {
    /** The attribute names the interface's sysfs directory shows. */
    var exposed: set<string>
    /** usb_get_intfdata(interface) != NULL. */
    var bound: bool
    /** data->probe_count. */
    var probeCount: byte
    /** data->device_attributes. */
    var table: seq<Slot>
    /** The number of table builds so far. */
    var gen: nat

    ghost predicate Valid()
      reads this
    {
      bound ==> |table| == probeCount as int + 2 && WellNamed(table)
    }

    /** Every attribute the table holds is shown in the directory. */
    ghost predicate Synced()
      reads this
    {
      bound ==> NamesOf(table) <= exposed
    }

    /** An interface before temp_probe; `others` are the attributes its directory already has. */
    constructor (others: set<string>)
      ensures Valid() && Synced() && !bound
      ensures exposed == others && table == [] && gen == 0
    {
      exposed := others;
      bound := false;
      probeCount := 0;
      table := [];
      gen := 0;
    }

    /** Allocate an attribute and device_create_file it. */
    method CreateFile(name: string, kind: Kind, slot: nat, rejected: set<nat>, g: nat) returns (s: Slot)
      modifies this`exposed
      ensures s == Created(name, kind, slot, old(exposed), rejected, g)
      ensures exposed == old(exposed) + SlotNames(s)
    {
      if name in exposed || slot in rejected {
        s := None;
      } else {
        exposed := exposed + {name};
        s := Some(Attribute(g, name, kind));
      }
    }

    /** The probe-file loop shared by setup_sysfs (lines 115-165) and add_new_probes
        (lines 269-324): a fresh array of `n + 2` slots whose slots 2 .. n+1 are filled
        one by one; slots 0 and 1 are left for the caller. */
    method CreateProbeFiles(n: byte, rejected: set<nat>, g: nat) returns (slots: seq<Slot>)
      modifies this`exposed
      ensures |slots| == n as int + 2 && slots[0] == None && slots[1] == None
      ensures slots[2..] == ProbeSlots(n as int, old(exposed), rejected, g)
      ensures exposed == old(exposed) + NamesOf(slots[2..])
    {
      ghost var before := exposed;
      slots := seq(n as int + 2, _ => None);
      for i := 2 to n as int + 2
        invariant |slots| == n as int + 2 && slots[0] == None && slots[1] == None
        invariant forall j :: 2 <= j < i ==> slots[j] == ProbeSlot(j - 2, before, rejected, g)
        invariant forall j :: i <= j < |slots| ==> slots[j] == None
        invariant exposed == before + NamesOf(slots)
      {
        FreshProbeName(slots, i);
        var s := CreateFile(ProbeName(i - 2), ProbeReading, i, rejected, g);
        if s.Some? {
          NamesOfUpdate(slots, i, s.value);
        } else {
          assert slots[i := s] == slots;
        }
        slots := slots[i := s];
      }
      NamesOfSplit(slots);
    }

    /** The table-building half of setup_sysfs (lines 115-205): the probe files, then
        temp_rescan in slot 0 and temp_restart in slot 1, all of build `gen`. */
    method InstallTable(n: byte, rejected: set<nat>) returns (slots: seq<Slot>)
      modifies this`exposed
      ensures slots == Installed(n as int, old(exposed), rejected, gen)
      ensures WellNamed(slots)
      ensures exposed == old(exposed) + NamesOf(slots)
    {
      slots := CreateProbeFiles(n, rejected, gen);
      ProbeNameNotControlAll(slots[2..]);
      var rescan := CreateFile(RESCAN_NAME, RescanControl, 0, rejected, gen);
      var restart := CreateFile(RESTART_NAME, RestartControl, 1, rejected, gen);
      slots := slots[0 := rescan][1 := restart];
      assert slots == Installed(n as int, old(exposed), rejected, gen);
      InstalledWellNamed(n as int, old(exposed), rejected, gen);
      NamesOfSplit(slots);
    }

    /** setup_sysfs (lines 97-206), run from temp_probe: short query, wait for the rescan
        to finish (busy polling), long count query, then the probe files, temp_rescan and
        temp_restart, in that order. */
    method SetupSysfs(pipe: Pipe, rejected: set<nat>, maxPolls: nat) returns (stalled: bool)
      requires pipe.Valid() && Valid() && !bound
      modifies this, pipe
      ensures pipe.Valid() && Valid() && Synced()
      ensures |old(pipe.log)| <= |pipe.log| && pipe.log[..|old(pipe.log)|] == old(pipe.log)
      ensures stalled ==> !bound && exposed == old(exposed) && gen == old(gen)
      ensures stalled ==> var run := pipe.log[|old(pipe.log)|..];
                          |run| == maxPolls + 1 && run[0].setup == ShortQuery && NoneDone(run[1..])
      ensures !stalled ==> bound && gen == old(gen) + 1
                           && table == Installed(probeCount as int, old(exposed), rejected, gen)
                           && exposed == old(exposed) + NamesOf(table)
                           && AttachDiscovery(pipe.log[|old(pipe.log)|..], probeCount)
    {
      ghost var start := pipe.log;
      var possible := MessageShort(pipe, true);
      ghost var afterShort := pipe.log;
      var done := AwaitRescan(pipe, maxPolls);
      ghost var afterPolls := pipe.log;
      if !done {
        assert pipe.log[|start|..][1..] == afterPolls[|afterShort|..];
        return true;
      }
      var realProbes, _ := MessageLong(pipe, true, possible, -1);
      ghost var run := pipe.log[|start|..];
      assert run[0] == afterShort[|start|];
      assert run[1..|run| - 1] == afterPolls[|afterShort|..];
      gen := gen + 1;
      var slots := InstallTable(realProbes, rejected);
      probeCount, table, bound := realProbes, slots, true;
      stalled := false;
    }

    /** delete_old_probes (lines 233-243): removes the probe files. The slots keep their
        now-freed attributes; the table is replaced by add_new_probes. */
    method DeleteOldProbes()
      requires Valid() && bound
      modifies this`exposed
      ensures exposed == old(exposed) - NamesOf(table[2..])
    {
      for i := 2 to probeCount as int + 2
        invariant exposed == old(exposed) - NamesOf(table[2..i])
      {
        assert table[2..i + 1] == table[2..i] + [table[i]];
        NamesOfSnoc(table[2..i], table[i]);
        if table[i].Some? {
          exposed := exposed - {table[i].value.name};
        }
      }
      assert table[2..probeCount as int + 2] == table[2..];
    }

    /** add_new_probes (lines 245-331): wait for the rescan (polling every 250 ms), short
        query, long count query, new probe files in a new table that takes over the
        old slot 0 and slot 1 attributes unchanged. */
    method AddNewProbes(pipe: Pipe, rejected: set<nat>, maxPolls: nat) returns (stalled: bool)
      requires pipe.Valid() && Valid() && bound
      modifies this, pipe
      ensures pipe.Valid() && Valid() && bound
      ensures |old(pipe.log)| <= |pipe.log| && pipe.log[..|old(pipe.log)|] == old(pipe.log)
      ensures stalled ==> table == old(table) && probeCount == old(probeCount)
                          && exposed == old(exposed) && gen == old(gen)
                          && NoneDone(pipe.log[|old(pipe.log)|..]) && |pipe.log| == |old(pipe.log)| + maxPolls
      ensures !stalled ==> gen == old(gen) + 1
                           && table[0] == old(table)[0] && table[1] == old(table)[1]
                           && table[2..] == ProbeSlots(probeCount as int, old(exposed), rejected, gen)
                           && exposed == old(exposed) + NamesOf(table[2..])
                           && RescanDiscovery(pipe.log[|old(pipe.log)|..], probeCount)
    {
      ghost var start := pipe.log;
      var done := AwaitRescan(pipe, maxPolls);
      if !done {
        return true;
      }
      ghost var afterPolls := pipe.log;
      var possible := MessageShort(pipe, true);
      var realProbes, _ := MessageLong(pipe, true, possible, -1);
      ghost var run := pipe.log[|start|..];
      assert run[..|run| - 2] == afterPolls[|start|..];
      gen := gen + 1;
      var slots := CreateProbeFiles(realProbes, rejected, gen);
      slots := slots[0 := table[0]][1 := table[1]];
      assert slots[2..] == ProbeSlots(realProbes as int, old(exposed), rejected, gen);
      forall i | 2 <= i < |slots| && slots[i].Some?
        ensures slots[i].value.name == ProbeName(i - 2) && slots[i].value.kind == ProbeReading
      {
        assert slots[i] == slots[2..][i - 2];
      }
      probeCount, table := realProbes, slots;
      stalled := false;
    }

    /** store_rescan (lines 537-549): delete the probe files, trigger a rescan, add the new
        probe files. */
    method StoreRescan(pipe: Pipe, rejected: set<nat>, maxPolls: nat) returns (stalled: bool)
      requires pipe.Valid() && Valid() && bound
      modifies this, pipe
      ensures pipe.Valid() && Valid() && bound
      ensures |old(pipe.log)| < |pipe.log| && pipe.log[..|old(pipe.log)|] == old(pipe.log)
      ensures pipe.log[|old(pipe.log)|].setup == RescanTrigger
      ensures var kept := old(exposed) - NamesOf(old(table)[2..]);
              && (stalled ==> table == old(table) && exposed == kept)
              && (!stalled ==> table[..2] == old(table)[..2]
                               && table[2..] == ProbeSlots(probeCount as int, kept, rejected, gen)
                               && exposed == kept + NamesOf(table[2..])
                               && gen == old(gen) + 1
                               && RescanDiscovery(pipe.log[|old(pipe.log)| + 1..], probeCount))
      ensures !stalled ==> forall nm :: nm in NamesOf(old(table)[2..]) && nm in exposed ==> nm in NamesOf(table[2..])
      ensures old(Synced()) && !stalled ==> Synced()
    {
      ghost var oldTable := table;
      ghost var oldExposed := exposed;
      ghost var start := pipe.log;
      DeleteOldProbes();
      MessageRescan(pipe, true);
      ghost var afterTrigger := pipe.log;
      stalled := AddNewProbes(pipe, rejected, maxPolls);
      assert pipe.log[|start| + 1..] == pipe.log[|afterTrigger|..];
      if !stalled {
        assert table[..2] == oldTable[..2];
        if oldTable[0].Some? || oldTable[1].Some? {
          ControlNotProbeNames(oldTable);
        }
        NamesOfSplit(oldTable);
        NamesOfSplit(table);
      }
    }

    /** deactivate_sysfs (lines 208-231) as written, run from temp_disconnect. Line 226
        removes slot 0's file where slot 1's is meant. When slot 0 is empty but slot 1 is
        not, it hands a NULL attribute to device_remove_file, which dereferences it
        (`nullDeref`). When both are filled, the attribute it hands over was freed at
        line 222 (`useAfterFree`); the model reads it as still holding its name, as it does
        while nothing reuses that memory, so the second removal changes nothing. In every
        case temp_restart's file stays while its attribute is freed at line 227. */
    method DeactivateSysfsAsWritten() returns (nullDeref: bool, useAfterFree: bool)
      requires Valid() && bound
      modifies this
      ensures nullDeref <==> old(table)[0].None? && old(table)[1].Some?
      ensures useAfterFree <==> old(table)[0].Some? && old(table)[1].Some?
      ensures !nullDeref ==> !bound && exposed == ExposedAfterTeardownAsWritten(old(exposed), old(table))
    {
      useAfterFree := table[0].Some? && table[1].Some?;
      DeleteOldProbes();
      if table[0].Some? {
        exposed := exposed - {table[0].value.name};
      }
      if table[1].Some? {
        if table[0].None? {
          return true, false;
        }
        exposed := exposed - {table[0].value.name};
      }
      bound, probeCount, table := false, 0, [];
      nullDeref := false;
    }

    /** deactivate_sysfs with line 226 removing slot 1's own file: every attribute of the
        table leaves the directory. */
    method DeactivateSysfs()
      requires Valid() && bound
      modifies this
      ensures !bound && exposed == old(exposed) - NamesOf(old(table))
    {
      DeleteOldProbes();
      if table[0].Some? {
        exposed := exposed - {table[0].value.name};
      }
      if table[1].Some? {
        exposed := exposed - {table[1].value.name};
      }
      NamesOfSplit(table);
      bound, probeCount, table := false, 0, [];
    }
  }

  lemma ProbeNameNotControlAll(probes: seq<Slot>)
    requires forall j :: 0 <= j < |probes| && probes[j].Some? ==> probes[j].value.name == ProbeName(j)
    ensures RESCAN_NAME !in NamesOf(probes) && RESTART_NAME !in NamesOf(probes)
  {
    forall j | 0 <= j < |probes| && probes[j].Some?
      ensures probes[j].value.name != RESCAN_NAME && probes[j].value.name != RESTART_NAME
    {
      ProbeNameNotControl(j);
    }
  }

  // ---------------------------------------------------------------------------
  // The attribute callbacks that talk to the device

  /** `sysfs_emit(buf, "%d.%d\n", t.full, t.decimal)`. */
  function Render(t: Temp): (text: string)
    ensures |text| == |DecimalString(t.full as int)| + |DecimalString(t.decimal as int)| + 2
    ensures text[|text| - 1] == '\n'
    ensures text[..|DecimalString(t.full as int)|] == DecimalString(t.full as int)
    ensures text[|DecimalString(t.full as int)|] == '.'
  {
    DecimalString(t.full as int) + "." + DecimalString(t.decimal as int) + "\n"
  }

  /** C's conversion of a `long` to `int` (two's complement, 32 bits). */
  function ToInt32(x: int): (r: int)
    ensures -0x8000_0000 <= r < 0x8000_0000
    ensures (x - r) % 0x1_0000_0000 == 0
    ensures -0x8000_0000 <= x < 0x8000_0000 ==> r == x
  {
    var m := x % 0x1_0000_0000;
    if m >= 0x8000_0000 then m - 0x1_0000_0000 else m
  }

  /** For every probe file the driver creates, show asks usb_message_long for that file's
      own ordinal. */
  lemma ShowAsksForOwnOrdinal(k: nat)
    requires k < 255
    ensures |ProbeName(k)| >= |PROBE_PREFIX|
    ensures ProbeOrdinal(ProbeName(k)).Some? && ToInt32(ProbeOrdinal(ProbeName(k)).value) == k
  {
    ProbeNameRoundTrip(k);
  }

  /** show (lines 497-514), the read callback of a probe file: the ordinal comes from the
      file's name, then a short query and a long read of that ordinal; the text is
      "0.0\n" when nothing was stored. Where usb_message_long reads past its buffer the
      value shown is whatever lies there. */
  method Show(pipe: Pipe, name: string) returns (text: string)
    requires pipe.Valid() && |name| >= |PROBE_PREFIX|
    modifies pipe
    ensures pipe.Valid()
    ensures ProbeOrdinal(name).None? ==> text == "" && pipe.log == old(pipe.log)
    ensures ProbeOrdinal(name).Some? ==>
              var n := |old(pipe.log)|;
              && |pipe.log| == n + 2 && pipe.log[..n] == old(pipe.log)
              && pipe.log[n].setup == ShortQuery
              && var possible := ShortReply(pipe.log[n].reply);
                 && pipe.log[n + 1].setup == LongQuery(possible)
                 && var reading := LongOutcome(pipe.log[n + 1].reply, possible, ToInt32(ProbeOrdinal(name).value)).reading;
                    && (reading.Untouched? ==> text == Render(Temp(0, 0)))
                    && (reading.Stored? ==> text == Render(reading.temp))
  {
    var pos := ProbeOrdinal(name);
    if pos.None? {
      return "";
    }
    var probeCount := MessageShort(pipe, true);
    var _, reading := MessageLong(pipe, true, probeCount, ToInt32(pos.value));
    var t := Temp(0, 0);
    match reading {
      case Stored(v) => t := v;
      case Untouched =>
      case OutOfBounds => t :| true;
    }
    text := Render(t);
  }

  /** show_rescan (lines 521-535). */
  method ShowRescan(pipe: Pipe) returns (text: string)
    requires pipe.Valid()
    modifies pipe
    ensures pipe.Valid() && Issued(old(pipe.log), pipe.log, RescanStatusQuery)
    ensures text == "scan done\n" <==> RescanStatus(Last(pipe.log).reply) == 1
    ensures text != "scan done\n" ==> text == "scan not done\n"
  {
    var status := MessageRescanStatus(pipe, true);
    if status == 1 {
      text := "scan done\n";
    } else {
      text := "scan not done\n";
    }
  }

  /** store_restart (lines 556-563): ask the device to reset. */
  method StoreRestart(pipe: Pipe)
    requires pipe.Valid()
    modifies pipe
    ensures pipe.Valid() && Issued(old(pipe.log), pipe.log, ResetCommand)
  {
    MessageReset(pipe, true);
  }
}
