# usbtemp: a verified model of a USB multi-probe thermometer driver

`usbtemp.c` is a Linux USB driver for a thermometer with up to 255 probe slots.
When the device is attached, the driver asks it how many slots it has
(short status). It then waits until the device reports a finished probe scan,
reads every slot's record (long status), and creates one sysfs attribute file
per populated slot, named `probe0`, `probe1`, and so on. It also creates two
control files:

- `temp_rescan`: reading it asks whether a scan is done; writing it deletes the
  probe files, starts a rescan and creates the new probe files.
- `temp_restart`: writing it resets the device.

Reading a probe file queries the device again. The driver decodes that probe's
two-byte sample into a `full.decimal` pair and prints it.

The model has six modules:

- `Wire` (`wire.dfy`): bytes and C's `uint8_t` conversion, the setup packets
  of the five vendor requests, and the transfer outcome. It also has the packed
  `short_status` and `probe_status` records, with encode/decode round trips.
- `Temperature` (`temperature.dfy`): `print_temp`, exactly as written. This
  includes the logical `||` in place of a sign extension and the truncation of
  both results to `uint8_t`.
- `Names` (`names.dfy`): the `"probe" + "%d"` attribute names, and the
  `kstrtol` parse that `show` applies from offset 5.
- `Protocol` (`protocol.dfy`): the five `usb_message_*` functions on a `Pipe`
  class. The device's answers are an oracle: any negative status, or any
  buffer of the requested length. The pipe logs every exchange. This module
  also holds the counting and reading loops of `usb_message_long` and the
  loops that wait for a rescan.
- `Lifecycle` (`lifecycle.dfy`): the per-interface attribute table as a class
  `Interface`. The sysfs directory is a set of exposed names. The module covers
  `setup_sysfs`, `delete_old_probes`, `add_new_probes`, `deactivate_sysfs`,
  and the callbacks `show`, `show_rescan`, `store_rescan` and `store_restart`.
- `Wrappers` (`wrappers.dfy`): `Option`.

Two behaviours of the code shape the model:

- Probe ordinals. The count loop at usbtemp.c:361-368 numbers the probes by
  their rank among the populated slots, and the search loop at lines 373-382
  looks for the type-th populated slot. Line 383 then decodes `data[type]`
  anyway, so a probe file reads slot `type` whatever its flags. The model
  keeps this read as written (see Findings).
- Failed discovery. A failed long query returns 255, so the driver sets the
  probe count to 255 and installs a table of 257 slots. `SetupSysfs` and
  `AddNewProbes` do the same, because `LongCount` of a failed transfer is 255.

## Model

| member | source | states |
|---|---|---|
| Wire.LongQuery | usbtemp.c:343-350 | the long-status request asks for 16 bytes per possible probe, and wLength stays below 65536 for every `uint8_t` count |
| Wire.QueriesAreVendorIn | usbtemp.c:350-482 | every request the driver sends has bmRequestType 0xC0: device-to-host, vendor, device recipient |
| Wire.Le32RoundTrip | usbtemp.c:34 | a 32-bit timestamp survives a little-endian write and read |
| Wire.Le32BytesRoundTrip | usbtemp.c:34 | any 4 bytes survive a little-endian read and write |
| Wire.ShortStatusRoundTrip | usbtemp.c:40-46 | decoding an encoded `short_status` gives it back, and `supported_probes` sits at offset 6 |
| Wire.ShortStatusBytesRoundTrip | usbtemp.c:40-46 | every 8-byte reply is the encoding of the record decoded from it |
| Wire.ProbeStatusRoundTrip | usbtemp.c:30-37 | decoding an encoded `probe_status` gives it back; flags sit at offset 7 and the temperature bytes at offsets 8 and 9 |
| Wire.DecodeShortStatus | usbtemp.c:40-46 | `supported_probes` of a decoded reply is byte 6 |
| Wire.DecodeProbeStatus | usbtemp.c:30-37 | a decoded record's flags are byte 7 and its temperature bytes are 8 and 9 |
| Wire.Record | usbtemp.c:362-364 | `data[i]` takes its flags and temperature from bytes 16i+7, 16i+8 and 16i+9 of the reply |
| Wire.ProbeStatusBytesRoundTrip | usbtemp.c:30-37 | every 16-byte record is the encoding of the record decoded from it |
| Temperature.PrintTemp | usbtemp.c:85-95 | no contract of its own; it is the code as written, and its closed forms are proved by SignSetReadsZero, SignClearFull and SignClearDecimal |
| Temperature.DecimalProductFitsInt | usbtemp.c:85-95 | every intermediate of print_temp stays in a 32-bit `int`, at most 16383*16380 |
| Temperature.SignSetReadsZero | usbtemp.c:87-89 | with bit 0x800 set, the logical OR makes the sample 1, so the reading is 0.0 |
| Temperature.SignClearFull | usbtemp.c:85-95 | with bit 0x800 clear, `full` is (raw/16) mod 256: the low nibble of `high` above the high nibble of `low`, below 128 |
| Temperature.SignClearDecimal | usbtemp.c:90-94 | with bit 0x800 clear, `decimal` is (16f²+4fq) mod 256, where f is `full` and q is bits 2-3 of `low`; it is always a multiple of 4 |
| Temperature.RawTwoFiftySix | usbtemp.c:85-95 | raw 0x100 reads as full 16 and decimal (64*64) mod 256 = 0 |
| Names.DecimalString | usbtemp.c:130 | `"%d"` of a non-negative number is a non-empty digit string without leading zeros |
| Names.Kstrtol | usbtemp.c:504 | a parse succeeds only on a non-empty digit string, and its value fits in a `long` |
| Names.ProbeName | usbtemp.c:124-151 | a probe name is `probe` followed by at least one digit, for any digit count |
| Names.ProbeOrdinal | usbtemp.c:504 | parsing from offset 5 succeeds exactly when the rest of the name is a non-empty digit string whose value fits in a `long` |
| Names.DecimalRoundTrip | usbtemp.c:130-151 | parsing the printed digits of n gives back n, for any digit count |
| Names.ProbeNameRoundTrip | usbtemp.c:130-151 | parsing a probe name from offset 5, as `show` does, gives back the ordinal it was built from |
| Names.ProbeNameInjective | usbtemp.c:130-151 | different ordinals give different probe names |
| Names.ProbeNameNotControl | usbtemp.c:140-144 | no probe name is `temp_rescan` or `temp_restart` |
| Protocol.Pipe.Control | usbtemp.c:350 | a transfer returns a negative status or a buffer of exactly wLength bytes, and is appended to the log |
| Protocol.ShortReply | usbtemp.c:404-413 | a received reply yields its byte 6, and a failed transfer yields 255 |
| Protocol.RescanStatus | usbtemp.c:483-493 | the status is 0 or 1, and it is 1 exactly when the transfer succeeded with answer 23 |
| Protocol.ReadAsWritten | usbtemp.c:383 | a read stores a value exactly when 0 <= type < possible_probes, whatever the flags, and decodes bytes 16·type+8 and 16·type+9 |
| Protocol.LongOutcome | usbtemp.c:351-387 | a failed transfer gives 255 and nothing stored. The count mode stores nothing and returns the populated count, at most possible_probes. Any other type returns 255 |
| Protocol.CountPopulated | usbtemp.c:361-368 | the number of populated records among the first n is at most n |
| Protocol.PopulatedSlots | usbtemp.c:372-382 | the list of populated slots among the first n holds only indices below n |
| Protocol.PopulatedSlotsLength | usbtemp.c:361-368 | the populated-slot list is exactly as long as the count the count mode computes |
| Protocol.PopulatedSlotsRank | usbtemp.c:372-382 | entry k of the list is a populated slot with exactly k populated slots before it |
| Protocol.PopulatedSlotsComplete | usbtemp.c:372-382 | every populated slot is in the list |
| Protocol.ReadOrdinalReadsNthPopulated | usbtemp.c:372-382 | the corrected read stores a value exactly when the ordinal is below the populated count, and it reads the ordinal-th populated slot |
| Protocol.CountFlags | usbtemp.c:358-368 | the count loop returns the number of records whose flags are 0x01, and never more than possible_probes |
| Protocol.ReadOne | usbtemp.c:370-384 | the read branch as written stores `data[type]` whatever the flags; an index outside the reply reads past the buffer |
| Protocol.ReadNth | usbtemp.c:372-382 | the search loop with the store moved into it reads the type-th populated record, or stores nothing |
| Protocol.ReadAsWrittenIgnoresFlags | usbtemp.c:383 | with records [empty, populated], ordinal 0 shows the empty record's 0.0 where the populated one holds 16.0 |
| Protocol.MessageShort | usbtemp.c:390-416 | sends request 1 and returns `supported_probes` of the reply; returns 255 when the transfer or the allocation fails |
| Protocol.MessageLong | usbtemp.c:338-388 | sends request 3 sized by possible_probes. With type -1 it returns the populated count; otherwise it returns 255 and stores the read. On error it returns 255 and stores nothing |
| Protocol.MessageReset | usbtemp.c:418-439 | sends request 4 with an 8-byte buffer, unless allocation fails |
| Protocol.MessageRescan | usbtemp.c:442-466 | sends request 2 with value 0, unless allocation fails |
| Protocol.MessageRescanStatus | usbtemp.c:469-496 | sends request 2 with value 1 and a 10 ms timeout; returns 1 exactly when the reply's answer is 23, 0 on any other answer or error, and -1 when allocation fails |
| Protocol.AwaitRescan | usbtemp.c:102-103 | the wait loop issues only status polls and leaves exactly after the first poll that reports completion |
| Protocol.PollsUntilDoneIsFirst | usbtemp.c:248-252 | the number of polls is n exactly when poll n is the first to report completion |
| Protocol.AwaitRescanMatchesPollsUntilDone | usbtemp.c:248-252 | a finished wait made as many polls as the first-completion count, and a wait that ran out saw no completion |
| Protocol.ShortReplyReadsSupportedProbes | usbtemp.c:400-415 | on a reply carrying a `short_status`, usb_message_short returns its `supported_probes`; on error it returns 255 |
| Protocol.RecordOfEncoded | usbtemp.c:362-364 | `data[i]` of a reply carrying records rs is rs[i] |
| Protocol.CountPopulatedOfEncoded | usbtemp.c:361-368 | the count over a reply equals the number of populated records sent |
| Protocol.LongCountOfRecords | usbtemp.c:358-368 | the count query on a reply carrying rs returns the number of populated records in rs |
| Protocol.LongReadOfRecords | usbtemp.c:370-384 | a read of k on a reply carrying rs decodes rs[k]'s sample whatever its flags, returns 255, and reads past the reply for any other k except -1 |
| Lifecycle.ControlNotProbeNames | usbtemp.c:166-205 | the two control names never occur among a table's probe files |
| Lifecycle.WellNamedDistinct | usbtemp.c:115-205 | no two slots of a table hold attributes with the same name |
| Lifecycle.ProbeSlotsCreateFreeNames | usbtemp.c:157-165 | a probe file exists exactly when its name was free and its creation was not refused, and every name a build creates was free before it |
| Lifecycle.Installed | usbtemp.c:115-205 | the table for n probes has n+2 slots; each control slot is filled exactly when its name was free and its creation was not refused |
| Lifecycle.InstalledWellNamed | usbtemp.c:115-205 | the installed table has probe_count+2 slots; slot 0 is temp_rescan, slot 1 is temp_restart, and slot i is probe(i-2) |
| Lifecycle.TeardownAsWrittenLeavesRestart | usbtemp.c:224-228 | after the as-written teardown temp_restart is still exposed, while removing every attribute of the table removes it |
| Lifecycle.Interface.CreateFile | usbtemp.c:157-165 | device_create_file either exposes the new name and fills the slot, or fails and leaves the slot empty |
| Lifecycle.Interface.CreateProbeFiles | usbtemp.c:115-166 | the probe loop fills slot i+2 with probe i exactly when that file could be created, and exposes exactly those names |
| Lifecycle.Interface.InstallTable | usbtemp.c:115-205 | the probe files, then temp_rescan and temp_restart, give exactly the `Installed` table; it is well named, and exactly its names join the directory |
| Lifecycle.Interface.SetupSysfs | usbtemp.c:97-206 | short query, polls to completion, count query; then it installs the table for that count, with every created attribute exposed |
| Lifecycle.Interface.DeleteOldProbes | usbtemp.c:233-243 | removes exactly the probe files' names from the directory and nothing else |
| Lifecycle.Interface.AddNewProbes | usbtemp.c:245-331 | polls to completion, short query, count query; then a new table whose slots 0 and 1 are the old attributes and whose probe slots are freshly created |
| Lifecycle.Interface.StoreRescan | usbtemp.c:537-549 | deletes the old probe files before sending the rescan and creating the new ones; an old probe name stays exposed only if it was created again; when the rescan completes and every attribute of the old table was exposed, every attribute of the new table is exposed |
| Lifecycle.Interface.DeactivateSysfsAsWritten | usbtemp.c:208-231 | the teardown as written removes slot 0's file twice and never removes temp_restart. It dereferences NULL exactly when slot 0 is empty and slot 1 is not. It reads the attribute freed at line 222 exactly when both control slots are filled |
| Lifecycle.Interface.DeactivateSysfs | usbtemp.c:208-231 | the corrected teardown removes every attribute of the table from the directory and nothing else |
| Lifecycle.ToInt32 | usbtemp.c:512 | `long probe_pos` passed as `int type` lands in the 32-bit range, is congruent to the input modulo 2^32, and is unchanged when the input already fits |
| Lifecycle.Render | usbtemp.c:513 | `"%d.%d\n"` is the digits of `full`, a dot, the digits of `decimal` and a newline |
| Lifecycle.ShowAsksForOwnOrdinal | usbtemp.c:502-508 | for every probe file the driver creates, `show` parses back that file's own ordinal and passes it unchanged as an `int` |
| Lifecycle.Show | usbtemp.c:497-514 | a name whose tail does not parse gives "" and no transfer; otherwise a short query, then a read of the parsed ordinal. It prints "0.0\n" when nothing was stored, and the stored reading otherwise |
| Lifecycle.ShowRescan | usbtemp.c:521-535 | prints "scan done\n" exactly when the status poll returns 1, otherwise "scan not done\n" |
| Lifecycle.StoreRestart | usbtemp.c:556-563 | sends the reset request |

## Left out

- Transport: `usb_control_msg` is the `Pipe.Control` oracle. The 1000 ms and 10 ms timeouts and the `msleep(250)` between polls are timing only.
- Protocol.AwaitRescan: the wait loops in the driver are unbounded. The model stops after `maxPolls` polls and reports a stall where the driver would go on polling forever.
- Lifecycle.Interface.SetupSysfs: a stall leaves the interface unbound, whereas the driver never returns from `temp_probe`.
- Lifecycle.Interface.AddNewProbes: a stall keeps the old table, whereas the driver hangs inside `store_rescan`.
- Allocation failures inside the lifecycle are not modelled; every `kmalloc` there succeeds. This covers:
  - the early return at lines 110-113;
  - the unchecked array allocation at line 115;
  - the slots left uninitialised by `continue` at lines 119-149;
  - the early returns at lines 262-274, which leave the interface data stale.
  
  The messages do model allocation failure as the `allocOk` flag, and the lifecycle calls them with `true`.
- Memory management is not modelled:
  - line 329 leaks the old attribute array;
  - delete_old_probes frees attributes that the next table no longer refers to.
  
  Lifecycle.Interface.DeleteOldProbes keeps the freed attributes as values in the table until AddNewProbes replaces it.
- Lifecycle.Interface.CreateFile: device_create_file only fails on a name the directory already shows, or on a slot index in the caller's `rejected` set. The real error codes are not modelled.
- Lifecycle.Interface.DeactivateSysfsAsWritten: gaps in what it promises.
  - After the NULL dereference the state is unconstrained.
  - When both control slots are filled, line 226 passes the attribute that line 222 already freed, which is a use after free. The method reports this case as `useAfterFree`. For the directory, it takes the freed attribute to still hold its name, as it does while nothing reuses that memory.
  - The temp_restart file stays in the directory after line 227 frees its attribute, so a sysfs file is left pointing at freed memory. The model does not track this dangling file.
  - The model does not track that `usb_get_intfdata` still points at freed memory after teardown.
- Lifecycle.Show: when the ordinal lies outside the reply, the driver prints whatever memory past the buffer holds, so the text is left unconstrained. The `sysfs_emit` page-size limit is not modelled.
- Names.Kstrtol: parses plain digit strings only. A sign, a leading `+`, a trailing newline and other bases are not modelled; no name the driver builds contains them.
- Concurrency: a `show` that races `store_rescan` is not modelled. The driver has no locking.
- `store` (lines 516-519) and `show_restart` (lines 551-554) are left out. They return `count` and `0` without touching any state.
- The timestamp field is read in host byte order, and the model takes the host to be little-endian.
- Left out entirely:
  - the kernel glue: module init and exit, `usb_register`, the device table, and the no-op suspend, resume and reset hooks;
  - `pr_info`/`pr_err` logging;
  - the two Python plotting scripts.

## Findings

| source | as written | input that shows it | evidently intended | confidence | as-written member | corrected member |
|---|---|---|---|---|---|---|
| usbtemp.c:226 | the slot-1 branch of deactivate_sysfs passes `device_attributes[0]` to device_remove_file | a disconnect after both control files were created passes the attribute freed at line 222 (use after free) and leaves `temp_restart` exposed while its attribute is freed at line 227; with slot 0 empty and slot 1 filled, NULL is dereferenced | remove `device_attributes[1]` | high; not executed | Lifecycle.Interface.DeactivateSysfsAsWritten, Lifecycle.TeardownAsWrittenLeavesRestart | Lifecycle.Interface.DeactivateSysfs |
| usbtemp.c:383 | after the search loop, usb_message_long decodes `data[type]` unconditionally, so the loop never matters | records [empty with sample 0x0000, populated with sample 0x0100], type 0: probe0 shows 0.0, not 16.0 | decode the type-th populated record, matching how ordinals are handed out | medium; not executed | Protocol.ReadOne, Protocol.ReadAsWrittenIgnoresFlags | Protocol.ReadNth, Protocol.ReadOrdinalReadsNthPopulated |
