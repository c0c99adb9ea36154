# RISC-V External Debug 0.13 engine of blackmagic, in Dafny

This project models the engine that blackmagic uses to reach a RISC-V target
through a Debug Transport Module (DTM). The engine follows the RISC-V External
Debug Support 0.13 standard:

- it talks to the Debug Module over the DMI;
- it runs abstract commands that read and write hart registers, optionally
  batched with autoexecdata;
- it uploads and executes program-buffer code;
- it negotiates the access method the module offers;
- it discovers the harts;
- it brings the JTAG DTM up.

Shape of the model:

- **Transport.** The `rvdbg_dmi_low_access` hook and the JTAG TAP operations are
  `Transport.Link`. The link holds a script of replies, one per low-level
  access, and an exhausted script fails. It also holds a trace of every
  scan, IR write and DR shift issued, in order.
- **Session.** The DMI session (`RVDBGv013_DMI_t`) is the class `Rvdbg.Dmi`. Its
  fields are the ones the engine assigns. Its hart table holds `Hart` records,
  each with an array backing up x1 .. x31.
- **Reference definitions.** Module `Protocol` gives each operation of
  `rvdbg013.c` a pure reference definition. It takes the reply script and
  the session fields. It returns a `Run` holding the status (and the new
  session fields), the events issued and the replies left over.
- **Methods.** Module `Rvdbg013` holds one imperative method per C function.
  Each changes the `Dmi` and its `Link` in place. Each method's
  postcondition states that it produces exactly what its reference
  definition gives: the status, the session fields, the array contents, the
  events appended to the trace and the script remaining. The loops of the C
  code are loops here, proved against the recursive reference definition
  through their invariants.
- **Properties.** Module `ProtocolProps` proves what the source promises
  about the reference definitions:
  - the abstract-command retry and error protocol;
  - the autoexec arming and disarming around register batches;
  - which registers batches and uploads touch;
  - which array entry each word a read batch brings back lands in, and
    which value each data0 write of a write batch carries;
  - the access-method negotiation;
  - the hart count and the hart selection;
  - the outcome of the whole bring-up.
- **JTAG binding.** Module `Rvdbg013Jtag` models the DMI reset and the dtmcs
  bring-up.
- **Bit fields.** Modules `DmFields`, `Rvdbg` and `Rv32iIsa` model the
  register-field macros and the instruction encoders as bit-vector
  functions. Their contracts state which bits each one reads or sets.

Quirks of the code are modelled as it is written:

- A DMI write shifts a 32-bit data value, so it drops bits 30 and 31.
- The hartsel setter masks the high part at the wrong offset.
- The encoders keep only six opcode bits, so CSRRS and EBREAK do not encode
  the SYSTEM instructions.
- The upload loop starts at index 0x20.
- `rvdbg_progbuf_exec` returns -1 on every path that gets past the backup.
- `rvdbg_discover_harts` selects the exit index rather than hart 0.
- The load encoder passes `width | zextend` unparenthesised to the I-type
  mask, so only zextend is masked: a width above 7 spills into rs1 and beyond.
- `rvdbg_dtm_init` hands the raw dmstatus.version field, whose code for 0.11 is
  1 and for 0.13 is 2, to the version setter, which accepts only the internal
  0.13 code 1, and ignores the refusal (rvdbg013.c:667-677). Read alone, this
  would mark a session holding some other version as 0.13 when the module
  reports 0.11, and refuse a module reporting 0.13. But every session the code
  builds holds 0.11 or 0.13 (0 or 1): the zeroed allocation, the dtmcs decode
  and the setter give nothing else. For such a session the adoption changes
  nothing, so the dmstatus version never has an effect.
- The autoexecdata probe writes back the word it read with only the
  autoexecdata field, bits 0-11, cleared (rvdbg013.c:632-633).

## Model

| member | source | states |
|---|---|---|
| Transport.Access | src/target/rvdbg.h:78 | a low-level access issues exactly one scan carrying the command; it succeeds iff a reply is left and that reply acknowledges, and then delivers that reply's data and consumes it |
| Transport.Link.LowAccess | src/target/rvdbg.h:78 | the hook records the command and its reply on the trace and consumes the reply as the reference access does |
| Transport.Link.WriteIr | src/target/rvdbg013_jtag.c:82 | selecting an instruction register appends exactly that IR write to the trace and consumes no reply |
| Transport.Link.ShiftDr | src/target/rvdbg013_jtag.c:87 | a 32-bit DR shift of the given word whose capture is unused appends exactly that shift, with that word, and consumes no reply |
| Transport.Link.CaptureDr | src/target/rvdbg013_jtag.c:102-103 | a 32-bit DR shift returns the word the DTM shifts out and records both the word shifted in and the word shifted out |
| Rvdbg.ResetWordsAreDistinctBits | src/target/rvdbg.h:39-40 | the soft and the hard DMI reset words are the single bits 16 and 17 and never overlap |
| Rvdbg.DmiGetOp | src/target/rvdbg.h:36 | the op field of a DMI word is its value modulo 4, always one of the four DMISTAT codes |
| Rvdbg.DtmcsGetVersion | src/target/rvdbg.h:41 | dtmcs.version is bits 0-3 of the word, a 4-bit value |
| Rvdbg.DtmcsGetAbits | src/target/rvdbg.h:42 | dtmcs.abits is a 6-bit value |
| Rvdbg.DtmcsGetDmistat | src/target/rvdbg.h:43 | dtmcs.dmistat is a 2-bit value |
| Rvdbg.DtmcsGetIdle | src/target/rvdbg.h:44 | dtmcs.idle is a 3-bit value |
| Rvdbg.DtmcsFieldsTile | src/target/rvdbg.h:41-44 | the four dtmcs getters read disjoint fields which, put back in place, rebuild exactly bits 0-14 of the word |
| Rvdbg.Dmi.constructor | src/target/rvdbg.h:61-85 | a new session is zeroed, has no current hart and a full table of eight hart records, each with a fresh 31-word backup |
| Rvdbg.Hart.constructor | src/target/rvdbg.h:52-59 | a new hart record is zeroed with a fresh 31-word register backup |
| DmFields.DmiWriteCommand | src/target/rvdbg013.c:171-175 | a DMI write word carries the write op, the address from bit 34, and only the low 30 bits of the data, because the data is shifted as a 32-bit value |
| DmFields.DmiWriteDataRoundTrip | src/target/rvdbg013.c:174 | the data of a DMI write is delivered intact iff it is below 2^30 |
| DmFields.DmiReadCommand | src/target/rvdbg013.c:179 | a DMI read word carries the read op, the address from bit 34 and no data |
| DmFields.DmiCommandsDistinct | src/target/rvdbg013.c:171-183 | a read word, a write word and the no-op are never the same word |
| DmFields.DmstatusGetVersion | src/target/rvdbg013.c:111 | dmstatus.version is bits 0-3 of the word, a 4-bit value |
| DmFields.DmstatusGetConfstrptrValid | src/target/rvdbg013.c:112 | the getter is 1 iff bit 4 of dmstatus is set, else 0 |
| DmFields.DmstatusGetAuthenticated | src/target/rvdbg013.c:115 | the getter is 1 iff bit 7 of dmstatus is set, else 0 |
| DmFields.DmstatusGetAnyNonexistent | src/target/rvdbg013.c:116 | the getter is 1 iff bit 14 of dmstatus is set, else 0 |
| DmFields.DmstatusGetImpebreak | src/target/rvdbg013.c:117 | the getter is 1 iff bit 22 of dmstatus is set, else 0 |
| DmFields.DmcontrolGetHartsel | src/target/rvdbg013.c:119 | hartsel is a 20-bit value: hartsello (bits 16-25) below hartselhi (bits 6-15) |
| DmFields.DmcontrolSetHartsel | src/target/rvdbg013.c:120-123 | the setter changes only bits 6-25; it puts the low ten bits of the selection in hartsello and bits 6-15 of the selection, not 10-19, in hartselhi |
| DmFields.HartselReadBack | src/target/rvdbg013.c:119-123 | reading back what the setter wrote gives exactly the selection for indices below 64 and for all ones, but not in general (64 reads back as 0x440) |
| DmFields.AbstractcsGetDatacount | src/target/rvdbg013.c:125 | abstractcs.datacount is bits 0-3 of the word, a 4-bit value |
| DmFields.AbstractcsGetCmderr | src/target/rvdbg013.c:126 | abstractcs.cmderr is bits 8-10 of the word, a 3-bit value |
| DmFields.AbstractcsClearCmderr | src/target/rvdbg013.c:127 | clearing sets all three write-1-to-clear cmderr bits and nothing else |
| DmFields.AbstractcsGetBusy | src/target/rvdbg013.c:128 | busy is 1 iff bit 12 of abstractcs is set, else 0 |
| DmFields.AbstractcsGetProgbufsize | src/target/rvdbg013.c:129 | abstractcs.progbufsize is bits 24-28 of the word, a 5-bit value |
| DmFields.AbstractcsFieldsTile | src/target/rvdbg013.c:125-129 | the datacount, cmderr, busy and progbufsize getters read disjoint fields which, put back in place, rebuild exactly bits 0-3, 8-10, 12 and 24-28 of abstractcs |
| DmFields.AbstractcmdSetType | src/target/rvdbg013.c:131-133 | the setter puts the low 8 bits of the type in bits 24-31 and leaves the other bits alone |
| DmFields.AbstractcmdSetAarsize | src/target/rvdbg013.c:134-136 | the setter puts 3 bits in bits 20-22 and leaves the other bits alone |
| DmFields.AbstractcmdSetAarpostincrement | src/target/rvdbg013.c:137-139 | the setter puts 1 bit in bit 19 and leaves the other bits alone |
| DmFields.AbstractcmdSetPostexec | src/target/rvdbg013.c:140-142 | the setter puts 1 bit in bit 18 and leaves the other bits alone |
| DmFields.AbstractcmdSetTransfer | src/target/rvdbg013.c:143-145 | the setter puts 1 bit in bit 17 and leaves the other bits alone |
| DmFields.AbstractcmdSetWrite | src/target/rvdbg013.c:146-148 | the setter puts 1 bit in bit 16 and leaves the other bits alone |
| DmFields.AbstractcmdSetRegno | src/target/rvdbg013.c:149-151 | the setter puts the 16-bit register number in bits 0-15 and leaves bits 16-31 alone |
| DmFields.AbstractautoGetData | src/target/rvdbg013.c:154 | abstractauto.autoexecdata is bits 0-11 of the word, a 12-bit value |
| DmFields.AbstractautoSetData | src/target/rvdbg013.c:155-157 | the setter puts 12 bits in bits 0-11 and leaves the other bits alone |
| Rv32iIsa.RType | src/target/rv32i_isa.h:28-35 | each R-type field lands in its place, truncated to its width, but the opcode keeps only six bits |
| Rv32iIsa.IType | src/target/rv32i_isa.h:36-42 | each I-type field lands in its place; the immediate keeps only eleven bits, so bit 31 is always 0 |
| Rv32iIsa.SType | src/target/rv32i_isa.h:43-50 | the S-type immediate is split over bits 7-11 and 25-31 and reads back as its low 12 bits |
| Rv32iIsa.BType | src/target/rv32i_isa.h:51-60 | the B-type immediate bits 12:1 are scattered and read back as the low 12 bits given |
| Rv32iIsa.UType | src/target/rv32i_isa.h:61-65 | the U-type immediate occupies bits 12-31 and reads back as its low 20 bits |
| Rv32iIsa.JType | src/target/rv32i_isa.h:66-73 | the J-type immediate bits 20:1 are scattered and read back as the low 20 bits given |
| Rv32iIsa.Load | src/target/rv32i_isa.h:82-83 | a load word carries the LOAD opcode and rd; it is the intended I-type load of base, offset and width with the zero-extend flag, with the unmasked width shifted to bit 12 laid over it |
| Rv32iIsa.LoadNarrowWidth | src/target/rv32i_isa.h:82-83 | for a width of at most 7 the load word is the intended I-type load: funct3 is width with the zero-extend flag, and base and an 11-bit offset are in place |
| Rv32iIsa.LoadWideWidth | src/target/rv32i_isa.h:82-83 | a width of 8 gives 0x8003, which loads through x1 where the intended encoding names x0 |
| Rv32iIsa.Store | src/target/rv32i_isa.h:84-85 | a store word carries the STORE opcode, the value register, base, width and a 12-bit offset |
| Rv32iIsa.Csrrs | src/target/rv32i_isa.h:88-89 | the CSRRS word has funct3 2, dst and src in place and an 11-bit CSR number, and its opcode is 0x33, not SYSTEM |
| Rv32iIsa.CsrReadWord | src/target/rvdbg013.c:557-559 | the CSR read program's instruction is 0x20b3 with the CSR number's low 11 bits above bit 20 |
| Rv32iIsa.EbreakAsWritten | src/target/rv32i_isa.h:93 | EBREAK as encoded is 0xb3, not the SYSTEM instruction 0x00100073 |
| Rv32iIsa.RTypeFieldsTile | src/target/rv32i_isa.h:28-35 | re-encoding the decoded fields of any word gives the word back, except for bit 6, which the encoder drops |
| Protocol.DmiWrite | src/target/rvdbg013.c:171-175 | a DMI write is one scan of the write word; it succeeds iff the first reply acknowledges, and then consumes it |
| Protocol.DmiRead | src/target/rvdbg013.c:177-183 | a DMI read is the read scan then the no-op scan; it succeeds iff both are acknowledged, with the data the no-op brings back; a failed read scan issues nothing more |
| Protocol.PollAbstractcs | src/target/rvdbg013.c:284-287 | a busy wait that succeeds returns a word whose busy bit is clear; it only issues register-access scans and never writes the command register |
| Protocol.AbstractRun | src/target/rvdbg013.c:274-308 | an abstract command run returns -1 or a cmderr other than BUSY; every scan is a register access, and every command write carries the given command (which code, when -1 and the retry: AbstractRunReportsCmderr, AbstractRunFailsOnFailedScan, AbstractRunRetriesOnBusy) |
| Protocol.CmdErrCode | src/target/rvdbg013.c:289-307 | the returned error code is the 3-bit cmderr itself, so zero iff no error and one iff busy |
| Protocol.ReadRegisterCommand | src/target/rvdbg013.c:319-324 | the read command is a 32-bit register transfer of the given register, with postincrement only in the INIT state |
| Protocol.WriteRegisterCommand | src/target/rvdbg013.c:373-379 | the write command is the read command plus the write bit |
| Protocol.ExecCommand | src/target/rvdbg013.c:508-510 | the exec command is an access-register command with only postexec set |
| Protocol.ReadSingle | src/target/rvdbg013.c:310-358 | a register read returns 0 or -1 and a word on success; in CONT it never writes the command register; every command write is the read command of that register (what the word is and when -1: ReadSingleOutcome, ReadSingleContOutcome) |
| Protocol.ReadData | src/target/rvdbg013.c:346-355 | the data0 read yields a word iff its read scan and no-op are acknowledged, and the word is the no-op's reply; outside CONT it succeeds iff it yields a word and issues nothing more; in CONT it then succeeds iff the busy wait that follows ends |
| Protocol.WriteSingle | src/target/rvdbg013.c:360-409 | a register write returns 0 or -1; in CONT it never writes the command register; every command write is the write command of that register (the data0 write and when -1: WriteSingleOutcome, WriteSingleData0) |
| Protocol.StoreRead | src/target/rvdbg013.c:346 | storing a read result puts the word read at index i and changes no other entry; without a word the array is unchanged |
| Protocol.ReadLoop | src/target/rvdbg013.c:465-472 | the read loop returns 0 or -1 and keeps the array length; it stays unarmed iff it started unarmed; armed, every command write is the first register's INIT command (what is stored: ReadLoopData0, ReadLoopIdle, ReadLoopKeepsOutside) |
| Protocol.ReadLoopKeepsOutside | src/target/rvdbg013.c:465-472 | the read loop from index i stores only into entries i to len-1 |
| Protocol.WriteLoop | src/target/rvdbg013.c:428-435 | the write loop returns 0 or -1 and stays unarmed iff it started unarmed; armed, every command write is the first register's INIT command (what is written to data0: WriteLoopData0) |
| Protocol.ReadRegs | src/target/rvdbg013.c:448-483 | a read batch returns 0 or -1 and an array of the same length (contents: ReadRegsData0, ReadRegsFromIdleModule, ReadRegsKeepsTail) |
| Protocol.ReadBatch | src/target/rvdbg013.c:465-480 | the loop with the disarm after it returns 0 or -1 and keeps the array length (contents: ReadBatchData0, ReadBatchIdle) |
| Protocol.WriteRegs | src/target/rvdbg013.c:411-446 | a write batch returns 0 or -1 (the data0 writes it issues: WriteRegsData0) |
| Protocol.WriteBatch | src/target/rvdbg013.c:428-443 | the loop with the disarm after it returns 0 or -1 (the data0 writes: WriteRegsData0) |
| Protocol.Upload | src/target/rvdbg013.c:485-500 | an upload returns 0 or -1 (when it fails and what it scans: UploadWritesNothing, UploadTargets) |
| Protocol.UploadLoop | src/target/rvdbg013.c:494-497 | the upload loop returns 0 or -1 (where it writes: UploadLoopTargets) |
| Protocol.Exec | src/target/rvdbg013.c:503-553 | execution always reports -1, because every branch of the switch returns; the backup keeps its 31 words |
| Protocol.CsrReadProgram | src/target/rvdbg013.c:557-559 | the CSR read program is the single word `csrrs x1, csr, x0` as the encoder builds it |
| Protocol.ReadCsr | src/target/rvdbg013.c:555-569 | a program-buffer CSR read always reports -1, since execution does; the backup keeps its 31 words |
| Protocol.SetDebugVersion | src/target/rvdbg013.c:185-201 | setting the version succeeds iff it is 0.13, and records it only then; nothing else changes |
| Protocol.Negotiate | src/target/rvdbg013.c:577-637 | negotiating returns 0 or -1 and changes no session field except progbufsize, datacount, the CSR-read slot and autoexecdata support |
| Protocol.ProbeAutoexec | src/target/rvdbg013.c:618-634 | the probe returns 0 or -1 and changes no session field except autoexecdata support |
| Protocol.HartStatus | src/target/rvdbg013.c:238-246 | one hart step issues at least one scan and consumes no more replies than the script holds (which hart it selects, which scans and which word: HartStatusScans, HartStatusExisting) |
| Protocol.ProbeHarts | src/target/rvdbg013.c:236-257 | the hart loop returns 0 or -1; it advances the index and the count together; the count never exceeds the table's eight entries, and the exit index never exceeds hartsellen+1 (which harts it selects and counts: ProbeHartsSteps) |
| Protocol.Discover | src/target/rvdbg013.c:218-269 | discovery returns 0 or -1 and changes only the hart count and the current hart |
| Protocol.CountHarts | src/target/rvdbg013.c:236-268 | counting returns 0 or -1 and changes only the hart count and the current hart |
| Protocol.ResetEvents | src/target/rvdbg013_jtag.c:80-90 | the reset hook selects dtmcs and shifts in the hard or the soft reset word |
| Protocol.Init | src/target/rvdbg013.c:640-709 | the bring-up returns 0 or -1 (reset order and success: InitSuccess) |
| Protocol.Attach | src/target/rvdbg013.c:662-709 | the bring-up after the reset returns 0 or -1 (success: AttachSuccess) |
| Protocol.AttachAuthenticated | src/target/rvdbg013.c:690-709 | the authenticated bring-up returns 0 or -1 (success: AttachAuthenticatedSuccess) |
| Protocol.Configure | src/target/rvdbg013.c:700-708 | configuring returns 0 or -1 and keeps the debug version and impebreak |
| ProtocolProps.PollReadsAbstractcs | src/target/rvdbg013.c:284-287 | the busy wait issues nothing but abstractcs read scans and their no-ops |
| ProtocolProps.AbstractRunScans | src/target/rvdbg013.c:274-308 | an abstract command run issues only the command write, abstractcs reads with their no-ops, and the cmderr clear |
| ProtocolProps.AbstractRunStartsWithCommand | src/target/rvdbg013.c:279-281 | the first scan of a run writes the command |
| ProtocolProps.AbstractRunClearsBeforeError | src/target/rvdbg013.c:291-296 | a run that reports a command error has just written 0x700 to abstractcs and had that write acknowledged |
| ProtocolProps.AbstractRunSuccessIsIdle | src/target/rvdbg013.c:284-291 | success is reported only when the last word read from abstractcs shows neither busy nor a command error |
| ProtocolProps.PollEndsWithIdleWord | src/target/rvdbg013.c:284-287 | a successful busy wait ends with the acknowledged no-op that brought back the idle word |
| ProtocolProps.DmiReadAcked | src/target/rvdbg013.c:177-183 | a DMI read yields a word iff every scan it issued was acknowledged |
| ProtocolProps.PollAcked | src/target/rvdbg013.c:284-287 | the busy wait fails iff one of its scans fails |
| ProtocolProps.AbstractRunFailsOnFailedScan | src/target/rvdbg013.c:279-307 | a run returns -1 iff one of its scans failed; every command error is returned as itself or retried, never turned into -1 |
| ProtocolProps.AbstractRunReportsCmderr | src/target/rvdbg013.c:284-307 | a positive return is the cmderr field of the acknowledged abstractcs word brought back by the no-op just before the clearing write |
| ProtocolProps.AbstractRunRetriesOnBusy | src/target/rvdbg013.c:291-301 | when the first idle abstractcs word shows the busy error and the clear is acknowledged, the scan after the clear writes the same command again |
| ProtocolProps.ReadSingleOutcome | src/target/rvdbg013.c:327-357 | outside CONT a register read fails with no word stored whenever the command run does not return 0; it succeeds iff the run returns 0 and the data0 read and its no-op are acknowledged, and then the word stored is that no-op's reply and those two scans end the read |
| ProtocolProps.ReadSingleContOutcome | src/target/rvdbg013.c:346-357 | in CONT a word is stored iff the data0 read and its no-op are acknowledged, it is the no-op's reply, those are the first two scans, and success then needs the busy wait after them to end |
| ProtocolProps.WriteSingleOutcome | src/target/rvdbg013.c:367-408 | a register write first writes the value to data0 and fails if that fails; after it, success is the command run returning 0 outside CONT and the busy wait ending in CONT |
| ProtocolProps.RunWritesNoData0 | src/target/rvdbg013.c:274-308 | neither the busy wait nor an abstract command run writes data0 |
| ProtocolProps.WriteSingleData0 | src/target/rvdbg013.c:367-369 | a register write writes data0 exactly once, with the value given |
| ProtocolProps.WriteLoopData0 | src/target/rvdbg013.c:428-435 | the k-th data0 write of the loop from index i carries values[i+k]; there are at most len-i of them, and all len-i when the loop succeeds |
| ProtocolProps.WriteBatchData0 | src/target/rvdbg013.c:428-443 | the data0 writes of the loop and its disarming write are the writes of values[0], values[1], ... in order, at most len of them and all len on success |
| ProtocolProps.WriteRegsData0 | src/target/rvdbg013.c:411-446 | the data0 writes of a write batch are the writes of values[0], values[1], ... in order, at most len of them and all len on success; arming and disarming do not write data0 |
| ProtocolProps.ReadSingleData0 | src/target/rvdbg013.c:310-358 | whatever the replies, the words a register read brings back from data0 (an acknowledged data0 read followed by an acknowledged no-op) are exactly the word it stores, or none when it stores none; its scans never end on a data0 read |
| ProtocolProps.ReadDataData0 | src/target/rvdbg013.c:346-355 | the data0 read part of a register read brings back from data0 exactly the word it yields, or none |
| ProtocolProps.ReadLoopData0 | src/target/rvdbg013.c:465-472 | whatever the replies (busy, command errors, failed scans), the read loop from i stores the words it brought back from data0, in the order read, into values[i], values[i+1], ..., keeps every other entry, reads at most len-i of them and all len-i when it returns 0 |
| ProtocolProps.ReadBatchData0 | src/target/rvdbg013.c:465-480 | the same for the loop and the disarming write after it, from values[0]: the disarm reads nothing from data0 |
| ProtocolProps.ReadRegsData0 | src/target/rvdbg013.c:448-483 | whatever the replies, a read batch, armed or not, stores the words it brought back from data0, in the order read, into values[0], values[1], ..., keeps every other entry, and reads all len of them when it returns 0 |
| ProtocolProps.ReadSingleIdle | src/target/rvdbg013.c:310-358 | against a module that completes the command at once and holds a word in data0, a register read succeeds with that word and consumes exactly its replies |
| ProtocolProps.ReadLoopIdle | src/target/rvdbg013.c:465-472 | against such a module holding words for registers i to len-1, the read loop succeeds and stores exactly those words into values[i..len), leaving the other entries |
| ProtocolProps.ReadBatchIdle | src/target/rvdbg013.c:465-480 | the loop and its disarm against such a module succeed and store exactly the module's words |
| ProtocolProps.ReadRegsFromIdleModule | src/target/rvdbg013.c:448-483 | a read batch, armed or not, against a module whose registers hold the given words returns 0, stores exactly those words in values[0..len) and keeps the other entries |
| ProtocolProps.ReadRegsAutoexecBracket | src/target/rvdbg013.c:457-480 | a read batch of more than one register with autoexecdata support first writes 0xaaa to abstractauto and, once that is acknowledged, last writes 0 to it, whatever failed in between |
| ProtocolProps.WriteRegsAutoexecBracket | src/target/rvdbg013.c:420-443 | the same arming and disarming for a write batch |
| ProtocolProps.ReadRegsCommands | src/target/rvdbg013.c:448-483 | an unarmed read batch only issues register-access scans; an armed one only ever writes the first register's INIT read command |
| ProtocolProps.WriteRegsCommands | src/target/rvdbg013.c:411-446 | an unarmed write batch only issues register-access scans; an armed one only ever writes the first register's INIT write command |
| ProtocolProps.ReadRegsKeepsTail | src/target/rvdbg013.c:465-472 | a read batch of len registers leaves the entries from len on untouched |
| ProtocolProps.UploadWritesNothing | src/target/rvdbg013.c:489-497 | since the loop starts at 0x20, an upload issues no scan at all for any progbufsize abstractcs can report; it fails iff the buffer exceeds progbufsize plus impebreak |
| ProtocolProps.UploadTargets | src/target/rvdbg013.c:494-497 | whatever an upload scans is a DMI write at address 0x40 or above, and it scans at all only for buffers longer than 0x20 words |
| ProtocolProps.UploadLoopTargets | src/target/rvdbg013.c:494-497 | from index 0x20 on, the upload loop only writes at DMI address 0x40 plus the offset |
| ProtocolProps.ExecRejectsWideArguments | src/target/rvdbg013.c:513-518 | more than 31 argument registers either way is refused before any scan, with the backup unchanged |
| ProtocolProps.ExecKeepsBackupTail | src/target/rvdbg013.c:513-523 | execution changes the backup only in the first n words, for n the larger argument count |
| ProtocolProps.NegotiateSuccess | src/target/rvdbg013.c:577-637 | a successful negotiation leaves a data count of 1 to 12 and a progbufsize of at most 16, with impebreak when progbufsize is 1; afterwards the CSR-read slot is installed iff progbufsize is non-zero or it was installed before |
| ProtocolProps.NegotiateOutcome | src/target/rvdbg013.c:577-637 | a negotiation succeeds iff its six scans are acknowledged and the abstractcs word has a data count of 1 to 12, a progbufsize of at most 16, and impebreak when progbufsize is 1 |
| ProtocolProps.NegotiateRejects | src/target/rvdbg013.c:581-601 | without an acknowledged abstractcs word, or with one that fails a check, the negotiation fails |
| ProtocolProps.NegotiateProbes | src/target/rvdbg013.c:608-636 | with an accepted abstractcs word the negotiation succeeds iff the four probe scans are acknowledged |
| ProtocolProps.NegotiateReachesProbe | src/target/rvdbg013.c:581-620 | with an accepted abstractcs word the negotiation reports what the probe reports, from the session with the recorded fields |
| ProtocolProps.AcceptedNarrowed | src/target/rvdbg013.c:584-601 | the checks made on the 8-bit session fields are exactly the checks on the abstractcs word |
| ProtocolProps.NegotiateRecordsBeforeValidating | src/target/rvdbg013.c:581-601 | once abstractcs is read, progbufsize and datacount are recorded from it even when validating them fails |
| ProtocolProps.ProbeAutoexecStatus | src/target/rvdbg013.c:620-634 | the probe succeeds iff its four scans are acknowledged |
| ProtocolProps.ProbeAutoexecSupport | src/target/rvdbg013.c:620-630 | support is recorded iff the word read back carries 0xaaa in its autoexecdata field or support was already recorded |
| ProtocolProps.ProbeAutoexecClearsPattern | src/target/rvdbg013.c:632-634 | the probe's last scan writes back the word it read with only the autoexecdata field cleared |
| ProtocolProps.HartStatusScans | src/target/rvdbg013.c:238-246 | a hart step writes dmcontrol with hartsel set to the 32-bit value of idx, then, once that is acknowledged, reads dmstatus and, once that is acknowledged, issues the no-op, stopping at the first failed scan; only the last scan is a no-op; the step yields a word iff the no-op was acknowledged, and the word is that no-op's reply |
| ProtocolProps.HartStatusExisting | src/target/rvdbg013.c:238-251 | within a hart step every word read before the last scan reports no nonexistent hart, and when the dmstatus read shows no nonexistent hart, every word of the step says so |
| ProtocolProps.ProbeHartsCountsExisting | src/target/rvdbg013.c:236-257 | every dmstatus word the hart loop reads, except possibly the last, reports no nonexistent hart; and the loop's scans are the hart steps ProbeHartsSteps describes, so the count is the number of harts selected before the first failure or nonexistent hart |
| ProtocolProps.ProbeHartsSteps | src/target/rvdbg013.c:236-257 | the hart loop's scans are count-num complete steps selecting harts idx, idx+1, ... (as 32-bit values) in turn, each reading a dmstatus word that reports no nonexistent hart; then, when the exit index is within hartsellen and the table has room, one more step at that index, which either was cut short by a failed scan (status -1) or read a word reporting a nonexistent hart (status 0); otherwise nothing and status 0 |
| ProtocolProps.ProbeHartsStopsAtNonexistent | src/target/rvdbg013.c:236-257 | a loop that ends with status 0 before hartsellen and before filling the table stopped on a dmstatus word reporting a nonexistent hart |
| ProtocolProps.CountHartsSuccess | src/target/rvdbg013.c:236-268 | a successful count points the current hart at record 0; the count stays within the table and, from zero, within hartsellen+1 |
| ProtocolProps.CountHartsSelectsExitIndex | src/target/rvdbg013.c:262-266 | from a count of zero, the last scan of a successful count selects the index at which the loop stopped, which is the hart count and not hart 0 |
| ProtocolProps.DiscoverSuccess | src/target/rvdbg013.c:218-269 | discovery first writes all ones to hartsel; on success the current hart is record 0 and the count fits the table |
| ProtocolProps.AdoptDmstatusVersionEffect | src/target/rvdbg013.c:667-677 | the exact result of the adoption: the version becomes 0.13 (internal code 1) only when dmstatus.version reads 1, its code for 0.11, and the session does not hold 0.11; every other case, a module reporting 0.13 (2) included, leaves the session alone |
| ProtocolProps.AdoptKeepsDtmVersion | src/target/rvdbg013.c:667-677 | for a session holding 0.11 or 0.13, the only versions the code ever records, the adoption changes nothing, whatever dmstatus reports |
| ProtocolProps.ConfigureSuccess | src/target/rvdbg013.c:700-708 | configuring succeeds with negotiated access fields in range and with record 0 current |
| ProtocolProps.AttachSuccess | src/target/rvdbg013.c:662-708 | the bring-up after the reset succeeds only when dmstatus was read and reports authenticated; impebreak then comes from dmstatus, and the access fields and the current hart are as after configuring |
| ProtocolProps.AttachAuthenticatedSuccess | src/target/rvdbg013.c:690-708 | once authenticated, success records impebreak from dmstatus and leaves the access fields and the current hart as after configuring |
| ProtocolProps.InitSuccess | src/target/rvdbg013.c:640-709 | the bring-up issues the hard reset before any DMI scan, and succeeds only as the bring-up after the reset does |
| Rvdbg013.DmiWrite | src/target/rvdbg013.c:171-175 | the write issues and consumes exactly what the reference DMI write does |
| Rvdbg013.DmiRead | src/target/rvdbg013.c:177-183 | the read returns, issues and consumes exactly what the reference DMI read does |
| Rvdbg013.PollAbstractcs | src/target/rvdbg013.c:284-287 | the busy-wait loop produces exactly the reference busy wait's word, scans and leftover replies |
| Rvdbg013.AbstractCommandRun | src/target/rvdbg013.c:274-308 | the retry loop produces exactly the reference run's code, scans and leftover replies |
| Rvdbg013.ReadSingleReg | src/target/rvdbg013.c:310-358 | the status and the word stored at the given index are those of the reference register read; no other array entry changes (what the word is: ReadSingleOutcome, ReadSingleContOutcome) |
| Rvdbg013.WriteSingleReg | src/target/rvdbg013.c:360-409 | the register write produces exactly the reference register write (data0 first, with the value: WriteSingleOutcome, WriteSingleData0) |
| Rvdbg013.ReadRegs | src/target/rvdbg013.c:448-483 | the status and the whole array afterwards are those of the reference read batch, and so are the scans (contents: ReadRegsData0, ReadRegsFromIdleModule) |
| Rvdbg013.ReadEach | src/target/rvdbg013.c:465-472 | the loop over the array produces exactly the reference read loop's status, array and autoexec state (contents: ReadLoopData0, ReadLoopIdle) |
| Rvdbg013.WriteRegs | src/target/rvdbg013.c:411-446 | the write batch produces exactly the reference write batch (data0 writes: WriteRegsData0) |
| Rvdbg013.WriteEach | src/target/rvdbg013.c:428-435 | the loop produces exactly the reference write loop's status and autoexec state (data0 writes: WriteLoopData0) |
| Rvdbg013.ProgbufUpload | src/target/rvdbg013.c:485-500 | the upload produces exactly the reference upload, from the session's progbufsize and impebreak |
| Rvdbg013.ProgbufExec | src/target/rvdbg013.c:503-553 | the status and the current hart's backup array afterwards are those of the reference execution |
| Rvdbg013.ReadCsrProgbuf | src/target/rvdbg013.c:555-569 | the status and the current hart's backup afterwards are those of the reference CSR read |
| Rvdbg013.SetDebugVersion | src/target/rvdbg013.c:185-201 | the status and the session afterwards are those of the reference version setter |
| Rvdbg013.DtmInit | src/target/rvdbg013.c:640-709 | the status, the session fields, the scans and the leftover replies are those of the reference bring-up |
| Rvdbg013.Attach | src/target/rvdbg013.c:662-709 | the bring-up after the reset matches its reference definition |
| Rvdbg013.AdoptDmstatusVersion | src/target/rvdbg013.c:667-677 | the session afterwards is the reference adoption of the dmstatus version |
| Rvdbg013.AttachAuthenticated | src/target/rvdbg013.c:690-709 | the authenticated bring-up matches its reference definition |
| Rvdbg013.Configure | src/target/rvdbg013.c:700-708 | configuring matches its reference definition |
| Rvdbg013.SelectMemAndCsrAccessImpl | src/target/rvdbg013.c:577-637 | the negotiation matches its reference definition, session fields included |
| Rvdbg013.ProbeAutoexecData | src/target/rvdbg013.c:618-634 | the autoexecdata probe matches its reference definition |
| Rvdbg013.DiscoverHarts | src/target/rvdbg013.c:218-269 | discovery matches its reference definition, hart count and current hart included |
| Rvdbg013.SelectHarts | src/target/rvdbg013.c:236-268 | the count, the exit selection and the current hart match the reference count |
| Rvdbg013.ProbeHarts | src/target/rvdbg013.c:236-257 | the hart loop's status, exit index, count and scans are those of the reference loop (which harts it selects and counts: ProbeHartsSteps, ProbeHartsCountsExisting) |
| Rvdbg013.HartStatus | src/target/rvdbg013.c:238-246 | one hart step's dmstatus word, scans and remaining replies are those of its reference step, which selects hart idx, reads dmstatus and yields the no-op's reply (HartStatusScans, HartStatusExisting) |
| Rvdbg013Jtag.DecodeDtmcs | src/target/rvdbg013_jtag.c:107-122 | init accepts dtmcs iff its version is 0.11 or 0.13, and then records the version, idle and abits from it and nothing else; otherwise the session is unchanged |
| Rvdbg013Jtag.DmiReset | src/target/rvdbg013_jtag.c:80-90 | the reset selects dtmcs, shifts in the hard or the soft reset word, and consumes no DMI reply |
| Rvdbg013Jtag.JtagInit | src/target/rvdbg013_jtag.c:92-144 | init records what decoding dtmcs gives; it selects dtmcs and captures it while shifting in the indeterminate word the code leaves in its local, and only on acceptance soft-resets the DMI and selects the DMI register |

## Left out

- Logging: the DEBUG output, `rvdbg_version_tostr` and the `switch` statements
  on idle that only log (rvdbg013.c:203-216 and 645-658, rvdbg013_jtag.c:124-136)
  have no effect on the engine's state and are not modelled. The
  confstrptrvalid and nextdm values are only logged, so they are read but not
  kept (rvdbg013.c:686-695).
- Reference counting and allocation: `rvdbg_dtm_ref`, `rvdbg_dtm_unref`, the
  calloc and free in `rvdbg013_jtag_dp_handler`, and `container_of` are memory
  management, so they are left out. `Dmi`'s constructor stands for the zeroed
  allocation.
- Hook implementations: the body of the `rvdbg_dmi_low_access` hook (a JTAG
  DMI scan) is not part of this model. It is a script of replies.
  `jtag_dev_write_ir` and `jtag_dev_shift_dr` are trace events. The `dmi_reset`
  hook is bound to the JTAG DMI reset.
- The dtmcs words are parameters of `JtagInit`: the word the DTM shifts out,
  and the word shifted in, which the code takes from its uninitialised
  `dtmcontrol` (rvdbg013_jtag.c:94, 102-103). What the DTM does with that
  indeterminate word, such as a dmireset it may request, is not modelled.
- Rvdbg013.DmiRead: when the no-op scan fails, the model does not say whether
  the hook wrote the out-parameter. A failed read delivers no word.
- Rvdbg013.ProgbufExec: the code after the `switch` in `rvdbg_progbuf_exec`
  (rvdbg013.c:543-552) cannot be reached. It is not modelled, because every
  branch of the switch returns -1.
- The commented-out program-buffer CSR write and memory access
  (rvdbg013.c:571-575) are not modelled. Neither are the `write_csr`,
  `read_mem` and `write_mem` slots, which nothing assigns. The `read_csr` slot
  is the flag `readCsrInstalled`.
- Integer widths: `uint8_t` and `uint16_t` counts, lengths and loop indices are
  `nat`. The preconditions say where the C types bound them, such as buffer
  lengths below 256.
- Rvdbg013.ProbeHarts: the 32-bit hart index is a `nat`. The word written for
  index i is built from `Wrap32(i)`, the value a 32-bit counter holds after i
  increments, so the selection written is the code's. Loops that advance a
  register number or an upload address next to an index keep both, as the
  code does.
- The recording of mhartid in `rvdbg_discover_harts` is only a comment in the
  code (rvdbg013.c:253-254), so hart records keep mhartid 0.
- The enumerations and dtmcs macros that rvdbg013_jtag.c repeats
  (rvdbg013_jtag.c:36-57) are the ones in rvdbg.h, so they are defined once.
- Single C functions are split into several methods so that each proof stays
  small:
  - `rvdbg_dtm_init` into `DtmInit`, `Attach`, `AdoptDmstatusVersion`,
    `AttachAuthenticated` and `Configure`;
  - `rvdbg_select_mem_and_csr_access_impl` into `SelectMemAndCsrAccessImpl`
    and `ProbeAutoexecData`;
  - `rvdbg_discover_harts` into `DiscoverHarts`, `SelectHarts`, `ProbeHarts`
    and `HartStatus`;
  - the bodies of the loops into the `*Step` methods, and the loops of the
    register batches into `ReadEach` and `WriteEach`.

  The order of the scans and the session updates is the code's.
- A word "brought back from data0" is the reply of an acknowledged no-op
  that directly follows an acknowledged read of data0 (`Data0Reads`). The
  read-batch lemmas state which array entry each such word lands in; they do
  not say, for an arbitrary script, which register the module meant it for.
- Concurrency and timing are not modelled: the run-test/idle cycles, and the
  polling loops, which run for as long as the script keeps answering busy.
