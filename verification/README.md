# Verified model of CSA process accounting

CSA is a process accounting suite. A daemon writes a log of chained binary records; other tools switch, read, verify,
repair, sort, recycle and summarise that log. This project models the parts of it in which many functions have to agree
about the same bytes or the same state, and proves what they promise each other.

`dafny verify dfyconfig.toml` checks everything. Where the C code changes objects step by step the model is a class whose
methods are proved against functions on values; what the program promises is proved about those functions, for all
inputs and all runs. The modules whose names end in Laws or History say the same a second time, in terms of the bytes, events and
options alone, so that nothing about an operation rests on its own specification function.

| files | program part |
|---|---|
| Basics | bytes, options and insertion, shared by all |
| AcctHeader, AcctReader, AcctWriter, AcctBackward, AcctFile, AcctOutput, ReaderLaws | `csa/lib/acctio.c`: records, entries, forward and backward reading, writing; damaged and old records |
| VerifySpec, VerifyProofs, VerifyLaws, Csaverify | `csa/cmd/csaverify.c`: resynchronisation and the offset file; which offset file it is, without the loop |
| EditSpec, Csaedit, RepairProofs, Csarun | `csa/cmd/csaedit.c` and the verify loop of `csa/cmd/csarun.in`: repair |
| Eop | `csa_acct_eop` and `csa_modify_buf` of `csa/csad/csa.c`: one buffer, edited in place between two writes |
| DaemonSpec, DaemonProofs, DaemonHistory, Daemon, HashTable | `csa/csad/csa.c`, `csa_job.c`, `csa_daemon.c`, `hash.c`: the daemon's requests, events, files and job table; its files told by the events |
| SessionFile | what csaverify makes of the files the daemon writes |
| SwitchSpec, SwitchLaws, Csaswitch, GetOptLst, GetOptLaws | `csa/cmd/csaswitch.c`, `csa/lib/csa_api.c`, `csa/lib/basic.c`: the controller, what its commands do, and its list parser |
| RecycleSpec, RecycleLaws, Csarecy, RecycleVerify | `csa/cmd/csarecy.c`: which jobs are recycled and where; boot headers rewritten once the bytes behind them are known; what csaverify says of the file |
| RequestSpec, RequestLaws, ReqPool, SegList, Csajrep | `csa/cmd/csajrep.c`: workload management requests, on values and as cells of a block allocator |
| FindMsg | `csa/intl/dcgettext.c`: double hashing against bisection |
| PeakOffpeak | `csa/lib/peak_offpeak.c`: prime and non-prime time |
| DiskSort | `csa/cmd/acctdusg.c`: bubble sort of a linked list in place |

A file is a sequence of bytes with a position, a record a byte sequence that starts with an eight-byte header, an entry a
chain of records linked by the AMORE flag. The daemon is a state machine: its select loop is single-threaded and the
semaphore macros are empty, so every request or event is one step. Its tables, open files and jobs are values in the
specification (DaemonSpec) and arrays and fields in the class (Daemon). Requests must name existing methods: the index
checks of AC_START and AC_STOP only leave the inner `for` loop (`csa/csad/csa.c:618-629`), so an unknown index reaches
the tables unchecked. The opening of a file, the user's answers, csa.conf, the hash function of a message catalogue and
`invalid_pacct` are parameters, and the results hold for all of them.

## What was found

- A file that ends inside a chain of linked records reads as if it ended before it: `readacctent` returns 0, csaverify
  reports nothing, and the cut-off records survive a repair. `RepairProofs.UnreportedIff` says of which files that is
  true, in terms of the file alone; `Csarun.CutOffEntrySurvives` shows one.
- `writeacctent` writes any set of records, but the readers' buffer holds 376 bytes: an entry is read back exactly when
  it is not longer (`AcctWriter.EntryRoundTrip`). `AcctWriter.TooLongEntry` shows one of 424 bytes.
- `writeacctent` writes the linked records before the start of job, configuration, job header and workload management
  records: an entry with a linked record but neither a base record nor an end of job starts with the linked one, and
  csaverify does not take it. `VerifyLaws.WrittenVerdict` says so of exactly those; `VerifyLaws.SojBehindMem` shows one.
- `check_primary_hdr` lists the site types, but no header of a site record passes it: their entry in `rev_tab` is -1, and the
  revision in a header is unsigned (`VerifyLaws.HeadersAre`).
- A file that ends in a record announcing another comes to an end of file when it is read forward, and fails with -1 when it
  is read backward (`ReaderLaws.CutOffBackward`).
- AC_WRACCT for a job the daemon does not know is refused, but the bytes may be in the system file already
  (`DaemonHistory.Replies`).
- The count `writeacctent` returns is one more than the number of records of a non-empty entry (`csa/lib/acctio.c:663-673`
  counts the last record again); its description promises the number of records.
- csarun's loop of verifying and deleting always ends, and never in the editor's error exits. One deletion is enough
  exactly when something is left, it starts with a primary header, and every accepted entry is acceptable in a file that
  starts like this too (`Csarun.OneDeletionIsEnough`). `Csarun.TwoRoundsNeeded` shows a file that needs two.
- `find_msg` compares the recorded length of a string when it hashes but not when it bisects. The two agree for every
  message exactly when every recorded length is that of its string.
- `pop_calc` counts one second twice for every midnight crossed at which a prime window starts, as the `all` keyword
  produces.
- Turning off an accounting method with an empty name (`csaswitch -c off -n ""`) sends an empty request, which the
  daemon reads as a request for method 0: the base record is turned off and linked records stay on.
  `SwitchSpec.OffKeepsBasedIff` gives the exact condition.
- csarecy gives up on a job at its first process record of job id 0, and what was written of the job before is then in
  no length. Boot headers never give too much; all of them are right if and only if no kept job gives up with something
  written once there is a boot header (`RecycleSpec.LengthsAreRight`, `RecycleSpec.UptimeLenInFile`).
  `RecycleSpec.JobZeroLosesCount` shows a run whose one boot header gives length 0 with 208 bytes behind it.
- csaverify takes pacct0 for a sorted file: a note in it calls pacct0 a regular one (`csa/cmd/csaverify.c:562-567`), but a file
  that starts with a boot header counts as sorted (`csa/cmd/csaverify.c:802-811`), and pacct0 does when the jobs kept in it
  began after the epoch. `RecycleVerify.RecycledIsSorted` says when nothing is reported about it then.
- csajrep moves usage between projects. A record of the number -2, which stands for no project, falls to any entry of its
  user, and an entry without a project takes that of the next record. What users have in jobs stays right; what they have
  there for projects is right exactly when nothing with stime is moved (`RequestSpec.ProjectsAreRightIff`). Two requests in
  which it is wrong: `RequestSpec.NoProjectIsAnyProject` and `RequestSpec.NoProjectGetsOne`.
- The usage thresholds of the daemon are signed, the usage is not: a negative threshold, which AC_START accepts, keeps every
  process of ordinary size out of the system file (`DaemonProofs.NegativeThresholdDropsAll`).
- The report of csajrep guards against a segment that is its own successor (`csa/cmd/csajrep.c:2172-2177`); the list it
  walks is well linked and acyclic after any records, so the guard never applies.
- A forward read keeps the last record of a kind in the entry's slot, a backward read the first; they agree exactly when
  in every slot these are the same bytes. `AcctBackward.DirectionsDiffer` shows an entry for which they do not.

## Model
| member | source | states |
|---|---|---|
| AcctReader.ReadRecord | csa/lib/acctio.c:93-128 | reading one record: what a successful read consumes lies inside the file, and 0 is returned only at its end |
| AcctReader.ReadEntry | csa/lib/acctio.c:348-382 | reading an entry forward: a non-empty chain of records of pacct types, ending inside the file |
| AcctReader.EntryIsLocal | csa/lib/acctio.c:348-382 | an entry that was read whole reads the same wherever its bytes stand, in any file |
| AcctReader.EndIsLocal | csa/lib/acctio.c:353-363 | a read that ran into the end of a file does so wherever the same tail ends a file |
| AcctReader.AtEndMeansLinkedToEnd | csa/lib/acctio.c:353-377 | a read returns 0 if and only if nothing but whole records, each announcing another, stands up to the end of the file |
| AcctFile.AcctFile.ReadAcct | csa/lib/acctio.c:217-221 | returns the bytes at the position, as many as there are, and moves behind them |
| AcctFile.AcctFile.WriteAcct | csa/lib/acctio.c:231-235 | overwrites from the position on, extends the file when needed, and leaves every other byte |
| AcctFile.AcctFile.ReadPacct | csa/lib/acctio.c:270-289 | the buffered read of one record refines ReadRecord, position included |
| AcctFile.AcctFile.ReadAcctEnt | csa/lib/acctio.c:317-382 | the forward loop refines ReadEntry, position included |
| AcctFile.AcctFile.Stepback | csa/lib/acctio.c:481-512 | the scan back over eight-byte words refines StepbackFrom: the nearest word before that passes for a header |
| AcctFile.AcctFile.ReadAcctEntBackward | csa/lib/acctio.c:390-466 | the backward loop refines ReadBack, position included |
| AcctWriter.ReadChain | csa/lib/acctio.c:348-382 | a chain that fits the buffer reads back record for record, wherever it stands in a file |
| AcctWriter.SlotsComeBack | csa/lib/acctio.c:553-614 | reading a chain puts every record in the slot it was written from, with AMORE set on all but the last |
| AcctWriter.EntryRoundTrip | csa/lib/acctio.c:675-706 | the bytes of an entry read forward give the records of the entry, whatever stands around them, if and only if the entry is not longer than the readers' buffer of ACCTENTSIZ bytes |
| AcctWriter.FileRoundTrip | csa/lib/acctio.c:348-382 | a sequence of entries written one after another reads back slot for slot, and then the file ends, if and only if every one of them fits the readers' buffer |
| AcctWriter.ReadTooLong | csa/lib/acctio.c:348-382 | a chain longer than the buffer never reads back: the read fails, or its last record comes out short |
| AcctWriter.TooLongEntry | csa/lib/acctio.c:663-706 | an entry of a configuration and a workload management record that is written and does not read back |
| AcctOutput.WritePacct | csa/lib/acctio.c:622-648 | appends the record with AMORE set or cleared, and leaves the record in memory as it was |
| AcctOutput.WriteAcctEnt | csa/lib/acctio.c:663-706 | with every field of the entry holding a record of its own type, appends the bytes of the entry whose slots these are, restores all flags, and returns the number of slots plus one, or 0 when there are none |
| AcctWriter.OrderWritten | csa/lib/acctio.c:688-697 | the records of an entry stand in the file in the order base record, end of job, memory, input/output, delay, start of job, configuration, job header, workload management |
| AcctWriter.FirstRecord | csa/lib/acctio.c:688-692 | the first record is the base record if there is one, else the end of job if there is one, and it is a linked one if and only if there is a linked one and neither of those |
| VerifyLaws.WrittenVerdict | csa/cmd/csaverify.c:535-546 | an entry written and read back cannot start with its first record if and only if it has a linked record but neither a base record nor an end of job |
| VerifyLaws.SojBehindMem | csa/lib/acctio.c:692-697 | a start of job with a memory record: the memory record is written first, and the entry cannot start with it |
| ReaderLaws.RecordOutcome | csa/lib/acctio.c:93-128 | for every file and place, which of the five outcomes reading a record has, by magic, type, size and revision there |
| ReaderLaws.ConvertedRecord | csa/lib/convert_pacct.c:147-197 | an older record comes out with the current revision and size, the same type and flags, and its data |
| ReaderLaws.EntryEndsThere | csa/lib/acctio.c:348-382 | an entry ends as the record behind its linked ones does: whole, or with the code of what is wrong there |
| ReaderLaws.StepbackHits | csa/lib/acctio.c:488-503 | which eight bytes the backward scan takes for a header |
| ReaderLaws.CutOffBackward | csa/lib/acctio.c:424-442 | a file that ends in a record announcing another fails with -1 backward, and ends forward |
| AcctOutput.WritesEntryBytes | csa/lib/acctio.c:675-706 | the chain appended is the one the round trips are about, with one record for each slot |
| AcctBackward.StepbackNearest | csa/lib/acctio.c:488-511 | the scan stops at the nearest word before the start, in steps of eight bytes, that passes for a header |
| AcctBackward.StepbackLands | csa/lib/acctio.c:488-511 | from the end of a record, or any word inside it, the scan lands on its header |
| AcctBackward.BackContinues | csa/lib/acctio.c:390-463 | one backward call collects the records of one entry and leaves the file somewhere behind the record before it |
| AcctBackward.BackwardReversesForward | csa/lib/acctio.c:390-466 | on every file of well-formed entries, reading backward from the end gives the forward entries in reverse, record for record, although calls may end inside the previous record |
| AcctBackward.BackwardSlots | csa/lib/acctio.c:553-614 | a backward read fills each slot with the first record of its kind, a forward read with the last |
| AcctBackward.DirectionsDiffer | csa/lib/acctio.c:553-614 | an entry of two start-of-job records that fills its slot with one of them forward and the other backward |
| AcctBackward.SlotsAgree | csa/lib/acctio.c:553-614 | both directions fill the same slots if and only if in every slot the first record of an entry and the last are the same bytes |
| VerifySpec.FirstPrimary | csa/cmd/csaverify.c:426-441 | the search finds the first primary header from a position on, and none before it |
| VerifySpec.Resync | csa/cmd/csaverify.c:459-505 | gives up exactly when there is no primary header behind prevprev_loc, retracts exactly when the first one is before prev_loc, reports up to that header, and stands on it |
| VerifySpec.StepDescends | csa/cmd/csaverify.c:896-904 | the loop terminates on every file although prev_loc may move backward: (bytes behind prevprev_loc, rank) decreases with every step |
| VerifyProofs.InvStep | csa/cmd/csaverify.c:860-904 | every step keeps: the decided stretches tile the file up to prev_loc, the reported ranges are the bad ones, and accepted entries read as acceptable |
| VerifyProofs.InvRetract | csa/cmd/csaverify.c:485-492 | a primary header inside the record accepted or reported last replaces that record by a shorter bad range |
| VerifyProofs.RunEndsFinal | csa/cmd/csaverify.c:860-916 | at the end of every run the reported ranges are the bad stretches, plus the rest of the file when the scan gave up |
| RepairProofs.OffsetsOrderly | csa/cmd/csaverify.c:271-322 | the final offset file lists increasing, disjoint ranges of positive length; each starts and ends inside the file, the last may instead be open-ended |
| Csaverify.Verifier.ErrOffset | csa/cmd/csaverify.c:288-318 | a second report at the location reported last replaces the first one |
| Csaverify.Verifier.FindPrimaryHdr | csa/cmd/csaverify.c:426-441 | the byte-by-byte search refines FirstPrimary |
| Csaverify.Verifier.CheckLastReadRec | csa/cmd/csaverify.c:459-505 | refines Resync, with its reports and the new prev_loc |
| Csaverify.Verifier.HandlePrimary | csa/cmd/csaverify.c:511-676 | reports and repositions as the kind of the primary record requires |
| Csaverify.Verifier.Pass | csa/cmd/csaverify.c:860-904 | one pass of the main loop refines one step of the state machine, of which VerifyLaws says what every run of it reports |
| Csaverify.Verifier.PrcPacct | csa/cmd/csaverify.c:729-929 | the whole scan terminates and leaves exactly the offset file of the state machine, which is that of the one division of the file that what stands at its borders explains |
| VerifyLaws.OffsetFileIs | csa/cmd/csaverify.c:695-728 | every file has exactly one division into stretches such that what is read at the start of each explains it: an acceptable entry, an unfit one, bytes up to the next primary header where nothing is recognised or an entry is mislinked, an entry cut short at a header inside it when nothing behind it is recognised; and none such header is missed, and it ends only at an end of file, a cut-off record, or where no header follows. The offset file is the bad stretches, and the rest when it does not end at an end of file |
| VerifyLaws.OpenEndMeans | csa/cmd/csaverify.c:494-502 | a range to the end of the file is reported only where a record there is cut off by the end of the file, or where no primary header follows |
| VerifyLaws.DamageIsReported | csa/cmd/csaverify.c:459-505 | where the scan meets a header it does not know, exactly the bytes up to the next primary header are reported, and an acceptable entry there is kept unless nothing behind it is recognised and a header stands inside it |
| VerifyLaws.DamageIsCutOut | csa/cmd/csaverify.c:459-505 | acceptable entries, bytes that are not recognised up to the next header, and acceptable entries to the end: exactly the bytes in between are reported, if no header stands inside the last entry before them |
| VerifyLaws.DamagedFileIsRepaired | csa/cmd/csaverify.c:869-873 | two start-of-job records with four zero bytes between them: those four are reported, and csaedit keeps both records |
| VerifyLaws.HeadersAre | csa/cmd/csaverify.c:373-419 | which eight bytes are the header of a primary record; no site record has one |
| VerifyLaws.VerdictsAre | csa/cmd/csaverify.c:524-628 | the verdict on every entry that can be read, both ways, by the types of its records and the kind of the file |
| Csaedit.CopyBytes | csa/cmd/csaedit.c:337-354 | copying in chunks of the buffer size appends exactly the bytes asked for |
| Csaedit.DeleteInvalid | csa/cmd/csaedit.c:275-402 | deleting the listed ranges writes what Edit says, or aborts where it does |
| EditSpec.RefusedWhen | csa/cmd/csaedit.c:275-402 | what an offset file is refused for at its first bad range: a length neither positive nor the mark, a place already passed, one behind the end of the file; and an empty one |
| EditSpec.EditKeepsUncovered | csa/cmd/csaedit.c:296-402 | on an orderly offset file the editor never aborts and writes exactly the bytes no range covers |
| RepairProofs.KeptIsGood | csa/cmd/csaedit.c:275-402 | deleting the reported ranges leaves the accepted and not retracted entries in order, then the undecided tail |
| RepairProofs.CleanRunReportsNothing | csa/cmd/csaverify.c:860-916 | a run reports nothing if and only if every entry from the start is acceptable up to an end of file |
| RepairProofs.RepairLaw | csa/cmd/csaverify.c:860-916 | for every file: verify, delete what was reported, and the editor succeeds, the result is the good entries and the tail, and verifying it reports nothing |
| RepairProofs.UnreportedIff | csa/lib/acctio.c:353-363 | bytes at the end of a file go unreported with nothing else reported if and only if the file is acceptable entries followed by a chain of records that runs into its end, each announcing another |
| RepairProofs.CutOffIsLeft | csa/lib/acctio.c:353-363 | for such a file exactly the chain is what the verifier leaves undecided |
| RepairProofs.NoCutOffNoTail | csa/lib/acctio.c:353-363 | where no chain runs into the end of the file, repair leaves accepted entries only |
| Csarun.DeletionShrinks | csa/cmd/csarun.in:229-297 | every deletion removes at least one byte |
| Csarun.LoopEnds | csa/cmd/csarun.in:229-297 | verify-and-delete ends for every file, never with editing errors; success means a file in which nothing is reported |
| Csarun.OneDeletionIsEnough | csa/cmd/csarun.in:260-288 | the file after one deletion is the end of it if and only if it is not empty, the first byte kept stands on a primary header, and every accepted entry is acceptable in a file that starts there |
| Csarun.TwoRoundsNeeded | csa/cmd/csarun.in:229-297 | a file whose boot record goes in the first round and whose consolidated record, accepted while the file was sorted, goes in the second |
| Csarun.CsaVerify | csa/cmd/csarun.in:229-297 | the script loop computes that outcome |
| Csarun.CutOffEntrySurvives | csa/lib/acctio.c:353-363 | a concrete file whose cut-off last entry survives verification and repair |
| Eop.EopEntryParses | csa/csad/csa.c:287-463 | for every combination of linked records, the bytes parse to the base record and exactly those records with the data of the process, AMORE on all but the last, and the second header gives their total size |
| Eop.EntrySize | csa/csad/csa.c:287-429 | an entry is the base record plus what its second header announces, and fits the readers' buffer |
| Eop.EntryBuffer.Build | csa/csad/csa.c:287-429 | filling the buffer leaves headers that announce each other |
| Eop.EntryBuffer.LinkMore | csa/csad/csa.c:497-517 | one more linked record: the last header announces it, the second header counts it |
| Eop.EntryBuffer.ModifyBuf | csa/csad/csa.c:475-542 | editing the headers in place and copying gives the bytes a buffer built for the enabled records would have |
| Eop.EntryBuffer.Copy | csa/csad/csa.c:431-455 | the buffer written as it is gives the bytes of the entry it was built for |
| DaemonProofs.ShapeKept | csa/csad/csa.c:591-857 | every request and every event keeps the shape of all system files |
| DaemonProofs.LogGrammar | csa/cmd/csaverify.c:917-923 | in every run an open system file holds ON (data, ON or OFF)*, and a replaced, stopped or halted one ends in FILE or OFF |
| DaemonProofs.OnMeansOpen | csa/csad/csa.c:788-809 | in every run a kernel or daemon method that is on has an open file to write to |
| DaemonProofs.MaskTells | csa/csad/csa.c:1128-1138 | bit i of a mask is set exactly when method i is on |
| DaemonProofs.TablesAreHistory | csa/csad/csa.c:690-786 | in every run a method has the state and the parameter that the last accepted request naming it gave it, or is off since a later halt |
| DaemonProofs.OutputGrows | csa/csad/csa.c:1165-1186 | no step takes back anything it or another step wrote; it appends its own records |
| DaemonProofs.MasksAreTheTables | csa/csad/csa.c:1104-1186 | in every run a configuration record shows bit for bit which methods are on: FILE before the request takes effect, ON and OFF after it |
| DaemonProofs.NegativeThresholdDropsAll | csa/csad/csa.c:439-449 | with a negative memory or time threshold no process below half the range of its usage is written to the system file |
| DaemonProofs.JobStep | csa/csad/csa.c:333-379 | an exit raises its job's marks exactly when the job has a file or csa is on, and the job has a file or memory records are on; nothing else moves them |
| DaemonProofs.HighWater | csa/csad/csa_job.c:51-79 | in every run a live job was begun by a start event and its marks are the maxima over its exits since |
| DaemonProofs.EndOfJobTellsHighWater | csa/csad/csa.c:1225-1266 | in every run the end-of-job record carries those maxima, and the id is free to start over |
| DaemonHistory.JobFileIsHistory | csa/csad/csa.c:431-434 | in every run: a job has a file exactly when some AC_JASTART gave it one and no AC_JASTOP or end of the job took it away since, and the file holds the ON record of that moment, then, in the order of the events since, one entry with everything for each of its processes that ended and one buffer for each AC_WRACCT accepted for it |
| DaemonHistory.EntryOfProcess | csa/csad/csa.c:287-429 | the entry a process leaves in its job's file reads as the base record and the memory, input/output and delay records, each with the data of that process |
| DaemonHistory.SystemFileIsHistory | csa/csad/csa.c:788-809 | in every run: the system file is open exactly when some accepted start opened one and there was no halt since and no stop left all kernel and daemon methods off; it starts with the ON record of that start |
| DaemonHistory.ExitInSystemFile | csa/csad/csa.c:435-463 | what the end of a process adds to the system file, for thresholds and usage in their ordinary range: the base record and the linked ones that are on, exactly if csa is on and the process is neither too small nor too short |
| DaemonHistory.Replies | csa/csad/csa.c:591-1075 | which answer every request gets, and that a refused one changes nothing, except that AC_WRACCT for an unknown job may have written to the system file |
| SessionFile.OutputSound | csa/csad/csa.c:1272-1349 | everything written in any run is a single record of the daemon's own, an end-of-process entry, or the bytes of an AC_WRACCT request of that run |
| SessionFile.JobFilesAreWhole | csa/csad/csa.c:431-434 | in every run, whatever bytes daemons hand in, a job's open file starts with ON and then holds only whole end-of-process entries, whatever is enabled for the system file, and what was handed in |
| SessionFile.DaemonFilesVerify | csa/cmd/csaverify.c:917-923 | csaverify, given the bytes of any system file the daemon closed or still writes, takes it for an unsorted file and reports nothing, if what daemons handed in was fit for such a file and the entry checks object to none of its entries |
| SessionFile.WkmgIsAcceptable | csa/cmd/csaverify.c:586-601 | an unconsolidated workload management record is fit for an unsorted file |
| Daemon.CsaDaemon.ConfigMake | csa/csad/csa.c:1104-1159 | the loops over the tables build the two masks |
| Daemon.CsaDaemon.DoStart | csa/csad/csa.c:591-722 | AC_START refines its step: file replaced before, methods turned on after, errors change nothing |
| Daemon.CsaDaemon.DoStop | csa/csad/csa.c:727-816 | AC_STOP refines its step: the file is closed when no kernel or daemon method is left on |
| Daemon.CsaDaemon.DoHalt | csa/csad/csa.c:821-857 | AC_HALT refines its step |
| Daemon.CsaDaemon.DoJa | csa/csad/csa.c:940-1015 | AC_JASTART and AC_JASTOP refine their steps |
| Daemon.CsaDaemon.DoWrAcct | csa/csad/csa.c:1020-1075 | AC_WRACCT refines its step, including the write that precedes a failed job lookup |
| Daemon.CsaDaemon.EopToSystem | csa/csad/csa.c:435-463 | thresholds, compared as unsigned numbers, and the enabled records only, on the shortcut and on the editing path alike |
| Daemon.CsaDaemon.AcctEop | csa/csad/csa.c:217-466 | the end of a process refines its step although one buffer serves both files |
| Daemon.CsaDaemon.StartJob | csa/csad/csa_daemon.c:160-165 | a job start refines its step; a second start of the same id does nothing |
| Daemon.CsaDaemon.EndJob | csa/csad/csa_daemon.c:166-173 | a job end refines its step |
| HashTable.GetHash | csa/csad/hash.c:84-100 | the loop over words and the tail computes the bucket, in 32-bit arithmetic |
| HashTable.SumIsWeighted | csa/csad/hash.c:88-97 | the sum it is the remainder of, in closed form: every byte weighted by its place in its word, but for a last one at an odd place |
| HashTable.HashTable.Walk | csa/csad/hash.c:126-139 | walking a chain finds the entry of the key exactly when the table maps it |
| HashTable.HashTable.ChainsDisjoint | csa/csad/hash.c:142-171 | no entry is in two chains, or twice in one |
| HashTable.HashTable.HashFind | csa/csad/hash.c:126-139 | returns what the table maps the key to |
| HashTable.HashTable.HashUpdate | csa/csad/hash.c:174-194 | changes the value of a present key and nothing else |
| HashTable.HashTable.HashEnter | csa/csad/hash.c:142-171 | adds an absent key, leaves a present one alone |
| HashTable.HashTable.HashDelete | csa/csad/hash.c:197-221 | removes the key and keeps every other binding |
| HashTable.DeleteRepresents | csa/csad/hash.c:204-218 | taking an entry out of its chain takes exactly its key out of the map |
| SwitchSpec.CheckName | csa/cmd/csaswitch.c:197-217 | the first method of this name, without regard to case and passing over the gap in the list, or -1 exactly when there is none |
| SwitchSpec.SwitchKeepsTables | csa/cmd/csaswitch.c:923-937 | switching files while a kernel or daemon method is on changes no state and no parameter, however it ends; the old file ends in FILE, the new one starts with ON |
| SwitchSpec.OnKeepsBased | csa/cmd/csaswitch.c:721-730 | turning methods on never leaves a linked record or threshold on without the base record |
| SwitchSpec.OffKeepsBasedIff | csa/cmd/csaswitch.c:1021-1067 | after an off command linked records are still based if and only if the command named a method or none was on |
| SwitchSpec.LinkedImpliesBase | csa/cmd/csaswitch.c:721-730 | over every sequence of commands and events without an off command of empty names, a linked record or threshold that is on implies the base record is on |
| SwitchSpec.EmptyOffBreaksBase | csa/csad/csa.c:737-742 | a concrete sequence, with an empty name, that breaks it |
| Csaswitch.Switcher.ParseNameList | csa/cmd/csaswitch.c:298-323 | marks exactly the named methods, or refuses |
| Csaswitch.Switcher.GetConfig | csa/cmd/csaswitch.c:460-525 | marks what csa.conf turns on; thresholds need a value that is not negative |
| Csaswitch.Switcher.DoOn | csa/cmd/csaswitch.c:700-810 | the on command sends the daemon the request specified, or none; it returns 0 only with the methods as OnDoes says, and changes nothing otherwise |
| SwitchLaws.OnDoes | csa/cmd/csaswitch.c:700-810 | an on command the daemon accepts: every method named, or on in csa.conf when none is, is on; memt has the -m value and time the -t value times 1000000 if they are positive and what csa.conf says otherwise; the base record is on, too, for a linked record or threshold, or when nothing is named; every other method is as before |
| SwitchLaws.OnRefusedIff | csa/cmd/csaswitch.c:1499-1574 | an on command never reaches the daemon if and only if it has an unknown name, a bad or missing threshold, nothing to take from csa.conf, or no usable file where one is needed |
| SwitchLaws.OffDoes | csa/cmd/csaswitch.c:1021-1067 | an off command is refused exactly for an unknown name; it turns off what it names, with the base record all linked records and thresholds, the base record alone if it names nothing, and nothing else |
| SwitchLaws.SwitchStarts | csa/cmd/csaswitch.c:873-887 | with no kernel or daemon method on, a switch turns on what csa.conf asks for and what it names, with the thresholds of csa.conf, and the base record if a linked record or threshold is among them |
| Csaswitch.Switcher.DoOff | csa/cmd/csaswitch.c:1021-1067 | the off command sends the daemon the request specified, and leaves the methods as OffDoes says |
| Csaswitch.Switcher.MoveFile | csa/cmd/csaswitch.c:634-666 | the search for a free number ends, and the file stands under that number and no longer under its name |
| Csaswitch.Switcher.DoSwitch | csa/cmd/csaswitch.c:842-998 | a switch that fails puts every file name back as it was; one that succeeds keeps the old file under a fresh number and a new file in its place |
| GetOptLst.CountPass | csa/lib/basic.c:365-419 | pass one counts the elements and the bytes they need |
| GetOptLst.FillPass | csa/lib/basic.c:437-494 | pass two finds the same elements and writes exactly the bytes pass one reserved |
| GetOptLst.GetOptLst | csa/lib/basic.c:347-495 | count, pointers and characters of the elements, for every string |
| GetOptLst.PointsAtElement | csa/lib/basic.c:437-494 | following pointer k gives element k |
| GetOptLaws.ParseLaid | csa/lib/basic.c:223-242 | a list with blanks, tabs or newlines around its elements, separated by commas or by such blanks alone, with backslashes only where they are needed, parses to its elements, empty ones included |
| GetOptLst.ParseJoin | csa/lib/basic.c:437-494 | quoting any strings and joining them with commas parses back to them, empty ones and trailing backslashes included |
| RecycleSpec.RecGoes | csa/cmd/csarecy.c:499-555 | an entry of a kept job is appended, counted for its bytes, and starts a new period when it must |
| RecycleSpec.KeptJobGoes | csa/cmd/csarecy.c:405-494 | a kept job adds exactly the entries it reaches; the lengths miss them if and only if the job gives up and there is a boot header, and by that many bytes |
| RecycleSpec.OtherJobIdle | csa/cmd/csarecy.c:344-376 | a job that has ended, is only reported, or is declined leaves file and lengths alone; which jobs have ended, EndedJobStays and UnfinishedJobGoes say by their flags |
| RecycleLaws.EndedJobStays | csa/cmd/csarecy.c:342-359 | a job with flag bit 1, 2 or 4, or with bit 8 and without bit 256, leaves everything as it is |
| RecycleLaws.DeclinedJobStays | csa/cmd/csarecy.c:516-541 | so does a job that is declined or only reported, as far as the file and the lengths go |
| RecycleLaws.UnfinishedJobGoes | csa/cmd/csarecy.c:405-494 | any other job adds exactly its workload management entries, its process entries before the first of job 0, and, unless there is one, its job entries: behind a new boot header with the times of its uptime if it began after the last one, behind what stands in the file if not; and the length grows by what its entries count for, unless there is an entry of job 0 |
| RecycleLaws.JobZeroIs | csa/cmd/csarecy.c:499-515 | an entry is one of job 0 when the eight bytes of ac_jid in its base record are zero |
| RecycleLaws.CountedIs | csa/cmd/csarecy.c:434-491 | what an entry counts for, by the sizes in its headers |
| RecycleLaws.BootHeaderSays | csa/include/csa.h:305-317 | the bytes of a boot header: its event, length, and start and stop times in their places |
| Csarecy.VisitAt | csa/cmd/csarecy.c:297-385 | every job of every uptime is visited once, in the order of the file, with the answer given at its turn |
| RecycleSpec.LengthsAreRight | csa/cmd/csarecy.c:840-922 | at the end of every run, over all answers, no boot header gives too much, together they miss exactly what given-up jobs left behind a header, so all give the length of what follows them if and only if no kept job gave up with something written while there was one; and the file holds exactly the entries of kept jobs that were reached |
| RecycleSpec.UptimeLenInFile | csa/include/csa.h:305-317 | the same of the eight bytes of ac_uptimelen in the file: they give the distance to the next boot header or the end of the file in all boot headers under that condition and no other |
| RecycleSpec.JobZeroLosesCount | csa/cmd/csarecy.c:457-460 | a run over one job whose pacct0 has a boot header with length 0 and 208 bytes behind it |
| RecycleVerify.RecycledVerifies | csa/cmd/csaverify.c:729-929 | whatever is recycled and answered, csaverify reports nothing about pacct0 if and only if the entry checks accept its boot headers and every entry kept would be accepted in a file of the kind it takes pacct0 for |
| RecycleVerify.RecycledIsSorted | csa/cmd/csaverify.c:802-811 | when the kept jobs began after the epoch that kind is a sorted file, so pacct0 verifies clean exactly when the entries would in the sorted file they come from |
| RecycleVerify.GoesOn | csa/cmd/csaverify.c:860-904 | a file of whole entries inside another: it is acceptable from there on exactly when the entries are and what follows is |
| Csarecy.Recycler.UptimeRecord | csa/cmd/csarecy.c:840-922 | rewriting the last header in place and appending a new one is NewPeriod |
| Csarecy.Recycler.PreserveRec | csa/cmd/csarecy.c:499-555 | refines its specification: the question comes first, then a boot header if needed, then the entry |
| Csarecy.Recycler.PreserveSection | csa/cmd/csarecy.c:434-491 | the loops over the records of a job refine theirs, giving up only in the process records |
| Csarecy.Recycler.VisitJob | csa/cmd/csarecy.c:342-368 | one job refines its step; a job whose flags say that it has ended changes nothing |
| Csarecy.Recycler.ScanSpacct | csa/cmd/csarecy.c:275-395 | the finished file is the one of which RecycleLaws and LengthsAreRight say which jobs it holds and what its lengths are |
| ReqPool.Pool.Get | csa/cmd/csajrep.c:2003-2037 | hands out a cell nobody has, zeroed, never the first of its block, and disturbs no other |
| ReqPool.Pool.Clean | csa/cmd/csajrep.c:1792-1809 | zeroes every cell but the first of each block and takes all of them back |
| SegList.SpliceLinks | csa/cmd/csajrep.c:1763-1782 | the pointer assignments around a new segment keep the list well linked in both directions and acyclic |
| SegList.SameElementsTotal | csa/cmd/csajrep.c:2170-2216 | what a set of entries adds up to, for a job's user, for a project, or in all, does not depend on the order they are met in |
| RequestSpec.SearchEnds | csa/cmd/csajrep.c:1839-1883 | the segment search of find_wm passes by segments that are not of the job and start earlier or precede one of the job, and ends at the first of the job, ahead of one that starts no earlier, or behind the last |
| RequestLaws.RecordLands | csa/cmd/csajrep.c:2044-2121 | every record goes to the first segment of its job from the current one on, or from the first on if the current one starts later, unless a segment that is not passed by comes first or there is none: then to a new one there. The start of the segment is the least, the end is the greatest for processes and what the end-of-job record says for that; the first entry of the user that fits has the usage added, and the project if it had none, or a new one is behind the others |
| RequestLaws.SectionsStartOver | csa/cmd/csajrep.c:1726-1727 | both sections of records are searched from the first segment on |
| RequestSpec.GatherIsStable | csa/cmd/csajrep.c:1583-1677 | the segments of the workload management records are a stable sort of them by start time |
| RequestSpec.InsertStable | csa/cmd/csajrep.c:1614-1661 | inserting behind all that start no later keeps a stable order by start time |
| RequestSpec.RequestApart | csa/cmd/csajrep.c:1916-1953 | after any records, in the chain of every segment a user has either one entry without a project or entries of different projects |
| RequestSpec.ProcessTotal | csa/cmd/csajrep.c:2044-2121 | one record: every total grows by its share, except that what is moved leaves the total of no project and enters one project of the same user and job |
| RequestSpec.RecordIsRightIff | csa/cmd/csajrep.c:1916-1934 | one record: all totals, those of projects too, grow exactly by its share if and only if no entry with stime gets a project and no stime without a project falls to an entry that has one |
| RequestSpec.UsersAreRight | csa/cmd/csajrep.c:1563-1744 | a whole request: what every user has in every job, and what there is in all, is what the records say |
| RequestSpec.ProjectsAreRightIff | csa/cmd/csajrep.c:1563-1744 | a whole request: no project of a user in a job has less than its records say, no project lacks exactly what was moved, and all are right if and only if nothing was |
| RequestSpec.DriftIsZeroIff | csa/cmd/csajrep.c:1916-1934 | nothing was moved if and only if no record of that user and job moves anything where it comes |
| RequestSpec.NamedProjectsAreRight | csa/cmd/csajrep.c:1916-1934 | a user all of whose records with stime in a job name a project has every project right there |
| RequestSpec.NoProjectIsAnyProject | csa/cmd/csajrep.c:1930-1934 | a request of one workload management record of project 7 and one process of no project, run to its end: 5 under project 7, where the records have none |
| RequestSpec.NoProjectGetsOne | csa/cmd/csajrep.c:1924-1929 | a request of one workload management record of no project and one process of project 7, run to its end: 8 under project 7, where the records have 5 |
| Csajrep.WalkedTotal | csa/cmd/csajrep.c:2170-2216 | what walking the segments and their chains adds up, for a user of a job, for a project, or in all, is what all entries handed out hold: every one is met once |
| Csajrep.Request.FindPlace | csa/cmd/csajrep.c:1640-1650 | the backward search stops at the last segment that starts no later |
| Csajrep.Request.LinkIn | csa/cmd/csajrep.c:1754-1786 | a new segment takes its place, everything else keeps its data, and the request stays valid |
| Csajrep.Request.Gather | csa/cmd/csajrep.c:1583-1677 | the first phase refines its specification, well linked throughout |
| Csajrep.Request.FindSegment | csa/cmd/csajrep.c:1839-1883 | the search over the list refines FindSeg from the start place on |
| Csajrep.Request.FindEntry | csa/cmd/csajrep.c:1920-1953 | the search of the chain refines FindUse: the first entry that fits becomes current, and gets the project if it has none; a new one only when none fits |
| Csajrep.Request.FindWm | csa/cmd/csajrep.c:1826-1953 | find_wm refines its specification: the whole request afterwards, and which segment and entry are current |
| Csajrep.Request.WmProcess | csa/cmd/csajrep.c:2044-2121 | wm_process refines its specification: times, entries and the current segment |
| Csajrep.Request.DoWm | csa/cmd/csajrep.c:1563-1744 | for any records the request stays well linked with every entry in one chain, and its cells hold exactly the segments and usage of the specification |
| Csajrep.Request.CleanWm | csa/cmd/csajrep.c:1792-1809 | leaves an empty request and two allocators whose cells are all free and zero, ready for the next request |
| FindMsg.VisitsEverySlot | csa/intl/dcgettext.c:411-452 | with a prime size above 2 the probe sequence of every message visits every slot |
| FindMsg.ProbeStep | csa/intl/dcgettext.c:434-437 | the step written without overflow is the next probe modulo the size |
| FindMsg.InsertKeepsBuilt | csa/intl/dcgettext.c:411-452 | putting a row in the first free slot of its sequence keeps every row findable |
| FindMsg.FindByHash | csa/intl/dcgettext.c:411-452 | the hashed search ends and finds the row with this text and length, or none |
| FindMsg.FindByBisection | csa/intl/dcgettext.c:454-477 | the binary search finds the row with this text, or none |
| FindMsg.BranchesAgree | csa/intl/dcgettext.c:411-477 | both give the same answer for every message if and only if every recorded length is that of its string |
| PeakOffpeak.PopCalc | csa/lib/peak_offpeak.c:97-165 | prime time is the sum of the overlaps with the daily windows; prime and non-prime add up to the duration plus the midnights crossed at which a window starts |
| PeakOffpeak.PrimeSecond | csa/lib/peak_offpeak.c:131-154 | a single second is prime exactly when it lies in the window of its day, the end of the window excluded |
| PeakOffpeak.Additive | csa/lib/peak_offpeak.c:125-165 | splitting a span anywhere splits both counts |
| PeakOffpeak.PartsAddUp | csa/lib/peak_offpeak.c:125-165 | the parts add up to the whole exactly when no window starts at a midnight of the span |
| PeakOffpeak.MidnightCountsTwice | csa/lib/peak_offpeak.c:131-154 | a table and a second that is counted twice |
| DiskSort.DuList.Swap | csa/cmd/acctdusg.c:397-413 | relinks two neighbours in place |
| DiskSort.DuList.Sort | csa/cmd/acctdusg.c:365-395 | ends, and leaves the same nodes sorted by uid, equal ones in their old order |
| DiskSort.ExchangeInversions | csa/cmd/acctdusg.c:386-391 | exchanging two neighbours in the wrong order removes exactly one inversion |
| DiskSort.StableSortIsUnique | csa/cmd/acctdusg.c:365-395 | sorted and stable leaves only one possible outcome |

## Left out

- Daemon.CsaDaemon: write errors and capability checks of the requests; every write succeeds and every caller is authorised.
- DaemonSpec: AC_CHECK, AC_KDSTAT, AC_RCDSTAT and AC_AUTH, which change nothing, and the same file being opened twice.
- Daemon.CsaDaemon.StartJob: the job table is a map here; that the C table behaves as one is proved in HashTable.
- Eop.EntryBuffer: the bodies of the records come from the process and are not computed here, apart from the half-tick minimum of CPU time that the time threshold is compared with.
- SessionFile.DaemonFilesVerify: of runs in which a daemon handed in bytes that are not one entry fit for an unsorted file it says nothing, as the daemon writes any bytes it is handed; what such bytes do to a file is the business of the repair law.
- AcctReader.ConvertPacct: a short record of an old revision is filled up with zeros, where the C code leaves what the buffer held before.
- AcctReader: header revisions other than those the conversion tables know, and stream errors other than a short read.
- Csaverify.Verifier.PrcPacct: the -m limit, the printed messages and the count of good records.
- Csaverify: `invalid_pacct` is an arbitrary judge of an entry; the checks of `csa/lib/valid.c` are one such judge and are not modelled.
- Csaedit: option -A, the listing of a file in text form, and sorting by the editor.
- HashTable: hash_delete_table, and freeing of memory.
- SwitchSpec.Sends: the exit status and the messages of csaswitch, the check and status commands, and another controller acting between its two requests.
- Csaswitch.Switcher.DoFile: owner, group and mode of the accounting file.
- GetOptLst: allocation failures.
- RecycleSpec.ScanAll: the sorted file is given as its entries; seeking in it, and the report that is printed, are left out.
- RecycleSpec.LengthsAreRight: wrap-around of the 32-bit byte count of a single job of more than two gigabytes.
- Csarecy.Recycler.WriteEntry: appends the bytes AcctOutput proves writeacctent to append; its slots are not kept as arrays here.
- ReqPool.Pool: a block is an indexed sequence and the chain of blocks is their order, not a pointer in the first cell.
- Csajrep.Request: links are references into those blocks, held in fields of the cells; names, high-water marks, delays, user time and the wall clock of a request are left out, as is printing.
- RequestSpec.Sum: wrap-around of the 64-bit sum; project numbers are read as signed, so that DEFAULT_PRID is -2.
- FindMsg.FindMsg: loading the catalogue, byte order, and how strings lie in the mapped file.
- PeakOffpeak.PopCalc: the 32-bit loop variable, and parsing of the holiday file.
- DiskSort: building and printing the list.
- Reports (csacom, csacrep, csadrep, csacms), consolidation (csaaddc, csacon), option parsing, sockets and netlink: not modelled.
- csabuild is not part of this model.
