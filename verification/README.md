# Verified model of the Lab 0 kernel's debug-information reader

The project models, in Dafny, the part of the Lab 0 kernel that turns an instruction pointer into a
function, a line and unwind rules, and the routines around it:

| files | what they model |
|---|---|
| `Machine`, `Leb128`, `FixedWidth` | bytes, 32- and 64-bit words, the number decoders of `libdwarf_rw.c` |
| `AbbrevTable`, `DieReader`, `DieTree`, `DieValues`, `DieWalk` | abbreviations, attribute forms, debugging entries, what their attributes mean, and the walk over the flattened tree |
| `CompUnits`, `Kdebug`, `Phantom` | unit headers, the query for the function that holds an address, and an input on which it goes wrong |
| `LineProgram`, `LineMatrix`, `LineHeader`, `LineStandard`, `SourceLine` | the line-number program, the matrix of the standard, the program's header, the opcodes of the standard with their bytes and effects, and the line of an address |
| `FrameMachine`, `FrameTable`, `FrameRules`, `FrameReport`, `FrameRun`, `CfiStandard` | the call-frame instructions, the table of rules handed to the caller, and the instructions of the standard with their bytes and effects |
| `EhFrame`, `EhEncode`, `EhWalk`, `EhReader` | CIEs, FDEs and the walk over `.eh_frame` |
| `ElfLoad`, `ElfEncode`, `LoadedQuery` | loading section headers and debug sections from disk, the ELF headers as they are laid out, and the query on what was loaded |
| `Numerals`, `PrintFmt`, `PrintRun`, `PrintSpec`, `Strtol`, `StrtolSpec` | the formatter, the bounded buffer, what directives mean as they are written, the number parser, and numbers as they are written |
| `Screen`, `InputRing` | the text screen and the console input buffer |
| `ListQueue` | the doubly linked lists of `queue.h` |
| `BootPaging` | the boot page tables |

The shape is the same everywhere. A function says what a routine computes from its input bytes or
state, a method in the source's own form (cursor loops, objects updated in place) is proved to
compute it, and lemmas relate that function to something independent of the code: an encoder, a tree,
a complete table, an endless sheet of paper, a translation of addresses. What a standard fixes, its codes,
its layouts and the effects of its instructions, is written out there with the standard's own numbers
(`DieTree.StandardLayout`, `CfiStandard`, `LineStandard`, `EhEncode.FormatWidth`, `ElfEncode`).

Conventions of the model:

- `Fault`, `Undefined` and the like stand for what C gives no meaning to: reading outside the memory
  given, shifting an `int` by 32 or more, a missing argument. Methods require their absence; every
  error the source itself reports is a result.
- `int` shifts and `long` additions that overflow wrap around, as the compiler in use makes them do.
- Pointers into a section are offsets.
- The standards meant are DWARF 4 and sections 10.5 and 10.6 of LSB Core 5.0; the line header is that of
  versions 2 and 3.

`dafny verify dfyconfig.toml` checks the whole project.

## What the proofs found

Where a property one would expect is false of the code, the code is modelled as it is, and a lemma
states exactly when the property holds:

- Unsigned LEB128 numbers are read back exactly below 2^31, signed ones exactly from -2^31 up to 2^31
  (`Leb128.UlebRoundTrip`, `Leb128.SlebRoundTrip`).
- An attribute is read back, and the cursor moved past it, exactly unless it is a `ref_addr` of
  version 4 (`DieTree.AttrRoundTrip`).
- The record of an attribute with an indirect form does not keep the final form, so two values can leave
  the same record (`DieValues.FinalFormLost`), and a name in such a form is not noticed
  (`DieValues.NameIsString`).
- A DW_AT_sibling through an indirect form is followed by the form of its definition, so the offset of the
  unit is added to a `ref_addr` as well: the target is right exactly if it is no such reference or the
  unit starts the section (`DieWalk.TargetExact`).
- `DW_LNE_end_sequence` makes no row, and the machine goes from sequence to sequence without a look at
  where they lie. Its answer is the row of the sequence that holds the pc exactly when no row up to that one
  lies beyond the pc and the next one does (`LineMatrix.EndSequenceMissed`): for every pc in a sequence if the
  addresses never fall (`LineMatrix.RisingIsReached`), but for none in the lower of two sequences of one row
  in falling order (`LineMatrix.FallingSequences`).
- A standard opcode of the line-number program that the machine does not know is passed over right exactly if it
  has no operands (`LineStandard.UnknownOpcodeExact`).
- One shadow table stands for both the initial rules and the stack of remembered rows. The table is the
  standard's after every instruction exactly in the programs in which every `DW_CFA_restore_state` restores
  what was remembered last, and every `DW_CFA_restore` finds the initial rule there
  (`FrameTable.TogetherIffSound`, `FrameTable.RestoreStateExact`, `FrameTable.RestoreAfterRemember`). For
  the rows that is sufficient; a wrong restore that is overwritten before its row closes is harmless
  (`FrameTable.OverwrittenIsHarmless`).
- The start of the row reported is the location of the last instruction that sets a rule, without a look at
  `DW_CFA_same_value` (`CfiStandard.RowPcIsLastNoted`): it is where the row in force begins if every row has an
  instruction other than that (`CfiStandard.RowPcIsRowStart`).
- `DW_CFA_set_loc` ends the program, which is right whatever follows exactly when the new location lies
  beyond the pc (`FrameTable.SetLocEnds`).
- The routine that hands the rule table on drops the kinds of all rules and the addresses of expressions:
  the caller reads the rule prescribed exactly unless that is an expression, a val_offset, an offset beyond
  64 bits or a register number too large or reserved (`FrameReport.RuleSurvives`,
  `FrameReport.CfaRuleSurvives`). Expressions, val_offsets and such register numbers are lost to any other
  way of reading the columns as well (`FrameReport.LostToEveryReading`). The caller learns the rule for the CFA exactly if its column is one of the 66,
  which the default is not (`FrameReport.CfaReported`).
- The sizes that a CIE of version 4 holds are taken for its alignment factors (`EhEncode.Version4Misread`).
- FDEs are read under the CIE read last, whichever they name: right as far as location and range go if that
  CIE agrees in encoding and augmentation (`EhWalk.FdeRoundTrip`), and with the factors of their own CIE
  exactly if both say the same (`EhWalk.OwnCieExact`).
- A CIE without augmentation data keeps the pointer encoding of the CIE read before it
  (`EhEncode.CieRoundTrip`), and its FDEs are then misread (`EhWalk.StaleEncodingMisreads`).
- The end of an FDE's range is computed in 64 bits: an FDE that ends at 2^64 is never found
  (`EhWalk.HoldsExactly`, `EhWalk.TopMissed`).
- A length in `.eh_frame` that runs past the section leaves the search where it is, so it ends exactly if
  an FDE that holds the pc, a terminator or the end of the section comes before the first such length
  (`EhWalk.BadLengthNeverEnds`, `EhWalk.SearchEnds`). A CIE with a 64-bit length is read as an FDE
  (`EhWalk.ExtendedCieMisread`).
- `_get_next_cu` tests `>` where `>=` is meant, and reads one header past the section. Where no function of
  the section holds the address, the query finds one exactly if the bytes there make a header of a known
  version and of a unit shorter than that header, the last unit entry has children, and their bytes, read
  under this header, hold a match (`Kdebug.AnswerExact`, `Kdebug.DebuginfoRip`); it does for some input
  (`Phantom.PhantomReports`). What is there after loading is decided by the image
  (`LoadedQuery.QueryAfterLoading`).
- `list_func_die` tests `low_pc < addr < high_pc`, both strictly, and takes `high_pc` for an address. The
  query finds the function that section 2.17.2 of DWARF 4 assigns to the address exactly unless the
  address is its first, or, where `high_pc` is an offset, is not below that offset
  (`CompUnits.RangeExact`, `CompUnits.QueryExact`).
- A precision of zero cannot be written in any directive: a 0 behind the dot is read as the padding flag
  (`PrintFmt.ZeroPrecisionIsFlag`).
- The flag `-` pads numbers on the left with minus signs (`PrintSpec.DirectivePrints`). What a number format prints is read back
  exactly if the padding is zeros, or blanks with no sign or prefix behind them, or there is none, or it
  is a single minus sign before 0 or 2^63 (`Strtol.StrtolUndoesPrint`).
- A full console ring of 512 bytes looks empty (`InputRing.FifoIffNoOverflow`).
- The comment at `Lab 0/kern/bootstrap.S:73` says 64th entry; the entry filled first is the 32nd, and
  that is the right one (`BootPaging.BootMapping`).

## Model

| member | source | states |
|---|---|---|
| Machine.OrDisjoint | Lab 0/kern/libdwarf_rw.c:54-71 | `\|` of patterns without a common bit is their sum, in either order |
| Leb128.ReadUleb128 | Lab 0/kern/libdwarf_rw.c:198-216 | the loop over 7-bit groups yields the unsigned value of the groups as the int shifts leave it, and moves the offset past exactly them |
| Leb128.DecodeUleb128 | Lab 0/kern/libdwarf_rw.c:241-259 | the pointer form agrees with the offset form on value and advance |
| Leb128.ReadSleb128 | Lab 0/kern/libdwarf_rw.c:175-196 | the same for signed numbers, with the sign fill |
| Leb128.DecodeSleb128 | Lab 0/kern/libdwarf_rw.c:218-239 | the pointer form of the signed decoder agrees with the offset form |
| Leb128.UlebRoundTrip | Lab 0/kern/libdwarf_rw.c:198-259 | decoding undoes the minimal unsigned encoding, whatever follows it, if and only if the number is below 2^31; undefined exactly from 2^35 on |
| Leb128.SlebRoundTrip | Lab 0/kern/libdwarf_rw.c:175-239 | decoding undoes the minimal signed encoding if and only if the number fits a 32-bit int; undefined exactly outside 35 bits |
| Leb128.UlebExtend | Lab 0/kern/libdwarf_rw.c:175-216 | bytes behind a number do not change how it is read |
| FixedWidth.ReadAt | Lab 0/kern/libdwarf_rw.c:47-137 | both byte orders: the value of the bytes by position; the offset moves by the width, not at all for an unknown width |
| FixedWidth.DecodeLsb | Lab 0/kern/libdwarf_rw.c:76-102 | the fall-through switch on a moving pointer yields the positional value and moves by the width, or by nothing |
| FixedWidth.DecodeMsb | Lab 0/kern/libdwarf_rw.c:139-173 | so do the separate cases of the big-endian one |
| FixedWidth.DecodeAt | Lab 0/kern/libdwarf_rw.c:334-343 | through either byte order the pointer forms agree with the offset forms |
| FixedWidth.LsbSwitchValue | Lab 0/kern/libdwarf_rw.c:54-71 | the shifts and ors of the little-endian switch make the positional value, for every width |
| FixedWidth.MsbSwitchValue | Lab 0/kern/libdwarf_rw.c:112-134 | the shifts and ors of the big-endian switch make the positional value |
| FixedWidth.FixedRoundTrip | Lab 0/kern/libdwarf_rw.c:47-137 | reading undoes writing in either byte order if and only if the value fits the width |
| AbbrevTable.AbbrevParse | Lab 0/kern/libdwarf_rw.c:408-470 | the declaration at the offset is parsed into the structure in place and the offset moves to its end; nothing at the end of the section |
| AbbrevTable.ParseAttrDefs | Lab 0/kern/libdwarf_rw.c:451-464 | the loop collects the attribute definitions up to the pair of zeros |
| AbbrevTable.AbbrevFind | Lab 0/kern/libdwarf_rw.c:473-510 | the search leaves the declaration found in the structure, or reports none |
| AbbrevTable.ParseUndoesEncode | Lab 0/kern/libdwarf_rw.c:408-470 | a declaration of at most 32 attributes, encoded by section 7.5.3 of DWARF 4, is parsed back, with its exact length |
| AbbrevTable.FindIsLookup | Lab 0/kern/libdwarf_rw.c:473-510 | on an encoded table the search is a lookup in the list of declarations |
| AbbrevTable.LookupIsFirst | Lab 0/kern/libdwarf_rw.c:473-510 | that lookup finds the first declaration with the code, and none if and only if no declaration has it |
| DieReader.ReadString | Lab 0/kern/libdwarf_rw.c:263-279 | the offset moves behind the NUL of a string or to the end of the section |
| DieReader.ReadWords | Lab 0/kern/libdwarf_rw.c:532-610 | the two value words of every form and the bytes it takes |
| DieReader.AttrInit | Lab 0/kern/libdwarf_rw.c:513-636 | one attribute is added to the entry in place, indirect forms followed; an unknown form is reported; how many bytes each form takes is pinned by `DieTree.LayoutExact` |
| DieReader.LoadEntry | Lab 0/kern/libdwarf_rw.c:656-698 | one turn of the scan: a null entry, a failure, or the entry with its attributes |
| DieReader.SearchDieWithinCu | Lab 0/kern/libdwarf_rw.c:638-702 | the scan with its level counter ends with the outcome of the recursive scan, the buffer included |
| DieReader.OffDie | Lab 0/kern/libdwarf_rw.c:705-721 | the entry at an offset of the unit, or the code the scan reports |
| DieReader.AttrFind | Lab 0/kern/libdwarf_rw.c:723-740 | the first attribute with the name, or none |
| DieReader.SiblingOf | Lab 0/kern/libdwarf_rw.c:742-791 | the shortcut by DW_AT_sibling, the entry right behind, or the scan from level 1 |
| DieReader.Child | Lab 0/kern/libdwarf_rw.c:793-815 | the first entry behind one flagged with children |
| DieTree.LayoutExact | Lab 0/kern/libdwarf_rw.c:532-610 | the switch gives every form the layout that section 7.5.4 of DWARF 4 writes down for its code, the unknown ones included, if and only if it is not a ref_addr of version 4 |
| DieTree.AttrRoundTrip | Lab 0/kern/libdwarf_rw.c:513-636 | reading an attribute undoes its encoding, by the layouts of section 7.5.4 written out code by code, and consumes exactly its length, if and only if it is not a ref_addr of version 4 |
| DieTree.WordsReadBack | Lab 0/kern/libdwarf_rw.c:532-617 | through the two words of a value a consumer who knows its layout finds the value that was encoded |
| DieTree.FillUndoesEncode | Lab 0/kern/libdwarf_rw.c:682-686 | all attributes of an entry are read back in order |
| DieTree.ReadUndoesEncode | Lab 0/kern/libdwarf_rw.c:649-697 | reading an encoded entry builds the entry expected, and stops at its true end |
| DieValues.ValuesReadBack | Lab 0/kern/libdwarf_rw.c:512-697 | reading an encoded entry gives its code, tag and children flag, and for every i an attribute with the name and form of the definition that carries the i-th value, of every kind and through any indirections |
| DieValues.RecordTells | Lab 0/kern/libdwarf_rw.c:526-617 | the record of an attribute whose form is not indirect determines its value |
| DieValues.FinalFormLost | Lab 0/kern/libdwarf_rw.c:528-569 | with an indirect form it does not: two different values leave the same record |
| DieValues.NameIsString | Lab 0/kern/libdwarf_rw.c:620-631 | the name of an entry is the string encoded for its last DW_AT_name in a string form, and is left over from before exactly if there is none |
| DieWalk.ScanSkipsTree | Lab 0/kern/libdwarf_rw.c:638-702 | from any level the scan passes over the whole encoding of any tree and is back at the same level |
| DieWalk.ScanFindsSibling | Lab 0/kern/libdwarf_rw.c:638-702 | started behind an entry with children the level scan ends at its next structural sibling, or reports none if it is the last |
| DieWalk.TargetExact | Lab 0/kern/libdwarf_rw.c:762-781 | the target of a DW_AT_sibling that designates the end of its entry, in any form or through indirections, is read right if and only if it is no ref_addr reached through one, or its unit starts the section |
| DieWalk.SiblingIsNext | Lab 0/kern/libdwarf_rw.c:742-791 | with or without a DW_AT_sibling that is read right the step is to the next structural sibling |
| DieWalk.ChildIsFirst | Lab 0/kern/libdwarf_rw.c:793-815 | the child step is to the first child, or reports none |
| DieWalk.WalkIsTree | Lab 0/kern/libdwarf_rw.c:638-815 | at every entry of every well-formed forest both steps are the structural ones |
| DieWalk.ShortcutRefinesScan | Lab 0/kern/libdwarf_rw.c:762-781 | the jump through a correct DW_AT_sibling and the level scan report nothing, or the same entry up to a name left over |
| DieWalk.HeadIgnoresName | Lab 0/kern/libdwarf_rw.c:620-631 | the name left over from an earlier entry influences nothing but the name |
| CompUnits.Debug.GetNextCu | Lab 0/kern/libdwarf_rw.c:349-400 | the header at the cursor is read field by field and the cursor moves to the next unit |
| CompUnits.HeaderRoundTrip | Lab 0/kern/libdwarf_rw.c:349-400 | an encoded unit header, with a 32- or 64-bit length, is read back and the next offset is the end of the unit |
| CompUnits.MatchIsFunction | Lab 0/kern/kdebug.c:88-96 | the test on the attributes read holds if and only if the tree entry is a subprogram with low_pc < addr < high_pc, in forms of class address or constant, indirect ones included |
| CompUnits.RangeExact | Lab 0/kern/kdebug.c:88-96 | that is the range of section 2.17.2 of DWARF 4 if and only if the address is not the first one, and is below high_pc where that is an offset |
| CompUnits.QueryExact | Lab 0/kern/kdebug.c:179-248 | over all units the first function by the code's test is the first by the standard's range if and only if the latter is one the test notices; where the standard finds none, the query finds none |
| SourceLine.SrcLines | Lab 0/kern/libdwarf_lineno.c:424-448 | the line of the row that the table at DW_AT_stmt_list answers with, 0 without one or with a bad header |
| SourceLine.LineIsStandard | Lab 0/kern/libdwarf_lineno.c:424-448 | on an encoded entry and an encoded table that is the line of the row that the standard's matrix assigns to the address, wherever that row is reached |
| SourceLine.LineOfOpcodes | Lab 0/kern/libdwarf_lineno.c:424-448 | the same for a table whose program is given by the opcodes of section 6.2.5, against the matrix they make |
| Kdebug.ListFuncDie | Lab 0/kern/kdebug.c:76-108 | the entry is reported if and only if it passes the test, with its name, its address, the unit's name and the line |
| Kdebug.RootFound | Lab 0/kern/libdwarf_rw.c:705-721 | at a unit its entry is found; behind the section none is reported if and only if the unit there is longer than its header, and else the entry read last stays |
| Kdebug.KidsFound | Lab 0/kern/kdebug.c:209-225 | the list below that entry is walked under the header read last, if the entry is flagged |
| Kdebug.AnswerExact | Lab 0/kern/kdebug.c:209-245 | where the section has no function for the address something is found if and only if the header behind it is of a known version and too short, the last unit entry is flagged, and the list below it, read under that header, has a match |
| Phantom.PhantomReports | Lab 0/kern/kdebug.c:179-245 | an input with 8-byte addresses above ULIM on which no unit holds an address, and the query returns 0 for every address between two of them |
| Kdebug.NextUnit | Lab 0/kern/libdwarf_rw.c:349-400 | units tile the section: each header read starts where the last unit ended, at least 4 bytes further on |
| Kdebug.HeaderStep | Lab 0/kern/libdwarf_rw.c:349-357 | one header read at any standing of the cursor, the one behind the last unit included, keeps the answer exact |
| Kdebug.ScanList | Lab 0/kern/kdebug.c:231-240 | the loop visits the top-level entries of a unit once, in order, and stops at the first function that holds the address |
| Kdebug.SearchUnit | Lab 0/kern/kdebug.c:218-240 | one turn of the loop over units, at a unit or behind the last one, and what is left in the buffer of the unit entry |
| Kdebug.DebuginfoRip | Lab 0/kern/kdebug.c:179-248 | the query returns 0 if and only if some top-level subprogram has low_pc < addr < high_pc, or else something is found behind the section, and reports the first, with its address, the strings encoded as its name and its unit's, and the line |
| LoadedQuery.HeaderTaken | Lab 0/kern/libdwarf_rw.c:349-400 | the bytes behind the section are taken for a unit header if and only if their version is 2 to 4 |
| LoadedQuery.QueryAfterLoading | Lab 0/kern/kdebug.c:179-248 | after loading these are the bytes behind .debug_info in the image, so without a known version there the query's answer is the section's |
| LineProgram.EarlyExitIsLookup | Lab 0/kern/libdwarf_lineno.c:54-213 | the machine with its early exit answers with the last row before the first one beyond pc in the complete matrix, from any state |
| LineProgram.GreatestRow | Lab 0/kern/libdwarf_lineno.c:54-213 | with nondecreasing addresses that is the greatest row not above pc, and zeros if and only if there is none |
| LineProgram.ExpansionPreservesMeaning | Lab 0/kern/libdwarf_lineno.c:137-202 | replacing a special opcode anywhere by advance_line, advance_pc and copy changes no answer and no row count |
| LineProgram.SpecialOpcodeDelta | Lab 0/kern/libdwarf_lineno.c:94-95 | a line and address advance encoded by section 6.2.5.1 of DWARF 4 is what executing the opcode adds |
| LineMatrix.EndSequenceMissed | Lab 0/kern/libdwarf_lineno.c:54-213 | for any number of sequences in any order the answer and the row count are those of the row whose sequence holds pc if and only if no row up to it lies beyond pc and the next one does; none is answered for a pc in no sequence if and only if the first row lies beyond pc |
| LineMatrix.RowsArePlain | Lab 0/kern/libdwarf_lineno.c:116-120 | the machine makes the rows of the standard's matrix that end no sequence |
| LineMatrix.RisingIsReached | Lab 0/kern/libdwarf_lineno.c:73-85 | with addresses that never fall every pc in a sequence is answered right |
| LineMatrix.FallingSequences | Lab 0/kern/libdwarf_lineno.c:73-85 | of two sequences of one row in falling order the machine answers no pc of the lower one, though the standard's matrix has its row |
| LineProgram.Registers.Extended | Lab 0/kern/libdwarf_lineno.c:108-132 | an extended opcode moves the registers as specified and the pointer past it |
| LineProgram.Registers.Standard | Lab 0/kern/libdwarf_lineno.c:137-186 | so does a standard opcode, for each of which `LineStandard.MovedIsStandard` says what that is |
| LineProgram.StepProgram | Lab 0/kern/libdwarf_lineno.c:106-205 | one turn of the loop: registers, row, count and early exit |
| LineProgram.RunProgram | Lab 0/kern/libdwarf_lineno.c:54-213 | the loop leaves the row and the count of the machine, for which `LineStandard.AnswerIsStandard` says which row that is |
| LineProgram.AddFile | Lab 0/kern/libdwarf_lineno.c:217-263 | a file entry is skipped: name and three numbers |
| LineStandard.DecodeUndoesEncode | Lab 0/kern/libdwarf_lineno.c:106-205 | every opcode of section 6.2.5, encoded with the numbers and operands of section 7.21, is decoded as itself and with its length, whatever follows |
| LineStandard.UnknownOpcodeExact | Lab 0/kern/libdwarf_lineno.c:183-186 | a standard opcode the machine does not know is passed over right if and only if it has no operands |
| LineStandard.MovedIsStandard | Lab 0/kern/libdwarf_lineno.c:106-205 | every opcode does to the registers what the standard says: const_add_pc advances the address as special opcode 255 and leaves the line, fixed_advance_pc adds its operand as it is, and so on for each |
| LineStandard.ProgramDecodes | Lab 0/kern/libdwarf_lineno.c:106-205 | the bytes of a program decode to its opcodes, one for one |
| LineStandard.MatrixIsStandard | Lab 0/kern/libdwarf_lineno.c:54-213 | the matrix of what is decoded is the matrix of section 6.2 of the opcodes encoded |
| LineStandard.AnswerIsStandard | Lab 0/kern/libdwarf_lineno.c:54-213 | from the bytes of a program to the answer: the row that the standard's matrix assigns to pc, if and only if it is reached |
| LineHeader.OpenRoundTrip | Lab 0/kern/libdwarf_lineno.c:305-398 | opening an encoded line table finds its parameters and exactly the bytes of its program |
| LineHeader.LineTableLookup | Lab 0/kern/libdwarf_lineno.c:265-422 | from the section to the answer: the last row before the first beyond pc, or zeros |
| LineHeader.LinenoInit | Lab 0/kern/libdwarf_lineno.c:265-422 | header, lists and program are read with a moving pointer; bad lengths are reported and leave the row alone |
| FrameTable.EarlyExitIsRowInForce | Lab 0/kern/libdwarf_frame.c:134-500 | on every program on which one shadow suffices, the early-exit machine reports the row in force in the complete table, which is built with separate initial rules and a stack |
| FrameTable.TogetherIffSound | Lab 0/kern/libdwarf_frame.c:134-500 | after every instruction the machine has the table of the complete interpretation if and only if every restore_state and every restore of the program finds in the shadow what it asks for |
| FrameTable.OverwrittenIsHarmless | Lab 0/kern/libdwarf_frame.c:215-336 | for the rows that is not necessary: a program with a wrong restore whose row is right |
| FrameTable.DomainIsSound | Lab 0/kern/libdwarf_frame.c:134-500 | programs without nested remember_state and without a restore behind one are such programs |
| FrameTable.ShadowIsLastRemembered | Lab 0/kern/libdwarf_frame.c:324-336 | after any program the shadow holds the table remembered last, or the initial one |
| FrameTable.RowsSorted | Lab 0/kern/libdwarf_frame.c:193-268 | rows come in order of their locations unless an advance wraps around |
| FrameTable.InForceIsGreatest | Lab 0/kern/libdwarf_frame.c:193-268 | in sorted rows the one in force is the last that begins at or below the pc |
| FrameTable.RowPcBounds | Lab 0/kern/libdwarf_frame.c:193-268 | the reported row begins between the first location and the requested pc |
| FrameTable.InternalTableIsRowInForce | Lab 0/kern/libdwarf_frame.c:503-550 | CIE then FDE instructions give the row in force at pc of the FDE's complete table, on the rules the CIE's table ends with |
| FrameTable.RestoreAfterRemember | Lab 0/kern/libdwarf_frame.c:215-228 | behind any program restore takes the rule from the table remembered last, right if and only if that is the initial rule |
| FrameTable.RestoreStateExact | Lab 0/kern/libdwarf_frame.c:324-336 | behind any program restore_state brings back the table remembered last, right if and only if that is the top of the stack |
| FrameTable.SetLocEnds | Lab 0/kern/libdwarf_frame.c:235-244 | set_loc ends the program; what is reported is right for every continuation if and only if the new location lies beyond the pc |
| FrameReport.RuleSurvives | Lab 0/kern/libdwarf_frame.c:593-615 | in what is copied to the caller, a register reads as the rule the instruction prescribes if and only if that is an offset or register that fits, undefined, same value or a restored rule |
| FrameReport.LostToEveryReading | Lab 0/kern/libdwarf_frame.c:593-615 | a val_offset, an expression and a register number too large or reserved leave the same columns as another rule, so no reading of the columns gets both right |
| FrameReport.CfaLostToEveryReading | Lab 0/kern/libdwarf_frame.c:593-601 | so do two expressions for the CFA |
| FrameReport.CfaRuleSurvives | Lab 0/kern/libdwarf_frame.c:593-601 | the same for the CFA: register and offset survive, an expression does not |
| FrameReport.ColumnSurvives | Lab 0/kern/libdwarf_frame.c:593-615 | in every column, the CFA's included, one instruction changes what is read as prescribed if and only if its rule for that column survives |
| FrameReport.RowsRead | Lab 0/kern/libdwarf_frame.c:593-615 | so the complete table of entries, read in a column, is that column of the complete table of rules, whatever happens in others |
| FrameReport.ReportIsRuleInForce | Lab 0/kern/libdwarf_frame.c:503-615 | from decoded instructions of CIE and FDE to the caller's columns: for every register whose own rules survive, and for the CFA if its column is reported, the rule of section 6.4.1 of DWARF 4 in force at pc; for encoded instructions that is `CfiStandard.ReportIsStandard` |
| FrameReport.GetFdeInfoForAllRegs | Lab 0/kern/libdwarf_frame.c:553-620 | the table is built and the report filled column by column |
| FrameReport.CopyColumns | Lab 0/kern/libdwarf_frame.c:593-615 | the loop copies the CFA's rule to its column, if there is one, and the registers' rules to the others; further columns stay |
| FrameReport.CfaReported | Lab 0/kern/libdwarf_frame.c:593-601 | the report does not depend on the CFA's rule if and only if its column is beyond the report, as the default column is |
| FrameRun.RegtableCopy | Lab 0/kern/libdwarf_frame.c:93-131 | the copy, with undefined entries where the source is shorter; an equal table for equal sizes |
| FrameRun.InstAt | Lab 0/kern/libdwarf_frame.c:190-482 | one instruction with its operands, and the pointer behind it; which bytes are which is `CfiStandard.DecodeUndoesEncode` |
| FrameRun.SetRule | Lab 0/kern/libdwarf_frame.c:202-476 | the rule of one register is assigned in place, all others stay |
| FrameRun.SetCfa | Lab 0/kern/libdwarf_frame.c:337-434 | the CFA rule is assigned in place |
| FrameRun.ExecInst | Lab 0/kern/libdwarf_frame.c:190-482 | one instruction changes table, shadow, pc and row pc as the machine does, or leaves, or fails |
| FrameRun.RunInst | Lab 0/kern/libdwarf_frame.c:134-500 | the loop is the early-exit machine |
| FrameRun.GetInternalTable | Lab 0/kern/libdwarf_frame.c:503-550 | both programs run on one table with one shadow |
| CfiStandard.DecodeUndoesEncode | Lab 0/kern/libdwarf_frame.c:178-482 | every instruction of section 6.4.2, encoded with the numbers and operand shapes of section 7.23, is decoded as itself and with its length, wherever it lies; expressions keep the address of their block |
| CfiStandard.NoOtherOpcode | Lab 0/kern/libdwarf_frame.c:478-482 | a first byte is no instruction if and only if it is 0x17 to 0x3f |
| CfiStandard.ProgramDecodes | Lab 0/kern/libdwarf_frame.c:174-482 | the bytes of a program decode to its instructions, one for one |
| CfiStandard.StepIsStandard | Lab 0/kern/libdwarf_frame.c:190-482 | each does to the row, the stack and the location what sections 6.4.2.1 to 6.4.2.4 say of it |
| CfiStandard.RowsAreStandard | Lab 0/kern/libdwarf_frame.c:134-500 | so the complete table of what is decoded is the table of section 6.4.1 of the instructions encoded |
| CfiStandard.OrdinaryIsSound | Lab 0/kern/libdwarf_frame.c:134-500 | programs of registers in the table without set_loc, nested remember_state, or restore behind one are such that one shadow suffices |
| CfiStandard.ReportIsStandard | Lab 0/kern/libdwarf_frame.c:503-615 | for CIE and FDE given by their instructions, the interpreter run over their bytes leaves in the column of each register, and of the CFA if reported, the rule that the standard's table has in force at pc, where the rules for that column can be shown |
| CfiStandard.RowPcIsLastNoted | Lab 0/kern/libdwarf_frame.c:166-464 | the start reported for the row is the location of the last rule set up to pc, those by same_value left out |
| CfiStandard.RowPcIsRowStart | Lab 0/kern/libdwarf_frame.c:166-464 | it is where the row in force begins if every row has an instruction that is noted |
| EhEncode.WidthsExact | Lab 0/kern/libdwarf_frame.c:634-661 | each pointer format takes the bytes that the standard gives it |
| EhEncode.PointerRoundTrip | Lab 0/kern/libdwarf_frame.c:622-692 | an encoded pointer is read back in every supported format, absolute or relative to its place |
| EhEncode.LettersRead | Lab 0/kern/libdwarf_frame.c:695-742 | the augmentation letters with their data give the encoding of the last R |
| EhEncode.CieRoundTrip | Lab 0/kern/libdwarf_frame.c:744-843 | a CIE of version 1 or 3 is read back: factors, register and exactly its instructions always, the pointer encoding if and only if it has augmentation data or the encoding before was absolute |
| EhEncode.Version4Misread | Lab 0/kern/libdwarf_frame.c:779-805 | of one of version 4 the address and segment sizes are taken for the factors, the code factor for the register, and without augmentation data more bytes than its own for instructions |
| EhWalk.FdeRoundTrip | Lab 0/kern/libdwarf_frame.c:846-940 | an FDE, with a length field of either size, read under any CIE that agrees with its own in encoding and augmentation, is read back: CIE distance, location, range and exactly its instructions |
| EhWalk.OwnCieExact | Lab 0/kern/libdwarf_frame.c:846-940 | the CIE structure left beside it describes its own CIE if and only if that says the same as the one read last |
| EhWalk.StepCie | Lab 0/kern/libdwarf_frame.c:977-1036 | a step at a CIE lands at start plus length field plus length, with the structure that describes it |
| EhWalk.StepFde | Lab 0/kern/libdwarf_frame.c:977-1036 | a step at an FDE lands at start plus length field plus length, with the structure that describes it |
| EhWalk.WalkFindsFirst | Lab 0/kern/libdwarf_frame.c:63-91 | over any well-formed section, up to a terminator, its end or a bad length, the walk finds the first FDE at or after the cursor whose range holds pc, with the CIE read last and the cursor behind it, and none if and only if there is none; an FDE left over never matches |
| EhWalk.HoldsExactly | Lab 0/kern/libdwarf_frame.c:78-80 | the range test holds if and only if the FDE covers pc and ends below 2^64 |
| EhWalk.TopMissed | Lab 0/kern/libdwarf_frame.c:63-91 | so the first FDE that covers pc is found if and only if it ends below 2^64 |
| EhWalk.EndsAfter | Lab 0/kern/libdwarf_frame.c:63-91 | a walk that ends does so after finitely many turns of the loop, with its outcome |
| EhWalk.NeverEnds | Lab 0/kern/libdwarf_frame.c:63-91 | one that is stuck goes on for any number of turns |
| EhWalk.SearchEnds | Lab 0/kern/libdwarf_frame.c:63-91 | the search ends if and only if a match, a terminator or the end of the section comes before the first bad length |
| EhWalk.BadLengthNeverEnds | Lab 0/kern/libdwarf_frame.c:75-87 | at a bad length any number of turns leaves cursor and structures as they are, unless the FDE in hand holds pc |
| EhWalk.ExtendedCieMisread | Lab 0/kern/libdwarf_frame.c:988-1014 | in either byte order a CIE with a 64-bit length is read by the rules for FDEs |
| EhWalk.StaleEncodingMisreads | Lab 0/kern/libdwarf_frame.c:808-821 | under a left-over encoding of four bytes, signed or not, relative or not, the halves of an absolute location are taken for location and range |
| EhReader.ReadLsbEncoded | Lab 0/kern/libdwarf_frame.c:622-692 | the switch over formats; an omitted pointer changes nothing; an unknown format is reported |
| EhReader.Reader.ParseAugment | Lab 0/kern/libdwarf_frame.c:695-742 | the loop over letters with its two pointers sets the pointer encoding |
| EhReader.Reader.ReadCie | Lab 0/kern/libdwarf_frame.c:744-843 | the CIE structure is filled in place and the cursor lands at the end of the entry; bad length, version or augmentation is reported |
| EhReader.Reader.ReadFde | Lab 0/kern/libdwarf_frame.c:846-940 | the FDE structure is filled in place and the cursor lands at the end of the entry |
| EhReader.Reader.GetNextFde | Lab 0/kern/libdwarf_frame.c:977-1036 | one entry: which structure changes, which does not, and where the cursor goes |
| EhReader.Reader.SearchTurn | Lab 0/kern/libdwarf_frame.c:75-87 | one turn of the loop goes on or ends as the turn of the model |
| EhReader.Reader.GetFdeAtPc | Lab 0/kern/libdwarf_frame.c:63-91 | a search that ends, ends with the outcome of the walk, and with the bounds of the FDE found |
| ElfLoad.SectorsCover | Lab 0/kern/elf_rw.c:194-214 | the sectors read cover the bytes asked for, wherever in its sector the first one lies |
| ElfLoad.Loader.ReadSect | Lab 0/kern/elf_rw.c:226-244 | one sector of the disk is copied and nothing else changes |
| ElfLoad.Loader.ReadSeg | Lab 0/kern/elf_rw.c:184-216 | memory holds the image from the start of the sector on, nothing outside the sectors counted changes |
| ElfLoad.Loader.LoadRange | Lab 0/kern/elf_rw.c:184-216 | the bytes asked for lie at their offset within the sector, among all of their sectors |
| ElfLoad.Loader.LoadSection | Lab 0/kern/elf_rw.c:132-178 | one header: dispatch on the name, load, and the one entry of `section_info` it changes; what the entry says is stated from bytes by `ElfLoad.Loader.ReadSectionHeaders` |
| ElfLoad.Loader.ReadSectionHeaders | Lab 0/kern/elf_rw.c:93-181 | headers, name table and all debug sections lie in memory as in the image, nothing outside changes, an ELF header outside of it stays, the end is returned; every entry of `section_info` tells of the last header with its name: data is addr, size is sh_size, addr is sh_addr for .eh_frame and else where the bytes from sh_offset on lie; without such a header it stays |
| ElfLoad.Loader.LoadHeaders | Lab 0/kern/elf_rw.c:116-125 | the section headers are loaded, and the index of the name table, read from memory behind that, is still the one in the ELF header |
| ElfLoad.LoadedDisjoint | Lab 0/kern/elf_rw.c:132-181 | loaded sections are pairwise disjoint and lie below the end |
| ElfLoad.LastHeaderWins | Lab 0/kern/elf_rw.c:139-176 | `section_info` describes the last header of each kind |
| ElfLoad.NoHeaderNoChange | Lab 0/kern/elf_rw.c:139-176 | and stays as it was for a kind without one |
| ElfLoad.SectionsReadable | Lab 0/kern/elf_rw.c:139-176 | through `section_info` one reads the bytes of the section in the image, and behind them those that follow, to the end of the sectors read |
| ElfEncode.HeaderTaken | Lab 0/kern/elf_rw.c:93-112 | from an ELF header in the layout of the format, the table's offset, the entry size and count, and the index of the name table are taken |
| ElfEncode.HeadersPlace | Lab 0/kern/elf_rw.c:101-104 | where the section headers are looked for in the image |
| ElfEncode.EntryDescribes | Lab 0/kern/elf_rw.c:132-178 | for section headers in the layout of the format: the entry of each of the five names describes the last section with that name, .eh_frame by the address it was linked to and any other by its bytes in memory |
| ElfEncode.FindSection | Lab 0/kern/elf_rw.c:38-52 | the entry with the name, or none |
| PrintFmt.NumberLength | Lab 0/lib/printfmt.c:35-50 | a number takes exactly the greater of its width and its digits |
| PrintFmt.UnrecognisedIsVerbatim | Lab 0/lib/printfmt.c:241-246 | an unrecognised directive, or one cut off by the end of the format, is printed as it stands |
| PrintFmt.ZeroPrecisionIsFlag | Lab 0/lib/printfmt.c:118-156 | no directive without a star has a precision of zero, whatever its flags, widths and dots |
| PrintFmt.ZeroBehindDot | Lab 0/lib/printfmt.c:118-156 | a 0 behind a dot sets the padding and leaves the precision |
| PrintFmt.FirstIsShown | Lab 0/lib/printfmt.c:180-193 | so every such directive prints at least the first character of a string |
| PrintFmt.ErrorFormat | Lab 0/lib/printfmt.c:169-177 | the nested format of an unknown error code prints its text and number |
| PrintRun.SprintBuf.SprintPutch | Lab 0/lib/printfmt.c:267-273 | a character is counted, and stored if there is room |
| PrintRun.SprintBuf.PrintNum | Lab 0/lib/printfmt.c:35-50 | the recursion prints the padded number |
| PrintRun.SprintBuf.PrintText | Lab 0/lib/printfmt.c:180-193 | a string with padding, precision and replaced characters |
| PrintRun.SprintBuf.VPrintFmt | Lab 0/lib/printfmt.c:86-251 | every format prints its stream, never reads past its NUL, and ends; what directives contribute to the stream is `PrintSpec.DirectivePrints` |
| PrintRun.Vsnprintf | Lab 0/lib/printfmt.c:275-292 | the buffer holds the first min(n-1, L) characters of the stream and a NUL and is otherwise unchanged; the result is L |
| PrintRun.PrintBounded | Lab 0/lib/printfmt.c:281-291 | the same behind the check of the buffer and its size |
| PrintSpec.DigitsSpell | Lab 0/lib/printfmt.c:35-50 | the digits printed are the numeral of the number in its base, in small letters, without leading zeros |
| PrintSpec.NumberRead | Lab 0/lib/printfmt.c:130-140 | a width or precision as it is written is read back, whatever that is no digit follows |
| PrintSpec.DirectiveRead | Lab 0/lib/printfmt.c:108-156 | flags, width, dot, precision and long flags in front of a conversion give exactly the padding, width, precision and alternate flag that are written |
| PrintSpec.DirectivePrints | Lab 0/lib/printfmt.c:102-240 | a directive c, s, d, u, o, p, x or % takes its argument and prints, position by position, the character, the text cut to its precision, or sign or prefix and numeral, in a field of its width |
| PrintSpec.ErrorShown | Lab 0/lib/printfmt.c:163-177 | e prints the text of a known code or of its negative, and the number of any other |
| Strtol.Strtol | Lab 0/lib/string.c:239-284 | blanks, sign, prefix and digits are parsed, and where the parse stops |
| StrtolSpec.NumberIsRead | Lab 0/lib/string.c:239-284 | blanks or tabs, a sign, a prefix and digits of a base up to 36 in either case, whatever follows: the value of the numeral in the base of the prefix, negated behind a minus sign, modulo 2^64, and the position behind the digits |
| Strtol.StrtolUndoesPrint | Lab 0/lib/printfmt.c:195-233 | for every 64-bit value, width and flags, reading what %d, %u, %o, %x or %p printed gives the pattern back and ends at the NUL if and only if the padding is readable; the pattern is the value if and only if it fits a long |
| Screen.MemMove | Lab 0/lib/string.c:187-205 | the overlapping copy in either direction moves the old contents |
| Screen.Cga.CgaPutc | Lab 0/kern/console.c:161-209 | after every character the screen is the window of 25 rows on an endless sheet that ends with the deepest row used, the cursor is on it, and what is below is blank |
| Screen.Cga.ShiftUp | Lab 0/kern/console.c:194-201 | scrolling moves every row up by one and blanks the last |
| Screen.ScrolledOffIsFinal | Lab 0/kern/console.c:161-209 | no run of characters changes what has scrolled off |
| Screen.PlainText | Lab 0/kern/console.c:191-203 | ordinary characters fill consecutive cells, across line ends and scrolls, and change no others |
| Screen.LineEnds | Lab 0/kern/console.c:176-181 | a newline moves the cursor to the first cell of the next row, a return to the first cell of its own, and no cell changes |
| Screen.TabIsBlanks | Lab 0/kern/console.c:182-188 | a tab is five blanks |
| Screen.Backspace | Lab 0/kern/console.c:170-175 | a backspace blanks the cell in front of the cursor and goes there, except in the first cell of the screen |
| Screen.BackspaceUndoes | Lab 0/kern/console.c:170-192 | behind an ordinary character it takes that back |
| InputRing.Cons.ConsIntr | Lab 0/kern/console.c:391-403 | device input is queued in order, zeros dropped |
| InputRing.Cons.ConsGetc | Lab 0/kern/console.c:405-425 | the oldest pending byte is taken, or 0 reported |
| InputRing.Conservation | Lab 0/kern/console.c:381-425 | in any interleaving, delivered, pending and 512 for each overflow add up to the input |
| InputRing.FifoIffNoOverflow | Lab 0/kern/console.c:381-425 | readers get the input first in, first out if and only if never more than 511 bytes were pending |
| InputRing.FeedIsEvents | Lab 0/kern/console.c:391-403 | a call of the interrupt routine is that many input events of the interleaving, whatever the device returns |
| InputRing.CallsAreEvents | Lab 0/kern/console.c:391-425 | any run of calls of both routines takes out what its events deliver |
| InputRing.ServedInOrder | Lab 0/kern/console.c:381-425 | over any run of calls the bytes taken out and those waiting are the input in order if and only if the ring never overflowed |
| ListQueue.List.InsertAfter | Lab 0/inc/queue.h:177-183 | the sequence gets the element behind the given one; every back pointer designates the slot of its element |
| ListQueue.List.InsertBefore | Lab 0/inc/queue.h:190-195 | the sequence gets the element before the given one, without traversal |
| ListQueue.List.InsertHead | Lab 0/inc/queue.h:201-206 | the sequence gets the element in front |
| ListQueue.List.Remove | Lab 0/inc/queue.h:212-217 | the sequence loses the element, without traversal; the element's own links stay |
| ListQueue.InsertRemove | Lab 0/inc/queue.h:177-217 | removing what was just inserted restores the sequence, and putting back what was removed does too |
| BootPaging.BuildTables | Lab 0/kern/bootstrap.S:33-64 | the five pages are cleared and linked, and the two directories filled |
| BootPaging.FillDirectories | Lab 0/kern/bootstrap.S:66-85 | the loop over 128 entries with its three moving registers |
| BootPaging.BootMapping | Lab 0/kern/bootstrap.S:33-102 | the four-level walk maps x and KERNBASE + x to x for every x below 2^28, for writing and for the kernel alone, and no other canonical address |

## Left out

- Malformed or truncated sections: reads outside the memory given have no outcome in the model.
- A unit entry flagged with children but having none: `dwarf_child` then fails and the query goes on with what the buffer held before; `Kdebug.DebuginfoRip` asks for at least one child.
- `find_debug_sections` and `_dwarf_find_section_enhanced`: a second filling of `section_info`, and a copy of an entry; the readers take the section they search.
- PrintSpec.DirectivePrints: directives with a star; what these print is the stream of `PrintFmt`.
- Augmentation strings other than the empty one and those that begin with `z`: an old form with `eh` is read (`EhFrame.HasEh`), but has no round trip.
- Kdebug.ListFuncDie: the length of the name and the arguments are not part of the report modelled; the sizes of arguments follow type chains for the first parameter only.
- EhWalk.WalkFindsFirst: FDEs whose CIE differs from the one read last in encoding or augmentation, and CIEs of version 4; what the code makes of them is stated by `EhWalk.StaleEncodingMisreads` and `EhEncode.Version4Misread`.
- Kdebug.DebuginfoRip: what the query answers when the bytes below the last unit entry make no list of entries under the header behind the section.
- User addresses: `debuginfo_rip` panics below ULIM; the model starts behind that test.
- `.debug_frame`: the code that reads it differs from that for `.eh_frame` in the id, and the kernel never uses it.
- The disk commands of `readsect`, port I/O, the serial and parallel ports, the cursor registers: `readsect` copies a sector of an abstract disk, devices are sequences of what they return.
- PrintRun.SprintBuf.VPrintFmt: characters are their low bytes, arguments are 64-bit slots, and the only sink is the bounded buffer; the int that counts characters is unbounded, and `Vsnprintf` asks for fewer than 2^31.
- Screen.MemMove: units are the array's elements, not bytes; the build selects an assembly version of the same function.
- Strtol.Strtol: overflow wraps around, which C leaves undefined.
- The rest of the kernel: monitor, traps, panic, boot sector, descriptor tables, keyboard tables, user programs and build scripts.
