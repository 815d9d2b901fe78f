# fidoconf, modelled and proved

fidoconf is the configuration library of the Husky FidoNet programs. This project models the parts of
it that keep state, calculate or claim an equivalence, and proves what they do. Code that works step
by step is a class or a method here, with the loops, cursors and buffers of the program; each such
method is proved against a function, and the laws are proved of that function.

Six parts are covered.

* **Packet names** (`base36`, `pktname`, `pktgenerator`, `pktprotocol`). A name is seven base-36
  digits, base time plus an offset made of the node's address, and a counter digit. The generator
  runs ahead of the clock and waits at exit. Processes, clock ticks, calls and exits are a state
  machine, and uniqueness is a theorem about all its runs.
* **Traffic statistics** (`statlinks`, `statechoes`, `statfile` on values; `statlist`, `statbook`,
  `statupdate` on linked lists; `statrounds`, `statrun` over rounds of both). Events are counted in a
  sorted list of sorted lists, which is then merged with a sorted file.
* **Configuration reader** (`cfgvars`, `cfglines`, `cfgsyntax`, `cfgwalk`, `cfgeffects`, `cfgblocks`,
  `cfgnested`, `cfgreader`, `cfgread`). Lines with nested conditions, variables and included files,
  read with an explicit stack of conditions and an explicit stack of files. It is shown to do what
  nested blocks and files read in place mean, and to deliver lines without their comments.
* **Permissions** (`permissions`, `access`). Ordered rules applied to all areas at once or to one
  new link.
* **Carbon rules** (`carbon`, `carbonrules`, `carbontable`). Conditions joined into groups that an
  action closes by a walk back.
* **Area lists, codecs and tables** (`areaitems`, `arealist`, `seqoutrun`, `msgbname`, `groups`,
  `findtok`). Duplicates across uplinks, durations, file names, split lists and keyword tables.

`text` and `wrappers` hold string comparison and the optional value.

Where the program does not do what is said of it, the code is modelled as it is, and the exact
condition is proved:

* Names are not unique "throughout the whole epoch", but for base times less than 36^7 seconds apart;
  a run that repeats a name at exactly that distance is given.
* The comment at `src/common.c:992-996` has the two cases of the middle digits the wrong way round:
  the code takes them from the point number when that is not zero, and from the net otherwise.
* The merge of statistics does not advance its predecessor after an insertion. Of several old links
  in one gap between new addresses only the last survives, and the file is right exactly when there
  is no such gap. Two rounds of events and updates that lose a link are given, and over all rounds a
  counter is exactly the tally since the last such loss.
* Setting a variable to nothing looks up the empty value instead of the name, so a variable of the
  environment shows through; one that does is given.
* An `ifdef` whose name expands to nothing opens no level, but its `endif` closes one: the nesting of a
  file is kept exactly when no such line is met. The program notes an error there and later refuses
  the configuration.
* A copy or move strips the name of its area once for the last record of the group and twice for the
  others.
* Deletions and external programs pass over a condition that is a bare NOT, and the netmail flag of
  an external program lands on the group before; runs that show both are given.
* A duration above the largest signed number that is not a multiple of an hour is not read back. The
  parser itself accepts a setting that comes out as one.
* File names of areas can clash when the percent sign is taken out of the reserved characters, or when
  characters are added whose codes are of different lengths.

`dafny verify dfyconfig.toml` checks everything.

## Model

| member | source | states |
|---|---|---|
| Base36.AddDigitsAdds | src/common.c:1200-1205 | Adding two digit vectors place by place with a carry that is dropped at the end gives the digits of the sum, for every width. |
| Base36.DigitsKeepValue | src/common.c:1193-1205 | The value of the n low base-36 digits of a number is the number modulo 36^n: seven digits keep a name modulo 36^7. |
| Base36.DigitsEqual | src/common.c:1193-1205 | Two digit vectors of one width are equal if and only if the numbers agree modulo 36^n. |
| Base36.PrintInjective | src/common.c:1200-1205 | Printed digits are equal if and only if the digits are. |
| PacketNames.StemReads | src/common.c:1193-1207 | A stem read back as a number in base 36 is the base time and 36 times the offset, modulo 36^7, and its last character is the counter; letters are lower-case. |
| PacketNames.OffsetFits | src/common.c:1138-1169 | For every address the eight decimal digits are at most 99999999, the offset (21 times that) fits 32 bits and six base-36 digits, and those digits lose nothing. |
| PacketNames.DecimalsArranged | src/common.c:990-996 | Each of the eight decimal digits of the offset is the digit of node, point or net that the table in the program's comment puts there (with the two rows of the table the other way round). |
| PacketNames.StartCounterDigits | src/common.c:1012-1016 | The counter starts at the number made of the last two digits of the net plus the hundreds digit of the point, modulo 36. |
| PacketNames.NumeralsEqual | src/common.c:1193-1207 | Two eight-character stems are equal if and only if the counters are and the numbers differ by a multiple of 36^7. |
| PacketNames.StemsEqual | src/common.c:1138-1207 | Names of two systems clash if and only if the counters agree and the base times differ by the 36-fold difference of the offsets, modulo 36^7. |
| PacketNames.DifferentOffsetsKeepApart | src/common.c:1138-1169 | Systems whose offset digits differ in any way never clash while their base times differ by less than 756 seconds. |
| PacketNames.PointOffsets | src/common.c:1138-1161 | Offsets of two points of one node differ by 210000 for every step between the last two digits of the point numbers. |
| PacketNames.PointStems | src/common.c:1048-1053 | Two points of one node clash if and only if the counters agree and the base times differ by 7,560,000 seconds per step between their last two point digits, modulo 36^7. |
| PacketNames.PointsKeepApart | src/common.c:1048-1053 | The promise for points: no clash within 7,560,000 seconds when the point numbers differ modulo 100; and the bound is tight, neighbours do clash at exactly that distance. |
| PacketGenerator.PathExactly | src/common.c:1113-1127 | Before the stem stands the directory, with a slash behind it unless it is empty or ends in a slash or a backslash already; behind the stem stand a dot and the extension. |
| PacketGenerator.Generator.MakeUniqueDosFileName | src/common.c:1085-1211 | The imperative generator: the buffer holds the path of PathExactly, with its terminator, for the base time and counter that the step of the protocol emits; the static variables become those of that step; without an exit handler the call returns only when the clock has reached the new base time. |
| PacketGenerator.Generator.ChooseBase | src/common.c:1129-1198 | First call and base change: reads the clock once, moves the base on when the counter is back at its start or the address changed, and waits only when it may not run ahead. |
| PacketGenerator.Generator.WaitAtExit | src/common.c:1066-1083 | After the exit handler the clock is at or past the last base time used, which is what the protocol asks for before an exit; if the clock was there already it is not touched. |
| PacketGenerator.CarryLoop | src/common.c:1200-1205 | The loop from the last place to the first stores the digits of the carried sum in reverse, seven characters, and nothing before them. |
| PacketGenerator.SumIsNumeral | src/common.c:1193-1207 | What the carry loop prints for base time and 36 times the offset, with the counter digit, is the numeral of the sum. |
| PacketGenerator.OffsetDigits | src/common.c:1163-1169 | Six divisions by 36 behind a leading zero are the seven digits of 36 times the offset. |
| PacketProtocol.RunKeepsInvariant | src/common.c:1066-1207 | In every interleaving of ticks, process starts, calls (with and without exit handler) and exits, emissions are strictly increasing in base time and distance from the start counter, all lie after the start of the run, and the next emission lies behind them. |
| PacketProtocol.NamesRepeatExactly | src/common.c:924-1065 | In every run a name is repeated if and only if its counter comes up again after a positive multiple of 36^7 seconds of base time. |
| PacketProtocol.NamesUnique | src/common.c:924-1065 | The promise: in every run whose base times lie less than 36^7 seconds apart all names of the system are different, however far the clock moves on. |
| PacketProtocol.NamesUniqueByClock | src/common.c:924-1065 | So it is enough that the last base time is at most 36^7 seconds behind the clock at the start of the run. |
| PacketProtocol.NamesOfAddressUnique | src/common.c:1138-1207 | The same for the offset and the start counter computed from an address, for every address. |
| PacketProtocol.NamesRepeatAfterEpoch | src/common.c:924-1065 | For every system and every start time there is a run of two processes whose base times are 36^7 seconds apart and whose names are equal: uniqueness over an unbounded epoch is false, and the bound is tight. |
| PacketProtocol.AddressChanges | src/common.c:1176-1190 | A call for another address than the one before begins the next base time, with the start counter of the new address. |
| PacketProtocol.ThirtySixNamesPerSecond | src/common.c:1171-1207 | Call number n of a process uses the base time n / 36 seconds after the first, whatever times its calls find and whether or not the exit handler could be registered, and the counters go round once per base time from the start counter. |
| StatLinks.AcmpExactly | src/stat.c:94-117 | Addresses compare as the numbers do that have zone, net, node and point for digits to the base 2^16, the zone first. |
| StatLinks.PutLinkSorted | src/stat.c:222-295 | One event keeps a chain strictly sorted by address. |
| StatLinks.PutLinkFinds | src/stat.c:222-295 | One event changes the six counters of its own address, by one or by its length, and those of no other. |
| StatLinks.MergedConserves | src/stat.c:431-485 | The repaired merge loop (an inserted node becomes the predecessor): every address has the sum of its old and new counters. |
| StatLinks.MergedSorted | src/stat.c:431-485 | The repaired merge loop keeps the chain strictly sorted. |
| StatLinks.AsWrittenConserves | src/stat.c:431-485 | The loop as written: every address has the sum of its counters, except the old links that were overwritten by a later old link in the same gap between new addresses; those are gone. |
| StatLinks.AsWrittenSorted | src/stat.c:431-485 | The loop as written keeps the chain strictly sorted all the same. |
| StatLinks.AsWrittenExact | src/stat.c:440-465 | The loop as written gives the chain of the repaired loop if and only if no gap between new addresses receives two old links. |
| StatEchoes.PutStatSorted | src/stat.c:147-296 | One event keeps the list of areas strictly sorted by tag up to case, and every chain by address. |
| StatEchoes.PutStatChain | src/stat.c:147-296 | One event changes the chain of its own area and no other. |
| StatEchoes.PutStatCounted | src/stat.c:147-296 | The link counter of every area stays the length of its chain, in 16 bits. |
| StatEchoes.CollectedTallies | src/stat.c:147-296 | After every history of events the lists are strictly sorted and counted, in every area the numbers of the addresses rise, an entry exists if and only if some event concerns it, and each counter is the number, or the sum of lengths, of the matching events in 32 bits. |
| StatEchoes.CountsExactly | src/stat.c:268-292 | Each of the six counters counts its own kind of event: received, sent, duplicate and bad messages, and the bytes of the first two. |
| StatEchoes.AreasOfEvents | src/stat.c:165-214 | After every history the areas are those of the events up to case, each under the tag of its first event. |
| StatList.StatEcho.FindPlace | src/stat.c:222-265 | The walk over the linked chain stops at the first node that is not before the address. |
| StatList.StatEcho.Put | src/stat.c:222-295 | The linked chain in memory after one event is the chain of the value model; the nodes are the old ones and at most one new one. |
| StatList.StatEcho.InsertOld | src/stat.c:439-465 | One round of the merge loop with an old link in front: the new node hangs behind the unchanged predecessor, so an earlier insertion there falls out of the chain. |
| StatList.StatEcho.CombineOld | src/stat.c:466-478 | One round with equal addresses: the six counters are added and the predecessor moves on. |
| StatList.StatEcho.Merge | src/stat.c:431-485 | The loop over both chains with its predecessor, new and old cursor turns the linked chain into the merged chain of the loop as written, and counts every old link that was inserted, also those lost again. |
| StatBook.Book.FindPlace | src/stat.c:165-214 | The walk over the linked list of areas stops at the first tag that is not before the one looked for. |
| StatBook.Book.PutStatistics | src/stat.c:147-296 | The linked list of linked lists after one event is the list of the value model, in the order of AcmpExactly and StricmpExactly, with all nodes still separate and none but the old ones and new ones; nothing happens when statistics are off. |
| StatFile.LinkLayout | src/stat.c:57-67 | The place of every byte of a link in its 32: zone, net, node and point, then messages in, out, dupe and bad, then bytes in and out, each with the lowest byte first. |
| StatFile.EchoLayout | src/stat.c:534-583 | The place of every byte of a record: the number of links as counted, the length of the tag, the tag, the links. |
| StatFile.EchoReads | src/stat.c:585-675 | What is read from any bytes: fewer than four end the file; a tag length that is not positive, or a tag or links that are not all there, break it; a negative number of links means none. |
| StatFile.CutRecord | src/stat.c:585-675 | A record cut off anywhere reads as broken, or as the end of the file if not even its two lengths are there. |
| StatFile.EchoRoundTrip | src/stat.c:534-675 | Reading undoes writing for every record with 1 to 32767 links and a tag of 1 to 32767 bytes, whatever follows it, with the links counted afresh. |
| StatFile.LinkRoundTrip | src/stat.c:567-581 | The 32 bytes of a link give back its address and its six counters. |
| StatFile.FileRoundTrip | src/stat.c:534-675 | Reading a written file to its end gives back the sequence of records. |
| StatFile.RecountedSame | src/stat.c:548-556 | Counting links afresh when writing changes no chain and no order, and nothing at all where the counters were right. |
| StatFile.MergedEchoesSorted | src/stat.c:408-503 | The records written are strictly sorted by tag with sorted chains. |
| StatFile.MergedEchoesChain | src/stat.c:408-503 | Per area the file gets the merged chain if there were events and the old chain if there were none. |
| StatFile.MergedTags | src/stat.c:408-503 | The file names every area that has events as the events do, all others as it did, and no others. |
| StatFile.UpdateFails | src/stat.c:298-532 | The file stays as it was if and only if it has another revision, is broken, or one of the merged records has a tag that cannot be written. Where there is none, or none beyond its header, a new one begins now and holds the new records. |
| StatFile.MergeConserves | src/stat.c:408-503 | Over the whole file every (tag, address) has the sum of its old and new counters, except old links overwritten in a shared gap. |
| StatFile.MergeConservesAll | src/stat.c:408-503 | Nothing is lost anywhere if and only if no gap of any area with events receives two old links. |
| StatFile.GapsOverwrite | src/stat.c:440-465 | A shared gap exists if and only if some old link is overwritten. |
| StatFile.MergedStorable | src/stat.c:408-503 | Merged records are again of the kind that can be written and read back, as long as no merged chain of one area outgrows the 16-bit counter. |
| StatFile.UpdateConserves | src/stat.c:298-532 | The update end to end, as long as no merged chain of one area outgrows the 16-bit counter: the new file reads back as sorted records, the numbers of the addresses rising in each, with the conserved counters, and keeps the start time of the old one. |
| StatUpdate.WriteEcho | src/stat.c:534-583 | The writer walks the chain and appends exactly the bytes of the record, nothing for an area without links, and fails for a tag without a length. |
| StatUpdate.ReadEcho | src/stat.c:585-675 | The reader builds a fresh linked chain that holds the record, and tells the end of the file from a broken file. |
| StatUpdate.UpdateRecords | src/stat.c:408-496 | The main loop over the old file and the linked list of areas writes what the value model prescribes, record by record, or fails where it does. |
| StatUpdate.WriteRest | src/stat.c:498-503 | The areas behind the last old record are written in order. |
| StatUpdate.UpdStat | src/stat.c:298-532 | The whole update on the linked lists: the new file is the one of the value model; on any failure the old file stays and statistics are switched off; nothing happens without events. |
| StatRounds.RoundAdds | src/stat.c:147-532 | One round of events and an update: the file has for every area and address the sum of its counters before and of what the round counted, or no entry if and only if the link was overwritten or neither had one; an overwritten link had no event in that round. |
| StatRounds.RoundsTally | src/stat.c:147-532 | Over any sequence of rounds from the first, starting without a file, whatever gaps are shared, as long as the records can be stored: the file stays sorted and readable, and a link has an entry if and only if it had events since the last round that overwrote it, with exactly the tally of these. |
| StatRounds.RoundsTallyAll | src/stat.c:147-532 | So where no round shares a gap, every counter is the tally of all events of all rounds. |
| StatRounds.LinkIsLost | src/stat.c:440-465 | Two rounds that lose a link, for any three addresses in order: events for the first two, an update, and an event for the third before the next. The first has its counters in the file after one update and no entry after the other. |
| StatRun.RunRound | src/stat.c:147-532 | The linked lists filled event by event, and the update from them, do to the file what a round of the model does. |
| CfgVars.SetVarDiffers | src/cfg.c:157-206 | Setting a variable never leaves two variables with names equal up to case. |
| CfgVars.SetThenGet | src/cfg.c:138-206 | A variable set to a value has that value, and all others keep theirs. |
| CfgVars.UnsetThenGet | src/cfg.c:157-206 | A variable set to nothing is undefined if and only if the environment lacks it or a variable with the empty name is defined: the code looks up the value where it means the name, so the environment shows through. |
| CfgVars.UnsetShowsThrough | src/cfg.c:157-206 | So a variable of the environment that is set to nothing still has its value. |
| CfgVars.ExpandPlain | src/cfg.c:334-343 | Text without brackets is unchanged by expansion. |
| CfgVars.ExpandExactly | src/cfg.c:345-459 | Of every text: what stands before a bracketed name stays, the name gives the value of the variable or nothing, and what stands behind it is expanded in its turn; a bracket that is not closed stays. |
| CfgVars.ExpandUndoesEscape | src/cfg.c:345-459 | Writing every opening bracket and backtick as a bracketed name and expanding gives back the text, whatever the text is. |
| CfgVars.InitialVarsQuote | src/cfg.c:110-132 | The variables set at the start define the two bracketed names that this needs. |
| CfgVars.InitialVarsExactly | src/cfg.c:110-132 | The value of every variable behind the initial ones, whatever its name: the operating system, the five characters, the module only if it had none, and all others as before. |
| CfgLines.StripsFirstComment | src/fidoconf.c:182-209 | For every line: what is kept is a prefix in which no comment begins, without white space at its end, and whatever else is cut is white space or behind the beginning of a comment. |
| CfgLines.UnquotedBack | src/cfg.c:737-747 | A value in quotes is taken without them and without what follows. |
| CfgSyntax.Keywords | src/cfg.c:577-801 | Each keyword is recognised whatever follows it; every word that begins with else is one, unless it is elseif. |
| CfgSyntax.IfLine | src/cfg.c:577-661 | An if, elseif or elif, stripped of comments, tests exactly the text behind it, expanded; whatever that text is. |
| CfgSyntax.IfdefLine | src/cfg.c:595-632 | An ifdef holds if and only if the variable named behind it, after expansion and trimming, has a value, and is an error where that leaves no name. |
| CfgSyntax.IfndefLine | src/cfg.c:595-632 | An ifndef holds if and only if it has none, with the same error. |
| CfgSyntax.SetLine | src/cfg.c:703-751 | A live set line gives the variable named before the first equals sign of its expanded text the value behind it, trimmed and unquoted, up to the first line break of the expanded text; without an equals sign before that it is an error. |
| CfgSyntax.IncludeLine | src/cfg.c:753-799 | A live include line enters the file named behind it, expanded and trimmed, or is an error where there is none. |
| CfgEffects.KindExactly | src/cfg.c:577-801 | Every text is of exactly one kind, by the word it begins with in upper or lower case; one that begins with no keyword is plain. |
| CfgEffects.UnquotedExactly | src/cfg.c:732-747 | For every value: in quotes it ends at the first quote that has no backslash before it, otherwise it is taken whole. |
| CfgEffects.LineDelivered | src/cfg.c:571-832 | In every state: a line is delivered if and only if it is live and its text begins with no keyword, and then its longest prefix is delivered in which no comment begins and whose text has no white space at its end. |
| CfgEffects.KeptOnce | src/fidoconf.c:182-209 | These conditions leave one text for every line and comment character. |
| CfgEffects.FileDelivers | src/cfg.c:540-836 | Everything that reading a file delivers, from itself and all it includes, is what is kept of the line of that number of that file, and begins with no keyword. |
| CfgEffects.MisplacedExactly | src/cfg.c:634-696 | In every state: an elseif, else or endif without an open level, and an elseif or else behind an else, is counted as misplaced and does nothing else; no other line is. |
| CfgEffects.ErrorExactly | src/cfg.c:577-799 | In every state: exactly these lines note an error: misplaced ones, an ifdef that names nothing, a test that is made and ill-formed, a live set without an equals sign, and a live include of no file. |
| CfgEffects.CommentCharLine | src/cfg.c:801-828 | A commentchar line with one of the five characters makes it the comment character and its own value as a variable, and sets that of the old character to nothing; with any other it does nothing. |
| CfgWalk.LinesAppend | src/cfg.c:545-569 | Reading one part of a file and then the next, with everything they include, is reading both as one. |
| CfgWalk.DeeperFile | src/cfg.c:753-799 | Where some depth of nesting suffices for reading a file, a greater one gives the same lines and the same state. |
| CfgWalk.AcyclicFile | src/cfg.c:753-799 | If includes have no cycle among the files that can be reached, with the variables as an invariant of the reading knows them, the rank of a file is depth enough; the invariant holds at the end. |
| CfgWalk.FileKeepsNames | src/cfg.c:157-206 | No reading ever leaves two variables with names equal up to case. |
| CfgBlocks.BlockMeaning | src/cfg.c:577-696 | For every block of lines the line machine with its stack delivers exactly the lines and leaves exactly the variables of the recursive meaning, nothing at all where the enclosing block is dead, and the stack is back where it was; provided each line is, where it stands, what the nesting takes it for. An ifdef that names nothing is a line of its own there. |
| CfgBlocks.ChoiceMeaning | src/cfg.c:577-661 | An if, ifdef or ifndef with its branches: the first branch whose test holds is run and no other; tests of later branches see the variables as they were. |
| CfgBlocks.TailMeaning | src/cfg.c:634-696 | The branches behind a first one: elseif, else and endif, given what was taken before. |
| CfgBlocks.FileMeaning | src/cfg.c:540-836 | A whole configuration of nested blocks, with nested files included in place, delivers the lines its nesting selects. |
| CfgBlocks.FileFits | src/cfg.c:577-799 | If all files that can be reached are well nested and include each other without cycles, for all variables that an invariant of the reading allows, then every line met is what the nesting takes it for. |
| CfgNested.FileExactly | src/cfg.c:577-799 | Of files nested by their keywords alone, whatever the variables, every reading that meets only such files comes back to the level it began with, with nothing misplaced, if and only if no ifdef was refused for naming nothing. Then it delivers what the nesting means; otherwise an error was noted, for which the program refuses the configuration. |
| CfgNested.RefusedClosesOuter | src/cfg.c:606-611 | Five lines, an ifdef that names only an undefined variable within an if that fails: the inner endif closes the outer if, the line behind it is delivered although the nesting passes it over, and the last endif is misplaced. |
| CfgReader.ConfigReader.SetCond | src/cfg.c:58-59 | The loop computes the conjunction of all stacked states. |
| CfgReader.ConfigReader.LookUp | src/cfg.c:138-155 | The loop over the variables finds the value of the model, the environment only where no variable has the name. |
| CfgReader.ConfigReader.Define | src/cfg.c:157-206 | Search, removal by shifting down, and appending give the list of the model. |
| CfgReader.ConfigReader.VarsExpand | src/cfg.c:324-459 | The growing buffer gets the one-pass substitution; at every step what is written, what is left of the source and the terminator fit in it. |
| CfgReader.AppendValue | src/cfg.c:420-431 | After a value longer than its bracketed name the buffer has grown so that the rest of the source still fits. |
| CfgReader.ConfigReader.Opens | src/cfg.c:577-632 | An if, ifdef or ifndef pushes a level with its test, unless ifdef names nothing; the cached condition stays the conjunction of the stack. |
| CfgReader.ConfigReader.Turns | src/cfg.c:634-661 | An elseif is live only if no branch before it was and its test holds; misplaced ones change nothing but the error. |
| CfgReader.ConfigReader.Flips | src/cfg.c:663-679 | An else is live only if no branch before it was; a second one is misplaced. |
| CfgReader.ConfigReader.DoLine | src/cfg.c:571-832 | For any line at all, in any state, the cached condition stays the conjunction of the stack, and the new state and effect are those of the model. |
| CfgReader.ConfigReader.NextFile | src/cfg.c:550-569 | At the end of a file its name is noted and the includer comes back with its name, rest and line number. |
| CfgReader.PendingLine | src/cfg.c:753-799 | One line of the innermost file leaves of the recursive reading exactly what is then on the include stack, one step shorter; only an include beyond the depth is not followed. |
| CfgReader.EndsExactly | src/cfg.c:545-799 | The reading of a file with its include stack comes to an end if and only if some depth of nesting suffices for it. |
| CfgReader.ConfigReader.ConfigLine | src/cfg.c:540-836 | Where some depth suffices for what is still to be read, each call terminates and delivers the next line of the recursive reading, with its file and line number and as LineDelivered describes it, or reports the end in the state that reading ends in. |
| CfgRead.StartExactly | src/fidoconf.c:765-810 | Before the first line no level is open, comments begin with a hash, and every variable has this value: the directory and the initial ones, and those of the caller otherwise. |
| CfgRead.ReadConfig | src/fidoconf.c:765-810 | Reading to the end, from whatever variables were set before, gives the lines of the recursive reading of the file with its includes in place, if some depth suffices for it; where the files met are nested blocks it gives the lines and variables of the block meaning, no level is left open and nothing was misplaced. Every line that comes out is what is kept of the line of its number. Without a file of that name nothing is read. |
| CfgRead.IncludedByVariable | src/cfg.c:753-799 | A file named only by a variable is read in place like any other. |
| Permissions.VerdictIsLastMatch | src/fidoconf.c:486-584 | The last rule that matches an area and a link decides; with an exclamation mark it allows, otherwise it forbids. |
| Permissions.VerdictNoMatch | src/fidoconf.c:486-584 | Without a matching rule the permission stays. |
| Permissions.OneMoreRule | src/fidoconf.c:486-584 | What one more rule at the end does, whatever the others are: behind an exclamation mark its mask allows exactly the areas and links it matches, without one it forbids exactly these, and for all others the verdict stays. |
| Permissions.OneMoreJudges | src/fidoconf.c:486-584 | The read-only rules do that to import and the write-only rules to export. |
| Permissions.VerdictIdempotent | src/fidoconf.c:486-584 | Applying the rules twice is applying them once. |
| Permissions.ProcessAreaPermissions | src/fidoconf.c:486-584 | The rule-major loops over areas and links give every link of every area its own verdict, the one that OneMoreRule determines, for import and for export, and change nothing else. |
| Permissions.BatchSettles | src/fidoconf.c:486-584 | After the batch pass another batch pass changes nothing in the area. |
| Permissions.JudgedAlone | src/afixcmd.c:619-691 | Judging one new link alone gives the result of judging all links again if and only if the others were settled, and leaves the area settled. |
| LinkAccess.SetLinkAccess | src/line.c:860-939 | Import and export are allowed exactly when the settings that apply, the levels, the pause and the group lists allow them; mandatory, manual and rescan likewise. |
| LinkAccess.AccessDenied | src/line.c:836-939 | All reasons for which a link may not import, export or rescan, and no others: its own setting where it applies, the level, the pause, and a group that the listed ones do not name. |
| LinkAccess.IsGroupOpen | src/line.c:910-938 | An area with a group is open to a link if and only if neither list of groups is given or one of them names it. |
| LinkAccess.GetLinkRescanAccess | src/line.c:836-858 | The rescan setting holds in the rescan groups and the opposite outside them. |
| LinkAccess.GrpInArray | src/fidoconf.c:1309-1326 | Found if and only if there is a group and the list holds it. |
| LinkAccess.IsAreaLink | src/fidoconf.c:1295-1307 | The index of the first link with the address, or -1. |
| LinkAccess.AddLink | src/afixcmd.c:619-691 | Joining appends one new link with the judged permissions of its access and touches no other; the area is as after a new batch pass if and only if it was settled before. |
| LinkAccess.RemoveLink | src/afixcmd.c:693-706 | The first link with the address goes and the last takes its place, as LeftKeepsOthers says for every position. |
| LinkAccess.RemoveUndoesAdd | src/afixcmd.c:619-706 | Leaving restores the list before joining if and only if no link had the address before. |
| LinkAccess.LeftKeepsOthers | src/afixcmd.c:693-706 | Leaving removes one link with the address and keeps all others; at its position stands the last, at every other the one before. |
| Carbons.RunKeepsGroups | src/line.c:3966-4292 | After every sequence of carbon statements the records fall into closed groups and one open group without actions: all records of a copy or move group carry its action and the stripped name of its area (those before the end the name stripped twice), of a deletion or external group exactly those with rule OR, and the end of a group has its AND bit off. |
| Carbons.SameAreaExactly | src/line.c:4101-4125 | All records of a copy or move group have the area of its end if and only if there is only one or stripping that name again leaves it as it is. |
| Carbons.AreaKeepsGroups | src/line.c:4053-4127 | A copy or move closes the open group and no more. |
| Carbons.DeleteKeepsGroups | src/line.c:4129-4187 | So does a deletion; a repeated deletion finds its group marked already. |
| Carbons.ActionStaysInGroup | src/line.c:4101-4254 | An action changes only records behind the previous action; the netmail flag of an external program is the one exception. |
| Carbons.ReachedUnlessNegated | src/line.c:4167-4254 | A deletion or external program reaches every record that ends a conjunction in its group if and only if none before the last is a bare NOT: the test is for no bit at all where the AND bit is meant. |
| Carbons.NegatedIsPassedOver | src/line.c:4181-4184 | A run of five statements, for any two conditions, that leaves a negated condition without the deletion that closes its group. |
| Carbons.FlagGoesBack | src/line.c:4234-4264 | The netmail flag reaches the record of its own statement if and only if that is the first of all; otherwise it goes to the record that closed the group before, or else to the first. |
| Carbons.FlagOnOtherGroup | src/line.c:4234-4264 | A run of four statements, for any two conditions, in which the flag of the second group lands on the record that closed the first. |
| CarbonRules.LastRuleExactly | src/line.c:3966-4013 | After any statements, told from these alone: the last record has the NOT bit given to it, and the AND bit if and only if it ends no group and the last rule word behind it, or else the rule given to it, is AND or NOT. The rule given is that of the last word before it, or AND behind an action and at the beginning. |
| CarbonRules.RulesExactly | src/line.c:3966-4292 | In every run each record gets the rule that the statements up to the next condition give it, and keeps it. |
| CarbonRules.RefusedExactly | src/line.c:3966-4292 | Which statements are errors: among others, an action without an open group or whose last record has neither a text nor an address with a zone; a deletion may follow a deletion. |
| CarbonRules.AreaExactly | src/line.c:4053-4127 | The whole state after a copy or move: each record of the group and none before it, with the reason of the last record if that has one. |
| CarbonRules.DeleteExactly | src/line.c:4129-4187 | The whole state after a deletion: the end of the group and its records without any bit. |
| CarbonRules.ExternExactly | src/line.c:4189-4268 | The whole state after an external program, with the record that gets the flag. |
| CarbonRules.OthersExactly | src/line.c:4015-4051 | The whole state after a condition, which loses one quote at each end, and after a reason. |
| CarbonTable.Table.ParseCarbonRule | src/line.c:3966-4013 | The rule for what follows is set and the last record is joined or parted as in the model, unless it closed a group; over a run that gives every record the rule of LastRuleExactly. |
| CarbonTable.Table.ParseCarbon | src/line.c:4015-4051 | A condition is appended to the open group with the rule that is set, quotes around its text removed. |
| CarbonTable.Table.ParseCarbonReason | src/line.c:4270-4292 | A reason, stripped, goes to the last record, if that has a condition; the table stays grouped. |
| CarbonTable.Table.WalkArea | src/line.c:4101-4125 | The backward walk of copy and move changes exactly the records back to the previous action, to what is stored in the last record, stripped again. |
| CarbonTable.Table.WalkOr | src/line.c:4167-4185 | The backward walk of deletion and external program changes exactly the OR records back to the previous action, and stops on that action or at the first record. |
| CarbonTable.Table.ParseCarbonArea | src/line.c:4053-4127 | The errors, and the new table, are those of the model; the table stays grouped. |
| CarbonTable.Table.ParseCarbonDelete | src/line.c:4129-4187 | The errors, and the new table, are those of the model; the table stays grouped. |
| CarbonTable.Table.ParseCarbonExtern | src/line.c:4189-4268 | The errors, and the new table, are those of the model, the flag included; the table stays grouped. |
| AreaItems.KeptDeduped | src/arealist.c:202-314 | Of any ordering by tag with described items first, the pass keeps every tag that is not taken, once and in strict order, on an item that has a description if any item of that tag had one. |
| AreaItems.KeptTags | src/arealist.c:252-297 | The tags kept are those of the list without the taken ones, up to case. |
| AreaItems.HeadHasDesc | src/arealist.c:202-224 | The first item of a tag has a description if any has. |
| AreaLists.Bsearch | src/arealist.c:268-281 | Binary search finds a tag in an earlier list if and only if it is there, up to case. |
| AreaLists.Compact | src/arealist.c:252-297 | The pass in place with its reading and writing index and the remembered tag leaves the kept items at the front. |
| AreaLists.SortAreaListNoDupes | src/arealist.c:226-316 | One call leaves the last list without its duplicates and without the tags of the earlier lists, in storage of its own size, and touches no other list. |
| AreaLists.OnlyEarliest | src/arealist.c:226-316 | After the calls for all uplinks in order every tag is left in one list only, the first that had it, and no tag is lost. |
| AreaLists.SortUplinks | src/arealist.c:226-316 | One call for each uplink in order establishes this for lists of any content. |
| SeqOutrun.RoundTrip | src/tparser.c:2484-2510 | Reading what was printed gives the number back if and only if it is at most the largest signed 64-bit number or a multiple of an hour: all numbers the promise speaks of, and exactly which beyond. |
| SeqOutrun.NotReadBack | src/line.c:5215-5238 | A setting the parser accepts that is not read back: hours that wrap round to a number above the largest signed one. |
| SeqOutrun.ParsedDecimal | src/line.c:5190-5238 | A decimal number with or without a unit is read as that number, saturated, times the factor of the unit. |
| SeqOutrun.ParsedExactly | src/line.c:5175-5240 | What is read from every text, as white space, digits and a rest: nothing without digits or with more than a unit, otherwise the number, at most 2^63 - 1, times the seconds of a year of 365 days, a month of 31, a week, a day or an hour, modulo 2^64. |
| SeqOutrun.PrintsLargestUnit | src/tparser.c:2484-2510 | A number is printed in the largest unit that measures it. |
| SeqOutrun.DecimalLength | src/tparser.c:2484-2510 | It is printed with as few decimal digits as it has. |
| SeqOutrun.Multiply | src/line.c:5215-5238 | Multiplying step by step with the fall-through from years to days to hours, in 64 bits, is multiplying by the factor of the unit. |
| SeqOutrun.ParseSeqOutrun | src/line.c:5175-5240 | The parser fails exactly on texts that are no duration and otherwise gives its seconds. |
| MsgbNames.MakeMsgbFileName | src/common.c:489-518 | The loop gives the encoded name, and none for the empty area name. |
| MsgbNames.DecodeEncoded | src/common.c:489-518 | Decoding undoes the encoding of every name, for codes of one, two or eight digits, when the reserved characters separate. |
| MsgbNames.NamesKeptApart | src/common.c:489-518 | For every set of reserved characters: different area names always have different file names if and only if the set separates, that is, the percent sign is reserved or every code has a reserved digit, and where one code begins another so has what the longer one adds. |
| MsgbNames.Clash | src/common.c:503-515 | Otherwise a reserved character and its own code as text get one file name. |
| MsgbNames.PrefixClash | src/common.c:503-515 | So do a character with a longer code, and one with a shorter code and the rest as text. |
| MsgbNames.TwoDigitsSeparate | src/common.c:489-518 | Where all codes have two digits, the set separates if and only if the percent sign is reserved or every code has a reserved digit. |
| MsgbNames.DefaultSeparates | src/common.c:492 | The default set of reserved characters separates. |
| MsgbNames.CodeReads | src/common.c:503-515 | A code is the number of its character in lower-case hexadecimal digits without leading zeros, plus 2^32 where the character is negative. |
| MsgbNames.DefaultSafe | src/common.c:489-518 | With the default set no file name holds a delimiter of paths, a wildcard or a quote, and a name stays as it is if and only if it has none of these and no percent sign. |
| Groups.FirstWord | src/line.c:3714-3786 | A word that ends at a delimiter or with the text is the first of its words. |
| Groups.WordsSplit | src/line.c:3714-3786 | At every delimiter the words of a text are those before it and those behind it; with the above this makes the words the maximal runs without delimiters. |
| Groups.WordsOfPieces | src/line.c:3714-3786 | So the words are the pieces between delimiters, without the empty ones, in order. |
| Groups.SeparatesExactly | src/line.c:3714-3786 | A character separates the words on its two sides, whatever these are, if and only if it is a blank, a tab or a comma. |
| Groups.CountWords | src/line.c:3730-3746 | The counting pass counts the words. |
| Groups.SplitWords | src/line.c:3753-3784 | The splitting pass in place, in exactly the storage that was counted, leaves the words in order as terminated strings. |
| Groups.ParseGrp | src/line.c:3714-3786 | Both passes together, for every text: the words, and no other list of strings, can be read at the stored places; nothing is stored if and only if there is no word. |
| Groups.CopyGroups | src/common.c:377-405 | The list, and no other, can be read from the copy; each string is where the one before it ends, the block is filled exactly, and an empty list has no copy. |
| Text.StricmpExactly | src/cfg.c:138-155 | Texts are equal in this order if and only if they are up to the case of the letters; otherwise the first place that differs decides, and a text comes before what continues it. |
| Text.StrcmpExactly | src/findtok.c:36-45 | The first character that differs decides, and a text comes before what continues it. |
| Tokens.TokenList.MakeTokenList | src/findtok.c:23-47 | The table is marked searchable if and only if its keywords are strictly increasing. |
| Tokens.TokenList.FindToken | src/findtok.c:59-93 | Binary search and fallback scan both give the number of the first entry with the key, or -1. |
| Tokens.NeighboursIncrease | src/findtok.c:36-45 | Comparing neighbours is enough: then every earlier keyword is smaller than every later one. |

## Left out

- CfgReader.ConfigReader.VarsExpand: backtick commands (`src/cfg.c:355-409`) run other programs; a backtick is an ordinary character here.
- Joining of continuation lines (`src/cfg.c:271-322`): a file is a sequence of lines already joined.
- The inside of `boolexpr` (`src/cfg.c:461-538`): the value of a comparison and whether it is well formed are arbitrary functions of the expanded text; they do not depend on variables except through that text.
- CfgRead.ReadConfig: a reading that never ends, because includes go round in a cycle, is not described beyond that; the warning in `src/cfg.c:765-775` does not stop it. What is done with the lines, and closing the reader, are left out.
- The environment is a fixed map, the clock a number that never goes back, a file a sequence of lines or bytes; opening, closing, renaming and logging are left out.
- Processes that are killed and never reach the exit handler, and a change of the main address while the protocol runs (`PacketProtocol` fixes the system; the generator class does not).
- PacketGenerator.Generator.MakeUniqueDosFileName: address parts are never negative, a time is not limited to 32 bits, a registration of the exit handler may fail or succeed at each first call, and the check that the file does not exist is not part of this model.
- StatBook.Book.PutStatistics: the address and the area are never null, the tag holds no zero byte, and the default kind of an event outside the four does not occur.
- StatUpdate.UpdStat: of the header only revision and start time are kept (its magic number is not compared by the program either); failed allocation and the use of the lists after the update are left out. A negative tag length read from a file is a broken file.
- StatFile.LinkLayout: fields are written as they lie in memory; this is their order on a machine that stores the lowest byte first.
- StatFile.UpdateConserves: the merged chain of an area has at most 32767 links; beyond that the 16-bit counter of the record itself wraps.
- Permissions.ProcessAreaPermissions: matching against masks is an arbitrary function of name or address and mask; which of the two kinds of areas is processed for which program is left out, and no link record belongs to two areas.
- LinkAccess.AddLink: the default uplink mark and the test for a missing area are left out.
- Carbons.RunKeepsGroups: what is stripped from names and reasons (`stripRoundingChars`, which is not part of this repository) is an arbitrary function of the text; parsing of addresses is left out, a condition comes as a text or an address; the fields for the resolved area and for export are set elsewhere.
- AreaLists.SortAreaListNoDupes: the order of equal items is open, as it is for the library sort; the plain sort without removal, and what `realloc` does with size zero when nothing is left, are not modelled.
- SeqOutrun.ParseSeqOutrun: the number in front of a unit saturates at the largest signed 64-bit value, as the usual C libraries do; the language leaves it open.
- Groups.CopyGroups: the strings of the list are not null.
- One-field setters, the keyword switch, exporters and printers, because they would add only easy members.
