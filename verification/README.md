# Verification of the SN110 open firmware

A Dafny model of the parts of the SN110 DMX gateway firmware whose correctness is
hardest to see: the ELF to bFLT converter, the configuration store down to the C
library under it, the gateway's event loop, and the wire formats. Everything is
proved for all inputs, all files, or all runs.

Run `dafny verify dfyconfig.toml` (Dafny 4.11) to check the whole project.

## What is modelled

**The converter** (`Elf`, `Elf2Bflt`, `FlatLoader`, `BfltFile`, `ElfLayout`, `ElfSites`,
`MeaningPreservation`, `ConvertedProgram`, `ElfExits`, `Elf2BfltMain`). ELF sections, the
converter with its error exits, and the kernel's loader are functions on byte
sequences; the converter's loops, in-place patches and sorts are methods proved equal
to those functions. The loader is the one described in the converter's own header
comment. The main theorem says that loading the output at a base address is relocating
the linked image at that base, for every base, exactly when no data word is named by
two ABS32 entries; without that condition each word receives the base as many times as
it is named. The layout assumed is what the linker script guarantees (`Linked`): text
at 0, sections in order and disjoint, word-aligned data and bss, readable relocation
sections. Which entries count as sites is said apart from the converter, by section types,
flags and byte offsets (`ElfSites`); `ElfExits` says for any input at all where the passes
stop and that sections for debug information might as well not be there.

**The configuration store** (`Numbers`, `Scanf`, `Printf`, `Stdio`, `Config`,
`ConfigLines`, `ConfigParse`, `ConfigLens`, `ConfigTheorems`, `ConfigRange`,
`ConfigSaves`, `ConfigGlue`, `FileFormat`, `ConfigStore`, `Ifup`, `Form`). Text is `string`, one character per byte. `LoadText`
and `SaveText` are what `config_load` and the saver compute on the bytes of the file;
the methods of `ConfigStore` do it with the buffers, the `written` array and the FILE
layer of the C code and are proved to compute the same. The saver reads at most 2047
bytes of the old file, up to a NUL (`Existing`); what lies behind is lost, so the laws
speak of what was read. `FileFormat` states the format as its readers know it: for any
file, each field is what the last line with its key says, or its default. Appended keys are written straight behind the last byte, so an
old file that ends inside a line can lose one. `Unglued` says when the code keeps lines
apart: the last old line is complete, or it is not kept, or no key has to be appended.
`Saveable` adds the one harmless case, a last line of a few blanks. Unmanaged lines are
kept exactly over unglued files, and every valid configuration survives a save and a
load exactly over saveable ones (`ConfigGlue.PutGetOver`). `Stored` is the configuration
without the ports' protocol, which no key saves. `Valid` lists which configurations
survive; every loaded one is `Loadable`, so that only its names and an address left
over under DHCP can stand in the way.

**The gateway** (`Gateway`, `GatewayRuns`, `InputRuns`, `Daemon`). One iteration of the
main loop is a step on a port: at most one packet, a pause, the output cycle, the input
cycle. `Out` and `In` are a port's state in each direction; devices and sockets are the
sequences of frames and packets they have taken. `GatewayRuns` and `InputRuns` state
what holds in every reachable state of every run in terms of the history of the traffic;
the classes of `Daemon` run the loop on arrays and fields and reach exactly those states.
Assumed of the clock: positive, inside one 32-bit epoch, and advancing across the pause.
Assumed of the devices: opening and writing succeed. Sends may fail; which theorems need
them to succeed is said in their `requires`.

**The wire formats** (`Sacn`, `ShowNet`). The sACN builder and parser (ANSI E1.31,
Table 4-1 and sections 5 to 7) are inverse to each other; the parser is characterised on
every packet of the wire format, and `InputRuns.PortToPort` composes builder, parser and
loop. The ShowNet run-length decoder is proved
against the token streams it decodes.

Reads never report an error and writes take everything they are given; a read may
return any non-empty part of what is left. Opening for writing may fail. Integers wrap where the C code's do
(`atoi`, `sscanf`, the 32-bit clock differences, the one-byte sequence number).

## Model

| member | source | states |
|---|---|---|
| ConvertedProgram.MeaningPreserved | tools/elf2bflt.py:127-447 | the main law of the converter: its output, loaded at a base, is the linked image with the base added once to every ABS32 data word and every reached non-zero GOT slot, for every base, if and only if no data word is named by two ABS32 entries |
| ConvertedProgram.LoadConverted | tools/elf2bflt.py:187-215 | without that condition: every word of the loaded program is the linked word plus the base times the number of its entries modulo 2^32, and a byte of no named word is unchanged |
| ConvertedProgram.ConvertedFile | tools/elf2bflt.py:357-447 | conversion of a linked program without text relocations succeeds, and the loader finds in the file the linked image and a table in ascending order naming each site as often as it is to be relocated, under a header with the stack size and flags of the target |
| ConvertedProgram.TwiceNamed | tools/elf2bflt.py:165-215 | a data word named twice makes the loaded program differ from direct relocation already at base 1 |
| MeaningPreservation.TextRelocationRejected | tools/elf2bflt.py:167-215 | ABS32 entries in the text make the converter fail and report their exact number |
| ElfSites.AbsListed | tools/elf2bflt.py:139-169 | the entries the first pass works through are, address by address, as many as there are entries of type 2 in the file: in sections of type 9 that are not for a section without flag 2 |
| ElfSites.GotListed | tools/elf2bflt.py:241-259 | the second pass works through exactly the entries of sections of type 9 whose target is in the section table and has flag 2 |
| MeaningPreservation.GotNames | tools/elf2bflt.py:253-266 | the slots the second pass collects are those that an entry of type 26 reaches through its literal in the text |
| ElfExits.UnloadedIgnored | tools/elf2bflt.py:139-149 | a relocation section whose target is not loaded, such as one for debug information, changes nothing, whatever its entries say |
| ElfExits.AbsExits | tools/elf2bflt.py:139-206 | on any input the first pass fails with the error of the first faulty entry in file order, and only then; otherwise only text relocations stop it |
| ElfExits.GotExits | tools/elf2bflt.py:241-293 | the same for the second pass, whose literals may lie outside the file |
| ElfExits.SectionsFound | tools/elf2bflt.py:115-119 | conversion works on the first section of each of five names and needs a text section |
| MeaningPreservation.AbsPass | tools/elf2bflt.py:127-219 | the first pass names each data word once per ABS32 entry, in order of offset, and nothing else |
| MeaningPreservation.GotPass | tools/elf2bflt.py:222-293 | the second pass names exactly the non-zero slots that literal pools reach and the first pass did not list, each once |
| MeaningPreservation.OldRelocReads | tools/elf2bflt.py:18-20 | the loader adds the base once per table entry to the word the entry names and leaves every other byte alone, in whatever order the entries come |
| BfltFile.ParseBuilt | tools/elf2bflt.py:296-331 | the loader reads back from a built file the text, data, bss and every table entry, at the offsets the big-endian header announces; the header also holds the stack size, the little-endian flags and zeros to its end |
| ElfLayout.LayOutIsImage | tools/elf2bflt.py:357-418 | sections with their padding lie in the output at their link-time addresses: text, data and bss together are the linked image |
| Bytes.WordRoundTrip | tools/elf2bflt.py:185-197 | both byte orders are bijections between 32-bit words and four bytes |
| Bytes.ByteOrders | tools/elf2bflt.py:185-197 | which end each byte order puts first |
| Bytes.PokeSame | tools/elf2bflt.py:185-197 | the pre-relocation patch writes back the value just read, so it changes nothing |
| Elf2BfltMain.PackInto | tools/elf2bflt.py:197 | the in-place word store |
| Elf2BfltMain.ExtractRelocsV2 | tools/elf2bflt.py:127-219 | the loops over sections and entries, patching in place, return what the first pass specifies, error exits included, and leave the data as it was |
| Elf2BfltMain.ExtractGotRelocs | tools/elf2bflt.py:222-293 | the set of slots, the sorted loop and its skips return what the second pass specifies |
| Elf2BfltMain.BuildFile | tools/elf2bflt.py:296-331 | header, text, data and table are written one after the other |
| Elf2BfltMain.CollectData | tools/elf2bflt.py:389-408 | the data segment grown section by section is the specified one |
| Elf2BfltMain.ConvertElf | tools/elf2bflt.py:334-447 | the whole imperative conversion equals the function the theorems are about |
| Numbers.ValueOfDec | src/oabi/minilib.c:185-205 | a printed decimal consists of digits, has no leading zero unless it is 0, and reads back as its number |
| Numbers.ValueOfInBase | src/oabi/minilib.c:174-230 | a numeral in any base to 16 reads back as its number, with digits of one case and no leading zero |
| Numbers.Utoa | src/oabi/minilib.c:174-230 | repeated subtraction gives the division-based decimal for every 32-bit value; the other branches give the numeral in their base, for base 16 the hexadecimal, as long as it fits the twelve characters of the scratch buffer |
| Scanf.Atoi | src/oabi/minilib.c:162-171 | atoi computes the signed value of its digits, wrapping at 32 bits |
| Scanf.AtoiOf | src/oabi/minilib.c:162-171 | atoi skips spaces and tabs, takes one sign, and gives the value of the digits before the first other character, modulo 2^32 |
| Scanf.AtoiOfPrinted | src/oabi/minilib.c:162-171 | atoi inverts the printed form of every int, sign included, whatever follows its digits |
| Scanf.Sscanf | src/oabi/minilib.c:343-424 | the two-pointer loop with %u, %d, widths and classes returns the specified conversions and their number |
| Scanf.ScanTexts | src/oabi/minilib.c:396-405 | a class conversion only stores characters of the scanned string |
| Scanf.SignedScan | src/oabi/minilib.c:357-377 | %d takes a minus sign and all digits, wrapping at 32 bits |
| Scanf.ClassDirective | src/oabi/minilib.c:378-406 | a class with any width, negated or not, reads the longest prefix in its set |
| Printf.Vsnprintf | src/oabi/minilib.c:237-327 | for every size and format the buffer holds the NUL-terminated prefix of the full output that fits, every byte behind the NUL is untouched, and the result is the full length |
| Printf.FormatText | src/oabi/minilib.c:248-252 | text without directives is printed as it is |
| Printf.NumberDirective | src/oabi/minilib.c:255-293 | %d, %u, %x and %X with any flag and width print the sign, zeros or spaces up to the width, and the numeral |
| Printf.OtherDirective | src/oabi/minilib.c:294-321 | %p, %s, %c, %% and unknown directives, none of which heeds flag or width |
| Printf.FormatHexByte | src/oabi/minilib.c:255-293 | %02X prints two upper-case hexadecimal digits for every byte |
| Stdio.MiniFile.Fgets | src/oabi/minilib.c:505-528 | whatever short reads the kernel makes, fgets returns the next piece a direct scan of the remaining contents would cut, and consumes just that |
| Stdio.MiniFile.Fread | src/oabi/minilib.c:530-553 | fread returns the next bytes of the contents, across the buffer and direct reads |
| Stdio.MiniFile.Fwrite | src/oabi/minilib.c:555-579 | buffered, flushed or direct, the data is appended to what the file will hold |
| Stdio.MiniFile.Fputs | src/oabi/minilib.c:581-587 | the string is appended; 0 on success |
| Stdio.MiniFile.Fclose | src/oabi/minilib.c:492-503 | on close the disk holds everything written, in order |
| Stdio.Fopen | src/oabi/minilib.c:461-475 | "r" needs the file and sees its contents, "w" leaves an empty one where it may be written; otherwise, and in any other mode, there is no FILE and the disk is as before |
| Stdio.Memmove | src/oabi/minilib.c:51-65 | overlapping ranges are copied correctly in both directions |
| Config.KeyOfName | src/config/config.c:300-308 | the eighteen names are told apart and each selects its own key |
| ConfigLines.FormatKeyIs | src/config/config.c:324-396 | every key's format and arguments print "name = value", with the octets and hexadecimal pairs of the addresses |
| ConfigLines.IpText | src/config/config.c:332-336 | four %u print the dotted form |
| ConfigLines.MacText | src/config/config.c:340-343 | six %02X print the MAC address |
| ConfigParse.LineFormatIs | src/config/config.c:208-212 | which lines the key/value format accepts, and the key and value it splits them into |
| ConfigParse.ParsePrinted | src/config/config.c:208-212 | a printed line splits into its key and its trimmed value |
| ConfigParse.ParsePrintedIp | src/config/config.c:70-80 | parse_ip inverts the printed address, for every 32-bit address |
| ConfigParse.ParseIpOf | src/config/config.c:70-80 | four numerals with dots between them give their four bytes, most significant first, or 0 when one exceeds 255 modulo 2^32 |
| ConfigParse.ParseIpNeeds | src/config/config.c:70-80 | nothing else gives an address other than 0 |
| ConfigParse.ParsePrintedMac | src/config/config.c:82-123 | parse_mac inverts the printed address, whatever the field held before |
| ConfigParse.ParseMacOf | src/config/config.c:82-123 | up to six groups of one or two digits in either case store their bytes, and the other bytes keep their value |
| ConfigParse.HexValueOf | src/config/config.c:88-95 | both cases of a hex digit have its value, and no other character has one |
| ConfigParse.TrimOf | src/config/config.c:34-48 | trim takes off just the spaces and tabs around a text |
| ConfigLens.LinesOfJoin | src/config/config.c:437-455 | cutting pieces that were written one after the other gives back the pieces |
| ConfigLens.JoinOfLines | src/config/config.c:437-496 | cutting loses nothing, over-long lines included |
| ConfigLens.ApplyPrinted | src/config/config.c:214-261 | loading a printed value sets the key's field to its canonical value |
| ConfigLens.ApplyOthers | src/config/config.c:214-261 | a line changes the field of its key and no other |
| ConfigTheorems.SavedLinesExactly | src/config/config.c:434-507 | a saved file is cut into the lines it was written as, if and only if no appended line is glued to an incomplete one |
| ConfigTheorems.SaveHas | src/config/config.c:456-505 | every key of the list is in the saved file, rewritten or appended |
| ConfigTheorems.PutGet | src/config/config.c:189-272 | over every old file to which nothing is glued, loading what was saved gives the configuration in canonical form |
| ConfigGlue.PutGetExactly | src/config/config.c:409-509 | over every saveable old file, saving and loading returns exactly the configuration if and only if it is valid |
| ConfigGlue.PutGetOver | src/config/config.c:409-509 | the saveable files are exactly those over which every valid configuration comes back: nothing is glued to the last line, or only blanks that leave the key within its 63 characters |
| ConfigGlue.Swallowed | src/config/config.c:490-505 | over any other old file, unknown line, comment or bare "key=", in one piece or cut at 255 characters, the first missing key loads as its default, or as what its own line parses to as a value |
| ConfigGlue.BootFile | src/config/config.c:490-505 | one such file: over "boottest = 1" without a newline the address 0.0.0.1 is saved and loads as 0 |
| ConfigGlue.BlankFile | src/config/config.c:490-505 | two blanks do no harm, although the first key is glued to them |
| ConfigGlue.GetPut | src/config/config.c:189-272 | saving what was loaded from a saveable file and loading it again gives it back if and only if its names survive and DHCP comes without an address |
| ConfigGlue.TruncatedName | src/config/config.c:221-222 | a file for which that fails: a host name cut at fifteen characters behind a blank |
| ConfigGlue.CompleteFile | src/config/config.c:409-539 | over every file that fits the read and is empty or ends in a newline, put-get, put-put and the Strand projection hold |
| FileFormat.LastLineWins | src/config/config.c:189-263 | in any file the last line with a key sets its field to what its value says: addresses, numbers within their bounds, every spelling of the named values, names cut to their fields |
| FileFormat.MacOverlaid | src/config/config.c:103-123 | a MAC address is read over the one the lines in front of it leave, so that bytes its value does not reach stay theirs |
| FileFormat.UnsetLine | src/config/config.c:50-68 | a field whose key is on no line has its default; without an address mode it is DHCP exactly when the address is 0 |
| FileFormat.FreshFile | src/config/config.c:300-396 | without an old file the eighteen lines are written as the format has them, and the first twelve by the Strand save |
| FileFormat.FirstCut | src/config/config.c:441-452 | a file is cut behind each newline and behind 255 characters without one |
| FileFormat.FirstRead | src/config/config.c:423-429 | the saver reads the first 2047 bytes, and of these what stands before a NUL |
| ConfigRange.LoadedIsLoadable | src/config/config.c:189-272 | whatever a file holds, what is loaded fits its fields, its enumerations hold named values and its monitors are at most 512 |
| ConfigTheorems.LoadedOnOneLine | src/config/config.c:208-241 | no file can put a newline into a loaded name |
| ConfigSaves.PutPut | src/config/config.c:409-509 | saving one configuration and then another leaves byte for byte the file that saving the second alone leaves, while the intermediate file fits the saver's read |
| ConfigSaves.SaveIdempotent | src/config/config.c:409-509 | saving again changes nothing |
| ConfigSaves.UnmanagedKept | src/config/config.c:437-505 | comment, blank and unknown lines are the same, verbatim and in order, after either kind of save, if and only if nothing is glued |
| ConfigSaves.StrandProjection | src/config/config.c:457-505 | the Strand save leaves no key outside its twelve, and every one of the twelve with its current value |
| ConfigSaves.StrandFromEmpty | src/config/config.c:517-539 | from an empty file it writes at most 286 bytes for every configuration whose names are on one line |
| ConfigStore.TrimCopy | src/config/config.c:34-48 | trim, in place, gives the string without its outer blanks and tabs |
| ConfigStore.ParseMac | src/config/config.c:82-123 | 0 exactly when the text starts with six groups of one or two hex digits with colons between them; the bytes read so far are stored in either case |
| ConfigStore.ConfigLoad | src/config/config.c:189-272 | the fgets loop yields the configuration the file's bytes denote; -1 and the defaults without a file; the result can always be saved |
| ConfigStore.FormatKey | src/config/config.c:324-396 | snprintf leaves the key's line in the buffer as a C string |
| ConfigStore.LineLength | src/config/config.c:441-452 | the saver's splitter cuts where fgets does |
| ConfigStore.RewriteAll | src/config/config.c:437-496 | the loop over the old text writes the rewritten lines and marks exactly the keys seen |
| ConfigStore.AppendMissing | src/config/config.c:498-505 | the keys not marked are appended in list order |
| ConfigStore.ConfigSaveInternal | src/config/config.c:409-509 | the disk holds exactly the specified text, or is untouched with -1 when the file cannot be opened for writing |
| ConfigStore.ConfigSave | src/config/config.c:511-515 | the same for all managed keys |
| ConfigStore.ConfigSaveStrand | src/config/config.c:517-539 | the same for the Strand keys; otherwise 0 exactly when the file is at most 2048 bytes, -2 when it is longer |
| Ifup.AndMask | src/config/config.c:542-550 | a contiguous mask clears exactly the position inside the block |
| Ifup.NetworkBlock | src/config/config.c:542-574 | for every address and prefix length k the printed network and broadcast parse back to the bottom and top of the 2^(32-k) block that contains the address |
| Ifup.Fprintf | src/oabi/minilib.c:589-602 | formats longer than the buffer are cut at 511 bytes, all others written in full, past whatever the FILE has buffered |
| Ifup.IfupStatic | src/config/config.c:542-583 | the ifconfig and route lines, the default route only with a gateway |
| Ifup.GenerateIfup | src/config/config.c:585-613 | the script written for each address mode, or -1 and an untouched disk |
| Ifup.Script | src/config/config.c:542-613 | the whole script of each address mode, with the top of the block as broadcast address and its bottom as network |
| Form.DecodeInverts | src/cgi/cgi_parse.h:32-54 | url_decode inverts every percent and plus encoder with digits of either case (section 2.1 of RFC 3986), cut to the room there is |
| Form.DecodeExactly | src/cgi/cgi_parse.h:32-54 | every raw text, stray percent signs included, encodes exactly the text it decodes to |
| Form.UrlDecodeInto | src/cgi/cgi_parse.h:32-54 | the loop fills the buffer with the decoded prefix that fits and terminates it |
| Form.FormKeyFound | src/cgi/cgi_parse.h:93-132 | every field name selects its own field |
| Form.FormNames | src/cgi/cgi_parse.h:93-132 | the seventeen names the page uses |
| Form.ParseFormdata | src/cgi/cgi_parse.h:69-142 | the loop over the body applies the fields it cuts, in order |
| Form.ParseEncodedForm | src/cgi/cgi_parse.h:69-142 | a body that encodes a list of fields applies their updates in order, then zeroes all addresses under DHCP wherever that field stood |
| Form.EncodedFields | src/cgi/cgi_parse.h:73-90 | a body that encodes a list of fields is cut into just these |
| Form.LastFieldWins | src/cgi/cgi_parse.h:92-142 | in any body the last field of a name sets the configuration to what its value says, within the range of the field, except that DHCP leaves no address |
| Form.PostedWhole | src/cgi/cgi_parse.h:69-142 | posting every field of a configuration as a form shows it, in any order and over any other, gives that configuration |
| Form.FormInRange | src/cgi/cgi_parse.h:62-142 | over any configuration, every posted field ends up in its range and every other keeps its value, except that DHCP leaves no address |
| Form.FormSaved | src/cgi/cgi_parse.h:69-142 | what a form made of any configuration with named values comes back from a saveable file exactly when its names survive and its address mode is named, as it was before or as the form sets it |
| Form.FormToFile | src/cgi/cgi_config.c:291-310 | load, form, save, load: for every saveable file and every body the result comes back exactly when its names survive trimming and carry no line break; its MAC address is the file's, or the interface's when the file has none |
| Form.FormToNewFile | src/cgi/cgi_config.c:291-310 | without a file it comes back exactly when, besides, the form sets the address mode |
| Sacn.PacketSlices | src/sacn/sacn_internal.h:15-41 | each field of a built packet lies at the offset of the table |
| Sacn.BuiltIs | src/sacn/sacn_tx.c:110-146 | a built packet is, byte for byte, the wire format with no postamble, framing vector 2, no synchronization, no options, data type 0xA1, first address 0, increment 1 and start code 0 |
| Sacn.ParseWire | src/sacn/sacn.c:93-149 | any packet of the wire format that announces a start code is parsed, whatever its options, start code, synchronization address, length fields and trailing bytes, and all its fields come back |
| Sacn.AcceptedExactly | src/sacn/sacn.c:98-134 | exactly these packets are accepted |
| Sacn.ParseBuilt | src/sacn/sacn.c:93-149 | parsing a built packet returns its CID, name, priority, sequence, universe and slots, for every frame of 0 to 512 slots |
| Sacn.PduLengths | src/sacn/sacn_tx.c:97-107 | a packet has 126+n bytes, each PDU's length field counts from itself to the end, and the property count is 1+n |
| Sacn.ParsedLength | src/sacn/sacn.c:138-146 | a parsed frame is the longest that fits a universe, the packet and the announced count |
| Sacn.BuildPacket | src/sacn/sacn_tx.c:87-149 | storing field by field leaves exactly the packet in the buffer, nothing behind it is touched, and -1 means the buffer is too small |
| Sacn.Transmitter.Send | src/sacn/sacn_tx.c:151-177 | a successful send puts the packet on the wire and advances the sequence number modulo 256; a failed one changes nothing |
| Sacn.PacketBuffer.Parse | src/sacn/sacn.c:93-149 | the checks and copies accept exactly the packets specified and fill in their fields |
| ShowNet.DecodeEncoded | src/shownet/shownet.c:64-87 | decoding a stream of literals and runs gives the encoded frame, cut to the limit |
| ShowNet.Distributes | src/shownet/shownet.c:64-87 | a whole stream in front contributes exactly its own slots, whatever follows |
| ShowNet.SmallerLimit | src/shownet/shownet.c:70-84 | a smaller output limit yields a prefix |
| ShowNet.Tokens | src/shownet/shownet.c:73-83 | every stream whose markers are complete encodes some tokens |
| ShowNet.WholeIsEncoded | src/shownet/shownet.c:73-83 | and the encodings are just those streams, each of one token list |
| ShowNet.EveryStream | src/shownet/shownet.c:70-84 | every stream is an encoding, with at most a run behind it that breaks off |
| ShowNet.BrokenOff | src/shownet/shownet.c:73-83 | such a run stands for itself |
| ShowNet.ParseDatagram | src/shownet/shownet.c:125-148 | first slot and slot count are read low byte first, the lowest flag selects the decoder, and a plain frame is cut to its data, its count and one universe |
| ShowNet.DecodeRle | src/shownet/shownet.c:64-87 | the nested loops terminate within the limit on every input and store exactly the decoded bytes |
| ShowNet.ParsedLength | src/shownet/shownet.c:125-148 | datagrams under 16 bytes are refused; a plain frame has the least of the data, one universe and the slot count, and is the data's prefix |
| ShowNet.CompressionIsTransparent | src/shownet/shownet.c:136-146 | a compressed datagram, whatever its slot count, is received as the plain datagram of its frame |
| ShowNet.PacketBuffer.Receive | src/shownet/shownet.c:117-149 | the receiver fills in exactly that packet, or refuses and changes nothing |
| GatewayRuns.FrameHistory | src/main.c:84-142 | in every reachable state a channel has its value in the latest accepted packet since the last loss that reaches it, and 0 if there is none |
| GatewayRuns.Step | src/main.c:210-245 | freshness tracking: the output cycle writes the buffer exactly when the iteration accepted a packet, and never blacks out a source just heard |
| Gateway.AddressedExactly | src/main.c:84-142 | which ports a packet of each protocol concerns; for ShowNet those whose universe holds the first slot, counted from 1, and universe 0 for slot 0 |
| Gateway.ElapsedWraps | src/main.c:98-106 | ages are right across the wrap of the 32-bit clock |
| GatewayRuns.Delivered | src/main.c:84-142 | a packet of any protocol is accepted only by a port it addresses, overwrites exactly its own channels in buffer and device, and leaves the priority alone unless it is sACN |
| GatewayRuns.ShowNetToPort | src/main.c:126-142 | a ShowNet datagram is taken exactly by the transmitting ports whose universe holds its first slot, and what its bytes decode to overwrites their first channels |
| GatewayRuns.NotDmx | src/main.c:86-88 | an accepted datagram with another start code than 0 leaves no trace |
| GatewayRuns.Origin | src/main.c:101-106 | length and sequence number are those of the last accepted packet, also after its source is lost |
| GatewayRuns.Settled | src/main.c:210-245 | between iterations a port has written its latest frame and its stamps lie in the past |
| GatewayRuns.AcceptedExactly | src/main.c:98-106 | a matching sACN packet is taken if and only if the port lives on no packet, or on one of no higher priority, or on one older than 2500 ms |
| GatewayRuns.LostExactly | src/main.c:230-242 | a source is given up in an iteration if and only if nothing is accepted and the packet the port lives on is older than the hold time |
| GatewayRuns.Holding | src/main.c:224-240 | the port's stamp is that of the packet it lives on, and 0 when there is none |
| GatewayRuns.HoldingPriority | src/main.c:99-104 | the held priority is that of the packet the port lives on, and 0 when there is none |
| GatewayRuns.WritesCounted | src/main.c:210-245 | the device takes exactly one frame for each accepted packet and each loss |
| GatewayRuns.DeviceAgrees | src/main.c:210-245 | once a packet has been accepted, the last frame the device took is the buffer; before, it took none |
| GatewayRuns.LossesAlternate | src/main.c:230-242 | between two blackouts lies an accepted packet |
| GatewayRuns.PrioritySafety | src/main.c:98-106 | while the source stays younger than both timeouts the held priority never falls and a packet of lower priority changes nothing |
| GatewayRuns.AfterExpiry | src/main.c:98-106 | once either timeout has passed since the last accepted packet, the next matching packet is taken whatever its priority |
| InputRuns.PacketsInSequence | src/sacn/sacn_tx.c:151-177 | failed sends or not, the j-th packet carries sequence number j modulo 256 past the first and the frame last read when it left, and parses back to it |
| InputRuns.SyncedExactly | src/main.c:253-303 | whatever sends fail, a port is in sync (its last packet carries the last frame read and left at most 900 ms ago) exactly when the last packet that left did so at most 900 ms ago, with the frame that is still the last one read |
| InputRuns.SyncStep | src/main.c:268-302 | from one cycle to the next sync is kept exactly by a packet leaving, or by reading nothing new while the last packet is at most 900 ms old |
| InputRuns.InSync | src/main.c:253-303 | with successful sends a port is in sync after every cycle, once a frame has been read |
| InputRuns.SendGap | src/main.c:270-300 | with successful sends, two consecutive packets are at most 900 ms and one cycle apart (sections 6.6.2 and 6.7.2 of ANSI E1.31) |
| InputRuns.SendsExactly | src/main.c:268-301 | a packet leaves exactly when the send succeeds and a new frame was read, or the last one again from 900 ms after the last packet on, or none later than 900 ms after it |
| InputRuns.KeepAliveOnly | src/main.c:286-290 | an unchanged frame is not repeated within 900 ms |
| InputRuns.FailedFrameWaits | src/main.c:292-301 | a new frame whose send fails breaks sync, and is not retried while it stays unchanged and the older packet is less than 900 ms old |
| InputRuns.PortToPort | src/main.c:84-108 | a packet sent by one node addresses a peer's port exactly when it transmits that universe, and when accepted overwrites exactly the frame's channels, in the buffer and on the device |
| Daemon.Copy | src/main.c:101 | memcpy into the front of a frame buffer |
| Daemon.OutputPort.HandleSacn | src/main.c:84-108 | the handler's checks and stores make the specified step |
| Daemon.OutputPort.HandleArtNet | src/main.c:110-124 | the same for Art-Net, which keeps the priority |
| Daemon.OutputPort.HandleShowNet | src/main.c:126-142 | the same for ShowNet, whose slots count from 1 across universes |
| Daemon.OutputPort.Output | src/main.c:217-244 | the output cycle of one port makes the specified step |
| Daemon.InputPort.Input | src/main.c:259-302 | the input cycle of one port makes the specified step |
| Daemon.Loop.HandlePacket | src/main.c:92-107 | the loop over the ports hands the packet to both and lets neither disturb the other |
| Daemon.Loop.WriteOutputs | src/main.c:210-245 | both ports' output cycles |
| Daemon.Loop.ReadInputs | src/main.c:253-303 | both ports' input cycles |
| Daemon.Loop.Iterate | src/main.c:408-448 | one iteration, in the order of the loop |
| Daemon.RunLoop | src/main.c:340-448 | after any number of iterations from power-up both ports are in the states the theorems about runs describe |

## Left out

- Sockets, `ioctl`, opening and closing devices, signals, the PID file, debug dumps and logging.
- The first part of `main` in `src/main.c` (choosing the socket, `sacn_init`, `generate_cid`): a run starts with given transmitter identities.
- `src/artnet/artnet.c`: an Art-Net packet enters the handler already parsed, with at most 512 slots.
- `read_elf` and the printed reports of `tools/elf2bflt.py`: conversion starts from a parsed section list; the warnings it prints are not modelled.
- Pages emitted by `src/cgi/cgi_config.c` and its reading of the interface's MAC address, which enters as a parameter; the other user-interface files.
- `src/oabi/minisock.c`, `syscalls.S`, `crt0.S`, `mmap`, the allocator, `src/oabi/minithread.c` and the mock DMX devices.
- Read and write errors, a full file table (`fopen` with all eight entries in use), failed reopening of a DMX device, and clock wrap at 2^32 ms.
- Numbers.Utoa: bases above 16 have no digit characters and small bases overflow the scratch buffer; neither has a caller.
- Stdio.Fopen: a full file table is not modelled.
- ConfigSaves.UnmanagedKept: speaks of the part of the old file the saver reads, the first 2047 bytes up to a NUL; anything behind that is dropped by the code.
- ConfigSaves.PutPut: requires the intermediate file to fit the saver's 2047-byte read, and nothing to be glued.
- ConvertedProgram.MeaningPreserved: requires the layout of the linker script and ABS32 sites at multiples of four; misaligned or overlapping sites are not described.
- GatewayRuns.AcceptedExactly: for runs of sACN traffic; the other two protocols have no priority and accept every matching packet.
- InputRuns.InSync: requires the sends to succeed; `InputRuns.SyncedExactly` says what holds otherwise.
- Each port's state is one object per direction in `Daemon`; the C code keeps the same fields in global arrays indexed by port.
