# Verified models of six Android components

Dafny models of stateful code from an Android system image, with proofs of what each component promises. The modules follow the source files:

- **DHCP option and lease codec** (`external/dhcpcd/dhcp.c`): `Bytes`, `Decimal`, `DhcpOptions` (the scanner and its table), `DhcpLease` (lease files), `DnsNames` (compressed name lists and the host name encoder), `ClasslessRoutes`, `PrintString`, `PrintOption`, `DhcpMessage` (building a message in place), `DhcpTable` (the client's own option table), and what messages and printed options mean to their readers: `MessageMeaning`, `TextReading`, `OptionMeaning`.
- **Recovery restart protocol** (`bootable/recovery/recovery.cpp`): `BootMessage` (the argument text of the bootloader control block), `CommandFile` (the arguments that plain lines of text give) and `RecoveryProtocol` (the factory reset as steps over persistent state, with power loss at any step).
- **Vold block cache and label allocator** (`system/vold/Volume.cpp`): `VoldCache`, `VoldLabels`.
- **Skia point batching and colour blending** (`external/skia/src/core/SkDraw.cpp`): `SkiaPoints`, `SkiaColours`.
- **Init main loop** (`system/core/init/init.c`): `InitLoop`.
- **Battery time accounting** (`frameworks/av/media/libmediaplayerservice/MediaPlayerService.cpp`): `BatteryAudio`.

`dafny verify dfyconfig.toml` checks the whole project.

Code that moves cursors through buffers or updates fields is modelled by methods over arrays and classes. Each of them is proved against a function or relation on values (entries of a field, the names RFC 1035 defines, descriptors of RFC 3442, an unbatched drawing pass, the playing time of a history of events), and the lemmas then relate these to each other.

Where the code does not do what it is for, the model keeps the code and states exactly when it does:

- A `UINT32` is printed with `%d` but measured with ten digits: values from 2^31 to 2^32-10^9 need eleven characters (`PrintOption.Uint32Width`, `PrintOption.OneElementFits`).
- A name list whose first name is empty, or an empty list, makes the decoder store in front of its buffer: exactly when the list does not start with a name that has a label (`DnsNames.FrontByte`), for example for the bytes 0, 1, a, 0 in option 119 (`DhcpTable.SearchListStoresInFront`).
- Plain bytes and the terminator are stored by `print_string` without looking at the room left: the buffer is left exactly when one of them finds it full before an escape is refused (`PrintString.LeavesBuffer`).
- A list of numbers or addresses whose last element is not whole passes the length check; its partial element is printed but not measured, and is cut unless it finds room among the characters that the others leave (`DhcpTable.RowFillIsComplete`, `PrintOption.FiveBytes`).
- The only `SINT16` row of the option table, option 22, has no element size, so a lookup refuses it at every length (`DhcpTable.Sint16NeverAccepted`).
- A lookup treats an option of zero length like an absent one, so an empty value that was sent is not found (`DhcpTable.WrittenIsFound`).
- Releasing the fixed label "C" clears a slot at an index that was never set for it, or stores outside the table (`VoldLabels.LabelTable.ReleaseFixed`, `VoldLabels.LabelTable.FixedLabelFreesAnother`).
- A pull of battery data does not rebase an open interval, so the next pull counts it again (`BatteryAudio.PullIsExact`, `BatteryAudio.OpenPullCountsTwice`).

## Model

| member | source | states |
|---|---|---|
| `DhcpOptions.OptionReader.GetOption` | external/dhcpcd/dhcp.c:309-386 | for every field content without option 52: refused exactly when the total length of all values under the code is not acceptable, otherwise the in-order concatenation of all of them; it lies in the aggregate buffer exactly when there are several, and a lookup that meets at most one leaves the aggregate buffer untouched |
| `DhcpOptions.OptionReader.ScanField` | external/dhcpcd/dhcp.c:328-371 | the scan ends at END or the end of the field with every value stored under the code, the last clipped; no more bytes than the field has |
| `DhcpOptions.OptionReader.ScanEntry` | external/dhcpcd/dhcp.c:325-369 | one turn of the loop moves the cursor by one entry or one PAD byte and keeps what is gathered and what lies ahead in balance |
| `DhcpOptions.OptionReader.TakeFragment` | external/dhcpcd/dhcp.c:332-346 | meeting the code again moves the previous value behind the aggregate; the new value is clipped to the field |
| `DhcpOptions.OptionReader.AppendFragment` | external/dhcpcd/dhcp.c:333-341 | the aggregate grows by exactly the fragment and never past the message size |
| `DhcpOptions.OptionReader.FragmentTaken` | external/dhcpcd/dhcp.c:332-346 | taking the entry at the cursor keeps: gathered so far plus still ahead is everything stored under the code |
| `DhcpOptions.OptionReader.EntrySkipped` | external/dhcpcd/dhcp.c:347-370 | PAD and foreign entries change nothing about what is gathered and what lies ahead |
| `DhcpOptions.OptionReader.NextEntry` | external/dhcpcd/dhcp.c:328-370 | what one entry contributes to the values and the count of a code, and where the next entry starts |
| `DhcpOptions.ValidLength` | external/dhcpcd/dhcp.c:264-298 | -1 exactly when zero bytes are asked about, or the first row with this code refuses the length; array lengths are not required to be multiples, otherwise the bytes left over after whole elements |
| `DhcpOptions.AcceptsFirstRow` | external/dhcpcd/dhcp.c:272-297 | the first table row with the code decides, and a code without a row is let through |
| `DhcpOptions.ReadBack` | external/dhcpcd/dhcp.c:328-370 | encoded entries are read back wherever they stand in a field, followed by whatever is read behind them |
| `DhcpOptions.EncodedThenEnd` | external/dhcpcd/dhcp.c:347-370 | a list of entries followed by END is read back as exactly that list, whatever follows END |
| `DhcpOptions.EntryAt` | external/dhcpcd/dhcp.c:325-346 | in raw bytes: a code, a length and so many bytes are one entry, clipped where the field ends, and the next one begins behind the announced length |
| `DhcpOptions.NoEntryAt` | external/dhcpcd/dhcp.c:325-360 | in raw bytes: PAD is passed over, END stops the reading, and so does a code without room for its length |
| `DhcpOptions.LastValueClipped` | external/dhcpcd/dhcp.c:340-342 | a value that the end of the field cuts short is collected as far as it goes |
| `DhcpOptions.CollectedSplit` | external/dhcpcd/dhcp.c:332-346 | a value of any length cut into 255-byte entries is collected whole (RFC 3396 section 7) |
| `DhcpOptions.SplitOptionRecovered` | external/dhcpcd/dhcp.c:309-386 | a split value among other options is what a lookup collects |
| `DhcpOptions.CollectedAppend` | external/dhcpcd/dhcp.c:332-346 | values are collected in order across any cut of the entry list |
| `DhcpOptions.PadsAreNoEntries` | external/dhcpcd/dhcp.c:348-349 | a field of PAD bytes holds no entries |
| `DhcpLease.LeaseFile.Write` | external/dhcpcd/dhcp.c:1160-1208 | a BOOTP lease removes the file; otherwise the file holds the header and the options strictly before END, or all of them when the walk never meets END |
| `DhcpLease.LeaseFile.Read` | external/dhcpcd/dhcp.c:1210-1235 | the file is laid over a message of zeros and cut to the message size; no file gives no message |
| `DhcpLease.LeaseFile.StoreAndLoad` | external/dhcpcd/dhcp.c:1160-1235 | header unchanged and exactly the same entries, although END and all behind it is gone |
| `DhcpLease.LookupSurvivesStorage` | external/dhcpcd/dhcp.c:1160-1235 | every lookup answers the same on the stored and reloaded field, for every table, content and code |
| `DhcpLease.RestoredKeepsEntries` | external/dhcpcd/dhcp.c:1192-1205 | dropping END and zero-filling keeps every entry in order, for every byte content |
| `DhcpLease.EntriesUpToEnd` | external/dhcpcd/dhcp.c:1192-1205 | the same from any cursor position, for any field that agrees up to END and is PAD behind it |
| `DhcpLease.RestoredIsStable` | external/dhcpcd/dhcp.c:1160-1235 | storing a reloaded lease again changes nothing more |
| `DhcpLease.NoEndLeft` | external/dhcpcd/dhcp.c:1192-1205 | after one round no walk meets END any more |
| `DhcpLease.CutIsAtEnd` | external/dhcpcd/dhcp.c:1192-1204 | the message is cut at the one END that a walk over entries meets, wherever END codes stand inside values or behind it, and not at all when the walk meets none |
| `DhcpLease.EncodedIsRestored` | external/dhcpcd/dhcp.c:1160-1235 | entries with END behind them come back as their own bytes and zeros |
| `DnsNames.WalkMeetsRfc1035` | external/dhcpcd/dhcp.c:449-486 | a complete name is found exactly when RFC 1035 section 4.1.4 puts it there with at most 255 pointers in all |
| `DnsNames.PointerIsFollowed` | external/dhcpcd/dhcp.c:458-469 | two bytes with the two high bits set stand for the name at the offset in the fourteen low bits, and the list goes on behind them |
| `DnsNames.WalkIgnoresTail` | external/dhcpcd/dhcp.c:449-486 | a complete name is read from the data alone, whatever stands behind it in memory |
| `DnsNames.NamesIgnoreTail` | external/dhcpcd/dhcp.c:449-498 | the same for a complete list |
| `DnsNames.DecodeRfc3397` | external/dhcpcd/dhcp.c:442-499 | terminates on every byte string; measuring returns the length of the rendered list or 0; filling writes exactly the rendered list with NUL for its last separator, or -1 exactly when it does not fit; outside the buffer only the byte in front of it can change, and what becomes of that byte is stated exactly |
| `DnsNames.FrontByte` | external/dhcpcd/dhcp.c:487-496 | the byte in front of the buffer is overwritten if and only if the list does not start with a name that has a label |
| `DnsNames.EmptyFirstName` | external/dhcpcd/dhcp.c:487-496 | a concrete list, an empty name before a name a, that measures two bytes and overwrites the byte in front of them |
| `DnsNames.NextName` | external/dhcpcd/dhcp.c:449-492 | one name and its separator: the list read so far grows by that name, refusals and overruns keep the first name labelled |
| `DnsNames.DecodeName` | external/dhcpcd/dhcp.c:453-486 | one name: its labels with dots are added, the list resumes behind the first pointer, refusals and overruns are told apart |
| `DnsNames.StepName` | external/dhcpcd/dhcp.c:454-485 | one length byte: progress in hops or offset, and the name in progress keeps the meaning of the whole |
| `DnsNames.StepLabel` | external/dhcpcd/dhcp.c:470-485 | a plain label is copied with its dot, or the whole name cannot fit |
| `DnsNames.RenderedIsListText` | external/dhcpcd/dhcp.c:442-499 | for non-empty names the rendered list is labels joined by dots and names joined by spaces |
| `DnsNames.CompleteListDecodes` | external/dhcpcd/dhcp.c:442-499 | on complete, non-empty names decoding yields the joined text, NUL-terminated, of exactly the measured length |
| `DnsNames.NamesOfWire` | external/dhcpcd/dhcp.c:442-499 | a list written without compression is read back as the same names |
| `DnsNames.ExpansionKeepsMeaning` | external/dhcpcd/dhcp.c:459-471 | expanding every pointer leaves the decoded names the same |
| `DnsNames.EncodeRfc1035` | external/dhcpcd/dhcp.c:851-876 | the bytes appended are the encoding of the whole name, nothing else is changed, and the count is returned; label lengths are cut to a byte and an empty label ends the name |
| `DnsNames.OneLabelEncoded` | external/dhcpcd/dhcp.c:851-876 | a label of any length gets the low byte of its length, and an empty label in front of more ends the encoding at once |
| `DnsNames.EncodedIsWire` | external/dhcpcd/dhcp.c:851-876 | for labels of 1 to 63 bytes the encoding is the RFC 1035 wire form, with or without a final dot |
| `DnsNames.HostNameRoundTrip` | external/dhcpcd/dhcp.c:442-499 | decoding the encoded host name gives the name and a NUL; one trailing dot makes no difference |
| `Decimal.DecWidth` | external/dhcpcd/dhcp.c:1349-1372 | a number prints in at most k digits exactly when it is below 10^k |
| `Decimal.DecReadsBack` | external/dhcpcd/dhcp.c:1388-1399 | printed digits stand for the number printed |
| `Decimal.QuadWidth` | external/dhcpcd/dhcp.c:1369-1370 | an address of n octets prints in at most 4n-1 characters |
| `ClasslessRoutes.DecodeRfc3442Rt` | external/dhcpcd/dhcp.c:561-605 | no list below 5 bytes or for a prefix length over 32; otherwise one route per descriptor in order, destination zero-padded, netmask of exactly that many leading ones |
| `ClasslessRoutes.MeasureRfc3442` | external/dhcpcd/dhcp.c:501-559 | -1 in the same cases, otherwise a fixed room for each descriptor |
| `ClasslessRoutes.DecodeRfc3442` | external/dhcpcd/dhcp.c:501-559 | for every buffer size the text of exactly the descriptors the route list is built from, in order, NUL-terminated, or -1; never -1 with the measured room; nothing behind the given size is touched |
| `ClasslessRoutes.ReadRoute` | external/dhcpcd/dhcp.c:577-602 | one descriptor becomes a route with zero-padded destination and a mask of exactly its leading ones |
| `ClasslessRoutes.PrintDescriptor` | external/dhcpcd/dhcp.c:526-556 | one descriptor prints destination, prefix length and gateway in less than its room |
| `ClasslessRoutes.DescriptorsReadBack` | external/dhcpcd/dhcp.c:501-605 | encoded canonical descriptors are decoded to exactly themselves |
| `ClasslessRoutes.WellFormedData` | external/dhcpcd/dhcp.c:501-605 | on well-formed data both decoders see exactly the encoded descriptors, and the measured room exceeds the text |
| `ClasslessRoutes.RoutesTextFits` | external/dhcpcd/dhcp.c:515-520 | the text of n descriptors is shorter than n times the room of one |
| `ClasslessRoutes.TextFitsSlot` | external/dhcpcd/dhcp.c:515-556 | a descriptor with its separator fits its room, and prefix length 0 prints as the literal 0.0.0.0/0 |
| `TextReading.NumberDenotes` | external/dhcpcd/dhcp.c:1382-1404 | a printed number, read by its digits and its sign, is the number printed |
| `TextReading.QuadDenotes` | external/dhcpcd/dhcp.c:1405-1408 | a printed address, cut at its dots, gives its octets back in order |
| `TextReading.FieldsJoin` | external/dhcpcd/dhcp.c:1376-1381 | cutting at a separator undoes joining with it |
| `PrintString.EscapeRoundTrip` | external/dhcpcd/dhcp.c:1237-1301 | un-escaping gives back every byte string |
| `PrintString.EscapedIsPrintable` | external/dhcpcd/dhcp.c:1237-1301 | the escaped form is printable ASCII only |
| `PrintString.EscapedIsSafe` | external/dhcpcd/dhcp.c:1270-1293 | no quote, dollar, backquote, bar, ampersand or backslash stands without a backslash of its own, and no backslash stands alone |
| `PrintString.PlainIsKept` | external/dhcpcd/dhcp.c:1289-1293 | printable text without such bytes is left as it is |
| `PrintString.UnescapeFirst` | external/dhcpcd/dhcp.c:1258-1292 | the escape of one byte is read back without looking at what follows |
| `PrintString.PrintString` | external/dhcpcd/dhcp.c:1237-1301 | measuring returns one more than the length of the escaped data without its trailing NULs; filling writes, whatever the buffer size, everything up to the first escape that does not fit and a NUL if there is none; nothing else behind the buffer is touched |
| `PrintString.PutNext` | external/dhcpcd/dhcp.c:1246-1294 | the next byte is written, or its escape is the first one that is refused |
| `PrintString.PutByte` | external/dhcpcd/dhcp.c:1256-1293 | one byte appends exactly its escape; it is refused if and only if it needs an escape that does not fit with a NUL behind it |
| `PrintString.LeavesBuffer` | external/dhcpcd/dhcp.c:1256-1300 | writing goes past the buffer if and only if a plain byte or the terminator finds it full before any escape is refused; text without escapes is never cut |
| `PrintString.RestIsNul` | external/dhcpcd/dhcp.c:1248-1257 | tells exactly whether only NULs remain |
| `PrintOption.PrintOption` | external/dhcpcd/dhcp.c:1303-1421 | the measuring pass returns the size of the type-directed presentation (-1 or 0 when refused or empty); the filling pass, given at least that size, writes the presentation and a NUL if it fits and otherwise returns the buffer size |
| `PrintOption.MeasuredIsExact` | external/dhcpcd/dhcp.c:1312-1347 | strings that do not start with NUL and lists of complete, non-empty names are measured exactly; un-escaping the text gives the string or the joined names, without trailing NULs |
| `PrintOption.MeasuredIsEnough` | external/dhcpcd/dhcp.c:1303-1421 | the measured size leaves room for text and terminator always for strings, names and routes, and for numbers if and only if what elements outgrow or leave over balances, partial last elements included |
| `PrintOption.TextLength` | external/dhcpcd/dhcp.c:1349-1418 | printed characters and characters left over equal the measured size, a partial last element, and the separators |
| `PrintOption.ElementsFit` | external/dhcpcd/dhcp.c:1349-1418 | lists of elements: the measured size exceeds the text if and only if the elements fit |
| `PrintOption.WholeElementsFit` | external/dhcpcd/dhcp.c:1349-1372 | whole elements of every type but UINT32 never need more than their widths |
| `PrintOption.FiveBytes` | external/dhcpcd/dhcp.c:1364-1408 | five bytes of an address list fit if and only if both addresses printed are together shorter than one width |
| `PrintOption.ElementFits` | external/dhcpcd/dhcp.c:1349-1399 | an element prints within the width its type is measured with exactly when it does not outgrow it |
| `PrintOption.Uint32Width` | external/dhcpcd/dhcp.c:1395-1399 | a UINT32 printed with %d needs 11 characters exactly for values from 2^31 to 2^32-10^9, 10 or fewer otherwise |
| `PrintOption.OneElementFits` | external/dhcpcd/dhcp.c:1349-1399 | a single element fits exactly when it does not outgrow its width |
| `PrintOption.FillElements` | external/dhcpcd/dhcp.c:1374-1418 | the whole text and a NUL when they fit, otherwise the result equals the buffer size |
| `PrintOption.FillOne` | external/dhcpcd/dhcp.c:1376-1417 | one turn appends a separator and one element, or stops with the buffer full |
| `PrintOption.PrintNames` | external/dhcpcd/dhcp.c:1312-1331 | name lists are decoded into a buffer of their own, and then escaped; both passes return the same size, for every list |
| `OptionMeaning.ElementMeans` | external/dhcpcd/dhcp.c:1382-1408 | the text of one element denotes its byte, its two bytes in network order, the two's complement of its two or four bytes, or its four octets |
| `OptionMeaning.ListReads` | external/dhcpcd/dhcp.c:1374-1418 | the text of a list, cut at its spaces, denotes its elements one by one in order |
| `OptionMeaning.NumbersShown` | external/dhcpcd/dhcp.c:1349-1418 | which type decides how an option is shown, what its text denotes, and how much room is measured for each element |
| `OptionMeaning.TableRowsShown` | external/dhcpcd/dhcp.c:74-175 | for the rows of the table: which options are shown as numbers of one, two or four bytes, lists of them, or addresses |
| `OptionMeaning.TwoBytesShown` | external/dhcpcd/dhcp.c:1385-1389 | two bytes of a UINT16 option are shown as one number, 256 times the first plus the second |
| `OptionMeaning.NotShown` | external/dhcpcd/dhcp.c:1316-1370 | strings that begin with NUL and refused name lists are shown as nothing; routes below five bytes or out of range and options without a type are refused |
| `OptionMeaning.DescriptorFields` | external/dhcpcd/dhcp.c:537-551 | a descriptor prints as two words: destination, slash and prefix length, and router |
| `OptionMeaning.RoutesShown` | external/dhcpcd/dhcp.c:501-559 | the text of routes, cut at its spaces, names destination, prefix length and router of every route in order |
| `OptionMeaning.RouteOptionShown` | external/dhcpcd/dhcp.c:1336-1337 | a route option shows the text of exactly the routes read from it |
| `DhcpMessage.MakeMessage` | external/dhcpcd/dhcp.c:910-1158 | the option field is the encoding of the message's options in order, END, and zeros; the length also counts the padding |
| `DhcpMessage.PutIdentity` | external/dhcpcd/dhcp.c:971-1003 | message type, client identifier, lease and decline text in order |
| `DhcpMessage.PutLease` | external/dhcpcd/dhcp.c:981-1006 | which address and server a message names, by type |
| `DhcpMessage.ClampSize` | external/dhcpcd/dhcp.c:1014-1023 | the size asked for lies between the MTU bounds whenever the interface can be changed |
| `DhcpMessage.PutFqdn` | external/dhcpcd/dhcp.c:1101-1122 | option 81 carries flags and the encoded host name, its length byte raised to cover both |
| `DhcpMessage.PutParameterList` | external/dhcpcd/dhcp.c:1131-1144 | option 55 holds exactly the codes wanted, in table order, with their count |
| `DhcpMessage.ImageIsEncoding` | external/dhcpcd/dhcp.c:910-1158 | the bytes put one by one are the encoding of the entries |
| `DhcpMessage.CutAtDot` | external/dhcpcd/dhcp.c:1090-1100 | the host name up to its first dot |
| `DhcpMessage.MessageReadsBack` | external/dhcpcd/dhcp.c:910-1158 | every message is a well-formed stream: read back it holds exactly the options written, each code at most once, and no option 52 |
| `DhcpMessage.OptionReadsBack` | external/dhcpcd/dhcp.c:309-386 | what is collected for an option of the message is exactly the value put in, from a single entry, or nothing when it was not written |
| `DhcpMessage.TakenCollects` | external/dhcpcd/dhcp.c:332-346 | with distinct codes, collecting a code gives that option's value and nothing else |
| `DhcpMessage.TakenDistinct` | external/dhcpcd/dhcp.c:910-1158 | options of a message have distinct codes |
| `DhcpTable.TableIsOk` | external/dhcpcd/dhcp.c:74-175 | every array row of the table names its element size, so that no length is divided by zero |
| `DhcpTable.AcceptedLengths` | external/dhcpcd/dhcp.c:74-175 | for every code and length: nothing empty is accepted, single numbers of the table only at 1, 2 or 4 bytes, option 22 never, and all other codes at any other length |
| `DhcpTable.RoutesAreFound` | external/dhcpcd/dhcp.c:309-386 | routes encoded in option 121, split if need be and among other options, are what a lookup answers with, byte for byte |
| `DhcpTable.WrittenIsFound` | external/dhcpcd/dhcp.c:309-386 | a lookup in a message answers with exactly the value written, and with nothing exactly when none was written or the value is empty |
| `DhcpTable.RowFillIsComplete` | external/dhcpcd/dhcp.c:1303-1421 | for every row of the table that is modelled and every length a lookup accepts: the filling pass is complete if and only if a UINT32 does not outgrow its width and a partial last element finds room among the characters left over |
| `DhcpTable.SearchListStoresInFront` | external/dhcpcd/dhcp.c:442-499 | the bytes 0, 1, a, 0 in option 119 are accepted, measured as two bytes, and overwrite the byte in front of the buffer |
| `DhcpTable.Sint16NeverAccepted` | external/dhcpcd/dhcp.c:264-298 | option 22, the SINT16 row, is refused at every length, so it can never be read |
| `MessageMeaning.IdentityRead` | external/dhcpcd/dhcp.c:971-979 | what is read of a message: its type, and its client identifier if there is one |
| `MessageMeaning.DeclineRead` | external/dhcpcd/dhcp.c:997-1003 | a decline, and no other message, says why |
| `MessageMeaning.LeaseRead` | external/dhcpcd/dhcp.c:981-1006 | which address and which server are read, for every type of message and state of the lease |
| `MessageMeaning.MaximumSizeRead` | external/dhcpcd/dhcp.c:1012-1027 | option 57 is two bytes in network order that make the MTU within its bounds |
| `MessageMeaning.LeaseTimeRead` | external/dhcpcd/dhcp.c:1076-1083 | option 51 is four bytes in network order that make the lease time, in discover and request only |
| `MessageMeaning.ConfiguredRead` | external/dhcpcd/dhcp.c:1029-1073 | class and vendor options are read as configured from messages that ask, and only from them |
| `MessageMeaning.HostNameRead` | external/dhcpcd/dhcp.c:1090-1100 | the host name is read up to its first dot |
| `MessageMeaning.FqdnRead` | external/dhcpcd/dhcp.c:1101-1119 | option 81 has the two flags as configured, the encoding bit set and no other, and two zeros |
| `MessageMeaning.FqdnNameRead` | external/dhcpcd/dhcp.c:1119-1121 | the name in option 81 decodes to the host name, with or without a final dot |
| `MessageMeaning.RequestsRead` | external/dhcpcd/dhcp.c:1131-1144 | option 55 lists the codes of exactly the rows asked for, each once, in table order, without times in an inform |
| `BootMessage.StrLcpy` | bootable/recovery/recovery.cpp:289-290 | the text cut to the field with its terminator |
| `BootMessage.StrLcat` | bootable/recovery/recovery.cpp:293-294 | the text in the field and the new text, cut to the field |
| `BootMessage.Strtok` | bootable/recovery/recovery.cpp:248-253 | the next non-empty line and where to go on |
| `BootMessage.ParseBlock` | bootable/recovery/recovery.cpp:245-260 | all tokens, at most MAX_ARGS, when the first one is the program name, otherwise none |
| `BootMessage.ParseFile` | bootable/recovery/recovery.cpp:262-285 | the program name and the first run of each non-empty line, at most MAX_ARGS in all |
| `BootMessage.GetArgs` | bootable/recovery/recovery.cpp:174-297 | which source of arguments wins, and that the block afterwards holds exactly these arguments as far as they fit |
| `BootMessage.FromBlock` | bootable/recovery/recovery.cpp:246-256 | the last byte becomes a terminator, and the arguments are those of the text in front of it |
| `BootMessage.WriteArgs` | bootable/recovery/recovery.cpp:287-296 | the block holds the program name and the arguments, one a line, cut to the field |
| `BootMessage.TokensOfLines` | bootable/recovery/recovery.cpp:245-296 | lines of proper arguments are parsed back unchanged |
| `BootMessage.LinesOfTokens` | bootable/recovery/recovery.cpp:245-296 | writing the tokens of a clean text gives the text back, up to a final newline |
| `BootMessage.WrittenIsFixedPoint` | bootable/recovery/recovery.cpp:245-296 | the block text is a fixed point of parsing and writing even when truncated, as long as one argument survives |
| `BootMessage.WrittenReadsBack` | bootable/recovery/recovery.cpp:245-296 | arguments that fit are the original ones after parsing |
| `BootMessage.FewerTokens` | bootable/recovery/recovery.cpp:245-260 | cutting a text short never makes more tokens |
| `CommandFile.EveryLine` | bootable/recovery/recovery.cpp:272-280 | every line is made of line ends, or of line ends, a text, and what follows the line end behind it |
| `CommandFile.FileYields` | bootable/recovery/recovery.cpp:272-280 | such lines give exactly their texts in order, as many as there is room for; lines of line ends add nothing |
| `CommandFile.ReadCommandFile` | bootable/recovery/recovery.cpp:262-285 | the program name and the texts of the lines, 100 in all at most |
| `CommandFile.RealArgumentsWin` | bootable/recovery/recovery.cpp:245-263 | real arguments are used as they are |
| `CommandFile.BlockComesSecond` | bootable/recovery/recovery.cpp:245-260 | otherwise the arguments in the block, the first 100, whatever the file says |
| `CommandFile.FileComesThird` | bootable/recovery/recovery.cpp:262-285 | otherwise the texts of the command file |
| `CommandFile.NothingAnywhere` | bootable/recovery/recovery.cpp:262-285 | and without a file none |
| `CommandFile.ArgumentsFromFile` | bootable/recovery/recovery.cpp:174-297 | with neither real arguments nor any in the block, get_args works with the texts of the command file and writes them to the block as far as they fit |
| `RecoveryProtocol.RestartKeepsCommand` | bootable/recovery/recovery.cpp:174-297 | once the block is written, every restart, whatever the command file has become, wipes again and writes the same text |
| `RecoveryProtocol.FittingCommand` | bootable/recovery/recovery.cpp:143-144 | a wipe command that fits the block survives whole |
| `RecoveryProtocol.FaultsCanHappen` | bootable/recovery/recovery.cpp:98-112 | power can be lost at any moment before the main system is there, a format of the cache may leave anything of the command file, and erases and the unlink may return without having worked |
| `RecoveryProtocol.StepKeepsSafe` | bootable/recovery/recovery.cpp:98-112 | every step and every power loss keeps the invariant between block, command file and erases |
| `RecoveryProtocol.RunIsSafe` | bootable/recovery/recovery.cpp:98-112 | the invariant over whole runs |
| `RecoveryProtocol.NoBootBeforeErase` | bootable/recovery/recovery.cpp:1097-1143 | over every run with power lost at any steps: the main system is booted only after both erases returned, and once the block is cleared after a successful cache format the command file is gone |
| `RecoveryProtocol.StepsComeNearer` | bootable/recovery/recovery.cpp:976-1144 | every step but a power loss comes nearer to the main system |
| `RecoveryProtocol.ErasesComplete` | bootable/recovery/recovery.cpp:976-1144 | some step is always possible, so an erase that is not interrupted for ever completes |
| `VoldCache.SafeRead` | system/vold/Volume.cpp:1433-1442 | interrupted reads are repeated; otherwise what one read delivers |
| `VoldCache.FullRead` | system/vold/Volume.cpp:1444-1470 | short reads are joined: what is returned is what stands at the start of the buffer, taken from the medium; complete whenever the device is willing and the medium long enough |
| `VoldCache.VolumeId.GetBuffer` | system/vold/Volume.cpp:1520-1589 | every answer shows the medium's bytes, from whichever buffer; a failed read leaves both buffers empty; too large a request changes nothing; a request on the medium fails only when the device does |
| `VoldCache.VolumeId.FromSuperblock` | system/vold/Volume.cpp:1530-1547 | the same for requests inside the superblock area |
| `VoldCache.VolumeId.FromSeek` | system/vold/Volume.cpp:1553-1569 | the same for requests beyond it |
| `VoldCache.VolumeId.FillSuperblock` | system/vold/Volume.cpp:1543-1586 | the superblock buffer holds the start of the medium, or both buffers are empty and the error is noted |
| `VoldCache.VolumeId.FillSeek` | system/vold/Volume.cpp:1563-1586 | the seek buffer holds the wanted bytes and nothing else, or both buffers are empty |
| `VoldCache.VolumeId.FreeBuffer` | system/vold/Volume.cpp:1509-1518 | both buffers are empty |
| `VoldCache.Serve` | system/vold/Volume.cpp:1520-1589 | over any sequence of requests every answer is the medium's own bytes, and with a willing device every request on the medium that fits is answered |
| `VoldLabels.LabelOf` | system/vold/Volume.cpp:1716-1726 | slots 0 to 22 have letters D to Z, the others sdb and a number; the first byte tells which |
| `VoldLabels.LabelReads` | system/vold/Volume.cpp:1716-1726 | the labels in plain terms: D to Z in order, then sdb1, sdb2 and so on |
| `VoldLabels.LabelsDiffer` | system/vold/Volume.cpp:1716-1726 | no two slots have the same label |
| `VoldLabels.LabelTable.OneHolderEach` | system/vold/Volume.cpp:1697-1749 | in every state of the table a marked slot has exactly one holder, no two volumes share a label, and every label carried is marked |
| `VoldLabels.LabelTable.GetPartitionLabel` | system/vold/Volume.cpp:1697-1730 | a volume that wants a label and has none gets the lowest free slot, or none when all 1023 are taken; otherwise nothing changes |
| `VoldLabels.LabelTable.LowestIsLowest` | system/vold/Volume.cpp:1711-1714 | no slot in front of the one given is free |
| `VoldLabels.LabelTable.ReleasePartitionLabel` | system/vold/Volume.cpp:1732-1749 | a volume with a slot label frees exactly that slot; with the fixed label no harm is done exactly when its index names a free slot of the table |
| `VoldLabels.LabelTable.ReleaseOwn` | system/vold/Volume.cpp:1732-1749 | the slot freed is the one whose label the volume held |
| `VoldLabels.LabelTable.ReleaseFixed` | system/vold/Volume.cpp:1739-1742 | releasing the fixed label clears the slot at an index never set for it: the table stays in order and nothing outside it is stored if and only if the index names a slot that is free |
| `VoldLabels.LabelTable.FixedLabelFreesAnother` | system/vold/Volume.cpp:1706-1742 | a concrete run after which a label is held although its slot is free |
| `VoldLabels.LabelTable.Interleave` | system/vold/Volume.cpp:1697-1749 | over any interleaving of requests and releases the table stays in order |
| `SkiaPoints.DrawPoints` | external/skia/src/core/SkDraw.cpp:595-652 | for every count and mode the batches emit exactly the points, pairs or polygon sides of one pass, in order; the loop ends although polygon mode steps back |
| `SkiaPoints.DrawnInPlainTerms` | external/skia/src/core/SkDraw.cpp:421-449 | every point is mapped; dots stand for points, segments for pairs or neighbours, as many as there are |
| `SkiaPoints.Proc` | external/skia/src/core/SkDraw.cpp:410-449 | one batch emits the dots, the pairs or the sides of its points in order |
| `SkiaPoints.DrawBatch` | external/skia/src/core/SkDraw.cpp:640-645 | mapping and drawing a batch draws the mapped points |
| `SkiaPoints.NextBatch` | external/skia/src/core/SkDraw.cpp:639-652 | one batch is drawn and moves position and count, with fewer points left |
| `SkiaPoints.BatchesJoin` | external/skia/src/core/SkDraw.cpp:595-652 | a first batch and the rest, which starts one point earlier in polygon mode, draw what one pass draws |
| `SkiaPoints.OneMoreBatch` | external/skia/src/core/SkDraw.cpp:639-652 | each batch moves the boundary between drawn and undrawn and keeps their sum |
| `SkiaColours.ScalarTo256` | external/skia/src/core/SkDraw.cpp:2522-2531 | a weight from 1 to 256: the coordinate in 256ths, dropped to a whole and raised by one, and the ends outside the unit range |
| `SkiaColours.WeightsAt` | external/skia/src/core/SkDraw.cpp:2540-2550 | three weights, none negative, that sum to 256; the larger coordinate keeps its weight when there is too much |
| `SkiaColours.AlphaMulQIsPerChannel` | external/skia/src/core/SkDraw.cpp:2552-2554 | scaling the packed word scales each channel by itself |
| `SkiaColours.ScaledExactly` | external/skia/src/core/SkDraw.cpp:2552-2554 | a scaled channel is the product with the weight in 256ths, up to the fraction dropped |
| `SkiaColours.CornersKeepColours` | external/skia/src/core/SkDraw.cpp:2552-2554 | where one colour has all the weight the blend is that colour |
| `SkiaColours.WeightsFit` | external/skia/src/core/SkDraw.cpp:2552-2554 | with weights that sum to 256 no channel of the sum overflows |
| `SkiaColours.BlendCarriesNothing` | external/skia/src/core/SkDraw.cpp:2552-2554 | the sum of the three packed products carries nothing between channels |
| `SkiaColours.BlendPremultiplied` | external/skia/src/core/SkDraw.cpp:2533-2556 | a blend of premultiplied colours is premultiplied |
| `SkiaColours.PixelIsBlend` | external/skia/src/core/SkDraw.cpp:2540-2554 | a pixel, the sum of three scaled words, is the packed blend of the three colours |
| `SkiaColours.BlendReadsBack` | external/skia/src/core/SkDraw.cpp:2552-2554 | the packed blend read channel by channel is the blend, premultiplied when the colours are |
| `SkiaColours.PixelPremultiplied` | external/skia/src/core/SkDraw.cpp:2533-2556 | every pixel of premultiplied colours is premultiplied |
| `SkiaColours.ShadeSpan` | external/skia/src/core/SkDraw.cpp:2533-2556 | every place of the span holds the pixel at its own coordinates; what lies behind the span is untouched |
| `SkiaColours.ShadeTriangle` | external/skia/src/core/SkDraw.cpp:2533-2556 | the span of three colours holds their pixels, all premultiplied when the colours are |
| `SkiaColours.UnpackPack` | external/skia/src/core/SkDraw.cpp:2552-2554 | packing loses nothing |
| `InitLoop.Loop.Advance` | system/core/init/init.c:531-546 | the next command of the current action, else the first of the next action in the queue, is executed; nothing is skipped or repeated |
| `InitLoop.Loop.NextOfAction` | system/core/init/init.c:514-524 | exactly the first command left over is executed |
| `InitLoop.Loop.NextAction` | system/core/init/init.c:504-512 | the head of the queue becomes current and its first command, if any, is executed |
| `InitLoop.Loop.ExecuteOneCommand` | system/core/init/init.c:531-551 | at most one more command is executed, with its effect on queue and services and on nothing without it; queued equals executed, left over and waiting, in this order |
| `InitLoop.Loop.RestartServiceIfNeeded` | system/core/init/init.c:418-432 | a service that is due is started and one that is not due stays marked and untouched; the alarm is then the earlier of the old one and its own |
| `InitLoop.Loop.RestartProcesses` | system/core/init/init.c:434-439 | every marked service that is due is started, every other one goes on waiting, unmarked ones are left alone; the alarm is the earliest restart time of all services still marked, 0 exactly when there is none |
| `InitLoop.Loop.RestartNext` | system/core/init/init.c:418-439 | one service of the list is treated, the others are untouched |
| `InitLoop.Loop.SleepTime` | system/core/init/init.c:1205-1212 | no limit exactly when no action is at hand and no service is marked; otherwise a sleep that lasts to the earliest restart and no longer |
| `InitLoop.Loop.RestartAndSleep` | system/core/init/init.c:1181-1212 | restarting and finding the time to sleep: services as they stood before are treated by their restart times |
| `InitLoop.Loop.Turn` | system/core/init/init.c:1177-1212 | one turn: the services as the command left them are started exactly when due, the same about the sleep, and an unlimited sleep only when every command ever queued has been executed |
| `InitLoop.Loop.Run` | system/core/init/init.c:1177-1226 | over any number of turns and events commands are executed in queue order, each once |
| `InitLoop.Loop.Drain` | system/core/init/init.c:1177-1226 | when nothing more is queued, everything queued has been executed after as many turns as there are commands and actions left |
| `InitLoop.CommandsAppend` | system/core/init/init.c:531-551 | queued actions contribute their commands in order |
| `BatteryAudio.BatteryAudioUsage.AddBatteryData` | frameworks/av/media/libmediaplayerservice/MediaPlayerService.cpp:2230-2308 | which event a notification is; the counters keep agreeing with the history of events |
| `BatteryAudio.BatteryAudioUsage.ChangeDevice` | frameworks/av/media/libmediaplayerservice/MediaPlayerService.cpp:2236-2271 | switching devices closes the interval of the old and opens that of the new device |
| `BatteryAudio.BatteryAudioUsage.Switch` | frameworks/av/media/libmediaplayerservice/MediaPlayerService.cpp:2254-2269 | one device changes, the others keep all counters |
| `BatteryAudio.BatteryAudioUsage.StartStream` | frameworks/av/media/libmediaplayerservice/MediaPlayerService.cpp:2274-2288 | the first stream opens an interval on the device that is on |
| `BatteryAudio.BatteryAudioUsage.StopStream` | frameworks/av/media/libmediaplayerservice/MediaPlayerService.cpp:2288-2308 | the last stream closes it; a stop without a stream changes nothing but is an event |
| `BatteryAudio.BatteryAudioUsage.PullBatteryData` | frameworks/av/media/libmediaplayerservice/MediaPlayerService.cpp:2370-2389 | each device's real playing time since the last pull, plus what the last pull had already reported of an interval open then |
| `BatteryAudio.AgreeAfterDevice` | frameworks/av/media/libmediaplayerservice/MediaPlayerService.cpp:2254-2270 | one device's counters agree with the history after a device change |
| `BatteryAudio.AgreeAfterStart` | frameworks/av/media/libmediaplayerservice/MediaPlayerService.cpp:2274-2288 | and after a start |
| `BatteryAudio.AgreeAfterStop` | frameworks/av/media/libmediaplayerservice/MediaPlayerService.cpp:2288-2308 | and after a stop |
| `BatteryAudio.AgreeAfterPull` | frameworks/av/media/libmediaplayerservice/MediaPlayerService.cpp:2377-2389 | and after a pull, which reports real time plus time counted twice |
| `BatteryAudio.OnTimeIsTicks` | frameworks/av/media/libmediaplayerservice/MediaPlayerService.cpp:2230-2308 | a device's time is the number of ticks since the last pull at which something played on it |
| `BatteryAudio.WorldAtFirst` | frameworks/av/media/libmediaplayerservice/MediaPlayerService.cpp:217-229 | at first nothing plays and the speaker is on |
| `BatteryAudio.OneMoreEvent` | frameworks/av/media/libmediaplayerservice/MediaPlayerService.cpp:2230-2308 | what each event does to streams, device and the open interval |
| `BatteryAudio.OneMoreEventFor` | frameworks/av/media/libmediaplayerservice/MediaPlayerService.cpp:2230-2308 | what each event does to the time of a device |
| `BatteryAudio.DevicesSumToPlayTime` | frameworks/av/media/libmediaplayerservice/MediaPlayerService.cpp:2230-2308 | exactly one device is on, so the times of the devices sum to the total playing time |
| `BatteryAudio.QuietPullsAreExact` | frameworks/av/media/libmediaplayerservice/MediaPlayerService.cpp:2370-2389 | nothing is counted twice exactly when the last pull came while nothing played |
| `BatteryAudio.OpenPullCountsTwice` | frameworks/av/media/libmediaplayerservice/MediaPlayerService.cpp:2370-2389 | a concrete history, a start and a pull one tick later, after which the next pull counts that tick again |
| `BatteryAudio.PullIsExact` | frameworks/av/media/libmediaplayerservice/MediaPlayerService.cpp:2370-2389 | a pull reports every device's real time, and the sum is the total playing time, if and only if the last pull came while nothing played |

## Left out

- DhcpOptions.OptionReader.GetOption: does not cover a field with option 52, because after END the source falls through to the length skip (external/dhcpcd/dhcp.c:347-368) and can enter the overloaded fields again and again; codes PAD and END, which no caller asks for, are excluded too.
- DhcpOptions.OptionReader.ScanField: the same.
- DnsNames.DecodeRfc3397: the memory around the buffer is modelled as the rest of an array, with at least one byte in front; the bytes behind the data, which the source loads before it checks the bound, are arbitrary but readable.
- DnsNames.EncodeRfc1035: requires room for the encoding in the destination, which the source never checks.
- ClasslessRoutes.DecodeRfc3442: an unfinished last descriptor reads up to 8 arbitrary bytes behind the data; which buffers below the measured room are still enough is not stated.
- PrintString.PrintString: the memory behind the buffer, where the source stores plain bytes when it is too small, is modelled as the rest of an array.
- PrintOption.PrintOption: filling is modelled with at least the measured size; the branches for RFC 3361 and RFC 5969 options are not modelled.
- DhcpMessage.MakeMessage: models the options, not the fixed header fields; values must fit their length byte and the field, which the source does not check; the DHCP_PLUS vendor block calls code that is not part of this model.
- DhcpLease.LeaseFile.Write: whether the lease is a BOOTP lease is a parameter; opening, short writes and other file errors are left out.
- BootMessage.GetArgs: failing reads and writes of the control block and the volume table update from the uuid file are left out; what fgets delivers from the command file is a parameter.
- RecoveryProtocol.NoBootBeforeErase: a write of the control block is one atomic step, the option parser is an arbitrary function of the arguments, and commands with an update package and the interactive menu (which clears the block before its own wipe) are not covered.
- RecoveryProtocol: the product's WipeData hook, log files and the saved locale have no influence on the properties and are left out.
- VoldCache.VolumeId.GetBuffer: seeks and allocations succeed, an allocation of zero bytes included, and offsets do not wrap at 64 bits; the sizes of both buffers are parameters.
- VoldLabels.LabelTable.Interleave: volumes at the fixed mount point are covered by ReleaseFixed and not part of the interleaving; the lock makes each operation one step.
- SkiaPoints.DrawPoints: the branch that is drawn through the device one point group at a time; rasterising, clipping and the branches through paths and rectangles are left out.
- SkiaColours.AlphaMulQIsPerChannel: SkAlphaMulQ and SkAlpha255To256 are modelled by their usual definitions; the header SkColorPriv.h is not part of this model. Colours are exact words and coordinates real numbers.
- InitLoop.Loop.Turn: boot charting and the registration of file descriptors are left out; what commands, property changes, signals and key chords do is arbitrary (they queue actions and change services).
- InitLoop.Loop.ServiceStart: fork, exec and their failures are one arbitrary choice; the clock does not go back.
- BatteryAudio.BatteryAudioUsage.PullBatteryData: times are unbounded, positive and strictly growing instead of wrapping 32-bit milliseconds; the codec usage per uid is left out, because its totals are reset only on a local copy.
- dhcp.h: sizes of the header and the option field are parameters; message types and option codes are those of RFC 2132 and RFC 4702.
- get_option returns pointers into a static buffer: that a later lookup overwrites an earlier answer is stated only as far as lookups of unsplit options leave the buffer alone.
- dhcpcd.c: sockets, ARP, timers and the protocol's own state machine depend on files that are not part of this model.
