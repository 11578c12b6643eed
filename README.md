# A verified model of small openpilot components

This project models, in Dafny, the deterministic cores of a group of small
components from an openpilot fork, and proves properties of them. Each model
follows one source file and keeps its form: objects whose methods update
fields become classes, loops become methods with invariants, and expression
code becomes functions and lemmas.

| module | file | models |
|---|---|---|
| `Common`, `Text` | common.dfy, text.dfy | shared `Option`/`Result`, C integer division, and the string helpers the sources rely on: ASCII case mapping, substring search, Qt and Python integer parsing, splitting at a separator, lexicographic order |
| `ReplayStream` | replay.dfy | the route replay: which services get a publish socket, per-segment reader maps, trimming the event window, seeking, and one pacing and dispatch step of the stream loop on integer nanosecond clocks |
| `CabanaBinaryView` | cabana_binaryview.dfy | cabana's bit grid: bit-index arithmetic, laying DBC signals onto a row x 9 cell grid with LSB/MSB flags, rendering bytes, the changed-cell report, selections, and the resize/add-signal arithmetic on mouse release |
| `CabanaDetail` | cabana_detail.dfy | the detail pane: signal colours, the bit table, the bounded history log driven by a message counter, and the edit dialog's validation |
| `CabanaMessages` | cabana_messages.dfy | the message list: the column filter, keyed sorting, the suppressed-byte set, resets and the header's filter map |
| `WifiManager` | wifi_manager.dfy | security and connection classification, the strength order, the list of seen networks with unique SSIDs, known connections, the adapter state machine and the tethering SSID |
| `CameraCommon` | camera_common.dfy | the camera buffer queue, the RGB size rule, the crop-and-scale frame copy, the luminance histogram with its upper-median scan, and the auto-exposure rectangles |
| `Thneed` | thneed.dfy | the 256-byte-aligned GPU bump allocator, command recording and timestamping, kernel-argument capture and `dlsym` routing |
| `Util` | util.dfy | `map_val`, `hexdump` with its decoding, `unique_fd` and `ExitHandler` |
| `CompareLogs`, `TestProcesses` | compare_logs.dfy, test_processes.dfy | process-replay log comparison: filtering and grouping by type, ignored-field reset, count mismatches, the diff summary and the tested-set computation |
| `SrReader`, `HkgFuzzyFp`, `QlogSize`, `ChryslerCarState`, `Fingerprints`, `UpdateTranslations` | srreader.dfy, hkg_fuzzy_fp.dfy, qlog_size.dfy, chrysler_carstate.dfy, fingerprints.dfy, update_translations.dfy | segment-range resolution, HKG platform-code extraction, qlog decimation and the size pie, Chrysler gear and flag decoding, the fingerprint validity rule, and translation-string collection with the `lupdate` command lines |

Calls the sources make into code that is not part of this model (DBus,
OpenCL, capnp, DBC lookups such as `bigEndianBitIndex`, `getSignalRange` and
`msgName`, DeepDiff, LogReader, clocks) become parameters or fields that the
caller supplies.

## Model

| member | source | states |
|---|---|---|
| ReplayStream.SocketsAsWritten | selfdrive/ui/replay/replay.cc:31-47 | as written, a replay driven by a SubMaster opens no socket at all; otherwise only wanted services get one |
| ReplayStream.OpenSockets | selfdrive/ui/replay/replay.cc:31-47 | a service gets an entry exactly when it is in the service list, is allowed (empty allow list or named in it) and not blocked, and, without a SubMaster, its publish socket could be created |
| ReplayStream.OpenSocketsAgreesWithoutSubMaster | selfdrive/ui/replay/replay.cc:31-47 | without a SubMaster the corrected socket set is exactly the one the constructor builds |
| ReplayStream.DispatchRules | selfdrive/ui/replay/replay.cc:228-296 | an event is handled exactly when its type has an entry; it goes to its socket without a SubMaster and to the SubMaster otherwise, never both; a frame is pushed exactly for a road camera state whose frame id is indexed in a segment with a frame reader |
| ReplayStream.SubMasterReceivesNothing | selfdrive/ui/replay/replay.cc:284-295 | as written, no event ever reaches a SubMaster |
| ReplayStream.SubMasterReceivesWanted | selfdrive/ui/replay/replay.cc:284-295 | with the corrected socket set a SubMaster receives exactly the events of wanted services |
| ReplayStream.UsBehindRounds | selfdrive/ui/replay/replay.cc:240 | the lag is the log-minus-wall difference rounded to the nearest microsecond, halves up, and is positive exactly from half a microsecond on |
| ReplayStream.Pace | selfdrive/ui/replay/replay.cc:239-250 | a pacing step never sleeps a negative time or more than one second |
| ReplayStream.PaceMeaning | selfdrive/ui/replay/replay.cc:239-250 | the replay sleeps for its lag when ahead of the log by at most a second, not at all when behind, and past a second it skips the sleep and re-anchors both clocks at the current event, after which its lag is zero |
| ReplayStream.SleepMatchesLag | selfdrive/ui/replay/replay.cc:239-250 | a sleep covers the lag to within half a microsecond |
| ReplayStream.WithSegment | selfdrive/ui/replay/replay.cc:72-86 | adding a segment that already has a log reader changes nothing; otherwise the segment gets a log reader and a frame reader for its two paths, and every other segment keeps exactly the readers it had |
| ReplayStream.WithoutSegment | selfdrive/ui/replay/replay.cc:88-96 | trimming removes both readers of that segment and keeps every other reader unchanged |
| ReplayStream.AddSegmentIdempotent | selfdrive/ui/replay/replay.cc:74-76 | adding a segment twice is the same as adding it once |
| ReplayStream.TrimUndoesAdd | selfdrive/ui/replay/replay.cc:72-96 | trimming a segment just added restores the readers held before |
| ReplayStream.Trimmed | selfdrive/ui/replay/replay.cc:98-107 | trimming never adds events |
| ReplayStream.TrimmedMeaning | selfdrive/ui/replay/replay.cc:98-107 | trimming keeps exactly the events within the padding window of the current time |
| ReplayStream.TrimmedSorted | selfdrive/ui/replay/replay.cc:98-107 | trimming keeps the events in time order |
| ReplayStream.LowerBound | selfdrive/ui/replay/replay.cc:190 | the lookup returns the first event not earlier than the time asked for |
| ReplayStream.StartFindsAnchor | selfdrive/ui/replay/replay.cc:185-193 | the stream's first lookup lands on the anchor event itself, so the wait for a later event never spins |
| ReplayStream.Replay.constructor | selfdrive/ui/replay/replay.cc:24-57 | the allow and block lists are read from comma-separated text, the socket set is the corrected one, no segment is loaded and the current segment starts just before the window |
| ReplayStream.Replay.AddSegment | selfdrive/ui/replay/replay.cc:72-86 | the readers become those of adding segment i with its log and camera paths |
| ReplayStream.Replay.TrimSegment | selfdrive/ui/replay/replay.cc:88-108 | the readers of the segment are dropped and exactly the events inside the window stay, in order |
| ReplayStream.Replay.SeekTime | selfdrive/ui/replay/replay.cc:130-134 | the current segment is the minute holding the seek time, and that segment is added |
| ReplayStream.Replay.ParseResponse | selfdrive/ui/replay/replay.cc:59-70 | the route's file lists are stored and the replay seeks to its first segment |
| ReplayStream.Replay.StartStream | selfdrive/ui/replay/replay.cc:185-193 | the log clock is anchored at the second event and the wall clock at the current reading, and streaming starts at an event at the anchor time |
| ReplayStream.Replay.StreamEvent | selfdrive/ui/replay/replay.cc:217-296 | an initData event records the route start; every event advances the current log time; events with an entry are paced as the pacing step says and dispatched by the dispatch rules; other events change no clock |
| CabanaBinaryView.GetBitIndex | tools/cabana/binaryview.cc:16-19 | a bit cell of row r stands for one of the eight bits r*8 .. r*8+7 |
| CabanaBinaryView.GetBitIndexCell | tools/cabana/binaryview.cc:16-19 | the bit lies in the cell's own byte; its position is the column for big-endian signals and 7 minus the column for little-endian ones, so the two numberings mirror each other |
| CabanaBinaryView.CellOfMeaning | tools/cabana/binaryview.cc:177-178 | grid bit b lands in row b/8 and column b%8 of the nine-column grid; a negative bit index gives a negative cell |
| CabanaBinaryView.Placed | tools/cabana/binaryview.cc:175-182 | the laying of a signal stops at its first bit whose cell is outside the grid: every bit before it fits, that bit does not |
| CabanaBinaryView.PlacedCells | tools/cabana/binaryview.cc:175-182 | the cells a signal is laid on are exactly the cells of its bits up to the first one outside the grid |
| CabanaBinaryView.PlacedCellsAreBitCells | tools/cabana/binaryview.cc:177-178 | a signal is never laid on the hex column, and its cell has the row and column of its bit |
| CabanaBinaryView.SigsAtMembers | tools/cabana/binaryview.cc:173-192 | a signal is listed on a cell exactly when one of its laid bits falls there |
| CabanaBinaryView.SigsAtOrdered | tools/cabana/binaryview.cc:173-192 | the signals of a cell are listed in message order and all refer to signals of the message |
| CabanaBinaryView.AnyFlagMeaning | tools/cabana/binaryview.cc:183-188 | a cell carries the LSB or MSB flag exactly when some signal puts that flag there |
| CabanaBinaryView.SignalEndsFlagged | tools/cabana/binaryview.cc:183-188 | a signal's first laid bit carries the LSB flag (little-endian) or MSB flag (big-endian), and its last bit, when reached, the other one |
| CabanaBinaryView.CellTextAsDetail | tools/cabana/binaryview.cc:223-230 | the grid shows each byte's bits, most significant first, and its hex digits exactly as the detail pane's table does |
| CabanaBinaryView.BinaryViewModel.constructor | tools/cabana/binaryview.cc:162-199 | a new model has no rows, no cells and no DBC message |
| CabanaBinaryView.BinaryViewModel.SetMessage | tools/cabana/binaryview.cc:162-199 | the grid gets the DBC message's byte size in rows (or the last data length without one) and every cell holds, in order, the signals whose bits fall on it, the colour of the last one and the LSB/MSB flags |
| CabanaBinaryView.BinaryViewModel.LaySignal | tools/cabana/binaryview.cc:173-192 | laying one more signal turns the grid for the earlier signals into the grid for all of them |
| CabanaBinaryView.LayBits | tools/cabana/binaryview.cc:173-192 | the same loop over the cells as values: after it every cell is as the layout of the signals so far plus this one makes it |
| CabanaBinaryView.LayLoop | tools/cabana/binaryview.cc:173-192 | the loop lays the signal's bits in range order, marking one cell per bit, and stops at the first bit outside the grid |
| CabanaBinaryView.LaidEnd | tools/cabana/binaryview.cc:173-192 | after the scan of one more signal stops, each cell is as the layout of all the signals so far has it: laying bits one at a time agrees with the per-cell description |
| CabanaBinaryView.BinaryViewModel.UpdateState | tools/cabana/binaryview.cc:209-238 | without a DBC message a new data length resets the grid; every row both data and grid have shows its byte; the reported cells are exactly the new or changed ones, in increasing order |
| CabanaBinaryView.BinaryViewModel.RenderRow | tools/cabana/binaryview.cc:223-230 | the cells of one row show the byte's bits and hex digits, and no other cell changes |
| CabanaBinaryView.ChangedCells | tools/cabana/binaryview.cc:232-237 | the reported cells are exactly those new to the grid or whose text differs, in increasing order |
| CabanaBinaryView.GetOverlappingSignals | tools/cabana/binaryview.cc:146-158 | a signal is reported exactly when it is laid on some bit cell together with another entry |
| CabanaBinaryView.SetSelection | tools/cabana/binaryview.cc:44-62 | there is a selection exactly when both corners of the rectangle are inside the grid |
| CabanaBinaryView.SetSelectionSelects | tools/cabana/binaryview.cc:44-62 | with both corners in the grid, the selection is stretched to the anchor: when the top-left corner comes before the anchor the bits from it to the anchor are selected, otherwise when the anchor comes before the bottom-right corner the bits from the anchor to that corner, and otherwise the bits between the corners; a press outside the grid acts as anchor row and column -1 |
| CabanaBinaryView.Rows | tools/cabana/binaryview.cc:50-60 | the selection has one range per row from the top corner's row to the bottom one, in order |
| CabanaBinaryView.RowsSelectBitsBetween | tools/cabana/binaryview.cc:44-62 | the selectable cells selected are exactly the bit cells between the two corners in reading order |
| CabanaBinaryView.ResizingSignal | tools/cabana/binaryview.cc:127-144 | a signal is grabbed for resizing only when the press was on a cell that lists it and its range starts or ends at the pressed bit |
| CabanaBinaryView.AnchorCell | tools/cabana/binaryview.cc:129 | the anchor stands for a cell only when it lies inside the grid |
| CabanaBinaryView.FirstEndingAt | tools/cabana/binaryview.cc:130-141 | the first signal of the cell, in the cell's order, whose range starts or ends at the bit (no earlier one does), and none exactly when no signal of the cell does |
| CabanaBinaryView.ReleaseAction | tools/cabana/binaryview.cc:85-114 | a release resizes exactly when a signal was grabbed, to at least one bit; otherwise it adds a signal from the first to the last selected cell |
| CabanaBinaryView.ResizeKeepsOtherEnd | tools/cabana/binaryview.cc:89-105 | a resize moves only the dragged end: grabbed at its start the signal keeps its end, grabbed elsewhere it keeps its start and ends at the released bit |
| CabanaBinaryView.AddSignalSpansSelection | tools/cabana/binaryview.cc:106-110 | a selection of consecutive bits becomes a signal of exactly that many bits |
| CabanaBinaryView.BinaryView.constructor | tools/cabana/binaryview.cc:21-34 | a new view has no anchor |
| CabanaBinaryView.BinaryView.MousePress | tools/cabana/binaryview.cc:64-72 | the pressed cell becomes the anchor |
| CabanaBinaryView.BinaryView.MouseRelease | tools/cabana/binaryview.cc:85-114 | a release acts exactly when something is selected, resizes only when a cell was pressed, and always clears the anchor; with no pressed cell it adds a signal from the first to the last selected bit |
| CabanaDetail.GetColorInPalette | tools/cabana/detailwidget.cc:15-18 | a signal's colour is one of the six palette colours, the i-th for the first six |
| CabanaDetail.GetColorCycles | tools/cabana/detailwidget.cc:15-18 | the colours repeat every six signals |
| CabanaDetail.GetColorDistinct | tools/cabana/detailwidget.cc:15-18 | any six consecutive signals get six different colours |
| CabanaDetail.LowBitsAt | tools/cabana/detailwidget.cc:178 | character j of a k-bit rendering is bit k-1-j of the value |
| CabanaDetail.LowBitsValue | tools/cabana/detailwidget.cc:178 | a value below 2^k reads back from its k-bit rendering |
| CabanaDetail.BitStringMeaning | tools/cabana/detailwidget.cc:178 | std::bitset<8>::to_string shows bit 7 first, and the string reads back as the byte |
| CabanaDetail.Hex2Value | tools/cabana/detailwidget.cc:187 | the two %02X digits are hex digits whose value is the byte |
| CabanaDetail.BitCellInverse | tools/cabana/detailwidget.cc:165 | bit j goes to row j / 8, column j % 8, and that cell maps back to bit j |
| CabanaDetail.CellBitInverse | tools/cabana/detailwidget.cc:165 | every bit cell is the cell of exactly one bit |
| CabanaDetail.BitCellInGrid | tools/cabana/detailwidget.cc:165 | a bit below rows × 8 has its cell inside the table |
| CabanaDetail.LastCoverMeaning | tools/cabana/detailwidget.cc:160-167 | a bit cell takes the colour of the last signal covering its bit and of no later one; with no covering signal it has none |
| CabanaDetail.RenderedCells | tools/cabana/detailwidget.cc:174-191 | bit cell (i, j) shows '1' exactly when bit 7-j of byte i is set, and cell (i, 8) shows the byte's two hex digits |
| CabanaDetail.BinaryGrid.constructor | tools/cabana/detailwidget.cc:126-136 | the grid starts empty with nine columns per row |
| CabanaDetail.BinaryGrid.SetMessage | tools/cabana/detailwidget.cc:138-172 | there are as many rows as the DBC message has bytes, or as the last data when there is no DBC message; each bit cell has the colour of the last signal covering it; the data is shown |
| CabanaDetail.BinaryGrid.ColorSignals | tools/cabana/detailwidget.cc:160-167 | after colouring all signals in turn every cell has its final background and keeps its text |
| CabanaDetail.BinaryGrid.ColorSignal | tools/cabana/detailwidget.cc:161-166 | colouring one more signal gives its colour to its bits inside the table and leaves every other cell as it was |
| CabanaDetail.BinaryGrid.UpdateState | tools/cabana/detailwidget.cc:174-191 | rows the table has and the data fills show the bits and the hex digits of their byte; every other cell keeps its text, and no background changes |
| CabanaDetail.WrittenRowsAsWritten | tools/cabana/detailwidget.cc:183-189 | as written, one row per data byte is written, whether or not the table has it |
| CabanaDetail.ColoredBitsAsWritten | tools/cabana/detailwidget.cc:164-166 | as written, every bit from the signal's start to start + size - 1 is coloured, whether or not the table has its row |
| CabanaDetail.DataLongerThanTable | tools/cabana/detailwidget.cc:183-189 | data longer than the DBC size makes updateState write a row the table lacks |
| CabanaDetail.SignalPastTable | tools/cabana/detailwidget.cc:164-166 | a signal running past the last byte makes setMessage colour a cell in a row the table lacks |
| CabanaDetail.CoveredBitsInTable | tools/cabana/detailwidget.cc:161-166 | every bit the corrected colouring covers lies in a row the table has and is among the bits the source colours |
| CabanaDetail.Accept | tools/cabana/detailwidget.cc:234-249 | the last accepted count never goes below the previous count |
| CabanaDetail.AcceptIncreasing | tools/cabana/detailwidget.cc:234-249 | only messages whose count exceeds the running maximum are taken, in order, with strictly increasing counts, and the new previous count is the last one taken |
| CabanaDetail.AcceptRunningMax | tools/cabana/detailwidget.cc:234-249 | the previous count ends as the running maximum, and a message is taken exactly when its count exceeds the maximum before it |
| CabanaDetail.NewRows | tools/cabana/detailwidget.cc:238 | each new message is inserted at row 0, so the newest taken comes first |
| CabanaDetail.Truncate | tools/cabana/detailwidget.cc:251-252 | a log longer than its size keeps exactly its first `size` rows, cutting from the end; a shorter one is kept whole |
| CabanaDetail.HistoryLog.constructor | tools/cabana/detailwidget.cc:195-209 | the log starts empty with previous count 0 |
| CabanaDetail.HistoryLog.UpdateState | tools/cabana/detailwidget.cc:230-253 | the new messages go on top, newest first, the log is cut to its size, and the previous count becomes the running maximum |
| CabanaDetail.AcceptAll | tools/cabana/detailwidget.cc:234-249 | the loop puts each frame whose count exceeds the last one kept on top of the existing rows, newest first, and returns the last count kept |
| CabanaDetail.AcceptStep | tools/cabana/detailwidget.cc:234-249 | one frame of that loop: it is kept, and becomes the new top row, exactly when its count exceeds the count kept so far |
| CabanaDetail.HistoryLog.Clear | tools/cabana/detailwidget.cc:255-258 | the previous count returns to 0 and every row's cells are emptied, while the row count and each row's header timestamp stay |
| CabanaDetail.HistoryLog.SetMessage | tools/cabana/detailwidget.cc:211-228 | the columns are the signal names, or "data" without signals; the log is cleared (old rows keep their timestamps) and refilled from count 0 on top of them |
| CabanaDetail.SignalNames | tools/cabana/detailwidget.cc:216-221 | one column per signal, with its name, in signal order |
| CabanaDetail.Save | tools/cabana/detailwidget.cc:287-294 | the edit is saved exactly when the size is positive and the name is neither empty nor "untitled", and then with that name and size |
| CabanaDetail.UnnamedNotSaved | tools/cabana/detailwidget.cc:271-289 | a message without a DBC entry cannot be saved under the name the dialog proposes |
| CabanaMessages.HexOfIsHexdump | tools/cabana/messageswidget.cc:260 | the DATA filter searches the bytes' hex dump: two digits per byte, in order |
| CabanaMessages.SignalNameMatch | tools/cabana/messageswidget.cc:237-244 | the scan finds a match exactly when some signal name contains the filter text, ignoring case |
| CabanaMessages.Contains | tools/cabana/messageswidget.cc:219-265 | an entry is kept exactly when it passes the filter of every filtered column: name or a signal name containing the text, source or hex address parsing to the id's, hex data containing the text |
| CabanaMessages.FilteredMeaning | tools/cabana/messageswidget.cc:267-272 | the filtered list holds exactly the received messages that pass the filters |
| CabanaMessages.FilteredDistinct | tools/cabana/messageswidget.cc:267-272 | filtering keeps every message id at most once |
| CabanaMessages.KeyLessIrreflexive | tools/cabana/messageswidget.cc:183-216 | no sort key is less than itself |
| CabanaMessages.KeyLessTransitive | tools/cabana/messageswidget.cc:183-216 | the key order is transitive |
| CabanaMessages.KeyLessTotal | tools/cabana/messageswidget.cc:183-216 | two different keys of one column are always ordered one way or the other |
| CabanaMessages.BeforeIrreflexive | tools/cabana/messageswidget.cc:186-190 | the comparator handed to std::sort never puts a message before itself, in either direction |
| CabanaMessages.BeforeTransitive | tools/cabana/messageswidget.cc:186-190 | the comparator is transitive in both directions |
| CabanaMessages.BeforeTotal | tools/cabana/messageswidget.cc:186-190 | messages with different ids are always ordered, because ties on the key fall back to the id |
| CabanaMessages.BeforeAsymmetric | tools/cabana/messageswidget.cc:186-190 | the comparator never orders two messages both ways, so it is a strict order std::sort accepts |
| CabanaMessages.Insert | tools/cabana/messageswidget.cc:183-216 | inserting a message adds exactly that message to the list |
| CabanaMessages.InsertOrdered | tools/cabana/messageswidget.cc:183-216 | inserting a new id into a sorted list keeps it sorted |
| CabanaMessages.SortEntries | tools/cabana/messageswidget.cc:183-216 | sorting permutes the list |
| CabanaMessages.SortEntriesOrdered | tools/cabana/messageswidget.cc:183-216 | sorting messages with distinct ids yields them in the comparator's order |
| CabanaMessages.OrderedUnique | tools/cabana/messageswidget.cc:183-216 | two sorted lists of the same messages are equal, so the sorted order does not depend on the sort algorithm |
| CabanaMessages.Reverse | tools/cabana/messageswidget.cc:189 | the list read from the end |
| CabanaMessages.DescendingIsReverse | tools/cabana/messageswidget.cc:189 | the descending order is exactly the ascending order reversed |
| CabanaMessages.ListingMeaning | tools/cabana/messageswidget.cc:218-280 | the list shows exactly the messages passing the filters, each once, sorted by a sortable column and in hash order otherwise |
| CabanaMessages.SortedIsSortEntries | tools/cabana/messageswidget.cc:183-216 | any sorted permutation of the messages is the model's sorted list |
| CabanaMessages.FilterMessages | tools/cabana/messageswidget.cc:267-272 | the loop keeps exactly the filtered list, in hash order |
| CabanaMessages.NoFilterListsAll | tools/cabana/messageswidget.cc:228-229 | with no filter text every received message is listed |
| CabanaMessages.MessageListModel.constructor | tools/cabana/messageswidget.cc:7-20 | a new list has no filters, no messages, nothing suppressed, and sorts by name ascending |
| CabanaMessages.MessageListModel.SortMessages | tools/cabana/messageswidget.cc:183-216 | the result is a permutation of the input, sorted when the column is sortable and untouched for the DATA column |
| CabanaMessages.InsertAll | tools/cabana/messageswidget.cc:183-216 | the sorting loop builds exactly the insertion-sorted list of the entries |
| CabanaMessages.MessageListModel.FetchData | tools/cabana/messageswidget.cc:218-280 | the list becomes the ids of the filtered, sorted messages, and a reset is reported exactly when the list changed |
| CabanaMessages.MessageListModel.SetFilterStrings | tools/cabana/messageswidget.cc:178-181 | the filters are stored and the list is rebuilt with them |
| CabanaMessages.MessageListModel.Sort | tools/cabana/messageswidget.cc:302-308 | sorting by the last column changes nothing; any other column becomes the sort column and order and the list is rebuilt |
| CabanaMessages.MessageListModel.SuppressMessage | tools/cabana/messageswidget.cc:313-321 | the bytes of one message that changed less than two seconds ago join the suppressed set, and nothing else does |
| CabanaMessages.MessageListModel.Suppress | tools/cabana/messageswidget.cc:310-322 | the suppressed set grows by exactly the recently changed bytes of the listed messages |
| CabanaMessages.MessageListModel.ClearSuppress | tools/cabana/messageswidget.cc:324-326 | nothing is suppressed afterwards |
| CabanaMessages.MessageListModel.Reset | tools/cabana/messageswidget.cc:328-334 | no filters, no messages and nothing suppressed afterwards |
| CabanaMessages.UpdateFilters | tools/cabana/messageswidget.cc:431-443 | the filter map holds, for exactly the columns with a non-empty editor, that editor's text |
| CabanaMessages.PairLessTransitive | tools/cabana/messageswidget.cc:187-189 | the (key, id) pair order is transitive |
| WifiManager.GetSecurityType | selfdrive/ui/qt/offroad/wifiManager.cc:164-181 | open exactly when no flag is set or WPS is offered without a WPA-capable flag; WPA exactly when privacy is set with a WPA-capable, non-802.1X key management |
| WifiManager.EnterpriseNotWpa | selfdrive/ui/qt/offroad/wifiManager.cc:164-181 | an 802.1X (enterprise) access point is never classified as WPA |
| WifiManager.TetheringSsid | selfdrive/ui/qt/offroad/wifiManager.cc:97-102 | the hotspot name starts with "weedle"; with a dongle id of four or more characters it is "weedle-" and the id's first four characters, otherwise exactly "weedle" |
| WifiManager.FirstWirelessAddress | selfdrive/ui/qt/offroad/wifiManager.cc:134-161 | the answer is the first address of the first wireless connection, in the listed order, that holds one; with no such connection it is empty |
| WifiManager.CompareByStrengthNotIrreflexive | selfdrive/ui/qt/offroad/wifiManager.cc:60-66 | the comparison as written says a connected or connecting network comes before itself, so it is not a strict weak order |
| WifiManager.StrengthBefore | selfdrive/ui/qt/offroad/wifiManager.cc:60-66 | the intended order: lower connection rank first (connected, connecting, disconnected), and among disconnected networks the stronger first |
| WifiManager.StrengthBeforeOrder | selfdrive/ui/qt/offroad/wifiManager.cc:60-66 | the intended order is irreflexive, transitive and has transitive incomparability, as std::sort requires |
| WifiManager.InsertByStrength | selfdrive/ui/qt/offroad/wifiManager.cc:118 | insertion adds exactly the one network, as a multiset |
| WifiManager.InsertByStrengthSorted | selfdrive/ui/qt/offroad/wifiManager.cc:118 | inserting into a list in display order keeps it in display order |
| WifiManager.SortByStrength | selfdrive/ui/qt/offroad/wifiManager.cc:118 | the sorted list is a permutation of the input |
| WifiManager.SortByStrengthSorted | selfdrive/ui/qt/offroad/wifiManager.cc:118 | the sorted list is in display order |
| WifiManager.UniqueSnoc | selfdrive/ui/qt/offroad/wifiManager.cc:372-387 | appending a network with a new, non-empty SSID keeps SSIDs unique |
| WifiManager.UniqueCons | selfdrive/ui/qt/offroad/wifiManager.cc:372-387 | the same holds when the network goes at the front |
| WifiManager.UniqueTail | selfdrive/ui/qt/offroad/wifiManager.cc:372-387 | the tail of a list with unique SSIDs has unique SSIDs and lacks the head's SSID |
| WifiManager.InsertKeepsUnique | selfdrive/ui/qt/offroad/wifiManager.cc:118 | inserting a network with a new SSID in display order keeps SSIDs unique |
| WifiManager.SortKeepsUnique | selfdrive/ui/qt/offroad/wifiManager.cc:118-127 | sorting keeps SSIDs unique |
| WifiManager.WithoutPathMembers | selfdrive/ui/qt/offroad/wifiManager.cc:389-393 | after removal a network is present exactly when it was present and is at another path |
| WifiManager.WithoutPathAppend | selfdrive/ui/qt/offroad/wifiManager.cc:389-393 | removal distributes over concatenation, so the remaining networks keep their order |
| WifiManager.WithoutPathUnique | selfdrive/ui/qt/offroad/wifiManager.cc:389-393 | removal keeps SSIDs unique |
| WifiManager.GetConnectedType | selfdrive/ui/qt/offroad/wifiManager.cc:183-193 | disconnected exactly when the access point is not the active one; at the active one, connecting exactly when its SSID is the network being joined, else connected |
| WifiManager.RefreshedAll | selfdrive/ui/qt/offroad/wifiManager.cc:121-126 | each network in the list is refreshed with its own new strength, at the same position |
| WifiManager.RefreshedUnique | selfdrive/ui/qt/offroad/wifiManager.cc:121-126 | refreshing keeps SSIDs unique |
| WifiManager.WifiManager.constructor | selfdrive/ui/qt/offroad/wifiManager.cc:68-108 | the manager starts with no seen networks, the reported active access point, the known connections and adapter state, nothing being joined, and the tethering SSID |
| WifiManager.WifiManager.GetConnectionPath | selfdrive/ui/qt/offroad/wifiManager.cc:410-417 | when some known connection has the SSID, the answer is the first such path in path order; otherwise the empty path |
| WifiManager.WifiManager.IsKnownConnection | selfdrive/ui/qt/offroad/wifiManager.cc:271-273 | true exactly when a connection with the SSID is known at a non-empty path |
| WifiManager.WifiManager.ForgetConnection | selfdrive/ui/qt/offroad/wifiManager.cc:275-281 | a connection is deleted exactly when the SSID is known, and the deleted path holds that SSID |
| WifiManager.WifiManager.ActivateWifiConnection | selfdrive/ui/qt/offroad/wifiManager.cc:436-446 | a known SSID becomes the network being joined and the path activated is the one `getConnectionPath` gives: a connection of that SSID, the first in path order; an unknown SSID changes nothing |
| WifiManager.ConnectionFor | selfdrive/ui/qt/offroad/wifiManager.cc:210-229 | a new connection is a wireless infrastructure connection to the SSID, named "openpilot connection " and the SSID, never retried automatically, with WPA-PSK, open authentication and the password as key exactly for a WPA network, automatic IPv4 and IPv6 ignored |
| WifiManager.ConnectionForSecret | selfdrive/ui/qt/offroad/wifiManager.cc:210-229 | the password reaches the settings only for a WPA network (there two passwords give different settings); the user name never does |
| WifiManager.WifiManager.Connect | selfdrive/ui/qt/offroad/wifiManager.cc:195-232 | the network becomes the one being joined, a known connection for its SSID (the first path `getConnectionPath` gives) is deleted first, and the settings sent to AddConnection are those of a new connection for the network's SSID, password and security type |
| WifiManager.WifiManager.StateChange | selfdrive/ui/qt/offroad/wifiManager.cc:354-362 | the new state is always stored; a wrong password while authenticating forgets the network being joined (deleting its first connection path, as `getConnectionPath` gives it) and reports it; the connected state ends the joining, so the active access point then shows as connected |
| WifiManager.WifiManager.PropertyChange | selfdrive/ui/qt/offroad/wifiManager.cc:365-370 | only an ActiveAccessPoint change on the wireless device interface changes the active access point |
| WifiManager.WifiManager.GetIpv4Address | selfdrive/ui/qt/offroad/wifiManager.cc:130-162 | empty unless the adapter is connected; then the first address of the first wireless connection that has one |
| WifiManager.WifiManager.AddAccessPoint | selfdrive/ui/qt/offroad/wifiManager.cc:372-387 | an empty or already seen SSID leaves the list alone; otherwise one network is appended; SSIDs stay unique |
| WifiManager.WifiManager.RemoveAccessPoint | selfdrive/ui/qt/offroad/wifiManager.cc:389-393 | every network at the path is removed, the others keep their order, SSIDs stay unique |
| WifiManager.WifiManager.InitNetworks | selfdrive/ui/qt/offroad/wifiManager.cc:110-119 | every access point is added in turn, then the list is a permutation of those networks in display order; SSIDs stay unique |
| WifiManager.WifiManager.RefreshAll | selfdrive/ui/qt/offroad/wifiManager.cc:122-126 | each network gets its new strength, connection state and known flag |
| WifiManager.WifiManager.UpdateNetworks | selfdrive/ui/qt/offroad/wifiManager.cc:121-128 | the list is refreshed and then is a permutation of the refreshed networks in display order; SSIDs stay unique |
| WifiManager.WifiManager.ConnectionRemoved | selfdrive/ui/qt/offroad/wifiManager.cc:395-397 | the path is no longer known; every other connection is kept unchanged |
| WifiManager.WifiManager.NewConnection | selfdrive/ui/qt/offroad/wifiManager.cc:399-402 | the connection is recorded under its path and its SSID becomes the network being joined |
| CameraCommon.RgbSize | selfdrive/camerad/cameras/camera_common.cc:67-74 | the RGB size is the frame size, except on a non-TICI device with a bayer sensor, where each side is half the frame's, rounded down |
| CameraCommon.RgbSizeHalvedIff | selfdrive/camerad/cameras/camera_common.cc:67-74 | the RGB width is smaller than the frame width exactly when a non-TICI device debayers |
| CameraCommon.CameraBuf.constructor | selfdrive/camerad/cameras/camera_common.cc:47-97 | the buffer starts with the given number of frame slots, an empty queue, nothing released, and the RGB size from the sizing rule |
| CameraCommon.CameraBuf.Queue | selfdrive/camerad/cameras/camera_common.cc:171-173 | the buffer index is appended to the queue and nothing else changes |
| CameraCommon.CameraBuf.Release | selfdrive/camerad/cameras/camera_common.cc:165-169 | the current buffer is handed to the release callback only when one is set |
| CameraCommon.CameraBuf.Acquire | selfdrive/camerad/cameras/camera_common.cc:108-163 | an empty queue gives false and changes nothing; otherwise the front index is popped and becomes current, a slot whose frame id is -1 is released and gives false, and any other slot's frame data becomes current and gives true |
| CameraCommon.OutIndex | selfdrive/camerad/cameras/camera_common.cc:211-215 | every output byte index of a pixel in the crop lies inside the new image |
| CameraCommon.OutIndexBefore | selfdrive/camerad/cameras/camera_common.cc:211-215 | the copy walks the output forwards: a pixel earlier in row order has all its bytes before a later pixel's |
| CameraCommon.CopyPixel | selfdrive/camerad/cameras/camera_common.cc:213 | the three bytes of one pixel are copied and no other output byte changes |
| CameraCommon.GetFrameImage | selfdrive/camerad/cameras/camera_common.cc:193-217 | the new size is the crop size divided by the scale with C's truncating division (so an end up to scale − 1 before the start gives an empty image, and the start may lie outside the frame); the image holds new_width × new_height × 3 bytes, each taken from the source pixel at the scaled offset |
| CameraCommon.CropOkSpans | selfdrive/camerad/cameras/camera_common.cc:202-205 | with a positive scale, the output size is non-negative exactly when each span from the start to the end (inclusive) is greater than minus the scale |
| CameraCommon.CopyCrop | selfdrive/camerad/cameras/camera_common.cc:208-215 | the two copy loops fill all new_width × new_height × 3 bytes, each with its source byte at the scaled offset from goff |
| CameraCommon.CopyRow | selfdrive/camerad/cameras/camera_common.cc:212-214 | the inner loop copies every pixel of row r and keeps the rows copied before it |
| CameraCommon.Steps | selfdrive/camerad/cameras/camera_common.cc:304-305 | every position the strided loop visits lies in [start, end) |
| CameraCommon.StepsAt | selfdrive/camerad/cameras/camera_common.cc:304-305 | the k-th position visited is start + k·skip, and one more step would reach end |
| CameraCommon.SamplesLength | selfdrive/camerad/cameras/camera_common.cc:304-310 | the scan samples one luminance per visited row and column |
| CameraCommon.Count | selfdrive/camerad/cameras/camera_common.cc:307 | a level occurs no more often than the samples are long |
| CameraCommon.Histogram | selfdrive/camerad/cameras/camera_common.cc:300 | the histogram has 256 bins |
| CameraCommon.HistogramTotal | selfdrive/camerad/cameras/camera_common.cc:300-310 | the bins add up to the number of samples, which is the total the scan counts |
| CameraCommon.BinLuminance | selfdrive/camerad/cameras/camera_common.cc:300-310 | the bins are the histogram of the sampled luminances in scan order, and the total is rows × columns visited |
| CameraCommon.UpperMedianUnique | selfdrive/camerad/cameras/camera_common.cc:313-321 | at most one level is the upper median, so the scan's answer is determined |
| CameraCommon.MedianLevel | selfdrive/camerad/cameras/camera_common.cc:313-321 | scanning down from 255 stops at the upper median: the cumulative count from there reaches half the total and from every higher level it does not |
| CameraCommon.SetExposureTarget | selfdrive/camerad/cameras/camera_common.cc:298-324 | the level (out of 256) is the upper median of the histogram of the sampled rectangle |
| CameraCommon.DefaultRect | selfdrive/camerad/cameras/camera_common.cc:368-376 | on TICI the fixed rectangle from column 96 to 1832 by 2 and row 242 to 1148 by 4; otherwise every second column and every row from the top third (rounded down) to the bottom row, over exactly the columns up to two fifths of the width (rounded down) for a right-hand-drive car, or from three fifths of the width (rounded down) to the right edge otherwise |
| CameraCommon.FaceRect | selfdrive/camerad/cameras/camera_common.cc:386-387 | the face rectangle spans 72 pixels around the face centre, clamped to the frame's first and last column and row |
| CameraCommon.FaceRectInFrame | selfdrive/camerad/cameras/camera_common.cc:386-387 | the face rectangle lies inside the frame, and contains a face centre inside the frame within a window at most 145 pixels wide and high |
| CameraCommon.FaceRectSamplesInFrame | selfdrive/camerad/cameras/camera_common.cc:386-391 | every pixel the exposure scan of the face rectangle reads lies in the frame buffer |
| Thneed.AlignUp256 | selfdrive/modeld/thneed/thneed.cc:108 | the rounded size is a multiple of 256, at least the size and less than 256 above it |
| Thneed.GPUMalloc.constructor | selfdrive/modeld/thneed/thneed.cc:91-102 | the allocator starts at the mapped address with the whole size remaining |
| Thneed.GPUMalloc.Alloc | selfdrive/modeld/thneed/thneed.cc:104-110 | a request larger than what remains fails and changes nothing; otherwise the old base is returned, the size is taken off what remains and the base moves past the block, rounded up to 256 |
| Thneed.BumpAll | selfdrive/modeld/thneed/thneed.cc:104-110 | a run of `alloc` calls, one after another, gives one answer per request (what the answers are is stated by the two lemmas below) |
| Thneed.BumpAllAppend | selfdrive/modeld/thneed/thneed.cc:104-110 | running two runs of requests one after the other is running their concatenation, so the command buffers and then the object buffers are allocated as one run |
| Thneed.BumpAllDisjoint | selfdrive/modeld/thneed/thneed.cc:104-110 | the allocator never overdraws: what remains stays non-negative, every block lies between the starting and the final base, keeps the starting base's alignment modulo 256, and ends at or before every later block |
| Thneed.AllocAll | selfdrive/modeld/thneed/thneed.cc:126-136 | the allocation loop hands out exactly the addresses of the run of requests for its sizes and leaves the allocator where that run ends |
| Thneed.Thneed.constructor | selfdrive/modeld/thneed/thneed.cc:159-166 | the recorder takes the saved device, a fresh 0x40000-byte GPU allocator, recording on and timestamp 0, with nothing recorded yet |
| Thneed.Thneed.Stop | selfdrive/modeld/thneed/thneed.cc:168-170 | recording is switched off; the device, allocator, timestamp, recorded commands, sync objects, inputs and output are unchanged |
| Thneed.Thneed.CacheCommand | selfdrive/modeld/thneed/thneed.cc:112-137 | the recorder's timestamp follows the command's; the copy keeps the command's context and timestamp, its two command buffers and then its object buffer get the blocks the recorder's allocator hands out for their sizes in that order, and the allocator ends where that run ends; nothing recorded changes |
| Thneed.Thneed.Execute | selfdrive/modeld/thneed/thneed.cc:172-193 | every recorded command is replayed in order with the next timestamps, which strictly increase and lie after the old timestamp, and whether each one waits depends on where the loop counter started; the device, inputs and output are left as they were |
| Thneed.WaitFlags | selfdrive/modeld/thneed/thneed.cc:189-192 | there is one wait flag per replayed command |
| Thneed.OnlyLastWaitsFromZero | selfdrive/modeld/thneed/thneed.cc:189-192 | with the counter started at 0, exactly the last command waits for completion |
| Thneed.UninitialisedCounterSkipsWait | selfdrive/modeld/thneed/thneed.cc:189-192 | with the counter left at 5, a single recorded command does not wait |
| Thneed.ExecuteFromZero | selfdrive/modeld/thneed/thneed.cc:172-193 | the intended replay: exactly the last command waits, and the timestamp advances by the number of commands |
| Thneed.DlsymRealPrefix | selfdrive/modeld/thneed/thneed.cc:305-316 | a name prefixed "REAL_" resolves to the library's symbol for the rest of the name |
| Thneed.DlsymEnqueueInterposer | selfdrive/modeld/thneed/thneed.cc:305-316 | `clEnqueueNDRangeKernel` resolves to the interposer, and its "REAL_" name to the library's own function |
| Thneed.DlsymSetKernelArgInterposer | selfdrive/modeld/thneed/thneed.cc:305-316 | `clSetKernelArg` resolves to the interposer, and its "REAL_" name to the library's own function |
| Thneed.DlsymPassThrough | selfdrive/modeld/thneed/thneed.cc:305-316 | any other name goes to the library unchanged |
| Thneed.Interposer.constructor | selfdrive/modeld/thneed/thneed.cc:8-10 | the globals start with no device, no kernel arguments and no recorder |
| Thneed.Interposer.NewThneed | selfdrive/modeld/thneed/thneed.cc:159-166 | a new recorder takes the saved device, starts recording at timestamp 0 and becomes the active recorder |
| Thneed.Interposer.Ioctl | selfdrive/modeld/thneed/thneed.cc:31-87 | an allocation request saves the device; while the active recorder keeps records, a GPU command is appended as its full cached copy, with the allocator advanced past its buffers and the recorder's timestamp taken from it, and a sync request's objects are appended; every other request, and every request while records are not kept, leaves the commands, sync objects, timestamp and allocator as they were |
| Thneed.Interposer.SetKernelArg | selfdrive/modeld/thneed/thneed.cc:215-222 | a non-null argument is remembered under its kernel and index; a null one changes nothing |
| Thneed.Interposer.EnqueueKernel | selfdrive/modeld/thneed/thneed.cc:224-270 | while recording, each "input" argument is appended to the inputs (except for the zero-padding kernel) and the last "output" argument becomes the output (except for the image-to-buffer kernel); arguments never set are read as empty and inserted |
| Thneed.RecordArgs | selfdrive/modeld/thneed/thneed.cc:253-269 | reading the kernel arguments records every unset one as empty, appends the "input" arguments in index order and keeps the last "output" argument, with the two named kernels excluded |
| Thneed.DefaultArgsKeeps | selfdrive/modeld/thneed/thneed.cc:256 | reading the arguments inserts an empty value only for those never set; every value that was set is kept |
| Thneed.NoInputNameNoInputs | selfdrive/modeld/thneed/thneed.cc:258-262 | a kernel without an argument named "input" records no inputs |
| Thneed.InputArgsCount | selfdrive/modeld/thneed/thneed.cc:258-262 | the number of inputs recorded is the number of arguments named "input", and zero for the zero-padding kernel |
| Util.ClampInRange | selfdrive/common/util.h:50-52 | with a1 < a2 the clamped input lies in [a1, a2] and an input already inside is kept |
| Util.MapValClamps | selfdrive/common/util.h:50-56 | inputs below a1 or above a2 map as a1 or a2 do |
| Util.MapValEndpoints | selfdrive/common/util.h:48-56 | `map_val` sends a1 to b1 and a2 to b2 |
| Util.MapValBetween | selfdrive/common/util.h:48-56 | for a1 < a2 every result lies between b1 and b2, in either orientation of the output range |
| Util.Hexdump | selfdrive/common/util.h:59-66 | the output has two zero-padded lower-case hex digits per byte, in input order |
| Util.ByteHexValue | selfdrive/common/util.h:61-63 | reading the two digits of a byte back gives its high and low nibble |
| Util.HexdumpTail | selfdrive/common/util.h:62-64 | dropping the first byte of the input drops the first two digits of the dump |
| Util.HexdumpRoundTrip | selfdrive/common/util.h:59-66 | decoding a hex dump's digit pairs gives back the input bytes |
| Util.HexdumpInjective | selfdrive/common/util.h:59-66 | two inputs with the same dump are equal |
| Util.ExitHandler.constructor | selfdrive/common/util.h:72-80 | a new handler has no exit request, no signal and no power failure |
| Util.ExitHandler.Assign | selfdrive/common/util.h:82-87 | assigning v sets the exit flag to v, so the handler then converts to v, and the signal to 0, leaving the power-failure flag |
| Util.ExitHandler.SetDoExit | selfdrive/common/util.h:82-95 | the handler records the signal, flags a power failure iff it is SIGPWR, and requests exit, so it then converts to true |
| Util.UniqueFd.constructor | selfdrive/common/util.h:100 | the wrapper holds the given descriptor |
| Util.UniqueFd.MoveAssign | selfdrive/common/util.h:101-109 | the target then converts to the source's old descriptor, and the source to -1, so destroying the source closes nothing; the pair of holders changes as `MoveFd` describes, so `MoveKeepsOwnersUnique` applies |
| Util.MoveKeepsOwnersUnique | selfdrive/common/util.h:101-108 | among several holders, a move never makes two of them close the same descriptor: the target holds the source's descriptor, the source none, the others are untouched, and no holder gains a descriptor nobody held |
| CompareLogs.ResetOkIff | selfdrive/test/process_replay/compare_logs.py:24-40 | resetting a field succeeds exactly when the dotted path reaches a bool, a number or a list; any other value raises |
| CompareLogs.ResetZeroes | selfdrive/test/process_replay/compare_logs.py:31-40 | after a reset the field reads False, 0 or [] according to its old type |
| CompareLogs.ResetKeepsOthers | selfdrive/test/process_replay/compare_logs.py:24-40 | a reset leaves every field on a path that diverges from the reset path unchanged |
| CompareLogs.FieldAfterReset | selfdrive/test/process_replay/compare_logs.py:40 | a top-level field other than the reset path's first key is unchanged |
| CompareLogs.RemoveIgnoredFields | selfdrive/test/process_replay/compare_logs.py:16-41 | the loop over the ignore list gives what the strip rule gives: keys for other message types are skipped, the others reset in turn, the first failure aborts |
| CompareLogs.StripSkipsOtherTypes | selfdrive/test/process_replay/compare_logs.py:21-22 | dotted keys whose first part names another message type leave the message as it was |
| CompareLogs.StripEach | selfdrive/test/process_replay/compare_logs.py:69-70 | the per-message list comprehension strips each message in list order, one result per message |
| CompareLogs.Keep | selfdrive/test/process_replay/compare_logs.py:51-54 | the filtered log holds exactly the messages whose type is not ignored |
| CompareLogs.KeepIdempotent | selfdrive/test/process_replay/compare_logs.py:51-54 | filtering ignored types twice is filtering once |
| CompareLogs.OfTypeMembers | selfdrive/test/process_replay/compare_logs.py:56-60 | a type's group holds exactly the log's messages of that type |
| CompareLogs.Order | selfdrive/test/process_replay/compare_logs.py:56-60 | the grouping's key order lists each type of the log once |
| CompareLogs.GroupsGrow | selfdrive/test/process_replay/compare_logs.py:57-58 | appending the next message to its type's group keeps every group equal to the log's messages of that type, in log order |
| CompareLogs.Group | selfdrive/test/process_replay/compare_logs.py:56-60 | the grouping loop yields the first-appearance type order and per-type message lists in log order |
| CompareLogs.Compare | selfdrive/test/process_replay/compare_logs.py:44-103 | `compare_logs` returns what the comparison function gives, with missing ignore lists read as empty, and raises when the two type sets differ |
| CompareLogs.DiffTypes | selfdrive/test/process_replay/compare_logs.py:65-76 | the loop over reference types extends the diff only for types whose counts differ |
| CompareLogs.EqualCountsNoDiff | selfdrive/test/process_replay/compare_logs.py:66-77 | when every type has equal counts in both logs the result is empty: the per-message comparison after `continue` is never reached |
| CompareLogs.IgnoredTypesIrrelevant | selfdrive/test/process_replay/compare_logs.py:51-54 | messages of ignored types appended to a log never change the comparison |
| CompareLogs.CountsSum | selfdrive/test/process_replay/compare_logs.py:132-137 | over distinct keys covering every difference's path the per-key counts add up to the number of differences |
| CompareLogs.CountKeysSum | selfdrive/test/process_replay/compare_logs.py:132-140 | the counted keys are strictly ascending and their counts add up to the diff's length |
| CompareLogs.TallyDiff | selfdrive/test/process_replay/compare_logs.py:132-137 | the loop emits one long line per difference, the difference printed as Python prints its tuple (strings repr-quoted and escaped as `Text.PyRepr` writes them), and counts each path once per difference |
| CompareLogs.CountReport | selfdrive/test/process_replay/compare_logs.py:139-140 | the count lines are emitted in ascending key order with each key's count |
| CompareLogs.CountAbsent | selfdrive/test/process_replay/compare_logs.py:136-137 | a path no difference has is counted zero times |
| CompareLogs.ProcReport | selfdrive/test/process_replay/compare_logs.py:115-141 | one process adds its short and long lines and fails exactly when its result is a string or a non-empty diff |
| CompareLogs.SegmentReport | selfdrive/test/process_replay/compare_logs.py:111-141 | a segment's lines are its two headers, then each process's lines in order; it fails iff one of its processes does |
| CompareLogs.FormatDiff | selfdrive/test/process_replay/compare_logs.py:106-142 | `format_diff` returns both reports and sets failed exactly when some process raised or differed |
| CompareLogs.AnyFailsSnoc | selfdrive/test/process_replay/compare_logs.py:111-141 | a run with one more segment fails iff the earlier ones did or one of the new segment's processes does |
| TestProcesses.RFindBelow | selfdrive/test/process_replay/test_processes.py:78 | the result is the last occurrence of the separator below the bound, or None when there is none |
| TestProcesses.SplitSegmentName | selfdrive/test/process_replay/test_processes.py:78 | the split succeeds iff the name contains "--"; route, "--" and number rebuild the name and no later "--" exists |
| TestProcesses.SplitJoinName | selfdrive/test/process_replay/test_processes.py:78 | a route joined to a dash-free number by "--" splits back into the same route and number |
| TestProcesses.NoDashesAfterRoute | selfdrive/test/process_replay/test_processes.py:78 | in route + "--" + number no "--" starts past the route |
| TestProcesses.SegmentOfLogPath | selfdrive/test/process_replay/test_processes.py:96 | the segment taken from a log path holds neither '/' nor '_' |
| TestProcesses.TestProcess | selfdrive/test/process_replay/test_processes.py:83-102 | a never-enabled controlsd run raises "Route never enabled: <segment>"; otherwise the result is the comparison with ignore lists defaulted to empty, and an exception's text when it raised |
| TestProcesses.SameLogPasses | selfdrive/test/process_replay/test_processes.py:99-100 | a replay identical to its reference yields an empty diff |
| TestProcesses.TestedCars | selfdrive/test/process_replay/test_processes.py:160-161 | the tested cars are exactly the (ASCII) upper-cased whitelisted cars that are not blacklisted |
| TestProcesses.DefaultsRunFullTest | selfdrive/test/process_replay/test_processes.py:140-163 | with the default arguments the run is a full test |
| TestProcesses.BlacklistRulesOutFullTest | selfdrive/test/process_replay/test_processes.py:159-163 | blacklisting any known process rules out a full test |
| TestProcesses.CheckUpload | selfdrive/test/process_replay/test_processes.py:164-168 | updating or uploading without a full test fails the assertion; otherwise the result says whether the run uploads |
| TestProcesses.Untested | selfdrive/test/process_replay/test_processes.py:184 | the untested interfaces are those not excluded and not the (ASCII) lower-case name of a tested car |
| TestProcesses.PutProc | selfdrive/test/process_replay/test_processes.py:218 | storing under an existing process overwrites it in place, a new one is appended, and no other entry changes |
| TestProcesses.PutHas | selfdrive/test/process_replay/test_processes.py:218 | storing one result adds only its own (segment, process) entry |
| TestProcesses.PutFails | selfdrive/test/process_replay/test_processes.py:218 | a new entry fails the run iff it or an earlier entry does |
| TestProcesses.RaisedOutcomeLost | selfdrive/test/process_replay/test_processes.py:216-218 | as written, a comparison that raised stores nothing, so the run it should fail passes |
| TestProcesses.StoredFrom | selfdrive/test/process_replay/test_processes.py:216-218 | every stored entry comes from an outcome of the same segment and process |
| TestProcesses.StoredFails | selfdrive/test/process_replay/test_processes.py:216-218 | with every result stored, the results fail the run iff some outcome raised or differed |
| TestProcesses.StoreResults | selfdrive/test/process_replay/test_processes.py:214-218 | the storing loop builds the stored results, texts of raised comparisons included |
| TestProcesses.ProcShortCounts | selfdrive/test/process_replay/test_processes.py:122-130 | a process with differences lists each path once in ascending order, with counts adding up to the diff length |
| TestProcesses.ProcReport | selfdrive/test/process_replay/test_processes.py:114-131 | one process adds its lines and fails exactly when its result is a string or a non-empty diff |
| TestProcesses.SegmentReport | selfdrive/test/process_replay/test_processes.py:110-131 | a segment's lines are its headers then each process's lines; it fails iff one of its processes does |
| TestProcesses.FormatDiff | selfdrive/test/process_replay/test_processes.py:105-132 | `format_diff` returns both reports and sets failed iff some stored process raised or differed |
| TestProcesses.StoreAndReport | selfdrive/test/process_replay/test_processes.py:214-220 | storing every worker's result and formatting fails the run iff some process raised or differed |
| SrReader.ParseStartEnd | tools/lib/srreader.py:6-16 | no start and no end gives segment 0 to the route's last segment, or an error without a route; a start alone is the end too; an end alone runs from segment 0; both given are taken as read; text that int() cannot read is an error |
| SrReader.ParseOptional | tools/lib/srreader.py:7 | an absent text gives the default; a present one parses exactly when int() accepts it, to that value |
| Text.PyIntRoundTrip | tools/lib/srreader.py:7 | a segment number printed by Python's `str` reads back through `int()` as itself |
| Text.PyIntIgnoresGroups | tools/lib/srreader.py:7 | `int()` reads a single underscore between two digit groups as nothing, as Python's digit grouping does |
| SrReader.Segments | tools/lib/srreader.py:24-36 | range(start, end+1) holds end - start + 1 segments, the k-th being start + k, and none when end < start |
| SrReader.SegmentsIncreasing | tools/lib/srreader.py:24-36 | the segments strictly increase and lie between start and end |
| SrReader.PyIndex | tools/lib/srreader.py:25 | Python indexing succeeds exactly for -len <= i < len; a non-negative index gives that element and a negative one counts from the end |
| SrReader.CommaApiSource | tools/lib/srreader.py:18-25 | unreadable bounds raise before any reader is yielded; otherwise the k-th reader yielded opens the route's log path of segment start + k, all segments are covered when nothing is raised, and the error comes at the first segment without a path |
| SrReader.ReadersFor | tools/lib/srreader.py:24-25 | the readers come in segment order, each opening its segment's path; the run stops with an error at the first segment without a path, and raises exactly when some segment has none |
| SrReader.ReadersForSegments | tools/lib/srreader.py:24-25 | the readers for start..end open the paths of start, start + 1, … in order |
| SrReader.InternalSource | tools/lib/srreader.py:27-31 | it succeeds exactly when the bounds parse without a route; then reader k opens the internal rlog path of segment start + k |
| SrReader.OpenpilotCiSource | tools/lib/srreader.py:33-37 | it succeeds exactly when the bounds parse without a route; then reader k opens the CI log of segment start + k |
| SrReader.ReadAllCount | tools/lib/srreader.py:44-47 | iterating yields as many messages as the logs hold together |
| SrReader.ReadAllAppend | tools/lib/srreader.py:44-47 | reading two runs of logs in turn yields the first run's messages, then the second's |
| SrReader.ReadAllBlock | tools/lib/srreader.py:44-47 | each log's messages appear together, in their own order, after those of the logs before it |
| HkgFuzzyFp.FindMarker | hkg_fuzzy_fp.py:20 | the index found holds the first F1 00 pair; no index means no F1 00 pair anywhere (where bytes.index raises) |
| HkgFuzzyFp.CodeRun | hkg_fuzzy_fp.py:14-23 | the run of upper-case letters and digits is as long as possible |
| HkgFuzzyFp.RemoveSeparators | hkg_fuzzy_fp.py:24 | the variant keeps exactly the bytes that are neither underscore nor space |
| HkgFuzzyFp.RemoveSeparatorsCounts | hkg_fuzzy_fp.py:24 | no separator is left and every other byte keeps its number of occurrences |
| HkgFuzzyFp.RemoveSeparatorsAppend | hkg_fuzzy_fp.py:24 | removal works piece by piece, so the kept bytes stay in their original order |
| HkgFuzzyFp.RemoveSeparatorsIsReplaces | hkg_fuzzy_fp.py:24 | the removal equals the two replace calls, underscores first, then spaces |
| HkgFuzzyFp.DeleteAppend | hkg_fuzzy_fp.py:24 | one replace call deletes its byte from each piece of a concatenation separately |
| HkgFuzzyFp.Window | hkg_fuzzy_fp.py:21 | the window is the bytes right after the marker, four of them or all that remain when fewer |
| HkgFuzzyFp.PlatformCodeShape | hkg_fuzzy_fp.py:17-26 | a parsed code is a maximal, non-empty run of upper-case letters and digits starting with a letter at the front of the window; the variant has no separators, and both fit in four bytes |
| HkgFuzzyFp.PlatformCodeIgnoresTail | hkg_fuzzy_fp.py:20-24 | bytes beyond the four after the first marker never change the result |
| HkgFuzzyFp.FindMarkerPrefix | hkg_fuzzy_fp.py:20 | appending bytes does not move a marker already found |
| HkgFuzzyFp.MissingMarkerFails | hkg_fuzzy_fp.py:20 | a version without an F1 00 marker cannot be parsed |
| HkgFuzzyFp.GetPlatformCodes | hkg_fuzzy_fp.py:17-28 | a car without front-radar versions is an error; otherwise the result succeeds exactly when every version parses, and is then the set of their platform codes |
| QlogSize.Decimate | selfdrive/debug/internal/qlog_size.py:58-77 | decimation succeeds exactly when every message's type is always kept or is a listed service without a zero factor, and then keeps exactly the messages the per-type counters select, in order |
| QlogSize.AlwaysKeptSurvive | selfdrive/debug/internal/qlog_size.py:63-65 | initData and sentinel messages always survive |
| QlogSize.FirstOfTypeSurvives | selfdrive/debug/internal/qlog_size.py:74-76 | the first message of a decimated type always survives |
| QlogSize.UndecimatedDropped | selfdrive/debug/internal/qlog_size.py:67-69 | no message of a service without a decimation factor survives |
| QlogSize.KeptMembers | selfdrive/debug/internal/qlog_size.py:61-76 | a message the counter rule selects is in the result |
| QlogSize.KeptSubsequence | selfdrive/debug/internal/qlog_size.py:58-77 | the result is a subsequence of the log: order is kept and nothing is added |
| QlogSize.KeptTypes | selfdrive/debug/internal/qlog_size.py:61-76 | every surviving message comes from the log and has a type that is always kept or decimated |
| QlogSize.SubsequenceSnoc | selfdrive/debug/internal/qlog_size.py:58-77 | appending one message to the log, and keeping it or not, extends the subsequence |
| QlogSize.InsertBySize | selfdrive/debug/internal/qlog_size.py:30 | insertion adds exactly the one entry, as a multiset |
| QlogSize.InsertBySizeSorted | selfdrive/debug/internal/qlog_size.py:30 | inserting into a list sorted by size keeps it sorted |
| QlogSize.SortBySize | selfdrive/debug/internal/qlog_size.py:30 | the sizes come out in ascending order of size and are a permutation of the input |
| QlogSize.InsertBySizeStable | selfdrive/debug/internal/qlog_size.py:30 | an inserted entry goes after every entry of its size already in the sorted list |
| QlogSize.SortBySizeStable | selfdrive/debug/internal/qlog_size.py:30 | `sorted` is stable: the entries of each size come out in their input order |
| QlogSize.LargeEntries | selfdrive/debug/internal/qlog_size.py:40 | an entry is shown on its own exactly when it is in the list and is at least 0.5 percent of the total |
| QlogSize.PieSlices | selfdrive/debug/internal/qlog_size.py:40-41 | the last slice is "other", holding the sum of the small entries |
| QlogSize.PieKeepsTotal | selfdrive/debug/internal/qlog_size.py:40-41 | the slices add up to the sum of all entries |
| QlogSize.LargeAndSmall | selfdrive/debug/internal/qlog_size.py:40-41 | the large entries and the "other" sum together give the sum of all entries |
| QlogSize.SumAppend | selfdrive/debug/internal/qlog_size.py:37 | the sum of two lists joined is the sum of their sums |
| QlogSize.LargeEntriesSorted | selfdrive/debug/internal/qlog_size.py:30-40 | the large entries keep the ascending order of the sorted sizes |
| ChryslerCarState.ParseGearShifter | selfdrive/car/chrysler/carstate.py:9-18 | the values 1 to 4 are exactly park, reverse, neutral and drive, and every other value is unknown |
| ChryslerCarState.Decode | selfdrive/car/chrysler/carstate.py:86-141 | each flag is set exactly when its signal has the triggering value; brake lights follow the brake, PCM cruise status follows the main switch, gas and driver torque read 0; the generic toggle is set exactly when the high beam flashes; the CAN-valid flag, the two frame counters and the cruise set speed are copied; the decoded state never has both blinkers on |
| ChryslerCarState.CarState.constructor | selfdrive/car/chrysler/carstate.py:65-83 | a new decoder has both blinkers off |
| ChryslerCarState.CarState.Update | selfdrive/car/chrysler/carstate.py:86-141 | the previous blinkers become the prev fields, the state becomes the decoding of the signals, and no state has both blinkers on |
| Fingerprints.OtherBusAlwaysValid | fingerprints.py:103-105 | a message from a bus other than 0 is always valid |
| Fingerprints.UnknownAddressInvalid | fingerprints.py:103-105 | on bus 0 a message whose address the fingerprint lacks is invalid |
| Fingerprints.KnownAddressValidIffLength | fingerprints.py:103-105 | on bus 0 with a known address, a message is valid exactly when its length matches the recorded one |
| Fingerprints.ValidityIgnoresPayloadContents | fingerprints.py:103-105 | two messages with the same bus, address and length are equally valid, whatever their bytes |
| Fingerprints.ExtendingKeepsValid | fingerprints.py:96-105 | adding addresses to a fingerprint never makes a valid message invalid, and a message whose address was already known gets the same verdict |
| Fingerprints.ValidIffEntry | fingerprints.py:103-105 | on bus 0 a message is valid exactly when its address and length are an entry of the fingerprint |
| UpdateTranslations.Cut | selfdrive/ui/update_translations.py:27 | the kept text is the part before the first bar: a prefix of the text without a bar, the whole text when it has none, and followed by the bar otherwise |
| UpdateTranslations.CollectOnroadTexts | selfdrive/ui/update_translations.py:16-29 | a text is collected exactly when it is the non-empty part before the first bar of one of the two texts of some alert |
| UpdateTranslations.NoopLinesAppend | selfdrive/ui/update_translations.py:32-33 | the lines for two runs of texts are the lines of the first run, then of the second |
| UpdateTranslations.NoopLinesHasLine | selfdrive/ui/update_translations.py:32-40 | every text gets its QT_TRANSLATE_NOOP line in the block |
| UpdateTranslations.NoopBlock | selfdrive/ui/update_translations.py:31-40 | a block is its comment followed by one line per text, in order |
| UpdateTranslations.GenerateOnroad | selfdrive/ui/update_translations.py:16-34 | the onroad texts are listed once each in ascending order, exactly those collected from the alerts, each with its line |
| UpdateTranslations.GenerateOffroad | selfdrive/ui/update_translations.py:36-41 | the offroad block has one line per offroad alert text, in file order |
| UpdateTranslations.GenerateInclude | selfdrive/ui/update_translations.py:43-49 | the generated header is the banner, the offroad block, then the onroad block |
| UpdateTranslations.LupdateCommand | selfdrive/ui/update_translations.py:61-66 | each command is the fixed lupdate part for the language's .ts file, then -no-obsolete exactly when vanishing, then -pluralonly exactly when the file is plural-only, and nothing else |
| UpdateTranslations.Update | selfdrive/ui/update_translations.py:51-68 | the include header is generated first (that step is `GenerateInclude`); the commands run in the languages file's order with a missing plural-only list read as empty; all succeed exactly when every status is 0, and otherwise the run stops at the first non-zero status |
| Text.SplitJoin | selfdrive/ui/replay/replay.cc:25-28 | splitting a list at commas loses nothing: the pieces joined back with commas give the original text, and no piece contains a comma |
| Text.QtToInt | tools/cabana/messageswidget.cc:249-256 | the conversion succeeds exactly when the text is a signed integer that fits a 32-bit int, and then yields that integer, as Qt's does |
| Text.QtToIntRoundTrip | tools/cabana/messageswidget.cc:249-256 | a 32-bit integer written in decimal converts back to itself, and one outside that range is refused |
| Text.NatToStringValue | tools/cabana/messageswidget.cc:249-256 | a decimal rendering is all digits and reads back as the number |
| Text.PyRepr | selfdrive/test/process_replay/compare_logs.py:134 | a string in a printed tuple is wrapped in the quote repr picks: double quotes exactly when it holds a single quote and no double quote |
| Text.PyReprRoundTrip | selfdrive/test/process_replay/compare_logs.py:134 | the escaped text between the quotes reads back as the original string, so different strings print differently |
| Text.UnreprChar | selfdrive/test/process_replay/compare_logs.py:134 | each character's escape (backslash, quote, newline, tab, return, and as \\x digits the other Latin-1 characters that do not print: the C0 and C1 controls, delete, the no-break space and the soft hyphen) reads back as that character |
| Text.LexLessIrreflexive | tools/cabana/messageswidget.cc:187-189 | no message name sorts before itself |
| Text.LexLessTransitive | tools/cabana/messageswidget.cc:187-189 | the name order is transitive |
| Text.LexLessTotal | tools/cabana/messageswidget.cc:187-189 | two different names are always ordered one way or the other |
| Text.LexLessAsymmetric | tools/cabana/messageswidget.cc:187-189 | no two names are ordered both ways |

## Left out

- Threads, timers and sleeping: `Replay::start`, `segmentQueueThread`, `keyboardThread` and `getch`, and the endless stream loop. The stream is modelled as one step per event (`ReplayStream.Replay.StreamEvent`), and the sleep is returned rather than performed.
- ReplayStream.Replay.StreamEvent: the second clock read after a re-anchor is modelled as the same reading `now`; the logging of progress every five seconds is not modelled.
- ReplayStream.UsBehind: the double arithmetic `((etime - rtime) * 1e-3) + 0.5` is modelled exactly on integers, so floating-point rounding is not modelled.
- ReplayStream.Replay.TrimSegment: the window check is done in doubles in the source and on integer nanoseconds here; the current time is a parameter.
- ReplayStream.Replay.StartStream: an event map of fewer than two events is excluded by the requires. With no events the source waits in a loop until some arrive; with exactly one event it reads the key at `events.begin()+1`, past the end, which is undefined behaviour and is not modelled.
- ReplayStream.Replay.ParseResponse: the HTTP fetch and JSON parsing are not modelled; the requires asks for one camera and one log path, which `addSegment`'s assertion demands of the seek to 0.
- Frame publishing through VisionIpc, socket sends, capnp serialisation and `SubMaster::update_msgs` are reduced to the `Outcome` of a dispatch.
- binaryview.h, canmessages.h, messageswidget.h and replay.h are not part of this model: `column_count` is 9, the column order is NAME, SOURCE, ADDRESS, FREQ, COUNT, DATA (from `headerData`), and message ids order by source, then address.
- `bigEndianBitIndex` and `getSignalRange` are DBC code that is not part of this model: a signal carries its range and its grid bits as data, one grid bit per range bit (`CabanaBinaryView.Shaped`, which `BinaryViewModel.SetMessage` requires).
- Cabana painting, hover highlighting, tooltips, `leaveEvent`, header geometry and context menus are widget code and are left out; so are the `dataChanged` and `msgsReceived` signal emissions, except as the list of changed cells.
- CabanaMessages: `MessageListModel::data` (display text, frequency formatting, colour masking of suppressed bytes) is display code over floats and colours and is not modelled.
- CabanaMessages.MessageListModel.Suppress: the requires that every message keeps one change time per byte is kept by the CAN stream that fills `CanData`, which is not part of this model; times are `real`.
- WifiManager.WifiManager.InitNetworks, WifiManager.WifiManager.UpdateNetworks: `std::sort` is not stable, and the display order leaves two connected networks, or two disconnected networks of the same strength, unordered; the model fixes their order by its insertion sort, which is its own choice. What the source determines is stated too: the result is a permutation in display order.
- CabanaMessages.SortEntries: `std::sort` is modelled as an insertion sort; since the comparator is a strict total order on distinct ids, `OrderedUnique` shows any sort gives the same list.
- Frequencies (`freq`) are `real` and compared exactly; no floating-point rounding is modelled.
- WifiManager: DBus property reads, `requestScan`, `deactivateConnection`, and the tethering connection building are calls into NetworkManager; their results are parameters. `connect` returns the settings it would pass to AddConnection instead of calling it, and leaves out the random UUID it generates.
- WifiManager.WifiManager.constructor: the source throws when no wireless adapter is found; the model takes the adapter state as a parameter and does not model that exception.
- CameraCommon: OpenCL kernels in `acquire`, `yuv420_to_jpeg`, `publish_thumbnail`, VisionIpc and the camera threads are left out; `acquire` keeps only its queue and frame-id logic.
- CameraCommon.GetFrameImage: the requires that every pixel read lies inside the frame buffer is not checked by the source; a crop that reads outside it is undefined behaviour and is not modelled.
- CameraCommon.GetFrameImage: a `SCALE` of zero or below is not covered (the source divides by zero, or reads backwards with a negative step), nor a crop whose truncated width or height is negative (the source then allocates a buffer of the wrapped-around product, or returns an unfilled one when both are negative).
- CameraCommon.DefaultRect: the `static` rectangle that keeps the last face crop between frames, the EON-only and `faceProb > 0.4` gate that decides when a new face crop replaces it, and the TICI offsets that feed the face position are not modelled; `DefaultRect` and `FaceRect` give the two rectangles the source can hand to `set_exposure_target`.
- CameraCommon.SetExposureTarget: returns the integer level; the final division by 256.0 is floating point and left out. The face-position arithmetic that feeds the rectangle is float and its result is a parameter.
- Thneed: the ioctl interception keeps only the command and sync-object recording; mmap, `dlopen` offsets, the debug printing under `record & 2` and the copying of buffer contents are not modelled.
- Thneed.Interposer.Ioctl: the requires that a recorded GPU command has two command buffers, one object buffer and no sync objects is the assertion the source makes when it caches a command (thneed.cc:114-116); a command that fails it aborts the process there, which is not modelled.
- Thneed.Thneed.CacheCommand: when the allocator has no room, the model records `None` for that buffer and carries on; the source copies the buffer to the null address it got back, which is undefined behaviour and is not modelled.
- Thneed.Thneed.Execute: the requires that records are not being kept reflects that replaying while recording would have the interposed `ioctl` append to the command list being iterated; the source does not guard against it, and that case is not modelled.
- Util: `FirstOrderFilter` and `string_format` are floating point and `snprintf`, and are not modelled; no `close` is performed or recorded: `ClosesOnDestroy` only says whether destruction would close.
- Util.MapVal: only the integral instantiation of the `map_val` template is modelled, with C++ truncating division; the floating-point instantiations are left out.
- Text.ContainsIgnoringCase: case folding covers ASCII letters only, where Qt folds Unicode case.
- TestProcesses.TestedCars, TestProcesses.Untested: `Text.Upper` and `Text.Lower` map ASCII letters only, where Python's `str.upper` and `str.lower` map every cased character and may change a string's length (`'ß'.upper()` is `'SS'`, `'ı'.upper()` is `'I'`); a car name with a non-ASCII letter is therefore compared unmapped. Python's full case mapping needs the Unicode character database, which is not modelled.
- Integer widths: the sources' 32- and 64-bit counters (thneed timestamps, cabana counts, nanosecond clocks) are unbounded integers here; wrap-around is not modelled.
- CompareLogs.Compared: the error texts ("log service keys don't match", "Unknown type", "no such field") are abbreviations of Python's `str(e)`, which also prints both key sets, the offending type or the attribute; the key sets print in an order Python leaves unspecified, so the exact text is not modelled, and these abbreviations are what the short reports of `TestProcesses` carry.
- CompareLogs: DeepDiff and dictdiffer diff contents and `outside_tolerance` are supplied as inputs; writing the reports out is not modelled.
- CompareLogs.Show: the third element of a difference (dictdiffer's changed values) is carried as its already-printed repr text, because its Python value is not modelled; the kind and the path are repr-quoted by the model.
- TestProcesses: the process pool, uploading, argparse and file I/O are left out; the outcome of replaying each process is an input.
- QlogSize: bz2 compressed sizes are inputs, and matplotlib drawing is left out.
- ChryslerCarState: speeds, the Kalman filter, steering angles and torques are floating point and left out; only the gear and discrete flags are modelled.
- ChryslerCarState.CarState.constructor: the source's decoder has no decoded state before its first update; the model starts from a state with every flag cleared.
- UpdateTranslations: file reading and writing and running `lupdate` are left out; each command is built as the single string the source passes to `os.system`.
- SrReader: LogReader and route lookups are inputs; a reader is modelled by the path it opens, or by the route name and segment number of a CI reader.
- Text.PyRepr: beyond Latin-1 every character is written as itself. Python's `repr` writes the ones `str.isprintable` refuses (the separators, format and private-use characters, the unassigned code points) as `\u` or `\U` escapes. Deciding those needs the Unicode character database, which is not modelled. The same holds for the strings `CompareLogs.TallyDiff` prints.
- Text.PyInt: only ASCII digits are read; `int()` also accepts the decimal digits of other scripts.

## Findings

| source | as written | input that shows it | evidently intended | confidence | as-written member | corrected member |
|---|---|---|---|---|---|---|
| tools/cabana/detailwidget.cc:183-188 | `updateState` writes a cell for every data byte, with no check against the table's row count | a DBC message of size 2 and data of 3 bytes: row 2 is written, but the table has rows 0 and 1 | write only the rows the table has | not executed | CabanaDetail.DataLongerThanTable | CabanaDetail.BinaryGrid.UpdateState |
| tools/cabana/detailwidget.cc:161-167 | `setMessage` colours every bit of a signal's range, with no check against the table | a signal whose range reaches bit 16 in a 2-byte message: row 2 does not exist | colour only the bits inside the table | not executed | CabanaDetail.SignalPastTable | CabanaDetail.CoveredBitsInTable |
| selfdrive/ui/qt/offroad/wifiManager.cc:60-66 | `compare_by_strength(a, a)` is true when `a` is connected or connecting | any connected network compared with itself | a strict weak order, as `std::sort` requires | not executed | WifiManager.CompareByStrengthNotIrreflexive | WifiManager.StrengthBeforeOrder |
| selfdrive/test/process_replay/test_processes.py:216-218 | only list-valued results are stored, so a comparison that raised is dropped before `format_diff` | one process whose comparison raises: the stored results are empty and `failed` stays false | store the error text so the run fails | not executed | TestProcesses.RaisedOutcomeLost | TestProcesses.StoredFails |
| selfdrive/modeld/thneed/thneed.cc:189-192 | the loop counter `int i;` is never initialised, so which command waits depends on its starting value | a counter left at 5 with one recorded command: that command does not wait | start at 0, so exactly the last command waits | not executed | Thneed.UninitialisedCounterSkipsWait | Thneed.ExecuteFromZero |
| selfdrive/ui/replay/replay.cc:31-47 | sockets are only collected without a SubMaster, and dispatch at 228-295 needs one, so a SubMaster never receives an event | any replay built with a SubMaster and any event | collect the wanted services in both cases and open sockets only without a SubMaster | not executed | ReplayStream.SubMasterReceivesNothing | ReplayStream.SubMasterReceivesWanted |
