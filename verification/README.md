# Verified models of the C utilities

A Dafny model of the algorithms and stateful components in this collection of C programs, with proofs of
what they promise. `dafny verify dfyconfig.toml` checks everything.

| files | what they model |
|---|---|
| `Search`, `Kmp`, `Sunday` | the two fast string searches, against the naive search |
| `LinuxList`, `LinuxListSplice` | the intrusive circular list of `c/src/list.h`, on real nodes and pointers |
| `BaseList` | the smaller list of `c/src/base`, its queue, stack and node swap |
| `Bits`, `RingBuffer` | the power-of-two ring buffer with free-running 32-bit counters |
| `Utf8`, `Utf8Decode`, `Utf8Order`, `Utf8Text` | the UTF-8 codec, its order properties, and the string converters |
| `KeyModel`, `KeySafety`, `KeyTracker` | the key-event state machine: its steps, its lock count, and its code |
| `KeyHands`, `KeyTyping`, `KeyClicks`, `KeyChords` | what it reports, against a machine without slots: in every run, of keys clicked one after another, of a single key, and of keys held together |
| `IpcCodec`, `IpcWire` | marshalling of a message, and its format in numbers and bytes |
| `IpcCalls`, `IpcProtocol`, `IpcRuns`, `IpcDepartures`, `IpcSystem` | the client's and the server's handling of a message, their interleavings, what calls return, the runs that go wrong, and the runs of the code |
| `Dram`, `FileView` | the paged memory device and the viewer's window over it |

Code that changes state is modelled by classes and methods that change state: arrays are filled in place, list
nodes are relinked on the heap, and loops are loops. Each such method is proved against a function or a
predicate on values, and the properties are then proved about those. What a method does not name in its
`modifies` clause, such as the rings an operation is not about, it leaves alone.

## How the models read the source

* A C string is a sequence of characters; where the code reads the terminator, it is part of the sequence
  (`Kmp`) or read by `Search.At`.
* Widths matter where the code depends on them: counters of the ring buffer are 32-bit numbers with explicit
  wrap-around, UTF-8 works on bytes (`bv8`) and 32-bit codes (`bv32`), message words are little-endian, and the
  parameter union takes 16 bytes (an LP64 build).
* `Utf8Order.Before` is the strict order of codes, written with `<=` and `!=`.
* A list node is a `ListHead`; the two poison addresses that `list_del` leaves are its arguments. The field `cmd`
  of a `list_msg_t` is touched by no operation and has no counterpart.
* Clocks, events, keys, allocation garbage, the bytes that older messages leave in a receive buffer, and the
  order in which messages arrive are parameters or steps. Handlers that only print become entries of a log.

## Where the code departs from its promise

The model follows the code, and the departure is stated exactly.

* c/src/algorithm/kmp.c:27 allocates one `int` and initialises it to `plen`; `get_next` writes `plen + 1` of
  them. The model allocates the table that `get_next` needs.
* For an empty pattern `KMP` returns 1 (or -1 on an empty text), not 0: `Kmp.KmpSearch` gives the least
  occurrence if and only if the pattern is not empty.
* `sunday_search` returns if and only if `1 <= mainlen` and `sublen <= mainlen`: an empty text ends without a
  return value, and a text shorter than the pattern is read behind its terminator (`Sunday.SearchReturns`,
  `Sunday.SearchFails`). Characters index the table as (signed) `char`, so they are 7-bit.
* c/src/base/list.c:63 sets the `prev` of the wrong neighbour: after `list_swap` the `next` chain is right in
  every alias case, and the `prev` chain never is (`BaseList.ListSwap`).
* c/src/base/ringbuf.c:89 returns the length of the first copy, which is the number of bytes read if and only
  if the read does not wrap (`RingBuffer.RingBuf.Get`; `RingBuffer.WrappingRead` is a run in which it does).
* c/src/character.c:105 tests a continuation byte with the mask `0xE0`, line 143 shifts the top bits of a
  five-byte code away, and line 157 uses the wrong pair of bytes: `Utf8Decode.DecodeUndoesEncode` says which
  codes survive, `Utf8Decode.LostCodes` names some that do not, and `Utf8Decode.DecodeInBytes` gives the code read of any bytes. `enc_get_utf8_size` takes 0xFE and 0xFF for six-byte leads.
* `utf8_to_unicode` writes only characters of one and three bytes, and loops for ever on a character its
  decoder rejects (outcome `Stuck`: `Utf8Text.StuckAtFirstBad` says exactly when, `Utf8Text.StuckText` is an example); `unicode_to_utf8` writes no terminator and always returns 0.
* An overflow of the key events while a key is held, followed by its repeat and release, leaves `lock_cnt` at
  -1 (`KeySafety.OverflowThenRepeat`). `KeySafety.LockAfterOverflow` gives the count after any overflow, and
  `KeySafety.LedgerIsExact` accounts for every drift in every run.
* `keys_init` (linux/src/key_app.c:195-203) does not reset `keys_status`. Keys held together for three seconds
  leave it at `LONG_KEY_PRESS` when all are up (`KeyChords.LongChordLeavesItsStatus`), and so does a time-out three
  seconds after a click, which forgets the click. The next click, of any key, is then also reported as the end of
  a long press: clicks are reported once and alone if and only if the time-out comes in time and the status is clear
  (`KeyClicks.ClicksAreCounted`; `KeyChords.LongReleaseOfAClick` is a run in which it is not).
* The press of a key reports the clicks waiting of another if and only if no slot but that one's remembers the key
  pressed (`KeyTyping.AnotherKeyTells`). No run leaves a slot that does: the condition fails only in states that
  are never reached, such as that of `KeyTyping.StrayCode`.
* The IPC client sends a request before it registers its node, registers it before it waits, and finds nodes by
  command id alone. When no node has the id, the search ends on the last node of the list, and that call is
  completed with the foreign reply and stays listed; with an empty list it is the call on which the search before
  has ended (`IpcDepartures.EarlyResponse`, `IpcDepartures.ReplyFindsStaleNode`). So three things are assumed for a call to be answered: its
  node is registered before the response is received, its thread waits by then, and no earlier node in the list
  has its id; the low byte of an id is zero. `IpcProtocol.ReplyReachesItsCall` says that these are exactly what it
  takes, `IpcProtocol.CarefulRunsAreLegal` that different ids of outstanding calls are enough for the third, and
  `IpcDepartures` has a run of the code for each of them in which it fails: `ReplyOvertakesRegistration`,
  `ReplyOvertakesWait` and `SharedIdsGoAstray`.

## Model

| member | source | states |
|---|---|---|
| `Search.FindIsLeast` | c/src/algorithm/kmp.c:25-48 | the naive search returns r exactly when r is the least position where the pattern occurs, or -1 and it occurs nowhere; this is what both fast searches are held to |
| `Kmp.LongestBorderIsLongest` | c/src/algorithm/kmp.c:8-24 | the number a table entry stands for: a proper border of the prefix, and no longer one exists |
| `Kmp.FallbackLosesNothing` | c/src/algorithm/kmp.c:14-17 | one fallback to the next shorter border passes over no candidate match that the character could extend |
| `Kmp.NextEntryIsLongest` | c/src/algorithm/kmp.c:18-22 | where the inner loop ends, the border it has found is the longest proper border of the longer prefix |
| `Kmp.FallBack` | c/src/algorithm/kmp.c:14-17 | the inner loop shared by both functions ends at the longest match that the character extends or at none, and every fallback costs one unit of k |
| `Kmp.NextEntry` | c/src/algorithm/kmp.c:13-23 | one turn of the loop finds the next entry, at the cost of its fallbacks and two comparisons |
| `Kmp.GetNext` | c/src/algorithm/kmp.c:8-24 | fills every entry q up to len (terminator included) with the longest proper border of T[0..q] less one; at most len fallbacks and linearly many comparisons |
| `Kmp.SearchStep` | c/src/algorithm/kmp.c:33-45 | one character of the text either keeps "longest match so far, nothing missed" or completes the least occurrence |
| `Kmp.MatchCharacter` | c/src/algorithm/kmp.c:33-45 | one turn of the loop over the text takes that step |
| `Kmp.KmpSearch` | c/src/algorithm/kmp.c:25-48 | returns the least occurrence or -1 if and only if the pattern is not empty; fallbacks bounded by pattern plus text, comparisons linear |
| `Sunday.ShiftFindsLast` | c/src/wgrep/sunday.c:11-13 | a shift ends at the last place of the character in the pattern, or behind the pattern if it has none |
| `Sunday.GetStep` | c/src/wgrep/sunday.c:4-15 | the table holds the shift of every one of the 256 characters |
| `Sunday.ShiftSkipsNothing` | c/src/wgrep/sunday.c:32 | no occurrence starts between the window and the shifted window |
| `Sunday.MatchWindow` | c/src/wgrep/sunday.c:25-38 | the inner loop ends at the first mismatch or with an occurrence, and reads the terminator at most |
| `Sunday.SundaySearch` | c/src/wgrep/sunday.c:17-42 | for all 7-bit strings the loops end as the search function says: with a return, without one, or with a read behind the terminator |
| `Sunday.SearchReturns` | c/src/wgrep/sunday.c:17-42 | it returns if and only if 1 <= mainlen and sublen <= mainlen, and then the least occurrence or -1; an empty text ends without a return value, a shorter text reads behind its terminator |
| `Sunday.SearchFails` | c/src/wgrep/sunday.c:23-42 | the two failures on concrete texts |
| `Sunday.BothSearches` | c/src/wgrep/sunday.c:17-42 | the two searches agree with each other, and with the least occurrence, wherever both are defined |
| `LinuxList.ChainConcat` | c/src/list.h:28-30 | two chains joined by one pair of pointers are one chain exactly when they are disjoint chains: what every operation on the ring rests on |
| `LinuxList.RotateRing` | c/src/list.h:28-30 | a ring is the same ring read from any of its nodes |
| `LinuxList.AddBetween` | c/src/list.h:59-67 | __list_add: the new node closes the ring between the two neighbours |
| `LinuxList.Add` | c/src/list.h:78-81 | list_add puts the entry in front, and keeps the ring |
| `LinuxList.AddTail` | c/src/list.h:92-95 | list_add_tail puts the entry at the end, and keeps the ring |
| `LinuxList.Link` | c/src/list.h:104-108 | __list_del: joins the end of one chain to the start of another, or closes a chain to a ring |
| `LinuxList.Unlink` | c/src/list.h:116-119 | __list_del_entry leaves the ring without that node and the node's own pointers as they were; a lone node stays a ring |
| `LinuxList.InitListHead` | c/src/list.h:47-51 | INIT_LIST_HEAD makes a ring of one node |
| `LinuxList.Del` | c/src/list.h:121-126 | list_del leaves the ring of the others in order, and the entry with the two poison pointers |
| `LinuxList.DelInit` | c/src/list.h:155-159 | list_del_init leaves the ring of the others in order and the entry as a ring of its own |
| `LinuxList.ReplaceLast` | c/src/list.h:135-142 | the four assignments put the new node where the old one was, also when the old one is alone |
| `LinuxList.Replace` | c/src/list.h:135-142 | list_replace substitutes the node at its place in the sequence |
| `LinuxList.ReplaceInit` | c/src/list.h:144-149 | and list_replace_init leaves the old node as a ring of its own |
| `LinuxList.Move` | c/src/list.h:166-170 | list_move takes the entry out of its ring, which keeps the others in order, and puts it in front of a list, be it the same list or another |
| `LinuxList.MoveTail` | c/src/list.h:177-182 | list_move_tail likewise at the end |
| `LinuxList.TestsAreRight` | c/src/list.h:189-202 | list_empty, list_empty_careful, list_is_singular and list_is_last answer the questions about the sequence, both ways |
| `LinuxList.RotateLeft` | c/src/list.h:227-235 | list_rotate_left brings the first entry to the end; an empty list stays empty |
| `LinuxList.CutAt` | c/src/list.h:246-256 | __list_cut_position makes two rings of one |
| `LinuxList.SpliceBetween` | c/src/list.h:286-298 | __list_splice inserts the entries of one ring between two neighbours of a disjoint one |
| `LinuxListSplice.CutPosition` | c/src/list.h:272-284 | list_cut_position moves the entries up to the given one; at the head it cuts off nothing; in the guarded cases nothing changes |
| `LinuxListSplice.Splice` | c/src/list.h:305-310 | list_splice puts the entries in front, and leaves the emptied head with its old pointers |
| `LinuxListSplice.SpliceTail` | c/src/list.h:317-322 | list_splice_tail puts them at the end |
| `LinuxListSplice.SpliceInit` | c/src/list.h:331-338 | list_splice_init also leaves the emptied head as an empty list |
| `LinuxListSplice.SpliceTailInit` | c/src/list.h:348-355 | list_splice_tail_init likewise at the end |
| `LinuxListSplice.CutThenSplice` | c/src/list.h:272-338 | cutting at any entry, the head and the last one included, and splicing the part back in front restores the list |
| `LinuxListSplice.RotatedIsSwap` | c/src/list.h:227-235 | n rotations exchange the first n entries with the rest; as many as there are entries restore the order |
| `LinuxListSplice.RotateTimes` | c/src/list.h:227-235 | n calls on a real ring do that; |s| calls are the identity |
| `LinuxListSplice.SelectSelects` | c/src/list_test.c:47-57 | what is kept, and what is deleted, is exactly what fails, and passes, the test |
| `LinuxListSplice.CursorStep` | c/src/list.h:438-440 | deleting at the cursor removes just that entry, and the next entry is the one read before |
| `LinuxListSplice.DeleteWhileWalking` | c/src/list_test.c:47-57 | the safe walk visits every entry once in order, ends, deletes exactly the entries that pass the test, and leaves a ring of the others in order |
| `BaseList.SwapLinks` | c/src/base/list.c:47-65 | the assignments of list_swap in the three alias cases: the next pointers come out exchanged |
| `BaseList.ListSwap` | c/src/base/list.c:47-65 | on any two entries of a list the next chain is the sequence with them exchanged, and the result is never a well-formed ring (the wrong prev is set) |
| `BaseList.TakeFirst` | c/src/base/queue.c:25-36 | queue_out and stack_pop return the first entry and leave the ring of the rest, or return NULL from an empty list |
| `BaseList.Destroy` | c/src/base/queue.c:43-54 | queue_destory frees every entry exactly once, last first, and leaves an empty list |
| `BaseList.Run` | c/src/base/stack.c:15-31 | any interleaving of calls on a real list returns what the sequence model returns, for the queue and for the stack |
| `BaseList.QueueIsFifo` | c/src/base/queue.c:20-36 | what came out, then what is still inside, is what was inside and what was put in, in order |
| `BaseList.StackIsLifo` | c/src/base/stack.c:15-31 | balanced calls leave what lies below them untouched and never see it |
| `BaseList.PopClosesPush` | c/src/base/stack.c:15-31 | a pop returns the entry of the push it closes, whatever balanced calls lie between |
| `Bits.PowerOf2Test` | c/src/base/ringbuf.c:6 | is_power_of_2 accepts exactly the powers of two |
| `Bits.AndMask` | c/src/base/ringbuf.c:53 | masking with 2^k - 1 is the remainder by 2^k |
| `RingBuffer.MaskIsIndex` | c/src/base/ringbuf.c:53-56 | for an accepted size the mask puts a counter at its remainder |
| `RingBuffer.IndexAdvances` | c/src/base/ringbuf.c:61 | advancing a counter moves its place around the ring, over the wrap of the counter and of the ring |
| `RingBuffer.StoredAt` | c/src/base/ringbuf.c:76-84 | byte i of the content is where the mask puts the counter out + i |
| `RingBuffer.PutAppends` | c/src/base/ringbuf.c:50-61 | writing at the place of `in` and advancing it appends to the content, over both kinds of wrap |
| `RingBuffer.GetDrops` | c/src/base/ringbuf.c:73-84 | the bytes from the place of `out` on are the oldest, and advancing it drops just them |
| `RingBuffer.RingBuf.constructor` | c/src/base/ringbuf.c:19-27 | a new buffer is empty |
| `RingBuffer.Create` | c/src/base/ringbuf.c:11-28 | NULL if and only if the size is not a power of two; otherwise an empty buffer |
| `RingBuffer.RingBuf.Available` | c/src/base/ringbuf.c:37-40 | free plus used is the size |
| `RingBuffer.RingBuf.CopyIn` | c/src/base/ringbuf.c:53-59 | the two copies write around the end of the array |
| `RingBuffer.RingBuf.CopyOut` | c/src/base/ringbuf.c:76-82 | the two copies read around the end of the array |
| `RingBuffer.RingBuf.Put` | c/src/base/ringbuf.c:42-64 | appends the first min(len, free) bytes and returns their number |
| `RingBuffer.RingBuf.Get` | c/src/base/ringbuf.c:66-90 | copies out and removes the first min(len, used) bytes, through the reset to zero; the value returned is the length up to the end of the array, which is their number if and only if the read does not wrap |
| `RingBuffer.WrappingRead` | c/src/base/ringbuf.c:76-89 | a run of puts and gets on a buffer of four in which three bytes are read and 1 is returned |
| `RingBuffer.BytesAreConserved` | c/src/base/ringbuf.c:42-90 | over every sequence of calls, all bytes read and then all bytes stored are all bytes accepted, in order |
| `RingBuffer.Run` | c/src/base/ringbuf.c:42-90 | any sequence of calls on a real buffer behaves as the bounded FIFO |
| `Utf8.EncodeOne` | c/src/character.c:208-267 | stores the bytes of the form, nothing else, and returns their number (0 above the range) |
| `Utf8.SizeOfLead` | c/src/character.c:169-188 | the length is read off exactly the lead bytes of that length, and 0xFE and 0xFF count as leads of six |
| `Utf8.EncodeIsWellFormed` | c/src/character.c:208-267 | every code up to 0x7FFFFFFF gets a well-formed sequence in the sense of section 2 of RFC 2279 that stands for it |
| `Utf8.NothingAbove` | c/src/character.c:168-265 | nothing is written for a code above 0x7FFFFFFF, and only then |
| `Utf8.WellFormedIsEncode` | c/src/character.c:208-267 | and every well-formed sequence is the encoding of what it stands for: the two are inverse bijections |
| `Utf8Decode.DecodeOne` | c/src/character.c:85-167 | the loop-free decoder does what the decoding function says, of which DecodeInBytes says what that is for any bytes |
| `Utf8Decode.DecodeInBytes` | c/src/character.c:85-167 | for any bytes, by the byte ranges and masks in numbers: 0 if and only if the lead byte starts nothing or a byte behind it fails its test (0xC0 against 0x80; for two bytes 0xE0); otherwise length and code bit by bit, exactly, five- and six-byte codes included; reading behind the bytes if and only if they end before the character |
| `Utf8Decode.CutCharacter` | c/src/character.c:109-115 | a three-byte character cut after two bytes and followed by a letter is rejected, whatever follows |
| `Utf8Decode.DecodeUndoesEncode` | c/src/character.c:85-267 | decoding gives the code back if and only if it survives: all of one, three and four bytes, two bytes with bit 5 clear, five bytes within 24 bits, six bytes with two repeated groups; the other outcomes are named |
| `Utf8Decode.LostCodes` | c/src/character.c:102-160 | one code of each kind that does not survive, and what is read instead |
| `Utf8Order.EncodeOrder` | c/src/character.c:208-267 | of two codes the smaller has the encoding that is smaller at their first difference |
| `Utf8Order.PrefixFree` | c/src/character.c:208-267 | no encoding is a prefix of another one |
| `Utf8Order.EncodeKeepsOrder` | c/src/character.c:208-267 | the encoder is a character code that keeps order, over all 31-bit codes |
| `Utf8Order.CodeKeepsStringOrder` | c/src/character.c:208-267 | any such character code keeps the lexicographic order of strings of any length, reflects prefixes, and is injective |
| `Utf8Order.EncodingKeepsOrder` | c/src/character.c:208-267 | for strings of codes: byte order is code point order, prefix if and only if prefix, equal if and only if equal (section 1 of RFC 2279) |
| `Utf8Order.BoundariesShow` | c/src/character.c:208-267 | a byte of an encoded string is a continuation byte if and only if no character starts there (section 1 of RFC 2279) |
| `Utf8Text.ConvertUnit` | c/src/character.c:277-288 | one turn of the loop encodes one big-endian unit behind the others |
| `Utf8Text.HighFirst` | c/src/character.c:277-281 | the high byte of a unit comes first |
| `Utf8Text.UnicodeToUtf8` | c/src/character.c:270-290 | the output is the encodings of all units before the zero unit, one after the other, without a terminator |
| `Utf8Text.FromUtf8Step` | c/src/character.c:42-64 | one turn of the loop: a rejected character is a dead end, any other is written or skipped and passed over |
| `Utf8Text.Utf8ToUnicode` | c/src/character.c:34-67 | the bytes written and their number, or that the loop never ends |
| `Utf8Text.EndsOrSticks` | c/src/character.c:42-64 | the loop ends at the first NUL behind good characters, and never ends at the first bad one; what it has written by then |
| `Utf8Text.WhereItEnds` | c/src/character.c:42-64 | and there is no other way to end, to get stuck, or to read behind the bytes |
| `Utf8Text.StuckAtFirstBad` | c/src/character.c:42-64 | for any bytes, the loop never ends if and only if good characters are followed by a bad one |
| `Utf8Text.OneCharacter` | c/src/character.c:42-64 | one character there and back, and the same cut short |
| `Utf8Text.CodeThrough` | c/src/character.c:34-67 | one code of any length through encoder and decoding loop: written if it has one or three bytes, a dead end if it has two and bit 5 set, and skipped otherwise |
| `Utf8Text.ThereAndBack` | c/src/character.c:34-290 | for every string of non-zero codes up to 0x7FFFFFFF, in UTF-8: the codes of one and three bytes come back, up to the first one in U+0080..U+07FF with bit 5 set, on which the loop never ends |
| `Utf8Text.StuckText` | c/src/character.c:42-64 | a text on which the loop never ends |
| `Utf8Text.UnitsAreTheText` | c/src/character.c:277-281 | a terminated buffer is its units in big-endian order, a zero unit, and whatever follows |
| `Utf8Text.TextHasTheUnits` | c/src/character.c:277-281 | and every string of non-zero units is the text of such a buffer |
| `Utf8Text.ConvertAndBack` | c/src/character.c:34-290 | both converters on real buffers: the second ends if and only if no unit in U+0080..U+07FF has bit 5 set; then it returns twice the number of units kept and leaves just them, which is the text fed in, byte for byte, if it has no unit in that range |
| `Utf8Text.ExactRoundTrip` | c/src/character.c:34-290 | the string itself comes back if and only if all its codes are of one or three bytes |
| `KeyModel.NthClicked` | linux/src/key_app.c:160-175 | get_key_info finds the slot of the clicked key with that number, or MAX_KEYS exactly when there are not so many |
| `KeyTracker.Tracker.constructor` | linux/src/key_app.c:88-91 | the zero-initialised state |
| `KeyTracker.Tracker.GetKeyInfo` | linux/src/key_app.c:160-175 | the loop finds that slot |
| `KeyTracker.Tracker.GetKeyPressNum` | linux/src/key_app.c:177-189 | the number of slots that are not released |
| `KeyTracker.Tracker.KeysInit` | linux/src/key_app.c:195-203 | all slots free and multi-key mode off; the long-press status and the lock count stay |
| `KeyTracker.Tracker.KeysBufferOverflowProcess` | linux/src/key_app.c:205-211 | takes the overflow step |
| `KeyTracker.Tracker.LongKeyHandle` | linux/src/key_app.c:237-261 | takes the long-press step: what is reported for how many held keys |
| `KeyTracker.Tracker.CheckPollTimeout` | linux/src/key_app.c:276-321 | takes the poll step: long presses, the end of the click gap, and nothing otherwise |
| `KeyTracker.Tracker.ShouldDiscard` | linux/src/key_app.c:326-344 | drops exactly the events with a status the key already has, and releases of unknown keys |
| `KeyTracker.Tracker.ChooseSlot` | linux/src/key_app.c:359-387 | the slot of the key, else the first free one, with the clicks waiting reported as the step does; KeyHands.StepSees and KeyTyping.AnotherKeyTells say what that is without slots |
| `KeyTracker.Tracker.CountClick` | linux/src/key_app.c:395-420 | the transitions into and out of multi-key mode, the end of a long press, and the click count |
| `KeyTracker.Tracker.HandleKey` | linux/src/key_app.c:359-426 | the whole event behind the lock count |
| `KeyTracker.Tracker.CheckKeyStatus` | linux/src/key_app.c:323-426 | takes the key step, and restarts the clock on the events that do |
| `KeyTracker.Tracker.InputKeysAnalyse` | linux/src/key_app.c:428-448 | takes the step of a key, a time-out or an overflow, with the time elapsed since the start time |
| `KeyTracker.Tracker.InputThread` | linux/src/key_app.c:450-467 | over any history of wake-ups the code goes through the run of their events |
| `KeySafety.StepKeepsInv` | linux/src/key_app.c:205-426 | every event keeps: statuses and counts in range, non-zero codes pairwise distinct, free slots released, and multi-key mode only while a key is down |
| `KeySafety.DriftOfKey` | linux/src/key_app.c:323-426 | how every key event changes the distance between lock_cnt and the pressed slots, exactly |
| `KeySafety.LedgerIsExact` | linux/src/key_app.c:205-426 | in every run of any well-formed events, overflows included, that distance is the sum of those changes |
| `KeySafety.StepTracks` | linux/src/key_app.c:276-426 | one event of a real keyboard, or a poll: the pressed slots remain exactly the held keys, and no held key changes its slot |
| `KeySafety.RunTracks` | linux/src/key_app.c:276-426 | in every run of a real keyboard with at most MAX_KEYS keys held and no event lost, lock_cnt is the number of pressed slots and of held keys |
| `KeySafety.StartTracks` | linux/src/key_app.c:88-91 | such runs start at the initial state |
| `KeySafety.StepFollows` | linux/src/key_app.c:205-426 | one event of a real keyboard, an overflow included: the pressed slots are the held keys that are not lost, and lock_cnt is their number plus the drift; only the repeat of a lost key adds to it |
| `KeySafety.RunFollows` | linux/src/key_app.c:205-426 | the same over every run of a real keyboard, with polls and overflows anywhere |
| `KeySafety.LockAfterOverflow` | linux/src/key_app.c:205-426 | said of the events alone: since the last overflow, lock_cnt is the number of keys held, less the number of keys held at the overflow whose first event since was not their release |
| `KeySafety.OverflowThenRepeat` | linux/src/key_app.c:205-357 | press, overflow, repeat, release leaves lock_cnt at -1 with no key down |
| `KeyClicks.StepShows` | linux/src/key_app.c:276-426 | one event of a single key: clicks counted, long press, time-outs and their reports are those of a key of its own with three fields |
| `KeyClicks.RunShows` | linux/src/key_app.c:276-426 | so it is over every run of a single key, with repeats, and with time-outs at any times |
| `KeyClicks.TrainCounts` | linux/src/key_app.c:323-426 | clicks that follow each other in time are all counted, and at most the end of an earlier long press is reported |
| `KeyClicks.ClicksAreCounted` | linux/src/key_app.c:276-426 | n clicks, with repeats and with time-outs before, during and between them, and one time-out behind: reported once, with count n, if and only if that falls between gap and long press and no long press has been left behind; what is reported, waits or is forgotten otherwise |
| `KeyClicks.LongPressIsReported` | linux/src/key_app.c:237-426 | the n-th of such clicks is held: the long press and its end are each reported once |
| `KeyClicks.PressesRestart` | linux/src/key_app.c:394-417 | of the events of a single key, the presses restart the clock, and they alone |
| `KeyClicks.OneKeyInTime` | linux/src/key_app.c:276-467 | by the clock: every history of a single key is reported by the time since its last press |
| `KeyClicks.ClicksAreCountedInTime` | linux/src/key_app.c:276-467 | by the clock: the report of the clicks at the first time-out behind them, for every time since the last press |
| `KeyChords.MultiKeyRelease` | linux/src/key_app.c:394-416 | the releases of several held keys: the first reports their number, the others nothing, the last one empties the slots |
| `KeyChords.MultiKeyModeIsSilent` | linux/src/key_app.c:276-426 | behind the first release nothing is reported until all keys are up, whatever keys go down and up |
| `KeyChords.ChordIsReportedOnce` | linux/src/key_app.c:276-426 | keys go down, one goes up, and then keys go down and up until all are up: reported once, by the number down at the first release; in the end all slots are free and lock_cnt is zero |
| `KeyChords.LongChordLeavesItsStatus` | linux/src/key_app.c:195-261 | the same for a chord held for the time of a long press and any time beyond: reported once as a long press and once as a chord, and the long-press status stays behind |
| `KeyChords.LongReleaseOfAClick` | linux/src/key_app.c:195-420 | a run after which a click of any key is also reported as the end of a long press |
| `KeyHands.StepSees` | linux/src/key_app.c:205-426 | one event of any kind, from any state that a run can reach: reports, keys held, clicks waiting, chord and long-press status are those of a machine without slots, which knows only the keys held and the clicks waiting; and the clock restarts when its does |
| `KeyHands.RunSees` | linux/src/key_app.c:205-426 | so it is over every run of any well-formed events: any keys, lost events, overflows and time-outs |
| `KeyHands.HistorySees` | linux/src/key_app.c:205-467 | and by the clock: the events of any history are those timed by that machine, from each press noticed and from the first release of a chord |
| `KeyHands.EveryRun` | linux/src/key_app.c:88-426 | from the start, in every run, the reports are exactly those of that machine |
| `KeyHands.EveryHistory` | linux/src/key_app.c:88-467 | the same for every history of wake-ups with their times |
| `KeyTyping.StepSpells` | linux/src/key_app.c:276-426 | one event with at most one key down: the key pressed, if any, and the clicks pending before are the clicks told and those pending after |
| `KeyTyping.TypingSpells` | linux/src/key_app.c:276-426 | conservation: any keys clicked one after another, with repeats and time-outs before a long press: clicks told and clicks pending are the clicks made, in order, none lost and none told twice |
| `KeyTyping.BriskIsApart` | linux/src/key_app.c:363-379 | if no time-out finds the click gap passed, neighbouring reports are of different keys: clicks of one key in a row are one report |
| `KeyTyping.ClicksOfKeysAreTold` | linux/src/key_app.c:276-426 | both together on the tracker, with a time-out behind the gap: every click of every key is reported once, in order, with its count, and nothing is pending |
| `KeyTyping.TypedFromTheStart` | linux/src/key_app.c:88-467 | the same by the clock, from the start of the tracker |
| `KeyTyping.AnotherKeyTells` | linux/src/key_app.c:359-379 | from every idle state: n clicks of a key in time and then the press of another report the n clicks at once, if and only if no slot but the first key's remembers the other key; in the states that runs reach none does, and the other key starts its own count at one |
| `KeyTyping.EveryRunIsPacked` | linux/src/key_app.c:205-426 | every run leaves the slots so that this holds |
| `KeyTyping.StrayCode` | linux/src/key_app.c:359-379 | an idle state that no run reaches, in which the clicks are not reported |
| `KeyTyping.ClickThenAnother` | linux/src/key_app.c:359-379 | press 30, release 30, press 31 from the start: one report of one click of key 30 |
| `KeyTyping.ClickInNumbers` | linux/src/key_app.c:276-321 | a click is reported by a time-out of 200000 up to 2999999 microseconds and forgotten by a later one |
| `KeyTyping.LongPressInNumbers` | linux/src/key_app.c:276-321 | a key held is reported by a time-out of 3000000 microseconds or more |
| `KeyTyping.ChordInNumbers` | linux/src/key_app.c:398-404 | two keys down and one up: one report of two keys |
| `IpcCodec.SignatureAt` | android/linux/ipc/client/ipc_common.h:77 | the types of the word in order up to the first type none or the sixth |
| `IpcCodec.GetParamCount` | android/linux/ipc/client/ipc_client_internal.c:16-26 | counts them |
| `IpcCodec.CallbackKeepsSignature` | android/linux/ipc/client/ipc_common.h:40 | marking a call as asynchronous leaves its types as they are |
| `IpcCodec.FieldMeans` | android/linux/ipc/client/ipc_client_internal.c:86-101 | wherever the bytes of a parameter stand, they are read as that parameter, a buffer cut to its size |
| `IpcCodec.FieldsBack` | android/linux/ipc/client/ipc_client_internal.c:86-101 | n parameters in a row are read back as themselves, and reading ends where they end |
| `IpcCodec.MessageBack` | android/linux/ipc/client/ipc_client_internal.c:61-173 | ipc_convert_data undoes ipc_convert_param for every command, every type word and all buffers, whatever follows in the receive buffer; reading ends at the size written |
| `IpcCodec.ConvertOne` | android/linux/ipc/client/ipc_client_internal.c:87-100 | reads one parameter into its place |
| `IpcCodec.ConvertData` | android/linux/ipc/client/ipc_client_internal.c:61-103 | reads what the message means; parameters of unknown types, and those behind the last, stay as they were |
| `IpcCodec.MessageSize` | android/linux/ipc/client/ipc_client_internal.c:127-141 | the size computed first is the length of the message |
| `IpcCodec.PutFields` | android/linux/ipc/client/ipc_client_internal.c:154-170 | the copying loop writes all parameters and ends at the end of the buffer |
| `IpcCodec.ConvertParam` | android/linux/ipc/client/ipc_client_internal.c:105-173 | the buffer is exactly the message |
| `IpcWire.SignatureInNumbers` | android/linux/ipc/client/ipc_common.h:77 | the types of a word are its lowest nibbles in order, up to the first zero or the sixth |
| `IpcWire.FieldInNumbers` | android/linux/ipc/client/ipc_client_internal.c:86-101 | for every type number: 16 bytes for 1, 2 and 3, 4 and the size for 5, 6 and 7, none otherwise; and those bytes are read as the parameter, cut to its size, or as nothing |
| `IpcWire.MessageInBytes` | android/linux/ipc/client/ipc_client_internal.c:105-173 | every message byte for byte: the command and the types low byte first, then each field behind the one before, first word in front |
| `IpcWire.FormatIsRead` | android/linux/ipc/client/ipc_client_internal.c:61-103 | whoever reads those bytes, with anything behind them, gets the command, the types, and each parameter of the types 1 to 3 and 5 to 7 |
| `IpcWire.RegistrationMessage` | android/linux/ipc/client/ipc_client.c:350-358 | the registration with types 0x61 and a buffer of 40 bytes: 68 bytes are sent, and value and buffer arrive |
| `IpcWire.CommandBits` | android/linux/ipc/client/ipc_comm_command.h:16-24 | what the bits of a command mean: response, registration, request; and the bit a reply adds |
| `IpcWire.CallbackBit` | android/linux/ipc/client/ipc_common.h:40 | the top bit of the types marks an asynchronous call, and marking touches no other bit |
| `IpcCalls.MessageIsShort` | android/linux/ipc/client/ipc_client.c:19 | a message without buffers has at most 104 bytes and fits the receive buffers |
| `IpcCalls.NewNode` | android/linux/ipc/client/ipc_client.c:268-275 | a node with a copy of the caller's parameters |
| `IpcCalls.CopyOutputs` | android/linux/ipc/client/ipc_client.c:38-49 | copies exactly the output and in-out values |
| `IpcWire.OutputsInNumbers` | android/linux/ipc/client/ipc_client.c:38-49 | the parameters of the types 2 and 3 are copied and all others stay, whatever their type or beyond the signature |
| `IpcCalls.Lookup` | android/linux/ipc/client/ipc_client.c:108-115 | the first position with that id, or the end |
| `IpcCalls.FindNode` | android/linux/ipc/client/ipc_client.c:108-115 | the loop over the list finds it |
| `IpcCalls.Client.Send` | android/linux/ipc/client/ipc_client.c:249-262 | the message sent, marked when there is a callback |
| `IpcCalls.Client.Register` | android/linux/ipc/client/ipc_client.c:268-279 | a node with the arguments of the call is appended to the list |
| `IpcCalls.Client.Choose` | android/linux/ipc/client/ipc_client.c:107-117 | the search: the first node with the id leaves the list; if there is none, the last node is taken and stays; and if the list is empty, callback_node stays where the search before has left it |
| `IpcCalls.Client.Respond` | android/linux/ipc/client/ipc_client.c:105-121 | the node so chosen gets its outputs, and no other node is touched |
| `IpcCalls.Client.Receive` | android/linux/ipc/client/ipc_client.c:99-124 | the same for the bytes of a response |
| `IpcCalls.Server.ProcessSyncCommand` | android/linux/ipc/server/ipc_server_command.c:17-42 | sets two words of the second parameter, and replies with the respond bit set if the call is synchronous |
| `IpcWire.AnswerInNumbers` | android/linux/ipc/server/ipc_server_command.c:17-42 | 80 and 90 in the two words of the second parameter, and nothing else |
| `IpcCalls.Server.Receive` | android/linux/ipc/server/ipc_server.c:99-129 | a registration, an asynchronous call and a synchronous call are kept apart: one list grows by the message, or the reply goes out |
| `IpcWire.ServerSorts` | android/linux/ipc/server/ipc_server.c:99-129 | by the bits of the message: bits 1 to 7 of the command make it a registration, else the top bit of the types an asynchronous call, else it is answered with the lowest bit of the command set, byte for byte |
| `IpcProtocol.ServerUnderstands` | android/linux/ipc/server/ipc_server.c:59-69 | whatever its array and buffer held before, the server replies to a synchronous call and parks an asynchronous one |
| `IpcProtocol.ClientUnderstands` | android/linux/ipc/client/ipc_client.c:101-121 | whatever its array and buffer held before, the client finds the id of the call in a reply, and its outputs |
| `IpcProtocol.LookupFindsOwn` | android/linux/ipc/client/ipc_client.c:108-115 | the search by id finds the call's own node if and only if no earlier node has the same id |
| `IpcProtocol.ReplyReachesItsCall` | android/linux/ipc/client/ipc_client.c:105-121 | in every state in which no reply has gone astray: a reply takes out and completes its own call if and only if that is registered and no earlier entry has its id, and wakes it if and only if it waits besides; otherwise it leaves it as it is, with no message left |
| `IpcProtocol.RegistrationDecides` | android/linux/ipc/client/ipc_client.c:261-289 | with different ids: a reply reaches its own call if and only if that is registered by then, and wakes it if and only if it waits by then |
| `IpcProtocol.ResponseCompletesItsCall` | android/linux/ipc/client/ipc_client.c:99-124 | a response under that condition takes exactly the node of its own call out of the list and completes it |
| `IpcProtocol.StepKeepsInv` | android/linux/ipc/client/ipc_client.c:230-316 | every step in which a response finds its call can be carried out and keeps: each outstanding call is in exactly one place, the list holds every registered and unanswered call once, and finished calls have their answers |
| `IpcProtocol.CarefulRunsAreLegal` | android/linux/ipc/client/ipc_client.c:230-316 | every response finds its call if the ids of outstanding calls differ and no response is received before its call waits |
| `IpcProtocol.PendingIsUnanswered` | android/linux/ipc/client/ipc_client.c:254-311 | over every run the client's list is the list of calls registered and not answered, in order of registration |
| `IpcProtocol.RequestsAreAsked` | android/linux/ipc/client/ipc_client.c:230-279 | the calls of a run are those asked for, in order, with their arguments |
| `IpcProtocol.ReturnedCallsHaveTheirAnswers` | android/linux/ipc/client/ipc_client.c:297-311 | over every legal run: a call that has returned left the server's value in each parameter whose type is 2 or 3, and the caller's own in every other |
| `IpcProtocol.CallsCanReturn` | android/linux/ipc/client/ipc_client.c:254-311 | no message is lost: from every reachable state with different ids a synchronous call can be carried on until it returns |
| `IpcRuns.CallReturns` | android/linux/ipc/client/ipc_client.c:230-316 | a call of any signature without buffers in six steps: the second parameter returns as (80, 90) if its type is 2 or 3, and all else as the caller left it |
| `IpcRuns.FirstCall` | android/linux/ipc/client/ipc_client.c:332-339 | the client's first call, types 0x21: the run that returns (10, 20) and (80, 90) |
| `IpcRuns.AsynchronousCallsInOrder` | android/linux/ipc/server/ipc_server.c:32-57 | over every legal run the server's list holds the asynchronous calls it has taken, in that order, with their commands, types and values |
| `IpcProtocol.AsynchronousCallsStay` | android/linux/ipc/server/ipc_server.c:32-57 | an asynchronous call is answered in no run; its node stays in the list |
| `IpcDepartures.EarlyResponse` | android/linux/ipc/client/ipc_client.c:105-121 | a response received before its call is registered completes the last call in the list, or with an empty list the one on which the search before has ended, with the outputs of the other, and is lost for its own call |
| `IpcDepartures.SignalIsMissed` | android/linux/ipc/client/ipc_client.c:38-60 | a response handled between the registration of its call and its wait completes the node, takes it out of the list, and signals nobody |
| `IpcDepartures.ForgottenUnlessWoken` | android/linux/ipc/client/ipc_client.c:278-289 | in every run of the code such a call is forgotten to the end (but for its time-out) if and only if no later response, finding the list empty and callback_node still at its node, wakes it by accident |
| `IpcDepartures.PassedByForEver` | android/linux/ipc/client/ipc_client.c:105-121 | and none does once a search has ended on another node |
| `IpcDepartures.ReplyOvertakesRegistration` | android/linux/ipc/client/ipc_client.c:105-121 | a run of two calls in which the first returns with the value of the second, which has no message left |
| `IpcDepartures.ReplyFindsStaleNode` | android/linux/ipc/client/ipc_client.c:105-121 | a run in which a reply finds the list empty and callback_node at a call that was answered before but has not returned: that call returns with the foreign value |
| `IpcDepartures.SharedIdsGoAstray` | android/linux/ipc/client/ipc_client.c:105-121 | a run of two calls with one id, the first asynchronous: the reply to the second goes to the callback of the first, and the second waits on with no message left |
| `IpcDepartures.ReplyOvertakesWait` | android/linux/ipc/client/ipc_client.c:278-289 | a run in which the reply is handled before its call waits; the call then returns in no continuation without such an accident |
| `IpcSystem.System.Send` | android/linux/ipc/client/ipc_client.c:249-262 | a new call with an array of its own has sent its message, and nothing else has changed |
| `IpcSystem.System.Register` | android/linux/ipc/client/ipc_client.c:268-279 | the node of a call that has sent its message is in the list, and nothing else has changed |
| `IpcSystem.System.Serve` | android/linux/ipc/server/ipc_server.c:112-127 | the server has taken the message and reacted, and nothing else has changed |
| `IpcSystem.System.Deliver` | android/linux/ipc/client/ipc_client.c:99-124 | the client has taken the response, and only the node on which its search ends, the list and callback_node have changed |
| `IpcSystem.System.Return` | android/linux/ipc/client/ipc_client.c:297-311 | only the caller's outputs have changed |
| `IpcSystem.System.Execute` | android/linux/ipc/client/ipc_client.c:99-311 | any run of the protocol, its responses finding their calls or not, is taken by the code, step by step, on its lists and arrays, and ends in the same state |
| `IpcSystem.RunSystem` | android/linux/ipc/client/ipc_client.c:99-311 | the same from the start of both processes |
| `IpcSystem.LegalRunsArePossible` | android/linux/ipc/client/ipc_client.c:99-311 | every legal run from the start is such a run |
| `Dram.Device.Llseek` | linux/tools/Access_Physical_Memory/dram.c:103-117 | moves to the target if it lies in the device or at its end, and otherwise fails and moves nowhere |
| `Dram.ThreeWays` | linux/tools/Access_Physical_Memory/dram.c:106-112 | every place is reached from the start, from where the device is and from its end, and in two moves; an unknown base reaches none |
| `Dram.Device.Read` | linux/tools/Access_Physical_Memory/dram.c:61-101 | the next bytes up to the count and the end of the page; none exactly at the end of the device; the position advances by as many |
| `FileView.TurnStaysInBounds` | linux/tools/Access_Physical_Memory/fileview.cpp:108-282 | every key keeps the position aligned and in bounds, and the page increment in use 2^(8+4k) with k up to 7 |
| `FileView.StaysInBounds` | linux/tools/Access_Physical_Memory/fileview.cpp:108-282 | so does every sequence of keys |
| `FileView.ShiftsStayIncrements` | linux/tools/Access_Physical_Memory/fileview.cpp:113-116 | shifting an increment in use never makes it zero, so the wrap from least to greatest is never taken |
| `FileView.LastWindow` | linux/tools/Access_Physical_Memory/fileview.cpp:76-77 | the last window is the first aligned one that reaches the end of the file |
| `FileView.SeekShows` | linux/tools/Access_Physical_Memory/fileview.cpp:236-281 | seeking to any offset of the file brings it into the window; seeking elsewhere goes to an end |
| `FileView.PageThereAndBack` | linux/tools/Access_Physical_Memory/fileview.cpp:222-223 | a page forward and back returns to the same window if and only if the page forward was within bounds, or the window was the first |
| `FileView.KeysScalePages` | linux/tools/Access_Physical_Memory/fileview.cpp:113-116 | KB_LEFT makes the page increment in use sixteen times as big and KB_RGHT sixteen times as small, within 0x100 and 0x1000000000; no other key changes it |
| `FileView.KeysMove` | linux/tools/Access_Physical_Memory/fileview.cpp:211-281 | where every key takes the window, in plain positions: an end, sixteen bytes or a page up or down but not beyond the ends, the line of an address, or nowhere |
| `FileView.KeysSet` | linux/tools/Access_Physical_Memory/fileview.cpp:229-270 | KB_QUIT and no other key ends the loop, and only the format keys set the format |
| `FileView.Repeated` | linux/tools/Access_Physical_Memory/fileview.cpp:217-223 | n times the same of line down, line up, page down and page up: n strides, or the end in that direction |
| `FileView.LeftThenPageDown` | linux/tools/Access_Physical_Memory/fileview.cpp:221-227 | two runs from the first view: KB_LEFT and page down reach 0x1000, and with KB_RGHT in between 0x100 |
| `FileView.WindowInSlices` | linux/tools/Access_Physical_Memory/fileview.cpp:109-131 | the window is the slice of the file from the position on, and bytes 0xFF up to 256 |
| `FileView.Fill` | linux/tools/Access_Physical_Memory/fileview.cpp:110-131 | erasing, seeking and the fill loop leave exactly the min(256, size - position) bytes of the device and 0xFF behind them, in at most two reads, and end |
| `FileView.WindowsAreFull` | linux/tools/Access_Physical_Memory/fileview.cpp:76-131 | on the memory device every window the viewer can reach is full |
| `FileView.Press` | linux/tools/Access_Physical_Memory/fileview.cpp:113-281 | one turn of the main loop |
| `FileView.Session` | linux/tools/Access_Physical_Memory/fileview.cpp:101-282 | the main loop shows the windows of the views that the keys lead through, until the user quits |

## Left out

- Kmp.KmpSearch: the table is as long as `get_next` needs, where c/src/algorithm/kmp.c:27 allocates one `int`; `new` never fails.
- LinuxListSplice.CutPosition: an entry that is on neither list is admitted only where the code itself tests for it, in a list of at most one entry.
- RingBuffer.RingBuf: the mutex is modelled by calls being atomic; `ringbuf_free` and failing allocations are not modelled.
- Utf8Text.Utf8ToUnicode: an endless loop of the source is a result of the model, and reading behind the given bytes is excluded.
- IpcCodec.ConvertData: the buffer is the whole receive buffer; messages whose parameters would lie behind its end are excluded.
- IpcCalls.CopyOutputs: no buffers in the signature, because the copy at android/linux/ipc/client/ipc_client.c:47 reads from the address of the pointer.
- IpcCalls.Client.Receive: no buffers for the same reason; a response whose id no node has is excluded if its search ends on a node with a callback, which has been freed or is freed in the list, or, before any other response, on no node at all.
- IpcCalls.Server.ProcessSyncCommand: no buffers, because the two words it sets would overwrite the pointer of a buffer in the second parameter.
- IpcCalls.Server.Receive: no buffers for the same reason, and no message that ends before its parameters do.
- IpcCalls.Server: the nodes of its two lists are values there, since nothing changes them once they are listed.
- IpcProtocol.PendingIsUnanswered: sockets, threads, locks and the timeout of 100 seconds are steps that interleave; a call that times out is not modelled.
- KeyTracker.Tracker.LongKeyHandle: reports of chords and of long presses carry the number of keys, not the codes printed with it, and a report of a key its count, whatever the text printed for it.
- FileView.Session: drawing, hexadecimal formatting and decoding of key codes; each key arrives decoded, and typing an address is one key.
- Dram.Device: mapping a page and copying to the user always succeed.
- The unsolicited callbacks of the IPC client and `ipc_server_respond_async_call`: the code that would use them is compiled out (android/linux/ipc/server/ipc_server_command.c:36-40).
- The callback list of the IPC client is a sequence of nodes there; its link fields are those of `LinuxList`.
- `IPC_PARAM_TYPES` and its shorter forms: the type word is any 32-bit word instead (their fourth to sixth types share a shift).
- c/src/algorithm/sunday.c, c/src/algorithm/sunday.cpp and android/linux/ipc/server/ipc_server_internal.c, which repeat modelled code.
- c/src/grammar, c/src/AMRduration.c, c/src/BytePro.c, c/src/char.c, the Fibonacci and sorting examples: they would only add easy members.
- Hardware information, netlink, memory mapping, message queues, semaphores, threads, drivers, audio and the Python files: calls into the system with little logic of their own.
