# Storage and transfer programs of m3sec: a Dafny model

The project models the parts of the repository that hold real loops, codecs and
state machines, and proves what they promise:

- the **inventory store** (`Bytes`, `LineParser`, `InventoryCodec`, `InventoryStore`,
  `InventoryLoad`, `InventoryRead`, `InventoryEndToEnd`, with `DbCalls` for calls that throw): lines of `#`-separated
  fields are parsed in place, marshalled into a 500-byte buffer, put into a B-tree
  with an associated index on the item name, and shown again by a scan or by a
  lookup through the index. The main result is that a lookup after a load shows
  exactly the records with that name among the last lines of each SKU, each once,
  in SKU order (`InventoryEndToEnd.LookupAfterLoad`, and in the fields of the file
  alone `LookupOfRows`);
- the **triple columns** (`TripleJoin`, `TripleMenu`, `MenuKeys`): a nested-loop join that
  fills three vectors, and a menu program that zips three cursors, both relied on
  by code that indexes one vector by the length of another. What the menu leaves
  behind is stated in the keys alone (`MenuKeys.RunProgram`);
- the **stream and concurrency code** (`EchoClient`, `BulkTransfer`,
  `ConnectionLock`): partial sends and receives, chunked file transfer, and the
  one-permit semaphore around every client operation, for any chunk sizes,
  failures and interleavings;
- the **path check** (`PathGuard`): the scanner that stops at the third slash and
  the translation it is applied to.

`dafny verify dfyconfig.toml` checks the whole project.

## Assumptions

- `sizeof(double)` and `sizeof(long)` are 8. A price is its eight bytes. A quantity is a 64-bit two's complement number, least significant byte first; `size_t` is 64 bits wide.
- Berkeley DB orders keys bytewise, a proper prefix first, and the duplicates of one index key by primary key. The index callback's refusal leaves the record unindexed, as the comment beside it says; no record the loader writes is refused.
- Any database call of the load, read and menu programs may throw at any time. A call that throws leaves the stored data as they were. Vector growth does not throw.
- `memcpy`, `memset`, `strlen`, `strcat`, `std::string`, `fread`, `rx_Read`, `send` and the like are modelled by what they do to the program's own data. Where a write would leave a buffer the model stops with `false` or `Overrun` instead.
- `strtod` and `strtol` are parameters, applied to the field as a C string.
- In the menu program `set_flags` throws once a handle was opened or closed, and a put or a cursor throws unless its handle is open. `close` releases an unopened handle as well as an open one and throws on one closed before; a handle stays closed after `close` whether or not that throws.
- Remote calls of the client return, with success or failure. That includes those made on the null connection that `getconnection` gives after a `sem_wait` that failed for another reason than interruption, which no caller tests for: `OneExactlyWithoutFailedPosts` and `FailedWaitAdmitsTwo` speak of runs in which such a call comes back and the operation goes on to `relconnection`. What rx does with a null connection is not part of this model.
- Streams deliver in order. The echo peer returns what it got. An rx stream that broke off early ends in an error, not in a clean end.

The comment above `bulk_ReceiveFile` speaks of copying "the appropriate number of
bytes". The code reads the length word and does not use it; the model follows the
code and copies until the stream ends.

Four natural claims do not hold of the code as it stands. Each has its exact condition:

- a record comes back from its bytes exactly when no string in it holds a NUL (`RoundTripIff`);
- the columns of the join line up exactly when every triple's ids are pairwise distinct (`AlignedIffDistinct`), and each directory receives its own triple's object exactly when, up to the last triple whose predicate is not its subject, every triple reaches both roles or neither (`PairsOwnIff`); a triple that reaches the object role alone silently puts its object into a later triple's directory (`CoincidingIdsMispair`);
- equal lengths do not make the rows of the menu program right: a print shows inserted triples only exactly when the blocks that the loads left in the three tables match (`PrintGenuineIff`, `VectorsGenuineIff`);
- permits plus owners is one exactly as long as no operation whose `sem_wait` failed for another reason than interruption has reached its `relconnection` (`OneExactlyWithoutFailedPosts`, with `FailedWaitAdmitsTwo` for a run that ends with two threads inside).

## Model

| member | source | states |
|---|---|---|
| LineParser.GetNextPound | src/berkeley/examples/triple_db/excxx_example_database_load.cpp:123-130 | When there is a `#`, the string was the delivered part, which has none, a `#` and what is left; when there is none, the wrapped position leaves the string as it was and delivers all of it |
| LineParser.CallYieldsField | src/berkeley/examples/triple_db/excxx_example_database_load.cpp:157-173 | For every line, call number i of successive calls delivers element min(i, n-1) of the n-way split on `#` |
| LineParser.JoinInvertsSplit | src/berkeley/examples/triple_db/excxx_example_database_load.cpp:121-130 | The split is the delimiter-free list of fields that joins back to the line |
| LineParser.SplitInvertsJoin | src/berkeley/examples/triple_db/excxx_example_database_load.cpp:121-130 | Any list of delimiter-free fields is recovered from its join |
| LineParser.FieldsRecovered | src/berkeley/examples/triple_db/excxx_example_database_load.cpp:155-171 | Six fields joined by `#` come back from the six calls; further fields are ignored |
| LineParser.ShortLineRepeats | src/berkeley/examples/triple_db/excxx_example_database_load.cpp:123-130 | A line with fewer fields repeats its last field in every remaining position |
| InventoryCodec.InventoryData.PackString | src/berkeley/examples/triple_db/gettingStartedCommon.hpp:129-135 | Appends the string and its terminator at the cursor, exactly when both fit the array, and leaves what was written and the zeros after it |
| InventoryCodec.InventoryData.GetBuffer | src/berkeley/examples/triple_db/gettingStartedCommon.hpp:78-104 | Every write stays inside the 500 bytes exactly when 16 plus the four lengths plus four is at most 500; then the buffer is the encoded record, the cursor its size, and the rest zero |
| InventoryCodec.InventoryData.FromBuffer | src/berkeley/examples/triple_db/gettingStartedCommon.hpp:50-71 | Sets the six fields to the decoded record and the cursor to the end of what was read |
| InventoryCodec.LongRoundTrip | src/berkeley/examples/triple_db/gettingStartedCommon.hpp:57-58 | A quantity read from its eight bytes is the quantity written |
| InventoryCodec.LongLayout | src/berkeley/examples/triple_db/gettingStartedCommon.hpp:92-94 | The eight bytes weighted 1, 256, 65536 and so on sum to the quantity, or to the quantity plus 2^64 when it is negative |
| InventoryCodec.EncodedLayout | src/berkeley/examples/triple_db/gettingStartedCommon.hpp:78-104 | The stored bytes are the price in bytes 0 to 7, the quantity in bytes 8 to 15, then name, SKU, category and vendor in this order, each with its terminator, and nothing else |
| InventoryCodec.DecodedLayout | src/berkeley/examples/triple_db/gettingStartedCommon.hpp:50-71 | From any buffer, the constructor reads the price from bytes 0 to 7, the quantity from bytes 8 to 15 and then name, SKU, category and vendor, each up to the next NUL |
| InventoryCodec.DecodesWithTail | src/berkeley/examples/triple_db/gettingStartedCommon.hpp:50-104 | The encoding is self-delimiting: followed by any bytes, a NUL-free record decodes to itself and reading ends at those bytes |
| InventoryCodec.RoundTripIff | src/berkeley/examples/triple_db/gettingStartedCommon.hpp:50-104 | Unmarshalling restores all six fields and the cursor exactly when no string holds a NUL |
| InventoryCodec.EncodingIsPrefixFree | src/berkeley/examples/triple_db/gettingStartedCommon.hpp:78-104 | Encodings are injective and none is a proper prefix of another |
| InventoryCodec.EncodedIsDecodable | src/berkeley/examples/triple_db/gettingStartedCommon.hpp:50-71 | Reading an encoded record back never leaves its bytes, whatever its strings hold |
| InventoryCodec.ItemNameIsDecodedName | src/berkeley/examples/triple_db/gettingStartedCommon.hpp:166-197 | The key read at the fixed offset is the name unmarshalling gives, terminator included |
| InventoryCodec.ItemNameLayout | src/berkeley/examples/triple_db/gettingStartedCommon.hpp:166-197 | For any stored bytes, the callback refuses exactly when there are fewer than 16; otherwise its key is what stands from byte 16 up to and including the first NUL |
| InventoryCodec.ItemNameOfEncoded | src/berkeley/examples/triple_db/gettingStartedCommon.hpp:166-197 | The callback stays inside the bytes of any encoded record, and its key is the record's own name exactly when that holds no NUL |
| InventoryStore.IndexAfterPut | src/berkeley/examples/triple_db/excxx_example_database_load.cpp:95-99 | Storing under a key changes the index that the callback defines by that key's entries only, also when the name changes |
| InventoryStore.InIndex | src/berkeley/examples/triple_db/excxx_example_database_load.cpp:95-99 | The index of a store has an entry exactly for each stored key whose record the callback accepts, under the name it gives |
| InventoryStore.InventoryDb.Put | src/berkeley/examples/triple_db/excxx_example_database_load.cpp:175-183 | Every put keeps the index equal to the (name, key) pairs of what is stored: none stale, none missing |
| Bytes.TerminatorKeepsOrder | src/berkeley/examples/triple_db/excxx_example_database_load.cpp:175-177 | Keys stored with their terminator sort as the SKUs do |
| Bytes.LessIsFirstDifference | src/berkeley/examples/triple_db/excxx_example_database_read.cpp:173 | The key order is bytewise: one string is before another exactly when, after some common prefix, it ends or has the smaller byte |
| InventoryLoad.InputFile.GetLine | src/berkeley/examples/triple_db/excxx_example_database_load.cpp:148-152 | Successive reads deliver the newline split of the file, and the end is seen with its last part |
| InventoryLoad.ParseInto | src/berkeley/examples/triple_db/excxx_example_database_load.cpp:154-171 | Six calls of `getNextPound` and six setters leave the record that `ParsedFields` spells out |
| InventoryLoad.ParsedFields | src/berkeley/examples/triple_db/excxx_example_database_load.cpp:154-171 | For any number of fields joined by `#`: the first is the name, the second the SKU, the third and fourth go to `strtod` and `strtol` with their terminator, the fifth is the category, the sixth the vendor; a missing field is the last one again |
| InventoryLoad.LoadedRow | src/berkeley/examples/triple_db/excxx_example_database_load.cpp:154-183 | Loading one such line of at least six fields into any store fits exactly when the four strings and 20 bytes are at most 500; then it stores the record with the fields in those places under the second field and its terminator, and changes nothing else |
| InventoryLoad.LoadInventoryDB | src/berkeley/examples/triple_db/excxx_example_database_load.cpp:132-190 | From any store, whatever the file and whichever puts throw, the store is the fold of the first lines: of all of them, of those before a record that does not fit, or of those before the put that threw; nothing is stored if the file cannot be opened; the index stays right |
| InventoryLoad.LoadsIffAllFit | src/berkeley/examples/triple_db/excxx_example_database_load.cpp:148-186 | A load completes exactly when every record fits its buffer |
| InventoryLoad.LastWriterWins | src/berkeley/examples/triple_db/excxx_example_database_load.cpp:148-186 | The last line with a SKU decides what is stored under it, from any store |
| InventoryLoad.LoadedExactly | src/berkeley/examples/triple_db/excxx_example_database_load.cpp:148-186 | From an empty store, a key is stored exactly when some line writes it, and holds its last line's record |
| InventoryRead.ShowAllRecords | src/berkeley/examples/triple_db/excxx_example_database_read.cpp:161-191 | The cursor loop shows every stored record once, in key order; if a call throws, vendor lookups included, it has shown a first part of them |
| InventoryRead.ShowItem | src/berkeley/examples/triple_db/excxx_example_database_read.cpp:113-155 | The walk over the index duplicates shows what filtering the full scan by that name would, in the same order; if a call throws, vendor lookups included, a first part of it |
| InventoryRead.LookupIsFilteredScan | src/berkeley/examples/triple_db/excxx_example_database_read.cpp:113-155 | For every store with a right index, the records under a name's duplicates are the scan's records with that name |
| InventoryEndToEnd.ScanIncreases | src/berkeley/examples/triple_db/excxx_example_database_read.cpp:161-191 | After a load of lines whose records are NUL-free and fit, of any two records the scan shows the SKU of the earlier is the smaller: it ends at, or has the smaller byte in, the first place where they differ |
| InventoryEndToEnd.ScanShowsLastWriters | src/berkeley/examples/triple_db/excxx_example_database_read.cpp:161-191 | The scan shows a record exactly when the last line of its SKU stands for it |
| InventoryEndToEnd.LookupAfterLoad | src/berkeley/examples/triple_db/excxx_example_database_read.cpp:113-155 | For any file whose records are NUL-free and fit: parse, marshal, index, look up and unmarshal together are the plain filter over the loaded lines, once each, in SKU order |
| InventoryEndToEnd.LookupIncreases | src/berkeley/examples/triple_db/excxx_example_database_read.cpp:113-155 | That order for any two records shown, by the first byte in which their SKUs differ |
| InventoryEndToEnd.LookupOfRows | src/berkeley/examples/triple_db/excxx_example_database_read.cpp:113-155 | The same in terms of the fields written to the file: what is shown are the records of the rows with that name in the first field whose SKU in the second no later row has, with every field in its place; empty lines are passed over |
| InventoryEndToEnd.LookupOfOneLine | src/berkeley/examples/triple_db/excxx_example_database_read.cpp:113-155 | For a file of one line of six fields, looking up its first field shows exactly the record of the six, and looking up another name shows nothing |
| InventoryEndToEnd.LoadThenShow | src/berkeley/examples/triple_db/excxx_example_database_read.cpp:113-155 | The load program and then the lookup, starting from an empty database, show that sequence if no call throws |
| InventoryEndToEnd.NulFreeText | src/berkeley/examples/triple_db/excxx_example_database_load.cpp:152-171 | A file without NUL is such a file, as far as NULs go |
| TripleJoin.DB.GetAllTriplesText | src/sib_fs_mapping/sqlite/db.cpp:69-94 | For any tables, each column grows by what `ChainAdds` and `TextsMeaning` spell out for every triple in turn |
| TripleJoin.ChainAdds | src/sib_fs_mapping/sqlite/db.cpp:78-91 | For any tables, one more triple adds the texts of its subject to S; of its predicate to P unless that is its subject; of its object to O unless that is its subject or predicate |
| TripleJoin.TextsMeaning | src/sib_fs_mapping/sqlite/db.cpp:81-90 | For any node table, an id has one text for each node with that id, in table order |
| TripleJoin.PredicateBeforeObject | src/sib_fs_mapping/sqlite/db.cpp:85-90 | For any tables, when predicate and object are one id other than the subject's, its texts go to P, after those of the earlier triples, and not to O |
| TripleJoin.ColumnLengths | src/sib_fs_mapping/sqlite/db.cpp:78-91 | With unique and complete node ids S has as many entries as there are triples, P as many as have p other than s, O as many as have o other than both |
| TripleJoin.AlignedIffDistinct | src/sib_fs_mapping/sqlite/db.cpp:78-91 | The three columns have equal length exactly when every triple has pairwise distinct ids |
| TripleJoin.ColumnsAreTexts | src/sib_fs_mapping/sqlite/db.cpp:78-91 | Then position i of S, P and O is the text of the node with triple i's s, p and o |
| TripleJoin.ColumnsIgnoreOrder | src/sib_fs_mapping/sqlite/db.cpp:81-90 | With unique ids the columns do not depend on the order of the node table |
| TripleJoin.EntryIsText | src/sib_fs_mapping/sqlite/db.cpp:78-91 | With unique and complete node ids, the text of a triple's s is in S at the triple's position; that of its p, if other than s, in P after as many entries as earlier triples have p other than s; that of its o, if other than both, in O likewise |
| TripleJoin.AttachObjects | src/sib_fs_mapping/sqlite/main.cpp:49-74 | `O.at(i)` throws exactly when there are fewer objects than predicates; otherwise directory i gets object i |
| TripleJoin.Mount | src/sib_fs_mapping/sqlite/main.cpp:27-74 | For any tables, the files are the objects attached to the predicates of the joined columns |
| TripleJoin.InRangeIff | src/sib_fs_mapping/sqlite/main.cpp:66-74 | With unique and complete node ids, every `O.at(i)` is in range exactly when at least as many triples have o other than s and p as have p other than s |
| TripleJoin.DistinctMountsAll | src/sib_fs_mapping/sqlite/main.cpp:66-74 | Pairwise distinct ids put every `O.at(i)` in range and make one file for each triple |
| TripleJoin.PairsOwnIff | src/sib_fs_mapping/sqlite/main.cpp:66-74 | Each directory receives its own triple's object exactly when, up to the last triple whose predicate is not its subject, every triple reaches both roles or neither |
| TripleJoin.MountedPairs | src/sib_fs_mapping/sqlite/main.cpp:66-74 | Then no index is out of range and the directory named by a triple's predicate holds the file named by its object |
| TripleJoin.CoincidingIdsMispair | src/sib_fs_mapping/sqlite/main.cpp:66-74 | For any tables, the first triple whose predicate is its subject but whose object is not, if a later triple has a directory, has its object put into the directory of a later triple |
| TripleMenu.Program.CreateDb | src/sib_fs_mapping/berkeley/bdb_vfs/src/bdb_vfs.cpp:66-96 | A create leaves a first part of the three tables open and empty, none when any handle was used before, and touches no other; it returns 0 exactly when no call threw and no handle was used, and then it opened all three |
| TripleMenu.Program.InsertDbData | src/sib_fs_mapping/berkeley/bdb_vfs/src/bdb_vfs.cpp:125-191 | A load appends I, Kirill, Katya to the first table, am, has, sister of to the second and Kirill., a sister., Kirill to the third, up to the put that threw; it returns 0 exactly when it stored all nine, that is when no call threw and all handles are open |
| TripleMenu.Program.PrintDbData | src/sib_fs_mapping/berkeley/bdb_vfs/src/bdb_vfs.cpp:194-235 | A print appends the same number of first rows of the three tables to the three vectors; it returns 0 exactly when no call threw and all handles are open, and then it appended up to the shortest table |
| TripleMenu.Program.CloseDb | src/sib_fs_mapping/berkeley/bdb_vfs/src/bdb_vfs.cpp:98-123 | Closes a first part of the handles, touches no other and leaves the vectors; it returns 0 exactly when no call threw and no handle was closed before, and then it closed all |
| TripleMenu.Program.CreateDbVfs | src/sib_fs_mapping/berkeley/bdb_vfs/src/bdb_vfs.cpp:265-307 | `obj_vector.at(i)` stays in range exactly when there are as many objects as predicates; then directory i gets object i |
| TripleMenu.Program.Menu | src/sib_fs_mapping/berkeley/bdb_vfs/src/bdb_vfs.cpp:310-348 | For any keys entered and any calls that throw, no index is ever out of range, and the states form a run with one event for each key: create for 1, load for 2, print for 3, close for 4 and 5, nothing for others, each completed if no call threw |
| MenuKeys.RunProgram | src/sib_fs_mapping/berkeley/bdb_vfs/src/bdb_vfs.cpp:310-348 | From the start, for every list of keys, if no call throws: the vectors hold the three inserted triples in order, once for every pair of a 2 and a later 3 between the first 1 and the next 4 or 5; the tables are unopened, or hold them once for every 2 since the first 1, or are closed after the 4 or 5; without a 1 before the first 4 or 5 nothing is ever stored or shown |
| TripleMenu.NothingAfterClose | src/sib_fs_mapping/berkeley/bdb_vfs/src/bdb_vfs.cpp:98-123 | In every run, whatever throws, after a close of the three handles they stay closed and the vectors stay as they are |
| TripleMenu.NothingBeforeCreate | src/sib_fs_mapping/berkeley/bdb_vfs/src/bdb_vfs.cpp:66-96 | In every run, whatever throws, until a create has opened all three tables the vectors are empty and the objects are not open |
| TripleMenu.MenuInvariant | src/sib_fs_mapping/berkeley/bdb_vfs/src/bdb_vfs.cpp:310-345 | In every reachable state the vectors have equal length and subjects >= predicates >= objects |
| TripleMenu.PrintShowsEveryObject | src/sib_fs_mapping/berkeley/bdb_vfs/src/bdb_vfs.cpp:205-217 | In every run, a print that does not throw appends every object row |
| TripleMenu.PrintGenuineIff | src/sib_fs_mapping/berkeley/bdb_vfs/src/bdb_vfs.cpp:166-217 | In every run, aborted loads and prints included, the rows a print appends are all inserted triples exactly when the objects' blocks, cut to those rows, match the subjects' and the predicates' |
| TripleMenu.WholePrintGenuineIff | src/sib_fs_mapping/berkeley/bdb_vfs/src/bdb_vfs.cpp:205-217 | For a print that does not throw: exactly when every object block before the last equals the subject and the predicate block at its position and the last is no longer than they are |
| TripleMenu.VectorsGenuineIff | src/sib_fs_mapping/berkeley/bdb_vfs/src/bdb_vfs.cpp:205-217 | In every reachable state, all rows of the vectors are inserted triples exactly when every print so far matched |
| TripleMenu.PrefixIffMatch | src/sib_fs_mapping/berkeley/bdb_vfs/src/bdb_vfs.cpp:166-176 | Tables built from blocks agree as far as the shorter goes exactly when their blocks match |
| TripleMenu.RowsAreGenuine | src/sib_fs_mapping/berkeley/bdb_vfs/src/bdb_vfs.cpp:166-217 | A corollary: if loads stop only between tables, each row of the vectors is one of the inserted triples |
| TripleMenu.AbortMispairsIff | src/sib_fs_mapping/berkeley/bdb_vfs/src/bdb_vfs.cpp:166-217 | A corollary: after one load that stopped early and one whole load, the printed rows are all inserted triples exactly when the first stopped between tables |
| EchoClient.ReadInput | src/hip/tests_old/hip_example.c:115-122 | The buffer holds the input up to its capacity and zeros after it; one more character is read when the input is longer |
| EchoClient.Exchange | src/hip/tests_old/hip_example.c:141-161 | At every exit the received bytes are a prefix of the sent ones, these are the first of the input, and the buffer holds the received bytes and zeros; the loop ends; it gives up exactly when a socket call failed; it waits for bytes nobody owes only if a send transferred nothing |
| EchoClient.Transfer | src/hip/tests_old/hip_example.c:141-167 | The comparison of the whole buffers never fails; without failed calls and empty sends the transfer succeeds with both buffers equal |
| BulkTransfer.XdrRoundTrip | src/fuse/examples/l-fuse/bulk_io.c:19-20 | The four bytes of section 4.1 of RFC 4506 give back the number |
| BulkTransfer.XdrLayout | src/fuse/examples/l-fuse/bulk_io.c:16-20 | The four bytes are the two's complement number, most significant first, as section 4.1 of RFC 4506 has it; the word 1024 is 0, 0, 4, 0 |
| BulkTransfer.SendFile | src/fuse/examples/l-fuse/bulk_io.c:8-50 | The call has accepted a prefix of the length word and the file; the result is zero exactly when neither the call nor the file shows an error, and then it accepted all of both; the loop ends |
| BulkTransfer.ReceiveFile | src/fuse/examples/l-fuse/bulk_io.c:53-85 | The file has gained a prefix of what follows the word; the result is zero exactly when a word arrived, the call shows no error and no write fell short, and then the whole stream after it was copied |
| BulkTransfer.Transfer | src/fuse/examples/l-fuse/bulk_io.c:8-85 | For any chunks and failures the receiver's output is a prefix of the sender's file, and equals it when both return zero |
| ConnectionLock.GetAttrPaths | src/fuse/examples/l-fuse/afsfuse_client.c:43-83 | The ways through `xmp_getattr` are exactly four: success, and a failure to issue, to read the length or to read the data, each with its `rx_EndCall` and its relconnection |
| ConnectionLock.WritePaths | src/fuse/examples/l-fuse/afsfuse_client.c:207-258 | The ways through `xmp_write` are exactly five: success, and a failure to issue, to send the length or to send the data, which skip `rx_EndCall`, and a failing `rx_EndCall` |
| ConnectionLock.ReadPaths | src/fuse/examples/l-fuse/afsfuse_client.c:151-206 | The ways through `xmp_read` are exactly: a failure to issue, a failure to read the length, and one or more chunks followed by `rx_EndCall` and relconnection |
| ConnectionLock.GetDirPaths | src/fuse/examples/l-fuse/afsfuse_client.c:86-115 | The ways through `xmp_getdir` are exactly: a failed call, and one or more entries followed by relconnection |
| ConnectionLock.OneCallPaths | src/fuse/examples/l-fuse/afsfuse_client.c:117-418 | Every other operation acquires, makes its call, releases and returns |
| ConnectionLock.ReleasesOnce | src/fuse/examples/l-fuse/afsfuse_client.c:43-418 | Every path of every operation enters once and releases once if it returns, error paths included, and never before |
| ConnectionLock.RunsFollowPaths | src/fuse/examples/l-fuse/afsfuse_client.c:43-418 | In every interleaving, a thread carries out the operation it last began: the labels it has had since then, interrupted waits left out, are a path of that operation up to where it stands, with one release if it is there or beyond and none before |
| ConnectionLock.PostsOnce | src/fuse/examples/l-fuse/afsfuse_client.c:26-28 | In every interleaving, since a thread's last begin it has posted exactly once if it has returned and not at all otherwise |
| ConnectionLock.BetweenBegins | src/fuse/examples/l-fuse/afsfuse_client.c:26-28 | In every interleaving, between two begins of a thread there is exactly one post of it |
| ConnectionLock.PermitsConserved | src/fuse/examples/l-fuse/afsfuse_client.c:19-28 | In every state of every interleaving, permits plus owners is one plus the posts of threads that owned nothing |
| ConnectionLock.OnePermitOrOneInside | src/fuse/examples/l-fuse/afsfuse_client.c:19-28 | While `sem_wait` fails by interruption only, permits plus owners is one, and the owners are exactly the threads between acquire and release |
| ConnectionLock.MutualExclusion | src/fuse/examples/l-fuse/afsfuse_client.c:19-28 | So at most one thread is between acquire and release, and no permit is free then |
| ConnectionLock.BareIffFailed | src/fuse/examples/l-fuse/afsfuse_client.c:20-28 | In every run, a thread is inside without a permit exactly when its last wait failed for another reason than interruption and it has only advanced since |
| ConnectionLock.OneExactlyWithoutFailedPosts | src/fuse/examples/l-fuse/afsfuse_client.c:20-28 | In every run, permits plus owners is one exactly as long as no operation that began with such a failed wait has posted |
| ConnectionLock.FailedWaitAdmitsTwo | src/fuse/examples/l-fuse/afsfuse_client.c:20-28 | A run with one failed wait, whose remote call returns, ends with two threads owning the connection |
| ConnectionLock.SomeThreadCanMove | src/fuse/examples/l-fuse/afsfuse_client.c:43-418 | In every reachable state with an operation pending, some thread can take a step that brings its operation nearer its return |
| PathGuard.IsAllowedPath | src/fuse/examples/l-fuse/afsfuse_server.c:49-85 | Accepts exactly when every character before the third slash, or every character if there are fewer, is allowed, as `RuleMeaning` spells out; the count at the loop head stays below three |
| PathGuard.RuleMeaning | src/fuse/examples/l-fuse/afsfuse_server.c:56-75 | The rule up to the k-th slash holds exactly when each character with fewer than k slash positions up to its own is one of the fourteen in the switch |
| PathGuard.TranslatePath | src/fuse/examples/l-fuse/afsfuse_server.c:89-93 | Fits exactly when the path is shorter than 508; then the buffer holds `/afs` and the path |
| PathGuard.TranslatedRule | src/fuse/examples/l-fuse/afsfuse_server.c:49-93 | The rule on the translated path is the rule on the caller's path up to its second slash |
| PathGuard.CheckRequest | src/fuse/examples/l-fuse/afsfuse_server.c:103-109 | The attribute request goes on exactly when the path is shorter than 508 and each of its characters with fewer than two slash positions up to its own is one of the fourteen |

## Left out

- InventoryRead.ShowItem: takes the item name as shorter than 2^32 - 1 bytes, the width of a `Dbt` size; what a vendor lookup finds and prints is not modelled, only that it may throw.
- InventoryRead.ShowAllRecords: what a vendor lookup finds and prints is not modelled, only that it may throw.
- EchoClient.Exchange: models the TCP case; over UDP datagrams may be lost or reordered and nothing of this is promised.
- TripleMenu.Program.Menu: does not model `cin` in a failed state or the FUSE daemon that `createDbVfs` starts.
- ConnectionLock.SomeThreadCanMove: says that a step exists, not that the scheduler takes it.
- PathGuard.TranslatePath: takes the buffer as zeroed, as every caller declares it.
- Vendors (`loadVendorDB`, `show_vendor`), which rest on `sscanf` field widths and structure layout.
- The data paths of `xmp_read`, `xmp_getdir` and `rxc_rxc_read`; only their acquire and release steps are modelled.
- The internals of Berkeley DB, SQLite, FUSE, fusekit, rx and HIP, and the fusekit directory tree.
- The file contents served by `test_fs.c`: reading constant strings at an offset would only add easy members.
- Endpoint setup, command lines, console output and exception messages.
