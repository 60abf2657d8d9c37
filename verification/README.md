# A verified model of the file-transfer server and its client

The C server keeps its users in memory and, after every change, rewrites two files under
`<home>/.cape`; it authenticates each request, checks a session id, performs one action on a file tree
confined to a home directory, and answers over a hand-packed wire format that a Python client also packs
and unpacks. This project models those four parts in Dafny and proves what they keep over every run.

`dafny verify dfyconfig.toml` checks everything.

## How the model is laid out

| file | what it holds |
|---|---|
| `Bytes`, `Utf8`, `ByteOrder`, `Codes` | bytes, C strings, decimal text, UTF-8, the 64-bit swap, the constants |
| `Hex`, `Crypto` | the hexadecimal codec and the comparison loops; SHA-256 is any function to 32 bytes |
| `Accounts` | the record format of the user table: printer, scanner, parsing loop, buffer budget |
| `Reload` | what the parsing loop makes of any printed table, whatever the names in it |
| `Paths`, `FileTree` | path text, `realpath` as a walk over a tree, the two resolvers, PUT, MKDIR, DELETE, GET |
| `DotDot` | where `..` in a path leads |
| `Listing` | the directory listing as the server prints it and the client reads it |
| `FileApi` | `server_file_api.c` as methods of a class whose tree changes in place |
| `Screen` | what the client shows of a directory, against the nodes of the tree |
| `Store`, `Database` | the two database files as a function of the table; `server_db.c` as a class that writes and reads them |
| `Protocol` | the server as a state machine: one relation `Next` over (users, sessions, tree), and its invariant |
| `Control`, `ServerSock`, `Server` | `server_ctrl.c` and `server_sock.c` as methods, each proved to be one step of `Protocol` |
| `Runs` | theorems about every run |
| `Answers` | the code and the effect of every request, in terms of the users and the tree |
| `NextStart` | what the next start of the server makes of a name with `:`, and of a database file that was overwritten |
| `Streams`, `Requests`, `Responses` | sockets with arbitrary fragmentation, both packet formats, both languages |
| `EndToEnd` | PUT then GET, and LS, from client to client through both wires |

Imperative code is a method proved against a function (or, where the source leaves a choice, a relation);
the theorems are about those functions and relations. What the source leaves open is open in the model:
the iteration order of the hash table (which may differ between the two passes of `db_update_db`), the
order of `readdir`, the numbers `rand` draws, how bytes are split, what part of a `write` is taken.

The theorems about runs are not about nothing: `Runs.FirstStart` gives the invariant wherever the server is
first started; `Server.ServeClient` ends, with a step of `Next` done, in every well-formed state whatever the
disk holds, as long as a session id is free and no buffer is overrun; and it leaves a state in which the next
connection can be served.

Where the C code writes past a buffer its behaviour is undefined, and the model has no step. Of the buffers modelled
four can be overrun so, and `Protocol.Overruns` says when: that of `join_paths` by a long path in MKDIR or PUT; that of
`db_update_db` by permissions of more than one digit, which only a reloaded table can have; the raw buffer of
`f_list_dir` and the path buffer of `get_file_size` in LS. For LS there is a step for every order of reading the
directory that stays in both buffers, and `Control.ParseAction` asks that every order does. A fifth write is kept:
`make_byte_array` puts the terminator of an empty text behind the 0 bytes it asked `calloc` for. The GNU C library
hands out at least 24 bytes, and `ServerSock.MakeByteArray` is proved to stay inside those.

## What the code needs and does not check

Where a promise of the code or of its documentation fails, the project proves exactly when it holds:

- A user name with `:` or a newline passes `db_create_user`, but the printed table then does not always
  load back: a name is always reloaded if and only if it has neither (`Accounts.AlwaysReloadsIffClean`).
- Disk and memory stay in agreement through a step if and only if it is not a successful creation of such a
  name, nor a successful DELETE or PUT on one of the two database files (a PUT of an equivalent content excepted)
  (`Protocol.NextKeepsInvIff`). For a name with `:` no start on a tree that holds the new table loads it
  (`NextStart.ColonCreationIsLost`). Nothing in the code stops a user with write permission: DELETE of
  `.cape/.cape.db` succeeds, and the server cannot be started again (`Protocol.DeletedDbIsFatal`). Every other
  request inside `.cape`, and every refused one, is harmless.
- A table is reloaded record by record, for all names (`Reload.LoadIsRead`): a record whose name has a newline is
  read again from behind it, and every record is read on its own, whatever follows it. With a `:` and no newline in
  one name this decides everything (`Reload.ColonNameIsReadAs`, `NextStart.StartsIffTaken`): the server starts if and
  only if the record is read as an account, and that account then stands for the name; else `db_init` refuses, or
  does not end. `abc:` makes it refuse and `ab:3:xy` makes it hang (`NextStart.CreationStopsStart`), and an account
  that may only read can create both (`NextStart.LowestMayCreate`); the server then stays down until the users or the
  files are changed (`NextStart.ServerStaysDown`).
- No privilege grows within one start of the server. Across restarts this holds if every account created is tame,
  that is, if no part of its name that is read as a record gives more than the account has, and the database files are
  left alone (`Runs.NoPrivilegeGrowth`). Without `:` every account is tame, newlines or not
  (`Reload.PlainReadsUpTo`). With `:` and no newline the condition is exact: a permission above all in memory is there
  after the next start if and only if the record is read as one (`Reload.TameIff`, `NextStart.RaisedIffTaken`), as
  `abc:3` of a reader is read as an administrator `abc` (`NextStart.AbcComesBackAsAdmin`). Where the name it is read
  as is a user already, the order of printing decides which of the two is there afterwards, and both can happen
  (`NextStart.OrderDecides`). With both `:` and newline in a name the condition is one way: being tame suffices.
  With both files removed, the next start brings back the default administrator (`Store.InitFresh`).
- The size of the write buffer counts one digit for a permission, so the file has the right length if and
  only if every permission has one digit, and the printing stays in the buffer if and only if there are fewer
  uncounted digits than accounts (`Accounts.WrittenSizeIsExact`). The check in `ctrl_parse_action` that a
  creator grants at most its own permission is what keeps this true while disk and memory agree.
- `join_paths` writes into `PATH_MAX` bytes. `f_path_resolve` checks the length before it calls it,
  `f_valid_resolve` does not: it overruns the buffer exactly outside the lengths of `FileTree.JoinsInBuffer`
  (`FileTree.ValidResolveIsNewPlace`), for instance with 2048 times `./` before a name, under every home
  (`FileTree.UnguardedOverrun`). What is said of PUT and MKDIR is said of the paths that stay in the buffer.
- `get_file_size` reports one digit for every size, and the guard of `f_list_dir` counts neither the other digits nor
  the brackets and the letter of the type. So `sprintf` passes the end of the raw buffer exactly at the lengths of
  `Listing.RawOverrunIff`, for instance with four files of one-digit size whose names have 249 bytes
  (`Listing.FourNamesOverrun`). What is said of LS is said of the orders of reading that stay in the buffers.
- The client packs the number of characters of a text and sends its UTF-8 bytes, so the server recovers a
  request if and only if every text in it is ASCII (`Requests.RequestRoundTrip`).
- The comment of `do_put_file` says an existing file is never replaced. It is replaced if and only if the path is
  too long for the existence test or ends in `/` (`FileTree.PutReplacesIff`). Both occur under every home
  without an overrun: 4096 slashes before the name, and `f/` for an existing `f` (`FileTree.PutReplacesAt`).
- A start accepts nothing that was not signed: the hash file has to be the magic and the digest of the whole database
  file (`Store.InitLoadsIff`). A writer can still replace that file, and then only `db_shutdown`, which writes both
  again, leads to a start (`NextStart.NoStartAfterTampering`, `NextStart.ShutdownRepairs`).
- The two resolvers give different texts for an existing target if and only if it lies directly under `/`
  and passes the home test (`FileTree.ResolversAgree`).
- The home test compares byte prefixes, so it also lets through a sibling of home whose name begins with
  home's name (`Paths.TextPrefixIsContainment`, `Runs.ChangesStayNearHome`).
- The client shows a listing faithfully if and only if no name has `:` or a newline (`Listing.ListingRoundTrip`).
- The client reads back a response if and only if it has no content or non-empty content and code 1
  (`Responses.ResponseRoundTrip`). The server never attaches anything else (`Runs.ReplyContent`), so every reply of
  every run is read back (`Server.EveryReplyIsReadBack`).
- A PUT of an empty file reaches `f_write_file` with a null stream and is answered `OP_FAILURE`
  (`FileTree.PutEffect` with no stream).
- The repository's `README.md` (line 153) gives a test for the optional password that leaves out the length of the user
  name; the code (`src/server/server_sock.c:945-954`) subtracts it, and the model follows the code.
- The same `README.md` (lines 71-72) assigns a session id to a connection until it ends. The table of
  the code maps an id to a time and nothing else, so no ownership is claimed here. A drawn id may be 0.

Preconditions that stay:

- The hexadecimal loop is asked only to read text on which `sscanf` never reports 0 conversions (there the
  source's loop does not advance), and the parser only text on which its segment pointer does not leave the
  buffer: `Decode(..).Stuck?` and `Load(..).Undefined?` are excluded from the methods, and the lemmas show that
  neither arises on a printed table of clean names.
- Some draw of `rand` gives an id not in the table, else `generate_session_id` does not end.
- `recv` and `write` make progress.
- The home directory is a resolved path, short enough that the names under `.cape` fit `PATH_MAX` behind it.
- `PutThenGet` is about a path that ends in a name, has no `..`, no NUL, fits `PATH_MAX` and is not one of the two
  database files, and about a file below 2^63 bytes.

## Model

| member | source | states |
|---|---|---|
| Hex.DecodePrint | src/server/server_crypto.c:199-256 | For every non-empty byte array, `hex_char_to_byte_array` of its `%02x` text is the array |
| Hex.DecodeAnyCase | src/server/server_crypto.c:199-256 | So is that of the text with any of its letters as capitals; an odd length and the empty text give NULL |
| Hex.HexCharToByteArray | src/server/server_crypto.c:199-261 | The two-index loop keeps `str_idx == 2 * barr_idx`, ends, and returns the decoded bytes or NULL, for odd, empty, truncated and mixed-case text alike |
| Crypto.HashCompare | src/server/server_crypto.c:100-110 | True exactly when the first `size` bytes agree |
| Crypto.HashMatch | src/server/server_crypto.c:49-91 | The two comparison functions are true exactly for equal arrays, unequal sizes included |
| ByteOrder.SwapIsItsOwnInverse | src/server/utils.c:47-60 | The 64-bit swap undoes itself on every value |
| ByteOrder.SwapReversesImage | src/server/utils.c:47-60 | The shifts and masks reverse the eight bytes of the memory image of every value |
| ByteOrder.HtonllIsBigEndian | src/server/utils.c:30-33 | What `htonll` leaves in memory is the eight-byte big-endian form of the number, the form `!Q` reads |
| ByteOrder.NtohllReadsBigEndian | src/server/utils.c:42-45 | Eight wire bytes copied into a `uint64_t` and passed through `ntohll` are the number `!Q` packed |
| ByteOrder.FromBeOfBe | src/client/client_sock.py:78-83 | Big-endian unpacking recovers every number that fits its field |
| ByteOrder.BeBytes | src/client/client_sock.py:78-83 | The bytes of the fields of two, four and eight bytes, written out |
| Utf8.LengthIffAscii | src/client/client_classes.py:364-373 | The packed `len` of a text is the number of bytes sent exactly when the text is ASCII |
| Utf8.CharIsDecoded | src/client/client_classes.py:364-373 | Every character is encoded as its code point, in the layout of section 3 of RFC 3629 |
| Accounts.ScanRecordPrinted | src/server/server_db.c:590-607 | On a printed record the scanf format recovers name, permission and hash text whatever follows; the widths 20 and 64 never cut a field |
| Accounts.ScanNumberText | src/server/server_db.c:590-607 | `%hhu` takes blanks, a sign and digits, and gives the number modulo 256, negated after a minus, or 255 past 64 bits |
| Accounts.TurnOnPrinted | src/server/server_db.c:580-645 | One turn of the parsing loop on a printed record counts exactly that record; it also skips exactly that record unless the name has a newline, when the next segment starts inside the name |
| Accounts.ParserAfter | src/server/server_db.c:576-647 | Loop invariant of the parser: after any number of printed records the segment is at `total_read`, and the table is that of the records consumed |
| Accounts.LoadPrinted | src/server/server_db.c:563-653 | Loading the printing of a table, in any iteration order, gives back exactly the table |
| Accounts.LoadedKeys | src/server/server_db.c:563-653 | Loading never drops an earlier account and never yields a name with a colon, for any text |
| Accounts.ColonIsLost | src/server/server_db.c:590-607 | No text whatever loads to a table with a colon in a name |
| Accounts.NewlineIsLost | src/server/server_db.c:640-645 | A table of an account with a newline in its name and one other account does not load back, because the next segment starts inside the name |
| Accounts.AlwaysReloadsIffClean | src/server/server_db.c:263-322 | Among names that pass the length rules, those always reloaded are exactly those without colon and newline |
| Accounts.WrittenSizeIsExact | src/server/server_db.c:455-522 | `char_count - accounts` is the length of magic and records exactly when every permission has one digit; every sprintf stays in the buffer exactly with fewer uncounted digits than accounts |
| Accounts.BudgetOrderIndependent | src/server/server_db.c:455-505 | Two passes over the table in different orders agree on buffer size and number of accounts |
| Accounts.LoadedHashesFit | src/server/server_db.c:563-653 | Whatever text is loaded, no hash is longer than the buffer it will be printed into |
| Reload.TurnIsLocal | src/server/server_db.c:580-645 | For every name, one turn on a printed record reads the same whatever follows it, counts at most the record, and goes on behind the record's first newline |
| Reload.LoadIsRead | src/server/server_db.c:563-653 | For all names, with colons and newlines or not, the parsing loop over the running text is a recursion over the records, each scanned on its own; behind a newline in a name it scans the rest of the name as a record |
| Reload.LoadIsReadAll | src/server/server_db.c:563-653 | Without newlines in names the loop reads every record of the order once, and stops at the first that is no account |
| Reload.LoadedIffAllTaken | src/server/server_db.c:563-653 | Such a text is loaded exactly when every record is read as an account |
| Reload.ColonNameIsReadAs | src/server/server_db.c:563-653 | In every order, the exact outcome of loading a table with one name with a colon: the table with the account its record is read as, or with neither where a later record has that name; refusal; or no end |
| Reload.PlainReadsUpTo | src/server/server_db.c:590-645 | Without a colon no part of a name is ever read as a record of a higher permission, newlines or not |
| Reload.TameIff | src/server/server_db.c:590-607 | Without a newline an account is tame exactly when its record is not read as an account of a higher permission |
| Reload.ReloadRaisesNothing | src/server/server_db.c:563-653 | Loading a printing of tame accounts, in any order, gives tame accounts with no permission above those printed |
| Reload.NumberedReading | src/server/server_db.c:590-607 | A record whose name ends in a colon and a number, with blanks and a sign before it or not, is read as an account whose permission is that number modulo 256, whatever the hash |
| Reload.AbcColonIsRefused | src/server/server_db.c:590-607 | The record of `abc:` is not matched, whatever the account |
| Reload.XyHangs | src/server/server_crypto.c:199-261 | On the record of `ab:3:xy` the hexadecimal loop never advances, whatever the account |
| Paths.SplitSlashed | src/server/server_file_api.c:917-957 | Splitting the text of a canonical path gives its components back |
| Paths.TextPrefixIsContainment | src/server/server_file_api.c:281-287 | The byte-prefix test holds exactly for paths inside home or at a sibling whose name extends home's |
| FileTree.RealPathOfText | src/server/server_file_api.c:874-904 | The text of a canonical path resolves to that path exactly when it is present |
| FileTree.RealPathOfJoin | src/server/server_file_api.c:874-957 | Resolving home joined with a child is walking from home along the child's components, with or without a leading slash |
| FileTree.JoinStaysInBuffer | src/server/server_file_api.c:939-946 | The three strncat of `join_paths` stay in `PATH_MAX` bytes exactly when root, child and added slash are shorter, and then give the joined text |
| FileTree.PathResolveIsTarget | src/server/server_file_api.c:260-306 | `f_path_resolve` never overruns the buffer, and is the walk from home to a present path that passes length and home tests; what the walk makes of `..` is said in `DotDot` |
| FileTree.ValidResolveIsNewPlace | src/server/server_file_api.c:156-245 | `f_valid_resolve` overruns the buffer exactly at the stated lengths; elsewhere it is the walk along the dirname, then the basename, then the home test |
| FileTree.GuardCoversJoins | src/server/server_file_api.c:270-275 | The length guard of `f_path_resolve` would keep both joins of `f_valid_resolve` in the buffer too, for any non-empty child and any tree |
| FileTree.UnguardedOverrun | src/server/server_file_api.c:156-200 | An input, under every home, on which `f_valid_resolve` overruns though the path is otherwise in order |
| FileTree.WalkDirBase | src/server/server_file_api.c:170-219 | For a path without trailing slash, resolving it is entering its basename from its resolved dirname |
| FileTree.ResolversAgree | src/server/server_file_api.c:156-306 | For an existing target both resolvers fail or give the same text, except exactly for an entry of `/` that passes the home test |
| DotDot.InAndOut | src/server/server_file_api.c:890-890 | Going into a directory and out of it with `..`, anywhere in a path, is not to have moved |
| DotDot.AroundResolves | src/server/server_file_api.c:260-306 | Where both are short enough, `a/../b` resolves as `b` does |
| DotDot.BackResolves | src/server/server_file_api.c:260-306 | So does `../<last name of home>/b` |
| DotDot.AroundPlace | src/server/server_file_api.c:156-245 | A new entry asked for as `a/../b` is the entry `b` of home |
| DotDot.UpsWalk | src/server/server_file_api.c:890-890 | Every `..` takes off one name, down to the root |
| DotDot.UpsFail | src/server/server_file_api.c:281-287 | A path of `..` alone fails the home test unless home is `/` |
| DotDot.HereIsNoPlace | src/server/server_file_api.c:196-205 | `f_valid_resolve` gives nothing for an empty path, for `.`, and for any path that ends in `/.` |
| FileTree.ResolvedIsContained | src/server/server_file_api.c:260-306 | Where no sibling's name extends home's, an existing path resolves exactly when it is inside home |
| FileTree.TargetNearHome | src/server/server_file_api.c:281-287 | Whatever `f_path_resolve` returns is inside home or at a sibling whose name extends home's |
| FileTree.PlaceNearHome | src/server/server_file_api.c:217-225 | The same for every new entry `f_valid_resolve` allows |
| FileTree.PutEffect | src/server/server_ctrl.c:337-360 | For every path that stays in the buffer, exactly when PUT succeeds; then one path becomes the file, otherwise nothing changes; the tree stays well formed |
| FileTree.PutReplacesIff | src/server/server_ctrl.c:337-360 | For every path that stays in the buffer, PUT replaces an existing file exactly when the path is too long for the existence test or ends in a slash; otherwise it answers that the file exists |
| FileTree.PutReplacesAt | src/server/server_ctrl.c:337-360 | Two inputs under every home, one for each case, on which an existing file is replaced without an overrun |
| FileTree.MakeDirEffect | src/server/server_ctrl.c:369-386 | For every path that stays in the buffer, MKDIR succeeds exactly on an absent path under a resolved directory and adds one empty directory |
| FileTree.DelFileEffect | src/server/server_ctrl.c:395-412 | DELETE removes exactly the target, exactly when it is a regular file or an empty directory other than the root |
| FileTree.GetEffect | src/server/server_ctrl.c:250-282 | GET succeeds exactly on a non-empty regular file and then carries its bytes |
| FileApi.EntryCountDecidesEmptiness | src/server/server_file_api.c:410-423 | More than two entries means not empty, for a directory of any size |
| FileApi.EntriesAreShown | src/server/server_file_api.c:721-764 | Every entry describes its node: a regular file with the length of its contents, a directory with the host's size, never `.`, `..` or `.cape`; and every other regular file and directory that was read has one |
| FileApi.EntriesAreDistinct | src/server/server_file_api.c:721-764 | No name is listed twice |
| FileApi.FileSystem.JoinPaths | src/server/server_file_api.c:917-957 | Under the length condition every strncat, its NUL included, stays in the array of `PATH_MAX` bytes, and the string in it is the join |
| FileApi.FileSystem.ResolvePath | src/server/server_file_api.c:260-306 | Returns the text of the target on the tree, or NULL |
| FileApi.FileSystem.ResolveValid | src/server/server_file_api.c:156-245 | Returns the text of the place for a new entry, or NULL, with both joins in the buffer |
| FileApi.FileSystem.CreateDir | src/server/server_file_api.c:347-368 | The tree and code after mkdir on a verified path, with the EEXIST case |
| FileApi.FileSystem.DeleteFile | src/server/server_file_api.c:380-447 | The tree and code after the stat, the bounded count and unlink or rmdir |
| FileApi.FileSystem.WriteFile | src/server/server_file_api.c:456-524 | The tree and code after fopen and fwrite on a verified path, with the ENOTDIR case and the null stream |
| FileApi.FileSystem.ReadFile | src/server/server_file_api.c:534-658 | The contents of a regular file, or the code for any other path |
| FileApi.FileSystem.ReadDir | src/server/server_file_api.c:721-764 | One pass of readdir gives every entry once, in some order |
| FileApi.FileSystem.ListDir | src/server/server_file_api.c:671-831 | Where no order of reading passes the raw buffer or the path buffer: the stream is the printing of the shown entries in some readdir order, or the path is not a directory |
| FileApi.FileSystem.PrintNames | src/server/server_file_api.c:721-764 | The loop of guard, doubling and `sprintf` into an array stays in it wherever `RawBuffer` says so, with the size `RawBuffer` says, and prints the shown entries in order |
| Listing.ParseDir | src/client/client_ctrl.py:54-66 | The client's loop and sort give the sorted lines up to the first empty one, or raise on a line of another shape |
| Listing.RawOverrunIff | src/server/server_file_api.c:738-757 | The next record goes past the raw buffer exactly when name and offset stay five bytes below its size while name, digits of the size and offset come within seven of it |
| Listing.FourNamesOverrun | src/server/server_file_api.c:738-757 | The input: four files of one-digit size with names of 249 bytes |
| Listing.SortSorts | src/client/client_ctrl.py:64-64 | Ordered by type, then by descending size; no line lost, none added |
| Listing.ParsePrinted | src/client/client_ctrl.py:54-62 | Reading a printed listing recovers every type, size and name, in order |
| Listing.ListingRoundTrip | src/client/client_ctrl.py:54-66 | The client shows a permutation of the listed entries exactly when no name has a colon or newline |
| Screen.ListingShowsDirectory | src/client/client_ctrl.py:54-66 | Every regular file and directory but `.cape` has exactly one line with its type and size, nothing else has one, directories come first and either kind by descending size, exactly where no such name has a colon or newline |
| Store.ResolveDbFile | src/server/server_db.c:70-71 | `.cape/<name>` resolves exactly when that entry is present |
| Store.PlaceOfDbFile | src/server/server_db.c:509-519 | The valid-resolve of a database file succeeds exactly when `.cape` is present |
| Store.SavedHoldsIff | src/server/server_db.c:448-548 | A save, in any iteration order and on any tree, leaves the two files a printing of the table and its digest exactly where `.cape` is a directory and neither file path is taken by something else |
| Store.SaveReachesFiles | src/server/server_db.c:509-540 | On every tree the database file is written wherever it can be, also where the hash file then cannot be, and the hash file only where both can |
| Store.DefaultFileText | src/server/server_db.c:876-895 | The default database file is the magic, `admin:3:`, the digest in hexadecimal and a newline |
| Store.HeldFilesLoad | src/server/server_db.c:105-158 | Two such files pass both magic checks and the digest check and load back to exactly the table |
| Store.InitReloads | src/server/server_db.c:48-211 | `db_init` on such files changes nothing on disk and recovers the table |
| Store.InitLoadsIff | src/server/server_db.c:48-211 | Over every tree: `db_init` loads exactly where, in the tree it leaves, both files are there, the first begins with the magic, the second is the magic and the digest of all of the first, and the records load; and it has what they load to |
| Store.OneFileIsRefused | src/server/server_db.c:86-104 | With exactly one of the two files it refuses and writes nothing |
| Store.InitFresh | src/server/server_db.c:48-211 | `db_init` where neither file is there, for the first time or again, leaves a well-formed tree that holds the default admin |
| Store.HeldColonIsLost | src/server/server_db.c:48-211 | No `db_init` on files that hold a table with a colon in a name loads that table |
| Store.InitReadsColonName | src/server/server_db.c:48-211 | `db_init` on files that hold one name with a colon, printed in this order, changes nothing on disk and ends as the record of the name is read: with exactly that table, refused, or not at all |
| Store.HeldFilesRaiseNothing | src/server/server_db.c:105-158 | Files that hold tame accounts load no permission above those held |
| Database.Sprintf | src/server/server_db.c:502-502 | Text and NUL land at the offset, inside the buffer; the rest of the buffer is untouched |
| Database.PrintHash | src/server/server_db.c:489-498 | The `%02x` loop fills its 65-byte buffer with the hex text and never leaves it |
| Database.CountChars | src/server/server_db.c:455-471 | The first pass counts 4 plus the budget of every account, the same number for every order the second pass may take |
| Database.PrintUsers | src/server/server_db.c:473-522 | Over a second iteration in any order, every sprintf stays in the buffer and the bytes written are magic and records of that order, as far as they were counted |
| Database.PrintAll | src/server/server_db.c:480-522 | As long as the table fits, every record and its NUL lies in the buffer, and the first `char_count - accounts` bytes are those of magic and records |
| Database.UpdateDbHash | src/server/server_db.c:765-851 | On every tree: stores magic and digest of the file as it is on disk, or fails and changes nothing |
| Database.SaveFiles | src/server/server_db.c:509-540 | On every tree, the outcome of the two writes: both, only the database file, or neither |
| Database.Db.UpdateDb | src/server/server_db.c:448-548 | On every tree, saves the table in memory as far as the tree lets it; nothing else changes |
| Database.Db.CreateUser | src/server/server_db.c:263-335 | A missing password, a name or password outside its lengths (3 to 20, 6 to 32), a name in use: one code for each, and success exactly otherwise; then the table gains that account and is saved |
| Database.Db.RemoveUser | src/server/server_db.c:222-247 | The table loses exactly the named user and is saved, or the user does not exist |
| Database.Db.AuthenticateUser | src/server/server_db.c:404-446 | Succeeds, with the user's account, exactly where the name is a user's and the stored hash is the digest of the password; otherwise `OP_USER_AUTH` |
| Database.IterateUsers | src/server/server_db.c:455-471 | The iterator visits every user once, in an order unknown to the caller |
| Database.ReadSegment | src/server/server_db.c:580-645 | One turn of the parsing loop: end, bad record, or the account read and the next segment |
| Database.PopulateHtable | src/server/server_db.c:563-653 | The loop over the moving segment pointer ends and fills the table the specification gives, or rejects the text |
| Database.DefaultContent | src/server/server_db.c:876-895 | The size check of `init_db_file` always passes and its bytes are the printing of the default table |
| Database.LoadContents | src/server/server_db.c:105-158 | A table comes back exactly where the database file begins with the magic, the hash file is the magic and the digest of the whole database file, and the records load; and it is what they load to |
| Database.EnsureDbDir | src/server/server_db.c:50-64 | After it `.cape` is present and nothing else changed |
| Database.DbInit | src/server/server_db.c:48-211 | The tree and the database object, or NULL, of every starting tree: no files, one of two, both; the object can be used whatever was loaded |
| Protocol.FileActionEffect | src/server/server_ctrl.c:164-197 | A file operation changes at most the path it is about, and only if it succeeds |
| Protocol.ChangesOnDb | src/server/server_ctrl.c:164-197 | A successful file operation either leaves `.cape` and both files as they were, or removes or overwrites one of the files |
| Protocol.NextKeepsSane | src/server/server_ctrl.c:65-239 | Every step whatever keeps the tree well formed and the hashes printable |
| Protocol.InvOverrunsOnlyPaths | src/server/server_ctrl.c:148-181 | While disk and memory agree no user operation overruns the print buffer; only MKDIR and PUT by the length of a path, and LS by its directory, can overrun one |
| Protocol.NextKeepsInvIff | src/server/server_ctrl.c:65-239 | A step keeps the agreement of disk and memory on clean names exactly when it is no successful creation of an unclean name and no successful removal or non-equivalent overwriting of a database file; that a name with a colon then indeed fails to reload is `NextStart.ColonCreationIsLost` |
| Protocol.DeletedDbIsFatal | src/server/server_ctrl.c:395-412 | The input: DELETE of the database file succeeds and `db_init` refuses the result |
| Protocol.InitSamePath | src/server/server_db.c:48-211 | Whatever the disk holds, a start changes no path but the two files and `.cape` itself |
| Protocol.InvIsQuiet | src/server/server_db.c:48-211 | Where disk and memory agree, as after the first start, the disk loads no permission above those in memory |
| Protocol.NextKeepsQuiet | src/server/server_ctrl.c:142-181 | With tame accounts and the database files left alone, whatever the disk loads to has no permission above those in memory, restart after restart |
| Protocol.RestartKeepsUsers | src/server/server_db.c:366-389 | Where disk and memory agree, stopping and starting again keeps the users and every path but the two files |
| Control.GenerateSessionId | src/server/server_ctrl.c:604-643 | The retry loop ends with an id of 32 bits that was not in the table, and records it |
| Control.DoPutFile | src/server/server_ctrl.c:337-360 | The tree and code of PUT, where the path stays in the buffer |
| Control.DoMakeDir | src/server/server_ctrl.c:369-386 | The tree and code of MKDIR, where the path stays in the buffer |
| Control.DoDelFile | src/server/server_ctrl.c:395-412 | The tree and code of DELETE |
| Control.DoGetFile | src/server/server_ctrl.c:250-282 | The code and content of GET, with the digest of the bytes |
| Control.DoListDir | src/server/server_ctrl.c:293-327 | The code and content of LS, the empty listing included, where no order of reading passes a buffer |
| Control.DoUserAction | src/server/server_ctrl.c:143-181 | Creation needs a permission at most the creator's, removal an administrator; on every tree, the new table and what could be saved of it |
| Control.PassSession | src/server/server_ctrl.c:81-138 | Authentication, then issue, refresh, expiry or refusal, with the whole new session table |
| Control.Dispatch | src/server/server_ctrl.c:141-228 | Every action code, with its permission check, is the action of the state machine |
| Control.ParseAction | src/server/server_ctrl.c:65-239 | `ctrl_parse_action` is one step of the state machine, on every well-formed tree and wherever no buffer is overrun |
| Control.DropSession | src/server/server_sock.c:317-325 | The failed-read path drops exactly the id that was read |
| Runs.TreeStaysWellFormed | src/server/server_ctrl.c:164-213 | Every run, without exception, keeps every present path under a directory and every name valid |
| Runs.DiskRefinesMemory | src/server/server_db.c:48-211 | At every point of every run without a spoiling step the files hold the table in memory, a fresh `db_init` recovers exactly it and changes nothing, and printing stays in its buffer |
| Runs.AgreementEndsAtSpoil | src/server/server_db.c:48-211 | The first spoiling step, and no other, ends this agreement |
| Runs.UserChangeHoldsIff | src/server/server_db.c:222-335 | After any history, a successful creation or removal restores the agreement exactly where the files can be written |
| Runs.FirstStart | src/server/server_db.c:48-211 | A start where neither file is there establishes the invariant, with the default administrator |
| Runs.SessionsAreHistory | src/server/server_ctrl.c:81-138 | In every run an id is in the table with time t exactly when the last log line that concerns it accepted or issued it at t |
| Runs.AcceptedIffRecent | src/server/server_ctrl.c:103-128 | An authenticated request with a nonzero id is accepted exactly when the id was last used, since dropped, at most `timeout` ago |
| Runs.IssuedIdIsFresh | src/server/server_ctrl.c:625-643 | A new session never gets the id of a live one |
| Runs.RefusedStepsChangeNothing | src/server/server_ctrl.c:84-138 | `OP_USER_AUTH` is answered exactly where the name is no user's or the stored hash is not the digest of the password, and changes nothing; a failed session check or any failed action changes neither users nor files |
| Runs.ReplyContent | src/server/server_ctrl.c:250-327 | Content is attached to a success only, is never empty, and carries its digest |
| Answers.GateAnswers | src/server/server_ctrl.c:81-138 | `OP_SESSION_ERROR` exactly for the right password with an id that is unknown or has run out; the session id answered and the whole session table, in every case |
| Answers.CreationAnswers | src/server/server_ctrl.c:151-163 | Past the gate a creation is refused, by one code each, for a permission above the creator's, no password, the lengths, a name in use, and succeeds exactly otherwise, with exactly that account added |
| Answers.RemovalAnswers | src/server/server_ctrl.c:164-181 | A removal succeeds exactly for an administrator and a name in use; the code of every other case, unknown flags included |
| Answers.WritersOnly | src/server/server_ctrl.c:182-228 | DELETE, MKDIR and PUT are refused exactly for accounts that may not write; LS, GET and the rest ask for no permission |
| Answers.PutAnswers | src/server/server_ctrl.c:337-360 | The code of PUT in every case, and the file where it succeeds |
| Answers.MakeDirAnswers | src/server/server_ctrl.c:369-386 | The code of MKDIR in every case |
| Answers.DeleteAnswers | src/server/server_ctrl.c:395-412 | The code of DELETE in every case |
| Answers.FetchAnswers | src/server/server_ctrl.c:250-282 | The code of GET in every case, and the bytes with their digest where it succeeds |
| Answers.ListAnswers | src/server/server_ctrl.c:293-327 | The code of LS in every case: it succeeds exactly on a directory with something to show |
| Answers.OtherAnswers | src/server/server_ctrl.c:141-228 | The local operation succeeds, an unknown one fails, and neither does anything |
| Runs.FileChangesAreAuthorized | src/server/server_ctrl.c:164-213 | In every run, any difference between two points comes from a successful file request with permission to write; at the two database files also from an authorized change of the users, and at those and `.cape` itself also from a start |
| Runs.ChangesStayNearHome | src/server/server_file_api.c:156-306 | Every run changes only paths inside home or at a sibling whose name extends home's |
| Runs.StepOnUser | src/server/server_ctrl.c:142-181 | A step leaves an account as it is, or is its removal by an administrator, or its creation by one at least as privileged |
| Runs.RemovalsAreByAdmins | src/server/server_ctrl.c:164-174 | Every user that disappears, with no restart between or in a run without a spoiling step, was removed by an authorized administrator |
| Runs.NoPrivilegeGrowth | src/server/server_ctrl.c:151-163 | Every account is matched by one at least as privileged before: in every run between restarts, and across restarts if every account created is tame and no successful request is about a database file |
| Runs.NoAdminStaysNoAdmin | src/server/server_ctrl.c:151-163 | Under the same condition, once no administrator exists, none ever exists again |
| Runs.AccountIsStable | src/server/server_db.c:263-335 | An account keeps its hash and permission for as long as it exists, with no restart between or in a run without a spoiling step |
| Runs.CreatedUserAuthenticates | src/server/server_db.c:404-446 | From creation to removal, across reloads, a request under that name is answered `OP_USER_AUTH` exactly where the digest of its password is not that of the creation password; the permission is the one given |
| NextStart.CreationIsHeld | src/server/server_db.c:263-335 | From an agreeing state a creation leaves the new table on disk, whatever the name |
| NextStart.ColonCreationIsLost | src/server/server_db.c:48-211 | After the creation of a name with a colon no start on any tree that holds the new table loads it |
| NextStart.StartReads | src/server/server_db.c:48-211 | A start on one name with a colon has the table its record gives in some order |
| NextStart.StartsInAnyOrder | src/server/server_db.c:366-389 | Conversely, for every order `db_shutdown` may print in there is a start with the table that order gives |
| NextStart.StartsIffTaken | src/server/server_db.c:48-211 | The server starts again, saved or not, exactly when the record of the name is read as an account |
| NextStart.RaisedIffTaken | src/server/server_db.c:563-653 | After a start a permission above all in memory is there exactly when the record is read as one and its account is there, as it is wherever its name was unused; every other account is as before |
| NextStart.OrderDecides | src/server/server_db.c:480-505 | Where the name it is read as is a user's, one order of printing puts the account in the user's place and another keeps the user |
| NextStart.StartAfterCreation | src/server/server_db.c:48-211 | In every run, from a creation of a name with a colon up to the next change of the users or the files, a start happens only if the record is read as an account, and gives it |
| NextStart.NoStartAfterCreation | src/server/server_db.c:48-211 | Where it is not, no start happens in that time |
| NextStart.LowestMayCreate | src/server/server_db.c:274-292 | The inputs: an account that may only read creates `abc:3`, `abc:` and `ab:3:xy` |
| NextStart.AbcComesBackAsAdmin | src/server/server_db.c:563-653 | From a state without an administrator, the creation of `abc:3` and a restart lead to one with an administrator |
| NextStart.CreationStopsStart | src/server/server_db.c:105-158 | From an agreeing state, after the creation of `abc:` the next `db_init` refuses, after that of `ab:3:xy` it does not end |
| NextStart.ServerStaysDown | src/server/server_db.c:48-211 | In every run, after such a creation no start happens before the users or a database file are changed |
| NextStart.NoStartAfterTampering | src/server/server_db.c:105-139 | In every run, after a successful PUT on the database file of bytes with another digest, or of other bytes on the hash file, no start happens before the users or a database file are changed, unless `db_shutdown` writes them |
| NextStart.ShutdownRepairs | src/server/server_db.c:366-389 | Where `db_shutdown` can write both files, the next start has the users from before, whatever the files held |
| Streams.Socket.ReadStream | src/server/server_sock.c:850-931 | However the bytes are split, exactly the first n are taken, or all of a shorter stream with the code of its ending |
| Streams.Socket.ReadExactly | src/client/client_sock.py:67-85 | The client's loop returns exactly the first n bytes and leaves the rest |
| Streams.Socket.SendRange | src/server/server_sock.c:772-831 | Under any short writes the loop ends with the range sent; every call is within the limit and the range; a failed write leaves a proper prefix |
| Requests.ClientRequest | src/client/client_classes.py:364-435 | Raises exactly when a field does not fit; otherwise the server reads from the bytes what the client means, and no byte after them, exactly for ASCII texts |
| Requests.RequestLayout | src/client/client_classes.py:364-435 | Every field of the header, the two texts and the payload lie at these offsets |
| Requests.UserPayloadLayout | src/client/client_classes.py:364-435 | The same for the payload of a user operation |
| Requests.StdPayloadLayout | src/client/client_classes.py:364-435 | The same for the payload of a file operation |
| Requests.TailTests | src/server/server_sock.c:945-976 | The tests on `payload_len` see the optional file tail exactly when there is one, for every path and file length |
| Requests.ReadUserPayloadOf | src/server/server_sock.c:591-656 | The user payload, with or without password, is recovered and nothing after it touched, exactly for ASCII texts |
| Requests.ReadStdPayloadOf | src/server/server_sock.c:508-568 | The same for a path with or without a file, of any length including 0 |
| Requests.RequestRoundTrip | src/server/server_sock.c:404-489 | The server recovers every field of every request and leaves following bytes alone, exactly when its texts are ASCII |
| Requests.PrefixIsUnread | src/server/server_sock.c:374-506 | A request cut off anywhere is never read as another; the server has its session id from byte 12 on |
| ServerSock.MakeByteArray | src/server/server_sock.c:986-1028 | An array with exactly that many bytes of the stream, or the code of the stream's ending; for a text with a terminator behind them, inside the block even for an empty one, so that the C functions see what they see of the bytes; no array for no bytes of a file |
| ServerSock.ReadClientUserPayload | src/server/server_sock.c:591-673 | Reading field by field from the socket is the parse of the user payload |
| ServerSock.ReadClientStdPayload | src/server/server_sock.c:508-589 | The same for paths and files |
| ServerSock.ReadFixedHeader | src/server/server_sock.c:404-450 | The fixed header, or a failure in which the session id is still 0 |
| ServerSock.ReadClientReq | src/server/server_sock.c:374-506 | The request and the unread rest, or the code of the ending and the session id as far as it was read |
| Codes.MessageLength | src/server/server_ctrl.c:546-587 | Every message fits the one-byte length and is not empty |
| Responses.BuildPacket | src/server/server_sock.c:708-766 | Every copy, at the offset after the one before, lies in the buffer of the size computed beforehand; the last ends where the buffer does, and the buffer is then the packet |
| Responses.PacketFields | src/server/server_sock.c:708-766 | Every field of a response lies at its offset |
| Responses.WriteResponse | src/server/server_sock.c:690-839 | The whole packet goes out, or a proper part of it; no header write passes the data boundary or 2048 bytes, no data write 1016 |
| Responses.Connect | src/client/client_sock.py:19-64 | Field by field from a fragmented stream, the client reads one response and no byte more, and keeps its session id |
| Responses.ResponseRoundTrip | src/client/client_sock.py:29-64 | Code, id, message, digest and stream are recovered, and nothing is left unread, exactly for no content or non-empty content of a success |
| Responses.HashPayload | src/client/client_classes.py:504-515 | Hashing in chunks of 1024 is hashing the payload |
| Responses.SavedPayloadNotEmpty | src/client/client_classes.py:437-501 | A payload that reaches `save_file` with a valid hash is never empty, so the chunk size is never 0 |
| Server.Answer | src/server/server_sock.c:690-839 | The reply's packet goes out, or a part of it from the start |
| Server.ServeClient | src/server/server_sock.c:286-338 | One connection is one step of the state machine and its answer, whatever earlier requests did to the disk; an unreadable request drops its session and is answered unless the peer closed; the next connection can be served, and agreement is kept exactly if the step does not spoil it |
| Server.EveryReplyIsReadBack | src/client/client_sock.py:29-64 | Every reply of every run, also to a request that could not be read, is recovered by the client field by field, with nothing left unread |
| Server.CutOffDropsSession | src/server/server_sock.c:286-338 | A connection that ends within a request drops its session, if that was read, and is answered by the way it ended |
| Server.Restart | src/server/server_db.c:366-389 | Shutdown and start in place give a new database with the same users and no sessions |
| EndToEnd.PlainWalkFinds | src/server/server_file_api.c:874-904 | A path without `..` that ends in a name resolves to its components wherever those are present |
| EndToEnd.PlainTargetIff | src/server/server_file_api.c:260-306 | A path without `..` that ends in a name resolves exactly where its components are present under home |
| EndToEnd.PlainPlaceFound | src/server/server_file_api.c:156-245 | Something can be created at such a path wherever its parent is a directory |
| EndToEnd.PlainPutIff | src/server/server_ctrl.c:337-360 | A writer's PUT on such a path succeeds exactly for a non-empty file, an absent target and a parent that is a directory, and never replaces anything |
| EndToEnd.PlainMakeDirIff | src/server/server_ctrl.c:369-386 | MKDIR succeeds exactly on an absent target whose parent is a directory |
| EndToEnd.PlainDeleteIff | src/server/server_ctrl.c:395-412 | DELETE succeeds exactly on a file or an empty directory, and removes only that |
| EndToEnd.PlainGetIff | src/server/server_ctrl.c:250-282 | GET succeeds exactly on a non-empty file and brings its bytes |
| EndToEnd.PutStores | src/server/server_ctrl.c:337-360 | A successful PUT step leaves exactly its bytes at the target |
| EndToEnd.GetAnswers | src/server/server_ctrl.c:250-282 | A GET step past the gate answers with those bytes and their digest |
| EndToEnd.FileSurvives | src/server/server_ctrl.c:65-239 | A file other than the two of the database survives every run in which no successful request is about its path, restarts included |
| EndToEnd.PutThenGet | src/client/client_classes.py:413-501 | What a successful PUT sent, a later GET brings back byte for byte, with a valid hash, through both wires and any run between in which no request succeeds in changing the path |
| EndToEnd.ListBringsDirectory | src/server/server_ctrl.c:293-327 | A successful LS, in an order of reading that stays in the buffers, brings the client a listing in which it shows the directory as the tree has it, exactly where no name to show has a colon or newline |

## Left out

- Protocol.NextKeepsInvIff: each request is one atomic step, because the locking of the hash table is in a library that is not part of this model; interleavings of the thread pool are not covered.
- Requests.RequestRoundTrip: `conn.send` is taken to hand over the whole request; the PUT path is given already joined (pathlib's normalisation of `dst / name` is not modelled).
- Runs.NoPrivilegeGrowth: for a name with both `:` and a newline, being tame is shown to suffice across restarts, not to be needed; what such a table loads to is exactly `Reload.LoadIsRead`.
- Listing.ParseDir: `list.sort` is a stable insertion sort with the same key. UTF-8 decoding and non-ASCII decimal digits are not modelled: a listing is bytes. Printing to the screen is not modelled either.
- FileApi.FileSystem.ListDir: a directory's own size is a parameter, and a size is printed as a number of any length.
- Hex.HexCharToByteArray: `0x` within the two characters read is taken as the digit 0, as the GNU C library does; the C standard would let it fail.
- Streams.Socket.ReadStream: an allocation of the announced size always succeeds. The source answers `OP_FAILURE` without reading when a huge `payload_len` makes `calloc` fail; the model reads to the end of the stream.
- ServerSock.MakeByteArray: what `calloc` gives beyond what it was asked for is that of the GNU C library, at least 24 bytes; with another library the terminator of an empty text may lie outside.
- Database.PopulateHtable: the stream handed to `sscanf` has no terminator of its own; its end is taken as the end of the string.
- ByteOrder.HtonllIsBigEndian: stated for a little-endian machine, the only branch of the swap that does anything.
- Message texts are a parameter with the lengths they have in the source; their wording is not modelled.
- The `b_omit_root` branch of `join_paths`, which reads the terminator and is never taken.
- SHA-256 itself: every theorem holds for any function from bytes to 32 bytes; collision resistance is nowhere assumed.
- `rand`, clocks and directory sizes are parameters.
- Failed allocation, `goto` cleanup, freeing and double pointers.
- I/O errors, partial disk writes, symbolic links, permission bits, name lengths beyond those above, and devices beyond one kind of special node that cannot be written.
- What happens after a write past a buffer: a run ends before it.
- Server-side comparison of the digest a PUT carries: the code reads it and never compares it.
- The `_debug` flag of `db_t`, which turns persistence off in unit tests.
- Sockets, `accept`, signals, thread pool, argument parsing, the interactive client, debug output and the build: they add no property of the kind proved here.
