# go-gopher in Dafny

A model of the core of go-gopher's `gopher.go`, a Gopher (RFC 1436) client and server
library, with proofs of what it promises.

- **Items and menus** (`items.dfy`, `directory.dfy`). `ParseItem` trims CR and LF from
  both ends of a menu line and splits it on TAB. It refuses a line with an empty type
  field. Missing fields get their defaults: selector `""`, host `"null.host"`, port 0. A
  port that is not a decimal number is an error, except on an info (`i`) line. Fields from
  the fifth on are kept as extras. `MarshalText` writes an item back, and `ToText` writes a
  whole menu. The proofs cover:
  - the round trip, for every well-formed item;
  - stable re-encoding of anything parsed;
  - the defaults and error cases;
  - the examples from the package's tests.
- **Client** (`client.dfy`). `Get` takes a URI that is already split into parts:
  - It splits the host at `:`, defaulting to port 70.
  - It derives the item type and selector from the path and query.
  - It picks the file or the directory fetch by the item type.
  - The directory fetch scans the reply line by line. The proof shows that a server's
    menu text, followed by its `.` line, scans back into exactly the items written.
- **Router** (`router.dfy`). `ServeMux` is a class over a map from patterns to entries. It
  proves:
  - `match` finds the unique longest matching pattern, whatever order it visits the map in;
  - `Handle` refuses an empty pattern, a nil handler and a second registration, and
    otherwise adds exactly one entry.
- **Server** (`server.dfy`). The proofs cover:
  - selector normalisation;
  - the request's local address;
  - the response writer, a class whose first write fixes whether the reply is a document
    or a menu.

  Each writer method is tied to a function on a `Reply` value, and the lemmas about the
  mode and the output are stated on those functions.
- **Exchanges** (`exchange.dfy`).
  - A menu a handler writes item by item is read back by the client as those items.
  - The package's hello exchange is followed end to end: the URI, the request line, the
    route, the reply bytes, and the directory the client builds.
- **File server** (`fileserver.dfy`):
  - `matchExtension`;
  - `Dir.Open`'s name check;
  - `serveFile`'s choice between an error, a document, a gophermap and a listing;
  - `dirList`'s listing.

  The file system is a parameter. What a name opens to, a directory's entries, a file's
  contents, `filepath.Rel` and the content sniffer are functions the model does not look
  inside.

Go strings are `string` values, one character per byte. Item types are characters with named
constants. The library functions the core relies on are modelled in `text.dfy`:
`strings.Split`, `strings.Trim(s, "\r\n")`, `strconv.Itoa`/`Atoi`/`ParseInt(s, 10, 32)`,
`bufio.ScanLines`, and `strings.ToLower` for ASCII. Panics in `Handle` become error results.
Network input becomes a parameter: the bytes a server replies with, the listener's address,
the configured host name.

Two behaviours of the client are easy to misread:
- A URI path of one byte is taken as an item type with an empty selector. A path of
  exactly two bytes is the root menu: both bytes and the query are dropped
  (gopher.go:332-345). `Client.RequestTargetOfShortPath` and
  `Client.TwoBytePathIsRootMenu` state this.
- Fetching a file refuses only the DIRECTORY type (gopher.go:373-375), so a search item
  can be fetched as a file. `Client.FetchFile` states this.

## Model

| member | source | states |
|---|---|---|
| Items.TypeName | gopher.go:103-146 | every label has three letters, and the label is `???` exactly for a byte outside the known types |
| Items.TypeNamesDistinct | gopher.go:103-146 | two different known types never share a label |
| Items.ParseItem | gopher.go:161-211 | the imperative parse (split, then fill the fields one by one, then append the extras in a loop) returns exactly the parse function's result |
| Items.ReadFields | gopher.go:164-210 | reading split fields field by field, with the extras loop, agrees with the field-reading specification |
| Items.ParseItemType | gopher.go:162-166 | a line is refused for lacking a type exactly when it is empty or starts with TAB once trimmed; otherwise the type is its first byte after trimming |
| Items.ParseEmptyFails | gopher.go:162-166 | the empty line, and any line of only CR and LF, fails with no item type |
| Items.ParseDefaults | gopher.go:174-201 | lines of one, two or three fields get selector `""`, host `null.host`, port 0 and no extras unless the field is given |
| Items.ParseOneField | gopher.go:168-201 | a single field gives its first byte as type, the rest as description, and every default |
| Items.ParseTwoFields | gopher.go:174-186 | a second field is the selector; host and port take their defaults |
| Items.ParseThreeFields | gopher.go:181-201 | a third field is the host; the port defaults to 0 |
| Items.IsDirectoryLike | gopher.go:254-263 | the directory-like types are DIRECTORY and INDEXSEARCH only; `Client.FetchDirectory` and `Client.Get` state what follows from it |
| Items.ParsePortRule | gopher.go:188-201 | for every line: the parse fails with a bad port exactly when the line has a fourth field, its first field is non-empty and does not start with `i`, and the fourth field is not a decimal number (the empty field included); the error carries that field; a parsed line's port is the number, or 0 on an info line or a line of three fields or fewer |
| Items.ParseBadPort | gopher.go:188-201 | for any line of four or more fields, extras included, a non-numeric port (empty or not) fails the parse on every line but an info line, which parses with port 0 and keeps its extras |
| Items.ParseBadPortField | gopher.go:188-198 | the four-field case: a non-numeric port fails the parse unless the line is an info line, where the port becomes 0 |
| Items.EmptyPortFails | gopher.go:188-194 | the line `0x\ts\th\t`, whose port field is empty, fails with a bad port |
| Items.MarshalText | gopher.go:233-252 | appending the type, the TAB-separated fields, the decimal port, each extra and CRLF builds exactly the item's wire text |
| Items.ItemLineShape | gopher.go:233-252 | a well-formed item's line neither starts nor ends with CR or LF, and no field of it holds a TAB |
| Items.ParseMarshal | gopher.go:161-252 | parsing the marshalled text of any well-formed item gives the item back |
| Items.ParseItemLine | gopher.go:161-211 | the line without its CRLF also parses back into the item |
| Items.ParsedIsWellFormed | gopher.go:161-211 | every item the parser accepts is well formed, so it survives a round trip |
| Items.FieldsReadWellFormed | gopher.go:164-210 | TAB-free fields with clean ends are read into a well-formed item |
| Items.FieldsOfCleanJoin | gopher.go:162 | TAB-free fields joined with TAB, with no CR or LF at either end, split back into the same fields |
| Items.ReparseIsStable | gopher.go:161-252 | writing a parsed item and parsing it again gives the same item |
| Items.SampleLineRoundTrip | gopher_test.go:139-171 | `0foo\t/foo\tlocalhost\t70\r\n` parses into the expected file item and is written back byte for byte |
| Items.SampleItemText | gopher_test.go:169-171 | the sample item is written as `0foo\t/foo\tlocalhost\t70\r\n` |
| Items.MinimalLineParses | gopher_test.go:178-181 | the line `0` parses with every default |
| Items.MinimalItemText | gopher_test.go:183-184 | the item of `0` is written as `0\t\tnull.host\t0\r\n` |
| Items.MinimalLineIdempotent | gopher_test.go:174-190 | re-parsing what the item of `0` writes gives the same item |
| Directories.ToText | gopher.go:277-287 | appending each item's text in order gives the menu text of all the items |
| Directories.MenuTextCons | gopher.go:277-287 | the menu text starts with the first item's line |
| Directories.MenuTextAppend | gopher.go:277-287 | the menu text of two lists joined is the two texts joined |
| Directories.MenuLines | gopher.go:279-285 | one line per item, in order, each the item's wire line |
| Directories.MenuTextIsLines | gopher.go:277-287 | the menu text is the items' lines, each followed by CRLF |
| Text.Split | gopher.go:162 | models `strings.Split`; its ensures gives the pieces no separator and a join back to the input, and `Text.SplitSpec` and `Text.SplitOfJoin` are its partners |
| Text.TrimLineEnds | gopher.go:162 | models `strings.Trim(s, "\r\n")`; `Text.TrimLineEndsClean` and `Text.TrimLineEndsOfClean` state what it leaves |
| Text.Atoi | gopher.go:190 | models `strconv.Atoi` on a sign and at least one decimal digit; `Text.AtoiOfItoa` is its partner |
| Text.Itoa | gopher.go:242 | models `strconv.Itoa`; `Text.AtoiOfItoa` states that Atoi reads it back |
| Text.ScanLines | gopher.go:408-414 | models `bufio.ScanLines`, dropping a CR before each LF; `Text.ScanLinesOfCrlfLines` and `Text.ScanLinesCons` state how it splits |
| Text.SplitSpec | gopher.go:162 | no piece of `strings.Split` holds the separator, the first piece runs to the first separator, and the pieces join back to the input |
| Text.SplitOfJoin | gopher.go:162 | splitting pieces that hold no separator, joined by it, gives the pieces back |
| Text.TrimLineEndsClean | gopher.go:162 | trimming leaves no CR or LF at either end |
| Text.TrimLineEndsOfClean | gopher.go:162 | a string with clean ends is left unchanged |
| Text.AtoiOfItoa | gopher.go:190 | the port parser reads back every number the writer's `strconv.Itoa` writes |
| Text.ParseInt32 | gopher.go:318 | a 32-bit parse succeeds with Atoi's value inside the int32 range, and fails on a syntax error or a value outside it |
| Text.ScanLinesOfCrlfLines | gopher.go:408-414 | the line scanner returns CRLF-terminated lines that hold no LF one by one, then scans what follows |
| Text.ScanLinesCons | gopher.go:714-720 | a CRLF-terminated line without LF is the scanner's first token |
| Client.HostPort | gopher.go:315-325 | the host split; `Client.HostPortOneColon` and `Client.HostPortDefault` state it for every host |
| Client.RequestTarget | gopher.go:332-345 | the type and selector derived from the path and query; `Client.RequestTargetOfLongPath`, `Client.RequestTargetOfShortPath` and `Client.TwoBytePathIsRootMenu` state it for every path length |
| Client.RequestLine | gopher.go:382 | the selector followed by CRLF, as both fetches send it; `Exchange.SelectorReachesServer` states that the server reads it back |
| Client.ScanWith | gopher.go:414-431 | the directory fetch's scan loop over any line parser; `Client.ScanStep`, `Client.ScanAppend` and `Client.ScanStopsAtTerminator` state its steps |
| Client.ScanItems | gopher.go:414-431 | the scan loop with `ParseItem`; `Client.ScanComesFromLines`, `Client.ScanOfAcceptedLines` and `Client.ScanOfMenuText` are its partners |
| Client.HostPortOneColon | gopher.go:315-322 | a host with exactly one `:` takes the text after it as its port, parsed as a decimal int32; anything else there is an error |
| Client.HostPortDefault | gopher.go:323-325 | every other host keeps the text up to its first `:` and gets port 70 |
| Client.RequestTargetOfLongPath | gopher.go:332-338 | a path longer than two bytes gives its first byte as type and the rest as selector, with a non-empty query appended after a TAB |
| Client.RequestTargetOfShortPath | gopher.go:339-345 | a one-byte path is a type with empty selector; an empty or two-byte path is the root menu; the query is dropped |
| Client.TwoBytePathIsRootMenu | gopher.go:333-345 | a two-byte path loses both its type and its selector |
| Client.Resolve | gopher.go:306-347 | a URI that is not `gopher` fails; otherwise the item is the host split's host and port with the derived type and selector, or the host split's error |
| Client.FetchFile | gopher.go:372-375 | only a DIRECTORY item is refused; any other type, the search type included, is fetched as a document |
| Client.FetchDirectory | gopher.go:393-434 | types that are not directory-like are refused; otherwise the loop's items are exactly the scan of the reply's lines |
| Client.Get | gopher.go:300-367 | a URI that does not resolve gives its error; otherwise directory-like types are scanned as menus and all others read as documents, and neither fetch can refuse |
| Client.ScanStep | gopher.go:414-431 | one step of the loop: skip an empty trimmed line, stop at `.`, keep a parsed item, drop a refused line |
| Client.ScanComesFromLines | gopher.go:414-431 | every scanned item is the parse of one of the lines |
| Client.ScanAppend | gopher.go:414-431 | the scan of two line lists joined is the first one's scan, followed by the second's when the first holds no `.` line |
| Client.ScanStopsAtTerminator | gopher.go:421-423 | nothing after the `.` line is scanned |
| Client.ScanOfAcceptedLines | gopher.go:414-431 | lines that each parse, none of them empty or `.`, scan into exactly their items |
| Client.ItemLineHasNoLineFeed | gopher.go:233-252 | an item without LF in its fields writes a line without LF |
| Client.ItemLineIsLong | gopher.go:233-252 | an item's line holds a TAB, so it is neither empty nor the `.` line |
| Client.ScanLinesOfMenu | gopher.go:408-414 | the scanner splits menu text into the items' lines |
| Client.MenuLinesScan | gopher.go:414-431 | the lines of single-line items are not `.` lines and scan back into the items |
| Client.TerminatorScans | gopher.go:421-423 | the menu terminator scans as the `.` line |
| Client.ScanOfMenuText | gopher.go:393-434 | a menu's text, then `.` and CRLF, whatever follows, scans back into exactly the items in order |
| Client.ScanOfEndedMenu | gopher.go:393-434 | a reply of a menu's text and its `.` line scans back into exactly the menu's items |
| Client.ScanDropsRefusedLine | gopher.go:425-429 | a line the parser refuses is dropped and the scan goes on |
| Client.ScanDropsMalformedLine | gopher.go:414-431 | a refused line between two menus drops out, leaving both menus' items in order |
| Client.ScanDropsLineBefore | gopher.go:414-431 | a refused line before a menu drops out |
| Router.SelectorMatch | gopher.go:903-913 | the pattern test of `pathMatch`; `Router.PatternMatchesItself`, `Router.MatchIsPrefix` and `Router.MatchesOfSameLength` state what it accepts |
| Router.PatternMatchesItself | gopher.go:903-913 | every non-empty pattern matches the selector equal to it |
| Router.MatchIsPrefix | gopher.go:903-913 | a pattern that matches a selector is a prefix of it |
| Router.MatchesOfSameLength | gopher.go:903-913 | two matching patterns of the same length are equal |
| Router.LongestMatchUnique | gopher.go:932-947 | the longest matching pattern is unique |
| Router.LongestMatchExists | gopher.go:932-947 | a longest matching pattern exists whenever some pattern matches |
| Router.Register | gopher.go:983-1001 | failure exactly for an empty pattern, a nil handler or an explicit entry already present; on success exactly that one entry is added or replaced, and the rest are unchanged |
| Router.RegisterKeepsTable | gopher.go:983-1001 | registration keeps every entry explicit under its own pattern, so registering a present pattern again fails |
| Router.RoutingExample | gopher.go:903-947 | with `/` and `/images/` registered, `/images/cat.gif` goes to `/images/` and `/about` to `/`, and `/images/` does not match `/images` |
| Router.ServeMux.constructor | gopher.go:895 | a new mux has an empty table |
| Router.ServeMux.Handle | gopher.go:983-1001 | the table becomes the registration's result, or stays the same with its error |
| Router.ServeMux.Match | gopher.go:934-947 | visiting the keys in any order, the result is none exactly when no pattern matches, else the entry of the longest matching pattern |
| Router.ServeMux.HandlerFor | gopher.go:962-972 | the longest match's handler and pattern, or the not-found handler and `""` |
| Server.NormalizeSelector | gopher.go:723-731 | the result starts with `/`; a selector that already does is unchanged, any other gets a `/` in front |
| Server.NormalizeSelectorIdempotent | gopher.go:723-731 | normalising twice is normalising once |
| Server.ReadRequest | gopher.go:713-734 | the selector read from the first line, normalised; `Server.ReadRequestOfLine` and `Server.ReadRequestOfNothing` are its partners |
| Server.WriteData | gopher.go:1060-1070 | Write on a reply value; `Server.ModeIsFixedByFirstWrite` and `Server.WritesAppendOrFail` state its effect |
| Server.WriteItemData | gopher.go:1112-1137 | WriteItem on a reply value; `Server.WritesAppendOrFail` and `Server.WriteItemsSendsMenu` state its effect |
| Server.WriteNoticeData | gopher.go:1072-1110 | WriteInfo and WriteError on a reply value; `Server.NoticeInDocument` states the document case |
| Server.EndReply | gopher.go:1139-1145 | End on a reply value; `Server.EndAddsTerminatorOnlyToMenus` is its partner |
| Server.ReadRequestOfLine | gopher.go:713-734 | a selector sent with CRLF is read back normalised, whatever follows |
| Server.ReadRequestOfNothing | gopher.go:717-726 | a client that sends nothing asks for `/` |
| Server.LocalRequest | gopher.go:743-770 | failure exactly when the listener port is not a decimal int32; otherwise the host is the configured host name when set, else the listener host, and the port is always the listener port |
| Server.WithLocalAddress | gopher.go:1121-1124 | only an item with no host and port 0 takes the request's local host and port |
| Server.ModeIsFixedByFirstWrite | gopher.go:1060-1158 | the mode changes only from undetermined: to document by Write, to menu by the item writes; End leaves it |
| Server.WritesAppendOrFail | gopher.go:1060-1137 | Write in a menu and WriteItem in a document fail and leave the reply unchanged; writes of the right kind only append |
| Server.NoticeInDocument | gopher.go:1072-1110 | in a document, an info or error notice is its bare message and does not fail |
| Server.EndAddsTerminatorOnlyToMenus | gopher.go:1139-1145 | End appends `.\r\n` exactly to a menu |
| Server.SentItems | gopher.go:1121-1124 | every item is sent in its own place, taking the local host and port only when it has no address |
| Server.WriteItemsSendsMenu | gopher.go:1112-1137 | writing items to a reply that is not a document never fails and appends their menu text, in order, with local addresses filled in |
| Server.ResponseWriter.constructor | gopher.go:772-776 | a new writer has no mode and no output |
| Server.ResponseWriter.Write | gopher.go:1060-1070 | the new state and error are Write's on the old state; the count is the data's length, or 0 on error |
| Server.ResponseWriter.WriteItem | gopher.go:1112-1137 | the new state and error are WriteItem's on the old state, and the caller's item gets the local address when it is written |
| Server.ResponseWriter.WriteInfo | gopher.go:1092-1110 | an info notice: a menu line on error.host port 1, or the bare text in a document |
| Server.ResponseWriter.WriteError | gopher.go:1072-1090 | an error notice: a menu line on error.host port 1, or the bare text in a document |
| Server.ResponseWriter.NotFound | gopher.go:1166-1173 | the error notice `resource not found` |
| Server.ResponseWriter.End | gopher.go:1139-1158 | terminates a menu and closes the writer |
| Exchange.ServedMenuScansBack | gopher.go:1112-1158 | a menu written item by item, once ended, scans back on the client into exactly the items as sent |
| Exchange.SelectorReachesServer | gopher.go:382 | the selector a client sends is read by the server, normalised |
| Exchange.HelloRequest | gopher_test.go:99 | `gopher://localhost:7000/1hello` resolves to a directory fetch of `hello` from localhost port 7000 |
| Exchange.HelloRead | gopher.go:713-734 | the server reads that request as `/hello` |
| Exchange.HelloRoute | gopher_test.go:47-48 | with `/` and `/hello` registered, `/hello` routes to the hello handler |
| Exchange.HelloServed | gopher_test.go:73-75 | the hello handler's WriteInfo and End send `iHello World!\t\terror.host\t1\r\n.\r\n` |
| Exchange.HelloItemText | gopher_test.go:107 | the hello item is written as `iHello World!\t\terror.host\t1\r\n` |
| Exchange.HelloReceived | gopher_test.go:95-108 | the client reads one info item `Hello World!`, and the directory's text is the expected line |
| FileServer.Ext | gopher.go:508 | models `filepath.Ext`; `FileServer.ExtSpec` characterises it |
| FileServer.MatchExtension | gopher.go:507-514 | the type of a file name by its lower-cased extension; `FileServer.MatchExtensionIgnoresCase` and `FileServer.MatchExtensionRange` are its partners |
| FileServer.ExtSpec | gopher.go:508 | a non-empty extension is a suffix starting at a `.` with no other `.` or `/`; there is none exactly when every `.` is followed by a `/` |
| FileServer.ExtOfLower | gopher.go:508 | lower-casing a name lower-cases its extension and nothing else |
| FileServer.MatchExtensionIgnoresCase | gopher.go:507-514 | the type does not depend on the name's case |
| FileServer.MatchExtensionRange | gopher.go:464-514 | the type is one of the table's or BINARY |
| FileServer.MatchTextFile | gopher.go:465 | `hello.txt` is a text file |
| FileServer.MatchLastExtension | gopher.go:507-514 | `archive.txt.gz` is binary: only the last extension counts |
| FileServer.MatchDotInDirectory | gopher.go:507-514 | a `.` in a directory name is no extension: `v1.2/README` is binary |
| FileServer.OpenPath | gopher.go:1219-1235 | refused exactly for a name holding a non-`/` host separator or a NUL; otherwise the directory (`.` for an empty one) and the name with `/` in front, not cleaned |
| FileServer.OpenPathBySeparator | gopher.go:1220-1222 | on a `/` host only a NUL is refused; a `\` host also refuses a `\` |
| FileServer.GophermapOf | gopher.go:1340 | a directory's gophermap name is the directory name, less one trailing `/`, followed by `/gophermap` |
| FileServer.ServeChoice | gopher.go:1322-1360 | serveFile's choice; `FileServer.ServeChoiceSpec` characterises it |
| FileServer.ServeChoiceSpec | gopher.go:1322-1360 | an error exactly for an unavailable name, with its text; a document is a file, the name or its directory's gophermap; a listing is a directory, the name itself only when it has no gophermap |
| FileServer.SortByName | gopher.go:1270 | the listing's sort by name; `FileServer.SortByNameSpec` states that it is ordered and a permutation |
| FileServer.NameLessAsymmetric | gopher.go:1318 | Go's string order is asymmetric |
| FileServer.NameLessTotal | gopher.go:1318 | two names neither less than the other are equal |
| FileServer.Insert | gopher.go:1270 | insertion adds one entry, at the head or after the first entry |
| FileServer.InsertSorted | gopher.go:1270 | insertion keeps the order by name and adds exactly the new entry |
| FileServer.SortByNameSpec | gopher.go:1270 | the sorted listing is ordered by name and a permutation of the entries |
| FileServer.ShownEntries | gopher.go:1272-1292 | the entries a listing shows, in order: each one an entry that is not a dot file and is a directory or a regular file |
| FileServer.ListedItems | gopher.go:1272-1312 | at most one item per entry; `FileServer.ListedItemsExactly` gives the items one by one |
| FileServer.ListedItemsShape | gopher.go:1272-1312 | no listed item is a dot file; each sits at the request's local address and names a shown entry |
| FileServer.ListedItemsExactly | gopher.go:1272-1312 | when Rel names every shown entry, the listed items are exactly one per shown entry, in order: type DIRECTORY for a directory and the classifier's type otherwise, the entry's name, its path relative to the root as selector, the local host and port, no extras |
| FileServer.ListFrom | gopher.go:1272-1312 | the listing loop on a reply value; `FileServer.ListFromWritesItems` and `FileServer.NoWritesToDocument` are its partners |
| FileServer.DirListReply | gopher.go:1258-1270 | dirList on a reply value: an error notice when the directory cannot be read, else the sorted listing; `FileServer.ListingScansBack` is its partner |
| FileServer.ListFromWritesItems | gopher.go:1272-1312 | when Rel names every shown entry, the listing's reply is what writing the listed items in order gives |
| FileServer.NoWritesToDocument | gopher.go:1272-1312 | once the reply is a document, the listing's writes change nothing |
| FileServer.ListingScansBack | gopher.go:1258-1313 | a listing served as the whole reply scans back on the client into the listed items, in name order |
| FileServer.DirList | gopher.go:1258-1313 | the writer's new state is the listing's reply on its old state |
| FileServer.HandlerPath | gopher.go:1194-1199 | the file handler's `/` fix of the selector; `FileServer.HandlerPathIsNormalization` is its partner |
| FileServer.HandlerPathIsNormalization | gopher.go:1194-1201 | the file handler's `/` fix is the server's normalisation, so it leaves a selector the server read unchanged |
| FileServer.ServeFile | gopher.go:1322-1360 | the writer's new state is the reply of serveFile's choice on its old state |
| FileServer.ServeUnavailable | gopher.go:1325-1336 | an unavailable name is answered with one error item carrying the error text |
| FileServer.ServeRegularFile | gopher.go:1353-1365 | a file is sent as it is, with no terminator, and the client's file fetch returns it whole |
| FileServer.ServeGophermap | gopher.go:1338-1351 | a directory with a gophermap file is answered with that file's contents |
| FileServer.ServeDirectory | gopher.go:1353-1356 | a directory without a gophermap is listed, and the client reads back the shown entries' items in name order, which `FileServer.ListedItemsExactly` gives one by one |

## Left out

- Sockets, TLS, listening and accepting, the per-connection goroutine, and the mutexes.
  These are I/O and concurrency. The bytes a server sends are a parameter of the client
  functions, and the listener's address is a parameter of `Server.LocalRequest`.
- `conn.serve`'s error branches. In this code `readRequest` fails only when the listener's
  port does not parse (gopher.go:757-759), which is `Server.LocalRequest`'s Failure; the
  host and port split of a TCP address's text practically never fails. The bad-request
  reply `3\tbad request\terror.host\t0` (gopher.go:705) follows exactly that failure and
  is not modelled as a reply. The EOF and timeout checks (gopher.go:699-704) cannot be
  reached, since `readRequest` returns neither error.
- `url.Parse`: the model starts from a URI already split into scheme, host, path and
  query, with no percent-decoding.
- `MarshalJSON` and `ToJSON`: thin wrappers over `encoding/json`.
- `GetItemType` and `matchMimeType`: they use `os.Stat`, content sniffing and Go's random
  map order. The item type of a regular file in a listing is a parameter.
- `cleanPath` is unused. `path.Clean` and `path.Join` are pure lexical functions that are
  not modelled: the handler's `path.Clean` (gopher.go:1200) is left to the caller of
  `FileServer.ServeFile`, and the `path.Join` in `dirList` is inside the Rel and classifier
  parameters. `filepath.Rel`, `os.Open` and `io.Copy` are file-system calls and are
  parameters.
- FileServer.OpenPath: the name is not cleaned. `OpenPath("root", "../etc", '/')` gives
  `/../etc` where `Dir.Open` opens `path.Clean("/" + name)`, that is `/etc`.
- Handlers are opaque ids. `ServeMux.ServeGopher`, `HandlerFunc` and `serverHandler`'s
  fallback to the default mux are not modelled.
- Items.ParseItem: `strconv.Atoi`'s range error is not modelled, so a port beyond the
  platform's int range is accepted as a number instead of failing.
- Items.ParseItem: Go's difference between nil and empty `Extras` has no counterpart; an
  item with no extras always has the empty sequence.
- Server.ResponseWriter.Write: the buffered writer is taken to accept every byte, so
  Write's count is the data's length and a write error never occurs.
- Server.ResponseWriter.End: flush and close errors are not modelled; End always closes.
- Server.ReadRequest: the scanner's 64 KiB token limit is not modelled. On a longer first
  line Go's `Scan` fails, `Text()` is empty and the selector becomes `/`, while the model
  reads the whole line.
- Client.FetchDirectory: the scanner's 64 KiB token limit is not modelled, and a reply's
  lines may be of any length. On a longer line Go's `Scan` stops and the fetch returns the
  items read so far with no error, because `scanner.Err()` is never checked
  (gopher.go:414-433).
- Text.Atoi: Go's `strconv.Atoi` fails on a number outside the platform's int range; the
  model reads a number of any size.
- FileServer.ExtSpec: `/` is the only path separator, as on Unix hosts.
- Text.ToLower: only ASCII letters are lowered; names are byte strings.
