# routerctl in Dafny

routerctl is a command-line controller for a GPON G-93RG1 home router. It logs in to
the router's web interface, then does one of several things:

- lists the active LAN clients;
- shows or changes the MAC filter;
- logs out;
- reboots the router.

It talks to the router with hand-written HTTP/1.1 requests over a TCP socket, and
reads the answers by matching fixed regular expressions against the returned HTML.

This project models the logic of that program and proves what it does:

- **`Client`** (`client.dfy`): the request text `create_request_header` writes. The
  GET/POST choice depends only on whether the body is empty. The POST variant has no
  line break between the User-Agent value and `Connection: close`, as `create_request_header` writes it.
- **`Patterns`** (`patterns.dfy`): five of the six fixed regular expressions, as hand-written
  scanners at one position. The sixth, `MAC_VALIDATE`, is `Router.IsMac`.
  - `Find` gives `captures`: the leftmost match.
  - `FindAll` gives `captures_iter`: non-overlapping matches, each search resuming at
    the end of the previous match.
- **`Text`** (`text.dfy`): `str::split`, `join`, `split_whitespace`, and the byte order
  of strings. Each comes with its laws.
- **`Sorting`** (`sorting.dfy`): `sort_unstable` and `dedup` on the vector of MACs, as
  in-place array algorithms. Each is proved equal to a functional specification. Sorted
  order and dedup laws are proved about those specifications.
- **`Router`** (`router.rs` operations, `router.dfy`): the MAC validator, `login`,
  `logout`, `reboot`, `macflt_enable`, `macflt_disable`, `macflt_status` and
  `active_clients`.
  - Each operation is a function of the router's answer, a `Result<string>`.
  - The request each operation sends is a `Request` value (`LoginRequest`, `LogoutRequest`,
    `RebootRequest`, `DisableRequest`, `EnableRequest`, and the page reads `StatusRequest`
    and `ClientsRequest`), each with a lemma giving its lines.
  - `macflt_enable` is a method with the source's push loops, in-place sort and dedup.
- **`CommandLine`** (`commandline.dfy`): `Args::parse`, as a method.
  - Its inputs are the options clap matched, a map of the file system, and the default
    list path.
  - It applies the password and router defaults, aborts on an invalid `-w`/`-b` MAC,
    and filters the whitespace-separated tokens of the MAC-list file.
- **`Program`** (`program.dfy`): `start` and `main`.
  - The flags are examined in a fixed priority.
  - The login / action / logout sequence stops at the first error.
  - The usage text is printed exactly when there were no arguments.

Sockets, the console, clap and the file system are parameters of the model:

- the router's answer to each request;
- the outcome of each router operation, in `Program`;
- the options clap matched, as a map from option to values;
- the file system, as a map from path to the file's text or its read error;
- the path of the default MAC list.

## Model

| member | source | states |
|---|---|---|
| Client.GetRequestLines | src/client.rs:59-66 | with an empty body, `post` writes exactly the GET request: request line `GET <path> HTTP/1.1`, Host, Accept, User-Agent and `Connection: close` lines, then the blank line and nothing after it |
| Client.PostRequestLines | src/client.rs:51-57 | with a non-empty body: request line `POST <path> HTTP/1.1`, Host, Accept, then the User-Agent value run together with `Connection: close` on one line, a blank line, and the body verbatim with no Content-Length |
| Client.CreateRequestHeader | src/client.rs:50-67 | a non-empty body gives the POST request, its six lines joined with CRLF (the fifth empty, the sixth the body); an empty body gives the GET request, its seven lines joined with CRLF (the last two empty) |
| Client.PostBodyVerbatim | src/client.rs:52-57 | the body is the exact suffix of the POST request, and changing the body changes nothing before it |
| Text.Split | src/router.rs:131 | the fields of `split` join back to the input with the separator, and no field contains the separator |
| Text.SplitJoin | src/router.rs:131 | splitting the join of separator-free fields gives those fields back |
| Text.SplitFieldCount | src/router.rs:131 | splitting on one character gives one more field than that character has occurrences |
| Text.Tokens | src/commandline.rs:80 | every token of `split_whitespace` is a non-empty run of characters none of which is white space |
| Text.TokensSkipWhite | src/commandline.rs:80 | whitespace in front of a text adds no token |
| Text.TokensOfWord | src/commandline.rs:80 | a text that is one word is one token |
| Text.TokensAfterGap | src/commandline.rs:80 | a word followed by any non-empty run of whitespace is the first token, and tokenising resumes after the run |
| Text.TokensOfLayout | src/commandline.rs:80 | words separated by non-empty whitespace runs, with any whitespace before and after, tokenise to exactly those words in order |
| Text.TokensCover | src/commandline.rs:80 | conversely, every text is whitespace followed by its tokens each followed by a whitespace gap, all gaps but the last non-empty: the tokens are the maximal non-whitespace runs, in order |
| Text.TokensAfterWord | src/commandline.rs:80 | a word followed by a space and more text is read as that word followed by the tokens of the rest |
| Text.TokensOfJoin | src/commandline.rs:80 | `split_whitespace` of words joined by spaces gives the words back, in order |
| Text.BelowTransitive | src/router.rs:66 | the byte order of strings `sort_unstable` uses is transitive |
| Text.BelowTotal | src/router.rs:66 | any two strings are equal or ordered one way or the other |
| Text.BelowIrreflexive | src/router.rs:66 | no string is below itself |
| Patterns.FlagAt | src/router.rs:21-22 | `MacFltEnable=([01]);` / `MacFltMode=([01]);` match at a position exactly when the name, a 0 or 1, and `;` are there; the group is that digit |
| Patterns.MacFltListAt | src/router.rs:23 | a `Mac:"([^"]+)"` match captures a non-empty, quote-free group that is exactly what stands between the quotes |
| Patterns.MacFltListAtComplete | src/router.rs:23 | every `Mac:"X"` with X non-empty and quote-free matches, capturing X |
| Patterns.ClientsListAtSound | src/router.rs:19 | a `client_list\[\d+\]='([^']+)';` match is `client_list[`, one or more digits, `]='`, a group without `'`, `';` |
| Patterns.ClientsListAt | src/router.rs:19 | a match's group is non-empty and the match lies within the text |
| Patterns.ClientsListAtComplete | src/router.rs:19 | every `client_list[N]='R';` with N digits and R non-empty and free of `'` matches, capturing R |
| Patterns.DigitRun | src/router.rs:19 | `\d+` takes the whole run of digits and stops at the first non-digit |
| Patterns.Find | src/router.rs:97 | `captures` returns a match at or after the start with no match before it, and none exactly when no position matches |
| Patterns.FindAll | src/router.rs:108 | every capture `captures_iter` returns is a match of the pattern at its own start, at or after where the scan began |
| Patterns.FindAllScans | src/router.rs:108 | `captures_iter` returns matches each found leftmost from where the previous one ended, and no match remains after the last |
| Sorting.Insert | src/router.rs:66 | inserting into a sorted list keeps it sorted and adds exactly that element |
| Sorting.Sort | src/router.rs:66 | the specification of sorting is sorted and a permutation of its input |
| Sorting.SortedUnique | src/router.rs:66 | two sorted permutations of each other are equal, so an unstable sort gives the same list as any other sort |
| Sorting.Dedup | src/router.rs:67 | `dedup` never lengthens a list and keeps its last element |
| Sorting.DedupElements | src/router.rs:67 | `dedup` keeps exactly the elements of its input |
| Sorting.DedupStrictlyIncreasing | src/router.rs:66-67 | `dedup` of a sorted list is strictly increasing |
| Sorting.StrictlyIncreasingUnique | src/router.rs:66-67 | two strictly increasing lists with the same elements are equal |
| Sorting.DedupNoEqualNeighbours | src/router.rs:67 | no two neighbours of the result of `dedup` are equal |
| Sorting.DedupKeepsDistinctNeighbours | src/router.rs:67 | a list without equal neighbours is left unchanged by `dedup` |
| Sorting.DedupIdempotent | src/router.rs:67 | deduplicating twice gives the same as deduplicating once |
| Sorting.SiftDown | src/router.rs:66 | moving the next element down into the sorted prefix before it gives a sorted prefix one longer holding the same elements as before, and leaves everything after it unchanged |
| Sorting.SortInPlace | src/router.rs:66 | `sort_unstable` on the array leaves the sorted permutation of its old contents |
| Sorting.DedupInPlace | src/router.rs:67 | `dedup` on the array leaves the deduplicated old contents as a prefix, whose length it returns |
| Router.Completed | src/router.rs:36-37 | `op(..)?; Ok(())` succeeds exactly when the response does, passing on its error |
| Router.GroupsThenPairShape | src/router.rs:17 | the regex `([a-fA-F0-9]{2}:){n}[a-fA-F0-9]{2}` anchored at both ends accepts exactly n+1 hex pairs separated by colons |
| Router.IsMac | src/router.rs:17 | a string is a valid MAC exactly when it has 17 characters, a colon at every third position and hex digits of either case elsewhere |
| Router.IsMacExamples | src/test.rs:46-48 | `Ac:5f:04:db:ea:49` is accepted and `hello:world:94859` is rejected |
| Router.MacHasNoDashOrCr | src/router.rs:17 | a valid MAC contains neither `-` nor a carriage return |
| Router.LoginRequestLines | src/router.rs:27-28 | `login` posts to `/GponForm/LoginForm` the body `XWebPageName=index&username=admin&password=` followed by the password |
| Router.LoginMarkerExamples | src/router.rs:16 | the unescaped dot of `login.html` accepts any character but a line feed between `login` and `html`: `href="login.html"` and `login-html` are login pages, `login` LF `html` and `index.html` are not |
| Router.Login | src/router.rs:26-33 | a transport error propagates; otherwise `login` fails exactly when the page contains `login`, one character other than a line feed, `html`, with the error "wrong password or someone logged in" |
| Router.LogoutRequestLines | src/router.rs:35-38 | `logout` is a GET of `/logout.html` with no body |
| Router.RebootRequestLines | src/router.rs:40-43 | `reboot` posts `XWebPageName=reboot&admin_action=reboot` to `/GponForm/reboot_XForm` |
| Router.DisableRequestLines | src/router.rs:89-92 | `macflt_disable` posts the fixed body `macfltlist=&macfltmode=0&XWebPageName=mac_filter` to `/GponForm/mac_filter_XForm` |
| Router.MacFltEnable | src/router.rs:45-87 | with no MACs from the file or the command line nothing is sent and the result is Ok; otherwise it sends the enable form for the sorted, deduplicated list, and the result is the response's |
| Router.SentMacsLaws | src/router.rs:48-67 | the list sent is strictly increasing in byte order (so `AA:..` and `aa:..` both survive), holds exactly the MACs given, and is empty only when none were given |
| Router.SentMacsDependOnlyOnElements | src/router.rs:48-67 | the list sent depends only on the set of MACs given, not on their order, source or repetition |
| Router.EnableBodyRoundTrip | src/router.rs:79-81 | between `macfltenable=on&macfltlist=0-` and `&macfltmode=0&XWebPageName=mac_filter`, the body splits on `-.-0-` back into the MACs sent |
| Router.EnableRequestLines | src/router.rs:79-81 | the enable form is a POST to `/GponForm/mac_filter_XForm` whose body is the whole last line |
| Router.FlagDigitsExclusive | src/router.rs:21-22 | a flag cannot read both 0 and 1 at one position |
| Router.FlagNotFound | src/router.rs:97-99 | when `captures` finds no flag, the flag occurs nowhere on the page |
| Router.FlagMatch | src/router.rs:21-22 | a flag pattern matches exactly where its name is followed by 0 or 1 and `;` |
| Router.FlagDigit | src/router.rs:21-22 | an occurrence reads 1 exactly when its captured digit is 1 |
| Router.FlagFound | src/router.rs:97-98 | the flag `captures` finds is the first occurrence, and its group is `1` exactly when the first occurrence reads 1 |
| Router.LeadingFlag | src/router.rs:97-105 | a flag is missing exactly when it occurs nowhere; otherwise it is true exactly when its first occurrence reads 1 |
| Router.StatusRequestLines | src/router.rs:95 | `macflt_status` reads the filter page with a GET of `/mac_filter.html` and no body |
| Router.MacFltStatus | src/router.rs:94-109 | a transport error propagates; "match MACFLT_STATUS failed" exactly when the enable flag is missing; with it present, "match MACFLT_MODE failed" exactly when the mode flag is missing; the result is Ok exactly when both flags are present, and then status and mode are their first occurrences read as 1, and the list is every `Mac:"X"` group in document order |
| Router.MacEntryStep | src/router.rs:108 | a `Mac:"X"` entry at the scan position is the next match, capturing X, and the scan resumes where the entry ends |
| Router.MacEntriesCons | src/router.rs:108-109 | one more entry in front of a page puts its MAC in front of the list read |
| Router.MacEntriesScanned | src/router.rs:108-109 | on a page of `Mac:"X"` entries the scan returns exactly those X, in order |
| Router.MacsOfPage | src/router.rs:108-109 | a page made only of `Mac:"X"` entries, back to back, yields exactly their MACs in order, empty included |
| Router.Rows | src/router.rs:130-132 | each client row joined with a bar is the captured record, and has one more field than the record has a bar |
| Router.ClientsRequestLines | src/router.rs:128 | `active_clients` reads the client page with a GET of `/laninfo.html` and no body |
| Router.ActiveClients | src/router.rs:127-132 | a transport error propagates; otherwise the rows are the `client_list` records in document order, each split on a bar |
| Router.ClientEntryMatches | src/router.rs:19 | a `client_list[N]='...';` entry whose record is its fields joined by bars matches the pattern over its whole length, with that record as group |
| Router.ClientEntryStep | src/router.rs:130 | a client entry at the scan position is the next match, and the scan resumes where the entry ends |
| Router.ClientEntriesCons | src/router.rs:130-132 | one more entry in front of a page puts its fields in front of the table |
| Router.ClientEntriesScanned | src/router.rs:130-132 | on a page of client entries the scan returns exactly their fields, in order |
| Router.ClientsOfPage | src/router.rs:127-132 | `active_clients` on a page of client entries gives exactly their fields, row by row |
| CommandLine.FirstInvalid | src/commandline.rs:54-59 | none exactly when every entry is a MAC; otherwise the first entry that is not |
| CommandLine.FirstInvalidAfterValid | src/commandline.rs:55-59 | behind a valid entry, the first invalid entry of the rest is the first invalid entry of the whole list |
| CommandLine.CheckMacs | src/commandline.rs:55-59 | the validation loop finds the first invalid MAC, if any |
| CommandLine.ValidMacs | src/commandline.rs:80-87 | the filter never lengthens the token list and keeps only tokens that are MACs |
| CommandLine.ValidMacsElements | src/commandline.rs:80-87 | the kept tokens are exactly the tokens that are MACs |
| CommandLine.ValidMacsAppend | src/commandline.rs:80-87 | filtering distributes over concatenation, so order is kept |
| CommandLine.ValidMacsOfMacs | src/commandline.rs:80-87 | a list of valid MACs is kept whole |
| CommandLine.MacIsWord | src/commandline.rs:80-81 | a MAC contains no whitespace |
| CommandLine.MacFileRoundTrip | src/commandline.rs:78-88 | a file of valid MACs separated by any non-empty runs of whitespace (one per line included), with any whitespace before the first and after the last, yields exactly that list in order, with no complaint |
| CommandLine.RejectionsAppend | src/commandline.rs:80-87 | the complaint lines of a token list are those of its parts, in order |
| CommandLine.RejectionOfToken | src/commandline.rs:84-86 | a token that is not a MAC gets exactly the line `routerctl: ERR: entry(t) is not a valid MAC.`, and a MAC none |
| CommandLine.NoRejections | src/commandline.rs:84-86 | valid MACs cause no complaint |
| CommandLine.CollectMacs | src/commandline.rs:78-87 | the token loop keeps the valid MACs in order and logs one complaint per invalid token |
| CommandLine.ReadListFile | src/commandline.rs:74-93 | a file gives `Some` of its valid MACs (possibly empty); an unreadable file panics with "can't read"; a path naming no file leaves the list `None` and logs that it is not a file |
| CommandLine.FailureCases | src/commandline.rs:54-79 | parsing panics exactly when a `-w` or `-b` entry is not a MAC or the list file exists but cannot be read |
| CommandLine.ParseLists | src/commandline.rs:54-93 | the list options panic exactly in the failure cases; otherwise the `-w`/`-b` lists are kept as given and the file list and log are as `ReadListFile` gives them |
| CommandLine.Parse | src/commandline.rs:45-115 | panics exactly in those cases, with the first failure's message; otherwise password defaults to `admin` and router to `192.168.1.1:80`, the `-w`/`-b` lists are kept as given, the file list is as above, and each flag is set exactly when its option is present |
| Program.FirstSetFromIsFirst | src/main.rs:25-61 | the search for the first set flag from a place finds a set flag with none set between that place and it, or runs off the end when none is set |
| Program.SelectedAtFirstSet | src/main.rs:25-61 | the action `start` picks is the one whose flag is the first set, in the order login, clients, enable, disable, status, logout, reboot |
| Program.SelectedIsFirstSetFlag | src/main.rs:25-61 | the flags are examined in the order login, clients, enable, disable, status, logout, reboot, and only the first one set acts |
| Program.Start | src/main.rs:24-64 | `start` makes at most four router calls, and when it fails, the failure is the outcome of the last call it made |
| Program.Execute | src/main.rs:29-52 | a plan runs up to and including its first failure, which is the result; it succeeds exactly when every step does, and then every step ran |
| Program.StartRunsPlan | src/main.rs:24-64 | `start` runs exactly the plan of the selected action: login only; login, clients, logout; login, enable, logout; login, disable, logout; login, status, clients, logout; logout only; login, reboot; nothing |
| Program.SessionRun | src/main.rs:29-52 | running a plan that opens with a login and closes with its only logout starts with the login, ends with the logout on success, and sends no logout after a failure |
| Program.SessionPlans | src/main.rs:29-48 | the clients, enable, disable and status plans open with a login and close with their only logout |
| Program.SessionShape | src/main.rs:29-52 | the clients, enable, disable and status actions start with a login, end with a logout on success, send no logout after a failure, and stop at once when login fails |
| Program.UnusedFlags | src/main.rs:24-64 | `get_macs_only`, `show_white_list` and `show_black_list` never change what `start` does, and with no action flag it does nothing and returns Ok |
| Program.ProgramRun | src/main.rs:66-73 | a panic while parsing ends the program with that message; otherwise `main` runs `start`, prints the usage exactly when there were no arguments, and writes at most one error line |
| Program.MainReports | src/main.rs:66-73 | `main` prints the usage exactly when there were no arguments, whether or not `start` failed, and an error line exactly when `start` failed, that line being `routerctl: ERR: ` followed by the error's text |
| Program.RefusedLogin | src/main.rs:29-61 | when the router answers the login with its login page, a session action or reboot performs only the login and reports the refusal |

## Left out

- Sockets: `Client::connect`, address parsing, `write_all`, the write half-close and `read_to_string` are not modelled. The router's answer to each request is a parameter, and a transport failure is an `Err` value of it.
- Lossy UTF-8 decoding of the MAC-list file is not modelled. File contents are strings, and a read error is a `FileEntry` of its own.
- `current_exe` discovery of the default `macs.txt` path is not modelled. That path is a parameter of `Parse`.
- The clap option table and `get_matches` are not modelled. The matched options are a map from option to values.
- Console output is not modelled: the `no MAC given.` warning on standard error, the verbose listing, the stdin confirmation pause, the verbose `sent successfully.` line, the status printout with `onoff!`, and the prettytable rendering. `Parse` returns the lines it prints as a log, and `MacFltStatus` and `ActiveClients` return what they would print.
- `lazy_static` and `Arc` globals are not modelled. The settings are passed explicitly.
- `src/test.rs` is not modelled. It is an ad-hoc printing routine; only its two MAC examples appear, in `Router.IsMacExamples`.
- Patterns.DigitRun: `\d` matches the ASCII digits only. Rust's `\d` also matches other Unicode decimal digits.
- Text.Tokens: `split_whitespace` splits on ASCII whitespace only. Rust's also splits on other Unicode white space.
- CommandLine.CantRead: the panic message is "can't read '<path>': " followed by the error text. Rust's `expect` formats the error with `Debug`, which is not modelled.
- Program.ProgramRun: what `Args::parse` prints is not part of the exit report. `CommandLine.Parse` returns it as its log.
- Program.Outcome: `macflt_enable` depends on the parsed lists through `Router.MacFltEnable`. `Outcome` states only that outcome, not the request itself.
- `add_white_list` is parsed and validated, but no operation of routerctl uses it.
