# pb snippet store — a Dafny model

pb is a small paste server written in Go. Snippets are text blobs stored one
file per id under a data directory. Three relation files record, for each
id, the SHA-256 of its content (`index.txt`), its owner (`owners.txt`) and
the owner's password (`passwords.txt`). Each relation file holds one
`"<id> <value>\n"` line per entry.

- New content gets a fresh id: the shortest free string over the 62
  characters `a-z A-Z 0-9`, picked in random order.
- Content that is already stored gets its existing id back (deduplication).
- A named owner with a password protects a snippet against updates and
  deletions by others.
- A read limit N can be set on an id. The read that brings the id's count
  to N expires it, and the counter forgets the id. The count includes every
  read of that id since it last expired, reads of an earlier snippet under
  the same id among them. An unowned snippet is then deleted; an owned one
  stays and simply has no limit any more.
- The HTTP layer assembles multi-part uploads into one snippet, chooses
  between update and create, routes paths, and checks Basic-Auth
  credentials against the user's `.netrc`.

The model has one module per concern:

| file | module | models |
|---|---|---|
| `wrappers.dfy` | `Wrappers` | `Option` and `Result` |
| `text.dfy` | `Text` | the parts of Go's `strings` used: `Split`, `SplitN(…, 2)`, `Index`, `HasPrefix`, `Fields`, `TrimSpace`, `unicode.IsSpace` |
| `id_encoding.dfy` | `IdEncoding` | `idChars`, `intPow` and `baseN` (store.go) |
| `line_format.dfy` | `LineFormat` | `loadMapFromFile` and `saveToFile` (store.go): the relation file format |
| `store.dfy` | `Store` | the `Store` class: `newStore`, `generateID`, `createSnippet`, `getSnippet`, `deleteSnippet`, `updateSnippet` |
| `counter.dfy` | `Counter` | the `ReadCounter` class of counter.go |
| `netrc.dfy` | `Netrc` | `authenticateUser` (auth.go): the `.netrc` scan and the comparison |
| `handlers.dfy` | `Handlers` | handlers.go: `processFileOrContent`, the part loop and read limits of `handlePostRequest`, update versus create, the fetch-and-expire path and the routing of `createMainHandler` |

How the model represents the outside world:

- `Store` holds the three relations as `map<string, string>` fields and the
  content files as a `files` map.
- The text last written to each relation file is an `Option<string>` field.
- `contentHash` is a function given when the store is constructed (`hash`).
- A random or map-iteration order is a nondeterministic choice (`:|`). So
  every property proved about `GenerateID`, `SaveToText` and
  `CreateSnippet` holds for every order the Go runtime could produce.
- A parsed multipart form is a `Form` value, keyed by a `Key` datatype
  (`f:i`, `name:i`, `ext:i`, `read:i`, `id:i`, `rm`).
- An unreadable upload, an unreadable body and a failed content write are
  inputs of the operations.

Behaviours of the code that are easy to miss, all kept by the model:

- `updateSnippet` checks ownership only when a username is given
  (store.go:221-228). An owned snippet can therefore be updated by a request
  with no username. Deletion does not allow this (store.go:185-188).
  `Store.UpdateDeleteGap` states the exact difference.
- A value containing a space round-trips through a relation file, because
  only the first space of a line separates key from value. A value
  containing a newline does not round-trip: the newline splits the entry
  into two. `LineFormat.SavedRoundTrip` and
  `LineFormat.NewlineInValueIsLost` state both facts.
- The main handler passes the Basic-Auth username and password to the store
  whether or not the `.netrc` check accepted them (handlers.go:22). The
  store compares them only with what it has stored.
- Read limits are registered as deferred calls (handlers.go:120-125). These
  run last-registered first when the handler returns, so the limit from the
  lowest index is the one that stays. The calls apply to the id in force at
  return: the created or updated id, or the path's own id when the body
  cannot be read.
- The read counter is keyed by id and is never cleared by a deletion
  (store.go:173-210, handlers.go:94-101), while generateID hands out freed
  ids again (store.go:84-112). A new snippet under a reused id therefore
  inherits the old count and limit: a limit of 2 on an id already read
  three times expires it on its first read, and a snippet posted with no
  limit can expire under its predecessor's. `Counter.StaleCountExpiresAtOnce`
  states this.
- When an update changes the content but the content file cannot be
  written, `updateSnippet` has already recorded the new hash and returns
  false (store.go:236-249). The handler then falls through to creating a
  snippet (handlers.go:141-150), which finds that hash under `id:1` or
  another id. Such a request may therefore change `id:1` and also return
  another id; `Handlers.Touched` names both, and `Handlers.FormEffect`
  gives the create on the maps the update left.

## Model

| member | source | states |
|---|---|---|
| Text.Split | store.go:57 | strings.Split on one character: at least one piece, and no piece contains the separator |
| Text.JoinSplit | store.go:57 | joining the pieces of a split with the separator gives back the original text |
| Text.SplitAppend | store.go:57 | splitting `x + sep + y` gives the pieces of `x` followed by the pieces of `y` |
| Text.SplitNoSep | store.go:57 | a text without the separator is a single piece |
| Text.FindAppend | store.go:58 | the first separator of `x + y` is the first one of `x`, else the length of `x` plus the first one of `y` |
| Text.SplitN2 | store.go:58 | strings.SplitN(s, sep, 2): two parts exactly when sep occurs; the first part holds no sep; the parts joined by sep give back s |
| Text.Find | store.go:58 | the first index of the character, or the length when it is absent; nothing before it matches |
| Text.WordEnd | auth.go:27 | the leading run of non-space characters ends at a space or at the end |
| Text.Fields | auth.go:27 | strings.Fields yields non-empty fields without spaces |
| Text.TrimSpace | auth.go:27 | trimming never lengthens the text |
| Text.FieldsOfTrimSpace | auth.go:27 | Fields(TrimSpace(s)) == Fields(s): the trim before Fields changes nothing |
| Text.FieldsAppendSpace | auth.go:27 | a trailing space adds no field |
| Text.DropSpaces | auth.go:27 | the text with its spaces left out holds no space and is no longer than the text |
| Text.DropSpacesAppend | auth.go:27 | leaving out spaces works piece by piece over a concatenation |
| Text.DropSpacesNoSpace | auth.go:27 | a text without spaces loses nothing |
| Text.FieldsConcat | auth.go:27 | the fields written one after another are exactly the text with its spaces left out: nothing lost, nothing added, order kept |
| Text.WordEndOfWord | auth.go:27 | a space-free word followed by nothing or a space ends where the word does |
| Text.FieldsJoin | auth.go:27 | non-empty space-free words joined by single spaces split into fields give back the words |
| Text.IsSpace | auth.go:27 | unicode.IsSpace: the six ASCII blanks, U+0085, U+00A0 and the Unicode White_Space characters above U+00FF |
| Text.HasPrefix | handlers.go:26 | strings.HasPrefix: the text starts with the prefix |
| IdEncoding.CharRange | store.go:22 | a run of consecutive characters of the given length |
| IdEncoding.IdCharsLiteral | store.go:22 | the id alphabet is the literal "a…z" + "A…Z" + "0…9" |
| IdEncoding.IdCharAt | store.go:22 | the alphabet has 62 characters, and the k-th is a letter or digit at a known code point |
| IdEncoding.IdCharsDistinct | store.go:22 | the 62 characters of the alphabet are pairwise distinct |
| IdEncoding.IdCharsAre | store.go:22 | a character is in the alphabet exactly when it is an ASCII letter or digit |
| IdEncoding.IdStringOver | store.go:22 | a string of ASCII letters and digits is exactly a string over the id alphabet |
| IdEncoding.PowPositive | store.go:260-266 | a power of a positive base is positive |
| IdEncoding.PowExceeds | store.go:92 | 62^length > length, which bounds how far generateID can lengthen ids |
| IdEncoding.IntPow | store.go:260-266 | intPow returns base^exp, and 1 for a non-positive exponent |
| IdEncoding.Digits | store.go:275-279 | the base-b digits of a number, most significant first: exactly `length` of them, each below the base |
| IdEncoding.ValueOfDigits | store.go:275-279 | reading the digits back gives the number, when it is below base^length |
| IdEncoding.DigitsOfValue | store.go:275-279 | every digit sequence is the digits of its value, and that value is below base^length |
| IdEncoding.Spell | store.go:277 | each digit is replaced by the alphabet character at that index |
| IdEncoding.Encode | store.go:268-281 | the encoding has exactly `length` characters, all from the alphabet |
| IdEncoding.FindDistinct | store.go:277 | in an alphabet without repeats, the character at index d is found at index d |
| IdEncoding.DecodeEncode | store.go:268-281 | decoding the encoding of a number below base^length gives the number back |
| IdEncoding.EncodeDecode | store.go:268-281 | every string over the alphabet is the encoding of a number below base to the power of its length |
| IdEncoding.EncodeInjective | store.go:268-281 | distinct numbers below base^length have distinct encodings |
| IdEncoding.DigitsPrefix | store.go:275-279 | filling digits from the right: the last digit of a prefix is n % base and the rest is the digits of n / base |
| IdEncoding.FillDigits | store.go:274-280 | the right-to-left fill loop of baseN produces the encoding of num |
| IdEncoding.BaseN | store.go:268-281 | baseN succeeds exactly when num < base^length, fails with the too-large error otherwise, and returns the encoding |
| LineFormat.ParseLine | store.go:58-61 | a line counts exactly when it has a space and does not start with one; the key is non-empty and space-free, and key + " " + value is the line |
| LineFormat.LoadMapFromFile | store.go:47-64 | a missing file gives the empty map; otherwise the loop builds Parse of the text, later lines overriding earlier ones |
| LineFormat.ParseLinesAppend | store.go:56-62 | the lines of a concatenation: later lines override earlier ones key by key |
| LineFormat.ParseAppend | store.go:56-62 | Parse(x + "\n" + y) == Parse(x) + Parse(y) |
| LineFormat.ParseEmpty | store.go:56-63 | an empty file holds no entries |
| LineFormat.ParseLinesWellFormed | store.go:57-61 | whatever the lines, the loaded keys are non-empty and free of spaces and newlines, and no value holds a newline |
| LineFormat.Parse | store.go:56-63 | what loadMapFromFile builds from a text: the lines split at newlines, parsed in order; always well formed (keys non-empty, without space or newline; values without newline) |
| LineFormat.RenderSnoc | store.go:68-73 | writing one more key appends its "<id> <value>\n" line |
| LineFormat.Render | store.go:66-74 | what saveToFile writes for a given key order: one "<id> <value>\n" line per key, in that order |
| LineFormat.SaveToText | store.go:66-74 | saveToFile writes one "<id> <value>\n" line per key of the map, in the order it returns, which lists every key exactly once |
| LineFormat.SplitEntry | store.go:58-71 | SplitN on " " of a written line gives back key and value |
| LineFormat.ParseEntryLine | store.go:58-71 | a written line of a well-formed entry parses back to that entry |
| LineFormat.RestrictSnoc | store.go:68-73 | the entries of the first n+1 keys are those of the first n plus the last key's |
| LineFormat.RenderLast | store.go:68-73 | the last written entry is a line of its own in front of what follows |
| LineFormat.ParseEntryThen | store.go:57-72 | one written entry line followed by more text parses as that entry, overridden by the rest |
| LineFormat.ParseRender | store.go:57-72 | parsing what saveToFile wrote for some keys gives exactly the entries of those keys |
| LineFormat.RestrictAll | store.go:68 | writing every key of the map keeps the whole map |
| LineFormat.SavedRoundTrip | store.go:47-78 | loadMapFromFile of what saveToFile wrote gives back the map, in any iteration order, for well-formed maps (values may contain spaces) |
| LineFormat.NewlineInValueIsLost | store.go:57-72 | a value containing "\n" does not round-trip: it comes back cut at the newline, with a spurious extra entry |
| Store.Get | store.go:120 | Go's map index: the stored value, or "" for a missing id |
| Store.MayClaim | store.go:120 | a duplicate upload is claimed only by a named owner, and only when the snippet is unowned or owner and password both match |
| Store.MayDelete | store.go:182-193 | an unowned snippet may be deleted by anyone; an owned one only by its named owner, with the stored password when one is stored |
| Store.MayUpdate | store.go:221-228 | without a username there is no check; with one, an owned snippet needs that owner and the stored password |
| Store.AgreeOff | store.go:114-252 | two relations agree on every id outside a given set |
| Store.AgreeOffTrans | store.go:114-252 | changes confined to s and then to t are confined to s and t together |
| Store.CreateEffect | store.go:114-155 | what createSnippet leaves: for indexed content an id already holding the hash, index and files kept, owner and password per the claim rule; otherwise a fresh id of the shortest free length with the hash, the file, and owner and password when an owner is named |
| Store.UpdateDeleteGap | store.go:182-228 | whoever may delete may update; update is allowed and delete refused exactly for an owned id and an empty username |
| Store.AnonymousCannotDeleteOwned | store.go:185-188 | no request without a username deletes an owned snippet, whatever the password |
| Store.Below | store.go:94 | the indices 0 .. n-1 that rand.Perm(n) orders |
| Store.EncodingsStep | store.go:92-98 | the encodings of 0 .. n-1 are those of 0 .. n-2 plus that of n-1 |
| Store.EncodingsOverCount | store.go:92-98 | there are exactly n encodings of 0 .. n-1 at a length where they all fit |
| Store.FullBound | store.go:91-110 | if every id of some length is taken, the index holds at least 62^length ids |
| Store.ConsistentClaim | store.go:120-127 | claiming an indexed id keeps the relations consistent |
| Store.ConsistentStore | store.go:136-153 | storing content under an id, with or without an owner, keeps the relations consistent |
| Store.ConsistentRemove | store.go:195-207 | removing an id from all relations and files keeps them consistent |
| Store.ConsistentDedup | store.go:118-119 | with an injective hash, the id found by hash holds exactly the submitted content |
| Store.Store.constructor | store.go:35-45 | each relation is loaded from its file; a missing file gives an empty relation; a store with no relation files and no content files is consistent |
| Store.Store.SaveIndex | store.go:145 | the index file holds a rendering of the index |
| Store.Store.SaveOwners | store.go:146-147 | the owners and passwords files hold renderings of their relations |
| Store.Store.AgreesOff | store.go:114-252 | outside a set of ids, all three relations and the files equal given ones |
| Store.Store.Record | store.go:236-244 | the id gets the content's hash and, for a named owner, that owner and password; all three relations are saved |
| Store.Store.Forget | store.go:195-201 | the id leaves all three relations, and they are saved |
| Store.Store.GenerateID | store.go:84-112 | the id is not in the index, is made of alphabet characters, and every shorter length is fully taken (shortest free length) |
| Store.Store.CreateSnippet | store.go:114-155 | the new maps are `CreateEffect` of the old: duplicate content returns an id already holding that hash, touching no file and claiming ownership exactly under the claim rule; new content gets a fresh shortest id, its hash, its file and the owner if named; consistency is preserved, the id holds the content, and no other id changes |
| Store.Store.ReuseExisting | store.go:118-131 | an id already holding the content's hash is returned; the index and files stay; the claim rule decides the owner; with an injective hash that id's file is the content; no other id changes |
| Store.Store.ClaimExisting | store.go:118-131 | a named owner takes over an unowned id, or one whose owner and password match; otherwise nothing changes; no other id changes |
| Store.Store.InsertNew | store.go:136-154 | a fresh shortest id gets the hash, the file and (for a named owner) owner and password; all relations are saved; no other id changes |
| Store.Store.GetSnippet | store.go:157-171 | found exactly when the id is indexed and its file exists; the content is that file's |
| Store.Store.DeleteSnippet | store.go:173-210 | succeeds exactly for an indexed id the caller may delete; then the id leaves the relations and the files, which are saved; otherwise nothing changes; no other id changes |
| Store.Store.UpdateSnippet | store.go:212-252 | refused, changing nothing, for a missing id or a failed ownership check; the same hash is a no-op success; otherwise new hash, the owner becomes the caller when named, the relations are saved, and the result reports the file write; no other id changes |
| Counter.Count | counter.go:30 | Go's map index on counts: the stored count, or 0 |
| Counter.Expires | counter.go:30-37 | the read that brings the id's count to its limit expires it; an id without a limit never expires |
| Counter.ReadCounter.constructor | counter.go:13-18 | a new counter has no counts and no limits |
| Counter.ReadCounter.SetMaxReads | counter.go:20-24 | the id's limit is set or replaced, and nothing else changes |
| Counter.ReadCounter.IncrementAndCheck | counter.go:26-40 | expired exactly when `Expires` holds: a limit is set and the incremented count reaches it; then both entries of the id are gone, otherwise the count grows by one |
| Counter.ExpiresOnNthRead | counter.go:20-40 | with limit n, only the n-th of any number of reads reports expiry |
| Counter.NeverExpiresWithoutLimit | counter.go:26-40 | without a limit no read ever expires the id, and each read is counted |
| Counter.StaleCountExpiresAtOnce | counter.go:26-40 | an id read `earlier` times without a limit, then given a limit n <= earlier + 1, expires on its next read: counts outlive the snippet |
| Netrc.Step | auth.go:34-45 | `machine` changes only the machine; `login` and `password` change their value only while the machine is the host |
| Netrc.Adjacent | auth.go:33 | each field but the last is paired with the next one; fewer than two fields give no pair |
| Netrc.RunAppend | auth.go:27-46 | scanning two runs of pairs in sequence is scanning their concatenation |
| Netrc.Scan | auth.go:25-46 | what the scan leaves in its three variables: the steps of the switch over every adjacent field pair of every line, from empty variables |
| Netrc.ScanNetrc | auth.go:26-47 | the nested loops end with the login and password of the scan of the whole file |
| Netrc.RunSnoc | auth.go:33-46 | one more pair is one more step of the switch |
| Netrc.LinePairsSnoc | auth.go:27-33 | one more line contributes its adjacent field pairs |
| Netrc.AuthenticateUser | auth.go:10-50 | no credentials or no readable `.netrc` gives ("", "", false); otherwise the request's own username and password are returned, and ok holds exactly when both equal the scanned values |
| Netrc.MachineBeforePrefix | auth.go:35-36 | the machine in force at a pair does not depend on later pairs |
| Netrc.RunMachine | auth.go:35-36 | after the scan the machine is the last one named |
| Netrc.RunRecorded | auth.go:37-44 | the scanned login (password) is the value of the last `login` (`password`) keyword met while the machine was the host, and "" when there is none |
| Netrc.PairsOfLines | auth.go:27-33 | each line contributes its own adjacent pairs, and a line with fewer than two fields contributes none |
| Netrc.LineFieldsUntrimmed | auth.go:27 | the trim before Fields is redundant |
| Netrc.NoEntryAcceptsEmpty | auth.go:26-49 | with no login or password for the host, the scan yields "" for both, so an empty username and password are accepted |
| Handlers.FormValue | handlers.go:115-117 | r.FormValue: the field's value, or "" when absent |
| Handlers.Decimal | handlers.go:110-113 | Sprintf("%d") of a non-negative number is a non-empty string of digits |
| Handlers.Atoi | handlers.go:117 | strconv.Atoi: a result lies in the 64-bit range, and the empty string is an error |
| Handlers.DigitsValueOfDecimal | handlers.go:110-117 | reading back the digits Sprintf wrote gives the number |
| Handlers.AtoiDecimal | handlers.go:117 | Atoi of a decimal within range gives the number |
| Handlers.ReadLimit | handlers.go:116-117 | a read limit is honoured exactly when `read:i` parses to a positive integer, and it is that integer |
| Handlers.ReadLimitOfDecimal | handlers.go:116-117 | a positive decimal in `read:i` is honoured as that number |
| Handlers.ReadLimits | handlers.go:109-126 | the limits registered up to an index are all positive |
| Handlers.NormaliseExt | handlers.go:181-188 | an absent extension stays empty; any other gets exactly one leading "." added unless it already has one |
| Handlers.NormaliseExtIdempotent | handlers.go:181-188 | normalising an extension twice is normalising it once |
| Handlers.Banner | handlers.go:210-223 | the separator written before every part but the first: two newlines, "--- ", name and extension, " ---", two newlines |
| Handlers.Contribution | handlers.go:210-223 | an absent or unreadable part adds nothing; the first part adds its body; later parts add a banner and then the body |
| Handlers.PartAt | handlers.go:174-228 | an upload wins over a field of the same key; the part is unreadable exactly when the first upload cannot be opened; the name is `name:i`, else the upload's file name, else "File i"; the body is the upload's or the field's |
| Handlers.WritePart | handlers.go:210-223 | a part adds its banner (except the first part) and then its body |
| Handlers.ProcessFileOrContent | handlers.go:174-228 | reports more exactly when index i holds a file or non-empty field, appends that part's contribution, and sets processed then |
| Handlers.PendingShrinks | handlers.go:109-134 | each round that finds a part consumes one of the form's finitely many file keys, so the loop ends |
| Handlers.LastPartFromMeaning | handlers.go:109-134 | from index i, every index up to the last part holds one and the next does not |
| Handlers.PartCountMeaning | handlers.go:109-134 | parts 1 .. PartCount are present and the one after is absent: the loop stops at the first gap |
| Handlers.AssembledFirst | handlers.go:210-213 | the first part appears without a banner |
| Handlers.NoteReadLimit | handlers.go:115-126 | a positive `read:i` is registered, and nothing else |
| Handlers.AssembleParts | handlers.go:105-135 | the loop builds the contributions of parts 1 .. PartCount, reports processed exactly when there was one, and registers the limits of every index it visits, the stopping one included |
| Handlers.ApplyLimits | handlers.go:120-125 | the deferred calls run in reverse, so the id keeps the first registered limit; nothing happens for an empty id |
| Handlers.AttemptsUpdate | handlers.go:140 | an update is attempted exactly when a username and `id:1` are both given |
| Handlers.UpdateSucceeds | handlers.go:140-146 | the attempted update succeeds: `id:1` is indexed, the caller may update it, and the content is unchanged or its file is written |
| Handlers.Touched | handlers.go:137-156 | the ids a submission may change: the resulting id, and `id:1` when an update was attempted |
| Handlers.UpdateRecords | store.go:212-244 | the attempted update records the new hash: `id:1` is indexed, the caller may update it, and its hash changes |
| Handlers.FormEffect | handlers.go:137-156 | the maps after a submission: an update of changed content gives `id:1` the hash, the caller as owner with the password and the content as file; an update of unchanged content changes nothing; a create is `CreateEffect` of the maps before, or of the maps a recorded update with a failed write left |
| Handlers.UpdateOrCreate | handlers.go:139-150 | update exactly when `UpdateSucceeds`, then the id is `id:1`; otherwise create; the id holds the content's hash, only the touched ids change, and the new maps are `FormEffect` of the old |
| Handlers.SubmitForm | handlers.go:137-156 | the result is `Updated(id:1)` exactly when the update succeeds, else `Created`; the id holds the hash of the assembled content; the new maps are `FormEffect` of the old (owner transfer and file write on update, dedup or fresh id on create); only the touched ids change; the id gets the first read limit |
| Handlers.SubmitBody | handlers.go:159-171 | an unreadable body gives a bad request with the store unchanged; otherwise the new maps are `CreateEffect` of the old for the body, and only its id changes; the limits apply to the id in force |
| Handlers.PostContent | handlers.go:137-172 | after the `rm` check: the parts of the form decide update or create as in SubmitForm, with the maps given by `FormEffect`; without parts the body is stored as `CreateEffect` gives; bad request exactly when there are no parts and the body cannot be read |
| Handlers.HandlePost | handlers.go:91-172 | `rm` deletes exactly when the store allows it, removing the id from the relations and files, and otherwise changes nothing; a form with parts updates exactly when the update succeeds, else creates, with the maps given by `FormEffect` and only the touched ids changed; otherwise the body is stored as `CreateEffect` gives; bad request exactly when neither applies and the body cannot be read, with the store unchanged; the first registered read limit lands on the final id |
| Handlers.FetchAndExpire | handlers.go:272-286 | found exactly when the snippet can be read, with its content; nothing changes when it is not found; a read below the limit adds one to the count and leaves the store; the read that reaches the limit forgets count and limit, deletes an unowned snippet from the relations and files, and leaves an owned one |
| Handlers.UserPrefixSplit | handlers.go:26-28 | the first "/" of a "user/" path is the one after "user" |
| Handlers.UserOfPath | handlers.go:26-31 | the listed user holds no "/" and is the whole rest of the path, or the part before its next "/" |
| Handlers.ConsoleOfPath | handlers.go:74-78 | the id is what precedes the first "+", and the language is what follows it, "console" when empty |
| Handlers.Classify | handlers.go:20-69 | user listing exactly for a "user/" prefix; then console exactly for a "+"; then highlighting exactly for a "/", split at the first "/"; otherwise dispatch by method on the whole path, not-allowed for other methods |

## Left out

- File I/O failures other than a missing file: reading or writing a relation file that fails panics in the server. Here the relation files always save.
- Store.Store.DeleteSnippet: removes the content file at once. The server removes it in a goroutine and only logs a failure; the model does not capture that asynchrony.
- Store.Store.UpdateSnippet: the outcome of writing the content file is the parameter `writeFails`, not a real write.
- Store.Store.CreateSnippet: a failed content write panics in the server; the model does not model that panic.
- Locking: the store's reader/writer lock and the counter's mutex are left out, and so are interleavings of concurrent requests. This includes the unlock-then-lock gap of the claim branch of createSnippet.
- contentHash (SHA-256 in hex) is the store's `hash` function, taken as given. Deduplication facts that need distinct contents to hash differently assume an injective hash explicitly.
- Random order: `rand.Perm` and Go's map iteration are arbitrary choices. No distribution is modelled, and neither is the `init` seeding.
- IdEncoding.IntPow: integers are unbounded, so 64-bit overflow of intPow (beyond 62^10) is not modelled. The same holds for the counters of counter.go.
- IdEncoding.BaseN: the error message text is reduced to the values it reports.
- Store.Store.GenerateID: the logged-and-skipped baseN error cannot occur for an index below 62^length, so the model does not log it.
- main.go (flags, server start-up, TLS) and renderer.go (syntax highlighting HTML) are not part of this model. Their outputs are only response text.
- constructURL, response codes and headers, logging, and the 10 MB multipart limit are HTTP plumbing: a parse failure of the form is the input `None`.
- handlePutRequest, handleDeleteRequest and serveUserListing are not part of this model. They are further HTTP entry points over the same store operations.
- Handlers.FormValue: query-string values that `r.FormValue` also consults are not modelled; the form's own fields are.
- Netrc.AuthenticateUser: the Basic-Auth header decoding and the lookup of the home directory are inputs.
- Go strings are byte strings; the model uses sequences of Unicode characters, so content that is not valid UTF-8 cannot be represented.
