# hush: a verified model of its codec and request decisions

hush is a small password-manager server written in C on top of ulfius (HTTP),
jansson (JSON), libsodium and MySQL. This project models its core in Dafny and proves
what that core promises:

- **The base64 codec** of `base64.c`. It uses the standard alphabet with `=` padding
  of section 4 of RFC 4648. The model (`Base64`, `Base64Properties`) includes:
  - the two literal tables;
  - `base64_is_validchar` and the two size functions;
  - the encoder as a method filling a fresh buffer;
  - the decoder as a method writing into the caller's array.
  Each method is proved against a specification function, and the round trip is proved
  on those functions.
- **C string handling** used by the static-file endpoint (`CStrings`):
  - `strchr` and `strrchr`;
  - the in-place cut `*strchr(s, c) = '\0'`;
  - reading a NUL-terminated string out of a buffer.
- **The static-file endpoint** of `api.c` (`StaticFiles`):
  - `get_filename_ext`, as a method on a character array that writes the NUL over the `?`;
  - the normalisation of the requested URL, as a method on a `strdup` copy with its
    pointer-advancing loops;
  - the case-insensitive MIME lookup;
  - the containment decision of `callback_static_file`. The answers of `realpath`,
    `access` and `fopen` are inputs to it.
- **The request handlers** of `api.c` (`Store`, `Handlers`, `HandlerProperties`).
  - Each handler is a pure function from the request fields and an abstract store to
    the ulfius return code, the status and body set on the response, and the store after
    the inserts it asked for.
  - The store holds the users, passwords and keys tables. It carries the schema's
    constraints: unique usernames, one password name per user, AUTO_INCREMENT ids and
    the foreign key.
  - Values the server generates are parameters: the token of `generate_password` and
    the 32-byte key of `crypto_secretbox_keygen`.

C's NULL is `Option.None`. Where the C code has undefined behaviour, the model
answers `Unspecified` or `Undefined`. This covers:

- a NULL string handed to the database layer;
- a record that no lookup filled when the code then reads its contents (the key record in `callback_get_user_key`);
- a pointer moved past the end of its string.

A record that no lookup filled but is only compared, as in the admin gate, is read as the
blank record (`Store.BlankUser`) that `db_user_new` is taken to hand out.

`database.c` in this repository does not define most of the functions `api.c` calls.
Examples are `db_user_get_by_token`, `db_key_add`, `db_key_get_by_user_id` and
`db_passwords_get_by_token`. The store therefore models those queries by what `api.c`
expects of them:

- the matching rows, in table order;
- the row count;
- the record that a fetch loop leaves behind.

The fetch loop of `db_get_user_by_username` (database.c:251-267) overwrites the record
for every row. So the record holds the last matching row, or stays blank when there is
no row.

## Model

| member | source | states |
|---|---|---|
| Base64.DigitIsAlphabet | base64.c:6 | the arithmetic `Digit` reads the literal alphabet `base64_chars` at every index 0..63 |
| Base64.InvIsTable | base64.c:59-66 | every character `base64_is_validchar` accepts indexes inside the 80-entry `base64_invs` as `c - 43`, and `Inv` is that entry |
| Base64.IsValidChar | base64.c:19-36 | `base64_is_validchar` accepts only characters from `+` to `z`, so `c - 43` is an index into the 80 entries of `base64_invs` |
| Base64.ValidCharsAreAlphabet | base64.c:19-36 | `base64_is_validchar` accepts exactly the 64 alphabet characters and `=` |
| Base64.InvOfDigit | base64.c:59-66 | the computed counterparts of the two tables are inverse: every sextet k < 64 maps to an accepted character other than `=`, which `Inv` maps back to k |
| Base64.InvsOfAlphabet | base64.c:59-66 | on the literal tables, `base64_chars[k] - 43` indexes inside `base64_invs` and `base64_invs[base64_chars[k] - 43] == k` for every k < 64 |
| Base64.DigitOfInv | base64.c:59-66 | an accepted character other than `=` maps back to itself through the table and the alphabet |
| Base64.EncodedSize | base64.c:68-80 | `base64_encoded_size(n)` is 4 times the number of started groups of three, exact while below 2^64 |
| Base64.EncodedSizeCovers | base64.c:68-80 | the encoded size is a multiple of 4, its groups cover n bytes with at most two to spare, and it is 0 only for n = 0 |
| Base64.TrailingPads | base64.c:48-54 | the backward scan counts at most as many `=` as the string has characters |
| Base64.TrailingPadsIs | base64.c:48-54 | the count of trailing `=` is t exactly when the last t characters are `=` and the one before is not |
| Base64.DecodedSizeOf | base64.c:38-57 | the decoded size is below 2^64; len/4*3 minus the trailing `=` when that is not negative, and otherwise 2^64 minus the shortfall (`size_t` wrap-around) |
| Base64.DecodedSize | base64.c:38-57 | the backward loop returns 0 for NULL and otherwise len/4*3 minus every trailing `=`, with `size_t` wrap-around |
| Base64.TrailingPadsOfDecodable | base64.c:48-54 | a string with no `=` in the first two slots of a block ends in at most two `=` |
| Base64.DecodedSizeNoWrap | base64.c:45-56 | for such a string the decoded size is len/4*3 minus the trailing `=` with no wrap-around |
| Base64.Base64Of | base64.c:95-113 | the encoder's output has four characters per started group of three bytes, which is `base64_encoded_size(len)` by `EncodedSize` |
| Base64.EncodeGroup | base64.c:96-112 | one loop pass writes the four characters of its group at j and changes nothing else in `out` |
| Base64.Encode | base64.c:82-116 | NULL for a NULL or empty input; otherwise, for an input whose encoded size fits in `size_t`, the buffer holds the encoding of the input |
| Base64.StoresInBounds | base64.c:126-153 | a buffer of `base64_decoded_size` bytes holds every byte the decoding loop stores |
| Base64.ValidateChars | base64.c:130-135 | the validation loop accepts exactly the strings whose characters all pass `base64_is_validchar` (plus the corrected slot check) |
| Base64.BlockValue | base64.c:142-145 | the four shifts of a block assemble the 24-bit value its sextets spell, with `=` read as zero |
| Base64.DecodeGroup | base64.c:141-153 | one loop pass stores byte 3m, and 3m+1 and 3m+2 unless their slot holds `=` |
| Base64.DecodeWrites | base64.c:141-154 | the buffer after n passes of the decoding loop keeps its length |
| Base64.DecodeGroups | base64.c:141-154 | the decoding loop leaves `out` as the specification of all block stores says |
| Base64.Decode | base64.c:118-157 | answers 1 exactly when the pointers are non-NULL, `out_len` >= the decoded size, the length is a multiple of 4, every character is valid and (the correction) no block has `=` in its first two slots; on 0 nothing is written, on 1 `out` holds the decoded blocks |
| Base64.LeadingPadSlipsThrough | base64.c:126-145 | "A===" passes every check with `out_len` 0 although its second character reads -1 from `base64_invs` |
| Base64Properties.EncodeBlockShape | base64.c:100-112 | each block is four accepted characters; the first two are never `=`; the third is `=` iff the group has one byte, the fourth iff fewer than three |
| Base64Properties.EncodingChar | base64.c:100-112 | every character of an encoding passes `base64_is_validchar`, and none in the first two slots of a block is `=` |
| Base64Properties.EncodingIsDecodable | base64.c:89-113 | the output is made of alphabet characters and `=`, with `=` never in the first two slots of a block |
| Base64Properties.PaddingOnlyAtEnd | base64.c:95-112 | `=` never occurs before the final block |
| Base64Properties.EncodingPadding | base64.c:103-112 | the output ends in two `=` when len%3 == 1, one when len%3 == 2, none when len%3 == 0 |
| Base64Properties.EncodingDecodedSize | base64.c:45-56 | `base64_decoded_size` of an encoding is the length of the encoded input |
| Base64Properties.UnpackOfEncoding | base64.c:142-145 | the decoder reassembles from each block of an encoding the 24-bit value the encoder packed |
| Base64Properties.DecodeWritesOfEncoding | base64.c:141-154 | decoding the first n blocks of an encoding writes its first 3n input bytes and leaves the rest of the buffer |
| Base64Properties.RoundTrip | base64.c:95-156 | decoding `base64_encode(b)` into a buffer of at least \|b\| bytes writes b at its start and leaves the rest |
| Base64Properties.EncodeThenDecode | base64.c:82-157 | encode, size the buffer with `base64_decoded_size`, decode: the decoder accepts and the buffer holds the original bytes; an empty input has no encoding |
| CStrings.FirstIndex | api.c:470 | `strchr`: the first index holding c, or NULL exactly when c does not occur |
| CStrings.LastIndex | api.c:464 | `strrchr`: the last index holding c, or NULL exactly when c does not occur |
| CStrings.CutAt | api.c:470-471 | the string left after NUL is written over the first c: the longest prefix free of c |
| CStrings.Terminated | api.c:516 | the C string in a buffer is the prefix before the first NUL |
| CStrings.TerminatedSuffix | api.c:520 | a pointer d characters into a C string reads as the rest of that string |
| CStrings.TerminatedString | api.c:516 | a `strdup` copy (string then NUL) reads back as the string |
| CStrings.CutInPlace | api.c:528-534 | writing NUL over the first c of the stored string leaves the string cut at c |
| CStrings.SlashesEnd | api.c:519-521 | where the `while (p[0] == '/') p++` loop started at i stops: at the end or at the first character after i that is not `/` |
| CStrings.SlashesSkipped | api.c:519-521 | every character that loop steps over is `/` |
| CStrings.SlashesRun | api.c:519-521 | every character from where the loop starts to where it stops is `/` |
| CStrings.SlashesEndIs | api.c:524-526 | a position e reached from i over `/` only, and at the end or at a character other than `/`, is where the loop stops |
| StaticFiles.FilenameExt | api.c:461-475 | the extension is `"*"` or starts with `.` and contains no `?` |
| StaticFiles.NoExtension | api.c:464-468 | `"*"` exactly when no `.` occurs after the first character |
| StaticFiles.ExtensionAfterLastDot | api.c:464-474 | otherwise the suffix from the last `.` up to, not including, the first `?` after it |
| StaticFiles.GetFilenameExt | api.c:461-475 | on a caller's buffer: answers `"*"` or a pointer into it that reads as `FilenameExt` of the string, and writes NUL over the `?` ending the extension, nothing else |
| StaticFiles.CutExtension | api.c:464-474 | from the last `.` of a buffer's string, `get_filename_ext` answers a pointer reading as `FilenameExt` and at most writes NUL over the `?` ending the extension |
| StaticFiles.NoQuery | api.c:464-474 | with no `?` after the last `.`, the buffer is left alone and the extension is the whole rest of the string |
| StaticFiles.Query | api.c:470-474 | with a `?` q characters after the last `.`, exactly that character becomes NUL and the extension is the q characters before it |
| StaticFiles.SkipPrefix | api.c:519-526 | undefined exactly when the leading `/` run plus `strlen(url_prefix)` characters pass the end of the URL; otherwise the rest is the suffix of the URL after that point and after the `/` run that follows it, and does not start with `/` |
| StaticFiles.NameOf | api.c:528-539 | the name is `index.html` or a non-empty prefix of the rest of the URL |
| StaticFiles.NameBeforeFragmentOrQuery | api.c:528-539 | the name is the part of the rest before its first `#` or `?`, or `index.html` when that part is empty or `/` |
| StaticFiles.NormalizedName | api.c:516-539 | the file name is defined exactly when the prefix skip stays inside the URL |
| StaticFiles.CutFragmentAndQuery | api.c:528-534 | the two cuts leave a prefix of the tail with no `#` and no `?` |
| StaticFiles.SlashNameUnreachable | api.c:536 | the `"/"` comparison never fires: the cut name never equals `"/"` |
| StaticFiles.NormalizedNameShape | api.c:519-539 | the normalised name is non-empty, does not start with `/` and contains no `#` or `?` |
| StaticFiles.NormalizedNameWithin | api.c:528-539 | the name is `index.html` or a piece of the requested URL |
| StaticFiles.StaticFileName | api.c:516-539 | the loops and in-place cuts on the `strdup` copy produce `NormalizedName` |
| StaticFiles.StrDup | api.c:516 | `strdup` gives a fresh buffer holding the URL and then its NUL |
| StaticFiles.SkipSlashes | api.c:519-526 | the pointer loop stops after exactly the leading `/` run |
| StaticFiles.CutInBuffer | api.c:528-534 | `*strchr(s, c) = '\0'` when c occurs: the string becomes its part before the first c, and only that one character of the buffer is overwritten, with NUL |
| StaticFiles.CutRequest | api.c:528-539 | the cuts at `#` and `?` on the buffer, with `index.html` for an empty rest, give `NameOf` of the string there; the buffer has NUL over the first `#` and then over the first `?` before it, and is otherwise unchanged |
| StaticFiles.GetCase | api.c:551 | `u_map_get_case`: NULL exactly when no key matches ignoring ASCII case, else the value of a matching key |
| StaticFiles.Get | api.c:553 | `u_map_get`: NULL exactly when no key matches, else the value of a matching key |
| StaticFiles.ContentType | api.c:551-556 | the value of a key matching the extension up to ASCII case when there is one, else the value for `"*"`; any value comes from the table; none only when the table has no `"*"` entry |
| StaticFiles.GetCaseIgnoresCase | api.c:551 | `u_map_get_case` gives the same answer for two keys that differ only in ASCII case |
| StaticFiles.ContentTypeIgnoresCase | api.c:551-553 | extensions differing only in ASCII case get the same Content-Type |
| StaticFiles.DefaultContentTypes | api.c:605-616 | with the table of `api_init` every extension gets a Content-Type: `.HTML` is `text/html`, every extension no key matches up to ASCII case gets `application/octet-stream` |
| StaticFiles.Missing | api.c:565-570 | a missing or outside file gets 404 or, when `redirect_on_404` is set, the redirect |
| StaticFiles.EarlyReturns | api.c:513-515 | a later callback position leaves the response alone; no configuration or no `files_path` is an error |
| StaticFiles.Containment | api.c:541-579 | a file is streamed exactly when its resolved path starts with `files_path`, it exists and it opens; it is left alone when it does not open; otherwise 404 or the 302 to `redirect_on_404` |
| StaticFiles.NotFoundMessages | api.c:564-579 | without a redirect the body is "File not found" inside `files_path` and "file not found" outside |
| StaticFiles.StaticFile | api.c:513-579 | a configuration error exactly when called first without a configuration or `files_path`; undefined exactly when the prefix skip passes the end of the URL; a streamed file carries the configured headers and the Content-Type of the name's extension |
| StaticFiles.StaticFileAsWritten | api.c:541-543 | the code as written is undefined exactly when the request reaches the prefix skip and either overruns the URL or `realpath` answers NULL; everywhere else it agrees with the corrected decision |
| StaticFiles.MissingFileReachesStrncmpWithNull | api.c:542-543 | for a missing file the code hands the NULL from `realpath` to `strncmp`; the corrected decision answers 404 |
| Store.EmptyIsValid | database.c:9-28 | the empty tables meet the schema constraints |
| Store.Fetched | database.c:251-267 | the record a fetch loop leaves: the last row, or the blank record when there is none |
| Store.UsersWithToken | api.c:127 | exactly the users holding the token |
| Store.UsersNamed | api.c:156 | exactly the users with the username |
| Store.UsersWithId | api.c:286 | exactly the users with the id |
| Store.UsersWithCredentials | api.c:429 | exactly the users whose username and password both match |
| Store.PasswordsWithToken | api.c:338 | exactly the passwords of users holding the token |
| Store.KeysOf | api.c:245 | exactly the keys stored for the user id |
| Store.AddUser | database.c:9-18 | the insert fails exactly when the username is taken; otherwise it appends the row under the next id |
| Store.AddPassword | database.c:20-28 | the insert fails exactly when the user already has a password of that name; otherwise the row is appended under the next password id, which advances |
| Store.AddKey | api.c:165 | appends one key row and leaves users, passwords and both id counters alone |
| Store.AddUserValid | database.c:9-18 | adding a user keeps the constraints, and the new user is then the only one with that name |
| Store.AddPasswordValid | database.c:20-28 | adding a password of a stored user keeps the constraints |
| Store.AddKeyValid | api.c:163-165 | adding a 32-byte key for a stored user keeps the constraints |
| Handlers.IsAdmin | api.c:126-131 | the gate passes exactly when some user holds the token and the last such row is named `admin` |
| Handlers.NewUser | api.c:119-182 | the store changes only when the caller passed the admin gate |
| Handlers.UserSummaries | api.c:206-210 | one `{id, first_name, last_name}` object per listed user, in order |
| Handlers.GetUsers | api.c:187-224 | listing users leaves the store alone |
| Handlers.GetUserKey | api.c:229-261 | fetching a key leaves the store alone |
| Handlers.GetUserById | api.c:266-303 | fetching a user leaves the store alone |
| Handlers.PasswordEntries | api.c:346-358 | one `{id, name, username, password}` object per listed password, in order |
| Handlers.GetPasswords | api.c:330-370 | listing passwords leaves the store alone |
| Handlers.NewPassword | api.c:372-410 | the store changes only for a caller whose token some user holds |
| Handlers.Login | api.c:412-446 | a login leaves the store alone |
| HandlerProperties.AdminGate | api.c:127-131 | creating a user, listing users and getting a user by id answer 401 "error authentication" with nothing stored exactly when the token's record is not `admin` |
| HandlerProperties.AdminHoldsToken | api.c:127-128 | passing the gate needs a stored user named `admin` that holds the token |
| HandlerProperties.AdminListsUsers | api.c:197-219 | the admin gets 200 with `count` the number of stored users and `users` holding one `{id, first_name, last_name}` summary per stored user, in table order; nothing is stored |
| HandlerProperties.UnknownTokenRejected | api.c:237-242 | a token no user holds: 401 from the admin handlers, unauthorized without a status from the key and new-password handlers, 404 from the password list, nothing stored |
| HandlerProperties.MalformedBodyFirst | api.c:379-395 | a body that does not parse gets 400 before any token is looked at |
| HandlerProperties.NewUserOutcome | api.c:147-176 | for the admin with a complete body: 500 exactly when the username is taken, with nothing stored; otherwise 200 with the new token, the user appended under the next id and the key filed under that id |
| HandlerProperties.NewPasswordStored | api.c:390-403 | for a known caller: 500 exactly when the caller already has a password of that name; otherwise 201, with the password appended under the caller's user id |
| HandlerProperties.KeyIgnoresUsername | api.c:234 | the `:username` path parameter plays no part in the key reply |
| HandlerProperties.KeyReplyShape | api.c:245-252 | a 200 key reply is the base64 text of a key stored for the caller's own id |
| HandlerProperties.KeyText | api.c:250 | the base64 text of a 32-byte key has 44 characters, ends in exactly one `=`, and the decoder accepts it |
| HandlerProperties.UserByIdFound | api.c:284-297 | 404 exactly when no user has the id; a 200 carries the summary of the one user with it |
| HandlerProperties.EntriesListPasswordsOf | api.c:345-359 | the listed entries are the passwords of the token's users and only those |
| HandlerProperties.NoPasswordsIff | api.c:337-343 | the password lookup counts 0 rows exactly when no stored password belongs to a user holding the token |
| HandlerProperties.PasswordListIsCallers | api.c:337-363 | 404 exactly when the caller owns no password; a 200 lists every password the caller owns, nobody else's, and its count |
| HandlerProperties.LoginOutcome | api.c:428-438 | 401 exactly when no user has that name and password; otherwise 200 with the token of the one user that has them |
| HandlerProperties.NewUserKeepsValid | api.c:149-169 | a completed user creation keeps the schema constraints |
| HandlerProperties.NewPasswordKeepsValid | api.c:391-397 | a completed password creation keeps the schema constraints |
| HandlerProperties.CreatedUser | api.c:149-169 | a 200 user creation appended the new user under the next id and the key under that id |
| HandlerProperties.CreatedUserFetchesKey | api.c:149-169 | after the admin creates a user with a fresh token, that token fetches the base64 of the user's key |
| HandlerProperties.CreatedUserLogsIn | api.c:149-169 | after the admin creates a user, logging in with the user's name and password returns the new token |

## Left out

- The MySQL layer is replaced by an abstract store. This leaves out:
  - connections and prepared statements;
  - string-interpolated SQL;
  - the global row shared by all queries;
  - row copies without room for the terminator;
  - every failure other than the two UNIQUE constraints.
  A failing `db_key_add` is not modelled.
- MySQL's `PASSWORD()` hashing of stored passwords is not modelled. A login compares the
  stored password with the one sent.
- These are not modelled:
  - ulfius routing and the mapping of callback codes to HTTP statuses;
  - jansson parsing and packing. A body is a map of its string members; a failed parse
    is None; a missing or non-string member is absent.
  - logging and timing;
  - file streaming;
  - the merge of `map_header` into the response. The reply carries the configured
    headers instead.
- `realpath`, `access` and `fopen` are inputs to `StaticFiles.StaticFile`. Nothing is
  read from a disk.
- The token of `generate_password` and the key of `crypto_secretbox_keygen` are
  parameters. The lemmas that need it assume a 32-byte key. The `strtol` reading of
  `:id` is a parameter too.
- `callback_get_password` is not modelled: the empty branch after its lookup leaves the
  reply unspecified for a missing password. `callback_auth_token` and
  `base64_generate_decode_table` are not modelled either: neither has an effect.
- Handlers.IsAdmin: `db_user_new` is not part of this model. The gate reads the record it hands out as empty strings (`Store.BlankUser`), so a token no user holds fails the comparison with `admin` and gets 401. Were `username` NULL there, the `strcmp` at api.c:127 would be undefined, and so would every reply to an unknown token.
- Handlers.GetUserKey: with no key row the C code encodes a record no lookup filled.
  The model answers `Unspecified` there.
- Handlers.NewUser: the `db_user_get_by_username` count check is kept. Under the
  constraints it never fails (`HandlerProperties.NewUserOutcome`).
- StaticFiles.SkipPrefix: when `strlen(url_prefix)` moves the pointer past the end of
  the copied URL, C reads out of bounds. The model answers None there, and
  `StaticFile` answers `Undefined`.
- A NULL `url_prefix` is not represented: the configuration holds it as a plain string,
  taken to be non-NULL because api.c:522 passes it to `strlen` unchecked.
- Base64.Encode: inputs whose encoded size reaches 2^64 are excluded; there the `size_t`
  arithmetic of `base64_encoded_size` wraps and the loop writes past the allocation. A
  failed `malloc` (base64.c:90-91), after which `out[elen] = '\0'` writes through NULL,
  is not modelled: the buffer is always allocated.
- Base64.Decode: the input holds no NUL, as a C string cannot; `DecodedSize` likewise.
- Base64.Decode: `out_len` is the length of the output array. A caller passing a
  smaller `out_len` than the array holds is not modelled.
- Base64.Decode: a `=` in the first or second slot of a block is rejected, which the C
  code does not do (see Findings). Every other case follows the C code, including an
  interior `=` in the third or fourth slot.
- Concurrent requests sharing `dbr` and the global result row are not modelled.

## Findings

| source | as written | input that shows it | evidently intended | confidence | as-written member | corrected member |
|---|---|---|---|---|---|---|
| base64.c:126-145 | the checks accept `=` in any slot, and the size check subtracts every trailing `=` | "A===" with `out_len` 0: it passes every check, then the loop shifts the -1 table entry of `=` and stores a byte at `out[0]`, outside the buffer | reject a block with `=` in its first or second slot | high (not executed) | Base64.LeadingPadSlipsThrough | Base64.Decode |
| api.c:542-543 | the result of `realpath` goes to `strncmp` without a NULL test | a request for a file that does not exist, e.g. "/missing.html" under `/srv/www`: `realpath` answers NULL and `strncmp` reads through it | treat NULL as a missing file (the `access`-failure branch) and answer 404 "File not found" | high (not executed) | StaticFiles.StaticFileAsWritten, StaticFiles.MissingFileReachesStrncmpWithNull | StaticFiles.StaticFile, StaticFiles.Containment |
