# update-service client core, in Dafny

This project models four small parts of the update-service code base, written in Go, and proves properties of the model.

- **Credential and string utilities** (package `utils`):
  - `Contain` is membership in a slice, or in a map's keys.
  - `Compare` is a three-way byte-wise string comparison.
  - `EncodeBasicAuth` and `DecodeBasicAuth` handle the `user-id ":" password` credential of section 2 of RFC 7617. The credential is carried in standard padded base64 (section 4 of RFC 4648).
  - `ValidatePassword` checks a password's characters and length.
- **The `appV1` repository** (package `cmd/client/utils/repo/appV1`):
  - `New` parses a URL with the pattern `^(.+)://(.+)/(.+)/(.+)$` and writes the parsed fields into the receiver in place.
  - `String`, `NRString` and `generateURL` print the repository, and the endpoint builders form the request URLs.
  - The response handling of `getFromURL`, `List` and `Put` is modelled over an abstract reply.
- **The client configuration** (package `cmd/client/utils`). `UpdateClientConfig` keeps a list of repository URLs:
  - `Add` appends a URL and refuses an empty one or a duplicate.
  - `Remove` splices out the first occurrence.
  - `Init` and `Load` set the default cache directory.
- **The storage registry** (package `utils`):
  - `RegisterStorage` adds a named driver to the `usStorages` map.
  - `NewUSStorage` opens a storage with some registered driver that supports the URL.

Files:

- `wrappers.dfy`: `Option` and `Result`.
- `gostrings.dfy` (module `GoStrings`): Go strings as byte sequences, with Go's `<` on them. It also holds the `strings` functions that `DecodeBasicAuth` calls: `Split`, `SplitN(…, 2)`, `Trim` and `TrimSpace`.
- `base64.dfy` (module `Base64`): the decoder of Go's `base64.StdEncoding`. It skips carriage returns and line feeds, needs whole padded quanta, and ignores the unused low bits. The file also has the encoder, and it proves that decoding an encoding gives the input back.
- `utils.dfy` (module `Utils`): the functions of `utils/utils.go`.
- `config.dfy` (module `ClientUtils`): the error values of the package and the `UpdateClientConfig` class.
  - The file system is a `Disk` value. It holds `HOME`, the state of the config file, whether the cache directory exists, and the errors that `MkdirAll` and `WriteFile` would give.
  - Each operation takes a `Disk`. `Init`, `Save`, `Add` and `Remove` also return the disk as they leave it; `Load` only reads it.
- `appv1.dfy` (module `AppV1`): the URL pattern, the `AppV1Repo` class with its in-place `New`, the URL builders, and the request functions.
  - The network is a parameter: `get` stands for `http.Get` with `ioutil.ReadAll`, `post` for `http.Post` with `ReadAll`, and `unmarshal` for `json.Unmarshal`.
- `storage.dfy` (module `Storage`): the `StorageRegistry` class over the driver map.
  - A driver is its `Supported` and `New`.
  - `GetSetting` is a parameter.

How Go strings are represented:

- In `utils.go`, a string is a byte sequence (`seq<Byte>`), because `len`, `<`, base64 and the NUL trim all work on bytes.
- In the URL and configuration code, a string is a Dafny `string`, because only equality, concatenation and the characters `/`, `:` and line feed matter there.

## Model

| member | source | states |
|---|---|---|
| GoStrings.LessIrreflexive | utils/utils.go:159 | no string is below itself under Go's byte-wise `<` |
| GoStrings.LessAsymmetric | utils/utils.go:159 | if `a < b` then not `b < a` |
| GoStrings.LessTotal | utils/utils.go:156-162 | two different strings are ordered one way or the other, so `Compare` is never asked about an unordered pair |
| GoStrings.LessTransitive | utils/utils.go:159 | `<` is transitive |
| GoStrings.IndexByteFirst | utils/utils.go:89 | the index found is the first occurrence, and -1 means the byte does not occur |
| GoStrings.SplitSingle | utils/utils.go:89-92 | `Split` gives a single piece exactly when the separator does not occur, which is when `DecodeBasicAuth` returns early |
| GoStrings.SplitJoin | utils/utils.go:89 | joining the pieces of `Split` with the separator gives the string back |
| GoStrings.SplitSecond | utils/utils.go:89-94 | the second piece of `Split` is the text between the first and the second separator |
| GoStrings.SplitN2 | utils/utils.go:106 | `SplitN(s, ":", 2)` has two pieces iff `s` holds a colon; then it cuts at the first colon and rejoins to `s`, and otherwise it returns `s` whole |
| GoStrings.SplitN2At | utils/utils.go:106 | a colon-free head followed by a colon comes back as the first piece, and everything after it as the second |
| GoStrings.TrimLeftSpec | utils/utils.go:112 | `TrimLeft` keeps a suffix, drops only cutset bytes, and what it keeps does not start with one |
| GoStrings.TrimRightSpec | utils/utils.go:112 | `TrimRight` keeps a prefix, drops only cutset bytes, and what it keeps does not end with one |
| GoStrings.TrimPadding | utils/utils.go:112 | trimming a string followed by cutset bytes gives the string back when neither of its ends is in the cutset |
| GoStrings.Zeros | utils/utils.go:95 | `make([]byte, n)` holds n NUL bytes |
| Base64.SextetRoundTrip | utils/utils.go:83-97 | every 6-bit value encodes to an alphabet character that decodes back to it, and is neither padding nor white space |
| Base64.EncodedLength | utils/utils.go:82-83 | the encoding of n bytes is `EncodedLen(n) = 4 * ceil(n / 3)` characters long |
| Base64.DecodedLength | utils/utils.go:94-97 | decoding never yields more than `DecodedLen(n) = n / 4 * 3` bytes, so the buffer `DecodeBasicAuth` allocates is large enough |
| Base64.EncodedChars | utils/utils.go:83 | the encoding uses only the base64 alphabet and `=` |
| Base64.QuantumRoundTrip | utils/utils.go:83-97 | a full quantum of three bytes decodes back to those bytes, in front of whatever the rest decodes to |
| Base64.EncodeDecodeQuanta | utils/utils.go:83-97 | the quanta of an encoding decode to the input |
| Base64.DecodeEncode | utils/utils.go:83-97 | `StdEncoding` decoding inverts encoding on every byte string |
| Utils.Contain | utils/utils.go:58-76 | for a slice, true iff `obj` is an element; for a map, true iff `obj` is a key (values are not searched); for anything else, false. A false answer always comes with the "not in array" error, a true one with none |
| Utils.Compare | utils/utils.go:154-163 | 0 iff the strings are equal, and -1 iff `a < b` byte-wise |
| Utils.CompareSwap | utils/utils.go:154-163 | 1 iff `b < a`, and swapping the arguments negates the result |
| Utils.CompareTransitive | utils/utils.go:154-163 | -1 is transitive |
| Utils.EncodeBasicAuth | utils/utils.go:78-85 | the result is `EncodedLen(len(u) + 1 + len(p))` characters from the base64 alphabet, and it decodes to `u + ":" + p` |
| Utils.DecodeToken | utils/utils.go:94-114 | on the second word of the header, an error happens iff the word is not base64 or its decoding has no colon. Go's decode error, or "Invalid auth configuration file", is returned as the error. On success the user name is colon-free and is the text before the first colon |
| Utils.DecodeBasicAuth | utils/utils.go:88-115 | input with no space after `TrimSpace` gives empty user and password and no error; every error needs a space; a returned user name never holds a colon |
| Utils.DecodeSecondField | utils/utils.go:89-97 | only the second space-separated word is decoded; the first word and any later words are ignored |
| Utils.DecodeOfSecondField | utils/utils.go:89-97 | whenever `Split` yields a second piece, the result is that piece's decoding |
| Utils.EncodedIsOneWord | utils/utils.go:83-89 | an encoded credential holds no space and is left alone by `TrimSpace` |
| Utils.DecodeWithoutScheme | utils/utils.go:89-92 | `DecodeBasicAuth(EncodeBasicAuth(u, p))` without a scheme word gives empty results and no error |
| Utils.TwoWordsTrimmed | utils/utils.go:89 | `TrimSpace` leaves two words joined by one space alone |
| Utils.SecondWord | utils/utils.go:89 | the second piece of two words joined by one space is the second word |
| Utils.TokenOfCredential | utils/utils.go:106-112 | a token that decodes to `u + ":" + rest` with a colon-free `u` gives `u` and `rest` with its NULs trimmed |
| Utils.TokenOfPaddedCredential | utils/utils.go:95-112 | NUL bytes after a password that neither starts nor ends with NUL are trimmed away |
| Utils.DecodeNulPadded | utils/utils.go:88-115 | the NUL padding of the decode buffer never reaches the password |
| Utils.BasicAuthRoundTrip | utils/utils.go:78-115 | `DecodeBasicAuth(scheme + " " + EncodeBasicAuth(u, p))` gives `u` and `p` back when `u` has no colon and `p` neither starts nor ends with NUL |
| Utils.NulPasswordLost | utils/utils.go:112 | the as-written decoder turns the password `"x\x00"` into `"x"` |
| Utils.DecodeTokenExact | utils/utils.go:94-114 | decoding that keeps exactly the bytes written. It fails under the same conditions as the as-written decoder; on success, user, colon and password spell the decoded text |
| Utils.DecodeBasicAuthExact | utils/utils.go:88-115 | the exact decoder keeps the no-space rule of the header |
| Utils.BasicAuthExactRoundTrip | utils/utils.go:78-115 | with the exact decoder every password round-trips, whatever its NUL bytes |
| Utils.MatchesClass | utils/utils.go:119-123 | a bracket expression matches iff some byte of the password is in it |
| Utils.ValidatePassword | utils/utils.go:118-132 | "No alpha character" iff no byte is in `{':','a','l','p','h'}`. Otherwise "No digital character" iff no byte is in `{':','d','i','g','t'}`. Otherwise the length error iff the byte length is outside 5..30. No error iff all three checks pass |
| Utils.PasswordBracketQuirk | utils/utils.go:119-125 | as written, `"abc12"` is refused for lack of a digit and `":::::"` is accepted |
| Utils.ValidatePasswordIntended | utils/utils.go:118-132 | with the POSIX classes `[[:alpha:]]` and `[[:digit:]]`: no error iff the password has an ASCII letter, an ASCII digit and 5 to 30 bytes; "No alpha character" iff it has no letter |
| Utils.PasswordIntendedExamples | utils/utils.go:119-125 | with the intended classes, `"abc12"` is accepted and `":::::"` is refused for lack of a letter |
| ClientUtils.LoadedRecord | cmd/client/utils/config.go:89-95 | `Load` keeps the server and the repository list, keeps a non-empty cache directory, and replaces an empty one with `HOME/.update-service/cache` |
| ClientUtils.LoadedRecordIdempotent | cmd/client/utils/config.go:93-95 | applying the default twice is applying it once, and with a non-empty `HOME` the cache directory is never empty afterwards |
| ClientUtils.RemoveFirstAt | cmd/client/utils/config.go:140-145 | removing the first occurrence at index i is `Repos[:i] + Repos[i+1:]` |
| ClientUtils.RemoveFirstCounts | cmd/client/utils/config.go:139-149 | if the URL is present, the list loses exactly one copy of it and its length drops by one; if it is absent, the list is unchanged |
| ClientUtils.RemoveFirstWithin | cmd/client/utils/config.go:140-145 | removal adds no URL |
| ClientUtils.ConsNoDuplicates | cmd/client/utils/config.go:140-145 | the step of the removal proof: a list stays duplicate-free when the element kept in front of the splice is not in the rest |
| ClientUtils.RemoveFirstNoDuplicates | cmd/client/utils/config.go:140-145 | removal keeps a duplicate-free list duplicate-free and removes the URL entirely |
| ClientUtils.AppendNoDuplicates | cmd/client/utils/config.go:116-121 | appending a URL that is not present keeps the list duplicate-free |
| ClientUtils.UpdateClientConfig.Save | cmd/client/utils/config.go:63-75 | the file then holds the current record, or the write error is returned and the disk is unchanged |
| ClientUtils.UpdateClientConfig.Init | cmd/client/utils/config.go:41-61 | these outcomes are checked in order: <br>• with no `HOME`, "Cannot get home directory";<br>• a failing `MkdirAll` of a missing cache directory is returned;<br>• otherwise `CacheDir` becomes `HOME/.update-service/cache`, and a missing config file is saved. |
| ClientUtils.UpdateClientConfig.Load | cmd/client/utils/config.go:78-98 | with no `HOME`, "Cannot get home directory" and no change; an unreadable or corrupt file returns its error; otherwise the fields become the stored record with the cache directory default applied |
| ClientUtils.UpdateClientConfig.Add | cmd/client/utils/config.go:101-124 | an empty URL returns `ErrorsUCEmptyURL` and changes nothing. With no `HOME`, an unreadable or corrupt file, or a failed `MkdirAll`, that error comes back and nothing changes. With a stored file, the fields become the loaded record; a URL already listed then returns `ErrorsUCRepoExist` and saves nothing, otherwise it is appended at the end and saved, and a failed write returns its error. With no file, `Init` sets the default cache directory and writes the file first; a listed URL then returns `ErrorsUCRepoExist` after that write, otherwise the URL is appended and saved. A duplicate-free list stays duplicate-free |
| ClientUtils.UpdateClientConfig.Remove | cmd/client/utils/config.go:127-152 | an empty URL returns `ErrorsUCEmptyURL`, and a missing config file `ErrorsUCRepoNotExist`, with no change. With no `HOME` or a corrupt file, that error and no change. Otherwise the fields become the loaded record; a URL not in the list returns `ErrorsUCRepoNotExist`, else exactly its first occurrence is spliced out and the record saved, a failed write returning its error. The disk changes only on success, and then holds the new record |
| AppV1.MatchTailSound | cmd/client/utils/repo/appV1/appV1.go:22 | the last three groups are non-empty and spell the text after `://` with `/` between them |
| AppV1.MatchTailCuts | cmd/client/utils/repo/appV1/appV1.go:22 | the groups are the text around the last `/` that leaves the last group non-empty and the last `/` before it that leaves the middle group non-empty |
| AppV1.MatchFromSound | cmd/client/utils/repo/appV1/appV1.go:22 | whatever the search for `://` finds has four non-empty groups that spell the URL |
| AppV1.MatchRepoSound | cmd/client/utils/repo/appV1/appV1.go:22 | a match has four non-empty groups that spell the URL, and the URL holds no line feed |
| AppV1.MatchFromSkips | cmd/client/utils/repo/appV1/appV1.go:22 | the greedy search passes over every position where `://` is absent or its tail does not match |
| AppV1.MatchFromFinds | cmd/client/utils/repo/appV1/appV1.go:22 | the search succeeds as soon as any position at or below its start can match |
| AppV1.MatchRepoComplete | cmd/client/utils/repo/appV1/appV1.go:22 | every line-feed-free URL that some choice of four non-empty groups spells is matched, so `New` refuses only URLs the pattern cannot match, or those whose first group is not `appV1` |
| AppV1.MatchTailExact | cmd/client/utils/repo/appV1/appV1.go:22 | a tail `site/namespace/repo` whose namespace and repository hold no `/` matches with exactly those groups |
| AppV1.ParseRepoURL | cmd/client/utils/repo/appV1/appV1.go:45-66 | for non-empty fields free of `/` and line feeds, `appV1://site/namespace/repo` parses to scheme `appV1` and exactly those fields |
| AppV1.MatchedPrintsBack | cmd/client/utils/repo/appV1/appV1.go:45-66 | whatever `New` accepts, `String` prints back to the same URL, and that URL is `Supported` |
| AppV1.SupportedButInvalid | cmd/client/utils/repo/appV1/appV1.go:37-49 | `"appV1://a/b"` is `Supported` but does not match the pattern |
| AppV1.Printed | cmd/client/utils/repo/appV1/appV1.go:59-71 | `generateURL() == "http://" + Site + "/app/v1/" + NRString()`, and every `String()` is `Supported` |
| AppV1.GenerateURLInjective | cmd/client/utils/repo/appV1/appV1.go:68-71 | repositories with non-empty `/`-free fields and equal HTTP bases are equal |
| AppV1.EndpointURLs | cmd/client/utils/repo/appV1/appV1.go:105-150 | the file, meta, metasign and public-key URLs are pairwise distinct, but `Put` of a file named `meta` posts to the meta URL |
| AppV1.AppV1Repo.New | cmd/client/utils/repo/appV1/appV1.go:45-56 | on a match with scheme `appV1`, the receiver's fields are set to the groups and the receiver itself is returned. Otherwise `ErrorsUCRepoInvalid` is returned and the fields are unchanged. On success `String()` is the input URL |
| AppV1.GettersAsk | cmd/client/utils/repo/appV1/appV1.go:105-127 | `GetFile`, `GetMetaSign`, `GetMeta` and `GetPublicKey` each fetch `http://site/app/v1/namespace/repo` followed by `/blob/name`, `/metasign`, `/meta` or `/pubkey`, and return what `getFromURL` makes of the response |
| AppV1.GetFromURL | cmd/client/utils/repo/appV1/appV1.go:129-146 | these outcomes are checked in order: <br>• the transport error;<br>• the body-read error;<br>• the status text for any status other than 200;<br>• otherwise the body, unchanged. |
| AppV1.List | cmd/client/utils/repo/appV1/appV1.go:73-103 | the checks of `getFromURL` on the HTTP base URL come first, then the JSON error; otherwise the `Content` field |
| AppV1.Put | cmd/client/utils/repo/appV1/appV1.go:148-159 | posts to `generateURL() + "/" + name`; the result is only the transport or body-read error |
| AppV1.PutIgnoresStatus | cmd/client/utils/repo/appV1/appV1.go:152-158 | replies that differ only in status give the same result |
| Storage.EffectiveSetting | utils/storage.go:78-83 | an empty URL or key-manager id is replaced by the `storage` or `keymanager` setting; a non-empty one is kept |
| Storage.StorageRegistry.RegisterStorage | utils/storage.go:59-74 | these checks are made in order, and each panic leaves the map unchanged: <br>• an empty name panics;<br>• then a nil driver panics;<br>• then a registered name panics.<br>Otherwise `name` maps to `f`, every other entry is kept, and the key set grows by exactly `name`. |
| Storage.StorageRegistry.NewUSStorage | utils/storage.go:77-92 | after the settings fallback, the result is `New(url, km)` of some registered driver that supports the URL, or `ErrorsUSSNotSupported` when no driver does; the registry is not modified |
| Storage.UniqueDriverDecides | utils/storage.go:85-89 | with a single supporting driver, that driver's `New` is the only possible result |
| Storage.UnrelatedDriverIrrelevant | utils/storage.go:73-91 | registering a driver that does not support a URL changes nothing about how that URL opens |

## Left out

- The RSA, SHA-256, SHA-512 and MD5 helpers of `utils/utils.go`. They wrap the Go crypto libraries, and `MD5` salts with the current time.
- `IsDirExist` and `IsFileExist`. They call `os.Stat`; their answers are fields of `Disk`: `cacheDirExists`, and whether the file is `Absent`.
- Persistence in the configuration:
  - JSON encoding and decoding, `os.Getenv` and `MkdirAll` are replaced by the `Disk` value.
  - `json.Unmarshal` into a non-empty receiver, which keeps fields the file does not mention, is taken to replace all three fields.
  - `save` is modelled as writing the record, or failing with the write error.
- `filepath.Join`'s path cleaning: the cache path is `HOME + "/.update-service/cache"`.
- Error identity and wording:
  - Go's base64 error names the offset of the bad byte; here it is one fixed text.
  - The text of `ErrorsUCRepoInvalid` is not in the files modelled; here it is a constructor.
- The HTTP transport, `ioutil.ReadAll` and `json.Unmarshal` in `appV1` are parameters. Closing the body is not modelled.
- The registry:
  - `usStoragesLock` is not modelled, and `NewUSStorage` reading the map without it is a concurrency matter.
  - `GetSetting` is not part of this model; its answer is the `setting` parameter, and its ignored error is taken as an empty answer.
  - A driver's `New` returning a value together with an error is not modelled. `RegisterRepo` in `init` is not part of this model either.
- `Contain`'s reflection:
  - a nil target, element types that are not comparable, and a map key of the wrong type are not modelled;
  - these make Go panic;
  - the model has one element type for slices and for map keys.
- GoStrings.TrimSpace trims only the ASCII white space bytes. Go's `strings.TrimSpace` also trims UTF-8 encoded Unicode spaces at either end, such as U+0085 (bytes C2 85), U+00A0 (bytes C2 A0) and U+2000 to U+200A. The model does not decode UTF-8 and leaves those bytes in place.
- Utils.DecodeBasicAuth: faithful only for headers that do not begin or end with a non-ASCII Unicode space. For `[C2 A0] + " " + token`, Go trims both the U+00A0 and the space, is left with one word and returns empty results; the model keeps C2 A0 as a first word and decodes the token.
- Go's regexp engine is not modelled. `AppV1.MatchRepo` states the leftmost-first greedy match of `^(.+)://(.+)/(.+)/(.+)$` directly:
  - the largest `://` position whose tail matches;
  - in the tail, the last `/` that leaves the last group non-empty, then the last `/` before it that leaves the middle group non-empty.
- ClientUtils.UpdateClientConfig.Load: `Corrupt` stands for a file that cannot be read or is not JSON at all, which leaves the fields alone. `json.Unmarshal` can also fail part way, with a type error after it has assigned some fields, and a file holding `null` sets the receiver to nil so that the cache-directory default panics. Neither is modelled.
- With an empty `HOME`, `exist()` looks at a relative path. The model takes `Disk.file` to be what `exist()` sees.

## Findings

| source | as written | input that shows it | evidently intended | confidence | as-written member | corrected member |
|---|---|---|---|---|---|---|
| utils/utils.go:112 | the password is `strings.Trim(arr[1], "\x00")`. This removes the zero padding of the oversized decode buffer, and with it any NUL bytes the password itself starts or ends with | `DecodeBasicAuth("Basic " + EncodeBasicAuth("u", "x\x00"))` gives the password `"x"` | keep exactly the `n` bytes the decoder wrote (`decoded[:n]`), so every password round-trips | not executed | Utils.NulPasswordLost | Utils.BasicAuthExactRoundTrip |
| utils/utils.go:119, 123 | `"[:alpha:]"` and `"[:digit:]"` are not nested in an outer bracket. Go's regexp reads them as the plain sets `{':','a','l','p','h'}` and `{':','d','i','g','t'}` | `ValidatePassword("abc12")` reports "No digital character"; `ValidatePassword(":::::")` is accepted | the POSIX classes `[[:alpha:]]` and `[[:digit:]]`: at least one letter and one digit | not executed | Utils.PasswordBracketQuirk | Utils.ValidatePasswordIntended |
