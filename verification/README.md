# gold release uploader — a Dafny model

`gold upload <package> <tag> <patterns…>` takes file patterns, resolves them to
files, gives each file the object key `<package>/<tag>/<file name>`, drops any
file whose key is already taken, and uploads what is left to a storage backend
one file at a time. It stops at the first failure. This project models the core
of that command and proves properties of it:

- `src/uploader.rs`: pattern parsing (`path#label`), file resolution (exact
  file, refused directory, glob), key generation, content-type guessing,
  asset discovery with key deduplication, and the upload loop.
- `src/config.rs`: the configuration read from the environment, and the
  `KEY=VALUE` overrides the getters prefer.
- `src/main.rs`: parsing of `--config KEY=VALUE`, the loop that applies the
  overrides in order, and the choice of backend by name.

The outside world comes in as parameters:

- The filesystem is a `FileSystem` value with three parts:
  - what kind of thing each path is (regular file, directory, other, or absent);
  - what the glob expander returns for a pattern: a syntax error, or its
    entries in order, some of which may be unreadable;
  - the final component of a path, when it is valid UTF-8.
- The storage backend is a function. It answers each upload call given all
  the calls made before it.
- The process environment is a map.

Strings are sequences of Unicode scalar values, as Rust's `str` is. `trim`
removes Unicode White_Space, as Rust's `char::is_whitespace` does.

Modules, one per file:

| module | file |
|---|---|
| `Results` | `results.dfy` |
| `Text` | `text.dfy` |
| `Uploader` | `uploader.dfy` |
| `Discovery` | `discovery.dfy` |
| `Upload` | `upload.dfy` |
| `AppConfig` | `config.dfy` |
| `Cli` | `cli.dfy` |

In two places the code is looser than one might expect; the model follows the
code:

- A pattern without `#` is used exactly as given, untrimmed
  (`src/uploader.rs:93`).
- The "no assets" error does not list the patterns (`src/uploader.rs:33`).

## Model

| member | source | states |
|---|---|---|
| Text.Trim | src/uploader.rs:89-90 | the result is a slice of the input with only white space before and after it, and it neither starts nor ends with white space |
| Text.TrimOfPadded | src/uploader.rs:89-90 | trimming white space, then a core with no white space at its ends, then white space gives back exactly that core |
| Text.TrimIdempotent | src/uploader.rs:89-90 | trimming twice is the same as trimming once |
| Uploader.ParsePattern | src/uploader.rs:87-95 | there is a label exactly when the pattern holds a `#`; without one, the file part is the whole pattern, untrimmed |
| Uploader.ParsePatternAtFirstHash | src/uploader.rs:88-91 | with the first `#` at position h, the file part is the trimmed text before h and the label is the trimmed text after it |
| Uploader.ParsePatternSplit | src/uploader.rs:87-95 | joining a `#`-free path, `#` and any label, then parsing, gives back the trimmed path and the trimmed label; any later `#` belongs to the label |
| Uploader.FindMatchingFiles | src/uploader.rs:97-116 | an existing regular file resolves to itself alone; an existing directory is refused; anything else goes to the glob expander; every file it returns is a regular file; the only errors are a refused directory or a bad glob |
| Uploader.ExistingFileBypassesGlob | src/uploader.rs:100-103 | for an existing file the glob expander is never consulted: replacing it changes nothing |
| Uploader.MatchGlobPattern | src/uploader.rs:118-143 | fails exactly when the glob pattern is malformed, and names the pattern and the glob's complaint; otherwise it returns the regular files among the expansion |
| Uploader.RegularFilesAmong | src/uploader.rs:124-135 | returns no more paths than there are entries, and only matched entries that are regular files |
| Uploader.RegularFilesAmongComplete | src/uploader.rs:126-130 | no matched regular file is dropped |
| Uploader.RegularFilesAmongAppend | src/uploader.rs:124-135 | the files keep glob order: filtering a concatenation gives the files of each part, in turn |
| Uploader.UnreadableEntrySkipped | src/uploader.rs:131-133 | an unreadable entry neither fails the expansion nor changes what the other entries yield |
| Uploader.GenerateKey | src/uploader.rs:145-152 | the key is as long as the package name, the tag, two separators and the final component (or `unknown`), with `/` right after the package name and right after the tag |
| Uploader.KeyLayout | src/uploader.rs:145-152 | a key reads back as package name, `/`, tag, `/`, then the file's final component, or `unknown` when the path has no usable final component |
| Uploader.KeyCollision | src/uploader.rs:145-152 | two paths get the same key exactly when their final components are the same: the directory part does not reach the key |
| Uploader.Extension | src/uploader.rs:156 | a name has no extension exactly when it is `..`, has no dot, or has a dot only at its start; otherwise the extension is the dot-free text after the last dot |
| Uploader.ExtensionOfJoin | src/uploader.rs:156 | the extension of `stem.ext` is `ext`, whatever dots the stem holds |
| Uploader.GuessContentType | src/uploader.rs:155-170 | always returns a type from the table; the generic binary type exactly when the extension is missing, not in the table, or `exe` |
| Uploader.ContentTypeOfLastExtension | src/uploader.rs:155-170 | only the last extension decides the type |
| Uploader.ContentTypeOfArchive | src/uploader.rs:159 | `archive.tar.gz` is `application/gzip` |
| Uploader.ContentTypeWithoutExtension | src/uploader.rs:168 | a name without a dot is `application/octet-stream` |
| Uploader.DirectoryMessage | src/uploader.rs:106-111 | the refusal names the directory and suggests the pattern `<dir>/*` |
| Uploader.Describe | src/uploader.rs:32-138 | each error message names what failed: the directory and its `/*` pattern, the bad glob and the glob's complaint, or the path whose upload failed; the no-assets message is fixed text |
| Discovery.PatternAssets | src/uploader.rs:63-81 | fails exactly when resolving the pattern's file part fails, with that error; otherwise yields as many assets as resolved files, each a regular file carrying that file's key and the pattern's label |
| Discovery.PatternAssetsInOrder | src/uploader.rs:64-68 | asset i of a pattern is resolved file i: one asset per file, in resolver order |
| Discovery.AssetsFor | src/uploader.rs:67-81 | one asset per matched file, asset i for file i, each carrying the label and its file's key |
| Discovery.Dedup | src/uploader.rs:61-81 | keeps no more assets than there are candidates; `DedupSound`, `DedupKeepsFirst` and `DedupSubsequence` fix which ones |
| Discovery.DedupSound | src/uploader.rs:67-81 | the kept assets are candidates, no two share a key, and their keys are exactly the candidates' keys not already seen |
| Discovery.DedupKeepsFirst | src/uploader.rs:70-74 | every kept asset is the first candidate carrying its key, and that key was not seen before |
| Discovery.DedupSubsequence | src/uploader.rs:67-81 | deduplication keeps the candidates' order |
| Discovery.DedupAppend | src/uploader.rs:60-82 | deduplicating two lists in a row equals deduplicating the second against every key the first produced, so the seen set shared across patterns makes the first occurrence win across patterns |
| Discovery.CollectFailFast | src/uploader.rs:63-65 | collecting fails exactly when some pattern fails, even if earlier patterns matched, and then with the first failure |
| Discovery.CollectProvenance | src/uploader.rs:63-81 | every collected asset comes from some pattern's resolution |
| Discovery.DiscoverFrom | src/uploader.rs:60-84 | the pattern-by-pattern loop fails exactly when collecting the resolutions fails, and with the same, first failure |
| Discovery.DiscoverFromIsDedup | src/uploader.rs:54-85 | the pattern-by-pattern loop equals one deduplication of all candidates in pattern order, or the first failure |
| Discovery.DiscoverAssets | src/uploader.rs:54-85 | on success the keys are distinct, and each asset is a regular file with its own key, coming from some pattern; it fails exactly when some pattern fails, and then with the first failure |
| Discovery.DiscoverKeepsFirst | src/uploader.rs:60-84 | the catalog keeps every key the candidates produce, through its first carrier, in candidate order |
| Discovery.DedupFromNothing | src/uploader.rs:60-84 | deduplicating from an empty seen set keeps every key, through its first carrier, in order |
| Discovery.DiscoveredLabels | src/uploader.rs:63-80 | each catalog entry carries the label of a pattern whose file part resolved to that entry's file |
| Discovery.ExactFilePattern | src/uploader.rs:63-81 | a `#`-free pattern naming an existing file yields exactly that file, unlabelled |
| Discovery.LabelledFilePattern | src/uploader.rs:87-91 | `path#label`, with a path naming an existing file and no white space around it, yields that file under the trimmed label |
| Discovery.DiscoverTwo | src/uploader.rs:63-81 | two patterns with one file each: both are kept, unless their keys collide and only the first is kept |
| Discovery.SameNameCollides | src/uploader.rs:68-74 | `a/x.zip` and `b/x.zip` both map to `app/v1/x.zip`, and only the first is uploaded |
| Discovery.LabelledPatternsExample | src/uploader.rs:54-85 | `build/app.zip` and `build/app.sha256#checksum` give two assets in pattern order, the second labelled `checksum` |
| Upload.UploadEach | src/uploader.rs:41-49 | the calls made are a prefix of the planned calls, and success means all of them were made |
| Upload.UploadEachSucceedsIff | src/uploader.rs:41-51 | the loop succeeds exactly when every call was made and the backend accepted each one |
| Upload.UploadEachFailure | src/uploader.rs:41-48 | a failed loop stopped at its last call: earlier calls were accepted, the last was refused, and the error names that call's path and carries the backend's message |
| Upload.UploadEachStopsAtFirstFailure | src/uploader.rs:41-48 | if the backend accepts the first k calls and refuses call k, exactly calls 0..k are made and later assets are never attempted |
| Upload.CallFor | src/uploader.rs:42-44 | the upload call for an asset carries the asset's key, its path and the content type guessed from that path |
| Upload.UploadReleaseContentTypes | src/uploader.rs:41-44 | every call a release makes carries the content type guessed from its own path |
| Upload.UploadCatalog | src/uploader.rs:30-51 | a discovery failure is passed on and an empty catalog refused, in both cases before any upload; the calls made follow catalog order; success means every asset was uploaded and accepted; a failure on a non-empty catalog stopped at the refused call, after every earlier call was accepted, naming that asset's path |
| Upload.UploadRelease | src/uploader.rs:24-52 | an upload run is either a discovery failure, the empty-catalog error, every asset uploaded in catalog order and accepted, or a prefix of that order ending at the first call the backend refused, whose asset's path the error names |
| Upload.UploadReleaseStopsAtFirstFailure | src/uploader.rs:41-48 | when the backend accepts the first k calls of the catalog and refuses call k, exactly calls 0..k are made and the error names asset k's path and carries the backend's message |
| Upload.CatalogStopsAtFirstFailure | src/uploader.rs:41-48 | the same fail-fast statement for any discovery outcome: exactly calls 0..k of the catalog are made when call k is the first refused |
| Upload.UploadReleaseAcceptedInTurn | src/uploader.rs:41-51 | in a successful release each call was accepted after exactly the calls before it |
| Upload.UploadReleaseStopsAtFailure | src/uploader.rs:41-48 | a run that made calls and failed stopped at its last call, which the backend refused after accepting all earlier ones |
| AppConfig.FromEnv | src/config.rs:16-34 | succeeds exactly when the access key, secret key and bucket name are all set, and otherwise names the first one missing, in that order; copies the three values; region defaults to `us-east-1`; endpoint is present exactly when set; starts with no overrides |
| AppConfig.SetOverride | src/config.rs:36-38 | records the value under the key and replaces any earlier value for it; other overrides and the environment settings are untouched |
| AppConfig.AccessKey | src/config.rs:40-45 | the `ACCESS_KEY` override when one is stored, else the access key from the environment |
| AppConfig.SecretKey | src/config.rs:47-52 | the `SECRET_KEY` override when one is stored, else the secret key from the environment |
| AppConfig.BucketName | src/config.rs:54-59 | the `BUCKET_NAME` override when one is stored, else the bucket name from the environment |
| AppConfig.AwsRegion | src/config.rs:61-66 | the `AWS_REGION` override when one is stored, else the region from the environment |
| AppConfig.S3Endpoint | src/config.rs:68-73 | there is no endpoint exactly when neither an override nor the environment gives one |
| AppConfig.GettersPreferOverrides | src/config.rs:68-73 | the endpoint getter returns the `S3_ENDPOINT` override when one is stored, and otherwise the endpoint from the environment, if any |
| AppConfig.GettersAfterFromEnv | src/config.rs:16-73 | straight after reading the environment, the getters report its values, with the region default and the optional endpoint |
| AppConfig.OverrideTakesEffect | src/config.rs:36-73 | overriding a recognised key makes its getter return the new value, even over an endpoint from the environment |
| AppConfig.SetOverrideLastWins | src/config.rs:36-38 | setting a key twice is setting it once, to the second value |
| AppConfig.UnrecognisedOverrideIgnored | src/config.rs:40-73 | an override under a key no getter reads changes no getter's answer |
| Cli.ParseConfig | src/main.rs:43-49 | fails exactly when there is no `=`, with the fixed message; otherwise the key has no `=` and key, `=` and value join back to the argument |
| Cli.ParseConfigJoin | src/main.rs:43-49 | parsing `key=value` for an `=`-free key gives back the key and the value, which may hold further `=` |
| Cli.ApplyOverrides | src/main.rs:67-70 | applying overrides leaves the settings from the environment untouched |
| Cli.ApplyOverridesLastWins | src/main.rs:67-70 | after the loop, each key holds the last value given for it on the command line, or its earlier value if it was not given |
| Cli.RepeatedOverrideLastWins | src/main.rs:67-70 | `--config ACCESS_KEY=a --config ACCESS_KEY=b` makes the access key `b` |
| Cli.SelectBackend | src/main.rs:76-82 | only `s3` is accepted; `webdav` is refused as not implemented yet; any other name is refused with a message that contains the name |

## Left out

- `src/storage.rs` (the S3 client, its requests and credentials) is not part of this model. The backend is a function from the earlier calls and the current call to success or an error message.
- `S3Storage::new`, which can itself fail, is not modelled: `Cli.SelectBackend` only decides which backend kind is built.
- `Config::validate` is called at `src/main.rs:73` but is not defined in `src/config.rs` or any other file modelled here, so it is left out.
- The `main` composition (environment, then overrides, then validation, then backend, then upload) is not one function here; each step is modelled separately.
- Command-line parsing by clap (positional arguments, `--storage` defaulting to `s3`) and loading `.env` files are left out: they are library behaviour.
- Console output (`println!` of the asset list and of success, the `eprintln!` warning for an unreadable glob entry) is left out: it does not affect the result.
- Asynchronous execution and dynamic dispatch are left out: the uploads are sequential in the source.
- Real filesystem and glob semantics (symbolic links, permissions, how `glob` orders and expands patterns) are abstracted into the `FileSystem` oracle. The model only assumes the source's own reading of it: a path kind, a list of entries or a syntax error, and a final component.
- `Path::display` renders a path exactly as given in the model. Lossy rendering of non-UTF-8 paths in messages is not modelled.
- Uploader.GuessContentType: takes the extension from the UTF-8 final component only. The source can still find a valid UTF-8 extension on a final component that is not valid UTF-8; the model guesses the generic binary type there instead.
- Uploader.Describe: renders only the outermost context of an upload failure, as anyhow's `Display` does. The backend's message is kept as the error's cause, not in the text.
