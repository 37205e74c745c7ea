# parbake, modelled in Dafny

parbake prerenders a web page with a real Chrome. It opens a tab over the
DevTools protocol, waits for the page's load event, records one timing per
network response, captures the final DOM, and caches the result on disk. The
cache key is derived from the URL. Later requests for the same URL are served
from the cache file.

This project models the deterministic core of `parbake.py`:

- **The capture loop** of `process_page_and_store` (module `Capture`). The
  method `CaptureSession` is the `while not done` loop over the inbound
  DevTools messages. It keeps the metadata record (an optional
  `Content-Type` entry and the ordered `timings`), the `discarded_lines`
  diagnostics, the page and the `done` flag, and it logs the correlation id
  of every command sent. Its contract ties the final state to `Outcome`, a
  closed-form description: the first result for id 5 ends the loop, and the
  timings, content type, diagnostics and load-event commands are functions
  of the messages read before it. Module `CaptureProperties` proves what
  each kind of message does in any context.
- **The cache-entry text** (module `CacheEntry`). The entry is the metadata
  JSON line, a newline, then the page. Reading takes the first line and the
  rest, after text-mode newline translation.
- **Cache-key derivation** (modules `Utf8`, `Base64`, `CacheKey`). The key
  is `"data-"` followed by the base64 of the URL's UTF-8 bytes, with outer
  whitespace stripped. The base64 is the standard alphabet with padding
  (section 4 of RFC 4648), laid out like `base64.encodebytes`: a newline
  after each 76 output characters (section 6.8 of RFC 2045). The key
  decodes back to the URL, so distinct URLs get distinct keys.
- **The lookup-or-render rule** of `get_url_prepared` and the write-out
  (modules `PosixPath`, `Prerender`). The filesystem is a value: a map from
  path to file text, and the set of existing directories. A render happens
  exactly when `os.path.exists` is false for the path. The write-out
  creates a temporary file with `mkstemp` in `os.path.dirname` of the path,
  then renames it onto the path. Each of these system calls can raise, and
  the model keeps those failure cases, including a last path component
  longer than 255 bytes (`NAME_MAX`, ENAMETOOLONG).

Four behaviours of the code are worth stating, because its own comments
and names suggest otherwise:

- The guard at line 88 is evidently meant to keep the *first* qualifying
  response's content type: it skips the write when the key is already
  present. But it looks up `"content-type"`, while line 90 writes
  `"Content-Type"`. The guard therefore never blocks, and the *last*
  qualifying response's header is kept. See `Capture.GuardNeverBlocks`,
  `CaptureProperties.ContentTypeIsLast` and
  `CaptureProperties.LastResponseWins`.
- The key is reversible, but the standard base64 alphabet can put `/` into
  it (`CacheKey.SlashInKey`). The cache path then ends in `/`, or names a
  file in a subdirectory. `mkstemp` raises when that directory is missing,
  so such a URL is rendered again on every request and never cached
  (`Prerender.TrailingSlashNeverPublished`, `Prerender.SlashKeyRequest`).
  For URLs over 57 UTF-8 bytes the key also keeps interior newlines
  (`CacheKey.EscapedUrlNewline`).
- The key grows by about four characters per three URL bytes, and a file
  name is limited to 255 bytes. A URL of 184 UTF-8 bytes or more whose key
  has no `/` gets a 256-byte or longer name. `os.path.exists` reports it as
  missing and the render runs, but `os.rename` raises ENAMETOOLONG, so
  the URL is rendered on every request. Each attempt leaves a temporary
  file behind (`Prerender.LongKeyRequest`,
  `Prerender.LongKeyDoesNotFit`).
- Nothing serialises renders of the same key: two concurrent requests for a
  missing entry both render. The model has no concurrency.

Abstractions: an inbound message is the `Capture.Packet` datatype, not JSON
text. Timestamps are integers and elapsed times are integer differences.
`json.dump(metadata)` is a function parameter `encode`. The browser's
replies to one render are a sequence of packets passed in.

## Model

| member | source | states |
|---|---|---|
| `Capture.CaptureSession` | parbake.py:54-112 | The loop ends in exactly the state `Outcome` describes. It reads up to and including the first id-5 result, or all messages when none arrives. Timings, content type, diagnostics and load commands come from the messages before that result. The page becomes that result's value. The sent ids are 1,2,3, then 4,5 per load event, then 6 if the loop finished. |
| `Capture.FirstTerminal` | parbake.py:103-106 | Gives the index of the first message that is a result for id 5, or the length when none is. Every earlier message is not such a result. |
| `Capture.Outcome` | parbake.py:102-106 | A session counts as done exactly when it holds a page. The page and the done flag are set together, when the id-5 result arrives. |
| `Capture.OutcomeEnd` | parbake.py:66-108 | The loop finishes exactly when an id-5 result arrives. A finished session keeps that result's value as the page and has read exactly through it. An unfinished one has no page and has read every message. |
| `Capture.OutcomeMetadata` | parbake.py:78-93 | The metadata depends only on the messages before the id-5 result: its content-type entry and timings are those of that prefix. |
| `Capture.GuardNeverBlocks` | parbake.py:88-90 | The key `"content-type"` that line 88 looks up is never a key of the metadata dict, whose keys are `"timings"` and possibly `"Content-Type"`. |
| `Capture.DecimalString` | parbake.py:111 | `str(id)` is never empty and starts with `-` exactly when the id is negative. |
| `Capture.DecimalStringDigits` | parbake.py:111 | After the optional `-`, `str(id)` is decimal digits, and starts with `0` only for the id 0 itself. |
| `Capture.NatStringValue` | parbake.py:111 | Reading the decimal digits of a non-negative id back as a number gives the id. |
| `Capture.DecimalStringInjective` | parbake.py:111 | `str(m) == str(n)` exactly when `m == n`, for all integers. |
| `Capture.ResultDiagnosticsDistinct` | parbake.py:111 | The lines `result for id <m>` and `result for id <n>` are equal exactly when the ids are. |
| `CaptureProperties.Decompose` | parbake.py:66-112 | For a prefix holding no id-5 result, the outcome over prefix-plus-rest is the prefix's state continued by the outcome over the rest. Processing is message by message and in order. |
| `CaptureProperties.InertIgnored` | parbake.py:69-83 | An error message (even one carrying id 5), an empty message, a `"data"` response or an empty result for another id changes nothing: no timing, content type, diagnostic or command, and `done` remains as it was. Only the count of messages read grows. |
| `CaptureProperties.ResponseRecorded` | parbake.py:78-94 | A non-`"data"` response inserts exactly one timing `[url, timestamp - requestTime]`, placed after the earlier responses' timings. There is no deduplication. Page, diagnostics, `done` and sent commands are unchanged. |
| `CaptureProperties.TimingsCount` | parbake.py:92-93 | The number of timings equals the number of non-`"data"` responses read. |
| `CaptureProperties.LoadEventResends` | parbake.py:96-99 | Each load event sends 4 then 5, right after the commands already sent, and does not end the loop. Apart from that and the count of messages read, the outcome is unchanged. |
| `CaptureProperties.UnhandledRecorded` | parbake.py:101-112 | An unrecognised method adds `"method <name>"`. A non-empty result for another id adds `"result for id <n>"`. Nothing else changes and the loop goes on. |
| `CaptureProperties.EvaluateResultEnds` | parbake.py:103-108 | The first id-5 result ends the loop. The page is its value, `done` holds, and id 6 is sent once after the earlier commands. The message count stops there. |
| `CaptureProperties.StopsAtFirstTerminal` | parbake.py:66-108 | Messages after the first id-5 result are never read. Appending more input does not change the outcome. |
| `CaptureProperties.SentLog` | parbake.py:61-107 | The sent ids are 1,2,3, then the pair 4,5 once per load event read, then 6 exactly when the loop finished. 6 appears only as the last id. |
| `CaptureProperties.ContentTypeIsLast` | parbake.py:88-90 | When a non-`"data"` response was read, the stored content type is the header of the last such response, or null if that response had no `content-type` header. |
| `CaptureProperties.ContentTypeAbsentIff` | parbake.py:88-90 | The `Content-Type` key is absent exactly when no non-`"data"` response was read. |
| `CaptureProperties.OutcomeTimingsCount` | parbake.py:92-93 | Over a whole session, there is one timing per non-`"data"` response read before the id-5 result. |
| `CaptureProperties.OutcomeContentTypeIsLast` | parbake.py:88-90 | Over a whole session, the stored content type is the header of the last non-`"data"` response before the id-5 result, or null when that response had none. |
| `CaptureProperties.OutcomeContentTypeAbsentIff` | parbake.py:88-90 | Over a whole session, the `Content-Type` key is absent exactly when no non-`"data"` response came before the id-5 result. |
| `CaptureProperties.LastResponseWins` | parbake.py:85-93 | With two responses of different content types, the second one's is stored, not the first. Both timings are recorded in arrival order. |
| `CacheEntry.Write` | parbake.py:119-124 | The text is the metadata JSON, one newline right after it, then exactly the page. |
| `CacheEntry.SplitLine` | parbake.py:163-165 | `readline()` and `read()` split the text into two parts that concatenate back to it. |
| `CacheEntry.SplitLineShape` | parbake.py:163-165 | The first part ends at the first newline and holds no other newline. Without a newline the whole text is the first part and `read()` gets nothing. |
| `CacheEntry.Read` | parbake.py:162-165 | The first line and the rest concatenate to the translated text, and the line has no newline before its last character. A text with no newline or carriage return is all first line, with an empty page. |
| `CacheEntry.Translate` | parbake.py:162 | A text-mode read leaves no carriage return, and leaves text without carriage returns unchanged. |
| `CacheEntry.RoundTrip` | parbake.py:119-124 | A written entry reads back as the metadata line plus its newline, and exactly the page. This needs metadata without newline or carriage return, and a page without carriage return. |
| `CacheEntry.CarriageReturnNotPreserved` | parbake.py:162-165 | A carriage return in the page reads back as a newline, so the round trip needs the page without carriage returns. |
| `Utf8.Encode` | parbake.py:140 | Each character takes 1 to 4 bytes, and an ASCII-only URL takes exactly one byte per character. |
| `Utf8.DecodeEncode` | parbake.py:140 | UTF-8 decoding of the encoded URL gives the URL back. |
| `Utf8.EncodeInjective` | parbake.py:140 | Distinct strings have distinct UTF-8 encodings. |
| `Base64.Encode` | parbake.py:140 | The encoding has 4 characters per started 3-byte group. |
| `Base64.EncodeAlphabet` | parbake.py:140 | Every character of an encoding is from the RFC 4648 alphabet or the pad `=`. |
| `Base64.DecodeEncode` | parbake.py:140 | Decoding the base64 encoding gives the bytes back. |
| `Base64.EncodeAppend` | parbake.py:140 | A prefix whose length is a multiple of 3 encodes separately from what follows. So the 57-byte lines split the encoding without changing it. |
| `Base64.EncodeLines` | parbake.py:140 | The MIME-style encoding is empty exactly for no input, and otherwise ends with a newline. |
| `Base64.RemoveNewlinesJoined` | parbake.py:140 | Removing the line breaks from the MIME-style lines gives the unbroken encoding. |
| `Base64.JoinedLinesNewline` | parbake.py:140 | The lines contain a newline exactly when the input is longer than 57 bytes. |
| `Base64.JoinedLinesLength` | parbake.py:140 | The lines of `n` bytes are `4 * ceil(n / 3)` characters plus one newline for every further 57-byte line. |
| `Base64.JoinedLinesAscii` | parbake.py:140 | The lines consist of ASCII characters only. |
| `CacheKey.TrimStart` | parbake.py:140 | The result is a suffix of the input, the removed characters are whitespace, and it does not start with whitespace. |
| `CacheKey.TrimEnd` | parbake.py:140 | The result is a prefix of the input, the removed characters are whitespace, and it does not end with whitespace. |
| `CacheKey.Strip` | parbake.py:140 | `.strip()` leaves no whitespace at either end, is never longer than its input, and leaves a text without whitespace unchanged. |
| `CacheKey.EscapedUrl` | parbake.py:140 | The escaped URL is empty for the empty URL and has no whitespace at either end. |
| `CacheKey.EscapedUrlIsJoinedLines` | parbake.py:140 | For a non-empty URL, `.strip()` removes only the final newline of the encoded lines. |
| `CacheKey.CacheName` | parbake.py:141 | The file name starts with `data-`, and is exactly `data-` for the empty URL. |
| `CacheKey.CacheNameRoundTrip` | parbake.py:140-141 | The file name `"data-" + key` decodes back to the URL. |
| `CacheKey.CacheNameInjective` | parbake.py:140-141 | Two URLs get the same file name if and only if they are the same string. |
| `CacheKey.CachePath` | parbake.py:141 | The path ends with the file name and never consists of slashes only. |
| `PosixPath.Join` | parbake.py:141 | For a relative name the result is the directory, then one `/` exactly when the directory is non-empty and does not end in one, then the name. An absolute name replaces the directory. |
| `PosixPath.JoinInjective` | parbake.py:141 | Joining relative names onto one directory gives equal paths exactly for equal names. |
| `CacheKey.CachePathInjective` | parbake.py:141 | Under one storage directory, `os.path.join` keeps distinct URLs on distinct paths, and equal URLs on the same path. |
| `CacheKey.EscapedUrlNewline` | parbake.py:140 | The key contains a newline exactly when the URL's UTF-8 form is longer than 57 bytes. |
| `CacheKey.EscapedUrlLength` | parbake.py:140 | The escaped URL's length is that of the joined base64 lines of the URL's UTF-8 bytes. |
| `CacheKey.CacheNameLength` | parbake.py:140-141 | The file name is the 5-character prefix plus the joined lines' length. |
| `CacheKey.EscapedUrlAscii` | parbake.py:140 | The escaped URL is ASCII. |
| `CacheKey.CacheNameAscii` | parbake.py:140-141 | The file name's UTF-8 form has exactly as many bytes as the name has characters. |
| `CacheKey.SlashInKey` | parbake.py:140-141 | The URL `ab?` gets the file name `data-YWI/`, so the standard alphabet can put `/` into a name. |
| `CacheKey.SlashKeyPath` | parbake.py:140-141 | Under `/var/tmp`, the URL `ab?` gets the path `/var/tmp/data-YWI/`, whose dirname is the subdirectory `/var/tmp/data-YWI`. |
| `PosixPath.Dirname` | parbake.py:117 | `os.path.dirname` is a prefix of the path. It is empty exactly when the path has no `/`, and ends in `/` only when it consists of slashes. |
| `PosixPath.BaseName` | parbake.py:117-126 | `os.path.basename` is the suffix after the last `/`: a suffix with no `/` that is either the whole path or preceded by a `/`, so the whole path when the path has none. |
| `PosixPath.BaseNameOfJoin` | parbake.py:141 | A name without `/` joined onto any directory is the last component of the result. |
| `PosixPath.LastComponentOfJoin` | parbake.py:141 | The same holds after trailing slashes are stripped, because such a join does not end in `/`. |
| `PosixPath.DirnameOfJoin` | parbake.py:117 | A name without `/` joined onto a directory not ending in `/` has that directory as its dirname. |
| `PosixPath.DirnameOfTrailingSlash` | parbake.py:117 | The dirname of a path ending in `/` (not all slashes) is the path without its trailing slashes, the directory the path itself names. |
| `CacheKey.PlainKeyInStorage` | parbake.py:117 | For a key without `/` under a storage directory not ending in `/`, `mkstemp` is pointed at the storage directory itself. |
| `Prerender.Mkstemp` | parbake.py:117 | `mkstemp` succeeds exactly when its directory exists with a name that fits, or is the working directory. It then adds one new empty file `temp-<suffix>` there, and changes nothing else. On failure nothing changes. A valid store stays valid. |
| `Prerender.Rename` | parbake.py:126 | `os.rename` of a file succeeds exactly when the target is non-empty, does not end in `/` and is not a directory. Its last component must also have at most 255 bytes (else ENAMETOOLONG), and its directory must exist (else ENOENT). On success the source is gone and the target holds its text. On failure nothing changes. A valid store stays valid. |
| `Prerender.WriteOut` | parbake.py:117-126 | The write-out succeeds exactly when both system calls do. Then only the target changes, to the entry text, and no temporary file remains. When `mkstemp` fails nothing changes. When `rename` fails (for instance on a name over 255 bytes) the temporary file stays, holding the text. Directories never change. A valid store stays valid. |
| `Prerender.ProcessPageAndStore` | parbake.py:117-126 | The entry is stored exactly when the capture finished and both system calls succeed. It is then `json(metadata)`, a newline and the page, at the cache path, and no other file changes. An unfinished capture, or a missing directory, leaves the store as it was. A failed rename leaves the temporary file with the entry. A valid store stays valid. |
| `Prerender.RenameAfterMkstemp` | parbake.py:126 | For a path that does not exist, once `mkstemp` has found its directory, the rename onto that path succeeds exactly when the path's last component has at most 255 bytes. |
| `Prerender.GetUrlPrepared` | parbake.py:135-145 | A missing or empty URL returns `(None, None)` without rendering or writing. Otherwise the render runs exactly when `os.path.exists` is false for the cache path; a name over 255 bytes counts as not existing. An existing path returns `(url, path)` with nothing changed. A finished render, with the directory present and a name that fits, stores the entry and returns `(url, path)`. With a name that does not fit it raises and leaves the temporary file holding the entry. Any other render raises and leaves the store unchanged. A returned path always exists. After a failed render the path still does not exist. Directories never change, and a valid store stays valid. |
| `Prerender.TrailingSlashNeverPublished` | parbake.py:117-126 | A path ending in `/` is never published. When `mkstemp` could find its directory, the path already exists as that directory and is not rendered. |
| `Prerender.SlashKeyRequest` | parbake.py:135-145 | In any valid store without the directory `/var/tmp/data-YWI`, a request for `ab?` under `/var/tmp` renders and fails for every reply of the browser, and leaves the store unchanged. |
| `Prerender.TempNameFits` | parbake.py:117 | The temporary file `mkstemp` creates is a plain, non-directory path whose 13-byte name fits. |
| `Prerender.NameLengthThreshold` | parbake.py:140-141 | A cache name for `n` UTF-8 bytes has at most 255 characters exactly when `n < 184`. |
| `Prerender.LongKeyDoesNotFit` | parbake.py:140-142 | For a key without `/`, the cache path's last component fits exactly when the URL has fewer than 184 UTF-8 bytes. |
| `Prerender.LongKeyRequest` | parbake.py:117-145 | For a URL of 184 UTF-8 bytes or more whose key has no `/`, a finished render under an existing storage directory raises in `rename`. It leaves the temporary file holding the entry, and the path still does not exist, so the next request renders again. |
| `Prerender.ReadCached` | parbake.py:162-165 | Reading gives an entry exactly when the path is a regular file. The entry's two parts make up the file's text after newline translation. |
| `Prerender.ReadAfterPublish` | parbake.py:162-165 | A published entry reads back as its metadata line and exactly its page. |
| `Prerender.RepeatedRequest` | parbake.py:142-145 | Of two requests for the same URL, each with its own random temporary name: once the first has returned a path, the second renders nothing and returns the same URL and path. When the first failed, the second renders again. |

## Left out

- HTTP handlers, routing and HTML formatting (`handle_front`, the JSON response bodies, `FORM_FMT`, parbake.py:39, 147-175, 220-225) are user interface and transport. Only the entry read of parbake.py:162-165 is modelled.
- The `requests.get` calls to `/json/new` and `/json/close`, the websocket connection, and the `finally` clause that closes the tab (parbake.py:46-52, 58, 132-133) are network I/O. Inbound messages are a given sequence, and sends are appended ids.
- Capture.CaptureSession: records only the correlation ids of sent commands, not their JSON text. So it does not show that line 64 splices the URL into the navigate command without JSON escaping.
- Chrome discovery, process start-up, the 30-try `DevToolsActivePort` poll and teardown (parbake.py:178-231) are process and filesystem I/O.
- Prerender.Mkstemp: the random part of the temporary file's name is the parameter `suffix`. It is eight characters of `tempfile`'s alphabet, and it is free. `mkstemp` ensures freshness by retrying; here both are preconditions.
- Permission errors, a full disk and failing writes (parbake.py:117-126) are not modelled. The failure causes are a missing directory, a target that ends in `/` or is a directory, and a last component over 255 bytes.
- Only the last component of a path is checked against `NAME_MAX`. An over-long intermediate component would have to be a directory, and `Prerender.IsDirectory` already rejects a name that does not fit. The 4096-byte `PATH_MAX` is not modelled.
- Paths are compared as strings. Repeated slashes, `.`, `..` and symbolic links are not resolved, except that trailing slashes still reach a directory.
- The file descriptor `mkstemp` returns is closed by the `with` block. The commented-out `os.close` and the empty `finally` (parbake.py:127-130) have no effect on the store.
- JSON parsing of messages is out of the model: `Capture.Packet` stands for an already parsed message. The `KeyError`s the source raises are not modelled. Besides malformed messages, two well-formed DevTools replies raise one: a `Network.responseReceived` whose response has no `timing` (line 93), and an evaluate reply without `result.result.value` (line 105), as when `document.body` is null and the expression throws. The source then never caches the page. In the model the packet always carries the timing and the value, so the capture goes on and the page is cached. A message carrying both an unrecognised `method` and a `result`, which would take both the line-101 and line-103 paths, is not modelled either.
- `json.dump` is the parameter `encode`, and the read stops at the metadata line's text. `json.loads` is not modelled.
- Timestamps are integers, so float rounding in `timestamp - requestTime` is not modelled.
- Text-mode files are assumed to use a lossless encoding (UTF-8). Only the newline translation on read is modelled.
- An input sequence that runs out before the id-5 result stands for the channel closing, and `get_url_prepared` then fails. A channel that blocks forever is not modelled.
- `str.isspace` is modelled for the Unicode whitespace characters, though the base64 text holds only ASCII.
- Concurrent requests are not modelled. The source has no per-key serialisation of renders.
- Logging (parbake.py:73-74, 114-115) has no effect on state.
