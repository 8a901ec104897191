# google search client: buffer and response walk, in Dafny

This project models the core of a small command-line search client written in C. The client
sends a query to a web search API, gathers the streamed HTTP response in a growable string buffer,
and walks the parsed JSON reply. The walk checks the reply's shape and prints one block per result.

- `just_string.dfy`, module `JustString`: the heap record `struct string_s` of `just_string.c`.
  It is a class `JString` with the fields `size` and `data` (a byte array) and a `released` flag,
  which is the model's record of `free_string`. The operations are `new_string`,
  `resize_string`, `append_len_string`, `append_string`, `get_string` and `free_string`.
  Each allocation takes a boolean `granted` input, so every contract covers both the success
  and the NULL outcome. Bytes that `realloc` adds past the old block are arbitrary. The logical
  string is always the bytes before the first zero byte (`Strlen`, `Contents`), because the C
  code recomputes it with `strlen` on every append.
- `json_tree.dfy`, module `JsonTree`: the parsed document as `main.c` sees it through jansson's
  accessors. Objects are maps. A non-integer number carries whatever jansson's integer accessor
  would report for it, and the model leaves that value open.
- `search.dfy`, module `Search`, which covers `main.c`:
  - the request URL that `fetch_search` formats with `snprintf` and checks;
  - `WriteMemoryCallback`, and the transfer that feeds each received chunk to it;
  - `fetch_search` as a whole;
  - the validation walk of `main` (method `Walk`, proved equal to the recursive specification
    `Extract`);
  - `main`'s sequence of steps (`RunSearch`).

Behaviour of the code worth knowing:

- `new_string` records `size = 0` although it allocates one byte (just_string.c:69-76).
- A result is printed as soon as it passes its checks, so when result `i` fails, results
  `0..i-1` have already been printed (main.c:163-194).
- A root that is not an object is reported with the words "root is not an array". The check
  itself is for an object, so the model names the error `RootNotObject`.
- A refused `realloc` releases the buffer, but `WriteMemoryCallback` ignores the failure and
  reports the chunk consumed. So the C program goes on to use the released buffer: in the next
  callback, in `get_string`, or in the final `free_string`. The model stops at that point. It
  reports it as `Undefined` (`RunSearch`) or as a shorter transfer (`Transfer`).

## Model

| member | source | states |
|---|---|---|
| `JustString.Strlen` | just_string.c:21 | the length `strlen` finds is the index of the first zero byte: that byte is zero and none before it is |
| `JustString.CutAtNul` | just_string.c:21-29 | what a C reader of appended bytes sees: the longest zero-free prefix, ending just before the first zero when there is one |
| `JustString.StrlenAfterNulFree` | just_string.c:21-29 | when a NUL-terminated block follows a zero-free prefix, `strlen` of the whole is the prefix length plus `strlen` of the block |
| `JustString.CutAtFirstNul` | just_string.c:21-29 | a chunk whose first zero byte is at `j` is read by `strlen` as its first `j` bytes |
| `JustString.JString.Contents` | just_string.c:6-9 | the logical string is zero-free, stands at the start of `data`, and is followed by a zero byte |
| `JustString.JString.Empty` | just_string.c:69-77 | a fresh one-byte block holding a single zero byte, with `size` recorded as 0 |
| `JustString.JString.NewString` | just_string.c:60-78 | NULL exactly when either allocation is refused; otherwise a fresh record whose data is one zero byte (empty string) and whose `size` is 0, not 1 |
| `JustString.JString.GetString` | just_string.c:11-15 | returns the block's bytes; its logical string is the prefix up to the first zero byte |
| `JustString.JString.FreeString` | just_string.c:80-84 | the record is released, and every operation requires a live record from then on |
| `JustString.JString.ResizeString` | just_string.c:41-58 | refused: the whole record is released and -1 is returned; granted: 0 is returned, `size` and the block length are both `newSize`, the first min(old length, `newSize`) bytes are kept, and the logical string is kept whenever `newSize` exceeds its length |
| `JustString.JString.AppendLenString` | just_string.c:17-32 | granted: data is exactly old string + `d[0..n)` + one zero byte; `size` is old length + n + 1 (so n = 0 keeps the contents but still reallocates to old length + 1); the new logical string is the old one plus `d` cut at its first zero byte. Refused: -1, the record is released, and nothing is copied |
| `JustString.JString.AppendString` | just_string.c:34-39 | the same outcome as `append_len_string(s, d, strlen(d))`: the old string followed by `d` up to its terminator |
| `Search.Snprintf` | main.c:55 | the return value is the full formatted length, or -1 above INT_MAX; the stored text is a prefix of the formatted text with at most cap - 1 characters |
| `Search.BuildUrl` | main.c:51-59 | fails exactly when the formatted text is longer than INT_MAX, since the check on `n` against `url_len` can trip only there; otherwise the URL is the API template with `%s` replaced by the escaped query, never truncated |
| `Search.WriteMemoryCallback` | main.c:18-27 | always reports `size * nmemb` bytes consumed; granted: the buffer holds the old string + those bytes + a zero, and `size` is the old length + `size * nmemb` + 1 (1 for an empty chunk into a fresh buffer); refused: the buffer is released |
| `Search.Folded` | main.c:24 | what the buffer's string grows by when the chunks are appended one after another; it never holds a zero byte |
| `Search.FoldedStopsAtNul` | main.c:24 | a chunk whose first zero byte is at `j` adds only its first `j` bytes, so the next append writes over that zero and what followed it |
| `Search.EmbeddedNulOverwritten` | main.c:24 | appending the bytes "A", 0, "B", "C" and then "D" leaves the string "AD" |
| `Search.FoldedNulFree` | main.c:24 | folding zero-free chunks through the appends gives exactly their concatenation in order |
| `Search.Transfer` | main.c:61-66 | every chunk is appended in order while allocations succeed, and the string grows by the folded chunks; the first refused allocation releases the buffer, and only the chunks up to it are handed over; after at least one granted chunk `size` is the block length |
| `Search.FetchSearch` | main.c:29-87 | returns 0 exactly when curl starts, escaping succeeds, the URL check passes and the transport succeeds; a failure before the transfer leaves the buffer as it was; otherwise the buffer's string is the folded chunks, unless an allocation was refused |
| `Search.Header` | main.c:136-161 | succeeds exactly when the root is an object with a number `responseStatus` whose integer value is 200 and an object `responseData` holding an array `results`; yields that array; its errors are never per-result errors |
| `Search.HeaderError` | main.c:136-161 | each header error arises exactly when its check is the first one failed, in the order root, status type, status value, responseData, results |
| `Search.CheckResult` | main.c:163-187 | succeeds exactly when the element is an object with string `content`, `title` and `unescapedUrl`, giving the record (index i, url, title, content) copied verbatim; every error carries result number i + 1 |
| `Search.ResultError` | main.c:163-187 | each per-result error arises exactly when its check is the first failed, in the order object, content, title, unescapedUrl |
| `Search.Scan` | main.c:163-194 | the loop from element `from`: the printed records carry the indices `from`, `from + 1`, … in order; it succeeds exactly when it prints every remaining element, and a failure names result number `from` + printed + 1 |
| `Search.Extract` | main.c:136-196 | the whole walk: it succeeds only when the header checks pass and then prints one record per result; record `k` carries index `k`; a per-result error names result printed + 1; a header error prints nothing |
| `Search.ScanMeaning` | main.c:163-194 | the loop prints exactly the longest run of conforming elements, in array order with their indices; it succeeds only if that run reaches the end of the array, and otherwise fails with the error of the next element |
| `Search.ExtractMeaning` | main.c:136-196 | the walk succeeds exactly when the document conforms to the schema, and then prints one verbatim record per result in order (none for an empty array); a header error prints nothing; a result error names result count + 1 after printing the earlier results, each conforming and printed as its verbatim record |
| `Search.ScanStopsAtFailure` | main.c:163-194 | no element after the failing one is examined: arrays that agree up to and including it give the same report |
| `Search.StatusDecidedBeforeData` | main.c:141-155 | a missing or non-number `responseStatus` gives "not a number", and any other value than 200 gives "not 200"; both print nothing, whatever `responseData` holds |
| `Search.Walk` | main.c:136-196 | the loop-based walk prints and reports exactly what the specification `Extract` does |
| `Search.RunSearch` | main.c:105-202 | "Out of memory" exactly when an allocation of `new_string` is refused. The run ends in undefined behaviour exactly when an allocation is refused during the transfer. It is a fetch failure exactly when some other `fetch_search` step fails, and a syntax error exactly when the fetched text (the folded chunks) does not parse. Otherwise the printed records are the walk's records, and the run succeeds exactly when the document conforms, or else fails with the walk's schema error. Nothing is printed before the text parses |
| `Search.GithubExample` | main.c:136-194 | a one-result response in the API's shape prints record (0, "https://github.com", "GitHub", "Where the world builds software") and succeeds |

## Left out

- The curl transport is not modelled: `curl_easy_init`, `curl_easy_escape`, `curl_easy_perform`,
  the cleanup calls and the user agent (main.c:39-50, 61-82). Its answers are inputs instead: `initOk`,
  the escaped query (`escaped`, None when escaping fails), the chunks received and `transportOk`.
  Chunks are always delivered with `size` 1. curl's abort when a callback reports fewer bytes is
  not modelled, because this callback always reports them all.
- The JSON parser `json_loads` and its error report (main.c:130-134) are foreign code. Parsing is
  an input function `parse` from the buffer's text to a document or a syntax error.
- For a non-integer number, what `json_integer_value` yields cannot be seen. It is kept as an
  open value (`JReal.integerView`).
- Terminal formatting, the `printf` layout and `print_help` (main.c:14-16, 89-96, 189-193) are
  cosmetic. Printing a block is modelled as appending a `Record`.
- The argument-count check (main.c:100-103) and the numeric exit codes are left out. `RunSearch`
  reports success, failure with its diagnostic, or undefined behaviour; the message texts are
  not modelled.
- Addresses, leaks and in-place reallocation are not modelled. A granted `realloc` always yields a
  fresh array, and `get_string` returns the bytes rather than an alias of them.
- `realloc` with size 0 has implementation-defined behaviour that is not modelled. It is treated
  like any other size.
- What happens after the program touches a released buffer is not modelled: it is undefined
  behaviour. `Transfer` stops before the next chunk, and `RunSearch` ends with `Undefined`.
- Pointer-width arithmetic is left out. The model does not wrap `size_t` in `s_len + data_len + 1`
  (just_string.c:23), in `size * nmemb` (main.c:21) or in the URL length (main.c:52), nor `int`
  in the loop index (main.c:163). Each quantity is bounded by the size of an object in memory.
- The unchecked `malloc` of the URL buffer (main.c:53) is not modelled; the buffer is assumed to
  exist.
