# HTTP response toxic — a Dafny model

Toxiproxy sits between a client and an upstream service. It passes the bytes
of a connection through a chain of *toxics* that degrade them. This project
models the HTTP toxic of `toxics/httptoxic.go`.

The toxic reads each chunk of the stream it is attached to as an HTTP
response. When the chunk parses, the toxic replaces the response's
status code, the configured headers, the body and the content length, then
sends the re-serialised response on. When the chunk does not parse, it is
forwarded unchanged (fail-open). A nil chunk closes the link. An interrupt
stops the loop.

The project has five files:

- `wrappers.dfy` — the `Option` datatype.
- `text.dfy` — module `Text`. It models the Go string functions the parser
  relies on:
  - `strings.Split` and the separator join it inverts;
  - `strings.SplitN(s, sep, 2)`;
  - `strings.TrimSpace`, over the white-space set of `unicode.IsSpace`.
- `headers.dfy` — module `HeaderList`. It holds `parseHeaders`, which turns
  `"k1: v1; k2: v2"` into a map.
  - The method `ParseHeaders` keeps the source's loop.
  - It is proved equal to the function `HeaderMap`.
  - `HeaderMap` is a left fold (`Collect`) over the per-pair entries.
- `rewrite.dfy` — module `Rewrite`. It holds the toxic's configuration,
  `GetBufferSize`, and `ModifyResponse`.
  - `ModifyResponse` is a method that updates a `Response` object in place.
  - It is specified by the function `Modify`.
  - Go visits the configuration map in an unspecified order. That order is
    the parameter `order`, which must list every configured key exactly
    once (`Enumerates`).
  - `http.CanonicalHeaderKey` is the parameter `canon`.
- `pipe.dfy` — module `StreamPipe`. It holds the `Pipe` loop.
  - Each outcome of the `select` is an `Event`: an interrupt, a nil chunk,
    or a data chunk.
  - The loop runs over a sequence of such events and drives a `ToxicStub`
    object that records what was sent and how often `Close` was called.
  - The loop is specified by the function `Run`, a fold of `Step`.
  - Parsing, modifying and re-serialising one chunk is the parameter
    `rewrite`. It returns `None` exactly when `http.ReadResponse` fails.

Two facts of the source shape the contracts:

- `ModifyResponse` calls `Header.Set` once per configured key. Two
  configured keys can differ only in letter case, such as `content-type`
  and `Content-Type`. Such keys share a canonical name, and the header
  then holds whichever value was visited last. `ModifyLastWins` and
  `ModifyOutcome` are stated for every visiting order. The promise "each
  configured header holds its configured value" and order independence
  (`ModifyOrderIrrelevant`) hold only when canonical names do not collide
  (`CanonInjective`). Under that condition both are proved.
- `ModifyResponse` touches only the status, the configured headers, the
  body and the content length. `ModifyOutcome` states that every header it
  was not configured to set is kept.

## Model

| member | source | states |
|---|---|---|
| `HeaderList.ParseHeaders` | toxics/httptoxic.go:62-77 | The loop returns `HeaderMap(headerString)`. Every key and value it stores starts and ends with a non-space character. No key holds `:` or `;`, and no value holds `;`. |
| `HeaderList.Entry` | toxics/httptoxic.go:69-72 | A pair yields no entry exactly when it has no `:`. Otherwise the key and value are trimmed at both edges, and the key has no `:`. A pair without `;` gives a key and value without `;`. |
| `HeaderList.HeaderMapEmpty` | toxics/httptoxic.go:63-66 | The empty header string parses to the empty map. |
| `HeaderList.HeaderMapExact` | toxics/httptoxic.go:67-75 | A key is in the result if and only if some well-formed piece carries it. The key holds the value of the last piece carrying it. |
| `HeaderList.CollectExact` | toxics/httptoxic.go:68-75 | For any sequence of entries, the key set of the fold is the set of keys of the present entries. Each key maps to the value of its last entry. |
| `HeaderList.CollectHasEveryKey` | toxics/httptoxic.go:70-73 | Every present entry's key ends up in the map. |
| `HeaderList.CollectKeysFromEntries` | toxics/httptoxic.go:68-75 | Every key of the map, with its value, comes from one of the entries. |
| `HeaderList.CollectLastWins` | toxics/httptoxic.go:73 | A later pair with the same key overwrites an earlier one. |
| `HeaderList.CollectSkipsAbsent` | toxics/httptoxic.go:70 | An absent entry anywhere in the sequence changes nothing. |
| `HeaderList.MalformedPairDropped` | toxics/httptoxic.go:68-70 | Inserting a pair without `:` anywhere in the list of pairs does not change the map built from it. |
| `HeaderList.HeaderMapBindings` | toxics/httptoxic.go:71-73 | Every parsed key and value is trimmed at both edges. No key holds `:` or `;`, and no value holds `;`. |
| `HeaderList.EntryOfPair` | toxics/httptoxic.go:69-72 | A pair `key:rest` with `:` absent from `key` yields the trimmed key and the trimmed rest. |
| `HeaderList.MixedExample` | toxics/httptoxic.go:62-77 | `a:1;b: 2 ;bad` parses to `a` = `1` and `b` = `2`: both pairs are trimmed and the colon-free `bad` is dropped. |
| `HeaderList.SinglePair` | toxics/httptoxic.go:67-73 | A `;`-free string `key:value` parses to the one binding from trimmed key to trimmed value. The value may itself hold `:`, as in `a: b:c` ↦ `a` = `b:c`. |
| `HeaderList.HeaderMapOfJoin` | toxics/httptoxic.go:64-75 | Parsing `;`-free pieces joined with `;` gives the fold over those pieces' entries. |
| `Text.Split` | toxics/httptoxic.go:67 | `strings.Split` gives at least one piece, and no piece holds the separator. |
| `Text.JoinSplit` | toxics/httptoxic.go:67 | Joining the pieces of a split with the separator gives back the original string. |
| `Text.SplitJoin` | toxics/httptoxic.go:67 | Splitting a join of separator-free pieces gives back exactly those pieces. |
| `Text.SplitFirst` | toxics/httptoxic.go:69-70 | `SplitN(s, sep, 2)` has one element exactly when `sep` is absent. Otherwise the string is the first part, then `sep`, then the rest, and the first part has no `sep`. |
| `Text.SplitFirstAt` | toxics/httptoxic.go:69 | Only the first separator splits: the rest may hold more separators. |
| `Text.TrimSpace` | toxics/httptoxic.go:71-72 | The result neither starts nor ends with white space. The input is white space, then the result, then white space. |
| `Text.TrimLeftSpec` | toxics/httptoxic.go:71-72 | Trimming at the front removes exactly a white-space prefix and stops at a non-space character. |
| `Text.TrimRightSpec` | toxics/httptoxic.go:71-72 | Trimming at the back removes exactly a white-space suffix and stops at a non-space character. |
| `Text.TrimSpaceUnique` | toxics/httptoxic.go:71-72 | If `s` is white space, then an edge-free middle, then white space, then `TrimSpace(s)` is that middle. |
| `Text.TrimSpaceIdempotent` | toxics/httptoxic.go:71-72 | Trimming twice is the same as trimming once. |
| `Text.TrimSpaceKeepsAbsent` | toxics/httptoxic.go:71-72 | Trimming never introduces a character. |
| `Rewrite.GetBufferSize` | toxics/httptoxic.go:18-20 | The requested buffer size is 1024 whatever the configuration. |
| `Rewrite.ModifyResponse` | toxics/httptoxic.go:23-30 | The header becomes the given header with `Set` applied to each configured key in visiting order. The status becomes the configured status, and the body the configured body. The content length becomes the body's byte length. Together these equal `Modify` of the old response. |
| `Rewrite.Response.constructor` | toxics/httptoxic.go:47 | A parsed response holds the given status, header, body and length. |
| `Rewrite.SetHeadersKeys` | toxics/httptoxic.go:24-26 | The loop adds exactly the canonical names of the configured keys to the header names. |
| `Rewrite.SetHeadersElsewhere` | toxics/httptoxic.go:24-26 | A header not named by any configured key is kept, and absent ones stay absent. |
| `Rewrite.SetHeadersLastWins` | toxics/httptoxic.go:24-26 | A canonical name holds the value of the last visited key with that canonical name. |
| `Rewrite.SetHeadersForget` | toxics/httptoxic.go:24-26 | What ends up under a configured name does not depend on the header's earlier content. |
| `Rewrite.SetHeadersOverwrite` | toxics/httptoxic.go:24-26 | A later round over the same canonical names overwrites everything an earlier round set. |
| `Rewrite.SetHeadersConfigured` | toxics/httptoxic.go:24-26 | When canonical names do not collide, every configured key's canonical name holds exactly its configured value. |
| `Rewrite.CanonicalOfEnumerates` | toxics/httptoxic.go:24 | Every full visit of the configuration touches the same canonical names. |
| `Rewrite.ModifyOutcome` | toxics/httptoxic.go:23-30 | After `ModifyResponse`: the configured status, body and byte length hold. The header names are the old names plus the configured canonical names. Every other header is kept. Without collisions, each configured header holds exactly its value. |
| `Rewrite.ModifyLastWins` | toxics/httptoxic.go:23-30 | Modifying an already modified response gives what the second modification alone gives, for any two visiting orders. |
| `Rewrite.ModifyIdempotent` | toxics/httptoxic.go:23-30 | Modifying twice with the same configuration is the same as modifying once. |
| `Rewrite.ModifyOrderIrrelevant` | toxics/httptoxic.go:23-30 | When canonical names do not collide, the map's visiting order does not affect the result. |
| `StreamPipe.Step` | toxics/httptoxic.go:35-56 | One loop iteration takes one event. It continues exactly on a data chunk, which it forwards rewritten or unchanged. Otherwise it stops without forwarding. It closes the link only on a nil chunk. |
| `StreamPipe.ToxicStub.Send` | toxics/httptoxic.go:56 | Sending appends one chunk downstream and does not close the link. |
| `StreamPipe.ToxicStub.Close` | toxics/httptoxic.go:40 | Closing counts one close and sends nothing. |
| `StreamPipe.Pipe` | toxics/httptoxic.go:33-59 | The loop sends what `Run` outputs and closes as often as `Run` counts. It returns the number of events taken and the state it stopped in. |
| `StreamPipe.RunAfterStop` | toxics/httptoxic.go:36-41 | After an interrupt or nil chunk the loop takes no more events. |
| `StreamPipe.RunExact` | toxics/httptoxic.go:34-57 | The loop's whole behaviour: the forwarded chunks are the leading data chunks in order, each rewritten or passed unchanged when it does not parse. The loop stops on the next event, having taken it. That event closes the link once if it is nil and not at all if it is an interrupt. |
| `StreamPipe.NilClosesOnce` | toxics/httptoxic.go:38-41 | A nil chunk after `j` data chunks closes the link exactly once. The loop then ends having forwarded `j` chunks. |
| `StreamPipe.InterruptStops` | toxics/httptoxic.go:36-37 | An interrupt after `j` data chunks ends the loop with no close, having forwarded `j` chunks. |
| `StreamPipe.StopsAtFirst` | toxics/httptoxic.go:36-42 | The loop stops at the first non-data event. |
| `StreamPipe.ClosesAtMostOnce` | toxics/httptoxic.go:39-41 | `Close` is called at most once, and exactly when the loop ended on a nil chunk. |

## Left out

- `http.ReadResponse`, `Response.Write` and the `TeeReader`/32 KiB buffer are left out: parsing and re-serialising a chunk is the abstract function `rewrite`. The model therefore does not show that the rewritten bytes carry the configured status and body. It does not show either that a failed `Response.Write` leaves a partial buffer.
- Channels, `select` and back-pressure are left out. The interleaving the runtime picks is the given event sequence. When the events run out, the loop is still waiting (`Running`).
- `io.NopCloser` and closing the original body are left out: the body is a byte sequence.
- `ModifyResponse` does not close the original body, and it does not clear the response's separate `TransferEncoding` field. Chunked framing recorded there therefore survives the rewrite. The model's `Response` has no such field, so no contract speaks about framing.
- `http.CanonicalHeaderKey` is not part of this model. It is the parameter `canon`.
- Go's map iteration order is not modelled. It is the parameter `order`. Which visiting order the runtime picks is left open.
- `init`, the toxic registry and the JSON field tags are left out: they are registration and configuration plumbing.
- `ToxicStub` and `StreamChunk` are defined outside `toxics/httptoxic.go` and are not part of this model. Only a chunk's data, the output sequence and a close counter are modelled. Timestamps and the other fields are left out.
- Strings are sequences of Unicode characters, not UTF-8 bytes. `TrimSpace` does not model invalid UTF-8. Response bodies, whose length Go counts in bytes, are byte sequences.
- `Rewrite.ModifyResponse`: the `int64` range of `ContentLength` is not modelled. The length is an unbounded integer.
- `Rewrite.ModifyOutcome`: the exact value of a header that two configured keys share depends on the visiting order. It is stated only through `SetHeadersLastWins`.
