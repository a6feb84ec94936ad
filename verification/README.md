# Ollama CLI streaming client — Dafny model

The program is a one-file command-line client (`src/main.rs`). It sends one
prompt to an Ollama server's `/api/generate` endpoint and prints the generated
text as it streams back. The response body is newline-delimited JSON. The
client reads it in chunks and appends each decoded chunk to a text buffer. It
cuts the buffer at each line feed, trims every cut-off line and skips blank
ones. It then parses each remaining line as JSON and writes the string in its
`response` field, if it has one.

All of that logic sits inside `main` in the source. This model lifts it out
into pure functions and proves properties about them:

- `Framer` (`framer.dfy`): cutting the accumulation buffer into lines and
  trimming them into records (the inner `while let` loop).
- `Json` and `Consumer` (`json.dfy`, `consumer.dfy`): the read loop as a fold
  over a finite sequence of read outcomes. It yields the fragments written, the
  text left in the buffer, and how the loop stopped: still reading, ended by a
  zero-length read, or aborted by a read error or by a chunk that is not valid
  UTF-8.
- `Prompt` (`prompt.dfy`): the emptiness check and the trailing line-end
  stripping applied to the prompt.
- `Config` (`config.dfy`): resolution of `OLLAMA_HOST` / `OLLAMA_HOSTS` /
  `OLLAMA_MODEL`, and construction of the endpoint URL.
- `Text` (`text.dfy`): `str::trim` and `trim_end_matches`, using Unicode's
  White_Space property, which is what Rust's `char::is_whitespace` tests.
- `Wrappers` and `Sequences`: `Option`/`Result`, and two concatenation facts.

Three of the program's collaborators are parameters of the model:

- UTF-8 decoding (`std::str::from_utf8`) is `decode: seq<byte> -> Option<string>`.
- JSON parsing (`serde_json::from_str`) is `parse: string -> Option<Json>`.
- Environment variables are `Option<string>` values: `None` when the variable
  is unset or not valid Unicode, as `env::var` reports both as errors.

The parsed value is the concrete `Json` datatype, so the lookup of the string
value of the top-level `response` field is modelled exactly.

The central result is `Consumer.ConsumeMatchesText`, with its generalisation
`Consumer.RunMatchesText`. They compare the read loop with two reference
definitions. `Consumer.Receive` is the decoded text of the reads up to the
first stop, together with how the reads stopped. `Consumer.Responses` is what
framing a whole text in one piece writes. Whatever chunks the stream arrives
in, the fragments written are `Responses` of the received text. The buffer ends
up holding exactly the text after its last line feed. `Framer.SplitUnique` characterises the framing
independently: the lines with their line feeds, followed by the leftover text,
spell the buffer, and no line feed is left inside a line or the leftover.

A multi-byte UTF-8 character whose bytes are split across two reads aborts the
exchange, because each chunk is decoded on its own (`src/main.rs:84`). It does
so even when the chunk ends mid-record, before any line feed. The model follows
the code. `Consumer.SplitCharacterAborts` shows the abort: the same bytes
delivered in one read are accepted. `Consumer.StopRead` states the abort for
any undecodable chunk. `Consumer.ByteChunkingInvariant` states that chunking is
irrelevant if every chunk decodes on its own.

## Model

| member | source | states |
|---|---|---|
| `Text.IsWs` | src/main.rs:87 | The whitespace `trim` strips: the characters with Unicode's White_Space property, the set Rust's `char::is_whitespace` tests |
| `Text.Trim` | src/main.rs:87 | The trimmed line neither starts nor ends with whitespace, is no longer than the input, and is empty exactly when the input is all whitespace |
| `Text.TrimOf` | src/main.rs:87 | Trimming any whitespace-framed string returns exactly the framed body, so trim is fully determined by that shape |
| `Text.TrimIdempotent` | src/main.rs:87 | Trimming an already trimmed line changes nothing |
| `Text.TrimStartWhere` | src/main.rs:87 | Stripping from the front removes a prefix made only of dropped characters and leaves a suffix not starting with one |
| `Text.TrimEndWhere` | src/main.rs:55 | Stripping from the end keeps a prefix; everything removed is a dropped character, and the kept part does not end with one |
| `Text.TrimEndWhereUnique` | src/main.rs:55 | Any split into a body not ending in a dropped character followed by dropped characters is the one the end-strip finds |
| `Text.TrimStartWhereUnique` | src/main.rs:87 | Any split into dropped characters followed by a body not starting with one is the one the front-strip finds |
| `Prompt.StripLineEnds` | src/main.rs:29-34 | The result is a prefix of the input with no trailing line feed or carriage return; only such characters were removed |
| `Prompt.NormalizePrompt` | src/main.rs:23-35 | An empty prompt is refused; a prompt ending in a line feed loses its whole run of trailing line feeds and carriage returns; any other prompt, even one ending in a carriage return, is sent unchanged; the result is always a prefix of the prompt |
| `Prompt.PopLineEnds` | src/main.rs:29-34 | The pop loop, including its extra carriage-return pop, yields a prefix of the prompt with every trailing line end removed |
| `Prompt.PopLineEndsStripsLineEnds` | src/main.rs:29-34 | Any result meeting the pop loop's postcondition is exactly the prompt with trailing line ends stripped |
| `Prompt.NewlineOnlyPromptIsSentEmpty` | src/main.rs:23-35 | Emptiness is tested before stripping, so "\n" and "\r\n\n" are sent as the empty string, "hi\r" is sent unchanged, and only "" is refused |
| `Config.Setting` | src/main.rs:39-42 | A variable's value is used trimmed when it has non-whitespace content; an unset or blank variable gives the default |
| `Config.ResolveHost` | src/main.rs:37-42 | The host is non-empty and trimmed; `OLLAMA_HOSTS` is consulted only when `OLLAMA_HOST` is unset |
| `Config.ResolveModel` | src/main.rs:43-47 | The model is non-empty and trimmed: the trimmed `OLLAMA_MODEL` whenever it has non-whitespace content, and `dolphin3:8b` exactly when it is unset or blank |
| `Config.Endpoint` | src/main.rs:37-55 | The request URL ends in `/api/generate`; when `OLLAMA_HOST` is set it is built from that variable alone, otherwise from `OLLAMA_HOSTS`, each cleaned as a setting with the local default |
| `Config.GenerateUrl` | src/main.rs:55 | The URL ends in `/api/generate`; what precedes it is the host minus a run of trailing slashes and does not itself end in a slash |
| `Config.HostHidesHosts` | src/main.rs:37-42 | A set `OLLAMA_HOST`, even a blank one, makes `OLLAMA_HOSTS` irrelevant; a blank one gives the default host |
| `Config.BlankHostEndpoint` | src/main.rs:37-42 | Any whitespace-only `OLLAMA_HOST` yields the default endpoint, whatever `OLLAMA_HOSTS` holds |
| `Config.TrailingSlashIgnored` | src/main.rs:55 | Appending a slash to the host does not change the endpoint |
| `Config.DefaultEndpoint` | src/main.rs:37-55 | With nothing configured the endpoint is `http://localhost:11434/api/generate` and the model `dolphin3:8b` |
| `Framer.FirstNewline` | src/main.rs:86 | `find('\n')` returns the position of a line feed with none before it, and nothing exactly when the buffer has no line feed. The position counts characters where Rust counts bytes; the lines and leftover cut there are the same, since a line feed is one byte and the cut falls at the same character |
| `Framer.Split` | src/main.rs:86-88 | Draining conserves content: the cut lines, each followed by its line feed, then the leftover, spell the buffer; no line and no leftover contains a line feed |
| `Framer.SplitUnique` | src/main.rs:86-88 | Conservation plus newline-freedom determine the lines and leftover uniquely, so any such decomposition is the drain's result |
| `Framer.SplitAppend` | src/main.rs:78-88 | Framing `x + y` is framing `x`, then framing its leftover followed by `y`: lines come out in the order of their line feeds whatever the chunk boundary |
| `Framer.SplitNoNewline` | src/main.rs:86 | A buffer without a line feed yields no line and is left whole |
| `Framer.LastOfRest` | src/main.rs:86-88 | The leftover is the tail of the buffer, so a buffer ending in a line feed leaves nothing behind |
| `Framer.Records` | src/main.rs:87-91 | Every record handed to JSON parsing is trimmed and non-empty, and there are no more records than lines |
| `Framer.RecordsEmptyIff` | src/main.rs:87-91 | There are no records exactly when every line is blank |
| `Framer.RecordsAppend` | src/main.rs:86-91 | Records of consecutive lines are the records of each part in order: blank lines are skipped without stopping the loop |
| `Framer.RecordsOfLine` | src/main.rs:87-91 | A blank line contributes no record; any other line contributes exactly its trimmed text |
| `Framer.DrainReady` | src/main.rs:86-91 | The drain loop leaves a leftover with no line feed, conserves content, and hands on exactly the trimmed non-blank lines in order |
| `Json.ResponseField` | src/main.rs:93 | The token exists exactly when the value is an object whose `response` field is a string, and it is that string unchanged |
| `Json.NonTextRecordsCarryNothing` | src/main.rs:93 | `{"done":true}`, a non-string `response` and a non-object carry no token; a string `response` carries exactly its text |
| `Consumer.Token` | src/main.rs:92-93 | A record yields text exactly when it parses and its `response` field is a string; a parse failure yields nothing |
| `Consumer.Emit` | src/main.rs:92-96 | Nothing is written exactly when no record carries a token; there are at most as many fragments as records |
| `Consumer.EmitFromRecords` | src/main.rs:92-96 | Every fragment written is the token of some record |
| `Consumer.EmitAppend` | src/main.rs:92-96 | Writing is per record and in order: a failing record contributes nothing and later records are still processed |
| `Consumer.WriteTokens` | src/main.rs:92-96 | The write loop over the records writes exactly the emitted fragments |
| `Consumer.Run` | src/main.rs:78-99 | After any read that delivers text, the buffer has no line feed; the loop is still reading only if every read delivered bytes |
| `Consumer.Consume` | src/main.rs:74-99 | Between and after reads the buffer holds at most a newline-free partial record |
| `Consumer.ConsumeStream` | src/main.rs:74-99 | The loop-shaped implementation (read, stop on zero bytes, decode, append, drain, write) computes the fold's fragments, buffer and status |
| `Consumer.RunMatchesText` | src/main.rs:78-99 | From any newline-free buffer, the loop writes what framing the buffer plus all text received yields, and keeps that framing's leftover |
| `Consumer.ConsumeMatchesText` | src/main.rs:74-99 | The fragments written are those of the whole received text framed in one piece; the final buffer is its text after the last line feed |
| `Consumer.ChunkingInvariant` | src/main.rs:78-98 | Two streams that deliver the same text and stop the same way produce the same fragments, buffer and status |
| `Consumer.ByteChunkingInvariant` | src/main.rs:84-88 | If decoding respects concatenation and every chunk decodes on its own, the exchange depends only on the bytes, not on where reads split them |
| `Consumer.DecodeFlatten` | src/main.rs:84 | Under that decoding assumption, valid chunks decode together to the text received from them one by one |
| `Consumer.StopIsFinal` | src/main.rs:80-84 | After a zero-length read, a read error or an undecodable chunk, later reads change nothing |
| `Consumer.RunCompose` | src/main.rs:78-99 | While reading continues, later reads resume from the buffer the earlier ones left, and their output follows the earlier output |
| `Consumer.OutputOnlyGrows` | src/main.rs:94-95 | Output is written as it arrives: reading more only appends to what was written |
| `Consumer.ReadingIffValid` | src/main.rs:80-84 | The loop is still reading exactly when every read so far delivered non-empty bytes that decode on their own |
| `Consumer.StopRead` | src/main.rs:80-84 | After reads that all delivered valid bytes, a zero-length read ends the exchange cleanly; a read error or a chunk that is not valid UTF-8 on its own aborts it; in each case earlier output and buffer stay as they were |
| `Consumer.SplitCharacterAborts` | src/main.rs:81-84 | Bytes that decode only together, such as a UTF-8 character split across two reads, abort the exchange with an encoding error, while the same bytes in a single read are accepted |
| `Consumer.TrailingPartialNotEmitted` | src/main.rs:81-88 | Text after the last line feed is never written; it is exactly what the buffer keeps |
| `Consumer.SplitRecordScenario` | src/main.rs:78-98 | A record split across two reads is written once, whole, after the record before it, and a final zero-length read ends cleanly with an empty buffer |

## Left out

- HTTP transport (`src/main.rs:57-71`): posting with `ureq`, the HTTP-status error branch and the connection error branch are network I/O. The model starts from the response body's reads.
- Request serialisation (`src/main.rs:6-11`, `49-56`): `serde_json::to_string` of the request is a foreign library. `Config.ResolveModel` gives the model name and `Prompt.NormalizePrompt` the prompt it carries.
- JSON parsing (`src/main.rs:92`): `serde_json::from_str` is the parameter `parse`. Only the field lookup after it is concrete.
- UTF-8 decoding (`src/main.rs:84`): the decoding itself is the parameter `decode`. Only `Consumer.ByteChunkingInvariant` and `Consumer.DecodeFlatten` assume anything about it: that it respects concatenation, as UTF-8 decoding does.
- Prompt acquisition (`src/main.rs:14-22`): joining the arguments with spaces or reading stdin is process I/O. The model starts from the prompt string.
- Writing and flushing stdout (`src/main.rs:94-95`): output is the sequence of fragments written. A failing write or flush, which the source propagates with `?`, is not modelled.
- Error reporting (`src/main.rs:24-25`, `64-69`): `eprintln!` and `process::exit` are process I/O. The refusal of an empty prompt is modelled as `Failure(NoInput)`, and fatal stream errors as the `Aborted` status.
- Read size (`src/main.rs:79`): the 4096-byte chunk size is a transport detail. Arbitrary sequences of reads cover every chunking it allows.
- End of input: the stream is a finite sequence of read outcomes. If it runs out before a zero-length read, the status is `Reading`, meaning the exchange is still open.
