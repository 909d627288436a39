# bitagent: the request handler and its secret cell

bitagent keeps one secret in a locked, zero-initialised buffer of
`bufferSize` bytes (256 by default) and serves it over a unix socket. Each
connection carries one request line: `G\n` asks for the secret, `P<payload>\n`
replaces it. This project models the per-connection handler `clientHandler`
and the buffer it updates, plus the choice of socket path.

- `Protocol` (protocol.dfy) holds the pure part. It covers reading up to the
  first `'\n'`, the line-length check, the `strings.Trim(…, "\n\x00")` applied
  to the secret, Go's `copy` (the model's assumption for the buffer's `Move`),
  and `Handle`. That
  last function gives the whole effect of one connection: the outcome
  (`ReadError`, `LengthError(n)` or `Ok(output)`) and the secret left behind.
- `SecureCell` (secure_cell.dfy) holds the locked buffer. It is a class with a
  fixed `array<byte>` and a `mutable` flag. `Wipe` and `Move` are loops over the
  array and may run only while the cell is mutable.
- `Agent` (agent.dfy) holds `HandleClient`, the imperative handler. It works on
  a `Cell` and is proved to produce exactly `Handle`'s outcome and new secret.
  The cell is immutable before and after it runs. The module also holds
  `SocketPath`.
- `Properties` (properties.dfy) holds lemmas about `Handle`. They cover read
  errors, length errors, that `G` only reads, that unknown commands do nothing,
  and that `P` wipes and then copies. They also prove the write-then-read round
  trip and replay the scenarios from main_test.go.

Where the documented protocol and the code differ, the model follows the code:

- The code accepts any line that starts with `G`, whatever follows. A `G` line
  may carry up to `bufferSize` extra bytes, which are ignored.
- The round trip holds only for payloads that neither start nor end with NUL.
  The `G` branch treats a zero first byte as an empty cell, and the trim strips
  NUL and `'\n'` from both ends (`Properties.LeadingNulSecretReadsEmpty`).
- If `Move` copies as Go's `copy` does (assumed, see "## Left out"), a payload of
  exactly `bufferSize` bytes loses its trailing `'\n'`. Shorter payloads are
  stored followed by `'\n'` and then zeros (`Properties.Stored`).

## Model

| member | source | states |
|---|---|---|
| Protocol.IndexOf | cmd/bitagent.go:92 | finds the first position of a byte: none exactly when the byte is absent, otherwise a position holding it with no earlier occurrence |
| Protocol.ReadLine | cmd/bitagent.go:92-95 | the line read is absent exactly when no `'\n'` arrives; otherwise it is the prefix of the input that ends at the first `'\n'` |
| Protocol.TrimLeft | cmd/bitagent.go:103 | the result is a suffix of the input that does not start with `'\n'` or NUL, and everything dropped is `'\n'` or NUL |
| Protocol.TrimRight | cmd/bitagent.go:103 | the result is a prefix of the input that does not end with `'\n'` or NUL, and everything dropped is `'\n'` or NUL |
| Protocol.Trim | cmd/bitagent.go:103 | the result is a contiguous slice of the buffer, with only `'\n'`/NUL bytes removed on each side, that neither begins nor ends with `'\n'` or NUL |
| Protocol.GetResponse | cmd/bitagent.go:101-104 | the `G` reply is empty when buffer byte 0 is zero; otherwise it is the buffer with only `'\n'`/NUL bytes removed from each end, so it never begins or ends with `'\n'` or NUL |
| Protocol.CopyInto | cmd/bitagent.go:113 | Go `copy`: byte i comes from the source when i is below the source length, otherwise the destination byte is kept; the length is the destination's |
| Protocol.Overwrite | cmd/bitagent.go:110-113 | after wipe-then-copy, each byte is the payload byte or zero and depends on no byte of the previous secret |
| Protocol.Handle | cmd/bitagent.go:88-121 | one connection keeps the buffer's length; a read or length error leaves the secret unchanged, and so does any reply that writes bytes |
| SecureCell.Cell.constructor | cmd/bitagent.go:54 | a new cell is immutable, has `size` bytes and holds only zeros |
| SecureCell.Cell.MakeMutable | cmd/bitagent.go:107 | the cell becomes mutable and its bytes are unchanged |
| SecureCell.Cell.MakeImmutable | cmd/bitagent.go:116 | the cell becomes immutable and its bytes are unchanged |
| SecureCell.Cell.Wipe | cmd/bitagent.go:110 | every byte of the buffer is zero afterwards |
| SecureCell.Cell.Move | cmd/bitagent.go:113 | the buffer becomes the Go `copy` of the source into its old contents |
| Agent.HandleClient | cmd/bitagent.go:88-121 | the outcome and new buffer contents are exactly those of `Handle`; the cell is immutable again after the call |
| Agent.SocketPath | cmd/bitagent.go:46-49 | the path is the single argument exactly when there are two arguments and the second starts with `/`; in every other case it is the default |
| Properties.Stored | cmd/bitagent.go:113 | a stored payload is followed by `'\n'` when there is room, then by zeros |
| Properties.TrimLeftExact | cmd/bitagent.go:103 | left-trimming cut bytes placed before a value that does not start with one gives back exactly that value |
| Properties.TrimRightExact | cmd/bitagent.go:103 | right-trimming cut bytes placed after a value that does not end with one gives back exactly that value |
| Properties.TrimExact | cmd/bitagent.go:103 | trimming undoes `'\n'`/NUL padding on both sides of a value that neither begins nor ends with a cut byte |
| Properties.FirstLine | cmd/bitagent.go:92 | the line read from `body + '\n' + rest` is `body + '\n'` when body has no `'\n'` |
| Properties.OnlyFirstLineCounts | cmd/bitagent.go:92 | bytes after the first `'\n'` never affect the outcome or the secret |
| Properties.ReadErrorIffNoDelimiter | cmd/bitagent.go:92-95 | a read error happens exactly when the input has no `'\n'`, and then the secret is unchanged |
| Properties.LengthErrorIffOutOfRange | cmd/bitagent.go:96-98 | a length error happens exactly when the line length (with `'\n'`) is below `cmdSize+1` or above `cmdSize+bufferSize+1`; it carries that length and leaves the secret unchanged |
| Properties.BareDelimiterRejected | main_test.go:56-80 | a bare `"\n"` is a length error citing length 1 |
| Properties.GetOnlyReads | cmd/bitagent.go:101-104 | `G` with a line of valid length returns the `G` reply and leaves the secret unchanged |
| Properties.UnknownCommandIsNoOp | cmd/bitagent.go:100-120 | an unrecognised command byte returns success, writes nothing and leaves the secret unchanged |
| Properties.OverwriteStores | cmd/bitagent.go:110-113 | wiping and then copying a payload and its `'\n'` gives the payload, then `'\n'` if it fits, then zeros |
| Properties.PutStores | cmd/bitagent.go:105-118 | `P` with payload p writes nothing and leaves the secret as p, then `'\n'` if it fits, then zeros, whatever the previous secret was |
| Properties.TrimStored | cmd/bitagent.go:103 | trimming a stored payload with no `'\n'` and no NUL at either end gives back exactly that payload, and the stored buffer's first byte is non-zero |
| Properties.GetStored | cmd/bitagent.go:101-104 | reading back a stored payload with no `'\n'` and no NUL at either end returns exactly that payload |
| Properties.GetAfterPut | cmd/bitagent.go:101-104 | `G\n` on a buffer holding a stored payload with no `'\n'` and no NUL at either end outputs exactly that payload and changes nothing |
| Properties.RoundTrip | cmd/bitagent.go:101-118 | `P`+p+`'\n'` followed by `G\n` outputs exactly p, for any p of at most `bufferSize` bytes with no `'\n'` and no NUL at either end |
| Properties.FreshCellReadsEmpty | cmd/bitagent.go:102 | `G\n` on an all-zero cell outputs nothing and changes nothing |
| Properties.LeadingNulSecretReadsEmpty | cmd/bitagent.go:102 | a payload that starts with NUL is stored but reads back as nothing |
| Properties.GetReplyIsTrimmed | cmd/bitagent.go:103 | no successful reply begins or ends with `'\n'` or NUL |
| Properties.UnterminatedGetIsReadError | main_test.go:101-119 | `"G"` with no delimiter is a read error and leaves the secret unchanged |
| Properties.SimulatedClient | main_test.go:30-53 | on a 12-byte buffer, `P1234testing\n` then `G\n` returns `1234testing` |

## Left out

- The accept loop, the per-connection goroutines and the shutdown signal wait (cmd/bitagent.go:60-85) are not modelled. Connections run one at a time in the model. The code has no lock around the wipe-and-move sequence, so nothing is claimed about atomicity when reads and writes run concurrently.
- Agent.HandleClient: memguard's own failures (memory protection changes, a destroyed buffer) are assumed not to happen, so the fatal `exiter` calls at cmd/bitagent.go:107-118 have no counterpart.
- SecureCell.Cell.Wipe: requires the cell to be mutable. memguard's own code is not visible; the handler always calls `MakeMutable` first.
- SecureCell.Cell.Move: memguard's `Move` is not visible. The model assumes it copies with Go `copy` semantics: the first min(payload length, `bufferSize`) bytes are copied and the rest of the buffer is kept. The dropped `'\n'` of a maximum-length payload and `Properties.Stored` rest on this assumption. Move also requires the cell to be mutable, for the same reason as Wipe. memguard's wiping of the source slice is not modelled, because that slice is a fresh copy of the request line and nothing reads it afterwards.
- SecureCell.Cell.constructor: requires a positive size. The setup failure for a non-positive `bufferSize` (a fatal exit in `Server`, main_test.go:122-128) is not modelled.
- Setup and teardown in `Server` are not modelled: `DisableUnixCoreDumps`, `syscall.Umask(0177)`, binding the socket, `os.RemoveAll`, `DestroyAll` and `SafeExit`. These are operating-system effects, and the 0600 socket mode (main_test.go:84-97) depends on the OS.
- Agent.SocketPath: requires a non-empty sole argument. cmd/bitagent.go:47 indexes `os.Args[1][0]` unguarded, so an empty argument makes `Server` panic with an index out of range; that panic is not modelled.
- Agent.HandleClient: `input` stands for every byte the client sends before it closes. A client that keeps the connection open without sending `'\n'` leaves `ReadString` (cmd/bitagent.go:92) blocked forever, because there is no read deadline; the model has no such non-terminating case.
- Agent.HandleClient: the length bound uses the buffer's length (`|secret|`, `cell.buffer.Length`), while cmd/bitagent.go:96 reads the global `bufferSize`. The two are equal because the buffer is allocated with `bufferSize` bytes at cmd/bitagent.go:54; a change to `bufferSize` after allocation is not modelled.
- `init`'s home-directory lookup is not modelled. The default path is a parameter of `Agent.SocketPath`.
- Logging, the error text of each failure and internal/server/error.go are not modelled. The outcome datatype keeps only the kind of error and the reported length.
- Closing the connection and errors from writing the reply (`io.WriteString`'s error is ignored by the code) are not modelled.
- `strings.Trim` is modelled byte by byte. That is exact here because both bytes in the cut set are ASCII.
