# simpleChat server, modelled in Dafny

A model of the server half of a small TCP chat relay written in Go. Clients
send text lines; the server keeps a registry `OnlineMap` from display name to
user, a broadcast bus `Message` drained by one fan-out loop
(`ListenMessager`), and one mailbox `C` per user drained by that user's
writer loop (`ListenMessage`). A reader loop per connection turns each read
into a line. The router `doMessage` then handles the line:

- `who` replies with the list of online users;
- `rename|x` renames the sender;
- `to|x|y` sends a private message;
- any other line is a public broadcast `[addr]name text`.

An idle timer closes a silent user's mailbox.

The repository holds two versions of the server. The full one is
`server/server.go` with `server/user.go`. The older one, at the root, is
`server.go` with `user.go`; it knows only `who` and broadcasts every other
line. Their registry, bus, connect, disconnect and fan-out code is the same,
and so is `NewUser`. The model therefore has one state for both:

- `protocol.dfy` (module `Protocol`): the pure parts. These are the
  `strings.Split` the router uses, the reader's line extraction, the command
  tests of `doMessage` (`ParseLine`) and of the older handler
  (`LegacyParseLine`), every reply and announcement text exactly as written
  (trailing `"\n"` included), the writer's framing, and the shape of the
  `who` reply.
- `session.dfy` (module `Session`): class `User` with `name`, a `const addr`,
  the mailbox as a queue plus a `closed` flag, and the connection as an
  output string plus a `connClosed` flag. It holds `NewUser`, `SendMsg` and
  the writer loops of both versions.
- `server.dfy` (module `ChatServer`): class `Server` with `onlineMap` and the
  bus `message`. It holds `BroadCast`, `onlineUser`, `offlineUser`,
  `getOnlineUsers`, one pass of `ListenMessager`, `doMessage`, one pass of
  the reader loop, and the timeout branch of `Handler`.
- `legacy.dfy` (module `LegacyServer`): the reader loop of the older
  version, on the same `Server` and `User` state.
- `scenarios.dfy` (module `Scenarios`): short client sessions whose
  outcomes follow from the contracts alone.

Goroutines and channels become steps run one at a time. A channel becomes a
queue. A step that would block on an empty channel returns `Blocked`. A Go
panic becomes the outcome `Panic(cause)`, after which the process is gone.
The cases are:

- a send on a closed mailbox;
- `to|T` with a registered `T` but no third field (index 2 out of range);
- a failed write or close in the writer.

The invariant `Server.Valid()` says that every registry key `k` maps to a
user whose `name` is `k`, and that every registered user's mailbox is
consistent. Every server operation preserves it, rename included. It also
makes distinct keys hold distinct users, so a fan-out reaches each user
exactly once.

Behaviours of the Go code that the model keeps as written:

- The timeout does not unregister the user. It queues `你已超时离线了` and
  closes the mailbox. Only the reader's next zero-length read calls
  `offlineUser`. Until then the user is still registered, and a fan-out that
  reaches its closed mailbox panics (`Scenarios.TimeoutThenBroadcast`).
- A write error in the writer panics the process. It is not handled as a
  problem of one session alone.
- A connect stores the new user under its address even when that key is
  already taken by a user who renamed itself to that address string. The
  older user loses its entry. Its later disconnect then deletes the
  newcomer's key (`Scenarios.ConnectOverwritesRenamedUser`).
- The private-message prefix is `[私聊]`. The private-message test is
  `len > 4` plus the prefix `to|`, and `len` counts bytes: `to|x` with an
  ASCII `x` is broadcast, while `to|张` (six bytes) addresses user `张`. The
  same byte count decides `rename|`. A known target with no third field
  panics; it is not rejected as malformed.
- The `who` list comes in map iteration order, which is unspecified.
- A read that returns data together with an error other than end of stream
  stops the reader without any teardown.

## Model

| member | source | states |
|---|---|---|
| `Protocol.Split` | server/server.go:106 | `strings.Split` on `|`: at least one field, and no field contains the separator |
| `Protocol.JoinSplit` | server/server.go:106 | joining the fields of a split with the separator gives back the original line |
| `Protocol.SplitJoin` | server/server.go:106 | splitting separator-free fields joined by the separator gives back exactly those fields |
| `Protocol.ExtractLine` | server/server.go:138-151 | a zero-length read is a disconnect; data with a non-EOF error stops the reader; otherwise the line is the read minus its last character, whatever that character is |
| `Protocol.ExtractFramedLine` | server/server.go:149-150 | a line read together with its newline reaches the router unchanged |
| `Protocol.ParseRename` | server/server.go:89-91 | `rename|` followed by a non-empty name is a rename to exactly that name |
| `Protocol.Utf8LenAppend` | server/server.go:89 | Go's `len` (bytes in UTF-8) of a concatenation is the sum of the byte lengths of its parts |
| `Protocol.AsciiUtf8Len` | server/server.go:89 | a string of ASCII characters has as many bytes as characters |
| `Protocol.ParseLine` | server/server.go:85-122 | the tests of `doMessage` in order: exactly `who` is Who; a line of more than 7 bytes starting `rename|` is a rename to the non-empty rest; one of more than 4 bytes starting `to|` is private, with `|`-free target and content; everything else is broadcast as the line itself |
| `Protocol.ShortPrefixesArePublic` | server/server.go:89-122 | the bare `rename|` (7 bytes) and `to|` plus one ASCII character (4 bytes) fail the length tests and are broadcast unchanged |
| `Protocol.ParsePrivateOneWideChar` | server/server.go:104-118 | `to|` plus one character outside ASCII is more than 4 bytes, so it passes the test and addresses that one-character name, with no content field |
| `Protocol.ParsePrivate` | server/server.go:104-118 | a line passing the `to|` test has field 1 of the split as target, and field 2, if there is one, as content |
| `Protocol.ParsePrivateFields` | server/server.go:104-118 | `to|T|C` followed by nothing or by a further `|...` addresses `T` with content exactly `C`; anything after the next `|` is dropped |
| `Protocol.ParsePrivateWithoutContent` | server/server.go:106-118 | `to|T` with no second `|` and `T` of at least two bytes names target `T` and has no content field |
| `Protocol.LegacyParseLine` | server.go:104-111 | the older dispatcher yields `who` or a broadcast of the line itself, nothing else |
| `Protocol.LegacyIsRestricted` | server.go:104-111 | the older dispatcher treats the same lines as `who` as the full one does, and broadcasts every other line (`rename|...` and `to|...` included) |
| `Protocol.FramedAppend` | server/user.go:34-35 | the wire output for two runs of messages is the output for the first followed by that for the second |
| `Protocol.SplitFramed` | server/user.go:34-35 | for messages without newlines, splitting the output stream on newlines returns the messages in enqueue order (plus a trailing empty field) |
| `Protocol.EnumerationSize` | server/server.go:74-82 | a `who` enumeration lists exactly as many names as there are registered users |
| `Protocol.SnapshotOfEmpty` | server/server.go:74-82 | with nobody registered the `who` reply can only be the empty string |
| `Protocol.EmptyReplyOnlyWhenNobody` | server/server.go:74-82 | for any registry, a `who` reply is empty if and only if nobody is registered |
| `Protocol.SnapshotOfSingle` | server/server.go:74-82 | with one user registered the `who` reply is exactly that user's `[addr]name 在线...\n` line |
| `Session.User.constructor` | server/user.go:16-24 | NewUser (same as user.go:13-21): `Name` and `Addr` are both the remote address; the mailbox is empty and open; nothing has been written; `Addr` is a constant |
| `Session.User.SendMsg` | server/user.go:48-50 | appends exactly `msg` to this user's mailbox and touches no other field or user; on a closed mailbox it panics and appends nothing (same as user.go:38-40) |
| `Session.User.ListenMessage` | server/user.go:33-45 | writes the queued messages in order, each followed by `"\n"`; once the mailbox is empty and closed it closes the connection and ends; a failed write or close panics; after the close nothing more is queued or written |
| `Session.User.LegacyListenMessage` | user.go:30-35 | writes each dequeued message followed by `"\n"` in order; lost writes are ignored; it never ends and never closes the mailbox or the connection |
| `ChatServer.Server.constructor` | server/server.go:25-34 | NewServer: empty registry and empty bus |
| `ChatServer.Server.ValidIsInjective` | server/server.go:17 | under the key-equals-name invariant, two keys hold the same user only if they are the same key |
| `ChatServer.Server.BroadCast` | server/server.go:49-52 | queues `[addr]name msg` at the end of the bus, using the user's current name (same as server.go:47-50) |
| `ChatServer.Server.OnlineUser` | server/server.go:54-62 | inserts key `user.name` mapped to the user, then queues `[addr]name 已上线`; keeps the invariant (same as server.go:52-60) |
| `ChatServer.Server.OfflineUser` | server/server.go:64-72 | deletes key `user.name`, then queues `[addr]name 下线`; keeps the invariant (same as server.go:62-70) |
| `ChatServer.Server.Connect` | server/server.go:126-130 | a new user named after its address is registered under that address and announced; an existing entry under that key is replaced |
| `ChatServer.Server.GetOnlineUsers` | server/server.go:74-82 | the reply is the concatenation, in some order that lists each registered name exactly once, of one `[addr]name 在线...\n` line per registered user; nothing changes (same as server.go:72-80) |
| `ChatServer.Server.FanOutStep` | server/server.go:37-46 | takes the head of the bus (FIFO) and appends it exactly once to every registered mailbox; the registry does not change; with an empty bus it blocks; a closed registered mailbox panics (same as server.go:35-44) |
| `ChatServer.Server.DoMessage` | server/server.go:84-124 | shown by `Routed`, over the classification of `ParseLine` (length tests in bytes). `who`: the snapshot goes to the sender only and the registry is unchanged. `rename|n` with `n` a key (own name included): registry and name are unchanged and `当前用户名已被使用\n` goes to the sender only. Other `rename|n`: the old key is removed, `n` maps to the user, `name` becomes `n`, and `您已更新用户名：n\n` goes to the sender. `to|T|C`: empty `T` sends the format error to the sender; unknown `T` sends `该用户不存在\n` to the sender; a known `T` without `C` panics; otherwise only `T`'s mailbox gets `[私聊]name: C`. Other lines queue `[addr]name line` on the bus and touch no mailbox. Registry and bus are unchanged unless stated, and the invariant holds |
| `ChatServer.Server.HandleRead` | server/server.go:137-154 | one pass of the reader loop. A zero-length read runs `offlineUser` and stops the reader. Data with a non-EOF error stops the reader and changes nothing. Otherwise the line goes through `doMessage` with exactly its effect, and the reader continues |
| `ChatServer.Server.IdleTimeout` | server/server.go:157-165 | queues `你已超时离线了` to the user, then closes its mailbox; the registry is untouched; a mailbox that is already closed panics |
| `LegacyServer.LegacyHandleRead` | server.go:89-113 | one pass of the older reader loop. A zero-length read runs `offlineUser`. Data with a non-EOF error stops the reader. `who` sends the snapshot to the sender only and leaves the registry unchanged. Every other line is broadcast as `[addr]name line`. The mailbox is never closed and the name never changes |

## Left out

- Listening, accepting and socket I/O (`Start`, `net.Listen`, `Accept`, `conn.Read`, `conn.Write`) are left out. A read is a parameter (its data and its error kind). The 4096-byte read buffer is not modelled, so a read is never cut at that size and a longer line is not split across reads. The connection is the output string a writer appends to, plus a closed flag.
- Goroutines, `sync.RWMutex` and the blocking of unbuffered channels are left out. Each step runs atomically. Which step runs next is up to the caller, as in the scenarios. The race in the rename branch is hidden by this: it tests `OnlineMap` outside the lock.
- The reader can also get stuck after a timeout. Once the timer branch has returned, nobody receives the liveness pulse, so a reader that delivered one more line blocks forever. It never reaches `offlineUser`. This lost wake-up is a concurrency effect and is not modelled.
- The liveness pulse and the 60-second timer are left out. The model does not reason about time: the timeout is an event, `IdleTimeout`, which the caller may fire at any point.
- Session.User.ListenMessage: a failing connection is modelled as one that accepts `okOps` more writes or closes and then fails. Short writes and later recovery are not modelled.
- Session.User.LegacyListenMessage: likewise, the first `okWrites` writes succeed and the rest are lost. A connection that recovers after a failed write is not modelled.
- ChatServer.Server.FanOutStep: when a closed mailbox panics the step, the contract says only that each registered mailbox got the message at most once. Which ones got it depends on Go's map iteration order.
- Protocol.ExtractLine: Go strings are bytes, and the model's strings are characters. The router's length tests count bytes (`Utf8Len`), but the reader's line is the read minus its last character, not its last byte; ending a read in the middle of a multi-byte character is not modelled.
- The log lines (`fmt.Println`) are left out. So is the process-level handling of a panic.
- The terminal client (client/client.go, client/main.go) is left out. It is a menu over `fmt.Scanln` and flag parsing, and it only builds the lines the router receives.
