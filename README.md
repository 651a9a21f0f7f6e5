# ExternalCommander transport and command codec, in Dafny

ExternalCommander lets a command-line program call a static method inside a running Unity
editor and print its result. This project models the core of that path:

- **The shared-memory byte stream** (`MemoryMappedFileStream`). A named region holds two
  one-way ring buffers, one per direction. Each ring has a `start`/`count` header stored after
  its data bytes, a named lock, a "data available" event and a "space available" event. The
  server and the client map the two halves in opposite roles. `Read` takes at most `count` of
  the unread bytes. `Write` appends all of its bytes, in passes of as many as fit. Both split a
  copy at the ring's physical end. No peer runs beside them in the model, so a `Write` that
  fits is done in its first pass.
- **String framing** (`StreamExtension`). A frame is the UTF-8 byte count as four
  little-endian bytes, then the UTF-8 bytes. `ReceiveBytes` reads until it has exactly the
  bytes it asked for. The bytes must already be in the ring, so its first read gets them all.
- **The cancellation bridge** (`CancellationHelper<T>`). It runs an abort action at most once,
  when the token fires before the operation completes, and completes at most once.
- **The Unix-domain socket endpoint** (`UnixDomainSocketEndPoint`). It encodes a path into a
  `sockaddr_un`: the UTF-8 bytes at offset 2, NUL-terminated unless the path is abstract. It
  also decodes such an address back into a path.
- **The command codec**, on both sides:
  - The command line joins its arguments after the channel name with NUL.
  - The editor splits the request into a type name, a method name and the arguments, and
    answers `OK`, `OK` NUL result, or `FAIL` NUL exception.
  - The command line turns the response into an exit code and console output.

Each source file has one module:

- `base.dfy`: bytes, `Option`/`Result`/`Outcome`, and the .NET exception kinds.
- `utf8.dfy`: `Encoding.UTF8`.
- `bit_converter.dfy`: `BitConverter` for `int`.
- `text.dfy`: `string.Split`/`string.Join` on one character.
- `memory_mapped.dfy`: the ring stream.
- `stream_extension.dfy`: the framing.
- `cancellation_helper.dfy`: the cancellation bridge.
- `unix_endpoint.dfy`: the endpoint.
- `commander_plugin.dfy`: the editor side of the codec.
- `commander_program.dfy`: the command line and the two sides together.

The model keeps the source's own forms:

- Objects whose fields change stay classes: `Channel`, `MemoryMappedFileStream`,
  `CancellationHelper` and `SocketAddress`. `UnixDomainSocketEndPoint` is a class too, as in
  the source, but its fields are set once by its constructors and are `const`.
- Byte buffers are arrays, and the source's loops are loops.
- The codecs are functions.

Reflection, the socket runtime probe, the platform, and the channel between the two programs
are all parameters.

The decoding endpoint constructor never sets the delegate that `Serialize` calls, so
`Serialize` on an endpoint decoded from an address throws `NullReferenceException`. The model
keeps this behaviour (`Serialize` returns `Failure(NullReference)`).

## Model

| member | source | states |
|---|---|---|
| Utf8.EncodeChar | IpcStream/Tools/StreamExtension.cs:77 | one scalar value takes one to four bytes, with continuation bytes after the first; its first byte, and also its last, is zero exactly for NUL |
| Utf8.Encode | IpcStream/Tools/StreamExtension.cs:70-77 | the encoding has at least one byte per character and is empty only for the empty string |
| Utf8.Decode | IpcStream/Tools/StreamExtension.cs:27 | decoding gives at most one character per byte, and nothing only for no bytes |
| Utf8.DecodeEncode | IpcStream/Tools/StreamExtension.cs:27 | `GetString` of the bytes `GetBytes` produced gives back the original string of Unicode scalar values |
| Utf8.EncodeAppend | IpcStream/Tools/StreamExtension.cs:77 | the encoding of a concatenation is the concatenation of the encodings |
| Utf8.EncodeFirstByte | IpcStream/Tools/UnixDomainSocketEndPoint.cs:197-199 | an encoded string starts with a zero byte exactly when the string starts with NUL |
| Utf8.EncodeLastByte | IpcStream/Tools/UnixDomainSocketEndPoint.cs:149-158 | an encoded string ends with a zero byte exactly when the string ends with NUL |
| BitConverter.GetBytes | IpcStream/Tools/StreamExtension.cs:71 | an int32 becomes exactly four bytes |
| BitConverter.ToInt32 | IpcStream/Tools/StreamExtension.cs:21 | four bytes give an int32, negative exactly when the top bit of the last byte is set |
| BitConverter.ToInt32GetBytes | IpcStream/Tools/StreamExtension.cs:21 | reading back the four bytes of any int32 gives the same int32 |
| Text.Split | ExternalCommanderPlugin/ExternalCommanderPlugin.cs:131 | a split always has at least one piece |
| Text.Join | ExternalCommander/ExternalCommanderProgram.cs:24 | a join of no parts is empty; otherwise it starts with the first part, followed by the separator when more parts come |
| Text.SplitPiecesFree | ExternalCommanderPlugin/ExternalCommanderPlugin.cs:131 | no piece of a split contains the separator |
| Text.JoinSplit | ExternalCommanderPlugin/ExternalCommanderPlugin.cs:131 | joining the pieces of any split with the separator gives back the string |
| Text.SplitJoin | ExternalCommander/ExternalCommanderProgram.cs:24 | splitting a join of separator-free pieces gives back the same pieces, in order |
| Text.SplitNoSeparator | ExternalCommanderPlugin/ExternalCommanderPlugin.cs:131 | a string without the separator splits into itself alone |
| Text.SplitPrefix | ExternalCommanderPlugin/ExternalCommanderPlugin.cs:131 | a separator-free head followed by the separator becomes the first piece, and the tail's pieces follow |
| Text.SplitOnePiece | ExternalCommanderPlugin/ExternalCommanderPlugin.cs:131-133 | a split has exactly one piece if and only if the string holds no separator |
| MemoryMapped.LayoutFor | IpcStream/Tools/MemoryMappedFileStream.cs:50-76 | the two views lie inside the region, do not overlap, and together fill it; the server's read view comes first and the client's write view comes first; each header lies just past its ring's data and ends where its view ends |
| MemoryMapped.DefaultViews | IpcStream/Tools/MemoryMappedFileStream.cs:11-12 | with the default capacities each view, data plus header, is exactly 64 KiB |
| MemoryMapped.LayoutsAgree | IpcStream/Tools/MemoryMappedFileStream.cs:62-76 | a client with the server's capacities swapped reads the server's write view and writes its read view, in a region of the same size |
| MemoryMapped.ChannelNamesFor | IpcStream/Tools/MemoryMappedFileStream.cs:77-84 | a ring's lock and two events are named by the map name and the ring's suffix plus one letter each, so the three names are distinct |
| MemoryMapped.ReadSuffix | IpcStream/Tools/MemoryMappedFileStream.cs:60-76 | the suffix a side reads under is the one the other side writes under, and differs from the one it writes under itself |
| MemoryMapped.WriteSuffix | IpcStream/Tools/MemoryMappedFileStream.cs:60-76 | the server writes under `1` and the client under `0` |
| MemoryMapped.NamesAgree | IpcStream/Tools/MemoryMappedFileStream.cs:77-84 | both sides derive the same lock and event names for each ring, in opposite roles, and the six names one side opens are pairwise distinct |
| MemoryMapped.CheckArguments | IpcStream/Tools/MemoryMappedFileStream.cs:43-48 | the constructor accepts exactly a non-empty name and two positive capacities, and reports a null or empty name first, then the read capacity |
| MemoryMapped.Wrap | IpcStream/Tools/MemoryMappedFileStream.cs:189-191 | one conditional subtraction brings any position below twice the capacity into the ring |
| MemoryMapped.WrapIsMod | IpcStream/Tools/MemoryMappedFileStream.cs:142-143 | that subtraction equals the position modulo the capacity |
| MemoryMapped.RingDrop | IpcStream/Tools/MemoryMappedFileStream.cs:141-156 | taking k bytes off the front of the unread bytes moves the start k places, wrapping |
| MemoryMapped.RingWriteAppend | IpcStream/Tools/MemoryMappedFileStream.cs:187-209 | writing bytes into the free slots just after the unread bytes appends them to the unread bytes |
| MemoryMapped.Splice | IpcStream/Tools/MemoryMappedFileStream.cs:140 | a buffer that differs from its old contents only inside a window is the old prefix, the window and the old suffix |
| MemoryMapped.ReadArray | IpcStream/Tools/MemoryMappedFileStream.cs:140 | the buffer window receives the view's bytes from the position on, and nothing else changes |
| MemoryMapped.ReadWrapped | IpcStream/Tools/MemoryMappedFileStream.cs:134-150 | the two copies split at the physical end put the n ring bytes from the start into the buffer window, and return the start moved n places modulo the capacity |
| MemoryMapped.WriteArray | IpcStream/Tools/MemoryMappedFileStream.cs:202 | the view from the position on receives the buffer's bytes, and nothing else changes |
| MemoryMapped.WriteWrapped | IpcStream/Tools/MemoryMappedFileStream.cs:196-209 | the two copies split at the physical end write the source bytes into the ring from the write position on, wrapping |
| MemoryMapped.Channel.constructor | IpcStream/Tools/MemoryMappedFileStream.cs:79-84 | a new ring is empty, with the "data available" event reset and the "space available" event signalled |
| MemoryMapped.Channel.CopyOut | IpcStream/Tools/MemoryMappedFileStream.cs:134-150 | the first n unread bytes land in the buffer window, and the rest of the buffer is kept |
| MemoryMapped.Channel.Consume | IpcStream/Tools/MemoryMappedFileStream.cs:152-161 | the unread bytes lose their first n bytes, the start moves n places modulo the capacity, and each event is signalled exactly when its condition holds |
| MemoryMapped.Channel.CopyIn | IpcStream/Tools/MemoryMappedFileStream.cs:187-209 | the unread bytes followed by the copied bytes are what the ring now holds from its start |
| MemoryMapped.Channel.Append | IpcStream/Tools/MemoryMappedFileStream.cs:187-219 | the unread bytes grow by exactly the copied bytes, the start stays, and the events match the new count |
| MemoryMapped.SharedRegion.constructor | IpcStream/Tools/MemoryMappedFileStream.cs:62 | a new region of the requested size holds two distinct empty rings |
| MemoryMapped.CheckRead | IpcStream/Tools/MemoryMappedFileStream.cs:109-123 | `Read` accepts exactly an open stream, a buffer and a window inside it, and reports a disposed stream first |
| MemoryMapped.CheckWrite | IpcStream/Tools/MemoryMappedFileStream.cs:170-181 | `Write` accepts exactly an open stream, a buffer and a window inside it, and reports a disposed stream first |
| MemoryMapped.MemoryMappedFileStream.constructor | IpcStream/Tools/MemoryMappedFileStream.cs:40-84 | the server reads the region's lower ring and the client its upper one; names come from the map name and the role's suffix |
| MemoryMapped.MemoryMappedFileStream.Open | IpcStream/Tools/MemoryMappedFileStream.cs:40-99 | bad arguments throw, in the checks' order; otherwise the stream is open with the requested capacities, on fresh empty rings or on an existing region's rings by role |
| MemoryMapped.MemoryMappedFileStream.Flush | IpcStream/Tools/MemoryMappedFileStream.cs:101-105 | throws `ObjectDisposedException` exactly when the stream is disposed, and otherwise does nothing |
| MemoryMapped.MemoryMappedFileStream.Read | IpcStream/Tools/MemoryMappedFileStream.cs:107-166 | throws exactly when the checks fail; otherwise it returns `min(count, available)`, puts that many of the oldest unread bytes in the buffer window, removes them from the ring, and re-signals the events |
| MemoryMapped.MemoryMappedFileStream.ReadPass | IpcStream/Tools/MemoryMappedFileStream.cs:128-165 | one critical section takes a positive `min(count, available)` bytes from the front of the ring into the buffer window |
| MemoryMapped.MemoryMappedFileStream.WritePass | IpcStream/Tools/MemoryMappedFileStream.cs:185-221 | one pass appends a positive `min(count, free space)` bytes of the buffer to the unread bytes, and the start stays put |
| MemoryMapped.MemoryMappedFileStream.Write | IpcStream/Tools/MemoryMappedFileStream.cs:168-223 | throws exactly when the checks fail, changing nothing; otherwise the unread bytes grow by exactly the buffer window, in order |
| MemoryMapped.MemoryMappedFileStream.Dispose | IpcStream/Tools/MemoryMappedFileStream.cs:225-246 | afterwards the stream is disposed, whether or not it was before |
| StreamExtension.FrameOf | IpcStream/Tools/StreamExtension.cs:68-80 | a frame is four bytes longer than the encoding of its string |
| StreamExtension.Consumed | IpcStream/Tools/StreamExtension.cs:17-28 | receiving a frame takes at least the four-byte prefix and no more than the stream holds |
| StreamExtension.ParseFrame | IpcStream/Tools/StreamExtension.cs:21-27 | a frame fails to decode exactly when its count is negative, with `ArgumentOutOfRangeException` |
| StreamExtension.ParseFrameOf | IpcStream/Tools/StreamExtension.cs:17-28 | a sent frame followed by anything decodes back to its string, including the empty string, and takes exactly its own bytes |
| StreamExtension.ToBytesWithIntCountPrefix | IpcStream/Tools/StreamExtension.cs:68-80 | the descending copy of the count bytes and the encoding after it build exactly the frame of the string |
| StreamExtension.CopyEncoded | IpcStream/Tools/StreamExtension.cs:77 | the encoded bytes land from index 4 on, and the count bytes before them are kept |
| StreamExtension.SendString | IpcStream/Tools/StreamExtension.cs:11-15 | on an open stream the unread bytes of the write ring grow by exactly the string's frame; a disposed stream throws and nothing changes |
| StreamExtension.ReceiveBytes | IpcStream/Tools/StreamExtension.cs:30-36 | exactly `count` of the oldest unread bytes fill the window, in stream order, and leave the ring; only the first read can throw; a count of zero or less reads nothing |
| StreamExtension.ReceivedFrame | IpcStream/Tools/StreamExtension.cs:19-27 | the prefix and the payload the two receives leave in the buffer determine the frame's count, its decoded string and the bytes left after it |
| StreamExtension.ReceiveString | IpcStream/Tools/StreamExtension.cs:17-28 | on an open stream it returns the decoded frame at the head of the stream, or the negative-count exception, and leaves exactly the bytes after the frame; a disposed stream throws |
| StreamExtension.SendTwo | IpcStream/Tools/StreamExtension.cs:68-80 | two frames sent back to back on an empty ring are its whole unread contents, in order |
| StreamExtension.ReceiveTwo | IpcStream/Tools/StreamExtension.cs:17-28 | a ring holding exactly two frames gives back their two strings, in order, and is left empty |
| StreamExtension.SendThenReceive | IpcStream/Tools/StreamExtension.cs:17-80 | a server opened on the same region as a client receives the two strings the client sent, unchanged and in order |
| Cancellation.CancellationHelper.constructor | IpcStream/Tools/CancellationHelper.cs:12-27 | a token that cannot be cancelled leaves the helper completed with no source or action; an already cancelled token runs the action once and completes; otherwise `Cancel` is registered and the action is kept |
| Cancellation.CancellationHelper.SetOperationCompleted | IpcStream/Tools/CancellationHelper.cs:31-38 | afterwards the helper is completed, with no action and no registration, and no action has run; a second call changes nothing |
| Cancellation.CancellationHelper.Cancel | IpcStream/Tools/CancellationHelper.cs:40-45 | runs the held action, if any, exactly once, then completes; after completion a late call runs nothing, so the action runs at most once overall |
| UnixDomainSocket.IsUnixPlatform | IpcStream/Tools/UnixDomainSocketEndPoint.cs:44-45 | the Unix layout applies on Unix and macOS only |
| UnixDomainSocket.NativePathLength | IpcStream/Tools/UnixDomainSocketEndPoint.cs:42-81 | `sun_path` is 104 bytes exactly on Unix and macOS and 108 elsewhere, so never below the 92 bytes POSIX guarantees |
| UnixDomainSocket.NativeAddressSize | IpcStream/Tools/UnixDomainSocketEndPoint.cs:42-81 | `sockaddr_un` is the path offset plus `sun_path`, 106 or 110 bytes, so the offset is non-negative and the whole path field fits inside it |
| UnixDomainSocket.IsAbstractPath | IpcStream/Tools/UnixDomainSocketEndPoint.cs:197 | a path is abstract when it is non-empty and starts with NUL |
| UnixDomainSocket.IsAbstractBytes | IpcStream/Tools/UnixDomainSocketEndPoint.cs:199 | an encoding is abstract when it is non-empty and starts with a zero byte |
| UnixDomainSocket.EncodedPath | IpcStream/Tools/UnixDomainSocketEndPoint.cs:101-119 | the stored encoding is the path's UTF-8 bytes with at most one more byte, and a pathname's ends in its NUL terminator |
| UnixDomainSocket.SerializeSize | IpcStream/Tools/UnixDomainSocketEndPoint.cs:90-99 | for an encoding that fits `sun_path`, the serialize size leaves room for it past the path offset and stays within `sockaddr_un` |
| UnixDomainSocket.CheckPath | IpcStream/Tools/UnixDomainSocketEndPoint.cs:85-115 | a path is accepted exactly when it is non-null, non-empty and its stored encoding (`EncodedPath`: NUL-terminated for a pathname, unterminated for an abstract path) fits `sun_path` |
| UnixDomainSocket.SerializedBytes | IpcStream/Tools/UnixDomainSocketEndPoint.cs:168-178 | a serialized address has exactly the serialize size |
| UnixDomainSocket.AddressPath | IpcStream/Tools/UnixDomainSocketEndPoint.cs:141-160 | an address with nothing past the path offset decodes to the empty path; otherwise the path has at most one character per byte past the offset |
| UnixDomainSocket.StripTrailingZeros | IpcStream/Tools/UnixDomainSocketEndPoint.cs:149-158 | the stripped bytes are a prefix that does not end in zero, and only zero bytes were removed |
| UnixDomainSocket.Display | IpcStream/Tools/UnixDomainSocketEndPoint.cs:184-195 | `ToString` has the path's length, shows an abstract path with `@` in place of its leading NUL, shows any other path unchanged, and never looks abstract |
| UnixDomainSocket.AbstractAgrees | IpcStream/Tools/UnixDomainSocketEndPoint.cs:197-199 | for a non-empty path, both `IsAbstract` tests agree on the path and on its encoding |
| UnixDomainSocket.SerializeSizeFits | IpcStream/Tools/UnixDomainSocketEndPoint.cs:90-99 | every accepted path serializes to a size past the path offset and within `sockaddr_un` |
| UnixDomainSocket.StripPadding | IpcStream/Tools/UnixDomainSocketEndPoint.cs:154-157 | stripping trailing zeros ignores any zero padding |
| UnixDomainSocket.SerializedWindow | IpcStream/Tools/UnixDomainSocketEndPoint.cs:172-175 | past the path offset a serialized address holds the encoding, then zeros |
| UnixDomainSocket.StripTerminated | IpcStream/Tools/UnixDomainSocketEndPoint.cs:149-158 | bytes that do not end in zero are recovered from themselves plus a terminator and padding |
| UnixDomainSocket.StripPathname | IpcStream/Tools/UnixDomainSocketEndPoint.cs:101-109 | the encoding of a pathname that does not end in NUL is recovered from its terminated, padded form |
| UnixDomainSocket.SerializeThenDecode | IpcStream/Tools/UnixDomainSocketEndPoint.cs:128-178 | decoding the address serialized for an accepted path gives the path back: always for a pathname that does not end in NUL, and on Unix for an abstract path |
| UnixDomainSocket.CopyPathBytes | IpcStream/Tools/UnixDomainSocketEndPoint.cs:143-147 | the copy holds exactly the address bytes from the path offset to the size |
| UnixDomainSocket.PathnameLength | IpcStream/Tools/UnixDomainSocketEndPoint.cs:150-158 | stepping back over trailing zeros stops at a positive length and keeps exactly the bytes without their trailing zeros |
| UnixDomainSocket.SocketAddress.constructor | IpcStream/Tools/UnixDomainSocketEndPoint.cs:92-98 | a new address has the requested family and size and only zero bytes |
| UnixDomainSocket.UnixDomainSocketEndPoint.FromPath | IpcStream/Tools/UnixDomainSocketEndPoint.cs:83-126 | a null path, then an empty or oversized one, then a runtime without Unix-domain sockets, throw in that order; otherwise the endpoint keeps the path, its terminated encoding and the platform's serialize size |
| UnixDomainSocket.UnixDomainSocketEndPoint.FromSocketAddress | IpcStream/Tools/UnixDomainSocketEndPoint.cs:128-166 | a null address, a foreign family or an oversized address throw; otherwise the endpoint keeps the bytes past the path offset, and its path is their decoding with a pathname's trailing NULs stripped |
| UnixDomainSocket.UnixDomainSocketEndPoint.Serialize | IpcStream/Tools/UnixDomainSocketEndPoint.cs:168-178 | an endpoint built from a path serializes to a Unix address of its size holding the encoding at the path offset and zeros elsewhere; one decoded from an address throws `NullReferenceException` |
| UnixDomainSocket.UnixDomainSocketEndPoint.ToString | IpcStream/Tools/UnixDomainSocketEndPoint.cs:184-195 | the endpoint shows as its path's display form |
| CommanderPlugin.Pieces | ExternalCommanderPlugin/ExternalCommanderPlugin.cs:131-133 | a call's pieces start with the type name and then the method name |
| CommanderPlugin.ParseRequest | ExternalCommanderPlugin/ExternalCommanderPlugin.cs:131-146 | a request that cannot be read throws `IndexOutOfRangeException`; one that can is read as the call whose pieces are exactly its NUL-separated tokens, never with an empty argument array |
| CommanderPlugin.ExecuteResult | ExternalCommanderPlugin/ExternalCommanderPlugin.cs:129-149 | a request without NUL throws `IndexOutOfRangeException` before anything is invoked; one with a NUL parses, and the result is the invoked method's |
| CommanderPlugin.Respond | ExternalCommanderPlugin/ExternalCommanderPlugin.cs:115-124 | a returned method answers with a response starting `OK`, a thrown one with `FAIL` and NUL; the response is bare `OK` exactly for a null result |
| CommanderPlugin.CopyArgs | ExternalCommanderPlugin/ExternalCommanderPlugin.cs:136-140 | the descending loop leaves `args` holding exactly the tokens after the first two, in order |
| CommanderPlugin.Execute | ExternalCommanderPlugin/ExternalCommanderPlugin.cs:129-149 | a request without NUL throws `IndexOutOfRangeException` before anything is invoked; otherwise the method named by tokens 0 and 1 is invoked with the remaining tokens, or with no arguments when there are none |
| CommanderPlugin.ProcessRequest | ExternalCommanderPlugin/ExternalCommanderPlugin.cs:108-127 | always produces a response: `OK` for a null result, `OK` NUL result otherwise, and `FAIL` NUL the exception text for any exception |
| CommanderPlugin.ParseFails | ExternalCommanderPlugin/ExternalCommanderPlugin.cs:131-133 | a request fails to parse if and only if it holds no NUL |
| CommanderPlugin.ParseJoin | ExternalCommanderPlugin/ExternalCommanderPlugin.cs:131-146 | every call whose pieces hold no NUL, and whose argument array is not empty, is parsed back from its joined pieces |
| CommanderPlugin.JoinParse | ExternalCommanderPlugin/ExternalCommanderPlugin.cs:131-146 | every request that parses is exactly the join of the call it parses to, and that call is expressible |
| CommanderPlugin.RespondTokens | ExternalCommanderPlugin/ExternalCommanderPlugin.cs:115-124 | a response's first token is `OK` when the method returned and `FAIL` when it threw; a second token exists exactly when there is a result or an exception, and it is that text's first NUL-free piece |
| CommanderProgram.PackArgs | ExternalCommander/ExternalCommanderProgram.cs:24 | the request starts with the type name, and with a method name after it the request holds a NUL |
| CommanderProgram.Classify | ExternalCommander/ExternalCommanderProgram.cs:32-51 | exit code 0 exactly when the status token is `OK`, printing token 1 if present; `FAIL` and any other status, including an empty response, exit with 1 and print nothing to standard output; `FAIL` reports token 1 when there is one and a bare `FAIL` otherwise; any other status exits with 1 and reports `NOTHING` |
| CommanderProgram.Run | ExternalCommander/ExternalCommanderProgram.cs:7-61 | the exit code is 0 or 1; fewer than three arguments exit with 1 and print the usage; an exception while talking to the editor exits with 1; otherwise the response decides |
| CommanderProgram.RequestReachesServer | ExternalCommander/ExternalCommanderProgram.cs:22-24 | when no argument holds NUL, the editor parses the request as exactly the command line's type, method and remaining arguments, in order |
| CommanderProgram.ResponseClassified | ExternalCommander/ExternalCommanderProgram.cs:32-60 | the editor's three kinds of response map to exit code 0 with no output, exit code 0 with the result's first piece printed, and exit code 1 with `FAIL:` and the exception text's first piece |
| CommanderProgram.ResultPrintedWhole | ExternalCommander/ExternalCommanderProgram.cs:50-51 | a result without NUL is printed whole |
| CommanderProgram.CommandSucceeds | ExternalCommander/ExternalCommanderProgram.cs:20-60 | over a channel that delivers both strings unchanged, a command line whose arguments hold no NUL exits with 0 exactly when the method it names returns |

## Left out

- Cross-process concurrency is not modelled:
  - The named semaphore is left out, and each critical section runs alone.
  - The two auto-reset events are booleans, kept equal to their conditions between calls.
  - A blocking wait is a precondition saying the wait would already be satisfied. `Read` needs
    unread bytes, and `Write` needs room for the whole write because no reader runs beside it.
  - `ReceiveBytes` and `ReceiveString` need the requested bytes to be in the ring already.
- MemoryMapped.MemoryMappedFileStream.Write: the multi-pass path, where a reader frees space
  between passes, is not exercised. With the whole write required to fit, the first pass
  writes every byte. The loop invariant is still proved for any pass size.
- StreamExtension.ReceiveBytes: the short-read path, where a writer delivers more bytes
  between reads, is not exercised. With the requested bytes required to be in the ring, the
  first read returns them all. The loop invariant is still proved for any read size.
- MemoryMapped.MemoryMappedFileStream.Open: opening a name whose existing region has other
  capacities is not modelled. The precondition requires the existing region to fit the
  requested capacities; the source maps views over whatever file exists under the name.
- The memory-mapped file, its views and the 64-bit header fields are arrays and fields.
  - Creating the region and its views is an allocation.
  - `Open` takes the region that already exists under the name as a parameter.
  - OS failures while mapping or opening the named objects, and the cleanup after them, are
    not modelled.
- `CanRead`/`CanWrite` are always true in the source; `Seek`, `SetLength`, `Length` and
  `Position` only throw `NotSupportedException`. None of them is modelled.
- The stream's `long`/`int` casts are not modelled, because the capacities and counts are
  assumed to fit.
- `SendStringAsync`, `ReceiveStringAsync` and `ReceiveBytesAsync` are not modelled. They are
  the same framing over `WriteAsync`/`ReadAsync` with a token, and tasks are outside the model.
- `StreamExtension` is modelled over `MemoryMappedFileStream` only. The socket-backed
  `NetworkStream` is not part of this model.
- StreamExtension.FrameOf: the string's UTF-8 length must fit an `int`. Above that,
  `Encoding.UTF8.GetByteCount` throws `ArgumentOutOfRangeException`, which is not modelled.
  Nor is a length near `int.MaxValue`, where `sizeof(int) + count` overflows or exceeds the
  largest array before any byte is copied.
- Utf8.Encode: strings are sequences of Unicode scalar values. A lone UTF-16 surrogate, which
  .NET encodes as U+FFFD (EF BF BD), is not modelled, so `DecodeEncode` does not cover such
  strings.
- Utf8.DecodeOne replaces each byte that starts no well-formed sequence with U+FFFD. .NET
  replaces maximal ill-formed subparts instead. This only matters for bytes the encoder never
  produces.
- Cancellation.CancellationHelper.Cancel:
  - The race between the token's callback thread and `SetOperationCompleted` is not modelled;
    calls are taken one at a time.
  - The abort action is opaque, and the model only records that it ran. An action that calls
    back into the helper is not modelled.
  - An abort action that throws is not modelled. In the source the exception skips
    `SetOperationCompleted`, so the helper stays not completed and keeps its action.
- The token's registration is the boolean `registered`; the token object itself is not
  modelled.
- The endpoint's platform and the runtime's Unix-domain socket probe (`s_udsSupported`) are
  parameters, not process-wide statics.
- `SocketAddress` family bytes are not modelled. The model keeps the family as a field and
  leaves bytes 0 and 1 zero. `AddressFamily` and `Create` have no contract of their own:
  `Create` is `FromSocketAddress`.
- The editor plugin's Unity lifecycle is not modelled: `OnEnable`'s accept loop, `OnDisable`,
  logging and `TestMethod`.
- `Type.GetType`, `GetMethod`, `Invoke` and `ToString` of the result are one parameter
  (`invoke`) returning the result text, null, or an exception.
  - When `Type.GetType` would throw on a request without NUL, the model reports the
    `IndexOutOfRangeException` instead. Both give a `FAIL` response.
- An exception's `ToString` is a parameter (`show`).
- The command line's `IpcClient.Create`, `Connect`, `SendString` and `ReceiveString` are one
  parameter (`exchange`) from the channel name and the request to the response or an
  exception. The console lines are values in the result.
- The transport factories, the socket servers and clients, `WaitHandleExtension` and the
  research programs are not part of this model.
