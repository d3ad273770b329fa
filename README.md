# P2P file transfer node, in Dafny

This project models the networking core of a small peer-to-peer file-transfer
tool: the `P2PNode` class of `main.py`. One node sends a file to another over
TCP as a single frame:

- a header line `name|size\n`, where `name` is the file's base name and `size`
  its length in decimal;
- then the file's bytes, in chunks of `65536 * 4` bytes.

The receiving node serves each inbound connection in `handle_client`:

- It reads the header one byte at a time until it holds a newline.
- It strips the line, splits it on `|` and reads the size with `int()`.
- It opens `join(save_directory, name)` for writing, which overwrites any file already there.
- It copies up to `size` bytes of body into that file.
- It then starts over on the next header.

The connection ends when the peer closes the stream, when a header is blank,
or when a header does not split into two fields or has a size that is not an
integer.

The model is organised as follows:

- `wire.dfy` (module `Wire`):
  - the header bytes;
  - `strip()`, `split('|')`, `str()` of a size and `int()`, each as a function on byte strings;
  - proofs that the receiver's reading of a header undoes the sender's writing of it.
- `paths.dfy` (module `Paths`): `os.path.join` and `os.path.basename` with their POSIX rules.
- `transport.dfy` (module `Transport`), the outside world as two classes:
  - a `Connection` whose `Recv(n)` hands out the next 1 to `n` bytes, how many being the network's choice, or nothing at the end of the stream;
  - a `FileSystem` holding regular files and directories.
- `receiver.dfy` (module `Receiver`): `Receive`, the effect of one connection on the files, stated frame by frame as a function of the byte stream.
- `receiver_props.dfy` (module `ReceiverProps`), what `Receive` guarantees:
  - each frame overwrites exactly the file it names, with exactly its body;
  - bad headers create nothing;
  - the stream is consumed exactly to the right point;
  - frames are applied in order;
  - a sender's frames are read back whole.
- `node.dfy` (module `Node`), the class `P2PNode` as imperative code with the source's loops:
  - `HandleClient` is proved to produce, for every way the network may split the stream, exactly the files, ending and stream position that `Receive` gives;
  - `SendFile` is proved to emit the header and then chunks that make up the file's content;
  - `SendThenReceive` connects the two.

An absolute name in a header replaces the save directory in
`os.path.join` (`Paths.JoinSpec`), so a peer can write outside it. The model
keeps this behaviour of the code as written.

## Model

| member | source | states |
|---|---|---|
| Wire.FindSpec | main.py:53-57 | no newline lies before the position where the header scan stops |
| Wire.FindFirst | main.py:53-57 | the first newline in the stream is where the scan stops |
| Wire.FindNone | main.py:53-57 | the scan runs to the end of the stream exactly when no newline is left |
| Wire.Decimal | main.py:85 | `str(size)` is a non-empty run of digits with no leading zero |
| Wire.DecimalValue | main.py:85 | the digits of `str(size)` have the value `size` |
| Wire.ParseDecimal | main.py:62 | `int()` of `str(size)` gives `size` back |
| Wire.ParseNegated | main.py:62 | `int()` accepts a leading `-`, so `-n` reads as a negative size |
| Wire.DigitsNonNegative | main.py:62 | a digit string is worth zero or more |
| Wire.ParseIntSpec | main.py:62 | `int()` accepts exactly a sign and digits; its result is negative only after a `-` |
| Wire.SkipSpaceSpec | main.py:58 | leading whitespace is skipped up to the first other byte |
| Wire.SkipSpaceBackSpec | main.py:58 | trailing whitespace is dropped back to the last other byte |
| Wire.StripSpec | main.py:58 | `strip()` leaves no whitespace at either end, drops only whitespace, and is empty exactly for an all-whitespace line |
| Wire.StripLine | main.py:58 | `strip()` removes the header's terminating newline and nothing else from a well-formed header |
| Wire.Split | main.py:61 | the fields of `split('\|')` hold no `\|` and glue back to the line |
| Wire.SplitTwo | main.py:61 | unpacking into two fields succeeds exactly when the line holds one `\|`, and yields what lies before and after it |
| Wire.ParseHeaderIsSplit | main.py:58-62 | the header reader is strip, blank check, two-field split, then `int()` |
| Wire.ParseHeaderSpec | main.py:58-62 | a header is blank exactly when it is all whitespace; a name holds no `\|`; a line without `\|` never announces a file |
| Wire.HeaderRoundTrip | main.py:58-62 | the header the sender writes is read back as the same name and size |
| Wire.Strip | main.py:58 | `str.strip()` with no argument; `StripSpec` and `StripLine` state what it keeps |
| Wire.ParseInt | main.py:62 | `int()` of the size field; `ParseIntSpec`, `ParseDecimal` and `ParseNegated` state what it accepts and returns |
| Wire.EncodeHeader | main.py:85 | the sender's `f"{name}\|{size}\n"`; `HeaderRoundTrip` and `HeaderIsLine` state that the receiver reads it back |
| Wire.ParseHeader | main.py:58-62 | the receiver's reading of one header line; `ParseHeaderIsSplit`, `ParseHeaderSpec` and `HeaderRoundTrip` state what it returns |
| Wire.HeaderIsLine | main.py:85 | the sender's header has its only newline at its end, so the receiver's scan stops exactly there |
| Paths.JoinSpec | main.py:63 | the save path ends with the name; an absolute name replaces the directory; otherwise the directory and a `/` come first |
| Paths.JoinInjective | main.py:63 | different relative names are saved at different paths |
| Paths.Join | main.py:63 | `os.path.join(save_directory, file_name)`; `JoinSpec` and `JoinInjective` state the path it builds |
| Paths.Basename | main.py:85 | `os.path.basename(file_name)`; `BasenameSpec` states which suffix it keeps |
| Paths.BasenameSpec | main.py:85 | the name sent is the longest suffix of the path with no `/` |
| Transport.Connection.Recv | main.py:54 | `recv(n)` returns the next 1 to `n` bytes of the stream, or nothing at its end |
| Transport.Connection.Close | main.py:72-73 | `client_socket.close()` marks the connection closed and reads nothing more |
| Transport.FileSystem.IsFile | main.py:76 | `os.path.isfile(p)` holds exactly for the paths of regular files |
| Transport.FileSystem.IsDir | main.py:95 | `os.path.isdir(p)` holds exactly for the paths of directories |
| Transport.FileSystem.Create | main.py:64 | `open(path, 'wb')` leaves an empty file at the path and changes nothing else |
| Transport.FileSystem.Append | main.py:70 | `f.write(data)` appends `data` to that file only |
| Receiver.Interpret | main.py:58-71 | a blank or malformed header stops the handler right after the header line; an announced frame is saved and reads at most the announced size of body, and fewer bytes only when the stream ends; it never reads past the stream |
| Receiver.BodyLength | main.py:65-69 | the body copied is `size` bytes, or less only when the stream ends first, and nothing when `size <= 0` |
| Receiver.NextFrame | main.py:52-71 | one pass of the outer loop reads no more than the stream holds, and a saved frame always reads something |
| Receiver.Receive | main.py:51-73 | a connection reads no more than the stream holds |
| ReceiverProps.ReceiveEnds | main.py:51-73 | closing by the peer means the whole stream was read; a blank or bad header ends the connection right after its newline; a stream with no newline creates no file |
| ReceiverProps.ReceiveSaved | main.py:51-71 | a saved frame is written and the handler continues right after it |
| ReceiverProps.LineIsFirst | main.py:53-57 | the scan stops at the end of the header line, and the body follows it |
| ReceiverProps.NextFrameLine | main.py:52-62 | what happens next depends only on the header line read |
| ReceiverProps.NextFrameAnnounced | main.py:63-71 | an announced frame saves `min(size, available)` body bytes at `join(dir, name)` |
| ReceiverProps.ReceiveAnnounced | main.py:63-71 | an announced frame overwrites `join(dir, name)` with its body, touches nothing else, and the handler goes on right after the body |
| ReceiverProps.ReceiveNonPositive | main.py:65-66 | a size of zero or less leaves an empty file, and the next header follows at once |
| ReceiverProps.ReceiveTruncated | main.py:67-69 | a body cut short keeps the bytes that arrived, and the connection ends |
| ReceiverProps.ReceiveRefused | main.py:59-62 | a blank or malformed header ends the connection and creates no file |
| ReceiverProps.ReceiveNoSeparator | main.py:61 | a non-blank header with no `\|` ends the connection with an error |
| ReceiverProps.ReceiveOverlay | main.py:63-64 | the files a connection leaves are the old files overwritten by the files it writes, and what it writes does not depend on the old files |
| ReceiverProps.FrameRoundTrip | main.py:63-71 | a frame the sender writes is saved with its name and full content, and the stream continues right after it |
| ReceiverProps.ReceiveFrames | main.py:51-71 | frames on one connection are saved in order, each in full, a later one replacing an earlier one of the same name |
| Node.ConcatCons | main.py:88-89 | the bytes sent start with the first buffer |
| Node.ChunkedSnoc | main.py:88-89 | each further `read` appends its bytes and keeps every earlier chunk full |
| Node.ReadHeader | main.py:52-57 | the byte-by-byte scan reads exactly up to and including the first newline, or to the end of the stream when there is none |
| Node.CopyBody | main.py:65-71 | the copy loop reads `min(size, available)` bytes, none when `size <= 0`, and appends exactly them to the open file |
| Node.SaveBody | main.py:64-71 | the target file ends up holding exactly the body, replacing what was there |
| Node.ServeFrame | main.py:52-71 | one pass of the outer loop reads and writes what `NextFrame` says |
| Node.P2PNode.constructor | main.py:24-28 | the save directory is the one given, or the working directory when none or an empty one is given |
| Node.P2PNode.SetSaveDirectory | main.py:94-96 | the save directory changes only to an existing directory |
| Node.P2PNode.HandleClient | main.py:49-73 | for any way the network splits the stream, the files, the ending and the bytes read are those of `Receive`, and the socket is closed |
| Node.P2PNode.SendFile | main.py:75-92 | nothing is sent unless the path is a regular file; otherwise the header names its base name and size, and the chunks, each at most `65536 * 4` bytes and all but the last full, make up its content |
| Node.SendThenReceive | main.py:84-89 | what the sender emits is read by the receiver as the same file under its base name, and the stream continues after it |

## Left out

- Sockets, threads, `start_server`, `accept_connections` and the socket options are left out. Each connection is a byte stream handed to `HandleClient`, and the node's `host` and `port` are kept but never used.
- Node.P2PNode.HandleClient: reads `saveDirectory` once per connection. `main.py:63` reads `self.save_directory` for every frame, so a concurrent `set_save_directory` can redirect later frames of the same connection. This shows only under concurrency, which is left out.
- Node.P2PNode.SendFile: takes the size and the content from one snapshot of the file. `getsize` at `main.py:84` and `read` at `main.py:88` can disagree if the file changes in between. This too shows only under concurrency.
- The Qt user interface, the configuration file and logging are not part of this model.
- UTF-8 decoding and encoding are left out. Names are byte strings, a header that is not valid UTF-8 is not distinguished, and the sender's `errors='ignore'` is not modelled.
- Wire.ParseInt: accepts only an optional `-` followed by ASCII digits. Python's `int()` also takes `+`, surrounding whitespace, underscores and non-ASCII digits.
- Wire.ParseInt: has no limit on the number of digits. Recent CPython releases make `int()` raise `ValueError` on a decimal string longer than 4300 digits. There, such a header ends the connection without opening a file, while the model saves a file.
- Wire.IsSpace: covers only the ASCII whitespace of `str.strip()`. Unicode whitespace such as U+0085 or U+00A0 is not stripped.
- `open()` failures are not modelled: a save path that names a directory, a missing parent directory, or a denied permission. `FileSystem.Create` always succeeds.
- Failures of `connect` and `sendall` in `send_file` are left out. `SendFile` returns the buffers it would hand to `sendall`, in order.
- Paths.Join: models the POSIX rules only. Windows drive letters and `\` separators are not modelled.
- Transport.Connection.Recv: requires `n > 0`. The node never asks for zero bytes: the header loop asks for 1, and the body loop runs only while `remaining > 0`.
- `open(save_path, 'wb')` at `main.py:64` overwrites a file of the same name. The code never renames on a collision, so neither does the model.
- Receiver.Receive: takes the header reader as a parameter, so that its framing lemmas hold for any reader. `HandleClient` and the round-trip lemmas use `ParseHeader`.
- An exception raised by `split` or `int()` ends the handler; the model records this as the ending `BadHeader`. The exception's propagation out of the thread is not modelled.
