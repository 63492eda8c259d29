# hx-nanomsg binding core, modelled in Dafny

hx-nanomsg is a thin Haxe/Neko binding over the nanomsg messaging library. Each
`hx_nn_*` primitive in `src/nanomsg-hx.cpp` checks its arguments, makes one nanomsg
call and turns the integer result into a Haxe value or a raised error. This
project models the logic the binding itself owns:

- `outcomes.dfy` (module `Outcomes`): the shared shapes. `Result` is a value handed
  back or an `Error(code)` standing for `throw_errstr()`. `Option` is a NULL
  pointer or an unset Haxe array slot. `Byte` is a raw byte.
- `sockets.dfy` (module `SocketCalls`): the return-code tests of bind, connect,
  socket, send, getsockopt (`ret < 0`), close, shutdown, setsockopt (`ret != 0`)
  and device (`ret == -1`). It also covers the bytes and size that
  hx_nn_setsockopt passes to nn_setsockopt.
- `poll_spec.dfy` (module `PollSpec`): the poll request and result as values.
  This covers the flat `nn_pollfd` layout, the reference "ready sockets"
  functions, the corrected early-stopping scan and the lemmas relating them.
- `poll_engine.dfy` (module `PollEngine`): hx_nn_poll as a program over arrays.
  The three filling loops, the nn_poll oracle writing `revents`, the three-way
  outcome and the (corrected) collection loop over pre-sized output arrays.
- `poll_as_written.dfy` (module `PollAsWritten`): the collection loop exactly as
  written, as the list of array stores it performs, with the two defects below.
- `receive.dfy` (module `Receive`): hx_nn_recv and hx_nn_recv_all. The latter
  works against a `Transport` object that tracks the chunks nanomsg has
  allocated and counts nn_freemsg calls.

Every nanomsg function (`nn_poll`, `nn_recv`, `nn_send`, `nn_bind`, ...) is an
oracle. What it returned, and what it wrote (`revents`, received bytes), is a
parameter of the model, constrained only by the library's documented contract
where the binding depends on it.

The model follows the code. Where the code is defective (see Findings), it
models the code as written beside a corrected version:
- hx_nn_poll tests `ret == -1` only, so another negative nn_poll result yields
  `[read, write]` rather than an error (`PollEngine.Poll`);
- `PollAsWritten` follows the collection loop as written: ready sockets are
  stored at their flat index (Finding 1), not appended, and the ready count
  drops once per direction stored (Finding 2). `PollSpec.Scan` and the
  `PollEngine` collector are the corrected loop, which appends and counts
  down once per ready entry;
- hx_nn_recv copies `ret` bytes out of its `nbytes`-byte buffer, so a longer
  message is over-read (Finding 3); `Receive.AsWrittenRecvReads` is that copy,
  and `Receive.Recv` is the corrected copy, capped at the buffer size.

## Model

| member | source | states |
|---|---|---|
| SocketCalls.Bind | src/nanomsg-hx.cpp:33-38 | raises exactly when nn_bind returns a negative value; the connection id handed back is non-negative; the returned or raised code is always nn_bind's value |
| SocketCalls.Connect | src/nanomsg-hx.cpp:62-67 | raises exactly when nn_connect is negative; the endpoint id is non-negative; the code is preserved |
| SocketCalls.Socket | src/nanomsg-hx.cpp:297-305 | raises exactly when nn_socket is negative; the handle is non-negative; the code is preserved |
| SocketCalls.Close | src/nanomsg-hx.cpp:47-52 | raises on any non-zero nn_close result; success always hands back 0; the code is preserved |
| SocketCalls.Shutdown | src/nanomsg-hx.cpp:281-286 | raises on any non-zero nn_shutdown result; success always hands back 0; the code is preserved |
| SocketCalls.Device | src/nanomsg-hx.cpp:77-82 | raises exactly on the sentinel -1; every other nn_device value is passed back unchanged |
| SocketCalls.SendPayload | src/nanomsg-hx.cpp:228-237 | nn_send is given exactly the first `length` bytes of the caller's buffer |
| SocketCalls.Send | src/nanomsg-hx.cpp:237-242 | raises exactly when nn_send is negative; the sent count is non-negative; the code is preserved |
| SocketCalls.GetSockOpt | src/nanomsg-hx.cpp:96-104 | a negative nn_getsockopt result raises with that code; otherwise the option value nanomsg wrote is handed back |
| SocketCalls.SetOptArgs | src/nanomsg-hx.cpp:252-264 | the size passed to nn_setsockopt is `sizeof(int)` for an Int and the string length for a String, and equals the number of bytes behind the value pointer; an Int reads back as the same value |
| SocketCalls.Int32RoundTrip | src/nanomsg-hx.cpp:261-262 | the four in-memory bytes of a C int read back as that int |
| SocketCalls.SetSockOpt | src/nanomsg-hx.cpp:267-271 | raises on any non-zero nn_setsockopt result; success hands back 0; the code is preserved |
| PollSpec.Flatten | src/nanomsg-hx.cpp:116-140 | the flat array has one entry per socket; read sockets come first with NN_POLLIN, then write sockets with NN_POLLOUT, then both sockets with both bits, each group in input order |
| PollSpec.ReadyFdsMembership | src/nanomsg-hx.cpp:154-162 | the reference result reports a socket in a direction if and only if some flat entry for it has that direction in `revents`, so a both socket ready both ways is in both outputs |
| PollSpec.ScanIsExact | src/nanomsg-hx.cpp:154-163 | when the ready count covers every ready entry ahead (nn_poll's contract), the corrected early-stopping scan (one count-down per ready entry) yields exactly the reference result |
| PollSpec.ScanFitsInterest | src/nanomsg-hx.cpp:151-162 | each output gathers at most one socket per entry that asked for its direction |
| PollSpec.InterestOfFlatten | src/nanomsg-hx.cpp:151-152 | the output capacities, read plus both sockets and write plus both sockets, are the numbers of entries asking for read and for write |
| PollEngine.BuildPollFds | src/nanomsg-hx.cpp:116-140 | the three filling loops produce a fresh array equal to the flat layout |
| PollEngine.FillGroup | src/nanomsg-hx.cpp:123-140 | one filling loop gives the entries from `offset` on the group's sockets, in order, with the group's interest mask, and leaves every other entry unchanged |
| PollEngine.CollectInto | src/nanomsg-hx.cpp:154-163 | the collection loop leaves the scan's readable sockets, in order, at the front of `read` and the writable ones at the front of `write`, the other slots unset |
| PollEngine.Collect | src/nanomsg-hx.cpp:150-166 | outputs sized to the given capacities hold the scan's ready sockets in order, then unset slots; every store is in bounds |
| PollEngine.Poll | src/nanomsg-hx.cpp:142-169 | nn_poll's -1 raises with -1; 0 gives the timeout result, distinct from an error; any other value gives `[read, write]` holding the scan's sockets, which is every ready socket when nn_poll's count is the number of ready entries |
| PollAsWritten.AsWrittenStores | src/nanomsg-hx.cpp:154-163 | the loop as written makes at most two stores per entry, one per direction reported |
| PollAsWritten.AsWrittenStoresShape | src/nanomsg-hx.cpp:154-162 | each store made by the loop as written is at the entry's flat index, names its socket, and is made only for a direction in its `revents` |
| PollAsWritten.AsWrittenStoreBound | src/nanomsg-hx.cpp:154-163 | as written, the loop makes no store for a non-positive count and at most `ret + 1` stores otherwise |
| PollAsWritten.AsWrittenExceedsCount | src/nanomsg-hx.cpp:154-163 | the `ret + 1` bound is reached: nn_poll returns 1 for one both socket ready both ways, and the loop fills two slots |
| PollAsWritten.AsWrittenFitsWhenOneGroup | src/nanomsg-hx.cpp:151-160 | when at most one of the three groups is non-empty, every store is in bounds for every nn_poll outcome |
| PollAsWritten.AsWrittenOverflowsWhenMixed | src/nanomsg-hx.cpp:151-160 | when two or more groups are non-empty, the nn_poll outcome in which only the last entry is ready, in a direction it asked for, and nn_poll returns 1 makes the loop store out of bounds |
| PollAsWritten.AsWrittenOverflowExample | src/nanomsg-hx.cpp:151-160 | one write socket and one both socket, the first writable and the second readable: the both socket is stored at index 1 of a one-slot `read` array |
| PollAsWritten.AsWrittenMissesReadyEntry | src/nanomsg-hx.cpp:154-163 | two both sockets ready both ways: nn_poll returns 2, the first socket uses the count up, and the second is never reported |
| Receive.AsWrittenRecvReads | src/nanomsg-hx.cpp:188-189 | as written, the copy reads positions `0 .. ret-1` of the stack buffer, one per byte nn_recv reported, and none when nn_recv failed |
| Receive.AsWrittenRecvOverRead | src/nanomsg-hx.cpp:182-189 | whenever nn_recv delivers a message longer than the buffer, the copy as written reads position `nbytes`, past the end of `buf` |
| Receive.AsWrittenRecvOverReadExample | src/nanomsg-hx.cpp:182-189 | a 2-byte buffer and a 3-byte message: nn_recv returns 3 and the copy reads `buf[2]` |
| Receive.Recv | src/nanomsg-hx.cpp:181-191 | a negative nn_recv result raises with that code; otherwise the caller gets a prefix of the scratch buffer of `min(ret, nbytes)` bytes: exactly `ret` bytes when they fit, the whole buffer when they do not, never more than it asked for |
| Receive.RecvDeliversPrefix | src/nanomsg-hx.cpp:181-191 | for any message nn_recv delivers, the corrected copy (`Recv`) hands back exactly the part of it that fits in `nbytes`, and the whole message when it fits |
| Receive.Transport.RecvMsg | src/nanomsg-hx.cpp:204-205 | nn_recv in NN_MSG mode allocates a new chunk holding the message on success and leaves the pointer NULL on failure |
| Receive.Transport.FreeMsg | src/nanomsg-hx.cpp:207-214 | nn_freemsg gives the chunk back and counts one release |
| Receive.RecvAll | src/nanomsg-hx.cpp:198-218 | the transport's live chunks are the same after the call as before, with exactly one nn_freemsg call on each path, releasing the chunk on success; success hands back the whole message, copied before the release; failure raises with nn_recv's code |

## Left out

- The nanomsg library (`nn_poll`, `nn_recv`, `nn_send`, `nn_bind`, `nn_connect`, `nn_socket`, `nn_close`, `nn_shutdown`, `nn_device`, `nn_getsockopt`, `nn_setsockopt`, `nn_term`): foreign code, modelled only by the values it returns and writes.
- Haxe CFFI marshalling (`val_check`, `val_check_socket`, `alloc_int`, `alloc_array`, `alloc_buffer`, `buffer_append_sub`, `val_to_buffer`): arguments are already typed (`int`, `seq<int>`, `seq<Byte>`), so the exception a wrongly typed argument raises is not modelled.
- The error text from `nn_strerror(nn_errno())`: `Error` carries only the integer code.
- hx_nn_device's forwarding loop, hx_nn_term and the `fini` destructor: blocking, process-wide termination and concurrency; only the device's `-1` test is modelled.
- Address strings and the poll timeout: both are passed to nanomsg unchanged and have no effect the binding itself can see.
- The variable-length stack arrays `pfd[arr_size]` and `buf[length]` are a Dafny array and a sequence of the given length. The `revents` of a fresh `pfd` entry is uninitialised in C and 0 here; nn_poll overwrites every one.
- PollSpec.ScanIsExact: this is about the corrected scan `PollSpec.Scan`, which counts down once per ready entry; the loop as written counts down once per direction stored and is `PollAsWritten.AsWrittenStores`, for which exactness fails (`PollAsWritten.AsWrittenMissesReadyEntry`).
- PollEngine.Poll: its `[read, write]` comes from the corrected collector (`PollEngine.Collect`), not from the loop as written (see Findings). It also requires that nn_poll reports only directions an entry asked for, which is part of nn_poll's contract.
- PollEngine.CollectInto: this is the corrected loop. It stores each ready socket in the next free slot of its output and counts down once per ready entry, where the source stores at flat index `i` and counts down once per direction stored; the loop as written is `PollAsWritten.AsWrittenStores` (see Findings).
- PollEngine.Collect: this is the corrected loop, not the loop as written; the loop as written is `PollAsWritten.AsWrittenStores` (see Findings).
- Receive.Recv: this is the corrected copy, capped at the buffer size; the copy as written is `Receive.AsWrittenRecvReads` (see Findings). It takes `nbytes` as a natural number: a negative Haxe value would become a huge `size_t` stack array, which is undefined behaviour.
- Receive.RecvDeliversPrefix: this is about the corrected, capped copy `Receive.Recv`; as written the caller gets `ret` bytes, and a message longer than the buffer is over-read (`Receive.AsWrittenRecvOverRead`).
- Receive.RecvAll: on the error path the source calls nn_freemsg on a NULL pointer; the model counts that call as the one release and does not model what nanomsg does with NULL.
- SocketCalls.SendPayload: requires `length <= |data|`; the source passes the caller's length to nn_send without comparing it to the buffer size. A negative `length` is excluded by its type `nat`: in C it would become a huge `size_t` handed to nn_send.
- SocketCalls.GetSockOpt: the option value is the C int nanomsg wrote; the `valsize = sizeof(val)` size argument and string-valued options (unsupported by the source) are not modelled.
- SocketCalls.SetOptArgs: a value that is neither an Int nor a String (for which the source leaves `size` uninitialised) is excluded by the `OptValue` type. An Int is laid out little-endian, as on the platforms the binding is built for. A String is modelled as its bytes and `val_strlen` as their count, as for a Neko string, so the size equals the bytes behind `val_string`.

## Findings

| source | as written | input that shows it | evidently intended | confidence | as-written member | corrected member |
|---|---|---|---|---|---|---|
| src/nanomsg-hx.cpp:151-160 | each ready socket is stored at its flat index `i` in `read` (one slot per read and both socket) or `write` (one slot per write and both socket) | reads=[], writes=[7], boths=[9]; nn_poll reports 7 writable and 9 readable and returns 2; socket 9 is stored at `read[1]`, but `read` has one slot | store each ready socket in the next free slot of its output, which always fits | not executed; high | PollAsWritten.AsWrittenOverflowExample | PollEngine.CollectInto |
| src/nanomsg-hx.cpp:154-163 | the ready count drops once per direction stored, but nn_poll returns the number of entries with events | reads=[], writes=[], boths=[5,6], both ready in both directions, nn_poll returns 2; the loop stops after socket 5 and never reports socket 6 | drop the count once per ready entry, so the early stop never loses a ready socket | not executed; medium (rests on nn_poll counting entries, as nanomsg documents) | PollAsWritten.AsWrittenMissesReadyEntry | PollSpec.ScanIsExact |
| src/nanomsg-hx.cpp:182-189 | `buffer_append_sub(b, buf, ret)` copies `ret` bytes out of the `length`-byte stack buffer `buf`, but nn_recv returns the full message length even when it truncated the message to `length` bytes | bytes=2 and a pending 3-byte message [1,2,3]; nn_recv writes [1,2] into `buf` and returns 3; the copy reads `buf[2]`, one past the end | copy `min(ret, length)` bytes, so the caller gets the truncated message and never more than it asked for | not executed; medium (rests on nn_recv returning the full message length, as nanomsg documents) | Receive.AsWrittenRecvOverReadExample | Receive.Recv |

When two or more of the three groups are non-empty, an outcome nn_poll can
produce (only the last entry ready, nn_poll returning 1) makes the loop store
out of bounds (`AsWrittenOverflowsWhenMixed`); when only one group is, no
outcome does (`AsWrittenFitsWhenOneGroup`). The second defect also makes the loop as written
fill up to `ret + 1` slots (`AsWrittenExceedsCount`), so "at most `ret` slots"
does not hold for it.
