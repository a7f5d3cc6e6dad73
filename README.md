# LSP client initialize handshake

A model of the client side of the Language Server Protocol initialize
handshake in lsp-tester's `lsp-client` crate. A `Connection` is a pair of
message queues: the messages the client has sent (`outbound`) and the
messages it has yet to receive (`inbound`). `InitializeStart` sends the
`initialize` request with id 1 and the fixed initialize parameters.
`InitializeFinish` takes exactly one message off the inbound queue. If it is
a response, it sends the `initialized` notification and succeeds. If it is a
notification or a request, it fails with a protocol error and sends nothing.

- `msg.dfy` (module `Msg`): the message vocabulary. `Message` has the three
  LSP kinds (request, response, notification). `RequestId` is built from an
  integer or a string. `Params` payloads are opaque, except for the two fixed
  payloads the handshake builds. `ProtocolError` carries the message that was
  received instead of a response.
- `init.dfy` (module `Init`): the specification functions `Verdict` (what
  `InitializeFinish` returns for a received message) and `Reply` (what it
  sends), the `Connection` class with its methods, and lemmas about the order
  of `initialize` and `initialized` on the outbound queue.

The queues are sequences: a send appends to `outbound`, a receive takes the
head of `inbound`. Each method's `ensures` gives the whole new state of both
queues in terms of the old state. The ordering property is the predicate
`InitializedAfterInitialize`: every `initialized` notification on the
outbound queue comes after some `initialize` request.

The model follows the code where the protocol design says more. The code
accepts any response as the answer to `initialize`. It does not compare the
response's id with 1. It does not check that the response has exactly one of
a result and an error, so an error response also completes the handshake.
`AnyResponseAccepted` states this. The code also keeps no handshake state:
nothing stops `initialize_finish` from running before `initialize_start`.
`FinishAloneBreaksOrder` shows that the ordering then rests on the caller,
and the client's `main` calls the two in the right order (`Handshake`).

## Model

| member | source | states |
|---|---|---|
| `Init.Verdict` | crates/lsp-client/src/init.rs:56-77 | the result is `Ok` if and only if the received message is a response, with any id; on `Err` the protocol error carries the received message, and it is `UnexpectedNotification` exactly when that message is a notification |
| `Init.Reply` | crates/lsp-client/src/init.rs:59-85 | an accepted message makes the handshake send exactly the `initialized` notification; a rejected one makes it send nothing |
| `Init.Connection.constructor` | crates/lsp-client/src/init.rs:18-21 | a connection is exactly the pair of queues it is given |
| `Init.Connection.Send` | crates/lsp-client/src/init.rs:50 | sending appends the message to the back of the outbound queue and leaves the inbound queue alone |
| `Init.Connection.Recv` | crates/lsp-client/src/init.rs:58 | receiving returns the head of the inbound queue, leaves the rest in order, and leaves the outbound queue alone |
| `Init.Connection.InitializeStart` | crates/lsp-client/src/init.rs:34-53 | exactly one message is appended to the outbound queue, the request with id 1, method `initialize` and the fixed initialize parameters; the inbound queue is unchanged |
| `Init.Connection.InitializeFinish` | crates/lsp-client/src/init.rs:56-86 | exactly the head of the inbound queue is consumed; the result is `Verdict` of that message and the outbound queue grows by exactly `Reply` of it: one `initialized` notification after a response, nothing after a notification or a request |
| `Init.Connection.Handshake` | crates/client/src/main.rs:13-14 | start then finish consumes one inbound message and returns exactly the `Verdict` of it, so a failure passes on the very protocol error built from the received message; on success the outbound queue grows by the `initialize` request followed by the `initialized` notification, on failure by the request alone; the ordering of `initialize` before `initialized` is preserved |
| `Init.StartKeepsOrder` | crates/lsp-client/src/init.rs:48-50 | appending the initialize request preserves the ordering and records that `initialize` has been sent |
| `Init.FinishKeepsOrder` | crates/lsp-client/src/init.rs:79-85 | once `initialize` has been sent, whatever message is received, finishing the handshake preserves the ordering |
| `Init.HandshakeKeepsOrder` | crates/client/src/main.rs:13-14 | start followed by finish, from any outbound queue that is in order, leaves it in order whatever message arrives |
| `Init.HandshakeFromFresh` | crates/lsp-client/src/init.rs:48-83 | worked example: from an empty outbound queue a successful handshake leaves exactly `[initialize request with id 1, initialized notification]`, which is in order |
| `Init.AnyResponseAccepted` | crates/lsp-client/src/init.rs:60-63 | a response with any id, any result and any error is accepted and answered with `initialized`; no id correlation takes place |
| `Init.FinishAloneBreaksOrder` | crates/lsp-client/src/init.rs:56-58 | finishing on any outbound queue that holds no `initialize` request still sends `initialized` after a response and leaves the queue out of order, so the ordering depends on the caller's call order |

## Left out

- `Connection::connect` (crates/lsp-client/src/init.rs:28-32): opening a TCP stream and starting the socket transport threads is network I/O; that transport is not part of this model.
- Blocking and disconnection of the channels: a receive on an empty queue blocks and one on a disconnected channel panics through `unwrap`, as does a send on a disconnected channel. The model requires a non-empty inbound queue and treats sends as always succeeding.
- `debug!` logging: a side effect only.
- The concrete `InitializeParams`, `ClientCapabilities` and `InitializedParams` structures: the two payloads the handshake builds are named constants of an opaque `Params` type.
- The text of the protocol error (the `Debug` formatting of the received message): the error carries the message itself instead.
- The message framing codec, the reader and writer threads and any table of pending requests: none of that is part of this code, and the handshake uses none of it.
- The client's logger setup and stdin loop (crates/client/src/main.rs:8-10, 23-42): terminal I/O with an unimplemented branch.
