# PEM text handling, socket wrapper and event log of theMafiaSPA, in Dafny

This project models three pieces of the client's logic and proves properties about them.

- **PEM and base64 text handling** (`src/utils/RSA.js`):
  - `arrayBufferToBase64` and `stringToArrayBuffer`, the byte-string conversions around `btoa`/`atob`.
  - `addNewLines`, which wraps base64 into 64-character lines.
  - `toPem`, which frames the wrapped text with `-----BEGIN <type>-----` / `-----END <type>-----` lines. This is the textual encoding of section 2 of RFC 7468, with the `PUBLIC KEY` label of its section 13.
  - `removeHeaders`, which strips that framing.
  - `getPEM`, and the pure first three steps of `importKey`.
  - `btoa` is the base64 encoding of section 4 of RFC 4648. `atob` is the forgiving-base64 decode of the WHATWG Infra standard.
- **The socket wrapper** (`src/utils/socket.js`), as an explicit state machine:
  - the nullable WebSocket handle, the `options` record and the listener table;
  - `init`, `on`, `emit` and `close`, and the name-based dispatch of the callbacks `init` installs.
  - The listener table is a JavaScript object reached by reference, so the model holds a small heap of listener objects. `DEFAULT_LISTENERS` is one shared object in it.
- **The store mutations** (`src/store/index.js`):
  - `setError`;
  - `addStoryEvent`, which appends to a log capped at 50 entries and drops the oldest entry when full.

Files:

- `wrappers.dfy`: Option and Result.
- `base64.dfy`: RFC 4648 encoding, forgiving decode, `btoa` and `atob`.
- `jsstring.dfy`: `split`, `join` and `slice` as JavaScript defines them.
- `rsa.dfy`: RSA.js.
- `socket.dfy`: socket.js.
- `store.dfy`: store/index.js.

## Behaviour worth knowing

- **The PEM round trip loses the last body line.** `toPem` emits no newline after the END line (src/utils/RSA.js:74), and `removeHeaders` keeps `split('\n').slice(1, -2)` (src/utils/RSA.js:36). On `toPem`'s own output the last two pieces are therefore the last body line and the END line, so the last body line is dropped.
  - `Rsa.ImportKeyOfPem` proves the bytes come back truncated to a multiple of 48.
  - `Rsa.KeptBytesOfRsa2048Spki` shows a 294-byte RSA-2048 SPKI key comes back as 288 bytes.
  - With a final `'\n'` appended, the bytes come back exactly (`Rsa.ImportKeyOfTerminatedPem`).
- **A second `init` does not close the first socket.** `init` replaces the handle without checking for or closing the old one (src/utils/socket.js:62-65).
- **An unregistered event name is a TypeError.** For a frame whose name has no listener, `onmessage` calls `undefined` (src/utils/socket.js:77-82). The model returns `NotAFunction`.
- **The listener reset changes nothing.** `close(true)` points the listener field back at `DEFAULT_LISTENERS` (src/utils/socket.js:143-145). The field never refers to anything else, and `on` has already written into that shared object. So the reset keeps every registered handler, and handlers registered through any wrapper instance are visible to all of them.

## Model

| member | source | states |
|---|---|---|
| Base64.SymbolValueOf | src/utils/RSA.js:5 | the 64-character alphabet of RFC 4648 section 4 maps 6-bit values one-to-one onto characters |
| Base64.Encode | src/utils/RSA.js:5 | the base64 of n bytes has 4·ceil(n/3) characters, all in the alphabet except '=' padding in the last two positions |
| Base64.Btoa | src/utils/RSA.js:5 | `window.btoa` succeeds exactly on binary strings (every character below U+0100), and then returns a well-formed padded encoding of 4·ceil(n/3) characters; `Base64.AtobBtoa` is its inverse |
| Base64.ForgivingDecode | src/utils/RSA.js:49 | forgiving-base64 decode never yields more bytes than its input has characters; `Base64.ForgivingDecodeEncode` proves it inverts the RFC 4648 encoding |
| Base64.Atob | src/utils/RSA.js:49 | `window.atob` succeeds exactly when forgiving-base64 decode does, and returns a binary string no longer than its input; `Base64.AtobBtoa` and `Base64.AtobIgnoresWhitespace` relate it to `btoa` and to whitespace |
| Base64.EncodeBodyLength | src/utils/RSA.js:5 | before padding, n bytes take (4n+2)/3 characters: four per complete group, two or three for a partial one |
| Base64.DecodeEncodeBody | src/utils/RSA.js:49 | decoding the unpadded encoding gives back the encoded bytes, and the encoding never leaves a single character over |
| Base64.ForgivingDecodeEncode | src/utils/RSA.js:49 | forgiving-base64 decode inverts RFC 4648 encoding for every byte sequence |
| Base64.AtobBtoa | src/utils/RSA.js:5 | for every binary string `btoa` succeeds and `atob` returns that string |
| Base64.BtoaRejects | src/utils/RSA.js:5 | `btoa` succeeds exactly on strings whose characters are all below U+0100 |
| Base64.AtobIgnoresWhitespace | src/utils/RSA.js:49 | `atob` gives the same result once ASCII whitespace is removed from its argument |
| Base64.StripWhitespaceAppend | src/utils/RSA.js:49 | whitespace removal distributes over concatenation |
| Base64.EncodePrefix | src/utils/RSA.js:5 | the encoding of the first 3k bytes is the first 4k characters of the encoding |
| Rsa.ArrayBufferToBase64 | src/utils/RSA.js:4-6 | never throws; equals the RFC 4648 encoding of the buffer; has length 4·ceil(n/3) and correct padding; `atob` of it returns the buffer as a binary string |
| Rsa.StringToArrayBuffer | src/utils/RSA.js:8-17 | returns one byte per character; on a binary string it is the inverse of building the binary string |
| Rsa.StringToArrayBufferTruncates | src/utils/RSA.js:12-14 | byte i is the code of character i modulo 256 (Uint8Array store), and equals it when the code is below 256 |
| Rsa.StringToArrayBufferOfBinaryString | src/utils/RSA.js:8-17 | bytes made into a binary string and converted back are unchanged |
| Rsa.AddNewLines | src/utils/RSA.js:19-28 | the output is longer by exactly ceil(len/64) characters, and ends in '\n' when the input is non-empty |
| Rsa.AddNewLinesLines | src/utils/RSA.js:19-28 | on newline-free input: ceil(len/64) lines, each '\n'-terminated, at most 64 characters, all but the last exactly 64; deleting the newlines returns the input |
| Rsa.LinesOfAddNewLines | src/utils/RSA.js:19-28 | on newline-free input, splitting the wrapped text at '\n' gives exactly its 64-character lines followed by one empty piece |
| Rsa.AddNewLinesWhitespace | src/utils/RSA.js:22-25 | wrapping adds only whitespace, so `atob` sees the same text |
| Rsa.AddNewLinesJoin | src/utils/RSA.js:22-25 | the wrapped text is the 64-character lines joined by '\n' with a final '\n' |
| Rsa.ChunksShape | src/utils/RSA.js:23-24 | line i of the wrapped text is the input slice starting at 64·i: 64 characters except a shorter, non-empty last line |
| Rsa.ConcatChunks | src/utils/RSA.js:22-25 | the lines, concatenated, are the input |
| Rsa.ToPem | src/utils/RSA.js:72-75 | a PEM is the BEGIN line, the base64 body lines and the END line joined by '\n', and its last character is the END line's final '-', not a newline |
| Rsa.ToPemJoin | src/utils/RSA.js:72-75 | a PEM is the BEGIN line, the base64 body lines and the END line joined by '\n', with no newline after END |
| Rsa.PemLines | src/utils/RSA.js:72-75 | splitting a PEM at '\n' gives exactly the BEGIN line, the body lines and the END line, with no empty piece after the END line |
| Rsa.RemoveHeaders | src/utils/RSA.js:35-37 | with three or fewer pieces after `split('\n')` the result is empty; with four or more it splits into exactly the pieces between the first and the last two |
| Rsa.GetPem | src/utils/RSA.js:103-110 | the PUBLIC KEY block of exported bytes splits into its BEGIN line, the base64 body lines and its END line, and nothing after |
| Rsa.RemoveHeadersLines | src/utils/RSA.js:35-37 | with at least four lines, the result splits into exactly the input's lines between the first and the last two |
| Rsa.RemoveHeadersShort | src/utils/RSA.js:35-37 | with at most three lines the result is empty |
| Rsa.RemoveHeadersFramedTerminated | src/utils/RSA.js:36 | framed lines with a final '\n': all inner lines are kept |
| Rsa.RemoveHeadersFramed | src/utils/RSA.js:36 | framed lines without a final '\n': the last inner line is lost |
| Rsa.RemoveHeadersOfTerminatedPem | src/utils/RSA.js:35-37 | on `toPem` output plus '\n', the result is the body lines, whose non-newline characters are exactly the base64 of the key |
| Rsa.RemoveHeadersOfPem | src/utils/RSA.js:72-75 | on `toPem` output, the last body line is dropped: what remains is the base64 of a strictly shorter prefix of the key |
| Rsa.ImportKeyBytes | src/utils/RSA.js:47-50 | succeeds exactly when `atob` accepts the header-stripped text, and then returns that binary string's bytes |
| Rsa.ImportKeyOfTerminatedPem | src/utils/RSA.js:47-50 | `stringToArrayBuffer(atob(removeHeaders(toPem(k, t) + "\n")))` is exactly k |
| Rsa.ImportKeyOfPem | src/utils/RSA.js:47-50 | without the final '\n', the same three steps (`removeHeaders`, `atob`, `stringToArrayBuffer`) return only the first KeptBytes(len k) bytes, fewer than k has when k is non-empty |
| Rsa.KeptBytesBound | src/utils/RSA.js:36 | the kept byte count is a multiple of 48, at most the key length, and smaller for a non-empty key |
| Rsa.GetPemReimport | src/utils/RSA.js:103-110 | a PUBLIC KEY block from `getPEM` re-imports to the exported bytes only with a final '\n' appended |
| JsString.Split | src/utils/RSA.js:36 | `split('\n')` gives at least one piece, no piece contains '\n', and joining the pieces with '\n' gives back the string |
| JsString.SplitJoin | src/utils/RSA.js:36 | splitting '\n'-joined newline-free pieces returns those pieces |
| JsString.JoinLength | src/utils/RSA.js:36 | `join` (modelled by `JsString.Join`) puts exactly one separator between neighbouring parts: its length is the parts' total length plus one per gap |
| JsString.Slice | src/utils/RSA.js:36 | `slice(start, end)` never lengthens its input; for in-range positions it is the contiguous run from start to end, and a negative end counts back from the end of the array |
| JsString.SliceDropEnds | src/utils/RSA.js:36 | `slice(1, -2)` drops the first element and the last two, or returns nothing for fewer than three |
| Socket.SecureSocketUri | src/utils/socket.js:4-6 | the secure endpoint is `ws://localhost:8001/ws/secure` |
| Socket.Init | src/utils/socket.js:62-71 | succeeds exactly for "secure": the handle becomes the new socket and the options name the secure URI and namespace, with the port kept; any other namespace throws "Unknown socket namespace" and changes nothing |
| Socket.InitFresh | src/utils/socket.js:46-68 | `init("secure")` on a new wrapper connects, with uri `ws://localhost:8001/ws/secure`, namespace "secure" and port 8001 |
| Socket.InitTwice | src/utils/socket.js:62-65 | a second `init` replaces the handle without checking or closing the first |
| Socket.On | src/utils/socket.js:103-105 | stores the handler under the event in the referenced object; every other entry and every other object is unchanged |
| Socket.Emit | src/utils/socket.js:114-125 | throws and sends nothing without a handle; otherwise sends exactly one frame `{name: event, data}` on the handle and changes nothing else |
| Socket.Close | src/utils/socket.js:134-146 | throws without a handle; otherwise closes and forgets the handle, and with `removeListeners` points the listener field at `DEFAULT_LISTENERS` |
| Socket.ClosedRejects | src/utils/socket.js:134-137 | after a successful `close`, both `emit` and `close` throw |
| Socket.CloseResetKeepsListeners | src/utils/socket.js:143-145 | while the wrapper uses `DEFAULT_LISTENERS`, `close(true)` and `close(false)` leave the effective listener table unchanged |
| Socket.HandlerSurvivesReset | src/utils/socket.js:54 | a handler registered before `close(true)` is still the one dispatched to afterwards |
| Socket.ListenersShared | src/utils/socket.js:7-39 | two wrappers share `DEFAULT_LISTENERS`: a handler registered through one is dispatched by the other |
| Socket.Dispatch | src/utils/socket.js:73-90 | a frame named N invokes the listener stored under N with its data and the options; without one, dispatch fails with a TypeError; lifecycle events look up connect/error/close |
| Socket.RunFromLoad | src/utils/socket.js:44-146 | after any sequence of calls on one wrapper instance from module load: the listener field is `DEFAULT_LISTENERS`, the port is 8001, the handle is that of the last `init("secure")` not followed by `close`, and each name's listener is the last registered under it, or the default |
| Socket.StepFromLoad | src/utils/socket.js:62-146 | each of `init`, `on`, `emit` and `close` keeps the wrapper in agreement with the reference answers for the handle and every listener name |
| Socket.DispatchFromLoad | src/utils/socket.js:77-82 | after any calls, lifecycle callbacks always find a listener, and a frame fails exactly when no listener was ever stored under its name |
| Socket.LifecycleNamesStay | src/utils/socket.js:7-39 | connect, error and close always have a listener |
| Store.SetError | src/store/index.js:43-47 | copies title, solution and error from the payload and leaves `story` untouched |
| Store.AddStoryEvent | src/store/index.js:53-61 | the new entry is last; below capacity the old entries are kept and the length grows by one; at capacity the oldest is dropped and the length stays; at most 50 remain; the error fields are untouched |
| Store.LastNSnoc | src/store/index.js:53-61 | appending to the last 50 entries and dropping the oldest beyond 50 gives the last 50 entries of the longer log |
| Store.ReplayFromInitial | src/store/index.js:9-61 | from the initial state, `story` is always exactly the last 50 entries added, in order, and the error fields are those of the last `setError` (null if none) |

## Left out

- WebCrypto: `crypto.subtle.importKey`, `generateKey`, `exportKey`, `encrypt` and `sign` (src/utils/RSA.js:51-60, 84-95, 104-107, 120-151) are platform primitives. The model works on the SPKI bytes `exportKey` would produce and stops at the bytes `importKey` would consume. `generateKeyPair`, `encrypt` and `sign` are not modelled.
- The WebSocket object and its asynchronous callbacks are network I/O. The handle is opaque, a new one is passed to `init` by the caller, and `send` and `close` are recorded in a wire log. Delivery of events is represented by calling `Socket.Dispatch`. The `new WebSocket` constructor, the handle's `send` (src/utils/socket.js:124) and its `close(code, reason)` (src/utils/socket.js:139) are assumed never to throw. In a browser `send` throws InvalidStateError while the socket is still connecting, and `close` throws InvalidAccessError for a code other than 1000 or 3000-4999 and SyntaxError for a reason longer than 123 UTF-8 bytes; both would leave the wrapper connected. `Socket.Emit` and `Socket.Close` accept any data, code and reason and always succeed when there is a handle.
- `JSON.stringify` and `JSON.parse` are not modelled:
  - frames are kept as structured `{name, data}` values;
  - inbound frames arrive already decoded, so a parse failure in `onmessage` is not modelled;
  - story entries arrive already serialised, so `JSON.stringify(undefined)` yielding `undefined` is not represented.
- The default listeners' console logging (src/utils/socket.js:14-38) is a side effect only. The default listeners are the opaque handler values `LogConnect`, `LogError` and `LogClose`.
- Listeners are treated as a plain string map. Names inherited from `Object.prototype` (`toString`, `constructor`, `__proto__`, …) are not modelled. Neither is what a listener does when called.
- Vue, Vuex and vue-multilanguage wiring (src/store/index.js:4-7, src/lang/index.js) is framework glue. src/lang/ru-RU.js is a table of UI strings.
- Rsa.StringToArrayBuffer: treats each Dafny character as one UTF-16 code unit. Characters outside the Basic Multilingual Plane are two code units in JavaScript; they are not modelled, and they never occur in `atob` output.
- Store.SetError: `null` and `undefined` are both represented by None.
