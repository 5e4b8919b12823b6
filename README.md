# ArchBench Broker plug-ins in Dafny

This project models two ArchBench HTTP plug-ins that make up a Broker architecture.

- **The Broker** (`PlugInBroker`) keeps a directory of backend servers and picks them
  round-robin. Its background listener on port 9000 reads registration frames
  `op:address:port:id:path` from backends: `+` registers a backend, `-` deregisters it.
  For each HTTP request it picks the next backend. It then either forwards the request to
  `http://address:port{path}` or writes a short message.
- **The backend** (`PlugInBServers`) serves html, png, jpg and mp4 files from a folder.
  It sends `+` or `-` frames to the Broker when it is enabled or disabled.

Modules, one per concern:

| module | file | what it holds |
|---|---|---|
| `Text` | text.dfy | the .NET string and number operations the plug-ins use: `String.Split(char)`, `Trim`, `int.Parse`/`TryParse`, `Int32.ToString`, `Encoding.ASCII` |
| `Http` | http.dfy | the response the plug-ins write to: headers, cookies, content type, body writes, through `Response.AddHeader`, `AddCookie`, `SetContentType` and `Write`, each of which appends or assigns one thing |
| `Directory` | directory.dfy | backend descriptors, the effect of `Regist` and `Unregist` on the list, the round-robin cursor |
| `ControlFrame` | control_frame.dfy | decoding one control frame to a command |
| `Dispatch` | dispatch.dfy | the routing decision of the Broker's `Process`, `StandardWriter` (the text and a line terminator), and the header built from each form item |
| `Broker` | broker.dfy | the class `Broker` (directory and cursor) with `GetNextServer`, `Regist`, `Unregist`, receiving frames and `Process`; `GetFormValues`, `TryAddCookies` |
| `BServers` | bservers.dfy | the backend's routing, extension mapping, not-found fallback, `ReadFile`, `checkErrorBroker`, `GetAddress`, and the class `Server` with `ServerRegistration` |
| `Protocol` | protocol.dfy | a frame a backend sends, read by the Broker |

Throughout, the model follows the code as written, quirks included:

- The cursor starts at 0 and is advanced before it is used, so with n backends the first
  pick is entry 1 mod n.
- `Regist` compares the new descriptor with the first entry only. It uses
  `ArrayList.Contains` on each value, so a value may match in any position. A string
  never equals a boxed int.
- `Unregist` removes the first entry equal to the descriptor element by element.
- A malformed frame raises `IndexOutOfRangeException`, `FormatException` or
  `OverflowException`. Only `SocketException` is caught, so the error leaves the listener thread.
- A mount path without '/' makes the Broker's `Process` throw.

### Surprising behaviours the model keeps

- **Which requests the Broker declines.** `Process` returns false only when the directory
  is empty (ArchBench.PlugIns.Broker/PlugInBroker.cs:49-50). Any other request moves the
  cursor and is handled, unless the picked backend's mount path has no '/', which makes
  `Process` throw (line 56). A request whose path does not have three '/'-segments before its
  first '.', such as one with no extension at the root, writes an empty line and returns
  true (lines 59-82 and 98-101).
- **The first picks.** The cursor is advanced before it is read (lines 232-237). With
  backends B1, B2, B3 registered in that order, the first four requests go to B2, B3, B1,
  B2 (`Broker.ThreeBackendScenario`).
- **Duplicate registrations.** `Regist` looks at the first entry only, by value
  membership, because its foreach ends in the first iteration (lines 250-261). A backend
  already listed further down is listed again (`Directory.ReRegisterReorders`). A
  descriptor is refused whenever the first entry holds all its values, in any position
  (`Directory.SwappedFieldsSuppressed`).
- **Malformed frames.** The exception a malformed frame raises is not caught by the
  listener, whose only handler is for `SocketException` (line 222). Every later frame is
  lost (`Broker.MalformedFrameStopsListener`).
- **Media or html.** The request is relayed as media exactly when its path contains a '.'
  (line 89), so an html page named with its extension is relayed as media.
- **The cursor after a removal.** `Unregist` does not adjust the cursor. It may then lie
  past the end of the directory; the next pick reduces it modulo the new count, so every
  pick is in range (`Broker.Broker.GetNextServer`).

### Platform constants

- `StreamWriter.WriteLine` ends a line with `"\r\n"`. This is `Environment.NewLine` on
  Windows, the platform the repository's settings point to.
- `BinaryWriter.Write(string)` writes the not-found text as a one-byte length (28) and then
  the characters.
- `TcpClient` refuses ports outside 0..65535 with an exception that nothing catches.

## Model

| member | source | states |
|---|---|---|
| `Text.Split` | ArchBench.PlugIns.Broker/PlugInBroker.cs:208 | `String.Split(char)` keeps empty pieces: there is at least one piece and no piece holds the separator |
| `Text.SplitJoin` | ArchBench.PlugIns.Broker/PlugInBroker.cs:208 | joining the pieces with the separator gives back the text |
| `Text.JoinSplit` | ArchBench.PlugIns.Broker/PlugInBroker.cs:208 | splitting pieces joined by the separator gives the pieces, when none holds it |
| `Text.SplitSingle` | ArchBench.PlugIns.Broker/PlugInBroker.cs:53 | there is exactly one piece iff the text holds no separator |
| `Text.SplitTwoSeparators` | ArchBench.PlugIns.BServers/PlugInBServers.cs:129 | two separators give at least three pieces |
| `Text.DropStart` | ArchBench.PlugIns.Broker/PlugInBroker.cs:169 | the leading half of `Trim`: the result is a suffix of the text, every dropped character satisfies the given predicate (white space, for `Trim`) and the result does not start with one |
| `Text.DropEnd` | ArchBench.PlugIns.Broker/PlugInBroker.cs:169 | the trailing half of `Trim`: the result is a prefix of the text, every dropped character satisfies the given predicate (white space, for `Trim`) and the result does not end with one |
| `Text.ParseInt32` | ArchBench.PlugIns.Broker/PlugInBroker.cs:212 | `int.Parse` / `int.TryParse` under NumberStyles.Integer: a number is read only from text that holds a digit; `ParseIntToString` shows every printed Int32 reads back |
| `Text.ParseIntToString` | ArchBench.PlugIns.Broker/PlugInBroker.cs:212 | `int.Parse` reads back every Int32 printed in decimal |
| `Text.AsciiRoundTrip` | ArchBench.PlugIns.Broker/PlugInBroker.cs:207 | ASCII decoding undoes ASCII encoding on ASCII text and gives '?' for every other character |
| `Directory.Fields` | ArchBench.PlugIns.Broker/PlugInBroker.cs:294-304 | the ArrayList `Server` builds has four elements: address, port, id, path; `FieldsPositional` shows comparing two of them is comparing descriptors |
| `Directory.FieldsPositional` | ArchBench.PlugIns.Broker/PlugInBroker.cs:283 | the element-wise comparison of two `Server` lists holds iff the descriptors are equal |
| `Directory.ContainsAllMeaning` | ArchBench.PlugIns.Broker/PlugInBroker.cs:252 | the duplicate test matches each string against both string slots and each int against both int slots |
| `Directory.Registered` | ArchBench.PlugIns.Broker/PlugInBroker.cs:246-271 | registration only appends: the list is unchanged or gains the descriptor at the end; an empty list always gains it; a non-empty list is unchanged iff its first entry contains all four values |
| `Directory.Unregistered` | ArchBench.PlugIns.Broker/PlugInBroker.cs:277-291 | the list loses at most one entry; which one, and that nothing else changes, is in `UnregisteredFirstMatch`, `UnregisteredMultiset` and `UnregisteredAbsent` |
| `Directory.UnregisteredAbsent` | ArchBench.PlugIns.Broker/PlugInBroker.cs:277-291 | deregistering a descriptor that is not listed changes nothing |
| `Directory.UnregisteredMultiset` | ArchBench.PlugIns.Broker/PlugInBroker.cs:277-291 | deregistering takes exactly one copy of the descriptor out of the entries, and nothing else |
| `Directory.UnregisteredCount` | ArchBench.PlugIns.Broker/PlugInBroker.cs:277-291 | the list shrinks by one iff the descriptor was listed |
| `Directory.UnregisteredFirstMatch` | ArchBench.PlugIns.Broker/PlugInBroker.cs:277-291 | the first equal entry is the one removed; the others keep their order |
| `Directory.RegisterThenUnregister` | ArchBench.PlugIns.Broker/PlugInBroker.cs:246-292 | registering an unlisted descriptor and deregistering it restores the list |
| `Directory.ReRegisterReorders` | ArchBench.PlugIns.Broker/PlugInBroker.cs:250-261 | a descriptor listed once, anywhere after the first entry, is appended again, and deregistering it then removes the earlier copy, so the list comes back with it moved to the end |
| `Directory.SwappedFieldsSuppressed` | ArchBench.PlugIns.Broker/PlugInBroker.cs:252 | a descriptor with address and path swapped, and port and id swapped, counts as a duplicate of a one-entry list |
| `Directory.NextIndex` | ArchBench.PlugIns.Broker/PlugInBroker.cs:235 | the next position lies in the directory; it is one past the cursor, or 0 after the last entry |
| `Directory.RoundRobinOrder` | ArchBench.PlugIns.Broker/PlugInBroker.cs:232-237 | from cursor 0, the k-th pick over n entries is k mod n: 1, 2, ..., n-1, 0, ... |
| `ControlFrame.Received` | ArchBench.PlugIns.Broker/PlugInBroker.cs:204-207 | an empty read does nothing; a listed descriptor never holds ':' in its address or path |
| `ControlFrame.ReceivedIgnoresExtra` | ArchBench.PlugIns.Broker/PlugInBroker.cs:204 | bytes past the 256-byte buffer do not change what a connection does |
| `ControlFrame.Decode` | ArchBench.PlugIns.Broker/PlugInBroker.cs:208-217 | an empty frame is ignored; a decoded descriptor never holds ':' in its address or path |
| `ControlFrame.DecodeParts` | ArchBench.PlugIns.Broker/PlugInBroker.cs:208-217 | a frame is ignored iff its opcode is neither '+' nor '-'; it registers (or deregisters) iff the opcode is '+' (or '-') and the pieces hold five fields with numeric port and id; the descriptor is fields 1 to 4 in that order; every other frame is an error |
| `ControlFrame.SplitFrame` | ArchBench.PlugIns.Broker/PlugInBroker.cs:208 | splitting a frame whose fields hold no ':' gives the fields back, in order |
| `ControlFrame.DecodeFields` | ArchBench.PlugIns.Broker/PlugInBroker.cs:209-216 | `+:a:p:i:m` and `-:a:p:i:m` with numeric p and i decode to that descriptor; pieces after the fifth are ignored |
| `ControlFrame.OtherOpcodeIgnored` | ArchBench.PlugIns.Broker/PlugInBroker.cs:209-217 | a frame whose first character is neither '+' nor '-' is ignored (one starting with ':' has an empty opcode), whatever follows |
| `ControlFrame.DecodeNotANumber` | ArchBench.PlugIns.Broker/PlugInBroker.cs:212 | a '+' or '-' frame whose port or id is not an Int32 raises a parse exception |
| `Dispatch.Route` | ArchBench.PlugIns.Broker/PlugInBroker.cs:52-70 | the request faults iff the mount path has no '/'; it is forwarded to `http://address:port{path}` iff the text before the first '.' has 3 '/'-segments and the middle one equals segment 1 of the mount path (the name after its leading '/'); it is media iff the path has a '.'; otherwise the not-found message (3 segments) or an empty message is written, followed by a newline |
| `Dispatch.ProcessContinue` | ArchBench.PlugIns.Broker/PlugInBroker.cs:85-102 | forwards to a non-empty URL, as media when the '.'-split gave more than one piece and as html otherwise; with no URL, writes the message and a line terminator |
| `Dispatch.MountedSegments` | ArchBench.PlugIns.Broker/PlugInBroker.cs:53-55 | `/{mount}/{file}.ext` has the segments "", mount, file |
| `Dispatch.ForwardsMountedFile` | ArchBench.PlugIns.Broker/PlugInBroker.cs:87-96 | a request for a file under the backend's mount is forwarded to it: as html without an extension, as media with one |
| `Dispatch.OtherMountNotFound` | ArchBench.PlugIns.Broker/PlugInBroker.cs:60-65 | a request under another mount gets the not-found message and a newline |
| `Dispatch.FormHeaders` | ArchBench.PlugIns.Broker/PlugInBroker.cs:165-175 | one header per form item |
| `Dispatch.FormHeaderOfPair` | ArchBench.PlugIns.Broker/PlugInBroker.cs:169-174 | a trimmed item `name=value` becomes the header `name: value` |
| `Dispatch.FormHeaderShape` | ArchBench.PlugIns.Broker/PlugInBroker.cs:169-172 | the name is the trimmed item up to its first '=' and the value the text after its last '='; neither holds '='; an item without '=' gives its trimmed text as both |
| `Broker.ServeAppend` | ArchBench.PlugIns.Broker/PlugInBroker.cs:199-220 | serving two runs of frames one after the other is serving them at once, unless the first run ended the listener |
| `Broker.MalformedFrameStopsListener` | ArchBench.PlugIns.Broker/PlugInBroker.cs:222 | after a malformed frame the directory stays as it was before that frame, whatever frames follow |
| `Broker.Picks` | ArchBench.PlugIns.Broker/PlugInBroker.cs:49 | one backend per request |
| `Broker.ThreeBackendScenario` | ArchBench.PlugIns.Broker/PlugInBroker.cs:232-237 | three backends not covered by the first are listed in order, and the first four requests go to the second, third, first and second |
| `Broker.Broker.constructor` | ArchBench.PlugIns.Broker/PlugInBroker.cs:33-34 | the directory starts empty and the cursor at 0 |
| `Broker.Broker.GetNextServer` | ArchBench.PlugIns.Broker/PlugInBroker.cs:232-237 | -1 iff the directory is empty, leaving the cursor; otherwise the cursor moves to (cursor + 1) mod count, which lies in the directory, and that index is returned |
| `Broker.Broker.Regist` | ArchBench.PlugIns.Broker/PlugInBroker.cs:246-271 | the directory becomes its registration with the descriptor |
| `Broker.Broker.Unregist` | ArchBench.PlugIns.Broker/PlugInBroker.cs:273-292 | the loop removes the first positionally equal entry, so the directory becomes its deregistration |
| `Broker.Broker.Receive` | ArchBench.PlugIns.Broker/PlugInBroker.cs:204-218 | the directory becomes the effect of the frame's first 256 bytes; an error is returned exactly when the frame is malformed |
| `Broker.Broker.Listen` | ArchBench.PlugIns.Broker/PlugInBroker.cs:199-220 | the loop applies frames in order until the first exception |
| `Broker.Broker.Process` | ArchBench.PlugIns.Broker/PlugInBroker.cs:47-102 | not handled when the directory is empty; otherwise the cursor advances and the request is routed to the new pick; on a `Faulted` route the source throws and `handled` is false; a written message is added to the body and nothing else is |
| `Broker.GetFormValues` | ArchBench.PlugIns.Broker/PlugInBroker.cs:161-177 | the headers gain one header per form item, in order |
| `Broker.TryAddCookies` | ArchBench.PlugIns.Broker/PlugInBroker.cs:179-190 | the cookies gain one cookie per backend cookie, in order, with name, value and expiry |
| `BServers.Routing` | ArchBench.PlugIns.BServers/PlugInBServers.cs:45-65 | declined iff the last '/'-segment has no '.'; a file is served iff it has one and there are 2 or 3 segments; the extension is the second '.'-piece; the folder is segment 0 for 2 segments and `\` + segment 1 for 3 |
| `BServers.FileNamePieces` | ArchBench.PlugIns.BServers/PlugInBServers.cs:47 | `name.ext` splits into name and ext |
| `BServers.RoutesRootFile` | ArchBench.PlugIns.BServers/PlugInBServers.cs:56-58 | `/name.ext` is served from an empty folder |
| `BServers.RoutesMountedFile` | ArchBench.PlugIns.BServers/PlugInBServers.cs:60-63 | `/folder/name.ext` is served from folder `\folder` |
| `BServers.SkipsDeeperFile` | ArchBench.PlugIns.BServers/PlugInBServers.cs:56-65 | `/a/b/name.ext` is accepted and nothing is written for it |
| `BServers.ResponseAction` | ArchBench.PlugIns.BServers/PlugInBServers.cs:68-85 | html is read as text; png and jpg are sent as `image/<ext>` and mp4 as `video/mp4`; any other extension writes nothing; the file is `FilePath + folder + "\" + last` |
| `BServers.JoinLinesIsJoin` | ArchBench.PlugIns.BServers/PlugInBServers.cs:209-212 | the accumulated text is the lines joined by "\n" with an empty last piece |
| `BServers.SplitJoinedLines` | ArchBench.PlugIns.BServers/PlugInBServers.cs:209-212 | splitting the accumulated text on "\n" gives the lines and one empty piece |
| `BServers.StringRecord` | ArchBench.PlugIns.BServers/PlugInBServers.cs:117 | a short string is written as a single length byte followed by its characters, which decode back to the string |
| `BServers.NotFoundFallback` | ArchBench.PlugIns.BServers/PlugInBServers.cs:87-120 | a missing or empty page and missing media give the fixed not-found body; for media it is a one-byte length (28) followed by the 28 characters of the message, with no content type; media present always set their content type |
| `BServers.ServesMountedPage` | ArchBench.PlugIns.BServers/PlugInBServers.cs:60-73 | `/folder/name.html` is read from `FilePath\folder\name.html`, and the not-found text is sent when that file is missing |
| `BServers.ServesRootImage` | ArchBench.PlugIns.BServers/PlugInBServers.cs:75-78 | `/name.png` is read from `FilePath\name.png` and sent as image/png |
| `BServers.CheckErrorBroker` | ArchBench.PlugIns.BServers/PlugInBServers.cs:153-180 | accepted iff the address is not empty, splits into exactly two pieces and the second parses; the port is that number on success and 0 on failure |
| `BServers.AcceptsHostAndPort` | ArchBench.PlugIns.BServers/PlugInBServers.cs:129-134 | `host:port` with a host free of ':' is accepted with that port, and the connection goes to that host |
| `BServers.RefusesSeveralColons` | ArchBench.PlugIns.BServers/PlugInBServers.cs:162-168 | an address with two ':' is refused |
| `BServers.FirstIPv4` | ArchBench.PlugIns.BServers/PlugInBServers.cs:191-199 | the first IPv4 address of the list, or 0.0.0.0 when there is none |
| `BServers.GetAddress` | ArchBench.PlugIns.BServers/PlugInBServers.cs:193-198 | the search loop returns the first IPv4 address |
| `BServers.RegistrationFrame` | ArchBench.PlugIns.BServers/PlugInBServers.cs:135-138 | the frame starts with "+:" when enabling and "-:" when disabling, and has at least five characters |
| `BServers.RegistrationOutcome` | ArchBench.PlugIns.BServers/PlugInBServers.cs:126-145 | a frame is sent only on a change of state over a connection that succeeded; the full conditions are in `RegistrationSends` |
| `BServers.RegistrationSends` | ArchBench.PlugIns.BServers/PlugInBServers.cs:126-145 | nothing happens iff the requested state is the current one; a frame is sent iff the state changes, the address is valid, the port is in 0..65535 and the connection succeeds; the frame announces the requested state |
| `BServers.Server.constructor` | ArchBench.PlugIns.BServers/PlugInBServers.cs:25 | the plug-in starts off service, with nothing sent |
| `BServers.Server.ServerRegistration` | ArchBench.PlugIns.BServers/PlugInBServers.cs:122-151 | the state becomes the requested one even when validation then fails; exactly the frames reported as sent are written |
| `BServers.Server.ReadFile` | ArchBench.PlugIns.BServers/PlugInBServers.cs:201-221 | the loop returns every line followed by "\n", or null for a missing file |
| `BServers.Server.SendResponseStream` | ArchBench.PlugIns.BServers/PlugInBServers.cs:87-102 | writes the text, or the not-found message for a null or empty text |
| `BServers.Server.SendResponseBinary` | ArchBench.PlugIns.BServers/PlugInBServers.cs:104-120 | writes the bytes and sets the content type, or writes the not-found record and leaves the content type |
| `BServers.Server.ProcessResponse` | ArchBench.PlugIns.BServers/PlugInBServers.cs:68-85 | writes and sets what the extension's action gives |
| `BServers.Server.Process` | ArchBench.PlugIns.BServers/PlugInBServers.cs:43-66 | the Id and NumAccess cookies are always added first; declined iff the last segment has no '.'; the body and content type follow the routing |
| `Protocol.FrameRoundTrip` | ArchBench.PlugIns.BServers/PlugInBServers.cs:135-139 | a well-formed ASCII frame of at most 256 bytes is read by the Broker as the backend's own descriptor: registered when enabling, deregistered when disabling |
| `Protocol.RegistrationReachesDirectory` | ArchBench.PlugIns.BServers/PlugInBServers.cs:134-145 | a sent frame registers or deregisters the backend in the Broker's directory |
| `Protocol.LongFrameTruncatesPath` | ArchBench.PlugIns.Broker/PlugInBroker.cs:197-207 | a frame longer than 256 bytes, cut inside the path, registers the backend under the cut path |

## Left out

- Sockets, the accept loop and thread startup are left out: `TcpListener`, `AcceptTcpClient`, `TcpClient` connections, streams, `Listener.Stop`. A connection is modelled as the bytes the backend sent; one `Read` is assumed to deliver the first min(|sent|, 256) of them, so a short read is not modelled. A failed connection is a flag.
- Concurrency is left out. The listener thread and concurrent request handlers race on the directory and the cursor; each model operation is atomic.
- The directory is a static list shared by every Broker instance; the model gives each instance its own.
- Outbound HTTP is left out: `ProcessMedia`, `ProcessHtml`, the `WebException` handler, and relaying status, content type, cookies and body. The model stops at the `Forwarded` decision (URL and kind). `GetFormValues` and `TryAddCookies` are modelled on their own, with the form items and backend cookies as inputs.
- File system, DNS, logging, clock and session are left out. File contents, the host address list, the cookie expiry time and the session id and count are parameters. The culture-dependent date parsing in `AddCookie` is not modelled. A failed DNS lookup in `GetAddress` is not modelled either: its `SocketException` is raised after the `TcpClient` has connected, is caught in `ServerRegistration`, and leaves the state switched with no frame sent, whereas `RegistrationOutcome` with a successful connection always sends.
- Only a missing file is modelled among IO failures. Other IO errors, such as a missing folder (`DirectoryNotFoundException`, not caught), are not.
- A short read in `ReadMedia` is not modelled; media bytes are the whole file.
- Text encoding is not modelled: the UTF-8 encoding of `StreamWriter` writes and the decoding in `StreamReader`. Text writes keep their characters. `BServers.StringRecord` covers only the short ASCII not-found message.
- The host framework's `HttpServer` library is not part of this model. `HttpInputItem.ToString` gives the item text as an input, and `AddHeader` and `Cookies.Add` are appends.
- Characters are Unicode scalar values, so surrogate pairs are not modelled. `Encoding.ASCII` maps every non-ASCII character to '?', which the model applies per character.
- Plug-in metadata, `Initialize` defaults, `Dispose` and the `Settings` store are left out; settings are one immutable value.
- `Broker.Broker.Unregist`: the entry-count guard is left out of the loop. Every list built by `Server` has four elements, so the guard never returns.
- `Dispatch.FormHeaders` only states the header count; the meaning of each header is in `Dispatch.FormHeaderOfPair` and `Dispatch.FormHeaderShape`.
- `Broker.Picks` only states its length; the pick order is in `Directory.RoundRobinOrder`.
- An exception escaping the listener thread ends the whole process on .NET; `Broker.Broker.Listen` instead returns it and the Broker object keeps serving, so process termination is not modelled.
- `int.Parse` and `int.TryParse` use the current culture; the model reads numbers as the invariant culture does (surrounding white space, trailing NULs, an optional leading '+' or '-', then ASCII digits).
- The backend reads `DateTime.Now` once for each of its two session cookies; the model gives both cookies one expiry value.
