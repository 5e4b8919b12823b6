/** The backend plug-in (PlugInBServers): serving files under its folder, and registering
    itself with the Broker when it is enabled or disabled. */
module BServers {
  import opened Text
  import opened Http
  import opened ControlFrame

  const NotFound: string := "<b>Error: File not Found</b>"

  /** What `GetAddress` answers when the host has no IPv4 address. */
  const AnyAddress: string := "0.0.0.0"

  /** The settings the plug-in reads: `BrokerAddress`, `BrokerServerPort`, `Path`, `Id` and
      `FilePath`, all text. */
  datatype Settings = Settings(brokerAddress: string, brokerServerPort: string, path: string,
                               id: string, filePath: string)

  /** The session values the cookies carry: its id and its count. */
  datatype Session = Session(id: string, count: int)

  /** The files the plug-in can open, by full path: text files as the lines StreamReader
      reads from them, media files as their bytes. */
  datatype Disk = Disk(lines: map<string, seq<string>>, media: map<string, seq<Byte>>)

  // ---------------------------------------------------------------------------
  // Routing of a request path

  datatype Target =
    | Declined                                             // Process returns false
    | Respond(extension: string, last: string, server: string)  // ProcessResponse is called
    | Skipped                                              // true, nothing written

  /** The branches of `Process` on the '/'-segments of the path and the '.'-pieces of its
      last segment. */
  function Routing(path: string): (t: Target)
    ensures t.Declined? <==> '.' !in Last(Split(path, '/'))
    ensures t.Respond? <==> '.' in Last(Split(path, '/')) && 2 <= |Split(path, '/')| <= 3
    ensures t.Respond? ==> t.last == Last(Split(path, '/'))
    ensures t.Respond? ==>
      |Split(t.last, '.')| >= 2 && t.extension == Split(t.last, '.')[1]
    ensures t.Respond? && |Split(path, '/')| == 2 ==> t.server == Split(path, '/')[0]
    ensures t.Respond? && |Split(path, '/')| == 3 ==> t.server == "\\" + Split(path, '/')[1]
  {
    var splitUri := Split(path, '/');
    var lastOfUri := Last(splitUri);
    var extension := Split(lastOfUri, '.');
    SplitSingle(lastOfUri, '.');
    if |extension| == 1 then Declined
    else if |splitUri| == 2 then Respond(extension[1], lastOfUri, splitUri[0])
    else if |splitUri| == 3 then Respond(extension[1], lastOfUri, "\\" + splitUri[1])
    else Skipped
  }

  /** `name.ext` split on '.'. */
  lemma FileNamePieces(name: string, ext: string)
    requires '.' !in name && '.' !in ext
    ensures Split(name + "." + ext, '.') == [name, ext]
  {
    assert name + "." + ext == name + ['.'] + ext;
    SplitAppend(name, ext, '.');
    SplitNoSep(ext, '.');
  }

  /** A file directly under the root is looked up with an empty server folder. */
  lemma RoutesRootFile(name: string, ext: string)
    requires '.' !in name && '.' !in ext && '/' !in name && '/' !in ext
    ensures Routing("/" + name + "." + ext) == Respond(ext, name + "." + ext, "")
  {
    var file := name + "." + ext;
    assert '/' !in file;
    assert "/" + name + "." + ext == "/" + file == [] + ['/'] + file;
    SplitAppend([], file, '/');
    SplitNoSep(file, '/');
    FileNamePieces(name, ext);
  }

  /** A file one folder down is looked up in `\{folder}`. */
  lemma RoutesMountedFile(folder: string, name: string, ext: string)
    requires '/' !in folder
    requires '.' !in name && '.' !in ext && '/' !in name && '/' !in ext
    ensures Routing("/" + folder + "/" + name + "." + ext)
         == Respond(ext, name + "." + ext, "\\" + folder)
  {
    var file := name + "." + ext;
    assert '/' !in file;
    assert "/" + folder + "/" + name + "." + ext == "/" + folder + "/" + file
        == [] + ['/'] + (folder + ['/'] + file);
    SplitAppend([], folder + ['/'] + file, '/');
    SplitAppend(folder, file, '/');
    SplitNoSep(file, '/');
    FileNamePieces(name, ext);
  }

  /** A file two folders down is accepted and nothing is written for it. */
  lemma SkipsDeeperFile(a: string, b: string, name: string, ext: string)
    requires '/' !in a && '/' !in b
    requires '.' !in name && '.' !in ext && '/' !in name && '/' !in ext
    ensures Routing("/" + a + "/" + b + "/" + name + "." + ext) == Skipped
  {
    var file := name + "." + ext;
    assert '/' !in file;
    assert "/" + a + "/" + b + "/" + name + "." + ext == "/" + a + "/" + b + "/" + file
        == [] + ['/'] + (a + ['/'] + (b + ['/'] + file));
    SplitAppend([], a + ['/'] + (b + ['/'] + file), '/');
    SplitAppend(a, b + ['/'] + file, '/');
    SplitAppend(b, file, '/');
    SplitNoSep(file, '/');
    FileNamePieces(name, ext);
  }

  // ---------------------------------------------------------------------------
  // Extension mapping and the replies

  datatype Action = SendText(file: string) | SendMedia(file: string, contentType: string) | NoAction

  /** `ProcessResponse`: html is read as text; png, jpg and mp4 are read as bytes and sent
      with their content type; anything else writes nothing. */
  function ResponseAction(extension: string, last: string, server: string, filePath: string)
    : (a: Action)
    ensures a.SendText? <==> extension == "html"
    ensures a.SendMedia? <==> extension == "png" || extension == "jpg" || extension == "mp4"
    ensures a.SendMedia? && extension != "mp4" ==> a.contentType == "image/" + extension
    ensures a.SendMedia? && extension == "mp4" ==> a.contentType == "video/mp4"
    ensures !a.NoAction? ==> a.file == filePath + server + "\\" + last
  {
    var file := filePath + server + "\\" + last;
    if extension == "html" then SendText(file)
    else if extension == "png" || extension == "jpg" then SendMedia(file, "image/" + extension)
    else if extension == "mp4" then SendMedia(file, "video/" + extension)
    else NoAction
  }

  /** Every line followed by "\n", the text `ReadFile` accumulates. */
  function JoinLines(lines: seq<string>): string
    decreases |lines|
  {
    if lines == [] then "" else JoinLines(lines[..|lines| - 1]) + lines[|lines| - 1] + "\n"
  }

  /** The accumulated text is the lines joined by "\n" with an empty last piece ... */
  lemma {:induction false} JoinLinesIsJoin(lines: seq<string>)
    ensures JoinLines(lines) == Join(lines + [""], '\n')
    decreases |lines|
  {
    if lines != [] {
      var init, x := lines[..|lines| - 1], lines[|lines| - 1];
      assert lines == init + [x];
      JoinLinesIsJoin(init);
      assert lines + [""] == (init + [x]) + [""];
      JoinSnoc(init + [x], "", '\n');
      if init != [] {
        JoinSnoc(init, "", '\n');
        JoinSnoc(init, x, '\n');
      }
    }
  }

  /** ... so splitting it on "\n" gives the lines back, and an empty piece after the
      final terminator. */
  lemma SplitJoinedLines(lines: seq<string>)
    requires forall k :: 0 <= k < |lines| ==> '\n' !in lines[k]
    ensures Split(JoinLines(lines), '\n') == lines + [""]
  {
    JoinLinesIsJoin(lines);
    var parts := lines + [""];
    assert forall k :: 0 <= k < |parts| ==> '\n' !in parts[k] by {
      forall k | 0 <= k < |parts| ensures '\n' !in parts[k] {
        if k < |lines| { assert parts[k] == lines[k]; }
      }
    }
    JoinSplit(parts, '\n');
  }

  /** `ReadFile` on the disk: the joined lines, or null (None) when there is no such file. */
  function FileText(disk: Disk, file: string): Option<string> {
    if file in disk.lines then Some(JoinLines(disk.lines[file])) else None
  }

  /** `ReadMedia` on the disk. */
  function MediaBytes(disk: Disk, file: string): Option<seq<Byte>> {
    if file in disk.media then Some(disk.media[file]) else None
  }

  /** What a reply does to the response: the content type it assigns, if any, and what it
      writes to the body. */
  datatype Reply = Reply(contentType: Option<string>, writes: seq<BodyWrite>)

  /** `BinaryWriter.Write(string)` for a short ASCII string: a one-byte length, then the
      characters. */
  function StringRecord(s: string): (bytes: seq<Byte>)
    requires IsAscii(s) && |s| < 128
    ensures |bytes| == |s| + 1 && bytes[0] == |s|
    ensures AsciiDecode(bytes[1..]) == s
  {
    AsciiRoundTrip(s);
    assert ([|s|] + AsciiEncode(s))[1..] == AsciiEncode(s);
    [|s|] + AsciiEncode(s)
  }

  /** `SendResponseStream`: the text, or the not-found message when it is null or empty. */
  function TextReply(text: Option<string>): Reply {
    if text.Some? && text.value != "" then Reply(None, [Text(text.value)])
    else Reply(None, [Text(NotFound)])
  }

  /** `SendResponseBinary`: the bytes with their content type, or the not-found message
      written as a length-prefixed string and no content type. */
  function BinaryReply(bytes: Option<seq<Byte>>, contentType: string): Reply {
    if bytes.Some? then Reply(Some(contentType), [Binary(bytes.value)])
    else Reply(None, [Binary(StringRecord(NotFound))])
  }

  /** Where nothing is there to send, the reply is the fixed not-found body: as text for
      pages (also for an empty page), and for media as a one-byte length (28) followed by
      the 28 characters, with no content type. */
  lemma NotFoundFallback(contentType: string)
    ensures TextReply(None) == TextReply(Some("")) == Reply(None, [Text(NotFound)])
    ensures var r := BinaryReply(None, contentType);
      && r.contentType == None && |r.writes| == 1 && r.writes[0].Binary?
      && r.writes[0].bytes[0] == 28 && AsciiDecode(r.writes[0].bytes[1..]) == NotFound
    ensures forall bytes :: BinaryReply(Some(bytes), contentType).contentType == Some(contentType)
  {
    var rec := StringRecord(NotFound);
    assert rec[1..] == AsciiEncode(NotFound);
    AsciiRoundTrip(NotFound);
  }

  /** The reply for an action. */
  function ActionReply(a: Action, disk: Disk): Reply {
    match a
    case SendText(file) => TextReply(FileText(disk, file))
    case SendMedia(file, contentType) => BinaryReply(MediaBytes(disk, file), contentType)
    case NoAction => Reply(None, [])
  }

  /** The reply `Process` makes to a path after the two cookies. */
  function PathReply(path: string, filePath: string, disk: Disk): Reply {
    match Routing(path)
    case Respond(extension, last, server) =>
      ActionReply(ResponseAction(extension, last, server, filePath), disk)
    case _ => Reply(None, [])
  }

  /** A page one folder down is read from `{FilePath}\{folder}\{name}.html`, and the
      not-found message is sent when that file is missing. */
  lemma ServesMountedPage(folder: string, name: string, filePath: string, disk: Disk)
    requires '/' !in folder && '.' !in name && '/' !in name
    ensures var file := filePath + "\\" + folder + "\\" + name + ".html";
      && PathReply("/" + folder + "/" + name + ".html", filePath, disk)
           == TextReply(FileText(disk, file))
      && (file !in disk.lines ==>
            PathReply("/" + folder + "/" + name + ".html", filePath, disk).writes == [Text(NotFound)])
  {
    RoutesMountedFile(folder, name, "html");
    assert "/" + folder + "/" + name + "." + "html" == "/" + folder + "/" + name + ".html";
    assert filePath + ("\\" + folder) + "\\" + (name + "." + "html")
        == filePath + "\\" + folder + "\\" + name + ".html";
  }

  /** An image directly under the root is read from `{FilePath}\{name}.png` and sent as
      image/png. */
  lemma ServesRootImage(name: string, filePath: string, disk: Disk)
    requires '.' !in name && '/' !in name
    ensures PathReply("/" + name + ".png", filePath, disk)
         == BinaryReply(MediaBytes(disk, filePath + "\\" + name + ".png"), "image/png")
  {
    RoutesRootFile(name, "png");
    assert "/" + name + "." + "png" == "/" + name + ".png";
    assert "image/" + "png" == "image/png";
    assert filePath + "" + "\\" + (name + "." + "png") == filePath + "\\" + name + ".png";
  }

  // ---------------------------------------------------------------------------
  // Broker address and local address

  /** The outcome of `checkErrorBroker`: whether the address is usable, and `brokerPort`. */
  datatype BrokerPort = BrokerPort(ok: bool, port: Int32)

  /** `checkErrorBroker(parts, out brokerPort)`, where `parts` is the address split on ':'. */
  function CheckErrorBroker(address: string, parts: seq<string>): (r: BrokerPort)
    ensures r.ok <==> address != "" && |parts| == 2 && ParseInt32(parts[1]).Some?
    ensures r.ok ==> r.port == ParseInt32(parts[1]).value
    ensures !r.ok ==> r.port == 0
  {
    if address == "" then BrokerPort(false, 0)
    else if |parts| != 2 then BrokerPort(false, 0)
    else match ParseInt32(parts[1])
      case None => BrokerPort(false, 0)
      case Some(port) => BrokerPort(true, port)
  }

  /** An address `host:port` with a host free of ':' is accepted with that port. */
  lemma AcceptsHostAndPort(host: string, port: Int32)
    requires ':' !in host
    ensures var address := host + ":" + IntToString(port);
      CheckErrorBroker(address, Split(address, ':')) == BrokerPort(true, port)
      && Split(address, ':')[0] == host
  {
    var text := IntToString(port);
    assert ':' !in text by {
      if port >= 0 { assert AllDigits(NatToString(port)); }
      else { assert AllDigits(NatToString(0 - port)); }
    }
    SplitAppend(host, text, ':');
    SplitNoSep(text, ':');
    ParseIntToString(port);
  }

  /** An address with more than one ':' (an IPv6 literal, say) is refused. */
  lemma RefusesSeveralColons(address: string, k: nat, j: nat)
    requires k < j < |address| && address[k] == ':' && address[j] == ':'
    ensures !CheckErrorBroker(address, Split(address, ':')).ok
  {
    SplitTwoSeparators(address, ':', k, j);
  }

  datatype Family = InterNetwork | InterNetworkV6 | OtherFamily

  datatype IpAddress = IpAddress(family: Family, text: string)

  /** The address `GetAddress` answers for a host address list: its first IPv4 address. */
  function FirstIPv4(list: seq<IpAddress>): (a: string)
    ensures (forall k :: 0 <= k < |list| ==> list[k].family != InterNetwork) ==> a == AnyAddress
    ensures (exists k :: 0 <= k < |list| && list[k].family == InterNetwork) ==>
      exists k :: 0 <= k < |list| && list[k].family == InterNetwork && a == list[k].text
        && forall j :: 0 <= j < k ==> list[j].family != InterNetwork
    decreases |list|
  {
    if list == [] then AnyAddress
    else if list[0].family == InterNetwork then list[0].text
    else
      var a := FirstIPv4(list[1..]);
      assert forall k :: 1 <= k < |list| ==> list[k] == list[1..][k - 1];
      a
  }

  /** `GetAddress`: the search loop over the host's addresses. */
  method GetAddress(addressList: seq<IpAddress>) returns (address: string)
    ensures address == FirstIPv4(addressList)
  {
    var i := 0;
    while i < |addressList|
      invariant 0 <= i <= |addressList|
      invariant FirstIPv4(addressList) == FirstIPv4(addressList[i..])
    {
      var ip := addressList[i];
      assert addressList[i..][0] == ip && addressList[i..][1..] == addressList[i + 1..];
      if ip.family == InterNetwork {
        return ip.text;
      }
      i := i + 1;
    }
    return AnyAddress;
  }

  // ---------------------------------------------------------------------------
  // Registration with the Broker

  /** The connection's frame: the opcode, then the local address, `BrokerServerPort`, `Id`
      and `Path`, separated by ':'. */
  function RegistrationFrame(enable: bool, address: string, settings: Settings): (r: string)
    ensures |r| >= 5 && r[..2] == (if enable then "+:" else "-:")
  {
    var op := if enable then "+" else "-";
    var rest := address + ":" + settings.brokerServerPort + ":" + settings.id + ":" + settings.path;
    FrameAssoc(op, address, settings.brokerServerPort, settings.id, settings.path, "");
    assert FrameText(op, address, settings.brokerServerPort, settings.id, settings.path)
        == (op + ":") + rest;
    assert ((op + ":") + rest)[..2] == op + ":";
    FrameText(op, address, settings.brokerServerPort, settings.id, settings.path)
  }

  /** The highest port TcpClient accepts (IPEndPoint.MaxPort). */
  const MaxPort: int := 65535

  datatype Registration =
    | Unchanged                // the requested state is the current one
    | InvalidBrokerAddress     // checkErrorBroker failed; logged
    | PortOutOfRange           // ArgumentOutOfRangeException from TcpClient, not caught
    | ConnectFailed            // SocketException; logged
    | Sent(frame: seq<Byte>)   // the frame was written to the Broker

  /** What `ServerRegistration(requested)` does when the plug-in is in state `current`,
      the host's addresses are `addressList`, and `connected` tells whether the
      connection to the Broker succeeds. */
  function RegistrationOutcome(current: bool, requested: bool, settings: Settings,
                               addressList: seq<IpAddress>, connected: bool): (r: Registration)
    ensures r.Sent? ==> requested != current && connected
  {
    if requested == current then Unchanged
    else
      var parts := Split(settings.brokerAddress, ':');
      var check := CheckErrorBroker(settings.brokerAddress, parts);
      if !check.ok then InvalidBrokerAddress
      else if check.port < 0 || check.port > MaxPort then PortOutOfRange
      else if !connected then ConnectFailed
      else Sent(AsciiEncode(RegistrationFrame(requested, FirstIPv4(addressList), settings)))
  }

  /** A frame is sent exactly when the state changes, the broker address is valid with a
      port in range, and the connection succeeds; it announces the requested state. */
  lemma RegistrationSends(current: bool, requested: bool, settings: Settings,
                          addressList: seq<IpAddress>, connected: bool)
    ensures var r := RegistrationOutcome(current, requested, settings, addressList, connected);
      var check := CheckErrorBroker(settings.brokerAddress, Split(settings.brokerAddress, ':'));
      && (r.Unchanged? <==> requested == current)
      && (r.Sent? <==>
            requested != current && check.ok && 0 <= check.port <= MaxPort && connected)
      && (r.Sent? ==>
            r.frame == AsciiEncode(RegistrationFrame(requested, FirstIPv4(addressList), settings)))
  {
  }

  class Server {
    /** `ServerOnService`, which `Enabled` reads. */
    var serverOnService: bool
    /** The frames written to the Broker so far. */
    var sent: seq<seq<Byte>>
    const settings: Settings

    constructor (settings: Settings)
      ensures this.settings == settings && !serverOnService && sent == []
    {
      this.settings := settings;
      serverOnService := false;
      sent := [];
    }

    /** `ServerRegistration`, the setter of `Enabled`: the state is switched before the
        address is checked, so a refused address leaves the plug-in in the requested state
        with nothing sent. */
    method ServerRegistration(requested: bool, addressList: seq<IpAddress>, connected: bool)
      returns (r: Registration)
      modifies this`serverOnService, this`sent
      ensures r == RegistrationOutcome(old(serverOnService), requested, settings, addressList,
                                       connected)
      ensures serverOnService == requested
      ensures r.Sent? ==> sent == old(sent) + [r.frame]
      ensures !r.Sent? ==> sent == old(sent)
    {
      if requested == serverOnService {
        return Unchanged;
      }
      serverOnService := requested;
      var parts := Split(settings.brokerAddress, ':');
      var check := CheckErrorBroker(settings.brokerAddress, parts);
      if !check.ok {
        return InvalidBrokerAddress;
      }
      if check.port < 0 || check.port > MaxPort {
        return PortOutOfRange;
      }
      if !connected {
        return ConnectFailed;
      }
      var address := GetAddress(addressList);
      var data := AsciiEncode(RegistrationFrame(serverOnService, address, settings));
      sent := sent + [data];
      r := Sent(data);
    }

    /** `ReadFile`: the lines of the file, each followed by "\n"; null when it is missing. */
    method ReadFile(disk: Disk, file: string) returns (text: Option<string>)
      ensures text == FileText(disk, file)
    {
      if file !in disk.lines {
        return None;
      }
      var lines := disk.lines[file];
      var fileText := "";
      var i := 0;
      while i < |lines|
        invariant 0 <= i <= |lines|
        invariant fileText == JoinLines(lines[..i])
      {
        var fileLine := lines[i];
        assert lines[..i + 1][..i] == lines[..i];
        fileText := fileText + fileLine + "\n";
        i := i + 1;
      }
      assert lines[..i] == lines;
      return Some(fileText);
    }

    /** `SendResponseStream`. */
    method SendResponseStream(text: Option<string>, response: Response)
      modifies response`body
      ensures response.body == old(response.body) + TextReply(text).writes
    {
      if text.Some? && text.value != "" {
        response.Write(Text(text.value));
      } else {
        response.Write(Text(NotFound));
      }
    }

    /** `SendResponseBinary`. */
    method SendResponseBinary(bytes: Option<seq<Byte>>, response: Response, contentType: string)
      modifies response`body, response`contentType
      ensures response.body == old(response.body) + BinaryReply(bytes, contentType).writes
      ensures response.contentType ==
        if bytes.Some? then Some(contentType) else old(response.contentType)
    {
      if bytes.Some? {
        response.SetContentType(contentType);
        response.Write(Binary(bytes.value));
      } else {
        AsciiRecordBound();
        response.Write(Binary(StringRecord(NotFound)));
      }
    }

    /** `ProcessResponse`. */
    method ProcessResponse(extension: string, last: string, response: Response, server: string,
                           disk: Disk)
      modifies response`body, response`contentType
      ensures var r := ActionReply(ResponseAction(extension, last, server, settings.filePath), disk);
        && response.body == old(response.body) + r.writes
        && response.contentType == if r.contentType.Some? then r.contentType else old(response.contentType)
    {
      var file := settings.filePath + server + "\\" + last;
      if extension == "html" {
        var text := ReadFile(disk, file);
        SendResponseStream(text, response);
      } else if extension == "png" || extension == "jpg" {
        SendResponseBinary(MediaBytes(disk, file), response, "image/" + extension);
      } else if extension == "mp4" {
        SendResponseBinary(MediaBytes(disk, file), response, "video/" + extension);
      }
    }

    /** `Process`: the session cookies go out first, expiring at `expires`; then the path
        decides whether the request is taken and what is written. */
    method Process(path: string, session: Session, expires: int, disk: Disk, response: Response)
      returns (handled: bool)
      modifies response`cookies, response`body, response`contentType
      ensures response.cookies == old(response.cookies)
        + [Cookie("Id", session.id, expires), Cookie("NumAccess", IntToString(session.count), expires)]
      ensures handled <==> !Routing(path).Declined?
      ensures var r := PathReply(path, settings.filePath, disk);
        && response.body == old(response.body) + r.writes
        && response.contentType == if r.contentType.Some? then r.contentType else old(response.contentType)
    {
      var splitUri := Split(path, '/');
      var lastOfUri := Last(splitUri);
      var extension := Split(lastOfUri, '.');
      response.AddCookie(Cookie("Id", session.id, expires));
      response.AddCookie(Cookie("NumAccess", IntToString(session.count), expires));
      SplitSingle(lastOfUri, '.');
      if |extension| == 1 {
        return false;
      } else if |splitUri| == 2 {
        ProcessResponse(extension[1], lastOfUri, response, splitUri[0], disk);
      } else if |splitUri| == 3 {
        var middleOfUri := "\\" + splitUri[1];
        ProcessResponse(extension[1], lastOfUri, response, middleOfUri, disk);
      }
      return true;
    }
  }

  /** The not-found text is short ASCII. */
  lemma AsciiRecordBound()
    ensures IsAscii(NotFound) && |NotFound| == 28
  {
  }
}
