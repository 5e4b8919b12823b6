/** What the Broker's `Process` / `ProcessContinue` decide for a request path once a
    backend has been selected, and the header `GetFormValues` derives from a form item. */
module Dispatch {
  import opened Text
  import opened Http
  import opened Directory

  const ServerNotFound: string := "<b>SERVER NOT FOUND</b>"

  /** Environment.NewLine as StreamWriter.WriteLine writes it on Windows, the platform the
      plug-ins are configured for. */
  const NewLine: string := "\r\n"

  datatype Kind = Media | Html

  datatype Decision =
    | NotHandled                        // Process returns false
    | Written(text: string)             // StandardWriter writes the message
    | Forwarded(url: string, kind: Kind)  // ProcessMedia or ProcessHtml calls the backend
    | Faulted                           // IndexOutOfRangeException, not caught

  /** `StandardWriter`: the text followed by a line terminator. */
  function StandardWriter(text: string): string {
    text + NewLine
  }

  /** The '/'-segments of the part of the path before its first '.'. */
  function UrlServer(path: string): seq<string> {
    Split(Split(path, '.')[0], '/')
  }

  /** The address the request goes to: `http://{address}:{port}{path}`. */
  function TargetUrl(b: Backend, path: string): string {
    "http://" + b.address + ":" + IntToString(b.port) + path
  }

  /** `ProcessContinue`: forward when there is a URL, as media when the path had a '.',
      otherwise write the message. */
  function ProcessContinue(url: string, extension: seq<string>, message: string): (d: Decision)
    ensures d.Forwarded? <==> url != ""
    ensures d.Forwarded? ==> d.url == url && (d.kind == Media <==> |extension| != 1)
    ensures d.Written? <==> url == ""
    ensures d.Written? ==> d.text == message + NewLine
  {
    if url != "" then Forwarded(url, if |extension| != 1 then Media else Html)
    else Written(StandardWriter(message))
  }

  /** The body of `Process` after `GetNextServer` picked `b`. Segment 1 of the mount path is
      read before anything else, so a mount path without '/' throws. */
  function Route(path: string, b: Backend): (d: Decision)
    ensures d.Faulted? <==> '/' !in b.path
    ensures d.Forwarded? <==>
      && |Split(b.path, '/')| >= 2
      && |UrlServer(path)| == 3 && UrlServer(path)[1] == Split(b.path, '/')[1]
    ensures d.Forwarded? ==> d.url == TargetUrl(b, path) && (d.kind == Media <==> '.' in path)
    ensures d.Written? ==>
      d.text == (if |UrlServer(path)| == 3 then ServerNotFound else "") + NewLine
    ensures !d.NotHandled?
  {
    var urlExtension := Split(path, '.');
    var urlServer := Split(urlExtension[0], '/');
    var mount := Split(b.path, '/');
    SplitSingle(b.path, '/');
    SplitSingle(path, '.');
    if |mount| < 2 then Faulted
    else
      var server := mount[1];
      var url := if |urlServer| == 3 && urlServer[1] == server then TargetUrl(b, path) else "";
      var message := if |urlServer| == 3 && urlServer[1] != server then ServerNotFound else "";
      ProcessContinue(url, urlExtension, message)
  }

  /** The segments of `/{mount}/{file}` followed by an extension part. */
  lemma MountedSegments(mount: string, file: string, rest: string)
    requires '/' !in mount && '.' !in mount && '/' !in file && '.' !in file
    requires rest == [] || rest[0] == '.'
    ensures UrlServer("/" + mount + "/" + file + rest) == ["", mount, file]
  {
    var a := "/" + mount + "/" + file;
    assert '.' !in a;
    assert a + rest == "/" + mount + "/" + file + rest;
    SplitFirstPiece(a, rest, '.');
    assert a == [] + ['/'] + (mount + "/" + file);
    SplitAppend([], mount + "/" + file, '/');
    SplitAppend(mount, file, '/');
    SplitNoSep(file, '/');
  }

  /** A request for `/{mount}/{file}{rest}` whose mount segment is that of the chosen
      backend is forwarded to the backend, as html when nothing follows the file name and
      as media when an extension does. */
  lemma ForwardsMountedFile(b: Backend, mount: string, file: string, rest: string)
    requires |Split(b.path, '/')| >= 2 && Split(b.path, '/')[1] == mount
    requires '/' !in mount && '.' !in mount && '/' !in file && '.' !in file
    requires rest == [] || rest[0] == '.'
    ensures var path := "/" + mount + "/" + file + rest;
      Route(path, b) == Forwarded(TargetUrl(b, path), if rest == [] then Html else Media)
  {
    var path := "/" + mount + "/" + file + rest;
    MountedSegments(mount, file, rest);
    if rest == [] {
      assert '.' !in path;
    } else {
      assert path[|path| - |rest|] == '.';
    }
  }

  /** The same request aimed at another mount segment gets the not-found message. */
  lemma OtherMountNotFound(b: Backend, mount: string, file: string, rest: string)
    requires |Split(b.path, '/')| >= 2 && Split(b.path, '/')[1] != mount
    requires '/' !in mount && '.' !in mount && '/' !in file && '.' !in file
    requires rest == [] || rest[0] == '.'
    ensures Route("/" + mount + "/" + file + rest, b) == Written(ServerNotFound + NewLine)
  {
    MountedSegments(mount, file, rest);
  }

  // ---------------------------------------------------------------------------
  // Form echo

  /** The header `GetFormValues` adds for one form item: the text before the first '=' of
      the trimmed item, and the text after its last '='. */
  function FormHeader(item: string): Header {
    var items := Split(Trim(item), '=');
    Header(items[0], Last(items))
  }

  /** One header per form item, in order. */
  function FormHeaders(form: seq<string>): (hs: seq<Header>)
    ensures |hs| == |form|
  {
    seq(|form|, k requires 0 <= k < |form| => FormHeader(form[k]))
  }

  /** An item `name=value` is echoed as the header `name: value`. */
  lemma FormHeaderOfPair(item: string, name: string, value: string)
    requires Trim(item) == name + "=" + value
    requires '=' !in name && '=' !in value
    ensures FormHeader(item) == Header(name, value)
  {
    SplitAppend(name, value, '=');
    SplitNoSep(value, '=');
  }

  /** In general the name is the prefix of the trimmed item up to its first '=', and the
      value the suffix after its last '='; an item without '=' gives its whole trimmed text
      as both. */
  lemma FormHeaderShape(item: string)
    ensures var t, h := Trim(item), FormHeader(item);
      && '=' !in h.name && '=' !in h.value
      && |h.name| <= |t| && t[..|h.name|] == h.name
      && |h.value| <= |t| && t[|t| - |h.value|..] == h.value
      && ('=' in t ==> |h.name| < |t| && t[|h.name|] == '=')
      && ('=' in t ==> |h.value| < |t| && t[|t| - |h.value| - 1] == '=')
      && ('=' !in t ==> h.name == t && h.value == t)
  {
    var t, h := Trim(item), FormHeader(item);
    var items := Split(t, '=');
    assert h == Header(items[0], Last(items));
    assert '=' !in h.name && '=' !in h.value;
    assert |h.name| <= |t| && t[..|h.name|] == h.name
        && ('=' in t ==> |h.name| < |t| && t[|h.name|] == '=') by {
      SplitHead(t, '=');
      SplitSingle(t, '=');
    }
    assert |h.value| <= |t| && t[|t| - |h.value|..] == h.value
        && ('=' in t ==> |h.value| < |t| && t[|t| - |h.value| - 1] == '=') by {
      SplitTail(t, '=');
      SplitSingle(t, '=');
    }
    if '=' !in t {
      SplitNoSep(t, '=');
    }
  }
}
