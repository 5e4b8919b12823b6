/** The Broker plug-in (PlugInBroker): the backend directory with its round-robin cursor,
    the control listener applying frames to it, and the handling of one HTTP request. */
module Broker {
  import opened Text
  import opened Http
  import opened Directory
  import opened ControlFrame
  import opened Dispatch

  /** What the listener has done after a run of connections: the directory, and the
      exception that ended it, if one did. */
  datatype Outcome = Outcome(directory: seq<Backend>, escaped: Option<FrameError>)

  /** The listener loop over the frames the connections deliver, in order: every frame is
      applied until one raises an exception, which nothing catches. */
  function Serve(s: seq<Backend>, frames: seq<seq<Byte>>): Outcome
    decreases |frames|
  {
    if frames == [] then Outcome(s, None)
    else
      var c := Received(frames[0]);
      if c.Malformed? then Outcome(s, Some(c.error))
      else Serve(Applied(s, c), frames[1..])
  }

  /** Serving two runs of connections one after the other is serving them in one go, unless
      the first run already ended the listener. */
  lemma {:induction false} ServeAppend(s: seq<Backend>, a: seq<seq<Byte>>, b: seq<seq<Byte>>)
    ensures Serve(s, a + b) ==
      if Serve(s, a).escaped.Some? then Serve(s, a) else Serve(Serve(s, a).directory, b)
    decreases |a|
  {
    if a != [] {
      assert (a + b)[0] == a[0] && (a + b)[1..] == a[1..] + b;
      var c := Received(a[0]);
      if !c.Malformed? {
        ServeAppend(Applied(s, c), a[1..], b);
      }
    } else {
      assert a + b == b;
    }
  }

  /** A malformed frame loses every frame after it: a backend that registers later is never
      listed. */
  lemma MalformedFrameStopsListener(s: seq<Backend>, a: seq<seq<Byte>>, bad: seq<Byte>,
                                    rest: seq<seq<Byte>>)
    requires Serve(s, a).escaped.None?
    requires Received(bad).Malformed?
    ensures Serve(s, a + [bad] + rest) ==
      Outcome(Serve(s, a).directory, Some(Received(bad).error))
  {
    ServeAppend(s, a, [bad] + rest);
    assert a + [bad] + rest == a + ([bad] + rest);
  }

  /** The backends the first `calls` requests go to, starting from cursor 0. */
  function Picks(s: seq<Backend>, calls: nat): (r: seq<Backend>)
    requires s != []
    ensures |r| == calls
  {
    seq(calls, k requires 0 <= k < calls => s[CursorAfter(0, |s|, k + 1)])
  }

  /** Three backends none of which the first one's values cover are all listed, in order,
      and the first four requests go to the second, third, first and second. */
  lemma ThreeBackendScenario(b1: Backend, b2: Backend, b3: Backend)
    requires !ContainsAll(b1, b2) && !ContainsAll(b1, b3)
    ensures Registered(Registered(Registered([], b1), b2), b3) == [b1, b2, b3]
    ensures Picks([b1, b2, b3], 4) == [b2, b3, b1, b2]
  {
    RoundRobinOrder(3, 1);
    RoundRobinOrder(3, 2);
    RoundRobinOrder(3, 3);
    RoundRobinOrder(3, 4);
  }

  class Broker {
    /** `Bservers`, in insertion order. */
    var servers: seq<Backend>
    /** `NextServer`: the index picked last, 0 before the first pick. */
    var nextServer: int

    ghost predicate Valid()
      reads this
    {
      nextServer >= 0
    }

    constructor ()
      ensures Valid() && servers == [] && nextServer == 0
    {
      servers := [];
      nextServer := 0;
    }

    /** `GetNextServer`: -1 for an empty directory; otherwise the cursor moves one step
        round the directory and the new position is returned. */
    method GetNextServer() returns (index: int)
      requires Valid()
      modifies this`nextServer
      ensures Valid()
      ensures servers == [] ==> index == -1 && nextServer == old(nextServer)
      ensures servers != [] ==>
        index == nextServer == NextIndex(old(nextServer), |servers|) && 0 <= index < |servers|
    {
      if |servers| == 0 {
        return -1;
      }
      nextServer := (nextServer + 1) % |servers|;
      index := nextServer;
    }

    /** `Regist`: the foreach ends in its first iteration whatever the comparison gives, so
        only the first entry is looked at. */
    method Regist(b: Backend)
      modifies this`servers
      ensures servers == Registered(old(servers), b)
    {
      if |servers| != 0 {
        var list := servers[0];
        if ContainsAll(list, b) {
          return;
        }
        servers := servers + [b];
      } else {
        servers := servers + [b];
      }
    }

    /** `Unregist`: the first entry equal element by element to `Server(b)` is removed, and
        the loop stops. The entry-count guard compares two four-element lists and never
        returns early. */
    method Unregist(b: Backend)
      modifies this`servers
      ensures servers == Unregistered(old(servers), b)
    {
      var i := 0;
      while i < |servers|
        invariant 0 <= i <= |servers|
        invariant servers == old(servers)
        invariant b !in servers[..i]
      {
        var list := Fields(b);
        FieldsPositional(servers[i], b);
        if Fields(servers[i]) == list {
          UnregisteredFirstMatch(servers, b, i);
          servers := servers[..i] + servers[i + 1..];
          return;
        }
        assert servers[..i + 1] == servers[..i] + [servers[i]];
        i := i + 1;
      }
      assert servers[..i] == servers;
      UnregisteredAbsent(servers, b);
    }

    /** One connection of `ReceiveThreadFunction`: the bytes one Read delivers are decoded
        and applied; an exception from decoding is returned instead of being raised. */
    method Receive(sent: seq<Byte>) returns (escaped: Option<FrameError>)
      modifies this`servers
      ensures servers == Applied(old(servers), Received(sent))
      ensures escaped.Some? <==> Received(sent).Malformed?
      ensures escaped.Some? ==> escaped.value == Received(sent).error
    {
      escaped := None;
      var count := if |sent| < BufferSize then |sent| else BufferSize;
      if count != 0 {
        var data := AsciiDecode(sent[..count]);
        var parts := Split(data, ':');
        match DecodeParts(parts)
        case Register(backend) => Regist(backend);
        case Unregister(backend) => Unregist(backend);
        case Ignore =>
        case Malformed(error) => escaped := Some(error);
      }
    }

    /** The listener loop over a run of connections: frames are received until one raises
        an exception. */
    method Listen(frames: seq<seq<Byte>>) returns (escaped: Option<FrameError>)
      modifies this`servers
      ensures Outcome(servers, escaped) == Serve(old(servers), frames)
    {
      var i := 0;
      escaped := None;
      while i < |frames|
        invariant 0 <= i <= |frames|
        invariant Serve(old(servers), frames) == Serve(servers, frames[i..])
        invariant escaped == None
      {
        assert frames[i..][0] == frames[i] && frames[i..][1..] == frames[i + 1..];
        escaped := Receive(frames[i]);
        if escaped.Some? {
          return;
        }
        i := i + 1;
      }
      assert frames[i..] == [];
    }

    /** `Process` for a request whose absolute path is `path`: false for an empty directory;
        otherwise the next backend is picked and the request is routed to it. A message is
        written through `StandardWriter`; forwarding is left to the caller. */
    method Process(path: string, response: Response) returns (handled: bool, d: Decision)
      requires Valid()
      modifies this`nextServer, response`body
      ensures Valid()
      ensures servers == [] ==> !handled && d == NotHandled && nextServer == old(nextServer)
      ensures servers != [] ==>
        && nextServer == NextIndex(old(nextServer), |servers|)
        && d == Route(path, servers[nextServer])
        && handled == !d.Faulted?
      ensures d.Written? ==> response.body == old(response.body) + [Text(d.text)]
      ensures !d.Written? ==> response.body == old(response.body)
    {
      var index := GetNextServer();
      if index == -1 {
        return false, NotHandled;
      }
      d := Route(path, servers[index]);
      if d.Written? {
        response.Write(Text(d.text));
      }
      handled := !d.Faulted?;
    }
  }

  /** `GetFormValues`: one header per form item, in order; an empty form adds nothing. */
  method GetFormValues(form: seq<string>, response: Response)
    modifies response`headers
    ensures response.headers == old(response.headers) + FormHeaders(form)
  {
    if |form| != 0 {
      var i := 0;
      while i < |form|
        invariant 0 <= i <= |form|
        invariant response.headers == old(response.headers) + FormHeaders(form)[..i]
      {
        var header := FormHeader(form[i]);  // trim, split on '=', first and last piece
        PrefixStep(old(response.headers), FormHeaders(form), i);
        response.AddHeader(header.name, header.value);
        i := i + 1;
      }
      assert FormHeaders(form)[..i] == FormHeaders(form);
    }
  }

  /** `TryAddCookies`: one response cookie per cookie, in order, with its name, value and
      expiry. */
  method TryAddCookies(cookies: seq<Cookie>, response: Response)
    modifies response`cookies
    ensures response.cookies == old(response.cookies) + cookies
  {
    var i := 0;
    while i < |cookies|
      invariant 0 <= i <= |cookies|
      invariant response.cookies == old(response.cookies) + cookies[..i]
    {
      var cookieValue := cookies[i].value;
      var cookieKey := cookies[i].name;
      var cookieExpire := cookies[i].expires;
      response.AddCookie(Cookie(cookieKey, cookieValue, cookieExpire));
      assert cookies[..i + 1] == cookies[..i] + [cookies[i]];
      i := i + 1;
    }
    assert cookies[..i] == cookies;
  }
}
