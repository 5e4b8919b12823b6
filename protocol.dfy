/** The control protocol end to end: the frame a backend sends in `ServerRegistration`,
    read by the Broker's listener. */
module Protocol {
  import opened Text
  import opened Directory
  import opened ControlFrame
  import opened BServers

  /** The fields of a registration frame hold no ':' and the port and id are numbers. */
  predicate WellFormed(address: string, settings: Settings) {
    && ':' !in address && ':' !in settings.brokerServerPort && ':' !in settings.id
    && ':' !in settings.path
    && ParseInt32(settings.brokerServerPort).Some? && ParseInt32(settings.id).Some?
  }

  /** The descriptor a backend announces. */
  function Announced(address: string, settings: Settings): Backend
    requires WellFormed(address, settings)
  {
    Backend(address, ParseInt32(settings.brokerServerPort).value,
            ParseInt32(settings.id).value, settings.path)
  }

  /** A well-formed ASCII frame that fits the Broker's buffer is decoded into the
      backend's own descriptor: registration when enabling, deregistration when
      disabling. */
  lemma FrameRoundTrip(enable: bool, address: string, settings: Settings)
    requires WellFormed(address, settings)
    requires var text := RegistrationFrame(enable, address, settings);
      IsAscii(text) && |text| <= BufferSize
    ensures var c := Received(AsciiEncode(RegistrationFrame(enable, address, settings)));
      c == if enable then Register(Announced(address, settings))
           else Unregister(Announced(address, settings))
  {
    ReceivedWhole(RegistrationFrame(enable, address, settings));
    FrameDecodes(enable, address, settings);
  }

  /** The text of a well-formed frame decodes to the announced descriptor. */
  lemma FrameDecodes(enable: bool, address: string, settings: Settings)
    requires WellFormed(address, settings)
    ensures Decode(RegistrationFrame(enable, address, settings)) ==
      if enable then Register(Announced(address, settings))
      else Unregister(Announced(address, settings))
  {
    var op := if enable then "+" else "-";
    var port, id, path := settings.brokerServerPort, settings.id, settings.path;
    var text := FrameText(op, address, port, id, path);
    assert RegistrationFrame(enable, address, settings) == text;
    assert text + [] == text;
    DecodeFields(op, address, port, id, path, []);
  }

  /** Text that fits the buffer is read whole. */
  lemma ReceivedWhole(text: string)
    requires IsAscii(text) && 0 < |text| <= BufferSize
    ensures Received(AsciiEncode(text)) == Decode(text)
  {
    var bytes := AsciiEncode(text);
    AsciiRoundTrip(text);
    assert bytes[..|bytes|] == bytes;
  }

  /** Text longer than the buffer is read as its first 256 characters. */
  lemma ReceivedLong(text: string)
    requires IsAscii(text) && |text| > BufferSize
    ensures Received(AsciiEncode(text)) == Decode(text[..BufferSize])
  {
    AsciiPrefix(text, BufferSize);
  }

  /** So enabling a backend adds it to the Broker's directory unless the first entry
      already covers its values, and disabling it removes its first listing. */
  lemma RegistrationReachesDirectory(s: seq<Backend>, current: bool, requested: bool,
                                     settings: Settings, addressList: seq<IpAddress>)
    requires WellFormed(FirstIPv4(addressList), settings)
    requires var text := RegistrationFrame(requested, FirstIPv4(addressList), settings);
      IsAscii(text) && |text| <= BufferSize
    requires RegistrationOutcome(current, requested, settings, addressList, true).Sent?
    ensures var r := RegistrationOutcome(current, requested, settings, addressList, true);
      var b := Announced(FirstIPv4(addressList), settings);
      Applied(s, Received(r.frame)) == if requested then Registered(s, b) else Unregistered(s, b)
  {
    var address := FirstIPv4(addressList);
    var r := RegistrationOutcome(current, requested, settings, addressList, true);
    assert r.frame == AsciiEncode(RegistrationFrame(requested, address, settings)) by {
      RegistrationSends(current, requested, settings, addressList, true);
    }
    FrameRoundTrip(requested, address, settings);
  }

  /** Cutting a frame inside its last field cuts that field. */
  lemma FrameCut(op: string, address: string, port: string, id: string, path: string, m: nat)
    requires |FrameText(op, address, port, id, "")| <= m <= |FrameText(op, address, port, id, path)|
    ensures var n := m - |FrameText(op, address, port, id, "")|;
      0 <= n <= |path|
      && FrameText(op, address, port, id, path)[..m] == FrameText(op, address, port, id, path[..n])
  {
    var head := FrameText(op, address, port, id, "");
    var n := m - |head|;
    assert FrameText(op, address, port, id, path) == head + path;
    assert FrameText(op, address, port, id, path[..n]) == head + path[..n];
    assert (head + path)[..m] == head + path[..n];
  }

  /** Decoding a prefix of encoded ASCII text gives the same prefix of the text. */
  lemma AsciiPrefix(text: string, m: nat)
    requires IsAscii(text) && m <= |text|
    ensures AsciiDecode(AsciiEncode(text)[..m]) == text[..m]
  {
    var d := AsciiDecode(AsciiEncode(text)[..m]);
    assert forall k :: 0 <= k < m ==> d[k] == text[k];
  }

  /** A frame longer than the buffer is cut at 256 bytes: when the cut falls inside the
      path, the Broker lists the backend under the shortened path. */
  lemma LongFrameTruncatesPath(enable: bool, address: string, settings: Settings)
    requires WellFormed(address, settings)
    requires var text := RegistrationFrame(enable, address, settings);
      IsAscii(text) && |text| > BufferSize
    requires |RegistrationFrame(enable, address, settings.(path := ""))| < BufferSize
    ensures var n := BufferSize - |RegistrationFrame(enable, address, settings.(path := ""))|;
      var c := Received(AsciiEncode(RegistrationFrame(enable, address, settings)));
      var b := Announced(address, settings).(path := settings.path[..n]);
      c == if enable then Register(b) else Unregister(b)
  {
    var op := if enable then "+" else "-";
    var port, id, path := settings.brokerServerPort, settings.id, settings.path;
    var text := RegistrationFrame(enable, address, settings);
    assert text == FrameText(op, address, port, id, path);
    assert RegistrationFrame(enable, address, settings.(path := "")) == FrameText(op, address, port, id, "");
    var n := BufferSize - |FrameText(op, address, port, id, "")|;
    var shortened := FrameText(op, address, port, id, path[..n]);
    assert text[..BufferSize] == shortened by {
      FrameCut(op, address, port, id, path, BufferSize);
    }
    assert Received(AsciiEncode(text)) == Decode(shortened) by {
      ReceivedLong(text);
    }
    var b := Backend(address, ParseInt32(port).value, ParseInt32(id).value, path[..n]);
    assert Announced(address, settings).(path := path[..n]) == b;
    CutFrameDecodes(op, address, port, id, path, n);
  }

  /** A frame cut inside its path decodes to the descriptor with the cut path. */
  lemma CutFrameDecodes(op: string, address: string, port: string, id: string, path: string,
                        n: nat)
    requires op == "+" || op == "-"
    requires ':' !in address && ':' !in port && ':' !in id && ':' !in path
    requires ParseInt32(port).Some? && ParseInt32(id).Some?
    requires n <= |path|
    ensures var b := Backend(address, ParseInt32(port).value, ParseInt32(id).value, path[..n]);
      Decode(FrameText(op, address, port, id, path[..n]))
        == if op == "+" then Register(b) else Unregister(b)
  {
    var cut := path[..n];
    assert ':' !in cut by {
      assert forall k :: 0 <= k < |cut| ==> cut[k] == path[k];
    }
    assert FrameText(op, address, port, id, cut) + [] == FrameText(op, address, port, id, cut);
    DecodeFields(op, address, port, id, cut, []);
  }
}
