/** The part of the host framework's response the plug-ins write to: the header list
    (IHttpResponse.AddHeader), the cookie collection (IHttpResponse.Cookies), the content
    type and the body stream. */
module Http {
  import opened Text

  datatype Header = Header(name: string, value: string)

  /** A cookie with its expiry kept as an opaque timestamp (DateTime ticks). */
  datatype Cookie = Cookie(name: string, value: string, expires: int)

  /** One flushed write to the body stream: text through a StreamWriter (its UTF-8 encoding
      is not modelled), or bytes through a BinaryWriter. */
  datatype BodyWrite = Text(text: string) | Binary(bytes: seq<Byte>)

  class Response {
    var headers: seq<Header>
    var cookies: seq<Cookie>
    var contentType: Option<string>
    var body: seq<BodyWrite>

    constructor ()
      ensures headers == [] && cookies == [] && contentType == None && body == []
    {
      headers := [];
      cookies := [];
      contentType := None;
      body := [];
    }

    /** `AddHeader(name, value)`: one more header after those already set. */
    method AddHeader(name: string, value: string)
      modifies this`headers
      ensures headers == old(headers) + [Header(name, value)]
    {
      headers := headers + [Header(name, value)];
    }

    /** `Cookies.Add(cookie)`: one more cookie after those already set. */
    method AddCookie(cookie: Cookie)
      modifies this`cookies
      ensures cookies == old(cookies) + [cookie]
    {
      cookies := cookies + [cookie];
    }

    /** Assigning `ContentType`. */
    method SetContentType(t: string)
      modifies this`contentType
      ensures contentType == Some(t)
    {
      contentType := Some(t);
    }

    /** A writer on `Body` writing and flushing. */
    method Write(w: BodyWrite)
      modifies this`body
      ensures body == old(body) + [w]
    {
      body := body + [w];
    }
  }
}
