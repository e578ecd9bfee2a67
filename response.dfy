/**
 The response builder HttpResponse of src/http_response.hpp: a status and
 a version fixed at construction, a std::map of headers the setters
 upsert into, and a body. str() first runs PrepareBody, which compresses a
 non-empty body when Content-Encoding is set and rewrites Content-Length,
 then writes the status line, one "key: value" line per header in
 ascending key order, a blank line and the body.
 */
module Response {
  import opened Text
  import opened OrderedMap
  import opened Status

  /** t_http_version; HV_1_1 is the one value the server names. Its text is
      rendered by a function the model takes as a parameter. */
  datatype HttpVersion = HV_1_1

  const ContentLength: string := "Content-Length"
  const ContentType: string := "Content-Type"
  const ContentEncoding: string := "Content-Encoding"

  /** Everything str() reads: the response's members. */
  datatype ResponseValue = ResponseValue(answer: ResponseAnswer, version: HttpVersion, headers: Entries, body: string)

  /** One serialised header. */
  function HeaderLine(h: (string, string)): string {
    h.0 + ": " + h.1 + CRLF
  }

  /** The serialised headers, in the order of the entry list. */
  function HeaderLines(e: Entries): string {
    if e == [] then [] else HeaderLine(e[0]) + HeaderLines(e[1..])
  }

  lemma {:induction false} HeaderLinesAppend(e: Entries, h: (string, string))
    ensures HeaderLines(e + [h]) == HeaderLines(e) + HeaderLine(h)
  {
    if e == [] {
      assert [] + [h] == [h];
      assert HeaderLines([h][1..]) == [];
    } else {
      assert (e + [h])[1..] == e[1..] + [h];
      HeaderLinesAppend(e[1..], h);
    }
  }

  /** The text str() produces from an already prepared response. */
  function Serialize(v: ResponseValue, versionText: string): string {
    versionText + " " + StatusText(v.answer) + CRLF + HeaderLines(v.headers) + CRLF + v.body
  }

  /** Whether PrepareBody compresses: Content-Encoding set and a non-empty body. */
  predicate Compresses(v: ResponseValue) {
    Lookup(v.headers, ContentEncoding).Some? && v.body != []
  }

  /** The state PrepareBody leaves. */
  function Prepared(v: ResponseValue, compress: string -> string): ResponseValue {
    if Compresses(v) then
      var b := compress(v.body);
      v.(headers := Upsert(v.headers, ContentLength, NatToString(|b|)), body := b)
    else v
  }

  /** HttpResponse. */
  class HttpResponse {
    const answer: ResponseAnswer
    const version: HttpVersion
    var headers: Entries
    var body: string

    /** The headers are a std::map: one entry per key, in ascending key order. */
    ghost predicate Valid()
      reads this
    {
      Sorted(headers)
    }

    function Value(): ResponseValue
      reads this
    {
      ResponseValue(answer, version, headers, body)
    }

    constructor (answer: ResponseAnswer, version: HttpVersion)
      ensures Valid() && Value() == ResponseValue(answer, version, [], "")
    {
      this.answer := answer;
      this.version := version;
      headers := [];
      body := "";
    }

    /** m_headers["Content-Length"] = std::to_string(length). */
    method SetContentLength(length: nat)
      requires Valid()
      modifies this
      ensures Valid() && Value() == old(Value()).(headers := Upsert(old(headers), ContentLength, NatToString(length)))
    {
      UpsertSorted(headers, ContentLength, NatToString(length));
      headers := Upsert(headers, ContentLength, NatToString(length));
    }

    /** m_headers["Content-Type"] = type. */
    method SetContentType(contentType: string)
      requires Valid()
      modifies this
      ensures Valid() && Value() == old(Value()).(headers := Upsert(old(headers), ContentType, contentType))
    {
      UpsertSorted(headers, ContentType, contentType);
      headers := Upsert(headers, ContentType, contentType);
    }

    /** m_headers["Content-Encoding"] = encoding. */
    method SetEncoding(encoding: string)
      requires Valid()
      modifies this
      ensures Valid() && Value() == old(Value()).(headers := Upsert(old(headers), ContentEncoding, encoding))
    {
      UpsertSorted(headers, ContentEncoding, encoding);
      headers := Upsert(headers, ContentEncoding, encoding);
    }

    /** m_body = body. */
    method SetBody(newBody: string)
      requires Valid()
      modifies this
      ensures Valid() && Value() == old(Value()).(body := newBody)
    {
      body := newBody;
    }

    /** PrepareBody. */
    method PrepareBody(compress: string -> string)
      requires Valid()
      modifies this
      ensures Valid() && Value() == Prepared(old(Value()), compress)
    {
      if Lookup(headers, ContentEncoding).Some? && body != [] {
        body := compress(body);
        SetContentLength(|body|);
      }
    }

    /** str(): prepare the body, then write status line, headers, blank line and body. */
    method Str(versionText: HttpVersion -> string, compress: string -> string) returns (s: string)
      requires Valid()
      modifies this
      ensures Valid() && Value() == Prepared(old(Value()), compress)
      ensures s == Serialize(Value(), versionText(version))
    {
      PrepareBody(compress);
      s := WriteHeaders(versionText(version) + " " + StatusText(answer) + CRLF, headers);
      s := s + CRLF;
      if body != [] {
        s := s + body;
      } else {
        assert s + body == s;
      }
    }
  }

  /** The header loop of str(): one "key: value" line per entry, in the order of the map,
      after the status line `head`. */
  method WriteHeaders(head: string, e: Entries) returns (s: string)
    ensures s == head + HeaderLines(e)
  {
    s := head;
    var i := 0;
    while i < |e|
      invariant 0 <= i <= |e|
      invariant s == head + HeaderLines(e[..i])
    {
      var (key, value) := e[i];
      assert e[..i + 1] == e[..i] + [e[i]];
      HeaderLinesAppend(e[..i], e[i]);
      s := s + (key + ": " + value + CRLF);
      i := i + 1;
    }
    assert e[..i] == e;
  }

  /** Without Content-Encoding, or with an empty body, str() changes nothing, so calling
      it again gives the same text. */
  lemma PreparedUnchanged(v: ResponseValue, compress: string -> string)
    requires !Compresses(v)
    ensures Prepared(v, compress) == v
    ensures Prepared(Prepared(v, compress), compress) == Prepared(v, compress)
  {
  }

  /** With Content-Encoding set, the body is compressed and Content-Length is its new
      length; the other headers are kept, and a second call compresses once more. */
  lemma PreparedCompresses(v: ResponseValue, compress: string -> string)
    requires Sorted(v.headers) && Compresses(v)
    ensures var p := Prepared(v, compress);
      && p.body == compress(v.body)
      && Lookup(p.headers, ContentLength) == Some(NatToString(|compress(v.body)|))
      && Lookup(p.headers, ContentEncoding) == Lookup(v.headers, ContentEncoding)
      && ToMap(p.headers) == ToMap(v.headers)[ContentLength := NatToString(|compress(v.body)|)]
      && Sorted(p.headers)
      && (p.body != [] ==> Prepared(p, compress).body == compress(compress(v.body)))
  {
    UpsertSorted(v.headers, ContentLength, NatToString(|compress(v.body)|));
  }

  /** The serialised response, piece by piece: status line, headers, the blank line, then
      the body; with an empty body the text ends with the blank line. */
  lemma SerializeLayout(v: ResponseValue, versionText: string)
    ensures var s, head := Serialize(v, versionText), versionText + " " + StatusText(v.answer) + CRLF;
      && s[..|head|] == head
      && s[|head|..|head| + |HeaderLines(v.headers)|] == HeaderLines(v.headers)
      && s[|head| + |HeaderLines(v.headers)|..|s| - |v.body|] == CRLF
      && s[|s| - |v.body|..] == v.body
      && (v.body == [] ==> s[|s| - 4..] == CRLF + CRLF)
  {
    var s, head := Serialize(v, versionText), versionText + " " + StatusText(v.answer) + CRLF;
    var hl := HeaderLines(v.headers);
    assert s == head + hl + CRLF + v.body;
    if v.body == [] {
      if v.headers != [] {
        HeaderLinesEnd(v.headers);
        assert s[|s| - 4..] == (hl + CRLF)[|hl| - 2..];
      } else {
        StatusLineEnd(versionText, v.answer);
        assert s == head + CRLF;
        assert s[|s| - 4..] == head[|head| - 2..] + CRLF;
      }
    }
  }

  /** A status line ends with CRLF. */
  lemma StatusLineEnd(versionText: string, a: ResponseAnswer)
    ensures var head := versionText + " " + StatusText(a) + CRLF;
      |head| >= 4 && head[|head| - 2..] == CRLF
  {
    StatusTextShape(a);
  }

  /** Serialised headers end with CRLF. */
  lemma {:induction false} HeaderLinesEnd(e: Entries)
    requires e != []
    ensures |HeaderLines(e)| >= 4 && HeaderLines(e)[|HeaderLines(e)| - 2..] == CRLF
  {
    var l := HeaderLine(e[0]);
    if e[1..] != [] {
      HeaderLinesEnd(e[1..]);
    }
    assert l[|l| - 2..] == CRLF;
  }
}
