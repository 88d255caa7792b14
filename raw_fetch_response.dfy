/**
 * Decoding of a buffered HTTP fetch response into a Riak object, or into the
 * siblings of a key when the store answers 300 Multiple Choices
 * (RawFetchResponse).
 */
module RawFetch {
  import opened Wrappers
  import opened JavaStrings

  /** The header names, the link tag parameter and the media type the decoder looks for. */
  datatype Constants = Constants(
    hdrLink: string,
    rawLinkTag: string,
    hdrUsermetaPrefix: string,
    hdrContentType: string,
    hdrVclock: string,
    hdrLastModified: string,
    hdrEtag: string,
    ctypeMultipartMixed: string)

  type Headers = map<string, string>

  /**
   * A link as `RiakLink` is constructed here: two URL path segments and the
   * tag, in the order of the constructor's arguments.
   */
  datatype RiakLink = RiakLink(first: string, second: string, tag: string)

  /** An object version, with its fields in the order `RawObject` is constructed. */
  datatype RawObject = RawObject(
    bucket: string,
    key: string,
    body: string,
    links: multiset<RiakLink>,
    usermeta: map<string, string>,
    contentType: Option<string>,
    vclock: Option<string>,
    lastModified: Option<string>,
    etag: Option<string>)

  /** One body part of a multipart response, with its own headers. */
  datatype Part = Part(headers: Headers, body: string)

  /** The buffered response as the transport hands it over. */
  datatype HttpResponse = HttpResponse(
    statusCode: int,
    isSuccess: bool,
    headers: Headers,
    body: string,
    bucket: string,
    key: string)

  /**
   * The byte-level parsers: `LinkHeader.parse`, from a Link header value
   * (or its absence) to each URL's parameters, and `Multipart.parse`, from
   * the document headers and body to the parts, or null.
   */
  datatype Parsers = Parsers(
    linkHeader: Option<string> -> map<string, map<string, string>>,
    multipart: (Headers, string) -> Option<seq<Part>>)

  datatype RiakResponseException = RiakResponseException(response: HttpResponse, message: string)

  const MultipartExpected := "multipart/mixed content expected when object has siblings"

  /** The decoded response: the object, if any, and the siblings, possibly none. */
  datatype RawFetchResponse = RawFetchResponse(
    impl: HttpResponse,
    obj: Option<RawObject>,
    siblings: seq<RawObject>)
  {
    predicate HasObject()
    {
      obj.Some?
    }

    function GetObject(): (o: Option<RawObject>)
      ensures o.Some? <==> HasObject()
    {
      obj
    }

    predicate HasSiblings()
    {
      |siblings| > 0
    }

    function GetSiblings(): (s: seq<RawObject>)
      ensures s != [] <==> HasSiblings()
    {
      siblings
    }
  }

  /** `headers.get(name)`. */
  function Lookup(headers: Headers, name: string): Option<string>
  {
    if name in headers then Some(headers[name]) else None
  }

  // ---------------------------------------------------------------- links

  /**
   * One parsed Link entry: kept only when it carries the tag parameter and
   * its URL splits into at least two segments; the link gets the last
   * segment, then the one before it, then the tag.
   */
  function ParseOneLink(k: Constants, url: string, params: map<string, string>): (link: Option<RiakLink>)
    ensures link.Some? <==> k.rawLinkTag in params && |Split(url)| >= 2
    ensures link.Some? ==> link.value.tag == params[k.rawLinkTag]
    ensures link.Some? ==> link.value.first != [] && '/' !in link.value.first && '/' !in link.value.second
    ensures link.Some? ==> var parts := Split(url);
      link.value == RiakLink(parts[|parts| - 1], parts[|parts| - 2], params[k.rawLinkTag])
  {
    if k.rawLinkTag in params then
      var parts := Split(url);
      if |parts| >= 2 then
        Some(RiakLink(parts[|parts| - 1], parts[|parts| - 2], params[k.rawLinkTag]))
      else None
    else None
  }

  /** A tagged URL `prefix/b/key`, with or without trailing slashes, gives the link (key, b, tag). */
  lemma ParseOneLinkOfPath(k: Constants, prefix: string, b: string, key: string, n: nat, params: map<string, string>)
    requires '/' !in b && '/' !in key && key != []
    requires k.rawLinkTag in params
    ensures ParseOneLink(k, prefix + "/" + b + "/" + key + Slashes(n), params) == Some(RiakLink(key, b, params[k.rawLinkTag]))
  {
    SplitOfPath(prefix, b, key, n);
  }

  /** A tagged URL `b/key`, with or without trailing slashes, gives the link (key, b, tag). */
  lemma ParseOneLinkOfPair(k: Constants, b: string, key: string, n: nat, params: map<string, string>)
    requires '/' !in b && '/' !in key && key != []
    requires k.rawLinkTag in params
    ensures ParseOneLink(k, b + "/" + key + Slashes(n), params) == Some(RiakLink(key, b, params[k.rawLinkTag]))
  {
    SplitOfPair(b, key, n);
  }

  /** A URL that is one segment followed only by slashes yields no link. */
  lemma ParseOneLinkOfShortUrl(k: Constants, segment: string, n: nat, params: map<string, string>)
    requires '/' !in segment
    ensures ParseOneLink(k, segment + Slashes(n), params) == None
  {
    var url := segment + Slashes(n);
    if n == 0 {
      assert url == segment;
    } else {
      assert url == segment + "/" + Slashes(n - 1);
      FieldsConcat(segment, Slashes(n - 1));
      FieldsOfSegment(segment);
      FieldsOfSlashes(n - 1);
      assert url[|segment|] == '/';
      var f := Fields(url);
      var parts := Split(url);
      if |parts| >= 2 {
        assert false;
      }
    }
  }

  /** The Link header `</riak/b/k>; riaktag="tag1"` gives exactly the link (k, b, tag1). */
  lemma OneTaggedLink(k: Constants)
    ensures Links(k, map["/riak/b/k" := map[k.rawLinkTag := "tag1"]]) == multiset{RiakLink("k", "b", "tag1")}
  {
    var parsed := map["/riak/b/k" := map[k.rawLinkTag := "tag1"]];
    assert "/riak/b/k" == "/riak" + "/" + "b" + "/" + "k" + Slashes(0);
    ParseOneLinkOfPath(k, "/riak", "b", "k", 0, parsed["/riak/b/k"]);
    LinksOverRemove(k, parsed, parsed.Keys, "/riak/b/k");
    assert parsed.Keys - {"/riak/b/k"} == {};
  }

  /** The link, if any, contributed by one URL of the parsed header. */
  ghost function LinkAt(k: Constants, parsed: map<string, map<string, string>>, url: string): multiset<RiakLink>
    requires url in parsed
  {
    match ParseOneLink(k, url, parsed[url])
    case Some(link) => multiset{link}
    case None => multiset{}
  }

  /** The links contributed by a set of URLs, whatever order they are visited in. */
  ghost function LinksOver(k: Constants, parsed: map<string, map<string, string>>, urls: set<string>): multiset<RiakLink>
    requires urls <= parsed.Keys
    decreases urls
  {
    if urls == {} then multiset{}
    else
      var url :| url in urls;
      LinkAt(k, parsed, url) + LinksOver(k, parsed, urls - {url})
  }

  /** The links of a parsed Link header (an unordered collection, as HashMap keys are unordered). */
  ghost function Links(k: Constants, parsed: map<string, map<string, string>>): multiset<RiakLink>
  {
    LinksOver(k, parsed, parsed.Keys)
  }

  /** The URLs among urls that yield a link. */
  ghost function LinkedUrls(k: Constants, parsed: map<string, map<string, string>>, urls: set<string>): set<string>
    requires urls <= parsed.Keys
  {
    set url | url in urls && ParseOneLink(k, url, parsed[url]).Some?
  }

  /** Any URL can be taken out first: the collected links do not depend on the visiting order. */
  lemma {:induction false} LinksOverRemove(k: Constants, parsed: map<string, map<string, string>>, urls: set<string>, url: string)
    requires urls <= parsed.Keys && url in urls
    ensures LinksOver(k, parsed, urls) == LinkAt(k, parsed, url) + LinksOver(k, parsed, urls - {url})
    decreases urls
  {
    var w :| w in urls && LinksOver(k, parsed, urls) == LinkAt(k, parsed, w) + LinksOver(k, parsed, urls - {w});
    if w != url {
      LinksOverRemove(k, parsed, urls - {w}, url);
      LinksOverRemove(k, parsed, urls - {url}, w);
      assert urls - {w} - {url} == urls - {url} - {w};
    }
  }

  /** Each URL gives at most one link: the links number the URLs that yield one. */
  lemma {:induction false} LinksOverCount(k: Constants, parsed: map<string, map<string, string>>, urls: set<string>)
    requires urls <= parsed.Keys
    ensures |LinksOver(k, parsed, urls)| == |LinkedUrls(k, parsed, urls)| <= |urls|
    decreases urls
  {
    if urls == {} {
      assert LinkedUrls(k, parsed, urls) == {};
    } else {
      var w :| w in urls && LinksOver(k, parsed, urls) == LinkAt(k, parsed, w) + LinksOver(k, parsed, urls - {w});
      LinksOverCount(k, parsed, urls - {w});
      var rest := LinkedUrls(k, parsed, urls - {w});
      assert |urls - {w}| == |urls| - 1;
      assert w !in rest;
      if ParseOneLink(k, w, parsed[w]).Some? {
        assert LinkedUrls(k, parsed, urls) == rest + {w};
        assert |rest + {w}| == |rest| + 1;
        assert |LinkAt(k, parsed, w)| == 1;
      } else {
        assert LinkedUrls(k, parsed, urls) == rest;
        assert |LinkAt(k, parsed, w)| == 0;
      }
      assert |LinkedUrls(k, parsed, urls)| <= |urls|;
    }
  }

  /** A link is collected exactly when some URL gives it. */
  lemma {:induction false} LinksOverMembers(k: Constants, parsed: map<string, map<string, string>>, urls: set<string>, link: RiakLink)
    requires urls <= parsed.Keys
    ensures link in LinksOver(k, parsed, urls) <==>
      exists url :: url in urls && ParseOneLink(k, url, parsed[url]) == Some(link)
    decreases urls
  {
    if urls != {} {
      var w :| w in urls && LinksOver(k, parsed, urls) == LinkAt(k, parsed, w) + LinksOver(k, parsed, urls - {w});
      LinksOverMembers(k, parsed, urls - {w}, link);
      if ParseOneLink(k, w, parsed[w]) == Some(link) {
        assert link in LinkAt(k, parsed, w);
      } else {
        assert link !in LinkAt(k, parsed, w);
        if exists url :: url in urls && ParseOneLink(k, url, parsed[url]) == Some(link) {
          var url :| url in urls && ParseOneLink(k, url, parsed[url]) == Some(link);
          assert url in urls - {w};
        }
      }
    }
  }

  /**
   * `parseLinkHeader` gives at most one link per parsed URL, so never more
   * links than URLs, and holds exactly the links the URLs give.
   */
  lemma LinksPerUrl(k: Constants, parsed: map<string, map<string, string>>)
    ensures |Links(k, parsed)| == |LinkedUrls(k, parsed, parsed.Keys)| <= |parsed|
    ensures forall link :: link in Links(k, parsed) <==>
      exists url :: url in parsed && ParseOneLink(k, url, parsed[url]) == Some(link)
  {
    LinksOverCount(k, parsed, parsed.Keys);
    forall link | true
      ensures link in Links(k, parsed) <==>
        exists url :: url in parsed && ParseOneLink(k, url, parsed[url]) == Some(link)
    {
      LinksOverMembers(k, parsed, parsed.Keys, link);
    }
  }

  /** `parseLinkHeader`: the links of the header's parsed entries, collected in key iteration order. */
  method ParseLinkHeader(k: Constants, p: Parsers, header: Option<string>) returns (links: seq<RiakLink>)
    ensures multiset(links) == Links(k, p.linkHeader(header))
  {
    links := [];
    var parsedLinks := p.linkHeader(header);
    var pending := parsedLinks.Keys;
    while pending != {}
      invariant pending <= parsedLinks.Keys
      invariant multiset(links) + LinksOver(k, parsedLinks, pending) == Links(k, parsedLinks)
      decreases pending
    {
      var url :| url in pending;
      LinksOverRemove(k, parsedLinks, pending, url);
      var link := ParseOneLink(k, url, parsedLinks[url]);
      if link.Some? {
        links := links + [link.value];
      }
      pending := pending - {url};
    }
  }

  // ------------------------------------------------------------- usermeta

  /**
   * The user metadata of a header map: one entry per header whose name
   * starts with the prefix, keyed by the rest of the name, value copied.
   */
  function Usermeta(prefix: string, headers: Headers): (meta: map<string, string>)
    ensures forall name :: name in meta <==> prefix + name in headers
    ensures forall name :: name in meta ==> meta[name] == headers[prefix + name]
  {
    UsermetaNames(prefix, headers);
    map header | header in headers && prefix <= header :: header[|prefix|..] := headers[header]
  }

  /** A prefixed header name is the prefix followed by its stripped name. */
  lemma UsermetaNames(prefix: string, headers: Headers)
    ensures forall header :: header in headers && prefix <= header ==> prefix + header[|prefix|..] == header
    ensures forall name :: (prefix + name)[|prefix|..] == name
  {
  }

  /** `X-Riak-Meta-Foo: bar` beside `Content-Type: text/plain` gives the usermeta {Foo: bar}. */
  lemma UsermetaSkipsOtherHeaders(k: Constants, other: string, value: string)
    requires !(k.hdrUsermetaPrefix <= other)
    ensures Usermeta(k.hdrUsermetaPrefix, map[k.hdrUsermetaPrefix + "Foo" := "bar", other := value]) == map["Foo" := "bar"]
  {
    var headers := map[k.hdrUsermetaPrefix + "Foo" := "bar", other := value];
    var meta := Usermeta(k.hdrUsermetaPrefix, headers);
    forall name | name in meta
      ensures name == "Foo"
    {
      assert (k.hdrUsermetaPrefix + name)[|k.hdrUsermetaPrefix|..] == name;
    }
    assert meta.Keys == {"Foo"};
  }

  /** `parseUsermeta`: visits the header names in iteration order and keeps the prefixed ones. */
  method ParseUsermeta(k: Constants, headers: Headers) returns (usermeta: map<string, string>)
    ensures usermeta == Usermeta(k.hdrUsermetaPrefix, headers)
  {
    var prefix := k.hdrUsermetaPrefix;
    usermeta := map[];
    var pending := headers.Keys;
    UsermetaNames(prefix, headers);
    while pending != {}
      invariant pending <= headers.Keys
      invariant forall name :: name in usermeta <==> prefix + name in headers && prefix + name !in pending
      invariant forall name :: name in usermeta ==> usermeta[name] == headers[prefix + name]
      decreases pending
    {
      var header :| header in pending;
      if prefix <= header {
        usermeta := usermeta[header[|prefix|..] := headers[header]];
      }
      pending := pending - {header};
    }
    assert usermeta.Keys == Usermeta(prefix, headers).Keys;
  }

  // ------------------------------------------------------------ multipart

  /**
   * A part's effective headers: the document headers overlaid with the
   * part's own, which win on a name both carry.
   */
  function Overlay(doc: Headers, part: Headers): (merged: Headers)
    ensures merged.Keys == doc.Keys + part.Keys
    ensures forall name :: name in part ==> merged[name] == part[name]
    ensures forall name :: name in doc && name !in part ==> merged[name] == doc[name]
  {
    doc + part
  }

  /** The content-type guard: present and, trimmed and lower-cased, starting with multipart/mixed. */
  predicate IsMultipartMixed(k: Constants, headers: Headers)
    ensures IsMultipartMixed(k, headers) ==> k.hdrContentType in headers
    ensures IsMultipartMixed(k, headers) ==> |k.ctypeMultipartMixed| <= |Trim(headers[k.hdrContentType])|
  {
    k.hdrContentType in headers
    && k.ctypeMultipartMixed <= ToLowerAscii(Trim(headers[k.hdrContentType]))
  }

  /**
   * The guard tolerates padding and letter case: a content type made of
   * whitespace, the media type in any letter case, then anything (such as
   * the boundary parameter) passes.
   */
  lemma MultipartGuardAccepts(k: Constants, headers: Headers, pad: string, mediaType: string, params: string)
    requires k.hdrContentType in headers && headers[k.hdrContentType] == pad + mediaType + params
    requires forall i :: 0 <= i < |pad| ==> IsTrimmed(pad[i])
    requires mediaType != [] && !IsTrimmed(mediaType[0]) && !IsTrimmed(mediaType[|mediaType| - 1])
    requires ToLowerAscii(mediaType) == k.ctypeMultipartMixed
    ensures IsMultipartMixed(k, headers)
  {
    TrimKeepsCore(pad, mediaType, params);
    LowerKeepsPrefix(mediaType, Trim(pad + mediaType + params));
  }

  /** The object built from a header map for the requested bucket and key. */
  ghost function ObjectFrom(k: Constants, p: Parsers, r: HttpResponse, headers: Headers): (o: RawObject)
    ensures o.bucket == r.bucket && o.key == r.key && o.body == r.body
    ensures o.contentType.Some? <==> k.hdrContentType in headers
    ensures o.vclock.Some? <==> k.hdrVclock in headers
    ensures o.lastModified.Some? <==> k.hdrLastModified in headers
    ensures o.etag.Some? <==> k.hdrEtag in headers
  {
    RawObject(
      r.bucket, r.key, r.body,
      Links(k, p.linkHeader(Lookup(headers, k.hdrLink))),
      Usermeta(k.hdrUsermetaPrefix, headers),
      Lookup(headers, k.hdrContentType),
      Lookup(headers, k.hdrVclock),
      Lookup(headers, k.hdrLastModified),
      Lookup(headers, k.hdrEtag))
  }

  /** The sibling built from one part. */
  ghost function SiblingOf(k: Constants, p: Parsers, r: HttpResponse, part: Part): RawObject
  {
    ObjectFrom(k, p, r, Overlay(r.headers, part.headers))
  }

  /** f applied to each element of s, in order. */
  ghost function MapSeq<A, B>(f: A -> B, s: seq<A>): seq<B>
  {
    if s == [] then [] else MapSeq(f, s[..|s| - 1]) + [f(s[|s| - 1])]
  }

  /** One result per element, the i-th from the i-th element. */
  lemma {:induction false} MapSeqAt<A, B>(f: A -> B, s: seq<A>)
    ensures |MapSeq(f, s)| == |s|
    ensures forall i :: 0 <= i < |s| ==> MapSeq(f, s)[i] == f(s[i])
  {
    if s != [] {
      var init := s[..|s| - 1];
      MapSeqAt(f, init);
      forall i | 0 <= i < |init|
        ensures s[i] == init[i]
      {
      }
    }
  }

  /** The siblings built from a sequence of parts, in part order. */
  ghost function SiblingsOf(k: Constants, p: Parsers, r: HttpResponse, parts: seq<Part>): seq<RawObject>
  {
    MapSeq(part => SiblingOf(k, p, r, part), parts)
  }

  /** The parts of the body; a null part list counts as none. */
  ghost function PartsOf(p: Parsers, r: HttpResponse): seq<Part>
  {
    match p.multipart(r.headers, r.body)
    case None => []
    case Some(parts) => parts
  }

  /**
   * `parseMultipart`: a failure when the content type is not
   * multipart/mixed, and otherwise one sibling per part, in part order,
   * each for the request's bucket and key, with the whole response body and
   * the part's effective headers.
   */
  ghost function DecodeMultipart(k: Constants, p: Parsers, r: HttpResponse): (res: Result<seq<RawObject>, RiakResponseException>)
    ensures res.Failure? <==> !IsMultipartMixed(k, r.headers)
    ensures k.hdrContentType !in r.headers ==> res.Failure?
    ensures res.Failure? ==> res.error == RiakResponseException(r, MultipartExpected)
    ensures res.Success? ==> |res.value| == |PartsOf(p, r)|
    ensures res.Success? ==> forall i :: 0 <= i < |res.value| ==>
      && res.value[i].bucket == r.bucket
      && res.value[i].key == r.key
      && res.value[i].body == r.body
      && res.value[i] == SiblingOf(k, p, r, PartsOf(p, r)[i])
  {
    if !IsMultipartMixed(k, r.headers) then
      Failure(RiakResponseException(r, MultipartExpected))
    else
      MapSeqAt(part => SiblingOf(k, p, r, part), PartsOf(p, r));
      Success(SiblingsOf(k, p, r, PartsOf(p, r)))
  }

  /**
   * A sibling's header-derived fields come from its part where the part
   * carries the header, and from the document otherwise.
   */
  lemma SiblingHeadersPreferPart(k: Constants, p: Parsers, r: HttpResponse, i: nat)
    requires DecodeMultipart(k, p, r).Success? && i < |PartsOf(p, r)|
    ensures var o, h := DecodeMultipart(k, p, r).value[i], PartsOf(p, r)[i].headers;
      && o.contentType == (if k.hdrContentType in h then Some(h[k.hdrContentType]) else Lookup(r.headers, k.hdrContentType))
      && o.vclock == (if k.hdrVclock in h then Some(h[k.hdrVclock]) else Lookup(r.headers, k.hdrVclock))
      && o.lastModified == (if k.hdrLastModified in h then Some(h[k.hdrLastModified]) else Lookup(r.headers, k.hdrLastModified))
      && o.etag == (if k.hdrEtag in h then Some(h[k.hdrEtag]) else Lookup(r.headers, k.hdrEtag))
  {
  }

  /** The body of `parseMultipart`'s loop: one part's sibling, from its effective headers. */
  method NewSibling(k: Constants, p: Parsers, r: HttpResponse, part: Part) returns (o: RawObject)
    ensures o == SiblingOf(k, p, r, part)
  {
    var headers := Overlay(r.headers, part.headers);
    var links := ParseLinkHeader(k, p, Lookup(headers, k.hdrLink));
    var usermeta := ParseUsermeta(k, headers);
    o := RawObject(
      r.bucket, r.key, r.body, multiset(links), usermeta,
      Lookup(headers, k.hdrContentType),
      Lookup(headers, k.hdrVclock),
      Lookup(headers, k.hdrLastModified),
      Lookup(headers, k.hdrEtag));
  }

  /** `parseMultipart`: the content-type guard, then the siblings part by part. */
  method ParseMultipart(k: Constants, p: Parsers, r: HttpResponse) returns (res: Result<seq<RawObject>, RiakResponseException>)
    ensures res == DecodeMultipart(k, p, r)
  {
    var contentType := Lookup(r.headers, k.hdrContentType);
    if contentType.None? || !(k.ctypeMultipartMixed <= ToLowerAscii(Trim(contentType.value))) {
      return Failure(RiakResponseException(r, MultipartExpected));
    }
    var parts := p.multipart(r.headers, r.body);
    var objects := [];
    if parts.Some? {
      objects := NewSiblings(k, p, r, parts.value);
    }
    res := Success(objects);
  }

  /** The loop of `parseMultipart`: one sibling per part, in part order; none for a null part list. */
  method NewSiblings(k: Constants, p: Parsers, r: HttpResponse, ps: seq<Part>) returns (objects: seq<RawObject>)
    ensures objects == SiblingsOf(k, p, r, ps)
  {
    objects := [];
    for i := 0 to |ps|
      invariant objects == SiblingsOf(k, p, r, ps[..i])
    {
      var o := NewSibling(k, p, r, ps[i]);
      assert ps[..i + 1][..i] == ps[..i];
      objects := objects + [o];
    }
    assert ps[..|ps|] == ps;
  }


  // ------------------------------------------------------------- response

  /**
   * What the constructor makes of a response: on 300 the siblings (the
   * first of them being the object) or the multipart failure; on any other
   * successful status one object from the document headers and no
   * siblings; otherwise neither.
   */
  ghost function Resolved(k: Constants, p: Parsers, r: HttpResponse): (res: Result<RawFetchResponse, RiakResponseException>)
    ensures res.Failure? <==> r.statusCode == 300 && !IsMultipartMixed(k, r.headers)
    ensures res.Failure? ==> res.error == RiakResponseException(r, MultipartExpected)
    ensures res.Success? ==> res.value.impl == r
    ensures r.statusCode == 300 && res.Success? ==> res.value.GetSiblings() == DecodeMultipart(k, p, r).value
    ensures res.Success? && r.statusCode == 300 ==> (res.value.HasObject() <==> res.value.HasSiblings())
    ensures res.Success? && res.value.HasSiblings() ==> r.statusCode == 300 && res.value.GetObject() == Some(res.value.siblings[0])
    ensures r.statusCode != 300 ==> res.Success? && !res.value.HasSiblings() && (res.value.HasObject() <==> r.isSuccess)
    ensures r.statusCode != 300 && r.isSuccess ==> res.value.GetObject() == Some(ObjectFrom(k, p, r, r.headers))
  {
    if r.statusCode == 300 then
      match DecodeMultipart(k, p, r)
      case Failure(e) => Failure(e)
      case Success(siblings) =>
        Success(RawFetchResponse(r, if |siblings| > 0 then Some(siblings[0]) else None, siblings))
    else if r.isSuccess then
      Success(RawFetchResponse(r, Some(ObjectFrom(k, p, r, r.headers)), []))
    else
      Success(RawFetchResponse(r, None, []))
  }

  /** On a successful non-300 status the object is for the requested bucket and key, with the response body. */
  lemma SingleObjectIdentity(k: Constants, p: Parsers, r: HttpResponse)
    requires r.statusCode != 300 && r.isSuccess
    ensures var o := Resolved(k, p, r).value.GetObject().value;
      o.bucket == r.bucket && o.key == r.key && o.body == r.body
      && o.contentType == Lookup(r.headers, k.hdrContentType)
      && o.vclock == Lookup(r.headers, k.hdrVclock)
      && o.lastModified == Lookup(r.headers, k.hdrLastModified)
      && o.etag == Lookup(r.headers, k.hdrEtag)
  {
  }

  /** The `RawFetchResponse` constructor: status dispatch over the buffered response. */
  method FromHttpResponse(k: Constants, p: Parsers, r: HttpResponse) returns (res: Result<RawFetchResponse, RiakResponseException>)
    ensures res == Resolved(k, p, r)
  {
    var headers := r.headers;
    var links := ParseLinkHeader(k, p, Lookup(headers, k.hdrLink));
    var usermeta := ParseUsermeta(k, headers);
    if r.statusCode == 300 {
      var siblings := ParseMultipart(k, p, r);
      if siblings.Failure? {
        return Failure(siblings.error);
      }
      var obj := if |siblings.value| > 0 then Some(siblings.value[0]) else None;
      res := Success(RawFetchResponse(r, obj, siblings.value));
    } else if r.isSuccess {
      var obj := RawObject(
        r.bucket, r.key, r.body, multiset(links), usermeta,
        Lookup(headers, k.hdrContentType),
        Lookup(headers, k.hdrVclock),
        Lookup(headers, k.hdrLastModified),
        Lookup(headers, k.hdrEtag));
      res := Success(RawFetchResponse(r, Some(obj), []));
    } else {
      res := Success(RawFetchResponse(r, None, []));
    }
  }
}
