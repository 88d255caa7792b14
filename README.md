# Riak HTTP fetch-response decoding and memoizing time-series encoders

This project models, in Dafny, two pieces of the Riak Java client.

- `RawFetchResponse` turns a fully buffered HTTP fetch response into what the
  caller sees. On status 300 (Multiple Choices) it decodes the key's
  siblings from the multipart/mixed body and makes the first one the object.
  On any other successful status it builds one object from the document
  headers. Otherwise there is neither an object nor siblings. Each object
  carries its links (from the Link header), its user metadata (headers with
  the usermeta prefix), its content type, vclock, last-modified and etag.
- `TTBConverters.MemoizingEncoder` builds a time-series request message on
  the first `build()` and returns the same byte array on every later call.
  Beside it are the key-cell copy of `FetchEncoder` and `VoidDecoder`.

Files:

- `wrappers.dfy`: `Option` (a Java reference that may be null) and `Result`
  (a call that may throw).
- `java_strings.dfy` (module `JavaStrings`): the behaviour of
  `String.split("/")`, `trim()` and `toLowerCase()` that the decoder relies
  on. Split keeps leading empty pieces, drops trailing ones, and returns the
  input itself when there is no '/'.
- `raw_fetch_response.dfy` (module `RawFetch`): the decoder. Each operation
  has a ghost specification function (`ParseOneLink`, `Links`, `Usermeta`,
  `Overlay`, `DecodeMultipart`, `Resolved`). A method with the source's
  loops is proved equal to it (`ParseLinkHeader`, `ParseUsermeta`,
  `ParseMultipart`, `FromHttpResponse`).
- `ttb_converters.dfy` (module `TtbConverters`): the encoder as a class
  with a nullable `message` array, plus the two companions.

Modelling choices:

- The `Constants.*` header names, the link tag parameter and the
  multipart/mixed media type are fields of a `Constants` parameter. Every
  property holds whatever their values are.
- `LinkHeader.parse` and `Multipart.parse` are the function-typed fields of
  a `Parsers` parameter. `HttpResponse.isSuccess()` is a boolean field of
  the response.
- A `RawFetchResponse` is never changed after its constructor. The
  constructor either throws or yields an immutable response. So it is a
  datatype, and the constructor is the method `FromHttpResponse`, which
  returns a `Result`.
- `HashMap` key order is unspecified. The links of an object are therefore a
  `multiset`. The loops pick the next key with `:|`, so any visiting order is
  covered. `LinksOverRemove` proves that the collected links do not depend on
  that order.
- `RiakLink` is constructed as `(parts[n-1], parts[n-2], tag)`. The
  `RiakLink` class is not part of this model, so its fields are named
  `first`, `second` and `tag`, in argument order, without saying which one is
  the bucket.
- Every sibling carries the whole response body `r.getBody()`
  (RawFetchResponse.java:134), not its part's body. `DecodeMultipart`
  states this for every sibling.
- `parseLinkHeader` collects links in a list, so two URLs that yield the
  same link yield it twice. The model keeps the duplicates in a multiset.

## Model

| member | source | states |
|---|---|---|
| `RawFetch.RawFetchResponse.GetObject` | src/main/java/com/basho/riak/client/raw/RawFetchResponse.java:39-41 | the object returned is present exactly when `hasObject()` holds |
| `RawFetch.RawFetchResponse.GetSiblings` | src/main/java/com/basho/riak/client/raw/RawFetchResponse.java:43-45 | the siblings returned are non-empty exactly when `hasSiblings()` holds |
| `RawFetch.ParseOneLink` | src/main/java/com/basho/riak/client/raw/RawFetchResponse.java:91-103 | a link comes back iff the tag parameter is present and the URL splits into at least two segments; the link is (last piece, second-to-last piece, tag) of the split URL; its first argument is non-empty; neither segment argument contains '/' |
| `RawFetch.ParseOneLinkOfPath` | src/main/java/com/basho/riak/client/raw/RawFetchResponse.java:94-99 | a tagged URL `prefix/b/key`, followed by any number of trailing slashes, yields exactly `RiakLink(key, b, tag)`: last segment first, second-to-last second |
| `RawFetch.ParseOneLinkOfPair` | src/main/java/com/basho/riak/client/raw/RawFetchResponse.java:94-99 | a tagged URL `b/key` with no leading part, followed by any number of trailing slashes, yields exactly `RiakLink(key, b, tag)` |
| `RawFetch.ParseOneLinkOfShortUrl` | src/main/java/com/basho/riak/client/raw/RawFetchResponse.java:94-95 | a URL made of one segment and trailing slashes yields no link |
| `RawFetch.OneTaggedLink` | src/main/java/com/basho/riak/client/raw/RawFetchResponse.java:79-103 | the parsed entry `/riak/b/k` with tag `tag1` gives exactly the links {(k, b, tag1)} |
| `RawFetch.LinksOverRemove` | src/main/java/com/basho/riak/client/raw/RawFetchResponse.java:82-87 | the collected links do not depend on the order in which the URLs are visited |
| `RawFetch.LinksOverCount` | src/main/java/com/basho/riak/client/raw/RawFetchResponse.java:82-87 | there are as many links as URLs that yield one, and never more than URLs |
| `RawFetch.LinksOverMembers` | src/main/java/com/basho/riak/client/raw/RawFetchResponse.java:82-87 | a link is collected exactly when some visited URL yields it |
| `RawFetch.LinksPerUrl` | src/main/java/com/basho/riak/client/raw/RawFetchResponse.java:79-89 | `parseLinkHeader` gives at most one link per parsed URL, never more links than URLs, and exactly the links the URLs yield |
| `RawFetch.ParseLinkHeader` | src/main/java/com/basho/riak/client/raw/RawFetchResponse.java:79-89 | the loop over the parsed entries collects exactly the links of the header, as a multiset |
| `RawFetch.Usermeta` | src/main/java/com/basho/riak/client/raw/RawFetchResponse.java:105-115 | a usermeta key exists exactly when prefix + key is a header name; its value is that header's value, unchanged |
| `RawFetch.UsermetaSkipsOtherHeaders` | src/main/java/com/basho/riak/client/raw/RawFetchResponse.java:107-112 | a prefixed `Foo: bar` beside a non-prefixed header gives exactly {Foo: bar} |
| `RawFetch.ParseUsermeta` | src/main/java/com/basho/riak/client/raw/RawFetchResponse.java:105-115 | the loop over the header names builds exactly the usermeta map, whatever the visiting order |
| `RawFetch.Overlay` | src/main/java/com/basho/riak/client/raw/RawFetchResponse.java:129-131 | the effective headers are the document's and the part's names; a part value wins on a collision; every other document header is kept |
| `RawFetch.IsMultipartMixed` | src/main/java/com/basho/riak/client/raw/RawFetchResponse.java:119-121 | the content-type guard: it holds only when the content type is present and, once trimmed, at least as long as the media type; `MultipartGuardAccepts` gives the inputs it accepts |
| `RawFetch.MultipartGuardAccepts` | src/main/java/com/basho/riak/client/raw/RawFetchResponse.java:119-121 | a content type of padding, then the media type in any ASCII letter case, then parameters, passes the trimmed, lower-cased prefix test |
| `RawFetch.DecodeMultipart` | src/main/java/com/basho/riak/client/raw/RawFetchResponse.java:117-143 | fails with the multipart exception iff the content type is absent or fails the test; otherwise one sibling per part, in part order, none for a null part list; each sibling has the request's bucket and key, the whole response body, and the part's effective headers |
| `RawFetch.ObjectFrom` | src/main/java/com/basho/riak/client/raw/RawFetchResponse.java:60-66 | `new RawObject(...)` from a header map: the request's bucket, key and body; a content type, vclock, last-modified and etag exactly when that header is present |
| `RawFetch.SiblingHeadersPreferPart` | src/main/java/com/basho/riak/client/raw/RawFetchResponse.java:129-138 | a sibling's content type, vclock, last-modified and etag come from its part when the part has that header, and from the document otherwise |
| `RawFetch.NewSibling` | src/main/java/com/basho/riak/client/raw/RawFetchResponse.java:129-139 | the loop body builds the part's sibling from the overlaid headers |
| `RawFetch.MapSeqAt` | src/main/java/com/basho/riak/client/raw/RawFetchResponse.java:128-140 | building one object per part gives as many objects as parts, the i-th from the i-th part |
| `RawFetch.NewSiblings` | src/main/java/com/basho/riak/client/raw/RawFetchResponse.java:127-141 | the loop over the parts builds exactly the specified siblings, in order |
| `RawFetch.ParseMultipart` | src/main/java/com/basho/riak/client/raw/RawFetchResponse.java:117-143 | `parseMultipart` returns exactly what `DecodeMultipart` specifies, the exception included |
| `RawFetch.Resolved` | src/main/java/com/basho/riak/client/raw/RawFetchResponse.java:39-68 | fails only on 300 with a bad content type. On 300, the siblings are the decoded list, there is an object iff that list is non-empty, and the object is the first sibling. Otherwise there are no siblings, and there is an object iff the response is a success. That object is built from the document headers. |
| `RawFetch.SingleObjectIdentity` | src/main/java/com/basho/riak/client/raw/RawFetchResponse.java:59-66 | on a successful non-300 status the object has the request's bucket, key and body and the document's content type, vclock, last-modified and etag |
| `RawFetch.FromHttpResponse` | src/main/java/com/basho/riak/client/raw/RawFetchResponse.java:47-68 | the constructor's status dispatch produces exactly `Resolved` |
| `JavaStrings.Split` | src/main/java/com/basho/riak/client/raw/RawFetchResponse.java:94 | `split("/")` returns the input itself when it has no '/'; otherwise it returns its fields up to the last non-empty one, only empty fields being dropped; no piece contains '/' |
| `JavaStrings.FieldsJoin` | src/main/java/com/basho/riak/client/raw/RawFetchResponse.java:94 | joining the fields with '/' gives the string back; no field holds '/' |
| `JavaStrings.SplitRoundTrip` | src/main/java/com/basho/riak/client/raw/RawFetchResponse.java:94 | the split pieces joined with '/' and followed by the dropped slashes give the URL back; an empty split comes only from a run of slashes |
| `JavaStrings.SplitOfSlash` | src/main/java/com/basho/riak/client/raw/RawFetchResponse.java:94 | `"/"` splits into no pieces |
| `JavaStrings.SplitDropsTrailingEmpty` | src/main/java/com/basho/riak/client/raw/RawFetchResponse.java:94 | `"a/b/"` splits into `["a", "b"]` |
| `JavaStrings.SplitDropsTrailingSlashes` | src/main/java/com/basho/riak/client/raw/RawFetchResponse.java:94 | a string holding a '/' whose last field is non-empty splits into its fields, whatever run of slashes follows it |
| `JavaStrings.SplitOfPath` | src/main/java/com/basho/riak/client/raw/RawFetchResponse.java:94-99 | a path ending in two slash-free segments, the last one non-empty, then any run of slashes, splits into the earlier fields followed by those two |
| `JavaStrings.SplitOfPair` | src/main/java/com/basho/riak/client/raw/RawFetchResponse.java:94-99 | two slash-free segments joined by '/', the last one non-empty, then any run of slashes, split into exactly those two |
| `JavaStrings.TrimKeepsCore` | src/main/java/com/basho/riak/client/raw/RawFetchResponse.java:121 | `trim()` removes exactly the leading and trailing characters up to U+0020 |
| `JavaStrings.ToLowerAscii` | src/main/java/com/basho/riak/client/raw/RawFetchResponse.java:121 | lower-casing keeps the length and maps each ASCII capital to its small letter |
| `JavaStrings.LowerKeepsPrefix` | src/main/java/com/basho/riak/client/raw/RawFetchResponse.java:121 | lower-casing keeps a prefix a prefix |
| `TtbConverters.MemoizingEncoder.constructor` | src/main/java/com/basho/riak/client/core/operations/ts/TTBConverters.java:15-21 | a fresh encoder has no message, has never built one, and keeps the given builder for its lifetime |
| `TtbConverters.MemoizingEncoder.Build` | src/main/java/com/basho/riak/client/core/operations/ts/TTBConverters.java:26-35 | the first call runs `buildMessage` once, stores a fresh array holding its bytes and returns it; later calls return the same array, untouched, without running `buildMessage`, so repeated calls are idempotent; `buildMessage` runs at most once per encoder |
| `TtbConverters.CopyKeyCells` | src/main/java/com/basho/riak/client/core/operations/ts/TTBConverters.java:63-67 | the copied list holds the builder's key cells, in iteration order |
| `TtbConverters.VoidParseFrom` | src/main/java/com/basho/riak/client/core/operations/ts/TTBConverters.java:91-94 | the result is null for every input |

## Left out

- The delegating getters and `getHttpMethod` (RawFetchResponse.java:70-77): they only forward to the transport response. The response is kept as the `impl` field.
- `LinkHeader.parse` and `Multipart.parse`: their byte-level parsing (the Link header syntax of section 3 of RFC 8288, and the multipart framing of section 5.1.3 of RFC 2046) is foreign code. Their results are inputs, through the `Parsers` parameter. Exceptions they might throw are not modelled.
- The values of `Constants.*` and the definition of `HttpResponse.isSuccess()`: they are not visible. They are parameters, and every property holds for all of them.
- The links and usermeta computed at RawFetchResponse.java:49-50 on the 300 path: `FromHttpResponse` computes them as the source does, but nothing is stated about them because that path never uses them.
- `Collections.unmodifiableCollection`: the siblings are an immutable `seq`.
- The order of links within an object: the source's `HashMap` key order is unspecified, so links are a multiset. `ParseLinkHeader` returns them in the order it happened to visit them, and only their multiset is specified.
- JavaStrings.ToLowerAscii: lower-cases the ASCII letters only, as `toLowerCase()` does under a locale whose lower-casing of ASCII is plain (English, for one). Java's locale-sensitive Unicode case mapping is not modelled. Turkish and Azeri locales differ even on ASCII input: `I` lower-cases to the dotless `ı` (U+0131), so `MULTIPART/MIXED` fails the guard at RawFetchResponse.java:121 there, while `MultipartGuardAccepts` proves that the model accepts it.
- Java null strings for the bucket, key and body: not modelled. They are always present strings.
- `TermToBinaryCodec` and `OtpOutputStream.toByteArray`: an external Erlang term codec. `buildMessage` is an abstract function field of the encoder, standing for the message of each subclass. For this reason `StoreEncoder` and `QueryEncoder` have no model of their own, and neither does `QueryResultDecoder`: each only calls the codec.
- The abstract class and its subclasses: Dafny classes here do not inherit. One `MemoizingEncoder` class takes the subclass's `buildMessage` as a constructor argument.
- Thread safety of the unsynchronized memoization: concurrency is out of scope for this sequential model.
- TtbConverters.MemoizingEncoder.Build: does not state the stored bytes as a lasting invariant. The returned array is shared with the caller, who may write to it.
