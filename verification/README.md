# HLS playlist proxy: reference resolution and playlist rewriting

This project models the core of an HTTP proxy for HLS streams. The proxy's `/v2`
handler fetches a resource named by its `url` query parameter. When that resource is
an HLS playlist, the handler rewrites the playlist so that every reference in it
points back at the proxy (`/v2?url=…[&headers=…]`), and a player follows the
rewritten playlist through the proxy. The model covers:

- the reference resolver `getUrl` (module `Urls`): it handles an absolute `http(s)://`
  reference, a protocol-relative `//` reference, and a reference relative to the
  directory of the playlist's URL, with the `https://example.com` placeholder whenever
  it has nothing better;
- the decision whether the fetched body is a playlist (`isM3u8`);
- the line-by-line rewriter (module `Playlist`): segment lines, the
  `#EXT-X-MAP:URI="…"` tag, attributed tags carrying `URI`/`URL`, and lines passed
  through;
- the construction of proxied URLs.

The JavaScript operations the handler relies on are modelled concretely:
- string methods (`JsString`);
- the plain object that collects a tag's attributes, including its insertion order and
  the `__proto__` key (`JsObject`);
- the `application/x-www-form-urlencoded` serializer and parser behind
  `URLSearchParams` (`FormUrlEncoded`).

The WHATWG URL parser is a parameter of the model (`Urls.Parser`). A rejected string
stands for the `TypeError` that `new URL` throws.

Several behaviours of the handler are easy to misread, and the model follows the code
in each of them:
- An attributed tag is rebuilt with every value quoted, so
  `#EXT-X-KEY:METHOD=AES-128,URI="key.bin"` comes out with `METHOD="AES-128"`, not
  with `METHOD` unchanged.
- The reference of a map tag is everything after `#EXT-X-MAP:URI="` with only its first
  `"` removed. It is not the text between two quotes, so attributes after the closing
  quote (a `BYTERANGE`, say) become part of the reference.
- The attribute text of a tag is only what lies between its first and second colon.
  An absolute `URI="https://cdn.example.com/key"` is therefore cut to `URI="https`,
  and the proxied URL is that of the relative reference `https` resolved against the
  playlist's directory, not that of the absolute URL.
- Whether a `#` line is an attributed tag is decided by full Unicode lower-casing. The
  dotted capital I (U+0130) lower-cases to `i` followed by a combining dot, so the title
  in `#EXTINF:-1,SURİYE TV` mentions `uri`. The line is rebuilt as `#EXTINF:`, and
  without a colon such a line would abort the whole playlist.

## Model

| member | source | states |
|---|---|---|
| Urls.GetUrl | src/utils/index.ts:1-30 | An absolute `http(s)://` reference, in any letter case, is parsed on its own and the base is ignored. A `//` reference is parsed with `https:` in front. A relative reference with no base, or with a base whose clone fails to parse, gives `https://example.com`. Otherwise the result is the base with only its path changed, to the base's directory followed by the reference without one leading `/`. |
| Urls.Construct | src/utils/index.ts:26-28 | A string the parser rejects gives the placeholder instead of an error, so the resolver never throws. |
| Urls.HttpAbsoluteIsCaseInsensitivePrefix | src/utils/index.ts:4 | The scheme test holds exactly when the reference, with its ASCII letters lower-cased, starts with `http://` or `https://`. |
| Urls.StripLeadingSlash | src/utils/index.ts:11-13 | At most one leading `/` is removed. A reference that does not start with `//` keeps no leading `/`. |
| Urls.ReplaceLastSegment | src/utils/index.ts:16-19 | Popping the last `/`-segment and pushing the reference gives the path's directory (everything through its last `/`) followed by the reference. |
| Urls.RelativeKeepsSegments | src/utils/index.ts:15-21 | For a reference without `/`, the resolved path has as many `/`-segments as the base path. All segments but the last are kept, and the last one is the reference. |
| Urls.RootRelativeIsDirectoryRelative | src/utils/index.ts:11-19 | `/x` resolves exactly like `x`, against the base's directory and not the host's root. |
| Playlist.IsM3u8Reduces | src/logic/v2.ts:89-95 | A body is a playlist exactly when the path ends in `.m3u8` or the lower-cased content type contains one of the seven essential fragments. The non-empty test adds nothing, and lower-casing the content type beforehand changes nothing. |
| Playlist.ContentTypeListReduces | src/logic/v2.ts:3-15 | Matching a content type against the eleven fragments is the same as matching it against seven: the Apple types all contain `application/vnd.`, and one entry is a duplicate. |
| Playlist.ResponseBody | src/logic/v2.ts:89-160 | A body that is not a playlist is passed through as the upstream stream. A playlist is never streamed. It fails exactly when one of its lines fails, with the first failing line's error. Otherwise its text splits on `\n` into one line per upstream line, each the rewrite of the upstream line at the same index. |
| Playlist.ProxyQuery | src/logic/v2.ts:109-111 | The query carries `url` with the target's full string form first. It carries a second parameter, `headers` with the raw header string, exactly when a non-empty one was supplied. |
| Playlist.ProxiedUrl | src/logic/v2.ts:112 | A proxied URL starts with `/v2?url=` and contains no `"`, no `,` and no line break. |
| Playlist.ProxiedUrlReadBack | src/logic/v2.ts:27-30 | Parsing the proxied URL's query as the handler parses its own request gives back `url` as the target's string form, and `headers` exactly when it was supplied. |
| Playlist.Classify | src/logic/v2.ts:105-113 | A line is a segment exactly when it neither starts with `#` nor is all white space. It is a map tag exactly when it starts with `#EXT-X-MAP:URI="`. It is an attributed tag exactly when it is some other `#` line whose lower-cased text contains `uri` or `url`. Every other line passes through. |
| Playlist.MentionsUriAnyCase | src/logic/v2.ts:113 | A line containing `uri` or `url`, with its letters in any case, mentions a reference. |
| Playlist.DottedCapitalIMentionsUri | src/logic/v2.ts:113 | `UR`, in any case, followed by the dotted capital I also mentions one, since that letter lower-cases to `i` and a combining dot. |
| Playlist.MapReference | src/logic/v2.ts:107 | For a line starting with `#EXT-X-MAP:URI="`, the reference is the rest of the line with its first `"`, if any, taken out. |
| Playlist.MapReferenceOfLine | src/logic/v2.ts:107 | The reference taken from `#EXT-X-MAP:URI="u"t` is `u` followed by `t`: only the first quote is removed, and the text after it is kept. |
| Playlist.RewriteMap | src/logic/v2.ts:106-112 | The rewritten map tag is the prefix, then a proxied URL without quotes, then one closing `"`. |
| Playlist.MapTagReadBack | src/logic/v2.ts:106-112 | For a reference without `"`, parsing the query of the rewritten map tag gives back, as `url`, the string form of the reference (with the text after its quote) resolved against the playlist's URL. |
| Playlist.FieldEntry | src/logic/v2.ts:119-121 | A field is skipped when the text before its first `=` is empty, when it has no `=`, or when the text between its first and second `=` is empty. Otherwise the key is the trimmed text before the first `=`, and the value is the trimmed text up to the next `=` with every `"` removed. |
| Playlist.FieldOfPair | src/logic/v2.ts:119-121 | A `key=value` field with a single `=` and both sides non-empty keeps the trimmed key and the trimmed, unquoted value. |
| Playlist.QuotedFieldEntry | src/logic/v2.ts:119-121 | `key="value"` reads back as the pair `(key, value)`. |
| Playlist.ParseFields | src/logic/v2.ts:116-122 | The attribute object never holds two entries with the same key. |
| Playlist.ParseFieldsNoEquals | src/logic/v2.ts:118-122 | Fields with no `=` all fail the key-and-value test, so the object stays empty. |
| Playlist.ParseFieldsKeyOrder | src/logic/v2.ts:116-122 | The parsed object lists its keys in the order in which their first kept fields appear, without `__proto__`. |
| Playlist.ParseFieldsLastWins | src/logic/v2.ts:118-122 | A key's value is the value of the last kept field with that key. `__proto__` never becomes an own property. |
| JsObject.Assign | src/logic/v2.ts:121 | Assigning to `__proto__` changes nothing. Any other assignment makes the key hold the value and leaves every other key as it was. A new key is added last, and an existing key keeps its place. |
| JsObject.SetOwnKeepsOthers | src/logic/v2.ts:121 | Setting one own property leaves the lookup of every other key unchanged. |
| JsObject.AssignKeepsKeysDistinct | src/logic/v2.ts:140 | After an assignment, `Object.keys` still lists no key twice. |
| Playlist.ProxyAttribute | src/logic/v2.ts:124-130 | The keys and all other entries stay as they were. A missing or empty value is left alone. A non-empty value becomes the proxied URL of its resolved reference. |
| Playlist.RewrittenAttributes | src/logic/v2.ts:124-138 | The rewritten object has the parsed object's keys in the parsed object's order, still distinct. Values other than `URI` and `URL` are unchanged. The `URI` and `URL` values are each replaced by their proxied URL when non-empty. |
| Playlist.AbsoluteReferenceIsCut | src/logic/v2.ts:114-115 | The attribute text is only what lies between the first and second colon, so `key="scheme://…` is cut to `key="scheme`. |
| Playlist.AbsoluteUriBecomesScheme | src/logic/v2.ts:114-130 | An absolute `URI="https://…"` is proxied as the relative reference `https`, resolved against the playlist's directory. |
| Playlist.AttributeReadBack | src/logic/v2.ts:124-138 | When `URI` or `URL` has a non-empty value, the rewritten value is a proxied URL whose `url` parameter reads back as that value resolved against the playlist's URL. |
| Playlist.RebuildSplitsBack | src/logic/v2.ts:140-142 | A rebuilt line starts with the tag name and a colon, and is nothing more when there are no entries. Otherwise, when no key or value holds a comma, the text after the colon splits on `,` into one `key="value"` per entry, in order. |
| Playlist.AttributeTextWithoutFields | src/logic/v2.ts:113-142 | A tag whose attribute text holds no `=` is rebuilt as its tag name and a colon alone. |
| Playlist.RewriteAttributeLine | src/logic/v2.ts:113-144 | The line fails, with the line as the error, exactly when it has no colon. Otherwise it is rebuilt from the tag name (the text before the first colon) and the rewritten attributes of the text between the first two colons. |
| Playlist.RewrittenFieldsSplitBack | src/logic/v2.ts:140-142 | The rebuilt line starts with the tag name and a colon. The text after that splits on `,` into exactly one `key="value"` per attribute entry, in key order. |
| Playlist.RewriteLine | src/logic/v2.ts:103-158 | A pass-through line comes out unchanged. A line fails exactly when it is an attributed tag without a colon. A segment line becomes the proxied URL of the whole, untrimmed line resolved against the playlist's URL. |
| Playlist.SegmentReadBack | src/logic/v2.ts:151-157 | A segment line becomes a proxied URL whose `url` parameter reads back as the line resolved against the playlist's URL. |
| Playlist.RewritePlaylist | src/logic/v2.ts:99-160 | The text is split on `\n` and the lines are rewritten one by one. The whole rewrite fails exactly when the line loop fails, and with the same error. On success, splitting the joined output on `\n` gives back the loop's rewritten lines. |
| Playlist.RewrittenLinesSplitBack | src/logic/v2.ts:144-160 | No rewritten line contains a `\n`, so joining them with `\n` and splitting again gives the same lines. |
| Results.MapUntilFailure | src/logic/v2.ts:103-158 | A loop whose body may throw succeeds exactly when every element succeeds, and then gives one result per element in order. Otherwise it reports the failure of the first failing element. |
| Playlist.RewriteLines | src/logic/v2.ts:101-158 | The rewrite of all lines succeeds exactly when every line does, and the i-th output is the rewrite of the i-th line. A failure is that of the first failing line. |
| Playlist.RewriteLineKeepsOneLine | src/logic/v2.ts:103-158 | A line without a line break is never rewritten into text containing one. |
| Playlist.LineCountPreserved | src/logic/v2.ts:99-160 | Splitting the rewritten playlist on `\n` gives as many lines as the original, and each is the rewrite of the original line at the same index. |
| FormUrlEncoded.SerializeRoundTrip | src/logic/v2.ts:109-112 | Parsing a serialized parameter list gives the same pairs back, in order. |
| FormUrlEncoded.ComponentRoundTrip | src/logic/v2.ts:110 | Decoding the percent-encoded form of any string gives the string back. |
| FormUrlEncoded.Utf8RoundTrip | src/logic/v2.ts:110 | UTF-8 decoding inverts UTF-8 encoding. |
| FormUrlEncoded.Serialize | src/logic/v2.ts:112 | A serialization consists only of unreserved bytes, `+`, `%`, `=` and `&`. |
| FormUrlEncoded.EncodeUnreserved | src/logic/v2.ts:110 | A name made of unreserved bytes, such as `url`, is serialized as itself. |
| FormUrlEncoded.EncodeComponentAppend | src/logic/v2.ts:110 | The serialization of a concatenation is the concatenation of the serializations. |
| FormUrlEncoded.Get | src/logic/v2.ts:29-30 | `get` returns None exactly when no pair has the name. Otherwise it returns the value of the first pair with that name. |
| JsString.JoinSplit | src/logic/v2.ts:100 | Joining the pieces of a split with the same separator gives the original text. |
| JsString.SplitJoin | src/logic/v2.ts:160 | Splitting a join of pieces without the separator gives the pieces back. |
| JsString.Split | src/logic/v2.ts:100 | A split has at least one piece, and no piece contains the separator. |
| JsString.SplitPieces | src/logic/v2.ts:114-115 | The first piece is the text before the first separator. There is a second piece exactly when the separator occurs, and it is the text between the first and second separators. |
| JsString.Trim | src/logic/v2.ts:105 | The result is a contiguous part of the line with only white space before and after it. It is empty exactly when the line is all white space, and a non-empty result neither starts nor ends with white space. |
| JsString.IndexOf | src/logic/v2.ts:113 | The result is -1 when the pattern occurs nowhere. Otherwise it is an index where the pattern occurs, with no earlier occurrence. |
| JsString.RemoveFirst | src/logic/v2.ts:107 | A text in which the pattern does not occur is unchanged. When it occurs, exactly its first occurrence is cut out, so the result is the length of the pattern shorter. A text that starts with the pattern loses exactly that prefix. |
| JsString.RemoveAll | src/logic/v2.ts:121 | The result holds exactly the characters of the input other than the removed one. |
| JsString.RemoveAllAppend | src/logic/v2.ts:121 | Removing a character distributes over concatenation. |
| JsString.ToLower | src/logic/v2.ts:89 | The result is never shorter than the input and holds no character whose lower case is different and contains an ASCII character: no capital ASCII letter, dotted capital I or Kelvin sign. |
| JsString.ToLowerAppend | src/logic/v2.ts:89 | Lower-casing distributes over concatenation. |
| JsString.ToLowerIdempotent | src/logic/v2.ts:89 | Lower-casing a lower-cased text changes nothing. |
| JsString.ToLowerUnchanged | src/logic/v2.ts:89 | A text without such characters is its own lower case. |
| JsString.ToLowerAscii | src/logic/v2.ts:89 | On ASCII text, lower-casing is ASCII case folding. |
| Urls.HrefDistinguishesPaths | src/logic/v2.ts:110 | Two URLs that differ only in their paths have different string forms, so different resolved paths give different `url` parameters. |
| PlaylistExamples.UpperCaseSchemeIsAbsolute | src/utils/index.ts:4 | `HTTP://cdn.example.com/a.ts` counts as absolute, and its resolution ignores the base. |
| PlaylistExamples.ProtocolRelativeIsNotAbsolute | src/utils/index.ts:4-7 | A reference starting with `//` never passes the scheme test. |
| PlaylistExamples.RelativeSegmentExample | src/utils/index.ts:10-21 | `seg001.ts` against `https://cdn.example.com/videos/show/index.m3u8` resolves to `https://cdn.example.com/videos/show/seg001.ts`. |
| PlaylistExamples.TransportStreamIsPlaylist | src/logic/v2.ts:92-95 | A body served as `video/MP2T` is treated as a playlist whatever its path. |
| PlaylistExamples.NoContentTypeNoSuffix | src/logic/v2.ts:92-95 | Without a content type, `/seg.ts` is not a playlist. |
| PlaylistExamples.CommentWithoutColonAborts | src/logic/v2.ts:113-115 | `# playlist url` mentions a url but has no colon, so rewriting it fails, and with it the whole playlist. |
| PlaylistExamples.DottedCapitalIExample | src/logic/v2.ts:113-142 | `#EXTINF:-1,SURİYE TV` is read as an attributed tag and rebuilt as `#EXTINF:`, losing its duration and title. |
| PlaylistExamples.MapTagExample | src/logic/v2.ts:106-112 | With no headers supplied, `#EXT-X-MAP:URI="init.mp4"` in the playlist `https://x.com/a/b.m3u8` becomes `#EXT-X-MAP:URI="/v2?url=https%3A%2F%2Fx.com%2Fa%2Finit.mp4"`: only `:` and `/` are escaped, in upper-case hexadecimal. |

## Left out

- The request side of the handler, lines 31-86 of src/logic/v2.ts, is not modelled. The reading of `url` and `headers` from the request's query at lines 27-30 is modelled, by `FormUrlEncoded.Get` and `Playlist.ProxiedUrlReadBack`. What is left out covers:
  - the 400 responses for a missing or malformed `url`;
  - `JSON.parse` of the `headers` parameter;
  - the outgoing header set with its CORS entries and `Range`;
  - the `fetch` itself.
  The cause is I/O and foreign code: only the raw `headers` string and the playlist URL enter the model, through `Playlist.Context`.
- The response headers and status, lines 163-171 of src/logic/v2.ts, are left out because they are I/O. So are streaming and `response.text()`: the upstream body enters as a string.
- Urls.GetUrl: the WHATWG URL parser is a parameter, not a definition. The `pathname` setter is modelled as storing the joined path as given. It does not percent-encode, resolve dot segments or drop tabs and newlines. The URL Standard's parser is too large to include here.
- Urls.GetUrl: "only the path changes" is proved only for a base that re-parses to itself. Every URL the parser produced does so, but that is an assumption here and not a proof.
- Urls.Href: credentials, and URLs without a host or with an opaque path, are not represented in `Url`. The host is kept as the text the parser gives, whether it is a name or an IP address. The proxy only handles `http(s)` URLs.
- JsString.ToLower: only the characters whose lower case contains an ASCII character are mapped: the capital ASCII letters, the dotted capital I (to `i` and a combining dot) and the Kelvin sign (to `k`). Every other character is kept as it is, so `É` stays `É`. Its true lower case holds no ASCII character either, and the handler only searches lower-cased text for ASCII fragments, so which fragments are found is unchanged.
- JsObject.Keys: integer-like keys, which `Object.keys` lists first in numeric order, are listed in insertion order. No HLS attribute name is integer-like.
- FormUrlEncoded.Parse: a query that is not UTF-8 after percent-decoding is rejected, where the URL Standard substitutes U+FFFD. The proxy only reads back queries it serialized itself, which are always valid.
- The fallback at lines 24-25 and 26-28 of src/utils/index.ts is the constant `Urls.Placeholder`. The URL `https://example.com` is not parsed.
- No limits on line length or playlist size are modelled. JavaScript strings are bounded, the model's are not.
