/** The playlist side of the `/v2` proxy handler: deciding whether the fetched body
    is an HLS playlist, and rewriting a playlist line by line so that every
    reference in it (a segment line, the `URI` of `#EXT-X-MAP`, a `URI` or `URL`
    attribute of any other tag) points back at `/v2?url=…[&headers=…]`.
    Tags are read the way the handler reads them, by splitting on `:`, `,` and
    `=`, not with the quoted-string grammar of the attribute lists of section 4.2
    of RFC 8216. */
module Playlist {
  import opened Results
  import opened JsString
  import opened Urls
  import opened JsObject
  import FormUrlEncoded

  // ---------------------------------------------------------------------------
  // Classification of the fetched resource

  /** The fragment every vendor-specific content type starts with. */
  const VendorPrefix: string := "application/vnd."

  /** The content-type fragments that mark a playlist, in the handler's order,
      with its duplicate `application/x-mpegurl`; the three Apple types are
      written as extensions of the vendor fragment. */
  const PlaylistContentTypes: seq<string> := [
    VendorPrefix,
    "video/mp2t",
    "application/x-mpegurl",
    "application/mpegurl",
    "application/x-mpegurl",
    VendorPrefix + "apple.mpegurl",
    "audio/mpegurl",
    "audio/x-mpegurl",
    "video/x-mpegurl",
    VendorPrefix + "apple.mpegurl.audio",
    VendorPrefix + "apple.mpegurl.video"
  ]

  /** The content type contains at least one fragment of the list. */
  predicate MatchesPlaylistContentType(contentType: string) {
    exists i :: 0 <= i < |PlaylistContentTypes| && Includes(contentType, PlaylistContentTypes[i])
  }

  /** `isM3u8`: the path of the playlist URL ends in `.m3u8`, or the response's
      Content-Type, lower-cased, is present, non-empty and contains one of the
      fragments. */
  predicate IsM3u8(path: string, contentType: Option<string>) {
    || EndsWith(path, ".m3u8")
    || (contentType.Some? && ToLower(contentType.value) != ""
        && MatchesPlaylistContentType(ToLower(contentType.value)))
  }

  /** The fragments no other fragment of the list is contained in. */
  const EssentialContentTypes: seq<string> := [
    VendorPrefix,
    "video/mp2t",
    "application/x-mpegurl",
    "application/mpegurl",
    "audio/mpegurl",
    "audio/x-mpegurl",
    "video/x-mpegurl"
  ]

  /** A body is a playlist exactly when its path ends in `.m3u8` or its content
      type, lower-cased, contains one of the seven essential fragments: the test
      that the lower-cased type is non-empty adds nothing, since no fragment is
      empty. The decision does not change when the content type is lower-cased
      beforehand. */
  lemma IsM3u8Reduces(path: string, contentType: Option<string>)
    ensures IsM3u8(path, contentType)
            <==> || EndsWith(path, ".m3u8")
                 || (contentType.Some?
                     && exists i :: 0 <= i < |EssentialContentTypes|
                                    && Includes(ToLower(contentType.value), EssentialContentTypes[i]))
    ensures contentType.Some? ==> (IsM3u8(path, Some(ToLower(contentType.value))) <==> IsM3u8(path, contentType))
  {
    if contentType.Some? {
      var l := ToLower(contentType.value);
      ContentTypeListReduces(l);
      ToLowerIdempotent(contentType.value);
      if exists i :: 0 <= i < |EssentialContentTypes| && Includes(l, EssentialContentTypes[i]) {
        var i :| 0 <= i < |EssentialContentTypes| && Includes(l, EssentialContentTypes[i]);
        var f := EssentialContentTypes[i];
        assert |f| > 0;
        assert OccursAt(l, f, IndexOf(l, f));
      }
    }
  }

  /** Matching against the handler's list is matching against its seven essential
      fragments: the three `application/vnd.apple.…` entries contain
      `application/vnd.`, and one entry is a duplicate. */
  lemma ContentTypeListReduces(contentType: string)
    ensures MatchesPlaylistContentType(contentType)
            <==> exists i :: 0 <= i < |EssentialContentTypes| && Includes(contentType, EssentialContentTypes[i])
  {
    var full, core := PlaylistContentTypes, EssentialContentTypes;
    if MatchesPlaylistContentType(contentType) {
      var i :| 0 <= i < |full| && Includes(contentType, full[i]);
      if i == 5 || i == 9 || i == 10 {
        VendorTypeIncludesPrefix(contentType, full[i][|VendorPrefix|..]);
        assert Includes(contentType, core[0]);
      } else {
        var j := if i < 4 then i else if i == 4 then 2 else i - 2;
        assert full[i] == core[j];
      }
    }
    if exists j :: 0 <= j < |core| && Includes(contentType, core[j]) {
      var j :| 0 <= j < |core| && Includes(contentType, core[j]);
      var i := if j < 4 then j else j + 2;
      assert full[i] == core[j];
    }
  }

  /** A text containing a vendor-specific type contains the vendor fragment. */
  lemma VendorTypeIncludesPrefix(contentType: string, subtype: string)
    requires Includes(contentType, VendorPrefix + subtype)
    ensures Includes(contentType, VendorPrefix)
  {
    var t := VendorPrefix + subtype;
    assert t[..|VendorPrefix|] == VendorPrefix;
    assert OccursAt(t, VendorPrefix, 0);
    IncludesTransitive(contentType, t, VendorPrefix);
  }

  // ---------------------------------------------------------------------------
  // Proxied URLs

  /** What every rewritten reference depends on: the URL parser, the playlist's
      own URL (the handler's `scrapeUrl`, the base of every relative reference),
      and the request's raw `headers` query parameter (None when it is absent). */
  datatype Context = Context(parse: Parser, base: Url, headers: Option<string>)

  /** The handler's truth test on the raw parameter: present and non-empty. */
  predicate HeadersSupplied(headers: Option<string>) {
    headers.Some? && headers.value != ""
  }

  /** The proxy's own entry point, to which the query of a proxied URL is appended. */
  const ProxyEntry: string := "/v2?"

  /** The parameters the handler sets on a fresh `URLSearchParams`: `url` with the target's full
      string form, then `headers` with the raw parameter when one was supplied. */
  function ProxyQuery(target: Url, headers: Option<string>): (r: seq<FormUrlEncoded.Pair>)
    ensures |r| >= 1 && r[0] == ("url", Href(target))
    ensures |r| == 2 <==> HeadersSupplied(headers)
    ensures |r| == 2 ==> r[1] == ("headers", headers.value)
  {
    [("url", Href(target))] + (if HeadersSupplied(headers) then [("headers", headers.value)] else [])
  }

  /** The proxy's entry point followed by the serialized parameters: a relative
      URL on the proxy that carries no quote, comma or line break. */
  function ProxiedUrl(target: Url, headers: Option<string>): (r: string)
    ensures StartsWith(r, ProxyEntry + "url=")
    ensures forall i :: 0 <= i < |r| ==> r[i] != '"' && r[i] != '\n' && r[i] != ','
  {
    var query := FormUrlEncoded.Serialize(ProxyQuery(target, headers));
    ProxiedUrlStartsWithUrl(target, headers);
    EntryThenQuery(query);
    ProxyEntry + query
  }

  /** The serializer emits none of the characters the rewritten lines are
      delimited by. */
  lemma EntryThenQuery(query: string)
    requires forall i :: 0 <= i < |query| ==> FormUrlEncoded.IsSerializedChar(query[i])
    ensures StartsWith(query, "url=") ==> StartsWith(ProxyEntry + query, ProxyEntry + "url=")
    ensures var r := ProxyEntry + query;
            forall i :: 0 <= i < |r| ==> r[i] != '"' && r[i] != '\n' && r[i] != ','
  {
    var r := ProxyEntry + query;
    forall i | 0 <= i < |r|
      ensures r[i] != '"' && r[i] != '\n' && r[i] != ','
    {
      if i >= |ProxyEntry| {
        assert r[i] == query[i - |ProxyEntry|];
      }
    }
    if StartsWith(query, "url=") {
      assert (ProxyEntry + query)[..|ProxyEntry + "url="|] == ProxyEntry + query[..4];
    }
  }

  lemma ProxiedUrlStartsWithUrl(target: Url, headers: Option<string>)
    ensures StartsWith(FormUrlEncoded.Serialize(ProxyQuery(target, headers)), "url=")
  {
    var pairs := ProxyQuery(target, headers);
    var pieces := seq(|pairs|, i requires 0 <= i < |pairs| => FormUrlEncoded.EncodePair(pairs[i]));
    assert FormUrlEncoded.Serialize(pairs) == Join(pieces, '&');
    UrlPairStartsWithUrl(Href(target));
    JoinStartsWithFirst(pieces, '&');
    StartsWithTransitive(Join(pieces, '&'), pieces[0], "url=");
  }

  /** The serialized `url` pair starts with its own name. */
  lemma UrlPairStartsWithUrl(value: string)
    ensures StartsWith(FormUrlEncoded.EncodePair(("url", value)), "url=")
  {
    var name := "url";
    assert FormUrlEncoded.Unreserved(name[0] as int) && FormUrlEncoded.Unreserved(name[1] as int) && FormUrlEncoded.Unreserved(name[2] as int);
    FormUrlEncoded.EncodeUnreserved(name);
    var r := FormUrlEncoded.EncodePair((name, value));
    assert r == name + "=" + FormUrlEncoded.EncodeComponent(value);
    assert r[..4] == name + "=";
  }

  /** The follow-up request reads back what the proxied URL carries: its query,
      parsed as `url.searchParams` parses it, gives the target's full string
      form for `url`, and the raw `headers` parameter exactly when one was
      supplied. */
  lemma ProxiedUrlReadBack(target: Url, headers: Option<string>)
    ensures var pairs := FormUrlEncoded.Parse(ProxiedUrl(target, headers)[|ProxyEntry|..]);
            && pairs.Some?
            && FormUrlEncoded.Get(pairs.value, "url") == Some(Href(target))
            && FormUrlEncoded.Get(pairs.value, "headers")
               == if HeadersSupplied(headers) then headers else None
  {
    var query := ProxyQuery(target, headers);
    assert ProxiedUrl(target, headers)[|ProxyEntry|..] == FormUrlEncoded.Serialize(query);
    FormUrlEncoded.SerializeRoundTrip(query);
  }

  // ---------------------------------------------------------------------------
  // Classification of a playlist line

  datatype LineKind = PassThrough | MapTag | AttributeTag | SegmentReference

  /** The only form of `#EXT-X-MAP` the handler recognizes. */
  const MapPrefix: string := "#EXT-X-MAP:URI=\""

  /** The lower-cased line contains `uri` or `url`. */
  predicate MentionsUri(line: string) {
    Includes(ToLower(line), "uri") || Includes(ToLower(line), "url")
  }

  /** A pattern occurs in any text it is placed in. */
  lemma IncludesMiddle(a: string, p: string, b: string)
    ensures Includes(a + p + b, p)
  {
    var s := a + p + b;
    assert s[|a|..|a| + |p|] == p;
    assert OccursAt(s, p, |a|);
  }

  /** `w` is the lower-case word `p` with each ASCII letter in either case. */
  predicate AnyCase(w: string, p: string) {
    |w| == |p| && forall k :: 0 <= k < |w| ==> LowerChar(w[k]) == p[k]
  }

  /** A word spelling an ASCII word in any case lower-cases to that word. */
  lemma LowerWord(w: string, p: string)
    requires AnyCase(w, p) && forall k :: 0 <= k < |p| ==> p[k] < 128 as char
    ensures ToLower(w) == p
  {
    assert forall k :: 0 <= k < |w| ==> w[k] < 128 as char by {
      forall k | 0 <= k < |w|
        ensures w[k] < 128 as char
      {
        assert LowerChar(w[k]) == p[k];
      }
    }
    ToLowerAscii(w);
    assert AsciiLower(w) == p;
  }

  /** A line mentions a reference whenever it contains `uri` or `url` with its
      letters in any case. */
  lemma MentionsUriAnyCase(a: string, w: string, b: string)
    requires AnyCase(w, "uri") || AnyCase(w, "url")
    ensures MentionsUri(a + w + b)
  {
    ToLowerAppend(a + w, b);
    ToLowerAppend(a, w);
    var p := if AnyCase(w, "uri") then "uri" else "url";
    assert p[0] < 128 as char && p[1] < 128 as char && p[2] < 128 as char;
    LowerWord(w, p);
    IncludesMiddle(ToLower(a), p, ToLower(b));
  }

  /** The dotted capital I lower-cases to `i` and a combining dot, so `UR`
      followed by it, in any case, mentions `uri`. */
  lemma DottedCapitalIMentionsUri(a: string, w: string, b: string)
    requires AnyCase(w, "ur")
    ensures MentionsUri(a + (w + [DottedCapitalI]) + b)
  {
    var d := w + [DottedCapitalI];
    LowerDotted(w);
    ToLowerAppend(a + d, b);
    ToLowerAppend(a, d);
    IncludesMiddle(ToLower(a), "uri", [CombiningDot] + ToLower(b));
    assert ToLower(a) + ("uri" + [CombiningDot]) + ToLower(b) == ToLower(a) + "uri" + ([CombiningDot] + ToLower(b));
  }

  lemma LowerDotted(w: string)
    requires AnyCase(w, "ur")
    ensures ToLower(w + [DottedCapitalI]) == "uri" + [CombiningDot]
  {
    var p, z := "ur", [DottedCapitalI];
    assert p[0] < 128 as char && p[1] < 128 as char;
    LowerWord(w, p);
    ToLowerAppend(w, z);
    assert ToLower(z) == ['i', CombiningDot] + "";
    assert p + ['i', CombiningDot] == "uri" + [CombiningDot];
  }

  /** A white-space line contains no letter, so it mentions no reference. */
  lemma WhiteSpaceMentionsNothing(line: string)
    ensures AllWhiteSpace(line) ==> !MentionsUri(line)
  {
    if AllWhiteSpace(line) {
      WhiteSpaceLacks(line, "uri");
      WhiteSpaceLacks(line, "url");
    }
  }

  lemma WhiteSpaceLacks(line: string, p: string)
    requires AllWhiteSpace(line) && |p| > 0 && !IsWhiteSpace(p[0])
    ensures !Includes(ToLower(line), p)
  {
    assert forall i :: 0 <= i < |line| ==> !LowersToAscii(line[i]);
    ToLowerUnchanged(line);
    forall i | 0 <= i
      ensures !OccursAt(line, p, i)
    {
      if i + |p| <= |line| {
        assert line[i..i + |p|][0] == line[i];
      }
    }
  }

  /** The branch of the handler's loop a line takes. */
  function Classify(line: string): (k: LineKind)
    ensures k == SegmentReference <==> !StartsWith(line, "#") && !AllWhiteSpace(line)
    ensures k == MapTag <==> StartsWith(line, MapPrefix)
    ensures k == AttributeTag <==> StartsWith(line, "#") && !StartsWith(line, MapPrefix) && MentionsUri(line)
    ensures k == PassThrough <==>
              AllWhiteSpace(line) || (StartsWith(line, "#") && !StartsWith(line, MapPrefix) && !MentionsUri(line))
  {
    WhiteSpaceMentionsNothing(line);
    assert StartsWith(line, MapPrefix) ==> line[0] == '#';
    if StartsWith(line, "#") || Trim(line) == "" then
      if StartsWith(line, MapPrefix) then MapTag
      else if MentionsUri(line) then AttributeTag
      else PassThrough
    else SegmentReference
  }

  // ---------------------------------------------------------------------------
  // `#EXT-X-MAP:URI="…"`

  /** The map tag's reference: the first occurrence of the prefix removed, then
      the first quote. For a line that starts with the prefix, this is the rest
      of the line with its first quote, if any, taken out. */
  function MapReference(line: string): (r: string)
    ensures StartsWith(line, MapPrefix) ==>
              var rest := line[|MapPrefix|..];
              r == if '"' in rest then Before(rest, '"') + After(rest, '"') else rest
  {
    var rest := RemoveFirst(line, MapPrefix);
    QuoteRemoved(rest);
    RemoveFirst(rest, "\"")
  }

  /** Removing the first quote from a text. */
  lemma QuoteRemoved(rest: string)
    ensures RemoveFirst(rest, "\"") == if '"' in rest then Before(rest, '"') + After(rest, '"') else rest
  {
    if '"' in rest {
      var i := FirstIndex(rest, '"');
      assert rest == rest[..i] + ['"'] + rest[i + 1..];
      RemoveFirstChar(rest[..i], '"', rest[i + 1..]);
    } else {
      forall i | 0 <= i
        ensures !OccursAt(rest, "\"", i)
      {
        if i + 1 <= |rest| {
          assert rest[i..i + 1] == [rest[i]];
        }
      }
    }
  }

  /** The map tag's reference is what follows the prefix with its first quote
      taken out: for `URI="x"` alone it is `x`, and whatever follows the closing
      quote is kept as part of the reference. */
  lemma MapReferenceOfLine(uri: string, tail: string)
    requires '"' !in uri
    ensures MapReference(MapPrefix + uri + "\"" + tail) == uri + tail
  {
    var line := MapPrefix + uri + "\"" + tail;
    assert StartsWith(line, MapPrefix);
    assert RemoveFirst(line, MapPrefix) == uri + ['"'] + tail;
    RemoveFirstChar(uri, '"', tail);
  }

  /** The rewritten map tag: the prefix, the proxied URL and one closing quote, so
      that the line holds a single quoted `URI` attribute and nothing else. */
  function RewriteMap(ctx: Context, line: string): (r: string)
    ensures |r| > |MapPrefix| && StartsWith(r, MapPrefix) && r[|r| - 1] == '"'
    ensures var inner := r[|MapPrefix|..|r| - 1];
            StartsWith(inner, ProxyEntry + "url=") && '"' !in inner
  {
    var proxied := ProxiedUrl(GetUrl(ctx.parse, MapReference(line), Some(ctx.base)), ctx.headers);
    var r := MapPrefix + proxied + "\"";
    assert r[|MapPrefix|..|r| - 1] == proxied;
    assert r[..|MapPrefix|] == MapPrefix;
    r
  }

  /** The follow-up request for a rewritten map tag fetches the resolution of the
      tag's reference, the text after the closing quote included. */
  lemma MapTagReadBack(ctx: Context, uri: string, tail: string)
    requires '"' !in uri
    ensures var r := RewriteMap(ctx, MapPrefix + uri + "\"" + tail);
            var query := FormUrlEncoded.Parse(r[|MapPrefix| + |ProxyEntry|..|r| - 1]);
            && query.Some?
            && FormUrlEncoded.Get(query.value, "url") == Some(Href(GetUrl(ctx.parse, uri + tail, Some(ctx.base))))
  {
    var line := MapPrefix + uri + "\"" + tail;
    MapReferenceOfLine(uri, tail);
    var target := GetUrl(ctx.parse, uri + tail, Some(ctx.base));
    var proxied := ProxiedUrl(target, ctx.headers);
    var r := RewriteMap(ctx, line);
    assert r == MapPrefix + proxied + "\"";
    assert r[|MapPrefix| + |ProxyEntry|..|r| - 1] == proxied[|ProxyEntry|..];
    ProxiedUrlReadBack(target, ctx.headers);
  }

  // ---------------------------------------------------------------------------
  // Attributed tags

  /** One comma-separated field, split on `=`: it is skipped (None) when the first
      piece is empty or there is no second piece or the second piece is empty.
      Otherwise it gives the trimmed first piece as the key and the trimmed
      second piece with every `"` removed as the value. */
  function FieldEntry(field: string): (r: Option<(string, string)>)
    ensures r.None? <==> Before(field, '=') == "" || '=' !in field || Before(After(field, '='), '=') == ""
    ensures r.Some? ==> r.value == (Trim(Before(field, '=')), RemoveAll(Trim(Before(After(field, '='), '=')), '"'))
  {
    var parts := Split(field, '=');
    SplitPieces(field, '=');
    if parts[0] == "" || |parts| < 2 || parts[1] == "" then None
    else Some((Trim(parts[0]), RemoveAll(Trim(parts[1]), '"')))
  }

  /** A field with a single `=` and something on both sides of it is kept. */
  lemma FieldOfPair(key: string, value: string)
    requires key != "" && value != "" && '=' !in key && '=' !in value
    ensures FieldEntry(key + "=" + value) == Some((Trim(key), RemoveAll(Trim(value), '"')))
  {
    BeforeAfterFirst(key, '=', value);
    assert value[..|value|] == value;
  }

  /** `key="value"` reads back as the pair, its quotes removed. */
  lemma QuotedFieldEntry(key: string, value: string)
    requires key != "" && '=' !in key && !IsWhiteSpace(key[0]) && !IsWhiteSpace(key[|key| - 1])
    requires '=' !in value && '"' !in value
    ensures FieldEntry(key + "=" + ("\"" + value + "\"")) == Some((key, value))
  {
    var quoted := "\"" + value + "\"";
    QuotedUntouched(value);
    TrimUntouched(key);
    FieldOfPair(key, quoted);
  }

  /** The loop over the fields: each kept field is assigned in turn into an
      object that starts empty. */
  function ParseFields(fields: seq<string>): (r: Entries)
    ensures DistinctKeys(r)
    decreases |fields|
  {
    if |fields| == 0 then []
    else
      var acc := ParseFields(fields[..|fields| - 1]);
      match FieldEntry(fields[|fields| - 1])
      case None => acc
      case Some((k, v)) =>
        AssignKeepsKeysDistinct(acc, k, v);
        Assign(acc, k, v)
  }

  /** Fields without `=` are all skipped, so they leave the object empty. */
  lemma {:induction false} ParseFieldsNoEquals(fields: seq<string>)
    requires forall i :: 0 <= i < |fields| ==> '=' !in fields[i]
    ensures ParseFields(fields) == []
    decreases |fields|
  {
    if |fields| > 0 {
      ParseFieldsNoEquals(fields[..|fields| - 1]);
    }
  }

  /** Taking the quotes out of a quoted, or half-quoted, quote-free text. */
  lemma QuotesRemoved(value: string)
    requires '"' !in value
    ensures RemoveAll("\"" + value, '"') == value
    ensures RemoveAll("\"" + value + "\"", '"') == value
  {
    var quote := "\"";
    assert RemoveAll(quote, '"') == "" by {
      assert quote[1..] == "";
    }
    RemoveAllAppend(quote, value, '"');
    RemoveAllAppend(quote + value, quote, '"');
  }

  lemma QuotedUntouched(value: string)
    requires '=' !in value && '"' !in value
    ensures var quoted := "\"" + value + "\"";
            '=' !in quoted && RemoveAll(Trim(quoted), '"') == value
  {
    var quoted := "\"" + value + "\"";
    assert quoted[0] == '"' && quoted[|quoted| - 1] == '"';
    TrimUntouched(quoted);
    QuotesRemoved(value);
  }

  lemma HalfQuotedUntouched(value: string)
    requires '=' !in value && '"' !in value && value != "" && !IsWhiteSpace(value[|value| - 1])
    ensures var quoted := "\"" + value;
            '=' !in quoted && RemoveAll(Trim(quoted), '"') == value
  {
    var quoted := "\"" + value;
    assert quoted[0] == '"' && quoted[|quoted| - 1] == value[|value| - 1];
    TrimUntouched(quoted);
    QuotesRemoved(value);
  }

  /** One kept field gives an object with that one own property. */
  lemma SingleField(field: string, k: string, v: string)
    requires FieldEntry(field) == Some((k, v)) && k != ProtoKey
    ensures Lookup(ParseFields([field]), k) == Some(v)
  {
    assert [field][..0] == [];
  }

  /** The entry a field contributes to the list of kept fields. */
  function EntryList(field: string): seq<(string, string)> {
    match FieldEntry(field)
    case None => []
    case Some(e) => [e]
  }

  /** The fields that survive the loop's `continue`, in order. */
  function KeptEntries(fields: seq<string>): seq<(string, string)>
    decreases |fields|
  {
    if |fields| == 0 then [] else KeptEntries(fields[..|fields| - 1]) + EntryList(fields[|fields| - 1])
  }

  /** The keys of the pairs in order of first occurrence, `__proto__` left out. */
  function FirstKeys(pairs: seq<(string, string)>): seq<string>
    decreases |pairs|
  {
    if |pairs| == 0 then []
    else
      var keys := FirstKeys(pairs[..|pairs| - 1]);
      var k := pairs[|pairs| - 1].0;
      if k == ProtoKey || k in keys then keys else keys + [k]
  }

  /** The parsed object lists its keys in the order their first kept fields
      appear, without `__proto__`. */
  lemma {:induction false} ParseFieldsKeyOrder(fields: seq<string>)
    ensures Keys(ParseFields(fields)) == FirstKeys(KeptEntries(fields))
    decreases |fields|
  {
    if |fields| > 0 {
      var init := fields[..|fields| - 1];
      var kept := KeptEntries(init);
      ParseFieldsKeyOrder(init);
      match FieldEntry(fields[|fields| - 1])
      case None =>
        assert KeptEntries(fields) == kept + [] == kept;
      case Some(e) =>
        assert KeptEntries(fields) == kept + [e];
        assert (kept + [e])[..|kept|] == kept;
    }
  }

  /** The value of the last pair with key `k`. */
  function LastValue(pairs: seq<(string, string)>, k: string): (r: Option<string>)
    ensures r.None? <==> forall i :: 0 <= i < |pairs| ==> pairs[i].0 != k
    decreases |pairs|
  {
    if |pairs| == 0 then None
    else if pairs[|pairs| - 1].0 == k then Some(pairs[|pairs| - 1].1)
    else
      var r := LastValue(pairs[..|pairs| - 1], k);
      assert forall i :: 0 <= i < |pairs| - 1 ==> pairs[..|pairs| - 1][i] == pairs[i];
      r
  }

  lemma LastValueSnoc(pairs: seq<(string, string)>, more: seq<(string, string)>, k: string)
    requires |more| <= 1
    ensures LastValue(pairs + more, k)
            == if |more| == 1 && more[0].0 == k then Some(more[0].1) else LastValue(pairs, k)
  {
    if |more| == 1 {
      assert (pairs + more)[..|pairs|] == pairs;
    } else {
      assert pairs + more == pairs;
    }
  }

  /** A repeated key keeps the value of its last kept field; `__proto__` is never
      an own property. */
  lemma {:induction false} ParseFieldsLastWins(fields: seq<string>, k: string)
    ensures Lookup(ParseFields(fields), k)
            == if k == ProtoKey then None else LastValue(KeptEntries(fields), k)
    decreases |fields|
  {
    if |fields| > 0 {
      var init := fields[..|fields| - 1];
      var last := fields[|fields| - 1];
      ParseFieldsLastWins(init, k);
      LastValueSnoc(KeptEntries(init), EntryList(last), k);
    }
  }

  /** A reference attribute with a non-empty value is replaced by the proxied URL
      of the value resolved against the playlist's URL. */
  function ProxyAttribute(ctx: Context, e: Entries, key: string): (r: Entries)
    requires key != ProtoKey
    ensures Keys(r) == Keys(e)
    ensures forall k :: k != key ==> Lookup(r, k) == Lookup(e, k)
    ensures (Lookup(e, key).None? || Lookup(e, key) == Some("")) ==> r == e
    ensures Lookup(e, key).Some? && Lookup(e, key).value != "" ==>
              Lookup(r, key) == Some(ProxiedUrl(GetUrl(ctx.parse, Lookup(e, key).value, Some(ctx.base)), ctx.headers))
  {
    match Lookup(e, key)
    case Some(v) =>
      if v != "" then Assign(e, key, ProxiedUrl(GetUrl(ctx.parse, v, Some(ctx.base)), ctx.headers)) else e
    case None => e
  }

  /** What a reference attribute holds after the handler's truth test: a non-empty value
      is replaced by its proxied URL; a missing or empty one is left as it is. */
  function ProxiedValue(ctx: Context, v: Option<string>): Option<string> {
    if v.Some? && v.value != "" then Some(ProxiedUrl(GetUrl(ctx.parse, v.value, Some(ctx.base)), ctx.headers)) else v
  }

  /** The attribute object after both of its reference entries are proxied. */
  function RewrittenAttributes(ctx: Context, attributeText: string): (r: Entries)
    ensures var parsed := ParseFields(Split(attributeText, ','));
            && Keys(r) == Keys(parsed)
            && DistinctKeys(r)
            && (forall k :: k != "URI" && k != "URL" ==> Lookup(r, k) == Lookup(parsed, k))
            && Lookup(r, "URI") == ProxiedValue(ctx, Lookup(parsed, "URI"))
            && Lookup(r, "URL") == ProxiedValue(ctx, Lookup(parsed, "URL"))
  {
    var parsed := ParseFields(Split(attributeText, ','));
    var withUri := ProxyAttribute(ctx, parsed, "URI");
    var r := ProxyAttribute(ctx, withUri, "URL");
    KeysDistinct(parsed, r);
    r
  }

  /** The attribute text is what lies between the first two colons, so an
      absolute reference is cut at the colon after its scheme. */
  lemma AbsoluteReferenceIsCut(tag: string, key: string, scheme: string, rest: string)
    requires ':' !in tag && ':' !in key && ':' !in scheme
    ensures var line := tag + ":" + (key + "=\"" + scheme + ":" + rest);
            ':' in line && Before(After(line, ':'), ':') == key + "=\"" + scheme
  {
    var head := key + "=\"" + scheme;
    var line := tag + ":" + (key + "=\"" + scheme + ":" + rest);
    assert line == tag + [':'] + (head + [':'] + rest);
    BeforeAfterFirst(tag, ':', head + [':'] + rest);
    assert ':' !in head;
    BeforeAfterFirst(head, ':', rest);
  }

  /** So `URI="https://…"` is proxied as the reference `https`, resolved against
      the playlist's directory. */
  lemma AbsoluteUriBecomesScheme(ctx: Context, tag: string, scheme: string, rest: string)
    requires ':' !in tag && ':' !in scheme && '=' !in scheme && '"' !in scheme && ',' !in scheme
    requires scheme != "" && !IsWhiteSpace(scheme[|scheme| - 1])
    ensures var line := tag + ":" + ("URI" + "=\"" + scheme + ":" + rest);
            Lookup(RewrittenAttributes(ctx, Before(After(line, ':'), ':')), "URI")
            == Some(ProxiedUrl(GetUrl(ctx.parse, scheme, Some(ctx.base)), ctx.headers))
  {
    var key := "URI";
    assert key[0] == 'U' && key[|key| - 1] == 'I';
    assert key != ProtoKey by {
      assert |key| != |ProtoKey|;
    }
    AbsoluteReferenceIsCut(tag, key, scheme, rest);
    CutField(key, scheme);
  }

  /** `key="scheme`, the field an absolute reference leaves behind, keeps the
      scheme as its value. */
  lemma CutField(key: string, scheme: string)
    requires key != "" && key != ProtoKey && '=' !in key && ',' !in key
    requires !IsWhiteSpace(key[0]) && !IsWhiteSpace(key[|key| - 1])
    requires '=' !in scheme && '"' !in scheme && ',' !in scheme
    requires scheme != "" && !IsWhiteSpace(scheme[|scheme| - 1])
    ensures Lookup(ParseFields(Split(key + "=\"" + scheme, ',')), key) == Some(scheme)
  {
    var value := "\"" + scheme;
    var text := key + "=" + value;
    assert text == key + "=\"" + scheme;
    assert ',' !in text;
    SplitNone(text, ',');
    HalfQuotedUntouched(scheme);
    TrimUntouched(key);
    FieldOfPair(key, value);
    SingleField(text, key, scheme);
  }

  /** The follow-up request for a rewritten `URI` or `URL` attribute fetches the
      resolution of the attribute's original value. */
  lemma AttributeReadBack(ctx: Context, attributeText: string, key: string)
    requires key == "URI" || key == "URL"
    requires var v := Lookup(ParseFields(Split(attributeText, ',')), key); v.Some? && v.value != ""
    ensures var v := Lookup(ParseFields(Split(attributeText, ',')), key).value;
            var w := Lookup(RewrittenAttributes(ctx, attributeText), key);
            && w.Some? && StartsWith(w.value, ProxyEntry)
            && var query := FormUrlEncoded.Parse(w.value[|ProxyEntry|..]);
               && query.Some?
               && FormUrlEncoded.Get(query.value, "url") == Some(Href(GetUrl(ctx.parse, v, Some(ctx.base))))
  {
    var v := Lookup(ParseFields(Split(attributeText, ',')), key).value;
    var target := GetUrl(ctx.parse, v, Some(ctx.base));
    ProxiedUrlReadBack(target, ctx.headers);
    var r := ProxiedUrl(target, ctx.headers);
    assert r[..|ProxyEntry|] == r[..|ProxyEntry + "url="|][..|ProxyEntry|];
  }

  lemma KeysDistinct(e: Entries, r: Entries)
    requires DistinctKeys(e) && Keys(r) == Keys(e)
    ensures DistinctKeys(r)
  {
    var ks := Keys(r);
    assert forall i :: 0 <= i < |r| ==> r[i].0 == ks[i] == e[i].0;
  }

  /** One entry written back as its key, `=`, and its value in double quotes. */
  function QuotedField(entry: (string, string)): string {
    entry.0 + "=\"" + entry.1 + "\""
  }

  /** The reconstructed line: the tag name, a colon, and every entry as
      `key="value"`, joined by commas, in the object's key order. */
  function Rebuild(topKey: string, e: Entries): string {
    topKey + ":" + Join(seq(|e|, i requires 0 <= i < |e| => QuotedField(e[i])), ',')
  }

  /** A line without a colon has no second `:`-piece, and reading the attribute
      text from it throws a `TypeError`, which aborts the whole rewrite. */
  datatype RewriteError = AttributeListMissing(line: string)

  /** The attributed-tag branch: the tag name is the text before the first colon,
      the attribute text is only the text between the first and second colon. */
  function RewriteAttributeLine(ctx: Context, line: string): (r: Result<string, RewriteError>)
    ensures r.Failure? <==> ':' !in line
    ensures r.Failure? ==> r.error == AttributeListMissing(line)
    ensures r.Success? ==>
              r.value == Rebuild(Before(line, ':'), RewrittenAttributes(ctx, Before(After(line, ':'), ':')))
  {
    var parts := Split(line, ':');
    SplitPieces(line, ':');
    if |parts| < 2 then Failure(AttributeListMissing(line))
    else Success(Rebuild(parts[0], RewrittenAttributes(ctx, parts[1])))
  }

  /** An attributed tag whose attribute text holds no `=` is rebuilt as its tag
      name and a colon alone: whatever followed the colon is dropped. */
  lemma AttributeTextWithoutFields(ctx: Context, tag: string, text: string)
    requires ':' !in tag && ':' !in text && '=' !in text
    ensures RewriteAttributeLine(ctx, tag + ":" + text) == Success(tag + ":")
  {
    var line := tag + ":" + text;
    assert line == tag + [':'] + text;
    BeforeAfterFirst(tag, ':', text);
    assert Before(text, ':') == text by {
      assert text[..|text|] == text;
    }
    SplitPiecesWithin(text, ',', '=');
    ParseFieldsNoEquals(Split(text, ','));
    var e := RewrittenAttributes(ctx, text);
    assert |Keys(e)| == 0;
    RebuildSplitsBack(tag, e);
  }

  // ---------------------------------------------------------------------------
  // Lines and whole playlists

  /** One iteration of the handler's loop. */
  function RewriteLine(ctx: Context, line: string): (r: Result<string, RewriteError>)
    ensures Classify(line) == PassThrough ==> r == Success(line)
    ensures r.Failure? <==> Classify(line) == AttributeTag && ':' !in line
    ensures Classify(line) == SegmentReference ==>
              r == Success(ProxiedUrl(GetUrl(ctx.parse, line, Some(ctx.base)), ctx.headers))
  {
    match Classify(line)
    case PassThrough => Success(line)
    case MapTag => Success(RewriteMap(ctx, line))
    case AttributeTag => RewriteAttributeLine(ctx, line)
    case SegmentReference => Success(ProxiedUrl(GetUrl(ctx.parse, line, Some(ctx.base)), ctx.headers))
  }

  /** The loop over all lines: it stops at the first line that throws. */
  function RewriteLines(ctx: Context, lines: seq<string>): (r: Result<seq<string>, RewriteError>)
    ensures r.Success? <==> forall i :: 0 <= i < |lines| ==> RewriteLine(ctx, lines[i]).Success?
    ensures r.Success? ==> |r.value| == |lines|
                           && forall i :: 0 <= i < |lines| ==> RewriteLine(ctx, lines[i]) == Success(r.value[i])
    ensures r.Failure? ==> exists i :: 0 <= i < |lines| && RewriteLine(ctx, lines[i]) == Failure(r.error)
                                       && forall j :: 0 <= j < i ==> RewriteLine(ctx, lines[j]).Success?
  {
    MapUntilFailure(line => RewriteLine(ctx, line), lines)
  }

  /** The follow-up request for a rewritten segment line fetches the resolution
      of the whole line. */
  lemma SegmentReadBack(ctx: Context, line: string)
    requires Classify(line) == SegmentReference
    ensures var r := RewriteLine(ctx, line).value;
            var query := FormUrlEncoded.Parse(r[|ProxyEntry|..]);
            && StartsWith(r, ProxyEntry)
            && query.Some?
            && FormUrlEncoded.Get(query.value, "url") == Some(Href(GetUrl(ctx.parse, line, Some(ctx.base))))
  {
    var target := GetUrl(ctx.parse, line, Some(ctx.base));
    ProxiedUrlReadBack(target, ctx.headers);
    var r := ProxiedUrl(target, ctx.headers);
    assert r[..|ProxyEntry|] == r[..|ProxyEntry + "url="|][..|ProxyEntry|];
  }

  /** The playlist text split on `\n`, each line rewritten, joined with `\n`. It
      succeeds exactly when the loop over the lines does, and fails with the
      loop's error; splitting a rewritten playlist on `\n` again gives back
      exactly the lines the loop produced. */
  function RewritePlaylist(ctx: Context, text: string): (r: Result<string, RewriteError>)
    ensures var rewritten := RewriteLines(ctx, Split(text, '\n'));
            && r.Success? == rewritten.Success?
            && (r.Failure? ==> r.error == rewritten.error)
            && (r.Success? ==> Split(r.value, '\n') == rewritten.value)
  {
    var lines := Split(text, '\n');
    match RewriteLines(ctx, lines)
    case Failure(e) => Failure(e)
    case Success(rewritten) =>
      RewrittenLinesSplitBack(ctx, lines);
      Success(Join(rewritten, '\n'))
  }

  /** The rewritten lines hold no line break, so joining them with `\n` and
      splitting again gives them back. */
  lemma RewrittenLinesSplitBack(ctx: Context, lines: seq<string>)
    requires forall i :: 0 <= i < |lines| ==> '\n' !in lines[i]
    requires RewriteLines(ctx, lines).Success? && |lines| >= 1
    ensures Split(Join(RewriteLines(ctx, lines).value, '\n'), '\n') == RewriteLines(ctx, lines).value
  {
    var rewritten := RewriteLines(ctx, lines).value;
    forall i | 0 <= i < |rewritten|
      ensures '\n' !in rewritten[i]
    {
      RewriteLineKeepsOneLine(ctx, lines[i]);
    }
    SplitJoin(rewritten, '\n');
  }

  /** A rewritten line never holds a line break of its own. */
  lemma RewriteLineKeepsOneLine(ctx: Context, line: string)
    requires '\n' !in line
    ensures RewriteLine(ctx, line).Success? ==> '\n' !in RewriteLine(ctx, line).value
  {
    match Classify(line)
    case PassThrough =>
    case MapTag =>
      ProxiedKeepsOneLine(GetUrl(ctx.parse, MapReference(line), Some(ctx.base)), ctx.headers);
      var r := RewriteMap(ctx, line);
      assert r == MapPrefix + ProxiedUrl(GetUrl(ctx.parse, MapReference(line), Some(ctx.base)), ctx.headers) + "\"";
    case AttributeTag =>
      if ':' in line {
        AttributeLineKeepsOneLine(ctx, line);
      }
    case SegmentReference =>
      ProxiedKeepsOneLine(GetUrl(ctx.parse, line, Some(ctx.base)), ctx.headers);
  }

  lemma ProxiedKeepsOneLine(target: Url, headers: Option<string>)
    ensures '\n' !in ProxiedUrl(target, headers)
  {
    var r := ProxiedUrl(target, headers);
    assert forall i :: 0 <= i < |r| ==> r[i] != '\n';
  }

  lemma AttributeLineKeepsOneLine(ctx: Context, line: string)
    requires '\n' !in line && ':' in line
    ensures '\n' !in RewriteAttributeLine(ctx, line).value
  {
    var top := Before(line, ':');
    var attributes := Before(After(line, ':'), ':');
    assert '\n' !in After(line, ':');
    AttributesAvoid(ctx, attributes, '\n');
    RebuildAvoids(top, RewrittenAttributes(ctx, attributes), '\n');
  }

  lemma RebuildAvoids(top: string, e: Entries, c: char)
    requires c != ',' && c != '=' && c != '"' && c != ':' && c !in top && Avoids(e, c)
    ensures c !in Rebuild(top, e)
  {
    var fields := seq(|e|, i requires 0 <= i < |e| => QuotedField(e[i]));
    forall i | 0 <= i < |fields|
      ensures c !in fields[i]
    {
      assert fields[i] == e[i].0 + "=\"" + e[i].1 + "\"";
    }
    JoinExcludes(fields, ',', c);
  }

  /** Every entry of a rewritten attributed tag comes back as exactly one
      `key="value"` field when the text after the tag name is split on commas:
      no key or value, proxied or not, holds a comma of its own. */
  lemma RewrittenFieldsSplitBack(ctx: Context, line: string)
    requires ':' in line
    ensures var top, e := Before(line, ':'), RewrittenAttributes(ctx, Before(After(line, ':'), ':'));
            var r := RewriteAttributeLine(ctx, line).value;
            && StartsWith(r, top + ":")
            && (|e| >= 1 ==> Split(r[|top| + 1..], ',') == seq(|e|, i requires 0 <= i < |e| => QuotedField(e[i])))
  {
    var top, e := Before(line, ':'), RewrittenAttributes(ctx, Before(After(line, ':'), ':'));
    AttributesAvoid(ctx, Before(After(line, ':'), ':'), ',');
    RebuildSplitsBack(top, e);
  }

  /** A rebuilt line is the tag name and a colon, alone when there are no
      entries; otherwise the text after the colon splits on commas into one
      `key="value"` field per entry, in order, when no key or value holds a
      comma. */
  lemma RebuildSplitsBack(top: string, e: Entries)
    requires Avoids(e, ',')
    ensures StartsWith(Rebuild(top, e), top + ":")
    ensures |e| == 0 ==> Rebuild(top, e) == top + ":"
    ensures |e| >= 1 ==> Split(Rebuild(top, e)[|top| + 1..], ',') == seq(|e|, i requires 0 <= i < |e| => QuotedField(e[i]))
  {
    assert Rebuild(top, e)[..|top| + 1] == top + ":";
    var fields := seq(|e|, i requires 0 <= i < |e| => QuotedField(e[i]));
    forall i | 0 <= i < |fields|
      ensures ',' !in fields[i]
    {
      assert fields[i] == e[i].0 + "=\"" + e[i].1 + "\"";
    }
    assert Rebuild(top, e)[|top| + 1..] == Join(fields, ',');
    if |e| >= 1 {
      SplitJoin(fields, ',');
    } else {
      assert Rebuild(top, e) == top + ":" + "";
    }
  }

  /** Keys and values of the rewritten attributes avoid a character that the
      attribute text and every proxied URL avoid. */
  lemma AttributesAvoid(ctx: Context, attributeText: string, c: char)
    requires (c == '\n' && c !in attributeText) || c == ','
    ensures Avoids(RewrittenAttributes(ctx, attributeText), c)
  {
    var fields := Split(attributeText, ',');
    if c != ',' {
      SplitPiecesWithin(attributeText, ',', c);
    }
    ParseFieldsAvoid(fields, c);
    var parsed := ParseFields(fields);
    var withUri := ProxyAttribute(ctx, parsed, "URI");
    ProxyAttributeAvoids(ctx, parsed, "URI", c);
    ProxyAttributeAvoids(ctx, withUri, "URL", c);
  }

  lemma ProxyAttributeAvoids(ctx: Context, e: Entries, key: string, c: char)
    requires key != ProtoKey && (c == '\n' || c == ',') && Avoids(e, c) && c !in key
    ensures Avoids(ProxyAttribute(ctx, e, key), c)
  {
    match Lookup(e, key)
    case Some(v) =>
      if v != "" {
        SetOwnAvoids(e, key, ProxiedUrl(GetUrl(ctx.parse, v, Some(ctx.base)), ctx.headers), c);
      }
    case None =>
  }

  lemma {:induction false} ParseFieldsAvoid(fields: seq<string>, c: char)
    requires forall i :: 0 <= i < |fields| ==> c !in fields[i]
    ensures Avoids(ParseFields(fields), c)
    decreases |fields|
  {
    if |fields| > 0 {
      var init := fields[..|fields| - 1];
      ParseFieldsAvoid(init, c);
      var f := fields[|fields| - 1];
      match FieldEntry(f)
      case None =>
      case Some((k, v)) =>
        SplitPieces(f, '=');
        SplitPiecesWithin(f, '=', c);
        var parts := Split(f, '=');
        assert c !in parts[0] && c !in parts[1];
        if k != ProtoKey {
          SetOwnAvoids(ParseFields(init), k, v, c);
        }
    }
  }

  /** One output line per input line, in order: splitting the rewritten playlist
      on `\n` gives exactly the rewritten lines. */
  lemma LineCountPreserved(ctx: Context, text: string)
    requires RewritePlaylist(ctx, text).Success?
    ensures var lines, out := Split(text, '\n'), Split(RewritePlaylist(ctx, text).value, '\n');
            && |out| == |lines|
            && forall i :: 0 <= i < |lines| ==> RewriteLine(ctx, lines[i]) == Success(out[i])
  {
  }

  // ---------------------------------------------------------------------------
  // The response body

  /** The body of the proxy's response: the upstream body passed through as a
      stream, or the rewritten playlist text. */
  datatype Body = UpstreamStream | Rewritten(text: string)

  /** The body of the response: a resource that is not a playlist is passed
      through as the upstream stream. A playlist is never streamed: it fails
      exactly when one of its lines fails, with the error of the first failing
      line, and otherwise it is replaced by a text that splits on `\n` into one
      line per upstream line, each the rewrite of the upstream line at its
      index. */
  function ResponseBody(ctx: Context, contentType: Option<string>, upstreamText: string): (r: Result<Body, RewriteError>)
    ensures !IsM3u8(ctx.base.path, contentType) ==> r == Success(UpstreamStream)
    ensures var lines := Split(upstreamText, '\n');
            IsM3u8(ctx.base.path, contentType) ==>
              && (r.Success? <==> forall i :: 0 <= i < |lines| ==> RewriteLine(ctx, lines[i]).Success?)
              && (r.Success? ==> r.value.Rewritten?)
    ensures var lines := Split(upstreamText, '\n');
            r.Failure? ==> exists i :: 0 <= i < |lines| && RewriteLine(ctx, lines[i]) == Failure(r.error)
                                       && forall j :: 0 <= j < i ==> RewriteLine(ctx, lines[j]).Success?
    ensures var lines := Split(upstreamText, '\n');
            r.Success? && r.value.Rewritten? ==>
              var out := Split(r.value.text, '\n');
              |out| == |lines| && forall i :: 0 <= i < |lines| ==> RewriteLine(ctx, lines[i]) == Success(out[i])
  {
    if IsM3u8(ctx.base.path, contentType) then
      match RewritePlaylist(ctx, upstreamText)
      case Failure(e) => Failure(e)
      case Success(text) =>
        LineCountPreserved(ctx, upstreamText);
        Success(Rewritten(text))
    else Success(UpstreamStream)
  }
}
