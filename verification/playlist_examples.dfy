/** Worked instances of the resolver and the rewriter on concrete lines. Each
    lemma takes its strings as parameters fixed by its preconditions. */
module PlaylistExamples {
  import opened Results
  import opened JsString
  import opened Urls
  import opened JsObject
  import opened Playlist
  import FormUrlEncoded

  /** The scheme test ignores case, and a protocol-relative reference is not
      absolute; an absolute reference ignores the base. */
  lemma UpperCaseSchemeIsAbsolute(parse: Parser, s: string, base: Option<Url>)
    requires s == "HTTP://cdn.example.com/a.ts"
    ensures IsHttpAbsolute(s)
    ensures GetUrl(parse, s, base) == Construct(parse, s)
  {
    assert s[4..7] == [s[4], s[5], s[6]];
  }

  /** A protocol-relative reference is never read as absolute. */
  lemma ProtocolRelativeIsNotAbsolute(s: string)
    requires StartsWith(s, "//")
    ensures !IsHttpAbsolute(s)
  {
    assert s[0] == s[..2][0];
  }

  lemma PlainName(s: string)
    requires |s| > 0 && s[0] != '/' && s[0] != 'h' && s[0] != 'H'
    ensures IsRelative(s) && StripLeadingSlash(s) == s
  {
    assert s[..1] == [s[0]];
    if |s| >= 2 {
      assert s[..2] == [s[0], s[1]];
    }
  }

  /** `seg001.ts` against `https://cdn.example.com/videos/show/index.m3u8` is
      `https://cdn.example.com/videos/show/seg001.ts`. */
  lemma RelativeSegmentExample(parse: Parser, s: string, base: Url)
    requires base == Url("https", "cdn.example.com", None, "/videos/show/index.m3u8", None, None)
    requires s == "seg001.ts"
    requires Reparses(parse, base)
    ensures Href(GetUrl(parse, s, Some(base))) == "https" + "://" + "cdn.example.com" + "/videos/show/seg001.ts"
  {
    var r := GetUrl(parse, s, Some(base));
    RelativeSegmentPath(parse, s, base);
    HrefExample(r);
  }

  lemma RelativeSegmentPath(parse: Parser, s: string, base: Url)
    requires base == Url("https", "cdn.example.com", None, "/videos/show/index.m3u8", None, None)
    requires s == "seg001.ts"
    requires Reparses(parse, base)
    ensures GetUrl(parse, s, Some(base)) == Url("https", "cdn.example.com", None, "/videos/show/seg001.ts", None, None)
  {
    PlainName(s);
    DirectoryExample();
    assert "/videos/show/" + s == "/videos/show/seg001.ts";
  }

  lemma DirectoryExample()
    ensures Directory("/videos/show/index.m3u8") == "/videos/show/"
  {
    assert "/videos/show/" + "index.m3u8" == "/videos/show/index.m3u8";
    DirectoryAfterSlash("/videos/show/", "index.m3u8");
  }

  lemma HrefExample(r: Url)
    requires r == Url("https", "cdn.example.com", None, "/videos/show/seg001.ts", None, None)
    ensures Href(r) == "https" + "://" + "cdn.example.com" + "/videos/show/seg001.ts"
  {
    assert Origin(r) == "https" + "://" + "cdn.example.com" + "";
    assert QueryAndFragment(r) == "" + "";
  }

  /** A segment served as `video/MP2T` counts as a playlist whatever its path. */
  lemma TransportStreamIsPlaylist(path: string, contentType: string)
    requires path == "/seg.ts" && contentType == "video/MP2T"
    ensures IsM3u8(path, Some(contentType))
  {
    ToLowerAscii(contentType);
    var l := ToLower(contentType);
    assert l == "video/mp2t";
    assert OccursAt(l, PlaylistContentTypes[1], 0);
  }

  /** Without a Content-Type only the `.m3u8` suffix decides. */
  lemma NoContentTypeNoSuffix(path: string)
    requires path == "/seg.ts"
    ensures !IsM3u8(path, None)
  {
    assert path[|path| - 5..] != ".m3u8" by {
      assert path[|path| - 1] == 's';
    }
  }

  /** A comment that merely mentions a url and has no colon makes the handler
      throw, and with it the whole playlist fails. */
  lemma CommentWithoutColonAborts(ctx: Context, line: string)
    requires line == "# playlist url"
    ensures RewriteLine(ctx, line) == Failure(AttributeListMissing(line))
  {
    assert line[..1] == "#";
    assert line[1] != MapPrefix[1];
    var a, w := "# playlist ", "url";
    assert line == a + w + "";
    assert AnyCase(w, "url");
    MentionsUriAnyCase(a, w, "");
    assert ':' !in line;
  }

  /** `#EXTINF:-1,SUR\U{0130}YE TV`, a title with a dotted capital I: lower-casing
      turns that letter into `i` and a combining dot, so the title mentions `uri`
      and the line is read as an attributed tag. Its attribute text holds no
      `=`, so the duration and the title are both dropped. */
  lemma DottedCapitalIExample(ctx: Context, line: string)
    requires line == "#EXTINF" + ":" + ("-1,S" + "UR" + [DottedCapitalI] + "YE TV")
    ensures Classify(line) == AttributeTag
    ensures RewriteLine(ctx, line) == Success("#EXTINF" + ":")
  {
    DottedTitleIsAttributeTag(line);
    var tag, text := "#EXTINF", "-1,S" + "UR" + [DottedCapitalI] + "YE TV";
    assert ':' !in tag;
    assert ':' !in text && '=' !in text;
    AttributeTextWithoutFields(ctx, tag, text);
  }

  lemma DottedTitleIsAttributeTag(line: string)
    requires line == "#EXTINF" + ":" + ("-1,S" + "UR" + [DottedCapitalI] + "YE TV")
    ensures Classify(line) == AttributeTag
  {
    var a, w, b := "#EXTINF" + ":" + "-1,S", "UR", "YE TV";
    assert line == a + (w + [DottedCapitalI]) + b;
    assert AnyCase(w, "ur");
    DottedCapitalIMentionsUri(a, w, b);
    assert line[..1] == "#";
    assert line[4] != MapPrefix[4];
  }

  // ---------------------------------------------------------------------------
  // `#EXT-X-MAP:URI="init.mp4"` against `https://x.com/a/b.m3u8`

  /** The percent-encoded form of `https://x.com/a/init.mp4`, in the pieces it
      is made of: only `:` and `/` are escaped, with upper-case hexadecimal
      digits. */
  const EncodedInit: string := "https" + "%3A" + "%2F" + "%2F" + "x.com" + "%2F" + "a" + "%2F" + "init.mp4"

  /** The map tag of a playlist at `https://x.com/a/b.m3u8`, with no headers
      supplied, is rewritten to `#EXT-X-MAP:URI="/v2?url=https%3A%2F%2Fx.com%2Fa%2Finit.mp4"`. */
  lemma MapTagExample(ctx: Context, line: string)
    requires ctx.base == Url("https", "x.com", None, "/a/b.m3u8", None, None)
    requires ctx.headers == None && Reparses(ctx.parse, ctx.base)
    requires line == "#EXT-X-MAP:URI=\"init.mp4\""
    ensures RewriteLine(ctx, line) == Success(MapPrefix + (ProxyEntry + "url=" + EncodedInit) + "\"")
  {
    var uri := "init.mp4";
    ExampleMapLine(line, uri);
    var target := ExampleTarget(ctx.parse, uri, ctx.base);
    var h := Href(target);
    ExampleHref(target);
    ExampleEncoding(h);
    ExampleProxied(target, h);
  }

  lemma ExampleMapLine(line: string, uri: string)
    requires line == "#EXT-X-MAP:URI=\"init.mp4\"" && uri == "init.mp4"
    ensures Classify(line) == MapTag && MapReference(line) == uri
  {
    assert line == MapPrefix + uri + "\"" + "";
    MapReferenceOfLine(uri, "");
    assert uri + "" == uri;
  }

  lemma ExampleTarget(parse: Parser, uri: string, base: Url) returns (target: Url)
    requires base == Url("https", "x.com", None, "/a/b.m3u8", None, None)
    requires uri == "init.mp4" && Reparses(parse, base)
    ensures target == GetUrl(parse, uri, Some(base))
    ensures target == Url("https", "x.com", None, "/a/init.mp4", None, None)
  {
    PlainName(uri);
    ExampleDirectory();
    assert "/a/" + uri == "/a/init.mp4";
    target := GetUrl(parse, uri, Some(base));
  }

  lemma ExampleDirectory()
    ensures Directory("/a/b.m3u8") == "/a/"
  {
    assert "/a/" + "b.m3u8" == "/a/b.m3u8";
    DirectoryAfterSlash("/a/", "b.m3u8");
  }

  lemma ExampleHref(target: Url)
    requires target == Url("https", "x.com", None, "/a/init.mp4", None, None)
    ensures Href(target) == "https" + ":" + "/" + "/" + "x.com" + "/" + "a" + "/" + "init.mp4"
  {
  }

  lemma ExampleProxied(target: Url, h: string)
    requires h == Href(target)
    ensures ProxiedUrl(target, None) == ProxyEntry + "url=" + FormUrlEncoded.EncodeComponent(h)
  {
    var pairs := ProxyQuery(target, None);
    assert pairs == [("url", h)];
    var name := "url";
    assert FormUrlEncoded.Unreserved(name[0] as int) && FormUrlEncoded.Unreserved(name[1] as int);
    assert FormUrlEncoded.Unreserved(name[2] as int);
    FormUrlEncoded.EncodeUnreserved(name);
    var pieces := seq(|pairs|, i requires 0 <= i < |pairs| => FormUrlEncoded.EncodePair(pairs[i]));
    assert pieces == [name + "=" + FormUrlEncoded.EncodeComponent(h)];
  }

  lemma ExampleEncoding(h: string)
    requires h == "https" + ":" + "/" + "/" + "x.com" + "/" + "a" + "/" + "init.mp4"
    ensures FormUrlEncoded.EncodeComponent(h) == EncodedInit
  {
    var scheme, colon, slash, host, dir, file := "https", ":", "/", "x.com", "a", "init.mp4";
    EncodeAll(scheme);
    EncodeAll(host);
    EncodeAll(dir);
    EncodeAll(file);
    EncodeColon(colon);
    EncodeSlash(slash);
    Append3(scheme, colon, slash);
    Append3(scheme + colon + slash, slash, host);
    Append3(scheme + colon + slash + slash + host, slash, dir);
    Append3(scheme + colon + slash + slash + host + slash + dir, slash, file);
  }

  lemma Append3(a: string, b: string, c: string)
    ensures FormUrlEncoded.EncodeComponent(a + b + c)
            == FormUrlEncoded.EncodeComponent(a) + FormUrlEncoded.EncodeComponent(b) + FormUrlEncoded.EncodeComponent(c)
  {
    FormUrlEncoded.EncodeComponentAppend(a, b);
    FormUrlEncoded.EncodeComponentAppend(a + b, c);
  }

  lemma EncodeAll(s: string)
    requires s == "https" || s == "x.com" || s == "a" || s == "init.mp4"
    ensures FormUrlEncoded.EncodeComponent(s) == s
  {
    forall i | 0 <= i < |s|
      ensures FormUrlEncoded.Unreserved(s[i] as int)
    {
    }
    FormUrlEncoded.EncodeUnreserved(s);
  }

  lemma EncodeColon(s: string)
    requires s == ":"
    ensures FormUrlEncoded.EncodeComponent(s) == "%3A"
  {
    assert FormUrlEncoded.Utf8Encode(s) == [0x3A] + FormUrlEncoded.Utf8Encode(s[1..]);
    assert FormUrlEncoded.PercentEncode([0x3A]) == FormUrlEncoded.EncodeByte(0x3A) + FormUrlEncoded.PercentEncode([]);
  }

  lemma EncodeSlash(s: string)
    requires s == "/"
    ensures FormUrlEncoded.EncodeComponent(s) == "%2F"
  {
    assert FormUrlEncoded.Utf8Encode(s) == [0x2F] + FormUrlEncoded.Utf8Encode(s[1..]);
    assert FormUrlEncoded.PercentEncode([0x2F]) == FormUrlEncoded.EncodeByte(0x2F) + FormUrlEncoded.PercentEncode([]);
  }
}
