/** The reference resolver `getUrl` of the proxy's URL utilities: a reference found
    in a playlist is resolved to an absolute URL, trying an absolute `http(s)://`
    reference, then a protocol-relative `//` reference, then a reference relative
    to the directory of the base URL. It never fails: wherever the URL parser would
    throw, the resolver yields the placeholder `https://example.com`. */
module Urls {
  import opened Results
  import opened JsString

  /** A parsed URL with a host: the scheme without its colon, the host, the port
      when it is not the scheme's default, the path, and the query and fragment
      without their `?` and `#` (absent is not the same as empty). */
  datatype Url = Url(
    scheme: string,
    host: string,
    port: Option<nat>,
    path: string,
    query: Option<string>,
    fragment: Option<string>)

  /** The WHATWG basic URL parser behind `new URL(s)`, as a parameter of the model:
      None stands for the `TypeError` it throws on a string it rejects. */
  type Parser = string -> Option<Url>

  /** The scheme, `://`, the host, and the port when there is one. */
  function Origin(u: Url): string {
    u.scheme + "://" + u.host + (match u.port case None => "" case Some(p) => ":" + NumberToString(p))
  }

  /** The query after `?` and the fragment after `#`, each when present. */
  function QueryAndFragment(u: Url): string {
    (match u.query case None => "" case Some(q) => "?" + q)
    + (match u.fragment case None => "" case Some(f) => "#" + f)
  }

  /** The URL serializer behind `url.href` and `url.toString()`. */
  function Href(u: Url): string {
    Origin(u) + u.path + QueryAndFragment(u)
  }

  /** Two URLs that differ only in their paths have different string forms, so
      the resolver's results for different references reach the follow-up
      request as different `url` parameters. */
  lemma HrefDistinguishesPaths(u: Url, p: string, q: string)
    ensures Href(u.(path := p)) == Href(u.(path := q)) <==> p == q
  {
    var a, b := Origin(u), QueryAndFragment(u);
    assert Origin(u.(path := p)) == a && Origin(u.(path := q)) == a;
    assert QueryAndFragment(u.(path := p)) == b && QueryAndFragment(u.(path := q)) == b;
    if Href(u.(path := p)) == Href(u.(path := q)) {
      var x, y := a + p + b, a + q + b;
      assert |p| == |q|;
      assert p == x[|a|..|a| + |p|] && q == y[|a|..|a| + |q|];
    }
  }

  /** The URL `https://example.com`, which the resolver returns when it has
      nothing better. */
  const Placeholder: Url := Url("https", "example.com", None, "/", None, None)

  /** Serializing `u` and parsing the result gives `u` back, which the URL
      Standard promises for every URL its parser produced. */
  predicate Reparses(parse: Parser, u: Url) {
    parse(Href(u)) == Some(u)
  }

  /** `new URL(s)` inside the resolver's `try`: a string the parser rejects is
      caught and answered with the placeholder. */
  function Construct(parse: Parser, s: string): (r: Url)
    ensures parse(s).Some? ==> r == parse(s).value
    ensures parse(s).None? ==> r == Placeholder
  {
    parse(s).GetOr(Placeholder)
  }

  /** The resolver's first test, a case-insensitive regular expression anchored
      at the start: `http` or `https`, each letter in either case, then `://`. */
  predicate IsHttpAbsolute(s: string) {
    && |s| >= 7
    && LowerChar(s[0]) == 'h' && LowerChar(s[1]) == 't' && LowerChar(s[2]) == 't'
    && LowerChar(s[3]) == 'p'
    && (s[4..7] == "://" || (|s| >= 8 && LowerChar(s[4]) == 's' && s[5..8] == "://"))
  }

  /** The regular expression's test agrees with comparing the string, its ASCII
      letters lower-cased, against the two literal prefixes. */
  lemma HttpAbsoluteIsCaseInsensitivePrefix(s: string)
    ensures IsHttpAbsolute(s)
            <==> StartsWith(AsciiLower(s), "http://") || StartsWith(AsciiLower(s), "https://")
  {
    var l := AsciiLower(s);
    StartsWithByChars(l, "http://");
    StartsWithByChars(l, "https://");
    if |s| >= 7 {
      assert s[4..7] == [s[4], s[5], s[6]];
      SlashPunctuation(s[4], s[5], s[6]);
    }
    if |s| >= 8 {
      assert s[5..8] == [s[5], s[6], s[7]];
      SlashPunctuation(s[5], s[6], s[7]);
    }
  }

  /** Lower-casing leaves `:` and `/` alone and produces them from nothing else. */
  lemma SlashPunctuation(a: char, b: char, c: char)
    ensures [a, b, c] == "://" <==> LowerChar(a) == ':' && LowerChar(b) == '/' && LowerChar(c) == '/'
  {
  }

  /** Neither an absolute nor a protocol-relative reference: the third case. */
  predicate IsRelative(s: string) {
    !IsHttpAbsolute(s) && !StartsWith(s, "//")
  }

  /** The relative reference with at most one leading `/` removed. */
  function StripLeadingSlash(input: string): (r: string)
    ensures input == r || input == "/" + r
    ensures !StartsWith(input, "//") ==> !StartsWith(r, "/")
  {
    if StartsWith(input, "/") then input[1..] else input
  }

  /** The directory part of a path: everything up to and including its last `/`,
      or nothing when it has no `/`. */
  function Directory(path: string): (r: string)
    ensures StartsWith(path, r)
    ensures r == "" || r[|r| - 1] == '/'
    ensures '/' !in path[|r|..]
  {
    if |path| == 0 then ""
    else if path[|path| - 1] == '/' then path
    else
      var d := Directory(path[..|path| - 1]);
      assert path[..|path| - 1][|d|..] + [path[|path| - 1]] == path[|d|..];
      d
  }

  /** The path split into its `/`-segments, the last segment dropped, the
      reference appended as a new last segment, and the segments joined with `/`
      again. */
  function ReplaceLastSegment(path: string, ref: string): (r: string)
    ensures r == Directory(path) + ref
  {
    var segments := Split(path, '/');
    JoinSplit(path, '/');
    DirectoryOfJoin(segments);
    JoinSnoc(segments[..|segments| - 1], ref, '/');
    Join(segments[..|segments| - 1] + [ref], '/')
  }

  /** The resolver, for a reference and an optional base. The base is cloned by
      serializing it and parsing the result again; only the clone's path is
      replaced. */
  function GetUrl(parse: Parser, input: string, base: Option<Url>): (r: Url)
    ensures IsHttpAbsolute(input) ==> r == Construct(parse, input)
    ensures StartsWith(input, "//") ==> r == Construct(parse, "https:" + input)
    ensures IsRelative(input) && base.None? ==> r == Placeholder
    ensures IsRelative(input) && base.Some? && parse(Href(base.value)).None? ==> r == Placeholder
    ensures IsRelative(input) && base.Some? && Reparses(parse, base.value) ==>
              r == base.value.(path := Directory(base.value.path) + StripLeadingSlash(input))
  {
    if IsHttpAbsolute(input) then Construct(parse, input)
    else if StartsWith(input, "//") then Construct(parse, "https:" + input)
    else match base
      case None => Placeholder
      case Some(b) =>
        match parse(Href(b))
        case None => Placeholder
        case Some(clone) => clone.(path := ReplaceLastSegment(clone.path, StripLeadingSlash(input)))
  }

  /** In the relative case the segments of the result's path are those of the
      base's path with the last one replaced by the reference: the segment count
      and every segment before the last are kept. */
  lemma RelativeKeepsSegments(parse: Parser, input: string, base: Url)
    requires IsRelative(input) && Reparses(parse, base)
    requires '/' !in StripLeadingSlash(input)
    ensures var before, after := Split(base.path, '/'), Split(GetUrl(parse, input, Some(base)).path, '/');
            && |after| == |before|
            && after[..|after| - 1] == before[..|before| - 1]
            && after[|after| - 1] == StripLeadingSlash(input)
  {
    var ref := StripLeadingSlash(input);
    var before := Split(base.path, '/');
    var kept := before[..|before| - 1];
    assert GetUrl(parse, input, Some(base)).path == Join(kept + [ref], '/');
    assert forall i :: 0 <= i < |kept| ==> kept[i] == before[i];
    SplitJoin(kept + [ref], '/');
  }

  /** A root-relative reference resolves exactly like the same reference without
      its leading `/`: against the base's directory, not the host's root. */
  lemma RootRelativeIsDirectoryRelative(parse: Parser, ref: string, base: Url)
    requires IsRelative(ref) && !StartsWith(ref, "/")
    ensures IsRelative("/" + ref)
    ensures GetUrl(parse, "/" + ref, Some(base)) == GetUrl(parse, ref, Some(base))
  {
    assert ("/" + ref)[1..] == ref;
    if |ref| > 0 {
      assert ("/" + ref)[..2] == ['/', ref[0]];
    }
  }

  /** Joining with one more piece appends the separator and the piece. */
  lemma {:induction false} JoinSnoc(xs: seq<string>, y: string, c: char)
    ensures Join(xs + [y], c) == if |xs| == 0 then y else Join(xs, c) + [c] + y
    decreases |xs|
  {
    if |xs| > 1 {
      assert (xs + [y])[1..] == xs[1..] + [y];
      JoinSnoc(xs[1..], y, c);
    } else if |xs| == 1 {
      assert xs + [y] == [xs[0], y];
      assert [xs[0], y][1..] == [y];
    }
  }

  /** The directory of a `/`-join is the join of all pieces but the last, with a
      trailing `/`. */
  lemma DirectoryOfJoin(segments: seq<string>)
    requires |segments| >= 1
    requires forall i :: 0 <= i < |segments| ==> '/' !in segments[i]
    ensures var kept := segments[..|segments| - 1];
            Directory(Join(segments, '/')) == if |kept| == 0 then "" else Join(kept, '/') + "/"
  {
    var kept := segments[..|segments| - 1];
    var last := segments[|segments| - 1];
    assert segments == kept + [last];
    JoinSnoc(kept, last, '/');
    if |kept| == 0 {
      DirectoryWithoutSlash(last);
    } else {
      DirectoryAfterSlash(Join(kept, '/') + "/", last);
    }
  }

  lemma {:induction false} DirectoryWithoutSlash(s: string)
    requires '/' !in s
    ensures Directory(s) == ""
    decreases |s|
  {
    if |s| > 0 {
      DirectoryWithoutSlash(s[..|s| - 1]);
    }
  }

  lemma {:induction false} DirectoryAfterSlash(d: string, last: string)
    requires |d| > 0 && d[|d| - 1] == '/' && '/' !in last
    ensures Directory(d + last) == d
    decreases |last|
  {
    if |last| > 0 {
      var s := d + last;
      assert s[..|s| - 1] == d + last[..|last| - 1];
      DirectoryAfterSlash(d, last[..|last| - 1]);
    } else {
      assert d + last == d;
    }
  }
}
