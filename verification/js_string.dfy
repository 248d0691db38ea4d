/** The JavaScript `String` operations the proxy uses, on strings as sequences of
    characters: `startsWith`, `endsWith`, `includes`, `indexOf`, `replace` with a
    string or a global one-character pattern, `split` and `join` on a
    one-character separator, `trim` and `toLowerCase`. */
module JsString {

  /** Whether `s` begins with `p` (the string method `startsWith`). */
  predicate StartsWith(s: string, p: string) {
    |p| <= |s| && s[..|p|] == p
  }

  /** `s.endsWith(p)` */
  predicate EndsWith(s: string, p: string) {
    |p| <= |s| && s[|s| - |p|..] == p
  }

  /** A prefix of a prefix is a prefix. */
  lemma StartsWithTransitive(s: string, q: string, p: string)
    requires StartsWith(s, q) && StartsWith(q, p)
    ensures StartsWith(s, p)
  {
    assert s[..|p|] == s[..|q|][..|p|];
  }

  /** A prefix test character by character. */
  lemma StartsWithByChars(s: string, p: string)
    ensures StartsWith(s, p) <==> |p| <= |s| && forall k :: 0 <= k < |p| ==> s[k] == p[k]
  {
    if |p| <= |s| && forall k :: 0 <= k < |p| ==> s[k] == p[k] {
      assert s[..|p|] == p;
    }
  }

  /** `p` occurs in `s` starting at index `i`. */
  predicate OccursAt(s: string, p: string, i: int) {
    0 <= i && i + |p| <= |s| && s[i..i + |p|] == p
  }

  lemma OccursAtTail(s: string, p: string, i: int)
    requires |s| > 0 && 0 <= i
    ensures OccursAt(s[1..], p, i) <==> OccursAt(s, p, i + 1)
  {
    if 0 <= i && i + |p| <= |s| - 1 {
      assert s[1..][i..i + |p|] == s[i + 1..i + 1 + |p|];
    }
  }

  /** `s.indexOf(p)`: the first index at which `p` occurs in `s`, or -1 when it
      occurs nowhere. */
  function IndexOf(s: string, p: string): (r: int)
    ensures r == -1 || OccursAt(s, p, r)
    ensures forall i :: 0 <= i && (r == -1 || i < r) ==> !OccursAt(s, p, i)
    decreases |s|
  {
    if StartsWith(s, p) then 0
    else if |s| == 0 then -1
    else
      var r := IndexOf(s[1..], p);
      assert forall i :: OccursAt(s, p, i) && i > 0 ==> OccursAt(s[1..], p, i - 1) by {
        forall i | OccursAt(s, p, i) && i > 0 {
          OccursAtTail(s, p, i - 1);
        }
      }
      if r == -1 then -1
      else
        OccursAtTail(s, p, r);
        r + 1
  }

  /** `s.includes(p)` */
  predicate Includes(s: string, p: string) {
    IndexOf(s, p) >= 0
  }

  /** Occurrence is transitive: a pattern inside a pattern inside `s` is inside `s`. */
  lemma IncludesTransitive(s: string, q: string, p: string)
    requires Includes(s, q) && Includes(q, p)
    ensures Includes(s, p)
  {
    var i := IndexOf(s, q);
    var j := IndexOf(q, p);
    assert OccursAt(s, q, i) && OccursAt(q, p, j);
    assert forall k :: 0 <= k < |q| ==> s[i + k] == q[k];
    assert forall k :: 0 <= k < |p| ==> q[j + k] == p[k];
    assert s[i + j..i + j + |p|] == p;
    assert OccursAt(s, p, i + j);
  }

  /** Replacing a string pattern by the empty string: only the first occurrence of `p` is removed. */
  function RemoveFirst(s: string, p: string): (r: string)
    ensures !Includes(s, p) ==> r == s
    ensures Includes(s, p) ==> |r| == |s| - |p|
    ensures Includes(s, p) ==>
              exists i :: OccursAt(s, p, i) && (forall j :: 0 <= j < i ==> !OccursAt(s, p, j))
                          && r == s[..i] + s[i + |p|..]
    ensures StartsWith(s, p) ==> r == s[|p|..]
  {
    var i := IndexOf(s, p);
    if i == -1 then s else s[..i] + s[i + |p|..]
  }

  /** Replacing a global one-character pattern by the empty string: every `c` is removed. */
  function RemoveAll(s: string, c: char): (r: string)
    ensures forall x :: x in r <==> x in s && x != c
    ensures c !in s ==> r == s
  {
    if |s| == 0 then ""
    else (if s[0] == c then "" else [s[0]]) + RemoveAll(s[1..], c)
  }

  /** Removing a character distributes over concatenation. */
  lemma {:induction false} RemoveAllAppend(a: string, b: string, c: char)
    ensures RemoveAll(a + b, c) == RemoveAll(a, c) + RemoveAll(b, c)
    decreases |a|
  {
    if |a| > 0 {
      RemoveAllAppend(a[1..], b, c);
      assert (a + b)[1..] == a[1..] + b;
    } else {
      assert a + b == b;
    }
  }

  /** Splitting on a one-character separator (the string method `split`): the maximal
      runs of `s` between separators, so that there is always at least one piece. */
  function Split(s: string, c: char): (r: seq<string>)
    ensures |r| >= 1
    ensures forall i :: 0 <= i < |r| ==> c !in r[i]
    decreases |s|
  {
    if |s| == 0 then [""]
    else
      var rest := Split(s[1..], c);
      if s[0] == c then [""] + rest
      else [[s[0]] + rest[0]] + rest[1..]
  }

  /** `xs.join(c)` for a one-character separator. */
  function Join(xs: seq<string>, c: char): string {
    if |xs| == 0 then ""
    else if |xs| == 1 then xs[0]
    else xs[0] + [c] + Join(xs[1..], c)
  }

  /** A join starts with its first piece. */
  lemma JoinStartsWithFirst(xs: seq<string>, c: char)
    requires |xs| >= 1
    ensures StartsWith(Join(xs, c), xs[0])
  {
    if |xs| > 1 {
      assert Join(xs, c)[..|xs[0]|] == xs[0];
    }
  }

  /** Joining the pieces of a split gives the original string back. */
  lemma {:induction false} JoinSplit(s: string, c: char)
    ensures Join(Split(s, c), c) == s
    decreases |s|
  {
    if |s| > 0 {
      var rest := Split(s[1..], c);
      JoinSplit(s[1..], c);
      if s[0] == c {
        assert ([""] + rest)[1..] == rest;
        assert s == [c] + s[1..];
      } else {
        JoinPrepend(s[0], rest, c);
        assert s == [s[0]] + s[1..];
      }
    }
  }

  /** Putting a character in front of the first piece puts it in front of the join. */
  lemma JoinPrepend(x: char, xs: seq<string>, c: char)
    requires |xs| >= 1
    ensures Join([[x] + xs[0]] + xs[1..], c) == [x] + Join(xs, c)
  {
    var ys := [[x] + xs[0]] + xs[1..];
    if |xs| > 1 {
      assert ys[1..] == xs[1..];
      assert Join(ys, c) == ([x] + xs[0]) + [c] + Join(xs[1..], c);
    }
  }

  /** Splitting a string whose first separator is at index `|a|`. */
  lemma {:induction false} SplitAfter(a: string, t: string, c: char)
    requires c !in a
    ensures Split(a + [c] + t, c) == [a] + Split(t, c)
    decreases |a|
  {
    if |a| == 0 {
      assert a + [c] + t == [c] + t;
      assert ([c] + t)[1..] == t;
    } else {
      var s := a + [c] + t;
      assert s[0] == a[0];
      assert s[1..] == a[1..] + [c] + t;
      SplitAfter(a[1..], t, c);
      assert [a[0]] + a[1..] == a;
    }
  }

  /** A string without the separator splits into itself alone. */
  lemma {:induction false} SplitNone(a: string, c: char)
    requires c !in a
    ensures Split(a, c) == [a]
    decreases |a|
  {
    if |a| > 0 {
      SplitNone(a[1..], c);
      assert [a[0]] + a[1..] == a;
    }
  }

  /** Splitting a join of separator-free pieces gives the pieces back. */
  lemma {:induction false} SplitJoin(xs: seq<string>, c: char)
    requires |xs| >= 1
    requires forall i :: 0 <= i < |xs| ==> c !in xs[i]
    ensures Split(Join(xs, c), c) == xs
    decreases |xs|
  {
    if |xs| == 1 {
      SplitNone(xs[0], c);
    } else {
      SplitJoin(xs[1..], c);
      SplitAfter(xs[0], Join(xs[1..], c), c);
      assert [xs[0]] + xs[1..] == xs;
    }
  }

  /** The pieces of a split are delimited by the first separator: the head is the
      text before it, the rest is the split of the text after it. */
  lemma SplitAtFirst(s: string, c: char, i: int)
    requires 0 <= i < |s| && s[i] == c && c !in s[..i]
    ensures Split(s, c) == [s[..i]] + Split(s[i + 1..], c)
  {
    assert s == s[..i] + [c] + s[i + 1..];
    SplitAfter(s[..i], s[i + 1..], c);
  }

  /** The index of the first `c` in `s`, or `|s|` when there is none. */
  function FirstIndex(s: string, c: char): (r: nat)
    ensures r <= |s| && c !in s[..r]
    ensures r < |s| <==> c in s
    ensures r < |s| ==> s[r] == c
  {
    if |s| == 0 then 0
    else if s[0] == c then 0
    else
      var r := FirstIndex(s[1..], c);
      assert s[..r + 1] == [s[0]] + s[1..][..r];
      r + 1
  }

  /** The text of `s` before its first `c` (all of `s` when there is none). */
  function Before(s: string, c: char): string {
    s[..FirstIndex(s, c)]
  }

  /** The text of `s` after its first `c`. */
  function After(s: string, c: char): string
    requires c in s
  {
    s[FirstIndex(s, c) + 1..]
  }

  /** Around the first `c`: the text before it and the text after it. */
  lemma BeforeAfterFirst(a: string, c: char, b: string)
    requires c !in a
    ensures Before(a + [c] + b, c) == a
    ensures c in a + [c] + b && After(a + [c] + b, c) == b
  {
    var s := a + [c] + b;
    var r := FirstIndex(s, c);
    assert s[|a|] == c;
    assert s[..|a|] == a;
  }

  /** The first piece of a split is the text before the first separator; there is
      a second piece exactly when there is a separator, and it is the text between
      the first separator and the next one (or the end). */
  lemma SplitPieces(s: string, c: char)
    ensures Split(s, c)[0] == Before(s, c)
    ensures |Split(s, c)| >= 2 <==> c in s
    ensures c in s ==> Split(s, c)[1] == Before(After(s, c), c)
  {
    if c in s {
      var i := FirstIndex(s, c);
      SplitAtFirst(s, c, i);
      SplitPieces(s[i + 1..], c);
    } else {
      SplitNone(s, c);
    }
  }

  /** Every character of a piece of a split occurs in the split string. */
  lemma {:induction false} SplitPiecesWithin(s: string, c: char, x: char)
    requires x !in s
    ensures forall i :: 0 <= i < |Split(s, c)| ==> x !in Split(s, c)[i]
    decreases |s|
  {
    if |s| > 0 {
      SplitPiecesWithin(s[1..], c, x);
    }
  }

  /** Removing the first occurrence of a one-character pattern. */
  lemma RemoveFirstChar(a: string, c: char, b: string)
    requires c !in a
    ensures RemoveFirst(a + [c] + b, [c]) == a + b
  {
    var s := a + [c] + b;
    assert OccursAt(s, [c], |a|);
    var i := IndexOf(s, [c]);
    forall j | 0 <= j < |a|
      ensures !OccursAt(s, [c], j)
    {
      assert s[j..j + 1] == [a[j]];
    }
    assert i == |a|;
    assert s[..i] == a && s[i + 1..] == b;
  }

  /** A character is absent from a join when it is absent from every piece and is
      not the separator. */
  lemma {:induction false} JoinExcludes(xs: seq<string>, c: char, x: char)
    requires x != c
    requires forall i :: 0 <= i < |xs| ==> x !in xs[i]
    ensures x !in Join(xs, c)
    decreases |xs|
  {
    if |xs| > 1 {
      JoinExcludes(xs[1..], c, x);
    }
  }

  /** An ASCII upper-case letter is mapped to lower case; every other character is
      kept. */
  function LowerChar(c: char): char {
    if 'A' <= c <= 'Z' then (c as int + 32) as char else c
  }

  /** Folding the ASCII letters alone, which is all that a regular expression with
      the `i` flag and without the `u` flag folds for an ASCII pattern. */
  function AsciiLower(s: string): (r: string)
    ensures |r| == |s|
    ensures forall i :: 0 <= i < |s| ==> r[i] == LowerChar(s[i])
  {
    seq(|s|, i requires 0 <= i < |s| => LowerChar(s[i]))
  }

  /** U+0130, the capital I with a dot above. */
  const DottedCapitalI: char := '\U{0130}'

  /** U+0307, the combining dot above. */
  const CombiningDot: char := '\U{0307}'

  /** U+212A, the Kelvin sign. */
  const KelvinSign: char := '\U{212A}'

  /** The characters whose lower case differs from them and contains an ASCII
      character. */
  predicate LowersToAscii(c: char) {
    'A' <= c <= 'Z' || c == DottedCapitalI || c == KelvinSign
  }

  /** The lower case of one character under the Unicode mapping `toLowerCase`
      applies, wherever that lower case holds an ASCII character: a capital
      ASCII letter becomes its small letter, the dotted capital I becomes `i`
      followed by the combining dot, and the Kelvin sign becomes `k`. Every
      other character is kept as it is. */
  function LowerFull(c: char): (r: string)
    ensures |r| >= 1
    ensures forall i :: 0 <= i < |r| ==> !LowersToAscii(r[i])
    ensures !LowersToAscii(c) ==> r == [c]
  {
    if 'A' <= c <= 'Z' then [LowerChar(c)]
    else if c == DottedCapitalI then ['i', CombiningDot]
    else if c == KelvinSign then ['k']
    else [c]
  }

  /** The string method `toLowerCase`, character by character; the dotted capital I makes the
      result longer than the input. */
  function ToLower(s: string): (r: string)
    ensures |r| >= |s|
    ensures forall i :: 0 <= i < |r| ==> !LowersToAscii(r[i])
    decreases |s|
  {
    if |s| == 0 then ""
    else
      var head, tail := LowerFull(s[0]), ToLower(s[1..]);
      assert forall i :: |head| <= i < |head + tail| ==> (head + tail)[i] == tail[i - |head|];
      head + tail
  }

  /** Lower-casing distributes over concatenation. */
  lemma {:induction false} ToLowerAppend(a: string, b: string)
    ensures ToLower(a + b) == ToLower(a) + ToLower(b)
    decreases |a|
  {
    if |a| == 0 {
      assert a + b == b;
    } else {
      assert (a + b)[0] == a[0] && (a + b)[1..] == a[1..] + b;
      ToLowerAppend(a[1..], b);
    }
  }

  /** A text none of whose characters lower-cases to something else with an
      ASCII character in it is its own lower case. */
  lemma {:induction false} ToLowerUnchanged(s: string)
    requires forall i :: 0 <= i < |s| ==> !LowersToAscii(s[i])
    ensures ToLower(s) == s
    decreases |s|
  {
    if |s| > 0 {
      ToLowerUnchanged(s[1..]);
      assert [s[0]] + s[1..] == s;
    }
  }

  /** On ASCII text, lower-casing is ASCII case folding. */
  lemma {:induction false} ToLowerAscii(s: string)
    requires forall i :: 0 <= i < |s| ==> s[i] < 128 as char
    ensures ToLower(s) == AsciiLower(s)
    decreases |s|
  {
    if |s| > 0 {
      ToLowerAscii(s[1..]);
      assert AsciiLower(s) == [LowerChar(s[0])] + AsciiLower(s[1..]);
    }
  }

  /** Lower-casing twice is lower-casing once. */
  lemma {:induction false} ToLowerIdempotent(s: string)
    ensures ToLower(ToLower(s)) == ToLower(s)
    decreases |s|
  {
    if |s| > 0 {
      var head := LowerFull(s[0]);
      ToLowerAppend(head, ToLower(s[1..]));
      ToLowerUnchanged(head);
      ToLowerIdempotent(s[1..]);
    }
  }

  /** The code points ECMAScript counts as WhiteSpace or LineTerminator: what `trim`
      removes. */
  predicate IsWhiteSpace(c: char) {
    var n := c as int;
    n == 0x09 || n == 0x0A || n == 0x0B || n == 0x0C || n == 0x0D || n == 0x20
    || n == 0xA0 || n == 0x1680 || (0x2000 <= n <= 0x200A) || n == 0x2028
    || n == 0x2029 || n == 0x202F || n == 0x205F || n == 0x3000 || n == 0xFEFF
  }

  predicate AllWhiteSpace(s: string) {
    forall i :: 0 <= i < |s| ==> IsWhiteSpace(s[i])
  }

  /** `s.trimStart()`: the suffix left after the leading white space. */
  function TrimStart(s: string): (r: string)
    ensures |r| <= |s| && r == s[|s| - |r|..]
    ensures AllWhiteSpace(s[..|s| - |r|])
    ensures |r| > 0 ==> !IsWhiteSpace(r[0])
  {
    if |s| > 0 && IsWhiteSpace(s[0]) then TrimStart(s[1..]) else s
  }

  /** `s.trimEnd()`: the prefix left after the trailing white space. */
  function TrimEnd(s: string): (r: string)
    ensures |r| <= |s| && r == s[..|r|]
    ensures AllWhiteSpace(s[|r|..])
    ensures |r| > 0 ==> !IsWhiteSpace(r[|r| - 1])
  {
    if |s| > 0 && IsWhiteSpace(s[|s| - 1]) then TrimEnd(s[..|s| - 1]) else s
  }

  /** The string method `trim`: `s` without its leading and trailing white space. */
  function Trim(s: string): (r: string)
    ensures r == "" <==> AllWhiteSpace(s)
    ensures |r| > 0 ==> !IsWhiteSpace(r[0]) && !IsWhiteSpace(r[|r| - 1])
    ensures exists i, j :: 0 <= i <= j <= |s| && r == s[i..j] && AllWhiteSpace(s[..i]) && AllWhiteSpace(s[j..])
  {
    var t := TrimStart(s);
    var r := TrimEnd(t);
    TrimPieces(s, t, r);
    r
  }

  /** The facts about the two halves of trimming that make up its contract. */
  lemma TrimPieces(s: string, t: string, r: string)
    requires |t| <= |s| && t == s[|s| - |t|..] && AllWhiteSpace(s[..|s| - |t|])
    requires |t| > 0 ==> !IsWhiteSpace(t[0])
    requires |r| <= |t| && r == t[..|r|] && AllWhiteSpace(t[|r|..])
    requires |r| > 0 ==> !IsWhiteSpace(r[|r| - 1])
    ensures r == "" <==> AllWhiteSpace(s)
    ensures |r| > 0 ==> !IsWhiteSpace(r[0]) && !IsWhiteSpace(r[|r| - 1])
    ensures exists i, j :: 0 <= i <= j <= |s| && r == s[i..j] && AllWhiteSpace(s[..i]) && AllWhiteSpace(s[j..])
  {
    var i := |s| - |t|;
    var j := i + |r|;
    assert s[j..] == t[|r|..];
    assert r == s[i..j];
    if r == "" {
      assert t[|r|..] == t;
      assert |t| == 0;
      assert s[..i] == s;
    } else {
      assert r[0] == t[0] && s[i] == t[0];
    }
  }

  /** Trimming leaves a string alone when it neither starts nor ends with white
      space. */
  lemma TrimUntouched(s: string)
    requires |s| == 0 || (!IsWhiteSpace(s[0]) && !IsWhiteSpace(s[|s| - 1]))
    ensures Trim(s) == s
  {
  }

  /** The decimal digits of a natural number, as `String(n)` writes them. */
  function NumberToString(n: nat): (r: string)
    ensures |r| >= 1
    ensures forall i :: 0 <= i < |r| ==> '0' <= r[i] <= '9'
  {
    var d := ['0' + (n % 10) as char];
    if n < 10 then d else NumberToString(n / 10) + d
  }
}
