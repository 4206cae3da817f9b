/** String handling of URL paths and hrefs: `split('/')`, `pop()` and the current-page rule of js/main.js. */
module Paths {

  /** The page assumed when the path ends in a slash (or is empty). */
  const DefaultPage: string := "index.html"

  /** `s.split('/')`: the pieces between slashes, in order. Never empty, no piece holds a slash. */
  function Split(s: string): (parts: seq<string>)
    ensures |parts| >= 1
    ensures forall i :: 0 <= i < |parts| ==> '/' !in parts[i]
    ensures '/' !in s ==> parts == [s]
    ensures |parts| == 1 ==> parts[0] == s
  {
    if s == [] then [""]
    else
      var rest := Split(s[1..]);
      if s[0] == '/' then [""] + rest
      else
        assert s == [s[0]] + s[1..];
        [[s[0]] + rest[0]] + rest[1..]
  }

  /** `parts.join('/')`: the inverse of Split. */
  function Join(parts: seq<string>): string
    requires |parts| >= 1
  {
    if |parts| == 1 then parts[0] else parts[0] + "/" + Join(parts[1..])
  }

  /** Splitting loses nothing: joining the pieces back gives the original string. */
  lemma {:induction false} JoinSplit(s: string)
    ensures Join(Split(s)) == s
  {
    if s != [] {
      var rest := Split(s[1..]);
      JoinSplit(s[1..]);
      if s[0] == '/' {
        assert Split(s)[1..] == rest;
      } else if |rest| == 1 {
        assert Split(s) == [[s[0]] + rest[0]];
        assert s == [s[0]] + s[1..];
      } else {
        var parts := Split(s);
        assert parts[1..] == rest[1..];
        assert Join(rest) == rest[0] + "/" + Join(rest[1..]);
        assert s == [s[0]] + s[1..];
      }
    }
  }

  /** Splitting a slash-free prefix glues it onto the first piece. */
  lemma {:induction false} SplitPrefix(p: string, s: string)
    requires '/' !in p
    ensures Split(p + s) == [p + Split(s)[0]] + Split(s)[1..]
  {
    var parts := Split(s);
    if p == [] {
      assert p + s == s && p + parts[0] == parts[0];
      assert parts == [parts[0]] + parts[1..];
    } else {
      assert (p + s)[0] == p[0] && p[0] != '/';
      assert (p + s)[1..] == p[1..] + s;
      SplitPrefix(p[1..], s);
      var rest := Split(p[1..] + s);
      assert rest[0] == p[1..] + parts[0] && rest[1..] == parts[1..];
      assert [p[0]] + (p[1..] + parts[0]) == p + parts[0];
    }
  }

  /** Joining slash-free pieces and splitting again gives the same pieces. */
  lemma {:induction false} SplitJoin(parts: seq<string>)
    requires |parts| >= 1
    requires forall i :: 0 <= i < |parts| ==> '/' !in parts[i]
    ensures Split(Join(parts)) == parts
  {
    if |parts| > 1 {
      SplitJoin(parts[1..]);
      var tail := Join(parts[1..]);
      assert ("/" + tail)[1..] == tail;
      assert Split("/" + tail) == [""] + parts[1..];
      assert parts[0] + "/" + tail == parts[0] + ("/" + tail);
      SplitPrefix(parts[0], "/" + tail);
      assert parts[0] + "" == parts[0];
      assert parts == [parts[0]] + parts[1..];
    }
  }

  /** `s.split('/').pop()`: the last piece. */
  function LastSegment(s: string): string
  {
    var parts := Split(s);
    parts[|parts| - 1]
  }

  /** The last segment is the longest slash-free tail of `s`: it holds no slash, ends `s`,
      and is either all of `s` or preceded by a slash. */
  lemma {:induction false} LastSegmentIsTail(s: string)
    ensures var t := LastSegment(s);
      '/' !in t && |t| <= |s| && s[|s| - |t|..] == t &&
      (|t| < |s| ==> s[|s| - |t| - 1] == '/')
  {
    if s != [] {
      var rest := Split(s[1..]);
      LastSegmentIsTail(s[1..]);
      var t := LastSegment(s[1..]);
      assert s[1..][|s[1..]| - |t|..] == s[|s| - |t|..];
      if s[0] == '/' {
        assert Split(s) == [""] + rest;
        assert LastSegment(s) == t;
      } else if |rest| == 1 {
        assert rest[0] == s[1..];
        assert LastSegment(s) == s;
      } else {
        assert LastSegment(s) == t;
        assert '/' in s[1..];
      }
    }
  }

  /** `pathname.split('/').pop() || 'index.html'`: the file name of the current page. */
  function CurrentPage(pathname: string): (page: string)
    ensures page != "" && '/' !in page
    ensures page == LastSegment(pathname) || (LastSegment(pathname) == "" && page == DefaultPage)
  {
    var last := LastSegment(pathname);
    if last != "" then last else DefaultPage
  }

  /** `href.startsWith(prefix)`. */
  predicate StartsWith(s: string, prefix: string)
  {
    |prefix| <= |s| && s[..|prefix|] == prefix
  }
}
