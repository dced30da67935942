/** The local output name of `download`: the URL split on '/' as Python's
    `str.split` does, and its last piece. */
module FileName {

  /** The pieces of s between occurrences of sep, as `s.split(sep)`: there is
      always at least one piece, and none contains sep. */
  function Split(s: string, sep: char): (parts: seq<string>)
    ensures |parts| >= 1
    ensures forall k :: 0 <= k < |parts| ==> sep !in parts[k]
  {
    if s == [] then [""]
    else
      var init := Split(s[..|s| - 1], sep);
      var c := s[|s| - 1];
      if c == sep then init + [""]
      else init[..|init| - 1] + [init[|init| - 1] + [c]]
  }

  /** The pieces glued back together with sep between them, as `sep.join`. */
  function Join(parts: seq<string>, sep: char): string
    requires |parts| >= 1
  {
    if |parts| == 1 then parts[0]
    else Join(parts[..|parts| - 1], sep) + [sep] + parts[|parts| - 1]
  }

  /** Extending the last piece extends the joined string by the same text. */
  lemma JoinExtendLast(parts: seq<string>, sep: char, x: string)
    requires |parts| >= 1
    ensures Join(parts[..|parts| - 1] + [parts[|parts| - 1] + x], sep) == Join(parts, sep) + x
  {
    var n := |parts|;
    var ext := parts[..n - 1] + [parts[n - 1] + x];
    if n > 1 {
      assert ext[..n - 1] == parts[..n - 1];
    }
  }

  /** Joining the pieces of a split gives back the string, so no character is lost. */
  lemma {:induction false} JoinSplit(s: string, sep: char)
    ensures Join(Split(s, sep), sep) == s
  {
    if s != [] {
      var t := s[..|s| - 1];
      var c := s[|s| - 1];
      var init := Split(t, sep);
      JoinSplit(t, sep);
      assert s == t + [c];
      if c == sep {
        assert (init + [""])[..|init|] == init;
      } else {
        JoinExtendLast(init, sep, [c]);
      }
    }
  }

  /** The last piece of a split is the part of s after its last sep (all of s
      when it has none). */
  lemma {:induction false} LastPieceIsTail(s: string, sep: char)
    ensures var parts := Split(s, sep);
            var t := parts[|parts| - 1];
            |t| <= |s| && s[|s| - |t|..] == t
            && (|t| == |s| || s[|s| - |t| - 1] == sep)
  {
    if s != [] {
      var init := Split(s[..|s| - 1], sep);
      LastPieceIsTail(s[..|s| - 1], sep);
    }
  }

  /** The output name: the URL's text after its last '/'. */
  function OutputName(url: string): (name: string)
    ensures '/' !in name
    ensures |name| <= |url| && url[|url| - |name|..] == name
    ensures |name| == |url| || url[|url| - |name| - 1] == '/'
    ensures '/' !in url ==> name == url
  {
    var parts := Split(url, '/');
    LastPieceIsTail(url, '/');
    parts[|parts| - 1]
  }
}
