/**
 `shorten_file_paths`: every long file path found in a failure message is
 replaced by its last three pieces behind `.../`.
 */
module Shorten {
  import opened Text

  /**
   The rewrite of one matched path: a path of more than three `/`-separated
   pieces keeps only its last three, behind `.../`; a shorter one is kept.
   */
  function ShortenPath(filepath: string): string
  {
    var parts := Split(filepath, '/');
    if |parts| > 3 then ".../" + Join(parts[|parts| - 3..], "/") else filepath
  }

  /**
   A path with fewer than three separators is left alone; a longer one becomes
   `.../` followed by the text after its third separator from the end, which
   holds exactly two separators.
   */
  lemma ShortenPathSpec(filepath: string)
    ensures Count(filepath, '/') < 3 ==> ShortenPath(filepath) == filepath
    ensures Count(filepath, '/') >= 3 ==>
      var r := ShortenPath(filepath);
      |r| >= 4 && r[..4] == ".../" && EndsWith(filepath, "/" + r[4..]) && Count(r[4..], '/') == 2
  {
    var parts := Split(filepath, '/');
    var n := |parts|;
    if n > 3 {
      var front, back := parts[..n - 3], parts[n - 3..];
      assert parts == front + back;
      JoinSplit(filepath, '/');
      JoinAppend(front, back, "/");
      var tail := Join(back, "/");
      assert filepath == Join(front, "/") + ("/" + tail);
      var r := ShortenPath(filepath);
      assert r == ".../" + tail;
      assert r[4..] == tail;
      CountJoin(back, '/');
    }
  }

  /** The pieces of a shortened path: the marker `...` and the three kept pieces. */
  lemma ShortenedPieces(back: seq<string>)
    requires |back| == 3
    requires forall i :: 0 <= i < |back| ==> '/' !in back[i]
    ensures Split(".../" + Join(back, "/"), '/') == ["..."] + back
  {
    assert ".../" + Join(back, "/") == "..." + ['/'] + Join(back, "/");
    SplitConcat("...", Join(back, "/"), '/');
    SplitWithoutSeparator("...", '/');
    SplitJoin(back, '/');
  }

  /** Shortening a path twice is shortening it once. */
  lemma ShortenPathIdempotent(filepath: string)
    ensures ShortenPath(ShortenPath(filepath)) == ShortenPath(filepath)
  {
    var parts := Split(filepath, '/');
    var n := |parts|;
    if n > 3 {
      var back := parts[n - 3..];
      ShortenedPieces(back);
      var pieces := ["..."] + back;
      assert pieces[|pieces| - 3..] == back;
    }
  }

  /**
   Whatever comes before a path with at least three separators, followed by a
   separator, disappears in the shortening; a leading `/` is the case of an
   empty head.
   */
  lemma ShortenIgnoresHead(head: string, path: string)
    requires Count(path, '/') >= 3
    ensures ShortenPath(head + ['/'] + path) == ShortenPath(path)
  {
    var whole := head + ['/'] + path;
    var h, p := Split(head, '/'), Split(path, '/');
    SplitConcat(head, path, '/');
    LastThree(h, p);
    SameLastThree(whole, path);
  }

  /** Two long paths that end in the same three pieces are shortened alike. */
  lemma SameLastThree(a: string, b: string)
    requires |Split(a, '/')| > 3 && |Split(b, '/')| > 3
    requires var x, y := Split(a, '/'), Split(b, '/'); x[|x| - 3..] == y[|y| - 3..]
    ensures ShortenPath(a) == ShortenPath(b)
  {
  }

  /** Shortening a path, given its pieces. */
  lemma ShortenByPieces(filepath: string, parts: seq<string>)
    requires Split(filepath, '/') == parts && |parts| > 3
    ensures ShortenPath(filepath) == ".../" + Join(parts[|parts| - 3..], "/")
  {
  }

  /** The last three of a sequence of at least three are not changed by anything in front. */
  lemma LastThree(front: seq<string>, back: seq<string>)
    requires |back| >= 3
    ensures (front + back)[|front + back| - 3..] == back[|back| - 3..]
  {
    var w := front + back;
    var a, b := w[|w| - 3..], back[|back| - 3..];
    forall i | 0 <= i < 3 ensures a[i] == b[i] {
      assert w[|w| - 3 + i] == back[|back| - 3 + i];
    }
  }

  /**
   The rewrite of a whole message. `matches` stands for the paths the path
   pattern finds in the original message, left to right; each one with more
   than three pieces is replaced, everywhere in the message as rewritten so
   far, by its shortened form.
   */
  function ShortenFilePaths(msg: string, matches: seq<string>): string
    decreases |matches|
  {
    if |matches| == 0 then msg
    else
      var m := matches[0];
      var next := if |Split(m, '/')| > 3 then ReplaceAll(msg, m, ShortenPath(m)) else msg;
      ShortenFilePaths(next, matches[1..])
  }

  /** Matches with fewer than three separators leave the message as it is. */
  lemma {:induction false} ShortenFilePathsKeepsShort(msg: string, matches: seq<string>)
    requires forall i :: 0 <= i < |matches| ==> Count(matches[i], '/') < 3
    ensures ShortenFilePaths(msg, matches) == msg
    decreases |matches|
  {
    if |matches| > 0 {
      ShortenFilePathsKeepsShort(msg, matches[1..]);
    }
  }

  /** A message that is one path as a whole is that path shortened. */
  lemma ShortenWholeMessage(msg: string)
    ensures ShortenFilePaths(msg, [msg]) == ShortenPath(msg)
  {
    if |Split(msg, '/')| > 3 {
      ReplaceWhole(msg, ShortenPath(msg));
    }
  }
}
