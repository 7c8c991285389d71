/**
 The expected outputs of the tokenizer's own unit tests, and the empty-segment
 cases. Each lemma takes its path as a parameter fixed by its precondition.
 */
module ComponentsTests {
  import opened Text
  import opened Components

  /** A path that is the join of `/`-free pieces is tokenized by normalising the pieces reversed. */
  lemma TokenizeJoined(path: string, parts: seq<string>)
    requires |parts| > 0
    requires forall i :: 0 <= i < |parts| ==> '/' !in parts[i]
    requires Join(parts, "/") == path
    ensures ReverseComponents(path) == Normalize(Reverse(parts), 0)
  {
    SplitJoin(parts, '/');
  }

  /** One more `/`-free piece at the end of a path comes first among the segments. */
  lemma SegmentsSnoc(a: string, piece: string)
    requires '/' !in piece
    ensures ReversedSegments(a + "/" + piece) == [piece] + ReversedSegments(a)
  {
    var s := Split(a, '/');
    SplitSnoc(a, piece, '/');
    assert Reverse(s + [piece]) == [piece] + Reverse(s);
  }

  lemma SegmentsOne(p0: string)
    requires '/' !in p0
    ensures ReversedSegments(p0) == [p0]
  {
    SplitWithoutSeparator(p0, '/');
  }

  lemma SegmentsTwo(p0: string, p1: string)
    requires '/' !in p0 && '/' !in p1
    ensures ReversedSegments(p0 + "/" + p1) == [p1, p0]
  {
    SegmentsOne(p0);
    SegmentsSnoc(p0, p1);
  }

  lemma SegmentsThree(p0: string, p1: string, p2: string)
    requires '/' !in p0 && '/' !in p1 && '/' !in p2
    ensures ReversedSegments(p0 + "/" + p1 + "/" + p2) == [p2, p1, p0]
  {
    SegmentsTwo(p0, p1);
    SegmentsSnoc(p0 + "/" + p1, p2);
  }

  lemma SegmentsFour(p0: string, p1: string, p2: string, p3: string)
    requires '/' !in p0 && '/' !in p1 && '/' !in p2 && '/' !in p3
    ensures ReversedSegments(p0 + "/" + p1 + "/" + p2 + "/" + p3) == [p3, p2, p1, p0]
  {
    SegmentsThree(p0, p1, p2);
    SegmentsSnoc(p0 + "/" + p1 + "/" + p2, p3);
  }

  lemma SegmentsFive(p0: string, p1: string, p2: string, p3: string, p4: string)
    requires '/' !in p0 && '/' !in p1 && '/' !in p2 && '/' !in p3 && '/' !in p4
    ensures ReversedSegments(p0 + "/" + p1 + "/" + p2 + "/" + p3 + "/" + p4) == [p4, p3, p2, p1, p0]
  {
    SegmentsFour(p0, p1, p2, p3);
    SegmentsSnoc(p0 + "/" + p1 + "/" + p2 + "/" + p3, p4);
  }

  lemma SegmentsSix(p0: string, p1: string, p2: string, p3: string, p4: string, p5: string)
    requires '/' !in p0 && '/' !in p1 && '/' !in p2 && '/' !in p3 && '/' !in p4 && '/' !in p5
    ensures ReversedSegments(p0 + "/" + p1 + "/" + p2 + "/" + p3 + "/" + p4 + "/" + p5) == [p5, p4, p3, p2, p1, p0]
  {
    SegmentsFive(p0, p1, p2, p3, p4);
    SegmentsSnoc(p0 + "/" + p1 + "/" + p2 + "/" + p3 + "/" + p4, p5);
  }

  lemma BareFileName(path: string)
    requires path == "mod.rs"
    ensures ReverseComponents(path) == ["mod.rs"]
  {
    SegmentsOne(path);
  }

  lemma DotsDropped(path: string)
    requires path == "." + "/" + "foo" + "/" + "." + "/" + "bar" + "/" + "mod.rs"
    ensures ReverseComponents(path) == ["mod.rs", "bar", "foo"]
  {
    SegmentsFive(".", "foo", ".", "bar", "mod.rs");
    assert Normalize(["mod.rs", "bar", ".", "foo", "."], 0) == ["mod.rs", "bar", "foo"];
  }

  lemma ParentCancelsOne(path: string)
    requires path == "." + "/" + "foo" + "/" + ".." + "/" + "bar" + "/" + "mod.rs"
    ensures ReverseComponents(path) == ["mod.rs", "bar"]
  {
    SegmentsFive(".", "foo", "..", "bar", "mod.rs");
    assert Normalize(["mod.rs", "bar", "..", "foo", "."], 0) == ["mod.rs", "bar"];
  }

  lemma ParentsCancelAll(path: string)
    requires path == "foo" + "/" + ".." + "/" + "bar" + "/" + ".." + "/" + "mod.rs"
    ensures ReverseComponents(path) == ["mod.rs"]
  {
    SegmentsFive("foo", "..", "bar", "..", "mod.rs");
    assert Normalize(["mod.rs", "..", "bar", "..", "foo"], 0) == ["mod.rs"];
  }

  lemma TwoParentsCancelTwo(path: string)
    requires path == "foo" + "/" + "bar" + "/" + "foobar" + "/" + ".." + "/" + ".." + "/" + "mod.rs"
    ensures ReverseComponents(path) == ["mod.rs", "foo"]
  {
    SegmentsSix("foo", "bar", "foobar", "..", "..", "mod.rs");
    assert Normalize(["mod.rs", "..", "..", "foobar", "bar", "foo"], 0) == ["mod.rs", "foo"];
  }

  /** Surplus `..` vanish without an error: nothing is left of `a/../..`. */
  lemma SurplusParents(path: string)
    requires path == "a" + "/" + ".." + "/" + ".."
    ensures ReverseComponents(path) == []
  {
    SegmentsThree("a", "..", "..");
    assert Normalize(["..", "..", "a"], 0) == [];
  }

  /** Doubled separators give an empty component, which is ordinary. */
  lemma DoubledSeparator(path: string)
    requires path == "a" + "/" + "" + "/" + "b"
    ensures ReverseComponents(path) == ["b", "", "a"]
  {
    SegmentsThree("a", "", "b");
    assert Normalize(["b", "", "a"], 0) == ["b", "", "a"];
  }

  /** A leading separator gives a trailing empty component; the empty path is one empty component. */
  lemma AbsoluteAndEmpty(absolute: string, empty: string)
    requires absolute == "" + "/" + "a" && empty == ""
    ensures ReverseComponents(absolute) == ["a", ""]
    ensures ReverseComponents(empty) == [""]
  {
    SegmentsTwo("", "a");
    assert Normalize(["a", ""], 0) == ["a", ""];
    SegmentsOne(empty);
  }
}
