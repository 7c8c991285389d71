/**
 The reverse path tokenizer (`reverse_components`): a `/`-separated path
 becomes its components read basename first, with `.` dropped and every `..`
 cancelling the next ordinary segment in that reversed order. A `..` with
 nothing left to cancel disappears without an error, so the tokenizer is total.
 */
module Components {
  import opened Text

  /** The two segments the tokenizer interprets: `.` and `..`. Every other segment, `""` included, is ordinary. */
  predicate IsSpecial(seg: string)
  {
    seg == "." || seg == ".."
  }

  function Reverse<T>(s: seq<T>): (r: seq<T>)
    ensures |r| == |s|
    ensures forall i :: 0 <= i < |s| ==> r[i] == s[|s| - 1 - i]
  {
    if |s| == 0 then [] else Reverse(s[1..]) + [s[0]]
  }

  /** `a` is `b` with some elements left out, the rest kept in order. */
  predicate IsSubsequence<T(==)>(a: seq<T>, b: seq<T>)
    decreases |b|
  {
    if |a| == 0 then true
    else if |b| == 0 then false
    else (a[0] == b[0] && IsSubsequence(a[1..], b[1..])) || IsSubsequence(a, b[1..])
  }

  lemma {:induction false} SubsequenceLength<T>(a: seq<T>, b: seq<T>)
    requires IsSubsequence(a, b)
    ensures |a| <= |b|
    decreases |b|
  {
    if |a| > 0 {
      if a[0] == b[0] && IsSubsequence(a[1..], b[1..]) {
        SubsequenceLength(a[1..], b[1..]);
      } else {
        SubsequenceLength(a, b[1..]);
      }
    }
  }

  /**
   The loop of `reverse_components` over segments already in basename-first
   order, with `skip` the number of pending `..`. The output keeps ordinary
   segments only, in their order.
   */
  function Normalize(segs: seq<string>, skip: nat): (r: seq<string>)
    ensures forall i :: 0 <= i < |r| ==> !IsSpecial(r[i])
  {
    if |segs| == 0 then []
    else if segs[0] == "." then Normalize(segs[1..], skip)
    else if segs[0] == ".." then Normalize(segs[1..], skip + 1)
    else if skip > 0 then Normalize(segs[1..], skip - 1)
    else [segs[0]] + Normalize(segs[1..], skip)
  }

  /** The pending `..` count once `segs` is used up: the surplus that the tokenizer drops. */
  function Leftover(segs: seq<string>, skip: nat): nat
  {
    if |segs| == 0 then skip
    else if segs[0] == "." then Leftover(segs[1..], skip)
    else if segs[0] == ".." then Leftover(segs[1..], skip + 1)
    else if skip > 0 then Leftover(segs[1..], skip - 1)
    else Leftover(segs[1..], skip)
  }

  /** The path's `/`-separated segments, basename first. */
  function ReversedSegments(path: string): seq<string>
  {
    Reverse(Split(path, '/'))
  }

  /** `reverse_components(path)`, computed eagerly. */
  function ReverseComponents(path: string): seq<string>
  {
    Normalize(ReversedSegments(path), 0)
  }

  /** The tokenizer only ever leaves segments out; it never reorders, invents or splits one. */
  lemma {:induction false} NormalizeSubsequence(segs: seq<string>, skip: nat)
    ensures IsSubsequence(Normalize(segs, skip), segs)
  {
    if |segs| > 0 {
      var next := if segs[0] == "." then skip
        else if segs[0] == ".." then skip + 1
        else if skip > 0 then skip - 1
        else skip;
      NormalizeSubsequence(segs[1..], next);
      var r := Normalize(segs, skip);
      if !IsSpecial(segs[0]) && skip == 0 {
        assert r[1..] == Normalize(segs[1..], skip);
      }
    }
  }

  /**
   No component is `.` or `..`, none holds a `/`, the components are the
   path's segments read basename first with some left out, so there are never
   more of them than segments.
   */
  lemma ReverseComponentsShape(path: string)
    ensures forall c :: c in ReverseComponents(path) ==> !IsSpecial(c) && '/' !in c
    ensures IsSubsequence(ReverseComponents(path), ReversedSegments(path))
    ensures |ReverseComponents(path)| <= Count(path, '/') + 1
  {
    var r := ReverseComponents(path);
    NormalizeSubsequence(ReversedSegments(path), 0);
    SubsequenceLength(r, ReversedSegments(path));
    SubsequenceNoSeparator(r, ReversedSegments(path));
  }

  lemma {:induction false} SubsequenceNoSeparator(a: seq<string>, b: seq<string>)
    requires IsSubsequence(a, b)
    requires forall i :: 0 <= i < |b| ==> '/' !in b[i]
    ensures forall i :: 0 <= i < |a| ==> '/' !in a[i]
    decreases |b|
  {
    if |a| > 0 {
      if a[0] == b[0] && IsSubsequence(a[1..], b[1..]) {
        SubsequenceNoSeparator(a[1..], b[1..]);
        forall i | 0 <= i < |a| ensures '/' !in a[i] {
          if i > 0 { assert a[i] == a[1..][i - 1]; }
        }
      } else {
        SubsequenceNoSeparator(a, b[1..]);
      }
    }
  }

  /** Without `.` and `..` and with nothing pending, the tokenizer keeps every segment. */
  lemma {:induction false} NormalizePlain(segs: seq<string>)
    requires forall i :: 0 <= i < |segs| ==> !IsSpecial(segs[i])
    ensures Normalize(segs, 0) == segs
  {
    if |segs| > 0 {
      NormalizePlain(segs[1..]);
    }
  }

  /** A path without `.` or `..` segments gives exactly its segments in reverse. */
  lemma PlainPath(path: string)
    requires forall i :: 0 <= i < |Split(path, '/')| ==> !IsSpecial(Split(path, '/')[i])
    ensures ReverseComponents(path) == Reverse(Split(path, '/'))
  {
    NormalizePlain(ReversedSegments(path));
  }

  /** Processing one more segment at the end continues from the pending count left by the others. */
  lemma {:induction false} NormalizeSnoc(segs: seq<string>, y: string, skip: nat)
    ensures Normalize(segs + [y], skip) == Normalize(segs, skip) + Normalize([y], Leftover(segs, skip))
    ensures Leftover(segs + [y], skip) == Leftover([y], Leftover(segs, skip))
    decreases |segs|
  {
    if |segs| == 0 {
      assert segs + [y] == [y];
    } else {
      assert (segs + [y])[1..] == segs[1..] + [y];
      var next := if segs[0] == "." then skip
        else if segs[0] == ".." then skip + 1
        else if skip > 0 then skip - 1
        else skip;
      NormalizeSnoc(segs[1..], y, next);
    }
  }

  /**
   The conventional reading of `.` and `..` as a reference: walk the segments
   root first keeping a stack of directories, `.` does nothing, `..` pops the
   last directory if there is one, anything else is pushed.
   */
  function Step(stack: seq<string>, seg: string): seq<string>
  {
    if seg == "." then stack
    else if seg == ".." then (if |stack| > 0 then stack[..|stack| - 1] else stack)
    else stack + [seg]
  }

  function Resolve(stack: seq<string>, segs: seq<string>): seq<string>
    decreases |segs|
  {
    if |segs| == 0 then stack else Resolve(Step(stack, segs[0]), segs[1..])
  }

  /** `stack` with its last `n` entries removed (all of them if there are fewer). */
  function DropLast(stack: seq<string>, n: nat): seq<string>
  {
    stack[..|stack| - (if n < |stack| then n else |stack|)]
  }

  lemma DropLastPop(stack: seq<string>, n: nat)
    ensures DropLast(Step(stack, ".."), n) == DropLast(stack, n + 1)
  {
  }

  lemma DropLastPush(stack: seq<string>, y: string, n: nat)
    requires n > 0 && !IsSpecial(y)
    ensures DropLast(Step(stack, y), n) == DropLast(stack, n - 1)
  {
    var t := stack + [y];
    assert Step(stack, y) == t;
    var k := |stack| - (if n - 1 < |stack| then n - 1 else |stack|);
    assert t[..k] == stack[..k];
  }

  /** The effect of one segment at the end of the basename-first order, with `l` pending. */
  lemma NormalizeOne(y: string, l: nat)
    ensures y == "." ==> Normalize([y], l) == [] && Leftover([y], l) == l
    ensures y == ".." ==> Normalize([y], l) == [] && Leftover([y], l) == l + 1
    ensures !IsSpecial(y) && l > 0 ==> Normalize([y], l) == [] && Leftover([y], l) == l - 1
    ensures !IsSpecial(y) && l == 0 ==> Normalize([y], l) == [y] && Leftover([y], l) == 0
  {
    assert [y][1..] == [];
  }

  /** One root-first step of the stack reading matches one basename-last step of the tokenizer. */
  lemma StepMatchesNormalize(stack: seq<string>, y: string, n: seq<string>, l: nat)
    ensures DropLast(Step(stack, y), l) + Reverse(n)
      == DropLast(stack, Leftover([y], l)) + Reverse(n + Normalize([y], l))
  {
    NormalizeOne(y, l);
    if y == "." {
      assert n + [] == n;
    } else if y == ".." {
      DropLastPop(stack, l);
      assert n + [] == n;
    } else if l > 0 {
      DropLastPush(stack, y, l);
      assert n + [] == n;
    } else {
      assert Reverse(n + [y]) == [y] + Reverse(n);
      assert DropLast(stack + [y], 0) == stack + [y];
      assert DropLast(stack, 0) == stack;
    }
  }

  /**
   Resolving from an arbitrary stack: the pending `..` left over by the
   tokenizer pop that many entries of the stack, then the tokenizer's output,
   turned root first, is pushed.
   */
  lemma {:induction false} ResolveMatchesNormalize(stack: seq<string>, segs: seq<string>)
    ensures Resolve(stack, segs)
      == DropLast(stack, Leftover(Reverse(segs), 0)) + Reverse(Normalize(Reverse(segs), 0))
    decreases |segs|
  {
    if |segs| == 0 {
      assert DropLast(stack, 0) == stack;
    } else {
      var y := segs[0];
      var rest := segs[1..];
      var rr := Reverse(rest);
      assert Reverse(segs) == rr + [y];
      var l := Leftover(rr, 0);
      var n := Normalize(rr, 0);
      calc {
        Resolve(stack, segs);
        Resolve(Step(stack, y), rest);
        { ResolveMatchesNormalize(Step(stack, y), rest); }
        DropLast(Step(stack, y), l) + Reverse(n);
        { StepMatchesNormalize(stack, y, n, l); }
        DropLast(stack, Leftover([y], l)) + Reverse(n + Normalize([y], l));
        { NormalizeSnoc(rr, y, 0); }
        DropLast(stack, Leftover(rr + [y], 0)) + Reverse(Normalize(rr + [y], 0));
      }
    }
  }

  /** The tokenizer agrees with the stack reading of the path, turned basename first. */
  lemma ReverseComponentsReference(path: string)
    ensures ReverseComponents(path) == Reverse(Resolve([], Split(path, '/')))
  {
    var segs := Split(path, '/');
    ResolveMatchesNormalize([], segs);
    ReverseInvolution(Normalize(Reverse(segs), 0));
  }

  lemma ReverseInvolution<T>(s: seq<T>)
    ensures Reverse(Reverse(s)) == s
  {
    assert forall i :: 0 <= i < |s| ==> Reverse(Reverse(s))[i] == s[i];
  }

  /** A leading `..` has no directory to cancel and is dropped: `../p` has the components of `p`. */
  lemma LeadingParentDropped(path: string)
    ensures ReverseComponents("../" + path) == ReverseComponents(path)
  {
    SplitConcat("..", path, '/');
    assert ".." + ['/'] + path == "../" + path;
    SplitWithoutSeparator("..", '/');
    ReverseComponentsReference("../" + path);
    ReverseComponentsReference(path);
    assert Split("../" + path, '/') == [".."] + Split(path, '/');
  }

  /** A `.` segment anywhere changes nothing: `a/./b` has the components of `a/b`. */
  lemma DotDropped(a: string, b: string)
    ensures ReverseComponents(a + "/./" + b) == ReverseComponents(a + "/" + b)
  {
    var x, y := Split(a, '/'), Split(b, '/');
    SplitAroundChar(a, '.', b);
    assert "/./" == ['/', '.', '/'] && "." == ['.'];
    SplitConcat(a, b, '/');
    assert a + ['/'] + b == a + "/" + b;
    ReverseAroundDot(x, y);
    ReverseAppend(x, y);
    NormalizeSkipsDot(Reverse(y), Reverse(x), 0);
  }

  /** A one-character piece between two separators is one more piece of the split. */
  lemma SplitAroundChar(a: string, d: char, b: string)
    requires d != '/'
    ensures Split(a + ['/', d, '/'] + b, '/') == Split(a, '/') + [[d]] + Split(b, '/')
  {
    var t := [d] + ['/'] + b;
    SplitConcat([d], b, '/');
    SplitWithoutSeparator([d], '/');
    SplitConcat(a, t, '/');
    assert a + ['/'] + t == a + ['/', d, '/'] + b;
  }

  lemma ReverseAroundDot(x: seq<string>, y: seq<string>)
    ensures Reverse(x + ["."] + y) == Reverse(y) + ["."] + Reverse(x)
  {
    ReverseAppend(x + ["."], y);
    ReverseAppend(x, ["."]);
    assert Reverse(["."]) == ["."];
  }

  lemma ReverseAppend<T>(x: seq<T>, y: seq<T>)
    ensures Reverse(x + y) == Reverse(y) + Reverse(x)
  {
    var r := Reverse(y) + Reverse(x);
    assert forall i :: 0 <= i < |x + y| ==> Reverse(x + y)[i] == r[i];
  }

  /** A `.` between two runs of segments leaves the pending `..` count alone. */
  lemma {:induction false} NormalizeSkipsDot(x: seq<string>, y: seq<string>, skip: nat)
    ensures Normalize(x + ["."] + y, skip) == Normalize(x + y, skip)
    decreases |x|
  {
    if |x| == 0 {
      assert x + ["."] + y == ["."] + y;
      assert (["."] + y)[1..] == y;
      assert x + y == y;
    } else {
      var next := if x[0] == "." then skip
        else if x[0] == ".." then skip + 1
        else if skip > 0 then skip - 1
        else skip;
      NormalizeSkipsDot(x[1..], y, next);
      assert (x + ["."] + y)[1..] == x[1..] + ["."] + y;
      assert (x + y)[1..] == x[1..] + y;
    }
  }

  /** An ordinary segment followed by `..` cancels out: `p/x/..` has the components of `p`. */
  lemma ParentCancelsSegment(path: string, x: string)
    requires !IsSpecial(x) && '/' !in x
    ensures ReverseComponents(path + "/" + x + "/..") == ReverseComponents(path)
  {
    var segs := Split(path, '/');
    SplitSuffixPair(path, x);
    var rs := Reverse(segs);
    assert Reverse(segs + [x, ".."]) == ["..", x] + rs;
    var t := ["..", x] + rs;
    assert t[1..] == [x] + rs;
    assert ([x] + rs)[1..] == rs;
    assert Normalize(t, 0) == Normalize([x] + rs, 1) == Normalize(rs, 0);
  }

  lemma SplitSuffixPair(path: string, x: string)
    requires '/' !in x
    ensures Split(path + "/" + x + "/..", '/') == Split(path, '/') + [x, ".."]
  {
    var tail := x + ['/'] + "..";
    SplitConcat(x, "..", '/');
    SplitWithoutSeparator(x, '/');
    SplitWithoutSeparator("..", '/');
    assert Split(tail, '/') == [x, ".."];
    SplitConcat(path, tail, '/');
    assert path + "/" + x + "/.." == path + ['/'] + tail;
  }
}
