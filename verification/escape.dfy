/**
 `escape_failure_message`: the HTML escaping of a failure message by a fixed
 table of replacements, applied one after the other to the whole text.
 */
module Escape {
  import opened Text

  /** Number of entries of the replacement table. */
  const TableSize := 7

  /**
   The character the replacement at position `k` of the table looks for. The
   order matters: `<` and `>` are replaced before `\n` becomes `<br>`, so the
   tag that stands for a line break is never escaped, while `&` is replaced after
   the entities are written, so they come out escaped a second time.
   */
  function Pattern(k: nat): char
    requires k < TableSize
  {
    if k == 0 then '"'
    else if k == 1 then '\''
    else if k == 2 then '<'
    else if k == 3 then '>'
    else if k == 4 then '&'
    else if k == 5 then '\r'
    else '\n'
  }

  /** The text the replacement at position `k` writes in place of `Pattern(k)`. */
  function Replacement(k: nat): string
    requires k < TableSize
  {
    if k == 0 then "&quot;"
    else if k == 1 then "&apos;"
    else if k == 2 then "&lt;"
    else if k == 3 then "&gt;"
    else if k == 4 then "&amp;"
    else if k == 5 then ""
    else "<br>"
  }

  /** Applying the replacements from position `k` of the table to its end, in order. */
  function ReplaceFrom(s: string, k: nat): string
    requires k <= TableSize
    decreases TableSize - k
  {
    if k == TableSize then s else ReplaceFrom(ReplaceAll(s, [Pattern(k)], Replacement(k)), k + 1)
  }

  function EscapeFailureMessage(msg: string): string
  {
    ReplaceFrom(msg, 0)
  }

  /**
   What the table does to one character, written out by hand: the five
   characters with entities come out as their entity escaped once more,
   a carriage return disappears and a line feed becomes a line-break tag.
   */
  function EscapeChar(c: char): string
  {
    if c == '"' then "&amp;quot;"
    else if c == '\'' then "&amp;apos;"
    else if c == '<' then "&amp;lt;"
    else if c == '>' then "&amp;gt;"
    else if c == '&' then "&amp;"
    else if c == '\r' then ""
    else if c == '\n' then "<br>"
    else [c]
  }

  /** The reference escaping: every character replaced by its `EscapeChar`. */
  function EscapeEachChar(s: string): string
  {
    if |s| == 0 then "" else EscapeChar(s[0]) + EscapeEachChar(s[1..])
  }

  /** The characters the table looks for. */
  predicate IsEscaped(c: char)
  {
    c == '"' || c == '\'' || c == '<' || c == '>' || c == '&' || c == '\r' || c == '\n'
  }

  /** Every replacement of the table is applied character by character. */
  lemma {:induction false} ReplaceFromAppend(a: string, b: string, k: nat)
    requires k <= TableSize
    ensures ReplaceFrom(a + b, k) == ReplaceFrom(a, k) + ReplaceFrom(b, k)
    decreases TableSize - k
  {
    if k < TableSize {
      var c, to := Pattern(k), Replacement(k);
      ReplaceCharAppend(a, b, c, to);
      ReplaceFromAppend(ReplaceAll(a, [c], to), ReplaceAll(b, [c], to), k + 1);
      assert ReplaceFrom(a + b, k) == ReplaceFrom(ReplaceAll(a + b, [c], to), k + 1);
    }
  }

  /** The escaping distributes over concatenation. */
  lemma EscapeAppend(a: string, b: string)
    ensures EscapeFailureMessage(a + b) == EscapeFailureMessage(a) + EscapeFailureMessage(b)
  {
    ReplaceFromAppend(a, b, 0);
  }

  /** Replacements at positions `i` up to `k` whose characters do not occur change nothing. */
  lemma {:induction false} ReplaceFromSkip(s: string, i: nat, k: nat)
    requires i <= k <= TableSize
    requires forall j :: i <= j < k ==> Pattern(j) !in s
    ensures ReplaceFrom(s, i) == ReplaceFrom(s, k)
    decreases k - i
  {
    if i < k {
      ReplaceCharAbsent(s, Pattern(i), Replacement(i));
      ReplaceFromSkip(s, i + 1, k);
    }
  }

  /** `&` followed by text without `&` gets the `&` escaped and nothing else. */
  lemma AmpersandEntity(name: string)
    requires '&' !in name
    ensures ReplaceAll("&" + name, "&", "&amp;") == "&amp;" + name
  {
    ReplaceCharAppend("&", name, '&', "&amp;");
    ReplaceWhole("&", "&amp;");
    ReplaceCharAbsent(name, '&', "&amp;");
  }

  /**
   A character first met by the pattern at position `k` passes the earlier
   replacements untouched and is then replaced whole.
   */
  lemma FirstHit(c: char, k: nat)
    requires k < TableSize && Pattern(k) == c
    requires forall j :: 0 <= j < k ==> Pattern(j) != c
    ensures EscapeFailureMessage([c]) == ReplaceFrom(Replacement(k), k + 1)
  {
    ReplaceFromSkip([c], 0, k);
    ReplaceWhole([c], Replacement(k));
  }

  /** An entity written by one of the first four replacements has its `&` escaped and nothing else. */
  lemma EntityTail(name: string, k: nat)
    requires k < 4
    requires forall i :: 0 <= i < |name| ==> !IsEscaped(name[i])
    ensures ReplaceFrom("&" + name, k + 1) == "&amp;" + name
  {
    ReplaceFromSkip("&" + name, k + 1, 4);
    AmpersandEntity(name);
    ReplaceFromSkip("&amp;" + name, 5, TableSize);
  }

  /** A character with an entity comes out as that entity escaped once more. */
  lemma EntityChar(c: char, k: nat, name: string)
    requires k < 4 && Pattern(k) == c && Replacement(k) == "&" + name
    requires forall j :: 0 <= j < k ==> Pattern(j) != c
    requires forall i :: 0 <= i < |name| ==> !IsEscaped(name[i])
    ensures EscapeFailureMessage([c]) == "&amp;" + name
  {
    FirstHit(c, k);
    EntityTail(name, k);
  }

  lemma EscapeQuote(c: char)
    requires c == '"'
    ensures EscapeFailureMessage([c]) == EscapeChar(c)
  {
    EntityChar(c, 0, "quot;");
  }

  lemma EscapeApostrophe(c: char)
    requires c == '\''
    ensures EscapeFailureMessage([c]) == EscapeChar(c)
  {
    EntityChar(c, 1, "apos;");
  }

  lemma EscapeLess(c: char)
    requires c == '<'
    ensures EscapeFailureMessage([c]) == EscapeChar(c)
  {
    EntityChar(c, 2, "lt;");
  }

  lemma EscapeGreater(c: char)
    requires c == '>'
    ensures EscapeFailureMessage([c]) == EscapeChar(c)
  {
    EntityChar(c, 3, "gt;");
  }

  lemma EscapeAmpersand(c: char)
    requires c == '&'
    ensures EscapeFailureMessage([c]) == EscapeChar(c)
  {
    FirstHit(c, 4);
    ReplaceFromSkip("&amp;", 5, TableSize);
  }

  lemma EscapeCarriageReturn(c: char)
    requires c == '\r'
    ensures EscapeFailureMessage([c]) == EscapeChar(c)
  {
    FirstHit(c, 5);
    ReplaceFromSkip("", 6, TableSize);
  }

  lemma EscapeLineFeed(c: char)
    requires c == '\n'
    ensures EscapeFailureMessage([c]) == EscapeChar(c)
  {
    FirstHit(c, 6);
  }

  lemma EscapePlain(c: char)
    requires !IsEscaped(c)
    ensures EscapeFailureMessage([c]) == EscapeChar(c)
  {
    ReplaceFromSkip([c], 0, TableSize);
  }

  /** The table sends one character to its `EscapeChar`. */
  lemma EscapeOne(c: char)
    ensures EscapeFailureMessage([c]) == EscapeChar(c)
  {
    if c == '"' {
      EscapeQuote(c);
    } else if c == '\'' {
      EscapeApostrophe(c);
    } else if c == '<' {
      EscapeLess(c);
    } else if c == '>' {
      EscapeGreater(c);
    } else if c == '&' {
      EscapeAmpersand(c);
    } else if c == '\r' {
      EscapeCarriageReturn(c);
    } else if c == '\n' {
      EscapeLineFeed(c);
    } else {
      EscapePlain(c);
    }
  }

  /** The table-driven escaping agrees with the per-character reference. */
  lemma {:induction false} EscapeReference(s: string)
    ensures EscapeFailureMessage(s) == EscapeEachChar(s)
    decreases |s|
  {
    if |s| == 0 {
      ReplaceFromSkip(s, 0, TableSize);
    } else {
      assert s == [s[0]] + s[1..];
      EscapeAppend([s[0]], s[1..]);
      EscapeOne(s[0]);
      EscapeReference(s[1..]);
    }
  }

  /** No quote, apostrophe or line terminator is written, and angle brackets only for a line feed. */
  predicate EscapedClean(c: char, r: string)
  {
    '"' !in r && '\'' !in r && '\r' !in r && '\n' !in r &&
    Count(r, '<') == (if c == '\n' then 1 else 0) && Count(r, '>') == (if c == '\n' then 1 else 0)
  }

  lemma EntityClean(c: char, r: string)
    requires c != '\n'
    requires forall i :: 0 <= i < |r| ==> r[i] != '"' && r[i] != '\'' && r[i] != '\r' && r[i] != '\n' && r[i] != '<' && r[i] != '>'
    ensures EscapedClean(c, r)
  {
    CountZero(r, '<');
    CountZero(r, '>');
  }

  lemma EscapeCharShape(c: char)
    ensures EscapedClean(c, EscapeChar(c))
  {
    var r := EscapeChar(c);
    if c == '\n' {
      assert r == "<br>";
      assert Count("<br>"[1..], '<') == 0 by { CountZero("<br>"[1..], '<'); }
      assert "<br>"[3..] == ">" && Count(">", '>') == 1;
      assert Count("<br>"[..3], '>') == 0 by { CountZero("<br>"[..3], '>'); }
      CountAppend("<br>"[..3], "<br>"[3..], '>');
      assert "<br>"[..3] + "<br>"[3..] == "<br>";
    } else {
      EntityClean(c, r);
    }
  }

  lemma {:induction false} EscapeEachCharShape(s: string)
    ensures var r := EscapeEachChar(s);
      '"' !in r && '\'' !in r && '\r' !in r && '\n' !in r &&
      Count(r, '<') == Count(s, '\n') && Count(r, '>') == Count(s, '\n')
    decreases |s|
  {
    if |s| > 0 {
      EscapeEachCharShape(s[1..]);
      EscapeCharShape(s[0]);
      CountAppend(EscapeChar(s[0]), EscapeEachChar(s[1..]), '<');
      CountAppend(EscapeChar(s[0]), EscapeEachChar(s[1..]), '>');
    }
  }

  /**
   The escaped message holds no quote, no apostrophe and no line terminator,
   and its angle brackets are exactly those of the `<br>` tags, one per line
   feed of the message.
   */
  lemma EscapeShape(s: string)
    ensures var r := EscapeFailureMessage(s);
      '"' !in r && '\'' !in r && '\r' !in r && '\n' !in r &&
      Count(r, '<') == Count(s, '\n') && Count(r, '>') == Count(s, '\n')
  {
    EscapeReference(s);
    EscapeEachCharShape(s);
  }

  /** A message without any of the seven characters comes back unchanged. */
  lemma {:induction false} EscapeUntouched(s: string)
    requires forall i :: 0 <= i < |s| ==> !IsEscaped(s[i])
    ensures EscapeFailureMessage(s) == s
    decreases |s|
  {
    EscapeReference(s);
    if |s| > 0 {
      EscapeUntouched(s[1..]);
      EscapeReference(s[1..]);
      assert s == [s[0]] + s[1..];
    }
  }
}
