/**
 * The plan parser, `parse_files_from_response`: it turns the generation
 * service's free text into (path, content) pairs, trying three patterns in a
 * fixed order and keeping the matches of the first one that matches at all.
 */
module Parser {
  import opened Wrappers
  import opened PyStr

  /** One parsed file, `{"path": ..., "content": ...}`. */
  datatype FileEntry = FileEntry(path: string, content: string)

  /** What `re.findall` returns for a two-group pattern: the groups of each match, in text order. */
  type Matches = seq<(string, string)>

  /** A regular-expression engine run of one fixed pattern over a text. */
  type Matcher = string -> Matches

  /** `\w` (ASCII letters, digits and underscore). */
  predicate IsWordChar(c: char)
  {
    'a' <= c <= 'z' || 'A' <= c <= 'Z' || '0' <= c <= '9' || c == '_'
  }

  predicate NotCloseAngle(c: char)
  {
    c != '>'
  }

  /** A match of pattern 1: its two groups and the index just after it. */
  datatype TagMatch = TagMatch(path: string, content: string, end: nat)

  /** The text strictly before the first fence at or after `from` holds no fence. */
  lemma BeforeFirstFence(text: string, from: nat)
    requires from <= |text| && Find(text, "```", from) != -1
    ensures !Contains(text[from..Find(text, "```", from)], "```")
  {
    NoOccurrenceInSlice(text, from, Find(text, "```", from), "```");
  }

  /**
   * The head `<file:([^\>]+)>\s*```[\w]*\n` of pattern 1 tried at index `i`:
   * where the path ends (at the `>`) and where the body starts. Backtracking
   * cannot change its outcome: every repeated class stops at the first
   * character it excludes, and the character needed next is one that class
   * excludes.
   */
  function HeadAt(text: string, i: nat): (h: Option<(nat, nat)>)
    requires i <= |text|
    ensures h.Some? ==> i + 6 < h.value.0 < h.value.1 <= |text|
    ensures h.Some? ==> forall n | i + 6 <= n < h.value.0 :: text[n] != '>'
  {
    if !OccursAt(text, "<file:", i) then None
    else
      var j := i + 6;
      var k := SkipWhile(text, j, NotCloseAngle);
      if k == j || k == |text| then None
      else
        var ws := SkipWhile(text, k + 1, IsSpace);
        if !OccursAt(text, "```", ws) then None
        else
          var w := SkipWhile(text, ws + 3, IsWordChar);
          if w == |text| || text[w] != '\n' then None
          else Some((k, w + 1))
  }

  /**
   * Pattern 1, `<file:([^\>]+)>\s*```[\w]*\n(.*?)```` with DOTALL, tried at
   * index `i`: the head, then the lazy body, which stops at the first fence.
   */
  function FileTagAt(text: string, i: nat): (m: Option<TagMatch>)
    requires i <= |text|
    ensures m.Some? ==> i < m.value.end <= |text|
    ensures m.Some? ==> m.value.path != [] && '>' !in m.value.path
    ensures m.Some? ==> !Contains(m.value.content, "```")
  {
    match HeadAt(text, i)
    case None => None
    case Some((k, b)) =>
      assert forall c | c in text[i + 6..k] :: NotCloseAngle(c);
      BodyAt(text, text[i + 6..k], b)
  }

  /**
   * The lazy body `(.*?)```` of pattern 1 from index `b`, under the already
   * matched `path`: no match when no fence follows `b`; otherwise the body is
   * the text from `b` up to the first fence, and the match ends just after
   * that fence.
   */
  function BodyAt(text: string, path: string, b: nat): (m: Option<TagMatch>)
    requires b <= |text|
    ensures m.None? ==> forall q :: b <= q ==> !OccursAt(text, "```", q)
    ensures m.Some? ==> m.value.path == path && b + 3 <= m.value.end <= |text|
    ensures m.Some? ==> OccursAt(text, "```", m.value.end - 3) && m.value.content == text[b..m.value.end - 3]
    ensures m.Some? ==> forall q :: b <= q < m.value.end - 3 ==> !OccursAt(text, "```", q)
    ensures m.Some? ==> !Contains(m.value.content, "```")
  {
    var f := Find(text, "```", b);
    if f == -1 then None
    else
      BeforeFirstFence(text, b);
      Some(TagMatch(path, text[b..f], f + 3))
  }

  /** `re.findall` of pattern 1 from index `i`: leftmost matches, each search resuming where the last match ended. */
  function FileTagMatches(text: string, i: nat): (r: Matches)
    requires i <= |text|
    ensures forall n | 0 <= n < |r| :: r[n].0 != [] && '>' !in r[n].0 && !Contains(r[n].1, "```")
    decreases |text| - i
  {
    if i == |text| then []
    else
      match FileTagAt(text, i)
      case Some(m) => [(m.path, m.content)] + FileTagMatches(text, m.end)
      case None => FileTagMatches(text, i + 1)
  }

  /** A tagged block: `<file:p>`, blanks, a fence with a language word, a newline, the content and the closing fence. */
  function TagBlock(p: string, ws: string, lang: string, c: string): (block: string)
    ensures |block| == |p| + |ws| + |lang| + |c| + 14
  {
    "<file:" + p + ">" + ws + "```" + lang + "\n" + c + "```"
  }

  /**
   * What makes a tagged block well formed: a non-empty path without `>`,
   * blanks only between the tag and the fence, word characters only in the
   * language, and a content without a fence that does not end in a backquote
   * (a trailing backquote would start the closing fence early).
   */
  predicate WellFormedBlock(p: string, ws: string, lang: string, c: string)
  {
    WellFormedHead(p, ws, lang) && WellFormedContent(c)
  }

  /** The tag, blanks and language word of a well-formed block. */
  predicate WellFormedHead(p: string, ws: string, lang: string)
  {
    && p != [] && '>' !in p
    && (forall n | 0 <= n < |ws| :: IsSpace(ws[n]))
    && (forall n | 0 <= n < |lang| :: IsWordChar(lang[n]))
  }

  /** The content of a well-formed block. */
  predicate WellFormedContent(c: string)
  {
    !Contains(c, "```") && (c == [] || c[|c| - 1] != '`')
  }

  /** Where the content of a tagged block starts: after the tag, the blanks, the fence, the language word and the newline. */
  function BodyStart(p: string, ws: string, lang: string): (b: nat)
    ensures b == |p| + |ws| + |lang| + 11
  {
    6 + |p| + 1 + |ws| + 3 + |lang| + 1
  }

  /** Pattern 1 matches a well-formed block at its start, whatever follows it, and captures its path and content. */
  lemma TagBlockMatched(p: string, ws: string, lang: string, c: string, rest: string)
    requires WellFormedBlock(p, ws, lang, c)
    ensures FileTagAt(TagBlock(p, ws, lang, c) + rest, 0) == Some(TagMatch(p, c, |p| + |ws| + |lang| + |c| + 14))
  {
    BlockPieces(p, ws, lang, c, rest);
    PiecesMatched(TagBlock(p, ws, lang, c) + rest, p, ws, lang, c);
  }

  /** Pattern 1 at index 0 of a text that starts with the pieces of a well-formed block. */
  lemma PiecesMatched(text: string, p: string, ws: string, lang: string, c: string)
    requires WellFormedHead(p, ws, lang) && HeadPiecesAt(text, p, ws, lang)
    requires WellFormedContent(c) && BodyPiecesAt(text, BodyStart(p, ws, lang), c)
    ensures FileTagAt(text, 0) == Some(TagMatch(p, c, |p| + |ws| + |lang| + |c| + 14))
  {
    HeadOfPieces(text, p, ws, lang);
    BodyMatched(text, p, c, BodyStart(p, ws, lang));
  }

  /** Once the head of pattern 1 has read the path `p` and starts the body at `b`, a well-formed content there is captured up to its closing fence. */
  lemma BodyMatched(text: string, p: string, c: string, b: nat)
    requires HeadAt(text, 0) == Some((6 + |p|, b)) && text[6..6 + |p|] == p
    requires WellFormedContent(c) && BodyPiecesAt(text, b, c)
    ensures FileTagAt(text, 0) == Some(TagMatch(p, c, b + |c| + 3))
  {
    FenceOnlyAtEnd(text, b, c);
    TagAtOffsets(text, 6 + |p|, b, b + |c|, p, c, b + |c| + 3);
  }

  /** The text starts with the tag, blanks, fence, language word and newline of a tagged block, each at its place. */
  predicate HeadPiecesAt(text: string, p: string, ws: string, lang: string)
  {
    var k := 6 + |p|; var f := k + 1 + |ws|; var w := f + 3 + |lang|;
    && w < |text|
    && OccursAt(text, "<file:", 0) && text[6..k] == p && OccursAt(text, ">", k) && text[k + 1..f] == ws
    && OccursAt(text, "```", f) && text[f + 3..w] == lang && OccursAt(text, "\n", w)
  }

  /** The text holds the content `c` at `b`, followed by the closing fence. */
  predicate BodyPiecesAt(text: string, b: nat, c: string)
  {
    b + |c| <= |text| && text[b..b + |c|] == c && OccursAt(text, "```", b + |c|)
  }

  /** The head of pattern 1 over the head of a well-formed block ends the path before `>` and starts the body after the newline. */
  lemma HeadOfPieces(text: string, p: string, ws: string, lang: string)
    requires WellFormedHead(p, ws, lang) && HeadPiecesAt(text, p, ws, lang)
    ensures HeadAt(text, 0) == Some((6 + |p|, BodyStart(p, ws, lang)))
    ensures text[6..6 + |p|] == p
  {
    HeadRuns(text, p, ws, lang);
    HeadFound(text, 6 + |p|, 6 + |p| + 1 + |ws|, 6 + |p| + 1 + |ws| + 3 + |lang|);
  }

  /** Over the head of a well-formed block, the path, the blanks and the language word each run up to the piece after them. */
  lemma HeadRuns(text: string, p: string, ws: string, lang: string)
    requires WellFormedHead(p, ws, lang) && HeadPiecesAt(text, p, ws, lang)
    ensures var k := 6 + |p|; var f := k + 1 + |ws|; var w := f + 3 + |lang|;
      && SkipWhile(text, 6, NotCloseAngle) == k && SkipWhile(text, k + 1, IsSpace) == f
      && SkipWhile(text, f + 3, IsWordChar) == w && text[w] == '\n'
  {
    var k := 6 + |p|;
    var f := k + 1 + |ws|;
    var w := f + 3 + |lang|;
    CharsHold(text, 6, p, NotCloseAngle);
    CharsHold(text, k + 1, ws, IsSpace);
    CharsHold(text, f + 3, lang, IsWordChar);
    StopsAt(text, 6, k, ">", NotCloseAngle);
    StopsAt(text, k + 1, f, "```", IsSpace);
    StopsAt(text, f + 3, w, "\n", IsWordChar);
    OccursAtChar(text, "\n", w, 0);
  }

  /** Pattern 1 at index 0 once its head ends the path at `k` and starts the body at `b`, and the first fence from `b` is at `e`: it captures the `path` and `content` lying there and ends at `end`, just after that fence. */
  lemma TagAtOffsets(text: string, k: nat, b: nat, e: nat, path: string, content: string, end: nat)
    requires HeadAt(text, 0) == Some((k, b)) && Find(text, "```", b) == e && end == e + 3
    requires text[6..k] == path && text[b..e] == content
    ensures FileTagAt(text, 0) == Some(TagMatch(path, content, end))
  {
    assert FileTagAt(text, 0) == BodyAt(text, text[6..k], b);
  }

  /** The head of pattern 1 at index 0, given where its runs stop. */
  lemma HeadFound(text: string, k: nat, f: nat, w: nat)
    requires OccursAt(text, "<file:", 0) && 6 < k < f && f + 3 <= w < |text| && OccursAt(text, "```", f)
    requires SkipWhile(text, 6, NotCloseAngle) == k && SkipWhile(text, k + 1, IsSpace) == f
    requires SkipWhile(text, f + 3, IsWordChar) == w && text[w] == '\n'
    ensures HeadAt(text, 0) == Some((k, w + 1))
  {
  }

  /** A run of characters passing `p` from `j` ends at `k`, where a text `t` starts whose first character fails `p`. */
  lemma StopsAt(text: string, j: nat, k: nat, t: string, p: char -> bool)
    requires j <= k && OccursAt(text, t, k) && t != [] && !p(t[0])
    requires forall n | j <= n < k :: p(text[n])
    ensures k < |text| && SkipWhile(text, j, p) == k
  {
    OccursAtChar(text, t, k, 0);
    SkipWhileStops(text, j, k, p);
  }

  /** Where each piece of a tagged block lies in the block followed by any text. */
  lemma BlockPieces(p: string, ws: string, lang: string, c: string, rest: string)
    ensures HeadPiecesAt(TagBlock(p, ws, lang, c) + rest, p, ws, lang)
    ensures BodyPiecesAt(TagBlock(p, ws, lang, c) + rest, BodyStart(p, ws, lang), c)
  {
    var text := TagBlock(p, ws, lang, c) + rest;
    var t7 := "```" + rest;
    var t6 := c + t7;
    var t5 := "\n" + t6;
    var t4 := lang + t5;
    var t3 := "```" + t4;
    var t2 := ws + t3;
    var t1 := ">" + t2;
    var t0 := p + t1;
    assert text[0..] == "<file:" + t0;
    UngluedHead(text, p, ws, lang, t0, t1, t2, t3, t4, t5, t6);
    UngluedBody(text, BodyStart(p, ws, lang), c, rest);
  }

  /** The head pieces of a tagged block, read off a text built by gluing them one by one onto what follows. */
  lemma UngluedHead(text: string, p: string, ws: string, lang: string,
                    t0: string, t1: string, t2: string, t3: string, t4: string, t5: string, t6: string)
    requires text[0..] == "<file:" + t0 && t0 == p + t1 && t1 == ">" + t2 && t2 == ws + t3
    requires t3 == "```" + t4 && t4 == lang + t5 && t5 == "\n" + t6
    ensures HeadPiecesAt(text, p, ws, lang)
    ensures BodyStart(p, ws, lang) <= |text| && text[BodyStart(p, ws, lang)..] == t6
  {
    UngluedTag(text, p, t0, t1, t2);
    UngluedFence(text, 6 + |p| + 1, ws, lang, t2, t3, t4, t5, t6);
  }

  /** The tag of a tagged block, read off a text built by gluing its pieces onto what follows. */
  lemma UngluedTag(text: string, p: string, t0: string, t1: string, t2: string)
    requires text[0..] == "<file:" + t0 && t0 == p + t1 && t1 == ">" + t2
    ensures OccursAt(text, "<file:", 0) && text[6..6 + |p|] == p && OccursAt(text, ">", 6 + |p|)
    ensures 6 + |p| + 1 <= |text| && text[6 + |p| + 1..] == t2
  {
    Unglue(text, 0, 6, "<file:", t0);
    Unglue(text, 6, 6 + |p|, p, t1);
    Unglue(text, 6 + |p|, 6 + |p| + 1, ">", t2);
  }

  /** The blanks, fence, language word and newline of a tagged block, read off the text from `i`. */
  lemma UngluedFence(text: string, i: nat, ws: string, lang: string, t2: string, t3: string, t4: string, t5: string, t6: string)
    requires i <= |text| && text[i..] == t2
    requires t2 == ws + t3 && t3 == "```" + t4 && t4 == lang + t5 && t5 == "\n" + t6
    ensures var f := i + |ws|; var w := f + 3 + |lang|;
      && text[i..f] == ws && OccursAt(text, "```", f) && text[f + 3..w] == lang && OccursAt(text, "\n", w)
      && w + 1 <= |text| && text[w + 1..] == t6
  {
    var f := i + |ws|;
    var w := f + 3 + |lang|;
    Unglue(text, i, f, ws, t3);
    Unglue(text, f, f + 3, "```", t4);
    Unglue(text, f + 3, w, lang, t5);
    Unglue(text, w, w + 1, "\n", t6);
  }

  /** The content and closing fence of a tagged block, read off the text from where the content starts. */
  lemma UngluedBody(text: string, b: nat, c: string, rest: string)
    requires b <= |text| && text[b..] == c + ("```" + rest)
    ensures BodyPiecesAt(text, b, c)
  {
    Unglue(text, b, b + |c|, c, "```" + rest);
    Unglue(text, b + |c|, b + |c| + 3, "```", rest);
  }

  /** When the text from `i` on is `a + b`, the text holds `a` from `i` to `j` and `b` from `j` on. */
  lemma Unglue(text: string, i: nat, j: nat, a: string, b: string)
    requires i <= |text| && text[i..] == a + b && j == i + |a|
    ensures j <= |text| && text[i..j] == a && text[j..] == b
  {
    assert text[i..][..|a|] == a;
    assert text[i..][|a|..] == b;
  }

  /** Every character of `a` passes `test`, so every character of the text where `a` sits does too. */
  lemma CharsHold(text: string, i: nat, a: string, test: char -> bool)
    requires i + |a| <= |text| && text[i..i + |a|] == a
    requires forall n | 0 <= n < |a| :: test(a[n])
    ensures forall n | i <= n < i + |a| :: test(text[n])
  {
    forall n | i <= n < i + |a| ensures test(text[n]) {
      assert text[n] == text[i..i + |a|][n - i] == a[n - i];
    }
  }

  /** In `text`, with `c` at `b` followed by a fence, the first fence from `b` on is the one after `c`. */
  lemma FenceOnlyAtEnd(text: string, b: nat, c: string)
    requires BodyPiecesAt(text, b, c) && WellFormedContent(c)
    ensures Find(text, "```", b) == b + |c|
  {
    forall q | b <= q < b + |c| ensures !OccursAt(text, "```", q) {
      NoFenceAt(text, b, c, q);
    }
    FindFirst(text, "```", b, b + |c|);
  }

  /** No fence starts inside the copy of a well-formed content: one wholly inside would be a fence in the content, one running past it would need a trailing backquote. */
  lemma NoFenceAt(text: string, b: nat, c: string, q: nat)
    requires BodyPiecesAt(text, b, c) && WellFormedContent(c) && b <= q < b + |c|
    ensures !OccursAt(text, "```", q)
  {
    assert c[|c| - 1] == text[b..b + |c|][|c| - 1];
    if OccursAt(text, "```", q) {
      if q + 3 <= b + |c| {
        FenceInside(text, b, c, q);
        ContainsIff(c, "```");
      } else {
        OccursAtChar(text, "```", q, b + |c| - 1 - q);
      }
    }
  }

  /** A fence lying wholly inside the copy of `c` at `b` is a fence in `c`. */
  lemma FenceInside(text: string, b: nat, c: string, q: nat)
    requires b <= q && q + 3 <= b + |c| <= |text| && text[b..b + |c|] == c && OccursAt(text, "```", q)
    ensures OccursAt(c, "```", q - b)
  {
    var inC := c[q - b..q - b + 3];
    var inText := text[q..q + 3];
    forall n | 0 <= n < 3 ensures inC[n] == inText[n] {
      assert inC[n] == c[q - b + n] == text[b..b + |c|][q - b + n] == text[q + n];
    }
    assert inC == inText;
  }

  /** `re.findall` of pattern 1 on a lone well-formed block gives exactly its path and content. */
  lemma LoneBlockFound(p: string, ws: string, lang: string, c: string)
    requires WellFormedBlock(p, ws, lang, c)
    ensures FileTagMatches(TagBlock(p, ws, lang, c), 0) == [(p, c)]
  {
    var block := TagBlock(p, ws, lang, c);
    TagBlockMatched(p, ws, lang, c, []);
    assert block + [] == block;
  }

  /** Without a `<file:` marker at or after `i`, pattern 1 finds nothing. */
  lemma {:induction false} NoTagNoMatch(text: string, i: nat)
    requires i <= |text|
    requires forall j: nat :: i <= j ==> !OccursAt(text, "<file:", j)
    ensures FileTagMatches(text, i) == []
    decreases |text| - i
  {
    if i < |text| {
      NoTagNoMatch(text, i + 1);
    }
  }

  /** Each pair trimmed: `{"path": path.strip(), "content": content.strip()}`, in match order. */
  function Trimmed(ms: Matches): (files: seq<FileEntry>)
    ensures |files| == |ms|
    ensures forall n | 0 <= n < |ms| :: files[n] == FileEntry(Strip(ms[n].0), Strip(ms[n].1))
  {
    seq(|ms|, n requires 0 <= n < |ms| => FileEntry(Strip(ms[n].0), Strip(ms[n].1)))
  }

  /**
   * `parse_files_from_response`: the matches of pattern 1 if there are any,
   * else those of pattern 2 if there are any, else those of pattern 3.
   * The diagnostic scans run after a total miss do not affect the result.
   */
  function ParseFilesFromResponse(text: string, pattern2: Matcher, pattern3: Matcher): seq<FileEntry>
  {
    var m1 := FileTagMatches(text, 0);
    if m1 != [] then Trimmed(m1)
    else
      var m2 := pattern2(text);
      if m2 != [] then Trimmed(m2)
      else Trimmed(pattern3(text))
  }

  /** `[a-zA-Z0-9_\-./]`, the characters of the path group of patterns 2 and 3. */
  predicate IsPathChar(c: char)
  {
    IsWordChar(c) || c == '-' || c == '.' || c == '/'
  }

  predicate IsAlnum(c: char)
  {
    IsWordChar(c) && c != '_'
  }

  /**
   * What the path group `([a-zA-Z0-9_\-./]+\.[a-zA-Z0-9]+)` can capture: path
   * characters only, and a last dot that has at least one character before it
   * and only letters and digits, at least one, after it.
   */
  predicate IsPathToken(p: string)
  {
    var d := RFind(p, '.');
    && (forall n | 0 <= n < |p| :: IsPathChar(p[n]))
    && 1 <= d < |p| - 1
    && (forall n | d < n < |p| :: IsAlnum(p[n]))
  }

  /**
   * What patterns 2 and 3 guarantee of every match: the path group is a path
   * token, and the lazy body `(.*?)` before the closing fence holds no fence.
   */
  ghost predicate IsPathPattern(m: Matcher)
  {
    forall text, n | 0 <= n < |m(text)| :: IsPathToken(m(text)[n].0) && !Contains(m(text)[n].1, "```")
  }

  /** Whether the parser's result is empty. */
  lemma ParseEmptyIff(text: string, pattern2: Matcher, pattern3: Matcher)
    ensures ParseFilesFromResponse(text, pattern2, pattern3) == []
        <==> FileTagMatches(text, 0) == [] && pattern2(text) == [] && pattern3(text) == []
  {
  }

  /** A later pattern is consulted only when every earlier one matched nothing. */
  lemma LaterPatternsNotConsulted(text: string, p2: Matcher, p3: Matcher, q2: Matcher, q3: Matcher)
    ensures FileTagMatches(text, 0) != [] ==>
      ParseFilesFromResponse(text, p2, p3) == ParseFilesFromResponse(text, q2, q3) == Trimmed(FileTagMatches(text, 0))
    ensures FileTagMatches(text, 0) == [] && p2(text) != [] ==>
      ParseFilesFromResponse(text, p2, p3) == ParseFilesFromResponse(text, p2, q3) == Trimmed(p2(text))
    ensures FileTagMatches(text, 0) == [] && p2(text) == [] ==>
      ParseFilesFromResponse(text, p2, p3) == Trimmed(p3(text))
  {
  }

  /** A string without whitespace is its own `strip()`. */
  lemma StripNoSpace(s: string)
    requires forall n | 0 <= n < |s| :: !IsSpace(s[n])
    ensures Strip(s) == s
  {
    StripFacts(s);
  }

  /** A fence inside a stripped string is a fence inside the string. */
  lemma StripKeepsNoFence(s: string)
    requires !Contains(s, "```")
    ensures !Contains(Strip(s), "```")
  {
    var r := Strip(s);
    var a := SkipWhile(s, 0, IsSpace);
    StripFacts(s);
    ContainsIff(s, "```");
    NoOccurrenceInSlice(s, a, a + |r|, "```");
  }

  /** One trimmed pair keeps the shape its raw groups had. */
  lemma TrimmedPairShape(raw: (string, string))
    requires !Contains(raw.1, "```")
    ensures !Contains(Strip(raw.1), "```")
    ensures '>' !in raw.0 ==> '>' !in Strip(raw.0)
    ensures IsPathToken(raw.0) ==> Strip(raw.0) == raw.0
    ensures IsStripped(Strip(raw.0)) && IsStripped(Strip(raw.1))
  {
    StripFacts(raw.0);
    StripFacts(raw.1);
    StripKeepsNoFence(raw.1);
    if IsPathToken(raw.0) {
      PathTokenHasNoSpace(raw.0);
      StripNoSpace(raw.0);
    }
  }

  /** A path token is made of path characters, none of which is whitespace. */
  lemma PathTokenHasNoSpace(p: string)
    requires IsPathToken(p)
    ensures forall n | 0 <= n < |p| :: !IsSpace(p[n])
  {
    forall n | 0 <= n < |p| ensures !IsSpace(p[n]) {
      assert IsPathChar(p[n]);
    }
  }

  /**
   * Every parsed file: both fields stripped, the content free of fences;
   * from pattern 1 the path holds no `>`, from patterns 2 and 3 it is the
   * captured path token itself.
   */
  lemma ParsedFileShapes(text: string, pattern2: Matcher, pattern3: Matcher, n: nat)
    requires IsPathPattern(pattern2) && IsPathPattern(pattern3)
    requires n < |ParseFilesFromResponse(text, pattern2, pattern3)|
    ensures var f := ParseFilesFromResponse(text, pattern2, pattern3)[n];
      && IsStripped(f.path) && IsStripped(f.content) && !Contains(f.content, "```")
      && (FileTagMatches(text, 0) != [] ==> '>' !in f.path)
      && (FileTagMatches(text, 0) == [] ==> IsPathToken(f.path))
  {
    var m1 := FileTagMatches(text, 0);
    var ms := if m1 != [] then m1 else if pattern2(text) != [] then pattern2(text) else pattern3(text);
    assert ParseFilesFromResponse(text, pattern2, pattern3) == Trimmed(ms);
    if m1 == [] {
      assert IsPathToken(ms[n].0) && !Contains(ms[n].1, "```");
    }
    TrimmedPairShape(ms[n]);
  }
}
