// Model of src/utils/pdfGenerator.js: the filename sanitiser, the page
// placement loop of generatePDF and the filename flow of downloadResumeAsPDF.
// Millimetre arithmetic is exact (`real`); the PDF is abstracted as the
// sequence of image placements it receives, one per page.

module PdfGenerator {

  // ---------------------------------------------------------------------
  // Character classes
  // ---------------------------------------------------------------------

  /** JavaScript whitespace: what both `\s` and String.prototype.trim match
      (the WhiteSpace and LineTerminator productions of ECMAScript). */
  predicate IsWhitespace(c: char) {
    ('\t' <= c <= '\r') || c == ' ' || c == '\U{A0}' || c == '\U{1680}'
    || ('\U{2000}' <= c <= '\U{200A}') || ('\U{2028}' <= c <= '\U{2029}')
    || c == '\U{202F}' || c == '\U{205F}' || c == '\U{3000}' || c == '\U{FEFF}'
  }

  predicate IsAsciiUpper(c: char) { 'A' <= c <= 'Z' }

  predicate IsAsciiLower(c: char) { 'a' <= c <= 'z' }

  predicate IsAsciiDigit(c: char) { '0' <= c <= '9' }

  /** Non-whitespace characters of the class [a-z0-9-_\s] under the `i` flag. */
  predicate IsWordChar(c: char) {
    IsAsciiUpper(c) || IsAsciiLower(c) || IsAsciiDigit(c) || c == '-' || c == '_'
  }

  /** Characters that survive `.replace(/[^a-z0-9-_\s]/gi, "")`. */
  predicate IsKept(c: char) { IsWordChar(c) || IsWhitespace(c) }

  /** The alphabet of every sanitized filename. */
  predicate IsSafe(c: char) { IsAsciiLower(c) || IsAsciiDigit(c) || c == '-' || c == '_' }

  ghost predicate AllKept(s: string) { forall i :: 0 <= i < |s| ==> IsKept(s[i]) }

  ghost predicate AllSafe(s: string) { forall i :: 0 <= i < |s| ==> IsSafe(s[i]) }

  ghost predicate NoWhitespace(s: string) { forall i :: 0 <= i < |s| ==> !IsWhitespace(s[i]) }

  ghost predicate AllWhitespace(s: string) { forall i :: 0 <= i < |s| ==> IsWhitespace(s[i]) }

  // ---------------------------------------------------------------------
  // The four steps of sanitizeFilename
  // ---------------------------------------------------------------------

  /** What the first replace leaves of one character. */
  function KeptPart(c: char): (r: string)
    ensures |r| <= 1 && (r != [] ==> r[0] == c && IsKept(c))
  {
    if IsKept(c) then [c] else []
  }

  /** `.replace(/[^a-z0-9-_\s]/gi, "")`: drop every character outside the class. */
  function StripDisallowed(s: string): (r: string)
    ensures |r| <= |s|
    ensures AllKept(r)
  {
    if s == [] then []
    else KeptPart(s[0]) + StripDisallowed(s[1..])
  }

  /** Length of the leading whitespace run of s. */
  function LeadingWhitespace(s: string): (k: nat)
    ensures k <= |s|
    ensures forall i :: 0 <= i < k ==> IsWhitespace(s[i])
    ensures k < |s| ==> !IsWhitespace(s[k])
  {
    if s != [] && IsWhitespace(s[0]) then 1 + LeadingWhitespace(s[1..]) else 0
  }

  /** Length of the trailing whitespace run of s. */
  function TrailingWhitespace(s: string): (k: nat)
    ensures k <= |s|
    ensures forall i :: |s| - k <= i < |s| ==> IsWhitespace(s[i])
    ensures k < |s| ==> !IsWhitespace(s[|s| - k - 1])
  {
    if s != [] && IsWhitespace(s[|s| - 1]) then 1 + TrailingWhitespace(s[..|s| - 1]) else 0
  }

  function TrimStart(s: string): string {
    s[LeadingWhitespace(s)..]
  }

  function TrimEnd(s: string): string {
    s[..|s| - TrailingWhitespace(s)]
  }

  /** `.trim()`: strips the leading and the trailing whitespace run. */
  function Trim(s: string): (r: string)
    ensures |r| <= |s|
    ensures r == [] || (!IsWhitespace(r[0]) && !IsWhitespace(r[|r| - 1]))
  {
    TrimEnd(TrimStart(s))
  }

  /** `.replace(/\s+/g, "-")`: every maximal whitespace run becomes one hyphen. */
  function CollapseWhitespace(s: string): (r: string)
    ensures NoWhitespace(r)
    ensures AllKept(s) ==> forall i :: 0 <= i < |r| ==> IsWordChar(r[i])
    decreases |s|
  {
    if s == [] then []
    else if IsWhitespace(s[0]) then
      var rest := s[LeadingWhitespace(s)..];
      assert AllKept(s) ==> AllKept(rest) by {
        if AllKept(s) {
          forall i | 0 <= i < |rest| ensures IsKept(rest[i]) {
            assert rest[i] == s[LeadingWhitespace(s) + i];
          }
        }
      }
      "-" + CollapseWhitespace(rest)
    else
      [s[0]] + CollapseWhitespace(s[1..])
  }

  function LowerChar(c: char): (d: char)
    ensures IsAsciiUpper(c) ==> IsAsciiLower(d) && d as int - c as int == 'a' as int - 'A' as int
    ensures !IsAsciiUpper(c) ==> d == c
  {
    if IsAsciiUpper(c) then (c as int - 'A' as int + 'a' as int) as char else c
  }

  /** `.toLowerCase()`, on the ASCII-only strings it is applied to here. */
  function ToLower(s: string): (r: string)
    ensures |r| == |s|
    ensures forall i :: 0 <= i < |r| ==> !IsAsciiUpper(r[i])
    ensures forall i :: 0 <= i < |s| && !IsAsciiUpper(s[i]) ==> r[i] == s[i]
    ensures forall i :: 0 <= i < |s| && IsAsciiUpper(s[i]) ==>
              IsAsciiLower(r[i]) && r[i] as int - s[i] as int == 'a' as int - 'A' as int
  {
    seq(|s|, i requires 0 <= i < |s| => LowerChar(s[i]))
  }

  const DefaultFilename: string := "resume"

  /** A string of allowed characters passes the first replace unchanged. */
  lemma {:induction false} StripDisallowedKeepsAllowed(s: string)
    requires AllKept(s)
    ensures StripDisallowed(s) == s
    decreases |s|
  {
    if s != [] {
      StripDisallowedKeepsAllowed(s[1..]);
      assert [s[0]] + s[1..] == s;
    }
  }

  /** The first replace works character by character. */
  lemma {:induction false} StripDisallowedAppend(a: string, b: string)
    ensures StripDisallowed(a + b) == StripDisallowed(a) + StripDisallowed(b)
    decreases |a|
  {
    if a == [] {
      assert a + b == b;
    } else {
      calc {
        StripDisallowed(a + b);
        { assert (a + b)[0] == a[0] && (a + b)[1..] == a[1..] + b; }
        KeptPart(a[0]) + StripDisallowed(a[1..] + b);
        { StripDisallowedAppend(a[1..], b); }
        KeptPart(a[0]) + (StripDisallowed(a[1..]) + StripDisallowed(b));
        StripDisallowed(a) + StripDisallowed(b);
      }
    }
  }

  /** Trimming keeps only characters of its input. */
  lemma TrimKeepsKept(s: string)
    requires AllKept(s)
    ensures AllKept(Trim(s))
  {
    var lo := LeadingWhitespace(s);
    var t := s[lo..];
    var r := TrimEnd(t);
    forall i | 0 <= i < |r| ensures IsKept(r[i]) {
      assert r[i] == t[i] == s[lo + i];
    }
  }

  /** sanitizeFilename: never empty, and only lower-case letters, digits,
      hyphens and underscores. */
  function SanitizeFilename(filename: string): (r: string)
    ensures r != []
    ensures AllSafe(r)
  {
    var kept := StripDisallowed(filename);
    var collapsed := CollapseWhitespace(Trim(kept));
    var sanitized := ToLower(collapsed);
    if sanitized == [] then DefaultFilename
    else
      TrimKeepsKept(kept);
      assert forall i :: 0 <= i < |sanitized| ==> IsWordChar(collapsed[i]);
      sanitized
  }

  // ---------------------------------------------------------------------
  // A reference definition: split into words, join with hyphens
  // ---------------------------------------------------------------------

  /** Length of the leading whitespace-free run of s. */
  function WordLength(s: string): (n: nat)
    ensures n <= |s|
    ensures forall i :: 0 <= i < n ==> !IsWhitespace(s[i])
    ensures n == |s| || IsWhitespace(s[n])
  {
    if s == [] || IsWhitespace(s[0]) then 0 else 1 + WordLength(s[1..])
  }

  /** The maximal whitespace-free runs of s, left to right. */
  function Words(s: string): (ws: seq<string>)
    ensures forall k :: 0 <= k < |ws| ==> ws[k] != [] && NoWhitespace(ws[k])
    decreases |s|
  {
    var t := TrimStart(s);
    if t == [] then []
    else
      var n := WordLength(t);
      var w := t[..n];
      assert w != [] && NoWhitespace(w) by {
        assert !IsWhitespace(t[0]);
        forall i | 0 <= i < |w| ensures !IsWhitespace(w[i]) { assert w[i] == t[i]; }
      }
      var rest := Words(t[n..]);
      [w] + rest
  }

  function JoinWithHyphens(ws: seq<string>): string {
    if ws == [] then []
    else if |ws| == 1 then ws[0]
    else ws[0] + "-" + JoinWithHyphens(ws[1..])
  }

  function Concat(ws: seq<string>): string {
    if ws == [] then [] else ws[0] + Concat(ws[1..])
  }

  function WordPart(c: char): string {
    if IsWordChar(c) then [c] else []
  }

  /** The non-whitespace characters that the first replace keeps, in order. */
  function WordChars(s: string): string {
    if s == [] then []
    else WordPart(s[0]) + WordChars(s[1..])
  }

  // Helper facts about the steps.

  /** The three ensures of LeadingWhitespace determine it. */
  lemma LeadingWhitespaceUnique(s: string, k: nat)
    requires k <= |s|
    requires forall i :: 0 <= i < k ==> IsWhitespace(s[i])
    requires k < |s| ==> !IsWhitespace(s[k])
    ensures LeadingWhitespace(s) == k
  {
  }

  /** The three ensures of TrailingWhitespace determine it. */
  lemma TrailingWhitespaceUnique(s: string, k: nat)
    requires k <= |s|
    requires forall i :: |s| - k <= i < |s| ==> IsWhitespace(s[i])
    requires k < |s| ==> !IsWhitespace(s[|s| - k - 1])
    ensures TrailingWhitespace(s) == k
  {
  }

  lemma {:induction false} CollapseKeepsWordPrefix(w: string, rest: string)
    requires NoWhitespace(w)
    ensures CollapseWhitespace(w + rest) == w + CollapseWhitespace(rest)
    decreases |w|
  {
    if w != [] {
      var s := w + rest;
      assert s[0] == w[0] && !IsWhitespace(s[0]);
      assert s[1..] == w[1..] + rest;
      CollapseKeepsWordPrefix(w[1..], rest);
      assert CollapseWhitespace(s) == [w[0]] + CollapseWhitespace(s[1..]);
      assert [w[0]] + w[1..] == w;
    } else {
      assert w + rest == rest;
    }
  }

  /** A whitespace run followed by a word becomes a single hyphen. */
  lemma CollapseGap(gap: string, t: string)
    requires gap != [] && AllWhitespace(gap)
    requires t == [] || !IsWhitespace(t[0])
    ensures CollapseWhitespace(gap + t) == "-" + CollapseWhitespace(t)
  {
    var s := gap + t;
    LeadingWhitespaceUnique(s, |gap|);
    assert s[|gap|..] == t;
    assert s[0] == gap[0];
  }

  /** Trailing whitespace after a word is trimmed away. */
  lemma TrimEndDropsGap(w: string, gap: string)
    requires w == [] || !IsWhitespace(w[|w| - 1])
    requires AllWhitespace(gap)
    ensures TrimEnd(w + gap) == w
  {
    var s := w + gap;
    TrailingWhitespaceUnique(s, |gap|);
    assert s[..|w|] == w;
  }

  /** Right-trimming only looks at the last word and what follows it. */
  lemma TrimEndKeepsPrefix(a: string, b: string)
    requires b != [] && !IsWhitespace(b[0])
    ensures TrimEnd(a + b) == a + TrimEnd(b)
  {
    var s := a + b;
    var k := TrailingWhitespace(b);
    TrailingWhitespaceUnique(s, k);
    assert s[..|s| - k] == a + b[..|b| - k];
  }

  /** The last word: trailing whitespace disappears, nothing is collapsed. */
  lemma CollapseLastWord(w: string, gap: string)
    requires NoWhitespace(w) && AllWhitespace(gap)
    ensures CollapseWhitespace(TrimEnd(w + gap)) == w
  {
    TrimEndDropsGap(w, gap);
    CollapseKeepsWordPrefix(w, []);
    assert w + [] == w;
  }

  /** An inner gap between a word and the rest becomes one hyphen. */
  lemma CollapseInnerGap(w: string, gap: string, t: string)
    requires NoWhitespace(w)
    requires gap != [] && AllWhitespace(gap)
    requires t != [] && !IsWhitespace(t[0])
    ensures CollapseWhitespace(TrimEnd(w + gap + t)) == w + "-" + CollapseWhitespace(TrimEnd(t))
  {
    var te := TrimEnd(t);
    assert te == [] || !IsWhitespace(te[0]) by {
      if te != [] { assert te[0] == t[0]; }
    }
    calc {
      CollapseWhitespace(TrimEnd(w + gap + t));
      { TrimEndKeepsPrefix(w + gap, t); }
      CollapseWhitespace((w + gap) + te);
      { assert (w + gap) + te == w + (gap + te); }
      CollapseWhitespace(w + (gap + te));
      { CollapseKeepsWordPrefix(w, gap + te); }
      w + CollapseWhitespace(gap + te);
      { CollapseGap(gap, te); }
      w + ("-" + CollapseWhitespace(te));
      w + "-" + CollapseWhitespace(te);
    }
  }

  /** Splitting ignores leading whitespace. */
  lemma WordsSkipLeadingWhitespace(s: string)
    ensures Words(s) == Words(TrimStart(s))
  {
    var t := TrimStart(s);
    LeadingWhitespaceUnique(t, 0);
    assert t[0..] == t;
  }

  /** Where the whitespace run after the first word of s ends. */
  function GapEnd(s: string): (m: nat)
    ensures WordLength(s) <= m <= |s|
  {
    WordLength(s) + LeadingWhitespace(s[WordLength(s)..])
  }

  /** A string that starts with a word: that word, then the words after the gap. */
  lemma WordsOfWordFirst(s: string)
    requires s != [] && !IsWhitespace(s[0])
    ensures Words(s) == [s[..WordLength(s)]] + Words(s[GapEnd(s)..])
  {
    var n := WordLength(s);
    var g := LeadingWhitespace(s[n..]);
    assert TrimStart(s) == s by {
      LeadingWhitespaceUnique(s, 0);
      assert s[0..] == s;
    }
    assert TrimStart(s[n..]) == s[GapEnd(s)..] by {
      assert s[n..][g..] == s[n + g..];
    }
    calc {
      Words(s);
      [s[..n]] + Words(s[n..]);
      { WordsSkipLeadingWhitespace(s[n..]); }
      [s[..n]] + Words(s[GapEnd(s)..]);
    }
  }

  lemma JoinOfTwoOrMore(w: string, ws: seq<string>)
    requires ws != []
    ensures JoinWithHyphens([w] + ws) == w + "-" + JoinWithHyphens(ws)
  {
    assert ([w] + ws)[1..] == ws;
  }

  lemma FirstWordHasNoWhitespace(s: string)
    ensures NoWhitespace(s[..WordLength(s)])
  {
    var n := WordLength(s);
    forall i | 0 <= i < n ensures !IsWhitespace(s[..n][i]) {
      assert s[..n][i] == s[i];
    }
  }

  lemma GapIsWhitespace(s: string)
    ensures AllWhitespace(s[WordLength(s)..GapEnd(s)])
  {
    var n, m := WordLength(s), GapEnd(s);
    var rest := s[n..];
    forall i | 0 <= i < m - n ensures IsWhitespace(s[n..m][i]) {
      assert s[n..m][i] == rest[i];
    }
  }

  /** After the gap comes nothing or the next word. */
  lemma AfterGapIsWord(s: string)
    ensures GapEnd(s) < |s| ==> !IsWhitespace(s[GapEnd(s)])
  {
    var n := WordLength(s);
    if GapEnd(s) < |s| {
      assert s[GapEnd(s)] == s[n..][LeadingWhitespace(s[n..])];
    }
  }

  /** Between two words there is at least one whitespace character. */
  lemma GapBeforeNextWord(s: string)
    requires GapEnd(s) < |s|
    ensures WordLength(s) < GapEnd(s)
  {
    var n := WordLength(s);
    assert s[n..][0] == s[n];
  }

  lemma SplitInThree(s: string, n: nat, m: nat)
    requires n <= m <= |s|
    ensures s == s[..n] + s[n..m] + s[m..]
  {
    assert s[..n] + s[n..m] == s[..m];
  }

  /** The step of the induction below, stated over the pieces only. */
  lemma CollapseJoinStep(w: string, gap: string, t: string)
    requires w != [] && NoWhitespace(w) && AllWhitespace(gap)
    requires t == [] || (gap != [] && !IsWhitespace(t[0]))
    requires t != [] ==> Words(t) != []
    requires CollapseWhitespace(TrimEnd(t)) == JoinWithHyphens(Words(t))
    ensures CollapseWhitespace(TrimEnd(w + gap + t)) == JoinWithHyphens([w] + Words(t))
  {
    if t == [] {
      calc {
        CollapseWhitespace(TrimEnd(w + gap + t));
        { assert w + gap + t == w + gap; CollapseLastWord(w, gap); }
        w;
        JoinWithHyphens([w]);
        { assert [w] + Words(t) == [w]; }
        JoinWithHyphens([w] + Words(t));
      }
    } else {
      calc {
        CollapseWhitespace(TrimEnd(w + gap + t));
        { CollapseInnerGap(w, gap, t); }
        w + "-" + CollapseWhitespace(TrimEnd(t));
        w + "-" + JoinWithHyphens(Words(t));
        { JoinOfTwoOrMore(w, Words(t)); }
        JoinWithHyphens([w] + Words(t));
      }
    }
  }

  /** On a string that starts with a word, collapsing the right-trimmed string
      is joining its words with hyphens. */
  lemma {:induction false} CollapseTrimEndIsJoin(s: string)
    requires s == [] || !IsWhitespace(s[0])
    ensures CollapseWhitespace(TrimEnd(s)) == JoinWithHyphens(Words(s))
    decreases |s|
  {
    if s != [] {
      var n, m := WordLength(s), GapEnd(s);
      var w, gap, t := s[..n], s[n..m], s[m..];
      assert NoWhitespace(w) && AllWhitespace(gap) by {
        FirstWordHasNoWhitespace(s);
        GapIsWhitespace(s);
      }
      assert t == [] || (gap != [] && !IsWhitespace(t[0])) by {
        AfterGapIsWord(s);
        if t != [] { GapBeforeNextWord(s); }
      }
      assert t != [] ==> Words(t) != [] by {
        if t != [] { LeadingWhitespaceUnique(t, 0); }
      }
      CollapseTrimEndIsJoin(t);
      CollapseJoinStep(w, gap, t);
      assert s == w + gap + t by { SplitInThree(s, n, m); }
      assert Words(s) == [w] + Words(t) by { WordsOfWordFirst(s); }
    }
  }

  /** `.trim().replace(/\s+/g, "-")` is the words of the string joined by single
      hyphens: leading and trailing whitespace vanishes, each inner run becomes
      exactly one hyphen. */
  lemma CollapseTrimIsJoin(u: string)
    ensures CollapseWhitespace(Trim(u)) == JoinWithHyphens(Words(u))
  {
    var t := TrimStart(u);
    CollapseTrimEndIsJoin(t);
    WordsSkipLeadingWhitespace(u);
  }

  /** The words, read one after the other, are the word characters of s in order. */
  lemma {:induction false} WordsSpellWordChars(s: string)
    requires AllKept(s)
    ensures Concat(Words(s)) == WordChars(s)
    decreases |s|
  {
    var k := LeadingWhitespace(s);
    var t := s[k..];
    assert WordChars(s) == WordChars(t) by {
      var gap := s[..k];
      assert AllWhitespace(gap);
      assert s == gap + t;
      WordCharsOfWhitespace(gap, t);
    }
    assert AllKept(t) by {
      forall i | 0 <= i < |t| ensures IsKept(t[i]) { assert t[i] == s[k + i]; }
    }
    if t != [] {
      var n := WordLength(t);
      var w, rest := t[..n], t[n..];
      assert WordChars(t) == w + WordChars(rest) by {
        assert t == w + rest;
        WordCharsAppend(w, rest);
        assert AllKept(w) && NoWhitespace(w) by {
          forall i | 0 <= i < |w| ensures IsKept(w[i]) && !IsWhitespace(w[i]) { assert w[i] == t[i]; }
        }
        WordCharsOfWord(w);
      }
      assert AllKept(rest) by {
        forall i | 0 <= i < |rest| ensures IsKept(rest[i]) { assert rest[i] == t[n + i]; }
      }
      WordsSpellWordChars(rest);
      assert Concat(Words(s)) == w + Concat(Words(rest)) by {
        var ws := Words(s);
        assert ws == [w] + Words(rest);
        assert ws[0] == w && ws[1..] == Words(rest);
      }
    }
  }

  lemma {:induction false} WordCharsAppend(a: string, b: string)
    ensures WordChars(a + b) == WordChars(a) + WordChars(b)
    decreases |a|
  {
    if a == [] {
      assert a + b == b;
    } else {
      calc {
        WordChars(a + b);
        { assert (a + b)[0] == a[0] && (a + b)[1..] == a[1..] + b; }
        WordPart(a[0]) + WordChars(a[1..] + b);
        { WordCharsAppend(a[1..], b); }
        WordPart(a[0]) + (WordChars(a[1..]) + WordChars(b));
        WordChars(a) + WordChars(b);
      }
    }
  }

  lemma {:induction false} WordCharsOfWhitespace(a: string, b: string)
    requires AllWhitespace(a)
    ensures WordChars(a + b) == WordChars(b)
    decreases |a|
  {
    if a == [] {
      assert a + b == b;
    } else {
      assert (a + b)[1..] == a[1..] + b;
      WordCharsOfWhitespace(a[1..], b);
    }
  }

  lemma {:induction false} WordCharsOfWord(w: string)
    requires AllKept(w) && NoWhitespace(w)
    ensures WordChars(w) == w
    decreases |w|
  {
    if w != [] {
      WordCharsOfWord(w[1..]);
    }
  }

  lemma {:induction false} JoinEmptyIffNoWords(ws: seq<string>)
    requires forall k :: 0 <= k < |ws| ==> ws[k] != []
    ensures JoinWithHyphens(ws) == [] <==> ws == []
  {
  }

  lemma {:induction false} WordCharsOfStripped(s: string)
    ensures WordChars(StripDisallowed(s)) == WordChars(s)
    decreases |s|
  {
    if s != [] {
      var head := KeptPart(s[0]);
      WordCharsAppend(head, StripDisallowed(s[1..]));
      WordCharsOfStripped(s[1..]);
    }
  }

  /** sanitizeFilename against the reference definition: the kept characters
      are split into whitespace-free words, which read in order spell exactly
      the input's letters, digits, hyphens and underscores; the result is
      those words joined by single hyphens and lower-cased, or "resume" when
      there are none. */
  lemma SanitizeFilenameIsJoinedWords(filename: string)
    ensures var ws := Words(StripDisallowed(filename));
            Concat(ws) == WordChars(filename)
            && SanitizeFilename(filename)
               == if ws == [] then DefaultFilename else ToLower(JoinWithHyphens(ws))
  {
    var kept := StripDisallowed(filename);
    CollapseTrimIsJoin(kept);
    JoinEmptyIffNoWords(Words(kept));
    WordsSpellWordChars(kept);
    WordCharsOfStripped(filename);
  }

  /** Each step leaves a name in the safe alphabet as it is. */
  lemma SafeNameSteps(t: string)
    requires AllSafe(t)
    ensures AllKept(t) && NoWhitespace(t)
    ensures ToLower(t) == t
  {
    forall i | 0 <= i < |t| ensures IsKept(t[i]) && !IsWhitespace(t[i]) { assert IsSafe(t[i]); }
    forall i | 0 <= i < |t| ensures ToLower(t)[i] == t[i] { assert IsSafe(t[i]); }
  }

  lemma TrimOfWord(t: string)
    requires NoWhitespace(t)
    ensures Trim(t) == t
  {
    LeadingWhitespaceUnique(t, 0);
    TrailingWhitespaceUnique(t, 0);
    assert t[0..] == t && t[..|t|] == t;
  }

  lemma CollapseOfWord(t: string)
    requires NoWhitespace(t)
    ensures CollapseWhitespace(t) == t
  {
    CollapseKeepsWordPrefix(t, []);
    assert t + [] == t;
  }

  /** A name already in the safe alphabet is left unchanged. */
  lemma SafeNameIsFixed(t: string)
    requires t != [] && AllSafe(t)
    ensures SanitizeFilename(t) == t
  {
    SafeNameSteps(t);
    StripDisallowedKeepsAllowed(t);
    TrimOfWord(t);
    CollapseOfWord(t);
  }

  /** sanitizeFilename is idempotent. */
  lemma SanitizeFilenameIdempotent(filename: string)
    ensures SanitizeFilename(SanitizeFilename(filename)) == SanitizeFilename(filename)
  {
    SafeNameIsFixed(SanitizeFilename(filename));
  }

  // The worked example, one step of the chain at a time.

  lemma ExampleKeptPiece(s: string)
    requires s == "  My Resume" || s == " 2024  "
    ensures StripDisallowed(s) == s
  {
    assert AllKept(s);
    StripDisallowedKeepsAllowed(s);
  }

  lemma ExampleDroppedPiece(s: string)
    requires s == "!!"
    ensures StripDisallowed(s) == []
  {
    assert StripDisallowed(s[1..]) == [];
  }

  lemma ExampleStripPieces()
    ensures "  My Resume!! 2024  " == "  My Resume" + "!!" + " 2024  "
    ensures "  My Resume" + " 2024  " == "  My Resume 2024  "
  {
  }

  lemma StripDropsMiddle(a: string, b: string, c: string)
    requires StripDisallowed(a) == a && StripDisallowed(b) == [] && StripDisallowed(c) == c
    ensures StripDisallowed(a + b + c) == a + c
  {
    StripDisallowedAppend(a + b, c);
    StripDisallowedAppend(a, b);
    assert a + [] == a;
  }

  lemma ExampleStrip(s: string)
    requires s == "  My Resume!! 2024  "
    ensures StripDisallowed(s) == "  My Resume 2024  "
  {
    var a, b, c := "  My Resume", "!!", " 2024  ";
    ExampleStripPieces();
    ExampleKeptPiece(a);
    ExampleKeptPiece(c);
    ExampleDroppedPiece(b);
    StripDropsMiddle(a, b, c);
  }

  lemma ExampleTrim(kept: string)
    requires kept == "  My Resume 2024  "
    ensures Trim(kept) == "My Resume 2024"
  {
    var inner := "My Resume 2024";
    LeadingWhitespaceUnique(kept, 2);
    assert kept[2..] == inner + "  ";
    TrimEndDropsGap(inner, "  ");
  }

  lemma CollapseThreeWords(w1: string, w2: string, w3: string)
    requires NoWhitespace(w1) && NoWhitespace(w2) && NoWhitespace(w3)
    requires w2 != [] && w3 != []
    ensures CollapseWhitespace(w1 + (" " + (w2 + (" " + w3)))) == w1 + ("-" + (w2 + ("-" + w3)))
  {
    var sp := " ";
    CollapseKeepsWordPrefix(w1, sp + (w2 + (sp + w3)));
    CollapseGap(sp, w2 + (sp + w3));
    CollapseKeepsWordPrefix(w2, sp + w3);
    CollapseGap(sp, w3);
    CollapseKeepsWordPrefix(w3, []);
    assert w3 + [] == w3;
  }

  lemma ExampleCollapsePieces()
    ensures "My Resume 2024" == "My" + (" " + ("Resume" + (" " + "2024")))
    ensures "My" + ("-" + ("Resume" + ("-" + "2024"))) == "My-Resume-2024"
  {
  }

  lemma ExampleCollapse(s: string)
    requires s == "My Resume 2024"
    ensures CollapseWhitespace(s) == "My-Resume-2024"
  {
    var my, re, yr := "My", "Resume", "2024";
    ExampleCollapsePieces();
    assert NoWhitespace(my) && NoWhitespace(re) && NoWhitespace(yr);
    CollapseThreeWords(my, re, yr);
  }

  lemma ExampleLower(s: string)
    requires s == "My-Resume-2024"
    ensures ToLower(s) == "my-resume-2024"
  {
    var y := "my-resume-2024";
    forall i | 0 <= i < |s| ensures ToLower(s)[i] == y[i] { }
  }

  /** The worked example: punctuation goes, outer blanks go, inner blanks become
      one hyphen, letters are lower-cased. */
  lemma SanitizeFilenameExample(s: string)
    requires s == "  My Resume!! 2024  "
    ensures SanitizeFilename(s) == "my-resume-2024"
  {
    ExampleStrip(s);
    ExampleTrim("  My Resume 2024  ");
    ExampleCollapse("My Resume 2024");
    ExampleLower("My-Resume-2024");
  }

  // ---------------------------------------------------------------------
  // Page placement (generatePDF)
  // ---------------------------------------------------------------------

  /** A4 in millimetres and the configured margins. */
  const PageWidth: real := 210.0
  const PageHeight: real := 297.0
  const MarginLeft: real := 10.0
  const MarginRight: real := 10.0
  const MarginTop: real := 10.0

  /** One addImage call: where the captured image is drawn on a page. */
  datatype Placement = Placement(x: real, y: real, width: real, height: real)

  /** The image height in millimetres once the capture is scaled to the page
      width; it keeps the capture's aspect ratio at width 210. */
  function ScaledHeight(canvasWidth: nat, canvasHeight: nat): (h: real)
    requires canvasWidth > 0
    ensures h >= 0.0
    ensures h * canvasWidth as real == canvasHeight as real * PageWidth
  {
    canvasHeight as real * PageWidth / canvasWidth as real
  }

  /** The placement on the page with 0-based index `k`: the image is shifted
      up by one page height per page, so page k shows the slice that starts
      297·k millimetres down the image. */
  function PagePlacement(imgHeight: real, k: nat): (p: Placement)
    ensures p.x == MarginLeft && p.width == PageWidth - (MarginLeft + MarginRight)
    ensures p.height == imgHeight
    ensures p.y == MarginTop - PageHeight * k as real
  {
    Placement(MarginLeft, MarginTop - PageHeight * k as real,
              PageWidth - (MarginLeft + MarginRight), imgHeight)
  }

  /** The first `n` pages' placements. */
  function Placements(imgHeight: real, n: nat): (ps: seq<Placement>)
    ensures |ps| == n
  {
    seq(n, k requires 0 <= k < n => PagePlacement(imgHeight, k))
  }

  /** The number of pages the loop emits: one, plus one for every further
      full page height that the remaining height is still at least 0 after. */
  function PageCount(imgHeight: real): (n: nat)
    requires imgHeight >= 0.0
    ensures n >= 1
    ensures PageHeight * (n - 1) as real <= imgHeight < PageHeight * n as real
  {
    1 + (imgHeight / PageHeight).Floor
  }

  /** The document the loop of generatePDF builds, page by page. */
  function Layout(imgHeight: real): (ps: seq<Placement>)
    requires imgHeight >= 0.0
    ensures |ps| == PageCount(imgHeight)
  {
    Placements(imgHeight, PageCount(imgHeight))
  }

  /** The first page and the while loop of generatePDF, as written: after
      each page the remaining height drops by a page height, and another
      page follows while it is still at least 0. */
  method PaginateImage(imgHeight: real) returns (pages: seq<Placement>)
    requires imgHeight >= 0.0
    ensures pages == Layout(imgHeight)
  {
    var heightLeft := imgHeight;
    var position := 0.0;
    var page := 1;
    pages := [Placement(MarginLeft, MarginTop, PageWidth - (MarginLeft + MarginRight), imgHeight)];
    heightLeft := heightLeft - PageHeight;
    while heightLeft >= 0.0
      invariant page == |pages| && 1 <= page <= PageCount(imgHeight)
      invariant heightLeft == imgHeight - PageHeight * page as real
      invariant pages == Placements(imgHeight, page)
      decreases PageCount(imgHeight) - page
    {
      position := heightLeft - imgHeight;
      pages := pages + [Placement(MarginLeft, position + MarginTop,
                                  PageWidth - (MarginLeft + MarginRight), imgHeight)];
      heightLeft := heightLeft - PageHeight;
      page := page + 1;
    }
  }

  /** PageCount is determined by its bracket: exactly one n satisfies it. */
  lemma PageCountIsBracket(imgHeight: real, n: nat)
    requires imgHeight >= 0.0
    ensures n == PageCount(imgHeight)
        <==> n >= 1 && PageHeight * (n - 1) as real <= imgHeight < PageHeight * n as real
  {
    var m := PageCount(imgHeight);
    if n >= 1 && PageHeight * (n - 1) as real <= imgHeight < PageHeight * n as real {
      assert PageHeight * (n - 1) as real < PageHeight * m as real;
      assert PageHeight * (m - 1) as real < PageHeight * n as real;
    }
  }

  /** A taller image never gets fewer pages. */
  lemma PageCountMonotone(h1: real, h2: real)
    requires 0.0 <= h1 <= h2
    ensures PageCount(h1) <= PageCount(h2)
  {
    var n1, n2 := PageCount(h1), PageCount(h2);
    assert PageHeight * (n1 - 1) as real < PageHeight * n2 as real;
  }

  /** A page-height image gets a second page; anything shorter gets one. */
  lemma PageCountBoundaries()
    ensures PageCount(0.0) == 1
    ensures PageCount(296.5) == 1
    ensures PageCount(297.0) == 2
    ensures PageCount(3.5 * 297.0) == 4
  {
    PageCountIsBracket(0.0, 1);
    PageCountIsBracket(296.5, 1);
    PageCountIsBracket(297.0, 2);
    PageCountIsBracket(3.5 * 297.0, 4);
  }

  /** The image row at `row` millimetres from its top lands on page `k` inside
      the sheet. */
  predicate ShowsRow(p: Placement, row: real) {
    0.0 <= p.y + row < PageHeight
  }

  /** Some page of `pages` shows the row. */
  predicate RowPrinted(pages: seq<Placement>, row: real) {
    exists k :: 0 <= k < |pages| && ShowsRow(pages[k], row)
  }

  /** Page k shows exactly the rows from 297·k − 10 up to 297·(k+1) − 10: the
      pages tile the image with no gap and no overlap. */
  lemma PageShowsSlice(imgHeight: real, k: nat, row: real)
    ensures ShowsRow(PagePlacement(imgHeight, k), row)
        <==> PageHeight * k as real - MarginTop <= row < PageHeight * (k + 1) as real - MarginTop
  {
  }

  /** As written, an image whose height lies between 287 and 297 mm gets a
      single page, and its bottom rows fall below that page's edge. */
  lemma PaginationClipsTail()
    ensures PageCount(290.0) == 1
    ensures !RowPrinted(Layout(290.0), 288.0)
  {
    PageCountIsBracket(290.0, 1);
    var ps := Layout(290.0);
    assert ps[0] == PagePlacement(290.0, 0);
  }

  /** The page count that covers the whole image: the fewest pages whose
      shown slices reach the bottom row. */
  function CoveringPageCount(imgHeight: real): (n: nat)
    requires imgHeight >= 0.0
    ensures n >= 1
    ensures PageHeight * (n - 1) as real - MarginTop < imgHeight <= PageHeight * n as real - MarginTop
  {
    var q := (imgHeight + MarginTop) / PageHeight;
    if q.Floor as real == q then q.Floor else q.Floor + 1
  }

  /** The loop with the test corrected to continue while part of the image is
      still below the current page: `heightLeft > -MarginTop`. */
  method PaginateImageCovering(imgHeight: real) returns (pages: seq<Placement>)
    requires imgHeight >= 0.0
    ensures pages == Placements(imgHeight, CoveringPageCount(imgHeight))
  {
    var heightLeft := imgHeight;
    var position := 0.0;
    var page := 1;
    pages := [Placement(MarginLeft, MarginTop, PageWidth - (MarginLeft + MarginRight), imgHeight)];
    heightLeft := heightLeft - PageHeight;
    while heightLeft > -MarginTop
      invariant page == |pages| && 1 <= page <= CoveringPageCount(imgHeight)
      invariant heightLeft == imgHeight - PageHeight * page as real
      invariant pages == Placements(imgHeight, page)
      decreases CoveringPageCount(imgHeight) - page
    {
      position := heightLeft - imgHeight;
      pages := pages + [Placement(MarginLeft, position + MarginTop,
                                  PageWidth - (MarginLeft + MarginRight), imgHeight)];
      heightLeft := heightLeft - PageHeight;
      page := page + 1;
    }
  }

  /** With the corrected count every row of the image is printed ... */
  lemma CoveringPrintsEveryRow(imgHeight: real, row: real)
    requires imgHeight >= 0.0 && 0.0 <= row < imgHeight
    ensures RowPrinted(Placements(imgHeight, CoveringPageCount(imgHeight)), row)
  {
    var n := CoveringPageCount(imgHeight);
    var k := ((row + MarginTop) / PageHeight).Floor;
    assert 0 <= k < n;
    PageShowsSlice(imgHeight, k, row);
    assert Placements(imgHeight, n)[k] == PagePlacement(imgHeight, k);
  }

  /** ... and no page is blank. */
  lemma CoveringHasNoBlankPage(imgHeight: real, k: nat)
    requires imgHeight > 0.0
    requires k < CoveringPageCount(imgHeight)
    ensures exists row :: 0.0 <= row < imgHeight && ShowsRow(Placements(imgHeight, CoveringPageCount(imgHeight))[k], row)
  {
    var n := CoveringPageCount(imgHeight);
    var row := if k == 0 then 0.0 else PageHeight * k as real - MarginTop;
    assert PageHeight * k as real <= PageHeight * (n - 1) as real;
    assert 0.0 <= row < imgHeight;
    PageShowsSlice(imgHeight, k, row);
    assert Placements(imgHeight, n)[k] == PagePlacement(imgHeight, k);
    assert ShowsRow(Placements(imgHeight, n)[k], row);
  }

  /** The two counts agree except when the image's last partial page is
      taller than 287 mm, where the loop as written stops one page early. */
  lemma CountsDifferOnlyOnClippedTail(imgHeight: real)
    requires imgHeight >= 0.0
    ensures CoveringPageCount(imgHeight) == PageCount(imgHeight)
        || CoveringPageCount(imgHeight) == PageCount(imgHeight) + 1
    ensures CoveringPageCount(imgHeight) == PageCount(imgHeight)
        <==> imgHeight <= PageHeight * PageCount(imgHeight) as real - MarginTop
  {
    var n, c := PageCount(imgHeight), CoveringPageCount(imgHeight);
    assert PageHeight * (c - 1) as real < PageHeight * n as real + MarginTop;
    assert PageHeight * (n - 1) as real < PageHeight * c as real;
  }

  // ---------------------------------------------------------------------
  // Export flow (generatePDF, downloadResumeAsPDF)
  // ---------------------------------------------------------------------

  datatype Option<T> = None | Some(value: T)

  /** What the page capture hands back: the canvas size in pixels, or a
      failure anywhere before the PDF is saved (capture, image loading). */
  datatype Capture = Captured(width: nat, height: nat) | CaptureFailed

  /** The saved document: its file name and one placement per page. */
  datatype PdfFile = PdfFile(name: string, pages: seq<Placement>)

  /** The boolean the export functions resolve to, with the file on success. */
  datatype Outcome = Saved(file: PdfFile) | Failed

  /** A file name argument left out falls back to "resume". */
  function FilenameOrDefault(filename: Option<string>): (f: string)
    ensures filename.None? ==> f == DefaultFilename
    ensures filename.Some? ==> f == filename.value
  {
    if filename.Some? then filename.value else DefaultFilename
  }

  /** generatePDF: scale the capture to the page width, lay it out page by
      page and save it under the given name with ".pdf" appended; a failed
      capture saves nothing and reports failure. */
  method GeneratePdf(capture: Capture, filename: Option<string>) returns (outcome: Outcome)
    requires capture.Captured? ==> capture.width > 0
    ensures outcome.Failed? <==> capture.CaptureFailed?
    ensures outcome.Saved? ==> outcome.file.name == FilenameOrDefault(filename) + ".pdf"
    ensures outcome.Saved? ==>
      var h := ScaledHeight(capture.width, capture.height);
      outcome.file.pages == Layout(h)
  {
    match capture {
      case CaptureFailed =>
        outcome := Failed;
      case Captured(width, height) =>
        var imgHeight := ScaledHeight(width, height);
        var pages := PaginateImage(imgHeight);
        outcome := Saved(PdfFile(FilenameOrDefault(filename) + ".pdf", pages));
    }
  }

  /** The name downloadResumeAsPDF saves under. */
  function DownloadName(filename: Option<string>): (name: string)
    ensures |name| > 4 && name[|name| - 4..] == ".pdf"
    ensures name[..|name| - 4] != [] && AllSafe(name[..|name| - 4])
  {
    var stem := SanitizeFilename(FilenameOrDefault(filename));
    var name := stem + ".pdf";
    assert name[..|name| - 4] == stem;
    name
  }

  /** downloadResumeAsPDF: sanitise the name, then generate; every failure
      resolves to false. */
  method DownloadResumeAsPdf(capture: Capture, filename: Option<string>) returns (outcome: Outcome)
    requires capture.Captured? ==> capture.width > 0
    ensures outcome.Failed? <==> capture.CaptureFailed?
    ensures outcome.Saved? ==> outcome.file.name == DownloadName(filename)
    ensures outcome.Saved? ==>
      outcome.file.pages == Layout(ScaledHeight(capture.width, capture.height))
  {
    var sanitized := SanitizeFilename(FilenameOrDefault(filename));
    outcome := GeneratePdf(capture, Some(sanitized));
  }

  /** Saving again under the stem of a downloaded file gives the same name. */
  lemma DownloadNameStable(filename: Option<string>)
    ensures DownloadName(Some(DownloadName(filename)[..|DownloadName(filename)| - 4])) == DownloadName(filename)
  {
    var stem := SanitizeFilename(FilenameOrDefault(filename));
    assert DownloadName(filename)[..|DownloadName(filename)| - 4] == stem by {
      assert (stem + ".pdf")[..|stem|] == stem;
    }
    SanitizeFilenameIdempotent(FilenameOrDefault(filename));
  }

  lemma PdfSuffixLiterals()
    ensures "my-resume-2024" + ".pdf" == "my-resume-2024.pdf"
    ensures "resume" + ".pdf" == "resume.pdf"
  {
  }

  /** The worked example saves as "my-resume-2024.pdf". */
  lemma DownloadNameExample(s: string)
    requires s == "  My Resume!! 2024  "
    ensures DownloadName(Some(s)) == "my-resume-2024.pdf"
  {
    PdfSuffixLiterals();
    SanitizeFilenameExample(s);
  }

  /** With no name given the file is "resume.pdf". */
  lemma DownloadNameDefault()
    ensures DownloadName(None) == "resume.pdf"
  {
    PdfSuffixLiterals();
    SafeNameIsFixed(DefaultFilename);
  }
}
