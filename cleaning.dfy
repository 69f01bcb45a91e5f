/**
 * The text normaliser `clean_text` of the phishing-detection API. It runs four
 * passes over the request text, and each pass is a recursive function on strings:
 *   1. `Lower`          lower-cases the text;
 *   2. `RemoveUrls`     deletes every `http` followed by a maximal run of
 *                       non-whitespace characters (the pattern `http\S+`);
 *   3. `RemoveSymbols`  deletes every character that is neither an ASCII letter
 *                       nor whitespace (the pattern `[^a-zA-Z\s]`);
 *   4. `CollapseSpaces` and `Strip` replace every run of whitespace with a single
 *                       space and then strip both ends.
 * The model is exact for ASCII text. One whitespace predicate, `IsSpace`, is used
 * by passes 2 to 4, as Python's `\s` and `str.strip` are.
 */
module Cleaning {

  // ---------------------------------------------------------------------------
  // Characters
  // ---------------------------------------------------------------------------

  /** Python's `\s` and `str.isspace` restricted to ASCII: the space, the controls
      9 to 13 (tab, line feed, vertical tab, form feed, carriage return) and the
      separators 28 to 31. */
  predicate IsSpace(c: char)
  {
    c == ' ' || 9 <= c as int <= 13 || 28 <= c as int <= 31
  }

  predicate IsUpper(c: char) { 'A' <= c <= 'Z' }

  predicate IsLower(c: char) { 'a' <= c <= 'z' }

  /** The characters that the class `[a-zA-Z\s]` lets through the third pass. */
  predicate IsKept(c: char) { IsUpper(c) || IsLower(c) || IsSpace(c) }

  /** `str.lower` on one ASCII character. */
  function LowerChar(c: char): (l: char)
  {
    if IsUpper(c) then (c as int + 32) as char else c
  }

  // ---------------------------------------------------------------------------
  // Runs of whitespace and non-whitespace
  // ---------------------------------------------------------------------------

  /** Length of the longest whitespace-free prefix of `s`, which is what a greedy
      `\S+` consumes. */
  function NonSpaceRun(s: string): (n: nat)
    ensures n <= |s|
  {
    if s == [] || IsSpace(s[0]) then 0 else 1 + NonSpaceRun(s[1..])
  }

  /** The whitespace-free run is maximal: whitespace or the end follows it. */
  lemma {:induction false} NonSpaceRunSpec(s: string)
    ensures forall i :: 0 <= i < NonSpaceRun(s) ==> !IsSpace(s[i])
    ensures NonSpaceRun(s) < |s| ==> IsSpace(s[NonSpaceRun(s)])
  {
    if s != [] && !IsSpace(s[0]) {
      NonSpaceRunSpec(s[1..]);
      assert forall i :: 1 <= i < |s| ==> s[i] == s[1..][i - 1];
    }
  }

  /** Length of the longest whitespace prefix of `s`, which is what a greedy `\s+`
      consumes. */
  function SpaceRun(s: string): (n: nat)
    ensures n <= |s|
  {
    if s == [] || !IsSpace(s[0]) then 0 else 1 + SpaceRun(s[1..])
  }

  /** The whitespace run is maximal: a non-whitespace character or the end follows
      it. */
  lemma {:induction false} SpaceRunSpec(s: string)
    ensures forall i :: 0 <= i < SpaceRun(s) ==> IsSpace(s[i])
    ensures SpaceRun(s) < |s| ==> !IsSpace(s[SpaceRun(s)])
  {
    if s != [] && IsSpace(s[0]) {
      SpaceRunSpec(s[1..]);
      assert forall i :: 1 <= i < |s| ==> s[i] == s[1..][i - 1];
    }
  }

  /** Length of the longest whitespace suffix of `s`. */
  function TrailingSpaceRun(s: string): (n: nat)
    ensures n <= |s|
  {
    if s == [] || !IsSpace(s[|s| - 1]) then 0 else 1 + TrailingSpaceRun(s[..|s| - 1])
  }

  /** The trailing whitespace run is maximal: a non-whitespace character or the
      start precedes it. */
  lemma {:induction false} TrailingSpaceRunSpec(s: string)
    ensures forall i :: |s| - TrailingSpaceRun(s) <= i < |s| ==> IsSpace(s[i])
    ensures TrailingSpaceRun(s) < |s| ==> !IsSpace(s[|s| - 1 - TrailingSpaceRun(s)])
  {
    if s != [] && IsSpace(s[|s| - 1]) {
      TrailingSpaceRunSpec(s[..|s| - 1]);
    }
  }

  // ---------------------------------------------------------------------------
  // Pass 1: `text.lower()`
  // ---------------------------------------------------------------------------

  /** Every upper-case letter becomes its lower-case letter, and every other
      character is left as it is. */
  function Lower(s: string): (r: string)
    ensures |r| == |s|
  {
    if s == [] then [] else [LowerChar(s[0])] + Lower(s[1..])
  }

  /** Lower-casing works character by character: an upper-case letter becomes the
      letter 32 code points further on, which is its lower-case letter, and every
      other character stays; no upper-case letter is left. */
  lemma {:induction false} LowerChars(s: string)
    ensures forall i :: 0 <= i < |s| ==> !IsUpper(Lower(s)[i])
    ensures forall i :: 0 <= i < |s| && IsUpper(s[i]) ==> IsLower(Lower(s)[i]) && Lower(s)[i] as int == s[i] as int + 32
    ensures forall i :: 0 <= i < |s| && !IsUpper(s[i]) ==> Lower(s)[i] == s[i]
  {
    if s != [] {
      LowerChars(s[1..]);
      assert forall i :: 1 <= i < |s| ==> Lower(s)[i] == Lower(s[1..])[i - 1] && s[i] == s[1..][i - 1];
    }
  }

  // ---------------------------------------------------------------------------
  // Pass 2: `re.sub(r'http\S+', '', text)`
  // ---------------------------------------------------------------------------

  /** The pattern `http\S+` matches at index `i` of `s`: the letters `http` and at
      least one non-whitespace character after them. */
  predicate UrlAt(s: string, i: int)
  {
    0 <= i && i + 4 < |s| && s[i] == 'h' && s[i + 1] == 't' && s[i + 2] == 't' && s[i + 3] == 'p'
    && !IsSpace(s[i + 4])
  }

  /** `s` holds no match of `http\S+`. */
  predicate NoUrl(s: string)
  {
    forall i :: 0 <= i < |s| ==> !UrlAt(s, i)
  }

  /** The substitution scans from left to right. Where the pattern matches, it deletes
      the match, which is the whole whitespace-free run starting there because `http`
      holds no whitespace and `\S+` is greedy, and resumes after it. Elsewhere it keeps
      the character and moves one position on. */
  function RemoveUrls(s: string): (r: string)
    ensures |r| <= |s|
    ensures s != [] && IsSpace(s[0]) ==> r != [] && r[0] == s[0]
    decreases |s|
  {
    if s == [] then []
    else if UrlAt(s, 0) then RemoveUrls(s[NonSpaceRun(s)..])
    else [s[0]] + RemoveUrls(s[1..])
  }

  // ---------------------------------------------------------------------------
  // Pass 3: `re.sub(r'[^a-zA-Z\s]', '', text)`
  // ---------------------------------------------------------------------------

  /** Deletes every character outside `[a-zA-Z\s]` and keeps the others in order. */
  function RemoveSymbols(s: string): (r: string)
    ensures |r| <= |s|
    ensures forall i :: 0 <= i < |r| ==> IsKept(r[i])
  {
    if s == [] then []
    else if IsKept(s[0]) then [s[0]] + RemoveSymbols(s[1..])
    else RemoveSymbols(s[1..])
  }

  // ---------------------------------------------------------------------------
  // Pass 4: `re.sub(r'\s+', ' ', text).strip()`
  // ---------------------------------------------------------------------------

  /** `re.sub(r'\s+', ' ', s)`: every maximal run of whitespace becomes one space. */
  function CollapseSpaces(s: string): (r: string)
    ensures |r| <= |s|
    ensures r == [] <==> s == []
    ensures s != [] ==> r[0] == if IsSpace(s[0]) then ' ' else s[0]
    decreases |s|
  {
    if s == [] then []
    else if IsSpace(s[0]) then [' '] + CollapseSpaces(s[SpaceRun(s)..])
    else [s[0]] + CollapseSpaces(s[1..])
  }

  /** One step of collapsing: the head of the text becomes one character in front
      of the collapsed rest. */
  lemma {:induction false} CollapseSpacesStep(s: string)
    requires s != []
    ensures CollapseSpaces(s)
            == [if IsSpace(s[0]) then ' ' else s[0]] + CollapseSpaces(s[if IsSpace(s[0]) then SpaceRun(s) else 1..])
    ensures IsSpace(s[0]) ==> SpaceRun(s) > 0 && (s[SpaceRun(s)..] == [] || !IsSpace(s[SpaceRun(s)..][0]))
  {
    SpaceRunSpec(s);
  }

  /** After collapsing, the only whitespace character is the space. */
  lemma {:induction false} CollapseSpacesOnlySpace(s: string)
    ensures forall i :: 0 <= i < |CollapseSpaces(s)| && IsSpace(CollapseSpaces(s)[i]) ==> CollapseSpaces(s)[i] == ' '
    decreases |s|
  {
    if s != [] {
      CollapseSpacesStep(s);
      var t := s[if IsSpace(s[0]) then SpaceRun(s) else 1..];
      CollapseSpacesOnlySpace(t);
      var r, c := CollapseSpaces(s), CollapseSpaces(t);
      assert forall i :: 1 <= i < |r| ==> r[i] == c[i - 1];
    }
  }

  /** After collapsing, every character other than whitespace comes from the input. */
  lemma {:induction false} CollapseSpacesFromInput(s: string)
    ensures forall i :: 0 <= i < |CollapseSpaces(s)| && !IsSpace(CollapseSpaces(s)[i]) ==> CollapseSpaces(s)[i] in s
    decreases |s|
  {
    if s != [] {
      CollapseSpacesStep(s);
      var t := s[if IsSpace(s[0]) then SpaceRun(s) else 1..];
      CollapseSpacesFromInput(t);
      var r, c := CollapseSpaces(s), CollapseSpaces(t);
      assert forall x :: x in t ==> x in s;
      assert forall i :: 1 <= i < |r| ==> r[i] == c[i - 1];
    }
  }

  /** After collapsing, no two whitespace characters are adjacent. */
  lemma {:induction false} CollapseSpacesNoDoubles(s: string)
    ensures forall i :: 0 <= i < |CollapseSpaces(s)| - 1 ==> !IsSpace(CollapseSpaces(s)[i]) || !IsSpace(CollapseSpaces(s)[i + 1])
    decreases |s|
  {
    if s != [] {
      CollapseSpacesStep(s);
      var t := s[if IsSpace(s[0]) then SpaceRun(s) else 1..];
      CollapseSpacesNoDoubles(t);
      var r, c := CollapseSpaces(s), CollapseSpaces(t);
      assert forall i :: 1 <= i < |r| ==> r[i] == c[i - 1];
    }
  }

  /** After collapsing, the only whitespace character is the space, no two
      whitespace characters are adjacent, and every other character comes from
      the input. */
  lemma {:induction false} CollapseSpacesShape(s: string)
    ensures forall i :: 0 <= i < |CollapseSpaces(s)| && IsSpace(CollapseSpaces(s)[i]) ==> CollapseSpaces(s)[i] == ' '
    ensures forall i :: 0 <= i < |CollapseSpaces(s)| && !IsSpace(CollapseSpaces(s)[i]) ==> CollapseSpaces(s)[i] in s
    ensures forall i :: 0 <= i < |CollapseSpaces(s)| - 1 ==> !IsSpace(CollapseSpaces(s)[i]) || !IsSpace(CollapseSpaces(s)[i + 1])
  {
    CollapseSpacesOnlySpace(s);
    CollapseSpacesFromInput(s);
    CollapseSpacesNoDoubles(s);
  }

  /** `str.strip()`: drops the leading and the trailing whitespace. */
  function Strip(s: string): (r: string)
    ensures |r| <= |s|
  {
    var t := s[SpaceRun(s)..];
    t[..|t| - TrailingSpaceRun(t)]
  }

  /** A prefix of a suffix is a slice. */
  lemma SliceOfSlice(s: string, k: nat, l: nat)
    requires k + l <= |s|
    ensures s[k..][..l] == s[k..k + l]
  {
  }

  /** The result of `strip` is the part of `s` that follows its leading whitespace,
      and only whitespace follows it in `s`. */
  lemma {:induction false} StripSlice(s: string)
    ensures SpaceRun(s) + |Strip(s)| <= |s|
    ensures Strip(s) == s[SpaceRun(s)..SpaceRun(s) + |Strip(s)|]
    ensures forall i :: SpaceRun(s) + |Strip(s)| <= i < |s| ==> IsSpace(s[i])
  {
    var k := SpaceRun(s);
    var t := s[k..];
    TrailingSpaceRunSpec(t);
    var m := TrailingSpaceRun(t);
    SliceOfSlice(s, k, |t| - m);
    assert forall i :: k + |t| - m <= i < |s| ==> s[i] == t[i - k];
  }

  /** The result of `strip` neither starts nor ends with whitespace. */
  lemma {:induction false} StripEnds(s: string)
    ensures Strip(s) == [] || (!IsSpace(Strip(s)[0]) && !IsSpace(Strip(s)[|Strip(s)| - 1]))
  {
    SpaceRunSpec(s);
    var k := SpaceRun(s);
    var t := s[k..];
    TrailingSpaceRunSpec(t);
    var m := TrailingSpaceRun(t);
    var r := t[..|t| - m];
    assert Strip(s) == r;
    assert r != [] ==> r[0] == t[0] == s[k] && r[|r| - 1] == t[|t| - 1 - m];
  }

  /** The result of `strip` is the part of `s` that follows its leading whitespace,
      only whitespace follows it in `s`, and it neither starts nor ends with
      whitespace. */
  lemma {:induction false} StripSpec(s: string)
    ensures SpaceRun(s) + |Strip(s)| <= |s|
    ensures Strip(s) == s[SpaceRun(s)..SpaceRun(s) + |Strip(s)|]
    ensures forall i :: SpaceRun(s) + |Strip(s)| <= i < |s| ==> IsSpace(s[i])
    ensures Strip(s) == [] || (!IsSpace(Strip(s)[0]) && !IsSpace(Strip(s)[|Strip(s)| - 1]))
  {
    StripSlice(s);
    StripEnds(s);
  }

  // ---------------------------------------------------------------------------
  // The whole normaliser
  // ---------------------------------------------------------------------------

  /** The first three passes, lower-casing and the deletion of URLs and of
      symbols, which never add a character. */
  function FirstPasses(s: string): (r: string)
    ensures |r| <= |s|
  {
    RemoveSymbols(RemoveUrls(Lower(s)))
  }

  /** `clean_text`: the four passes in the order the source applies them. None of
      them adds a character, so the normalised text is never longer. */
  function CleanText(s: string): (r: string)
    ensures |r| <= |s|
  {
    Strip(CollapseSpaces(FirstPasses(s)))
  }

  // ---------------------------------------------------------------------------
  // Each pass works piece by piece
  // ---------------------------------------------------------------------------

  /** Lower-casing is character by character. */
  lemma {:induction false} LowerAppend(a: string, b: string)
    ensures Lower(a + b) == Lower(a) + Lower(b)
  {
    LowerChars(a + b);
    LowerChars(a);
    LowerChars(b);
    assert forall i :: 0 <= i < |a + b| ==> Lower(a + b)[i] == (Lower(a) + Lower(b))[i];
  }

  /** Deleting symbols is character by character. */
  lemma {:induction false} RemoveSymbolsAppend(a: string, b: string)
    ensures RemoveSymbols(a + b) == RemoveSymbols(a) + RemoveSymbols(b)
  {
    if a != [] {
      assert (a + b)[1..] == a[1..] + b;
      RemoveSymbolsAppend(a[1..], b);
    } else {
      assert a + b == b;
    }
  }

  /** A whitespace-free run ends where the text before a whitespace ends. */
  lemma {:induction false} NonSpaceRunAppend(a: string, b: string)
    requires b == [] || IsSpace(b[0])
    ensures NonSpaceRun(a + b) == NonSpaceRun(a)
  {
    NonSpaceRunSpec(a);
    NonSpaceRunSpec(a + b);
    var n, m := NonSpaceRun(a + b), NonSpaceRun(a);
    if m < |a| {
      assert (a + b)[m] == a[m];
    } else if b != [] {
      assert (a + b)[|a|] == b[0];
    }
    assert forall i :: 0 <= i < |a| ==> (a + b)[i] == a[i];
  }

  /** Whether a match starts at the head does not depend on what follows a
      whitespace boundary. */
  lemma {:induction false} UrlAtHeadAppend(a: string, b: string)
    requires a != []
    requires b == [] || IsSpace(b[0])
    ensures UrlAt(a + b, 0) == UrlAt(a, 0)
  {
    var s := a + b;
    if |a| < 5 && b != [] {
      assert s[|a|] == b[0];
    }
    if |a| >= 5 {
      assert s[..5] == a[..5];
    }
    assert forall i :: 0 <= i < |a| ==> s[i] == a[i];
  }

  /** URL deletion never reaches across whitespace: the text before a whitespace
      and the text from it on are cleaned independently. */
  lemma {:induction false} RemoveUrlsAppend(a: string, b: string)
    requires b == [] || IsSpace(b[0])
    ensures RemoveUrls(a + b) == RemoveUrls(a) + RemoveUrls(b)
    decreases |a|
  {
    if a == [] {
      assert a + b == b;
    } else {
      var s := a + b;
      UrlAtHeadAppend(a, b);
      if UrlAt(s, 0) {
        NonSpaceRunAppend(a, b);
        var n := NonSpaceRun(a);
        assert s[n..] == a[n..] + b;
        RemoveUrlsAppend(a[n..], b);
      } else {
        assert s[1..] == a[1..] + b;
        RemoveUrlsAppend(a[1..], b);
      }
    }
  }

  /** A whitespace run that stops inside `a` stops at the same place in `a + b`;
      one that covers all of `a` continues into `b`. */
  lemma {:induction false} SpaceRunAppend(a: string, b: string)
    ensures SpaceRun(a + b) == if SpaceRun(a) < |a| then SpaceRun(a) else |a| + SpaceRun(b)
  {
    if a == [] {
      assert a + b == b;
    } else if IsSpace(a[0]) {
      assert (a + b)[1..] == a[1..] + b;
      SpaceRunAppend(a[1..], b);
    }
  }

  /** Whitespace collapsing never reaches across a non-whitespace character. */
  lemma {:induction false} CollapseSpacesAppend(a: string, b: string)
    requires a == [] || !IsSpace(a[|a| - 1])
    ensures CollapseSpaces(a + b) == CollapseSpaces(a) + CollapseSpaces(b)
    decreases |a|
  {
    if a == [] {
      assert a + b == b;
    } else if IsSpace(a[0]) {
      var rest := a[SpaceRun(a)..];
      CollapseSpacesSpaceHead(a, b);
      CollapseSpacesAppend(rest, b);
      ConsAssoc(' ', CollapseSpaces(rest), CollapseSpaces(b));
    } else {
      CollapseSpacesWordHead(a, b);
      CollapseSpacesAppend(a[1..], b);
      ConsAssoc(a[0], CollapseSpaces(a[1..]), CollapseSpaces(b));
    }
  }

  /** Concatenation is associative (stated for the shapes the proofs need). */
  lemma ConsAssoc(c: char, x: string, y: string)
    ensures [c] + (x + y) == [c] + x + y
  {
  }

  /** A prefix of a string with one character in front. */
  lemma ConsTake(c: char, x: string, k: nat)
    requires 1 <= k <= |x| + 1
    ensures ([c] + x)[..k] == [c] + x[..k - 1]
  {
  }

  /** A step of `CollapseSpacesAppend`: a leading whitespace run of `a` ends inside
      `a`, in `a` and in `a + b` alike. */
  lemma {:induction false} CollapseSpacesSpaceHead(a: string, b: string)
    requires a != [] && IsSpace(a[0]) && !IsSpace(a[|a| - 1])
    ensures 0 < SpaceRun(a) < |a|
    ensures CollapseSpaces(a + b) == [' '] + CollapseSpaces(a[SpaceRun(a)..] + b)
    ensures CollapseSpaces(a) == [' '] + CollapseSpaces(a[SpaceRun(a)..])
    ensures !IsSpace(a[SpaceRun(a)..][|a[SpaceRun(a)..]| - 1])
  {
    var s := a + b;
    assert s[0] == a[0];
    SpaceRunSpec(a);
    var n := SpaceRun(a);
    assert SpaceRun(s) == n < |a| by { SpaceRunAppend(a, b); }
    assert s[n..] == a[n..] + b;
  }

  /** A step of `CollapseSpacesAppend`: a leading non-whitespace character of `a`
      is kept, in `a` and in `a + b` alike. */
  lemma {:induction false} CollapseSpacesWordHead(a: string, b: string)
    requires a != [] && !IsSpace(a[0]) && !IsSpace(a[|a| - 1])
    ensures CollapseSpaces(a + b) == [a[0]] + CollapseSpaces(a[1..] + b)
    ensures CollapseSpaces(a) == [a[0]] + CollapseSpaces(a[1..])
    ensures a[1..] == [] || !IsSpace(a[1..][|a[1..]| - 1])
  {
    var s := a + b;
    assert s[0] == a[0];
    assert s[1..] == a[1..] + b;
  }



  // ---------------------------------------------------------------------------
  // Pass 2: what URL deletion leaves behind
  // ---------------------------------------------------------------------------

  /** URL deletion only deletes: every character of the result occurs in the input. */
  lemma {:induction false} RemoveUrlsMembers(s: string)
    ensures forall c :: c in RemoveUrls(s) ==> c in s
    decreases |s|
  {
    if s != [] {
      var n := if UrlAt(s, 0) then NonSpaceRun(s) else 1;
      RemoveUrlsMembers(s[n..]);
      assert forall c :: c in s[n..] ==> c in s;
    }
  }

  /** Inside one whitespace-free word the pass keeps everything before the first
      match and deletes everything from it to the end of the word; a word without a
      match (`k == |w|`) is kept whole. */
  lemma {:induction false} RemoveUrlsWord(w: string, k: nat)
    requires forall i :: 0 <= i < |w| ==> !IsSpace(w[i])
    requires k <= |w| && (k == |w| || UrlAt(w, k))
    requires forall i :: 0 <= i < k ==> !UrlAt(w, i)
    ensures RemoveUrls(w) == w[..k]
    decreases k
  {
    if k == 0 {
      if w != [] {
        NonSpaceRunSpec(w);
        assert NonSpaceRun(w) == |w|;
      }
    } else {
      assert forall i :: 0 <= i < |w| - 1 ==> UrlAt(w[1..], i) == UrlAt(w, i + 1);
      RemoveUrlsWord(w[1..], k - 1);
      ConsTake(w[0], w[1..], k);
      assert [w[0]] + w[1..] == w;
    }
  }

  /** A match in the middle of a word cuts the word there: the part before it
      survives the pass. */
  lemma {:induction false} RemoveUrlsCutsWord()
    ensures RemoveUrls("visit:http://x") == "visit:"
  {
    RemoveUrlsWord("visit:http://x", 6);
  }

  /** The leading word of the result was copied unchanged from the input: a
      deletion is always followed by whitespace or by the end. */
  lemma {:induction false} RemoveUrlsLeadingWord(s: string)
    ensures NonSpaceRun(RemoveUrls(s)) <= |s|
    ensures forall i :: 0 <= i < NonSpaceRun(RemoveUrls(s)) ==> RemoveUrls(s)[i] == s[i]
    decreases |s|
  {
    if s != [] && !UrlAt(s, 0) && !IsSpace(s[0]) {
      var r, t := RemoveUrls(s), RemoveUrls(s[1..]);
      assert r == [s[0]] + t;
      assert r[1..] == t;
      RemoveUrlsLeadingWord(s[1..]);
      assert NonSpaceRun(r) == 1 + NonSpaceRun(t);
      assert forall i :: 1 <= i < NonSpaceRun(r) ==> r[i] == t[i - 1] && s[i] == s[1..][i - 1];
    } else if s != [] && UrlAt(s, 0) {
      NonSpaceRunSpec(s);
      var rest := s[NonSpaceRun(s)..];
      assert rest == [] || IsSpace(rest[0]);
      assert NonSpaceRun(RemoveUrls(rest)) == 0;
    } else if s != [] {
      assert RemoveUrls(s)[0] == s[0];
    }
  }

  /** Where the text does not start with a match, neither does the result. */
  lemma {:induction false} RemoveUrlsKeepsHead(s: string)
    requires s != [] && !UrlAt(s, 0)
    ensures !UrlAt(RemoveUrls(s), 0)
  {
    var r := RemoveUrls(s);
    RemoveUrlsLeadingWord(s);
    NonSpaceRunSpec(r);
    assert UrlAt(r, 0) ==> NonSpaceRun(r) >= 5;
  }

  /** The substitution leaves no match of `http\S+` behind. */
  lemma {:induction false} RemoveUrlsLeavesNoUrl(s: string)
    ensures NoUrl(RemoveUrls(s))
    decreases |s|
  {
    if s != [] {
      if UrlAt(s, 0) {
        RemoveUrlsLeavesNoUrl(s[NonSpaceRun(s)..]);
      } else {
        var r, t := RemoveUrls(s), RemoveUrls(s[1..]);
        assert r == [s[0]] + t;
        RemoveUrlsLeavesNoUrl(s[1..]);
        assert forall i :: 1 <= i < |r| ==> UrlAt(r, i) == UrlAt(t, i - 1);
        RemoveUrlsKeepsHead(s);
      }
    }
  }

  /** A text without a match passes through unchanged. */
  lemma {:induction false} RemoveUrlsKeepsPlainText(s: string)
    ensures NoUrl(s) ==> RemoveUrls(s) == s
    decreases |s|
  {
    if s != [] && NoUrl(s) {
      assert forall i :: 0 <= i < |s| - 1 ==> UrlAt(s[1..], i) == UrlAt(s, i + 1);
      RemoveUrlsKeepsPlainText(s[1..]);
    }
  }

  /** The texts that URL deletion leaves unchanged are exactly those without a match. */
  lemma {:induction false} RemoveUrlsFixedPoints(s: string)
    ensures RemoveUrls(s) == s <==> NoUrl(s)
  {
    RemoveUrlsLeavesNoUrl(s);
    RemoveUrlsKeepsPlainText(s);
  }

  /** Deleting URLs twice is deleting them once. */
  lemma {:induction false} RemoveUrlsIdempotent(s: string)
    ensures RemoveUrls(RemoveUrls(s)) == RemoveUrls(s)
  {
    RemoveUrlsLeavesNoUrl(s);
    RemoveUrlsKeepsPlainText(RemoveUrls(s));
  }

  /** Whenever something is deleted the text gets shorter. */
  lemma {:induction false} RemoveUrlsShortens(s: string)
    ensures |RemoveUrls(s)| == |s| ==> RemoveUrls(s) == s
    decreases |s|
  {
    if s != [] && !UrlAt(s, 0) {
      RemoveUrlsShortens(s[1..]);
    }
  }

  /** A whitespace-free token that starts with `http` and has at least one more
      character is deleted whole when whitespace or the end follows it. */
  lemma {:induction false} RemoveUrlsDeletesToken(u: string, b: string)
    requires UrlAt(u, 0) && forall i :: 0 <= i < |u| ==> !IsSpace(u[i])
    requires b == [] || IsSpace(b[0])
    ensures RemoveUrls(u + b) == RemoveUrls(b)
  {
    NonSpaceRunSpec(u);
    var s := u + b;
    assert s[..5] == u[..5];
    NonSpaceRunAppend(u, b);
    assert s[|u|..] == b;
  }

  /** A bare `http` is not a match: the pattern needs a non-whitespace character
      after it. */
  lemma {:induction false} BareHttpKept(t: string)
    requires t == [] || IsSpace(t[0])
    ensures RemoveUrls("http" + t) == "http" + RemoveUrls(t)
  {
    var s := "http" + t;
    assert RemoveUrls(s) == "h" + RemoveUrls(s[1..]);
    assert RemoveUrls(s[1..]) == "t" + RemoveUrls(s[2..]);
    assert RemoveUrls(s[2..]) == "t" + RemoveUrls(s[3..]);
    assert RemoveUrls(s[3..]) == "p" + RemoveUrls(s[4..]);
    assert s[4..] == t;
  }

  // ---------------------------------------------------------------------------
  // Pass 3: what symbol deletion keeps
  // ---------------------------------------------------------------------------

  /** A character survives symbol deletion exactly when it occurs in the input and
      is a letter or whitespace. */
  lemma {:induction false} RemoveSymbolsMembers(s: string)
    ensures forall c :: c in RemoveSymbols(s) <==> c in s && IsKept(c)
  {
    if s != [] {
      RemoveSymbolsMembers(s[1..]);
      assert forall c :: c in s <==> c == s[0] || c in s[1..];
    }
  }

  /** The texts that symbol deletion leaves unchanged are exactly those made of
      letters and whitespace only. */
  lemma {:induction false} RemoveSymbolsFixedPoints(s: string)
    ensures RemoveSymbols(s) == s <==> forall i :: 0 <= i < |s| ==> IsKept(s[i])
  {
    if s != [] {
      RemoveSymbolsFixedPoints(s[1..]);
      if !IsKept(s[0]) {
        assert |RemoveSymbols(s)| <= |s[1..]|;
      }
    }
  }

  // ---------------------------------------------------------------------------
  // Pass 4: fixed points and the word-list reading
  // ---------------------------------------------------------------------------

  /** Every whitespace character is a space and no two whitespace characters are
      adjacent. */
  predicate SingleSpaced(s: string)
  {
    && (forall i :: 0 <= i < |s| && IsSpace(s[i]) ==> s[i] == ' ')
    && (forall i :: 0 <= i < |s| - 1 ==> !IsSpace(s[i]) || !IsSpace(s[i + 1]))
  }

  /** The texts that whitespace collapsing leaves unchanged are exactly the
      single-spaced ones. */
  lemma {:induction false} CollapseSpacesFixedPoints(s: string)
    ensures CollapseSpaces(s) == s <==> SingleSpaced(s)
    decreases |s|
  {
    CollapseSpacesShape(s);
    if s != [] && SingleSpaced(s) {
      assert SingleSpaced(s[1..]) by {
        assert forall i :: 0 <= i < |s| - 1 ==> s[1..][i] == s[i + 1];
      }
      CollapseSpacesFixedPoints(s[1..]);
      if IsSpace(s[0]) {
        assert SpaceRun(s) == 1 by {
          assert |s| > 1 ==> !IsSpace(s[1]);
        }
      }
    }
  }

  /** A non-empty block of whitespace collapses to one space together with the
      whitespace that follows it. */
  lemma {:induction false} CollapseSpacesOfBlock(w: string, y: string)
    requires w != [] && forall i :: 0 <= i < |w| ==> IsSpace(w[i])
    ensures CollapseSpaces(w + y) == [' '] + CollapseSpaces(y[SpaceRun(y)..])
  {
    SpaceRunSpec(w);
    assert SpaceRun(w) == |w|;
    var s, k := w + y, |w| + SpaceRun(y);
    assert SpaceRun(s) == k by { SpaceRunAppend(w, y); }
    assert s[0] == w[0];
    assert CollapseSpaces(s) == [' '] + CollapseSpaces(s[k..]);
    assert s[k..] == y[SpaceRun(y)..];
  }

  /** A whitespace run of any length collapses to the same text. */
  lemma {:induction false} CollapseSpacesOfSpaces(x: string, y: string)
    requires forall i :: 0 <= i < |x| ==> IsSpace(x[i])
    requires y != [] && IsSpace(y[0])
    ensures CollapseSpaces(x + y) == [' '] + CollapseSpaces(y[SpaceRun(y)..])
  {
    if x == [] {
      assert x + y == y;
      assert y[1..][SpaceRun(y[1..])..] == y[SpaceRun(y)..];
    } else {
      CollapseSpacesOfBlock(x, y);
    }
  }

  /** One space more before a whitespace run changes nothing. */
  lemma {:induction false} CollapseSpacesAbsorbsSpace(x: string, y: string)
    requires y != [] && IsSpace(y[0])
    ensures CollapseSpaces(x + [' '] + y) == CollapseSpaces(x + y)
    decreases |x|
  {
    SpaceRunSpec(x);
    var k := SpaceRun(x);
    if k == |x| {
      assert x + [' '] + y == (x + [' ']) + y;
      CollapseSpacesOfSpaces(x + [' '], y);
      CollapseSpacesOfSpaces(x, y);
    } else if k == 0 {
      var s1, s2 := x + [' '] + y, x + y;
      assert s1[0] == x[0] && s2[0] == x[0];
      assert s1[1..] == x[1..] + [' '] + y && s2[1..] == x[1..] + y;
      CollapseSpacesAbsorbsSpace(x[1..], y);
    } else {
      var x1, x2 := x[..k], x[k..];
      assert x + [' '] + y == x1 + (x2 + [' '] + y);
      assert x + y == x1 + (x2 + y);
      assert x2[0] == x[k];
      CollapseSpacesOfBlock(x1, x2 + [' '] + y);
      CollapseSpacesOfBlock(x1, x2 + y);
      CollapseSpacesAbsorbsSpace(x2, y);
    }
  }

  /** A trailing whitespace run that stops inside `b` stops at the same place in
      `a + b`; one that covers all of `b` continues into `a`. */
  lemma {:induction false} TrailingSpaceRunAppend(a: string, b: string)
    ensures TrailingSpaceRun(a + b)
            == if TrailingSpaceRun(b) < |b| then TrailingSpaceRun(b) else |b| + TrailingSpaceRun(a)
    decreases |b|
  {
    if b == [] {
      assert a + b == a;
    } else if IsSpace(b[|b| - 1]) {
      var b' := b[..|b| - 1];
      assert (a + b)[..|a + b| - 1] == a + b';
      TrailingSpaceRunAppend(a, b');
    }
  }

  /** Leading whitespace makes no difference to `strip`. */
  lemma {:induction false} StripLeadingSpaces(w: string, x: string)
    requires forall i :: 0 <= i < |w| ==> IsSpace(w[i])
    ensures Strip(w + x) == Strip(x)
  {
    SpaceRunSpec(w);
    SpaceRunAppend(w, x);
    assert (w + x)[|w| + SpaceRun(x)..] == x[SpaceRun(x)..];
  }

  /** The texts that `strip` leaves unchanged are exactly those that neither start
      nor end with whitespace. */
  lemma {:induction false} StripFixedPoints(s: string)
    ensures Strip(s) == s <==> s == [] || (!IsSpace(s[0]) && !IsSpace(s[|s| - 1]))
  {
    if s != [] && !IsSpace(s[0]) && !IsSpace(s[|s| - 1]) {
      assert SpaceRun(s) == 0 && TrailingSpaceRun(s) == 0;
    }
  }

  /** The words of `s`: its maximal whitespace-free runs, in order, which is what
      Python's `str.split()` with no argument returns. */
  function Words(s: string): (ws: seq<string>)
    decreases |s|
  {
    if s == [] then []
    else if IsSpace(s[0]) then Words(s[1..])
    else [s[..NonSpaceRun(s)]] + Words(s[NonSpaceRun(s)..])
  }

  /** Every word is non-empty and holds no whitespace. */
  lemma {:induction false} WordsAreWords(s: string)
    ensures forall j :: 0 <= j < |Words(s)| ==> Words(s)[j] != [] && forall i :: 0 <= i < |Words(s)[j]| ==> !IsSpace(Words(s)[j][i])
    decreases |s|
  {
    NonSpaceRunSpec(s);
    if s != [] {
      if IsSpace(s[0]) {
        WordsAreWords(s[1..]);
      } else {
        var n := NonSpaceRun(s);
        WordsAreWords(s[n..]);
        var ws := Words(s);
        assert ws == [s[..n]] + Words(s[n..]);
        assert forall j :: 1 <= j < |ws| ==> ws[j] == Words(s[n..])[j - 1];
      }
    }
  }

  /** `" ".join(ws)`. */
  function JoinWords(ws: seq<string>): (r: string)
  {
    if ws == [] then ""
    else if |ws| == 1 then ws[0]
    else ws[0] + " " + JoinWords(ws[1..])
  }

  /** Leading whitespace holds no word. */
  lemma {:induction false} WordsSkipSpaces(s: string)
    ensures Words(s) == Words(s[SpaceRun(s)..])
    decreases |s|
  {
    if s != [] && IsSpace(s[0]) {
      WordsSkipSpaces(s[1..]);
      assert s[1..][SpaceRun(s[1..])..] == s[SpaceRun(s)..];
    }
  }

  /** A text has no words exactly when it is all whitespace. */
  lemma {:induction false} WordsOfBlank(s: string)
    ensures Words(s) == [] <==> forall i :: 0 <= i < |s| ==> IsSpace(s[i])
    decreases |s|
  {
    if s != [] && IsSpace(s[0]) {
      WordsOfBlank(s[1..]);
      assert forall i :: 1 <= i < |s| ==> s[i] == s[1..][i - 1];
    }
  }

  /** A text that does not start with whitespace loses only its trailing
      whitespace to `strip`. */
  lemma {:induction false} StripTrailing(x: string)
    requires x == [] || !IsSpace(x[0])
    ensures Strip(x) == x[..|x| - TrailingSpaceRun(x)]
  {
    assert SpaceRun(x) == 0;
    assert x[0..] == x;
  }

  /** `strip` of a word, a space and a text that starts with a non-whitespace
      character strips only the end of that text. */
  lemma {:induction false} StripAfterWord(w: string, c: string)
    requires w != [] && !IsSpace(w[0])
    requires c != [] && !IsSpace(c[0])
    ensures Strip(w + [' '] + c) == w + [' '] + Strip(c)
  {
    TrailingSpaceRunSpec(c);
    var x := w + [' '] + c;
    assert TrailingSpaceRun(c) < |c|;
    assert x == (w + [' ']) + c;
    TrailingSpaceRunAppend(w + [' '], c);
    StripTrailing(x);
    StripTrailing(c);
    assert x[..|x| - TrailingSpaceRun(c)] == w + [' '] + c[..|c| - TrailingSpaceRun(c)];
  }

  /** `strip` of a word followed by whitespace only is the word. */
  lemma {:induction false} StripWordThenBlank(w: string, c: string)
    requires w != [] && !IsSpace(w[0]) && !IsSpace(w[|w| - 1])
    requires forall i :: 0 <= i < |c| ==> IsSpace(c[i])
    ensures Strip(w + c) == w
  {
    TrailingSpaceRunSpec(c);
    TrailingSpaceRunSpec(w);
    TrailingSpaceRunAppend(w, c);
    assert TrailingSpaceRun(c) == |c|;
    assert TrailingSpaceRun(w) == 0;
    StripTrailing(w + c);
    assert (w + c)[..|w|] == w;
  }

  /** The whitespace of an all-whitespace text collapses to whitespace only. */
  lemma {:induction false} CollapseSpacesOfBlank(s: string)
    requires forall i :: 0 <= i < |s| ==> IsSpace(s[i])
    ensures forall i :: 0 <= i < |CollapseSpaces(s)| ==> IsSpace(CollapseSpaces(s)[i])
  {
    CollapseSpacesShape(s);
  }

  /** `strip` of a word followed by collapsed whitespace-only text is the word. */
  lemma {:induction false} CollapseStripWordThenBlank(w: string, rest: string)
    requires w != [] && forall i :: 0 <= i < |w| ==> !IsSpace(w[i])
    requires forall i :: 0 <= i < |rest| ==> IsSpace(rest[i])
    ensures Strip(w + CollapseSpaces(rest)) == w
  {
    CollapseSpacesOfBlank(rest);
    StripWordThenBlank(w, CollapseSpaces(rest));
  }

  /** `strip` of a word followed by a space and a text that starts with a
      non-whitespace character keeps the word and the space. */
  lemma {:induction false} StripWordThenSpaced(w: string, x: string, c: string)
    requires w != [] && !IsSpace(w[0])
    requires x == [' '] + c && c != [] && !IsSpace(c[0])
    ensures Strip(w + x) == w + " " + Strip(x)
  {
    StripLeadingSpaces([' '], c);
    StripAfterWord(w, c);
    assert w + x == w + [' '] + c;
  }

  /** A text that starts with whitespace and holds a word collapses to one space
      followed by a text that starts with a non-whitespace character. */
  lemma {:induction false} CollapseSpacesBeforeWords(rest: string)
    requires rest != [] && IsSpace(rest[0]) && Words(rest) != []
    ensures CollapseSpaces(rest) == [' '] + CollapseSpaces(rest[SpaceRun(rest)..])
    ensures CollapseSpaces(rest[SpaceRun(rest)..]) != []
    ensures !IsSpace(CollapseSpaces(rest[SpaceRun(rest)..])[0])
  {
    SpaceRunSpec(rest);
    var rest' := rest[SpaceRun(rest)..];
    WordsSkipSpaces(rest);
    assert rest' != [] && !IsSpace(rest'[0]);
  }

  /** `strip` of a word followed by collapsed text that holds more words keeps the
      word, one space and the stripped rest. */
  lemma {:induction false} CollapseStripWordThenWords(w: string, rest: string)
    requires w != [] && forall i :: 0 <= i < |w| ==> !IsSpace(w[i])
    requires rest != [] && IsSpace(rest[0]) && Words(rest) != []
    ensures Strip(w + CollapseSpaces(rest)) == w + " " + Strip(CollapseSpaces(rest))
  {
    CollapseSpacesBeforeWords(rest);
    StripWordThenSpaced(w, CollapseSpaces(rest), CollapseSpaces(rest[SpaceRun(rest)..]));
  }

  /** The inductive step of `CollapseStripJoinsWords` for a text that starts with a
      word `w`, followed by `rest`, which starts with whitespace or is empty. */
  lemma {:induction false} CollapseStripAfterWord(w: string, rest: string)
    requires w != [] && forall i :: 0 <= i < |w| ==> !IsSpace(w[i])
    requires rest == [] || IsSpace(rest[0])
    requires Strip(CollapseSpaces(rest)) == JoinWords(Words(rest))
    ensures Strip(w + CollapseSpaces(rest)) == JoinWords([w] + Words(rest))
  {
    WordsOfBlank(rest);
    if Words(rest) == [] {
      CollapseStripWordThenBlank(w, rest);
      assert [w] + Words(rest) == [w];
    } else {
      CollapseStripWordThenWords(w, rest);
      assert ([w] + Words(rest))[1..] == Words(rest);
    }
  }

  /** A leading word passes whitespace collapsing unchanged. */
  lemma {:induction false} CollapseSpacesAfterWord(s: string)
    requires s != [] && !IsSpace(s[0])
    ensures CollapseSpaces(s) == s[..NonSpaceRun(s)] + CollapseSpaces(s[NonSpaceRun(s)..])
  {
    NonSpaceRunSpec(s);
    var n := NonSpaceRun(s);
    var w, rest := s[..n], s[n..];
    assert s == w + rest;
    CollapseSpacesFixedPoints(w);
    CollapseSpacesAppend(w, rest);
  }

  /** The inductive step of `CollapseStripJoinsWords` for a text that starts with
      whitespace. */
  lemma {:induction false} CollapseStripAfterSpace(s: string)
    requires s != [] && IsSpace(s[0])
    requires Strip(CollapseSpaces(s[SpaceRun(s)..])) == JoinWords(Words(s[SpaceRun(s)..]))
    ensures Strip(CollapseSpaces(s)) == JoinWords(Words(s))
  {
    var s' := s[SpaceRun(s)..];
    assert CollapseSpaces(s) == [' '] + CollapseSpaces(s');
    StripLeadingSpaces([' '], CollapseSpaces(s'));
    WordsSkipSpaces(s);
  }

  /** Collapsing whitespace and then stripping is joining the words with single
      spaces: the last pass of the normaliser is Python's `" ".join(s.split())`. */
  lemma {:induction false} CollapseStripJoinsWords(s: string)
    ensures Strip(CollapseSpaces(s)) == JoinWords(Words(s))
    decreases |s|
  {
    NonSpaceRunSpec(s);
    if s == [] {
    } else if IsSpace(s[0]) {
      CollapseStripJoinsWords(s[SpaceRun(s)..]);
      CollapseStripAfterSpace(s);
    } else {
      var n := NonSpaceRun(s);
      var w, rest := s[..n], s[n..];
      CollapseStripJoinsWords(rest);
      CollapseSpacesAfterWord(s);
      CollapseStripAfterWord(w, rest);
      assert Words(s) == [w] + Words(rest);
    }
  }

  // ---------------------------------------------------------------------------
  // The whole normaliser: output shape and fixed points
  // ---------------------------------------------------------------------------

  /** The texts that lower-casing leaves unchanged are exactly those without an
      upper-case letter. */
  lemma {:induction false} LowerFixedPoints(s: string)
    ensures Lower(s) == s <==> forall i :: 0 <= i < |s| ==> !IsUpper(s[i])
  {
    LowerChars(s);
    if forall i :: 0 <= i < |s| ==> !IsUpper(s[i]) {
      assert forall i :: 0 <= i < |s| ==> Lower(s)[i] == s[i];
    }
  }

  /** The shape of every normalised text: lower-case letters and single spaces,
      with no space at either end. */
  predicate IsCleanShape(t: string)
  {
    && (forall i :: 0 <= i < |t| ==> IsLower(t[i]) || t[i] == ' ')
    && (t == [] || (t[0] != ' ' && t[|t| - 1] != ' '))
    && (forall i :: 0 <= i < |t| - 1 ==> t[i] != ' ' || t[i + 1] != ' ')
  }

  /** The normaliser's last pass joins the words of the text left by the first three. */
  lemma {:induction false} CleanTextJoinsWords(s: string)
    ensures CleanText(s) == JoinWords(Words(RemoveSymbols(RemoveUrls(Lower(s)))))
  {
    CollapseStripJoinsWords(RemoveSymbols(RemoveUrls(Lower(s))));
  }

  /** Every character left after the third pass is a lower-case letter or whitespace. */
  lemma {:induction false} SymbolsRemovedAlphabet(s: string)
    ensures forall c :: c in RemoveSymbols(RemoveUrls(Lower(s))) ==> IsLower(c) || IsSpace(c)
  {
    var l := Lower(s);
    var u := RemoveUrls(l);
    RemoveSymbolsMembers(u);
    RemoveUrlsMembers(l);
    LowerChars(s);
    assert forall c :: c in l ==> !IsUpper(c);
  }

  /** Collapsing a text of lower-case letters and whitespace leaves lower-case
      letters and single spaces. */
  lemma {:induction false} CollapseSpacesAlphabet(x: string)
    requires forall c :: c in x ==> IsLower(c) || IsSpace(c)
    ensures forall i :: 0 <= i < |CollapseSpaces(x)| ==> IsLower(CollapseSpaces(x)[i]) || CollapseSpaces(x)[i] == ' '
    ensures forall i :: 0 <= i < |CollapseSpaces(x)| - 1 ==> CollapseSpaces(x)[i] != ' ' || CollapseSpaces(x)[i + 1] != ' '
  {
    CollapseSpacesShape(x);
  }

  /** `strip` turns a text of lower-case letters and single spaces into a text of
      the clean shape. */
  lemma {:induction false} StripCleanShape(c: string)
    requires forall i :: 0 <= i < |c| ==> IsLower(c[i]) || c[i] == ' '
    requires forall i :: 0 <= i < |c| - 1 ==> c[i] != ' ' || c[i + 1] != ' '
    ensures IsCleanShape(Strip(c))
  {
    StripSlice(c);
    StripEnds(c);
    var r, k := Strip(c), SpaceRun(c);
    assert forall i :: 0 <= i < |r| ==> r[i] == c[k + i];
  }

  /** Whatever the input, the normaliser returns a text of the clean shape. */
  lemma {:induction false} CleanTextShape(s: string)
    ensures IsCleanShape(CleanText(s))
  {
    var x := RemoveSymbols(RemoveUrls(Lower(s)));
    SymbolsRemovedAlphabet(s);
    CollapseSpacesAlphabet(x);
    StripCleanShape(CollapseSpaces(x));
  }

  /** A clean-shaped text without a match of `http\S+` passes every pass unchanged. */
  lemma {:induction false} CleanTextKeepsCleanText(t: string)
    ensures IsCleanShape(t) && NoUrl(t) ==> CleanText(t) == t
  {
    if IsCleanShape(t) && NoUrl(t) {
      assert Lower(t) == t by {
        LowerFixedPoints(t);
      }
      assert RemoveUrls(t) == t by {
        RemoveUrlsFixedPoints(t);
      }
      assert RemoveSymbols(t) == t by {
        RemoveSymbolsFixedPoints(t);
      }
      assert CollapseSpaces(t) == t by {
        CollapseSpacesFixedPoints(t);
      }
      StripFixedPoints(t);
    }
  }

  /** A text without an upper-case letter that the normaliser leaves unchanged holds
      no match of `http\S+`: deleting one would make it shorter, and no pass
      lengthens a text. */
  lemma {:induction false} CleanTextFixedHasNoUrl(t: string)
    requires forall i :: 0 <= i < |t| ==> !IsUpper(t[i])
    ensures CleanText(t) == t ==> NoUrl(t)
  {
    assert Lower(t) == t by {
      LowerFixedPoints(t);
    }
    RemoveUrlsShortens(t);
    RemoveUrlsFixedPoints(t);
    assert |CleanText(t)| <= |RemoveUrls(t)|;
  }

  /** The normaliser leaves a text unchanged exactly when the text already has the
      clean shape and holds no match of `http\S+`. */
  lemma {:induction false} CleanTextFixedPoints(t: string)
    ensures CleanText(t) == t <==> IsCleanShape(t) && NoUrl(t)
  {
    CleanTextShape(t);
    CleanTextKeepsCleanText(t);
    if CleanText(t) == t {
      CleanTextFixedHasNoUrl(t);
    }
  }

  /** Normalising twice is normalising once exactly when the normalised text holds
      no match of `http\S+`: deleting symbols can join a URL back together, as in
      `htt!pxy`, whose normal form `httpxy` normalises to the empty text. */
  lemma {:induction false} CleanTextIdempotentIff(s: string)
    ensures CleanText(CleanText(s)) == CleanText(s) <==> NoUrl(CleanText(s))
  {
    CleanTextShape(s);
    CleanTextFixedPoints(CleanText(s));
  }

  /** A text of whitespace only normalises to the empty text. */
  lemma {:induction false} CleanTextOfBlank(s: string)
    ensures (forall i :: 0 <= i < |s| ==> IsSpace(s[i])) ==> CleanText(s) == ""
  {
    if forall i :: 0 <= i < |s| ==> IsSpace(s[i]) {
      var l := Lower(s);
      assert l == s by {
        LowerFixedPoints(s);
      }
      assert NoUrl(s);
      RemoveUrlsFixedPoints(s);
      assert RemoveSymbols(s) == s by {
        RemoveSymbolsFixedPoints(s);
      }
      CleanTextJoinsWords(s);
      WordsOfBlank(s);
    }
  }

  /** URL deletion works on each side of a space. */
  lemma {:induction false} RemoveUrlsAroundSpace(x: string, z: string)
    ensures RemoveUrls(x + " " + z) == RemoveUrls(x) + " " + RemoveUrls(z)
  {
    assert x + " " + z == x + (" " + z);
    RemoveUrlsAppend(x, " " + z);
    assert (" " + z)[1..] == z;
    assert RemoveUrls(" " + z) == " " + RemoveUrls(z);
  }

  /** URL deletion keeps any leading whitespace character and goes on after it:
      no match starts with whitespace. */
  lemma {:induction false} RemoveUrlsSpaceHead(c: char, t: string)
    requires IsSpace(c)
    ensures RemoveUrls([c] + t) == [c] + RemoveUrls(t)
  {
    assert ([c] + t)[1..] == t;
  }

  /** The first pass on a text that is cut in three by two spaces. */
  lemma {:induction false} LowerAroundToken(a: string, u: string, b: string)
    ensures Lower(a + " " + u + " " + b) == Lower(a) + " " + (Lower(u) + " " + Lower(b))
    ensures Lower(a + " " + b) == Lower(a) + " " + Lower(b)
  {
    assert Lower(" ") == " " by {
      assert Lower(" ")[0] == ' ';
    }
    assert Lower(a + " " + u + " " + b) == Lower(a + " " + u + " ") + Lower(b) by {
      LowerAppend(a + " " + u + " ", b);
    }
    assert Lower(a + " " + u + " ") == Lower(a + " " + u) + " " by {
      LowerAppend(a + " " + u, " ");
    }
    assert Lower(a + " " + u) == Lower(a + " ") + Lower(u) by {
      LowerAppend(a + " ", u);
    }
    assert Lower(a + " ") == Lower(a) + " " by {
      LowerAppend(a, " ");
    }
    assert Lower(a + " " + b) == Lower(a + " ") + Lower(b) by {
      LowerAppend(a + " ", b);
    }
    var la, lu, lb := Lower(a), Lower(u), Lower(b);
    assert la + " " + lu + " " + lb == la + " " + (lu + " " + lb);
  }

  /** The first two passes turn a URL token between two spaces into two adjacent
      spaces. */
  lemma {:induction false} RemoveUrlsAroundToken(la: string, lu: string, lb: string)
    requires forall i :: 0 <= i < |lu| ==> !IsSpace(lu[i])
    requires UrlAt(lu, 0)
    ensures RemoveUrls(la + " " + (lu + " " + lb)) == RemoveUrls(la) + "  " + RemoveUrls(lb)
  {
    RemoveUrlsAroundSpace(la, lu + " " + lb);
    assert RemoveUrls(lu + " " + lb) == RemoveUrls(" " + lb) by {
      assert lu + " " + lb == lu + (" " + lb);
      RemoveUrlsDeletesToken(lu, " " + lb);
    }
    assert RemoveUrls(" " + lb) == " " + RemoveUrls(lb) by {
      assert " " + lb == [] + " " + lb;
      RemoveUrlsAroundSpace([], lb);
    }
    assert RemoveUrls(la) + " " + (" " + RemoveUrls(lb)) == RemoveUrls(la) + "  " + RemoveUrls(lb);
  }

  /** Symbol deletion keeps a block of whitespace and works on each side of it. */
  lemma {:induction false} RemoveSymbolsAroundSpaces(x: string, w: string, y: string)
    requires forall i :: 0 <= i < |w| ==> IsSpace(w[i])
    ensures RemoveSymbols(x + w + y) == RemoveSymbols(x) + w + RemoveSymbols(y)
  {
    RemoveSymbolsAppend(x + w, y);
    RemoveSymbolsAppend(x, w);
    RemoveSymbolsFixedPoints(w);
  }

  /** Two adjacent spaces collapse as one does. */
  lemma {:induction false} CollapseSpacesDoubleSpace(x: string, y: string)
    ensures CollapseSpaces(x + "  " + y) == CollapseSpaces(x + " " + y)
  {
    assert x + "  " + y == x + [' '] + ([' '] + y);
    assert x + " " + y == x + ([' '] + y);
    CollapseSpacesAbsorbsSpace(x, [' '] + y);
  }

  /** The first two passes on a text with a URL token between two spaces. */
  lemma {:induction false} UrlPassesAroundToken(a: string, u: string, b: string)
    requires forall i :: 0 <= i < |u| ==> !IsSpace(u[i])
    requires UrlAt(Lower(u), 0)
    ensures RemoveUrls(Lower(a + " " + u + " " + b)) == RemoveUrls(Lower(a)) + "  " + RemoveUrls(Lower(b))
    ensures RemoveUrls(Lower(a + " " + b)) == RemoveUrls(Lower(a)) + " " + RemoveUrls(Lower(b))
  {
    LowerAroundToken(a, u, b);
    assert forall i :: 0 <= i < |Lower(u)| ==> !IsSpace(Lower(u)[i]) by {
      LowerChars(u);
    }
    RemoveUrlsAroundToken(Lower(a), Lower(u), Lower(b));
    RemoveUrlsAroundSpace(Lower(a), Lower(b));
  }

  /** A whitespace-delimited token that the first pass turns into a match of
      `http\S+`, which is any token starting with `http` in any letter case and
      longer than `http`, disappears from the normal form together with one of the
      spaces around it. */
  lemma {:induction false} UrlTokenVanishes(a: string, u: string, b: string)
    requires forall i :: 0 <= i < |u| ==> !IsSpace(u[i])
    requires UrlAt(Lower(u), 0)
    ensures CleanText(a + " " + u + " " + b) == CleanText(a + " " + b)
  {
    UrlPassesAroundToken(a, u, b);
    var x, y := RemoveUrls(Lower(a)), RemoveUrls(Lower(b));
    RemoveSymbolsAroundSpaces(x, "  ", y);
    RemoveSymbolsAroundSpaces(x, " ", y);
    CollapseSpacesDoubleSpace(RemoveSymbols(x), RemoveSymbols(y));
  }

  // ---------------------------------------------------------------------------
  // Word by word: the example of a phishing sentence with a link
  // ---------------------------------------------------------------------------

  /** The first three passes work on each side of a space separately. */
  lemma {:induction false} FirstPassesAroundSpace(x: string, z: string)
    ensures FirstPasses(x + " " + z) == FirstPasses(x) + " " + FirstPasses(z)
  {
    LowerAppend(x + " ", z);
    LowerAppend(x, " ");
    assert Lower(" ") == " ";
    RemoveUrlsAroundSpace(Lower(x), Lower(z));
    var ux, uz := RemoveUrls(Lower(x)), RemoveUrls(Lower(z));
    RemoveSymbolsAppend(ux + " ", uz);
    RemoveSymbolsAppend(ux, " ");
    assert RemoveSymbols(" ") == " ";
  }

  /** Seven words joined by single spaces go through the first three passes
      word by word. */
  lemma {:induction false} FirstPassesOfWords(w1: string, w2: string, w3: string, w4: string, w5: string, w6: string, w7: string)
    ensures FirstPasses(w1 + " " + w2 + " " + w3 + " " + w4 + " " + w5 + " " + w6 + " " + w7)
         == FirstPasses(w1) + " " + FirstPasses(w2) + " " + FirstPasses(w3) + " " + FirstPasses(w4) + " "
            + FirstPasses(w5) + " " + FirstPasses(w6) + " " + FirstPasses(w7)
  {
    FirstPassesAroundSpace(w1, w2);
    FirstPassesAroundSpace(w1 + " " + w2, w3);
    FirstPassesAroundSpace(w1 + " " + w2 + " " + w3, w4);
    FirstPassesAroundSpace(w1 + " " + w2 + " " + w3 + " " + w4, w5);
    FirstPassesAroundSpace(w1 + " " + w2 + " " + w3 + " " + w4 + " " + w5, w6);
    FirstPassesAroundSpace(w1 + " " + w2 + " " + w3 + " " + w4 + " " + w5 + " " + w6, w7);
  }

  /** Lower-casing leaves a text without upper-case letters alone. */
  lemma {:induction false} LowerKeepsNoUpper(s: string)
    requires forall i :: 0 <= i < |s| ==> !IsUpper(s[i])
    ensures Lower(s) == s
  {
    LowerFixedPoints(s);
  }

  /** A lower-case word holding no match passes the first three passes unchanged. */
  lemma {:induction false} FirstPassesKeepPlainWord(w: string)
    requires forall i :: 0 <= i < |w| ==> IsLower(w[i])
    requires NoUrl(w)
    ensures FirstPasses(w) == w
  {
    LowerFixedPoints(w);
    RemoveUrlsKeepsPlainText(w);
    RemoveSymbolsFixedPoints(w);
  }

  /** Two non-empty texts of the clean shape joined by one space have the clean shape. */
  lemma {:induction false} CleanShapeAroundSpace(x: string, y: string)
    requires x != [] && y != [] && IsCleanShape(x) && IsCleanShape(y)
    ensures IsCleanShape(x + " " + y)
  {
    var t := x + " " + y;
    assert forall i :: 0 <= i < |x| ==> t[i] == x[i];
    assert t[|x|] == ' ';
    assert forall i :: |x| < i < |t| ==> t[i] == y[i - |x| - 1];
  }

  /** The last pass leaves a text of the clean shape unchanged. */
  lemma {:induction false} LastPassKeepsCleanShape(t: string)
    requires IsCleanShape(t)
    ensures Strip(CollapseSpaces(t)) == t
  {
    assert SingleSpaced(t);
    CollapseSpacesFixedPoints(t);
    StripFixedPoints(t);
  }

  /** The capital of `Click` is lower-cased. */
  lemma {:induction false} ExampleFirstWord()
    ensures FirstPasses("Click") == "click"
  {
    assert Lower("Click") == "click";
    FirstPassesKeepPlainWord("click");
  }

  /** The exclamation marks of `now!!!` are deleted. */
  lemma {:induction false} ExampleLastWord(w: string)
    requires w == "now!!!"
    ensures FirstPasses(w) == "now"
  {
    LowerKeepsNoUpper(w);
    assert NoUrl(w);
    RemoveUrlsKeepsPlainText(w);
    RemoveSymbolsAppend("now", "!!!");
    assert "now" + "!!!" == w;
    RemoveSymbolsFixedPoints("now");
  }

  /** The plain words in the middle of the example pass unchanged. */
  lemma {:induction false} ExampleMiddleWords(w2: string, w3: string, w4: string, w5: string, w6: string)
    requires w2 == "here" && w3 == "to" && w4 == "verify" && w5 == "your" && w6 == "account"
    ensures FirstPasses(w2) == w2 && FirstPasses(w3) == w3 && FirstPasses(w4) == w4
    ensures FirstPasses(w5) == w5 && FirstPasses(w6) == w6
  {
    FirstPassesKeepPlainWord(w2);
    FirstPassesKeepPlainWord(w3);
    FirstPassesKeepPlainWord(w4);
    FirstPassesKeepPlainWord(w5);
    FirstPassesKeepPlainWord(w6);
  }

  /** The normalised words of the example, joined, have the clean shape. */
  lemma {:induction false} ExampleShape(w1: string, w2: string, w3: string, w4: string, w5: string, w6: string, w7: string)
    requires w1 == "click" && w2 == "here" && w3 == "to" && w4 == "verify"
    requires w5 == "your" && w6 == "account" && w7 == "now"
    ensures IsCleanShape(w1 + " " + w2 + " " + w3 + " " + w4 + " " + w5 + " " + w6 + " " + w7)
  {
    assert IsCleanShape(w1) && IsCleanShape(w2) && IsCleanShape(w3) && IsCleanShape(w4);
    assert IsCleanShape(w5) && IsCleanShape(w6) && IsCleanShape(w7);
    CleanShapeAroundSpace(w1, w2);
    CleanShapeAroundSpace(w1 + " " + w2, w3);
    CleanShapeAroundSpace(w1 + " " + w2 + " " + w3, w4);
    CleanShapeAroundSpace(w1 + " " + w2 + " " + w3 + " " + w4, w5);
    CleanShapeAroundSpace(w1 + " " + w2 + " " + w3 + " " + w4 + " " + w5, w6);
    CleanShapeAroundSpace(w1 + " " + w2 + " " + w3 + " " + w4 + " " + w5 + " " + w6, w7);
  }

  /** The example text without its link, as its seven words. */
  lemma ExampleInputWords()
    ensures "Click" + " " + "here" + " " + "to" + " " + "verify" + " " + "your" + " " + "account" + " " + "now!!!"
         == "Click here to verify your account now!!!"
  {
    assert "Click" + " " + "here" + " " + "to" == "Click here to";
    assert "Click here to" + " " + "verify" + " " + "your" == "Click here to verify your";
    assert "Click here to verify your" + " " + "account" + " " + "now!!!" == "Click here to verify your account now!!!";
  }

  /** The normalised example, as its seven words. */
  lemma ExampleOutputWords()
    ensures "click" + " " + "here" + " " + "to" + " " + "verify" + " " + "your" + " " + "account" + " " + "now"
         == "click here to verify your account now"
  {
    assert "click" + " " + "here" + " " + "to" == "click here to";
    assert "click here to" + " " + "verify" + " " + "your" == "click here to verify your";
    assert "click here to verify your" + " " + "account" + " " + "now" == "click here to verify your account now";
  }

  /** The example text without its link normalises to its lower-cased words. */
  lemma {:induction false} ExampleLinkFree(s: string)
    requires s == "Click here to verify your account now!!!"
    ensures CleanText(s) == "click here to verify your account now"
  {
    ExampleInputWords();
    FirstPassesOfWords("Click", "here", "to", "verify", "your", "account", "now!!!");
    ExampleFirstWord();
    ExampleLastWord("now!!!");
    ExampleMiddleWords("here", "to", "verify", "your", "account");
    ExampleShape("click", "here", "to", "verify", "your", "account", "now");
    ExampleOutputWords();
    LastPassKeepsCleanShape("click here to verify your account now");
  }

  /** The example text cut around its link. */
  lemma ExampleSplitLink()
    ensures "Click here" + " " + "http://evil.com" == "Click here http://evil.com"
  {
  }

  lemma ExampleJoinLink()
    ensures "Click here http://evil.com" + " " + "to verify your account now!!!"
         == "Click here http://evil.com to verify your account now!!!"
  {
    assert "Click here http://evil.com" + " " == "Click here http://evil.com ";
  }

  lemma ExampleJoinAroundLink()
    ensures "Click here" + " " + "to verify your account now!!!" == "Click here to verify your account now!!!"
  {
    assert "Click here" + " " == "Click here ";
  }

  /** The link of the example is one whitespace-free token that matches. */
  lemma {:induction false} ExampleLink(u: string)
    requires u == "http://evil.com"
    ensures forall i :: 0 <= i < |u| ==> !IsSpace(u[i])
    ensures UrlAt(Lower(u), 0)
  {
    LowerKeepsNoUpper(u);
  }

  /** Removing the link of the example leaves its normal form unchanged. */
  lemma {:induction false} ExampleWithoutLink(a: string, u: string, b: string)
    requires a == "Click here" && u == "http://evil.com" && b == "to verify your account now!!!"
    ensures CleanText(a + " " + u + " " + b) == CleanText(a + " " + b)
  {
    ExampleLink(u);
    UrlTokenVanishes(a, u, b);
  }

  /** A phishing sentence with a link: the link, the capital and the exclamation
      marks go, the words stay. */
  lemma {:induction false} CleanTextExample(s: string)
    requires s == "Click here http://evil.com to verify your account now!!!"
    ensures CleanText(s) == "click here to verify your account now"
  {
    ExampleSplitLink();
    ExampleJoinLink();
    ExampleJoinAroundLink();
    ExampleWithoutLink("Click here", "http://evil.com", "to verify your account now!!!");
    ExampleLinkFree("Click here to verify your account now!!!");
  }

  // ---------------------------------------------------------------------------
  // Normalising is not idempotent
  // ---------------------------------------------------------------------------

  /** Symbol deletion turns `htt!pxy` into `httpxy`. */
  lemma {:induction false} SymbolDeletionJoinsUrl()
    ensures RemoveSymbols("htt!pxy") == "httpxy"
  {
  }

  /** `htt!pxy` has no upper-case letter and no match of `http\S+`. */
  lemma {:induction false} FirstPassesKeepHttBangPxy()
    ensures RemoveUrls(Lower("htt!pxy")) == "htt!pxy"
  {
    LowerFixedPoints("htt!pxy");
    RemoveUrlsFixedPoints("htt!pxy");
  }

  /** The last pass leaves the single word `httpxy` as it is. */
  lemma {:induction false} LastPassKeepsHttpxy()
    ensures Strip(CollapseSpaces("httpxy")) == "httpxy"
  {
    assert SingleSpaced("httpxy");
    CollapseSpacesFixedPoints("httpxy");
    StripFixedPoints("httpxy");
  }

  /** Deleting the `!` of `htt!pxy` forms the word `httpxy`. */
  lemma {:induction false} CleanTextJoinsUrl()
    ensures CleanText("htt!pxy") == "httpxy"
  {
    FirstPassesKeepHttBangPxy();
    SymbolDeletionJoinsUrl();
    LastPassKeepsHttpxy();
  }


  /** `httpxy` is a URL as far as the second pass is concerned. */
  lemma {:induction false} CleanTextDeletesUrlWord()
    ensures CleanText("httpxy") == ""
  {
    var t := "httpxy";
    assert Lower(t) == t by {
      LowerFixedPoints(t);
    }
    assert RemoveUrls(t) == [] by {
      assert t + [] == t;
      RemoveUrlsDeletesToken(t, []);
    }
  }

  /** The normaliser is not idempotent: a second run deletes the URL that the
      first run's symbol deletion formed. */
  lemma {:induction false} CleanTextNotIdempotent()
    ensures CleanText(CleanText("htt!pxy")) != CleanText("htt!pxy")
  {
    CleanTextJoinsUrl();
    CleanTextDeletesUrlWord();
  }
}
