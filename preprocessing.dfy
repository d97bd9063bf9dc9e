/** `clean_response`: lower-case a survey answer, drop every character that
    is neither a word character nor whitespace, delete three boilerplate
    phrases where they stand as whole words, then collapse whitespace runs
    to one space and trim.

    Python applies these steps with Unicode semantics. The character
    classes below are Python's for the Latin-1 range U+0000..U+00FF, which
    covers Spanish text (accented vowels, n with tilde, inverted marks). */
module Preprocessing {

  // ---------------------------------------------------------------------
  // Character classes (`\s`, `\w`, `str.lower`) over Latin-1

  /** `\s` and `str.isspace`: tab..carriage return, the four information
      separators, space, NEL and no-break space. */
  predicate IsSpace(c: char) {
    ('\t' <= c <= '\r') || ('\U{1C}' <= c <= ' ') || c == '\U{85}' || c == '\U{A0}'
  }

  /** `\w`: letters, digits and other numeric characters, and '_'. In
      Latin-1 these are the ASCII letters and digits, the superscript
      digits, the vulgar fractions, the ordinal indicators, the micro sign
      and the accented letters (all of U+00C0..U+00FF except the
      multiplication and division signs). */
  predicate IsWordChar(c: char) {
    ('0' <= c <= '9') || ('A' <= c <= 'Z') || ('a' <= c <= 'z') || c == '_' ||
    c == '\U{AA}' || c == '\U{B2}' || c == '\U{B3}' || c == '\U{B5}' ||
    c == '\U{B9}' || c == '\U{BA}' || ('\U{BC}' <= c <= '\U{BE}') ||
    ('\U{C0}' <= c <= '\U{FF}' && c != '\U{D7}' && c != '\U{F7}')
  }

  /** The upper-case letters of Latin-1: those `str.lower` changes. */
  predicate IsUpper(c: char) {
    ('A' <= c <= 'Z') || ('\U{C0}' <= c <= '\U{DE}' && c != '\U{D7}')
  }

  /** `str.lower` on one Latin-1 character: each upper-case letter moves
      to its lower-case partner 32 code points up. */
  function LowerChar(c: char): (d: char)
    ensures !IsUpper(d)
    ensures IsWordChar(d) == IsWordChar(c) && IsSpace(d) == IsSpace(c)
    ensures !IsUpper(c) ==> d == c
  {
    if IsUpper(c) then (c as int + 32) as char else c
  }

  /** `str.lower`. */
  function Lower(s: string): (r: string)
    ensures |r| == |s|
    ensures forall k :: 0 <= k < |r| ==> r[k] == LowerChar(s[k])
  {
    seq(|s|, k requires 0 <= k < |s| => LowerChar(s[k]))
  }

  // ---------------------------------------------------------------------
  // re.sub(r"[^\w\s]", "", text)

  predicate Kept(c: char) {
    IsWordChar(c) || IsSpace(c)
  }

  /** Every character of `r` occurs in `s`. */
  ghost predicate CharsFrom(r: string, s: string) {
    forall k :: 0 <= k < |r| ==> r[k] in s
  }

  /** Deletes every character that is neither a word character nor
      whitespace, keeping the order of the rest. */
  function StripPunctuation(s: string): (r: string)
    ensures |r| <= |s|
    ensures forall k :: 0 <= k < |r| ==> Kept(r[k])
    ensures CharsFrom(r, s)
  {
    if s == [] then []
    else if Kept(s[0]) then [s[0]] + StripPunctuation(s[1..])
    else StripPunctuation(s[1..])
  }

  lemma {:induction false} StripPunctuationAppend(a: string, b: string)
    ensures StripPunctuation(a + b) == StripPunctuation(a) + StripPunctuation(b)
  {
    if a != [] {
      var ab := a + b;
      assert ab[0] == a[0] && ab[1..] == a[1..] + b;
      StripPunctuationAppend(a[1..], b);
      var head := if Kept(a[0]) then [a[0]] else [];
      assert StripPunctuation(ab) == head + StripPunctuation(a[1..] + b);
      assert StripPunctuation(a) == head + StripPunctuation(a[1..]);
    } else {
      assert a + b == b;
    }
  }

  /** A string of word characters and whitespace passes unchanged. */
  lemma {:induction false} StripPunctuationKeepsClean(s: string)
    requires forall k :: 0 <= k < |s| ==> Kept(s[k])
    ensures StripPunctuation(s) == s
  {
    if s != [] {
      StripPunctuationKeepsClean(s[1..]);
    }
  }

  /** A string without word characters keeps only its whitespace. */
  lemma {:induction false} StripPunctuationNoWords(s: string)
    requires forall k :: 0 <= k < |s| ==> !IsWordChar(s[k])
    ensures forall k :: 0 <= k < |StripPunctuation(s)| ==> IsSpace(StripPunctuation(s)[k])
  {
    if s != [] {
      StripPunctuationNoWords(s[1..]);
    }
  }

  // ---------------------------------------------------------------------
  // re.sub(r"\b<phrase>\b", "", text) for the three noise phrases

  const Noise: seq<string> := ["segun mi experiencia", "en mi comunidad", "personalmente hablando"]

  /** `\b<phrase>\b` matches at position i. Every noise phrase begins and
      ends with a word character, so the two boundaries mean: the phrase is
      not preceded and not followed by a word character. */
  predicate WholeWordAt(s: string, phrase: string, i: nat) {
    i + |phrase| <= |s| && s[i..i + |phrase|] == phrase &&
    (i == 0 || !IsWordChar(s[i - 1])) &&
    (i + |phrase| == |s| || !IsWordChar(s[i + |phrase|]))
  }

  /** What `re.sub` leaves of s[i..] when it scans from position i: a match
      at the scan position is deleted and scanning resumes right after it;
      otherwise one character is kept. The boundary tests look at the
      original string, as the regex engine does. */
  function RemovePhraseFrom(s: string, phrase: string, i: nat): (r: string)
    requires |phrase| > 0 && i <= |s|
    ensures |r| <= |s| - i
    ensures forall k :: 0 <= k < |r| ==> r[k] in s[i..]
    decreases |s| - i
  {
    if i + |phrase| > |s| then s[i..]
    else if WholeWordAt(s, phrase, i) then RemovePhraseFrom(s, phrase, i + |phrase|)
    else
      var rest := RemovePhraseFrom(s, phrase, i + 1);
      assert forall k :: 0 <= k < |rest| ==> rest[k] in s[i..] by {
        assert forall c :: c in s[i + 1..] ==> c in s[i..] by { assert s[i..] == [s[i]] + s[i + 1..]; }
      }
      [s[i]] + rest
  }

  function RemovePhrase(s: string, phrase: string): (r: string)
    requires |phrase| > 0
    ensures |r| <= |s| && CharsFrom(r, s)
  {
    assert s[0..] == s;
    RemovePhraseFrom(s, phrase, 0)
  }

  /** The loop over `noise_patterns`: each pass works on the previous
      pass's output. */
  function RemoveNoise(s: string): (r: string)
    ensures |r| <= |s| && CharsFrom(r, s)
  {
    RemovePhrase(RemovePhrase(RemovePhrase(s, Noise[0]), Noise[1]), Noise[2])
  }

  /** No whole-word occurrence of `phrase` starts at or after i. */
  ghost predicate NoMatchFrom(s: string, phrase: string, i: nat) {
    forall j :: i <= j <= |s| ==> !WholeWordAt(s, phrase, j)
  }

  /** Without a whole-word occurrence the pass changes nothing. */
  lemma {:induction false} RemovePhraseNoMatch(s: string, phrase: string, i: nat)
    requires |phrase| > 0 && i <= |s|
    requires NoMatchFrom(s, phrase, i)
    ensures RemovePhraseFrom(s, phrase, i) == s[i..]
    decreases |s| - i
  {
    if i + |phrase| <= |s| {
      RemovePhraseNoMatch(s, phrase, i + 1);
      assert s[i..] == [s[i]] + s[i + 1..];
    }
  }

  // ---------------------------------------------------------------------
  // re.sub(r"\s+", " ", text).strip()

  /** Replaces every maximal run of whitespace by one space; `inRun` says
      that the character before s was whitespace of the current run. */
  function Collapse(s: string, inRun: bool): (r: string)
    ensures |r| <= |s|
    ensures forall k :: 0 <= k < |r| ==> r[k] in s || r[k] == ' '
    ensures forall k :: 0 <= k < |r| ==> IsSpace(r[k]) ==> r[k] == ' '
    ensures forall k :: 0 <= k < |r| - 1 ==> !(IsSpace(r[k]) && IsSpace(r[k + 1]))
    ensures inRun && |r| > 0 ==> !IsSpace(r[0])
  {
    if s == [] then []
    else if IsSpace(s[0]) then
      if inRun then Collapse(s[1..], true) else [' '] + Collapse(s[1..], true)
    else [s[0]] + Collapse(s[1..], false)
  }

  /** `str.strip()`: drops leading and trailing whitespace. */
  function TrimStart(s: string): (r: string)
    ensures |r| <= |s| && r == s[|s| - |r|..]
    ensures |r| > 0 ==> !IsSpace(r[0])
  {
    if s != [] && IsSpace(s[0]) then TrimStart(s[1..]) else s
  }

  function TrimEnd(s: string): (r: string)
    ensures |r| <= |s| && r == s[..|r|]
    ensures |r| > 0 ==> !IsSpace(r[|r| - 1])
  {
    if s != [] && IsSpace(s[|s| - 1]) then TrimEnd(s[..|s| - 1]) else s
  }

  function Trim(s: string): (r: string)
    ensures |r| <= |s|
    ensures |r| > 0 ==> !IsSpace(r[0]) && !IsSpace(r[|r| - 1])
  {
    var t := TrimStart(s);
    var r := TrimEnd(t);
    assert |r| > 0 ==> r[0] == t[0];
    r
  }

  /** A trimmed string is a slice of its input with no whitespace at
      either end. */
  lemma TrimIsSlice(s: string)
    ensures exists a, b :: 0 <= a <= b <= |s| && Trim(s) == s[a..b]
    ensures |Trim(s)| > 0 ==> !IsSpace(Trim(s)[0]) && !IsSpace(Trim(s)[|Trim(s)| - 1])
  {
    var t := TrimStart(s);
    var r := TrimEnd(t);
    assert t == s[|s| - |t|..];
    assert r == t[..|r|] == s[|s| - |t|..|s| - |t| + |r|];
    if |r| > 0 {
      assert r[0] == t[0];
    }
  }

  /** A whitespace-free-at-the-ends string is its own trim. */
  lemma TrimTrimmed(s: string)
    requires |s| > 0 ==> !IsSpace(s[0]) && !IsSpace(s[|s| - 1])
    ensures Trim(s) == s
  {
  }

  /** A string whose only whitespace is single spaces is its own collapse. */
  lemma {:induction false} CollapseSingleSpaced(s: string, inRun: bool)
    requires forall k :: 0 <= k < |s| ==> IsSpace(s[k]) ==> s[k] == ' '
    requires forall k :: 0 <= k < |s| - 1 ==> !(IsSpace(s[k]) && IsSpace(s[k + 1]))
    requires inRun && |s| > 0 ==> !IsSpace(s[0])
    ensures Collapse(s, inRun) == s
  {
    if s != [] {
      CollapseSingleSpaced(s[1..], IsSpace(s[0]));
    }
  }

  /** Collapsing a string made only of whitespace leaves at most one space. */
  lemma CollapseAllSpace(s: string, inRun: bool)
    requires forall k :: 0 <= k < |s| ==> IsSpace(s[k])
    ensures |Collapse(s, inRun)| <= 1
  {
  }

  /** Every character left after lowering, stripping and removing the
      noise phrases is a lower-case word character or whitespace. */
  lemma DenoisedChars(text: string)
    ensures var d := RemoveNoise(StripPunctuation(Lower(text)));
      forall k :: 0 <= k < |d| ==> Kept(d[k]) && !IsUpper(d[k])
  {
    var lowered := Lower(text);
    var stripped := StripPunctuation(lowered);
    var denoised := RemoveNoise(stripped);
    forall k | 0 <= k < |denoised|
      ensures Kept(denoised[k]) && !IsUpper(denoised[k])
    {
      var i :| 0 <= i < |stripped| && stripped[i] == denoised[k];
      var l :| 0 <= l < |lowered| && lowered[l] == stripped[i];
    }
  }

  /** Collapsing keeps a string of lower-case word characters and
      whitespace free of upper case, with single spaces for the whitespace. */
  lemma CollapsedChars(s: string, inRun: bool)
    requires forall k :: 0 <= k < |s| ==> Kept(s[k]) && !IsUpper(s[k])
    ensures var r := Collapse(s, inRun);
      forall k :: 0 <= k < |r| ==> (IsWordChar(r[k]) || r[k] == ' ') && !IsUpper(r[k])
  {
  }

  /** Trimming keeps those properties, being a slice. */
  lemma TrimmedChars(s: string)
    requires forall k :: 0 <= k < |s| ==> (IsWordChar(s[k]) || s[k] == ' ') && !IsUpper(s[k])
    requires forall k :: 0 <= k < |s| - 1 ==> !(IsSpace(s[k]) && IsSpace(s[k + 1]))
    ensures var r := Trim(s);
      && (forall k :: 0 <= k < |r| ==> (IsWordChar(r[k]) || r[k] == ' ') && !IsUpper(r[k]))
      && (forall k :: 0 <= k < |r| - 1 ==> !(IsSpace(r[k]) && IsSpace(r[k + 1])))
  {
    var a, b := TrimBounds(s);
    SliceChars(s, a, b);
  }

  /** Where the trimmed text sits in its input. */
  lemma TrimBounds(s: string) returns (a: nat, b: nat)
    ensures a <= b <= |s| && Trim(s) == s[a..b]
  {
    var t := TrimStart(s);
    var r := TrimEnd(t);
    a, b := |s| - |t|, |s| - |t| + |r|;
    assert Trim(s) == r;
  }

  /** Every slice keeps those properties. */
  lemma SliceChars(s: string, a: nat, b: nat)
    requires a <= b <= |s|
    requires forall k :: 0 <= k < |s| ==> (IsWordChar(s[k]) || s[k] == ' ') && !IsUpper(s[k])
    requires forall k :: 0 <= k < |s| - 1 ==> !(IsSpace(s[k]) && IsSpace(s[k + 1]))
    ensures var r := s[a..b];
      && (forall k :: 0 <= k < |r| ==> (IsWordChar(r[k]) || r[k] == ' ') && !IsUpper(r[k]))
      && (forall k :: 0 <= k < |r| - 1 ==> !(IsSpace(r[k]) && IsSpace(r[k + 1])))
  {
    var r := s[a..b];
    forall k | 0 <= k < |r|
      ensures (IsWordChar(r[k]) || r[k] == ' ') && !IsUpper(r[k])
    {
      assert r[k] == s[a + k];
    }
    forall k | 0 <= k < |r| - 1
      ensures !(IsSpace(r[k]) && IsSpace(r[k + 1]))
    {
      assert r[k] == s[a + k] && r[k + 1] == s[a + k + 1];
    }
  }

  // ---------------------------------------------------------------------
  // clean_response

  /** The cleaned answer has no whitespace at either end and no run of two
      whitespace characters; it holds only word characters and single
      spaces, no upper-case letter, and is never longer than the input. */
  function CleanResponse(text: string): (r: string)
    ensures |r| <= |text|
    ensures forall k :: 0 <= k < |r| ==> IsWordChar(r[k]) || r[k] == ' '
    ensures forall k :: 0 <= k < |r| ==> !IsUpper(r[k])
    ensures |r| > 0 ==> !IsSpace(r[0]) && !IsSpace(r[|r| - 1])
    ensures forall k :: 0 <= k < |r| - 1 ==> !(IsSpace(r[k]) && IsSpace(r[k + 1]))
  {
    var denoised := RemoveNoise(StripPunctuation(Lower(text)));
    DenoisedChars(text);
    var collapsed := Collapse(denoised, false);
    CollapsedChars(denoised, false);
    TrimmedChars(collapsed);
    TrimIsSlice(collapsed);
    Trim(collapsed)
  }

  /** The empty answer and every answer without a word character (only
      punctuation and whitespace) clean to the empty string. */
  lemma CleanWithoutWords(text: string)
    requires forall k :: 0 <= k < |text| ==> !IsWordChar(text[k])
    ensures CleanResponse(text) == ""
  {
    var stripped := StripPunctuation(Lower(text));
    StripPunctuationNoWords(Lower(text));
    var denoised := RemoveNoise(stripped);
    assert forall k :: 0 <= k < |denoised| ==> IsSpace(denoised[k]) by {
      forall k | 0 <= k < |denoised| ensures IsSpace(denoised[k]) {
        var i :| 0 <= i < |stripped| && stripped[i] == denoised[k];
      }
    }
    CollapseAllSpace(denoised, false);
  }

  /** An answer that is already lower-case, free of punctuation, free of
      the noise phrases, single-spaced and trimmed comes back unchanged. */
  lemma CleanAlreadyClean(text: string)
    requires forall k :: 0 <= k < |text| ==> (IsWordChar(text[k]) && !IsUpper(text[k])) || text[k] == ' '
    requires |text| > 0 ==> text[0] != ' ' && text[|text| - 1] != ' '
    requires forall k :: 0 <= k < |text| - 1 ==> !(text[k] == ' ' && text[k + 1] == ' ')
    requires forall j :: 0 <= j < |Noise| ==> NoMatchFrom(text, Noise[j], 0)
    ensures CleanResponse(text) == text
  {
    assert Lower(text) == text;
    StripPunctuationKeepsClean(text);
    RemovePhraseNoMatch(text, Noise[0], 0);
    RemovePhraseNoMatch(text, Noise[1], 0);
    RemovePhraseNoMatch(text, Noise[2], 0);
    assert RemoveNoise(text) == text;
    CollapseSingleSpaced(text, false);
    TrimTrimmed(text);
  }

  // ---------------------------------------------------------------------
  // Noise appended after an answer

  /** Up to position m nothing matches, so the scan copies s[i..m]. */
  lemma {:induction false} RemovePhraseCopiesUpTo(s: string, phrase: string, i: nat, m: nat)
    requires |phrase| > 0 && i <= m <= |s|
    requires forall j :: i <= j < m ==> !WholeWordAt(s, phrase, j)
    ensures RemovePhraseFrom(s, phrase, i) == s[i..m] + RemovePhraseFrom(s, phrase, m)
    decreases m - i
  {
    if i < m && i + |phrase| <= |s| {
      RemovePhraseCopiesUpTo(s, phrase, i + 1, m);
      assert s[i..m] == [s[i]] + s[i + 1..m];
    }
  }

  /** After a space, no noise phrase can run on into the start of another
      one: the two characters following each space of a noise phrase
      differ from the first two of every noise phrase. */
  lemma NoiseSpaceFollowers(j: nat, k: nat, m: nat)
    requires j < |Noise| && k < |Noise| && m < |Noise[j]| && Noise[j][m] == ' '
    ensures m + 3 <= |Noise[j]| && (Noise[j][m + 1] != Noise[k][0] || Noise[j][m + 2] != Noise[k][1])
  {
  }

  /** No noise phrase occurs inside a different one. */
  lemma NoiseNotInsideNoise(j: nat, k: nat, o: nat)
    requires j < |Noise| && k < |Noise| && j != k && o + |Noise[j]| <= |Noise[k]|
    ensures Noise[k][o..o + |Noise[j]|] != Noise[j]
  {
    var piece := Noise[k][o..o + |Noise[j]|];
    assert Noise[k][o] != Noise[j][0] || Noise[k][o + 1] != Noise[j][1];
    assert piece[0] == Noise[k][o] && piece[1] == Noise[k][o + 1];
  }

  /** An occurrence that ends before a tail starting with a non-word
      character is an occurrence in the string without the tail. */
  lemma WholeWordInPrefix(v: string, tail: string, p: string, i: nat)
    requires |tail| > 0 && !IsWordChar(tail[0])
    requires i + |p| <= |v| && WholeWordAt(v + tail, p, i)
    ensures WholeWordAt(v, p, i)
  {
    assert (v + tail)[i..i + |p|] == v[i..i + |p|];
  }

  /** No noise phrase occurs across the space before a tail t that is
      empty or a noise phrase. */
  lemma NoMatchAcrossSpace(v: string, t: string, j: nat, i: nat)
    requires j < |Noise| && (t == "" || t in Noise)
    requires i <= |v| < i + |Noise[j]|
    ensures !WholeWordAt(v + " " + t, Noise[j], i)
  {
    var w := v + " " + t;
    var p := Noise[j];
    if WholeWordAt(w, p, i) {
      var m := |v| - i;
      assert p[m] == w[|v|] == ' ';
      var k :| 0 <= k < |Noise| && Noise[k] == (if t == "" then Noise[0] else t);
      NoiseSpaceFollowers(j, k, m);
    }
  }

  /** Before the tail `" " + t`, where t is empty or a noise phrase, a
      phrase that has no whole-word occurrence in v has none in v + " " + t
      either: an occurrence ending inside v is one of v, and none can reach
      across the space into t. */
  lemma NoMatchBeforeTail(v: string, t: string, j: nat, i: nat)
    requires j < |Noise| && NoMatchFrom(v, Noise[j], 0)
    requires t == "" || t in Noise
    requires i <= |v|
    ensures !WholeWordAt(v + " " + t, Noise[j], i)
  {
    var w := v + (" " + t);
    var p := Noise[j];
    assert v + " " + t == w;
    if WholeWordAt(w, p, i) && i + |p| <= |v| {
      WholeWordInPrefix(v, " " + t, p, i);
    } else if WholeWordAt(w, p, i) {
      NoMatchAcrossSpace(v, t, j, i);
    }
  }

  /** A slice lying after the space is a slice of the tail. */
  lemma SliceOfTail(v: string, t: string, i: nat, n: nat)
    requires |v| < i && i + n <= |v| + 1 + |t|
    ensures (v + " " + t)[i..i + n] == t[i - |v| - 1..i - |v| - 1 + n]
  {
  }

  /** Inside the tail noise phrase only that phrase itself can match. */
  lemma NoMatchInsideTail(v: string, j: nat, k: nat, i: nat)
    requires j < |Noise| && k < |Noise| && j != k
    requires |v| < i
    ensures !WholeWordAt(v + " " + Noise[k], Noise[j], i)
  {
    forall o: nat ensures !OccursAt(Noise[k], Noise[j], o) {
      if o + |Noise[j]| <= |Noise[k]| {
        NoiseNotInsideNoise(j, k, o);
      }
    }
    NoMatchWithinTail(v, Noise[k], Noise[j], i);
  }

  /** p occurs in t at offset o. */
  predicate OccursAt(t: string, p: string, o: nat) {
    o + |p| <= |t| && t[o..o + |p|] == p
  }

  /** A phrase that occurs nowhere inside t does not start inside the
      tail of v + " " + t. */
  lemma NoMatchWithinTail(v: string, t: string, p: string, i: nat)
    requires |v| < i
    requires forall o: nat :: !OccursAt(t, p, o)
    ensures !WholeWordAt(v + " " + t, p, i)
  {
    var w := v + " " + t;
    if i + |p| <= |w| {
      var o := i - |v| - 1;
      SliceOfTail(v, t, i, |p|);
      assert w[i..i + |p|] == t[o..o + |p|];
      assert !OccursAt(t, p, o);
    }
  }

  /** A pass for a phrase that occurs neither in v nor as the tail leaves
      v + " " + t alone. */
  lemma PassLeavesTail(v: string, t: string, j: nat)
    requires j < |Noise| && NoMatchFrom(v, Noise[j], 0)
    requires t == "" || (t in Noise && t != Noise[j])
    ensures RemovePhrase(v + " " + t, Noise[j]) == v + " " + t
  {
    var w := v + " " + t;
    forall i | 0 <= i <= |w| ensures !WholeWordAt(w, Noise[j], i) {
      if i <= |v| {
        NoMatchBeforeTail(v, t, j, i);
      } else if t != "" {
        var k :| 0 <= k < |Noise| && Noise[k] == t;
        NoMatchInsideTail(v, j, k, i);
      }
    }
    RemovePhraseNoMatch(w, Noise[j], 0);
  }

  /** The pass for the tail phrase deletes exactly the tail. */
  lemma PassRemovesTail(v: string, k: nat)
    requires k < |Noise| && NoMatchFrom(v, Noise[k], 0)
    ensures RemovePhrase(v + " " + Noise[k], Noise[k]) == v + " "
  {
    var w := v + " " + Noise[k];
    forall i | 0 <= i < |v| + 1 ensures !WholeWordAt(w, Noise[k], i) {
      NoMatchBeforeTail(v, Noise[k], k, i);
    }
    RemovePhraseCopiesUpTo(w, Noise[k], 0, |v| + 1);
    assert w[|v| + 1..] == Noise[k];
    assert WholeWordAt(w, Noise[k], |v| + 1);
    assert w[0..|v| + 1] == v + " ";
  }

  /** Removing the noise from an answer free of noise followed by a space
      and one noise phrase leaves the answer and the space. */
  lemma RemoveNoiseTail(v: string, k: nat)
    requires k < |Noise|
    requires forall j :: 0 <= j < |Noise| ==> NoMatchFrom(v, Noise[j], 0)
    ensures RemoveNoise(v + " " + Noise[k]) == v + " "
  {
    var w := v + " " + Noise[k];
    assert v + " " == v + " " + "";
    if k == 0 {
      PassRemovesTail(v, 0);
      PassLeavesTail(v, "", 1);
      PassLeavesTail(v, "", 2);
    } else if k == 1 {
      PassLeavesTail(v, Noise[1], 0);
      PassRemovesTail(v, 1);
      PassLeavesTail(v, "", 2);
    } else {
      PassLeavesTail(v, Noise[2], 0);
      PassLeavesTail(v, Noise[2], 1);
      PassRemovesTail(v, 2);
    }
  }

  /** A trailing space adds at most one space to the collapsed string. */
  lemma {:induction false} CollapseAppendSpace(s: string, inRun: bool)
    ensures Collapse(s + " ", inRun) == Collapse(s, inRun) ||
            Collapse(s + " ", inRun) == Collapse(s, inRun) + " "
  {
    if s != [] {
      assert (s + " ")[1..] == s[1..] + " ";
      CollapseAppendSpace(s[1..], IsSpace(s[0]));
    } else {
      assert " "[1..] == [];
    }
  }

  lemma {:induction false} TrimStartAppendSpace(s: string)
    ensures TrimStart(s + " ") == if TrimStart(s) == [] then [] else TrimStart(s) + " "
  {
    var s1 := s + " ";
    if s == [] {
      assert s1[1..] == [];
      assert TrimStart(s1) == TrimStart(s1[1..]);
    } else if IsSpace(s[0]) {
      assert s1[0] == s[0] && s1[1..] == s[1..] + " ";
      TrimStartAppendSpace(s[1..]);
      assert TrimStart(s1) == TrimStart(s[1..] + " ");
      assert TrimStart(s) == TrimStart(s[1..]);
    } else {
      assert s1[0] == s[0];
      assert TrimStart(s1) == s1 && TrimStart(s) == s;
    }
  }

  /** A trailing space does not change the trimmed result. */
  lemma TrimAppendSpace(s: string)
    ensures Trim(s + " ") == Trim(s)
  {
    TrimStartAppendSpace(s);
    var t := TrimStart(s);
    if t != [] {
      assert (t + " ")[..|t|] == t;
    }
  }

  lemma LowerAppend(a: string, b: string)
    ensures Lower(a + b) == Lower(a) + Lower(b)
  {
  }

  /** The noise endings the synthetic survey generator appends to a
      template answer (besides the empty one). */
  const NoiseSuffixes: seq<string> := [" (" + Noise[0] + ")", " " + Noise[1], " " + Noise[2]]

  /** The noise phrases are lower-case letters and spaces. */
  lemma NoiseIsClean(j: nat)
    requires j < |Noise|
    ensures forall i :: 0 <= i < |Noise[j]| ==> Kept(Noise[j][i]) && !IsUpper(Noise[j][i])
  {
  }

  lemma LowerWithoutUpper(s: string)
    requires forall i :: 0 <= i < |s| ==> !IsUpper(s[i])
    ensures Lower(s) == s
  {
  }

  /** Lowering and stripping "(" + p + ")" for a clean p leaves p. */
  lemma StrippedBracketed(p: string)
    requires forall i :: 0 <= i < |p| ==> Kept(p[i]) && !IsUpper(p[i])
    ensures StripPunctuation(Lower("(" + p + ")")) == p
  {
    LowerWithoutUpper("(" + p + ")");
    StripPunctuationKeepsClean(p);
    StripPunctuationAppend("(", p + ")");
    StripPunctuationAppend(p, ")");
    assert "(" + p + ")" == "(" + (p + ")");
    assert StripPunctuation("(") == "";
    assert StripPunctuation(")") == "";
    assert p + "" == p;
  }

  /** Lowering and stripping " (" + p + ")" for a clean p leaves " " + p. */
  lemma StrippedParenthesised(p: string)
    requires forall i :: 0 <= i < |p| ==> Kept(p[i]) && !IsUpper(p[i])
    ensures StripPunctuation(Lower(" (" + p + ")")) == " " + p
  {
    var bracketed := "(" + p + ")";
    assert " (" + p + ")" == " " + bracketed;
    StrippedBracketed(p);
    LowerAppend(" ", bracketed);
    StripPunctuationAppend(" ", Lower(bracketed));
    assert Lower(" ") == " " && StripPunctuation(" ") == " ";
  }

  /** Lowering and stripping " " + p for a clean p changes nothing. */
  lemma StrippedSpaced(p: string)
    requires forall i :: 0 <= i < |p| ==> Kept(p[i]) && !IsUpper(p[i])
    ensures StripPunctuation(Lower(" " + p)) == " " + p
  {
    LowerWithoutUpper(" " + p);
    StripPunctuationKeepsClean(" " + p);
  }

  /** Lowering and stripping a noise ending leaves a space and the
      corresponding noise phrase. */
  lemma StrippedSuffix(k: nat)
    requires k < |NoiseSuffixes|
    ensures StripPunctuation(Lower(NoiseSuffixes[k])) == " " + Noise[k]
  {
    NoiseIsClean(k);
    if k == 0 {
      StrippedParenthesised(Noise[0]);
    } else {
      StrippedSpaced(Noise[k]);
    }
  }

  /** Appending one of the generator's noise endings to an answer that is
      free of the noise phrases does not change its cleaned form. */
  lemma CleanDropsNoiseSuffix(phrase: string, k: nat)
    requires k < |NoiseSuffixes|
    requires forall j :: 0 <= j < |Noise| ==> NoMatchFrom(StripPunctuation(Lower(phrase)), Noise[j], 0)
    ensures CleanResponse(phrase + NoiseSuffixes[k]) == CleanResponse(phrase)
  {
    var v := StripPunctuation(Lower(phrase));
    LowerAppend(phrase, NoiseSuffixes[k]);
    StripPunctuationAppend(Lower(phrase), Lower(NoiseSuffixes[k]));
    StrippedSuffix(k);
    assert StripPunctuation(Lower(phrase + NoiseSuffixes[k])) == v + " " + Noise[k];
    RemoveNoiseTail(v, k);
    RemovePhraseNoMatch(v, Noise[0], 0);
    RemovePhraseNoMatch(v, Noise[1], 0);
    RemovePhraseNoMatch(v, Noise[2], 0);
    assert RemoveNoise(v) == v;
    CollapseAppendSpace(v, false);
    TrimAppendSpace(Collapse(v, false));
  }

  lemma RemoveNoiseFirstPhrase()
    ensures RemoveNoise(Noise[0]) == ""
  {
    assert WholeWordAt(Noise[0], Noise[0], 0);
    assert RemovePhrase(Noise[0], Noise[0]) == "";
  }

  /** Punctuation goes first, so a parenthesised noise phrase is removed
      completely, parentheses included. */
  lemma ParenthesisedNoiseVanishes()
    ensures CleanResponse("(segun mi experiencia)") == ""
  {
    assert "(segun mi experiencia)" == "(" + Noise[0] + ")";
    NoiseIsClean(0);
    StrippedBracketed(Noise[0]);
    RemoveNoiseFirstPhrase();
  }

  /** The boundaries make the match whole-word only: "comunidades" is not
      "comunidad", so nothing is removed. */
  lemma PartialWordKept()
    ensures CleanResponse("en mi comunidades") == "en mi comunidades"
  {
    var text := "en mi comunidades";
    assert !WholeWordAt(text, Noise[1], 0) by {
      assert IsWordChar(text[15]);
    }
    assert text[1] != Noise[1][0] && text[2] != Noise[1][0];
    assert NoMatchFrom(text, Noise[1], 0);
    CleanAlreadyClean(text);
  }

  /** Whether a whitespace run is open after reading a, starting in
      state inRun. */
  function RunAfter(a: string, inRun: bool): bool {
    if a == [] then inRun else IsSpace(a[|a| - 1])
  }

  /** Collapsing works piecewise: the second piece continues the run state
      the first piece ends in. */
  lemma {:induction false} CollapseAppend(a: string, b: string, inRun: bool)
    ensures Collapse(a + b, inRun) == Collapse(a, inRun) + Collapse(b, RunAfter(a, inRun))
  {
    if a == [] {
      assert a + b == b;
    } else {
      var ab := a + b;
      assert ab[0] == a[0] && ab[1..] == a[1..] + b;
      assert RunAfter(a, inRun) == RunAfter(a[1..], IsSpace(a[0]));
      CollapseAppend(a[1..], b, IsSpace(a[0]));
    }
  }

  /** A noise phrase alone cleans to the empty string. */
  lemma CleanFirstPhrase()
    ensures CleanResponse(Noise[0]) == ""
  {
    NoiseIsClean(0);
    LowerWithoutUpper(Noise[0]);
    StripPunctuationKeepsClean(Noise[0]);
    RemoveNoiseFirstPhrase();
  }

  /** Two single-spaced words (or word groups) with a doubled space
      between them collapse to the same words with one space. */
  lemma CollapseDoubleSpace(a: string, b: string)
    requires |a| > 0 && |b| > 0 && !IsSpace(a[|a| - 1]) && !IsSpace(b[0])
    requires forall k :: 0 <= k < |a| ==> IsSpace(a[k]) ==> a[k] == ' '
    requires forall k :: 0 <= k < |a| - 1 ==> !(IsSpace(a[k]) && IsSpace(a[k + 1]))
    requires forall k :: 0 <= k < |b| ==> IsSpace(b[k]) ==> b[k] == ' '
    requires forall k :: 0 <= k < |b| - 1 ==> !(IsSpace(b[k]) && IsSpace(b[k + 1]))
    ensures Collapse(a + "  " + b, false) == a + " " + b
  {
    var head, tail := a + " ", " " + b;
    assert a + "  " + b == head + tail;
    CollapseAppend(head, tail, false);
    forall k | 0 <= k < |head|
      ensures IsSpace(head[k]) ==> head[k] == ' '
    {
      if k < |a| {
        assert head[k] == a[k];
      }
    }
    forall k | 0 <= k < |head| - 1
      ensures !(IsSpace(head[k]) && IsSpace(head[k + 1]))
    {
      assert head[k] == a[k];
      if k + 1 < |a| {
        assert head[k + 1] == a[k + 1];
      }
    }
    CollapseSingleSpaced(head, false);
    assert tail[1..] == b;
    CollapseSingleSpaced(b, true);
  }

  const DoubleSpaced: string := "segun  mi experiencia"

  lemma DoubleSpacedIsClean()
    ensures forall k :: 0 <= k < |DoubleSpaced| ==> Kept(DoubleSpaced[k]) && !IsUpper(DoubleSpaced[k])
  {
  }

  lemma DoubleSpacedNoFirstPhrase()
    ensures NoMatchFrom(DoubleSpaced, Noise[0], 0)
  {
    assert DoubleSpaced[6] != Noise[0][6];
    assert DoubleSpaced[1] != Noise[0][0];
  }

  /** A phrase cannot occur where its first two characters do not. */
  lemma NoMatchByFirstTwo(s: string, p: string)
    requires |p| >= 2
    requires forall j :: 0 <= j && j + |p| <= |s| ==> s[j] != p[0] || s[j + 1] != p[1]
    ensures NoMatchFrom(s, p, 0)
  {
    forall j | 0 <= j <= |s| ensures !WholeWordAt(s, p, j) {
      if j + |p| <= |s| {
        assert s[j..j + |p|][0] == s[j] && s[j..j + |p|][1] == s[j + 1];
      }
    }
  }

  lemma DoubleSpacedNoSecondPhrase()
    ensures NoMatchFrom(DoubleSpaced, Noise[1], 0)
  {
    var s, p := DoubleSpaced, Noise[1];
    assert |s| == 21 && |p| == 15 && p[0] == 'e' && p[1] == 'n';
    assert s[0] == 's' && s[1] == 'e' && s[2] == 'g' && s[3] == 'u';
    assert s[4] == 'n' && s[5] == ' ' && s[6] == ' ';
    forall j | 0 <= j && j + |p| <= |s| ensures s[j] != p[0] || s[j + 1] != p[1] {
      if j == 1 {
        assert s[j + 1] == 'g';
      } else {
        assert s[j] != 'e';
      }
    }
    NoMatchByFirstTwo(s, p);
  }

  /** The doubled space hides the first phrase from its pass, and nothing
      else in the string is a noise phrase. */
  lemma DoubleSpacedSurvivesNoise()
    ensures RemoveNoise(StripPunctuation(Lower(DoubleSpaced))) == DoubleSpaced
  {
    var text := DoubleSpaced;
    DoubleSpacedIsClean();
    LowerWithoutUpper(text);
    StripPunctuationKeepsClean(text);
    DoubleSpacedNoFirstPhrase();
    DoubleSpacedNoSecondPhrase();
    RemovePhraseNoMatch(text, Noise[0], 0);
    RemovePhraseNoMatch(text, Noise[1], 0);
  }

  /** The whitespace pass then closes the gap. */
  lemma DoubleSpacedCollapses()
    ensures Collapse(DoubleSpaced, false) == Noise[0]
  {
    var a, b := "segun", "mi experiencia";
    assert DoubleSpaced == a + "  " + b;
    assert Noise[0] == a + " " + b;
    CollapseDoubleSpace(a, b);
  }

  /** With two spaces inside it the first noise phrase is not matched,
      and what comes out is that phrase. */
  lemma CleanDoubleSpacedPhrase()
    ensures CleanResponse(DoubleSpaced) == Noise[0]
  {
    DoubleSpacedSurvivesNoise();
    DoubleSpacedCollapses();
    NoiseIsClean(0);
    TrimTrimmed(Noise[0]);
  }

  /** Cleaning is not idempotent: a doubled space hides a noise phrase
      from the phrase pass, the whitespace pass then closes the gap, and a
      second cleaning removes the phrase that the first one produced. */
  lemma CleanNotIdempotent()
    ensures CleanResponse(DoubleSpaced) == "segun mi experiencia"
    ensures CleanResponse(CleanResponse(DoubleSpaced)) == ""
  {
    CleanDoubleSpacedPhrase();
    CleanFirstPhrase();
  }
}
