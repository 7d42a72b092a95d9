/** Deriving a bounded extract (internal/ingestion/extract.go). */
module Extract {
  import opened Options
  import opened Words
  import opened PlainText

  const MaxRunes: nat := 300

  /** The second semicolon of the program's own list is the first one again. */
  predicate IsCloser(c: char) { c == '.' || c == '!' || c == '?' || c == '…' || c == ';' }

  predicate IsTrailer(c: char) { c == '"' || c == '\'' || c == '”' || c == '’' || c == '»' || c == ')' || c == ']' }

  /** The few facts about white space used here. */
  ghost predicate Sensible(l: Library) {
    l.isSpace(' ') && forall c :: IsCloser(c) || IsTrailer(c) ==> !l.isSpace(c)
  }

  /** Where the run of closing quotes and brackets from j ends. */
  function TrailEnd(l: Library, t: string, j: nat): (e: nat)
    requires j <= |t|
    ensures j <= e <= |t|
    ensures forall k :: j <= k < e ==> IsTrailer(t[k]) && !l.isSpace(t[k])
    ensures e < |t| ==> l.isSpace(t[e]) || !IsTrailer(t[e])
    decreases |t| - j
  {
    if j < |t| && !l.isSpace(t[j]) && IsTrailer(t[j]) then TrailEnd(l, t, j + 1) else j
  }

  /** A sentence ends with the closer at i: after it, and after any quotes and brackets,
      there is white space or nothing. */
  predicate Closes(l: Library, t: string, i: nat)
    requires i < |t|
  {
    && IsCloser(t[i])
    && var e := TrailEnd(l, t, i + 1); e == |t| || l.isSpace(t[e])
  }

  /** The last sentence closed before `limit` is closed at i. */
  ghost predicate LastClosed(l: Library, t: string, limit: nat, i: nat)
    requires limit <= |t|
  {
    i < limit && Closes(l, t, i) && forall k :: i < k < limit ==> !Closes(l, t, k)
  }

  /** Where a text over the bound is cut: after the last sentence that ends in the window,
      with its closing quotes if they fit; at the last white space if none does; and at the
      bound if there is none. */
  ghost predicate IsCut(l: Library, t: string, k: nat)
    requires |t| > MaxRunes
  {
    if exists i: nat :: i < MaxRunes && Closes(l, t, i) then
      exists i: nat :: LastClosed(l, t, MaxRunes, i) && k == if TrailEnd(l, t, i + 1) <= MaxRunes then TrailEnd(l, t, i + 1) else i + 1
    else if exists i: nat :: i < MaxRunes && l.isSpace(t[i]) then
      k < MaxRunes && l.isSpace(t[k]) && forall j :: k < j < MaxRunes ==> !l.isSpace(t[j])
    else
      k == MaxRunes
  }

  method SentenceEndsAt(l: Library, t: string, i: nat) returns (end: nat, ends: bool)
    requires i < |t| && IsCloser(t[i])
    ensures end + 1 == TrailEnd(l, t, i + 1) && ends == Closes(l, t, i)
  {
    end, ends := i, true;
    var j, reading := i + 1, true;
    while j < |t| && reading
      invariant i < j <= |t| && (reading ==> j == end + 1 && ends)
      invariant reading ==> TrailEnd(l, t, j) == TrailEnd(l, t, i + 1)
      invariant !reading ==> end + 1 == TrailEnd(l, t, i + 1) && ends == Closes(l, t, i)
      decreases |t| - j, reading
    {
      if l.isSpace(t[j]) { reading := false; }
      else if IsTrailer(t[j]) { end := j; j := j + 1; }
      else { ends, reading := false, false; }
    }
  }

  /** lastSentenceEnd: the index of the last rune to keep, or none. */
  method LastSentenceEnd(l: Library, t: string, limit: nat) returns (end: Option<nat>)
    requires limit <= |t|
    ensures end.None? <==> forall k: nat :: k < limit ==> !Closes(l, t, k)
    ensures end.Some? ==> exists i: nat :: LastClosed(l, t, limit, i) && end.value + 1 == if TrailEnd(l, t, i + 1) <= limit then TrailEnd(l, t, i + 1) else i + 1
  {
    end := None;
    var i: nat := limit;
    while i > 0 && end.None?
      invariant i <= limit
      invariant end.None? ==> forall k: nat :: i <= k < limit ==> !Closes(l, t, k)
      invariant end.Some? ==> LastClosed(l, t, limit, i) && end.value + 1 == if TrailEnd(l, t, i + 1) <= limit then TrailEnd(l, t, i + 1) else i + 1
      decreases i, end.None?
    {
      i := i - 1;
      if IsCloser(t[i]) {
        var last, ends := SentenceEndsAt(l, t, i);
        if ends { end := Some(if last >= limit then i else last); }
      }
    }
  }

  method LastSpace(l: Library, t: string) returns (at: Option<nat>)
    ensures at.None? <==> forall k :: 0 <= k < |t| ==> !l.isSpace(t[k])
    ensures at.Some? ==> at.value < |t| && l.isSpace(t[at.value]) && forall k :: at.value < k < |t| ==> !l.isSpace(t[k])
  {
    at := None;
    var i: nat := |t|;
    while i > 0 && at.None?
      invariant i <= |t|
      invariant at.None? ==> forall k: nat :: i <= k < |t| ==> !l.isSpace(t[k])
      invariant at.Some? ==> at == Some(i) && i < |t| && l.isSpace(t[i]) && forall k :: i < k < |t| ==> !l.isSpace(t[k])
      decreases i, at.None?
    {
      i := i - 1;
      if l.isSpace(t[i]) { at := Some(i); }
    }
  }

  // ---- trimming ----

  function TrimLeft(l: Library, s: string): string { if |s| > 0 && l.isSpace(s[0]) then TrimLeft(l, s[1..]) else s }
  function TrimRight(l: Library, s: string): string { if |s| > 0 && l.isSpace(s[|s| - 1]) then TrimRight(l, s[..|s| - 1]) else s }

  /** TrimSpace */
  function Trim(l: Library, s: string): string { TrimRight(l, TrimLeft(l, s)) }

  // ---- the extract ----

  /** The text an extract is made of: the summary's prose, or the body's if there is none. */
  function Source(l: Library, summary: string, body: string): string {
    if Prose(l, summary) == "" then Prose(l, body) else Prose(l, summary)
  }

  /** What a bounded text is cut to: a beginning of it that is neither empty nor too long,
      and has nothing to trim. */
  method Bounded(l: Library, text: string) returns (extract: string)
    requires Sensible(l) && Spaced(l, text) && |text| > MaxRunes
    ensures 0 < |extract| <= MaxRunes && extract <= text && IsCut(l, text, |extract|)
  {
    hide Closes, Spaced, Sensible, Trim, TrailEnd;
    var end := LastSentenceEnd(l, text, MaxRunes);
    if end.Some? {
      SentenceTrims(l, text, end.value + 1);
      extract := Trim(l, text[..end.value + 1]);
    } else {
      var space := LastSpace(l, text[..MaxRunes]);
      if space.Some? {
        SpaceTrims(l, text, space.value);
        extract := Trim(l, text[..space.value]);
      } else {
        extract := text[..MaxRunes];
        assert forall i: nat :: i < MaxRunes ==> text[..MaxRunes][i] == text[i];
      }
    }
  }

  /** The extract is a beginning of the prose: all of it if it is within the bound, and
      otherwise what comes before the cut. It is never longer than 300 runes, and never
      empty where there is prose. */
  method DeriveExtract(l: Library, summary: string, body: string) returns (extract: string)
    requires Sensible(l)
    ensures |extract| <= MaxRunes && extract <= Source(l, summary, body)
    ensures |Source(l, summary, body)| <= MaxRunes ==> extract == Source(l, summary, body)
    ensures |Source(l, summary, body)| > MaxRunes ==> |extract| > 0 && IsCut(l, Source(l, summary, body), |extract|)
    // the summary is preferred, and the body is reached for only when the summary has no prose
    ensures |extract| <= 300 && extract <= (if Prose(l, summary) != "" then Prose(l, summary) else Prose(l, body))
    ensures Prose(l, summary) != "" && |Prose(l, summary)| <= 300 ==> extract == Prose(l, summary)
    ensures Prose(l, summary) == "" && |Prose(l, body)| <= 300 ==> extract == Prose(l, body)
  {
    hide Prose, Spaced, IsCut;
    var text := Plain(l, summary);
    if text == "" { text := Plain(l, body); }
    ProseIsGrouped(l, summary);
    ProseIsGrouped(l, body);
    extract := text;
    if |text| > MaxRunes { extract := Bounded(l, text); }
  }

  ghost predicate Spaced(l: Library, t: string) { Grouped(t, (c: char) => !l.isSpace(c), ' ') }

  lemma ProseIsGrouped(l: Library, s: string)
    ensures Spaced(l, Prose(l, s))
  {
    if s != "" { RunsGroup(l.unescape(Strip(s, 0)), (c: char) => !l.isSpace(c), ' '); }
  }

  lemma NothingToTrim(l: Library, s: string)
    requires |s| > 0 ==> !l.isSpace(s[0]) && !l.isSpace(s[|s| - 1])
    ensures Trim(l, s) == s
  {
  }

  /** A cut at a sentence leaves nothing to trim. */
  lemma SentenceTrims(l: Library, t: string, k: nat)
    requires Sensible(l) && Spaced(l, t) && MaxRunes < |t|
    requires exists i: nat :: LastClosed(l, t, MaxRunes, i) && k == if TrailEnd(l, t, i + 1) <= MaxRunes then TrailEnd(l, t, i + 1) else i + 1
    ensures 0 < k <= MaxRunes && Trim(l, t[..k]) == t[..k] && IsCut(l, t, k)
  {
    var i: nat :| LastClosed(l, t, MaxRunes, i) && k == if TrailEnd(l, t, i + 1) <= MaxRunes then TrailEnd(l, t, i + 1) else i + 1;
    assert IsCloser(t[i]) && (k - 1 > i ==> IsTrailer(t[k - 1]));
    assert Closes(l, t, i);
    NothingToTrim(l, t[..k]);
  }

  /** Nor does a cut at a space. */
  lemma SpaceTrims(l: Library, t: string, k: nat)
    requires Sensible(l) && Spaced(l, t) && MaxRunes < |t| && k < MaxRunes && l.isSpace(t[k])
    ensures 0 < k && Trim(l, t[..k]) == t[..k]
  {
    var keep := (c: char) => !l.isSpace(c);
    assert keep(t[0]);
    assert !keep(t[k]);
    assert keep(t[k - 1]);
    NothingToTrim(l, t[..k]);
  }

  /** There is one place to cut. */
  lemma CutIsUnique(l: Library, t: string, k: nat, k': nat)
    requires |t| > MaxRunes && IsCut(l, t, k) && IsCut(l, t, k')
    ensures k == k'
  {
    hide Closes, TrailEnd;
    if exists i: nat :: i < MaxRunes && Closes(l, t, i) {
      var i: nat :| LastClosed(l, t, MaxRunes, i) && k == if TrailEnd(l, t, i + 1) <= MaxRunes then TrailEnd(l, t, i + 1) else i + 1;
      var j: nat :| LastClosed(l, t, MaxRunes, j) && k' == if TrailEnd(l, t, j + 1) <= MaxRunes then TrailEnd(l, t, j + 1) else j + 1;
      assert Closes(l, t, i) && Closes(l, t, j);
      assert i == j;
    }
  }

  /** What ends a text ends a sentence exactly if it is a full stop, an exclamation or a
      question mark, an ellipsis, or the semicolon that Greek asks with; and what stands
      after it is the sentence's own exactly if it is a closing quote or bracket. */
  lemma SentencesClose(l: Library, t: string, c: char, q: char)
    requires Sensible(l)
    ensures Closes(l, t + [c], |t|) <==> c == '.' || c == '!' || c == '?' || c == '…' || c == ';'
    ensures TrailEnd(l, t + [c, q], |t| + 1) == |t| + 2 <==>
      q == '"' || q == '\'' || q == '”' || q == '’' || q == '»' || q == ')' || q == ']'
  {
    assert (t + [c])[|t|] == c && (t + [c, q])[|t| + 1] == q;
  }

  const GreekQuestionMark: char := '\U{037E}'

  /** The Greek question mark in its own code point closes no sentence: a text with no
      other closer is cut at white space, or at the bound. */
  lemma GreekQuestionMarkClosesNothing(l: Library, t: string, k: nat)
    requires forall i :: 0 <= i < |t| ==> t[i] == GreekQuestionMark || !IsCloser(t[i])
    ensures forall i: nat :: i < |t| ==> !Closes(l, t, i)
    ensures |t| > MaxRunes && IsCut(l, t, k) ==> k == MaxRunes || (k < MaxRunes && l.isSpace(t[k]))
  {
    assert !IsCloser(GreekQuestionMark);
    hide TrailEnd;
  }
}
