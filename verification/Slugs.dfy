/** A retailer's slug (internal/cashback/catalogue/identity.go). */
module Slugs {
  import opened Options
  import opened Words
  import opened Greek

  const MaxLength: nat := 80

  /** What the Unicode library does to a name: composition, the accent fold and lower
      case. */
  datatype Unicode = Unicode(compose: string -> string, fold: string -> string, lower: string -> string)

  /** The few facts about it used here. */
  ghost predicate Faithful(u: Unicode) {
    && (forall s :: IsAscii(s) ==> u.compose(s) == s)
    && (forall s :: IsAscii(s) ==> u.fold(s) == s)
    && (forall s :: NoCapitals(u.lower(s)))
    && (forall s :: IsAscii(s) && NoCapitals(s) ==> u.lower(s) == s)
  }

  predicate NoCapitals(s: string) { forall i :: 0 <= i < |s| ==> !('A' <= s[i] <= 'Z') }

  /** A letter or a digit below 127. */
  predicate InSlug(c: char) { 'a' <= c <= 'z' || 'A' <= c <= 'Z' || '0' <= c <= '9' }

  /** What the merchant table accepts: lower-case letters and digits, in groups with one
      hyphen between them. */
  predicate WellFormed(slug: string) { Grouped(slug, InSlug, '-') && NoCapitals(slug) && |slug| <= 80 }

  function LastHyphen(s: string): (i: Option<nat>)
    ensures i.Some? ==> i.value < |s| && s[i.value] == '-' && forall k :: i.value < k < |s| ==> s[k] != '-'
    ensures i.None? ==> forall k :: 0 <= k < |s| ==> s[k] != '-'
  {
    if |s| == 0 then None
    else if s[|s| - 1] == '-' then Some(|s| - 1)
    else LastHyphen(s[..|s| - 1])
  }

  /** truncateSlug */
  function Truncate(slug: string): string {
    if |slug| <= MaxLength then slug
    else
      var cut := slug[..MaxLength];
      match LastHyphen(cut)
      case Some(i) => if i > 0 then cut[..i] else cut
      case None => cut
  }

  /** What the name is read as: composed, transliterated, folded and lower-cased. */
  function Reading(u: Unicode, name: string): string { u.lower(u.fold(Latin(u.compose(name)))) }

  function SlugOf(u: Unicode, name: string): string { Truncate(Join(Runs(Reading(u, name), InSlug), '-')) }

  /** FallbackSlug */
  function FallbackOf(u: Unicode, network: string, external: string): Option<string> {
    var slug := SlugOf(u, network + "-" + external);
    if slug == "" then None else Some(slug)
  }

  /** Slug: one pass over the reading with a builder and a flag. */
  method Slug(u: Unicode, name: string) returns (slug: string)
    ensures slug == SlugOf(u, name)
  {
    hide Truncate, Join, Runs, InSlug;
    var latin := Transliterate(u.compose(name));
    var text := u.lower(u.fold(latin));
    var built, separated := "", false;
    assert built == Join(Runs(text[..0], InSlug), '-') by { NothingYet(text); }
    for n := 0 to |text|
      invariant built == Join(Runs(text[..n], InSlug), '-')
      invariant separated == (n > 0 && !InSlug(text[n - 1]))
    {
      JoinNext(text[..n], text[n], InSlug, '-');
      assert text[..n] + [text[n]] == text[..n + 1];
      if InSlug(text[n]) {
        if separated && |built| > 0 { built := built + ['-']; }
        separated := false;
        built := built + [text[n]];
      } else {
        separated := true;
      }
    }
    assert text[..|text|] == text;
    slug := Truncate(built);
  }

  lemma NothingYet(text: string)
    ensures Join(Runs(text[..0], InSlug), '-') == ""
  {
  }

  // ---- the format ----

  /** Cutting keeps the groups: none is left empty, and none ends in a hyphen. */
  lemma TruncateGroups(slug: string)
    requires Grouped(slug, InSlug, '-')
    ensures Grouped(Truncate(slug), InSlug, '-') && |Truncate(slug)| <= MaxLength && Truncate(slug) <= slug
    ensures |slug| > 0 ==> |Truncate(slug)| > 0
  {
    if |slug| > MaxLength {
      var cut := slug[..MaxLength];
      match LastHyphen(cut) {
        case Some(i) => if i > 0 { assert !InSlug(slug[i]); assert InSlug(slug[i - 1]); }
        case None =>
      }
    }
  }

  lemma {:induction false} KeptFrom(s: string)
    requires NoCapitals(s)
    ensures NoCapitals(Join(Runs(s, InSlug), '-'))
  {
    if |s| > 0 {
      var before, c := s[..|s| - 1], s[|s| - 1];
      KeptFrom(before);
      JoinNext(before, c, InSlug, '-');
      assert before + [c] == s;
    }
  }

  /** Every slug is one the table accepts, whatever the name. */
  lemma SlugsAreWellFormed(u: Unicode, name: string)
    requires Faithful(u)
    ensures WellFormed(SlugOf(u, name))
  {
    var text := Reading(u, name);
    var built := Join(Runs(text, InSlug), '-');
    RunsGroup(text, InSlug, '-');
    assert NoCapitals(text);
    KeptFrom(text);
    TruncateGroups(built);
    hide Truncate, InSlug, Grouped, Runs, Join;
    assert forall i :: 0 <= i < |Truncate(built)| ==> Truncate(built)[i] == built[i];
  }

  /** A slug is its own slug. */
  lemma SlugIsIdempotent(u: Unicode, name: string)
    requires Faithful(u)
    ensures SlugOf(u, SlugOf(u, name)) == SlugOf(u, name)
  {
    SlugsAreWellFormed(u, name);
    var slug := SlugOf(u, name);
    hide SlugOf;
    WellFormedIsItself(u, slug);
  }

  lemma WellFormedIsItself(u: Unicode, slug: string)
    requires Faithful(u) && WellFormed(slug)
    ensures SlugOf(u, slug) == slug
  {
    assert IsAscii(slug);
    AsciiUnchanged(slug, 0);
    assert Reading(u, slug) == slug;
    hide Runs, Join, Grouped, Reading;
    GroupedIsJoined(slug, InSlug, '-');
  }

  /** Accents are folded, not dropped: where the fold leaves plain letters, they are the
      slug's, as if the name had been written so. */
  lemma FoldedNamesAreKept(u: Unicode, name: string)
    requires Faithful(u) && IsAscii(u.fold(Latin(u.compose(name))))
    ensures SlugOf(u, name) == SlugOf(u, u.fold(Latin(u.compose(name))))
  {
    AsciiUnchanged(u.fold(Latin(u.compose(name))), 0);
    hide Truncate, Join, Runs;
  }

  /** The case and the tonos of its Greek letters never change a name's slug. */
  lemma CaseAndTonosKeepSlug(u: Unicode, name: string, other: string)
    requires SameLetters(u.compose(name), u.compose(other))
    ensures SlugOf(u, name) == SlugOf(u, other)
  {
    CaseAndTonos(u.compose(name), u.compose(other), 0);
    assert |u.compose(name)| == |u.compose(other)| by { SameLength(u.compose(name), u.compose(other)); }
  }

  /** A name that is all Greek letters always has a slug. */
  lemma GreekNamesHaveSlugs(u: Unicode, name: string)
    requires Faithful(u) && |u.compose(name)| > 0
    requires forall k :: 0 <= k < |u.compose(name)| ==> Single(u.compose(name)[k]).Some?
    ensures |SlugOf(u, name)| > 0
  {
    hide Single, Truncate, Join, Runs;
    GreekIsWritten(u.compose(name), 0);
    var latin := Latin(u.compose(name));
    assert IsAscii(latin) && NoCapitals(latin);
    assert Reading(u, name) == latin;
    assert Grouped(latin, InSlug, '-');
    GroupedIsJoined(latin, InSlug, '-');
    TruncateGroups(latin);
  }

  // ---- where the cut falls ----

  /** slug[..k] is whole groups. */
  predicate Boundary(slug: string, k: nat) { 0 < k <= |slug| && (k == |slug| || slug[k] == '-') }

  /** The longest run of whole groups that fits, or the hard cut where none does. */
  ghost predicate Longest(slug: string, k: nat) {
    && k <= 80
    && (forall j: nat :: k < j <= 80 ==> !Boundary(slug, j))
    && (Boundary(slug, k) || (k == 80 && forall j: nat :: j <= 80 ==> !Boundary(slug, j)))
  }

  /** A name over the limit is cut after the last group that fits, except that a group
      which fits exactly is dropped too when another stands before it. */
  lemma CutIsLongestIff(slug: string)
    requires Grouped(slug, InSlug, '-') && |slug| > MaxLength
    ensures Longest(slug, |Truncate(slug)|) <==> !(slug[MaxLength] == '-' && LastHyphen(slug[..MaxLength]).Some?)
  {
    var cut := slug[..MaxLength];
    assert forall k :: 0 <= k < MaxLength ==> cut[k] == slug[k];
    if slug[MaxLength] == '-' { assert Boundary(slug, MaxLength); }
    match LastHyphen(cut) {
      case Some(i) =>
        assert Boundary(slug, i);
        assert forall j: nat :: i < j < MaxLength ==> !Boundary(slug, j);
      case None =>
        assert forall j: nat :: j < MaxLength ==> !Boundary(slug, j);
    }
  }

  /** Such a slug: groups of 39 and 40 bytes fill the limit, and the second is dropped. */
  lemma GroupThatFitsIsDropped() returns (slug: string)
    ensures Grouped(slug, InSlug, '-') && NoCapitals(slug) && |slug| == MaxLength + 2
    ensures Boundary(slug, MaxLength) && |Truncate(slug)| == 39 && !Longest(slug, |Truncate(slug)|)
  {
    slug := seq(MaxLength + 2, i => if i == 39 || i == MaxLength then '-' else 'a');
    var cut := slug[..MaxLength];
    assert cut[39] == '-' && forall k :: 39 < k < MaxLength ==> cut[k] == 'a';
    assert LastHyphen(cut) == Some(39);
    CutIsLongestIff(slug);
  }

  // ---- fallback slugs ----

  /** A fallback slug is not the retailer's alone: ids that differ only in characters no
      slug keeps share one. */
  lemma FallbacksCollide(u: Unicode, network: string, external: string, other: string)
    requires Faithful(u) && IsAscii(network) && IsAscii(external) && IsAscii(other)
    requires NoCapitals(network) && NoCapitals(external) && NoCapitals(other)
    requires |external| == |other|
    requires forall i :: 0 <= i < |external| ==> external[i] == other[i] || (!InSlug(external[i]) && !InSlug(other[i]))
    ensures FallbackOf(u, network, external) == FallbackOf(u, network, other)
  {
    var a, b := network + "-" + external, network + "-" + other;
    assert IsAscii(a) && IsAscii(b) && NoCapitals(a) && NoCapitals(b);
    AsciiUnchanged(a, 0);
    AsciiUnchanged(b, 0);
    hide InSlug;
    SameRuns(a, b, InSlug);
  }
}
