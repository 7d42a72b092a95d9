/** The import with the slugs it really makes. */
module ImportSlugs {
  import opened Options
  import opened Words
  import opened Greek
  import opened Slugs
  import opened Catalogue
  import opened Import
  import opened ImportRun
  import opened ImportConflict
  import Base64
  import Cursor

  /** Every slug made is in the format the merchant table asks for. */
  lemma SlugsAreFormed(u: Unicode, name: string)
    requires Faithful(u)
    ensures SlugOf(u, name) == "" || SlugFormed(SlugOf(u, name))
  {
    SlugsAreWellFormed(u, name);
    hide SlugOf;
  }

  /** An importer of one network, naming retailers as identity.go does. */
  function Importing(u: Unicode, network: string, brand: string): (c: Config)
    requires Faithful(u)
    ensures c.network == network && c.brand == brand
    ensures forall name :: c.slugOf(name) == SlugOf(u, name)
    ensures forall external :: c.fallback(external) == FallbackOf(u, network, external)
  {
    var s := Settings(network, brand, (name: string) => SlugOf(u, name), (external: string) => FallbackOf(u, network, external));
    MakesFormedSlugs(u, s);
    s
  }

  lemma MakesFormedSlugs(u: Unicode, s: Settings)
    requires Faithful(u)
    requires forall name :: s.slugOf(name) == SlugOf(u, name)
    requires forall external :: s.fallback(external) == FallbackOf(u, s.network, external)
    ensures MakesSlugs(s)
  {
    hide SlugOf, SlugFormed;
    forall name ensures s.slugOf(name) == "" || SlugFormed(s.slugOf(name)) { SlugsAreFormed(u, name); }
    forall external ensures s.fallback(external).Some? ==> SlugFormed(s.fallback(external).value) {
      SlugsAreFormed(u, s.network + "-" + external);
    }
  }

  /** The ids say different things only in characters no slug keeps. */
  predicate AlikeInSlugs(a: string, b: string) {
    |a| == |b| && forall i :: 0 <= i < |a| ==> a[i] == b[i] || (!InSlug(a[i]) && !InSlug(b[i]))
  }

  predicate IsPlainId(s: string) { IsAscii(s) && NoCapitals(s) }

  /** The route conflict is reachable from consistent data: two new retailers of one
      network, with names that have no Latin form and ids that differ only in such
      characters, stop every import that reports them, whatever the catalogue held. */
  lemma ConflictIsReachable(u: Unicode, network: string, brand: string, t: Tables, at: int, first: Report, second: Report, complete: bool)
    requires Faithful(u) && IsPlainId(network) && IsPlainId(first.external) && IsPlainId(second.external)
    requires SlugOf(u, first.name) == "" && SlugOf(u, second.name) == ""
    requires first.external != second.external && AlikeInSlugs(first.external, second.external)
    requires FallbackOf(u, network, first.external).Some?
    requires Constraints(t) && NewInstant(Importing(u, network, brand), t, at)
    requires FindRoute(t.routes, network, first.external).None? && FindRoute(t.routes, network, second.external).None?
    ensures Run(Importing(u, network, brand), t, at, [first, second], complete) == Abort(RouteConflict)
  {
    var c := Importing(u, network, brand);
    FallbacksCollide(u, network, first.external, second.external);
    assert c.network == network && c.slugOf(first.name) == "" && c.slugOf(second.name) == "";
    assert c.fallback(first.external) == FallbackOf(u, network, first.external) == c.fallback(second.external);
    hide *;
    SharedFallbackStops(c, t, at, first, second, complete);
  }

  /** And so is every answer that mentions both: while the network lists the two, none of
      its imports ends. */
  lemma ConflictIsLasting(u: Unicode, network: string, brand: string, t: Tables, at: int, answer: seq<Report>, i: nat, j: nat, complete: bool)
    requires Faithful(u) && Distinct(answer) && i < j < |answer|
    requires IsPlainId(network) && IsPlainId(answer[i].external) && IsPlainId(answer[j].external)
    requires SlugOf(u, answer[i].name) == "" && SlugOf(u, answer[j].name) == ""
    requires AlikeInSlugs(answer[i].external, answer[j].external) && FallbackOf(u, network, answer[i].external).Some?
    requires Constraints(t) && NewInstant(Importing(u, network, brand), t, at)
    requires FindRoute(t.routes, network, answer[i].external).None? && FindRoute(t.routes, network, answer[j].external).None?
    ensures Run(Importing(u, network, brand), t, at, answer, complete).Abort?
  {
    var c := Importing(u, network, brand);
    FallbacksCollide(u, network, answer[i].external, answer[j].external);
    assert c.network == network && c.slugOf(answer[i].name) == "" && c.slugOf(answer[j].name) == "";
    assert c.fallback(answer[i].external) == FallbackOf(u, network, answer[i].external) == c.fallback(answer[j].external);
    assert Nameless(c, t, answer[i]) && Nameless(c, t, answer[j]);
    hide *;
    NoAnswerWithBothIsImported(c, t, at, answer, i, j, complete);
  }

  /** As "1 2" and "1-2" do. */
  lemma SpaceAndHyphenConflict(u: Unicode, network: string, external: string, other: string)
    requires Faithful(u) && IsPlainId(network) && external == "1 2" && other == "1-2"
    ensures AlikeInSlugs(external, other) && IsPlainId(external) && IsPlainId(other) && external != other
    ensures FallbackOf(u, network, external).Some? && FallbackOf(u, network, other) == FallbackOf(u, network, external)
  {
    assert AlikeInSlugs(external, other);
    FallbacksCollide(u, network, external, other);
    var text := network + "-" + external;
    AsciiUnchanged(text, 0);
    assert Reading(u, text) == text;
    assert InSlug(text[|text| - 1]);
    RunsAreKept(text, InSlug);
    JoinGroups(Runs(text, InSlug), InSlug, '-');
    TruncateGroups(Join(Runs(text, InSlug), '-'));
  }

  /** No slug the import makes is one the listing cannot page past. */
  lemma ImportedSlugsPage(u: Unicode, name: string)
    requires Faithful(u) && SlugOf(u, name) != ""
    ensures Base64.IsBytes(SlugOf(u, name))
    ensures Cursor.DecodeCursor(Cursor.EncodeCursor(SlugOf(u, name))) == Cursor.After(SlugOf(u, name))
  {
    SlugsAreWellFormed(u, name);
    var slug := SlugOf(u, name);
    hide SlugOf, Cursor.DecodeCursor, Cursor.EncodeCursor;
    Cursor.RoundTripIff(slug);
  }

  /** What is in the table's format already, and within the limit, is its own slug. */
  lemma FormedIsItself(u: Unicode, slug: string)
    requires Faithful(u) && SlugFormed(slug) && |slug| <= 80
    ensures SlugOf(u, slug) == slug
  {
    FormedIsWellFormed(slug);
    hide SlugOf, SlugFormed;
    WellFormedIsItself(u, slug);
  }

  lemma FormedIsWellFormed(slug: string)
    requires SlugFormed(slug) && |slug| <= 80
    ensures WellFormed(slug)
  {
  }

  /** A fallback slug says both the network and the id: where each is in the format, it is
      the one, a hyphen and the other. */
  lemma FallbackIsNetworkAndId(u: Unicode, network: string, external: string)
    requires Faithful(u) && SlugFormed(network) && SlugFormed(external) && |network| + 1 + |external| <= 80
    ensures FallbackOf(u, network, external) == Some(network + "-" + external)
  {
    FormedTogether(network, external);
    hide SlugOf, SlugFormed;
    FormedIsItself(u, network + "-" + external);
  }

  lemma FormedTogether(a: string, b: string)
    requires SlugFormed(a) && SlugFormed(b)
    ensures SlugFormed(a + "-" + b)
  {
  }
}
