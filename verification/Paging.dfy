/** Listing the catalogue a page at a time (internal/cashback/catalogue/list.go). */
module Paging {
  import opened Options
  import opened Base64
  import opened Cursor

  datatype Retailer = Retailer(slug: string, name: Option<string>, country: string)

  datatype Listing = Page(items: seq<Retailer>, next: string) | Refused

  /** The page size: 20 when none is named, and never more than 100. */
  function PageSize(limit: int): (size: nat)
    ensures 1 <= size <= 100
  {
    if limit <= 0 then 20 else if limit > 100 then 100 else limit
  }

  // ---- byte order ----

  predicate Less(a: string, b: string) {
    |b| > 0 && (|a| == 0 || a[0] < b[0] || (a[0] == b[0] && Less(a[1..], b[1..])))
  }

  lemma {:induction false} LessTransitive(a: string, b: string, c: string)
    requires Less(a, b) && Less(b, c)
    ensures Less(a, c)
  {
    if |a| > 0 && a[0] == b[0] == c[0] { LessTransitive(a[1..], b[1..], c[1..]); }
  }

  lemma {:induction false} LessTotal(a: string, b: string)
    ensures a == b || Less(a, b) || Less(b, a)
    ensures !(Less(a, b) && Less(b, a)) && (a == b ==> !Less(a, b))
  {
    if |a| > 0 && |b| > 0 && a[0] == b[0] {
      LessTotal(a[1..], b[1..]);
      assert a == [a[0]] + a[1..] && b == [b[0]] + b[1..];
    }
  }

  /** Which is byte order: at the first byte that differs the smaller one is less, and a
      proper beginning comes before what it begins. */
  lemma {:induction false} LessIsByteOrder(a: string, b: string)
    ensures Less(a, b) <==> exists k: nat :: FirstDifference(a, b, k) && IsLessAt(a, b, k)
  {
    if |a| > 0 && |b| > 0 && a[0] == b[0] {
      LessIsByteOrder(a[1..], b[1..]);
      hide Less;
      assert Less(a, b) <==> Less(a[1..], b[1..]) by { LessNext(a, b); }
      forall k: nat ensures FirstDifference(a, b, k + 1) <==> FirstDifference(a[1..], b[1..], k) {
        DifferenceNext(a, b, k);
      }
      assert !FirstDifference(a, b, 0);
      if Less(a, b) {
        var k: nat :| FirstDifference(a[1..], b[1..], k) && IsLessAt(a[1..], b[1..], k);
        assert FirstDifference(a, b, k + 1) && IsLessAt(a, b, k + 1);
      } else {
        forall k: nat | FirstDifference(a, b, k) ensures !IsLessAt(a, b, k) {
          assert FirstDifference(a[1..], b[1..], k - 1);
        }
      }
    } else {
      assert FirstDifference(a, b, 0);
      assert |a| > 0 && |b| > 0 ==> a[0] != b[0];
    }
  }

  lemma LessNext(a: string, b: string)
    requires |a| > 0 && |b| > 0 && a[0] == b[0]
    ensures Less(a, b) <==> Less(a[1..], b[1..])
  {
  }

  lemma DifferenceNext(a: string, b: string, k: nat)
    requires |a| > 0 && |b| > 0 && a[0] == b[0]
    ensures FirstDifference(a, b, k + 1) <==> FirstDifference(a[1..], b[1..], k)
  {
    if FirstDifference(a[1..], b[1..], k) {
      forall i | 0 <= i < k + 1 ensures a[i] == b[i] { assert i > 0 ==> a[1..][i - 1] == b[1..][i - 1]; }
    }
  }

  /** The two are the same up to k, and no further. */
  predicate FirstDifference(a: string, b: string, k: nat) {
    k <= |a| && k <= |b| && (forall i :: 0 <= i < k ==> a[i] == b[i]) && (k == |a| || k == |b| || a[k] != b[k])
  }

  /** At k the first is at its end, or has the smaller byte. */
  predicate IsLessAt(a: string, b: string, k: nat) { k < |b| && (k == |a| || (k < |a| && a[k] < b[k])) }

  ghost predicate Ascending(s: seq<Retailer>) {
    forall i, j :: 0 <= i < j < |s| ==> Less(s[i].slug, s[j].slug)
  }

  /** What the schema keeps of merchants: a slug is bytes, not empty, and no two share one. */
  ghost predicate Shelved(s: seq<Retailer>) {
    && (forall i :: 0 <= i < |s| ==> |s[i].slug| > 0 && IsBytes(s[i].slug))
    && (forall i, j :: 0 <= i < j < |s| ==> s[i].slug != s[j].slug)
  }

  // ---- sorting and filtering ----

  function Insert(s: seq<Retailer>, r: Retailer): (t: seq<Retailer>)
    ensures |t| == |s| + 1
  {
    if |s| == 0 || Less(s[|s| - 1].slug, r.slug) then s + [r]
    else Insert(s[..|s| - 1], r) + [s[|s| - 1]]
  }

  function Sorted(s: seq<Retailer>): (t: seq<Retailer>)
    ensures |t| == |s|
  {
    if |s| == 0 then [] else Insert(Sorted(s[..|s| - 1]), s[|s| - 1])
  }

  lemma {:induction false} InsertContents(s: seq<Retailer>, r: Retailer)
    ensures multiset(Insert(s, r)) == multiset(s) + multiset{r}
  {
    if |s| == 0 || Less(s[|s| - 1].slug, r.slug) {
    } else {
      InsertContents(s[..|s| - 1], r);
      assert s == s[..|s| - 1] + [s[|s| - 1]];
    }
  }

  lemma {:induction false} InsertAscends(s: seq<Retailer>, r: Retailer)
    requires Ascending(s) && forall i :: 0 <= i < |s| ==> s[i].slug != r.slug
    ensures Ascending(Insert(s, r))
  {
    if |s| == 0 {
    } else if Less(s[|s| - 1].slug, r.slug) {
      forall i | 0 <= i < |s| - 1 ensures Less(s[i].slug, r.slug) { LessTransitive(s[i].slug, s[|s| - 1].slug, r.slug); }
    } else {
      var before, last := s[..|s| - 1], s[|s| - 1];
      InsertAscends(before, r);
      InsertContents(before, r);
      LessTotal(last.slug, r.slug);
      var t := Insert(before, r);
      forall i | 0 <= i < |t| ensures Less(t[i].slug, last.slug) {
        assert t[i] in multiset(t);
        assert t[i] in before || t[i] == r;
      }
    }
  }

  /** Sorting keeps every retailer, and puts distinct slugs in byte order. */
  lemma {:induction false} SortedIs(s: seq<Retailer>)
    requires Shelved(s)
    ensures Ascending(Sorted(s)) && multiset(Sorted(s)) == multiset(s)
  {
    if |s| > 0 {
      var before, last := s[..|s| - 1], s[|s| - 1];
      SortedIs(before);
      assert s == before + [last];
      forall i | 0 <= i < |before| ensures Sorted(before)[i].slug != last.slug {
        assert Sorted(before)[i] in multiset(Sorted(before));
        assert Sorted(before)[i] in before;
      }
      InsertAscends(Sorted(before), last);
      InsertContents(Sorted(before), last);
    }
  }

  function Filter(s: seq<Retailer>, keep: Retailer -> bool): (t: seq<Retailer>)
    ensures |t| <= |s| && forall r :: r in t <==> r in s && keep(r)
  {
    if |s| == 0 then []
    else
      assert forall r :: r in s <==> r in s[..|s| - 1] || r == s[|s| - 1];
      var before := Filter(s[..|s| - 1], keep);
      if keep(s[|s| - 1]) then before + [s[|s| - 1]] else before
  }

  lemma FilterNext(s: seq<Retailer>, k: nat, keep: Retailer -> bool)
    requires k < |s|
    ensures Filter(s[..k + 1], keep) == if keep(s[k]) then Filter(s[..k], keep) + [s[k]] else Filter(s[..k], keep)
  {
    assert s[..k + 1][..k] == s[..k];
  }

  lemma {:induction false} FilterPrefix(s: seq<Retailer>, k: nat, keep: Retailer -> bool)
    requires k <= |s|
    ensures Filter(s[..k], keep) <= Filter(s, keep)
    decreases |s|
  {
    if k == |s| {
      assert s[..k] == s;
    } else {
      assert s[..|s| - 1][..k] == s[..k];
      FilterPrefix(s[..|s| - 1], k, keep);
    }
  }

  lemma {:induction false} FiltersCommute(s: seq<Retailer>, f: Retailer -> bool, g: Retailer -> bool)
    ensures Filter(Filter(s, f), g) == Filter(Filter(s, g), f)
  {
    if |s| > 0 {
      var before, last := s[..|s| - 1], s[|s| - 1];
      FiltersCommute(before, f, g);
      if f(last) { FilterOneMore(Filter(before, f), last, g); }
      if g(last) { FilterOneMore(Filter(before, g), last, f); }
    }
  }

  lemma FilterOneMore(s: seq<Retailer>, r: Retailer, keep: Retailer -> bool)
    ensures Filter(s + [r], keep) == if keep(r) then Filter(s, keep) + [r] else Filter(s, keep)
  {
    assert (s + [r])[..|s|] == s;
  }

  lemma {:induction false} FilterAscends(s: seq<Retailer>, keep: Retailer -> bool)
    requires Ascending(s)
    ensures Ascending(Filter(s, keep))
  {
    if |s| > 0 {
      var before, last := s[..|s| - 1], s[|s| - 1];
      FilterAscends(before, keep);
      forall r | r in Filter(before, keep) ensures Less(r.slug, last.slug) {
        assert r in before;
      }
    }
  }

  // ---- the shelf and its pages ----

  /** What the reader may see, in order. `shown` is whether a retailer has a name for the
      reader that the search finds. */
  function Shelf(merchants: seq<Retailer>, shown: Retailer -> bool): seq<Retailer> { Filter(Sorted(merchants), shown) }

  lemma ShelfIs(merchants: seq<Retailer>, shown: Retailer -> bool)
    requires Shelved(merchants)
    ensures Ascending(Shelf(merchants, shown)) && Shelved(Shelf(merchants, shown))
    ensures forall r :: r in Shelf(merchants, shown) <==> r in merchants && shown(r)
  {
    SortedIs(merchants);
    FilterAscends(Sorted(merchants), shown);
    var shelf := Shelf(merchants, shown);
    forall r ensures r in shelf <==> r in merchants && shown(r) {
      assert r in Sorted(merchants) <==> r in multiset(Sorted(merchants));
    }
    forall i, j | 0 <= i < j < |shelf| ensures shelf[i].slug != shelf[j].slug { LessTotal(shelf[i].slug, shelf[j].slug); }
    forall i | 0 <= i < |shelf| ensures |shelf[i].slug| > 0 && IsBytes(shelf[i].slug) { assert shelf[i] in merchants; }
  }

  function Later(after: string): Retailer -> bool { (r: Retailer) => Less(after, r.slug) }

  function From(shelf: seq<Retailer>, after: string): seq<Retailer> { Filter(shelf, Later(after)) }

  /** One page of a shelf. */
  function PageOf(shelf: seq<Retailer>, limit: int, cursor: string): Listing
    requires Shelved(shelf)
  {
    match DecodeCursor(cursor)
    case BadCursor => Refused
    case After(after) =>
      var rest := From(shelf, after);
      if |rest| > PageSize(limit) then
        var items := rest[..PageSize(limit)];
        assert items[PageSize(limit) - 1] in shelf;
        Page(items, EncodeCursor(items[PageSize(limit) - 1].slug))
      else Page(rest, "")
  }

  /** What a position leaves of the sorted retailers. */
  method Candidates(sorted: seq<Retailer>, after: string) returns (candidates: seq<Retailer>)
    ensures candidates == Filter(sorted, Later(after))
  {
    candidates := [];
    for k := 0 to |sorted|
      invariant candidates == Filter(sorted[..k], Later(after))
    {
      FilterNext(sorted, k, Later(after));
      if Less(after, sorted[k].slug) { candidates := candidates + [sorted[k]]; }
    }
    assert sorted[..|sorted|] == sorted;
  }

  /** The first of these the reader may see: a page of them, and one more if there is one. */
  method FirstShown(candidates: seq<Retailer>, shown: Retailer -> bool, size: nat) returns (items: seq<Retailer>)
    ensures items <= Filter(candidates, shown) && |items| <= size + 1
    ensures |items| <= size ==> items == Filter(candidates, shown)
  {
    items := [];
    var k := 0;
    while k < |candidates| && |items| <= size
      invariant k <= |candidates| && |items| <= size + 1
      invariant items == Filter(candidates[..k], shown)
    {
      FilterNext(candidates, k, shown);
      if shown(candidates[k]) { items := items + [candidates[k]]; }
      k := k + 1;
    }
    FilterPrefix(candidates, k, shown);
    assert k == |candidates| ==> candidates[..k] == candidates;
  }

  /** List: the retailers in any order, sorted here; those after the cursor; and of these
      one more than a page is looked for, so that the last page is known for the last. */
  method List(merchants: seq<Retailer>, shown: Retailer -> bool, limit: int, cursor: string) returns (listing: Listing)
    requires Shelved(merchants)
    ensures Shelved(Shelf(merchants, shown)) && listing == PageOf(Shelf(merchants, shown), limit, cursor)
    // a page is what was asked for, 20 when nothing was, and never more than 100
    ensures var size := if limit <= 0 then 20 else if limit <= 100 then limit else 100;
      listing.Page? ==> |listing.items| <= size && (listing.next != "" ==> |listing.items| == size)
  {
    SizeInWords(limit);
    hide *;
    ShelfIs(merchants, shown);
    var position, size := DecodeCursor(cursor), PageSize(limit);
    if position.BadCursor? {
      BadCursorRefused(Shelf(merchants, shown), limit, cursor);
      return Refused;
    }
    var candidates := Candidates(Sorted(merchants), position.slug);
    var items := FirstShown(candidates, shown, size);
    ShelfFrom(merchants, shown, position.slug);
    PageOfItems(Shelf(merchants, shown), limit, cursor, items);
    if |items| > size {
      listing := Page(items[..size], EncodeCursor(items[size - 1].slug));
    } else {
      listing := Page(items, "");
    }
  }

  lemma SizeInWords(limit: int)
    ensures PageSize(limit) == if limit <= 0 then 20 else if limit <= 100 then limit else 100
  {
  }

  lemma BadCursorRefused(shelf: seq<Retailer>, limit: int, cursor: string)
    requires Shelved(shelf) && DecodeCursor(cursor).BadCursor?
    ensures PageOf(shelf, limit, cursor) == Refused
  {
  }

  /** Keeping what is later and then what is shown, or the other way round. */
  lemma ShelfFrom(merchants: seq<Retailer>, shown: Retailer -> bool, after: string)
    ensures Filter(Filter(Sorted(merchants), Later(after)), shown) == From(Shelf(merchants, shown), after)
  {
    FiltersCommute(Sorted(merchants), Later(after), shown);
  }

  lemma PageOfItems(shelf: seq<Retailer>, limit: int, cursor: string, items: seq<Retailer>)
    requires Shelved(shelf) && DecodeCursor(cursor).After? && |items| <= PageSize(limit) + 1
    requires items <= From(shelf, DecodeCursor(cursor).slug)
    requires |items| <= PageSize(limit) ==> items == From(shelf, DecodeCursor(cursor).slug)
    ensures PageSize(limit) >= 1
    ensures |items| > PageSize(limit) ==>
      && IsBytes(items[PageSize(limit) - 1].slug)
      && PageOf(shelf, limit, cursor) == Page(items[..PageSize(limit)], EncodeCursor(items[PageSize(limit) - 1].slug))
    ensures |items| <= PageSize(limit) ==> PageOf(shelf, limit, cursor) == Page(items, "")
  {
    hide Filter, DecodeCursor, EncodeCursor, Less, IsBytes;
    var rest, size := From(shelf, DecodeCursor(cursor).slug), PageSize(limit);
    if |items| > size {
      assert items[..size] == rest[..size] && items[size - 1] == rest[size - 1];
      InFilter(shelf, Later(DecodeCursor(cursor).slug), size - 1);
      assert rest[size - 1] in shelf;
    }
  }

  lemma InFilter(s: seq<Retailer>, keep: Retailer -> bool, i: nat)
    requires i < |Filter(s, keep)|
    ensures Filter(s, keep)[i] in s
  {
  }
}
