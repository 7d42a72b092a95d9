/** Following a listing's cursors from the first page to the last. */
module PagingWalk {
  import opened Options
  import opened Base64
  import opened Cursor
  import opened Paging

  /** Page i + 1 is what the cursor of page i leads to. */
  ghost predicate GoesOn(shelf: seq<Retailer>, limit: int, pages: seq<Listing>, i: nat)
    requires Shelved(shelf) && i + 1 < |pages|
  {
    pages[i].Page? && pages[i].next != "" && pages[i + 1] == PageOf(shelf, limit, pages[i].next)
  }

  /** The pages a reader gets who follows every cursor, to the last page or a refusal. */
  ghost predicate IsWalk(shelf: seq<Retailer>, limit: int, pages: seq<Listing>)
    requires Shelved(shelf)
  {
    && |pages| > 0 && pages[0] == PageOf(shelf, limit, "")
    && (forall i: nat :: i + 1 < |pages| ==> GoesOn(shelf, limit, pages, i))
    && (pages[|pages| - 1].Page? ==> pages[|pages| - 1].next == "")
  }

  /** The cursor of the position after k retailers. */
  function Position(shelf: seq<Retailer>, k: nat): string
    requires Shelved(shelf) && k <= |shelf|
  {
    if k == 0 then "" else EncodeCursor(shelf[k - 1].slug)
  }

  /** Its slug is short enough for its cursor to be read back. */
  predicate Reads(shelf: seq<Retailer>, k: nat)
    requires k <= |shelf|
  {
    k == 0 || |shelf[k - 1].slug| <= MaxSlug
  }

  lemma {:induction false} FilterSuffix(s: seq<Retailer>, k: nat, keep: Retailer -> bool)
    requires k <= |s|
    requires forall i :: 0 <= i < |s| ==> (keep(s[i]) <==> i >= k)
    ensures Filter(s, keep) == s[k..]
    decreases |s|
  {
    if |s| > 0 {
      var before := s[..|s| - 1];
      if k == |s| {
        FilterSuffix(before, k - 1, keep);
      } else {
        FilterSuffix(before, k, keep);
        assert s[k..] == before[k..] + [s[|s| - 1]];
      }
    }
  }

  /** What a cursor that reads leaves is the rest of the shelf. */
  lemma RestAt(shelf: seq<Retailer>, k: nat)
    requires Shelved(shelf) && Ascending(shelf) && k <= |shelf|
    ensures From(shelf, if k == 0 then "" else shelf[k - 1].slug) == shelf[k..]
  {
    var after := if k == 0 then "" else shelf[k - 1].slug;
    forall i | 0 <= i < |shelf| ensures Later(after)(shelf[i]) <==> i >= k {
      if k > 0 { LessTotal(after, shelf[i].slug); }
    }
    FilterSuffix(shelf, k, Later(after));
  }

  lemma PositionReads(shelf: seq<Retailer>, k: nat)
    requires Shelved(shelf) && k <= |shelf|
    ensures DecodeCursor(Position(shelf, k)) ==
      if !Reads(shelf, k) then BadCursor else After(if k == 0 then "" else shelf[k - 1].slug)
  {
    if k > 0 {
      RoundTripIff(shelf[k - 1].slug);
      hide EncodeCursor, DecodeCursor, IsBytes;
    }
  }

  lemma RestIsShelved(shelf: seq<Retailer>, after: string, rest: seq<Retailer>)
    requires Shelved(shelf) && From(shelf, after) == rest
    ensures forall i :: 0 <= i < |rest| ==> IsBytes(rest[i].slug)
  {
    hide Filter, Later, IsBytes;
    forall i | 0 <= i < |rest| ensures IsBytes(rest[i].slug) {
      assert rest[i] in shelf;
    }
  }

  /** The page that a cursor leads to, once read, from what it leaves. */
  lemma PageFrom(shelf: seq<Retailer>, limit: int, cursor: string, after: string, rest: seq<Retailer>)
    requires Shelved(shelf) && DecodeCursor(cursor) == After(after) && From(shelf, after) == rest
    ensures forall i :: 0 <= i < |rest| ==> IsBytes(rest[i].slug)
    ensures var size := PageSize(limit);
      PageOf(shelf, limit, cursor) ==
        if size < |rest| then Page(rest[..size], EncodeCursor(rest[size - 1].slug)) else Page(rest, "")
  {
    RestIsShelved(shelf, after, rest);
    hide DecodeCursor, EncodeCursor, From, Shelved, IsBytes, PageSize;
  }

  lemma PageRefused(shelf: seq<Retailer>, limit: int, cursor: string)
    requires Shelved(shelf) && DecodeCursor(cursor).BadCursor?
    ensures PageOf(shelf, limit, cursor) == Refused
  {
    hide DecodeCursor, Shelved;
  }

  /** The page at a position: full and with a cursor if more follows, the rest and none
      otherwise, and a refusal if the position does not read. */
  lemma PageAt(shelf: seq<Retailer>, limit: int, k: nat)
    requires Shelved(shelf) && Ascending(shelf) && k <= |shelf|
    ensures var size := PageSize(limit);
      PageOf(shelf, limit, Position(shelf, k)) ==
        if !Reads(shelf, k) then Refused
        else if k + size < |shelf| then Page(shelf[k..k + size], Position(shelf, k + size))
        else Page(shelf[k..], "")
  {
    hide PageOf, PageSize, DecodeCursor, EncodeCursor, From, Ascending, Shelved, IsBytes;
    RestAt(shelf, k);
    PositionReads(shelf, k);
    if Reads(shelf, k) {
      PageFrom(shelf, limit, Position(shelf, k), if k == 0 then "" else shelf[k - 1].slug, shelf[k..]);
    } else {
      PageRefused(shelf, limit, Position(shelf, k));
    }
  }

  lemma PositionIsSome(shelf: seq<Retailer>, k: nat)
    requires Shelved(shelf) && 0 < k <= |shelf|
    ensures Position(shelf, k) != ""
  {
    Issues(Tag, shelf[k - 1].slug);
  }

  /** Where page i starts: i pages of this size on. */
  function Start(i: nat, size: nat): nat { if i == 0 then 0 else Start(i - 1, size) + size }

  /** Page i of a walk is the page at its start; every page before it is full and its
      cursor reads. */
  ghost predicate OnCourse(shelf: seq<Retailer>, limit: int, pages: seq<Listing>, i: nat)
    requires Shelved(shelf) && i < |pages|
  {
    var k := Start(i, PageSize(limit));
    && k <= |shelf| && (i > 0 ==> 0 < k < |shelf|)
    && pages[i] == PageOf(shelf, limit, Position(shelf, k))
  }

  lemma {:induction false} WalkAt(shelf: seq<Retailer>, limit: int, pages: seq<Listing>, i: nat)
    requires Shelved(shelf) && Ascending(shelf) && IsWalk(shelf, limit, pages) && i < |pages|
    ensures OnCourse(shelf, limit, pages, i)
  {
    hide PageOf, Position, Shelved, Ascending, PageSize;
    if i > 0 {
      WalkAt(shelf, limit, pages, i - 1);
      assert GoesOn(shelf, limit, pages, i - 1);
      PageAt(shelf, limit, Start(i - 1, PageSize(limit)));
    } else {
      assert Position(shelf, 0) == "" by { NoPosition(shelf); }
    }
  }

  lemma NoPosition(shelf: seq<Retailer>)
    requires Shelved(shelf)
    ensures Position(shelf, 0) == ""
  {
  }

  /** A page that is followed by another is full, ends where that one starts, and reads. */
  lemma FullPage(shelf: seq<Retailer>, limit: int, pages: seq<Listing>, i: nat)
    requires Shelved(shelf) && Ascending(shelf) && IsWalk(shelf, limit, pages) && i + 1 < |pages|
    ensures var size := PageSize(limit);
      var k := Start(i, size);
      && k + size == Start(i + 1, size) < |shelf| && Reads(shelf, k)
      && pages[i].Page? && pages[i].items == shelf[k..k + size] && pages[i].next != ""
  {
    hide PageOf, Position, Shelved, Ascending, PageSize;
    WalkAt(shelf, limit, pages, i);
    WalkAt(shelf, limit, pages, i + 1);
    assert GoesOn(shelf, limit, pages, i);
    PageAt(shelf, limit, Start(i, PageSize(limit)));
  }

  /** The last page is the rest of the shelf, or a refusal where its cursor does not read. */
  lemma LastPage(shelf: seq<Retailer>, limit: int, pages: seq<Listing>)
    requires Shelved(shelf) && Ascending(shelf) && IsWalk(shelf, limit, pages)
    ensures |pages| > 0
    ensures var k := Start(|pages| - 1, PageSize(limit));
      && k <= |shelf| && (pages[|pages| - 1].Refused? <==> !Reads(shelf, k))
      && (Reads(shelf, k) ==> |shelf| <= k + PageSize(limit) && pages[|pages| - 1] == Page(shelf[k..], ""))
      && (|pages| > 1 ==> 0 < k < |shelf|)
  {
    hide PageOf, Position, Shelved, Ascending, PageSize, Reads;
    WalkAt(shelf, limit, pages, |pages| - 1);
    var k := Start(|pages| - 1, PageSize(limit));
    PageAt(shelf, limit, k);
    if k + PageSize(limit) < |shelf| { PositionIsSome(shelf, k + PageSize(limit)); }
  }

  function Items(pages: seq<Listing>): seq<Retailer> {
    if |pages| == 0 then []
    else match pages[|pages| - 1]
      case Refused => Items(pages[..|pages| - 1])
      case Page(items, _) => Items(pages[..|pages| - 1]) + items
  }

  lemma OneMorePage(pages: seq<Listing>, i: nat)
    requires i < |pages| && pages[i].Page?
    ensures Items(pages[..i + 1]) == Items(pages[..i]) + pages[i].items
  {
    assert pages[..i + 1][..i] == pages[..i];
  }

  lemma {:induction false} ItemsBefore(shelf: seq<Retailer>, limit: int, pages: seq<Listing>, i: nat)
    requires Shelved(shelf) && Ascending(shelf) && IsWalk(shelf, limit, pages) && i < |pages|
    ensures Start(i, PageSize(limit)) <= |shelf| && Items(pages[..i]) == shelf[..Start(i, PageSize(limit))]
  {
    hide PageOf, Position, Shelved, Ascending, PageSize, IsWalk, Reads;
    if i > 0 {
      ItemsBefore(shelf, limit, pages, i - 1);
      FullPage(shelf, limit, pages, i - 1);
      OneMorePage(pages, i - 1);
      var k, size := Start(i - 1, PageSize(limit)), PageSize(limit);
      assert shelf[..k] + shelf[k..k + size] == shelf[..k + size];
    }
  }

  /** Some full page that is not the last ends with a slug whose cursor does not read. */
  ghost predicate HasDeadEnd(shelf: seq<Retailer>, size: nat) {
    exists i: nat :: DeadEnd(shelf, size, i)
  }

  predicate DeadEnd(shelf: seq<Retailer>, size: nat, i: nat) {
    0 < Start(i, size) < |shelf| && |shelf[Start(i, size) - 1].slug| > MaxSlug
  }

  /** Paging is exact. However a reader's walk goes, it ends in a refusal exactly when a
      page that is not the last ends with a slug over 182 bytes; and otherwise its pages,
      end to end, are the shelf: each retailer once and in order, every page but the last
      full, and the last the only one with no cursor. */
  lemma PagingExact(shelf: seq<Retailer>, limit: int, pages: seq<Listing>)
    requires Shelved(shelf) && Ascending(shelf) && IsWalk(shelf, limit, pages)
    ensures pages[|pages| - 1].Refused? <==> HasDeadEnd(shelf, PageSize(limit))
    ensures pages[|pages| - 1].Page? ==> Items(pages) == shelf
    ensures forall i :: 0 <= i < |pages| - 1 ==> pages[i].Page? && |pages[i].items| == PageSize(limit) && pages[i].next != ""
    ensures pages[|pages| - 1].Page? ==> pages[|pages| - 1].next == "" && |pages[|pages| - 1].items| <= PageSize(limit)
  {
    hide PageOf, IsWalk, Shelved, Ascending, Position, PageSize, Start;
    LastPage(shelf, limit, pages);
    var n, size := |pages| - 1, PageSize(limit);
    ItemsBefore(shelf, limit, pages, n);
    assert pages[..n] + [pages[n]] == pages;
    forall i | 0 <= i < n ensures pages[i].Page? && |pages[i].items| == size && pages[i].next != "" {
      FullPage(shelf, limit, pages, i);
    }
    if pages[n].Refused? {
      assert n > 0 by { assert Reads(shelf, Start(0, size)) by { FirstReads(shelf, size); } }
      assert DeadEnd(shelf, size, n);
    } else {
      forall i: nat ensures !DeadEnd(shelf, size, i) { NoDeadEnd(shelf, limit, pages, i); }
    }
  }

  /** One long slug is enough: a reader who asks for one retailer a page never sees past it. */
  lemma LongSlugEndsTheWalk(shelf: seq<Retailer>, pages: seq<Listing>)
    requires Shelved(shelf) && Ascending(shelf) && IsWalk(shelf, 1, pages)
    requires |shelf| > 1 && |shelf[0].slug| > MaxSlug
    ensures pages[|pages| - 1].Refused?
  {
    assert Start(1, 1) == Start(0, 1) + 1 == 1;
    assert DeadEnd(shelf, 1, 1);
    assert PageSize(1) == 1;
    hide PageOf, IsWalk, Shelved, Ascending, Start, PageSize;
    PagingExact(shelf, 1, pages);
  }

  lemma FirstReads(shelf: seq<Retailer>, size: nat)
    ensures Start(0, size) == 0 && Reads(shelf, 0)
  {
  }

  lemma NoDeadEnd(shelf: seq<Retailer>, limit: int, pages: seq<Listing>, i: nat)
    requires Shelved(shelf) && Ascending(shelf) && IsWalk(shelf, limit, pages) && pages[|pages| - 1].Page?
    ensures !DeadEnd(shelf, PageSize(limit), i)
  {
    hide PageOf, IsWalk, Shelved, Ascending, Position;
    LastPage(shelf, limit, pages);
    if i + 1 < |pages| {
      FullPage(shelf, limit, pages, i);
    } else if i >= |pages| {
      StartsAfter(|pages|, i, PageSize(limit));
      assert Start(|pages|, PageSize(limit)) == Start(|pages| - 1, PageSize(limit)) + PageSize(limit);
    }
  }

  lemma {:induction false} StartsAfter(n: nat, i: nat, size: nat)
    requires n <= i
    ensures Start(n, size) <= Start(i, size)
    decreases i
  {
    if n < i { StartsAfter(n, i - 1, size); }
  }

  /** A walk always ends. */
  lemma {:induction false} WalkEnds(shelf: seq<Retailer>, limit: int, k: nat) returns (pages: seq<Listing>)
    requires Shelved(shelf) && Ascending(shelf) && k <= |shelf|
    ensures |pages| > 0 && pages[0] == PageOf(shelf, limit, Position(shelf, k))
    ensures forall i: nat :: i + 1 < |pages| ==> GoesOn(shelf, limit, pages, i)
    ensures pages[|pages| - 1].Page? ==> pages[|pages| - 1].next == ""
    decreases |shelf| - k
  {
    hide PageOf, Position, Reads, Shelved, Ascending, PageSize;
    PageAt(shelf, limit, k);
    pages := [PageOf(shelf, limit, Position(shelf, k))];
    if Reads(shelf, k) && k + PageSize(limit) < |shelf| {
      PositionIsSome(shelf, k + PageSize(limit));
      var rest := WalkEnds(shelf, limit, k + PageSize(limit));
      var all := pages + rest;
      forall i: nat | i + 1 < |all| ensures GoesOn(shelf, limit, all, i) {
        if i > 0 { assert GoesOn(shelf, limit, rest, i - 1); }
      }
      pages := all;
    }
  }

  /** From the tables to the reader: following the cursors of a catalogue whose slugs are
      at most 182 bytes long shows every retailer the reader may see, and no other, once. */
  lemma CatalogueIsWalked(merchants: seq<Retailer>, shown: Retailer -> bool, limit: int) returns (pages: seq<Listing>)
    requires Shelved(merchants) && forall m <- merchants :: |m.slug| <= MaxSlug
    ensures Shelved(Shelf(merchants, shown)) && IsWalk(Shelf(merchants, shown), limit, pages)
    ensures Ascending(Items(pages)) && forall r :: r in Items(pages) <==> r in merchants && shown(r)
  {
    ShelfIs(merchants, shown);
    var shelf := Shelf(merchants, shown);
    pages := WalkEnds(shelf, limit, 0);
    NoPosition(shelf);
    hide PageOf, Shelved, Ascending, Position, PageSize, HasDeadEnd, Items, Shelf;
    PagingExact(shelf, limit, pages);
    AllRead(shelf, PageSize(limit), merchants);
  }

  lemma AllRead(shelf: seq<Retailer>, size: nat, merchants: seq<Retailer>)
    requires (forall r :: r in shelf ==> r in merchants) && forall m <- merchants :: |m.slug| <= MaxSlug
    ensures !HasDeadEnd(shelf, size)
  {
    forall i: nat ensures !DeadEnd(shelf, size, i) {
      if 0 < Start(i, size) < |shelf| { assert shelf[Start(i, size) - 1] in shelf; }
    }
  }
}
