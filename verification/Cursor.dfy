/** The listing's cursor (internal/cashback/catalogue/list.go, lines 310-332). */
module Cursor {
  import opened Options
  import opened Base64

  const Tag: string := "catalogue"
  const MaxBytes: nat := 256

  /** The longest slug whose cursor is short enough to be looked at. */
  const MaxSlug: nat := 182

  /** What a cursor says: where to go on, or that this listing did not issue it. */
  datatype Position = After(slug: string) | BadCursor

  function EncodeCursor(slug: string): string
    requires IsBytes(slug)
  {
    Encode(Tag + "|" + slug)
  }

  /** Where the separator first is. */
  function Separator(s: string): (at: Option<nat>)
    ensures at.Some? ==> at.value < |s| && s[at.value] == '|' && forall i :: 0 <= i < at.value ==> s[i] != '|'
    ensures at.None? ==> '|' !in s
  {
    if |s| == 0 then None
    else if s[0] == '|' then Some(0)
    else
      match Separator(s[1..])
      case None => None
      case Some(n) => Some(n + 1)
  }

  /** decodeListCursor; empty is the first page. */
  function DecodeCursor(raw: string): Position {
    if raw == "" then After("")
    else if |raw| > MaxBytes then BadCursor
    else match Decode(raw)
      case None => BadCursor
      case Some(blob) =>
        match Separator(blob)
        case None => BadCursor
        case Some(n) =>
          if blob[..n] != Tag || blob[n + 1..] == "" then BadCursor else After(blob[n + 1..])
  }

  lemma SeparatorIs(tag: string, slug: string)
    requires '|' !in tag
    ensures Separator(tag + "|" + slug) == Some(|tag|)
    ensures (tag + "|" + slug)[..|tag|] == tag && (tag + "|" + slug)[|tag| + 1..] == slug
  {
    var s := tag + "|" + slug;
    assert s[|tag|] == '|' && forall i :: 0 <= i < |tag| ==> s[i] == tag[i] && s[i] in tag;
  }

  lemma TagLength()
    ensures |Tag| == 9 && '|' !in Tag && IsBytes(Tag)
  {
  }

  /** What is decoded, given the bytes of a cursor and where their separator is. */
  lemma ReadAs(raw: string, tag: string, slug: string)
    requires raw != "" && tag == Tag && Decode(raw) == Some(tag + "|" + slug) && '|' !in tag
    ensures DecodeCursor(raw) == if |raw| <= MaxBytes && slug != "" then After(slug) else BadCursor
  {
    SeparatorIs(tag, slug);
    hide Decode, Separator, Tag;
  }

  /** A cursor is read back as the position it was issued for exactly when the slug is
      not empty and at most 182 bytes long; any other is refused by its own listing. */
  lemma RoundTripIff(slug: string)
    requires IsBytes(slug)
    ensures DecodeCursor(EncodeCursor(slug)) == if 0 < |slug| <= MaxSlug then After(slug) else BadCursor
  {
    TagLength();
    Issues(Tag, slug);
    hide Tag, Decode, Encode, DecodeCursor, IsBytes;
    ReadAs(EncodeCursor(slug), Tag, slug);
  }

  lemma Issues(tag: string, slug: string)
    requires IsBytes(tag) && IsBytes(slug)
    ensures IsBytes(tag + "|" + slug)
    ensures var raw := Encode(tag + "|" + slug);
      raw != "" && |raw| == (4 * (|tag| + 1 + |slug|) + 2) / 3 && Decode(raw) == Some(tag + "|" + slug)
  {
    var blob := tag + "|" + slug;
    EncodeShape(blob);
    RoundTrip(blob);
    hide Encode, Decode;
  }

  /** Whatever cursor is accepted stands for a position this listing could have issued. */
  lemma AcceptedCouldBeIssued(raw: string)
    requires raw != "" && DecodeCursor(raw).After?
    ensures var slug := DecodeCursor(raw).slug;
      IsBytes(slug) && Decode(raw) == Some(Tag + "|" + slug) && DecodeCursor(EncodeCursor(slug)) == After(slug)
  {
    var blob := Decode(raw).value;
    var n := Separator(blob).value;
    assert blob == blob[..n] + [blob[n]] + blob[n + 1..];
    assert blob == Tag + "|" + blob[n + 1..];
    RoundTripIff(blob[n + 1..]);
  }

  /** The cursor after the slug "a": the bytes of "catalogue|a", three at a time. */
  lemma CursorOfA()
    ensures IsBytes("a")
    ensures EncodeCursor("a") == Four(99, 97, 116) + (Four(97, 108, 111) + (Four(103, 117, 101) + Four(124, 97, 0)[..3]))
  {
    TagAndA(['c', 'a', 't'] + (['a', 'l', 'o'] + (['g', 'u', 'e'] + ['|', 'a'])));
    EncodesTwo('|', 'a');
    EncodesThree('g', 'u', 'e', ['|', 'a']);
    EncodesThree('a', 'l', 'o', ['g', 'u', 'e'] + ['|', 'a']);
    EncodesThree('c', 'a', 't', ['a', 'l', 'o'] + (['g', 'u', 'e'] + ['|', 'a']));
    hide *;
  }

  lemma TagAndA(s: string)
    requires s == ['c', 'a', 't'] + (['a', 'l', 'o'] + (['g', 'u', 'e'] + ['|', 'a']))
    ensures IsBytes("a") && IsBytes(s) && EncodeCursor("a") == Encode(s)
  {
    assert Tag + "|" + "a" == s;
    hide Encode;
  }
}
