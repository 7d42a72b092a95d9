/** What the scanner makes of a document someone wrote: the prose, and nothing else. */
module Markup {
  import opened Options
  import opened PlainText

  /** One piece of a document: text; a tag of an element whose content stays; or a whole
      element whose content goes. */
  datatype Piece =
    | Text(text: string)
    | Mark(closing: bool, name: string, attributes: string)
    | Dropped(name: string, attributes: string, content: string, closer: string, trailer: string)

  predicate IsName(name: string) { |name| > 0 && forall i :: 0 <= i < |name| ==> IsNameByte(name[i]) }

  /** From inside `quote`, if it is one: every quotation is closed and no '>' is outside one. */
  predicate Balanced(a: string, quote: Option<char>) {
    if |a| == 0 then quote.None?
    else match quote
      case Some(q) => Balanced(a[1..], if a[0] == q then None else quote)
      case None =>
        if a[0] == '"' || a[0] == '\'' then Balanced(a[1..], Some(a[0]))
        else a[0] != '>' && Balanced(a[1..], None)
  }

  predicate AreAttributes(a: string) { (|a| > 0 ==> !IsNameByte(a[0])) && Balanced(a, None) }

  /** Every '<' is followed by something that starts no tag. */
  predicate IsText(t: string) {
    forall i :: 0 <= i < |t| && t[i] == '<' ==> i + 1 < |t| && !IsNameByte(t[i + 1]) && t[i + 1] != '/'
  }

  /** The name bytes a text begins with. */
  function NameRun(t: string): string { if |t| > 0 && IsNameByte(t[0]) then [t[0]] + NameRun(t[1..]) else "" }

  /** No closing tag of this element begins inside it; those of others may. */
  predicate IsContent(t: string, name: string) {
    forall i :: 0 <= i < |t| - 1 && t[i] == '<' && t[i + 1] == '/' ==> Lower(NameRun(t[i + 2..])) != Lower(name)
  }

  predicate WellFormed(p: Piece) {
    match p
    case Text(t) => IsText(t)
    case Mark(_, name, attributes) => IsName(name) && AreAttributes(attributes) && !IsDropped(Lower(name))
    case Dropped(name, attributes, content, closer, trailer) =>
      && IsName(name) && AreAttributes(attributes) && IsDropped(Lower(name)) && IsContent(content, name)
      && IsName(closer) && AreAttributes(trailer) && Lower(closer) == Lower(name)
  }

  function TagText(closing: bool, name: string, attributes: string): string {
    (if closing then "</" else "<") + name + attributes + ">"
  }

  function RenderOne(p: Piece): string {
    match p
    case Text(t) => t
    case Mark(closing, name, attributes) => TagText(closing, name, attributes)
    case Dropped(name, attributes, content, closer, trailer) =>
      TagText(false, name, attributes) + content + TagText(true, closer, trailer)
  }

  function Render(doc: seq<Piece>): string { if |doc| == 0 then "" else RenderOne(doc[0]) + Render(doc[1..]) }

  /** What a reader is to see of a piece. */
  function ReadingOne(p: Piece): string {
    match p
    case Text(t) => t
    case Mark(_, name, _) => if IsBlock(Lower(name)) then " " else ""
    case Dropped(_, _, _, _, _) => ""
  }

  function Reading(doc: seq<Piece>): string { if |doc| == 0 then "" else ReadingOne(doc[0]) + Reading(doc[1..]) }

  /** t stands in s at i. */
  predicate StandsAt(s: string, i: nat, t: string) { i + |t| <= |s| && forall k :: 0 <= k < |t| ==> s[i + k] == t[k] }

  lemma StandsIn(s: string, i: nat, a: string, b: string)
    requires StandsAt(s, i, a + b)
    ensures StandsAt(s, i, a) && StandsAt(s, i + |a|, b)
  {
    forall k | 0 <= k < |a| ensures s[i + k] == a[k] { assert (a + b)[k] == a[k]; }
    forall k | 0 <= k < |b| ensures s[i + |a| + k] == b[k] { assert (a + b)[|a| + k] == b[k]; }
  }

  /** t[1..] stands one further on. */
  lemma StandsNext(s: string, i: nat, t: string)
    requires StandsAt(s, i, t) && |t| > 0
    ensures i < |s| && s[i] == t[0] && StandsAt(s, i + 1, t[1..]) && (|t| > 1 ==> s[i + 1] == t[1])
  {
    assert s[i + 0] == t[0] && (|t| > 1 ==> s[i + 1] == t[1]);
    forall k | 0 <= k < |t| - 1 ensures s[i + 1 + k] == t[1..][k] { assert s[i + (k + 1)] == t[k + 1]; }
  }

  lemma StandsWhole(s: string, i: nat, t: string)
    requires StandsAt(s, i, t)
    ensures i + |t| <= |s| && s[i..i + |t|] == t
  {
  }

  // ---- tags are found where they were written ----

  lemma {:induction false} NameEndsThere(s: string, j: nat, name: string)
    requires StandsAt(s, j, name) && (forall i :: 0 <= i < |name| ==> IsNameByte(name[i]))
    requires j + |name| < |s| ==> !IsNameByte(s[j + |name|])
    ensures NameEnd(s, j) == j + |name|
    decreases |name|
  {
    if |name| > 0 {
      StandsNext(s, j, name);
      NameEndsThere(s, j + 1, name[1..]);
    }
  }

  lemma {:induction false} TagEndsThere(s: string, j: nat, a: string, quote: Option<char>)
    requires StandsAt(s, j, a) && j + |a| < |s| && s[j + |a|] == '>' && Balanced(a, quote)
    ensures TagEnd(s, j, quote) == Some(j + |a| + 1)
    decreases |a|
  {
    if |a| > 0 {
      StandsNext(s, j, a);
      TagEndsThere(s, j + 1, a[1..],
        match quote
        case Some(q) => if a[0] == q then None else quote
        case None => if a[0] == '"' || a[0] == '\'' then Some(a[0]) else None);
    }
  }

  /** Where the parts of a tag are. */
  lemma TagParts(s: string, i: nat, closing: bool, name: string, attributes: string)
    requires StandsAt(s, i, TagText(closing, name, attributes)) && IsName(name) && AreAttributes(attributes)
    ensures i < |s| && s[i] == '<'
    ensures var start := i + (if closing then 2 else 1);
      var stop := start + |name|;
      && StandsAt(s, start, name) && StandsAt(s, stop, attributes)
      && stop + |attributes| < |s| && s[stop + |attributes|] == '>' && !IsNameByte(s[stop])
      && NameStart(s, i) == start && i + 1 < |s| && closing == (s[i + 1] == '/')
      && i + |TagText(closing, name, attributes)| == stop + |attributes| + 1
  {
    hide Balanced;
    var opener := if closing then "</" else "<";
    var start := i + |opener|;
    assert TagText(closing, name, attributes) == opener + (name + (attributes + ">"));
    StandsIn(s, i, opener, name + (attributes + ">"));
    StandsIn(s, start, name, attributes + ">");
    StandsIn(s, start + |name|, attributes, ">");
    StandsNext(s, i, opener);
    StandsNext(s, start, name);
    StandsNext(s, start + |name| + |attributes|, ">");
    if |attributes| > 0 { StandsNext(s, start + |name|, attributes); }
  }

  lemma TagIsRead(s: string, i: nat, closing: bool, name: string, attributes: string)
    requires StandsAt(s, i, TagText(closing, name, attributes)) && IsName(name) && AreAttributes(attributes)
    ensures i < |s| && s[i] == '<'
    ensures TagAt(s, i) == Some(Tag(Lower(name), closing, i + |TagText(closing, name, attributes)|))
  {
    var start := i + if closing then 2 else 1;
    TagParts(s, i, closing, name, attributes);
    assert |name| > 0 && (forall k :: 0 <= k < |name| ==> IsNameByte(name[k])) && Balanced(attributes, None);
    StandsWhole(s, start, name);
    hide *;
    NameEndsThere(s, start, name);
    TagEndsThere(s, start + |name|, attributes, None);
    TagAtIs(s, i, start, start + |name|, start + |name| + |attributes| + 1);
  }

  lemma TagAtIs(s: string, i: nat, start: nat, stop: nat, end: nat)
    requires i < |s| && NameStart(s, i) == start && NameEnd(s, start) == stop && start < stop
    requires TagEnd(s, stop, None) == Some(end)
    ensures TagAt(s, i) == Some(Tag(Lower(s[start..stop]), s[i + 1] == '/', end))
  {
    hide NameEnd, TagEnd, Lower;
  }

  lemma NoTagThere(s: string, i: nat)
    requires i + 1 < |s| && !IsNameByte(s[i + 1]) && s[i + 1] != '/'
    ensures TagAt(s, i).None?
  {
  }

  // ---- each piece is stripped to its reading ----

  lemma StripChar(s: string, i: nat)
    requires i < |s| && (s[i] == '<' ==> TagAt(s, i).None?)
    ensures Strip(s, i) == [s[i]] + Strip(s, i + 1)
  {
    hide TagAt, IsBlock, IsDropped;
  }

  /** s[i..j] is text, wherever it came from. */
  predicate TextRun(s: string, i: nat, j: nat) {
    && i <= j <= |s|
    && forall k :: i <= k < j && s[k] == '<' ==> k + 1 < |s| && !IsNameByte(s[k + 1]) && s[k + 1] != '/'
  }

  lemma {:induction false} RunStays(s: string, i: nat, j: nat)
    requires TextRun(s, i, j)
    ensures Strip(s, i) == s[i..j] + Strip(s, j)
    decreases j - i
  {
    hide Strip, TagAt, IsNameByte;
    if i < j {
      if s[i] == '<' { NoTagThere(s, i); }
      StripChar(s, i);
      RunStays(s, i + 1, j);
      assert s[i..j] == [s[i]] + s[i + 1..j];
    }
  }

  lemma TextStays(s: string, i: nat, t: string)
    requires StandsAt(s, i, t) && IsText(t)
    ensures i + |t| <= |s| && Strip(s, i) == t + Strip(s, i + |t|)
  {
    hide IsNameByte, Strip;
    forall k | i <= k < i + |t| && s[k] == '<' ensures k + 1 < |s| && !IsNameByte(s[k + 1]) && s[k + 1] != '/' {
      assert s[i + (k - i)] == t[k - i];
      assert k - i + 1 < |t| && s[i + (k - i + 1)] == t[k - i + 1];
    }
    RunStays(s, i, i + |t|);
  }

  /** The name after "</" is the run that stands there. */
  lemma ClosesAs(s: string, i: nat)
    requires i + 2 <= |s|
    ensures TagAt(s, i).Some? && s[i + 1] == '/' ==> TagAt(s, i).value.name == Lower(s[i + 2..NameEnd(s, i + 2)])
    ensures TagAt(s, i).Some? ==> TagAt(s, i).value.closing == (s[i + 1] == '/')
  {
    hide TagEnd, Lower;
  }

  lemma {:induction false} RunStands(s: string, j: nat, t: string)
    requires StandsAt(s, j, t) && j + |t| < |s| && !IsNameByte(s[j + |t|])
    ensures s[j..NameEnd(s, j)] == NameRun(t)
    decreases |t|
  {
    if |t| > 0 && IsNameByte(t[0]) {
      StandsNext(s, j, t);
      RunStands(s, j + 1, t[1..]);
      assert s[j..NameEnd(s, j)] == [s[j]] + s[j + 1..NameEnd(s, j + 1)];
    } else if |t| > 0 {
      StandsNext(s, j, t);
    }
  }

  /** No position of the content closes the element. */
  lemma NotClosedThere(s: string, i: nat, content: string, name: string)
    requires StandsAt(s, i, content) && |content| > 0 && i + |content| < |s| && s[i + |content|] == '<'
    requires IsContent(content, name)
    ensures i + 2 <= |s| && (s[i] == '<' && TagAt(s, i).Some? && TagAt(s, i).value.closing ==> TagAt(s, i).value.name != Lower(name))
  {
    ClosesAs(s, i);
    StandsNext(s, i, content);
    if |content| > 1 && content[0] == '<' && content[1] == '/' {
      assert Lower(NameRun(content[0 + 2..])) != Lower(name);
      StandsTwo(s, i, content);
      RunStands(s, i + 2, content[2..]);
    }
    hide TagAt, NameRun, Lower, NameEnd, IsNameByte;
  }

  lemma StandsTwo(s: string, i: nat, t: string)
    requires StandsAt(s, i, t) && |t| > 1
    ensures StandsAt(s, i + 2, t[2..])
  {
    StandsNext(s, i, t);
    StandsNext(s, i + 1, t[1..]);
    assert t[1..][1..] == t[2..];
  }

  lemma ContentNext(content: string, name: string)
    requires IsContent(content, name) && |content| > 0
    ensures IsContent(content[1..], name)
  {
    hide NameRun, Lower;
    forall i | 0 <= i < |content[1..]| - 1 && content[1..][i] == '<' && content[1..][i + 1] == '/'
      ensures Lower(NameRun(content[1..][i + 2..])) != Lower(name)
    {
      assert content[i + 1] == '<' && content[i + 2] == '/';
      assert content[1..][i + 2..] == content[i + 1 + 2..];
    }
  }

  lemma CloseStep(s: string, i: nat, name: string)
    requires i < |s|
    ensures CloseOf(s, i, name) ==
      if s[i] == '<' && TagAt(s, i).Some? && TagAt(s, i).value.name == name && TagAt(s, i).value.closing
      then Some(TagAt(s, i).value.end) else CloseOf(s, i + 1, name)
  {
  }

  lemma {:induction false} ContentIsPassed(s: string, i: nat, content: string, name: string, closer: string, trailer: string)
    requires StandsAt(s, i, content) && StandsAt(s, i + |content|, TagText(true, closer, trailer))
    requires IsContent(content, name) && IsName(closer) && AreAttributes(trailer) && Lower(closer) == Lower(name)
    ensures CloseOf(s, i, Lower(name)) == Some(i + |content| + |TagText(true, closer, trailer)|)
    decreases |content|
  {
    hide *;
    TagIsRead(s, i + |content|, true, closer, trailer);
    CloseStep(s, i, Lower(name));
    if |content| > 0 {
      NotClosedThere(s, i, content, name);
      StandsNext(s, i, content);
      ContentNext(content, name);
      ContentIsPassed(s, i + 1, content[1..], name, closer, trailer);
    }
  }

  lemma MarkIsRead(s: string, i: nat, closing: bool, name: string, attributes: string)
    requires StandsAt(s, i, TagText(closing, name, attributes))
    requires IsName(name) && AreAttributes(attributes) && !IsDropped(Lower(name))
    ensures i + |TagText(closing, name, attributes)| <= |s|
    ensures Strip(s, i) == (if IsBlock(Lower(name)) then " " else "") + Strip(s, i + |TagText(closing, name, attributes)|)
  {
    hide *;
    TagIsRead(s, i, closing, name, attributes);
    StripStep(s, i);
  }

  lemma DroppedIsRead(s: string, i: nat, name: string, attributes: string, content: string, closer: string, trailer: string)
    requires StandsAt(s, i, TagText(false, name, attributes))
    requires StandsAt(s, i + |TagText(false, name, attributes)|, content)
    requires StandsAt(s, i + |TagText(false, name, attributes)| + |content|, TagText(true, closer, trailer))
    requires IsName(name) && AreAttributes(attributes) && IsDropped(Lower(name)) && IsContent(content, name)
    requires IsName(closer) && AreAttributes(trailer) && Lower(closer) == Lower(name)
    ensures var end := i + |TagText(false, name, attributes)| + |content| + |TagText(true, closer, trailer)|;
      end <= |s| && Strip(s, i) == Strip(s, end)
  {
    hide *;
    TagIsRead(s, i, false, name, attributes);
    ContentIsPassed(s, i + |TagText(false, name, attributes)|, content, name, closer, trailer);
    StripStep(s, i);
  }

  lemma PieceIsRead(s: string, i: nat, p: Piece)
    requires StandsAt(s, i, RenderOne(p)) && WellFormed(p)
    ensures Strip(s, i) == ReadingOne(p) + Strip(s, i + |RenderOne(p)|)
  {
    hide Strip, TagAt, IsBlock, IsDropped, AreAttributes, IsName, IsText, IsContent, TagText, Lower;
    match p {
      case Text(t) => TextStays(s, i, t);
      case Mark(closing, name, attributes) => MarkIsRead(s, i, closing, name, attributes);
      case Dropped(name, attributes, content, closer, trailer) =>
        var opening, ending := TagText(false, name, attributes), TagText(true, closer, trailer);
        StandsIn(s, i, opening + content, ending);
        StandsIn(s, i, opening, content);
        DroppedIsRead(s, i, name, attributes, content, closer, trailer);
    }
  }

  ghost predicate Document(doc: seq<Piece>) { forall p <- doc :: WellFormed(p) }

  lemma {:induction false} DocumentIsRead(s: string, i: nat, doc: seq<Piece>)
    requires Document(doc) && i <= |s| && s[i..] == Render(doc)
    ensures Strip(s, i) == Reading(doc)
    decreases |doc|
  {
    hide Strip, RenderOne, ReadingOne, WellFormed;
    if |doc| == 0 {
      StripEnds(s);
    } else {
      var one := RenderOne(doc[0]);
      assert StandsAt(s, i, one) by { forall k | 0 <= k < |one| ensures s[i + k] == one[k] { assert s[i..][k] == Render(doc)[k]; } }
      assert s[i + |one|..] == s[i..][|one|..] == Render(doc[1..]);
      PieceIsRead(s, i, doc[0]);
      DocumentIsRead(s, i + |one|, doc[1..]);
    }
  }

  /** Whatever document was written, stripping its markup gives its text, with a space for
      each block tag and nothing of what scripts and style sheets hold. */
  lemma StripGivesReading(doc: seq<Piece>)
    requires Document(doc)
    ensures Strip(Render(doc), 0) == Reading(doc)
  {
    DocumentIsRead(Render(doc), 0, doc);
  }

  lemma AloneIsRead(p: Piece)
    requires WellFormed(p)
    ensures Strip(RenderOne(p), 0) == ReadingOne(p)
  {
    hide *;
    WholeStands(RenderOne(p));
    PieceIsRead(RenderOne(p), 0, p);
    StripEnds(RenderOne(p));
  }

  lemma WholeStands(t: string)
    ensures StandsAt(t, 0, t)
  {
  }

  /** Scripts and style sheets leave nothing, however their tags are written; and of any
      other element only the tag itself goes. */
  lemma ScriptsAndStylesLeaveNothing(name: string, attributes: string, content: string, closer: string, trailer: string)
    requires IsName(name) && AreAttributes(attributes) && IsContent(content, name)
    requires IsName(closer) && AreAttributes(trailer) && Lower(closer) == Lower(name)
    ensures Lower(name) == "script" || Lower(name) == "style" ==>
      Strip(TagText(false, name, attributes) + content + TagText(true, closer, trailer), 0) == ""
    ensures Lower(name) != "script" && Lower(name) != "style" ==>
      Strip(TagText(false, name, attributes), 0) in {"", " "}
  {
    hide IsName, AreAttributes, IsContent, Lower, TagText, Strip, IsBlock;
    if IsDropped(Lower(name)) {
      AloneIsRead(Piece.Dropped(name, attributes, content, closer, trailer));
    } else {
      AloneIsRead(Mark(false, name, attributes));
    }
  }

  // ---- stripping again ----

  lemma {:induction false} ReadingIsText(doc: seq<Piece>)
    requires Document(doc)
    ensures IsText(Reading(doc))
  {
    if |doc| > 0 {
      assert WellFormed(doc[0]);
      ReadingIsText(doc[1..]);
      hide WellFormed, IsNameByte, IsBlock;
      var one, rest := ReadingOne(doc[0]), Reading(doc[1..]);
      assert IsText(one);
      forall i | 0 <= i < |one + rest| && (one + rest)[i] == '<'
        ensures i + 1 < |one + rest| && !IsNameByte((one + rest)[i + 1]) && (one + rest)[i + 1] != '/'
      {
        if i >= |one| { assert rest[i - |one|] == '<'; }
      }
    }
  }

  /** What is left of a document holds no tag: stripping it again changes nothing. */
  lemma StripIsStable(doc: seq<Piece>)
    requires Document(doc)
    ensures Strip(Strip(Render(doc), 0), 0) == Strip(Render(doc), 0)
  {
    StripGivesReading(doc);
    ReadingIsText(doc);
    var t := Reading(doc);
    hide Strip, Render, Reading;
    TextToEnd(t, 0, t);
  }

  /** Which is not so of every text: around an inline tag, the halves of a block tag can
      meet, and a second pass removes what the first one made. */
  lemma HalvesCanMeet(inline: string, block: string)
    requires IsName(inline) && !IsDropped(Lower(inline)) && !IsBlock(Lower(inline))
    requires IsName(block) && !IsDropped(Lower(block)) && IsBlock(Lower(block))
    ensures var s := "<" + TagText(false, inline, "") + (block + ">");
      Strip(s, 0) == TagText(false, block, "") && Strip(Strip(s, 0), 0) == " "
  {
    var tag, half, whole := TagText(false, inline, ""), block + ">", TagText(false, block, "");
    var s := "<" + tag + half;
    HalvesStand(s, tag, half, whole, inline, block);
    hide *;
    FirstPass(s, inline, half);
    MarkIsRead(whole, 0, false, block, "");
    StripEnds(whole);
  }

  lemma HalvesStand(s: string, tag: string, half: string, whole: string, inline: string, block: string)
    requires IsName(inline) && IsName(block)
    requires tag == TagText(false, inline, "") && half == block + ">" && whole == TagText(false, block, "") && s == "<" + tag + half
    ensures StandsAt(whole, 0, whole) && whole == ['<'] + half && AreAttributes("") && IsText(half)
    ensures |s| == 1 + |tag| + |half| && s[0] == '<' && s[1] == '<' && StandsAt(s, 1, tag) && StandsAt(s, 1 + |tag|, half)
  {
    NoMarkIn(block);
    assert whole == ['<'] + half && tag == "<" + inline + "" + ">";
    hide *;
    assert tag[0] == '<';
    ThreeParts("<", tag, half);
    StandsInItself(whole);
  }

  lemma NoMarkIn(name: string)
    requires IsName(name)
    ensures IsText(name + ">") && AreAttributes("")
  {
    forall i | 0 <= i < |name + ">"| ensures (name + ">")[i] != '<' {
      if i < |name| { assert (name + ">")[i] == name[i]; }
    }
  }

  lemma StandsInItself(t: string)
    ensures StandsAt(t, 0, t)
  {
  }

  lemma ThreeParts(a: string, b: string, c: string)
    requires |a| == 1 && |b| > 0
    ensures var s := a + b + c;
      |s| == 1 + |b| + |c| && s[0] == a[0] && s[1] == b[0] && StandsAt(s, 1, b) && StandsAt(s, 1 + |b|, c)
  {
  }

  lemma FirstPass(s: string, inline: string, half: string)
    requires IsName(inline) && !IsDropped(Lower(inline)) && !IsBlock(Lower(inline)) && AreAttributes("") && IsText(half)
    requires |s| == 1 + |TagText(false, inline, "")| + |half| && |s| > 1 && s[0] == '<' && s[1] == '<'
    requires StandsAt(s, 1, TagText(false, inline, "")) && StandsAt(s, 1 + |TagText(false, inline, "")|, half)
    ensures Strip(s, 0) == ['<'] + half
  {
    hide *;
    OpensNoTag(s);
    var k := 1 + |TagText(false, inline, "")|;
    MarkIsRead(s, 1, false, inline, "");
    assert Strip(s, 1) == "" + Strip(s, k);
    TextToEnd(s, k, half);
  }

  lemma OpensNoTag(s: string)
    requires |s| > 1 && s[0] == '<' && s[1] == '<'
    ensures Strip(s, 0) == ['<'] + Strip(s, 1)
  {
    NoTagThere(s, 0);
    StripChar(s, 0);
  }

  lemma TextToEnd(s: string, i: nat, t: string)
    requires StandsAt(s, i, t) && IsText(t) && |s| == i + |t|
    ensures i <= |s| && Strip(s, i) == t
  {
    hide *;
    TextStays(s, i, t);
    StripEnds(s);
    assert t + "" == t;
  }
}
