/** Reducing feed markup to prose (internal/ingestion/plaintext.go). */
module PlainText {
  import opened Options
  import opened Words

  // ---- tags ----

  datatype Tag = Tag(name: string, closing: bool, end: nat)

  predicate IsNameByte(c: char) { 'a' <= c <= 'z' || 'A' <= c <= 'Z' || '0' <= c <= '9' }

  function LowerChar(c: char): char { if 'A' <= c <= 'Z' then (c as int + 32) as char else c }

  function Lower(s: string): (t: string)
    ensures |t| == |s| && forall i :: 0 <= i < |s| ==> t[i] == LowerChar(s[i])
  {
    seq(|s|, i requires 0 <= i < |s| => LowerChar(s[i]))
  }

  /** Where the run of name bytes from j ends. */
  function NameEnd(s: string, j: nat): (e: nat)
    requires j <= |s|
    ensures j <= e <= |s|
    ensures forall k :: j <= k < e ==> IsNameByte(s[k])
    ensures e < |s| ==> !IsNameByte(s[e])
    decreases |s| - j
  {
    if j < |s| && IsNameByte(s[j]) then NameEnd(s, j + 1) else j
  }

  /** Just past the first '>' from j that no quotation holds, inside one opened by `quote`
      if there is one. */
  function TagEnd(s: string, j: nat, quote: Option<char>): (e: Option<nat>)
    requires j <= |s|
    ensures e.Some? ==> j < e.value <= |s| && s[e.value - 1] == '>'
    decreases |s| - j
  {
    if j == |s| then None
    else match quote
      case Some(q) => TagEnd(s, j + 1, if s[j] == q then None else quote)
      case None =>
        if s[j] == '"' || s[j] == '\'' then TagEnd(s, j + 1, Some(s[j]))
        else if s[j] == '>' then Some(j + 1)
        else TagEnd(s, j + 1, None)
  }

  function NameStart(s: string, i: nat): (j: nat)
    requires i < |s|
    ensures i < j <= |s|
  {
    if i + 1 < |s| && s[i + 1] == '/' then i + 2 else i + 1
  }

  /** The tag opened by the '<' at i, if one is. */
  function TagAt(s: string, i: nat): (tag: Option<Tag>)
    requires i < |s|
    ensures tag.Some? ==> i + 2 < tag.value.end <= |s| && |tag.value.name| > 0
  {
    var start := NameStart(s, i);
    var stop := NameEnd(s, start);
    if stop == start then None
    else match TagEnd(s, stop, None)
      case None => None
      case Some(end) => Some(Tag(Lower(s[start..stop]), s[i + 1] == '/', end))
  }

  /** scanTag: the name, then the first '>' outside quotation marks. */
  method ScanTag(s: string, i: nat) returns (tag: Option<Tag>)
    requires i < |s|
    ensures tag == TagAt(s, i)
  {
    hide Lower, IsNameByte;
    var j := i + 1;
    var closing := j < |s| && s[j] == '/';
    if closing { j := j + 1; }
    var start := j;
    while j < |s| && IsNameByte(s[j])
      invariant start <= j <= |s| && NameEnd(s, j) == NameEnd(s, start)
    {
      j := j + 1;
    }
    tag := None;
    if j > start {
      var stop, quote, done := j, None, false;
      while j < |s| && !done
        invariant stop <= j <= |s|
        invariant done ==> j < |s| && quote.None? && s[j] == '>'
        invariant TagEnd(s, j, quote) == TagEnd(s, stop, None)
        decreases |s| - j, !done
      {
        match quote {
          case Some(q) => if s[j] == q { quote := None; }
          case None =>
            if s[j] == '"' || s[j] == '\'' { quote := Some(s[j]); }
            else if s[j] == '>' { done := true; }
        }
        if !done { j := j + 1; }
      }
      if done { tag := Some(Tag(Lower(s[start..stop]), closing, j + 1)); }
    }
  }

  /** Just past the first closing tag of this name from i. */
  function CloseOf(s: string, i: nat, name: string): (e: Option<nat>)
    requires i <= |s|
    ensures e.Some? ==> i + 2 < e.value <= |s|
    decreases |s| - i
  {
    if i == |s| then None
    else if s[i] == '<' && TagAt(s, i).Some? && TagAt(s, i).value.name == name && TagAt(s, i).value.closing
    then Some(TagAt(s, i).value.end)
    else CloseOf(s, i + 1, name)
  }

  method IndexClosingTag(s: string, from: nat, name: string) returns (e: Option<nat>)
    requires from <= |s|
    ensures e == CloseOf(s, from, name)
  {
    e := None;
    var i := from;
    while i < |s| && e.None?
      invariant from <= i <= |s|
      invariant e.Some? ==> e == CloseOf(s, from, name)
      invariant e.None? ==> CloseOf(s, i, name) == CloseOf(s, from, name)
      decreases |s| - i, e.None?
    {
      if s[i] == '<' {
        var tag := ScanTag(s, i);
        if tag.Some? && tag.value.name == name && tag.value.closing { e := Some(tag.value.end); }
      }
      i := i + 1;
    }
  }

  // ---- stripping ----

  predicate IsDropped(name: string) { name in {"script", "style"} }

  predicate IsBlock(name: string) {
    name in {"address", "article", "aside", "blockquote", "br", "caption", "dd", "div", "dl", "dt", "figcaption", "figure",
             "footer", "h1", "h2", "h3", "h4", "h5", "h6", "header", "hr", "li", "main", "nav", "ol", "p", "pre", "section",
             "table", "tbody", "td", "tfoot", "th", "thead", "tr", "ul"}
  }

  /** The text from i with its tags removed: a block tag leaves a space, a dropped element
      goes with its content, and a '<' that opens no tag is text. */
  function Strip(s: string, i: nat): string
    requires i <= |s|
    decreases |s| - i
  {
    if i == |s| then ""
    else if s[i] != '<' || TagAt(s, i).None? then [s[i]] + Strip(s, i + 1)
    else
      var Tag(name, _, end) := TagAt(s, i).value;
      if IsDropped(name) then
        match CloseOf(s, end, name)
        case None => ""
        case Some(closed) => Strip(s, closed)
      else (if IsBlock(name) then " " else "") + Strip(s, end)
  }

  /** Text as the library leaves it: entities decoded and whitespace collapsed. */
  datatype Library = Library(unescape: string -> string, isSpace: char -> bool)

  function Collapsed(l: Library, s: string): string { Join(Runs(s, (c: char) => !l.isSpace(c)), ' ') }

  function Prose(l: Library, s: string): string { if s == "" then "" else Collapsed(l, l.unescape(Strip(s, 0))) }

  /** plainText: one pass with a builder. */
  method Plain(l: Library, s: string) returns (text: string)
    ensures text == Prose(l, s)
  {
    hide IsBlock, IsDropped, TagAt, CloseOf, Strip, Ahead, Collapsed;
    StripStarts(s);
    var built, i, more := "", 0, true;
    while i < |s| && more
      invariant i <= |s|
      invariant built + Ahead(s, i, more) == Strip(s, 0) && (more || i < |s|)
      decreases |s| - i, more
    {
      BuildsOn(built, s, i);
      var tag := None;
      if s[i] == '<' { tag := ScanTag(s, i); }
      if tag.None? {
        built := built + [s[i]];
        i := i + 1;
      } else if IsDropped(tag.value.name) {
        var closed := IndexClosingTag(s, tag.value.end, tag.value.name);
        if closed.Some? { i := closed.value; } else { more := false; }
      } else {
        if IsBlock(tag.value.name) { built := built + [' ']; }
        i := tag.value.end;
      }
    }
    assert built == Strip(s, 0) by { AheadEnds(s, built, i, more); }
    text := if s == "" then "" else Collapsed(l, l.unescape(built));
  }

  /** What a builder holding `built` appends at i, and where it goes on. */
  lemma BuildsOn(built: string, s: string, i: nat)
    requires i < |s|
    ensures s[i] != '<' || TagAt(s, i).None? ==> built + [s[i]] + Ahead(s, i + 1, true) == built + Ahead(s, i, true)
    ensures s[i] == '<' && TagAt(s, i).Some? ==>
      var Tag(name, _, end) := TagAt(s, i).value;
      && (IsDropped(name) ==>
            (match CloseOf(s, end, name)
             case Some(closed) => built + Ahead(s, closed, true) == built + Ahead(s, i, true)
             case None => built + Ahead(s, i, false) == built + Ahead(s, i, true)))
      && (!IsDropped(name) && IsBlock(name) ==> built + [' '] + Ahead(s, end, true) == built + Ahead(s, i, true))
      && (!IsDropped(name) && !IsBlock(name) ==> built + Ahead(s, end, true) == built + Ahead(s, i, true))
  {
    hide IsBlock, IsDropped, TagAt, CloseOf, Strip;
    StripStep(s, i);
    if s[i] != '<' || TagAt(s, i).None? {
      Together(built, [s[i]], Strip(s, i + 1));
    } else if !IsDropped(TagAt(s, i).value.name) {
      Together(built, if IsBlock(TagAt(s, i).value.name) then " " else "", Strip(s, TagAt(s, i).value.end));
    }
  }

  lemma Together(a: string, b: string, c: string)
    ensures a + (b + c) == a + b + c && (b == "" ==> a + b == a)
  {
  }

  /** What is still to be written: nothing more, once a dropped element is left open. */
  function Ahead(s: string, i: nat, more: bool): string
    requires i <= |s|
  {
    if more then Strip(s, i) else ""
  }

  lemma StripStarts(s: string)
    ensures "" + Ahead(s, 0, true) == Strip(s, 0)
  {
  }

  lemma AheadEnds(s: string, built: string, i: nat, more: bool)
    requires i <= |s| && (more ==> i == |s|)
    ensures built + Ahead(s, i, more) == built
  {
    if more { StripEnds(s); }
  }

  lemma StripEnds(s: string)
    ensures Strip(s, |s|) == ""
  {
  }

  lemma StripStep(s: string, i: nat)
    requires i < |s|
    ensures Strip(s, i) ==
      if s[i] != '<' || TagAt(s, i).None? then [s[i]] + Strip(s, i + 1)
      else if IsDropped(TagAt(s, i).value.name) then
        match CloseOf(s, TagAt(s, i).value.end, TagAt(s, i).value.name) case None => "" case Some(closed) => Strip(s, closed)
      else (if IsBlock(TagAt(s, i).value.name) then " " else "") + Strip(s, TagAt(s, i).value.end)
  {
    hide IsBlock, IsDropped, TagAt;
  }

  /** Entities are decoded after the tags are gone: what they spell is text, even a tag. */
  lemma EntitiesStayText(l: Library, s: string)
    requires s != "" && '<' !in s
    ensures Prose(l, s) == Collapsed(l, l.unescape(s))
  {
    NoTagNoChange(s, 0);
    hide Strip;
  }

  lemma {:induction false} NoTagNoChange(s: string, i: nat)
    requires i <= |s| && '<' !in s
    ensures Strip(s, i) == s[i..]
    decreases |s| - i
  {
    if i == |s| {
      StripEnds(s);
    } else {
      assert s[i] in s;
      StripStep(s, i);
      NoTagNoChange(s, i + 1);
      hide Strip;
      assert s[i..] == [s[i]] + s[i + 1..];
    }
  }

  /** The same letter, or the other case of it. */
  predicate SameLetter(a: char, b: char) {
    a == b || ('a' <= a <= 'z' && b as int + 32 == a as int) || ('a' <= b <= 'z' && a as int + 32 == b as int)
  }

  /** The case of a tag's name is nothing to it. */
  lemma CaseIsNothing(name: string, other: string)
    requires |name| == |other| && forall i :: 0 <= i < |name| ==> SameLetter(name[i], other[i])
    ensures Lower(name) == Lower(other)
  {
    assert forall i :: 0 <= i < |name| ==> Lower(name)[i] == Lower(other)[i];
  }
}
