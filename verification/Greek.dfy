/** Writing Greek, and the Latin letters that do not decompose, in plain Latin
    (internal/cashback/catalogue/transliterate.go; ELOT 743 / ISO 843). */
module Greek {
  import opened Options

  // ---- the rules ----

  predicate IsAlpha(r: char) { r == 'α' || r == 'Α' || r == 'ά' || r == 'Ά' }
  predicate IsEpsilon(r: char) { r == 'ε' || r == 'Ε' || r == 'έ' || r == 'Έ' }
  predicate IsEta(r: char) { r == 'η' || r == 'Η' || r == 'ή' || r == 'Ή' }
  predicate IsOmicron(r: char) { r == 'ο' || r == 'Ο' || r == 'ό' || r == 'Ό' }
  predicate IsGamma(r: char) { r == 'γ' || r == 'Γ' }

  /** Plain or with a tonos, never with a diaeresis. */
  predicate IsUpsilon(r: char) { r == 'υ' || r == 'Υ' || r == 'ύ' || r == 'Ύ' }

  predicate IsIota(r: char) { r == 'ι' || r == 'Ι' || r == 'ί' || r == 'Ί' || r == 'ϊ' || r == 'Ϊ' || r == 'ΐ' }
  predicate IsOmega(r: char) { r == 'ω' || r == 'Ω' || r == 'ώ' || r == 'Ώ' }

  predicate HasDiaeresis(r: char) { r == 'ϋ' || r == 'ΰ' || r == 'Ϋ' }

  predicate IsVowel(r: char) {
    || IsAlpha(r) || IsEpsilon(r) || IsEta(r) || IsOmicron(r) || IsUpsilon(r) || HasDiaeresis(r)
    || IsIota(r) || IsOmega(r)
  }

  /** What makes αυ, ευ and ηυ take a v. */
  predicate IsVoiced(r: char) {
    || IsVowel(r) || IsGamma(r)
    || r == 'β' || r == 'Β' || r == 'δ' || r == 'Δ' || r == 'ζ' || r == 'Ζ' || r == 'λ' || r == 'Λ'
    || r == 'μ' || r == 'Μ' || r == 'ν' || r == 'Ν' || r == 'ρ' || r == 'Ρ'
  }

  /** The single runes with a Latin form: the vowels, the consonants, and the Latin
      letters that have no decomposition. */
  function Single(r: char): Option<string> {
    if Vowel(r).Some? then Vowel(r) else if Consonant(r).Some? then Consonant(r) else Undecomposed(r)
  }

  function Vowel(r: char): Option<string> {
    if IsAlpha(r) then Some("a")
    else if IsEpsilon(r) then Some("e")
    else if IsEta(r) || IsIota(r) then Some("i")
    else if IsOmicron(r) || IsOmega(r) then Some("o")
    else if IsUpsilon(r) || HasDiaeresis(r) then Some("y")
    else None
  }

  function Consonant(r: char): Option<string> {
    match r
    case 'β' => Some("v") case 'Β' => Some("v")
    case 'γ' => Some("g") case 'Γ' => Some("g")
    case 'δ' => Some("d") case 'Δ' => Some("d")
    case 'ζ' => Some("z") case 'Ζ' => Some("z")
    case 'θ' => Some("th") case 'Θ' => Some("th")
    case 'κ' => Some("k") case 'Κ' => Some("k")
    case 'λ' => Some("l") case 'Λ' => Some("l")
    case 'μ' => Some("m") case 'Μ' => Some("m")
    case 'ν' => Some("n") case 'Ν' => Some("n")
    case 'ξ' => Some("x") case 'Ξ' => Some("x")
    case 'π' => Some("p") case 'Π' => Some("p")
    case 'ρ' => Some("r") case 'Ρ' => Some("r")
    case 'σ' => Some("s") case 'Σ' => Some("s") case 'ς' => Some("s")
    case 'τ' => Some("t") case 'Τ' => Some("t")
    case 'φ' => Some("f") case 'Φ' => Some("f")
    case 'χ' => Some("ch") case 'Χ' => Some("ch")
    case 'ψ' => Some("ps") case 'Ψ' => Some("ps")
    case _ => None
  }

  function Undecomposed(r: char): Option<string> {
    match r
    case 'ß' => Some("ss") case 'ẞ' => Some("ss")
    case 'ø' => Some("o") case 'Ø' => Some("o")
    case 'æ' => Some("ae") case 'Æ' => Some("ae")
    case 'œ' => Some("oe") case 'Œ' => Some("oe")
    case 'ł' => Some("l") case 'Ł' => Some("l")
    case 'đ' => Some("d") case 'Đ' => Some("d")
    case 'þ' => Some("th") case 'Þ' => Some("th")
    case 'ð' => Some("d") case 'Ð' => Some("d")
    case _ => None
  }

  /** Which Latin letters are written as what; every other letter is left to the fold. */
  lemma LatinLettersOf(r: char)
    ensures Undecomposed(r) == Some("ss") <==> r == 'ß' || r == 'ẞ'
    ensures Undecomposed(r) == Some("ae") <==> r == 'æ' || r == 'Æ'
    ensures Undecomposed(r) == Some("oe") <==> r == 'œ' || r == 'Œ'
    ensures Undecomposed(r) == Some("th") <==> r == 'þ' || r == 'Þ'
    ensures Undecomposed(r) == Some("d") <==> r == 'đ' || r == 'Đ' || r == 'ð' || r == 'Ð'
    ensures Undecomposed(r) == Some("o") <==> r == 'ø' || r == 'Ø'
    ensures Undecomposed(r) == Some("l") <==> r == 'ł' || r == 'Ł'
  {
  }

  /** The pair of runes starting a text, if the standard names it; `third` is the rune
      after it, if there is one. */
  function Pair(first: char, second: char, third: Option<char>): Option<string> {
    if IsGamma(first) && IsGamma(second) then Some("ng")
    else if IsGamma(first) && (second == 'ξ' || second == 'Ξ') then Some("nx")
    else if IsGamma(first) && (second == 'χ' || second == 'Χ') then Some("nch")
    else if !IsUpsilon(second) then None
    else
      var voiced := third.Some? && IsVoiced(third.value);
      if IsOmicron(first) then Some("ou")
      else if IsAlpha(first) then Some(if voiced then "av" else "af")
      else if IsEpsilon(first) then Some(if voiced then "ev" else "ef")
      else if IsEta(first) then Some(if voiced then "iv" else "if")
      else None
  }

  function At(s: string, i: nat): Option<char> { if i < |s| then Some(s[i]) else None }

  function Digraph(s: string, i: nat): (latin: Option<string>)
    ensures latin.Some? ==> i + 1 < |s|
  {
    if i + 1 < |s| then Pair(s[i], s[i + 1], At(s, i + 2)) else None
  }

  /** What is written for the rune or the pair at i. */
  function Written(s: string, i: nat): string
    requires i < |s|
  {
    match Digraph(s, i)
    case Some(latin) => latin
    case None => match Single(s[i]) case Some(latin) => latin case None => [s[i]]
  }

  /** How many runes that takes. */
  function Taken(s: string, i: nat): (n: nat)
    requires i < |s|
    ensures 1 <= n <= 2 && i + n <= |s|
  {
    if Digraph(s, i).Some? then 2 else 1
  }

  function LatinFrom(s: string, i: nat): string
    requires i <= |s|
    decreases |s| - i
  {
    if i == |s| then "" else Written(s, i) + LatinFrom(s, i + Taken(s, i))
  }

  function Latin(s: string): string { LatinFrom(s, 0) }

  /** transliterate: one pass with a builder, a pair taking one step more. */
  method Transliterate(s: string) returns (latin: string)
    ensures latin == Latin(s)
  {
    hide Single, Pair;
    latin := "";
    var i := 0;
    while i < |s|
      invariant i <= |s| && latin + LatinFrom(s, i) == Latin(s)
      decreases |s| - i
    {
      assert latin + (Written(s, i) + LatinFrom(s, i + Taken(s, i))) == latin + Written(s, i) + LatinFrom(s, i + Taken(s, i));
      var digraph := Digraph(s, i);
      if digraph.Some? {
        latin := latin + digraph.value;
        i := i + 1;
      } else {
        var single := Single(s[i]);
        latin := latin + if single.Some? then single.value else [s[i]];
      }
      i := i + 1;
    }
  }

  // ---- case and tonos ----

  /** The lower-case letter without its tonos; a diaeresis stays. */
  function Plain(r: char): char {
    if IsAlpha(r) then 'α'
    else if IsEpsilon(r) then 'ε'
    else if IsEta(r) then 'η'
    else if r == 'ϊ' || r == 'Ϊ' || r == 'ΐ' then 'ϊ'
    else if IsIota(r) then 'ι'
    else if IsOmicron(r) then 'ο'
    else if IsOmega(r) then 'ω'
    else if IsUpsilon(r) then 'υ'
    else if HasDiaeresis(r) then 'ϋ'
    else PlainConsonant(r)
  }

  function PlainConsonant(r: char): char {
    match r
    case 'Β' => 'β' case 'Γ' => 'γ' case 'Δ' => 'δ' case 'Ζ' => 'ζ' case 'Θ' => 'θ' case 'Κ' => 'κ'
    case 'Λ' => 'λ' case 'Μ' => 'μ' case 'Ν' => 'ν' case 'Ξ' => 'ξ' case 'Π' => 'π' case 'Ρ' => 'ρ'
    case 'Σ' => 'σ' case 'ς' => 'σ' case 'Τ' => 'τ' case 'Φ' => 'φ' case 'Χ' => 'χ' case 'Ψ' => 'ψ'
    case _ => r
  }

  /** The same text but for the case and the tonos of its Greek letters. */
  predicate SameLetters(s: string, t: string) {
    |s| == |t| && forall i :: 0 <= i < |s| ==> Plain(s[i]) == Plain(t[i])
  }

  lemma PlainReads(r: char)
    ensures Single(Plain(r)) == Single(r) && (Single(r).None? ==> Plain(r) == r)
  {
    hide Consonant, Undecomposed, PlainConsonant;
    if Vowel(r).None? {
      ConsonantReads(r);
      ConsonantIsNoVowel(r);
      assert Plain(r) == PlainConsonant(r);
    }
  }

  lemma ConsonantReads(r: char)
    ensures Consonant(PlainConsonant(r)) == Consonant(r)
    ensures Consonant(r).None? ==> PlainConsonant(r) == r
  {
  }

  lemma ConsonantIsNoVowel(r: char)
    ensures Vowel(r).None? ==> Vowel(PlainConsonant(r)).None?
  {
  }

  lemma PlainVowels(r: char)
    ensures IsAlpha(r) == (Plain(r) == 'α') && IsEpsilon(r) == (Plain(r) == 'ε') && IsEta(r) == (Plain(r) == 'η')
    ensures IsOmicron(r) == (Plain(r) == 'ο') && IsUpsilon(r) == (Plain(r) == 'υ') && HasDiaeresis(r) == (Plain(r) == 'ϋ')
    ensures IsGamma(r) == (Plain(r) == 'γ') && (r == 'ξ' || r == 'Ξ') == (Plain(r) == 'ξ') && (r == 'χ' || r == 'Χ') == (Plain(r) == 'χ')
  {
  }

  lemma PlainVoices(r: char)
    ensures IsVoiced(Plain(r)) == IsVoiced(r)
  {
  }

  lemma PairIsPlain(a: char, b: char, c: Option<char>, a': char, b': char, c': Option<char>)
    requires Plain(a) == Plain(a') && Plain(b) == Plain(b')
    requires c.Some? == c'.Some? && (c.Some? ==> Plain(c.value) == Plain(c'.value))
    ensures Pair(a, b, c) == Pair(a', b', c')
  {
    PlainVowels(a);
    PlainVowels(a');
    PlainVowels(b);
    PlainVowels(b');
    if c.Some? {
      PlainVoices(c.value);
      PlainVoices(c'.value);
    }
    hide Plain, IsAlpha, IsEpsilon, IsEta, IsOmicron, IsUpsilon, IsGamma, IsVoiced, HasDiaeresis;
  }

  lemma SameStep(s: string, t: string, i: nat)
    requires SameLetters(s, t) && i < |s|
    ensures Written(s, i) == Written(t, i) && Taken(s, i) == Taken(t, i)
  {
    hide Single, Pair, Plain;
    if i + 1 < |s| { PairIsPlain(s[i], s[i + 1], At(s, i + 2), t[i], t[i + 1], At(t, i + 2)); }
    PlainReads(s[i]);
    PlainReads(t[i]);
  }

  /** Case and tonos never change what a text is written as. */
  lemma {:induction false} CaseAndTonos(s: string, t: string, i: nat)
    requires SameLetters(s, t) && i <= |s|
    ensures LatinFrom(s, i) == LatinFrom(t, i)
    decreases |s| - i
  {
    hide Written, Taken, SameLetters;
    assert |s| == |t| by { SameLength(s, t); }
    if i < |s| {
      SameStep(s, t, i);
      CaseAndTonos(s, t, i + Taken(s, i));
    }
  }

  lemma SameLength(s: string, t: string)
    requires SameLetters(s, t)
    ensures |s| == |t|
  {
    hide Plain;
  }

  // ---- the standard ----

  /** Every letter of the alphabet, whatever its case and tonos, in the standard's form. */
  lemma LettersOfTheStandard(r: char)
    ensures var p := Plain(r);
      && (p == 'α' ==> Single(r) == Some("a")) && (p == 'β' ==> Single(r) == Some("v")) && (p == 'γ' ==> Single(r) == Some("g"))
      && (p == 'δ' ==> Single(r) == Some("d")) && (p == 'ε' ==> Single(r) == Some("e")) && (p == 'ζ' ==> Single(r) == Some("z"))
      && (p == 'η' ==> Single(r) == Some("i")) && (p == 'θ' ==> Single(r) == Some("th")) && (p in {'ι', 'ϊ'} ==> Single(r) == Some("i"))
      && (p == 'κ' ==> Single(r) == Some("k")) && (p == 'λ' ==> Single(r) == Some("l")) && (p == 'μ' ==> Single(r) == Some("m"))
      && (p == 'ν' ==> Single(r) == Some("n")) && (p == 'ξ' ==> Single(r) == Some("x")) && (p == 'ο' ==> Single(r) == Some("o"))
      && (p == 'π' ==> Single(r) == Some("p")) && (p == 'ρ' ==> Single(r) == Some("r")) && (p == 'σ' ==> Single(r) == Some("s"))
      && (p == 'τ' ==> Single(r) == Some("t")) && (p in {'υ', 'ϋ'} ==> Single(r) == Some("y")) && (p == 'φ' ==> Single(r) == Some("f"))
      && (p == 'χ' ==> Single(r) == Some("ch")) && (p == 'ψ' ==> Single(r) == Some("ps")) && (p == 'ω' ==> Single(r) == Some("o"))
  {
    PlainReads(r);
    VowelFormsOf(Plain(r));
    ConsonantFormsOf(Plain(r));
    OtherConsonantFormsOf(Plain(r));
    hide Single, Plain;
  }

  lemma VowelFormsOf(p: char)
    ensures p == 'α' ==> Single(p) == Some("a")
    ensures p == 'ε' ==> Single(p) == Some("e")
    ensures p in {'η', 'ι', 'ϊ'} ==> Single(p) == Some("i")
    ensures p in {'ο', 'ω'} ==> Single(p) == Some("o")
    ensures p in {'υ', 'ϋ'} ==> Single(p) == Some("y")
  {
    hide Consonant, Undecomposed;
  }

  lemma ConsonantFormsOf(p: char)
    ensures p == 'β' ==> Single(p) == Some("v")
    ensures p == 'γ' ==> Single(p) == Some("g")
    ensures p == 'δ' ==> Single(p) == Some("d")
    ensures p == 'ζ' ==> Single(p) == Some("z")
    ensures p == 'θ' ==> Single(p) == Some("th")
    ensures p == 'κ' ==> Single(p) == Some("k")
    ensures p == 'λ' ==> Single(p) == Some("l")
    ensures p == 'μ' ==> Single(p) == Some("m")
  {
    hide Undecomposed;
  }

  lemma OtherConsonantFormsOf(p: char)
    ensures p == 'ν' ==> Single(p) == Some("n")
    ensures p == 'ξ' ==> Single(p) == Some("x")
    ensures p == 'π' ==> Single(p) == Some("p")
    ensures p == 'ρ' ==> Single(p) == Some("r")
    ensures p == 'σ' ==> Single(p) == Some("s")
    ensures p == 'τ' ==> Single(p) == Some("t")
    ensures p == 'φ' ==> Single(p) == Some("f")
    ensures p == 'χ' ==> Single(p) == Some("ch")
    ensures p == 'ψ' ==> Single(p) == Some("ps")
  {
    hide Undecomposed;
  }

  /** The pairs the standard names, whatever their case and tonos, and no others: γγ, γξ,
      γχ and ου always; αυ, ευ and ηυ with a v before a vowel or β γ δ ζ λ μ ν ρ, and with
      an f before anything else or nothing. */
  lemma PairsOfTheStandard(first: char, second: char, third: Option<char>)
    ensures var a, b := Plain(first), Plain(second);
      var voiced := third.Some? && Plain(third.value) in {'α', 'ε', 'η', 'ι', 'ϊ', 'ο', 'υ', 'ϋ', 'ω', 'β', 'γ', 'δ', 'ζ', 'λ', 'μ', 'ν', 'ρ'};
      Pair(first, second, third) ==
        if a == 'γ' && b == 'γ' then Some("ng")
        else if a == 'γ' && b == 'ξ' then Some("nx")
        else if a == 'γ' && b == 'χ' then Some("nch")
        else if a == 'ο' && b == 'υ' then Some("ou")
        else if a == 'α' && b == 'υ' then Some(if voiced then "av" else "af")
        else if a == 'ε' && b == 'υ' then Some(if voiced then "ev" else "ef")
        else if a == 'η' && b == 'υ' then Some(if voiced then "iv" else "if")
        else None
  {
    PlainVowels(first);
    PlainVowels(second);
    if third.Some? { VoicedInWords(third.value); }
    hide Plain, IsAlpha, IsEpsilon, IsEta, IsOmicron, IsUpsilon, IsGamma, IsVoiced, HasDiaeresis;
  }

  lemma VoicedInWords(r: char)
    ensures IsVoiced(r) <==> Plain(r) in {'α', 'ε', 'η', 'ι', 'ϊ', 'ο', 'υ', 'ϋ', 'ω', 'β', 'γ', 'δ', 'ζ', 'λ', 'μ', 'ν', 'ρ'}
  {
  }

  // ---- the diaeresis ----

  /** Where runes or pairs start, from a start on. */
  function StartsFrom(s: string, i: nat): set<nat>
    requires i <= |s|
    decreases |s| - i
  {
    if i == |s| then {} else {i} + StartsFrom(s, i + Taken(s, i))
  }

  lemma NeverPaired(s: string, i: nat)
    requires i < |s| && HasDiaeresis(s[i])
    ensures Digraph(s, i).None? && Written(s, i) == "y" && (i > 0 ==> Digraph(s, i - 1).None?)
  {
  }

  /** An upsilon with a diaeresis is read by itself, whatever stands beside it. */
  lemma {:induction false} DiaeresisStandsAlone(s: string, i: nat, from: nat)
    requires from <= i < |s| && HasDiaeresis(s[i])
    ensures i in StartsFrom(s, from) && Taken(s, i) == 1 && Written(s, i) == "y"
    decreases i - from
  {
    hide Single, Pair, HasDiaeresis;
    NeverPaired(s, i);
    if from < i { DiaeresisStandsAlone(s, i, from + Taken(s, from)); }
  }

  // ---- plain Latin ----

  predicate IsAscii(s: string) { forall i :: 0 <= i < |s| ==> s[i] as int < 128 }

  lemma AsciiHasNoForm(r: char)
    requires r as int < 128
    ensures Single(r).None? && !IsUpsilon(r) && !IsGamma(r)
  {
  }

  /** Plain Latin is left as it is. */
  lemma {:induction false} AsciiUnchanged(s: string, i: nat)
    requires IsAscii(s) && i <= |s|
    ensures LatinFrom(s, i) == s[i..]
    decreases |s| - i
  {
    if i < |s| {
      AsciiHasNoForm(s[i]);
      if i + 1 < |s| { AsciiHasNoForm(s[i + 1]); }
      hide Single, IsUpsilon, IsGamma;
      AsciiUnchanged(s, i + 1);
    }
  }

  predicate IsLetters(s: string) { |s| > 0 && forall i :: 0 <= i < |s| ==> 'a' <= s[i] <= 'z' }

  lemma FormsAreLetters(r: char)
    ensures Single(r).Some? ==> IsLetters(Single(r).value)
  {
  }

  lemma PairsAreLetters(a: char, b: char, c: Option<char>)
    ensures Pair(a, b, c).Some? ==> IsLetters(Pair(a, b, c).value)
  {
  }

  /** A text of Greek letters is written in lower-case Latin letters alone, and no text of
      them is written as nothing. */
  lemma {:induction false} GreekIsWritten(s: string, i: nat)
    requires i < |s| && forall k :: 0 <= k < |s| ==> Single(s[k]).Some?
    ensures IsLetters(LatinFrom(s, i))
    decreases |s| - i
  {
    hide Single, Pair;
    FormsAreLetters(s[i]);
    if i + 1 < |s| { PairsAreLetters(s[i], s[i + 1], At(s, i + 2)); }
    if i + Taken(s, i) < |s| { GreekIsWritten(s, i + Taken(s, i)); }
  }
}
