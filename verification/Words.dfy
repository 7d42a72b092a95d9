/** Maximal runs of kept characters, and joining them: what a slug is made of, and prose. */
module Words {

  type Keep = char -> bool

  /** The maximal runs of kept characters, in order. */
  function Runs(s: string, keep: Keep): (words: seq<string>)
    ensures |s| > 0 && keep(s[|s| - 1]) ==> |words| > 0
    ensures forall w <- words :: |w| > 0
  {
    if |s| == 0 then []
    else
      var before, c := Runs(s[..|s| - 1], keep), s[|s| - 1];
      if !keep(c) then before
      else if |s| > 1 && keep(s[|s| - 2]) then before[..|before| - 1] + [before[|before| - 1] + [c]]
      else before + [[c]]
  }

  function Join(words: seq<string>, mark: char): (s: string) {
    if |words| == 0 then ""
    else if |words| == 1 then words[0]
    else Join(words[..|words| - 1], mark) + [mark] + words[|words| - 1]
  }

  /** Kept characters in groups, one mark between groups, none at either end. */
  predicate Grouped(s: string, keep: Keep, mark: char) {
    && (forall i :: 0 <= i < |s| ==> keep(s[i]) || s[i] == mark)
    && (|s| > 0 ==> keep(s[0]) && keep(s[|s| - 1]))
    && (forall i :: 0 <= i < |s| - 1 ==> keep(s[i]) || keep(s[i + 1]))
  }

  predicate AllKept(w: string, keep: Keep) { |w| > 0 && forall i :: 0 <= i < |w| ==> keep(w[i]) }

  lemma {:induction false} LastRun(s: string, keep: Keep)
    requires |s| > 0 && keep(s[|s| - 1])
    ensures var words := Runs(s, keep);
      |words| > 0 && AllKept(words[|words| - 1], keep)
  {
    if |s| > 1 && keep(s[|s| - 2]) { LastRun(s[..|s| - 1], keep); }
  }

  lemma {:induction false} RunsAreKept(s: string, keep: Keep)
    ensures forall w <- Runs(s, keep) :: AllKept(w, keep)
  {
    if |s| > 0 {
      RunsAreKept(s[..|s| - 1], keep);
      if keep(s[|s| - 1]) && |s| > 1 && keep(s[|s| - 2]) { LastRun(s[..|s| - 1], keep); }
    }
  }

  /** Groups of kept characters, joined, are grouped. */
  lemma {:induction false} JoinGroups(words: seq<string>, keep: Keep, mark: char)
    requires forall w <- words :: AllKept(w, keep)
    ensures Grouped(Join(words, mark), keep, mark) && (|words| > 0 ==> |Join(words, mark)| > 0)
  {
    if |words| == 1 {
      assert words[0] in words;
    } else if |words| > 1 {
      JoinGroups(words[..|words| - 1], keep, mark);
      assert words[|words| - 1] in words;
    }
  }

  lemma RunsGroup(s: string, keep: Keep, mark: char)
    ensures Grouped(Join(Runs(s, keep), mark), keep, mark)
  {
    RunsAreKept(s, keep);
    JoinGroups(Runs(s, keep), keep, mark);
  }

  /** One more character, appended to the joined runs as a builder does it. */
  lemma JoinNext(s: string, c: char, keep: Keep, mark: char)
    ensures var joined := Join(Runs(s, keep), mark);
      Join(Runs(s + [c], keep), mark) ==
        if !keep(c) then joined
        else if |s| > 0 && !keep(s[|s| - 1]) && |joined| > 0 then joined + [mark] + [c]
        else joined + [c]
  {
    var next, words := s + [c], Runs(s, keep);
    assert next[..|s|] == s;
    RunsAreKept(s, keep);
    JoinGroups(words, keep, mark);
    if keep(c) {
      if |s| > 0 && keep(s[|s| - 1]) {
        LongerLast(words, c, mark);
      } else {
        assert (words + [[c]])[..|words|] == words;
        if |s| > 0 && |words| > 0 { assert |Join(words, mark)| > 0; }
      }
    }
  }

  lemma LongerLast(words: seq<string>, c: char, mark: char)
    requires |words| > 0
    ensures Join(words[..|words| - 1] + [words[|words| - 1] + [c]], mark) == Join(words, mark) + [c]
  {
    var longer := words[..|words| - 1] + [words[|words| - 1] + [c]];
    assert longer[..|longer| - 1] == words[..|words| - 1];
  }

  /** Grouped, but for a mark there may be at the end. */
  predicate Leading(s: string, keep: Keep, mark: char) {
    && (forall i :: 0 <= i < |s| ==> keep(s[i]) || s[i] == mark)
    && (|s| > 0 ==> keep(s[0]))
    && (forall i :: 0 <= i < |s| - 1 ==> keep(s[i]) || keep(s[i + 1]))
  }

  function Trimmed(s: string, keep: Keep): string { if |s| > 0 && !keep(s[|s| - 1]) then s[..|s| - 1] else s }

  lemma {:induction false} LeadingIsJoined(s: string, keep: Keep, mark: char)
    requires !keep(mark) && Leading(s, keep, mark)
    ensures Join(Runs(s, keep), mark) == Trimmed(s, keep)
  {
    if |s| > 0 {
      var before, c := s[..|s| - 1], s[|s| - 1];
      LeadingStep(s, keep, mark);
      LeadingIsJoined(before, keep, mark);
      JoinNext(before, c, keep, mark);
      hide *;
    }
  }

  /** Leading text but for its last character is leading, and its trimming differs from
      the whole's as the builder's text does. */
  lemma LeadingStep(s: string, keep: Keep, mark: char)
    requires !keep(mark) && Leading(s, keep, mark) && |s| > 0
    ensures var before, c := s[..|s| - 1], s[|s| - 1];
      && Leading(before, keep, mark) && before + [c] == s
      && Trimmed(s, keep) ==
           if !keep(c) then Trimmed(before, keep)
           else if |before| > 0 && !keep(before[|before| - 1]) && |Trimmed(before, keep)| > 0 then Trimmed(before, keep) + [mark] + [c]
           else Trimmed(before, keep) + [c]
  {
    var before, c := s[..|s| - 1], s[|s| - 1];
    if |before| > 0 && !keep(before[|before| - 1]) { LastIsMark(s, keep, mark); }
  }

  lemma LastIsMark(s: string, keep: Keep, mark: char)
    requires !keep(mark) && Leading(s, keep, mark) && |s| > 1 && !keep(s[|s| - 2])
    ensures keep(s[|s| - 1]) && |s| > 2 && s == s[..|s| - 2] + [mark] + [s[|s| - 1]]
  {
    assert s[|s| - 2] == mark && s[|s| - 2] != s[0];
  }

  lemma GroupedIsJoined(s: string, keep: Keep, mark: char)
    requires !keep(mark) && Grouped(s, keep, mark)
    ensures Join(Runs(s, keep), mark) == s
  {
    LeadingIsJoined(s, keep, mark);
    hide Runs, Join;
  }

  /** Characters that are not kept may be exchanged for one another. */
  lemma {:induction false} SameRuns(s: string, t: string, keep: Keep)
    requires |s| == |t| && forall i :: 0 <= i < |s| ==> s[i] == t[i] || (!keep(s[i]) && !keep(t[i]))
    ensures Runs(s, keep) == Runs(t, keep)
  {
    if |s| > 0 { SameRuns(s[..|s| - 1], t[..|t| - 1], keep); }
  }

  function Kept(s: string, keep: Keep): string {
    if |s| == 0 then "" else Kept(s[..|s| - 1], keep) + if keep(s[|s| - 1]) then [s[|s| - 1]] else ""
  }

  function Concat(words: seq<string>): string {
    if |words| == 0 then "" else Concat(words[..|words| - 1]) + words[|words| - 1]
  }

  /** Nothing kept is lost, and nothing else is. */
  lemma {:induction false} RunsLoseNothing(s: string, keep: Keep)
    ensures Concat(Runs(s, keep)) == Kept(s, keep)
  {
    if |s| > 0 {
      var before, c := s[..|s| - 1], s[|s| - 1];
      RunsLoseNothing(before, keep);
      var words := Runs(before, keep);
      if keep(c) && |s| > 1 && keep(s[|s| - 2]) {
        var longer := words[..|words| - 1] + [words[|words| - 1] + [c]];
        assert longer[..|longer| - 1] == words[..|words| - 1];
      } else if keep(c) {
        assert (words + [[c]])[..|words|] == words;
      }
    }
  }
}
