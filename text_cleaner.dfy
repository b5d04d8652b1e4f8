/**
 * The `cleanText` helper of the news-extraction endpoint: split into lines,
 * trim each line, keep lines longer than five characters that contain no
 * boilerplate phrase (compared case-insensitively), and join the survivors
 * with a blank line between them.
 */
module TextCleaner {
  import opened JsString
  import opened Seqs

  /** Boilerplate phrases; a line containing any of them (ignoring case) is dropped. */
  const UnwantedPhrases: seq<string> := [
    "Copyright", "All rights reserved", "dainikbhaskar.com", "timesofindia", "indiatimes",
    "Copyright ©", "Privacy Policy", "Terms of Service", "Contact Us", "Follow us on", "Subscribe to"
  ]

  /** The separator `cleanText` joins the surviving lines with. */
  const LineBreak: string := "\n\n"

  /** Some phrase occurs in the line, both compared in lower case. */
  predicate ContainsAnyPhrase(line: string, phrases: seq<string>)
    decreases |phrases|
  {
    phrases != [] && (Contains(Lower(line), Lower(phrases[0])) || ContainsAnyPhrase(line, phrases[1..]))
  }

  predicate IsUnwanted(line: string) {
    ContainsAnyPhrase(line, UnwantedPhrases)
  }

  /** A line is rejected exactly when one of the phrases occurs in it, ignoring ASCII case. */
  lemma {:induction false} ContainsAnyPhraseMeans(line: string, phrases: seq<string>)
    ensures ContainsAnyPhrase(line, phrases) <==>
      exists k :: 0 <= k < |phrases| && Contains(Lower(line), Lower(phrases[k]))
    decreases |phrases|
  {
    if phrases != [] {
      ContainsAnyPhraseMeans(line, phrases[1..]);
      assert forall k :: 1 <= k < |phrases| ==> phrases[1..][k - 1] == phrases[k];
    }
  }

  /** The two `filter` steps together. */
  predicate KeepLine(line: string) {
    |line| > 5 && !IsUnwanted(line)
  }

  /** The trimmed input lines. */
  function Lines(text: string): seq<string> {
    Map(Split(text, '\n'), Trim)
  }

  /** The trimmed lines that survive both filters, in input order. */
  function KeptLines(text: string): seq<string> {
    Survivors(Split(text, '\n'), Trim, KeepLine)
  }

  function CleanText(text: string): string {
    Join(KeptLines(text), LineBreak)
  }

  /** A trimmed piece of a line split on `\n` holds no `\n`. */
  lemma LinesHaveNoBreak(text: string)
    ensures forall k :: 0 <= k < |Lines(text)| ==> '\n' !in Lines(text)[k]
  {
    var pieces := Split(text, '\n');
    forall k | 0 <= k < |pieces|
      ensures '\n' !in Trim(pieces[k])
    {
      var r := Trim(pieces[k]);
      var i := TrimIsInfix(pieces[k]);
    }
  }

  /** Facts about every kept line: trimmed, no line break, long enough, no boilerplate. */
  lemma KeptLinesShape(text: string)
    ensures forall k :: 0 <= k < |KeptLines(text)| ==>
      var line := KeptLines(text)[k];
      line in Lines(text) && IsTrimmed(line) && '\n' !in line && KeepLine(line)
  {
    LinesHaveNoBreak(text);
    FilterMembers(Lines(text), KeepLine);
  }

  lemma {:induction false} JoinOfNonEmpty(xs: seq<string>, sep: string)
    requires |xs| > 0 && xs[0] != ""
    ensures Join(xs, sep) != ""
  {
    assert Join(xs, sep)[..|xs[0]|] == xs[0];
  }

  /**
   * Splitting the output of `cleanText` on its blank-line separator yields
   * exactly the surviving lines: each is a trimmed input line longer than
   * five characters that holds no boilerplate phrase. The output is empty
   * exactly when no line survives.
   */
  lemma CleanTextSegments(text: string)
    ensures CleanText(text) == "" <==> KeptLines(text) == []
    ensures CleanText(text) != "" ==>
      var segments := SplitOn(CleanText(text), LineBreak);
      segments == KeptLines(text) &&
      forall k :: 0 <= k < |segments| ==>
        segments[k] in Lines(text) && |segments[k]| > 5 && !IsUnwanted(segments[k])
  {
    var kept := KeptLines(text);
    KeptLinesShape(text);
    if kept != [] {
      assert CleanText(text) != "" by { JoinOfNonEmpty(kept, LineBreak); }
      assert SplitOn(CleanText(text), LineBreak) == kept by { SplitOnJoin(kept, LineBreak); }
    }
  }

  /** Empty, or blank-line-separated lines that each pass both filters. */
  predicate IsClean(s: string) {
    s == "" || forall k :: 0 <= k < |SplitOn(s, LineBreak)| ==> KeepLine(SplitOn(s, LineBreak)[k])
  }

  lemma CleanTextIsClean(text: string)
    ensures IsClean(CleanText(text))
  {
    CleanTextSegments(text);
  }

  /**
   * The surviving lines keep their input order, and the surviving positions
   * are exactly the trimmed lines that pass both filters: every such line
   * survives, once per occurrence.
   */
  lemma CleanTextKeepsOrder(text: string) returns (idx: seq<nat>)
    ensures SubsequenceAt(KeptLines(text), Lines(text), idx)
    ensures forall k :: 0 <= k < |Lines(text)| ==> (KeepLine(Lines(text)[k]) <==> k in idx)
    ensures forall k :: 0 <= k < |Lines(text)| && KeepLine(Lines(text)[k]) ==> Lines(text)[k] in KeptLines(text)
  {
    idx := FilterIsSubsequence(Lines(text), KeepLine);
    FilterMembers(Lines(text), KeepLine);
  }

  /** The lines of `lines`, each passed through `trim`, that `keep` accepts. */
  function Survivors(lines: seq<string>, trim: string -> string, keep: string -> bool): seq<string> {
    Filter(Map(lines, trim), keep)
  }

  lemma SurvivorsAppend(a: seq<string>, b: seq<string>, trim: string -> string, keep: string -> bool)
    ensures Survivors(a + b, trim, keep) == Survivors(a, trim, keep) + Survivors(b, trim, keep)
  {
    MapAppend(a, b, trim);
    FilterAppend(Map(a, trim), Map(b, trim), keep);
  }

  lemma SurvivorsOfOne(x: string, trim: string -> string, keep: string -> bool)
    requires trim(x) == x
    ensures Survivors([x], trim, keep) == if keep(x) then [x] else []
  {
    assert Map([x], trim) == [x];
    assert [x][1..] == [];
  }

  lemma SplitJoinStep(x: string, j: string)
    requires '\n' !in x
    ensures Split(x + LineBreak + j, '\n') == [x] + [""] + Split(j, '\n')
  {
    var rest := "\n" + ("\n" + j);
    assert x + LineBreak + j == x + rest;
    assert Split(rest, '\n') == [""] + Split("\n" + j, '\n') by { assert rest[1..] == "\n" + j; }
    assert Split("\n" + j, '\n') == [""] + Split(j, '\n') by { assert ("\n" + j)[1..] == j; }
    SplitPrefix(x, rest, '\n');
    assert x + "" == x;
  }

  lemma SplitWhole(x: string)
    requires '\n' !in x
    ensures Split(x, '\n') == [x]
  {
    SplitPrefix(x, "", '\n');
    assert x + "" == x;
  }

  /**
   * Re-splitting a join of clean lines recovers them: the heart of
   * idempotence. Stated for any `trim` that leaves the lines and the empty
   * line alone.
   */
  lemma {:induction false} SurvivorsOfJoin(xs: seq<string>, trim: string -> string, keep: string -> bool)
    requires !keep("") && trim("") == ""
    requires forall k :: 0 <= k < |xs| ==> keep(xs[k]) && trim(xs[k]) == xs[k] && '\n' !in xs[k]
    ensures Survivors(Split(Join(xs, LineBreak), '\n'), trim, keep) == xs
    decreases |xs|
  {
    if |xs| == 0 {
      assert Split("", '\n') == [""];
      SurvivorsOfOne("", trim, keep);
    } else if |xs| == 1 {
      SplitWhole(xs[0]);
      SurvivorsOfOne(xs[0], trim, keep);
    } else {
      SurvivorsOfJoin(xs[1..], trim, keep);
      SurvivorsOfJoinStep(xs[0], xs[1..], trim, keep);
      assert xs == [xs[0]] + xs[1..];
    }
  }

  lemma SurvivorsOfJoinStep(x: string, ys: seq<string>, trim: string -> string, keep: string -> bool)
    requires !keep("") && trim("") == "" && keep(x) && trim(x) == x && '\n' !in x && |ys| > 0
    requires Survivors(Split(Join(ys, LineBreak), '\n'), trim, keep) == ys
    ensures Survivors(Split(Join([x] + ys, LineBreak), '\n'), trim, keep) == [x] + ys
  {
    var j := Join(ys, LineBreak);
    var rest := Split(j, '\n');
    calc {
      Survivors(Split(Join([x] + ys, LineBreak), '\n'), trim, keep);
    == { assert ([x] + ys)[1..] == ys; }
      Survivors(Split(x + LineBreak + j, '\n'), trim, keep);
    == { SplitJoinStep(x, j); }
      Survivors([x] + [""] + rest, trim, keep);
    == { SurvivorsAppend([x] + [""], rest, trim, keep); }
      Survivors([x] + [""], trim, keep) + ys;
    == { SurvivorsAppend([x], [""], trim, keep); SurvivorsOfOne(x, trim, keep); SurvivorsOfOne("", trim, keep); }
      [x] + ys;
    }
  }

  /** Cleaning already-cleaned text changes nothing. */
  lemma CleanTextIdempotent(text: string)
    ensures CleanText(CleanText(text)) == CleanText(text)
  {
    var kept := KeptLines(text);
    KeptLinesShape(text);
    forall k | 0 <= k < |kept|
      ensures Trim(kept[k]) == kept[k]
    {
      TrimOfTrimmed(kept[k]);
    }
    TrimOfTrimmed("");
    SurvivorsOfJoin(kept, Trim, KeepLine);
  }
}
