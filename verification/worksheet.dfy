/** The worksheet side of feez/static/script.js: pairing the Finnish and
    English text areas line by line (`addPhrase`, `generateWorksheet`), the
    stored phrase list, the default example phrases, and the short form of a
    line shown while translating (`updateProgress`). */
module Worksheet {
  import opened Text
  import opened Lines

  datatype Phrase = Phrase(finnish: string, english: string)

  const NoFinnishText := "[No Finnish text]"
  const NoTranslation := "[No translation]"

  /** The three example phrases shown when there is nothing else to show. */
  const DefaultPhrases: seq<Phrase> := [
    Phrase("Hei, mitä kuuluu?", "Hello, how are you?"),
    Phrase("Hyvää huomenta", "Good morning"),
    Phrase("Kiitos paljon", "Thank you very much")
  ]

  function Max(a: nat, b: nat): nat {
    if a >= b then a else b
  }

  /** JavaScript `xs[i] || fallback`: an index past the end, or an empty
      string, gives the fallback. */
  function LineOr(xs: seq<string>, i: nat, fallback: string): (s: string)
    ensures i < |xs| && xs[i] != "" ==> s == xs[i]
    ensures i >= |xs| || xs[i] == "" ==> s == fallback
  {
    if i < |xs| && xs[i] != "" then xs[i] else fallback
  }

  /** The pairing loop of `addPhrase` and `generateWorksheet`: one phrase per
      index up to the longer side, a missing line on either side replaced by
      its placeholder. */
  method PairLines(finnish: seq<string>, english: seq<string>) returns (pairs: seq<Phrase>)
    ensures |pairs| == Max(|finnish|, |english|)
    ensures forall i :: 0 <= i < |pairs| ==>
              pairs[i] == Phrase(LineOr(finnish, i, NoFinnishText), LineOr(english, i, NoTranslation))
  {
    var n := Max(|finnish|, |english|);
    pairs := [];
    var i := 0;
    while i < n
      invariant 0 <= i <= n
      invariant |pairs| == i
      invariant forall j :: 0 <= j < i ==>
                  pairs[j] == Phrase(LineOr(finnish, j, NoFinnishText), LineOr(english, j, NoTranslation))
    {
      pairs := pairs + [Phrase(LineOr(finnish, i, NoFinnishText), LineOr(english, i, NoTranslation))];
      i := i + 1;
    }
  }

  /** The Finnish column of a phrase list. */
  function FinnishColumn(ps: seq<Phrase>): (col: seq<string>)
    ensures |col| == |ps| && forall i :: 0 <= i < |ps| ==> col[i] == ps[i].finnish
  {
    if |ps| == 0 then [] else [ps[0].finnish] + FinnishColumn(ps[1..])
  }

  /** The English column of a phrase list. */
  function EnglishColumn(ps: seq<Phrase>): (col: seq<string>)
    ensures |col| == |ps| && forall i :: 0 <= i < |ps| ==> col[i] == ps[i].english
  {
    if |ps| == 0 then [] else [ps[0].english] + EnglishColumn(ps[1..])
  }

  /** Pairing cleaned lines loses nothing: the first `|finnish|` Finnish
      entries are the Finnish lines and every later one is the placeholder,
      and likewise for English. */
  lemma PairingKeepsLines(finnish: seq<string>, english: seq<string>, pairs: seq<Phrase>)
    requires forall i :: 0 <= i < |finnish| ==> finnish[i] != ""
    requires forall i :: 0 <= i < |english| ==> english[i] != ""
    requires |pairs| == Max(|finnish|, |english|)
    requires forall i :: 0 <= i < |pairs| ==>
               pairs[i] == Phrase(LineOr(finnish, i, NoFinnishText), LineOr(english, i, NoTranslation))
    ensures FinnishColumn(pairs)[..|finnish|] == finnish
    ensures EnglishColumn(pairs)[..|english|] == english
    ensures forall i :: |finnish| <= i < |pairs| ==> pairs[i].finnish == NoFinnishText
    ensures forall i :: |english| <= i < |pairs| ==> pairs[i].english == NoTranslation
  {
    var fc := FinnishColumn(pairs);
    var ec := EnglishColumn(pairs);
    forall i | 0 <= i < |fc| ensures fc[i] == LineOr(finnish, i, NoFinnishText) {
      assert fc[i] == pairs[i].finnish;
    }
    ColumnKeepsLines(fc, finnish, NoFinnishText);
    forall i | 0 <= i < |ec| ensures ec[i] == LineOr(english, i, NoTranslation) {
      assert ec[i] == pairs[i].english;
    }
    ColumnKeepsLines(ec, english, NoTranslation);
  }

  /** One column of the pairing: its first `|xs|` entries are the lines
      `xs`, the rest are the placeholder. */
  lemma ColumnKeepsLines(col: seq<string>, xs: seq<string>, placeholder: string)
    requires forall i :: 0 <= i < |xs| ==> xs[i] != ""
    requires |xs| <= |col|
    requires forall i :: 0 <= i < |col| ==> col[i] == LineOr(xs, i, placeholder)
    ensures col[..|xs|] == xs
    ensures forall i :: |xs| <= i < |col| ==> col[i] == placeholder
  {
    assert forall i :: 0 <= i < |xs| ==> col[..|xs|][i] == col[i];
  }

  /** The text areas as `addPhrase` reads them: trimmed, split into lines,
      each line trimmed, empty lines dropped. */
  function ReadLines(area: string): (r: seq<string>)
    ensures forall i :: 0 <= i < |r| ==> r[i] != "" && IsTrimmed(r[i])
    ensures !AllSpace(area) ==> |r| >= 1
  {
    var t := Trim(area);
    if !AllSpace(area) then NonBlankTextHasLine(t); NonBlankLines(t)
    else NonBlankLines(t)
  }

  datatype AddResult = Refused | Added(phrases: seq<Phrase>, count: nat)

  /** `addPhrase`: a blank Finnish area is refused and nothing is stored;
      otherwise the paired lines are appended after the stored phrases, which
      stay as they were. */
  method AddPhrase(stored: seq<Phrase>, finnishArea: string, englishArea: string) returns (r: AddResult)
    ensures r.Refused? <==> AllSpace(finnishArea)
    ensures r.Added? ==> r.count >= 1 && |r.phrases| == |stored| + r.count
    ensures r.Added? ==> r.phrases[..|stored|] == stored
    ensures r.Added? ==> r.count == Max(|ReadLines(finnishArea)|, |ReadLines(englishArea)|)
    ensures r.Added? ==> forall i :: 0 <= i < r.count ==>
              r.phrases[|stored| + i] == Phrase(LineOr(ReadLines(finnishArea), i, NoFinnishText),
                                                LineOr(ReadLines(englishArea), i, NoTranslation))
  {
    if Trim(finnishArea) == "" {
      return Refused;
    }
    assert !AllSpace(finnishArea);
    var fi := ReadLines(finnishArea);
    assert |fi| >= 1;
    var en := ReadLines(englishArea);
    var pairs := PairLines(fi, en);
    assert |pairs| >= |fi|;
    AppendKeeps(stored, pairs);
    r := Added(stored + pairs, |pairs|);
  }

  /** Appending keeps the earlier phrases in front and puts the new ones after them. */
  lemma AppendKeeps(stored: seq<Phrase>, pairs: seq<Phrase>)
    ensures (stored + pairs)[..|stored|] == stored
    ensures forall i :: 0 <= i < |pairs| ==> (stored + pairs)[|stored| + i] == pairs[i]
  {
    assert (stored + pairs)[..|stored|] == stored;
  }

  /** The phrases `generateWorksheet` lays out: the pairs typed in the two
      areas (only when both are filled in), then the stored phrases; the
      three defaults when that comes to nothing. */
  method PhrasesToDisplay(stored: seq<Phrase>, finnishArea: string, englishArea: string) returns (ps: seq<Phrase>)
    ensures |ps| > 0
    ensures |stored| == 0 && (AllSpace(finnishArea) || AllSpace(englishArea)) ==> ps == DefaultPhrases
    ensures |stored| > 0 && (AllSpace(finnishArea) || AllSpace(englishArea)) ==> ps == stored
    ensures !AllSpace(finnishArea) && !AllSpace(englishArea) ==>
              && |ps| == Max(|ReadLines(finnishArea)|, |ReadLines(englishArea)|) + |stored|
              && ps[|ps| - |stored|..] == stored
              && forall i :: 0 <= i < |ps| - |stored| ==>
                   ps[i] == Phrase(LineOr(ReadLines(finnishArea), i, NoFinnishText),
                                   LineOr(ReadLines(englishArea), i, NoTranslation))
  {
    var typed: seq<Phrase> := [];
    if Trim(finnishArea) != "" && Trim(englishArea) != "" {
      typed := PairLines(ReadLines(finnishArea), ReadLines(englishArea));
    }
    ps := typed + stored;
    if |ps| == 0 {
      ps := DefaultPhrases;
    }
  }

  const ShortLength := 30

  /** The line as shown in the progress text: unchanged up to 30 characters,
      otherwise its first 30 characters followed by "...". */
  function ShortLine(line: string): (s: string)
    ensures |line| <= ShortLength ==> s == line
    ensures |line| > ShortLength ==> |s| == ShortLength + 3 && s[..ShortLength] == line[..ShortLength]
    ensures |line| > ShortLength ==> s[ShortLength..] == "..."
  {
    if |line| > ShortLength then line[..ShortLength] + "..." else line
  }

  /** The short form is never longer than 33 characters, starts like the
      line, and shortening it again changes nothing. */
  lemma ShortLineIdempotent(line: string)
    ensures |ShortLine(line)| <= ShortLength + 3
    ensures var n := if |line| < ShortLength then |line| else ShortLength;
            ShortLine(line)[..n] == line[..n]
    ensures ShortLine(ShortLine(line)) == ShortLine(line)
  {
    if |line| > ShortLength {
      var s := ShortLine(line);
      assert s[..ShortLength] + "..." == s;
    }
  }
}
