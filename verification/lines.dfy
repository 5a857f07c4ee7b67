/** The page script's way of reading a text area: split on '\n', trim each
    piece, keep the non-empty ones
    (`text.split('\n').map(l => l.trim()).filter(l => l.length > 0)`). */
module Lines {
  import opened Text

  /** `s` is `t` with some elements deleted, order kept. */
  predicate IsSubsequence<T(==)>(s: seq<T>, t: seq<T>)
    decreases |t|
  {
    if |s| == 0 then true
    else if |t| == 0 then false
    else if s[0] == t[0] then IsSubsequence(s[1..], t[1..])
    else IsSubsequence(s, t[1..])
  }

  /** `pieces.map(l => l.trim())`. */
  function TrimAll(pieces: seq<string>): (r: seq<string>)
    ensures |r| == |pieces|
    ensures forall i :: 0 <= i < |r| ==> r[i] == Trim(pieces[i])
  {
    if |pieces| == 0 then [] else [Trim(pieces[0])] + TrimAll(pieces[1..])
  }

  /** `xs.filter(l => l.length > 0)`: the non-empty strings of `xs`, each as
      often as in `xs` and in their original order. */
  function DropEmpty(xs: seq<string>): (r: seq<string>)
    ensures forall i :: 0 <= i < |r| ==> r[i] != ""
    ensures IsSubsequence(r, xs)
    ensures forall x :: x != "" ==> multiset(r)[x] == multiset(xs)[x]
  {
    if |xs| == 0 then []
    else
      assert xs == [xs[0]] + xs[1..];
      var rest := DropEmpty(xs[1..]);
      if xs[0] == "" then rest
      else
        assert ([xs[0]] + rest)[1..] == rest;
        [xs[0]] + rest
  }

  /** The non-empty trimmed lines of `text`, in order. */
  function NonBlankLines(text: string): (r: seq<string>)
    ensures forall i :: 0 <= i < |r| ==> r[i] != "" && IsTrimmed(r[i])
    ensures IsSubsequence(r, TrimAll(Split(text, '\n')))
    ensures forall x :: x != "" ==> multiset(r)[x] == multiset(TrimAll(Split(text, '\n')))[x]
  {
    var pieces := TrimAll(Split(text, '\n'));
    var r := DropEmpty(pieces);
    assert forall i :: 0 <= i < |r| ==> IsTrimmed(r[i]) by {
      forall i | 0 <= i < |r| ensures IsTrimmed(r[i]) {
        assert r[i] in multiset(r);
        assert r[i] in pieces;
      }
    }
    r
  }

  /** Some piece of a join keeps any non-space character of the whole
      (the separator itself being a space). */
  lemma {:induction false} JoinNotAllSpace(parts: seq<string>, sep: char)
    requires IsSpace(sep)
    requires !AllSpace(Join(parts, sep))
    ensures exists i :: 0 <= i < |parts| && !AllSpace(parts[i])
  {
    if |parts| == 1 {
      assert !AllSpace(parts[0]);
    } else if |parts| > 1 {
      if !AllSpace(parts[0]) {
        assert !AllSpace(parts[0]);
      } else {
        var j := Join(parts, sep);
        var rest := Join(parts[1..], sep);
        assert j == parts[0] + [sep] + rest;
        var p :| 0 <= p < |j| && !IsSpace(j[p]);
        assert p >= |parts[0]| + 1;
        assert j[p] == rest[p - |parts[0]| - 1];
        assert !AllSpace(rest);
        JoinNotAllSpace(parts[1..], sep);
        var i :| 0 <= i < |parts[1..]| && !AllSpace(parts[1..][i]);
        assert !AllSpace(parts[i + 1]);
      }
    }
  }

  /** Text that is not blank yields at least one line. */
  lemma NonBlankTextHasLine(text: string)
    requires !AllSpace(text)
    ensures |NonBlankLines(text)| >= 1
  {
    var pieces := Split(text, '\n');
    JoinNotAllSpace(pieces, '\n');
    var i :| 0 <= i < |pieces| && !AllSpace(pieces[i]);
    var t := TrimAll(pieces);
    assert t[i] != "";
    assert t[i] in multiset(t);
    assert multiset(NonBlankLines(text))[t[i]] > 0;
  }

  /** Text with no newline that is already trimmed and non-empty is read as that single line. */
  lemma SingleLine(text: string)
    requires text != "" && IsTrimmed(text) && '\n' !in text
    ensures NonBlankLines(text) == [text]
  {
    SplitJoin([text], '\n');
    TrimTrimmed(text);
    assert TrimAll([text]) == [text];
  }
}
