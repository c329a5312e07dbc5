/** The field normaliser of utils/text.go: `CleanText` strips newlines and
    tabs and trims the ends, falling back to its input when nothing would be
    left; `CamelCase` turns a label into a lowerCamelCase key. */
module Text {
  import opened Strings

  /** A cleaned text: non-empty, free of newlines and tabs, trimmed. */
  predicate Tidy(r: string) {
    && r != []
    && '\n' !in r && '\t' !in r
    && !IsSpace(r[0]) && !IsSpace(r[|r| - 1])
  }

  function CleanText(input: string): string {
    var cleaned := TrimSpace(Remove(input, '\n'));
    var cleaned' := TrimSpace(Remove(cleaned, '\t'));
    if |cleaned'| > 0 then cleaned' else input
  }

  /** Whitespace-only input (the empty string included) comes back unchanged. */
  lemma CleanTextFallback(input: string)
    requires AllSpace(input)
    ensures CleanText(input) == input
  {
    var c0 := Remove(input, '\n');
    var c1 := TrimSpace(c0);
    var c2 := Remove(c1, '\t');
    var c3 := TrimSpace(c2);
    RemoveSpaceKeepsText(input, '\n');
    TrimSpaceKeepsText(c0);
    RemoveSpaceKeepsText(c1, '\t');
    TrimSpaceKeepsText(c2);
    NonSpaceEmpty(input);
    NonSpaceEmpty(c3);
    assert c3 == [];
  }

  /** Any input with a visible character is cleaned: the result is non-empty,
      has no newline or tab, and neither starts nor ends with whitespace. */
  lemma CleanTextTidy(input: string)
    requires !AllSpace(input)
    ensures Tidy(CleanText(input))
  {
    var c0 := Remove(input, '\n');
    var c1 := TrimSpace(c0);
    var c2 := Remove(c1, '\t');
    var c3 := TrimSpace(c2);
    RemoveSpaceKeepsText(input, '\n');
    TrimSpaceKeepsText(c0);
    RemoveSpaceKeepsText(c1, '\t');
    TrimSpaceKeepsText(c2);
    NonSpaceEmpty(input);
    assert c3 != [];
    TrimSpaceKeepsAbsent(c0, '\n');
    RemoveKeepsAbsent(c1, '\t', '\n');
    TrimSpaceKeepsAbsent(c2, '\n');
    TrimSpaceKeepsAbsent(c2, '\t');
  }

  /** Only newlines, tabs and whitespace at the ends are removed: every
      visible character survives, in order. */
  lemma CleanTextKeepsText(input: string)
    ensures NonSpace(CleanText(input)) == NonSpace(input)
  {
    var c0 := Remove(input, '\n');
    var c1 := TrimSpace(c0);
    var c2 := Remove(c1, '\t');
    RemoveSpaceKeepsText(input, '\n');
    TrimSpaceKeepsText(c0);
    RemoveSpaceKeepsText(c1, '\t');
    TrimSpaceKeepsText(c2);
  }

  /** For input with a visible character the two trims act as one: the
      result is the trimmed input with its newlines and tabs removed, so
      every other character between the first and last visible one is kept,
      in order. */
  lemma CleanTextOneTrim(input: string)
    requires !AllSpace(input)
    ensures CleanText(input) == Remove(Remove(TrimSpace(input), '\n'), '\t')
  {
    var l, r := TrimSpaceSplit(input);
    var m := TrimSpace(input);
    TrimSpaceKeepsText(input);
    NonSpaceEmpty(input);
    assert m != [];
    RemoveAppend(l + m, r, '\n');
    RemoveAppend(l, m, '\n');
    RemoveAllSpace(l, '\n');
    RemoveAllSpace(r, '\n');
    var m1 := Remove(m, '\n');
    RemoveTrimmed(m, '\n');
    TrimSpaceAround(Remove(l, '\n'), m1, Remove(r, '\n'));
    assert TrimSpace(Remove(input, '\n')) == m1;
    RemoveTrimmed(m1, '\t');
    TrimSpaceOfTrimmed(Remove(m1, '\t'));
  }

  lemma CleanTextOfTidy(s: string)
    requires Tidy(s)
    ensures CleanText(s) == s
  {
    RemoveAbsent(s, '\n');
    TrimSpaceOfTrimmed(s);
    RemoveAbsent(s, '\t');
  }

  /** Cleaning twice is cleaning once. */
  lemma CleanTextIdempotent(input: string)
    ensures CleanText(CleanText(input)) == CleanText(input)
  {
    if AllSpace(input) {
      CleanTextFallback(input);
    } else {
      CleanTextTidy(input);
      CleanTextOfTidy(CleanText(input));
    }
  }

  /** The cleaned text is empty exactly when the input is. */
  lemma CleanTextEmpty(input: string)
    ensures CleanText(input) == [] <==> input == []
  {
    if AllSpace(input) {
      CleanTextFallback(input);
    } else {
      CleanTextTidy(input);
    }
  }

  /** The word at position `i` of the label, as `CamelCase` rewrites it. */
  function CamelWord(i: nat, w: string): string {
    if i == 0 then ToLower(w) else Title(ToLower(w))
  }

  function CamelParts(ws: seq<string>): seq<string> {
    seq(|ws|, i requires 0 <= i < |ws| => CamelWord(i, ws[i]))
  }

  /** The key `CamelCase` produces for `input`. */
  function CamelCaseOf(input: string): string {
    Concat(CamelParts(Fields(input)))
  }

  /** The loop of `CamelCase`: each word is rewritten in place. */
  method CamelWords(words: array<string>)
    modifies words
    ensures words[..] == CamelParts(old(words[..]))
  {
    ghost var fields := words[..];
    var i := 0;
    while i < words.Length
      invariant 0 <= i <= words.Length
      invariant forall j :: 0 <= j < i ==> words[j] == CamelWord(j, fields[j])
      invariant forall j :: i <= j < words.Length ==> words[j] == fields[j]
    {
      if i == 0 {
        words[i] := ToLower(words[i]);
      } else {
        words[i] := Title(ToLower(words[i]));
      }
      i := i + 1;
    }
    assert words[..] == CamelParts(fields) by {
      forall j | 0 <= j < |fields| ensures words[..][j] == CamelParts(fields)[j] {
        assert words[j] == CamelWord(j, fields[j]);
      }
    }
  }

  /** `CamelCase`: split the label into words, rewrite them, join them. */
  method CamelCase(input: string) returns (r: string)
    ensures r == CamelCaseOf(input)
    ensures AllSpace(input) ==> r == ""
    ensures NoSpace(r)
    ensures ToLower(r) == ToLower(NonSpace(input))
  {
    var fields := Fields(input);
    var words := new string[|fields|](i requires 0 <= i < |fields| => fields[i]);
    assert words[..] == fields;
    CamelWords(words);
    r := Concat(words[..]);
    CamelCaseNoSpace(input);
    CamelCaseLowered(input);
  }

  lemma CamelWordLower(i: nat, w: string)
    ensures ToLower(CamelWord(i, w)) == ToLower(w)
  {
    var l := ToLower(w);
    var t := CamelWord(i, w);
    assert |t| == |w|;
    forall j | 0 <= j < |w| ensures ToLower(t)[j] == ToLower(w)[j] {
      LowerCharFacts(w[j]);
      LowerCharFacts(l[j]);
      if i != 0 {
        TitleAt(l, j);
      }
    }
  }

  lemma CamelWordNoSpace(i: nat, w: string)
    requires NoSpace(w)
    ensures NoSpace(CamelWord(i, w))
  {
    var l := ToLower(w);
    var t := CamelWord(i, w);
    assert |t| == |w|;
    forall j | 0 <= j < |t| ensures !IsSpace(t[j]) {
      LowerCharFacts(w[j]);
      UpperCharSpace(l[j]);
      if i != 0 {
        TitleAt(l, j);
      }
    }
  }

  /** The key has no whitespace. */
  lemma CamelCaseNoSpace(input: string)
    ensures NoSpace(CamelCaseOf(input))
  {
    var ws := Fields(input);
    forall i | 0 <= i < |ws| ensures NoSpace(CamelParts(ws)[i]) {
      CamelWordNoSpace(i, ws[i]);
    }
    ConcatNoSpace(CamelParts(ws));
  }

  /** Up to case, the key is the label with its whitespace removed. */
  lemma CamelCaseLowered(input: string)
    ensures ToLower(CamelCaseOf(input)) == ToLower(NonSpace(input))
  {
    var ws := Fields(input);
    forall i | 0 <= i < |ws| ensures ToLower(CamelParts(ws)[i]) == ToLower(ws[i]) {
      CamelWordLower(i, ws[i]);
    }
    ConcatLower(CamelParts(ws), ws);
    FieldsConcat(input);
  }

  /** Rewriting words that were lowered first gives the same parts. */
  lemma CamelPartsLower(ws: seq<string>)
    ensures CamelParts(MapLower(ws)) == CamelParts(ws)
  {
    forall i | 0 <= i < |ws| ensures CamelWord(i, ToLower(ws[i])) == CamelWord(i, ws[i]) {
      LowerIdempotent(ws[i]);
    }
  }

  /** The key does not depend on the case of the label. */
  lemma CamelCaseIgnoresCase(input: string)
    ensures CamelCaseOf(ToLower(input)) == CamelCaseOf(input)
  {
    FieldsLower(input);
    CamelPartsLower(Fields(input));
  }
}
