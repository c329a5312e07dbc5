/** The functions of Go's `strings` package that the scraper relies on,
    over `string` = `seq<char>`. Whitespace is `unicode.IsSpace`; case
    mapping is modelled for ASCII letters only. */
module Strings {

  /** Go's `unicode.IsSpace`: the characters with the Unicode White_Space property. */
  predicate IsSpace(c: char) {
    || c == ' ' || ('\t' <= c <= '\r')
    || c == '\U{85}' || c == '\U{A0}' || c == '\U{1680}'
    || ('\U{2000}' <= c <= '\U{200A}')
    || c == '\U{2028}' || c == '\U{2029}' || c == '\U{202F}' || c == '\U{205F}' || c == '\U{3000}'
  }

  function LowerChar(c: char): char {
    if 'A' <= c <= 'Z' then (c as int + 32) as char else c
  }

  function UpperChar(c: char): char {
    if 'a' <= c <= 'z' then (c as int - 32) as char else c
  }

  lemma LowerCharFacts(c: char)
    ensures IsSpace(LowerChar(c)) == IsSpace(c)
    ensures LowerChar(LowerChar(c)) == LowerChar(c)
    ensures LowerChar(UpperChar(c)) == LowerChar(c)
  {
  }

  lemma UpperCharSpace(c: char)
    ensures IsSpace(UpperChar(c)) == IsSpace(c)
  {
  }

  /** Go's `strings.isSeparator`, which decides where `strings.Title` starts a
      word: ASCII characters other than letters, digits and `_`, and any other
      character that is whitespace. */
  predicate IsSeparator(c: char) {
    if c <= '\U{7F}' then
      !(('0' <= c <= '9') || ('a' <= c <= 'z') || ('A' <= c <= 'Z') || c == '_')
    else
      IsSpace(c)
  }

  predicate AllSpace(s: string) {
    forall i :: 0 <= i < |s| ==> IsSpace(s[i])
  }

  predicate NoSpace(s: string) {
    forall i :: 0 <= i < |s| ==> !IsSpace(s[i])
  }

  /** The non-whitespace characters of `s`, in their order. */
  function NonSpace(s: string): (r: string)
    ensures NoSpace(r) && |r| <= |s|
  {
    if s == [] then [] else (if IsSpace(s[0]) then [] else [s[0]]) + NonSpace(s[1..])
  }

  /** `strings.ReplaceAll(s, string(c), "")`. */
  function Remove(s: string, c: char): (r: string)
    ensures c !in r
  {
    if s == [] then [] else (if s[0] == c then [] else [s[0]]) + Remove(s[1..], c)
  }

  /** Removing a character adds no other. */
  lemma {:induction false} RemoveKeepsAbsent(s: string, c: char, d: char)
    requires d !in s
    ensures d !in Remove(s, c)
  {
    if s != [] {
      RemoveKeepsAbsent(s[1..], c, d);
    }
  }

  /** `strings.TrimLeft` of whitespace: drops the leading whitespace run. */
  function TrimLeft(s: string): (r: string)
    ensures |r| <= |s|
    ensures r == [] || !IsSpace(r[0])
  {
    if s != [] && IsSpace(s[0]) then TrimLeft(s[1..]) else s
  }

  /** Drops the trailing whitespace run. */
  function TrimRight(s: string): (r: string)
    ensures |r| <= |s|
    ensures r == [] || !IsSpace(r[|r| - 1])
  {
    if s != [] && IsSpace(s[|s| - 1]) then TrimRight(s[..|s| - 1]) else s
  }

  /** Go's `strings.TrimSpace`. */
  function TrimSpace(s: string): (r: string)
    ensures r == [] || (!IsSpace(r[0]) && !IsSpace(r[|r| - 1]))
  {
    var t := TrimLeft(s);
    TrimRightDropsSpace(t);
    TrimRight(t)
  }

  /** Trimming adds no character. */
  lemma TrimSpaceKeepsAbsent(s: string, d: char)
    requires d !in s
    ensures d !in TrimSpace(s)
  {
    var t := TrimLeft(s);
    TrimLeftDropsSpace(s);
    assert forall x :: x in t ==> x in s;
    var r := TrimRight(t);
    TrimRightDropsSpace(t);
    assert forall x :: x in r ==> x in t;
  }

  /** `strings.TrimRight(s, string(c))`: drops every trailing `c`. */
  function TrimRightChar(s: string, c: char): (r: string)
    ensures |r| <= |s| && r == s[..|r|]
    ensures r == [] || r[|r| - 1] != c
    ensures forall i :: |r| <= i < |s| ==> s[i] == c
  {
    if s != [] && s[|s| - 1] == c then TrimRightChar(s[..|s| - 1], c) else s
  }

  /** `strings.ToLower`, ASCII letters only. */
  function ToLower(s: string): (r: string)
    ensures |r| == |s|
    ensures forall i :: 0 <= i < |s| ==> r[i] == LowerChar(s[i])
  {
    if s == [] then [] else [LowerChar(s[0])] + ToLower(s[1..])
  }

  /** The scan of `strings.Title` after character `prev`: a character is
      upper-cased when the one before it is a separator. */
  function TitleAfter(prev: char, s: string): (r: string)
    ensures |r| == |s|
    ensures forall i :: 0 <= i < |s| ==>
      r[i] == if (if i == 0 then IsSeparator(prev) else IsSeparator(s[i - 1])) then UpperChar(s[i]) else s[i]
    decreases |s|
  {
    if s == [] then []
    else [if IsSeparator(prev) then UpperChar(s[0]) else s[0]] + TitleAfter(s[0], s[1..])
  }

  /** `strings.Title`: upper-cases every letter that starts a word; the scan
      starts as if after a space. */
  function Title(s: string): (r: string)
    ensures |r| == |s|
    ensures forall i :: 0 <= i < |s| ==>
      r[i] == if i == 0 || IsSeparator(s[i - 1]) then UpperChar(s[i]) else s[i]
  {
    TitleAfter(' ', s)
  }

  lemma TitleAt(s: string, j: nat)
    requires j < |s|
    ensures Title(s)[j] == if j == 0 || IsSeparator(s[j - 1]) then UpperChar(s[j]) else s[j]
  {
  }

  /** `strings.Join(ws, "")`. */
  function Concat(ws: seq<string>): string {
    if ws == [] then [] else ws[0] + Concat(ws[1..])
  }

  lemma {:induction false} NonSpaceAppend(a: string, b: string)
    ensures NonSpace(a + b) == NonSpace(a) + NonSpace(b)
  {
    if a == [] {
      assert a + b == b;
    } else {
      assert (a + b)[1..] == a[1..] + b;
      NonSpaceAppend(a[1..], b);
    }
  }

  lemma {:induction false} NonSpaceEmpty(s: string)
    ensures NonSpace(s) == [] <==> AllSpace(s)
  {
    if s != [] {
      NonSpaceEmpty(s[1..]);
      assert AllSpace(s) <==> IsSpace(s[0]) && AllSpace(s[1..]) by {
        if IsSpace(s[0]) && AllSpace(s[1..]) {
          forall i | 0 <= i < |s| ensures IsSpace(s[i]) {
            if i > 0 { assert s[i] == s[1..][i - 1]; }
          }
        }
      }
    }
  }

  lemma {:induction false} NonSpaceOfNoSpace(s: string)
    requires NoSpace(s)
    ensures NonSpace(s) == s
  {
    if s != [] {
      NonSpaceOfNoSpace(s[1..]);
    }
  }

  lemma {:induction false} RemoveSpaceKeepsText(s: string, c: char)
    requires IsSpace(c)
    ensures NonSpace(Remove(s, c)) == NonSpace(s)
  {
    if s != [] {
      RemoveSpaceKeepsText(s[1..], c);
      var head := if s[0] == c then [] else [s[0]];
      NonSpaceAppend(head, Remove(s[1..], c));
    }
  }

  lemma {:induction false} RemoveAbsent(s: string, c: char)
    requires c !in s
    ensures Remove(s, c) == s
  {
    if s != [] {
      RemoveAbsent(s[1..], c);
    }
  }

  /** Removing works character by character: the text around a split point
      is handled independently, so every other character is kept, in order. */
  lemma {:induction false} RemoveAppend(a: string, b: string, c: char)
    ensures Remove(a + b, c) == Remove(a, c) + Remove(b, c)
  {
    if a == [] {
      assert a + b == b;
    } else {
      assert (a + b)[1..] == a[1..] + b;
      RemoveAppend(a[1..], b, c);
    }
  }

  /** A single character is dropped exactly when it is the removed one. */
  lemma RemoveChar(x: char, c: char)
    ensures Remove([x], c) == if x == c then [] else [x]
  {
    assert [x][1..] == [];
  }

  lemma {:induction false} RemoveAllSpace(s: string, c: char)
    requires AllSpace(s)
    ensures AllSpace(Remove(s, c))
  {
    if s != [] {
      assert AllSpace(s[1..]) by {
        forall i | 0 <= i < |s[1..]| ensures IsSpace(s[1..][i]) { assert s[1..][i] == s[i + 1]; }
      }
      RemoveAllSpace(s[1..], c);
    }
  }

  /** Removing a whitespace character from trimmed visible text leaves it
      trimmed and visible. */
  lemma RemoveTrimmed(m: string, c: char)
    requires IsSpace(c)
    requires m != [] && !IsSpace(m[0]) && !IsSpace(m[|m| - 1])
    ensures var r := Remove(m, c); r != [] && !IsSpace(r[0]) && !IsSpace(r[|r| - 1])
  {
    var init := m[..|m| - 1];
    assert m == init + [m[|m| - 1]];
    RemoveAppend(init, [m[|m| - 1]], c);
    RemoveChar(m[|m| - 1], c);
  }

  /** `TrimLeft` keeps a suffix and drops only whitespace. */
  lemma {:induction false} TrimLeftDropsSpace(s: string)
    ensures TrimLeft(s) == s[|s| - |TrimLeft(s)|..]
    ensures AllSpace(s[..|s| - |TrimLeft(s)|])
  {
    if s != [] && IsSpace(s[0]) {
      TrimLeftDropsSpace(s[1..]);
      assert s[1..][|s| - 1 - |TrimLeft(s)|..] == s[|s| - |TrimLeft(s)|..];
      var k := |s| - |TrimLeft(s)|;
      assert forall i :: 1 <= i < k ==> s[i] == s[1..][..k - 1][i - 1];
    }
  }

  /** `TrimRight` keeps a prefix and drops only whitespace. */
  lemma {:induction false} TrimRightDropsSpace(s: string)
    ensures TrimRight(s) == s[..|TrimRight(s)|]
    ensures AllSpace(s[|TrimRight(s)|..])
  {
    if s != [] && IsSpace(s[|s| - 1]) {
      TrimRightDropsSpace(s[..|s| - 1]);
      assert s[..|s| - 1][..|TrimRight(s)|] == s[..|TrimRight(s)|];
      var n := |TrimRight(s)|;
      assert forall i :: n <= i < |s| - 1 ==> s[i] == s[..|s| - 1][n..][i - n];
    }
  }

  lemma TrimLeftKeepsText(s: string)
    ensures NonSpace(TrimLeft(s)) == NonSpace(s)
  {
    var t := TrimLeft(s);
    var k := |s| - |t|;
    var dropped := s[..k];
    TrimLeftDropsSpace(s);
    assert s == dropped + t by { assert t == s[k..]; }
    NonSpaceAppend(dropped, t);
    NonSpaceEmpty(dropped);
    assert NonSpace(dropped) == [];
  }

  lemma TrimRightKeepsText(t: string)
    ensures NonSpace(TrimRight(t)) == NonSpace(t)
  {
    var r := TrimRight(t);
    var dropped := t[|r|..];
    TrimRightDropsSpace(t);
    assert t == r + dropped;
    NonSpaceAppend(r, dropped);
    NonSpaceEmpty(dropped);
    assert NonSpace(dropped) == [];
  }

  /** Trimming only ever removes whitespace. */
  lemma TrimSpaceKeepsText(s: string)
    ensures NonSpace(TrimSpace(s)) == NonSpace(s)
  {
    TrimLeftKeepsText(s);
    TrimRightKeepsText(TrimLeft(s));
  }

  lemma TrimSpaceOfTrimmed(s: string)
    requires s == [] || (!IsSpace(s[0]) && !IsSpace(s[|s| - 1]))
    ensures TrimSpace(s) == s
  {
  }

  lemma {:induction false} TrimLeftAfterSpace(l: string, t: string)
    requires AllSpace(l)
    requires t != [] && !IsSpace(t[0])
    ensures TrimLeft(l + t) == t
  {
    if l == [] {
      assert l + t == t;
    } else {
      assert (l + t)[1..] == l[1..] + t;
      assert AllSpace(l[1..]) by {
        forall i | 0 <= i < |l[1..]| ensures IsSpace(l[1..][i]) { assert l[1..][i] == l[i + 1]; }
      }
      TrimLeftAfterSpace(l[1..], t);
    }
  }

  lemma {:induction false} TrimRightBeforeSpace(t: string, r: string)
    requires AllSpace(r)
    requires t != [] && !IsSpace(t[|t| - 1])
    ensures TrimRight(t + r) == t
    decreases |r|
  {
    if r == [] {
      assert t + r == t;
    } else {
      var r' := r[..|r| - 1];
      assert (t + r)[..|t + r| - 1] == t + r';
      assert AllSpace(r') by {
        forall i | 0 <= i < |r'| ensures IsSpace(r'[i]) { assert r'[i] == r[i]; }
      }
      TrimRightBeforeSpace(t, r');
    }
  }

  /** Trimming drops exactly the whitespace around a trimmed visible text. */
  lemma TrimSpaceAround(l: string, m: string, r: string)
    requires AllSpace(l) && AllSpace(r)
    requires m != [] && !IsSpace(m[0]) && !IsSpace(m[|m| - 1])
    ensures TrimSpace(l + m + r) == m
  {
    assert l + m + r == l + (m + r);
    TrimLeftAfterSpace(l, m + r);
    TrimRightBeforeSpace(m, r);
  }

  /** Every text is its trimmed form between two whitespace runs. */
  lemma TrimSpaceSplit(s: string) returns (l: string, r: string)
    ensures s == l + TrimSpace(s) + r
    ensures AllSpace(l) && AllSpace(r)
  {
    var t := TrimLeft(s);
    TrimLeftDropsSpace(s);
    TrimRightDropsSpace(t);
    l := s[..|s| - |t|];
    r := t[|TrimRight(t)|..];
    assert s == l + t;
    assert t == TrimRight(t) + r;
  }

  /** Length of the leading run of non-whitespace characters. */
  function WordLen(s: string): (n: nat)
    ensures n <= |s| && NoSpace(s[..n])
    ensures n < |s| ==> IsSpace(s[n])
  {
    if s == [] || IsSpace(s[0]) then 0
    else
      var m := WordLen(s[1..]);
      assert s[..m + 1] == [s[0]] + s[1..][..m];
      m + 1
  }

  /** Go's `strings.Fields`: the maximal runs of non-whitespace characters. */
  function Fields(s: string): (ws: seq<string>)
    ensures forall i :: 0 <= i < |ws| ==> ws[i] != [] && NoSpace(ws[i])
    ensures ws == [] <==> AllSpace(s)
    decreases |s|
  {
    if s == [] then []
    else if IsSpace(s[0]) then
      var ws := Fields(s[1..]);
      assert AllSpace(s) <==> AllSpace(s[1..]) by {
        if AllSpace(s[1..]) {
          forall i | 0 <= i < |s| ensures IsSpace(s[i]) {
            if i > 0 { assert s[i] == s[1..][i - 1]; }
          }
        }
      }
      ws
    else
      var n := WordLen(s);
      [s[..n]] + Fields(s[n..])
  }

  lemma {:induction false} WordLenOfWord(w: string, rest: string)
    requires NoSpace(w)
    requires rest == [] || IsSpace(rest[0])
    ensures WordLen(w + rest) == |w|
  {
    if w != [] {
      assert (w + rest)[1..] == w[1..] + rest;
      WordLenOfWord(w[1..], rest);
    } else {
      assert w + rest == rest;
    }
  }

  /** A word ends exactly where whitespace or the text does: a run of
      non-whitespace followed by whitespace is one whole word. */
  lemma FieldsWord(w: string, rest: string)
    requires w != [] && NoSpace(w)
    requires rest == [] || IsSpace(rest[0])
    ensures Fields(w + rest) == [w] + Fields(rest)
  {
    WordLenOfWord(w, rest);
    var s := w + rest;
    assert s[..|w|] == w;
    assert s[|w|..] == rest;
  }

  /** Whitespace separates words and is never part of one. */
  lemma FieldsSpace(c: char, rest: string)
    requires IsSpace(c)
    ensures Fields([c] + rest) == Fields(rest)
  {
    assert ([c] + rest)[1..] == rest;
  }

  lemma {:induction false} ConcatNoSpace(ws: seq<string>)
    requires forall i :: 0 <= i < |ws| ==> NoSpace(ws[i])
    ensures NoSpace(Concat(ws))
  {
    if ws != [] {
      ConcatNoSpace(ws[1..]);
    }
  }

  lemma {:induction false} ConcatLower(xs: seq<string>, ys: seq<string>)
    requires |xs| == |ys|
    requires forall i :: 0 <= i < |xs| ==> ToLower(xs[i]) == ToLower(ys[i])
    ensures ToLower(Concat(xs)) == ToLower(Concat(ys))
  {
    if xs != [] {
      ConcatLower(xs[1..], ys[1..]);
      LowerAppend(xs[0], Concat(xs[1..]));
      LowerAppend(ys[0], Concat(ys[1..]));
    }
  }

  lemma LowerAppend(a: string, b: string)
    ensures ToLower(a + b) == ToLower(a) + ToLower(b)
  {
  }

  lemma LowerIdempotent(w: string)
    ensures ToLower(ToLower(w)) == ToLower(w)
  {
    forall j | 0 <= j < |w| ensures ToLower(ToLower(w))[j] == ToLower(w)[j] {
      LowerCharFacts(w[j]);
    }
  }

  /** Words of the label are joined without separators: `Concat(Fields(s))`
      is `s` without its whitespace. */
  lemma {:induction false} FieldsConcat(s: string)
    ensures Concat(Fields(s)) == NonSpace(s)
    decreases |s|
  {
    if s == [] {
    } else if IsSpace(s[0]) {
      FieldsConcat(s[1..]);
    } else {
      var n := WordLen(s);
      var ws := [s[..n]] + Fields(s[n..]);
      assert ws[1..] == Fields(s[n..]);
      FieldsConcat(s[n..]);
      assert s == s[..n] + s[n..];
      NonSpaceAppend(s[..n], s[n..]);
      NonSpaceOfNoSpace(s[..n]);
    }
  }

  function MapLower(ws: seq<string>): (r: seq<string>)
    ensures |r| == |ws|
    ensures forall i :: 0 <= i < |ws| ==> r[i] == ToLower(ws[i])
  {
    if ws == [] then [] else [ToLower(ws[0])] + MapLower(ws[1..])
  }

  lemma {:induction false} WordLenLower(s: string)
    ensures WordLen(ToLower(s)) == WordLen(s)
  {
    LowerCharFacts(if s == [] then ' ' else s[0]);
    if s != [] && !IsSpace(s[0]) {
      assert ToLower(s)[1..] == ToLower(s[1..]);
      WordLenLower(s[1..]);
    }
  }

  lemma {:induction false} FieldsLower(s: string)
    ensures Fields(ToLower(s)) == MapLower(Fields(s))
    decreases |s|
  {
    var l := ToLower(s);
    if s == [] {
    } else if IsSpace(s[0]) {
      LowerCharFacts(s[0]);
      assert l[1..] == ToLower(s[1..]);
      FieldsLower(s[1..]);
    } else {
      var n := WordLen(s);
      WordLenLower(s);
      LowerCharFacts(s[0]);
      LowerSlices(s, n);
      FieldsLower(s[n..]);
      MapLowerCons(s[..n], Fields(s[n..]));
    }
  }

  lemma LowerSlices(s: string, n: nat)
    requires n <= |s|
    ensures ToLower(s)[..n] == ToLower(s[..n])
    ensures ToLower(s)[n..] == ToLower(s[n..])
  {
    var a, b := s[..n], s[n..];
    assert s == a + b;
    LowerAppend(a, b);
    var la, lb := ToLower(a), ToLower(b);
    assert (la + lb)[..n] == la;
    assert (la + lb)[n..] == lb;
  }

  lemma MapLowerCons(w: string, ws: seq<string>)
    ensures MapLower([w] + ws) == [ToLower(w)] + MapLower(ws)
  {
    assert ([w] + ws)[1..] == ws;
  }

  // ---------------------------------------------------------------------------
  // Prefixes, suffixes, splitting and joining

  predicate HasPrefix(s: string, p: string) {
    |p| <= |s| && s[..|p|] == p
  }

  predicate HasSuffix(s: string, p: string) {
    |p| <= |s| && s[|s| - |p|..] == p
  }

  function TrimPrefix(s: string, p: string): string {
    if HasPrefix(s, p) then s[|p|..] else s
  }

  function TrimSuffix(s: string, p: string): string {
    if HasSuffix(s, p) then s[..|s| - |p|] else s
  }

  /** Position of the first occurrence of `x` in `xs`. */
  function FirstIndex<T(==)>(xs: seq<T>, x: T): (k: nat)
    requires x in xs
    ensures k < |xs| && xs[k] == x && x !in xs[..k]
  {
    if xs[0] == x then 0
    else
      var k := FirstIndex(xs[1..], x) + 1;
      assert xs[..k] == [xs[0]] + xs[1..][..k - 1];
      k
  }

  /** `strings.Split(s, string(sep))`: the pieces between the separators;
      there is always at least one piece. */
  function Split(s: string, sep: char): (parts: seq<string>)
    ensures |parts| >= 1
    ensures sep !in s ==> parts == [s]
    ensures sep in s ==> |parts| >= 2
    ensures forall i :: 0 <= i < |parts| ==> sep !in parts[i]
    decreases |s|
  {
    if sep !in s then [s]
    else
      var k := FirstIndex(s, sep);
      [s[..k]] + Split(s[k + 1..], sep)
  }

  /** `strings.Join(parts, sep)`. */
  function Join(parts: seq<string>, sep: string): string {
    if parts == [] then []
    else if |parts| == 1 then parts[0]
    else parts[0] + sep + Join(parts[1..], sep)
  }

  /** Joining the pieces of a split with the same separator restores the text. */
  lemma {:induction false} JoinSplit(s: string, sep: char)
    ensures Join(Split(s, sep), [sep]) == s
    decreases |s|
  {
    if sep in s {
      var k := FirstIndex(s, sep);
      var rest := Split(s[k + 1..], sep);
      JoinSplit(s[k + 1..], sep);
      assert ([s[..k]] + rest)[1..] == rest;
      assert s == s[..k] + [sep] + s[k + 1..];
    }
  }

  /** `strings.ReplaceAll(s, string(from), string(to))`. */
  function ReplaceChar(s: string, from: char, to: char): (r: string)
    ensures |r| == |s|
    ensures forall i :: 0 <= i < |s| ==> r[i] == if s[i] == from then to else s[i]
  {
    if s == [] then [] else [if s[0] == from then to else s[0]] + ReplaceChar(s[1..], from, to)
  }
}
