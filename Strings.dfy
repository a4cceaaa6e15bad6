/**
  The JavaScript string primitives the ride-matching engine and the checkout
  formatters are built from: the `\s` and `\d` character classes,
  `String.prototype.includes`, `split(/\s+/)`, `split(',')`,
  `replace(/\s/g, "")` and `replace(/\D/g, "")`.
  Strings are sequences of characters (JavaScript's UTF-16 code units are
  identified with characters).
*/
module Strings {

  /**
    The ECMAScript `\s` class: WhiteSpace and LineTerminator code points.
    Among ASCII characters these are exactly the space and the five controls
    from tab to carriage return.
  */
  predicate IsWhitespace(c: char)
    ensures c < '\U{80}' ==> (IsWhitespace(c) <==> c == ' ' || '\t' <= c <= '\r')
  {
    || c == '\t' || c == '\n' || c == '\U{B}' || c == '\U{C}' || c == '\r' || c == ' '
    || c == '\U{A0}' || c == '\U{1680}' || ('\U{2000}' <= c <= '\U{200A}')
    || c == '\U{2028}' || c == '\U{2029}' || c == '\U{202F}' || c == '\U{205F}'
    || c == '\U{3000}' || c == '\U{FEFF}'
  }

  /** The ECMAScript `\d` class: ASCII decimal digits only; no digit is whitespace or a slash. */
  predicate IsDigit(c: char)
    ensures IsDigit(c) ==> !IsWhitespace(c) && c != '/'
  {
    '0' <= c <= '9'
  }

  predicate NoWhitespace(s: string) {
    forall i :: 0 <= i < |s| ==> !IsWhitespace(s[i])
  }

  predicate AllWhitespace(s: string) {
    forall i :: 0 <= i < |s| ==> IsWhitespace(s[i])
  }

  predicate AllDigits(s: string) {
    forall i :: 0 <= i < |s| ==> IsDigit(s[i])
  }

  // ---------------------------------------------------------------------------
  // String.prototype.includes

  /** `hay.includes(needle)`, scanning start positions left to right. */
  predicate Contains(hay: string, needle: string)
    ensures Contains(hay, needle) ==> |needle| <= |hay|
  {
    needle <= hay || (|hay| > 0 && Contains(hay[1..], needle))
  }

  /** `needle` occurs in `hay` starting at index `i`. */
  predicate OccursAt(hay: string, needle: string, i: int) {
    0 <= i <= |hay| - |needle| && hay[i..i + |needle|] == needle
  }

  /** `includes` holds exactly when `needle` occurs at some position of `hay`. */
  lemma ContainsIffOccurs(hay: string, needle: string)
    ensures Contains(hay, needle) <==> exists i :: OccursAt(hay, needle, i)
  {
    if Contains(hay, needle) {
      var i := ContainsWitness(hay, needle);
    }
    if exists i :: OccursAt(hay, needle, i) {
      var i :| OccursAt(hay, needle, i);
      OccursAtContains(hay, needle, i);
    }
  }

  /** When `includes` holds, the position where the scan stops is an occurrence. */
  lemma {:induction false} ContainsWitness(hay: string, needle: string) returns (i: nat)
    requires Contains(hay, needle)
    ensures OccursAt(hay, needle, i)
    decreases |hay|
  {
    if needle <= hay {
      i := 0;
    } else {
      var j := ContainsWitness(hay[1..], needle);
      assert hay[j + 1..j + 1 + |needle|] == hay[1..][j..j + |needle|];
      i := j + 1;
    }
  }

  /** An occurrence at any position makes `includes` hold. */
  lemma {:induction false} OccursAtContains(hay: string, needle: string, i: nat)
    requires OccursAt(hay, needle, i)
    ensures Contains(hay, needle)
    decreases i
  {
    if i == 0 {
      assert needle <= hay;
    } else {
      assert hay[1..][i - 1..i - 1 + |needle|] == hay[i..i + |needle|];
      OccursAtContains(hay[1..], needle, i - 1);
    }
  }

  /** Every string includes itself and the empty string. */
  lemma ContainsSelfAndEmpty(s: string)
    ensures Contains(s, s) && Contains(s, "")
  {
  }

  // ---------------------------------------------------------------------------
  // replace(/\s/g, "") and replace(/\D/g, "")

  /** `s.replace(/\s/g, "")`. */
  function RemoveWhitespace(s: string): (r: string)
    ensures NoWhitespace(r) && |r| <= |s|
  {
    if s == [] then []
    else if IsWhitespace(s[0]) then RemoveWhitespace(s[1..])
    else [s[0]] + RemoveWhitespace(s[1..])
  }

  /** Removing whitespace distributes over concatenation. */
  lemma {:induction false} RemoveWhitespaceAppend(a: string, b: string)
    ensures RemoveWhitespace(a + b) == RemoveWhitespace(a) + RemoveWhitespace(b)
  {
    if a != [] {
      assert (a + b)[0] == a[0];
      assert (a + b)[1..] == a[1..] + b;
      RemoveWhitespaceAppend(a[1..], b);
    } else {
      assert a + b == b;
    }
  }

  /** Removing whitespace from text that has none changes nothing. */
  lemma {:induction false} RemoveWhitespaceOfClean(s: string)
    requires NoWhitespace(s)
    ensures RemoveWhitespace(s) == s
  {
    if s != [] {
      RemoveWhitespaceOfClean(s[1..]);
    }
  }

  /** Removing whitespace leaves nothing exactly when the text is all whitespace. */
  lemma {:induction false} RemoveWhitespaceOfBlank(s: string)
    ensures RemoveWhitespace(s) == [] <==> AllWhitespace(s)
  {
    if s != [] {
      RemoveWhitespaceOfBlank(s[1..]);
      if IsWhitespace(s[0]) {
        assert AllWhitespace(s) <==> AllWhitespace(s[1..]) by {
          if AllWhitespace(s[1..]) {
            forall i | 0 <= i < |s| ensures IsWhitespace(s[i]) {
              if i > 0 {
                assert s[i] == s[1..][i - 1];
              }
            }
          }
        }
      }
    }
  }

  /** `s.replace(/\D/g, "")`. */
  function StripNonDigits(s: string): (r: string)
    ensures AllDigits(r) && |r| <= |s|
  {
    if s == [] then []
    else if IsDigit(s[0]) then [s[0]] + StripNonDigits(s[1..])
    else StripNonDigits(s[1..])
  }

  /**
    `replace(/\D/g, "")` keeps exactly the digit characters, in order: it maps
    each character to itself or to nothing, and distributes over concatenation.
  */
  lemma StripNonDigitsKeepsDigitsInOrder(a: string, b: string)
    ensures StripNonDigits(a + b) == StripNonDigits(a) + StripNonDigits(b)
    ensures forall c: char :: StripNonDigits([c]) == if IsDigit(c) then [c] else []
  {
    StripNonDigitsAppend(a, b);
    forall c: char ensures StripNonDigits([c]) == if IsDigit(c) then [c] else [] {
      StripNonDigitsOfChar(c);
    }
  }

  /** The digit filter distributes over concatenation. */
  lemma {:induction false} StripNonDigitsAppend(a: string, b: string)
    ensures StripNonDigits(a + b) == StripNonDigits(a) + StripNonDigits(b)
  {
    if a == [] {
      assert a + b == b;
    } else {
      var head := if IsDigit(a[0]) then [a[0]] else [];
      assert (a + b)[0] == a[0];
      assert (a + b)[1..] == a[1..] + b;
      StripNonDigitsAppend(a[1..], b);
      assert StripNonDigits(a + b) == head + StripNonDigits(a[1..] + b);
      assert StripNonDigits(a) == head + StripNonDigits(a[1..]);
    }
  }

  /** A single character passes the digit filter exactly when it is a digit. */
  lemma StripNonDigitsOfChar(c: char)
    ensures StripNonDigits([c]) == if IsDigit(c) then [c] else []
  {
    assert [c][0] == c && [c][1..] == [];
  }

  /** Text made of digits only passes through the digit filter unchanged. */
  lemma {:induction false} StripNonDigitsOfDigits(s: string)
    requires AllDigits(s)
    ensures StripNonDigits(s) == s
  {
    if s != [] {
      StripNonDigitsOfDigits(s[1..]);
    }
  }

  // ---------------------------------------------------------------------------
  // split(/\s+/)

  /** Length of the longest prefix of `s` without whitespace. */
  function WordLength(s: string): (n: nat)
    ensures n <= |s|
    ensures NoWhitespace(s[..n])
    ensures n < |s| ==> IsWhitespace(s[n])
  {
    if s == [] || IsWhitespace(s[0]) then 0 else 1 + WordLength(s[1..])
  }

  /** Length of the longest prefix of `s` made of whitespace. */
  function BlankLength(s: string): (n: nat)
    ensures n <= |s|
    ensures AllWhitespace(s[..n])
    ensures n < |s| ==> !IsWhitespace(s[n])
  {
    if s == [] || !IsWhitespace(s[0]) then 0 else 1 + BlankLength(s[1..])
  }

  /**
    `s.split(/\s+/)`: the pieces between maximal runs of whitespace. There is
    always at least one piece; `""` gives `[""]` and a leading or trailing run
    gives an empty first or last piece.
  */
  function SplitWords(s: string): (words: seq<string>)
    ensures |words| >= 1
    decreases |s|
  {
    var n := WordLength(s);
    if n == |s| then [s]
    else
      var rest := s[n..];
      [s[..n]] + SplitWords(rest[BlankLength(rest)..])
  }

  /** Concatenation of a sequence of strings. */
  function Concat(parts: seq<string>): string {
    if parts == [] then [] else parts[0] + Concat(parts[1..])
  }

  /** No piece of `split(/\s+/)` contains whitespace. */
  lemma {:induction false} SplitWordsAreClean(s: string)
    ensures forall i :: 0 <= i < |SplitWords(s)| ==> NoWhitespace(SplitWords(s)[i])
    decreases |s|
  {
    var n := WordLength(s);
    if n == |s| {
      assert s[..n] == s;
    } else {
      var rest := s[n..];
      var tail := rest[BlankLength(rest)..];
      SplitWordsAreClean(tail);
      assert SplitWords(s)[1..] == SplitWords(tail);
    }
  }

  /** A prefix without whitespace passes through whitespace removal unchanged. */
  lemma {:induction false} RemoveWhitespaceAfterClean(word: string, rest: string)
    requires NoWhitespace(word)
    ensures RemoveWhitespace(word + rest) == word + RemoveWhitespace(rest)
  {
    if word == [] {
      assert word + rest == rest;
    } else {
      var s := word + rest;
      assert s[0] == word[0] && s[1..] == word[1..] + rest;
      RemoveWhitespaceAfterClean(word[1..], rest);
      assert word == [word[0]] + word[1..];
    }
  }

  /** A prefix of whitespace alone disappears under whitespace removal. */
  lemma {:induction false} RemoveWhitespaceAfterBlank(blank: string, rest: string)
    requires AllWhitespace(blank)
    ensures RemoveWhitespace(blank + rest) == RemoveWhitespace(rest)
  {
    if blank == [] {
      assert blank + rest == rest;
    } else {
      var s := blank + rest;
      assert s[0] == blank[0] && s[1..] == blank[1..] + rest;
      RemoveWhitespaceAfterBlank(blank[1..], rest);
    }
  }

  /** Whitespace removal across one word, one run of whitespace and the rest. */
  lemma RemoveWhitespaceOfWordBlank(word: string, blank: string, tail: string)
    requires NoWhitespace(word) && AllWhitespace(blank)
    ensures RemoveWhitespace(word + (blank + tail)) == word + RemoveWhitespace(tail)
  {
    RemoveWhitespaceAfterClean(word, blank + tail);
    RemoveWhitespaceAfterBlank(blank, tail);
  }

  /** The pieces of `split(/\s+/)`, put together, are the input without its whitespace. */
  lemma {:induction false} SplitWordsConcat(s: string)
    ensures Concat(SplitWords(s)) == RemoveWhitespace(s)
    decreases |s|
  {
    var n := WordLength(s);
    if n == |s| {
      assert s[..n] == s;
      RemoveWhitespaceOfClean(s);
    } else {
      var m := BlankLength(s[n..]);
      var word, blank, tail := s[..n], s[n..][..m], s[n..][m..];
      assert s == word + (blank + tail);
      SplitWordsConcat(tail);
      RemoveWhitespaceOfWordBlank(word, blank, tail);
      assert SplitWords(s)[1..] == SplitWords(tail);
    }
  }

  /** A word without whitespace splits into itself. */
  lemma SplitWordsOfClean(s: string)
    requires NoWhitespace(s)
    ensures SplitWords(s) == [s]
  {
  }

  /** The runs of whitespace `split(/\s+/)` cuts at, in order. */
  function Separators(s: string): seq<string>
    decreases |s|
  {
    var n := WordLength(s);
    if n == |s| then []
    else
      var rest := s[n..];
      var m := BlankLength(rest);
      [rest[..m]] + Separators(rest[m..])
  }

  /** `words[0] + seps[0] + words[1] + ... + seps[k-1] + words[k]`. */
  function Weave(words: seq<string>, seps: seq<string>): string
    requires |words| == |seps| + 1
  {
    if seps == [] then words[0] else words[0] + seps[0] + Weave(words[1..], seps[1..])
  }

  /** One step of `Weave`: a leading word and separator, then the rest. */
  lemma WeaveStep(word: string, sep: string, tail: string, words: seq<string>, seps: seq<string>,
                  restWords: seq<string>, restSeps: seq<string>)
    requires words == [word] + restWords && seps == [sep] + restSeps
    requires |restWords| == |restSeps| + 1 && Weave(restWords, restSeps) == tail
    ensures |words| == |seps| + 1
    ensures Weave(words, seps) == word + (sep + tail)
  {
    assert words[0] == word && words[1..] == restWords;
    assert seps[0] == sep && seps[1..] == restSeps;
  }

  /** `split(/\s+/)` gives one more word than there are runs of whitespace between them. */
  lemma {:induction false} SplitWordsCount(s: string)
    ensures |SplitWords(s)| == |Separators(s)| + 1
    decreases |s|
  {
    var n := WordLength(s);
    if n < |s| {
      var rest := s[n..];
      SplitWordsCount(rest[BlankLength(rest)..]);
    }
  }

  /** The cuts are non-empty runs made only of whitespace. */
  lemma {:induction false} SeparatorsAreBlank(s: string)
    ensures forall i :: 0 <= i < |Separators(s)| ==> |Separators(s)[i]| > 0 && AllWhitespace(Separators(s)[i])
    decreases |s|
  {
    var n := WordLength(s);
    if n < |s| {
      var rest := s[n..];
      var m := BlankLength(rest);
      assert rest[0] == s[n];
      SeparatorsAreBlank(rest[m..]);
    }
  }

  /** One cut of `split(/\s+/)`: the first word, the run after it, and the split of the rest. */
  lemma SplitWordsStep(s: string, n: nat, m: nat)
    requires n == WordLength(s) < |s| && m == BlankLength(s[n..])
    ensures SplitWords(s) == [s[..n]] + SplitWords(s[n..][m..])
    ensures Separators(s) == [s[n..][..m]] + Separators(s[n..][m..])
  {
  }

  /**
    `split(/\s+/)` cuts at every maximal run of whitespace: interleaving the
    words with the runs gives back the input. With `SeparatorsAreBlank`,
    `SplitWordsAreClean`, `SplitWordsInnerNonEmpty`, `SplitWordsFirstEmpty`
    and `SplitWordsLastEmpty` this determines the words: every run is
    maximal, because a non-empty word or an end of the text lies on each side.
  */
  lemma {:induction false} SplitWordsRoundTrip(s: string)
    ensures |SplitWords(s)| == |Separators(s)| + 1
    ensures Weave(SplitWords(s), Separators(s)) == s
    decreases |s|
  {
    var n := WordLength(s);
    if n == |s| {
      assert s[..n] == s;
    } else {
      var rest := s[n..];
      var m := BlankLength(rest);
      SplitWordsStep(s, n, m);
      var tail := rest[m..];
      SplitWordsRoundTrip(tail);
      SliceJoin(rest, m);
      SliceJoin(s, n);
      WeaveStep(s[..n], rest[..m], tail, SplitWords(s), Separators(s), SplitWords(tail), Separators(tail));
    }
  }

  /** Cutting a sequence in two and joining the halves gives it back. */
  lemma SliceJoin<T>(xs: seq<T>, k: nat)
    requires k <= |xs|
    ensures xs == xs[..k] + xs[k..]
  {
  }

  /** The first word is empty exactly when the text is empty or starts with whitespace. */
  lemma SplitWordsFirstEmpty(s: string)
    ensures SplitWords(s)[0] == "" <==> s == [] || IsWhitespace(s[0])
  {
  }

  /**
    Every word strictly between the first and the last is non-empty: after a
    maximal run of whitespace the text either ends or goes on with a
    non-whitespace character. So `split(/\s+/)` never cuts inside a run, as
    `split(/\s/)` would.
  */
  lemma {:induction false} SplitWordsInnerNonEmpty(s: string)
    ensures forall i :: 0 < i < |SplitWords(s)| - 1 ==> SplitWords(s)[i] != ""
    decreases |s|
  {
    var n := WordLength(s);
    if n < |s| {
      var rest := s[n..];
      var m := BlankLength(rest);
      SplitWordsStep(s, n, m);
      var tail := rest[m..];
      SplitWordsInnerNonEmpty(tail);
      AfterBlankStartsWord(rest, m);
      InnerNonEmptyStep(SplitWords(s), s[..n], SplitWords(tail));
    }
  }

  /** After a maximal run of whitespace, a text of two or more words starts with a non-empty one. */
  lemma AfterBlankStartsWord(rest: string, m: nat)
    requires m == BlankLength(rest)
    ensures |SplitWords(rest[m..])| >= 2 ==> SplitWords(rest[m..])[0] != ""
  {
    var tail := rest[m..];
    if tail != [] {
      assert tail[0] == rest[m];
      SplitWordsFirstEmpty(tail);
    }
  }

  /** Putting a word in front of words whose inner and (if not last) first ones are non-empty. */
  lemma InnerNonEmptyStep(words: seq<string>, first: string, tailWords: seq<string>)
    requires words == [first] + tailWords
    requires |tailWords| >= 2 ==> tailWords[0] != ""
    requires forall i :: 0 < i < |tailWords| - 1 ==> tailWords[i] != ""
    ensures forall i :: 0 < i < |words| - 1 ==> words[i] != ""
  {
    forall i | 0 < i < |words| - 1
      ensures words[i] != ""
    {
      assert words[i] == tailWords[i - 1];
    }
  }

  /** The last word is empty exactly when the text is empty or ends with whitespace. */
  lemma SplitWordsLastEmpty(s: string)
    ensures var words := SplitWords(s);
            words[|words| - 1] == "" <==> s == [] || IsWhitespace(s[|s| - 1])
  {
    SplitWordsRoundTrip(s);
    SplitWordsAreClean(s);
    SeparatorsAreBlank(s);
    WeaveLast(SplitWords(s), Separators(s));
  }

  /**
    Interleaving whitespace-free words with non-empty runs of whitespace gives
    a text whose last word is empty exactly when the text is empty or ends
    with whitespace.
  */
  lemma {:induction false} WeaveLast(words: seq<string>, seps: seq<string>)
    requires |words| == |seps| + 1
    requires forall i :: 0 <= i < |words| ==> NoWhitespace(words[i])
    requires forall i :: 0 <= i < |seps| ==> |seps[i]| > 0 && AllWhitespace(seps[i])
    ensures var t := Weave(words, seps);
            words[|words| - 1] == "" <==> t == [] || IsWhitespace(t[|t| - 1])
  {
    if seps == [] {
      var w := words[0];
      if w != [] {
        assert !IsWhitespace(w[|w| - 1]);
      }
    } else {
      var head := words[0] + seps[0];
      var u := Weave(words[1..], seps[1..]);
      WeaveLast(words[1..], seps[1..]);
      assert words[|words| - 1] == words[1..][|words| - 2];
      var t := head + u;
      assert Weave(words, seps) == t;
      if u == [] {
        assert t == head && t[|t| - 1] == seps[0][|seps[0]| - 1];
        assert IsWhitespace(seps[0][|seps[0]| - 1]);
      } else {
        assert t[|t| - 1] == u[|u| - 1];
      }
    }
  }



  // ---------------------------------------------------------------------------
  // split(',')

  /** `s.split(sep)` for a one-character separator. */
  function SplitOn(s: string, sep: char): (parts: seq<string>)
    ensures |parts| >= 1
  {
    if s == [] then [[]]
    else
      var tail := SplitOn(s[1..], sep);
      if s[0] == sep then [[]] + tail
      else [[s[0]] + tail[0]] + tail[1..]
  }

  /** Number of occurrences of `c` in `s`. */
  function Occurrences(s: string, c: char): nat {
    if s == [] then 0 else (if s[0] == c then 1 else 0) + Occurrences(s[1..], c)
  }

  /** Joins pieces with a one-character separator (`Array.prototype.join`). */
  function JoinWith(parts: seq<string>, sep: char): string
    requires |parts| >= 1
  {
    if |parts| == 1 then parts[0] else parts[0] + [sep] + JoinWith(parts[1..], sep)
  }

  /** Joining adds one separator between each two pieces. */
  lemma {:induction false} JoinWithLength(parts: seq<string>, sep: char)
    requires |parts| >= 1
    ensures |JoinWith(parts, sep)| == |Concat(parts)| + |parts| - 1
  {
    if |parts| > 1 {
      JoinWithLength(parts[1..], sep);
    }
  }

  /** Splitting joined pieces that hold no separator gives the pieces back. */
  lemma {:induction false} SplitOnJoinWith(parts: seq<string>, sep: char)
    requires |parts| >= 1
    requires forall i :: 0 <= i < |parts| ==> sep !in parts[i]
    ensures SplitOn(JoinWith(parts, sep), sep) == parts
  {
    if |parts| == 1 {
      SplitOnNoSep(parts[0], sep);
    } else {
      SplitOnJoinWith(parts[1..], sep);
      SplitOnAfterPiece(parts[0], JoinWith(parts[1..], sep), sep);
      assert parts == [parts[0]] + parts[1..];
    }
  }

  /** Text without the separator splits into itself alone. */
  lemma {:induction false} SplitOnNoSep(w: string, sep: char)
    requires sep !in w
    ensures SplitOn(w, sep) == [w]
  {
    if w != [] {
      SplitOnNoSep(w[1..], sep);
      assert w == [w[0]] + w[1..];
    }
  }

  /** A piece without the separator, then the separator, splits off as the first piece. */
  lemma {:induction false} SplitOnAfterPiece(w: string, t: string, sep: char)
    requires sep !in w
    ensures SplitOn(w + [sep] + t, sep) == [w] + SplitOn(t, sep)
  {
    var s := w + [sep] + t;
    if w == [] {
      assert s[0] == sep && s[1..] == t;
    } else {
      assert s[0] == w[0] && s[1..] == w[1..] + [sep] + t;
      SplitOnAfterPiece(w[1..], t, sep);
      assert w == [w[0]] + w[1..];
    }
  }

  /**
    `split` on a separator gives one more piece than there are separators, no
    piece contains the separator, and joining the pieces back gives the input.
  */
  lemma {:induction false} SplitOnSpec(s: string, sep: char)
    ensures |SplitOn(s, sep)| == Occurrences(s, sep) + 1
    ensures forall i :: 0 <= i < |SplitOn(s, sep)| ==> sep !in SplitOn(s, sep)[i]
    ensures JoinWith(SplitOn(s, sep), sep) == s
  {
    if s != [] {
      SplitOnSpec(s[1..], sep);
      var tail := SplitOn(s[1..], sep);
      if s[0] == sep {
        SplitOnAtSep(SplitOn(s, sep), tail, sep);
      } else {
        SplitOnAtOther(SplitOn(s, sep), tail, s[0], sep);
      }
      assert s == [s[0]] + s[1..];
    }
  }

  /** A leading separator starts a new, empty piece in front of the others. */
  lemma SplitOnAtSep(parts: seq<string>, tail: seq<string>, sep: char)
    requires |tail| >= 1 && parts == [[]] + tail
    requires forall i :: 0 <= i < |tail| ==> sep !in tail[i]
    ensures |parts| == |tail| + 1
    ensures forall i :: 0 <= i < |parts| ==> sep !in parts[i]
    ensures JoinWith(parts, sep) == [sep] + JoinWith(tail, sep)
  {
    assert parts[1..] == tail;
    forall i | 0 < i < |parts|
      ensures sep !in parts[i]
    {
      assert parts[i] == tail[i - 1];
    }
  }

  /** A leading character other than the separator joins the first piece. */
  lemma SplitOnAtOther(parts: seq<string>, tail: seq<string>, c: char, sep: char)
    requires c != sep && |tail| >= 1 && parts == [[c] + tail[0]] + tail[1..]
    requires forall i :: 0 <= i < |tail| ==> sep !in tail[i]
    ensures |parts| == |tail|
    ensures forall i :: 0 <= i < |parts| ==> sep !in parts[i]
    ensures JoinWith(parts, sep) == [c] + JoinWith(tail, sep)
  {
    forall i | 0 <= i < |parts|
      ensures sep !in parts[i]
    {
      if i == 0 {
        assert sep !in tail[0];
      } else {
        assert parts[i] == tail[i];
      }
    }
    JoinWithFrontChar(parts, tail, c, sep);
  }

  /** Putting a character in front of the first piece puts it in front of the joined text. */
  lemma JoinWithFrontChar(parts: seq<string>, tail: seq<string>, c: char, sep: char)
    requires |tail| >= 1 && parts == [[c] + tail[0]] + tail[1..]
    ensures JoinWith(parts, sep) == [c] + JoinWith(tail, sep)
  {
    if |tail| > 1 {
      var j := JoinWith(tail[1..], sep);
      assert parts[1..] == tail[1..];
      assert JoinWith(parts, sep) == ([c] + tail[0]) + [sep] + j;
      assert JoinWith(tail, sep) == tail[0] + [sep] + j;
    }
  }
}
