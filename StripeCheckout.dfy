/**
  The card form of the checkout component: the card-number and expiry
  formatters applied on every keystroke, the CVV digit filter, and the guard
  `handlePayment` runs before it starts processing.
*/
module StripeCheckout {
  import opened Strings

  // ---------------------------------------------------------------------------
  // formatCardNumber

  /** `s.match(/.{1,4}/g) || []`: consecutive pieces of four characters, the last one shorter. */
  function Chunks(s: string): (chunks: seq<string>)
    ensures Concat(chunks) == s
    ensures forall i :: 0 <= i < |chunks| ==> 1 <= |chunks[i]| <= 4
    ensures forall i :: 0 <= i < |chunks| - 1 ==> |chunks[i]| == 4
  {
    if s == [] then []
    else if |s| <= 4 then [s]
    else
      var chunks := [s[..4]] + Chunks(s[4..]);
      assert chunks[1..] == Chunks(s[4..]);
      assert s == s[..4] + s[4..];
      chunks
  }

  /** `chunks.join(" ")`. */
  function JoinWithSpaces(chunks: seq<string>): string {
    if chunks == [] then [] else JoinWith(chunks, ' ')
  }

  /**
    Joining with spaces puts one space between each two chunks, gives the
    empty text only for no chunks or one empty chunk, and splitting the result
    on spaces gives back chunks that hold no space.
  */
  lemma JoinWithSpacesSpec(chunks: seq<string>)
    ensures chunks != [] ==> |JoinWithSpaces(chunks)| == |Concat(chunks)| + |chunks| - 1
    ensures JoinWithSpaces(chunks) == [] <==> chunks == [] || (|chunks| == 1 && chunks[0] == [])
    ensures chunks != [] && (forall i :: 0 <= i < |chunks| ==> ' ' !in chunks[i]) ==>
              SplitOn(JoinWithSpaces(chunks), ' ') == chunks
  {
    if chunks != [] {
      JoinWithLength(chunks, ' ');
      if forall i :: 0 <= i < |chunks| ==> ' ' !in chunks[i] {
        SplitOnJoinWith(chunks, ' ');
      }
    }
  }

  /** `s.slice(0, n)`. */
  function Take(s: string, n: nat): (r: string)
    ensures |r| == if |s| <= n then |s| else n
    ensures r == s[..|r|]
  {
    if |s| <= n then s else s[..n]
  }

  /** The input's characters in groups of four, separated by single spaces. */
  function Grouped(s: string): string {
    JoinWithSpaces(Chunks(s))
  }

  /** `formatCardNumber(value)`. */
  function FormatCardNumber(value: string): (r: string)
    ensures |r| <= 19
    ensures r == [] <==> RemoveWhitespace(value) == []
  {
    var cleaned := RemoveWhitespace(value);
    GroupedLength(cleaned);
    Take(Grouped(cleaned), 19)
  }

  /**
    The shape of a formatted card number: a space at every fifth position and
    a non-whitespace character everywhere else, and no trailing space. That is,
    groups of exactly four non-whitespace characters separated by single spaces,
    the last group possibly shorter.
  */
  ghost predicate CardLayout(r: string) {
    && (forall i :: 0 <= i < |r| ==> (i % 5 == 4 ==> r[i] == ' ') && (i % 5 != 4 ==> !IsWhitespace(r[i])))
    && (r == [] || |r| % 5 != 0)
  }

  lemma GroupedStep(s: string)
    requires |s| > 4
    ensures Grouped(s) == s[..4] + " " + Grouped(s[4..])
  {
    assert Chunks(s) == [s[..4]] + Chunks(s[4..]);
    assert Chunks(s)[1..] == Chunks(s[4..]);
  }

  lemma {:induction false} GroupedLength(s: string)
    ensures |Grouped(s)| == if s == [] then 0 else |s| + (|s| - 1) / 4
    decreases |s|
  {
    if |s| > 4 {
      GroupedStep(s);
      GroupedLength(s[4..]);
    } else if s != [] {
      assert Chunks(s) == [s];
    }
  }

  /** Grouping text without whitespace gives the card layout. */
  lemma {:induction false} GroupedLayout(s: string)
    requires NoWhitespace(s)
    ensures CardLayout(Grouped(s))
    decreases |s|
  {
    GroupedLength(s);
    if |s| > 4 {
      GroupedStep(s);
      GroupedLayout(s[4..]);
      GroupedLength(s[4..]);
      LayoutStep(Grouped(s), s[..4], Grouped(s[4..]));
    } else if s != [] {
      assert Chunks(s) == [s];
    }
  }

  /** A group of four, a space, and text in card layout are in card layout. */
  lemma LayoutStep(g: string, group: string, rest: string)
    requires |group| == 4 && NoWhitespace(group) && rest != [] && CardLayout(rest)
    requires g == group + " " + rest
    ensures CardLayout(g)
  {
    forall i | 0 <= i < |g| ensures (i % 5 == 4 ==> g[i] == ' ') && (i % 5 != 4 ==> !IsWhitespace(g[i])) {
      if i < 4 {
        assert g[i] == group[i];
      } else if i > 4 {
        assert g[i] == rest[i - 5];
      }
    }
  }

  /** Removing the spaces from grouped text gives the text back. */
  lemma {:induction false} GroupedUngroups(s: string)
    requires NoWhitespace(s)
    ensures RemoveWhitespace(Grouped(s)) == s
    decreases |s|
  {
    if |s| > 4 {
      GroupedStep(s);
      GroupedUngroups(s[4..]);
      UngroupStep(s[..4], s[4..], Grouped(s[4..]));
      SliceJoin(s, 4);
    } else if s != [] {
      assert Chunks(s) == [s];
      RemoveWhitespaceOfClean(s);
    }
  }

  /** One group, a space, and text whose whitespace removal is `tail`, lose the space. */
  lemma UngroupStep(group: string, tail: string, rest: string)
    requires NoWhitespace(group) && RemoveWhitespace(rest) == tail
    ensures RemoveWhitespace(group + " " + rest) == group + tail
  {
    RemoveWhitespaceOfWordBlank(group, " ", rest);
    assert group + " " + rest == group + (" " + rest);
  }

  /** The first `5m - 1` characters of grouped text are the grouping of its first `4m` characters. */
  lemma {:induction false} GroupedPrefix(s: string, m: nat)
    requires m >= 1 && |s| >= 4 * m
    ensures |Grouped(s)| >= 5 * m - 1
    ensures Grouped(s)[..5 * m - 1] == Grouped(s[..4 * m])
  {
    GroupedLength(s);
    if m == 1 {
      if |s| > 4 {
        GroupedStep(s);
      } else {
        assert Chunks(s) == [s];
      }
      assert Chunks(s[..4]) == [s[..4]];
    } else {
      GroupedStep(s);
      GroupedPrefix(s[4..], m - 1);
      GroupedStep(s[..4 * m]);
      assert s[..4 * m][..4] == s[..4];
      assert s[..4 * m][4..] == s[4..][..4 * (m - 1)];
    }
  }

  /** The formatted card number is the grouping of the first 16 non-whitespace characters. */
  lemma FormatCardNumberIsGroupedPrefix(value: string)
    ensures FormatCardNumber(value) == Grouped(Take(RemoveWhitespace(value), 16))
  {
    var cleaned := RemoveWhitespace(value);
    GroupedLength(cleaned);
    if |cleaned| > 16 {
      GroupedPrefix(cleaned, 4);
    }
  }

  /**
    `formatCardNumber` gives at most 19 characters laid out as groups of four
    separated by single spaces, and dropping the spaces gives the first 16
    (or fewer) non-whitespace characters of the input, in order; non-digits are
    kept. The result is empty exactly when the input is all whitespace.
  */
  lemma FormatCardNumberSpec(value: string)
    ensures CardLayout(FormatCardNumber(value))
    ensures RemoveWhitespace(FormatCardNumber(value)) == Take(RemoveWhitespace(value), 16)
  {
    var kept := Take(RemoveWhitespace(value), 16);
    FormatCardNumberIsGroupedPrefix(value);
    GroupedLength(kept);
    GroupedLayout(kept);
    GroupedUngroups(kept);
  }

  /**
    Formatting an already formatted card number changes nothing, so the input
    handler can reformat the field's value on every keystroke.
  */
  lemma FormatCardNumberIdempotent(value: string)
    ensures FormatCardNumber(FormatCardNumber(value)) == FormatCardNumber(value)
  {
    var once := FormatCardNumber(value);
    FormatCardNumberSpec(value);
    FormatCardNumberIsGroupedPrefix(once);
    FormatCardNumberIsGroupedPrefix(value);
  }

  // ---------------------------------------------------------------------------
  // formatExpiry and the CVV filter

  /** `formatExpiry(value)`: the digits, with "/" after the first two and at most two more. */
  function FormatExpiry(value: string): (r: string)
    ensures |r| <= 5
    ensures |r| >= 3 <==> |StripNonDigits(value)| >= 2
    ensures |r| >= 3 ==> r[2] == '/'
  {
    var cleaned := StripNonDigits(value);
    if |cleaned| >= 2 then cleaned[..2] + "/" + Take(cleaned[2..], 2)
    else cleaned
  }

  /**
    `formatExpiry` gives at most five characters, all digits except a "/" that
    can only stand at index 2; fewer than two digits come back as they are, two
    or more get the "/" after the second (so exactly two give "DD/").
  */
  lemma FormatExpiryShape(value: string)
    ensures forall i :: 0 <= i < |FormatExpiry(value)| && i != 2 ==> IsDigit(FormatExpiry(value)[i])
    ensures |StripNonDigits(value)| < 2 ==> FormatExpiry(value) == StripNonDigits(value)
    ensures |StripNonDigits(value)| == 2 ==> FormatExpiry(value) == StripNonDigits(value) + "/"
  {
    var cleaned := StripNonDigits(value);
    var r := FormatExpiry(value);
    if |cleaned| >= 2 {
      var tail := Take(cleaned[2..], 2);
      assert r == cleaned[..2] + "/" + tail;
      forall i | 0 <= i < |r| && i != 2 ensures IsDigit(r[i]) {
        if i < 2 {
          assert r[i] == cleaned[i];
        } else {
          assert r[i] == tail[i - 3] == cleaned[i - 1];
        }
      }
      if |cleaned| == 2 {
        assert cleaned[..2] == cleaned;
      }
    }
  }

  /** The digit filter drops the "/" between two runs of digits. */
  lemma DigitsAroundSlash(head: string, tail: string)
    requires AllDigits(head) && AllDigits(tail)
    ensures StripNonDigits(head + "/" + tail) == head + tail
  {
    StripNonDigitsOfDigits(head);
    StripNonDigitsOfDigits(tail);
    StripNonDigitsOfChar('/');
    StripNonDigitsAppend(head, "/");
    StripNonDigitsAppend(head + "/", tail);
    assert head + [] == head;
  }

  /** `formatExpiry` keeps the first four digits of the input, in order, and nothing else. */
  lemma FormatExpiryDigits(value: string)
    ensures StripNonDigits(FormatExpiry(value)) == Take(StripNonDigits(value), 4)
  {
    var cleaned := StripNonDigits(value);
    if |cleaned| >= 2 {
      var head, tail := cleaned[..2], Take(cleaned[2..], 2);
      DigitsAroundSlash(head, tail);
      assert Take(cleaned, 4) == head + tail;
    } else {
      StripNonDigitsOfDigits(cleaned);
    }
  }

  /** Formatting an already formatted expiry changes nothing. */
  lemma FormatExpiryIdempotent(value: string)
    ensures FormatExpiry(FormatExpiry(value)) == FormatExpiry(value)
  {
    var cleaned := StripNonDigits(value);
    FormatExpiryShape(value);
    FormatExpiryDigits(value);
    var again := StripNonDigits(FormatExpiry(value));
    if |cleaned| >= 2 {
      assert again[..2] == cleaned[..2];
      assert again[2..] == Take(cleaned[2..], 2);
    }
  }

  // ---------------------------------------------------------------------------
  // handlePayment

  /** The card form's fields. */
  datatype CardData = CardData(cardNumber: string, expiry: string, cvv: string, name: string)

  /** What `handlePayment` does: reject with one of two messages, or start processing. */
  datatype PaymentStep = LoginRequired | MissingCardDetails | Processing

  /** The guard of `handlePayment`: a signed-in user and four non-empty card fields. */
  function HandlePayment(signedIn: bool, card: CardData): (step: PaymentStep)
    ensures step == Processing <==>
            signedIn && card.cardNumber != "" && card.expiry != "" && card.cvv != "" && card.name != ""
    ensures step == LoginRequired <==> !signedIn
  {
    if !signedIn then LoginRequired
    else if card.cardNumber == "" || card.expiry == "" || card.cvv == "" || card.name == "" then MissingCardDetails
    else Processing
  }

  /** A card number typed as whitespace alone is formatted to nothing, so payment is refused. */
  lemma BlankCardNumberIsRefused(signedIn: bool, typed: string, expiry: string, cvv: string, name: string)
    requires AllWhitespace(typed)
    ensures HandlePayment(signedIn, CardData(FormatCardNumber(typed), expiry, cvv, name)) != Processing
  {
    RemoveWhitespaceOfBlank(typed);
    FormatCardNumberSpec(typed);
  }
}
