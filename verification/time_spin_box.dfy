/**
 The duration codec of the `TimeSpinBox` widget: a number of seconds is shown
 as text such as `1d 2h 3m 4s` and such text is read back as seconds.

 `TextFromValue` walks the unit suffixes from days down to seconds; once one
 unit has been written every smaller unit is written too, zero or not.
 `ValueFromText` adds up, for every suffix, the leftmost `(\d+)\s*X` match
 times the unit's length in seconds.
 */
module TimeSpinBox {
  import opened Decimal
  import opened Pattern

  type Pos = n: nat | n > 0 witness 1

  const Minute: Pos := 60
  const Hour: Pos := 60 * Minute
  const Day: Pos := 24 * Hour

  /** The spin box's maximum value: one second under a week. */
  const Maximum: nat := 7 * Day - 1

  /** A unit suffix: its letter and the length of one unit in seconds. */
  datatype Suffix = Suffix(letter: char, seconds: Pos)

  /** The suffix table in the order it is declared, which is the order the decoder walks it. */
  const Suffixes: seq<Suffix> := [Suffix('s', 1), Suffix('m', Minute), Suffix('h', Hour), Suffix('d', Day)]

  /** The suffix table ordered by letter, the order the encoder walks it. */
  const SortedSuffixes: seq<Suffix> := [Suffix('d', Day), Suffix('h', Hour), Suffix('m', Minute), Suffix('s', 1)]

  /**
   Ordering the table by letter is the same as ordering it from the longest
   unit to the shortest, and each unit is a whole number of the next one.
   */
  lemma SortedSuffixesIsSortedTable()
    ensures |SortedSuffixes| == |Suffixes|
    ensures forall u :: u in SortedSuffixes <==> u in Suffixes
    ensures forall i, j :: 0 <= i < j < |SortedSuffixes| ==>
      SortedSuffixes[i].letter < SortedSuffixes[j].letter &&
      SortedSuffixes[i].seconds > SortedSuffixes[j].seconds
    ensures forall i :: 0 < i < |SortedSuffixes| ==>
      SortedSuffixes[i - 1].seconds % SortedSuffixes[i].seconds == 0
  {
  }

  // ---------------------------------------------------------------------------
  // Encoding
  // ---------------------------------------------------------------------------

  /**
   The loop of `textFromValue` over the suffixes still to visit: a unit that
   fits is written with its count and taken off the value; a unit that does
   not fit is written as `0` once some token has been written, and skipped
   before that.
   */
  function EncodeFrom(order: seq<Suffix>, value: nat, text: string): string
    decreases |order|
  {
    if order == [] then text
    else
      var u := order[0];
      if value >= u.seconds then
        EncodeFrom(order[1..], value % u.seconds,
                   text + (if text == "" then "" else " ") + NatToString(value / u.seconds) + [u.letter])
      else if text != "" then
        EncodeFrom(order[1..], value, text + " 0" + [u.letter])
      else
        EncodeFrom(order[1..], value, text)
  }

  /**
   `textFromValue`: the text the spin box shows for a number of seconds, which
   is the canonical breakdown of the value joined by single spaces.
   */
  function TextFromValue(value: nat): (text: string)
    ensures text == JoinTokens(Canonical(value))
  {
    EncodeIsCanonical(value);
    EncodeFrom(SortedSuffixes, value, "")
  }

  /** One `<count><letter>` token. */
  datatype Token = Token(count: nat, letter: char)

  function TokenText(t: Token): string {
    NatToString(t.count) + [t.letter]
  }

  /** Tokens each preceded by one space. */
  function SpacedTokens(ts: seq<Token>): string {
    if ts == [] then "" else " " + TokenText(ts[0]) + SpacedTokens(ts[1..])
  }

  /** Tokens separated by single spaces, with no leading or trailing space. */
  function JoinTokens(ts: seq<Token>): string {
    if ts == [] then "" else TokenText(ts[0]) + SpacedTokens(ts[1..])
  }

  /** Whole days, hours of the day, minutes of the hour and seconds of the minute. */
  function Breakdown(value: nat): (b: seq<Token>)
    ensures |b| == 4
    ensures forall i :: 0 <= i < 4 ==> b[i].letter == SortedSuffixes[i].letter
  {
    [Token(value / Day, 'd'), Token(value / Hour % 24, 'h'), Token(value / Minute % 60, 'm'), Token(value % 60, 's')]
  }

  /** Position in `SortedSuffixes` of the longest unit that fits in `value`; 4 when none does. */
  function Lead(value: nat): (k: nat)
    ensures k <= 4
    ensures forall i :: 0 <= i < k ==> SortedSuffixes[i].seconds > value
    ensures k < 4 ==> SortedSuffixes[k].seconds <= value
    ensures k == 4 <==> value == 0
  {
    if value >= Day then 0 else if value >= Hour then 1 else if value >= Minute then 2 else if value >= 1 then 3 else 4
  }

  /**
   The rendering the codec is meant to produce: the breakdown from the longest
   unit that fits down to seconds.
   */
  function Canonical(value: nat): seq<Token> {
    Breakdown(value)[Lead(value)..]
  }

  /**
   Shape of the rendering: nothing for zero; otherwise tokens in `d,h,m,s`
   order starting at the longest unit that fits and ending with seconds, the
   first count being the number of whole such units and every later count
   staying below the ratio to the unit before it.
   */
  lemma CanonicalShape(value: nat)
    ensures var c := Canonical(value);
      && (c == [] <==> value == 0)
      && |c| == 4 - Lead(value)
      && (forall j :: 0 <= j < |c| ==> c[j].letter == SortedSuffixes[Lead(value) + j].letter)
      && (value > 0 ==> c[|c| - 1].letter == 's')
      && (value > 0 ==> c[0].count >= 1 && c[0].count == value / SortedSuffixes[Lead(value)].seconds)
      && (forall j :: 0 < j < |c| ==>
            c[j].count * SortedSuffixes[Lead(value) + j].seconds < SortedSuffixes[Lead(value) + j - 1].seconds)
  {
    if value > 0 {
      LeadCount(value);
    }
    CanonicalLaterCounts(value);
  }

  /** Every count after the first is less than one of the next longer unit. */
  lemma CanonicalLaterCounts(value: nat)
    ensures var c := Canonical(value);
      forall j :: 0 < j < |c| ==>
        c[j].count * SortedSuffixes[Lead(value) + j].seconds < SortedSuffixes[Lead(value) + j - 1].seconds
  {
    var h := value / Hour % 24;
    var m := value / Minute % 60;
    assert h <= 23 && m <= 59;
    assert h * Hour <= 23 * Hour;
    assert m * Minute <= 59 * Minute;
  }

  /** Within the spin box's range at most six whole days are ever written. */
  lemma CanonicalWithinRange(value: nat)
    requires value <= Maximum
    ensures forall j :: 0 <= j < |Canonical(value)| ==>
      Canonical(value)[j].count < (if j == 0 && Lead(value) == 0 then 7 else 60)
  {
  }

  lemma EncodeEmptyText(order: seq<Suffix>, value: nat)
    requires order != []
    ensures EncodeFrom(order, value, "") ==
      if value >= order[0].seconds then
        EncodeFrom(order[1..], value % order[0].seconds, TokenText(Token(value / order[0].seconds, order[0].letter)))
      else EncodeFrom(order[1..], value, "")
  {
    var u := order[0];
    if value >= u.seconds {
      var n := NatToString(value / u.seconds);
      assert "" + "" + n + [u.letter] == TokenText(Token(value / u.seconds, u.letter));
    }
  }

  /** After the first token the fit and no-fit branches write the same thing. */
  lemma EncodeAfterFirst(order: seq<Suffix>, value: nat, text: string)
    requires order != [] && text != ""
    ensures EncodeFrom(order, value, text) ==
      EncodeFrom(order[1..], value % order[0].seconds,
                 text + " " + TokenText(Token(value / order[0].seconds, order[0].letter)))
  {
    var u := order[0];
    var token := TokenText(Token(value / u.seconds, u.letter));
    if value >= u.seconds {
      var written := text + " " + NatToString(value / u.seconds) + [u.letter];
      assert EncodeFrom(order, value, text) == EncodeFrom(order[1..], value % u.seconds, written);
      assert written == text + " " + token;
    } else {
      var written := text + " 0" + [u.letter];
      assert EncodeFrom(order, value, text) == EncodeFrom(order[1..], value, written);
      assert value % u.seconds == value && value / u.seconds == 0;
      assert token == "0" + [u.letter] by {
        assert NatToString(0) == "0";
      }
      assert written == text + " " + token;
    }
  }

  /** Taking whole days off leaves the hours of the day and the seconds of the hour. */
  lemma CarryDays(v: nat)
    ensures (v % 86400) / 3600 == v / 3600 % 24
    ensures (v % 86400) % 3600 == v % 3600
  {
  }

  /** Taking whole hours off leaves the minutes of the hour. */
  lemma CarryHoursMinutes(v: nat)
    ensures (v % 3600) / 60 == v / 60 % 60
  {
  }

  /** Taking whole hours off leaves the seconds of the minute. */
  lemma CarryHoursSeconds(v: nat)
    ensures (v % 3600) % 60 == v % 60
  {
  }

  /** How the remainder the encoder carries relates to the breakdown. */
  lemma CarriedRemainder(value: nat, i: nat)
    requires 1 <= i < 4
    ensures (value % SortedSuffixes[i - 1].seconds) / SortedSuffixes[i].seconds == Breakdown(value)[i].count
    ensures (value % SortedSuffixes[i - 1].seconds) % SortedSuffixes[i].seconds == value % SortedSuffixes[i].seconds
  {
    if i == 1 {
      CarryDays(value);
    } else if i == 2 {
      CarryHoursMinutes(value);
      CarryHoursSeconds(value);
    }
  }

  /** Once a token has been written the encoder writes the rest of the breakdown. */
  lemma {:induction false} EncodeRest(value: nat, i: nat, text: string)
    requires 1 <= i <= 4 && text != ""
    ensures EncodeFrom(SortedSuffixes[i..], value % SortedSuffixes[i - 1].seconds, text) ==
      text + SpacedTokens(Breakdown(value)[i..])
    decreases 4 - i
  {
    if i < 4 {
      var r := value % SortedSuffixes[i - 1].seconds;
      var b := Breakdown(value);
      var order := SortedSuffixes[i..];
      EncodeAfterFirst(order, r, text);
      CarriedRemainder(value, i);
      assert order[1..] == SortedSuffixes[i + 1..];
      var text' := text + " " + TokenText(b[i]);
      EncodeRest(value, i + 1, text');
      assert b[i..][1..] == b[i + 1..];
      assert SpacedTokens(b[i..]) == " " + TokenText(b[i]) + SpacedTokens(b[i + 1..]);
    }
  }

  /** Before the first token the encoder skips the units that do not fit. */
  lemma {:induction false} EncodeSkipsLongerUnits(value: nat, i: nat)
    requires i <= Lead(value)
    ensures EncodeFrom(SortedSuffixes[i..], value, "") == EncodeFrom(SortedSuffixes[Lead(value)..], value, "")
    decreases Lead(value) - i
  {
    if i < Lead(value) {
      EncodeEmptyText(SortedSuffixes[i..], value);
      assert SortedSuffixes[i..][1..] == SortedSuffixes[i + 1..];
      EncodeSkipsLongerUnits(value, i + 1);
    }
  }

  /** The count written for the longest unit that fits is its breakdown count. */
  lemma LeadCount(value: nat)
    requires value > 0
    ensures value / SortedSuffixes[Lead(value)].seconds == Breakdown(value)[Lead(value)].count
  {
    var k := Lead(value);
    if k == 1 {
      assert value / Hour < 24;
    } else if k == 2 {
      assert value / Minute < 60;
    }
  }

  /** The encoder's loop, run over the whole table, writes exactly the canonical rendering. */
  lemma EncodeIsCanonical(value: nat)
    ensures EncodeFrom(SortedSuffixes, value, "") == JoinTokens(Canonical(value))
  {
    var k := Lead(value);
    EncodeSkipsLongerUnits(value, 0);
    assert SortedSuffixes[0..] == SortedSuffixes;
    if k < 4 {
      var b := Breakdown(value);
      EncodeEmptyText(SortedSuffixes[k..], value);
      assert SortedSuffixes[k..][1..] == SortedSuffixes[k + 1..];
      LeadCount(value);
      EncodeRest(value, k + 1, TokenText(b[k]));
      assert b[k..][1..] == b[k + 1..];
    }
  }

  /** Zero is shown as empty text: no unit fits, so no token is ever written. */
  lemma TextFromValueZero()
    ensures TextFromValue(0) == ""
  {
  }

  // ---------------------------------------------------------------------------
  // Decoding
  // ---------------------------------------------------------------------------

  /** The number the leftmost `(\d+)\s*X` match captures, or 0 when there is none. */
  function Captured(text: string, x: char): nat {
    match Search(text, x)
    case Some(n) => n
    case None => 0
  }

  /** What one suffix adds: its leftmost match's number times the unit, or nothing. */
  function Contribution(text: string, u: Suffix): nat {
    Captured(text, u.letter) * u.seconds
  }

  function SumFrom(order: seq<Suffix>, text: string): nat {
    if order == [] then 0 else Contribution(text, order[0]) + SumFrom(order[1..], text)
  }

  /**
   `valueFromText`: the seconds the spin box reads from its text, which is the
   number the leftmost match for each unit letter captures, times that unit.
   */
  function ValueFromText(text: string): (value: nat)
    ensures value ==
      Captured(text, 'd') * Day + Captured(text, 'h') * Hour + Captured(text, 'm') * Minute + Captured(text, 's')
  {
    SumOfSuffixes(text);
    SumFrom(Suffixes, text)
  }

  /** The walk over the suffix table adds up the four suffixes' contributions. */
  lemma SumOfSuffixes(text: string)
    ensures SumFrom(Suffixes, text) ==
      Contribution(text, Suffix('s', 1)) + Contribution(text, Suffix('m', Minute)) +
      Contribution(text, Suffix('h', Hour)) + Contribution(text, Suffix('d', Day))
  {
    var o := Suffixes;
    assert SumFrom(o, text) == Contribution(text, o[0]) + SumFrom(o[1..], text);
    assert SumFrom(o[1..], text) == Contribution(text, o[1]) + SumFrom(o[2..], text) by {
      assert o[1..][1..] == o[2..];
    }
    assert SumFrom(o[2..], text) == Contribution(text, o[2]) + SumFrom(o[3..], text) by {
      assert o[2..][1..] == o[3..];
    }
    assert SumFrom(o[3..], text) == Contribution(text, o[3]) by {
      assert o[3..][1..] == [];
    }
  }

  /** The count of the first token with letter `x`, if any. */
  function FirstCount(ts: seq<Token>, x: char): Option<nat> {
    if ts == [] then None
    else if ts[0].letter == x then Some(ts[0].count)
    else FirstCount(ts[1..], x)
  }

  function CountOr0(ts: seq<Token>, x: char): nat {
    match FirstCount(ts, x)
    case Some(n) => n
    case None => 0
  }

  predicate LetterTokens(ts: seq<Token>) {
    forall i :: 0 <= i < |ts| ==> IsUnitLetter(ts[i].letter)
  }

  /** Searching spaced tokens for `x` finds the first token with letter `x`. */
  lemma {:induction false} SearchSpacedTokens(ts: seq<Token>, x: char)
    requires LetterTokens(ts) && IsUnitLetter(x)
    ensures Search(SpacedTokens(ts), x) == FirstCount(ts, x)
    decreases |ts|
  {
    if ts != [] {
      var rest := TokenText(ts[0]) + SpacedTokens(ts[1..]);
      assert SpacedTokens(ts) == [' '] + rest;
      SearchSkipsSpace(rest, x);
      SearchJoinedTokensStep(ts, x);
    }
  }

  lemma {:induction false} SearchJoinedTokensStep(ts: seq<Token>, x: char)
    requires ts != [] && LetterTokens(ts) && IsUnitLetter(x)
    ensures Search(TokenText(ts[0]) + SpacedTokens(ts[1..]), x) == FirstCount(ts, x)
    decreases |ts|, 0
  {
    var ds := NatToString(ts[0].count);
    var rest := SpacedTokens(ts[1..]);
    assert TokenText(ts[0]) + rest == ds + [ts[0].letter] + rest;
    if ts[0].letter == x {
      SearchFindsToken(ds, x, rest);
      DigitsValueOfNatToString(ts[0].count);
    } else {
      SearchSkipsToken(ds, ts[0].letter, rest, x);
      SearchSpacedTokens(ts[1..], x);
    }
  }

  /**
   Searching joined tokens for `x` finds the first token with that letter:
   tokens of other letters are skipped whatever their order, and later tokens
   with the same letter are never looked at.
   */
  lemma SearchJoinedTokens(ts: seq<Token>, x: char)
    requires LetterTokens(ts) && IsUnitLetter(x)
    ensures Search(JoinTokens(ts), x) == FirstCount(ts, x)
  {
    if ts != [] {
      SearchJoinedTokensStep(ts, x);
    }
  }

  /**
   The value of joined tokens: for every unit, the first token with its letter
   counts and the others are ignored.
   */
  lemma ValueOfJoinedTokens(ts: seq<Token>)
    requires LetterTokens(ts)
    ensures ValueFromText(JoinTokens(ts)) ==
      CountOr0(ts, 'd') * Day + CountOr0(ts, 'h') * Hour + CountOr0(ts, 'm') * Minute + CountOr0(ts, 's')
  {
    var t := JoinTokens(ts);
    CapturedOfJoinedTokens(ts, 's');
    CapturedOfJoinedTokens(ts, 'm');
    CapturedOfJoinedTokens(ts, 'h');
    CapturedOfJoinedTokens(ts, 'd');
  }

  lemma CapturedOfJoinedTokens(ts: seq<Token>, x: char)
    requires LetterTokens(ts) && IsUnitLetter(x)
    ensures Captured(JoinTokens(ts), x) == CountOr0(ts, x)
  {
    SearchJoinedTokens(ts, x);
  }

  lemma {:induction false} FirstCountSwap(pre: seq<Token>, a: Token, b: Token, post: seq<Token>, x: char)
    requires a.letter != b.letter
    ensures FirstCount(pre + [a, b] + post, x) == FirstCount(pre + [b, a] + post, x)
    decreases |pre|
  {
    if pre == [] {
      assert ([a, b] + post)[1..] == [b] + post && ([b] + post)[1..] == post;
      assert ([b, a] + post)[1..] == [a] + post && ([a] + post)[1..] == post;
      assert pre + [a, b] + post == [a, b] + post && pre + [b, a] + post == [b, a] + post;
    } else {
      assert (pre + [a, b] + post)[1..] == pre[1..] + [a, b] + post;
      assert (pre + [b, a] + post)[1..] == pre[1..] + [b, a] + post;
      FirstCountSwap(pre[1..], a, b, post, x);
    }
  }

  /** Swapping two neighbouring tokens of different units leaves the value unchanged. */
  lemma SwappingTokensKeepsValue(pre: seq<Token>, a: Token, b: Token, post: seq<Token>)
    requires LetterTokens(pre + [a, b] + post) && a.letter != b.letter
    ensures ValueFromText(JoinTokens(pre + [a, b] + post)) == ValueFromText(JoinTokens(pre + [b, a] + post))
  {
    var ts := pre + [a, b] + post;
    var us := pre + [b, a] + post;
    assert LetterTokens(us) by {
      forall i | 0 <= i < |us| ensures IsUnitLetter(us[i].letter) {
        if i < |pre| {
          assert us[i] == ts[i];
        } else if i == |pre| {
          assert us[i] == ts[i + 1];
        } else if i == |pre| + 1 {
          assert us[i] == ts[i - 1];
        } else {
          assert us[i] == ts[i];
        }
      }
    }
    ValueOfJoinedTokens(ts);
    ValueOfJoinedTokens(us);
    FirstCountSwap(pre, a, b, post, 'd');
    FirstCountSwap(pre, a, b, post, 'h');
    FirstCountSwap(pre, a, b, post, 'm');
    FirstCountSwap(pre, a, b, post, 's');
  }

  lemma {:induction false} FirstCountAppend(ts: seq<Token>, t: Token, x: char)
    requires FirstCount(ts, x).Some? || x != t.letter
    ensures FirstCount(ts + [t], x) == FirstCount(ts, x)
    decreases |ts|
  {
    if ts == [] {
      assert ([t])[1..] == [];
    } else {
      assert (ts + [t])[1..] == ts[1..] + [t];
      if ts[0].letter != x {
        FirstCountAppend(ts[1..], t, x);
      }
    }
  }

  /** A token for a unit already present is ignored: only the first one counts. */
  lemma RepeatedUnitIsIgnored(ts: seq<Token>, t: Token, i: nat)
    requires LetterTokens(ts) && IsUnitLetter(t.letter)
    requires i < |ts| && ts[i].letter == t.letter
    ensures ValueFromText(JoinTokens(ts + [t])) == ValueFromText(JoinTokens(ts))
  {
    assert LetterTokens(ts + [t]);
    ValueOfJoinedTokens(ts);
    ValueOfJoinedTokens(ts + [t]);
    FirstCountPresent(ts, t.letter, i);
    FirstCountAppend(ts, t, 'd');
    FirstCountAppend(ts, t, 'h');
    FirstCountAppend(ts, t, 'm');
    FirstCountAppend(ts, t, 's');
  }

  lemma FirstCountPresent(ts: seq<Token>, x: char, i: nat)
    requires i < |ts| && ts[i].letter == x
    ensures FirstCount(ts, x).Some?
  {
    if i > 0 && ts[0].letter != x {
      FirstCountPresent(ts[1..], x, i - 1);
    }
  }

  /** Text without any `<digits><letter>` token reads as zero. */
  lemma ValueWithoutTokens(text: string)
    requires forall i :: 0 <= i <= |text| ==> forall u :: u in Suffixes ==> MatchAt(text[i..], u.letter).None?
    ensures ValueFromText(text) == 0
  {
    SearchIsLeftmost(text, 's');
    SearchIsLeftmost(text, 'm');
    SearchIsLeftmost(text, 'h');
    SearchIsLeftmost(text, 'd');
  }

  lemma FirstCountOfDistinct(ts: seq<Token>, x: char, i: nat)
    requires i < |ts| && ts[i].letter == x
    requires forall j :: 0 <= j < i ==> ts[j].letter != x
    ensures FirstCount(ts, x) == Some(ts[i].count)
  {
    if i > 0 {
      FirstCountOfDistinct(ts[1..], x, i - 1);
    }
  }

  lemma FirstCountAbsent(ts: seq<Token>, x: char)
    requires forall j :: 0 <= j < |ts| ==> ts[j].letter != x
    ensures FirstCount(ts, x) == None
  {
  }

  /** In the rendering each unit's count, present or omitted, is its breakdown count. */
  lemma CanonicalCounts(value: nat, i: nat)
    requires i < 4
    ensures CountOr0(Canonical(value), SortedSuffixes[i].letter) == Breakdown(value)[i].count
  {
    var k := Lead(value);
    var c := Canonical(value);
    var x := SortedSuffixes[i].letter;
    if i >= k {
      FirstCountOfDistinct(c, x, i - k);
    } else {
      FirstCountAbsent(c, x);
      if i == 1 {
        assert value < Hour;
      } else if i == 2 {
        assert value < Minute;
      }
    }
  }

  /** The breakdown adds back up to the value. */
  lemma BreakdownSum(value: nat)
    ensures value == (value / 86400) * 86400 + (value / 3600 % 24) * 3600 + (value / 60 % 60) * 60 + value % 60
  {
    var r := value % 86400;
    assert value == (value / 86400) * 86400 + r;
    CarryDays(value);
    assert r == (r / 3600) * 3600 + r % 3600;
    var q := value % 3600;
    CarryHoursMinutes(value);
    CarryHoursSeconds(value);
    assert q == (q / 60) * 60 + q % 60;
  }

  /** Reading back what the spin box shows gives the value it shows. */
  lemma RoundTrip(value: nat)
    ensures ValueFromText(TextFromValue(value)) == value
  {
    var c := Canonical(value);
    assert LetterTokens(c);
    ValueOfJoinedTokens(c);
    CanonicalCounts(value, 0);
    CanonicalCounts(value, 1);
    CanonicalCounts(value, 2);
    CanonicalCounts(value, 3);
    BreakdownSum(value);
  }

  lemma JoinTwo(a: Token, b: Token)
    ensures JoinTokens([a, b]) == TokenText(a) + " " + TokenText(b)
  {
    assert [a, b][1..] == [b];
    assert SpacedTokens([b]) == " " + TokenText(b) + SpacedTokens([]);
  }

  lemma JoinMore(a: Token, rest: seq<Token>)
    requires rest != []
    ensures JoinTokens([a] + rest) == TokenText(a) + " " + JoinTokens(rest)
  {
    assert ([a] + rest)[1..] == rest;
  }

  lemma JoinThree(a: Token, b: Token, c: Token)
    ensures JoinTokens([a, b, c]) == TokenText(a) + " " + TokenText(b) + " " + TokenText(c)
  {
    JoinMore(a, [b, c]);
    assert [a] + [b, c] == [a, b, c];
    JoinTwo(b, c);
  }

  lemma JoinFour(a: Token, b: Token, c: Token, d: Token)
    ensures JoinTokens([a, b, c, d]) == TokenText(a) + " " + TokenText(b) + " " + TokenText(c) + " " + TokenText(d)
  {
    JoinMore(a, [b, c, d]);
    assert [a] + [b, c, d] == [a, b, c, d];
    JoinThree(b, c, d);
  }

  /** A day is written with explicit zero hours, minutes and seconds. */
  lemma TextFromValueOneDay()
    ensures TextFromValue(86400) == "1d 0h 0m 0s"
  {
    assert Lead(86400) == 0;
    assert Canonical(86400) == [Token(1, 'd'), Token(0, 'h'), Token(0, 'm'), Token(0, 's')];
    JoinFour(Token(1, 'd'), Token(0, 'h'), Token(0, 'm'), Token(0, 's'));
    assert NatToString(1) == "1" && NatToString(0) == "0";
  }

  /** Under a minute only the seconds token is written. */
  lemma TextFromValueUnderMinute()
    ensures TextFromValue(59) == "59s"
  {
    assert Canonical(59) == [Token(59, 's')];
    assert NatToString(59) == NatToString(5) + [DigitChar(9)];
  }

  /** An hour, a minute and a second: no day token, no leading zero. */
  lemma TextFromValueHourMinuteSecond()
    ensures TextFromValue(3661) == "1h 1m 1s"
  {
    assert Lead(3661) == 1;
    assert Canonical(3661) == [Token(1, 'h'), Token(1, 'm'), Token(1, 's')];
    JoinThree(Token(1, 'h'), Token(1, 'm'), Token(1, 's'));
    assert NatToString(1) == "1";
  }

  /** Token order does not matter: `2h 1d` is a day and two hours. */
  lemma ValueFromTextAnyOrder()
    ensures ValueFromText("2h 1d") == 93600
  {
    var ts := [Token(2, 'h'), Token(1, 'd')];
    var t := JoinTokens(ts);
    JoinTwo(ts[0], ts[1]);
    assert TokenText(ts[0]) == "2h" && TokenText(ts[1]) == "1d";
    assert t == "2h 1d";
    FirstCountOfDistinct(ts, 'd', 1);
    FirstCountOfDistinct(ts, 'h', 0);
    FirstCountAbsent(ts, 'm');
    FirstCountAbsent(ts, 's');
    assert CountOr0(ts, 'd') == 1 && CountOr0(ts, 'h') == 2;
    assert CountOr0(ts, 'm') == 0 && CountOr0(ts, 's') == 0;
    ValueOfJoinedTokens(ts);
    assert ValueFromText(t) == 1 * Day + 2 * Hour;
  }

  /** A repeated unit counts once: `1h 2h` is one hour. */
  lemma ValueFromTextFirstWins()
    ensures ValueFromText("1h 2h") == 3600
  {
    var ts := [Token(1, 'h'), Token(2, 'h')];
    var t := JoinTokens(ts);
    JoinTwo(ts[0], ts[1]);
    assert TokenText(ts[0]) == "1h" && TokenText(ts[1]) == "2h";
    assert t == "1h 2h";
    FirstCountOfDistinct(ts, 'h', 0);
    FirstCountAbsent(ts, 'd');
    FirstCountAbsent(ts, 'm');
    FirstCountAbsent(ts, 's');
    assert CountOr0(ts, 'h') == 1 && CountOr0(ts, 'd') == 0;
    assert CountOr0(ts, 'm') == 0 && CountOr0(ts, 's') == 0;
    ValueOfJoinedTokens(ts);
    assert ValueFromText(t) == 1 * Hour;
  }

  /** Suffixes are case-sensitive: `1H` reads as zero. */
  lemma ValueFromTextCaseSensitive()
    ensures ValueFromText("1H") == 0
  {
    var ts := [Token(1, 'H')];
    assert JoinTokens(ts) == "1H" by {
      assert NatToString(1) == "1";
    }
    ValueOfJoinedTokens(ts);
    FirstCountAbsent(ts, 'd');
    FirstCountAbsent(ts, 'h');
    FirstCountAbsent(ts, 'm');
    FirstCountAbsent(ts, 's');
  }
}
