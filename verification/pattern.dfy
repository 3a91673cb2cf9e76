/**
 The one regular expression the duration codec searches with,
 `(\d+)\s*X` for a unit letter `X`, and `re.search`'s leftmost-match rule.

 `\d` is taken to be the ASCII digits and `\s` the six ASCII whitespace
 characters; the pattern has no anchors and no look-behind, so whether a match
 starts at position `i` of a text depends only on the text from `i` on.
 */
module Pattern {
  import opened Decimal

  datatype Option<T> = None | Some(value: T)

  /** The characters `\s` matches here: space, tab, newline, carriage return, vertical tab, form feed. */
  predicate IsSpace(c: char) {
    c == ' ' || c == '\t' || c == '\n' || c == '\r' || c == 11 as char || c == 12 as char
  }

  /** A letter the pattern can end with unambiguously: neither a digit nor whitespace. */
  predicate IsUnitLetter(c: char) {
    !IsDigit(c) && !IsSpace(c)
  }

  /** Length of the maximal run of digits at the start of `t`. */
  function DigitRun(t: string): (n: nat)
    ensures n <= |t|
    ensures forall i :: 0 <= i < n ==> IsDigit(t[i])
    ensures n < |t| ==> !IsDigit(t[n])
  {
    if t != [] && IsDigit(t[0]) then 1 + DigitRun(t[1..]) else 0
  }

  /** Length of the maximal run of whitespace at the start of `t`. */
  function SpaceRun(t: string): (n: nat)
    ensures n <= |t|
    ensures forall i :: 0 <= i < n ==> IsSpace(t[i])
    ensures n < |t| ==> !IsSpace(t[n])
  {
    if t != [] && IsSpace(t[0]) then 1 + SpaceRun(t[1..]) else 0
  }

  /**
   The ways `(\d+)\s*X` can match at the start of `t`: the group is `t[..j]`,
   the whitespace is `t[j..k]` and the letter is `t[k]`.
   */
  ghost predicate Split(t: string, x: char, j: int, k: int) {
    && 0 < j <= k < |t|
    && (forall i :: 0 <= i < j ==> IsDigit(t[i]))
    && (forall i :: j <= i < k ==> IsSpace(t[i]))
    && t[k] == x
  }

  /**
   The match of `(\d+)\s*X` anchored at the start of `t`, as the number its
   group captures: the greedy digit run, then the greedy whitespace run, then `X`.
   Greedy matching without backtracking is `re`'s answer only when `X` is a unit
   letter (see `MatchAtIsTheOnlySplit`); the codec only searches for the letters
   `s`, `m`, `h` and `d`.
   */
  function MatchAt(t: string, x: char): Option<nat> {
    var d := DigitRun(t);
    var w := SpaceRun(t[d..]);
    if d > 0 && d + w < |t| && t[d + w] == x then Some(DigitsValue(t[..d])) else None
  }

  /**
   Greedy matching loses nothing for a unit letter: a match at the start of
   `t` exists exactly when some split exists, and every split captures the
   whole digit run, so backtracking has no other match to find.
   */
  lemma MatchAtIsTheOnlySplit(t: string, x: char)
    requires IsUnitLetter(x)
    ensures MatchAt(t, x).Some? <==> exists j, k :: Split(t, x, j, k)
    ensures forall j, k :: Split(t, x, j, k) ==>
      j == DigitRun(t) && MatchAt(t, x) == Some(DigitsValue(t[..j]))
  {
    var d := DigitRun(t);
    var w := SpaceRun(t[d..]);
    if MatchAt(t, x).Some? {
      assert Split(t, x, d, d + w);
    }
    forall j, k | Split(t, x, j, k)
      ensures j == d && MatchAt(t, x) == Some(DigitsValue(t[..j]))
    {
      // t[j] is whitespace or the letter, so the digit run ends exactly at j
      assert j < |t| && !IsDigit(t[j]);
      assert j == d;
      // and t[j..k] is whitespace followed by a non-space, so it is the whole space run
      var s := t[d..];
      assert k - d < |s| && !IsSpace(s[k - d]);
      assert forall i :: 0 <= i < k - d ==> IsSpace(s[i]);
      assert SpaceRun(s) == k - d;
    }
  }

  /**
   `re.search`: try the match at the start, else move one character right.
   Like `MatchAt`, it stands for `re.search` only for a unit letter `x`: for a
   digit such as `5` in `"15"`, `re` would backtrack to capture `"1"`, which
   greedy matching does not.
   */
  function Search(t: string, x: char): Option<nat>
    decreases |t|
  {
    if MatchAt(t, x).Some? then MatchAt(t, x)
    else if t == [] then None
    else Search(t[1..], x)
  }

  lemma DropFirst(t: string, i: nat)
    requires 1 <= i <= |t|
    ensures t[i..] == t[1..][i - 1..]
  {
  }

  /** `Search` fails exactly when the pattern matches at no position. */
  lemma {:induction false} SearchFailsOnlyWithoutMatch(t: string, x: char)
    ensures Search(t, x).None? <==> forall i :: 0 <= i <= |t| ==> MatchAt(t[i..], x).None?
    decreases |t|
  {
    assert t[0..] == t;
    if MatchAt(t, x).None? && t != [] {
      SearchFailsOnlyWithoutMatch(t[1..], x);
      if Search(t, x).None? {
        forall i | 1 <= i <= |t|
          ensures MatchAt(t[i..], x).None?
        {
          DropFirst(t, i);
        }
      } else {
        var i :| 0 <= i <= |t[1..]| && MatchAt(t[1..][i..], x).Some?;
        DropFirst(t, i + 1);
      }
    }
  }

  /** A successful `Search` returns the match at a position before which nothing matches. */
  lemma {:induction false} SearchFindsLeftmost(t: string, x: char)
    requires Search(t, x).Some?
    ensures exists i ::
      0 <= i < |t| && MatchAt(t[i..], x) == Search(t, x) &&
      (forall j :: 0 <= j < i ==> MatchAt(t[j..], x).None?)
    decreases |t|
  {
    assert t[0..] == t;
    if MatchAt(t, x).None? {
      assert t != [];
      SearchFindsLeftmost(t[1..], x);
      var i :| 0 <= i < |t[1..]| && MatchAt(t[1..][i..], x) == Search(t[1..], x) &&
        (forall j :: 0 <= j < i ==> MatchAt(t[1..][j..], x).None?);
      DropFirst(t, i + 1);
      forall j | 0 <= j < i + 1
        ensures MatchAt(t[j..], x).None?
      {
        if j > 0 {
          DropFirst(t, j);
        }
      }
      assert MatchAt(t[i + 1..], x) == Search(t, x);
    } else {
      assert MatchAt(t[0..], x) == Search(t, x);
    }
  }

  /**
   `Search` is the leftmost match: it fails exactly when no position matches,
   and otherwise it returns the match at a position before which none matches.
   */
  lemma SearchIsLeftmost(t: string, x: char)
    ensures Search(t, x).None? <==> forall i :: 0 <= i <= |t| ==> MatchAt(t[i..], x).None?
    ensures Search(t, x).Some? ==> exists i ::
      0 <= i < |t| && MatchAt(t[i..], x) == Search(t, x) &&
      (forall j :: 0 <= j < i ==> MatchAt(t[j..], x).None?)
  {
    SearchFailsOnlyWithoutMatch(t, x);
    if Search(t, x).Some? {
      SearchFindsLeftmost(t, x);
    }
  }

  /**
   The leftmost match captures a whole maximal run of digits: it starts at the
   beginning of the text or right after a non-digit.
   */
  lemma LeftmostMatchCapturesWholeRun(t: string, x: char, i: nat)
    requires i < |t| && MatchAt(t[i..], x).Some?
    requires forall j :: 0 <= j < i ==> MatchAt(t[j..], x).None?
    ensures i == 0 || !IsDigit(t[i - 1])
  {
    if i > 0 && IsDigit(t[i - 1]) {
      MatchExtendsLeft(t, x, i);
    }
  }

  /** A match right after a digit is also a match one position earlier, capturing one more digit. */
  lemma MatchExtendsLeft(t: string, x: char, i: nat)
    requires 0 < i < |t| && IsDigit(t[i - 1]) && MatchAt(t[i..], x).Some?
    ensures MatchAt(t[i - 1..], x).Some?
  {
    var u := t[i - 1..];
    var v := t[i..];
    assert u[1..] == v;
    var d := DigitRun(v);
    var w := SpaceRun(v[d..]);
    assert DigitRun(u) == d + 1;
    assert u[d + 1..] == v[d..];
    assert u[d + 1 + w] == v[d + w];
  }

  /** A run of digits, a letter other than `x` and then `rest`: the search for `x` skips to `rest`. */
  lemma {:induction false} SearchSkipsToken(ds: string, c: char, rest: string, x: char)
    requires AllDigits(ds) && IsUnitLetter(c) && c != x
    ensures Search(ds + [c] + rest, x) == Search(rest, x)
    decreases |ds|
  {
    var t := ds + [c] + rest;
    assert DigitRun(t) == |ds| by {
      DigitRunOfDigitsThenStop(ds, [c] + rest);
      assert t == ds + ([c] + rest);
    }
    assert SpaceRun(t[|ds|..]) == 0;
    assert MatchAt(t, x).None?;
    if ds == [] {
      assert t[1..] == rest;
    } else {
      assert t[1..] == ds[1..] + [c] + rest;
      SearchSkipsToken(ds[1..], c, rest, x);
    }
  }

  /** A non-empty run of digits followed directly by `x`: the search for `x` captures that run. */
  lemma SearchFindsToken(ds: string, x: char, rest: string)
    requires |ds| >= 1 && AllDigits(ds) && IsUnitLetter(x)
    ensures Search(ds + [x] + rest, x) == Some(DigitsValue(ds))
  {
    var t := ds + [x] + rest;
    DigitRunOfDigitsThenStop(ds, [x] + rest);
    assert t == ds + ([x] + rest);
    assert SpaceRun(t[|ds|..]) == 0;
    assert t[..|ds|] == ds;
  }

  /** A leading space never starts a match. */
  lemma SearchSkipsSpace(rest: string, x: char)
    ensures Search([' '] + rest, x) == Search(rest, x)
  {
    assert ([' '] + rest)[1..] == rest;
  }

  lemma {:induction false} DigitRunOfDigitsThenStop(ds: string, rest: string)
    requires AllDigits(ds)
    requires rest != [] && !IsDigit(rest[0])
    ensures DigitRun(ds + rest) == |ds|
    decreases |ds|
  {
    if ds != [] {
      assert (ds + rest)[1..] == ds[1..] + rest;
      DigitRunOfDigitsThenStop(ds[1..], rest);
    }
  }
}
