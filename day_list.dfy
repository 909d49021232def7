/**
 * The day-list parser of the schedule form: the text a user types in the
 * "days" field of a pending row becomes the list of day numbers of a
 * schedule. The pipeline is the one the component runs:
 *
 *   text.split(/[ ,.]+/).map(trim).filter(non-empty).map(Number).filter(positive)
 *
 * `Number` is modelled on tokens made of an optional sign and decimal digits.
 */
module DayList {
  import opened Optional

  /** The character class `[ ,.]` the text is split on. */
  predicate IsSeparator(c: char) {
    c == ' ' || c == ',' || c == '.'
  }

  /** ECMAScript white space and line terminators: what `String.prototype.trim` strips. */
  predicate IsWhitespace(c: char) {
    c == '\t' || c == '\n' || c == '\U{B}' || c == '\U{C}' || c == '\r' || c == ' '
    || c == '\U{A0}' || c == '\U{1680}' || ('\U{2000}' <= c <= '\U{200A}')
    || c == '\U{2028}' || c == '\U{2029}' || c == '\U{202F}' || c == '\U{205F}'
    || c == '\U{3000}' || c == '\U{FEFF}'
  }

  predicate NoSeparator(s: string) {
    forall i :: 0 <= i < |s| ==> !IsSeparator(s[i])
  }

  predicate EndsWithSeparator(s: string) {
    s != [] && IsSeparator(s[|s| - 1])
  }

  // ---------------------------------------------------------------------
  // split(/[ ,.]+/)
  // ---------------------------------------------------------------------

  /** `s` without its leading run of separators. */
  function DropSeparators(s: string): (r: string)
    ensures |r| <= |s|
  {
    if s != [] && IsSeparator(s[0]) then DropSeparators(s[1..]) else s
  }

  /** What is dropped is a run of separators; what is left starts with something else. */
  lemma {:induction false} DropSeparatorsSuffix(s: string)
    ensures DropSeparators(s) == s[|s| - |DropSeparators(s)|..]
    ensures DropSeparators(s) == [] || !IsSeparator(DropSeparators(s)[0])
    ensures forall i :: 0 <= i < |s| - |DropSeparators(s)| ==> IsSeparator(s[i])
    decreases |s|
  {
    if s != [] && IsSeparator(s[0]) {
      DropSeparatorsSuffix(s[1..]);
    }
  }

  /** The characters of `s` that are not separators, in order. */
  function WithoutSeparators(s: string): string {
    if s == [] then []
    else if IsSeparator(s[0]) then WithoutSeparators(s[1..])
    else [s[0]] + WithoutSeparators(s[1..])
  }

  function Concat(pieces: seq<string>): string {
    if pieces == [] then [] else pieces[0] + Concat(pieces[1..])
  }

  /**
   * `s.split(/[ ,.]+/)`: the pieces between maximal runs of separators,
   * with an empty first (last) piece when `s` starts (ends) with a separator.
   */
  function Split(s: string): (pieces: seq<string>)
    ensures |pieces| >= 1
    decreases |s|
  {
    if s == [] then [[]]
    else if IsSeparator(s[0]) then [[]] + Split(DropSeparators(s[1..]))
    else var rest := Split(s[1..]); [[s[0]] + rest[0]] + rest[1..]
  }

  /** A text that ends with a separator splits into at least two pieces, the last one empty. */
  lemma {:induction false} SplitTrailingSeparator(s: string)
    requires EndsWithSeparator(s)
    ensures |Split(s)| >= 2 && Split(s)[|Split(s)| - 1] == []
    decreases |s|
  {
    var p := Split(s);
    if IsSeparator(s[0]) {
      var t := DropSeparators(s[1..]);
      assert p == [[]] + Split(t);
      if t == [] {
        assert p == [[], []];
      } else {
        TrailingSeparatorKept(s[1..]);
        SplitTrailingSeparator(t);
        assert p[|p| - 1] == Split(t)[|Split(t)| - 1];
      }
    } else {
      var rest := Split(s[1..]);
      assert s[1..][|s| - 2] == s[|s| - 1];
      SplitTrailingSeparator(s[1..]);
      assert p == [[s[0]] + rest[0]] + rest[1..];
      assert p[|p| - 1] == rest[|rest| - 1];
    }
  }

  /** Dropping a leading run keeps a trailing separator, unless nothing is left. */
  lemma TrailingSeparatorKept(s: string)
    requires EndsWithSeparator(s)
    ensures DropSeparators(s) == [] || EndsWithSeparator(DropSeparators(s))
  {
    DropSeparatorsSuffix(s);
  }

  /** No piece of the split holds a separator. */
  lemma {:induction false} SplitNoSeparator(s: string)
    ensures forall i :: 0 <= i < |Split(s)| ==> NoSeparator(Split(s)[i])
    decreases |s|
  {
    if s == [] {
    } else if IsSeparator(s[0]) {
      var t := DropSeparators(s[1..]);
      DropSeparatorsSuffix(s[1..]);
      SplitNoSeparator(t);
      assert Split(s) == [[]] + Split(t);
    } else {
      var rest := Split(s[1..]);
      SplitNoSeparator(s[1..]);
      var p := Split(s);
      forall i | 0 <= i < |p| ensures NoSeparator(p[i]) {
        if i == 0 {
          assert NoSeparator(rest[0]);
          assert p[0] == [s[0]] + rest[0];
        } else {
          assert p[i] == rest[i];
        }
      }
    }
  }

  /** The pieces, put back together, hold every non-separator character of `s`, in order. */
  lemma {:induction false} SplitConcat(s: string)
    ensures Concat(Split(s)) == WithoutSeparators(s)
    decreases |s|
  {
    if s == [] {
    } else if IsSeparator(s[0]) {
      var t := DropSeparators(s[1..]);
      SplitConcat(t);
      DropKeepsNonSeparators(s[1..]);
      assert Split(s) == [[]] + Split(t);
      assert Concat([[]] + Split(t)) == Concat(Split(t));
    } else {
      SplitConcat(s[1..]);
      ConcatJoin(s[0], Split(s[1..]));
    }
  }

  /** Gluing a character to the first piece puts it in front of the concatenation. */
  lemma ConcatJoin(c: char, rest: seq<string>)
    requires |rest| >= 1
    ensures Concat([[c] + rest[0]] + rest[1..]) == [c] + Concat(rest)
  {
    var p := [[c] + rest[0]] + rest[1..];
    assert p[1..] == rest[1..];
  }


  /**
   * A piece strictly inside the list is never empty, because a run of
   * separators makes a single cut; neither is the first piece when `s`
   * starts with a non-separator.
   */
  lemma {:induction false} SplitInnerPieces(s: string)
    ensures forall i :: 0 < i < |Split(s)| - 1 ==> Split(s)[i] != []
    ensures s != [] && !IsSeparator(s[0]) ==> Split(s)[0] != []
    decreases |s|
  {
    if s == [] {
    } else if IsSeparator(s[0]) {
      var t := DropSeparators(s[1..]);
      DropSeparatorsSuffix(s[1..]);
      SplitInnerPieces(t);
      var p := Split(t);
      assert Split(s) == [[]] + p;
      forall i | 0 < i < |Split(s)| - 1 ensures Split(s)[i] != [] {
        assert Split(s)[i] == p[i - 1];
      }
    } else {
      var rest := Split(s[1..]);
      SplitInnerPieces(s[1..]);
      var p := Split(s);
      assert p == [[s[0]] + rest[0]] + rest[1..];
      forall i | 0 < i < |p| - 1 ensures p[i] != [] {
        assert p[i] == rest[i];
      }
    }
  }

  lemma {:induction false} DropKeepsNonSeparators(s: string)
    ensures WithoutSeparators(DropSeparators(s)) == WithoutSeparators(s)
    decreases |s|
  {
    if s != [] && IsSeparator(s[0]) {
      DropKeepsNonSeparators(s[1..]);
    }
  }

  // ---------------------------------------------------------------------
  // .map(trim)
  // ---------------------------------------------------------------------

  /** `s` without its leading white space. */
  function TrimStart(s: string): (r: string)
  {
    if s != [] && IsWhitespace(s[0]) then TrimStart(s[1..]) else s
  }

  /** `s` without its trailing white space. */
  function TrimEnd(s: string): (r: string)
  {
    if s != [] && IsWhitespace(s[|s| - 1]) then TrimEnd(s[..|s| - 1]) else s
  }

  /** What `TrimStart` removes is a run of white space; what is left starts with something else. */
  lemma {:induction false} TrimStartSpec(s: string)
    ensures |TrimStart(s)| <= |s| && TrimStart(s) == s[|s| - |TrimStart(s)|..]
    ensures TrimStart(s) == [] || !IsWhitespace(TrimStart(s)[0])
    ensures forall i :: 0 <= i < |s| - |TrimStart(s)| ==> IsWhitespace(s[i])
    decreases |s|
  {
    if s != [] && IsWhitespace(s[0]) {
      TrimStartSpec(s[1..]);
      var r := TrimStart(s[1..]);
      assert s[1..][|s| - 1 - |r|..] == s[|s| - |r|..];
      assert forall i :: 1 <= i < |s| - |r| ==> s[i] == s[1..][i - 1];
    }
  }

  /** What `TrimEnd` removes is a run of white space; what is left ends with something else. */
  lemma {:induction false} TrimEndSpec(s: string)
    ensures |TrimEnd(s)| <= |s| && TrimEnd(s) == s[..|TrimEnd(s)|]
    ensures TrimEnd(s) == [] || !IsWhitespace(TrimEnd(s)[|TrimEnd(s)| - 1])
    ensures forall i :: |TrimEnd(s)| <= i < |s| ==> IsWhitespace(s[i])
    decreases |s|
  {
    if s != [] && IsWhitespace(s[|s| - 1]) {
      TrimEndSpec(s[..|s| - 1]);
      var r := TrimEnd(s[..|s| - 1]);
      assert s[..|s| - 1][..|r|] == s[..|r|];
    }
  }

  /** `String.prototype.trim`. */
  function Trim(s: string): string {
    TrimEnd(TrimStart(s))
  }

  /**
   * `trim` cuts white space only: the result is a slice of `s` with only
   * white space around it, and it neither starts nor ends with white space.
   */
  lemma TrimSpec(s: string)
    ensures exists i, j :: 0 <= i <= j <= |s| && Trim(s) == s[i..j]
              && (forall m :: 0 <= m < i ==> IsWhitespace(s[m]))
              && (forall m :: j <= m < |s| ==> IsWhitespace(s[m]))
    ensures Trim(s) == [] || (!IsWhitespace(Trim(s)[0]) && !IsWhitespace(Trim(s)[|Trim(s)| - 1]))
  {
    var a := TrimStart(s);
    var b := TrimEnd(a);
    TrimStartSpec(s);
    TrimEndSpec(a);
    var i := |s| - |a|;
    var j := i + |b|;
    assert b == s[i..j];
    forall m | j <= m < |s| ensures IsWhitespace(s[m]) {
      assert s[m] == a[m - i];
    }
    if b != [] {
      assert b[0] == a[0];
    }
  }

  /** A text is its own trim exactly when it is empty or has no white space at either end. */
  lemma TrimFixedPoint(s: string)
    ensures Trim(s) == s <==> s == [] || (!IsWhitespace(s[0]) && !IsWhitespace(s[|s| - 1]))
  {
    TrimSpec(s);
  }

  function TrimAll(pieces: seq<string>): (r: seq<string>)
    ensures |r| == |pieces|
  {
    seq(|pieces|, i requires 0 <= i < |pieces| => Trim(pieces[i]))
  }

  // ---------------------------------------------------------------------
  // .filter((num) => num.length > 0)
  // ---------------------------------------------------------------------

  function DropEmpty(pieces: seq<string>): (r: seq<string>)
    ensures |r| <= |pieces|
    ensures forall i :: 0 <= i < |r| ==> r[i] != []
  {
    if pieces == [] then []
    else if pieces[0] == [] then DropEmpty(pieces[1..])
    else [pieces[0]] + DropEmpty(pieces[1..])
  }

  /** The non-empty trimmed tokens of `text`, in order. */
  function Tokens(text: string): seq<string> {
    DropEmpty(TrimAll(Split(text)))
  }

  /** A word as it reaches `Number`: not empty, no separator, no white space at either end. */
  predicate IsCleanWord(w: string) {
    w != [] && NoSeparator(w) && !IsWhitespace(w[0]) && !IsWhitespace(w[|w| - 1])
  }

  /** Every token is a clean word. */
  lemma TokensClean(text: string)
    ensures forall i :: 0 <= i < |Tokens(text)| ==> IsCleanWord(Tokens(text)[i])
  {
    var pieces := Split(text);
    SplitNoSeparator(text);
    var trimmed := TrimAll(pieces);
    forall k | 0 <= k < |trimmed| && trimmed[k] != []
      ensures IsCleanWord(trimmed[k])
    {
      TrimSpec(pieces[k]);
      var i, j :| 0 <= i <= j <= |pieces[k]| && trimmed[k] == pieces[k][i..j];
      assert NoSeparator(pieces[k]);
    }
    DropEmptyKeeps(trimmed);
  }

  /** What the filter keeps comes from its input. */
  lemma {:induction false} DropEmptyKeeps(pieces: seq<string>)
    ensures forall i :: 0 <= i < |DropEmpty(pieces)| ==> DropEmpty(pieces)[i] in pieces
  {
    if pieces != [] {
      DropEmptyKeeps(pieces[1..]);
      forall i | 0 <= i < |DropEmpty(pieces)| ensures DropEmpty(pieces)[i] in pieces {
        if pieces[0] == [] || i > 0 {
          var r := DropEmpty(pieces[1..]);
          var m := if pieces[0] == [] then i else i - 1;
          assert DropEmpty(pieces)[i] == r[m];
          assert r[m] in pieces[1..];
        }
      }
    }
  }
  /** A token survives the empty-token filter exactly when it is a non-empty piece. */
  lemma {:induction false} DropEmptyMembers(pieces: seq<string>, t: string)
    ensures t in DropEmpty(pieces) <==> t in pieces && t != []
  {
    if pieces != [] {
      DropEmptyMembers(pieces[1..], t);
      assert pieces == [pieces[0]] + pieces[1..];
    }
  }


  // ---------------------------------------------------------------------
  // .map(Number)
  // ---------------------------------------------------------------------

  predicate IsDigit(c: char) {
    '0' as int <= c as int <= '9' as int
  }

  predicate IsDigits(s: string) {
    |s| > 0 && forall i :: 0 <= i < |s| ==> IsDigit(s[i])
  }

  /** The value of a string of decimal digits, most significant first. */
  function DigitsValue(s: string): (n: nat)
    requires forall i :: 0 <= i < |s| ==> IsDigit(s[i])
  {
    if s == [] then 0
    else
      assert IsDigit(s[|s| - 1]);
      DigitsValue(s[..|s| - 1]) * 10 + (s[|s| - 1] as int - '0' as int)
  }

  /**
   * `Number(token)` on a trimmed, non-empty token: an optional `+` or `-`
   * followed by decimal digits gives its value; anything else is `NaN` (`None`).
   */
  function ToNumber(token: string): (n: Option<int>)
    ensures n.Some? ==> |token| > 0 && (token[0] == '-' ==> n.value <= 0)
  {
    if |token| > 0 && (token[0] == '+' || token[0] == '-') then
      if IsDigits(token[1..]) then
        var v: int := DigitsValue(token[1..]);
        Some(if token[0] == '-' then -v else v)
      else None
    else if IsDigits(token) then Some(DigitsValue(token))
    else None
  }

  function ToNumbers(tokens: seq<string>): (r: seq<Option<int>>)
    ensures |r| == |tokens|
  {
    seq(|tokens|, i requires 0 <= i < |tokens| => ToNumber(tokens[i]))
  }

  // ---------------------------------------------------------------------
  // .filter((num) => !isNaN(num) && num > 0)
  // ---------------------------------------------------------------------

  function KeepPositive(numbers: seq<Option<int>>): (r: seq<int>)
    ensures |r| <= |numbers|
    ensures forall i :: 0 <= i < |r| ==> r[i] > 0
  {
    if numbers == [] then []
    else if numbers[0].Some? && numbers[0].value > 0 then [numbers[0].value] + KeepPositive(numbers[1..])
    else KeepPositive(numbers[1..])
  }

  /** The day numbers written in `text`: every one of them is positive. */
  function ParseDays(text: string): (days: seq<int>)
    ensures forall i :: 0 <= i < |days| ==> days[i] > 0
  {
    KeepPositive(ToNumbers(Tokens(text)))
  }

  /** A number is kept exactly when it is present and positive. */
  lemma {:induction false} KeepPositiveMembers(numbers: seq<Option<int>>, n: int)
    ensures n in KeepPositive(numbers) <==> n > 0 && Some(n) in numbers
  {
    if numbers != [] {
      KeepPositiveMembers(numbers[1..], n);
      assert numbers == [numbers[0]] + numbers[1..];
    }
  }

  /** `n` is a day of `text` exactly when it is positive and some token of `text` reads as `n`. */
  lemma ParseDaysMembers(text: string, n: int)
    ensures n in ParseDays(text) <==>
              n > 0 && exists i :: 0 <= i < |Tokens(text)| && ToNumber(Tokens(text)[i]) == Some(n)
  {
    var numbers := ToNumbers(Tokens(text));
    KeepPositiveMembers(numbers, n);
    if Some(n) in numbers {
      var i :| 0 <= i < |numbers| && numbers[i] == Some(n);
      assert ToNumber(Tokens(text)[i]) == Some(n);
    }
    forall i | 0 <= i < |Tokens(text)| && ToNumber(Tokens(text)[i]) == Some(n)
      ensures Some(n) in numbers
    {
      assert numbers[i] == Some(n);
    }
  }

  // ---------------------------------------------------------------------
  // Decimal numerals, the inverse of ToNumber on positive values
  // ---------------------------------------------------------------------

  function DigitChar(d: int): (c: char)
    requires 0 <= d < 10
    ensures IsDigit(c) && c as int - '0' as int == d
  {
    ('0' as int + d) as char
  }

  /** The decimal numeral of `n`, without sign or leading zeros. */
  function Numeral(n: nat): (s: string)
    ensures IsDigits(s)
    ensures s[0] != '0' || n == 0
  {
    if n < 10 then [DigitChar(n)] else Numeral(n / 10) + [DigitChar(n % 10)]
  }

  /** `Number` reads a decimal numeral back as the value it was written from. */
  lemma {:induction false} NumeralRoundTrip(n: nat)
    ensures DigitsValue(Numeral(n)) == n
    ensures ToNumber(Numeral(n)) == Some(n)
  {
    var s := Numeral(n);
    if n >= 10 {
      NumeralRoundTrip(n / 10);
      assert s[..|s| - 1] == Numeral(n / 10);
    }
  }

  /** `k` zeros. */
  function Zeros(k: nat): string {
    seq(k, _ => '0')
  }

  lemma {:induction false} ZerosValue(k: nat)
    ensures DigitsValue(Zeros(k)) == 0
  {
    if k > 0 {
      assert Zeros(k)[..k - 1] == Zeros(k - 1);
      ZerosValue(k - 1);
    }
  }

  /** Leading zeros do not change the value of a string of digits. */
  lemma {:induction false} PaddedDigitsValue(k: nat, s: string)
    requires forall i :: 0 <= i < |s| ==> IsDigit(s[i])
    ensures forall i :: 0 <= i < |Zeros(k) + s| ==> IsDigit((Zeros(k) + s)[i])
    ensures DigitsValue(Zeros(k) + s) == DigitsValue(s)
    decreases |s|
  {
    var t := Zeros(k) + s;
    assert forall i :: 0 <= i < |t| ==> IsDigit(t[i]);
    if s == [] {
      assert t == Zeros(k);
      ZerosValue(k);
    } else {
      assert t[..|t| - 1] == Zeros(k) + s[..|s| - 1];
      PaddedDigitsValue(k, s[..|s| - 1]);
    }
  }

  /** `Number` also reads a numeral with leading zeros, and with a sign. */
  lemma PaddedNumeral(k: nat, n: nat)
    ensures ToNumber(Zeros(k) + Numeral(n)) == Some(n)
    ensures ToNumber(['+'] + Zeros(k) + Numeral(n)) == Some(n)
    ensures ToNumber(['-'] + Zeros(k) + Numeral(n)) == Some(-(n as int))
  {
    var d := Zeros(k) + Numeral(n);
    PaddedDigitsValue(k, Numeral(n));
    NumeralRoundTrip(n);
    assert IsDigits(d) && IsDigit(d[0]);
    assert (['+'] + d)[1..] == d && (['-'] + d)[1..] == d;
    assert ['+'] + Zeros(k) + Numeral(n) == ['+'] + d;
    assert ['-'] + Zeros(k) + Numeral(n) == ['-'] + d;
  }

  /** Every string of digits is its value's numeral after some leading zeros. */
  lemma {:induction false} DigitsCanonical(s: string)
    requires IsDigits(s)
    ensures exists k: nat :: s == Zeros(k) + Numeral(DigitsValue(s))
    decreases |s|
  {
    var p, c := s[..|s| - 1], s[|s| - 1];
    assert s == p + [c];
    if p == [] {
      LastDigit(s);
      assert s == Zeros(0) + Numeral(DigitsValue(s));
    } else {
      DigitsCanonical(p);
      var k: nat :| p == Zeros(k) + Numeral(DigitsValue(p));
      CanonicalStep(p, c, k);
    }
  }

  /** A single digit is the numeral of its value. */
  lemma LastDigit(s: string)
    requires IsDigits(s) && |s| == 1
    ensures Numeral(DigitsValue(s)) == s
  {
    var d := s[0] as int - '0' as int;
    assert s[..0] == [];
    assert DigitsValue(s) == d;
    assert DigitChar(d) == s[0];
  }

  /** The value of digits followed by one more digit. */
  lemma DigitsValueSnoc(p: string, c: char)
    requires IsDigits(p) && IsDigit(c)
    ensures IsDigits(p + [c])
    ensures DigitsValue(p + [c]) == DigitsValue(p) * 10 + (c as int - '0' as int)
  {
    assert (p + [c])[..|p|] == p;
  }

  /** One more digit after the canonical form of the others. */
  lemma CanonicalStep(p: string, c: char, k: nat)
    requires IsDigits(p) && IsDigit(c)
    requires p == Zeros(k) + Numeral(DigitsValue(p))
    ensures IsDigits(p + [c])
    ensures exists k': nat :: p + [c] == Zeros(k') + Numeral(DigitsValue(p + [c]))
  {
    DigitsValueSnoc(p, c);
    var q := DigitsValue(p);
    if q == 0 {
      AfterZeros(p, k, c);
      assert p + [c] == Zeros(k + 1) + Numeral(DigitsValue(p + [c]));
    } else {
      AfterNumeral(q, c);
      assert p + [c] == Zeros(k) + (Numeral(q) + [c]);
    }
  }

  /** A digit after zeros only: the zeros grow by one and the digit is the numeral. */
  lemma AfterZeros(p: string, k: nat, c: char)
    requires IsDigit(c) && p == Zeros(k) + Numeral(0)
    ensures p + [c] == Zeros(k + 1) + Numeral(c as int - '0' as int)
  {
    assert Numeral(0) == ['0'];
    assert p == Zeros(k + 1);
    assert DigitChar(c as int - '0' as int) == c;
  }

  /** A digit after the numeral of a positive number is the numeral of ten times it plus the digit. */
  lemma AfterNumeral(q: nat, c: char)
    requires IsDigit(c) && q > 0
    ensures Numeral(q) + [c] == Numeral(q * 10 + (c as int - '0' as int))
  {
    var d := c as int - '0' as int;
    DivModTen(q, d);
    assert DigitChar(d) == c;
  }

  lemma DivModTen(q: nat, d: int)
    requires 0 <= d < 10
    ensures (q * 10 + d) / 10 == q && (q * 10 + d) % 10 == d
  {
  }

  /**
   * The converse of `PaddedNumeral`: a token reads as `n` only when it is
   * the numeral of `n` (of `-n` when negative), after some zeros and
   * an optional sign; a minus sign gives `n` only when `n` is negative or zero.
   */
  lemma ToNumberCanonical(t: string, n: int)
    requires ToNumber(t) == Some(n)
    ensures n >= 0 ==> exists k: nat ::
              t == Zeros(k) + Numeral(n) || t == ['+'] + Zeros(k) + Numeral(n)
              || (n == 0 && t == ['-'] + Zeros(k) + Numeral(n))
    ensures n < 0 ==> exists k: nat :: t == ['-'] + Zeros(k) + Numeral(-n)
  {
    if t[0] == '+' || t[0] == '-' {
      var u := t[1..];
      DigitsCanonical(u);
      var k: nat :| u == Zeros(k) + Numeral(DigitsValue(u));
      assert t == [t[0]] + Zeros(k) + Numeral(DigitsValue(u));
    } else {
      DigitsCanonical(t);
    }
  }

  // ---------------------------------------------------------------------
  // Order and duplicates: the parse of two texts joined by a separator
  // ---------------------------------------------------------------------

  function AllButLast<T>(s: seq<T>): seq<T>
    requires |s| >= 1
  {
    s[..|s| - 1]
  }

  lemma {:induction false} DropSeparatorsAppend(x: string, y: string)
    ensures DropSeparators(x + y) == if DropSeparators(x) == [] then DropSeparators(y) else DropSeparators(x) + y
    decreases |x|
  {
    if x != [] && IsSeparator(x[0]) {
      assert (x + y)[1..] == x[1..] + y;
      DropSeparatorsAppend(x[1..], y);
    } else if x == [] {
      assert x + y == y;
    }
  }

  /** Appending a separator to `a` adds an empty last piece, unless `a` already ends with one. */
  lemma {:induction false} SplitSeparatorSuffix(a: string, c: char)
    requires IsSeparator(c)
    ensures Split(a + [c]) == if EndsWithSeparator(a) then Split(a) else Split(a) + [[]]
    decreases |a|
  {
    if a == [] {
      assert [] + [c] == [c];
      assert Split([c]) == [[]] + Split(DropSeparators([]));
    } else if !IsSeparator(a[0]) {
      SplitSeparatorSuffix(a[1..], c);
      SuffixAfterWord(a, c);
    } else {
      var d := DropSeparators(a[1..]);
      DropSeparatorsSuffix(a[1..]);
      if d != [] {
        SplitSeparatorSuffix(d, c);
      }
      SuffixAfterSeparator(a, c);
    }
  }

  /** The step of `SplitSeparatorSuffix` when `a` starts with a word character. */
  lemma SuffixAfterWord(a: string, c: char)
    requires IsSeparator(c) && a != [] && !IsSeparator(a[0])
    requires var a' := a[1..];
      Split(a' + [c]) == if EndsWithSeparator(a') then Split(a') else Split(a') + [[]]
    ensures Split(a + [c]) == if EndsWithSeparator(a) then Split(a) else Split(a) + [[]]
  {
    var a' := a[1..];
    assert (a + [c])[1..] == a' + [c];
    assert (a + [c])[0] == a[0];
    var r, q := Split(a' + [c]), Split(a');
    assert Split(a + [c]) == [[a[0]] + r[0]] + r[1..];
    if EndsWithSeparator(a') {
      assert EndsWithSeparator(a);
    } else {
      assert a' != [] ==> !EndsWithSeparator(a);
      JoinFirstOpen(a[0], q);
    }
  }

  /** Gluing a character to the first piece commutes with adding an empty last piece. */
  lemma JoinFirstOpen(ch: char, q: seq<string>)
    requires |q| >= 1
    ensures var r := q + [[]]; [[ch] + r[0]] + r[1..] == ([[ch] + q[0]] + q[1..]) + [[]]
  {
    var r := q + [[]];
    assert r[0] == q[0] && r[1..] == q[1..] + [[]];
  }

  /** The step of `SplitSeparatorSuffix` when `a` starts with a separator. */
  lemma SuffixAfterSeparator(a: string, c: char)
    requires IsSeparator(c) && a != [] && IsSeparator(a[0])
    requires var d := DropSeparators(a[1..]);
      d != [] ==> Split(d + [c]) == if EndsWithSeparator(d) then Split(d) else Split(d) + [[]]
    ensures Split(a + [c]) == if EndsWithSeparator(a) then Split(a) else Split(a) + [[]]
  {
    var d := DropSeparators(a[1..]);
    LeadingRunSplits(a, c);
    if d == [] {
      RunToEnd(a);
    } else {
      RestKeepsEnd(a);
      PrependEmptyPiece(Split(d), Split(d + [c]), EndsWithSeparator(d));
    }
  }

  /** Putting an empty piece in front keeps the relation between the two splits. */
  lemma PrependEmptyPiece(x: seq<string>, y: seq<string>, ends: bool)
    requires y == if ends then x else x + [[]]
    ensures [[]] + y == if ends then [[]] + x else ([[]] + x) + [[]]
  {
    if !ends {
      assert [[]] + (x + [[]]) == ([[]] + x) + [[]];
    }
  }

  /** Both `a` and `a + [c]` split as an empty piece and the pieces after the leading run. */
  lemma LeadingRunSplits(a: string, c: char)
    requires IsSeparator(c) && a != [] && IsSeparator(a[0])
    ensures var d := DropSeparators(a[1..]);
      Split(a) == [[]] + Split(d)
      && Split(a + [c]) == [[]] + Split(if d == [] then [] else d + [c])
  {
    var a' := a[1..];
    assert (a + [c])[1..] == a' + [c];
    DropSeparatorsAppend(a', [c]);
    SkipOneSeparator(c, []);
  }

  /** When only separators follow a leading separator, the text ends with one. */
  lemma RunToEnd(a: string)
    requires a != [] && IsSeparator(a[0]) && DropSeparators(a[1..]) == []
    ensures EndsWithSeparator(a)
  {
    DropSeparatorsSuffix(a[1..]);
    if |a| > 1 {
      assert a[|a| - 1] == a[1..][|a| - 2];
    }
  }

  /** What is left after the leading run ends where the text ends. */
  lemma RestKeepsEnd(a: string)
    requires a != [] && DropSeparators(a[1..]) != []
    ensures EndsWithSeparator(DropSeparators(a[1..])) == EndsWithSeparator(a)
  {
    DropSeparatorsSuffix(a[1..]);
  }



  /** Splitting `a`, a separator and `b` gives the pieces of `a + [c]` but its empty last one, then those of `b`. */
  lemma {:induction false} SplitAppend(a: string, c: char, b: string)
    requires IsSeparator(c)
    ensures Split(a + [c] + b) == AllButLast(Split(a + [c])) + Split(DropSeparators(b))
    decreases |a|
  {
    if a == [] {
      assert a + [c] + b == [c] + b;
      assert Split([c] + b) == [[]] + Split(DropSeparators(b));
      assert Split([c]) == [[]] + Split(DropSeparators([]));
    } else if !IsSeparator(a[0]) {
      SplitAppend(a[1..], c, b);
      SplitAppendWord(a, c, b);
    } else {
      var a' := a[1..];
      var d := DropSeparators(a');
      SplitAppendSeparator(a, c, b);
      if d != [] {
        SplitAppend(d, c, b);
        assert EndsWithSeparator(d + [c]);
      }
    }
  }

  /** `ch` put in front of the first piece. */
  function JoinFirst(ch: char, pieces: seq<string>): seq<string>
    requires |pieces| >= 1
  {
    [[ch] + pieces[0]] + pieces[1..]
  }

  /** One step of Split on a word character: it joins the first piece. */
  lemma SplitWordStep(s: string)
    requires s != [] && !IsSeparator(s[0])
    ensures Split(s) == JoinFirst(s[0], Split(s[1..]))
  {
  }

  lemma JoinFirstAppend(ch: char, r: seq<string>, t: seq<string>)
    requires |r| >= 2
    ensures JoinFirst(ch, AllButLast(r) + t) == AllButLast(JoinFirst(ch, r)) + t
  {
    assert (AllButLast(r) + t)[0] == r[0];
    assert (AllButLast(r) + t)[1..] == r[1..|r| - 1] + t;
  }

  lemma TailOfAppend(a: string, c: char, b: string)
    requires a != []
    ensures (a + [c] + b)[0] == (a + [c])[0] == a[0]
    ensures (a + [c] + b)[1..] == a[1..] + [c] + b
    ensures (a + [c])[1..] == a[1..] + [c]
  {
  }

  /** SplitAppend when `a` starts with a word character: that character joins the first piece. */
  lemma SplitAppendWord(a: string, c: char, b: string)
    requires IsSeparator(c) && a != [] && !IsSeparator(a[0])
    requires Split(a[1..] + [c] + b) == AllButLast(Split(a[1..] + [c])) + Split(DropSeparators(b))
    ensures Split(a + [c] + b) == AllButLast(Split(a + [c])) + Split(DropSeparators(b))
  {
    var a' := a[1..];
    var r, t := Split(a' + [c]), Split(DropSeparators(b));
    assert |r| >= 2 by {
      assert EndsWithSeparator(a' + [c]);
      SplitTrailingSeparator(a' + [c]);
    }
    TailOfAppend(a, c, b);
    SplitWordStep(a + [c] + b);
    SplitWordStep(a + [c]);
    JoinFirstAppend(a[0], r, t);
  }

  /** One step of Split on a separator: an empty piece, and the rest of the run is skipped. */
  lemma SplitSeparatorStep(ch: char, t: string)
    requires IsSeparator(ch)
    ensures Split([ch] + t) == [[]] + Split(DropSeparators(t))
  {
    assert ([ch] + t)[1..] == t;
  }

  /** SplitAppend when `a` starts with a separator: the first piece is empty and the run is skipped. */
  lemma SplitAppendSeparator(a: string, c: char, b: string)
    requires IsSeparator(c) && a != [] && IsSeparator(a[0])
    ensures var d := DropSeparators(a[1..]);
      Split(a + [c] + b) == [[]] + Split(if d == [] then DropSeparators(b) else d + [c] + b)
      && Split(a + [c]) == [[]] + Split(if d == [] then [] else d + [c])
  {
    SplitLeadingRun(a, c, b);
    SplitLeadingRun(a, c, []);
    assert a + [c] + [] == a + [c];
    var d := DropSeparators(a[1..]);
    assert d != [] ==> d + [c] + [] == d + [c];
  }

  /** Splitting `a + [c] + b` when `a` starts with a separator. */
  lemma SplitLeadingRun(a: string, c: char, b: string)
    requires IsSeparator(c) && a != [] && IsSeparator(a[0])
    ensures var d := DropSeparators(a[1..]);
      Split(a + [c] + b) == [[]] + Split(if d == [] then DropSeparators(b) else d + [c] + b)
  {
    var a' := a[1..];
    var rest := [c] + b;
    assert a + [c] + b == [a[0]] + (a' + rest);
    SplitSeparatorStep(a[0], a' + rest);
    DropSeparatorsAppend(a', rest);
    var d := DropSeparators(a');
    if d == [] {
      SkipOneSeparator(c, b);
    } else {
      assert d + rest == d + [c] + b;
    }
  }

  lemma SkipOneSeparator(c: char, b: string)
    requires IsSeparator(c)
    ensures DropSeparators([c] + b) == DropSeparators(b)
  {
    assert ([c] + b)[1..] == b;
  }

  lemma {:induction false} DropEmptyAppend(x: seq<string>, y: seq<string>)
    ensures DropEmpty(x + y) == DropEmpty(x) + DropEmpty(y)
  {
    if x != [] {
      assert (x + y)[1..] == x[1..] + y;
      DropEmptyAppend(x[1..], y);
    } else {
      assert x + y == y;
    }
  }

  /** Cleaning (trim, drop empty) distributes over concatenation of piece lists. */
  lemma CleanAppend(x: seq<string>, y: seq<string>)
    ensures DropEmpty(TrimAll(x + y)) == DropEmpty(TrimAll(x)) + DropEmpty(TrimAll(y))
  {
    assert TrimAll(x + y) == TrimAll(x) + TrimAll(y);
    DropEmptyAppend(TrimAll(x), TrimAll(y));
  }

  lemma TokensSkipSeparators(b: string)
    ensures Tokens(DropSeparators(b)) == Tokens(b)
  {
    if b != [] && IsSeparator(b[0]) {
      assert Split(b) == [[]] + Split(DropSeparators(b[1..]));
      CleanAppend([[]], Split(DropSeparators(b[1..])));
    }
  }

  /** A trailing separator adds no token. */
  lemma TokensSeparatorSuffix(a: string, c: char)
    requires IsSeparator(c)
    ensures Tokens(a + [c]) == Tokens(a)
  {
    SplitSeparatorSuffix(a, c);
    if !EndsWithSeparator(a) {
      CleanAppend(Split(a), [[]]);
    }
  }

  /** The tokens of `a`, a separator and `b` are the tokens of `a` followed by those of `b`. */
  lemma TokensAppend(a: string, c: char, b: string)
    requires IsSeparator(c)
    ensures Tokens(a + [c] + b) == Tokens(a) + Tokens(b)
  {
    SplitAppend(a, c, b);
    CleanAppend(AllButLast(Split(a + [c])), Split(DropSeparators(b)));
    TokensBeforeSeparator(a, c);
    TokensSkipSeparators(b);
  }

  /** Without its final empty piece, the split of `a` and a separator gives the tokens of `a`. */
  lemma TokensBeforeSeparator(a: string, c: char)
    requires IsSeparator(c)
    ensures DropEmpty(TrimAll(AllButLast(Split(a + [c])))) == Tokens(a)
  {
    var p := Split(a + [c]);
    SplitTrailingSeparator(a + [c]);
    assert p == AllButLast(p) + [[]];
    CleanAppend(AllButLast(p), [[]]);
    TokensSeparatorSuffix(a, c);
  }

  lemma {:induction false} KeepPositiveAppend(x: seq<Option<int>>, y: seq<Option<int>>)
    ensures KeepPositive(x + y) == KeepPositive(x) + KeepPositive(y)
  {
    if x != [] {
      assert (x + y)[1..] == x[1..] + y;
      KeepPositiveAppend(x[1..], y);
    } else {
      assert x + y == y;
    }
  }

  lemma ToNumbersAppend(x: seq<string>, y: seq<string>)
    ensures ToNumbers(x + y) == ToNumbers(x) + ToNumbers(y)
  {
  }

  /**
   * Parsing keeps order and duplicates: the days of two texts joined by a
   * separator are the days of the first followed by the days of the second.
   */
  lemma ParseDaysAppend(a: string, c: char, b: string)
    requires IsSeparator(c)
    ensures ParseDays(a + [c] + b) == ParseDays(a) + ParseDays(b)
  {
    TokensAppend(a, c, b);
    ToNumbersAppend(Tokens(a), Tokens(b));
    KeepPositiveAppend(ToNumbers(Tokens(a)), ToNumbers(Tokens(b)));
  }

  /** A word without separators or surrounding white space is a single token. */
  lemma SingleToken(w: string)
    requires IsCleanWord(w)
    ensures Tokens(w) == [w]
    ensures ParseDays(w) == if ToNumber(w).Some? && ToNumber(w).value > 0 then [ToNumber(w).value] else []
  {
    SplitOfWord(w);
    assert Trim(w) == w;
    assert TrimAll([w]) == [w];
    assert ToNumbers([w]) == [ToNumber(w)];
  }

  lemma {:induction false} SplitOfWord(w: string)
    requires NoSeparator(w)
    ensures Split(w) == [w]
  {
    if w != [] {
      SplitOfWord(w[1..]);
      assert [w[0]] + w[1..] == w;
    }
  }

  /** The numeral of a positive day parses to that day, and nothing else. */
  lemma ParseNumeral(n: nat)
    requires n > 0
    ensures ParseDays(Numeral(n)) == [n]
  {
    var s := Numeral(n);
    NumeralRoundTrip(n);
    SingleToken(s);
  }

  predicate AllSeparators(r: string) {
    forall i :: 0 <= i < |r| ==> IsSeparator(r[i])
  }

  /** A trailing separator adds no day. */
  lemma ParseDaysSeparatorSuffix(a: string, c: char)
    requires IsSeparator(c)
    ensures ParseDays(a + [c]) == ParseDays(a)
  {
    TokensSeparatorSuffix(a, c);
  }

  /** A whole run of separators between two texts acts like a single one. */
  lemma {:induction false} ParseDaysSeparatorRun(a: string, r: string, b: string)
    requires r != [] && AllSeparators(r)
    ensures ParseDays(a + r + b) == ParseDays(a) + ParseDays(b)
    decreases |r|
  {
    if |r| == 1 {
      assert a + r + b == a + [r[0]] + b;
      ParseDaysAppend(a, r[0], b);
    } else {
      assert a + r + b == (a + [r[0]]) + r[1..] + b;
      ParseDaysSeparatorRun(a + [r[0]], r[1..], b);
      ParseDaysSeparatorSuffix(a, r[0]);
    }
  }

  /**
   * The shape of the example "1, 2.3  4": numerals separated by a comma and
   * a space, a dot, and two spaces give their days, in order.
   */
  lemma MixedSeparators(a: nat, b: nat, c: nat, d: nat)
    requires a > 0 && b > 0 && c > 0 && d > 0
    ensures ParseDays(Numeral(a) + [',', ' '] + Numeral(b) + ['.'] + Numeral(c) + [' ', ' '] + Numeral(d))
      == [a, b, c, d]
  {
    var na := Numeral(a);
    ParseNumeral(a);
    AppendNumeral(na, [',', ' '], b);
    AppendNumeral(na + [',', ' '] + Numeral(b), ['.'], c);
    AppendNumeral(na + [',', ' '] + Numeral(b) + ['.'] + Numeral(c), [' ', ' '], d);
  }

  /** A positive numeral after a run of separators adds its own value as the last day. */
  lemma AppendNumeral(x: string, r: string, n: nat)
    requires n > 0 && r != [] && AllSeparators(r)
    ensures ParseDays(x + r + Numeral(n)) == ParseDays(x) + [n]
  {
    ParseNumeral(n);
    ParseDaysSeparatorRun(x, r, Numeral(n));
  }

  /**
   * The shape of the example "0, -1, abc": zero, a negative number and a
   * word that is not a number give no day at all.
   */
  lemma NoValidDay(n: nat, word: string)
    requires IsCleanWord(word)
    requires ToNumber(word).None?
    ensures ParseDays(Numeral(0) + [',', ' '] + (['-'] + Numeral(n)) + [',', ' '] + word) == []
  {
    var zero, minus := Numeral(0), ['-'] + Numeral(n);
    ParseZero();
    ParseNegative(n);
    SingleToken(word);
    ParseDaysSeparatorRun(zero, [',', ' '], minus);
    ParseDaysSeparatorRun(zero + [',', ' '] + minus, [',', ' '], word);
  }

  /** "0" is a number but not a positive one: no day. */
  lemma ParseZero()
    ensures ParseDays(Numeral(0)) == []
  {
    NumeralRoundTrip(0);
    SingleToken(Numeral(0));
  }

  /** A negative number is no day. */
  lemma ParseNegative(n: nat)
    ensures ParseDays(['-'] + Numeral(n)) == []
  {
    var minus := ['-'] + Numeral(n);
    NumeralRoundTrip(n);
    assert minus[1..] == Numeral(n);
    SingleToken(minus);
  }

  /** A worked example: "1, 2.3  4" gives 1, 2, 3, 4. */
  lemma ExampleDays()
    ensures ParseDays("1, 2.3  4") == [1, 2, 3, 4]
  {
    MixedSeparators(1, 2, 3, 4);
    assert Numeral(1) == "1" && Numeral(2) == "2" && Numeral(3) == "3" && Numeral(4) == "4";
    assert "1, 2.3  4" == Numeral(1) + [',', ' '] + Numeral(2) + ['.'] + Numeral(3) + [' ', ' '] + Numeral(4);
  }

  /** A worked example: "0, -1, abc" gives nothing. */
  lemma ExampleNoDays()
    ensures ParseDays("0, -1, abc") == []
  {
    assert IsCleanWord("abc");
    NoValidDay(1, "abc");
    assert Numeral(0) == "0" && Numeral(1) == "1";
    assert "0, -1, abc" == Numeral(0) + [',', ' '] + (['-'] + Numeral(1)) + [',', ' '] + "abc";
  }

  /** Digits, signed or not, make a clean word. */
  lemma DigitsClean(d: string)
    requires IsDigits(d)
    ensures IsCleanWord(d) && IsCleanWord(['+'] + d)
  {
    var plus := ['+'] + d;
    assert plus[|plus| - 1] == d[|d| - 1];
    assert forall i :: 1 <= i < |plus| ==> plus[i] == d[i - 1];
  }

  /** Digits with a positive value parse to that single day. */
  lemma ParseDigits(d: string)
    requires IsDigits(d) && DigitsValue(d) > 0
    ensures ParseDays(d) == [DigitsValue(d)]
  {
    DigitsClean(d);
    SingleToken(d);
  }

  /** So do they with a plus sign in front. */
  lemma ParsePlusDigits(d: string)
    requires IsDigits(d) && DigitsValue(d) > 0
    ensures ParseDays(['+'] + d) == [DigitsValue(d)]
  {
    DigitsClean(d);
    assert (['+'] + d)[1..] == d;
    SingleToken(['+'] + d);
  }

  /** A positive numeral after zeros parses to its value. */
  lemma ParsePadded(k: nat, n: nat)
    requires n > 0
    ensures ParseDays(Zeros(k) + Numeral(n)) == [n]
  {
    PaddedDigitsValue(k, Numeral(n));
    NumeralRoundTrip(n);
    ParseDigits(Zeros(k) + Numeral(n));
  }

  /** A zero-padded numeral, separators, then the same numeral signed with a plus. */
  lemma PaddedThenPlus(k: nat, n: nat, r: string)
    requires n > 0 && r != [] && AllSeparators(r)
    ensures ParseDays(Zeros(k) + Numeral(n) + r + (['+'] + Numeral(n))) == [n, n]
  {
    ParsePadded(k, n);
    NumeralRoundTrip(n);
    ParsePlusDigits(Numeral(n));
    ParseDaysSeparatorRun(Zeros(k) + Numeral(n), r, ['+'] + Numeral(n));
  }

  /** Leading zeros and a plus sign: "05, +5" gives 5 twice. */
  lemma PaddedExample()
    ensures ParseDays("05, +5") == [5, 5]
  {
    assert Numeral(5) == "5";
    assert Zeros(1) == "0";
    PaddedThenPlus(1, 5, ", ");
    assert "05, +5" == Zeros(1) + Numeral(5) + ", " + (['+'] + Numeral(5));
  }

}
