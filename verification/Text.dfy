/** Numbers in text and splitting at separators, as Rust's standard library does them. */
module Text {
  import opened Machine
  import opened Arith

  // ----- Digits -----

  function DigitValue(c: char, radix: nat): (d: Option<nat>)
    requires radix <= 16
    ensures d.Some? ==> d.value < radix
    ensures d.Some? <==>
              || ('0' <= c <= '9' && c as int - '0' as int < radix)
              || ('a' <= c <= 'f' && c as int - 'a' as int + 10 < radix)
              || ('A' <= c <= 'F' && c as int - 'A' as int + 10 < radix)
    ensures d.Some? ==>
              c as int == d.value + if d.value < 10 then '0' as int
                                    else if c <= 'F' then 'A' as int - 10 else 'a' as int - 10
  {
    var v := if '0' <= c <= '9' then c as int - '0' as int
             else if 'a' <= c <= 'f' then c as int - 'a' as int + 10
             else if 'A' <= c <= 'F' then c as int - 'A' as int + 10
             else 16;
    if v < radix then Some(v) else None
  }

  function DigitChar(d: nat): (c: char)
    requires d < 16
    ensures forall radix :: d < radix <= 16 ==> DigitValue(c, radix) == Some(d)
    ensures '0' <= c <= '9' || 'a' <= c <= 'f'
  {
    if d < 10 then ('0' as int + d) as char else ('a' as int + (d - 10)) as char
  }

  /** The value of a number followed by one more digit. */
  function WithDigit(v: Option<nat>, d: Option<nat>, radix: nat): Option<nat> {
    if v.Some? && d.Some? then Some(v.value * radix + d.value) else None
  }

  /** The value of a string of digits, if it is one. */
  function DigitsValue(s: string, radix: nat): Option<nat>
    requires radix <= 16
  {
    if s == "" then Some(0) else
    var n := |s| - 1;
    WithDigit(DigitsValue(s[..n], radix), DigitValue(s[n], radix), radix)
  }

  /** `from_str_radix` of an unsigned type with the given maximum: a non-empty string of
      digits, of any length, optionally after a plus sign. */
  function FromStrRadix(s: string, radix: nat, max: nat): Option<nat>
    requires radix <= 16
  {
    var digits := if 1 < |s| && s[0] == '+' then s[1..] else s;
    if digits == "" then None else
    match DigitsValue(digits, radix)
    case Some(v) => if v <= max then Some(v) else None
    case None => None
  }

  predicate AllDecimal(s: string) {
    forall i :: 0 <= i < |s| ==> '0' <= s[i] <= '9'
  }

  /** `{}` of an unsigned number. */
  function Decimal(n: nat): (s: string)
    ensures s != "" && AllDecimal(s)
  {
    if n < 10 then [DigitChar(n)] else Decimal(n / 10) + [DigitChar(n % 10)]
  }

  /** `{:02x}` of a byte. */
  function Hex2(b: u8): (s: string)
    ensures |s| == 2
  {
    [DigitChar(b as nat / 16), DigitChar(b as nat % 16)]
  }

  lemma DigitsValueAppend(s: string, c: char, radix: nat)
    requires radix <= 16
    ensures DigitsValue(s + [c], radix) == WithDigit(DigitsValue(s, radix), DigitValue(c, radix), radix)
  {
    assert (s + [c])[..|s|] == s;
  }

  lemma {:induction false} DecimalValue(n: nat)
    ensures DigitsValue(Decimal(n), 10) == Some(n)
  {
    if n < 10 {
      DigitsValueAppend("", DigitChar(n), 10);
      assert "" + [DigitChar(n)] == [DigitChar(n)];
    } else {
      DecimalValue(n / 10);
      DigitsValueAppend(Decimal(n / 10), DigitChar(n % 10), 10);
      assert DigitValue(DigitChar(n % 10), 10) == Some(n % 10);
    }
  }

  function Power(b: nat, n: nat): (p: nat)
    ensures 1 <= b ==> 1 <= p
  {
    if n == 0 then 1 else MulPositive(b, Power(b, n - 1)); b * Power(b, n - 1)
  }

  /** The value of a number after one more digit in front. */
  function Leading(d: Option<nat>, n: nat, v: Option<nat>, radix: nat): Option<nat> {
    if d.Some? && v.Some? then Some(d.value * Power(radix, n) + v.value) else None
  }

  /** Each digit counts by its position. */
  lemma {:induction false} LeadingDigit(c: char, s: string, radix: nat)
    requires radix <= 16
    ensures DigitsValue([c] + s, radix) == Leading(DigitValue(c, radix), |s|, DigitsValue(s, radix), radix)
    decreases |s|
  {
    if s == "" {
      assert [c] + s == "" + [c];
      DigitsValueAppend("", c, radix);
    } else {
      var n := |s| - 1;
      LeadingDigit(c, s[..n], radix);
      LastApart(s);
      assert [c] + s == [c] + s[..n] + [s[n]];
      DigitsValueAppend([c] + s[..n], s[n], radix);
      DigitsValueAppend(s[..n], s[n], radix);
      ShiftDigit(DigitValue(c, radix), n, DigitsValue(s[..n], radix), DigitValue(s[n], radix), radix);
    }
  }

  lemma ShiftDigit(d: Option<nat>, n: nat, v: Option<nat>, e: Option<nat>, radix: nat)
    ensures WithDigit(Leading(d, n, v, radix), e, radix) == Leading(d, n + 1, WithDigit(v, e, radix), radix)
  {
    if d.Some? && v.Some? && e.Some? {
      ShiftProduct(d.value, Power(radix, n), v.value, radix);
    }
  }

  lemma ShiftProduct(d: nat, p: nat, v: nat, radix: nat)
    ensures (d * p + v) * radix == d * (radix * p) + v * radix
  {
  }

  /** A text is a number exactly when, after at most one plus, there are digits and only
      digits, and its value does not exceed the maximum. */
  lemma {:induction false} NumberIff(s: string, radix: nat, max: nat, v: nat)
    requires radix <= 16
    ensures var digits := if s != "" && s[0] == '+' then s[1..] else s;
            FromStrRadix(s, radix, max) == Some(v) <==>
              && digits != ""
              && (forall i :: 0 <= i < |digits| ==> DigitValue(digits[i], radix).Some?)
              && DigitsValue(digits, radix) == Some(v)
              && v <= max
  {
    if s == "+" {
      DigitsValueAppend("", '+', radix);
      assert "" + ['+'] == s;
    }
    AllDigits(if 1 < |s| && s[0] == '+' then s[1..] else s, radix);
  }

  lemma {:induction false} AllDigits(s: string, radix: nat)
    requires radix <= 16
    ensures DigitsValue(s, radix).Some? <==> forall i :: 0 <= i < |s| ==> DigitValue(s[i], radix).Some?
  {
    if s != "" {
      AllDigits(s[..|s| - 1], radix);
    }
  }

  /** Digit `i` from the right is the one for 10^i. */
  lemma {:induction false} DecimalDigit(n: nat, i: nat)
    requires i < |Decimal(n)|
    ensures Decimal(n)[|Decimal(n)| - 1 - i] == DigitChar(n / Power(10, i) % 10)
  {
    if 10 <= n && 0 < i {
      DecimalDigit(n / 10, i - 1);
      QuotientOfProduct(n, 10, Power(10, i - 1));
    }
  }

  /** A digit string without a leading zero is how its value prints. */
  lemma {:induction false} DecimalCanonical(s: string)
    requires s != "" && AllDecimal(s) && (|s| == 1 || s[0] != '0')
    ensures DigitsValue(s, 10).Some? && Decimal(DigitsValue(s, 10).value) == s
    ensures s != "0" ==> 1 <= DigitsValue(s, 10).value
  {
    var n := |s| - 1;
    LastApart(s);
    if n == 0 {
      assert s[..n] == "";
    } else {
      DecimalCanonical(s[..n]);
      assert s[..n] != "0";
      DecimalAppend(DigitsValue(s[..n], 10).value, s[n]);
    }
  }

  lemma DecimalAppend(m: nat, c: char)
    requires 1 <= m && '0' <= c <= '9'
    ensures DigitValue(c, 10).Some? && Decimal(m * 10 + DigitValue(c, 10).value) == Decimal(m) + [c]
  {
    var d := DigitValue(c, 10).value;
    DivModUnique(10, m, d);
    assert DigitChar(d) == c;
  }

  /** Printing in decimal and parsing is the identity, up to the maximum. */
  lemma DecimalParses(n: nat, max: nat)
    ensures FromStrRadix(Decimal(n), 10, max) == if n <= max then Some(n) else None
  {
    DecimalValue(n);
    assert Decimal(n)[0] != '+';
  }

  /** Different numbers print differently. */
  lemma DecimalInjective(m: nat, n: nat)
    requires Decimal(m) == Decimal(n)
    ensures m == n
  {
    DecimalValue(m);
    DecimalValue(n);
  }

  lemma HexParses(b: u8)
    ensures FromStrRadix(Hex2(b), 16, 255) == Some(b as nat)
  {
    var hi, lo := b as nat / 16, b as nat % 16;
    DigitsValueAppend("", DigitChar(hi), 16);
    DigitsValueAppend([DigitChar(hi)], DigitChar(lo), 16);
    assert "" + [DigitChar(hi)] == [DigitChar(hi)];
    assert Hex2(b) == [DigitChar(hi)] + [DigitChar(lo)];
  }

  /** A string with a character that is neither a digit nor a leading plus is no number. */
  lemma {:induction false} NoDigitNoValue(s: string, i: nat, radix: nat)
    requires radix <= 16 && i < |s| && DigitValue(s[i], radix) == None
    ensures DigitsValue(s, radix) == None
    decreases |s|
  {
    var n := |s| - 1;
    if i < n {
      NoDigitNoValue(s[..n], i, radix);
    }
  }

  // ----- Splitting -----

  /** The pieces of a text after one more character. */
  function Grow(pieces: seq<string>, c: char, seps: set<char>): (grown: seq<string>)
    requires pieces != []
    ensures grown != []
  {
    var last := |pieces| - 1;
    if c in seps then pieces + [""] else pieces[..last] + [pieces[last] + [c]]
  }

  /** `split` at every character of `seps`. */
  function Split(s: string, seps: set<char>): (pieces: seq<string>)
    ensures pieces != []
  {
    if s == "" then [""] else Grow(Split(s[..|s| - 1], seps), s[|s| - 1], seps)
  }

  lemma SplitMore(s: string, c: char, seps: set<char>)
    ensures Split(s + [c], seps) == Grow(Split(s, seps), c, seps)
  {
    assert (s + [c])[..|s|] == s;
  }

  lemma LastApart<T>(s: seq<T>)
    requires s != []
    ensures s == s[..|s| - 1] + [s[|s| - 1]]
  {
  }

  /** The pieces with `c` between them. */
  function Join(pieces: seq<string>, c: char): string
    requires pieces != []
  {
    var n := |pieces| - 1;
    if n == 0 then pieces[0] else Join(pieces[..n], c) + [c] + pieces[n]
  }

  lemma JoinGrow(pieces: seq<string>, c: char, x: char)
    requires pieces != []
    ensures Join(Grow(pieces, x, {c}), c) == Join(pieces, c) + [x]
  {
    var n := |pieces| - 1;
    if x == c {
      assert (pieces + [""])[..n + 1] == pieces;
    } else {
      var grown := pieces[..n] + [pieces[n] + [x]];
      assert grown[..n] == pieces[..n];
      if n > 0 {
        assert Join(pieces[..n], c) + [c] + (pieces[n] + [x]) == Join(pieces[..n], c) + [c] + pieces[n] + [x];
      }
    }
  }

  /** Joining the pieces of a text gives it back. */
  lemma {:induction false} JoinSplit(s: string, c: char)
    ensures Join(Split(s, {c}), c) == s
  {
    if s != "" {
      JoinSplit(s[..|s| - 1], c);
      JoinGrow(Split(s[..|s| - 1], {c}), c, s[|s| - 1]);
      LastApart(s);
    }
  }

  predicate Free(s: string, seps: set<char>) {
    forall i :: 0 <= i < |s| ==> s[i] !in seps
  }

  lemma GrowOne(piece: string, c: char, seps: set<char>)
    requires c !in seps
    ensures Grow([piece], c, seps) == [piece + [c]]
  {
  }

  lemma {:induction false} SplitFree(s: string, seps: set<char>)
    requires Free(s, seps)
    ensures Split(s, seps) == [s]
  {
    if s != "" {
      var n := |s| - 1;
      SplitFree(s[..n], seps);
      GrowOne(s[..n], s[n], seps);
      LastApart(s);
    }
  }

  lemma GrowConcat(a: seq<string>, b: seq<string>, c: char, seps: set<char>)
    requires b != []
    ensures Grow(a + b, c, seps) == a + Grow(b, c, seps)
  {
    assert (a + b)[..|a + b| - 1] == a + b[..|b| - 1];
  }

  /** Splitting around a separator is splitting both sides. */
  lemma {:induction false} SplitAround(a: string, c: char, b: string, seps: set<char>)
    requires c in seps
    ensures Split(a + [c] + b, seps) == Split(a, seps) + Split(b, seps)
    decreases |b|
  {
    if b == "" {
      assert a + [c] + b == a + [c];
      SplitMore(a, c, seps);
    } else {
      var n := |b| - 1;
      SplitAround(a, c, b[..n], seps);
      LastApart(b);
      assert a + [c] + (b[..n] + [b[n]]) == a + [c] + b[..n] + [b[n]];
      SplitMore(a + [c] + b[..n], b[n], seps);
      SplitMore(b[..n], b[n], seps);
      GrowConcat(Split(a, seps), Split(b[..n], seps), b[n], seps);
    }
  }

  /** `from_str_radix` of a text with a character that is no digit, after the first, fails. */
  lemma NotANumber(s: string, i: nat, radix: nat, max: nat)
    requires radix <= 16 && 0 < i < |s| && DigitValue(s[i], radix) == None
    ensures FromStrRadix(s, radix, max) == None
  {
    if s[0] == '+' {
      NoDigitNoValue(s[1..], i - 1, radix);
    } else {
      NoDigitNoValue(s, i, radix);
    }
  }
}
