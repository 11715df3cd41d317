/** The ISBN codec (src/utils/isbn.ts): cleaning a string down to digits and `X`,
    classifying it by length, checking the ISBN-10 check character (modulus 11 with
    weights 10..1, the rule of ISO 2108) and the ISBN-13 check digit (modulus 10 with
    weights 1/3, the EAN-13 rule of section 7.9 of the GS1 General Specifications),
    hyphenating with a fixed group pattern and converting ISBN-10 to ISBN-13.

    `parseInt` of a single character is `ParseDigit`, whose `None` stands for NaN;
    NaN absorbs every sum it enters and compares unequal to everything, so the
    source's loops are modelled as sums over `Option<int>`. */
module Isbn {
  import opened Common

  predicate IsDigit(c: char) {
    '0' <= c <= '9'
  }

  /** `parseInt` of a one-character string: the digit's value, or `None` for NaN. */
  function ParseDigit(c: char): (r: Option<nat>)
    ensures r.Some? <==> IsDigit(c)
    ensures r.Some? ==> r.value < 10
  {
    if IsDigit(c) then Some(c as int - '0' as int) else None
  }

  /** The character `String(d)` of a single decimal digit. */
  function DigitChar(d: nat): (c: char)
    requires d < 10
    ensures ParseDigit(c) == Some(d)
  {
    (d + '0' as int) as char
  }

  /** A character kept by `replace(/[^0-9X]/gi, '')`. */
  predicate Kept(c: char) {
    IsDigit(c) || c == 'X' || c == 'x'
  }

  /** A character of a normalized ISBN. */
  predicate Canonical(c: char) {
    IsDigit(c) || c == 'X'
  }

  /** `s.replace(/[^0-9X]/gi, '')`: the digits and the `X`/`x` of `s`, in order. */
  function Clean(s: string): (r: string)
    ensures |r| <= |s|
    ensures forall i :: 0 <= i < |r| ==> Kept(r[i])
  {
    if s == [] then [] else (if Kept(s[0]) then [s[0]] else []) + Clean(s[1..])
  }

  /** Cleaning keeps every occurrence of a kept character, so `x` survives it. */
  lemma {:induction false} CleanKeeps(s: string, c: char)
    requires Kept(c)
    ensures c in Clean(s) <==> c in s
  {
    if s != [] {
      CleanKeeps(s[1..], c);
      assert s == [s[0]] + s[1..];
    }
  }

  /** Cleaning a string without digits or `X`/`x` leaves nothing. */
  lemma {:induction false} CleanDropsRest(s: string)
    requires forall i :: 0 <= i < |s| ==> !Kept(s[i])
    ensures Clean(s) == []
  {
    if s != [] {
      CleanDropsRest(s[1..]);
    }
  }

  /** `normalizeISBN` (and the first line of every codec operation):
      clean, then upper-case, so the result holds only digits and `X`. */
  function Normalize(s: string): (r: string)
    ensures |r| <= |s|
    ensures forall i :: 0 <= i < |r| ==> Canonical(r[i])
  {
    ToUpper(Clean(s))
  }

  lemma {:induction false} CleanConcat(a: string, b: string)
    ensures Clean(a + b) == Clean(a) + Clean(b)
  {
    if a == [] {
      assert a + b == b;
    } else {
      assert (a + b)[0] == a[0];
      assert (a + b)[1..] == a[1..] + b;
      CleanConcat(a[1..], b);
      var k := if Kept(a[0]) then [a[0]] else [];
      calc {
        Clean(a + b);
        k + Clean(a[1..] + b);
        k + (Clean(a[1..]) + Clean(b));
        (k + Clean(a[1..])) + Clean(b);
        Clean(a) + Clean(b);
      }
    }
  }

  /** Normalizing distributes over concatenation: every character is kept,
      upper-cased or dropped on its own. */
  lemma NormalizeConcat(a: string, b: string)
    ensures Normalize(a + b) == Normalize(a) + Normalize(b)
  {
    CleanConcat(a, b);
    ToUpperConcat(Clean(a), Clean(b));
  }

  /** What normalization does to one character: a digit stays, `x` and `X`
      become `X`, anything else disappears. */
  lemma NormalizeChar(c: char)
    ensures Normalize([c]) == if IsDigit(c) then [c] else if c == 'x' || c == 'X' then ['X'] else []
  {
    assert [c][1..] == [];
  }

  lemma {:induction false} CleanFixesKept(t: string)
    requires forall i :: 0 <= i < |t| ==> Kept(t[i])
    ensures Clean(t) == t
  {
    if t != [] {
      CleanFixesKept(t[1..]);
    }
  }

  /** A string of digits and `X` is its own normal form. */
  lemma NormalizeFixesCanonical(t: string)
    requires forall i :: 0 <= i < |t| ==> Canonical(t[i])
    ensures Normalize(t) == t
  {
    CleanFixesKept(t);
  }

  /** `normalizeISBN` is idempotent. */
  lemma NormalizeIdempotent(s: string)
    ensures Normalize(Normalize(s)) == Normalize(s)
  {
    NormalizeFixesCanonical(Normalize(s));
  }

  // ---------------------------------------------------------------------------
  // Check characters: the reference rules

  /** Positions 0..n-1 of `s` are decimal digits. */
  predicate DigitsBelow(s: string, n: nat)
    requires n <= |s|
  {
    forall i :: 0 <= i < n ==> IsDigit(s[i])
  }

  function DigitValue(c: char): nat
    requires IsDigit(c)
  {
    ParseDigit(c).value
  }

  /** ISBN-10 weight of position i: 10, 9, ..., 1. */
  function Weight10(i: nat): int {
    10 - i
  }

  /** EAN-13 weight of position i: 1 at even positions, 3 at odd ones. */
  function Weight13(i: nat): nat {
    if i % 2 == 0 then 1 else 3
  }

  /** Σ_{i<n} value(s[i]) · Weight10(i) over a digit prefix. */
  function Weighted10(s: string, n: nat): int
    requires n <= |s| && DigitsBelow(s, n)
  {
    if n == 0 then 0 else Weighted10(s, n - 1) + DigitValue(s[n - 1]) * Weight10(n - 1)
  }

  /** Σ_{i<n} value(s[i]) · Weight13(i) over a digit prefix. */
  function Weighted13(s: string, n: nat): nat
    requires n <= |s| && DigitsBelow(s, n)
  {
    if n == 0 then 0 else Weighted13(s, n - 1) + DigitValue(s[n - 1]) * Weight13(n - 1)
  }

  /** The value of an ISBN-10 check character: `X` stands for ten. */
  function CheckValue10(c: char): nat
    requires IsDigit(c) || c == 'X'
  {
    if c == 'X' then 10 else DigitValue(c)
  }

  /** ISO 2108: nine digits and a check character (a digit or `X`) whose weighted
      sum, with weights 10 down to 1, is a multiple of 11. */
  predicate IsIsbn10(s: string) {
    && |s| == 10
    && DigitsBelow(s, 9)
    && (IsDigit(s[9]) || s[9] == 'X')
    && (Weighted10(s, 9) + CheckValue10(s[9])) % 11 == 0
  }

  /** EAN-13: thirteen digits whose sum with alternating weights 1 and 3 (the
      check digit weighing 1) is a multiple of 10. */
  predicate IsIsbn13(s: string) {
    && |s| == 13
    && DigitsBelow(s, 13)
    && Weighted13(s, 13) % 10 == 0
  }

  // ---------------------------------------------------------------------------
  // Check characters: the code's loops

  /** JavaScript `+` on numbers that may be NaN: NaN absorbs. */
  function AddNaN(a: Option<int>, b: Option<int>): Option<int> {
    if a.Some? && b.Some? then Some(a.value + b.value) else None
  }

  /** JavaScript `*` by a weight, NaN absorbing. */
  function ScaleNaN(a: Option<nat>, w: int): Option<int> {
    if a.Some? then Some(a.value * w) else None
  }

  /** The accumulator of validateISBN10's loop after its first n rounds. */
  function LoopSum10(s: string, n: nat): Option<int>
    requires n <= |s|
  {
    if n == 0 then Some(0)
    else AddNaN(LoopSum10(s, n - 1), ScaleNaN(ParseDigit(s[n - 1]), Weight10(n - 1)))
  }

  /** The accumulator of validateISBN13's loop (and convertISBN10to13's) after n rounds. */
  function LoopSum13(s: string, n: nat): Option<int>
    requires n <= |s|
  {
    if n == 0 then Some(0)
    else AddNaN(LoopSum13(s, n - 1), ScaleNaN(ParseDigit(s[n - 1]), Weight13(n - 1)))
  }

  /** The loop sum is a number exactly when every character it read is a digit,
      and then it is the weighted digit sum. */
  lemma {:induction false} LoopSum10Facts(s: string, n: nat)
    requires n <= |s|
    ensures LoopSum10(s, n).Some? <==> DigitsBelow(s, n)
    ensures LoopSum10(s, n).Some? ==> LoopSum10(s, n).value == Weighted10(s, n)
  {
    if n > 0 {
      LoopSum10Facts(s, n - 1);
    }
  }

  lemma {:induction false} LoopSum13Facts(s: string, n: nat)
    requires n <= |s|
    ensures LoopSum13(s, n).Some? <==> DigitsBelow(s, n)
    ensures LoopSum13(s, n).Some? ==> LoopSum13(s, n).value == Weighted13(s, n)
  {
    if n > 0 {
      LoopSum13Facts(s, n - 1);
    }
  }

  /** The loop only reads the first n characters. */
  lemma {:induction false} LoopSum13Prefix(s: string, t: string, n: nat)
    requires n <= |s| && n <= |t| && s[..n] == t[..n]
    ensures LoopSum13(s, n) == LoopSum13(t, n)
  {
    if n > 0 {
      assert s[n - 1] == s[..n][n - 1] == t[..n][n - 1] == t[n - 1];
      assert s[..n - 1] == s[..n][..n - 1];
      assert t[..n - 1] == t[..n][..n - 1];
      LoopSum13Prefix(s, t, n - 1);
    }
  }

  /** The code's form of the EAN-13 rule and the standard's agree: a digit d is
      (10 − sum mod 10) mod 10 exactly when sum + d is a multiple of 10. */
  lemma CheckDigitRule(sum: int, d: int)
    requires 0 <= sum && 0 <= d < 10
    ensures d == (10 - sum % 10) % 10 <==> (sum + d) % 10 == 0
  {
    var q, r := sum / 10, sum % 10;
    assert sum + d == 10 * q + (r + d);
    assert (sum + d) % 10 == (r + d) % 10;
  }

  /** `validateISBN10` (called only on cleaned strings of length ten): NaN from an
      `X` among the first nine positions makes the sum NaN and the test false;
      otherwise the weighted sum plus the check value must be divisible by 11. */
  function Valid10(s: string): (ok: bool)
    requires |s| == 10
    ensures ok <==> IsIsbn10(s)
  {
    LoopSum10Facts(s, 9);
    var check := if s[9] == 'X' then Some(10) else ParseDigit(s[9]);
    var sum := AddNaN(LoopSum10(s, 9), check);
    sum.Some? && sum.value % 11 == 0
  }

  /** `checkDigit === (10 - (sum % 10)) % 10`, where NaN on either side compares
      unequal. */
  predicate CheckMatches13(sum: Option<int>, check: Option<nat>) {
    sum.Some? && check.Some? && check.value == (10 - sum.value % 10) % 10
  }

  /** `validateISBN13` (called only on cleaned strings of length thirteen): the
      check digit must equal (10 − sum mod 10) mod 10; NaN anywhere fails. */
  function Valid13(s: string): (ok: bool)
    requires |s| == 13
    ensures ok <==> IsIsbn13(s)
  {
    LoopSum13Facts(s, 12);
    var sum := LoopSum13(s, 12);
    var check := ParseDigit(s[12]);
    if sum.Some? && check.Some? then
      CheckDigitRule(sum.value, check.value);
      CheckMatches13(sum, check)
    else
      CheckMatches13(sum, check)
  }

  // ---------------------------------------------------------------------------
  // The exported operations

  datatype IsbnType = Isbn10 | Isbn13

  /** `{ isValid, type }`; a missing `type` is JavaScript's `null`. */
  datatype Validation = Validation(isValid: bool, kind: Option<IsbnType>)

  /** `validateISBN`: classify the cleaned string by length (10 or 13, anything
      else has no type and is invalid) and check it with that length's rule. */
  function Validate(s: string): (r: Validation)
    ensures r.kind == Some(Isbn10) <==> |Normalize(s)| == 10
    ensures r.kind == Some(Isbn13) <==> |Normalize(s)| == 13
    ensures r.kind.None? ==> !r.isValid
    ensures r.isValid <==> IsIsbn10(Normalize(s)) || IsIsbn13(Normalize(s))
  {
    var c := Normalize(s);
    if |c| == 10 then Validation(Valid10(c), Some(Isbn10))
    else if |c| == 13 then Validation(Valid13(c), Some(Isbn13))
    else Validation(false, None)
  }

  /** Validation only sees the normal form: separators, spaces and the case of
      `x` never matter. */
  lemma ValidateSeesNormalForm(s: string)
    ensures Validate(s) == Validate(Normalize(s))
  {
    NormalizeIdempotent(s);
  }

  lemma SameNormalFormSameValidation(x: string, y: string)
    requires Normalize(x) == Normalize(y)
    ensures Validate(x) == Validate(y)
  {
  }

  /** Inserting anything without digits or `X`/`x` (hyphens, spaces, dots) into an
      ISBN leaves its validation unchanged. */
  lemma SeparatorsAreIgnored(a: string, sep: string, b: string)
    requires forall i :: 0 <= i < |sep| ==> !Kept(sep[i])
    ensures Validate(a + sep + b) == Validate(a + b)
  {
    NormalizeConcat(a + sep, b);
    NormalizeConcat(a, sep);
    NormalizeConcat(a, b);
    CleanDropsRest(sep);
    SameNormalFormSameValidation(a + sep + b, a + b);
  }

  /** `r` is `c` cut into consecutive groups of the given sizes joined by single
      hyphens. */
  predicate Grouped(r: string, c: string, sizes: seq<nat>)
    decreases |sizes|
  {
    if |sizes| <= 1 then
      |sizes| == 1 && r == c && |c| == sizes[0]
    else
      var k := sizes[0];
      && k <= |c| && k < |r|
      && r[..k] == c[..k] && r[k] == '-'
      && Grouped(r[k + 1..], c[k..], sizes[1..])
  }

  /** Prepending one more group: `x` followed by a hyphen and a grouping of `c'`. */
  lemma GroupStep(x: string, r': string, c': string, rest: seq<nat>)
    requires |rest| >= 1 && Grouped(r', c', rest)
    ensures Grouped(x + "-" + r', x + c', [|x|] + rest)
  {
    var r, c, k := x + "-" + r', x + c', |x|;
    assert c[..k] == x;
    assert r[k + 1..] == r';
    assert c[k..] == c';
    assert ([k] + rest)[1..] == rest;
  }

  /** The 5-3-1 cut of a nine-character string: the part both formats end with. */
  function Cut531(t: string): string
    requires |t| == 9
  {
    t[..5] + "-" + (t[5..8] + "-" + t[8..])
  }

  /** The 1-5-3-1 cut of a ten-character string. */
  function Cut10(c: string): string
    requires |c| == 10
  {
    c[..1] + "-" + Cut531(c[1..])
  }

  /** The 3-1-5-3-1 cut of a thirteen-character string. */
  function Cut13(c: string): string
    requires |c| == 13
  {
    c[..3] + "-" + (c[3..4] + "-" + Cut531(c[4..]))
  }

  lemma Cut531Grouped(t: string)
    requires |t| == 9
    ensures Grouped(Cut531(t), t, [5, 3, 1])
  {
    assert Grouped(t[8..], t[8..], [1]);
    GroupStep(t[5..8], t[8..], t[8..], [1]);
    assert t[5..8] + t[8..] == t[5..];
    GroupStep(t[..5], t[5..8] + "-" + t[8..], t[5..], [3, 1]);
    assert t[..5] + t[5..] == t;
  }

  lemma Cut10Grouped(c: string)
    requires |c| == 10
    ensures Grouped(Cut10(c), c, [1, 5, 3, 1])
  {
    Cut531Grouped(c[1..]);
    GroupStep(c[..1], Cut531(c[1..]), c[1..], [5, 3, 1]);
    assert c[..1] + c[1..] == c;
  }

  lemma Cut13Grouped(c: string)
    requires |c| == 13
    ensures Grouped(Cut13(c), c, [3, 1, 5, 3, 1])
  {
    Cut531Grouped(c[4..]);
    GroupStep(c[3..4], Cut531(c[4..]), c[4..], [5, 3, 1]);
    assert c[3..4] + c[4..] == c[3..];
    GroupStep(c[..3], c[3..4] + "-" + Cut531(c[4..]), c[3..], [1, 5, 3, 1]);
    assert c[..3] + c[3..] == c;
  }

  /** `formatISBN`: a cleaned ISBN-10 is cut 1-5-3-1, a cleaned ISBN-13 3-1-5-3-1;
      any other cleaned length returns the original input unchanged. */
  function Format(s: string): (r: string)
    ensures |Normalize(s)| == 10 ==> Grouped(r, Normalize(s), [1, 5, 3, 1])
    ensures |Normalize(s)| == 13 ==> Grouped(r, Normalize(s), [3, 1, 5, 3, 1])
    ensures |Normalize(s)| != 10 && |Normalize(s)| != 13 ==> r == s
  {
    var c := Normalize(s);
    if |c| == 10 then
      Cut10Grouped(c);
      Cut10(c)
    else if |c| == 13 then
      Cut13Grouped(c);
      Cut13(c)
    else
      s
  }

  /** A hyphen between two strings disappears on normalization. */
  lemma NormalizeHyphenJoin(x: string, y: string)
    ensures Normalize(x + "-" + y) == Normalize(x) + Normalize(y)
  {
    NormalizeConcat(x + "-", y);
    NormalizeConcat(x, "-");
    NormalizeChar('-');
  }

  /** Removing the hyphens of a grouping of a normal form gives the normal form back. */
  lemma {:induction false} NormalizeGrouped(r: string, c: string, sizes: seq<nat>)
    requires forall i :: 0 <= i < |c| ==> Canonical(c[i])
    requires Grouped(r, c, sizes)
    ensures Normalize(r) == c
    decreases |sizes|
  {
    if |sizes| <= 1 {
      NormalizeFixesCanonical(c);
    } else {
      var k := sizes[0];
      var head, tail, rest := c[..k], r[k + 1..], c[k..];
      NormalizeHyphenJoin(head, tail);
      NormalizeFixesCanonical(head);
      NormalizeGrouped(tail, rest, sizes[1..]);
      assert r == head + "-" + tail by {
        assert r == r[..k] + [r[k]] + r[k + 1..];
      }
      assert c == head + rest;
    }
  }

  /** Formatting never changes what an ISBN normalizes to. */
  lemma NormalizeFormat(s: string)
    ensures Normalize(Format(s)) == Normalize(s)
  {
    var c := Normalize(s);
    if |c| == 10 {
      NormalizeGrouped(Format(s), c, [1, 5, 3, 1]);
    } else if |c| == 13 {
      NormalizeGrouped(Format(s), c, [3, 1, 5, 3, 1]);
    }
  }

  /** `formatISBN` is idempotent: an already formatted ISBN comes back as it is. */
  lemma FormatIdempotent(s: string)
    ensures Format(Format(s)) == Format(s)
  {
    NormalizeFormat(s);
  }

  /** `convertISBN10to13`: `None` (the source's `null`) unless the cleaned input is
      a valid ISBN-10; otherwise `978`, the nine ISBN-10 body digits and a freshly
      computed EAN-13 check digit, which makes a valid ISBN-13. */
  function Convert10To13(s: string): (r: Option<string>)
    ensures r.None? <==> !IsIsbn10(Normalize(s))
    ensures r.Some? ==> |r.value| == 13 && r.value[..3] == "978" && r.value[3..12] == Normalize(s)[..9]
    ensures r.Some? ==> IsIsbn13(r.value)
  {
    var c := Normalize(s);
    if |c| != 10 || !Valid10(c) then None
    else
      var body := "978" + c[..9];
      assert DigitsBelow(body, 12);
      LoopSum13Facts(body, 12);
      var sum := LoopSum13(body, 12).value;
      var r := body + [DigitChar((10 - sum % 10) % 10)];
      assert r[..12] == body[..12];
      LoopSum13Prefix(r, body, 12);
      assert Valid13(r) by {
        assert ParseDigit(r[12]) == Some((10 - sum % 10) % 10);
      }
      Some(r)
  }

  /** Every successful conversion is reported by `validateISBN` as a valid ISBN-13. */
  lemma ConvertedIsValid13(s: string)
    requires Convert10To13(s).Some?
    ensures Validate(Convert10To13(s).value) == Validation(true, Some(Isbn13))
  {
    var r := Convert10To13(s).value;
    NormalizeFixesCanonical(r);
  }
}
