/** The ISBN validator that the scanner hook (src/hooks/useISBNScanner.ts) and the
    manual entry form (src/components/Scanner/ManualISBNInput.tsx) each carry a copy
    of. The two copies are the same code, so one definition models both. It differs
    from the codec in two ways: its loops return `false` at the first NaN instead of
    letting NaN flow into the sum, and it cleans without upper-casing, so a lower-case
    `x` is kept and then fails to parse. */
module InlineCheck {
  import opened Common
  import Isbn

  /** validateISBN10's loop from position i on, with the running sum so far; `None`
      is the early `return false` on a NaN digit. */
  function Accumulate10(s: string, i: nat, sum: int): Option<int>
    requires |s| == 10 && i <= 9
    decreases 9 - i
  {
    if i == 9 then Some(sum)
    else
      var d := Isbn.ParseDigit(s[i]);
      if d.None? then None else Accumulate10(s, i + 1, sum + d.value * Isbn.Weight10(i))
  }

  /** validateISBN13's loop from position i on. */
  function Accumulate13(s: string, i: nat, sum: int): Option<int>
    requires |s| == 13 && i <= 12
    decreases 12 - i
  {
    if i == 12 then Some(sum)
    else
      var d := Isbn.ParseDigit(s[i]);
      if d.None? then None else Accumulate13(s, i + 1, sum + d.value * Isbn.Weight13(i))
  }

  /** The loop invariant: having summed the digits below i, the loop finishes exactly
      when the rest of the first nine characters are digits, with the full sum. */
  lemma {:induction false} Accumulate10Facts(s: string, i: nat, sum: int)
    requires |s| == 10 && i <= 9
    requires Isbn.DigitsBelow(s, i) && sum == Isbn.Weighted10(s, i)
    ensures Accumulate10(s, i, sum).Some? <==> Isbn.DigitsBelow(s, 9)
    ensures Accumulate10(s, i, sum).Some? ==> Accumulate10(s, i, sum).value == Isbn.Weighted10(s, 9)
    decreases 9 - i
  {
    if i < 9 && Isbn.IsDigit(s[i]) {
      var next := sum + Isbn.DigitValue(s[i]) * Isbn.Weight10(i);
      assert Isbn.Weighted10(s, i + 1) == next;
      Accumulate10Facts(s, i + 1, next);
    }
  }

  lemma {:induction false} Accumulate13Facts(s: string, i: nat, sum: int)
    requires |s| == 13 && i <= 12
    requires Isbn.DigitsBelow(s, i) && sum == Isbn.Weighted13(s, i)
    ensures Accumulate13(s, i, sum).Some? <==> Isbn.DigitsBelow(s, 12)
    ensures Accumulate13(s, i, sum).Some? ==> Accumulate13(s, i, sum).value == Isbn.Weighted13(s, 12)
    decreases 12 - i
  {
    if i < 12 && Isbn.IsDigit(s[i]) {
      var next := sum + Isbn.DigitValue(s[i]) * Isbn.Weight13(i);
      assert Isbn.Weighted13(s, i + 1) == next;
      Accumulate13Facts(s, i + 1, next);
    }
  }

  /** The inline validateISBN10: any length but ten is rejected; otherwise it accepts
      exactly the ISO 2108 ISBN-10s (with an upper-case `X` as check character). */
  function Validate10(s: string): (ok: bool)
    ensures ok <==> Isbn.IsIsbn10(s)
  {
    if |s| != 10 then false
    else
      Accumulate10Facts(s, 0, 0);
      Isbn.LoopSum10Facts(s, 9);
      var sum := Accumulate10(s, 0, 0);
      var check := if s[9] == 'X' then Some(10) else Isbn.ParseDigit(s[9]);
      var ok := if sum.None? || check.None? then false else (sum.value + check.value) % 11 == 0;
      assert sum == Isbn.LoopSum10(s, 9);
      assert ok == Isbn.Valid10(s);
      ok
  }

  /** The inline validateISBN13: exactly the EAN-13 strings of length thirteen. */
  function Validate13(s: string): (ok: bool)
    ensures ok <==> Isbn.IsIsbn13(s)
  {
    if |s| != 13 then false
    else
      Accumulate13Facts(s, 0, 0);
      Isbn.LoopSum13Facts(s, 12);
      var sum := Accumulate13(s, 0, 0);
      var check := Isbn.ParseDigit(s[12]);
      assert sum == Isbn.LoopSum13(s, 12);
      assert Isbn.Valid13(s) == Isbn.CheckMatches13(sum, check);
      Isbn.CheckMatches13(sum, check)
  }

  /** Cleaning without upper-casing changes nothing more than the codec's
      normalization does, as long as no lower-case `x` is present. */
  lemma CleanIsNormalWithoutLowercaseX(code: string)
    requires 'x' !in code
    ensures Isbn.Clean(code) == Isbn.Normalize(code)
  {
    var c := Isbn.Clean(code);
    Isbn.CleanKeeps(code, 'x');
    assert forall i :: 0 <= i < |c| ==> Isbn.Canonical(c[i]) by {
      forall i | 0 <= i < |c| ensures Isbn.Canonical(c[i]) {
        assert c[i] in c;
      }
    }
    Isbn.NormalizeFixesCanonical(c);
    Isbn.NormalizeIdempotent(code);
    Isbn.CleanFixesKept(c);
  }

  /** A string holding a lower-case `x` is neither an ISBN-10 nor an ISBN-13. */
  lemma LowercaseXIsNoIsbn(c: string)
    requires 'x' in c
    ensures !Isbn.IsIsbn10(c) && !Isbn.IsIsbn13(c)
  {
    var j :| 0 <= j < |c| && c[j] == 'x';
    assert !Isbn.IsDigit(c[j]);
  }

  /** What the length dispatch of the inline validateISBN decides on a cleaned
      string, stated against the references: a lower-case `x` left in by cleaning
      is no digit, so it fails both checks; without one, the cleaned string is the
      codec's normal form. */
  lemma CleanedDispatch(code: string)
    ensures var c := Isbn.Clean(code);
      (if |c| == 10 then Isbn.IsIsbn10(c) else if |c| == 13 then Isbn.IsIsbn13(c) else false) <==>
      Isbn.Validate(code).isValid && 'x' !in code
  {
    var c := Isbn.Clean(code);
    Isbn.CleanKeeps(code, 'x');
    if 'x' in code {
      LowercaseXIsNoIsbn(c);
    } else {
      CleanIsNormalWithoutLowercaseX(code);
    }
  }

  /** The inline validateISBN: clean without upper-casing, then check by length.
      It accepts exactly what the codec's validateISBN accepts, minus every input
      holding a lower-case `x`: the copies agree on all inputs without `x`, and
      disagree only where the codec accepts an ISBN-10 whose check character is a
      lower-case `x`. */
  function Validate(code: string): (ok: bool)
    ensures ok <==> Isbn.Validate(code).isValid && 'x' !in code
  {
    var c := Isbn.Clean(code);
    CleanedDispatch(code);
    if |c| == 10 then Validate10(c)
    else if |c| == 13 then Validate13(c)
    else false
  }

  /** The divergence in general: nine digits followed by a lower-case `x` that
      would make a valid ISBN-10 as `X` pass the codec and fail the inline copies. */
  lemma LowercaseCheckCharacterDiverges(body: string)
    requires |body| == 9 && Isbn.DigitsBelow(body, 9)
    requires Isbn.IsIsbn10(body + ['X'])
    ensures Isbn.Validate(body + ['x']) == Isbn.Validation(true, Some(Isbn.Isbn10))
    ensures !Validate(body + ['x'])
  {
    Isbn.NormalizeConcat(body, ['x']);
    Isbn.NormalizeChar('x');
    Isbn.NormalizeFixesCanonical(body);
    assert (body + ['x'])[9] == 'x';
  }

  /** `080442957X` is an ISBN-10: 199 + 10 = 11 · 19. */
  lemma WitnessIsIsbn10()
    ensures Isbn.IsIsbn10("080442957X")
  {
    var w := "080442957X";
    assert Isbn.Weighted10(w, 3) == 72;
    assert Isbn.Weighted10(w, 6) == 134;
    assert Isbn.Weighted10(w, 9) == 199;
  }

  /** The divergence on a concrete input: the codec accepts `080442957x`, the
      inline copies reject it. */
  lemma LowercaseWitness()
    ensures Isbn.Validate("080442957x").isValid && !Validate("080442957x")
  {
    WitnessIsIsbn10();
    var body := "080442957";
    assert body + ['X'] == "080442957X";
    LowercaseCheckCharacterDiverges(body);
    assert body + ['x'] == "080442957x";
  }
}
