/** Helpers shared by every component: an optional value standing for JavaScript's
    `null`/`undefined`, the handful of string operations the components call
    (`trim`, `replace(/\s/g, '')`, `toLowerCase`, `includes`), and the ring stepping
    that both the camera switch and the theme toggle use. */
module Common {

  /** `null` / `undefined` versus a present value. */
  datatype Option<+T> = None | Some(value: T) {

    /** The present value, or `default` when absent (`x ?? default`). */
    function GetOr(default: T): T {
      match this
      case Some(v) => v
      case None => default
    }
  }

  /** JavaScript truthiness of an optional string: absent and "" are both falsy. */
  predicate Truthy(s: Option<string>) {
    s.Some? && s.value != ""
  }

  /** `message || fallback`: an error's message, unless it is absent or empty. */
  function MessageOr(message: Option<string>, fallback: string): (r: string)
    ensures Truthy(message) ==> r == message.value
    ensures !Truthy(message) ==> r == fallback
  {
    if Truthy(message) then message.value else fallback
  }

  /** JavaScript truthiness of an optional number: absent and 0 are both falsy. */
  predicate TruthyNumber(n: Option<int>) {
    n.Some? && n.value != 0
  }

  /** The ASCII members of JavaScript's whitespace class `\s` (what `trim` removes). */
  predicate IsSpace(c: char) {
    c == ' ' || c == '\t' || c == '\n' || c == '\r' || c == '\U{000B}' || c == '\U{000C}'
  }

  /** Every character of `s` is whitespace; `s.trim()` is then the empty, falsy string. */
  predicate Blank(s: string) {
    forall i :: 0 <= i < |s| ==> IsSpace(s[i])
  }

  /** `s.trimStart()`: the suffix left after dropping leading whitespace. */
  function TrimStart(s: string): (r: string)
    ensures |r| <= |s| && r == s[|s| - |r|..]
    ensures r == [] || !IsSpace(r[0])
    ensures forall i :: 0 <= i < |s| - |r| ==> IsSpace(s[i])
  {
    if |s| > 0 && IsSpace(s[0]) then TrimStart(s[1..]) else s
  }

  /** `s.trimEnd()`: the prefix left after dropping trailing whitespace. */
  function TrimEnd(s: string): (r: string)
    ensures |r| <= |s| && r == s[..|r|]
    ensures r == [] || !IsSpace(r[|r| - 1])
    ensures forall i :: |r| <= i < |s| ==> IsSpace(s[i])
  {
    if |s| > 0 && IsSpace(s[|s| - 1]) then TrimEnd(s[..|s| - 1]) else s
  }

  /** `s.trim()`: the empty string exactly when `s` is blank, otherwise a substring
      that starts and ends with a non-whitespace character. */
  function Trim(s: string): (r: string)
    ensures |r| <= |s|
    ensures r == [] <==> Blank(s)
    ensures r != [] ==> !IsSpace(r[0]) && !IsSpace(r[|r| - 1])
  {
    TrimEnd(TrimStart(s))
  }

  /** `s.replace(/\s/g, '')`: `s` with every whitespace character removed, order kept. */
  function StripSpaces(s: string): (r: string)
    ensures |r| <= |s|
    ensures forall i :: 0 <= i < |r| ==> !IsSpace(r[i]) && r[i] in s
  {
    if s == [] then []
    else (if IsSpace(s[0]) then [] else [s[0]]) + StripSpaces(s[1..])
  }

  /** ASCII lower-casing of one character. */
  function LowerChar(c: char): char {
    if 'A' <= c <= 'Z' then (c as int + 32) as char else c
  }

  /** `s.toLowerCase()` restricted to ASCII letters. */
  function ToLower(s: string): (r: string)
    ensures |r| == |s|
    ensures forall i :: 0 <= i < |s| ==> r[i] == LowerChar(s[i])
  {
    seq(|s|, i requires 0 <= i < |s| => LowerChar(s[i]))
  }

  /** ASCII upper-casing of one character. */
  function UpperChar(c: char): char {
    if 'a' <= c <= 'z' then (c as int - 32) as char else c
  }

  /** `s.toUpperCase()` restricted to ASCII letters. */
  function ToUpper(s: string): (r: string)
    ensures |r| == |s|
    ensures forall i :: 0 <= i < |s| ==> r[i] == UpperChar(s[i])
  {
    seq(|s|, i requires 0 <= i < |s| => UpperChar(s[i]))
  }

  /** Concatenation is associative; stated once so that long proofs need not
      rediscover it. */
  lemma AppendAssoc<T>(a: seq<T>, b: seq<T>, c: seq<T>)
    ensures (a + b) + c == a + (b + c)
  {
  }

  /** The empty sequence is a right unit of concatenation. */
  lemma AppendEmpty<T>(a: seq<T>)
    ensures a + [] == a
  {
  }

  /** Upper-casing works character by character, so it distributes over
      concatenation. */
  lemma ToUpperConcat(a: string, b: string)
    ensures ToUpper(a + b) == ToUpper(a) + ToUpper(b)
  {
    var l, r := ToUpper(a + b), ToUpper(a) + ToUpper(b);
    forall i | 0 <= i < |l|
      ensures l[i] == r[i]
    {
      if i < |a| {
        assert (a + b)[i] == a[i];
      } else {
        assert (a + b)[i] == b[i - |a|];
      }
    }
  }

  /** `s.includes(sub)`: `sub` is a prefix of some suffix of `s`. */
  predicate Includes(s: string, sub: string) {
    sub <= s || (s != [] && Includes(s[1..], sub))
  }

  /** `s.split(sep)[0]`: the part of `s` before the first `sep`, or all of `s`. */
  function BeforeFirst(s: string, sep: char): (r: string)
    ensures |r| <= |s| && r == s[..|r|]
    ensures sep !in r
    ensures |r| < |s| ==> s[|r|] == sep
  {
    if s == [] || s[0] == sep then [] else [s[0]] + BeforeFirst(s[1..], sep)
  }

  // ---------------------------------------------------------------------------
  // Stepping round a ring: `(index + 1) % length` with `indexOf`'s -1 for "absent"

  /** The next position round a ring of n, where -1 ("not found") counts as just
      before the first. */
  function NextIndex(i: int, n: nat): (j: nat)
    requires n >= 1 && -1 <= i < n
    ensures j < n
  {
    if i + 1 == n then 0 else i + 1
  }

  /** NextIndex is `(currentIndex + 1) % length` for every index it accepts. */
  lemma NextIndexIsModulo(i: int, n: nat)
    requires n >= 1 && -1 <= i < n
    ensures NextIndex(i, n) == (i + 1) % n
  {
  }

  /** The position reached from position i after k steps round a ring of n. */
  function PositionAfter(i: nat, n: nat, k: nat): (p: nat)
    requires i < n
    ensures p < n
    decreases k
  {
    if k == 0 then i else NextIndex(PositionAfter(i, n, k - 1), n)
  }

  /** Steps that do not pass the end of the ring just move forward. */
  lemma {:induction false} PositionForward(i: nat, n: nat, k: nat)
    requires i + k < n
    ensures PositionAfter(i, n, k) == i + k
    decreases k
  {
    if k > 0 {
      PositionForward(i, n, k - 1);
    }
  }

  /** n steps round a ring of n come back to the start: n - 1 - i steps reach the
      last position, one more wraps to the first, and i more return to i. */
  lemma {:induction false} PositionFullCircle(i: nat, n: nat)
    requires i < n
    ensures PositionAfter(i, n, n) == i
  {
    PositionForward(i, n, n - 1 - i);
    PositionAfterAdd(i, n, n - i, i);
    PositionForward(0, n, i);
  }

  /** k steps and then j more are k + j steps. */
  lemma {:induction false} PositionAfterAdd(i: nat, n: nat, k: nat, j: nat)
    requires i < n
    ensures PositionAfter(PositionAfter(i, n, k), n, j) == PositionAfter(i, n, k + j)
    decreases j
  {
    if j > 0 {
      PositionAfterAdd(i, n, k, j - 1);
    }
  }
}
