/** Decimal rendering of row ids and revisions, and its inverse. */
module Decimal {
  import opened Wrappers

  const UINT64_LIMIT: nat := 0x1_0000_0000_0000_0000

  predicate IsDigit(c: char) {
    '0' <= c <= '9'
  }

  function Digit(d: nat): char
    requires d < 10
  {
    '0' + d as char
  }

  /** `fmt.Sprint` of an unsigned integer. */
  function Render(n: nat): (s: string)
    ensures s != "" && forall i :: 0 <= i < |s| ==> IsDigit(s[i])
  {
    if n < 10 then [Digit(n)] else Render(n / 10) + [Digit(n % 10)]
  }

  function DigitsValue(s: string): nat
    requires forall i :: 0 <= i < |s| ==> IsDigit(s[i])
  {
    if s == "" then 0
    else assert IsDigit(s[|s| - 1]); 10 * DigitsValue(s[..|s| - 1]) + (s[|s| - 1] as int - '0' as int)
  }

  /** `strconv.ParseUint(raw, 10, 64)`: decimal digits only, within 64 bits. */
  function ParseUint(raw: string): Option<nat> {
    if raw == "" || exists i :: 0 <= i < |raw| && !IsDigit(raw[i]) then None
    else if DigitsValue(raw) >= UINT64_LIMIT then None
    else Some(DigitsValue(raw))
  }

  /** Accepted are exactly the texts of one digit or more, and nothing else, whose value fits 64 bits. */
  lemma ParseUintExactly(raw: string)
    ensures ParseUint(raw).Some?
            <==> raw != "" && (forall i :: 0 <= i < |raw| ==> '0' <= raw[i] <= '9')
                 && DigitsValue(raw) < 0x1_0000_0000_0000_0000
    ensures ParseUint(raw).Some? ==> ParseUint(raw).value == DigitsValue(raw)
  {
  }

  lemma {:induction false} DigitsValueOfRender(n: nat)
    ensures DigitsValue(Render(n)) == n
  {
    if n >= 10 {
      DigitsValueOfRender(n / 10);
      assert Render(n)[..|Render(n)| - 1] == Render(n / 10);
    } else {
      assert Render(n)[..0] == "";
    }
  }

  /** A rendered id parses back to itself exactly when it fits 64 bits. */
  lemma ParseRender(n: nat)
    ensures ParseUint(Render(n)) == if n < UINT64_LIMIT then Some(n) else None
  {
    DigitsValueOfRender(n);
  }

  lemma RenderInjective(m: nat, n: nat)
    ensures Render(m) == Render(n) ==> m == n
  {
    DigitsValueOfRender(m);
    DigitsValueOfRender(n);
  }

  /** The decimals a revision can be rendered as: no sign, no leading zero. */
  predicate Canonical(s: string) {
    s != "" && (forall i :: 0 <= i < |s| ==> IsDigit(s[i])) && (|s| > 1 ==> s[0] != '0')
  }

  lemma {:induction false} RenderIsCanonical(n: nat)
    ensures Canonical(Render(n)) && (n > 0 ==> Render(n)[0] != '0')
  {
    if n >= 10 {
      RenderIsCanonical(n / 10);
    }
  }

  /** Exactly the canonical decimals are rendered from a number. */
  lemma {:induction false} RenderValue(s: string)
    requires Canonical(s)
    ensures Render(DigitsValue(s)) == s && (s[0] != '0' ==> DigitsValue(s) > 0)
  {
    var n := |s| - 1;
    assert IsDigit(s[n]) && s == s[..n] + [s[n]];
    if n > 0 {
      RenderValue(s[..n]);
    }
  }
}
