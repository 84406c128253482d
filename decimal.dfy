/** Cell ids cross the API boundary as decimal strings: `id.0.to_string()`
 *  renders one (s2.rs:302) and `id.parse::<u64>()` reads one back
 *  (s2.rs:310). This module is that printer and parser. */
module Decimal {
  import opened S2Library

  const U64Limit: nat := 0x1_0000_0000_0000_0000

  predicate IsDigit(ch: char) {
    '0' <= ch <= '9'
  }

  predicate AllDigits(s: string) {
    forall i :: 0 <= i < |s| ==> IsDigit(s[i])
  }

  /** The form `to_string` produces: digits only, no leading zero except in "0". */
  predicate Canonical(s: string) {
    |s| >= 1 && AllDigits(s) && (s[0] == '0' ==> |s| == 1)
  }

  function DigitValue(ch: char): nat
    requires IsDigit(ch)
  {
    ch as int - '0' as int
  }

  function DigitChar(d: nat): (ch: char)
    requires d < 10
    ensures IsDigit(ch) && DigitValue(ch) == d
  {
    ('0' as int + d) as char
  }

  /** The decimal rendering of a number, most significant digit first. */
  function Render(n: nat): (s: string)
    ensures Canonical(s)
    ensures s[0] == '0' <==> n == 0
    decreases n
  {
    if n < 10 then [DigitChar(n)] else Render(n / 10) + [DigitChar(n % 10)]
  }

  /** The number a string of digits denotes; leading zeros add nothing. */
  function Value(s: string): nat
    requires AllDigits(s)
  {
    if s == [] then 0 else Value(s[..|s| - 1]) * 10 + DigitValue(s[|s| - 1])
  }

  /** `str::parse::<u64>`: an optional single leading '+', then one or more
   *  decimal digits whose value fits in 64 bits; anything else is an error. */
  function Parse(s: string): (r: Option<u64>)
  {
    if |s| == 0 then None
    else if s[0] == '+' then (if |s| == 1 then None else ParseDigits(s[1..]))
    else ParseDigits(s)
  }

  function ParseDigits(s: string): Option<u64>
    requires |s| >= 1
  {
    if AllDigits(s) && Value(s) < U64Limit then Some(Value(s) as u64) else None
  }

  lemma {:induction false} ValueOfRender(n: nat)
    ensures Value(Render(n)) == n
    decreases n
  {
    var s := Render(n);
    if n >= 10 {
      ValueOfRender(n / 10);
      assert s[..|s| - 1] == Render(n / 10);
    }
  }

  /** Rendering an id and parsing it back gives the same id. */
  lemma ParseRender(id: u64)
    ensures Parse(Render(id as nat)) == Some(id)
  {
    ValueOfRender(id as nat);
  }

  /** Conversely, parsing a canonical string and rendering the result gives
   *  the string back: on canonical strings the two are inverse. */
  lemma {:induction false} RenderValue(s: string)
    requires Canonical(s)
    ensures Render(Value(s)) == s
    decreases |s|
  {
    if |s| > 1 {
      var init := s[..|s| - 1];
      assert Canonical(init);
      LeadingDigitBound(init);
      RenderValue(init);
      assert Value(s) / 10 == Value(init);
      assert Value(s) % 10 == DigitValue(s[|s| - 1]);
      assert DigitChar(DigitValue(s[|s| - 1])) == s[|s| - 1];
      assert s == init + [s[|s| - 1]];
    } else {
      assert DigitChar(DigitValue(s[0])) == s[0];
    }
  }

  lemma {:induction false} LeadingDigitBound(s: string)
    requires |s| >= 1 && AllDigits(s) && s[0] != '0'
    ensures Value(s) >= 1
    decreases |s|
  {
    if |s| > 1 {
      LeadingDigitBound(s[..|s| - 1]);
    }
  }

  lemma ParseCanonical(s: string, id: u64)
    requires Canonical(s) && Parse(s) == Some(id)
    ensures Render(id as nat) == s
  {
    RenderValue(s);
  }

  lemma {:induction false} ValueLeadingZero(s: string)
    requires AllDigits(s)
    ensures AllDigits("0" + s) && Value("0" + s) == Value(s)
    decreases |s|
  {
    if s != [] {
      var init := s[..|s| - 1];
      ValueLeadingZero(init);
      assert ("0" + s)[..|"0" + s| - 1] == "0" + init;
    }
  }

  /** The parser is more lenient than the printer: a leading '+' and leading
   *  zeros are accepted, so different strings can name the same id. */
  lemma ParseLenient(id: u64)
    ensures Parse("+" + Render(id as nat)) == Some(id)
    ensures Parse("0" + Render(id as nat)) == Some(id)
  {
    var s := Render(id as nat);
    ValueOfRender(id as nat);
    ValueLeadingZero(s);
    assert ("+" + s)[1..] == s;
  }

  /** Numbers beyond 64 bits are rejected rather than wrapped. */
  lemma ParseOverflow(n: nat)
    requires n >= U64Limit
    ensures Parse(Render(n)) == None
  {
    ValueOfRender(n);
  }

  /** The empty string, a lone '+' and any string holding a character other
   *  than a digit (after an optional leading '+') do not parse. */
  lemma ParseRejects(s: string)
    ensures |s| == 0 ==> Parse(s) == None
    ensures s == "+" ==> Parse(s) == None
    ensures (exists i :: 1 <= i < |s| && !IsDigit(s[i])) ==> Parse(s) == None
    ensures |s| >= 1 && s[0] != '+' && !IsDigit(s[0]) ==> Parse(s) == None
  {
    if exists i :: 1 <= i < |s| && !IsDigit(s[i]) {
      var i :| 1 <= i < |s| && !IsDigit(s[i]);
      if s[0] == '+' {
        assert s[1..][i - 1] == s[i];
      }
    }
  }
}
