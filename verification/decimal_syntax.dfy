/**
 * The textual form of a decimal that the money code accepts: the pattern
 * `^-?\d+(?:\.\d+)?$` of app/Support/Money.php, as a sign plus two digit
 * sequences.
 */
module DecimalSyntax {
  import opened Wrappers
  import opened Digits

  /** An optional minus sign, integer digits, and fractional digits (empty when there is no point). */
  datatype Numeral = Numeral(negative: bool, whole: string, fraction: string)

  predicate WellFormed(d: Numeral) {
    |d.whole| > 0 && AllDigits(d.whole) && AllDigits(d.fraction)
  }

  function Render(d: Numeral): string {
    (if d.negative then "-" else "") + d.whole + (if |d.fraction| > 0 then "." + d.fraction else "")
  }

  /** Matching `^-?\d+(?:\.\d+)?$` against `s`, keeping the parts. */
  function Parse(s: string): (r: Option<Numeral>)
    ensures r.Some? ==> WellFormed(r.value)
  {
    if |s| > 0 && s[0] == '-' then ParseDigits(s[1..], true) else ParseDigits(s, false)
  }

  /** `\d+(?:\.\d+)?` against the text after the optional sign. */
  function ParseDigits(body: string, negative: bool): (r: Option<Numeral>)
    ensures r.Some? ==> WellFormed(r.value) && r.value.negative == negative
  {
    var dot := FirstDot(body);
    if dot == |body| then
      if |body| > 0 && AllDigits(body) then Some(Numeral(negative, body, "")) else None
    else
      var whole, fraction := body[..dot], body[dot + 1..];
      if |whole| > 0 && |fraction| > 0 && AllDigits(whole) && AllDigits(fraction) then
        Some(Numeral(negative, whole, fraction))
      else
        None
  }

  function FirstDot(s: string): (i: nat)
    ensures i <= |s|
    ensures i < |s| ==> s[i] == '.'
    ensures forall j :: 0 <= j < i ==> s[j] != '.'
  {
    if |s| == 0 || s[0] == '.' then 0 else 1 + FirstDot(s[1..])
  }

  /** `^\d+(?:\.\d+)?$`: the same pattern without the sign. */
  predicate MatchesUnsigned(s: string) {
    Parse(s).Some? && !Parse(s).value.negative
  }

  /** Parsing a rendered numeral gives it back. */
  lemma ParseRender(d: Numeral)
    requires WellFormed(d)
    ensures Parse(Render(d)) == Some(d)
  {
    var rest := if |d.fraction| > 0 then "." + d.fraction else "";
    var body := d.whole + rest;
    ParseDigitsRender(d.whole, d.fraction, d.negative);
    assert IsDigit(d.whole[0]) && body[0] == d.whole[0];
    if d.negative {
      assert Render(d) == "-" + body;
      assert Render(d)[1..] == body;
    } else {
      assert Render(d) == body;
    }
  }

  lemma ParseDigitsRender(whole: string, fraction: string, negative: bool)
    requires |whole| > 0 && AllDigits(whole) && AllDigits(fraction)
    ensures ParseDigits(whole + (if |fraction| > 0 then "." + fraction else ""), negative)
         == Some(Numeral(negative, whole, fraction))
  {
    var rest := if |fraction| > 0 then "." + fraction else "";
    var body := whole + rest;
    FirstDotAfterDigits(whole, rest);
    if |fraction| > 0 {
      assert body[..|whole|] == whole;
      assert body[|whole| + 1..] == fraction;
    } else {
      assert body == whole;
    }
  }

  lemma {:induction false} FirstDotAfterDigits(digits: string, rest: string)
    requires AllDigits(digits)
    requires |rest| == 0 || rest[0] == '.'
    ensures FirstDot(digits + rest) == |digits|
  {
    if |digits| > 0 {
      assert (digits + rest)[0] == digits[0];
      assert (digits + rest)[1..] == digits[1..] + rest;
      FirstDotAfterDigits(digits[1..], rest);
    } else {
      assert digits + rest == rest;
    }
  }

  /** Every string the pattern accepts is the rendering of what it parses to. */
  lemma RenderParse(s: string)
    requires Parse(s).Some?
    ensures Render(Parse(s).value) == s
  {
    var d := Parse(s).value;
    if |s| > 0 && s[0] == '-' {
      RenderParseDigits(s[1..], true, d);
      assert s == "-" + s[1..];
      SignedRender(d, s[1..]);
    } else {
      RenderParseDigits(s, false, d);
      SignedRender(d, s);
    }
  }

  lemma SignedRender(d: Numeral, body: string)
    requires d.whole + (if |d.fraction| > 0 then "." + d.fraction else "") == body
    ensures Render(d) == (if d.negative then "-" + body else body)
  {
    var tail := if |d.fraction| > 0 then "." + d.fraction else "";
    if d.negative {
      assert "-" + d.whole + tail == "-" + (d.whole + tail);
    } else {
      assert "" + d.whole + tail == d.whole + tail;
    }
  }

  lemma RenderParseDigits(body: string, negative: bool, d: Numeral)
    requires ParseDigits(body, negative) == Some(d)
    ensures d.whole + (if |d.fraction| > 0 then "." + d.fraction else "") == body
  {
    var dot := FirstDot(body);
    if dot < |body| {
      assert body == body[..dot] + "." + body[dot + 1..];
    }
  }

  /** The pattern holds of `s` exactly when `s` renders some well-formed numeral. */
  lemma ParseExact(s: string)
    ensures Parse(s).Some? <==> exists d :: WellFormed(d) && Render(d) == s
  {
    if Parse(s).Some? {
      RenderParse(s);
    }
    if d :| WellFormed(d) && Render(d) == s {
      ParseRender(d);
    }
  }
}
