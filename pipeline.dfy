/**
 * The script's top level: find the length, extract that many characters,
 * and log in with the result only when no position is the placeholder.
 */
module Pipeline {
  import opened Text
  import opened Oracle
  import opened LengthSearch
  import opened Extraction

  /** How a run ends. */
  datatype Outcome =
    | LengthNotFound
    | Partial(length: nat, flag: string)
    | Complete(length: nat, flag: string, verified: bool)

  /** Logs in as the administrator with `extracted` and reports whether the greeting came back. */
  method VerifyExtraction(server: Server, extracted: string) returns (ok: bool)
    ensures ok <==> LoginGreets(server(Form(Admin, extracted)))
  {
    var response := server(Form(Admin, extracted));
    ok := Contains(response.text, Greeting);
  }

  /**
   * The outcome a run reaches against `server`: no length when none of
   * 1..100 is confirmed; otherwise the first confirmed length and the string
   * recorded for it, partial when that string holds the placeholder, and
   * else complete with the login's verdict on it.
   */
  function Expected(server: Server): (o: Outcome)
    ensures o.LengthNotFound? <==> forall k :: 1 <= k <= MaxLength ==> !LengthHit(server, k)
    ensures !o.LengthNotFound? ==>
      1 <= o.length <= MaxLength && LengthHit(server, o.length) && o.flag == Recovered(server, o.length)
    ensures !o.LengthNotFound? ==> forall k :: 1 <= k < o.length ==> !LengthHit(server, k)
    ensures o.Partial? <==> !o.LengthNotFound? && Placeholder in o.flag
    ensures o.Complete? ==> (o.verified <==> LoginGreets(server(Form(Admin, o.flag))))
  {
    match ConfirmedLength(server)
    case None => LengthNotFound
    case Some(n) =>
      var flag := Recovered(server, n);
      if Placeholder in flag then Partial(n, flag)
      else Complete(n, flag, LoginGreets(server(Form(Admin, flag))))
  }

  /**
   * One run of the script: extraction happens only once a length is found,
   * verification only when the extracted string has no placeholder.
   * `asked` lists the length queries sent, `extracted` says whether
   * extraction ran, and `logins` lists the passwords tried at the login.
   */
  method Run(server: Server) returns (o: Outcome, asked: seq<nat>, extracted: bool, logins: seq<string>)
    ensures o.LengthNotFound? <==> forall k :: 1 <= k <= MaxLength ==> !LengthHit(server, k)
    ensures !o.LengthNotFound? ==> 1 <= o.length <= MaxLength && |o.flag| == o.length
    ensures !o.LengthNotFound? ==> LengthHit(server, o.length) && forall k :: 1 <= k < o.length ==> !LengthHit(server, k)
    ensures o.Partial? ==> Placeholder in o.flag
    ensures o.Complete? ==> Placeholder !in o.flag
    ensures o == Expected(server)
    ensures |asked| == if o.LengthNotFound? then MaxLength else o.length
    ensures forall k :: 0 <= k < |asked| ==> asked[k] == k + 1
    ensures extracted <==> !o.LengthNotFound?
    ensures logins == if o.Complete? then [o.flag] else []
  {
    var passwordLength;
    passwordLength, asked := FindPasswordLength(server);
    extracted := false;
    logins := [];
    if passwordLength.Some? {
      var flag, _ := ExtractFlag(server, passwordLength.value);
      extracted := true;
      if Placeholder in flag {
        o := Partial(passwordLength.value, flag);
      } else {
        var verified := VerifyExtraction(server, flag);
        logins := logins + [flag];
        o := Complete(passwordLength.value, flag, verified);
      }
    } else {
      o := LengthNotFound;
    }
    assert o == Expected(server);
  }

  /** A login page that greets the administrator exactly for the stored `password`. */
  ghost predicate HonestLoginServer(server: Server, password: string)
  {
    forall p: string :: LoginGreets(server(Form(Admin, p))) <==> p == password
  }

  /**
   * End to end under a truthful server whose stored password has 1..100
   * alphabet characters: the run recovers the password and the login
   * confirms it, unless the password itself contains a `'?'`, in which
   * case the run stops at a partial result and never logs in.
   */
  lemma ExactServerRun(server: Server, password: string)
    requires ExactLengthServer(server, |password|)
    requires ExactCharServer(server, password)
    requires HonestLoginServer(server, password)
    requires 1 <= |password| <= MaxLength
    requires forall i :: 0 <= i < |password| ==> password[i] in Alphabet
    ensures Expected(server) ==
      if Placeholder in password then Partial(|password|, password)
      else Complete(|password|, password, true)
  {
    ExactLengthFound(server, |password|);
    ExactServerRecovers(server, password);
  }

  /** The scenario of a stored password "letme99i": it is recovered and verified. */
  lemma LetMe99iRun(server: Server)
    requires ExactLengthServer(server, 8)
    requires ExactCharServer(server, "letme99i")
    requires HonestLoginServer(server, "letme99i")
    ensures Expected(server) == Complete(8, "letme99i", true)
  {
    var password := "letme99i";
    assert forall i :: 0 <= i < |password| ==> password[i] in Lowercase + Digits;
    assert Placeholder !in password;
    ExactServerRun(server, password);
  }

  /** Whether the condition an injected username carries holds for the stored `password`. */
  ghost predicate TrueCondition(password: string, username: string)
  {
    || username == LengthPayload(|password|)
    || exists position: nat, literal: string ::
         && username == CharPayload(position, literal)
         && 1 <= position <= |password|
         && Unescape(literal) == [password[position - 1]]
  }

  /**
   * A login page that greets only the stored `password`, answers every
   * injected condition that holds with a plain 200 page and every other
   * request with the "Invalid username" page.
   */
  ghost function TruthfulServer(password: string): Server
  {
    (f: Form) =>
      if f.username == Admin && f.password == password then Response(200, Greeting)
      else if f.username != Admin && TrueCondition(password, f.username) then Response(200, "")
      else Response(200, InvalidMarker)
  }

  /** The three truthfulness assumptions of `ExactServerRun` can all hold at once. */
  lemma TruthfulServerExists(password: string) returns (server: Server)
    ensures ExactLengthServer(server, |password|)
    ensures ExactCharServer(server, password)
    ensures HonestLoginServer(server, password)
  {
    server := TruthfulServer(password);
    TruthfulOnLength(password);
    TruthfulOnCharacters(password);
    TruthfulOnLogin(password);
  }

  lemma TruthfulOnLength(password: string)
    ensures ExactLengthServer(TruthfulServer(password), |password|)
  {
    var server := TruthfulServer(password);
    ConditionTrueCases(Response(200, InvalidMarker), "", "");
    assert InvalidMarker == "" + InvalidMarker + "";
    assert ConditionTrue(Response(200, ""));
    forall n: nat ensures LengthHit(server, n) <==> n == |password| {
      LengthPayloadInjective(n, |password|);
      forall position: nat, literal: string ensures LengthPayload(n) != CharPayload(position, literal) {
        PayloadKindsDiffer(n, position, literal);
      }
    }
  }

  lemma TruthfulOnCharacters(password: string)
    ensures ExactCharServer(TruthfulServer(password), password)
  {
    var server := TruthfulServer(password);
    ConditionTrueCases(Response(200, InvalidMarker), "", "");
    assert InvalidMarker == "" + InvalidMarker + "";
    assert ConditionTrue(Response(200, ""));
    forall position: nat, literal: string
      ensures Verdict(server, CharPayload(position, literal)) <==>
        1 <= position <= |password| && Unescape(literal) == [password[position - 1]]
    {
      PayloadKindsDiffer(|password|, position, literal);
      forall p: nat, l: string | CharPayload(position, literal) == CharPayload(p, l)
        ensures p == position && l == literal
      {
        CharPayloadInjective(position, literal, p, l);
      }
    }
  }

  lemma TruthfulOnLogin(password: string)
    ensures HonestLoginServer(TruthfulServer(password), password)
  {
    var server := TruthfulServer(password);
    forall p: string ensures LoginGreets(server(Form(Admin, p))) <==> p == password {
      GreetingAnywhere(200, "", "");
      assert Greeting == "" + Greeting + "";
      GreetingNotInMarker();
    }
  }

  /** The "Invalid username" page is never mistaken for the greeting. */
  lemma GreetingNotInMarker()
    ensures !LoginGreets(Response(200, InvalidMarker))
  {
    var text, pat := InvalidMarker, Greeting;
    assert |text| == 16 && |pat| == 13 && pat[0] == 'H';
    assert text[0] != 'H' && text[1] != 'H' && text[2] != 'H' && text[3] != 'H';
    FirstCharAbsent(text, pat, 4);
  }
}
