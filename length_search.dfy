/** Discovery of the stored password's length by a linear scan over 1..100. */
module LengthSearch {
  import opened Wrappers
  import opened Text
  import opened Oracle

  /** The largest length the scan asks about. */
  const MaxLength: nat := 100

  /** The server's verdict on "the stored password has `n` characters". */
  predicate LengthHit(server: Server, n: nat)
  {
    Verdict(server, LengthPayload(n))
  }

  /** The first length in `from..MaxLength` the server confirms, if any. */
  function FirstLengthFrom(server: Server, from: nat): (r: Option<nat>)
    ensures r.Some? ==> from <= r.value <= MaxLength && LengthHit(server, r.value)
    ensures r.Some? ==> forall k :: from <= k < r.value ==> !LengthHit(server, k)
    ensures r.None? <==> forall k :: from <= k <= MaxLength ==> !LengthHit(server, k)
    decreases MaxLength + 1 - from
  {
    if from > MaxLength then None
    else if LengthHit(server, from) then Some(from)
    else FirstLengthFrom(server, from + 1)
  }

  /** The length the script settles on: the smallest confirmed one in 1..100. */
  function ConfirmedLength(server: Server): Option<nat>
  {
    FirstLengthFrom(server, 1)
  }

  /** Appending the next number keeps a list counting up from 1. */
  lemma CountingOn(asked: seq<nat>, next: nat)
    requires next == |asked| + 1
    requires forall k :: 0 <= k < |asked| ==> asked[k] == k + 1
    ensures forall k :: 0 <= k < |asked + [next]| ==> (asked + [next])[k] == k + 1
  {
  }

  /**
   * Asks n = 1, 2, ..., 100 in turn and stops at the first true verdict;
   * gives `None` when all hundred verdicts are false. `asked` lists the
   * lengths queried, in the order the requests were sent.
   */
  method FindPasswordLength(server: Server) returns (r: Option<nat>, asked: seq<nat>)
    ensures r.Some? ==> 1 <= r.value <= MaxLength && LengthHit(server, r.value)
    ensures r.Some? ==> forall k :: 1 <= k < r.value ==> !LengthHit(server, k)
    ensures r.None? <==> forall k :: 1 <= k <= MaxLength ==> !LengthHit(server, k)
    ensures r == ConfirmedLength(server)
    ensures |asked| == if r.Some? then r.value else MaxLength
    ensures forall k :: 0 <= k < |asked| ==> asked[k] == k + 1
  {
    asked := [];
    var length: nat := 1;
    while length <= MaxLength
      invariant 1 <= length <= MaxLength + 1
      invariant forall k :: 1 <= k < length ==> !LengthHit(server, k)
      invariant FirstLengthFrom(server, length) == ConfirmedLength(server)
      invariant |asked| == length - 1
      invariant forall k :: 0 <= k < |asked| ==> asked[k] == k + 1
    {
      var payload := LengthPayload(length);
      CountingOn(asked, length);
      asked := asked + [length];
      var response := server(Form(payload, ProbePassword));
      if ConditionTrue(response) {
        return Some(length), asked;
      }
      length := length + 1;
    }
    return None, asked;
  }

  /** A server that answers the length question truthfully for a password of length `len`. */
  ghost predicate ExactLengthServer(server: Server, len: nat)
  {
    forall n: nat :: LengthHit(server, n) <==> n == len
  }

  /**
   * Under a truthful server the scan finds the true length exactly when
   * it lies in 1..100, and reports none otherwise.
   */
  lemma {:induction false} ExactLengthFound(server: Server, len: nat)
    requires ExactLengthServer(server, len)
    ensures ConfirmedLength(server) == if 1 <= len <= MaxLength then Some(len) else None
  {
    var r := ConfirmedLength(server);
    if 1 <= len <= MaxLength {
      assert LengthHit(server, len);
      assert r.Some?;
      assert LengthHit(server, r.value);
    } else {
      assert forall k :: 1 <= k <= MaxLength ==> !LengthHit(server, k);
    }
  }
}
