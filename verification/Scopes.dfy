/**
 * From issuing a token to checking it at the proxy: the scopes AuthController.issueToken grants, and
 * the consume and scope checks a request with that token meets.
 */
module Scopes {
  import opened Prelude
  import opened Registry

  /** The claims of a validated token that authorisation reads; absent claims are empty. */
  datatype Claims = Claims(scopes: seq<string>, permissions: seq<string>)

  function MergeCallerScopes(c: Claims): seq<string> {
    c.scopes + c.permissions
  }

  /** The required scopes the caller lacks, in the order required. */
  function CheckScopes(user: Option<Claims>, required: seq<string>): (missing: seq<string>)
    ensures forall x :: x in missing <==> x in required && (user.None? || x !in MergeCallerScopes(user.value))
  {
    if required == [] then []
    else
      var has := user.Some? && required[0] in MergeCallerScopes(user.value);
      if has then CheckScopes(user, required[1..]) else [required[0]] + CheckScopes(user, required[1..])
  }

  predicate CanConsume(s: Services, source: string, target: string) {
    source in s && target in s[source].manifest.consumes
  }

  function RequiredScopes(s: Services, id: string): seq<string> {
    if id in s then s[id].manifest.requiredScopes else []
  }

  /** Checking is scope by scope, in the order required, a scope required twice being missing twice. */
  lemma {:induction false} CheckInOrder(user: Option<Claims>, a: seq<string>, b: seq<string>)
    ensures CheckScopes(user, a + b) == CheckScopes(user, a) + CheckScopes(user, b)
  {
    if a == [] {
      assert a + b == b;
    } else {
      assert (a + b)[1..] == a[1..] + b;
      CheckInOrder(user, a[1..], b);
    }
  }

  lemma CheckOne(user: Option<Claims>, x: string)
    ensures CheckScopes(user, [x]) ==
      if user.Some? && (x in user.value.scopes || x in user.value.permissions) then [] else [x]
  {
  }

  /** `x` is a scope the service's token is entitled to: its own, or one of a registered service it consumes. */
  ghost predicate Entitled(service: Entry, s: Services, x: string) {
    || x in service.manifest.requiredScopes
    || exists t | t in service.manifest.consumes :: t in s && x in s[t].manifest.requiredScopes
  }

  /** The members of s, each where it first occurs. */
  function Distinct(s: seq<string>): (d: seq<string>)
    ensures forall x :: x in d <==> x in s
    ensures forall i, j | 0 <= i < j < |d| :: d[i] != d[j]
  {
    if s == [] then []
    else
      var d := Distinct(s[..|s| - 1]);
      var x := s[|s| - 1];
      assert s == s[..|s| - 1] + [x];
      if x in d then d else d + [x]
  }

  /** What the registered services of `consumes` require, one after the other. */
  function ConsumedScopes(consumes: seq<string>, s: Services): seq<string> {
    if consumes == [] then []
    else ConsumedScopes(consumes[..|consumes| - 1], s) + RequiredScopes(s, consumes[|consumes| - 1])
  }

  datatype IssueError = UnknownService | InvalidCredentials

  /**
   * The scope computation of issueToken. `service` is looked up before the secret is validated, the
   * consumed targets after it, in the registry `s` of that moment.
   */
  method IssueScopes(service: Option<Entry>, secretValid: bool, s: Services)
    returns (r: Result<seq<string>, IssueError>)
    ensures r.Err? <==> service.None? || !secretValid
    ensures r.Err? ==> r.error == if service.None? then UnknownService else InvalidCredentials
    ensures r.Ok? ==>
      && (forall x :: x in r.value <==> Entitled(service.value, s, x))
      && (forall i, j | 0 <= i < j < |r.value| :: r.value[i] != r.value[j])
      && Distinct(service.value.manifest.requiredScopes) <= r.value
      && r.value ==
           Distinct(service.value.manifest.requiredScopes + ConsumedScopes(service.value.manifest.consumes, s))
  {
    if service.None? {
      return Err(UnknownService);
    }
    if !secretValid {
      return Err(InvalidCredentials);
    }
    var ownScopes := service.value.manifest.requiredScopes;
    var consumes := service.value.manifest.consumes;
    var consumableScopes: seq<string> := [];
    for i := 0 to |consumes|
      invariant forall x :: x in consumableScopes <==>
        exists k | 0 <= k < i :: consumes[k] in s && x in s[consumes[k]].manifest.requiredScopes
      invariant consumableScopes == ConsumedScopes(consumes[..i], s)
    {
      var target := consumes[i];
      assert consumes[..i + 1][..i] == consumes[..i];
      if target in s {
        consumableScopes := consumableScopes + s[target].manifest.requiredScopes;
      }
    }
    assert consumes[..|consumes|] == consumes;
    var all := ownScopes + consumableScopes;
    DistinctPrefix(ownScopes, consumableScopes);
    forall x ensures x in all <==> Entitled(service.value, s, x) {
      if k :| 0 <= k < |consumes| && consumes[k] in s && x in s[consumes[k]].manifest.requiredScopes {
        assert consumes[k] in consumes;
      }
    }
    r := Ok(Distinct(all));
  }

  lemma {:induction false} DistinctPrefix(a: seq<string>, b: seq<string>)
    ensures Distinct(a) <= Distinct(a + b)
  {
    if b == [] {
      assert a + b == a;
    } else {
      DistinctPrefix(a, b[..|b| - 1]);
      assert (a + b)[..|a + b| - 1] == a + b[..|b| - 1];
    }
  }

  /**
   * Issuance completeness: a token with the scopes issued to `service` from registry `s` passes the
   * proxy's consume and scope checks in a later registry `s'` for every registered service it could
   * consume at issue, as long as its consumes still lists it and its required scopes have not grown.
   */
  lemma IssuedTokenPasses(service: Entry, s: Services, s': Services, tribe: string, target: string, claims: Claims)
    requires forall x | Entitled(service, s, x) :: x in claims.scopes
    requires target in s && target in service.manifest.consumes
    requires tribe in s' && target in s'[tribe].manifest.consumes
    requires target in s' ==>
      forall x | x in s'[target].manifest.requiredScopes :: x in s[target].manifest.requiredScopes
    ensures CanConsume(s', tribe, target)
    ensures CheckScopes(Some(claims), RequiredScopes(s', target)) == []
  {
    var missing := CheckScopes(Some(claims), RequiredScopes(s', target));
    if missing != [] {
      var x := missing[0];
      assert x in missing;
      assert x in s'[target].manifest.requiredScopes && x in s[target].manifest.requiredScopes;
      assert Entitled(service, s, x);
      assert false;
    }
  }

  /** A token of just the issued scopes fails exactly where one outside them and its permissions is now required. */
  lemma RefusedExactlyForOtherScopes(service: Entry, s: Services, s': Services, target: string, claims: Claims)
    requires forall x :: x in claims.scopes <==> Entitled(service, s, x)
    ensures CheckScopes(Some(claims), RequiredScopes(s', target)) != []
            <==> exists x | x in RequiredScopes(s', target) :: !Entitled(service, s, x) && x !in claims.permissions
  {
    var missing := CheckScopes(Some(claims), RequiredScopes(s', target));
    if missing != [] {
      assert missing[0] in missing;
    }
    if x :| x in RequiredScopes(s', target) && !Entitled(service, s, x) && x !in claims.permissions {
      assert x in missing;
    }
  }
}
