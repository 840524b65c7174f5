/** Validation: keep the candidates the SMTP probe accepts, look each one up
    in the identity service, and score the name found against the query. */
module Validate {
  import opened Wrappers
  import opened Text
  import opened Probe
  import opened EditDistance

  /** The lookup's full name, stripped and lowered, against the query name
      as given. */
  function Score(fullName: string, name: string): (r: nat)
    ensures r == 0 <==> Lower(Strip(fullName)) == name
  {
    DistanceZeroIff(Lower(Strip(fullName)), name);
    Distance(Lower(Strip(fullName)), name)
  }

  /** The mail exchangers DNS gives for every address are non-empty names. */
  ghost predicate WellFormedMx(mx: string -> seq<string>) {
    forall e, k :: 0 <= k < |mx(e)| ==> mx(e)[k] != []
  }

  /** `validate_emails`: `mx` gives the mail exchangers of each address's
      domain, `net` the servers they name, and `lookup` the full name the
      identity service holds for an address, if any. */
  method ValidateEmails(name: string, emails: set<string>, mx: string -> seq<string>,
                        net: string -> Server, lookup: string -> Option<string>)
    returns (scores: map<string, nat>)
    requires WellFormedMx(mx)
    ensures forall e :: e in scores <==> e in emails && MxPasses(net, e, Senders, mx(e)) && lookup(e).Some?
    ensures forall e :: e in scores ==> scores[e] == Score(lookup(e).value, name)
  {
    var mxPassed: seq<string> := [];
    var todo := emails;
    while todo != {}
      invariant todo <= emails
      invariant forall e :: e in mxPassed <==> e in emails && e !in todo && MxPasses(net, e, Senders, mx(e))
      decreases todo
    {
      var email :| email in todo;
      todo := todo - {email};
      var passed, _ := MxCheck(email, mx(email), net);
      if passed {
        mxPassed := mxPassed + [email];
      }
    }
    scores := map[];
    for i := 0 to |mxPassed|
      invariant forall e :: e in scores <==> e in mxPassed[..i] && lookup(e).Some?
      invariant forall e :: e in scores ==> scores[e] == Score(lookup(e).value, name)
    {
      var email := mxPassed[i];
      assert mxPassed[..i + 1] == mxPassed[..i] + [email];
      var person := lookup(email);
      if person.Some? {
        var fullName := Lower(Strip(person.value));
        var score := Levenshtein(fullName, name);
        scores := scores[email := score];
      }
    }
    assert mxPassed[..|mxPassed|] == mxPassed;
  }

  /** The query is not lowered: a query holding an upper-case letter never
      scores zero, whatever the full name. */
  lemma UpperQueryNeverExact(fullName: string, name: string, i: int)
    requires 0 <= i < |name| && IsUpper(name[i])
    ensures Score(fullName, name) > 0
  {
    var n := Lower(Strip(fullName));
    if |n| > i {
      assert !IsUpper(n[i]);
    }
  }

  /** A score is bounded by the longer of the two names and is at least the
      difference of their lengths. */
  lemma ScoreBounds(fullName: string, name: string)
    ensures Score(fullName, name) <= if |Strip(fullName)| >= |name| then |Strip(fullName)| else |name|
    ensures Score(fullName, name) >= |Strip(fullName)| - |name|
    ensures Score(fullName, name) >= |name| - |Strip(fullName)|
  {
    DistanceBounds(Lower(Strip(fullName)), name);
  }
}
