/** Candidate filtering: drop strings that look like image names or hold a
    space, and lower-case the rest. */
module Filter {
  import opened Text

  /** The tests `_filter_emails` applies to the string as found, before any
      lowering: no `.png`, `.jpg` or `.jpeg` (case-sensitively) and no space. */
  predicate Admissible(e: string) {
    !Contains(e, ".png") && !Contains(e, ".jpg") && !Contains(e, ".jpeg") && ' ' !in e
  }

  /** The set the filter returns: the lower-case form of every admissible
      input. */
  function Filtered(emails: seq<string>): set<string> {
    set e | e in emails && Admissible(e) :: Lower(e)
  }

  /** One more input adds its lower-case form when it is admissible. */
  lemma FilteredSnoc(emails: seq<string>, e: string)
    ensures Filtered(emails + [e]) == Filtered(emails) + (if Admissible(e) then {Lower(e)} else {})
  {
    assert forall v :: v in emails + [e] <==> v in emails || v == e;
  }

  /** `_filter_emails`: one pass over the list, adding to a set. */
  method FilterEmails(emails: seq<string>) returns (ret: set<string>)
    ensures ret == Filtered(emails)
  {
    ret := {};
    for i := 0 to |emails|
      invariant ret == Filtered(emails[..i])
    {
      var email := emails[i];
      assert emails[..i + 1] == emails[..i] + [email];
      FilteredSnoc(emails[..i], email);
      if Contains(email, ".png") || Contains(email, ".jpg") || Contains(email, ".jpeg") {
        continue;
      }
      if ' ' in email {
        continue;
      }
      ret := ret + {Lower(email)};
    }
    assert emails[..|emails|] == emails;
  }

  /** Every output is lower-case, holds no space, and lowers some admissible
      input. */
  lemma {:induction false} FilteredOutputs(emails: seq<string>, x: string)
    requires x in Filtered(emails)
    ensures NoUpper(x) && ' ' !in x
    ensures exists e :: e in emails && Admissible(e) && Lower(e) == x
  {
    var e :| e in emails && Admissible(e) && Lower(e) == x;
    LowerKeepsSpace(e);
  }

  /** Every admissible input already in lower case comes out unchanged. */
  lemma {:induction false} FilterKeepsLowerInputs(emails: seq<string>, e: string)
    requires e in emails && Admissible(e) && NoUpper(e)
    ensures e in Filtered(emails)
  {
    LowerOfLower(e);
  }

  /** An input with an upper-case extension passes the case-sensitive test and
      leaves as a lower-case image name, which a second pass would drop: the
      filter is not idempotent. `stem.PNG` with a stem free of `p`, `j` and
      spaces is such an input, `a.PNG` for instance. */
  lemma {:induction false} UpperExtensionSurvives(stem: string, e: string, lowered: string)
    requires e == stem + ".PNG" && lowered == stem + ".png"
    requires NoUpper(stem) && 'p' !in stem && 'j' !in stem && ' ' !in stem
    ensures Filtered([e]) == {lowered}
    ensures Filtered([lowered]) == {}
  {
    MissingChar(e, ".png", 'p');
    MissingChar(e, ".jpg", 'j');
    MissingChar(e, ".jpeg", 'j');
    assert Admissible(e);
    assert Lower(e) == lowered by {
      LowerOfLower(stem);
      forall i | 0 <= i < |e| ensures Lower(e)[i] == lowered[i] {
        if i < |stem| {
          assert e[i] == stem[i] && lowered[i] == stem[i];
        }
      }
    }
    assert OccursAt(lowered, ".png", |stem|);
    assert !Admissible(lowered);
  }

  /** On inputs without upper-case letters the filter is idempotent: refiltering
      any list of its outputs gives the same set. */
  lemma {:induction false} FilterIdempotentOnLower(emails: seq<string>, again: seq<string>)
    requires forall k :: 0 <= k < |emails| ==> NoUpper(emails[k])
    requires (set e | e in again) == Filtered(emails)
    ensures Filtered(again) == Filtered(emails)
  {
    forall x | x in Filtered(emails) ensures x in Filtered(again) {
      var e :| e in emails && Admissible(e) && Lower(e) == x;
      LowerOfLower(e);
      assert x in again;
      LowerOfLower(x);
    }
    forall x | x in Filtered(again) ensures x in Filtered(emails) {
      var e :| e in again && Admissible(e) && Lower(e) == x;
      assert e in Filtered(emails);
      var o :| o in emails && Admissible(o) && Lower(o) == e;
      LowerOfLower(o);
      LowerOfLower(e);
    }
  }
}
