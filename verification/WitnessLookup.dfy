/**
 Which enrolments the witness endpoint can find again.  It looks a commitment up in normalised spelling,
 without 0x and in lower case; the three-gate route stores the text as it came.
 */
module WitnessLookup {
  import opened Tables
  import opened Enrolment
  import opened EnrolmentRuns
  import opened LeafUniqueness

  /** The spelling under which `get_membership_witness` looks for a raw commitment. */
  function LookupText(raw: string): string { Lower(Strip0x(raw)) }

  predicate StoredAsLookedUp(req: Request) { StoredText(req) == LookupText(req.commitment) }

  /**
   After an accepted request, on either route, its own commitment is found in its tree exactly if the text
   was stored in normalised spelling, or that spelling had been enrolled before, as another leaf.
   */
  lemma FoundIff(c: Config, s: Store, req: Request)
    requires Inv(c, s) && Commit(c, s, req).1.Enrolled?
    ensures var s', text := Commit(c, s, req).0, LookupText(req.commitment);
      && Inv(c, s')
      && (CommitmentExists(s', TreeOf(req), text) <==> StoredAsLookedUp(req) || CommitmentExists(s, TreeOf(req), text))
      && (!StoredAsLookedUp(req) ==>
            forall i {:trigger s'.leaves[i]} :: 0 <= i < |s'.leaves| && s'.leaves[i].commitment == text ==>
              i < |s.leaves|)
  {
    var s', text := Commit(c, s, req).0, LookupText(req.commitment);
    CommitKeeps(c, s, req);
    hide Inv, Lower, Strip0x, HexBytes;
    EnrolledAppends(c, s, req);
    assert forall i {:trigger s'.leaves[i]} :: 0 <= i < |s.leaves| ==> s'.leaves[i] == s.leaves[i];
    hide Commit;
    if CommitmentExists(s, TreeOf(req), text) {
      var i :| 0 <= i < |s.leaves| && s.leaves[i].treeId == TreeOf(req) && s.leaves[i].commitment == text;
      assert s'.leaves[i].commitment == text;
    }
    assert s'.leaves[|s.leaves|].commitment == StoredText(req);
  }

  lemma EnrolledAppends(c: Config, s: Store, req: Request)
    requires Commit(c, s, req).1.Enrolled?
    ensures var s' := Commit(c, s, req).0;
      && |s'.leaves| == |s.leaves| + 1 && s'.leaves[..|s.leaves|] == s.leaves
      && s'.leaves[|s.leaves|].treeId == TreeOf(req) && s'.leaves[|s.leaves|].commitment == StoredText(req)
  {
    hide HexBytes, Lower, Strip0x, EventUsed, CommitmentExists;
  }

  /** Every membership request stores what is looked up; a three-gate request if it has no 0x and no capitals. */
  lemma StoredAsLookedUpMeans(req: Request)
    ensures StoredAsLookedUp(req) <==>
      req.route.Membership? || (Strip0x(req.commitment) == req.commitment && !UpperCase(req.commitment))
  {
    hide Strip0x;
    var x := req.commitment;
    StripShortens(x);
    LowerFixes(Strip0x(x));
  }

  lemma {:induction false} StripShortens(x: string)
    ensures |Strip0x(x)| <= |x| && (|Strip0x(x)| == |x| ==> Strip0x(x) == x)
    decreases |x|
  {
    if |x| >= 2 && x[0] == '0' && x[1] == 'x' {
      StripShortens(x[2..]);
    } else if x != "" {
      StripShortens(x[1..]);
    }
  }

  lemma {:induction false} LowerFixes(x: string)
    ensures Lower(x) == x <==> !UpperCase(x)
  {
    if x == "" {
    } else {
      LowerFixes(x[1..]);
      LowerFront(x);
    }
  }

  lemma LowerFront(x: string)
    requires x != ""
    ensures Lower(x) == x <==> !('A' <= x[0] <= 'Z') && Lower(x[1..]) == x[1..]
    ensures UpperCase(x) <==> 'A' <= x[0] <= 'Z' || UpperCase(x[1..])
  {
    var first, rest := x[0], x[1..];
    assert x == [first] + rest;
    assert Lower(x)[1..] == Lower(rest);
    assert Lower(x)[0] == first <==> !('A' <= first <= 'Z');
    UpperCaseFront(first, rest);
  }

  lemma UpperCaseFront(first: char, rest: string)
    ensures UpperCase([first] + rest) <==> 'A' <= first <= 'Z' || UpperCase(rest)
  {
    var x := [first] + rest;
    if UpperCase(rest) {
      var k :| 0 <= k < |rest| && 'A' <= rest[k] <= 'Z';
      assert x[k + 1] == rest[k];
    }
    if 'A' <= first <= 'Z' {
      assert x[0] == first;
    }
  }

  /** The failing input: a first enrolment in another spelling, whose leaf is in the tree but never found. */
  lemma EnrolledButNotFound(c: Config, req: Request)
    requires Admissible(req) && !StoredAsLookedUp(req)
    ensures var s := Run(c, [req]);
      && |s.leaves| == 1 && s.leaves[0].treeId == TreeOf(req) && s.leaves[0].commitment == req.commitment
      && !CommitmentExists(s, TreeOf(req), LookupText(req.commitment))
  {
    hide Run, Inv, Lower, Strip0x, HexBytes;
    FirstEnrolled(c, req);
  }
}
