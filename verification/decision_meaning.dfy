/** What a stored detection decision claims, item by item instead of by counters. */
module DecisionMeaning {
  import opened Foundation
  import opened ProfileDetection

  /** Item i has the reason. */
  predicate ItemHas(evidence: seq<Evidence>, i: nat, reason: Reason) {
    i < |evidence| && evidence[i].reason == reason
  }

  ghost predicate Twice(evidence: seq<Evidence>, reason: Reason) {
    exists i: nat, j: nat :: i < j && ItemHas(evidence, i, reason) && ItemHas(evidence, j, reason)
  }

  predicate Only(evidence: seq<Evidence>, reason: Reason, i: nat) {
    && i < |evidence| && evidence[i].reason == reason
    && forall j :: 0 <= j < |evidence| && evidence[j].reason == reason ==> j == i
  }

  predicate Nobody(evidence: seq<Evidence>, reason: Reason) {
    forall i :: 0 <= i < |evidence| ==> evidence[i].reason != reason
  }

  lemma ItemAppend(front: seq<Evidence>, last: Evidence, reason: Reason)
    ensures forall i: nat :: ItemHas(front + [last], i, reason) <==> ItemHas(front, i, reason) || (i == |front| && last.reason == reason)
    ensures forall i: nat :: ItemHas(front, i, reason) ==> i < |front|
    ensures Nobody(front, reason) <==> forall i: nat :: !ItemHas(front, i, reason)
  {
    assert Nobody(front, reason) <== forall i: nat :: !ItemHas(front, i, reason) by {
      if !Nobody(front, reason) {
        var i :| 0 <= i < |front| && front[i].reason == reason;
        assert ItemHas(front, i, reason);
      }
    }
  }

  lemma TwiceAppend(front: seq<Evidence>, last: Evidence, reason: Reason)
    ensures Twice(front + [last], reason) <==> Twice(front, reason) || (last.reason == reason && !Nobody(front, reason))
  {
    hide ItemHas, Nobody;
    var longer := front + [last];
    ItemAppend(front, last, reason);
    if Twice(front, reason) {
      var i: nat, j: nat :| i < j && ItemHas(front, i, reason) && ItemHas(front, j, reason);
      assert ItemHas(longer, i, reason) && ItemHas(longer, j, reason);
    }
    if last.reason == reason && !Nobody(front, reason) {
      var i: nat :| ItemHas(front, i, reason);
      assert ItemHas(longer, i, reason) && ItemHas(longer, |front|, reason);
    }
    if i: nat, j: nat :| i < j && ItemHas(longer, i, reason) && ItemHas(longer, j, reason) {
      assert ItemHas(front, i, reason);
    }
  }

  lemma {:induction false} CountIsTwo(evidence: seq<Evidence>, reason: Reason)
    ensures Count(evidence, reason) >= 2 <==> Twice(evidence, reason)
    decreases |evidence|
  {
    hide Twice;
    if |evidence| == 0 {
      assert !Twice([], reason) by { NoTwo(reason); }
    } else {
      var front, last := evidence[..|evidence| - 1], evidence[|evidence| - 1];
      CountIsTwo(front, reason);
      TwiceAppend(front, last, reason);
      assert evidence == front + [last];
    }
  }

  lemma NoTwo(reason: Reason)
    ensures !Twice([], reason)
  {
  }

  lemma CountIsOne(evidence: seq<Evidence>, reason: Reason)
    ensures Count(evidence, reason) == 1 <==> exists i: nat :: Only(evidence, reason, i)
  {
    hide Count;
    CountIsTwo(evidence, reason);
    if Count(evidence, reason) == 1 {
      var i :| 0 <= i < |evidence| && evidence[i].reason == reason;
      forall j | 0 <= j < |evidence| && evidence[j].reason == reason
        ensures j == i
      {
        assert ItemHas(evidence, i, reason) && ItemHas(evidence, j, reason);
      }
      assert Only(evidence, reason, i);
    }
    if i: nat :| Only(evidence, reason, i) {
      assert ItemHas(evidence, i, reason);
      assert !Twice(evidence, reason);
    }
  }

  /** A match selects the profile of the one selected item, and nobody ties with it or
      reaches its score; an ambiguity selects none and names two equals; finding nothing
      ranks nobody and gives a reason some item has. */
  ghost predicate Claims(d: Decision) {
    match d.outcome
    case Matched =>
      && d.reason.Selected? && Nobody(d.evidence, EqualBest) && Nobody(d.evidence, MultipleMatches)
      && ValidIdentity(d.selectedProfileID)
      && exists i: nat :: i < |d.evidence| && Only(d.evidence, Selected, i) && Selects(d, i)
    case Ambiguous =>
      && d.selectedProfileID == "" && d.selectedVersion.None? && Nobody(d.evidence, Selected)
      && if d.reason.EqualBest? then
          && Twice(d.evidence, EqualBest) && Nobody(d.evidence, MultipleMatches)
          && BelowTheBest(d.evidence)
        else
          && d.reason.MultipleMatches? && Twice(d.evidence, MultipleMatches)
          && Nobody(d.evidence, EqualBest) && Nobody(d.evidence, LowerScore)
    case NoMatch =>
      && d.selectedProfileID == "" && d.selectedVersion.None?
      && Nobody(d.evidence, Selected) && Nobody(d.evidence, EqualBest) && Nobody(d.evidence, MultipleMatches)
      && Nobody(d.evidence, LowerScore) && !Nobody(d.evidence, d.reason)
  }

  predicate BelowTheBest(evidence: seq<Evidence>) {
    forall i, j :: 0 <= i < |evidence| && 0 <= j < |evidence| ==>
      (evidence[i].reason.LowerScore? && evidence[j].reason.EqualBest? ==> evidence[i].score < evidence[j].score)
  }

  predicate OneBestScore(evidence: seq<Evidence>) {
    forall i, j :: 0 <= i < |evidence| && 0 <= j < |evidence| ==>
      (evidence[i].reason.EqualBest? && evidence[j].reason.EqualBest? ==> evidence[i].score == evidence[j].score)
  }

  /** The decision names item i, and every lower-scored item scores below it. */
  predicate Selects(d: Decision, i: nat)
    requires i < |d.evidence|
  {
    && d.selectedProfileID == d.evidence[i].profileID && d.selectedVersion == Some(d.evidence[i].profileVersion)
    && forall j :: 0 <= j < |d.evidence| && d.evidence[j].reason.LowerScore? ==> d.evidence[j].score < d.evidence[i].score
  }

  lemma FitsIffClaims(d: Decision)
    ensures OutcomeFits(d) <==> Claims(d)
  {
    hide Count, ValidIdentity;
    CountIsOne(d.evidence, Selected);
    CountIsTwo(d.evidence, EqualBest);
    CountIsTwo(d.evidence, MultipleMatches);
    if d.outcome.Matched? && OutcomeFits(d) {
      var i: nat :| Only(d.evidence, Selected, i);
      assert Selects(d, i);
    }
  }

  /** What the validator accepts: evidence in strictly ascending profile order, each
      item valid and by one detector, equals of one score, and a decision that claims
      what the items say. */
  lemma ValidDecisionMeans(d: Decision)
    ensures ValidDecision(d) <==>
      && 1 <= |d.evidence| <= 4096 && Claims(d)
      && (forall i, j :: 0 <= i < j < |d.evidence| ==> Less(d.evidence[i].profileID, d.evidence[j].profileID))
      && (forall i :: 0 <= i < |d.evidence| ==> ValidEvidence(d.evidence[i]))
      && (forall i, j :: 0 <= i < |d.evidence| && 0 <= j < |d.evidence| ==>
          d.evidence[i].detectorVersion == d.evidence[j].detectorVersion)
      && OneBestScore(d.evidence)
  {
    hide OutcomeFits, Claims, Less, ValidEvidence;
    FitsIffClaims(d);
    if Ordered(d.evidence) {
      forall i, j | 0 <= i < j < |d.evidence|
        ensures Less(d.evidence[i].profileID, d.evidence[j].profileID)
      {
        OrderedAcross(d.evidence, i, j);
      }
    }
  }

  /** An item is valid when it scores, and each gate it passed, in the order
      manufacturer, model, firmware, stands beside an evidence identity of its own: all
      three for a ranked item, two for a firmware mismatch, at most one for an identity
      mismatch and none for any other reason. */
  lemma ValidEvidenceMeans(e: Evidence)
    ensures ValidEvidence(e) <==>
      && ValidIdentity(e.profileID) && e.score > 0 && |e.evidenceIDs| == |e.gates|
      && (forall g :: 0 <= g < |e.evidenceIDs| ==> ValidIdentity(e.evidenceIDs[g]) && |e.evidenceIDs[g]| <= 256)
      && (forall g, h :: 0 <= g < h < |e.evidenceIDs| ==> e.evidenceIDs[g] != e.evidenceIDs[h])
      && (if e.reason.Selected? || e.reason.EqualBest? || e.reason.MultipleMatches? || e.reason.LowerScore? then
            e.gates == [Manufacturer, Model, Firmware]
          else if e.reason.FirmwareMismatch? then
            e.gates == [Manufacturer, Model] || e.gates == [Manufacturer, Firmware] || e.gates == [Model, Firmware]
          else if e.reason.IdentityMismatch? then |e.gates| <= 1
          else e.gates == [])
  {
    if |e.gates| == 3 && Rank(e.gates[0]) < Rank(e.gates[1]) < Rank(e.gates[2]) {
      assert e.gates == [Manufacturer, Model, Firmware];
    }
    if |e.gates| == 2 {
      assert e.gates == [e.gates[0], e.gates[1]];
    }
  }
}
