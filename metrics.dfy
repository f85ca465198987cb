/**
 * The derived values the context strip shows: answered/total counts, the
 * per-section statistics, the open-action count and the status label.
 */
module AuditMetrics {

  import opened Wrappers
  import opened AuditRecords

  /** `arr.filter(Boolean).length`: the number of answered slots. */
  function CountAnswered(s: seq<Option<Answer>>): (n: nat)
    ensures n <= |s|
  {
    if s == [] then 0
    else CountAnswered(s[..|s| - 1]) + (if s[|s| - 1].Some? then 1 else 0)
  }

  /** The positions of the answered slots: an independent description of the count. */
  ghost function AnsweredSlots(s: seq<Option<Answer>>): set<int>
  {
    set i | 0 <= i < |s| && s[i].Some?
  }

  lemma {:induction false} CountAnsweredIsAnsweredSlots(s: seq<Option<Answer>>)
    ensures CountAnswered(s) == |AnsweredSlots(s)|
  {
    if s != [] {
      var t := s[..|s| - 1];
      CountAnsweredIsAnsweredSlots(t);
      if s[|s| - 1].Some? {
        assert AnsweredSlots(s) == AnsweredSlots(t) + {|t|};
      } else {
        assert AnsweredSlots(s) == AnsweredSlots(t);
      }
    }
  }

  /** Answering one question raises the answered count by one exactly when that question was blank. */
  lemma {:induction false} CountAfterAnswer(s: seq<Option<Answer>>, i: nat, v: Answer)
    requires i < |s|
    ensures CountAnswered(s[i := Some(v)]) == CountAnswered(s) + (if s[i].None? then 1 else 0)
  {
    var n := |s| - 1;
    if i == n {
      assert s[i := Some(v)][..n] == s[..n];
    } else {
      CountAfterAnswer(s[..n], i, v);
      assert s[i := Some(v)][..n] == s[..n][i := Some(v)];
    }
  }

  /** The `answered` counter of `answeredCountForAudit`, summed over all sections. */
  function AnsweredAcross(rs: seq<SectionAnswers>): (n: nat)
    ensures n <= TotalAcross(rs)
  {
    if rs == [] then 0
    else AnsweredAcross(rs[..|rs| - 1]) + CountAnswered(rs[|rs| - 1].answers)
  }

  /** The `total` counter of `answeredCountForAudit`: all answer slots of all sections. */
  function TotalAcross(rs: seq<SectionAnswers>): nat
  {
    if rs == [] then 0
    else TotalAcross(rs[..|rs| - 1]) + |rs[|rs| - 1].answers|
  }

  /**
   * Replacing one section's answers changes the audit-wide counts by exactly
   * the change in that section's counts.
   */
  lemma {:induction false} AcrossAfterReplace(rs: seq<SectionAnswers>, k: nat, e: SectionAnswers)
    requires k < |rs|
    ensures AnsweredAcross(rs[k := e]) + CountAnswered(rs[k].answers)
         == AnsweredAcross(rs) + CountAnswered(e.answers)
    ensures TotalAcross(rs[k := e]) + |rs[k].answers| == TotalAcross(rs) + |e.answers|
  {
    var n := |rs| - 1;
    if k == n {
      assert rs[k := e][..n] == rs[..n];
    } else {
      AcrossAfterReplace(rs[..n], k, e);
      assert rs[k := e][..n] == rs[..n][k := e];
    }
  }

  /**
   * `answeredCountForAudit(audit)`: for every entry of `responses`, in order,
   * add its length to `total` and each truthy (answered) slot to `answered`.
   */
  method AnsweredCountForAudit(audit: AuditRecord) returns (answered: nat, total: nat)
    ensures answered == AnsweredAcross(audit.responses)
    ensures total == TotalAcross(audit.responses)
    ensures answered <= total
  {
    var rs := audit.responses;
    answered, total := 0, 0;
    var i := 0;
    while i < |rs|
      invariant 0 <= i <= |rs|
      invariant answered == AnsweredAcross(rs[..i])
      invariant total == TotalAcross(rs[..i])
    {
      var arr := rs[i].answers;
      total := total + |arr|;
      var j := 0;
      while j < |arr|
        invariant 0 <= j <= |arr|
        invariant answered == AnsweredAcross(rs[..i]) + CountAnswered(arr[..j])
      {
        if arr[j].Some? {
          answered := answered + 1;
        }
        assert arr[..j + 1][..j] == arr[..j];
        j := j + 1;
      }
      assert arr[..j] == arr;
      assert rs[..i + 1][..i] == rs[..i];
      i := i + 1;
    }
    assert rs[..i] == rs;
  }

  /** `openActionCount(audit)`: the number of actions whose status is OPEN. */
  function OpenActionCount(actions: seq<Action>): (n: nat)
    ensures n <= |actions|
  {
    if actions == [] then 0
    else OpenActionCount(actions[..|actions| - 1]) + (if actions[|actions| - 1].status == Open then 1 else 0)
  }

  /** The positions of the open actions: an independent description of the count. */
  ghost function OpenPositions(actions: seq<Action>): set<int>
  {
    set i | 0 <= i < |actions| && actions[i].status == Open
  }

  lemma {:induction false} OpenActionCountIsOpenPositions(actions: seq<Action>)
    ensures OpenActionCount(actions) == |OpenPositions(actions)|
  {
    if actions != [] {
      var t := actions[..|actions| - 1];
      OpenActionCountIsOpenPositions(t);
      if actions[|actions| - 1].status == Open {
        assert OpenPositions(actions) == OpenPositions(t) + {|t|};
      } else {
        assert OpenPositions(actions) == OpenPositions(t);
      }
    }
  }

  /** Appending an action adds one to the open count exactly when the new action is open. */
  lemma OpenCountAfterAppend(actions: seq<Action>, x: Action)
    ensures OpenActionCount(actions + [x]) == OpenActionCount(actions) + (if x.status == Open then 1 else 0)
  {
  }

  /** The `open` field of `sectionStats`: open actions raised for section `key`. */
  function SectionOpenCount(actions: seq<Action>, key: SectionKey): (n: nat)
    ensures n <= OpenActionCount(actions)
  {
    if actions == [] then 0
    else
      var last := actions[|actions| - 1];
      SectionOpenCount(actions[..|actions| - 1], key)
        + (if last.sectionKey == key && last.status == Open then 1 else 0)
  }

  /** The positions of the open actions raised for section `key`: an independent description of the count. */
  ghost function SectionOpenPositions(actions: seq<Action>, key: SectionKey): set<int>
  {
    set i | 0 <= i < |actions| && actions[i].sectionKey == key && actions[i].status == Open
  }

  lemma {:induction false} SectionOpenCountIsPositions(actions: seq<Action>, key: SectionKey)
    ensures SectionOpenCount(actions, key) == |SectionOpenPositions(actions, key)|
  {
    if actions != [] {
      var t := actions[..|actions| - 1];
      var last := actions[|actions| - 1];
      SectionOpenCountIsPositions(t, key);
      if last.sectionKey == key && last.status == Open {
        assert SectionOpenPositions(actions, key) == SectionOpenPositions(t, key) + {|t|};
      } else {
        assert SectionOpenPositions(actions, key) == SectionOpenPositions(t, key);
      }
    }
  }

  /** The record returned by `sectionStats`. */
  datatype SectionStats = SectionStats(answered: nat, total: nat, open: nat)

  /**
   * `sectionStats(audit, sectionKey)`. Reading `.length` of a section the
   * record does not have throws in the application; that case is `None`.
   */
  function SectionStatsOf(audit: AuditRecord, key: SectionKey): (r: Option<SectionStats>)
    ensures r.None? <==> forall j :: 0 <= j < |audit.responses| ==> audit.responses[j].key != key
    ensures r.Some? ==>
      exists j :: (0 <= j < |audit.responses| && audit.responses[j].key == key
        && r.value.total == |audit.responses[j].answers|
        && r.value.answered == CountAnswered(audit.responses[j].answers))
    ensures r.Some? ==> r.value.answered <= r.value.total
    ensures r.Some? ==> r.value.open == |SectionOpenPositions(audit.actions, key)|
    ensures r.Some? ==> r.value.open <= OpenActionCount(audit.actions) <= |audit.actions|
  {
    SectionOpenCountIsPositions(audit.actions, key);
    match FindSection(audit.responses, key)
    case None => None
    case Some(k) =>
      var arr := audit.responses[k].answers;
      Some(SectionStats(CountAnswered(arr), |arr|, SectionOpenCount(audit.actions, key)))
  }

  /** `statusLabel(s)`: the text shown for a status. */
  function StatusLabel(s: Status): (r: string)
    ensures r == "Complete" <==> s == Complete
    ensures r == "Ready for Review" <==> s == ReadyReview
    ensures r == "In progress" <==> s == InProgress
  {
    assert |"Complete"| == 8 && |"In progress"| == 11 && |"Ready for Review"| == 16;
    match s
    case Complete => "Complete"
    case ReadyReview => "Ready for Review"
    case InProgress => "In progress"
  }

}
