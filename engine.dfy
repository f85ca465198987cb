/**
 * The response/action engine and the store: recording an answer at the
 * cursor, moving the cursor, creating audits, and finding the active one.
 */
module AuditEngine {

  import opened Wrappers
  import opened AuditRecords
  import opened AuditMetrics

  /**
   * The cursor move of `nextQuestion`:
   * `Math.max(0, Math.min(total - 1, index + delta))`.
   */
  function ClampCursor(index: int, delta: int, total: nat): (r: nat)
    ensures total > 0 ==> r < total
    ensures total > 0 && 0 <= index + delta < total ==> r == index + delta
    ensures index + delta < 0 ==> r == 0
    ensures total > 0 && index + delta >= total ==> r == total - 1
    ensures total == 0 ==> r == 0
  {
    var upper := if total - 1 < index + delta then total - 1 else index + delta;
    if 0 < upper then upper else 0
  }

  /**
   * The status rule of `recordResponse`: a COMPLETE record with any open
   * action falls back to READY_REVIEW; every other status is kept.
   */
  function DemoteIfOpen(status: Status, actions: seq<Action>): (r: Status)
    ensures r == Complete <==> status == Complete && OpenActionCount(actions) == 0
    ensures r == ReadyReview <==> status == ReadyReview || (status == Complete && OpenActionCount(actions) > 0)
    ensures r == InProgress <==> status == InProgress
  {
    if status == Complete && OpenActionCount(actions) > 0 then ReadyReview else status
  }

  /** The action `recordResponse` raises for a "NO" at question `index` of the fire section. */
  function NewAction(actionId: Id, index: nat): Action
  {
    Action(actionId, FIRE, index, Open)
  }

  /**
   * What `recordResponse(value)` does to the active record, with the `uid()`
   * of a possible new action passed in as `actionId`. The record keeps its
   * shape; RespondEffect states the change.
   */
  function Respond(a: AuditRecord, value: Answer, actionId: Id): (r: AuditRecord)
    requires WellFormed(a)
    ensures WellFormed(r)
  {
    assert FIRE in TEMPLATE;
    var k := FindSection(a.responses, FIRE).value;
    var answers := a.responses[k].answers[a.activeIndex := Some(value)];
    var actions := if value == No then a.actions + [NewAction(actionId, a.activeIndex)] else a.actions;
    var r := a.(responses := a.responses[k := SectionAnswers(FIRE, answers)],
                actions := actions,
                status := DemoteIfOpen(a.status, actions));
    FindSectionSameKeys(a.responses, r.responses, FIRE);
    assert forall key :: key in TEMPLATE ==> key == FIRE;
    r
  }

  /**
   * One answer changes exactly three things: the fire answer at the cursor
   * becomes `value` (every other slot and every other section is kept), a
   * "NO" appends one open action for the cursor's question after the existing
   * ones, and the status follows DemoteIfOpen over the new actions. Every
   * other field is unchanged.
   */
  lemma RespondEffect(a: AuditRecord, value: Answer, actionId: Id)
    requires WellFormed(a)
    ensures var r := Respond(a, value, actionId);
      && r.(responses := a.responses, actions := a.actions, status := a.status) == a
      && |FireAnswers(r)| == |FireAnswers(a)|
      && FireAnswers(r)[a.activeIndex] == Some(value)
      && (forall j :: 0 <= j < |FireAnswers(a)| && j != a.activeIndex ==> FireAnswers(r)[j] == FireAnswers(a)[j])
      && |r.responses| == |a.responses|
      && (forall k :: 0 <= k < |a.responses| && a.responses[k].key != FIRE ==> r.responses[k] == a.responses[k])
      && (value == No ==> r.actions == a.actions + [NewAction(actionId, a.activeIndex)])
      && (value == No ==> r.actions[|a.actions|].status == Open
                          && r.actions[|a.actions|].sectionKey == FIRE
                          && r.actions[|a.actions|].questionIndex == a.activeIndex)
      && (value != No ==> r.actions == a.actions)
      && r.status == DemoteIfOpen(a.status, r.actions)
  {
  }

  /**
   * The counts after one answer: the open-action count grows by one exactly
   * for "NO", the answered count grows by one exactly when the question was
   * blank, the total never changes, and a record that is COMPLETE afterwards
   * has no open action.
   */
  lemma RespondCounts(a: AuditRecord, value: Answer, actionId: Id)
    requires WellFormed(a)
    ensures var r := Respond(a, value, actionId);
      && OpenActionCount(r.actions) == OpenActionCount(a.actions) + (if value == No then 1 else 0)
      && CountAnswered(FireAnswers(r)) == CountAnswered(FireAnswers(a)) + (if FireAnswers(a)[a.activeIndex].None? then 1 else 0)
      && AnsweredAcross(r.responses) == AnsweredAcross(a.responses) + (if FireAnswers(a)[a.activeIndex].None? then 1 else 0)
      && TotalAcross(r.responses) == TotalAcross(a.responses)
      && (r.status == Complete ==> OpenActionCount(r.actions) == 0)
  {
    var r := Respond(a, value, actionId);
    RespondEffect(a, value, actionId);
    OpenCountAfterAppend(a.actions, NewAction(actionId, a.activeIndex));
    var k := FindSection(a.responses, FIRE).value;
    assert FIRE in TEMPLATE;
    assert FireAnswers(a) == a.responses[k].answers;
    assert FindSection(r.responses, FIRE) == Some(k);
    assert r.responses == a.responses[k := SectionAnswers(FIRE, FireAnswers(a)[a.activeIndex := Some(value)])];
    CountAfterAnswer(FireAnswers(a), a.activeIndex, value);
    AcrossAfterReplace(a.responses, k, r.responses[k]);
  }

  /**
   * Answering "NO" twice on the same question raises two separate open
   * actions for it: nothing looks for an action the question already has.
   */
  lemma RepeatedNoRaisesTwoActions(a: AuditRecord, firstId: Id, secondId: Id)
    requires WellFormed(a)
    ensures var r := Respond(Respond(a, No, firstId), No, secondId);
      && r.actions == a.actions + [NewAction(firstId, a.activeIndex), NewAction(secondId, a.activeIndex)]
      && OpenActionCount(r.actions) == OpenActionCount(a.actions) + 2
      && FireAnswers(r)[a.activeIndex] == Some(No)
  {
    var b := Respond(a, No, firstId);
    RespondEffect(a, No, firstId);
    RespondEffect(b, No, secondId);
    assert b.activeIndex == a.activeIndex;
    OpenCountAfterAppend(a.actions, NewAction(firstId, a.activeIndex));
    OpenCountAfterAppend(b.actions, NewAction(secondId, a.activeIndex));
  }

  /** Answers given one after another without moving the cursor; each step carries the id a new action would get. */
  function RespondAll(a: AuditRecord, steps: seq<(Answer, Id)>): (r: AuditRecord)
    requires WellFormed(a)
    ensures WellFormed(r)
    ensures r.activeIndex == a.activeIndex
    decreases |steps|
  {
    if steps == [] then a
    else RespondAll(Respond(a, steps[0].0, steps[0].1), steps[1..])
  }

  /** The number of "NO" answers among the steps. */
  function NoCount(steps: seq<(Answer, Id)>): nat
  {
    if steps == [] then 0 else (if steps[0].0 == No then 1 else 0) + NoCount(steps[1..])
  }

  /**
   * Actions are only ever appended, one per "NO", with no merging of repeated
   * answers to the same question: the earlier actions stay in front, and
   * every new action is open and points at the cursor's question.
   */
  lemma {:induction false} RespondAllAppendsPerNo(a: AuditRecord, steps: seq<(Answer, Id)>)
    requires WellFormed(a)
    ensures var r := RespondAll(a, steps);
      && |r.actions| == |a.actions| + NoCount(steps)
      && r.actions[..|a.actions|] == a.actions
      && forall i :: |a.actions| <= i < |r.actions| ==> r.actions[i] == NewAction(r.actions[i].id, a.activeIndex)
    decreases |steps|
  {
    if steps != [] {
      var b := Respond(a, steps[0].0, steps[0].1);
      RespondEffect(a, steps[0].0, steps[0].1);
      RespondAllAppendsPerNo(b, steps[1..]);
      var r := RespondAll(b, steps[1..]);
      assert b.actions[..|a.actions|] == a.actions;
      assert r.actions[..|a.actions|] == r.actions[..|b.actions|][..|a.actions|];
      forall i | |a.actions| <= i < |b.actions|
        ensures r.actions[i] == NewAction(r.actions[i].id, a.activeIndex)
      {
        assert r.actions[i] == b.actions[i];
      }
    }
  }

  /** The open-action count grows by exactly the number of "NO" answers. */
  lemma {:induction false} RespondAllOpenCount(a: AuditRecord, steps: seq<(Answer, Id)>)
    requires WellFormed(a)
    ensures OpenActionCount(RespondAll(a, steps).actions) == OpenActionCount(a.actions) + NoCount(steps)
    decreases |steps|
  {
    if steps != [] {
      RespondCounts(a, steps[0].0, steps[0].1);
      RespondAllOpenCount(Respond(a, steps[0].0, steps[0].1), steps[1..]);
    }
  }

  /**
   * `state.audits.find(a => a.id === state.activeAuditId)`: the position of
   * the first record whose id equals the pointer; a `null` pointer matches none.
   */
  function FindAudit(audits: seq<AuditRecord>, activeId: Option<Id>): (r: Option<nat>)
    ensures r.Some? ==> r.value < |audits| && activeId == Some(audits[r.value].id)
    ensures r.Some? ==> forall j :: 0 <= j < r.value ==> activeId != Some(audits[j].id)
    ensures r.None? ==> forall j :: 0 <= j < |audits| ==> activeId != Some(audits[j].id)
  {
    if audits == [] then None
    else if activeId == Some(audits[0].id) then Some(0)
    else match FindAudit(audits[1..], activeId)
      case None => None
      case Some(k) => Some(k + 1)
  }

  /** The search depends on the ids alone, so rewriting a record in place never moves the pointer. */
  lemma FindAuditSameIds(audits: seq<AuditRecord>, audits': seq<AuditRecord>, activeId: Option<Id>)
    requires |audits| == |audits'|
    requires forall j :: 0 <= j < |audits| ==> audits[j].id == audits'[j].id
    ensures FindAudit(audits', activeId) == FindAudit(audits, activeId)
  {
  }

  /**
   * Appending a record never changes which earlier record is found; the new
   * record is found only when no earlier record carries its id. So a new
   * audit whose id is already taken is never the active one.
   */
  lemma {:induction false} FindAfterAppend(audits: seq<AuditRecord>, x: AuditRecord, activeId: Option<Id>)
    ensures FindAudit(audits + [x], activeId)
         == if FindAudit(audits, activeId).Some? then FindAudit(audits, activeId)
            else if activeId == Some(x.id) then Some(|audits|)
            else None
  {
    if audits != [] {
      FindAfterAppend(audits[1..], x, activeId);
      assert (audits + [x])[1..] == audits[1..] + [x];
    }
  }

  /**
   * The application state: every audit record and the `activeAuditId`
   * pointer. The handlers change it in place.
   */
  class Store {
    var audits: seq<AuditRecord>
    var activeAuditId: Option<Id>

    /** Every record keeps the shape of the template and a valid cursor. */
    ghost predicate Valid()
      reads this
    {
      forall i :: 0 <= i < |audits| ==> WellFormed(audits[i])
    }

    /** `blankStore()`: no audits and a `null` pointer. */
    constructor ()
      ensures Valid()
      ensures audits == [] && activeAuditId == None
    {
      audits := [];
      activeAuditId := None;
    }

    /** `getActiveAudit()`: the first record whose id is the pointer, or `null`. */
    function ActiveAudit(): (r: Option<AuditRecord>)
      reads this
      ensures r.Some? ==> r.value in audits && activeAuditId == Some(r.value.id)
      ensures r.Some? ==>
        exists k :: (0 <= k < |audits| && r.value == audits[k] && activeAuditId == Some(audits[k].id)
          && forall j :: 0 <= j < k ==> activeAuditId != Some(audits[j].id))
      ensures r.None? ==> forall j :: 0 <= j < |audits| ==> activeAuditId != Some(audits[j].id)
    {
      match FindAudit(audits, activeAuditId)
      case None => None
      case Some(k) => Some(audits[k])
    }

    /**
     * `recordResponse(value)`: write the answer at the active record's
     * cursor, raise an OPEN action on "NO", and demote a COMPLETE record
     * that now has an open action. Without an active record nothing changes.
     */
    method RecordResponse(value: Answer, actionId: Id)
      requires Valid()
      modifies this
      ensures Valid()
      ensures activeAuditId == old(activeAuditId)
      ensures FindAudit(old(audits), activeAuditId).None? ==> audits == old(audits)
      ensures FindAudit(old(audits), activeAuditId).Some? ==>
        var k := FindAudit(old(audits), activeAuditId).value;
        audits == old(audits)[k := Respond(old(audits)[k], value, actionId)]
      ensures ActiveAudit().Some? ==> ActiveAudit().value.status == Complete ==> OpenActionCount(ActiveAudit().value.actions) == 0
    {
      var found := FindAudit(audits, activeAuditId);
      if found.None? {
        return;
      }
      var k := found.value;
      var audit := audits[k];
      assert FIRE in TEMPLATE;
      var fire := FindSection(audit.responses, FIRE).value;
      var answers := audit.responses[fire].answers;
      answers := answers[audit.activeIndex := Some(value)];
      audit := audit.(responses := audit.responses[fire := SectionAnswers(FIRE, answers)]);
      if value == No {
        audit := audit.(actions := audit.actions + [Action(actionId, FIRE, audit.activeIndex, Open)]);
      }
      if audit.status == Complete && OpenActionCount(audit.actions) > 0 {
        audit := audit.(status := ReadyReview);
      }
      assert audit.status == Complete ==> OpenActionCount(audit.actions) == 0;
      assert audit == Respond(audits[k], value, actionId);
      FindAuditSameIds(audits, audits[k := audit], activeAuditId);
      audits := audits[k := audit];
      assert ActiveAudit() == Some(audit);
    }

    /**
     * `nextQuestion(delta)`: move the active record's cursor by `delta`,
     * clamped to the fire questions. Without an active record nothing changes.
     */
    method NextQuestion(delta: int)
      requires Valid()
      modifies this
      ensures Valid()
      ensures activeAuditId == old(activeAuditId)
      ensures FindAudit(old(audits), activeAuditId).None? ==> audits == old(audits)
      ensures FindAudit(old(audits), activeAuditId).Some? ==>
        var k := FindAudit(old(audits), activeAuditId).value;
        var a := old(audits)[k];
        audits == old(audits)[k := a.(activeIndex := ClampCursor(a.activeIndex, delta, FIRE_QUESTION_COUNT))]
    {
      var found := FindAudit(audits, activeAuditId);
      if found.None? {
        return;
      }
      var k := found.value;
      var audit := audits[k];
      var total := FIRE_QUESTION_COUNT;
      audit := audit.(activeIndex := ClampCursor(audit.activeIndex, delta, total));
      audits := audits[k := audit];
    }

    /**
     * `createAudit()`: append a blank record named "New Audit" with the
     * `uid()` passed in as `id`, and point the store at that id.
     */
    method CreateAudit(id: Id)
      requires Valid()
      modifies this
      ensures Valid()
      ensures audits == old(audits) + [BlankAuditRecord(id, NEW_AUDIT_NAME)]
      ensures activeAuditId == Some(id)
      ensures FindAudit(old(audits), Some(id)).None? ==> ActiveAudit() == Some(BlankAuditRecord(id, NEW_AUDIT_NAME))
      ensures FindAudit(old(audits), Some(id)).Some? ==> ActiveAudit() == Some(old(audits)[FindAudit(old(audits), Some(id)).value])
    {
      var audit := BlankAuditRecord(id, NEW_AUDIT_NAME);
      FindAfterAppend(audits, audit, Some(id));
      audits := audits + [audit];
      activeAuditId := Some(id);
    }
  }

}
