/**
 * The audit record: the STATUS and TEMPLATE constants, the shape of one
 * audit (its answers per checklist section, its remediation actions, its
 * question cursor) and the blank record every new audit starts from.
 */
module AuditRecords {

  import opened Wrappers

  /** Identifiers are the opaque strings produced by the application's `uid()`. */
  type Id = string

  type SectionKey = string

  /** The STATUS constant. */
  datatype Status = InProgress | ReadyReview | Complete

  /** The three answer buttons; an unanswered question holds `None` (JavaScript `null`). */
  datatype Answer = Yes | No | NotApplicable

  /**
   * An action's status. The application only ever creates `Open` actions;
   * `Closed` stands for any other status a stored action may carry, which the
   * counts below must not treat as open.
   */
  datatype ActionStatus = Open | Closed

  /** A remediation action raised for one question of one section. */
  datatype Action = Action(id: Id, sectionKey: SectionKey, questionIndex: nat, status: ActionStatus)

  /**
   * One entry of the `responses` object: a section key and that section's
   * answers, one slot per template question. The object keeps its keys in
   * insertion order, so `responses` is an ordered list of these entries.
   */
  datatype SectionAnswers = SectionAnswers(key: SectionKey, answers: seq<Option<Answer>>)

  datatype AuditRecord = AuditRecord(
    id: Id,
    name: string,
    client: string,
    date: string,
    status: Status,
    activeSection: SectionKey,
    activeIndex: nat,
    responses: seq<SectionAnswers>,
    actions: seq<Action>)

  /** A checklist section of the template: its title and its ordered questions. */
  datatype Section = Section(title: string, questions: seq<string>)

  const FIRE: SectionKey := "fire"

  const FIRE_SECTION: Section := Section("Fire Safety", [
    "Fire extinguishers present and accessible?",
    "Fire exits clearly marked and unobstructed?",
    "Emergency lighting operational?",
    "Evacuation plan displayed?"
  ])

  /** The TEMPLATE constant: the one section every audit answers. */
  const TEMPLATE: map<SectionKey, Section> := map[FIRE := FIRE_SECTION]

  /** `TEMPLATE.fire.questions.length`. */
  const FIRE_QUESTION_COUNT: nat := |FIRE_SECTION.questions|

  /** The name `createAudit` gives every new audit. */
  const NEW_AUDIT_NAME: string := "New Audit"

  /**
   * `responses[key]`: the position of the entry for `key`. An object holds at
   * most one entry per key; the search returns the first one.
   */
  function FindSection(rs: seq<SectionAnswers>, key: SectionKey): (r: Option<nat>)
    ensures r.Some? ==> r.value < |rs| && rs[r.value].key == key
    ensures r.Some? ==> forall j :: 0 <= j < r.value ==> rs[j].key != key
    ensures r.None? ==> forall j :: 0 <= j < |rs| ==> rs[j].key != key
  {
    if rs == [] then None
    else if rs[0].key == key then Some(0)
    else match FindSection(rs[1..], key)
      case None => None
      case Some(k) => Some(k + 1)
  }

  /** The search depends on the keys alone, so rewriting answers never moves a section. */
  lemma FindSectionSameKeys(rs: seq<SectionAnswers>, rs': seq<SectionAnswers>, key: SectionKey)
    requires |rs| == |rs'|
    requires forall j :: 0 <= j < |rs| ==> rs[j].key == rs'[j].key
    ensures FindSection(rs', key) == FindSection(rs, key)
  {
  }

  /** The keys of a `responses` object are pairwise distinct. */
  predicate DistinctKeys(rs: seq<SectionAnswers>)
  {
    forall i, j :: 0 <= i < j < |rs| ==> rs[i].key != rs[j].key
  }

  /** The section `key` is present in `rs` and has exactly `n` answer slots. */
  predicate SectionSized(rs: seq<SectionAnswers>, key: SectionKey, n: nat)
  {
    var k := FindSection(rs, key);
    k.Some? && |rs[k.value].answers| == n
  }

  /**
   * The shape every record keeps: one answer slot per template question in
   * every template section, distinct section keys, and a cursor that points
   * at a question of the fire section.
   */
  predicate WellFormed(a: AuditRecord)
  {
    && DistinctKeys(a.responses)
    && (forall key :: key in TEMPLATE ==> SectionSized(a.responses, key, |TEMPLATE[key].questions|))
    && a.activeIndex < FIRE_QUESTION_COUNT
  }

  /** `audit.responses.fire` of a well-formed record. */
  function FireAnswers(a: AuditRecord): (s: seq<Option<Answer>>)
    requires WellFormed(a)
    ensures |s| == FIRE_QUESTION_COUNT
    ensures exists k :: 0 <= k < |a.responses| && a.responses[k] == SectionAnswers(FIRE, s)
  {
    assert FIRE in TEMPLATE;
    var k := FindSection(a.responses, FIRE).value;
    assert a.responses[k] == SectionAnswers(FIRE, a.responses[k].answers);
    a.responses[k].answers
  }

  /**
   * `blankAuditRecord({name})` with the `uid()` it draws passed in as `id`:
   * an in-progress record with no client, date or actions, its cursor on the
   * first fire question, and one unanswered slot per fire question.
   */
  function BlankAuditRecord(id: Id, name: string): (r: AuditRecord)
    ensures WellFormed(r)
    ensures r.id == id && r.name == name && r.client == "" && r.date == ""
    ensures r.status == InProgress && r.activeSection == FIRE && r.activeIndex == 0
    ensures r.actions == []
    ensures |r.responses| == 1
    ensures |FireAnswers(r)| == |TEMPLATE[FIRE].questions| == 4
    ensures forall i :: 0 <= i < |FireAnswers(r)| ==> FireAnswers(r)[i] == None
  {
    var r := AuditRecord(id, name, "", "", InProgress, FIRE, 0,
      [SectionAnswers(FIRE, seq(FIRE_QUESTION_COUNT, _ => None))], []);
    assert FindSection(r.responses, FIRE) == Some(0);
    r
  }

}
