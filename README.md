# AuditFlow audit-record engine, modelled in Dafny

AuditFlow is a single-page checklist tool. An auditor creates an audit and answers the fire-safety questions of a fixed template, one at a time, with YES, NO or N/A. Every NO raises an open remediation action. A record marked COMPLETE is demoted to READY_REVIEW as soon as it has an open action. The page shows derived counts: questions answered out of the total, open actions in the section and overall, and a status label.

This project models the engine behind those buttons in `app.js`, without the page itself:

- `records.dfy` (module `AuditRecords`) holds the data model:
  - the `STATUS` and `TEMPLATE` constants;
  - the audit record, with its `responses` object (section key → one answer slot per question) and its `actions` list;
  - the shape every record keeps (`WellFormed`);
  - `blankAuditRecord`.
- `metrics.dfy` (module `AuditMetrics`) holds the derived values:
  - `answeredCountForAudit`, written as a method with the source's two nested loops;
  - `sectionStats`, `openActionCount` and `statusLabel`.
  - The answered count of one section, the open-action count and a section's open count each also have an independent definition as a set of positions, and a lemma proves each pair agree.
- `engine.dfy` (module `AuditEngine`) holds the response/action step and the store:
  - `Respond` is the pure effect of `recordResponse` on a record.
  - `ClampCursor` is the cursor rule of `nextQuestion`.
  - `FindAudit` is the `find` behind `getActiveAudit`.
  - The class `Store` holds `audits` and `activeAuditId`. Its methods `RecordResponse`, `NextQuestion` and `CreateAudit` update them in place, as the event handlers do. Each method is proved against the functions above.
- `wrappers.dfy` holds the `Option` datatype that stands for JavaScript's `null`.

The record's `responses` object keeps its keys in insertion order. It is modelled as an ordered list of `(key, answers)` entries with distinct keys. An answer slot is `None` (`null`) or one of the three answers. The source counts a slot as answered by its truthiness (`if (v)`, `filter(Boolean)`). All three answer strings are non-empty, so a slot is answered exactly when it is `Some`.

Two points about what `app.js` does and does not do:

- A repeated NO never updates an action the question already has: every NO appends one new action (`RepeatedNoRaisesTwoActions`, `RespondAllAppendsPerNo`).
- There are no `advance`/reopen transitions, no completion gate, no action toggling and no exposure scoring in `app.js`.

## Model

| member | source | states |
|---|---|---|
| `AuditRecords.BlankAuditRecord` | app.js:31-45 | A new record has the given id and name, empty client and date, status IN_PROGRESS, section "fire", cursor 0 and no actions. It has exactly one response section, "fire", with 4 slots (the template's question count), all `null`, and it has the template's shape. |
| `AuditRecords.FindSection` | app.js:85 | `responses[key]` finds the first entry with that key; `None` means no entry has the key. |
| `AuditRecords.FireAnswers` | app.js:40-42 | A well-formed record's `responses.fire` has one slot per template question. |
| `AuditMetrics.CountAnswered` | app.js:87 | The number of answered slots never exceeds the number of slots. |
| `AuditMetrics.CountAnsweredIsAnsweredSlots` | app.js:87 | The answered count is exactly the number of positions holding an answer. |
| `AuditMetrics.CountAfterAnswer` | app.js:134 | Writing an answer into one slot raises the answered count by one if that slot was blank, and otherwise leaves it unchanged. |
| `AuditMetrics.AnsweredAcross` | app.js:74-82 | Across all sections, answered ≤ total. |
| `AuditMetrics.AcrossAfterReplace` | app.js:77-80 | Replacing one section's answers changes the audit-wide answered and total counts by exactly that section's change. |
| `AuditMetrics.AnsweredCountForAudit` | app.js:74-82 | The nested loops compute, over every section in order, the answered slots and all slots, and answered ≤ total. |
| `AuditMetrics.OpenActionCount` | app.js:94-96 | The open-action count never exceeds the number of actions. |
| `AuditMetrics.OpenActionCountIsOpenPositions` | app.js:94-96 | The open-action count is exactly the number of positions whose action is OPEN. |
| `AuditMetrics.OpenCountAfterAppend` | app.js:137-145 | Pushing an action adds one to the open count exactly when that action is OPEN. |
| `AuditMetrics.SectionOpenCount` | app.js:88-90 | A section's open actions never outnumber all open actions. |
| `AuditMetrics.SectionOpenCountIsPositions` | app.js:88-90 | A section's open count is exactly the number of positions whose action has that section key and is OPEN. |
| `AuditMetrics.SectionStatsOf` | app.js:84-92 | Gives a result exactly when the section exists. Its total is that section's length and its answered count is that section's answered slots, so answered ≤ total. Its open count is exactly the number of actions with that section key whose status is OPEN, and open ≤ openActionCount ≤ number of actions. |
| `AuditMetrics.StatusLabel` | app.js:113-117 | "Complete" exactly for COMPLETE, "Ready for Review" exactly for READY_REVIEW, "In progress" exactly for IN_PROGRESS. |
| `AuditEngine.ClampCursor` | app.js:155-156 | With 4 questions the cursor stays a valid index. A move that stays in range moves by exactly `delta`; one below 0 stops at 0, and one past the end stops at the last question. |
| `AuditEngine.DemoteIfOpen` | app.js:145-147 | The result is COMPLETE exactly when the record was COMPLETE with no open action. It is READY_REVIEW exactly when the record was READY_REVIEW, or was COMPLETE with an open action. IN_PROGRESS is kept. |
| `AuditEngine.Respond` | app.js:130-150 | Answering keeps the record's shape: template lengths, distinct keys and a valid cursor. |
| `AuditEngine.RespondEffect` | app.js:134-147 | Only `responses.fire[activeIndex]` changes: it becomes the answer, and the array's length, its other slots and the other sections are kept. NO appends exactly one action after the existing ones: it is OPEN, in section "fire" and at the cursor's question. YES and N/A leave the actions alone. The status follows the demotion rule over the new actions. Every other field is unchanged. |
| `AuditEngine.RespondCounts` | app.js:134-147 | The open-action count grows by one exactly on NO. Answered grows by one exactly when the question was blank, and the total never changes. Afterwards the status is COMPLETE only if no action is open. |
| `AuditEngine.RepeatedNoRaisesTwoActions` | app.js:136-143 | Two NO answers on the same question append two OPEN actions for it, so the open count grows by two. |
| `AuditEngine.RespondAll` | app.js:130-150 | Any run of answers keeps the record's shape and does not move the cursor. |
| `AuditEngine.RespondAllAppendsPerNo` | app.js:136-143 | Over a run of answers, actions grow by exactly the number of NOs and earlier actions stay in front. Every new action is OPEN and points at the cursor's question. |
| `AuditEngine.RespondAllOpenCount` | app.js:136-143 | Over a run of answers, the open-action count grows by exactly the number of NOs. |
| `AuditEngine.FindAudit` | app.js:70-72 | Finds the first record whose id equals the pointer; `None` means no record matches, which includes a `null` pointer. |
| `AuditEngine.FindAfterAppend` | app.js:160-165 | After a record is appended, the pointer still finds the earlier record it found before. The new record is found only when no earlier record carries its id. |
| `AuditEngine.Store.constructor` | app.js:47-52 | `blankStore()`: no audits and a `null` active pointer. |
| `AuditEngine.Store.ActiveAudit` | app.js:70-72 | Gives the first stored record whose id is the pointer, so no earlier record has that id; `None` when no record matches. |
| `AuditEngine.Store.RecordResponse` | app.js:130-150 | With no active audit, the store is unchanged. Otherwise only the active record changes, and it becomes `Respond` of its old value. The pointer is kept, every record keeps its shape, and afterwards the active record is COMPLETE only if it has no open action. |
| `AuditEngine.Store.NextQuestion` | app.js:152-158 | With no active audit, the store is unchanged. Otherwise only the active record's cursor changes, to the clamped move, and the pointer is kept. |
| `AuditEngine.Store.CreateAudit` | app.js:160-165 | Appends exactly one blank "New Audit" record and leaves existing records unchanged. The pointer is set to the new id. If the id is fresh, the active audit is the new record; otherwise it is the earlier record with that id. |

## Left out

- Rendering is not modelled: `$`, `renderContextStrip` and its text, `renderAudit`, `init` and the button wiring. `renderAudit` changes no state, so the handlers' final `renderAudit()` calls are dropped.
- Persistence is not modelled: `loadStore`, `saveStore` and `STORAGE_KEY` are browser storage and JSON. When nothing is stored, or the stored text does not parse, `loadStore` returns `blankStore()`, which is the `Store` constructor. A store parsed from storage is not modelled: `Store.Valid` assumes every record has the template's shape, which every record created and changed by this code keeps.
- `uid()` draws on `Math.random` and `Date.now`. The id it would produce is a parameter: `id` of `CreateAudit`, and `actionId` of `RecordResponse` and `Respond` (used only when the answer is NO).
- Audit records are JavaScript objects that `recordResponse` and `nextQuestion` mutate through the reference `getActiveAudit` returns. The model holds records as values in `Store.audits` and replaces the active one. Each record is created fresh and is referenced only from `state.audits`, so no aliasing is lost. `responses.fire` is a sequence, not an array.
- `nextQuestion`'s `delta` is an integer. JavaScript numbers could also be fractional or NaN, but the buttons only pass 1 and −1.
- Status values: `Status` has the three values of `STATUS`. A stored record could carry any other string, which `statusLabel` would also show as "In progress".
- Action status values: the code only ever creates OPEN actions. `ActionStatus.Closed` stands for any other stored value, which the counts do not treat as open.
- The record's name, client and date are never edited in this file.
- `app.js` has no `advance`/reopen transitions, no gate that blocks completion, no action toggling, no impact × likelihood exposure scoring and no merging of repeated actions, so the model has none either.
