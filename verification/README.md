# Fault registry core, modelled in Dafny

A model of the bookkeeping core of a building-maintenance fault registry (a
Next.js/React front end over a Firestore store). Reporters submit faults;
the registry picks a technician automatically. An administrator reassigns
faults and follows them by status, and a technician moves their own faults
along. Free text is censored against an editable list of forbidden words.

What the model covers:

- `FaultTypes` (types.dfy): the records of `src/lib/types.ts`, that is fault
  categories, statuses, workers, submitted data and stored faults. It also
  has the category translation table of `src/lib/utils.ts`.
- `AutoAssign` (auto_assign.dfy): `addFault` and `updateFault` of
  `src/context/faults-context.tsx`.
  - The least-loaded choice is modelled as the code computes it: filter by
    specialty, count open tasks, stable sort by count, take the head.
  - It is proved equal to an independent one-pass scan, and the scan's
    properties are proved.
- `Fixtures` (fixtures.dfy): the sample roster and faults of `src/lib/data.ts`,
  and what automatic assignment does with them.
- `Dashboard` (dashboard.dfy): the assign and status handlers, the worker-name
  lookup, the admin and technician views, the row menu and the status labels
  of the dashboard table.
- `ForbiddenWords` / `ForbiddenWordsClient` (forbidden_words.dfy): the
  forbidden-word list as a class with a `seq<string>` field, and the page that
  edits it.
- `Censor` (censor.dfy): `censorText`, the whole-word, case-insensitive
  replacement by asterisks. It spells out how the regular expression
  `\b(w1|...|wn)\b` with flags `gi` is run.
- `AddFaultDialog`, `ReportFaultForm`, `WorkerForm` (forms.dfy): the form rules
  of the three forms, the phone digit filter and `+370` prefix, the censored
  description field, and the specialty checkboxes.
  - The dialog is modelled as written: its type rule is the one it declares,
    and its description is censored with the pattern's ASCII `\b`.
  - The corrected type rule and the corrected censor stand beside them, each
    with the property the dialog evidently intends (see "## Findings").
- `Seqs`, `Text` (seqs.dfy, text.dfy): `Array.prototype.filter` and
  `String.prototype.toLowerCase` with the character classes the code relies on.

Modelling choices:

- Clock readings (`new Date()`) are a parameter `now`.
- The store's `serverTimestamp()` sentinel is the constructor `ServerTimestamp`.
- The e-mail rule of the validation library is a parameter `isEmail`.
- A missing optional field (`undefined`) is `None`.
- `addFault` writes `assignedTo: ''` when nobody fits, which is
  `Some("")` once stored.
- The store handles `faultsCollection` and `firestore` are modelled as flags
  saying whether they exist.

## Model

| member | source | states |
|---|---|---|
| Text.LowerChar | src/context/forbidden-words-context.tsx:19 | one character of `toLowerCase`: the result is never a capital, non-capitals are unchanged, and word characters, letters and the range below U+0180 are each kept |
| Text.Lower | src/context/forbidden-words-context.tsx:19 | `toLowerCase`: each character lower-cased in place (its properties are the next two rows) |
| Text.LowerIsLowerCase | src/context/forbidden-words-context.tsx:19 | lower-casing keeps the length, leaves no capital behind and is idempotent |
| Text.LowerConcat | src/context/forbidden-words-context.tsx:19 | lower-casing distributes over concatenation |
| FaultTypes.ParseFaultType | src/lib/types.ts:1 | reading a category from its spelling: a parsed value spells the input, and an unparsed input is the spelling of no category |
| FaultTypes.ParseTypeName | src/lib/types.ts:1 | parsing inverts spelling for every category, so no two categories share a spelling |
| FaultTypes.Translation | src/lib/utils.ts:9-14 | every category has a non-empty Lithuanian label |
| FaultTypes.AllFaultTypesComplete | src/lib/utils.ts:9-14 | the translation table's key order lists every category |
| AutoAssign.OpenTaskCount | src/context/faults-context.tsx:42 | a worker's load counts the faults assigned to the worker's id that are not completed; it is never more than the number of faults |
| AutoAssign.OpenTaskCountZero | src/context/faults-context.tsx:42 | a load is zero exactly when no fault is an open task of that worker |
| AutoAssign.TaskCounts | src/context/faults-context.tsx:40-43 | each suitable worker is paired, in roster order, with the number of faults assigned to the worker's id that are not completed |
| AutoAssign.InsertByCount | src/context/faults-context.tsx:45 | one insertion step of the stable sort adds exactly the inserted candidate (multiset) |
| AutoAssign.InsertKeepsSorted | src/context/faults-context.tsx:45 | insertion into a list sorted by count keeps it sorted |
| AutoAssign.SortByCount | src/context/faults-context.tsx:45 | the sort by `taskCount` returns a permutation of its input, ordered by count |
| AutoAssign.FirstMinIndex | src/context/faults-context.tsx:46 | the position of the first candidate of minimal count: no count is smaller and every earlier count is larger |
| AutoAssign.SortHeadIsFirstMin | src/context/faults-context.tsx:45-46 | the head of the stable sort is the first candidate of minimal count |
| AutoAssign.FirstLeastLoaded | src/context/faults-context.tsx:36-46 | reference definition of the choice by one scan: nobody exactly when no worker is suitable, otherwise a suitable roster worker whose load is no larger than any suitable worker's |
| AutoAssign.ChooseWorker | src/context/faults-context.tsx:36-47 | the filter-count-sort-head choice equals the one-pass scan on every roster and fault list |
| AutoAssign.FirstLeastLoadedCons | src/context/faults-context.tsx:45-46 | one step of the scan: an unsuitable head is skipped, a suitable head loses only to a strictly lighter later pick |
| AutoAssign.FirstLeastLoadedIsEarliest | src/context/faults-context.tsx:45-46 | the scan keeps the earliest of equally least-loaded workers: every suitable worker ahead of it has a strictly larger load |
| AutoAssign.ChosenWorkerIsSuitable | src/context/faults-context.tsx:36-46 | no worker is chosen exactly when no roster worker's specialty holds the category; a chosen worker is on the roster and holds it |
| AutoAssign.ChosenWorkerIsLeastLoaded | src/context/faults-context.tsx:40-46 | when a suitable worker exists, someone is chosen, and no suitable worker has fewer open faults than the chosen one |
| AutoAssign.ChosenWorkerIsEarliestAmongTies | src/context/faults-context.tsx:45-46 | ties go to the earliest worker in roster order, as the stable sort demands |
| AutoAssign.AddFault | src/context/faults-context.tsx:26-53 | nothing is created without the collection handle or the roster; otherwise the document keeps every submitted field and carries server timestamps; it is `new` with worker id `''` exactly when no worker is suitable, else `assigned` to a suitable worker of least load, namely the earliest such worker in roster order |
| AutoAssign.AddedFaultRaisesOnlyAssigneeLoad | src/context/faults-context.tsx:42-55 | once the new fault is stored, the named worker's load grows by one and no other worker's load changes |
| AutoAssign.UpdatePayload | src/context/faults-context.tsx:58-62 | without the store handle nothing is written; otherwise the payload is the caller's fields with only `updatedAt` replaced by the server time |
| Fixtures.SamplePlumbingGoesToWorker2 | src/lib/data.ts:3-65 | a plumbing fault goes to worker-2, the only plumber |
| Fixtures.SampleGeneralGoesToWorker3 | src/lib/data.ts:3-65 | a general fault goes to worker-3, whose only fault is completed, not worker-1, who has one in progress |
| Fixtures.SampleScanPicksWorker3 | src/lib/data.ts:3-65 | the reference scan over the sample roster picks worker-3 for a general fault |
| Fixtures.ScanOfLastTwoWorkers | src/lib/data.ts:5-6 | the scan over worker-2 and worker-3 picks worker-3 for a general fault |
| Fixtures.LoadsOfSampleFaults | src/lib/data.ts:9-65 | worker-1 has one open fault and worker-3 none |
| Fixtures.LoadOfWorker1 | src/lib/data.ts:44-54 | worker-1's load in the sample faults is one |
| Fixtures.LoadOfWorker3 | src/lib/data.ts:31-43 | worker-3's load in the sample faults is zero: the completed fault does not count |
| Fixtures.SampleHeatingStaysNew | src/lib/data.ts:3-7 | no sample worker takes heating, so a heating fault is created `new` with worker id `''` |
| Dashboard.AssignWorker | src/app/dashboard/components/dashboard-client.tsx:85-92 | the list keeps its length; the fault with the id becomes `assigned` to the worker with a fresh `updatedAt`, whatever its status was, and keeps every other field; every other fault is unchanged |
| Dashboard.UpdateStatus | src/app/dashboard/components/dashboard-client.tsx:100-105 | the list keeps its length; the fault with the id takes the new status and a fresh `updatedAt` and keeps every other field, with no transition refused; every other fault is unchanged |
| Dashboard.UnknownIdChangesNothing | src/app/dashboard/components/dashboard-client.tsx:85-105 | both handlers leave the list unchanged when no fault has the id |
| Dashboard.AssignRaisesAssigneeLoad | src/app/dashboard/components/dashboard-client.tsx:85-92 | assigning a fault from the menu adds one to the worker's load unless it was already that worker's open task |
| Dashboard.CompletingReleasesLoad | src/app/dashboard/components/dashboard-client.tsx:100-105 | completing a fault takes one off its worker's load and changes no other load |
| Dashboard.FindWorker | src/app/dashboard/components/dashboard-client.tsx:114 | `find` by id: absent exactly when no roster worker has the id, otherwise a roster worker with that id |
| Dashboard.FindWorkerIsFirst | src/app/dashboard/components/dashboard-client.tsx:114 | `find` returns the first roster worker with the id: no worker ahead of it has that id |
| Dashboard.WorkerName | src/app/dashboard/components/dashboard-client.tsx:112-115 | the name shown for a fault is never blank: a missing name falls back to a placeholder |
| Dashboard.WorkerNameCases | src/app/dashboard/components/dashboard-client.tsx:112-115 | a missing or empty id shows "Nepriskirta"; an id no worker has shows "Nežinomas"; with unique ids, the id of a roster worker shows that worker's name, or "Nežinomas" when the name is empty |
| Dashboard.UnassignedFaultShowsPlaceholder | src/app/dashboard/components/dashboard-client.tsx:112-113 | a fault automatic assignment left unassigned shows "Nepriskirta" |
| Dashboard.DisplayedFaults | src/app/dashboard/components/dashboard-client.tsx:117-119 | the admin's "all" tab shows the list itself; a status tab shows exactly the faults of that status; a worker sees exactly the faults assigned to the worker that are not completed |
| Dashboard.DisplayedFaultsKeepOrder | src/app/dashboard/components/dashboard-client.tsx:117-119 | the rows keep list order and each shown fault's multiplicity, and a hidden fault does not appear |
| Dashboard.WorkerViewSizeIsLoad | src/app/dashboard/components/dashboard-client.tsx:119 | a worker's table has as many rows as the load automatic assignment counts for that worker |
| Dashboard.AssignedFaultInWorkerView | src/app/dashboard/components/dashboard-client.tsx:85-119 | after an assignment the fault is in the new worker's table |
| Dashboard.CompletedFaultLeavesWorkerViews | src/app/dashboard/components/dashboard-client.tsx:100-119 | after completion no worker's table holds a fault with that id |
| Dashboard.MenuActions | src/app/dashboard/components/dashboard-client.tsx:203-240 | the details entry is always offered; status changes are offered only in the worker view for faults that are not completed, and only to in-progress or completed; assignments are offered only to the admin, one per roster worker |
| Dashboard.CompletedFaultMenus | src/app/dashboard/components/dashboard-client.tsx:210-240 | no entry of a worker's menu changes a completed fault, while the admin can assign it and make it an open task again |
| Dashboard.StatusLabel | src/app/dashboard/components/dashboard-client.tsx:49-57 | the badge label of each status: Naujas, Priskirtas, Vykdomas, Užbaigtas |
| Dashboard.StatusLabelsDistinct | src/app/dashboard/components/dashboard-client.tsx:49-57 | different statuses carry different badge labels |
| ForbiddenWords.WithWordAdded | src/context/forbidden-words-context.tsx:18-23 | the lower-cased word is listed afterwards; the list gains only that word, in front and only when it was absent, and the old list follows unchanged |
| ForbiddenWords.WithWordDeleted | src/context/forbidden-words-context.tsx:25-27 | the lower-cased word is gone, every other entry stays, and a list without it is unchanged |
| ForbiddenWords.AddKeepsWellFormed | src/context/forbidden-words-context.tsx:18-23 | adding keeps the list lower case and free of duplicates |
| ForbiddenWords.DeleteKeepsWellFormed | src/context/forbidden-words-context.tsx:25-27 | deleting keeps the list lower case and free of duplicates |
| ForbiddenWords.DeleteKeepsOrder | src/context/forbidden-words-context.tsx:26 | deleting keeps the survivors in their relative order |
| ForbiddenWords.DeleteUndoesAdd | src/context/forbidden-words-context.tsx:18-27 | deleting a word just added restores the list |
| ForbiddenWords.DeleteListedRemovesOne | src/context/forbidden-words-context.tsx:25-27 | in a well-formed list, deleting a listed entry removes exactly that position |
| ForbiddenWords.InitialWordsWellFormed | src/context/forbidden-words-context.tsx:5 | the built-in words are lower case and distinct |
| ForbiddenWords.ForbiddenWordList.constructor | src/context/forbidden-words-context.tsx:16 | the list starts as the built-in words and is well formed |
| ForbiddenWords.ForbiddenWordList.Add | src/context/forbidden-words-context.tsx:18-23 | the new list is the old one with the word added, and it stays lower case and duplicate-free |
| ForbiddenWords.ForbiddenWordList.Delete | src/context/forbidden-words-context.tsx:25-27 | the new list is the old one with the word deleted, and it stays lower case and duplicate-free |
| ForbiddenWordsClient.WordFormValid | src/app/dashboard/forbidden-words/components/forbidden-words-client.tsx:39-41 | the word form's rule: two or more characters, each from `a-z`, `A-Z` or U+0104..U+017E |
| ForbiddenWordsClient.AcceptedWordLowersToLetters | src/app/dashboard/forbidden-words/components/forbidden-words-client.tsx:40 | a word the form accepts (two or more characters from `a-z`, `A-Z`, U+0104..U+017E) is still two or more letters once lower-cased |
| ForbiddenWordsClient.InitialWordsFailTheForm | src/app/dashboard/forbidden-words/components/forbidden-words-client.tsx:40 | two of the built-in words hold a digit, which the form would refuse |
| ForbiddenWordsClient.OnSubmit | src/app/dashboard/forbidden-words/components/forbidden-words-client.tsx:54-69 | a word whose lower-case form is listed is refused and the list stays; any other word is added in front, lower-cased |
| ForbiddenWordsClient.HandleDeleteClick | src/app/dashboard/forbidden-words/components/forbidden-words-client.tsx:71-77 | deleting the displayed entry removes exactly that entry and keeps the list well formed |
| Censor.SameUpToCaseIsLowerEquality | src/app/dashboard/components/add-fault-dialog.tsx:79 | the case-insensitive comparison is equality after lower-casing |
| Censor.FirstMatchIsFirst | src/app/dashboard/components/add-fault-dialog.tsx:79 | the alternative taken at a position matches and no earlier alternative does; none is taken exactly when none matches |
| Censor.MatchLengthFacts | src/app/dashboard/components/add-fault-dialog.tsx:79 | a non-empty match length is the length of an alternative matching there |
| Censor.CensorText | src/app/dashboard/components/add-fault-dialog.tsx:75-81 | the output has the input's length and each character is the input's or `*`; an empty word list returns the text unchanged |
| Censor.NoMatchKeepsText | src/app/dashboard/components/add-fault-dialog.tsx:79-80 | a text in which no forbidden word stands as a whole word comes back unchanged |
| Censor.StarsOnlyOverMatches | src/app/dashboard/components/add-fault-dialog.tsx:79-80 | every changed character is `*` and lies under a whole-word, case-insensitive match of some forbidden word |
| Censor.MatchesDoNotStraddle | src/app/dashboard/components/add-fault-dialog.tsx:79 | matches of word-character alternatives never overlap unless they start together, and then have equal length |
| Censor.MatchEndsOutsideRun | src/app/dashboard/components/add-fault-dialog.tsx:79 | a match never ends strictly inside a run of word characters, since its end must be a boundary |
| Censor.WholeWordCensored | src/app/dashboard/components/add-fault-dialog.tsx:79-80 | each forbidden word made of word characters and standing as a whole word, in any letter case, is replaced entirely by asterisks, whatever the other entries are, as long as none is empty |
| Censor.LithuanianWordMissedAsWritten | src/app/dashboard/components/add-fault-dialog.tsx:79 | with the pattern's ASCII `\b`, "žodis" standing alone is not censored, though it is a whole word |
| Censor.LithuanianWordGluedCensoredAsWritten | src/app/dashboard/components/add-fault-dialog.tsx:79 | with the pattern's ASCII `\b`, "xžodis" becomes "x*****", though "žodis" is not a whole word there |
| Censor.LithuanianWordCensoredCorrected | src/app/dashboard/components/add-fault-dialog.tsx:79 | with letters as word characters, "žodis" standing alone becomes "*****" |
| AddFaultDialog.OfferedTypeKeys | src/app/dashboard/components/add-fault-dialog.tsx:200-201 | the type picker offers four keys, the spelling of every category |
| AddFaultDialog.TypeAcceptedAsWritten | src/app/dashboard/components/add-fault-dialog.tsx:58 | the dialog's written type rule: electricity, plumbing, renovation or general |
| AddFaultDialog.HeatingRefusedAsWritten | src/app/dashboard/components/add-fault-dialog.tsx:58 | the written type rule refuses "heating", which the picker offers, and accepts "renovation", which is no category |
| AddFaultDialog.TypeAcceptedIsOffered | src/app/dashboard/components/add-fault-dialog.tsx:58 | the corrected type rule accepts exactly the keys the picker offers |
| AddFaultDialog.DigitsOnly | src/app/dashboard/components/add-fault-dialog.tsx:162 | the phone filter's output is digits only and no longer than the input |
| AddFaultDialog.DigitsOnlyConcat | src/app/dashboard/components/add-fault-dialog.tsx:162 | the filter keeps the digits in their order: it distributes over concatenation |
| AddFaultDialog.DigitsOnlyKeepsDigits | src/app/dashboard/components/add-fault-dialog.tsx:162 | a string of digits passes the filter unchanged |
| AddFaultDialog.DigitsOnlyIdempotent | src/app/dashboard/components/add-fault-dialog.tsx:162 | filtering twice is filtering once |
| AddFaultDialog.PhoneAccepted | src/app/dashboard/components/add-fault-dialog.tsx:56 | the phone rule: exactly eight characters, all digits |
| AddFaultDialog.FullPhoneNumber | src/app/dashboard/components/add-fault-dialog.tsx:92 | the stored number is `+370` followed by the local digits, four characters longer |
| AddFaultDialog.StoredPhoneShape | src/app/dashboard/components/add-fault-dialog.tsx:56-92 | an accepted phone (eight digits) is stored as twelve characters, digits after the prefix |
| AddFaultDialog.DialogFormValid | src/app/dashboard/components/add-fault-dialog.tsx:53-62 | the dialog's schema: name ≥ 2, an e-mail, an accepted phone, address ≥ 5, the written type rule, description 10..500 |
| AddFaultDialog.DialogSubmit | src/app/dashboard/components/add-fault-dialog.tsx:53-93 | under the dialog's written rules, a form reaches `addFault` exactly when its type key is not "renovation"; the submitted data keeps the fields, spells the type key, carries `+370` followed by the typed digits as phone, and meets the schema's bounds |
| AddFaultDialog.DialogNeverSubmitsHeating | src/app/dashboard/components/add-fault-dialog.tsx:58-93 | no form the dialog accepts submits a heating fault: every submitted type key is a category other than "heating" |
| AddFaultDialog.InitialWordsCensorable | src/context/forbidden-words-context.tsx:5 | the built-in words are non-empty runs of word characters, under the ASCII class of `\b` as under the letter class |
| AddFaultDialog.UpdatesKeepNoEmptyWords | src/app/dashboard/forbidden-words/components/forbidden-words-client.tsx:40 | adding a word the form accepts, or deleting any word, never puts an empty entry on the list |
| AddFaultDialog.UpdatesKeepCensorable | src/app/dashboard/forbidden-words/components/forbidden-words-client.tsx:40 | deleting any word keeps every entry a non-empty run of word characters; adding a word the form accepts does too under the letter class, and under the ASCII class only when the word is ASCII |
| AddFaultDialog.CensorDescription | src/app/dashboard/components/add-fault-dialog.tsx:75-81 | the description as the dialog censors it, with ASCII `\b`: it is only ever masked with `*`, and an empty list leaves it as typed |
| AddFaultDialog.ForbiddenWordMaskedInDescription | src/app/dashboard/components/add-fault-dialog.tsx:79-80 | every listed word made of ASCII word characters and standing as an ASCII whole word in the description, in any case, is masked completely, whatever else the list holds |
| AddFaultDialog.MixedListMasksAsciiWord | src/app/dashboard/components/add-fault-dialog.tsx:79-80 | with "žodis" on the list beside "keiksmas1", the description "keiksmas1" is still masked whole |
| AddFaultDialog.DescriptionKeepsLithuanianWord | src/app/dashboard/components/add-fault-dialog.tsx:79 | "žodis", which the word form accepts, stays unmasked when typed alone in the description |
| AddFaultDialog.CensorDescriptionCorrected | src/app/dashboard/components/add-fault-dialog.tsx:75-81 | the description censored with letters as word characters: only ever masked with `*`, and an empty list leaves it as typed |
| AddFaultDialog.ForbiddenWordMaskedWhenCorrected | src/app/dashboard/components/add-fault-dialog.tsx:79-80 | with letters as word characters, every listed word made of letters and digits (every word the word form can produce), standing as a whole word in any case, is masked completely |
| ReportFaultForm.ReportFormValid | src/components/report-fault-form.tsx:28-36 | the report schema: name ≥ 2, an e-mail, address ≥ 5, one of the four category keys, description 10..500 |
| ReportFaultForm.ReportTranslation | src/components/report-fault-form.tsx:38-43 | each key of the form's own table has a non-empty label |
| ReportFaultForm.AcceptedTypesAreTranslated | src/components/report-fault-form.tsx:32-43 | a key is accepted exactly when it has a translation, exactly when it spells a category, and its label is the shared table's |
| ReportFaultForm.AcceptedReportIsLabelled | src/components/report-fault-form.tsx:28-43 | an accepted report has name ≥ 2, address ≥ 5 and description 10..500 characters, and a category with a label |
| WorkerForm.WorkerFormValid | src/app/dashboard/workers/components/workers-client.tsx:44-51 | the worker schema: name ≥ 2, an e-mail, password ≥ 8, at least one non-empty specialty entry |
| WorkerForm.Specialties | src/app/dashboard/workers/components/workers-client.tsx:147 | the categories the checked keys name: no more than the keys, and a category is among them exactly when its key is checked |
| WorkerForm.AcceptedWorkerFormHasSpecialty | src/app/dashboard/workers/components/workers-client.tsx:44-51 | a form the schema accepts, whose keys come from the checkboxes, names at least one category, and every checked category among them |
| WorkerForm.ToggleKeepsCategoryKeys | src/app/dashboard/workers/components/workers-client.tsx:147-168 | toggling a category's checkbox keeps the list made of category keys |
| WorkerForm.ToggleSpecialty | src/app/dashboard/workers/components/workers-client.tsx:161-168 | checking appends the key at the end and keeps the rest; unchecking removes every occurrence and keeps exactly the other entries |
| WorkerForm.UncheckKeepsOrder | src/app/dashboard/workers/components/workers-client.tsx:164-167 | unchecking keeps the other entries in order |
| WorkerForm.UncheckAbsentChangesNothing | src/app/dashboard/workers/components/workers-client.tsx:164-167 | unchecking a key that is not listed changes nothing |
| WorkerForm.CheckThenUncheckRestores | src/app/dashboard/workers/components/workers-client.tsx:161-168 | checking then unchecking a key that was absent restores the list |
| WorkerForm.CheckingChoosesSpecialty | src/app/dashboard/workers/components/workers-client.tsx:48-50 | checking any category's box satisfies the specialty rule |

## Left out

- Store I/O is not modelled. The model returns the document `addFault` would write and the payload `updateFault` would send. The writes and the live collection subscription are outside it.
- The notification flow backed by a language model is not part of this model: it is a foreign call.
- The e-mail rule of the validation library is a parameter. Its definition is not visible.
- Toasts, dialog open/close state, loading flags, routing, theming, icons, the signature pad and date formatting are UI only.
- The report form's submit only waits, logs and shows a message, so only its rules and table are modelled.
- Worker creation (`addWorker` in src/context/workers-context.tsx) is not part of this model. Only the worker form's rules and checkbox toggle are.
- Signatures, completion acts and their image URL are optional fields of a fault with no behaviour in the modelled code.
- React batching is not modelled; list updates are taken one at a time. `addForbiddenWord` tests the rendered list but prepends to the latest one.
- `setFaults` is used by the dashboard but not offered by the fault context. The dashboard handlers are modelled as the list rewrites they describe.
- The "renovation" key in the sample data and the dialog's rule is not a category. The sample worker-3 and fault FAULT-003 are given `General`.
- Text.LowerChar: maps case for ASCII, Latin-1 and Latin Extended-A only. Other letters, and U+0130, which lowers to two characters, are left unchanged.
- Censor.CensorText: the `i` flag is modelled by lower-casing, which agrees with the engine's upper-case canonicalisation below U+0180. Characters from U+0180 on are compared exactly.
- Censor.CensorText: string length is counted in characters, not UTF-16 code units, so text outside the Basic Multilingual Plane is not modelled.
- AddFaultDialog.DialogFormValid: the schema's length bounds count UTF-16 code units; the model counts characters, so a character outside the Basic Multilingual Plane (an emoji, say) counts once instead of twice.
- ReportFaultForm.ReportFormValid: the same; the length bounds are counted in characters, not UTF-16 code units.
- WorkerForm.WorkerFormValid: the same; the length bounds are counted in characters, not UTF-16 code units.
- AddFaultDialog.DialogSubmit: a "renovation" form, which the dialog's rule accepts, names no category and yields `None`; the dialog would hand the string "renovation" to `addFault` as the type.
- Censor.CensorText: forbidden words are matched literally. A stored word holding a regular-expression metacharacter would change the pattern; the form admits only letters, and the built-in words are letters and digits.
- The phone field's `maxLength` browser truncation is not modelled; the eight-digit rule is.

## Findings

| source | as written | input that shows it | evidently intended | confidence | as-written member | corrected member |
|---|---|---|---|---|---|---|
| src/app/dashboard/components/add-fault-dialog.tsx:58 | the dialog's type rule accepts electricity, plumbing, renovation and general | picking "Šildymas" in the type list (key "heating", offered at lines 200-201) is refused by the form | the rule accepts exactly the declared categories the picker offers | not executed | AddFaultDialog.HeatingRefusedAsWritten | AddFaultDialog.TypeAcceptedIsOffered |
| src/app/dashboard/components/add-fault-dialog.tsx:79 | `\b` without the `u` flag counts only `[A-Za-z0-9_]` as word characters | forbidden word "žodis" (accepted by the word form): the description "žodis" stays uncensored, while "xžodis" becomes "x*****" | a forbidden word is censored where it stands as a whole word, letters included | not executed | AddFaultDialog.DescriptionKeepsLithuanianWord | AddFaultDialog.ForbiddenWordMaskedWhenCorrected |
