# Entity lists of the parenting app's context providers

The mobile app keeps three lists of records in memory, one per React
context provider:

- vaccinations (`context/VaccinationContext.tsx`), with add, delete by id and set status by id;
- milestones (`context/MilestoneContext.tsx`), with add and delete by id;
- remedies (`context/RemedyContext.tsx`), with add only.

Each operation hands the provider's state cell an updater `(prev) => next`.
The updater builds the next list from the previous one with array spread,
`filter` or `map`, and never mutates anything. So the model gives each
updater as a Dafny function on sequences:

- `js_array.dfy` (module `JsArray`) models `Array.prototype.filter` and
  `Array.prototype.map`, with the general facts about them: order is kept,
  multiplicities are kept, filter distributes over concatenation, and so on.
- `vaccinations.dfy`, `milestones.dfy` and `remedies.dfy` hold one module per
  context file: the record type, the updaters, and the lemmas about them.

Ids come from the caller and are never checked for uniqueness, so the
model allows duplicate ids. Delete keeps the records whose id differs
(`filter`), so it removes every record with the id. The status update
(`map`) acts on every record with the id, changes only `status` and
accepts either value, so a Completed record can go back to Pending.
`Milestone.achievedDate` is a plain string.

## Model

| member | source | states |
|---|---|---|
| `JsArray.Filter` | context/VaccinationContext.tsx:28 | the result of `filter` is no longer than its input and holds exactly the input's elements that pass the test |
| `JsArray.FilterMultiplicity` | context/MilestoneContext.tsx:27 | `filter` keeps each passing element as many times as it occurs and no failing element at all |
| `JsArray.FilterIsSubsequence` | context/MilestoneContext.tsx:27 | `filter` only drops elements: the survivors keep their original relative order |
| `JsArray.FilterKeepsAll` | context/VaccinationContext.tsx:28 | when every element passes, `filter` returns its input unchanged |
| `JsArray.FilterDropsOne` | context/VaccinationContext.tsx:28 | when some element fails, `filter` returns a strictly shorter array |
| `JsArray.FilterConcat` | context/MilestoneContext.tsx:27 | filtering a concatenation is concatenating the filtered parts |
| `JsArray.FilterIdempotent` | context/MilestoneContext.tsx:27 | filtering twice with the same test equals filtering once |
| `JsArray.FilterSplitsLength` | context/MilestoneContext.tsx:27 | the passing and the failing elements together account for the whole length |
| `JsArray.Map` | context/VaccinationContext.tsx:32-34 | `map` keeps the length, and position `i` of the result is the function applied to position `i` of the input |
| `Vaccinations.AddVaccination` | context/VaccinationContext.tsx:24-26 | length grows by one, the new record is last, and all earlier records are unchanged |
| `Vaccinations.DeleteVaccination` | context/VaccinationContext.tsx:27-29 | no record with the id is left; every record with another id survives; nothing new appears; the result is a subsequence of the old list |
| `Vaccinations.DeleteVaccinationMultiplicity` | context/VaccinationContext.tsx:28 | each surviving record occurs as often as before, and records with the id occur zero times |
| `Vaccinations.DeleteVaccinationAbsent` | context/VaccinationContext.tsx:28 | deleting an id that no record carries leaves the list unchanged |
| `Vaccinations.DeleteVaccinationPresent` | context/VaccinationContext.tsx:28 | deleting an id that some record carries shortens the list |
| `Vaccinations.DeleteVaccinationIdempotent` | context/VaccinationContext.tsx:27-29 | deleting the same id twice equals deleting it once |
| `Vaccinations.UpdateStatus` | context/VaccinationContext.tsx:30-36 | length and each position's id, name, lastDate and dueDate are kept; a record's status becomes the new one exactly when its id matches |
| `Vaccinations.UpdateStatusAbsent` | context/VaccinationContext.tsx:33 | updating an id that no record carries leaves the list unchanged |
| `Vaccinations.UpdateStatusLastWins` | context/VaccinationContext.tsx:30-36 | two updates of the same id equal the second update alone |
| `Vaccinations.UpdateStatusIdempotent` | context/VaccinationContext.tsx:30-36 | setting the same status twice equals setting it once |
| `Vaccinations.DeleteAfterUpdateStatus` | context/VaccinationContext.tsx:27-35 | deleting an id after updating its status gives the same list as deleting it without the update |
| `Vaccinations.UpdateStatusAfterAdd` | context/VaccinationContext.tsx:24-35 | updating after an add equals updating the old list and then adding the record, updated when its id matches |
| `Vaccinations.AddAllVaccinationsInOrder` | context/VaccinationContext.tsx:24-26 | a run of adds gives the old list followed by the added records in insertion order |
| `Vaccinations.DeleteAfterAddVaccination` | context/VaccinationContext.tsx:24-29 | when no earlier record carries the new id, deleting it right after the add restores the old list |
| `Milestones.AddMilestone` | context/MilestoneContext.tsx:22-24 | length grows by one, the new record is last, and all earlier records are unchanged |
| `Milestones.DeleteMilestone` | context/MilestoneContext.tsx:26-28 | no record with the id is left, duplicates included; every record with another id survives; nothing new appears; the order is kept |
| `Milestones.DeleteMilestoneLength` | context/MilestoneContext.tsx:27 | the list shrinks by exactly the number of records that carry the id |
| `Milestones.DeleteMilestoneMultiplicity` | context/MilestoneContext.tsx:27 | each surviving record occurs as often as before, and records with the id occur zero times |
| `Milestones.AddMilestoneDuplicateId` | context/MilestoneContext.tsx:22-24 | with no id check, adding a record raises the count of entries with its id by one, so duplicates coexist |
| `Milestones.DeleteMilestoneAbsent` | context/MilestoneContext.tsx:27 | deleting an id that no record carries leaves the list unchanged |
| `Milestones.DeleteMilestoneIdempotent` | context/MilestoneContext.tsx:27 | deleting the same id twice equals deleting it once |
| `Milestones.DeleteAfterAddMilestone` | context/MilestoneContext.tsx:22-28 | deleting the id of a record just added equals deleting that id from the old list |
| `Milestones.DeleteAfterAddMilestoneRestores` | context/MilestoneContext.tsx:22-28 | when the new id did not occur before, deleting it right after the add restores the old list |
| `Milestones.AddAllMilestonesInOrder` | context/MilestoneContext.tsx:22-24 | a run of adds gives the old list followed by the added records in insertion order |
| `Remedies.AddRemedy` | context/RemedyContext.tsx:21-23 | length grows by one with no id check, the new record is the head, and the tail is the previous list |
| `Remedies.AddTwoRemediesNewestFirst` | context/RemedyContext.tsx:22 | adding `r1` and then `r2` gives `[r2, r1]` ahead of the old list |
| `Remedies.AddAllRemediesNewestFirst` | context/RemedyContext.tsx:21-23 | a run of adds gives the added records in reverse insertion order, ahead of the old list |
| `Remedies.AddAllRemediesAt` | context/RemedyContext.tsx:21-23 | after a run of adds, position `k` holds the `k`-th most recent record, then the old list follows |

## Left out

- The React wiring is left out: `createContext`, the `useState` cells, the provider components, and the `useVaccinations`/`useMilestones`/`useRemedies` accessors that throw outside a provider. The model gives the updater that each setter receives. Since React runs each updater on the latest list, a sequence of calls is a composition of these functions.
- `api/auth.ts` (signup and doctor-signup requests) is network and local-storage I/O against a backend that is not part of this model.
- `utils/api.ts` (the HTTP client that adds a bearer token from local storage) is a thin wrapper over foreign async libraries and is not modelled.
- `app/_layout.tsx` and the screens under `app/` are UI composition and input forms. They are not part of this model.
- Identity of JavaScript objects is not modelled. Records are values, so two records with equal fields are indistinguishable here. The lists' contents and order are modelled in full.
- No update or delete for remedies and no update for milestones: the source defines none.
