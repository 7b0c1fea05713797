# Activity planner: allocation, import and roster edits

A Dafny model of the logic of a school activity planner (`App.tsx`). The planner keeps three collections:

- **students**: each has a name, a class letter, ranked priorities and the activity instances assigned to it;
- **activity instances**: each has a public id, a capacity and a time slot: `G` full day, `V` morning, `N` afternoon;
- **classes**.

Several instances may share one public id. They are alternatives of a single offering.

The model covers these handlers:

- **`runAllocation`**: a greedy, round-based allocation over the selected classes.
  - Students in unselected classes ("inactive") and locked students keep what they hold. Their holdings seed the occupancy counters.
  - The remaining ("unlocked active") students are cleared and go through `assignmentsPerStudent` rounds.
  - Each round shuffles the working list with Fisher-Yates and moves morning-only students to the front.
  - In a round, each student may take one more instance: the first valid instance of the earliest priority that it does not yet hold and that has a valid instance. A valid instance is one the student may attend and that has room. A priority without a valid instance is passed over, and the scan goes on to the next one.
  - The result is merged and sorted by name.
- **`parseCSV`**: the roster import. It has two line formats:
  - single-class: `Name, P1, P2, ..., [X]`, where the class is forced;
  - bulk: `Name, ClassLetter, P1, ..., [X]`.
- **The roster edits**:
  - the next free class letter;
  - the public-id rule for a manually added activity;
  - deleting an activity;
  - the three drag-and-drop handlers;
  - the summary counts.

The model is split into these modules:

| module | file | what it holds |
|---|---|---|
| `Roster` | `roster.dfy` | the entities of `types.ts` |
| `Seqs` | `seqs.dfy` | `filter` and `find`, with their lemmas |
| `Ordering` | `ordering.dfy` | the Fisher-Yates shuffle, the stable "morning-only first" sort, and the sort by name |
| `Occupancy` | `occupancy.dfy` | occupancy counts and the counter-seeding loops |
| `Constraints` | `constraints.dfy` | eligibility, capacity and the choice rule |
| `Allocation` | `engine.dfy` | the run as functions, plus `RunAllocation`, the imperative version with a counter map, an in-place working array and nested loops, proved equal to the functions |
| `AllocationProofs` | `engine_proofs.dfy` | the invariants and theorems about a run |
| `CsvImport` | `csv_import.dfy` | the string operations `parseCSV` uses, one line, the whole text |
| `Edits` | `edits.dfy` | the edit handlers and `getStats` |

Randomness, fresh ids and the name comparator are inputs:

- **`Math.random`**: one Fisher-Yates pass is a sequence of swap indices `j <= i`, and `DrawsFit` gives one pass per round. `Ordering.ShuffleReachesEveryOrder` shows that these inputs can produce every order, so none is excluded.
- **`crypto.randomUUID`**: the import takes `uuid(k)` as the id of the k-th student it produces. The edits take the new id as a parameter.
- **`localeCompare`**: modelled as a comparator `leq` on names. Sortedness is proved when `leq` is a total preorder.
- **`confirm`** and the dragged student id: plain inputs.

## Model

| member | source | states |
|---|---|---|
| Seqs.Find | App.tsx:62 | `find` returns nothing exactly when no element qualifies, otherwise the earliest qualifying element |
| Seqs.FilterMembers | App.tsx:368-378 | `Seqs.Filter`: `filter` keeps exactly the elements satisfying the predicate |
| Seqs.FilterPartition | App.tsx:368-378 | `Seqs.Filter`: a filter and its complement together hold every element exactly as often as the input |
| Occupancy.InitCounts | App.tsx:382-383 | there is one counter per catalogue instance id, and each starts at zero |
| Occupancy.CountAssignments | App.tsx:387-391 | each counter grows by the number of times the student holds that id; ids without a counter are ignored |
| Occupancy.CountHeld | App.tsx:385-401 | each counter grows by the occupancy of that id among the given students; no counter is added |
| Occupancy.OccurrencesPermutation | App.tsx:461-462 | `Occupancy.Occurrences`: occupancy does not depend on the order of the students |
| Ordering.FisherYates | App.tsx:417-421 | `Ordering.Shuffle`: the in-place shuffle leaves the array equal to the specified pass over the given swap indices |
| Ordering.ShufflePermutes | App.tsx:417-421 | `Ordering.Shuffle`: a shuffle only reorders |
| Ordering.ShuffleReachesEveryOrder | App.tsx:417-421 | `Ordering.Shuffle`: every permutation of the working list is the result of some valid swap indices |
| Ordering.MoveMorningOnlyFirst | App.tsx:408-412 | `Ordering.MorningFirst`: the in-place re-sort leaves the array equal to the stable morning-only-first order of its old contents |
| Ordering.MorningFirstPermutes | App.tsx:423 | `Ordering.MorningFirst`: the morning-only-first sort only reorders |
| Ordering.MorningFirstOrder | App.tsx:423 | `Ordering.MorningFirst`: every morning-only student comes before every other student, and each group keeps its order from the shuffle |
| Ordering.SortByNamePermutes | App.tsx:462 | `Ordering.SortByName`: the sort by name only reorders |
| Ordering.SortByNameSorted | App.tsx:462 | `Ordering.SortByName`: with a total-preorder comparator, the result is ordered by name |
| Constraints.ChooseSound | App.tsx:431-456 | `Constraints.Choose`: a chosen instance is in the catalogue, has one of the student's priorities as its public id, has room, may be attended by the student, and has a public id the student does not hold yet |
| Constraints.ChooseNothing | App.tsx:431-456 | `Constraints.Choose`: the student receives nothing exactly when none of its priorities is both unheld and backed by a valid instance |
| Constraints.ChooseEarliest | App.tsx:431-456 | `Constraints.Choose`: otherwise the student receives the first valid instance of the earliest priority that is both |
| Constraints.FirstValidInstance | App.tsx:440-451 | `Constraints.Choose`: that instance is the first in catalogue order with the public id that passes both checks |
| Constraints.MorningScenario | App.tsx:440-448 | `Constraints.Choose`: a morning-only student offered a full-day and a morning instance of its priority receives the morning one |
| Allocation.PickInstance | App.tsx:431-456 | `Constraints.Choose`: the loop with `continue` and `break` returns exactly the choice of the rule |
| Allocation.RunRound | App.tsx:426-457 | `Allocation.Round`: one pass over the working array leaves the array and the counters equal to the specified round |
| Allocation.SeedCounts | App.tsx:380-401 | `Occupancy.Seed`: the counters are seeded from the inactive students and then the locked active ones |
| Allocation.RunRounds | App.tsx:414-458 | `Allocation.Rounds`: the round loop (shuffle, re-sort, one turn each) reaches the specified state after `target` rounds |
| Allocation.RunAllocation | App.tsx:356-464 | `Allocation.Allocate`: the handler returns exactly the specified outcome, including each refusal |
| AllocationProofs.ChoiceRuleSound | App.tsx:440-448 | `Allocation.ChoiceRule`: every choice the handler's rule makes passes the morning-only and capacity checks and is an unheld public id |
| AllocationProofs.RoundGrowth | App.tsx:426-428 | `Allocation.Round`: in a round, each student changes at most by one appended instance; a student already holding `target` is skipped; no other field changes |
| AllocationProofs.RoundPrefixUntouched | App.tsx:426 | `Allocation.RoundPrefix`: students who have not had their turn are unchanged |
| AllocationProofs.RoundsKeepCounters | App.tsx:452-453 | `Allocation.Rounds`: after any number of rounds, every counter equals its seed plus the working students' occupancy |
| AllocationProofs.RoundsKeepCapacity | App.tsx:445 | `Allocation.Rounds`: after any number of rounds, no counter is above its capacity unless its seed already was |
| AllocationProofs.RoundsKeepSound | App.tsx:428-448 | `Allocation.Rounds`: after any number of rounds, every working student holds at most `target` catalogue instances, only morning ones if morning-only, and no public id twice |
| AllocationProofs.GroupsPartition | App.tsx:368-378 | `Allocation.Active`, `Allocation.Inactive`, `Allocation.LockedActive` and `Allocation.UnlockedActive`: inactive, locked active and unlocked active students together are the roster |
| AllocationProofs.GroupMembers | App.tsx:368-378 | `Allocation.Active`, `Allocation.Inactive`, `Allocation.LockedActive` and `Allocation.UnlockedActive`: who falls into each of the three groups |
| AllocationProofs.AllocateRefuses | App.tsx:357-374 | `Allocation.Allocate`: a run refuses, with the roster unchanged, exactly when there are no activities, no selected classes, or no student in the selected classes |
| AllocationProofs.AllocateCapacity | App.tsx:383-453 | `Allocation.Allocate`: no instance ends a run above its capacity unless the inactive and locked students already held it above |
| AllocationProofs.FullInstanceBlocks | App.tsx:383-401 | `Allocation.Allocate`: an instance that inactive or locked holders already fill goes to no reallocated student |
| AllocationProofs.AllocateGroups | App.tsx:460-462 | `Allocation.Allocate`: every inactive or locked student is in the result, record for record; the result is exactly the three groups |
| AllocationProofs.AllocateSoundHoldings | App.tsx:431-448 | `Allocation.Allocate`: every reallocated student holds at most `target` catalogue instances, only morning instances if morning-only, and no public id twice |
| AllocationProofs.AllocatePermutes | App.tsx:404-462 | `Allocation.Allocate`: up to the reallocated assignments, the result is the input roster reordered, and it is sorted by name |
| AllocationProofs.ReallocatedCleared | App.tsx:404 | `Allocation.Working`: the reallocated students are the unlocked active students with only their assignments changed |
| AllocationProofs.CompetingScenario | App.tsx:445-454 | `Allocation.Round`: when two students want one seat, the first in working order takes it; the other gets nothing and the counter is full |
| CsvImport.TrimSlice | App.tsx:40 | `CsvImport.Trim`: `trim` cuts only white space from the two ends, and what is left neither starts nor ends with white space |
| CsvImport.TrimBlank | App.tsx:40 | `CsvImport.Trim`: a line trims to nothing exactly when it is all white space |
| CsvImport.SplitClean | App.tsx:42 | `CsvImport.Split`: no piece of a split contains a separator |
| CsvImport.SplitJoin | App.tsx:42 | `CsvImport.Split`: joining the pieces of a split gives back the text |
| CsvImport.SplitOfJoin | App.tsx:42 | `CsvImport.Split`: splitting undoes a join on a separator the pieces do not contain |
| CsvImport.LinesOfText | App.tsx:36 | `CsvImport.Lines`, `text.split(/\r?\n/)`: lines written with any mix of `\n` and `\r\n` breaks are read back as written, provided no line holds `\n` and none before a bare `\n` ends in `\r` |
| CsvImport.TextOfLines | App.tsx:36 | `CsvImport.Lines`: every text is its lines written back with the breaks it had; no line holds `\n`, and a `\r` is dropped exactly before a `\r\n` break |
| CsvImport.FieldsClean | App.tsx:42 | `CsvImport.Fields`, `split(/[,;]/)` then `trim`: no field holds `,` or `;`, and none starts or ends with white space |
| CsvImport.FieldsOfJoin | App.tsx:42 | `CsvImport.Fields`: fields without separators or white space at their ends, joined with `,` or `;`, are read back as written |
| CsvImport.MorningFlagIsX | App.tsx:52 | `CsvImport.IsMorningFlag`: the sentinel is exactly `X` or `x` |
| CsvImport.StripMorningFlagRestores | App.tsx:51-57 | `CsvImport.StripMorningFlag`: the tokens are the kept ones followed by the removed one, if any, and a token is removed exactly when the last is `X` or `x` |
| CsvImport.StripMorningFlagAdded | App.tsx:51-57 | `CsvImport.StripMorningFlag`: a sentinel appended to any tokens is removed again and sets the flag |
| CsvImport.LeadingDigits | App.tsx:73 | `parseInt` reads the longest prefix of digits |
| CsvImport.ParseIntDecimal | App.tsx:73 | `CsvImport.ParseInt`: every number written in decimal parses back to itself, whatever non-digit text follows |
| CsvImport.ParseIntSignedDecimal | App.tsx:73 | `CsvImport.ParseInt`: the same holds with `-` or `+` in front |
| CsvImport.ParseIntRejects | App.tsx:72-74 | `CsvImport.ParseInt`: a token that starts with neither a digit nor a sign is NaN, the sentinel included |
| CsvImport.PrioritiesToken | App.tsx:72-74 | `CsvImport.Priorities`: each token contributes its value in its place, and a NaN token drops out |
| CsvImport.BlankLineSkipped | App.tsx:40 | `CsvImport.ParseLine`: a blank line yields no student |
| CsvImport.UnknownForcedClass | App.tsx:62-63 | `CsvImport.ParseLine`: in single-class mode, a class id that matches no class yields no student |
| CsvImport.ShortBulkLine | App.tsx:79 | `CsvImport.ParseFields`: in bulk mode, a line with fewer than three fields yields no student |
| CsvImport.EmptyNameSkipped | App.tsx:101 | `CsvImport.ParseFields`: a line with an empty name yields no student |
| CsvImport.ParsedFields | App.tsx:44-112 | `CsvImport.ParseFields`: a produced student has the fresh id and the first field as its name; its priorities are the tokens that parse, in order, after a trailing sentinel sets the flag; it has no assignments and is not locked |
| CsvImport.ParsedLine | App.tsx:39-112 | `CsvImport.ParseLine`: only a non-blank line yields a student, and it yields a new record |
| CsvImport.ForcedClass | App.tsx:62-67 | `CsvImport.ParseFields`: a single-class student gets the name and letter of the forced class |
| CsvImport.BulkClass | App.tsx:79-91 | `CsvImport.ParseFields`: a bulk student gets the upper-cased letter, with the first class carrying it or `"<L> (Unbekannt)"` when none does |
| CsvImport.CollectStudents | App.tsx:39-113 | `CsvImport.ParseLines`: the `forEach` with its `push` produces exactly the specified students, in line order |
| CsvImport.ParseCsv | App.tsx:31-116 | `CsvImport.ParseLines` over `CsvImport.Lines`: `parseCSV` produces exactly the students its lines yield |
| CsvImport.ImportedStudents | App.tsx:101-112 | `CsvImport.ParseLines`: the k-th imported student has the k-th fresh id and a non-empty name; it has no assignments and is not locked |
| CsvImport.RejectedLineIgnored | App.tsx:39-113 | `CsvImport.ParseLines`: a line that yields nothing changes neither the students nor the ids the others receive |
| CsvImport.BlankLineIgnored | App.tsx:40 | `CsvImport.ParseLines`: a blank line anywhere in the text changes nothing |
| CsvImport.UnknownForcedClassYieldsNothing | App.tsx:61-63 | `CsvImport.ParseLines`: with an unknown forced class, the import yields nobody |
| CsvImport.StudentLineRoundTrip | App.tsx:59-75 | `CsvImport.ParseLine`: a line written as `Name,P1,...,Pn[,X]` is read back with its name, its priorities in order, and its flag |
| CsvImport.AnnaExample | App.tsx:59-75 | `CsvImport.ParseLine`: `Anna,5,2,1,X` in single-class mode gives priorities [5, 2, 1] and sets morning-only |
| Edits.NextClassLetter | App.tsx:172-182 | the result is `"?"` exactly when all 26 letters are taken; otherwise it is the first letter of A to Z that no class carries |
| Edits.MaxPublicId | App.tsx:227 | the result is at least every public id and equal to one of them |
| Edits.AddManualActivityShape | App.tsx:216-240 | `Edits.AddManualActivity`: with no name or no leader, nothing changes; otherwise the draft is appended with the fresh id and the computed public id |
| Edits.PublicIdReused | App.tsx:219-225 | `Edits.NewPublicId`: a new instance takes the public id of the first instance with the same name and leader, ignoring case |
| Edits.PublicIdFresh | App.tsx:225-229 | `Edits.NewPublicId`: otherwise it takes one more than the largest public id, or 1 in an empty catalogue, and no existing instance has that public id |
| Edits.PublicIdShared | App.tsx:219-229 | `Edits.NewPublicId`: a new instance shares a public id with an existing one exactly when the catalogue already holds the same offering |
| Edits.DeleteActivityEffect | App.tsx:245-252 | `Edits.DeleteActivity`: the catalogue loses exactly the entries with that id; each student keeps every field and every other assignment with its multiplicity, and no longer holds the id |
| Edits.DeleteActivityIdempotent | App.tsx:245-252 | `Edits.DeleteActivity`: deleting twice is the same as deleting once |
| Edits.DropOnActivityEffect | App.tsx:304-333 | `Edits.DropOnActivity`: the dragged student receives the target instance exactly when the instance exists, the student may attend it, and does not hold it yet, with no capacity check; every other record is unchanged |
| Edits.DropRefusesMorningOnly | App.tsx:314-317 | `Edits.DropOnActivity`: a morning-only student is never given a full-day or afternoon instance by a drop |
| Edits.DropKeepsNoRepeats | App.tsx:320 | `Edits.DropOnActivity`: a drop never adds an id the student already holds, so assignments stay free of repetitions |
| Edits.DropOnUnassignedEffect | App.tsx:335-345 | `Edits.DropOnUnassigned`: only a confirmed drop with a student id changes anything; it clears the assignments of exactly that student |
| Edits.RemoveAssignmentEffect | App.tsx:347-353 | `Edits.RemoveAssignment`: every occurrence of the id leaves that student's assignments, the rest are kept with their multiplicity, and nothing else changes |
| Edits.RemoveUndoesDrop | App.tsx:347-353 | `Edits.RemoveAssignment` and `Edits.DropOnActivity`: removing an assignment undoes the drop that added it |
| Edits.StatsPartition | App.tsx:467-473 | `Edits.GetStats`: with at least one course required, fully + partially + unassigned equals the total |
| Edits.StatsWithoutTarget | App.tsx:467-473 | `Edits.GetStats`: with no course required, every student counts as fully assigned and the unassigned ones are counted twice |

## Left out

- The drop handler checks only the instance id (App.tsx:320). A drop can therefore give a student a second instance of a public id it already holds. No public id twice is guaranteed only for students the allocation run reassigns (`AllocationProofs.AllocateSoundHoldings`).
- AllocationProofs.AllocateCapacity, AllocationProofs.AllocateSoundHoldings and AllocationProofs.FullInstanceBlocks: each assumes that catalogue instance ids are unique (`UniqueIds`), as do the round lemmas they rest on. The source guarantees this, since every instance id is a fresh `crypto.randomUUID()` (App.tsx:230).
- Full capacity slack is not proved: the claim that with room everywhere, every unlocked student with enough distinct priorities ends fully assigned. The model states what each round gives (`ChooseNothing`, `ChooseEarliest`) but not this consequence over all rounds.
- Rendering is not part of this model: all JSX, `components/ActivityCard.tsx`, and `components/PdfExport.tsx` (PDF layout and file output).
- `services/geminiService.ts` is not part of this model. It is a network call to a language model.
- Also not part of this model:
  - the login check: hard-coded passwords (App.tsx:161-169);
  - the React state and effects;
  - `alert` messages. runAllocation's three alerts (App.tsx:358, 363, 372) become the `Refusal` values. The drop handler's alert for a morning-only student (App.tsx:315) becomes no value: `Edits.DropOne` returns the record unchanged. The alerts of the import form (App.tsx:257-276) belong to a handler this model leaves out;
  - `dataTransfer`;
  - the other handlers: adding and removing classes, importing from the form, and toggling locks.
- `Math.random`, `crypto.randomUUID` and `localeCompare` are not modelled. They are inputs, as described above.
- `Array.prototype.sort` is modelled as a stable insertion sort. For a comparator that is not a total preorder, the order JavaScript produces is implementation-defined. The model then yields one particular order, and no sortedness is claimed.
- CsvImport.ParseInt: `parseInt(p, 10)` (App.tsx:73) reads an optional sign and leading ASCII decimal digits, as the model does. The model's integers are unbounded, so the precision limit of JavaScript numbers is not modelled.
- CsvImport.ToUpper and Edits.ToLower map ASCII letters only. Non-ASCII case mappings are left out.
- `assignmentsPerStudent` is a natural number in the allocation. It comes from a range slider with `min="1" max="5"`, read with `parseInt` (App.tsx:550-556), so it is one of the integers 1 to 5. The program itself does not refuse 0 (App.tsx:356-374), and neither does the model: with 0 there are no rounds and the reallocated students end with empty assignments. `getStats` takes any integer.
- addManualActivity: resetting the form afterwards is UI state and is left out.
