# Course-registration simulation (mcitSim.py), modelled in Dafny

mcitSim.py simulates the registration process of a master's programme with
six core courses (591-596) and six electives (515, 547, 549, 550, 581, 542).

- A `Policy` holds one prerequisite/corequisite graph, chosen by name. Its
  `getCourseOptions` computes, from the courses a student has taken, the
  courses the student may register for this term. Each such course comes
  with the courses that registering for it unlocks in the same term.
- A `Student` draws at most two courses a term from those options.
  - A course whose seat counter (`Course`) is full is dropped, and its trial
    count is raised.
  - The student then counts the term and checks the graduation rule: the
    whole core and at least ten courses.
- The `Simulator` admits `enrollmentRate` new students every term and
  shuffles the registration order. It walks the shuffled list, letting the
  students it visits register and removing graduates from the list (a
  removal makes the walk pass over the next student, as described below),
  and clears the seat counters. It repeats
  this for `duration` terms, and `run_sim_replicates` repeats whole runs.

The model has one module per concern:

| file | module | contents |
|---|---|---|
| `wrappers.dfy` | `Wrappers` | `Option` (Python's None) and `Result` (an exception) |
| `catalog.dfy` | `Catalog` | the course codes, the core and elective lists, the `Course` class (a seat counter updated in place) |
| `dicts.dfy` | `Dicts` | an insertion-ordered dictionary: `random.choice(list(options.keys()))` depends on key order |
| `policy.dfy` | `Policies` | the two graphs, `Policy.__init__` as `NewPolicy`, `passCoReq` as the predicate `PassCoReq` and its loop `CheckCoReqs`, one loop iteration as `Step`, the loop as the fold `CourseOptions`, and the loop itself as the method `GetCourseOptions`, proved equal to the fold |
| `policy_properties.dfy` | `PolicyProperties` | what `getCourseOptions` returns for every well-formed graph, proved through the loop invariant `Shape` |
| `policy_examples.dfy` | `PolicyExamples` | what it returns on the two shipped graphs |
| `students.dfy` | `Students` | the `Student` class: `chooseCourse`, its loop and one pass of it, `updateStudent`, `isGraduated` |
| `simulator.dfy` | `Simulation` | the `Simulator` class: `__init__`, `resetCoursesEnrollment`, `run_sim` split term by term and pass by pass, `run_sim_replicates` |

Randomness is a parameter:
- `random.choice` is an index oracle `draw(n)`, taken modulo the number of options.
- `random.uniform(0, 1) < oneClassOnly` is a boolean oracle `stop(n)`.
- `random.shuffle` is Python's Fisher-Yates walk with an oracle `swap(i)`, taken modulo `i + 1`.

In `Simulation`, these oracles are bundled per run in the datatype `Random`.

How the model handles three details of the code:

- **Removal during iteration (line 77).** Python's list iterator walks
  positions while `studentIDs.remove` shifts the list left. The student
  right after a graduate is therefore not visited in that term. The model
  keeps this behaviour, and `RegisterTerm` states which positions are
  visited.
- **The update at line 152.** `options[temp].append(key)` evaluates to
  None, so when `key` is already a key the code would store None. For
  every well-formed graph, `PolicyProperties` proves that this branch and
  its KeyError can never be reached. It also proves that no value is ever
  None.
- **Core-first with nothing taken.** The name "core-first", and a graph
  in which every elective requires the whole core, suggest that with
  nothing taken it offers the six core courses. The code offers `{'591': ['593'], '592': []}`: 593 through its corequisite
  591, and 594-596 not at all, since their prerequisites are missing. The
  model follows the code (`CoreFirstFirstTerm`).

## Model

| member | source | states |
|---|---|---|
| Catalog.AllCodesComplete | mcitSim.py:37-38 | every course code is in the catalogue; it is core exactly when it is in the core list, and an elective exactly when it is in the elective list |
| Catalog.Course.constructor | mcitSim.py:197-200 | a new offering has the given code and capacity and no seat taken |
| Catalog.Course.IsCourseFull | mcitSim.py:201-202 | full exactly when the counter has reached the capacity |
| Catalog.Course.EnrollCourse | mcitSim.py:203-204 | the counter rises by one, without a capacity check |
| Catalog.Course.ResetEnrollment | mcitSim.py:205-206 | the counter is back to 0 |
| Dicts.Empty | mcitSim.py:135 | `options = {}`: a well-formed dictionary with no keys |
| Dicts.Insert | mcitSim.py:142-152 | `d[k] = v` (also at line 234): the map gets `k := v`; a new key goes to the end of the order, a present key keeps its place, and each key stays listed once |
| Dicts.Appended | mcitSim.py:233-234 | the keys that assigning each of a list of courses adds to a dictionary: exactly those of the list not already keys, each once, in the order first met |
| Dicts.InsertAppended | mcitSim.py:234 | assigning the next course of the list extends the key order by exactly the keys that course adds |
| Dicts.WithoutAt | mcitSim.py:235-240 | in a key order without repeats, dropping a key removes exactly the one position where it stands |
| Dicts.Remove | mcitSim.py:235-240 | `del d[k]` (lines 235 and 240): the key leaves the map and its own position in the order, the other keys keep their relative order, the order shortens by exactly one, and each remaining key stays listed once |
| Dicts.RemoveEarlier | mcitSim.py:235 | deleting a key that stands before the keys appended since leaves the earlier keys without it, followed by the appended keys |
| Policies.NoRestrictionsEntry | mcitSim.py:99-112 | each course's prerequisite and corequisite lists under "no-restrictions" (the constant `NoRestrictionsGraph` maps every code to it, in catalogue order); no course requires itself, a core course requires only core courses, and every corequisite is also a prerequisite |
| Policies.CoreFirstEntry | mcitSim.py:114-128 | each course's lists under "core-first" (the constant `CoreFirstGraph`): a core course as under "no-restrictions", an elective the constant `CoreCourseReq`, the whole core and no corequisites; only core courses have corequisites, and no course requires itself |
| Policies.NoRestrictionsWellFormed | mcitSim.py:99-112 | the "no-restrictions" graph lists each course once, and every corequisite has its own entry |
| Policies.CoreFirstWellFormed | mcitSim.py:114-128 | the same for the "core-first" graph |
| Policies.NewPolicy | mcitSim.py:87-128 | ValueError exactly for a name outside `ListOfPolicies` (line 87: the two policies); otherwise the named policy, with a well-formed graph in catalogue order |
| Policies.AllTaken | mcitSim.py:143 | `all(item in coursesTaken for item in items)`: every course of the list is taken (also at line 160) |
| Policies.PrereqsMet | mcitSim.py:141-143 | a course's prerequisites are met: it has no prerequisite list, or every prerequisite is taken (lines 141-143, and 158-160 for a corequisite) |
| Policies.Outstanding | mcitSim.py:146-147 | `set(items) - coursesTaken`: the courses of the list not yet taken, as a set |
| Policies.PassCoReq | mcitSim.py:156-162 | what passCoReq decides: an empty remainder passes, and a failure names an outstanding corequisite with a prerequisite not taken |
| Policies.CheckCoReqs | mcitSim.py:156-162 | the loop over the remainder, with its early `return False`, returns exactly `PassCoReq`, whatever order the set is walked in |
| Policies.UnmetOutstanding | mcitSim.py:143-146 | a prerequisite list not all taken leaves a non-empty outstanding set |
| Policies.JointlyEligible | mcitSim.py:145-150 | a course that may be taken together with its outstanding corequisites has a non-empty corequisite remainder, so line 151's `[0]` exists |
| Policies.FirstOutstanding | mcitSim.py:151 | the course picked as companion key is one of the outstanding corequisites |
| Policies.CompanionKey | mcitSim.py:151 | `temp`, the key under which a jointly eligible course is listed: the first outstanding corequisite |
| Policies.Step | mcitSim.py:137-152 | one loop iteration that does not raise leaves a well-formed dictionary |
| Policies.FoldOptions | mcitSim.py:135-154 | the loop as a fold: on success the dictionary is well formed, and no key is ever deleted |
| Policies.CourseOptions | mcitSim.py:130-154 | getCourseOptions as a function: a result without exception is a well-formed dictionary (its keys and lists are stated in `PolicyProperties`) |
| Policies.GetCourseOptions | mcitSim.py:130-154 | the loop computes exactly the fold `CourseOptions` over the graph's keys, including its exceptions |
| PolicyProperties.UnchangedShape | mcitSim.py:139-149 | an iteration that adds nothing (course taken, already a key, or neither eligible nor jointly eligible) keeps the loop invariant |
| PolicyProperties.DirectShape | mcitSim.py:141-144 | adding an eligible course with an empty list keeps the loop invariant |
| PolicyProperties.DirectCompanions | mcitSim.py:142-144 | giving a key an empty list keeps every listed companion sound |
| PolicyProperties.DirectComplete | mcitSim.py:142-144 | giving a new eligible key an empty list leaves every companion key that was listed non-empty still listed non-empty |
| PolicyProperties.JointShape | mcitSim.py:145-152 | a jointly eligible course is never already a key, and listing it under its companion key keeps the loop invariant |
| PolicyProperties.JointCompanions | mcitSim.py:152 | listing a jointly eligible course under its companion key keeps every listed companion sound |
| PolicyProperties.JointComplete | mcitSim.py:152 | after line 152, every visited jointly eligible course has its companion key listed with a non-empty list |
| PolicyProperties.StepShape | mcitSim.py:137-152 | an iteration never raises on a well-formed graph, and it keeps the invariant with one more course visited |
| PolicyProperties.FoldShape | mcitSim.py:136-152 | the loop over any keys of the graph never raises, and it keeps the invariant with all of them visited |
| PolicyProperties.CourseOptionsShape | mcitSim.py:130-154 | getCourseOptions never raises, and its result satisfies the invariant for the whole graph |
| PolicyProperties.OptionKeys | mcitSim.py:139-144 | the keys are exactly the untaken courses whose prerequisites are met or absent (both directions) |
| PolicyProperties.OptionValues | mcitSim.py:152 | no value is None, and no list holds more than one companion |
| PolicyProperties.CompanionsJointlyEligible | mcitSim.py:145-152 | a listed companion is jointly eligible, is listed under its companion key (an outstanding corequisite), and is not itself a key |
| PolicyProperties.CompanionKeyOutstanding | mcitSim.py:146-151 | the companion key is an outstanding corequisite of the course |
| PolicyProperties.ShapeCompanion | mcitSim.py:145-152 | under the invariant, a listed companion is jointly eligible, listed under its companion key, and not a key |
| PolicyProperties.JointlyEligibleListed | mcitSim.py:152 | every jointly eligible course makes its companion key a key with a non-empty list |
| PolicyExamples.NoRestrictionsEntries | mcitSim.py:99-112 | the "no-restrictions" graph has each course's own entry |
| PolicyExamples.CoreFirstEntries | mcitSim.py:114-128 | the "core-first" graph has the shared core entries, and every elective requires the whole core |
| PolicyExamples.NothingTaken | mcitSim.py:141-144 | with nothing taken, prerequisites are met exactly when none are listed |
| PolicyExamples.CoreEntry | mcitSim.py:100-105 | the core entries are the same under both policies |
| PolicyExamples.Mismatched | mcitSim.py:146-149 | a course with an outstanding prerequisite that is not among its corequisites is not jointly eligible |
| PolicyExamples.FirstTermCompanion | mcitSim.py:145-151 | with nothing taken, 593 is jointly eligible and its companion key is 591 |
| PolicyExamples.FirstTermCoreAlone | mcitSim.py:145-149 | with nothing taken, no core course other than 593 is jointly eligible |
| PolicyExamples.FirstTermElectiveAlone | mcitSim.py:145-149 | with nothing taken, no elective of either policy is jointly eligible |
| PolicyExamples.FirstTermJoint | mcitSim.py:145-151 | with nothing taken, a course is jointly eligible exactly when it is 593 |
| PolicyExamples.FirstTermCompanionOf | mcitSim.py:145-152 | with nothing taken, the only listed companion is 593, under 591 |
| PolicyExamples.FirstTermCompanionList | mcitSim.py:141-152 | with nothing taken, 591 is a key with the list ['593'] |
| PolicyExamples.FirstTermEmptyList | mcitSim.py:141-152 | with nothing taken, every key other than 591 has an empty list |
| PolicyExamples.FirstTermLists | mcitSim.py:141-152 | both of the above, for the result of getCourseOptions |
| PolicyExamples.UnrestrictedFree | mcitSim.py:99-112 | under "no-restrictions", exactly 591, 592 and 515 have their prerequisites met when nothing is taken |
| PolicyExamples.CoreFirstFree | mcitSim.py:114-128 | under "core-first", exactly 591 and 592 have their prerequisites met when nothing is taken |
| PolicyExamples.UnrestrictedFirstKeys | mcitSim.py:139-144 | under "no-restrictions" with nothing taken, the keys are exactly {591, 592, 515} |
| PolicyExamples.CoreFirstFirstKeys | mcitSim.py:139-144 | under "core-first" with nothing taken, the keys are exactly {591, 592} |
| PolicyExamples.NoRestrictionsFirstTerm | mcitSim.py:130-154 | "no-restrictions" with nothing taken returns {'591': ['593'], '592': [], '515': []} |
| PolicyExamples.CoreFirstFirstTerm | mcitSim.py:130-154 | "core-first" with nothing taken returns {'591': ['593'], '592': []}, with no elective |
| PolicyExamples.CoreFirstElectiveEntry | mcitSim.py:114-128 | under "core-first", every elective requires the whole core and has no corequisites |
| PolicyExamples.CoreTaken | mcitSim.py:114 | every course of the core list taken is the same as the core set taken |
| PolicyExamples.CoreFirstElectiveLocked | mcitSim.py:114-154 | under "core-first", an elective is a key exactly when it is untaken and the whole core is taken, and it is never a companion |
| PolicyExamples.Offered | mcitSim.py:139-144 | an untaken course whose prerequisites are met is a key |
| PolicyExamples.NotOffered | mcitSim.py:139-144 | a taken course, or one with a prerequisite missing, is not a key |
| PolicyExamples.SecondTermOffered | mcitSim.py:99-112 | under "no-restrictions" after 591, the courses 592, 593, 594 and 515 are keys |
| PolicyExamples.SecondTermCoreBlocked | mcitSim.py:99-105 | under "no-restrictions" after 591, the courses 591, 595 and 596 are not keys |
| PolicyExamples.SecondTermElectivesBlocked | mcitSim.py:107-111 | under "no-restrictions" after 591, the courses 547, 549, 550, 581 and 542 are not keys |
| PolicyExamples.NoRestrictionsSecondTerm | mcitSim.py:130-154 | under "no-restrictions" after 591, the keys are exactly {592, 593, 594, 515} |
| Students.Tally | mcitSim.py:241-243 | a course's trial count so far, 0 when it has none yet; lines 241-243's `1 if absent else count + 1` is this count plus one |
| Students.CountedStep | mcitSim.py:241-243 | raising the trial count of a newly rejected course keeps the counts equal to the earlier counts plus one for each rejected course |
| Students.DrawingStart | mcitSim.py:223 | the options getCourseOptions returns satisfy the invariant of chooseCourse's loop before the first draw |
| Students.AllowedGrows | mcitSim.py:233-236 | a course allowed by some chosen courses stays allowed when more are chosen |
| Students.RegisterStart | mcitSim.py:231-233 | when an option is picked, every remaining key is allowed once the pick is chosen |
| Students.CompanionFacts | mcitSim.py:233 | a companion of the picked course is jointly eligible, listed under it, and neither picked, selected nor rejected |
| Students.CompanionWaits | mcitSim.py:145-151 | a course listed as a companion is not allowed while its companion key is not chosen, since its own prerequisites are unmet |
| Students.SelectedAllowed | mcitSim.py:236 | every course of an eligible selection is allowed once the whole selection is chosen |
| Students.ListedStep | mcitSim.py:234 | adding one companion as a key with an empty list extends the listed prefix and changes nothing else |
| Students.AllCompanions | mcitSim.py:233 | all companions of the picked course have the facts above |
| Students.ListedKeys | mcitSim.py:233-234 | after the companions are listed, every key is allowed once the pick is chosen |
| Students.ListedPool | mcitSim.py:233-234 | listing companions with empty lists keeps every listed companion sound |
| Students.ListedRegistering | mcitSim.py:233-234 | listing the companions keeps the registration state |
| Students.ListCompanions | mcitSim.py:233-234 | each companion of the pick becomes a key with an empty list, the new ones appended to the key order in the order met; no other key is added or changed; the registration state is kept |
| Students.ListedVals | mcitSim.py:233-234 | after listing, the options are the old ones with an empty list for each companion |
| Students.TakeCourse | mcitSim.py:231-236 | the pick joins the selection and leaves the options; the options (keys and lists) become the old ones plus an empty list for each of the pick's companions, minus the pick; the key order loses the pick's position and gains the new companions at its end; the loop invariant is kept |
| Students.Registered | mcitSim.py:235-236 | deleting the pick and appending it to the selection keeps the loop invariant |
| Students.RoundEnd | mcitSim.py:227 | when the loop ends, at most two courses are selected, each allowed; every rejected course was an option the student could take (untaken and allowed with the selection), met once and not selected; and with none selected every offered course was found full |
| Students.RegisteredEligible | mcitSim.py:236 | appending an allowed, new course keeps the selection eligible |
| Students.RegisteredRejected | mcitSim.py:235-236 | the rejected courses stay rejected when a course is selected |
| Students.Refused | mcitSim.py:239-243 | deleting a full course and recording it as rejected keeps the loop invariant |
| Students.RemovedPool | mcitSim.py:235-240 | deleting an option keeps the remaining keys allowed and their companions sound |
| Students.RemovedKeys | mcitSim.py:235-240 | deleting an option keeps the remaining keys allowed |
| Students.RemovedCompanions | mcitSim.py:235-240 | deleting an option keeps the remaining companions sound |
| Students.FewerCompanions | mcitSim.py:235-240 | any sub-dictionary with unchanged values keeps its companions sound |
| Students.RemovedFresh | mcitSim.py:235-236 | no remaining option is selected, including the one just appended |
| Students.RefusedRejected | mcitSim.py:240 | the deleted full course joins the rejected courses, each of which is rejected once |
| Students.Student.constructor | mcitSim.py:211-220 | a new student has taken nothing, has no trial counts, and has counted no terms; the record invariant holds |
| Students.Student.IsGraduated | mcitSim.py:260-261 | true exactly when the graduation rule holds, and then at least five terms have been counted |
| Students.Student.UpdateStudent | mcitSim.py:248-258 | one more term, the courses added, a term without courses counted, and the flag set once the rule holds and never cleared; the invariant is kept for at most two courses |
| Students.Student.ChooseCourse | mcitSim.py:222-246 | at most two courses; each untaken and allowed by its prerequisites or by a companion chosen before it; each had a free seat; the rejected courses were full, were options the student could take (untaken and allowed with the selection), counted once each, and were never selected; with none selected every offered course was full; the student is then updated as by updateStudent |
| Students.Student.DrawCourses | mcitSim.py:227-243 | the loop: an eligible selection of at most two courses with free seats; each rejected course was full and an option the student could take (untaken and allowed), and its trial count is raised by one |
| Students.Draws | mcitSim.py:227-243 | the while loop on the options: it ends with an eligible selection of at most two allowed courses with free seats, or with no options left; every rejected course was full; the trial counts rise by one for each rejection |
| Students.DrawOnce | mcitSim.py:229-243 | one draw at index `pick` modulo the number of options: a free course is selected (stopping as the coin says), the options become the old ones plus its companions with empty lists, minus it, and the key order loses that position and gains the new companions at its end; a full one is rejected and exactly it is deleted, the order losing just that position |
| Students.Graduates | mcitSim.py:256-257 | the graduation rule: the whole core and at least ten courses (the lemmas below and `IsGraduated` state what follows from it) |
| Students.GraduateElectives | mcitSim.py:256-257 | a graduate has taken at least four electives besides the six core courses |
| Students.GraduatesGrows | mcitSim.py:256-258 | taking more courses never undoes the graduation rule |
| Simulation.Range | mcitSim.py:65 | `range(lo, hi)` as a list: its length and its elements |
| Simulation.RangeMembers | mcitSim.py:65 | an id is in `range(lo, hi)` exactly when lo <= id < hi |
| Simulation.AppendRange | mcitSim.py:64-65 | appending a new cohort's ids above all listed ids keeps the ids distinct and below the new bound |
| Simulation.Kept | mcitSim.py:70-77 | the ids of the registration order still listed at the end of the term: those at the positions not removed, in order |
| Simulation.KeptSnoc | mcitSim.py:77 | the ids kept after one more position |
| Simulation.KeptWithin | mcitSim.py:77 | only ids of the order are kept |
| Simulation.KeptBelow | mcitSim.py:77 | the kept ids stay below any bound of the order |
| Simulation.KeptDistinct | mcitSim.py:77 | the kept ids stay distinct |
| Simulation.KeptMembers | mcitSim.py:77 | an id of the order is kept exactly when its position was not removed |
| Simulation.KeptUngraduated | mcitSim.py:70-77 | when no student of the order had graduated, no id kept after the term belongs to a graduate |
| Simulation.KeptExactly | mcitSim.py:70-77 | after the term, an id is kept exactly when it is in the order and its student has not graduated (both directions) |
| Simulation.Walk | mcitSim.py:70-77 | the state of the `for ... in studentIDs` loop after `j` positions of the order: the list as Python holds it (the kept ids, then the positions not yet reached), the iterator's index into it, and which positions were visited (the first, and each one after a position not removed) |
| Simulation.WalkStart | mcitSim.py:70 | the iteration starts at position 0 of the shuffled list |
| Simulation.WalkAt | mcitSim.py:70-72 | while inside the list, the iterator stands on the next position of the order, which is visited |
| Simulation.WalkStay | mcitSim.py:70-76 | when the visited student stays listed, the iterator moves on by one |
| Simulation.KeptSkip | mcitSim.py:77 | removing one position and keeping the next gives the kept prefix followed by the next id |
| Simulation.WalkRemove | mcitSim.py:76-77 | when the visited student is removed, the list shifts left, and the next student is passed over without a visit |
| Simulation.WalkRemoveLast | mcitSim.py:76-77 | when the last student is removed, the iterator runs past the end |
| Simulation.WalkDone | mcitSim.py:70 | once the iterator leaves the list, every position is consumed and the list holds exactly the kept ids |
| Simulation.ProgressStep | mcitSim.py:70-77 | visiting one position updates only that student's record, with one more term counted |
| Simulation.ProgressDone | mcitSim.py:70-77 | at the end of the term, a position is removed exactly when it was visited and its student graduated; visited students counted one more term; the others are unchanged |
| Simulation.BookkeepingStay | mcitSim.py:70-76 | the term's bookkeeping after a pass whose student stays listed |
| Simulation.BookkeepingRemove | mcitSim.py:76-77 | the term's bookkeeping after a pass whose student graduates and is removed |
| Simulation.BookkeepingRemoveLast | mcitSim.py:76-77 | the same, for the last position |
| Simulation.EvolvingStep | mcitSim.py:72-76 | replacing a listed student's record by a consistent one that counts at most one more term and keeps the courses keeps every record of the term grown from its start, and the unlisted ones unchanged |
| Simulation.Pass | mcitSim.py:70-77 | one pass of the loop, whichever way the student's graduation goes, keeps the term's bookkeeping with the visited position consumed |
| Simulation.Swap | mcitSim.py:68 | a swap keeps the same ids (as a multiset) and keeps them distinct |
| Simulation.Shuffle | mcitSim.py:68 | `random.shuffle` permutes the ids: same multiset, same length, and distinct ids stay distinct |
| Simulation.AdmittedSound | mcitSim.py:64 | a new cohort's records are consistent and count no terms; every record going into the term is the student's record from the term before, or the empty one for a new student |
| Simulation.Simulator.AddOfferings | mcitSim.py:39-43 | one fresh offering for each code, with the given capacity and no seat taken; other entries are unchanged |
| Simulation.Simulator.constructor | mcitSim.py:33-43 | every course has a fresh offering with its own code; core courses have coreCapacity seats and electives electCapacity; no roster is stored |
| Simulation.Simulator.ResetCoursesEnrollment | mcitSim.py:45-47 | every counter is 0 |
| Simulation.Simulator.Admit | mcitSim.py:64 | a fresh, distinct student for each id from lo to hi - 1, with start time 0 and an empty record |
| Simulation.Simulator.Enroll | mcitSim.py:74-75 | each chosen course's counter rises by one, and no counter passes its capacity |
| Simulation.Simulator.RegisterStudent | mcitSim.py:72-75 | one student registers for at most two eligible courses, takes a seat in each, and counts one more term; capacity is respected |
| Simulation.Simulator.Visit | mcitSim.py:72-76 | only the visited student's record changes; it stays consistent, counts one more term and keeps every course taken before; the result is that student's graduation flag |
| Simulation.Simulator.Advance | mcitSim.py:70-77 | one pass keeps the bookkeeping, and the iteration makes progress |
| Simulation.Simulator.RegisterTerm | mcitSim.py:70-77 | the list left is the order minus the removed positions; a position is visited exactly when it is first or the one before it was not removed; a position is removed exactly when its student was visited and graduated; visited students counted one more term; every record is consistent, counts at most one more term and keeps its courses; everyone else is unchanged; capacity is respected |
| Simulation.Simulator.AdmitTerm | mcitSim.py:64 | term t admits fresh students with ids t*rate to (t+1)*rate - 1 at the positions equal to their ids, and keeps the earlier students |
| Simulation.Simulator.ListTerm | mcitSim.py:64-68 | the registration order is a permutation of the listed ids plus the new cohort's ids: distinct, below (t+1)*rate, and holding exactly the listed ids and the cohort's |
| Simulation.Simulator.RegisterAll | mcitSim.py:70-77 | after the term's loop, the records are consistent and count at most t+1 terms; the list left holds distinct ids, and an id is in it exactly when it was in the order and its student has not graduated; a student who had graduated before the term, or was not in the order, is as before; every record counts at most one more term and keeps its courses; no counter is above its capacity |
| Simulation.Simulator.RunTerm | mcitSim.py:62-79 | one term: the admissions above, consistent records with at most t+1 terms, and every counter 0 at the end; the ids listed are exactly those of the students who have not graduated, before the term and after it; the records at the end follow from those before (the empty record for a new student) by one term: graduates unchanged, every other record consistent, with at most one more term and no course lost |
| Simulation.HistoryStep | mcitSim.py:58-79 | a term whose records follow by one term from the last ones extends the per-term history, each term still following from the one before |
| Simulation.ChainedSnoc | mcitSim.py:58-79 | appending a term that follows from the last one keeps every term following from the one before it |
| Simulation.FrozenFrom | mcitSim.py:76-77 | when no term changes a graduate's record, a student graduated by the end of one term has the same record at the end of every later term |
| Simulation.ChainedSettled | mcitSim.py:58-79 | a history in which each term follows from the one before is settled: graduates' records never change again |
| Simulation.Simulator.RunSim | mcitSim.py:54-80 | duration*rate distinct students, the one with id i at position i with start time 0; each record is consistent with at most `duration` terms; a graduate counted at least five terms; `terms[u]` holds every record at the end of term `u`, the last being the students' final state; term 0 follows from admission and every later term from the one before it by one term (graduates unchanged, every record consistent, at most one more term, no course lost), so a student graduated by the end of a term has the same record at the end of every later term; the counters are 0 at the end (within a term, `RegisterAll` keeps them within capacity) |
| Simulation.Simulator.RunSimReplicates | mcitSim.py:49-52 | one roster is appended per replicate and earlier rosters are kept; each new roster has duration*rate students, the one with id i at position i, each with a consistent record of at most `duration` terms, and a graduate among them counted at least five |

## Left out

- Printing and display are not modelled: `showCourseStatus`, `showCourseGraph` (graphviz), both `showAttributes`, and the `Analyzer` class, which only summarises the rosters with pandas, `Counter` and float averages (`averageGradTime`, `leavesPerStudent`, `averageRegisterTrialsPerStudent`, `showRegisterTrials`, `countCoursesTaken`), together with the numpy import.
- Randomness is not modelled as probabilities. It enters as index and coin oracles, and the `oneClassOnly` probability becomes the coin `stop(n)`. The source's default arguments (`coreCapacity=350`, `replicates=3`, and so on) become ordinary parameters.
- Policies.FirstOutstanding: `list(remainderCoReq)[0]` takes an element in Python's arbitrary set order; the model takes the first outstanding corequisite in list order. Every property above holds for any outstanding corequisite chosen, and in both shipped graphs there is only one.
- Course codes are an enumeration rather than strings. The catalogue is fixed, and no string operation is applied to them.
- PolicyExamples.NoRestrictionsFirstTerm: states the keys and lists of the returned dictionary, not its insertion order.
- PolicyExamples.CoreFirstFirstTerm: the same as NoRestrictionsFirstTerm; the insertion order is not stated.
- Students.Student.ChooseCourse: the courses found full are returned as a ghost output only. The source keeps nothing but their counts.
- Simulation.Simulator.RegisterTerm: `studentIDs.remove(studentID)` is modelled as removal at the iterator's position. The ids are distinct, so this is the first occurrence that `remove` deletes.
