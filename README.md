# To-do app core, modelled in Dafny

This project models the logic of a small React Native to-do app. It covers
two parts of the app:

- **The task screen** (`app/index.tsx`). It holds four pieces of state:
  - the ordered task list;
  - a loading flag;
  - the search text;
  - the add-task draft.

  Its handlers change that state: load the fixed seed list, toggle a task,
  delete a task, add a task, and set the search text. The screen also
  derives three things from the state: the visible (searched) list, whether
  the add button is disabled, and the message shown for an empty list.
- **The swipe-to-delete task card** (`src/components/task-card.tsx`). Its
  pan gesture drags the card left. On release the card either slides off
  screen and deletes the task, or slides back. The delete icon's opacity
  signals which of the two a release would do. The card shows a
  description line only when the description is non-empty.

Layout:

- `text.dfy` (module `Text`) models JavaScript `trim`, `toLowerCase` and
  `includes` on strings. `trim` uses the exact ECMAScript white-space and
  line-terminator set.
- `seqs.dfy` (module `Seqs`) models `Array.prototype.filter`. It proves that
  the result is the order-preserving subsequence at exactly the positions
  whose element passes the predicate.
- `tasks.dfy` (module `Tasks`) holds the task record, the seed list and the
  pure updaters and derivations, with their lemmas.
- `screen.dfy` (module `Screen`) holds the class `TaskScreen`. Its fields
  are the screen's state and its methods are the handlers. Each method's
  postcondition gives the new state through the `Tasks` functions.
- `task_card.dfy` (module `TaskCard`) holds the gesture as a state machine
  (`Step`, run over traces of events), the opacity and description rules,
  and the class `SwipeCard` whose callbacks follow `Step`.

The screen width and the offsets are `real` numbers. Animations are represented by their target and by
their completion report (`finished`).

## Model

| member | source | states |
|---|---|---|
| Text.Trim | app/index.tsx:126 | `trim` removes a maximal white-space prefix and suffix and nothing else: the result sits inside the input, everything around it is white space, and its ends are not |
| Text.IsBlank | app/index.tsx:144 | `s.trim() === ""` holds exactly when every character of `s` is white space |
| Text.LeadingBlanks | app/index.tsx:126 | the count of leading white space is maximal: all counted characters are white space and the next one is not |
| Text.TrailingBlanks | app/index.tsx:126 | the same for trailing white space |
| Text.Lower | app/index.tsx:147-148 | `toLowerCase` on ASCII: keeps the length, turns each capital A-Z into its small letter, and changes no other character |
| Text.LowerEqualIff | app/index.tsx:147-148 | two strings lower-case to the same string exactly when they are equal up to the case of ASCII letters |
| Text.Contains | app/index.tsx:147-148 | `includes`: the empty needle is always found and a found needle is no longer than the text; `ContainsIff` gives the full meaning |
| Text.ContainsIff | app/index.tsx:147-148 | `includes` holds exactly when the needle occurs at some index; in particular the empty needle occurs in every string |
| Text.LowerIdempotent | app/index.tsx:147-148 | lower-casing a lower-cased string changes nothing |
| Text.BlankIgnoresCase | app/index.tsx:144-148 | lower-casing keeps white space, so a search text is blank exactly when its lower-cased form is |
| Text.AbsentWithoutLeadingPair | app/index.tsx:147-148 | a needle is absent when its first two characters never appear side by side |
| Seqs.Filter | app/index.tsx:121 | the filter result is no longer than the input and every kept element passes |
| Seqs.FilterSelectsExactly | app/index.tsx:121 | the filter result is the subsequence, in original order, at exactly the positions whose element passes |
| Seqs.FilterEmptyIff | app/index.tsx:145-149 | the filter result is empty exactly when no element passes |
| Seqs.FilterKeepsAll | app/index.tsx:121 | when every element passes, the filter returns its input |
| Seqs.FilterDropsAll | app/index.tsx:145-149 | when no element passes, the filter returns nothing |
| Seqs.FilterAgrees | app/index.tsx:145-149 | two predicates that agree on every element filter alike |
| Seqs.FilterSingleMatch | app/index.tsx:145-149 | when exactly one element passes, the filter returns that element alone |
| Seqs.FilterSingleMiss | app/index.tsx:121 | when exactly one element fails, the filter returns all the others, in order |
| Seqs.FilterConcat | app/index.tsx:121 | filtering distributes over concatenation |
| Tasks.Seed | app/index.tsx:18-79 | the seed list has ten tasks with ids 1 to 10 in order (hence distinct), none completed |
| Tasks.ToggleCompleted | app/index.tsx:105-117 | toggling keeps length and order, flips `completed` exactly on the tasks with the id, and leaves every other field and task unchanged |
| Tasks.ToggleTwice | app/index.tsx:106-115 | toggling the same id twice gives back the original list |
| Tasks.WithoutId | app/index.tsx:119-123 | after deleting, no task with that id remains and the list is no longer |
| Tasks.DeleteKeepsOthersInOrder | app/index.tsx:119-123 | deleting keeps, in order, exactly the tasks whose id differs |
| Tasks.DeleteAbsentIdIsNoOp | app/index.tsx:119-123 | deleting an id no task has changes nothing |
| Tasks.DeleteUndoesAdd | app/index.tsx:119-136 | adding a task under a fresh id and then deleting that id restores the list |
| Tasks.Matches | app/index.tsx:146-148 | the search callback; the empty search text matches every task, and `MatchesIff` states exactly when a task matches |
| Tasks.VisibleTasks | app/index.tsx:143-150 | with a blank search the whole list is visible; otherwise only matching tasks are |
| Tasks.VisibleKeepsMatchesInOrder | app/index.tsx:145-149 | with a non-blank search the visible list is the subsequence, in order, of exactly the tasks whose lower-cased title or description contains the lower-cased search text |
| Tasks.MatchesIff | app/index.tsx:147-148 | a task matches exactly when the lower-cased search text occurs in its lower-cased title or description |
| Tasks.VisibleIgnoresSearchCase | app/index.tsx:147-148 | the search result does not depend on the case of the search text |
| Tasks.SearchIgnoresCase | app/index.tsx:143-150 | two search texts that differ only in the case of letters show the same tasks |
| Tasks.SeedSearchLunch | app/index.tsx:18-79 | searching the seed list for "lunch" shows exactly the task "Have lunch" (id 5) |
| Tasks.SeedSearchUpperLunch | app/index.tsx:18-79 | searching the seed list for "LUNCH" also shows exactly the task "Have lunch" |
| Tasks.SeedDeleteGym | app/index.tsx:18-79 | deleting id 2 from the seed list leaves the other nine tasks in order |
| Tasks.NewTask | app/index.tsx:128-133 | the added task has the given id, is not completed, and carries the draft's title and description as typed |
| Tasks.AddButtonDisabled | app/index.tsx:217-218 | the add button is disabled exactly while loading or while the title is all white space |
| Tasks.NoMatchMessage | app/index.tsx:198-200 | the no-match message quotes the search text |
| Tasks.EmptyListMessage | app/index.tsx:193-204 | a message is shown exactly when loading is over and nothing is visible; it is the add-a-task hint exactly when the search text is blank; `EmptyMessageIsTruthful` states what the message means about the list |
| Tasks.EmptyMessageIsTruthful | app/index.tsx:193-204 | a message shows exactly when loading is over and nothing is visible; it quotes a non-blank search text and then no task matches it; with a blank search the list really is empty |
| Screen.TaskScreen.constructor | app/index.tsx:90-96 | the screen starts with no tasks, loading, an empty search and an empty draft |
| Screen.TaskScreen.GetTasks | app/index.tsx:98-103 | loading installs the seed list and ends with the loading flag down; search and draft are kept |
| Screen.TaskScreen.Press | app/index.tsx:105-117 | pressing replaces the list by its toggled form and changes nothing else |
| Screen.TaskScreen.Delete | app/index.tsx:119-123 | deleting replaces the list by the list without that id and changes nothing else |
| Screen.TaskScreen.AddTask | app/index.tsx:125-137 | a blank title leaves tasks and draft as they were; otherwise exactly one new open task with the given id, the untrimmed title and the draft description is appended, the draft is cleared, and the button becomes disabled |
| Screen.TaskScreen.Search | app/index.tsx:139-141 | setting the search text changes nothing else |
| Screen.TaskScreen.EditTitle | app/index.tsx:212-214 | typing in the title field replaces the draft title and keeps the draft description |
| TaskCard.Threshold | src/components/task-card.tsx:26-27 | the delete threshold is 30% of the screen width, strictly between 0 and the width |
| TaskCard.ShouldDelete | src/components/task-card.tsx:40 | the release decision: a release at or right of the starting point never deletes, and a release a full screen width to the left always does |
| TaskCard.Step | src/components/task-card.tsx:33-52 | the card stays at or left of its resting place. A pan update moves the card only when its translation is negative, and so cuts short any running animation. A release keeps the offset and starts an animation: the exit exactly when the translation is at or past minus the threshold (the boundary deletes), else the return. The delete callback runs exactly when the running exit reports it finished. The late "not finished" report of a replaced animation changes nothing. A deleted card no longer changes |
| TaskCard.RunKeepsPlaced | src/components/task-card.tsx:31-51 | over any trace of events the offset stays at or below 0 |
| TaskCard.DeleteAtMostOnce | src/components/task-card.tsx:41-48 | over any trace the delete callback runs at most once, and exactly once when a live card ends deleted |
| TaskCard.ExitingHasCause | src/components/task-card.tsx:39-48 | a card is exiting only because of a release past the threshold, followed by nothing but pan updates that did not move it and late reports of replaced animations |
| TaskCard.DeleteOnlyAfterCommittedExit | src/components/task-card.tsx:41-48 | the delete callback runs only on a finished exit animation that was started by a release past the threshold and was not cut short |
| TaskCard.ReleaseOutcome | src/components/task-card.tsx:39-52 | a release then a finished animation ends a screen width to the left and deleted (past the threshold) or at 0 with no delete (short of it); a late "not finished" report leaves the released card as it was |
| TaskCard.SecondReleaseDecides | src/components/task-card.tsx:39-52 | after two releases, the first animation's late report is ignored and the second release alone decides: deleted at a screen width to the left with one delete, or back at 0 with none |
| TaskCard.DragCancelsExit | src/components/task-card.tsx:34-48 | a leftward drag during an exit cuts it short: whatever the exit then reports, nothing is deleted and the card stays where it was dragged |
| TaskCard.TranslateX | src/components/task-card.tsx:54-59 | the card is drawn at its offset: never right of its resting place, and a full screen width to the left once deleted |
| TaskCard.DeleteOpacityTarget | src/components/task-card.tsx:61-68 | the delete icon's target opacity is 1 or 0.1; it is 0.1 for a card at or right of its resting place and 1 for a card a full screen width to the left |
| TaskCard.OpacityMatchesRelease | src/components/task-card.tsx:61-68 | for any live card, the icon heads for opacity 1 exactly when a release at the card's offset would delete, and a card at rest shows the faint icon |
| TaskCard.OpacityAnnouncesDelete | src/components/task-card.tsx:61-68 | after a drag, the icon heads for full opacity exactly when releasing there would delete |
| TaskCard.VisibleLines | src/components/task-card.tsx:95-105 | the card always shows the title, and shows the description as a second line exactly when it is non-empty |
| TaskCard.SwipeCard.constructor | src/components/task-card.tsx:31 | a mounted card starts at offset 0, at rest |
| TaskCard.SwipeCard.OnUpdate | src/components/task-card.tsx:34-38 | the update callback follows `Step` and keeps the card placed |
| TaskCard.SwipeCard.OnEnd | src/components/task-card.tsx:39-52 | the release callback follows `Step` and keeps the card placed |
| TaskCard.SwipeCard.OnAnimationEnd | src/components/task-card.tsx:42-50 | the animation-completion callback follows `Step`: a finished exit deletes, a finished return lands at 0, and a "not finished" report changes nothing |

## Left out

- The one-second delay and the Promise in `fetchTasks` (app/index.tsx:81-87) are left out. Loading is one atomic step. The loading flag is raised at the start and lowered at the end of that step.
- The new task's id comes from the clock (`+new Date()`). Here it is a parameter of `AddTask`. Nothing checks that ids are distinct, as in the app.
- Screen.TaskScreen.AddTask: the handler does not look at the loading flag, as in the source. Only the button (`AddButtonDisabled`) blocks adding while loading.
- Text.Lower: only ASCII letters are folded. The full Unicode `toLowerCase` is left out.
- TaskCard.Step: the offset keeps its release value while an animation runs, and jumps to the target when the animation reports it finished. The `withTiming`/`withSpring` curves and the frames in between are left out. So is the intermediate value left by a cut-short animation, and the hop from the animation thread to the JavaScript thread (`runOnJS`).
- TaskCard.Step: a "not finished" report arrives only after the assignment that cut the animation short (a moving pan update or another release), so the model treats it as a no-op. Which animation a report belongs to is not tracked. A "finished" report is taken to belong to the animation currently running.
- TaskCard.DeleteOpacityTarget: only the opacity the spring heads for is modelled. The spring animation itself is left out.
- TaskCard.Threshold: the threshold is exactly 3/10 of the width, as a real number. The app multiplies doubles, and `width * 0.3` can round below 3/10 of the width. For a width of 393 it gives 117.89999999999999. So a release at exactly -117.89999999999999 deletes in the app, but `ShouldDelete(393.0, -117.89999999999999)` is false. Double rounding of the threshold, the translations and the offsets is not modelled.
- The screen width comes from `Dimensions.get` in the app. Here it is a positive parameter.
- After the delete callback, the screen removes the task and the card unmounts. The model stands for this with an absorbing `Deleted` phase.
- Rendering and styling are left out: JSX, style sheets, the list view, the header search bar, icons and app/_layout.tsx.
- src/components/input.tsx and src/hooks/use-function-ref.ts are not part of this model. They are view and React plumbing.
- The draft's description is never edited, because the screen has only a title field. It is cleared together with the title.
