# Verified models of the course repository

Dafny models of the parts of the repository with the most state: a reminder store built on intrusive linked lists, a
kernel module whose main thread waits for its workers, the driver of a round display, and three small programs that
transform text or button samples. Each part is modelled in the form it has in C. Pointer code is a class with `next` and
`prev` fields that are assigned in the order of the source, a buffer is an array, a loop is a loop with its invariants.
What a step is meant to do is a function on values, every method is proved against that function, and the promises
about whole runs are lemmas about the functions.

`dafny verify dfyconfig.toml` checks everything.

| file | what it holds |
|---|---|
| `Sequences.dfy`, `Arithmetic.dfy` | inserting into and removing from sequences; products and quotients |
| `LinkedList.dfy` | `linked_list.h`: rings of links, every operation pointer write by pointer write |
| `ReminderModel.dfy` | what the store's operations do, on values |
| `ReminderRuns.dfy` | runs of any length: the invariant of every reachable state |
| `ReminderTheorems.dfy` | fates, order of alerts, priority queue on deadlines, conservation |
| `ReminderStore.dfy` | the store in memory: two families of lists that share the reminders |
| `ReminderReplay.dfy` | any run of calls on the store in memory goes as `ReminderRuns` says |
| `WorkerProtocol.dfy`, `WorkerTermination.dfy` | main thread, workers and completions under any interleaving |
| `FrameBuffer.dfy`, `TextRenderer.dfy` | rectangles, characters and strings drawn into the frame buffer |
| `DisplayBus.dfy` | transfers to the display, and the interpreter of the start-up table |
| `CStrings.dfy` | strings as C passes them |
| `RunLength.dfy`, `RunLengthPrograms.dfy`, `RunLengthStreams.dfy` | the run-length encoder and decoder, as functions and as filters |
| `RunLengthRoundTrip.dfy` | what becomes of a text that goes through both programs |
| `WordReverser.dfy` | the converter that reverses the words of a string |
| `Buttons.dfy` | the classification of button presses |

## How to read the models

* **Rings.** `Ring(r)` says that the links of the sequence `r` are distinct, that `next` reads `r` from front to back and
  `prev` from back to front. `r[0]` is the head of a list. The ghost parameters of the list operations only name the ring
  an argument is on. A `modifies` clause names single pointer fields, so a ring that owns none of them stays as it is.
* **The store.** `Store.Valid()` holds two overlapping families of rings: the users, the global queue, and one list for
  each user. `Store.Abs()` reads off the users with the numbers of their waiting reminders, and the queue with its
  count-down times. Each method says `Abs() == F(old(Abs()))` for the matching function `F` of `ReminderModel`. A reminder
  is known by a serial number that is never used twice. Whether allocations succeed is an argument (`memory`).
* **Runs.** `ReminderRuns.World` adds to the store what an observer would note: the ticks so far, what was added when,
  what went off when, what was removed.
* **Workers.** A run is any sequence of enabled steps of the main thread and of the workers. A step says which addresses
  it touches; touching one that is not live crashes.
* **Display.** Pixels are named by column and row. `Received` is what the display makes of the bus: a byte is a command or
  data according to the level of the DC pin, and how data is cut into transfers cannot be told from it.

## Where the code does not do what one would expect

The models keep what the code does; these facts are stated and proved.

* `lcd_fill_rectangle` tests `x + w - 1 > LCD_WIDTH` and so lets a rectangle through that ends one column or row beyond
  the screen. `FrameBuffer.FillIsExactIff` proves that filling is exact if and only if neither `x + w == 241` nor
  `y + h == 241` (for a rectangle that starts on the screen and is not empty); `SlipExample` is a rectangle that is not.
* `lcd_fill_screen` passes 239 for both sizes, and leaves the last row and the last column as they were
  (the contract of `FrameBuffer.FillScreen`).
* `lcd_put_string` decides whether to stop by the line before a wrap. `TextRenderer.OverrunsIff` proves that some
  character is drawn beyond the end of the frame buffer if and only if the first line fits on the screen and not all
  lines do; `OverrunExample` is a text of three characters.
* The second pass of the encoder prints into a buffer of exactly the size that the first one returned, and
  `RunLengthPrograms.SecondPassOverruns` proves that this is too short for every line: the terminator of a print always
  lands behind it. The prints reach one position beyond the buffer if and only if no count has digits that reach further,
  as with short runs; the lemma says what the last position is otherwise, and `OverrunExample` is a run of ten. The model
  gives each line a buffer that is longer by the length of the line.
* `encode` keeps two places for a run of any length. `RunLength.RoundTripIff` proves that decoding gives back the line
  if and only if no run has ten characters or more; `RoundTripExample` shows what ten times the same become.
* The decoder reads at most 8191 characters at a time, and a line whose encoding is longer is cut between a count and its
  character. `RunLengthRoundTrip.CutAtOdd` proves that this always loses the line, and `StreamRoundTripIff` that a text
  whose lines the encoder reads in one piece comes back if and only if its runs are short and its encoded lines fit.
* `list_swap` swaps if and only if the second entry is not alone on its ring; otherwise that entry takes the first one's
  place and the first one goes right behind it (the contract of `LinkedList.ListSwap`).
* `remove_user` frees a user and leaves its reminders in the queue. `ReminderRuns.DropUserKeepsIff` proves that the state
  stays in order if and only if the user waits for none, which is what a run has to observe; `DropUserExample` is a run
  that does not.
* `list_cut_before` initialises the target list also where `list_cut_position` leaves it alone, on an empty list; on a
  non-empty list the two agree.
* `thread_func` ends for a positive total only if the delay is positive. `WorkerTermination.AllRunsEndIff` proves that the
  runs of the module are bounded if and only if all tasks are like that, and `DelayZeroExample` is a task that is not.

## Model

| member | source | states |
|---|---|---|
| LinkedList.RingIff | final_task/userspace_app/lvgl_lib/application_view/linked_list/linked_list.h:55-71 | what a ring is: all links different, `next` of each the one behind it and `prev` the one in front, around the end |
| LinkedList.DisjointIff | final_task/userspace_app/lvgl_lib/application_view/linked_list/linked_list.h:430-442 | two rings are apart if they have no link in common |
| LinkedList.RingUnique | final_task/userspace_app/lvgl_lib/application_view/linked_list/linked_list.h:567-568 | walking `next` from a head can read one sequence only: two rings with the same head are the same |
| LinkedList.BackwardsIsReverse | final_task/userspace_app/lvgl_lib/application_view/linked_list/linked_list.h:585-586 | on every ring, walking `prev` reads the items in reverse, and reversing that gives back the ring |
| LinkedList.InitListHead | final_task/userspace_app/lvgl_lib/application_view/linked_list/linked_list.h:67-71 | leaves an empty list |
| LinkedList.ListAddBetween | final_task/userspace_app/lvgl_lib/application_view/linked_list/linked_list.h:97-108 | the new link goes between two neighbours, in both directions of reading |
| LinkedList.ListAdd | final_task/userspace_app/lvgl_lib/application_view/linked_list/linked_list.h:118-121 | inserts right behind any link of the ring |
| LinkedList.ListAddTail | final_task/userspace_app/lvgl_lib/application_view/linked_list/linked_list.h:132-135 | inserts right before any link of the ring, which is the end for the head |
| LinkedList.ListDelBetween | final_task/userspace_app/lvgl_lib/application_view/linked_list/linked_list.h:144-148 | closes the gap around the link between two links, also when the two are one |
| LinkedList.ListDelEntry | final_task/userspace_app/lvgl_lib/application_view/linked_list/linked_list.h:164-170 | the ring without the entry, the old neighbours linked |
| LinkedList.ListDel | final_task/userspace_app/lvgl_lib/application_view/linked_list/linked_list.h:178-183 | as above, and the entry's own pointers poisoned; a link alone on its ring may be deleted too |
| LinkedList.ListReplace | final_task/userspace_app/lvgl_lib/application_view/linked_list/linked_list.h:192-199 | the new link stands at the old one's position, also when the old one was an empty head |
| LinkedList.ListReplaceInit | final_task/userspace_app/lvgl_lib/application_view/linked_list/linked_list.h:208-213 | as above, and the old link is an empty list |
| LinkedList.ListSwap | final_task/userspace_app/lvgl_lib/application_view/linked_list/linked_list.h:220-230 | exactly the two entries trade places, on one ring (neighbours in either order and heads included) or between two disjoint rings, if and only if the second is not alone on its ring; otherwise the ring that arises instead |
| LinkedList.ListDelInit | final_task/userspace_app/lvgl_lib/application_view/linked_list/linked_list.h:236-240 | the ring without the entry, and the entry an empty list of its own |
| LinkedList.ListMove | final_task/userspace_app/lvgl_lib/application_view/linked_list/linked_list.h:247-251 | the entry moves right behind another link of the same or of a disjoint ring, and all others keep their order |
| LinkedList.MovedAt | final_task/userspace_app/lvgl_lib/application_view/linked_list/linked_list.h:247-263 | where each item stands after either move |
| LinkedList.ListMoveTail | final_task/userspace_app/lvgl_lib/application_view/linked_list/linked_list.h:258-263 | the same, right in front of the other link |
| LinkedList.ListBulkMoveTail | final_task/userspace_app/lvgl_lib/application_view/linked_list/linked_list.h:274-286 | any segment goes to the end in its order, also one that is there already or is the whole list |
| LinkedList.ListTests | final_task/userspace_app/lvgl_lib/application_view/linked_list/linked_list.h:293-317 | the tests for empty, first, last and singular hold exactly for the ring lengths and positions they name |
| LinkedList.ListRotateLeft | final_task/userspace_app/lvgl_lib/application_view/linked_list/linked_list.h:323-331 | the first item goes to the end |
| LinkedList.ListRotateToFront | final_task/userspace_app/lvgl_lib/application_view/linked_list/linked_list.h:340-349 | the element at index k comes to the front: the result of k rotations to the left |
| LinkedList.RotatedLeftTimesIsRotated | final_task/userspace_app/lvgl_lib/application_view/linked_list/linked_list.h:323-349 | k rotations to the left put the first k items behind the others |
| LinkedList.FullRotation | final_task/userspace_app/lvgl_lib/application_view/linked_list/linked_list.h:323-331 | as many rotations as there are items restore the list |
| LinkedList.CutPosition | final_task/userspace_app/lvgl_lib/application_view/linked_list/linked_list.h:360-370 | splits a ring behind the entry into two rings |
| LinkedList.ListCutPosition | final_task/userspace_app/lvgl_lib/application_view/linked_list/linked_list.h:386-398 | the cut for every entry including the head, and no change for an empty list or for a foreign entry of a one-item list |
| LinkedList.ListCutBefore | final_task/userspace_app/lvgl_lib/application_view/linked_list/linked_list.h:414-428 | cutting before an entry equals cutting behind the one in front of it, on every non-empty list |
| LinkedList.ListSpliceBetween | final_task/userspace_app/lvgl_lib/application_view/linked_list/linked_list.h:430-442 | the items of one ring stand between two neighbours of another, in their order |
| LinkedList.ListSplice | final_task/userspace_app/lvgl_lib/application_view/linked_list/linked_list.h:449-454 | joins another list in right behind a link, and does nothing for an empty one |
| LinkedList.ListSpliceTail | final_task/userspace_app/lvgl_lib/application_view/linked_list/linked_list.h:461-466 | the same, right in front of a link |
| LinkedList.ListSpliceInit | final_task/userspace_app/lvgl_lib/application_view/linked_list/linked_list.h:475-482 | as `ListSplice`, and the other list is left empty |
| LinkedList.ListSpliceTailInit | final_task/userspace_app/lvgl_lib/application_view/linked_list/linked_list.h:492-499 | as `ListSpliceTail`, and the other list is left empty |
| LinkedList.CutThenSpliced | final_task/userspace_app/lvgl_lib/application_view/linked_list/linked_list.h:360-482 | splicing the cut-off prefix back in front gives the original sequence, for every cut point |
| LinkedList.CutAndRejoin | final_task/userspace_app/lvgl_lib/application_view/linked_list/linked_list.h:386-482 | cutting a prefix off into an empty list and splicing it back restores the ring pointer by pointer |
| ReminderModel.FindUser | final_task/userspace_app/lvgl_lib/application_view/reminders_model/reminders_model.c:51-62 | the first user of that name, or that there is none |
| ReminderModel.InsertPoint | final_task/userspace_app/lvgl_lib/application_view/reminders_model/reminders_model.c:64-79 | everything before the point waits no longer than the new entry, and what is at the point waits longer |
| ReminderModel.RemoveUser | final_task/userspace_app/lvgl_lib/application_view/reminders_model/reminders_model.c:133-146 | exactly the users of that name are gone |
| ReminderRuns.RemoveUserKeepsOrder | final_task/userspace_app/lvgl_lib/application_view/reminders_model/reminders_model.c:133-146 | the users that stay keep their order, and none is lost or doubled |
| ReminderModel.TickIs | final_task/userspace_app/lvgl_lib/application_view/reminders_model/reminders_model.c:300-316 | the deleting loop equals one simultaneous step: the entries with time 1 go off in queue order and leave both lists, all others wait one less in their old order |
| ReminderModel.WithoutNotificationIs | final_task/userspace_app/lvgl_lib/application_view/reminders_model/reminders_model.c:274-293 | searching the owner's list for the expired reminder removes just that one item of that one list |
| ReminderRuns.SortedInserted | final_task/userspace_app/lvgl_lib/application_view/reminders_model/reminders_model.c:64-79 | inserting a new entry keeps the queue sorted by time and, for equal times, by order of adding |
| ReminderRuns.AddReminderKeepsLists | final_task/userspace_app/lvgl_lib/application_view/reminders_model/reminders_model.c:106-131 | after adding, queue and users' lists still hold the same reminders under the same owners, in add order |
| ReminderRuns.DropUserKeeps | final_task/userspace_app/lvgl_lib/application_view/reminders_model/reminders_model.c:133-146 | removing users that wait for nothing keeps the whole invariant: no queued reminder loses its owner |
| ReminderRuns.DropUserKeepsIff | final_task/userspace_app/lvgl_lib/application_view/reminders_model/reminders_model.c:133-146 | a removal keeps the state in order if and only if no user of that name waits for a reminder |
| ReminderRuns.DropUserExample | final_task/userspace_app/lvgl_lib/application_view/reminders_model/reminders_model.c:133-146 | after adding a user and a reminder, removing the user breaks the state |
| ReminderRuns.DropNotificationKeepsLists | final_task/userspace_app/lvgl_lib/application_view/reminders_model/reminders_model.c:148-193 | after a removal by number, queue and lists agree again |
| ReminderRuns.TickKeepsFired | final_task/userspace_app/lvgl_lib/application_view/reminders_model/reminders_model.c:267-316 | a tick's alerts are those whose deadline is this tick, and the record of alerts stays in order |
| ReminderRuns.TickKeepsLists | final_task/userspace_app/lvgl_lib/application_view/reminders_model/reminders_model.c:267-316 | after a tick, queue and lists agree again |
| ReminderRuns.StepKeeps | final_task/userspace_app/lvgl_lib/application_view/reminders_model/reminders_model.c:81-316 | every operation keeps names distinct, the queue sorted, both families of lists in agreement, count-downs equal to deadlines, and one fate for each reminder |
| ReminderRuns.Reachable | final_task/userspace_app/lvgl_lib/application_view/reminders_model/reminders_model.c:81-316 | this invariant holds in every state that any legal run reaches |
| ReminderRuns.NumbersDistinct | final_task/userspace_app/lvgl_lib/application_view/reminders_model/reminders_model.c:106-131 | no reminder is queued twice and none goes off twice |
| ReminderTheorems.Fate | final_task/userspace_app/lvgl_lib/application_view/reminders_model/reminders_model.c:267-316 | a reminder that was not removed has gone off if and only if its time was positive and its deadline has come, once, on that tick |
| ReminderTheorems.FiresOnItsTick | final_task/userspace_app/lvgl_lib/application_view/reminders_model/reminders_model.c:106-131 | one added with time t goes off on exactly the t-th later tick whatever else happens before and after, and never for t <= 0 |
| ReminderTheorems.AlertOrder | final_task/userspace_app/lvgl_lib/application_view/reminders_model/reminders_model.c:64-79 | over any run, alerts come out by deadline and, for equal deadlines, in the order of adding |
| ReminderTheorems.Refines | final_task/userspace_app/lvgl_lib/application_view/reminders_model/reminders_model.c:64-316 | every operation on the relative count-downs is a step of a stable priority queue on absolute deadlines |
| ReminderTheorems.Conservation | final_task/userspace_app/lvgl_lib/application_view/reminders_model/reminders_model.c:342-351 | added = fired + removed + waiting over any run, and the waiting ones are the sum of the users' lists |
| ReminderTheorems.OnOneList | final_task/userspace_app/lvgl_lib/application_view/reminders_model/reminders_model.c:127-130 | in every reachable state a waiting reminder is queued once and is on exactly one user's list, once, that of its owner |
| ReminderTheorems.RemovesTheNth | final_task/userspace_app/lvgl_lib/application_view/reminders_model/reminders_model.c:148-193 | a removal takes exactly the n-th reminder of that user out of both lists and keeps all other orders; out of range it does nothing |
| ReminderTheorems.AddUserMeans | final_task/userspace_app/lvgl_lib/application_view/reminders_model/reminders_model.c:81-103 | a new user is last with an empty list; a known name or no memory changes nothing |
| ReminderTheorems.AddReminderMeans | final_task/userspace_app/lvgl_lib/application_view/reminders_model/reminders_model.c:106-131 | the reminder is last on the list of the first user of that name and in the queue behind all that wait no longer, and nothing else changes |
| ReminderTheorems.NotAddedMeans | final_task/userspace_app/lvgl_lib/application_view/reminders_model/reminders_model.c:106-119 | an unknown name or no memory changes nothing |
| ReminderTheorems.DropMeans | final_task/userspace_app/lvgl_lib/application_view/reminders_model/reminders_model.c:133-193 | a removal by number notes the number that left; removing a user leaves all others and the queue; neither changes time, additions or alerts |
| ReminderTheorems.TickMeans | final_task/userspace_app/lvgl_lib/application_view/reminders_model/reminders_model.c:300-316 | which entries stay with which time, which numbers leave which lists, and which alerts there are |
| ReminderTheorems.TicksAre | final_task/userspace_app/lvgl_lib/application_view/reminders_model/reminders_model.c:300-316 | the ticks of a run are counted |
| ReminderStore.Store.AbsMeans | final_task/userspace_app/lvgl_lib/application_view/reminders_model/reminders_model.c:10-27 | the abstract content has exactly the names, texts, times and owners that are in memory |
| ReminderStore.Store.LinksMean | final_task/userspace_app/lvgl_lib/application_view/reminders_model/reminders_model.c:10-30 | the users, the queue and each user's list are rings of the links in the structures, in that order |
| ReminderStore.Store.FindUserEntry | final_task/userspace_app/lvgl_lib/application_view/reminders_model/reminders_model.c:51-62 | the walk over the users' ring finds the first user of that name or returns null |
| ReminderStore.Store.InsertReminderEntryToGlobalList | final_task/userspace_app/lvgl_lib/application_view/reminders_model/reminders_model.c:64-79 | the queue ring has the new entry at the insertion point |
| ReminderStore.Store.AddNewUser | final_task/userspace_app/lvgl_lib/application_view/reminders_model/reminders_model.c:81-103 | the store in memory stays well formed and goes as `ReminderModel.AddNewUser`; no change without memory or for a known name |
| ReminderStore.Store.AddUserReminder | final_task/userspace_app/lvgl_lib/application_view/reminders_model/reminders_model.c:106-131 | the reminder's two links are on two rings, and the store goes as `ReminderModel.AddUserReminder` |
| ReminderStore.Store.RemoveUser | final_task/userspace_app/lvgl_lib/application_view/reminders_model/reminders_model.c:133-146 | the deleting walk over the users' ring removes the users of that name, if they wait for nothing |
| ReminderStore.Store.RemoveUserNotification | final_task/userspace_app/lvgl_lib/application_view/reminders_model/reminders_model.c:148-193 | two searches and two deletions take one reminder off both rings, for every number including those out of range |
| ReminderStore.Store.HandleReminderExpired | final_task/userspace_app/lvgl_lib/application_view/reminders_model/reminders_model.c:267-298 | an expired reminder is printed and leaves the queue and its owner's ring |
| ReminderStore.Store.HandleTimerTick | final_task/userspace_app/lvgl_lib/application_view/reminders_model/reminders_model.c:300-316 | the walk that unlinks what it stands on visits each entry once, prints the alerts in order and leaves the store as `ReminderModel.TickFrom` |
| ReminderStore.Store.GetNotificationsTotalCount | final_task/userspace_app/lvgl_lib/application_view/reminders_model/reminders_model.c:342-351 | counts the queue |
| ReminderStore.Store.IsNotificationsListEmpty | final_task/userspace_app/lvgl_lib/application_view/reminders_model/reminders_model.c:352-355 | true exactly for an empty queue |
| ReminderReplay.Replay | final_task/userspace_app/lvgl_lib/application_view/reminders_model/reminders_model.c:81-316 | any legal sequence of calls on the store in memory ends in the content that `ReminderRuns.Run` gives, and the texts printed are those of its alerts |
| WorkerProtocol.SafeMeans | task9/module_main.c:64-168 | what each kind of step touches is live |
| WorkerProtocol.EnabledIff | task9/module_main.c:64-168 | the main thread waits for signals only, and a worker for nothing |
| WorkerProtocol.StepIsSafe | task9/module_main.c:64-168 | no step of any thread touches a descriptor, completion or thread record that is not live |
| WorkerProtocol.StepKeeps | task9/module_main.c:37-168 | every step keeps the task and completion lists aligned item by item, each worker on its own pair, signals equal to finished workers less the waits, and nothing freed before all have finished |
| WorkerProtocol.RunKeeps | task9/module_main.c:37-168 | this holds along every interleaving, for any number of workers |
| WorkerProtocol.NeverCrashes | task9/module_main.c:140-168 | no interleaving of any length uses freed memory |
| WorkerTermination.RoundsIsCeiling | task9/module_main.c:67-73 | the number of rounds is the total time over the delay, rounded up |
| WorkerTermination.RoundsAre | task9/module_main.c:67-73 | the same as a quotient, and no round for a total that is not positive |
| WorkerTermination.ThreadFunc | task9/module_main.c:64-76 | the loop prints that many messages |
| WorkerTermination.StepDrops | task9/module_main.c:64-168 | every step of every thread lowers one measure of the work that is left |
| WorkerTermination.Terminates | task9/module_main.c:64-168 | with positive delays no interleaving is longer than the measure of the start |
| WorkerTermination.NeverStuck | task9/module_main.c:160-163 | until the main thread is through, some thread can move |
| WorkerTermination.Completes | task9/module_main.c:140-168 | a run that cannot go on has freed everything, all workers have ended, and the log holds the line of worker i, with its delay and message, exactly ceil(total_i / delay_i) times and no other line |
| WorkerTermination.StaysWaiting | task9/module_main.c:64-76 | with a task whose time does not shrink the main thread never gets to freeing |
| WorkerTermination.RunsForEver | task9/module_main.c:64-76 | then there are runs of any length |
| WorkerTermination.AllRunsEndIff | task9/module_main.c:64-168 | the length of runs is bounded if and only if each task has a positive delay or no time to run |
| WorkerTermination.DelayZeroExample | task9/module_main.c:68-73 | with one task of delay 0 there are runs of any length, and nothing is ever freed |
| FrameBuffer.SwappedIs | task4/gc9a01.c:188-188 | the stored colour as a number: the low byte of the colour times 256 plus its high byte; exchanged again it is the colour |
| FrameBuffer.PxIs | task4/gc9a01.c:188-188 | pixel (c, r) is word c + 240 r of the buffer |
| FrameBuffer.FillRectangle | task4/gc9a01.c:191-214 | every pixel afterwards: the colour in the rectangle, and in the first pixel of the rows below where it ends at 241; as before elsewhere |
| FrameBuffer.FillSlips | task4/gc9a01.c:201-207 | a rectangle ending one column or row beyond the screen is written outside the buffer or into a pixel that is not its own |
| FrameBuffer.FillIsExactIff | task4/gc9a01.c:197-207 | filling paints exactly the rectangle as far as it is on the screen if and only if it does not end there |
| FrameBuffer.SlipExample | task4/gc9a01.c:201-203 | ten columns from column 231 on also paint the first pixel of the next row, or write outside the buffer |
| FrameBuffer.FillScreen | task4/gc9a01.c:218-221 | all pixels but those of the last row and the last column |
| TextRenderer.LitIs | task4/gc9a01.c:229-231 | the shifted test picks bit 15 - j of the glyph row, and nothing beyond column 15 |
| TextRenderer.GlyphPixelIs | task4/gc9a01.c:228-240 | pixel (j, i) of a character has the text's colour if bit 15 - j of word (ch - 32) * height + i of the table is set, and else the background's |
| TextRenderer.PutChar | task4/gc9a01.c:223-242 | every pixel afterwards: those of the cell show the glyph, all others are as before |
| TextRenderer.CellsTile | task4/gc9a01.c:244-264 | each pixel of the text block lies in exactly one cell, the one given by its column and row: cells are disjoint |
| TextRenderer.CellAt | task4/gc9a01.c:251-262 | where the cell of character k is, with m = (240 - x) / width characters to the line |
| TextRenderer.FitsIff | task4/gc9a01.c:252-255 | a text fits if and only if the line of its last character ends on the screen |
| TextRenderer.CellShows | task4/gc9a01.c:223-264 | each pixel of the cell of character k shows the bit of the glyph of text[k] |
| TextRenderer.CoveredMeans | task4/gc9a01.c:244-264 | a pixel that is drawn is in the cell of one of the characters |
| TextRenderer.CellsOnScreen | task4/gc9a01.c:252-253 | the cells of a text that fits are all on the screen |
| TextRenderer.CursorIs | task4/gc9a01.c:251-262 | the running cursor puts character k in column k mod m and row k div m |
| TextRenderer.OverrunsIff | task4/gc9a01.c:251-262 | some character is drawn beyond the buffer if and only if the first line fits and not all lines do |
| TextRenderer.OverrunExample | task4/gc9a01.c:251-262 | the third of three characters is drawn below the screen where two fit |
| TextRenderer.StopsIff | task4/gc9a01.c:253-255 | where nothing overruns, drawing stops at once if the text does not fit, and otherwise not at all |
| TextRenderer.PutString | task4/gc9a01.c:244-264 | every cell shows its character's glyph and all other pixels are as before; nothing is drawn where not even the first line fits |
| DisplayBus.ReceivedMeans | task4/gc9a01.c:119-136 | what an event adds to what the display has received |
| DisplayBus.PiecesAt | task4/gc9a01.c:125-136 | transfer k carries the bytes from 1000 k on |
| DisplayBus.PieceSizes | task4/gc9a01.c:125-136 | transfers are at most 1000 bytes, all but the last are full, and there are no more than needed |
| DisplayBus.PiecesAreData | task4/gc9a01.c:125-136 | the transfers in order are the data |
| DisplayBus.Bus.WriteCommand | task4/gc9a01.c:119-123 | the display receives one command byte |
| DisplayBus.Bus.WriteData | task4/gc9a01.c:125-136 | the bus sees the DC level and then the pieces; the display receives the data, whatever its length |
| DisplayBus.FlatNext | task4/gc9a01.c:22-104 | the layout: code, number of arguments, delay, arguments, and then the next command |
| DisplayBus.EffectMeans | task4/gc9a01.c:147-153 | for a command the display is to receive its code, its arguments, and a pause if there is a delay |
| DisplayBus.ParseFlat | task4/gc9a01.c:20-104 | reading back a packed command list gives that list and what follows it |
| DisplayBus.FlatParse | task4/gc9a01.c:142-154 | a table that can be read is the packed form of what was read |
| DisplayBus.FlatInjective | task4/gc9a01.c:20-104 | different command lists have different tables |
| DisplayBus.Bus.InitDisplayInternal | task4/gc9a01.c:138-155 | the display receives exactly the commands, arguments and pauses of the table in order, and reading stops exactly behind them |
| DisplayBus.ColorOnTheWire | task4/gc9a01.c:176-188 | a stored colour leaves the little-endian buffer as color / 256 and then color % 256 |
| DisplayBus.Bus.UpdateScreen | task4/gc9a01.c:176-180 | bytes 2 (c + 240 r) and the next of what the display receives are the low and the high byte of the word of pixel (c, r) |
| DisplayBus.ScreenSent | task4/gc9a01.c:176-180 | 115200 bytes are added to what the display has received, and those of pixel (c, r) stand at 2 (c + 240 r) |
| DisplayBus.RectangleSent | task4/gc9a01.c:209-215 | after that, the two bytes of each pixel of a rectangle of one colour are its high and its low byte |
| DisplayBus.Bus.FillRectangle | task4/gc9a01.c:191-216 | fills, and sends the whole screen; a rectangle that does not begin on the screen changes and sends nothing |
| RunLength.RunsAreMaximal | task3/src/encoder.c:16-23 | the runs found are not empty, neighbours differ, and together they are the text |
| RunLength.RunsAreUnique | task3/src/encoder.c:16-23 | there is only one such division of a text |
| RunLength.DigitsAre | task3/src/encoder.c:30-30 | a count is printed in decimal: digits that stand for the number, without a leading zero |
| RunLength.LastPrint | task3/src/encoder.c:24-32 | the string ends with the last run's count in decimal and its character |
| RunLength.OtherPrint | task3/src/encoder.c:24-32 | of any other run it has the first two characters of count and character |
| RunLength.TwelveExample | task3/src/encoder.c:30-30 | twelve times a is printed as 12a, and as 12 before another run |
| RunLength.DigitSum | task3/src/encoder.c:30-30 | the digits of a count add up to less than the count from ten on, which is why long runs are lost |
| RunLength.PrintedDecodes | task3/src/encoder.c:24-33 | overlapping prints decode to the text if and only if no run is longer than 9, and to less otherwise |
| RunLength.RoundTripIff | task3/src/decoder.c:10-19 | decoding an encoded line gives back the line if and only if it has no run of ten or more |
| RunLength.RoundTripExample | task3/src/decoder.c:10-19 | ten times the letter a is printed as 10a, and that decodes to a single 0 |
| RunLength.PrefixDecodes | task3/src/encoder.c:24-32 | the whole pairs that fit a smaller buffer decode to a prefix of the line |
| RunLengthPrograms.NextRun | task3/src/encoder.c:18-23 | the counting loop finds the next maximal run |
| RunLengthPrograms.Appended | task3/src/encoder.c:28-32 | a print two places on leaves two characters of the one before and the whole of its own |
| RunLengthPrograms.OutputNext | task3/src/encoder.c:24-32 | a run is printed exactly if the size still has room for its pair, so what is printed is the longest prefix of whole pairs |
| RunLengthPrograms.ReachIs | task3/src/encoder.c:24-32 | how far the prints reach: the furthest end of a single print with its terminator |
| RunLengthPrograms.Encode | task3/src/encoder.c:9-37 | for every buffer that holds each byte that is written: the error cases; the size returned is twice the number of maximal runs; the buffer holds the string of the runs that fit the size, terminated and ending with the last one's count in decimal, and is unchanged from where the prints end |
| RunLengthPrograms.OutputMeans | task3/src/encoder.c:24-32 | which runs are printed, and what is in the buffer then |
| RunLengthPrograms.SecondPassOverruns | task3/src/encoder.c:46-50 | a buffer of the returned size is too short for every line; one position beyond it is written if and only if no print reaches further, and otherwise up to the furthest end of a print |
| RunLengthPrograms.OverrunExample | task3/src/encoder.c:46-50 | for a run of ten, four positions are written where two were asked for |
| RunLengthPrograms.DecodeLine | task3/src/decoder.c:5-21 | the error cases, and what is emitted |
| RunLengthStreams.LinesAre | task3/src/encoder.c:41-43 | the pieces a stream is read in: they make it up, have at most 8191 characters with a newline at the end only, and are as long as that allows |
| RunLengthStreams.JoinedNext | task3/src/encoder.c:51-51 | what is written for the lines is written in their order, nothing between |
| RunLengthStreams.PrintedOnce | task3/src/encoder.c:46-50 | the second pass with the size from the first prints every run |
| RunLengthStreams.EncodeStream | task3/src/encoder.c:39-56 | the program writes the encoding of each line it reads |
| RunLengthStreams.DecodeStream | task3/src/decoder.c:23-34 | the program writes the decoding of each line it reads |
| RunLengthRoundTrip.CutAtOdd | task3/src/decoder.c:10-19 | an encoded line that is cut at any odd position is never decoded to the line |
| RunLengthRoundTrip.EncodedNewline | task3/src/encoder.c:43-51 | the encoding of a line has a newline exactly where the line has one, at the end |
| RunLengthRoundTrip.LineRead | task3/src/decoder.c:27-31 | whatever follows, the decoder reads an encoded line as it is if it fits, and else in two pieces |
| RunLengthRoundTrip.LinesRecovered | task3/src/decoder.c:27-31 | splitting the encoded stream at newlines recovers the very lines that were encoded, if they fit |
| RunLengthRoundTrip.GotExactly | task3/src/decoder.c:27-31 | a line comes back if and only if its runs are short and its encoding fits |
| RunLengthRoundTrip.NoMoreNewlines | task3/src/decoder.c:10-31 | the decoder never emits more newlines than the text has |
| RunLengthRoundTrip.StreamRoundTripIff | task3/src/encoder.c:39-56 | for a text whose lines the encoder reads in one piece, decoding its output gives back the text if and only if no run has ten characters and no encoded line is too long for the line buffer |
| RunLengthRoundTrip.StreamRoundTripMeans | task3/src/encoder.c:39-56 | the same in plain terms: no count above 9 and no encoded line of more than 8191 characters |
| RunLengthRoundTrip.EvenReadsRoundTrip | task3/src/decoder.c:23-34 | for any text, also with longer lines: it comes back if all runs are short and no read ends between a count and its character |
| RunLengthRoundTrip.RoundTrip | task3/src/encoder.c:39-56 | this holds of the two programs in a row |
| WordReverser.WordsAt | exercise10/part03/strings_processor.c:29-41 | every character stands as far from the end of its word as it stood from the beginning |
| WordReverser.SpacesKept | exercise10/part03/strings_processor.c:56-63 | the length stays, and there is a space exactly where there was one |
| WordReverser.WordsTwice | exercise10/part03/strings_processor.c:42-65 | reversing the words twice is the identity |
| WordReverser.OwnOutput | exercise10/part03/strings_processor.c:42-65 | the output is again an input, one longer, and from it comes the original with two spaces behind |
| WordReverser.ReverseToken | exercise10/part03/strings_processor.c:29-41 | the token backwards at the write position, all else unchanged |
| WordReverser.Strsep | exercise10/part03/strings_processor.c:56-56 | the next token ends at the first space, which becomes its terminator, or at the end |
| WordReverser.ReverseStringWords | exercise10/part03/strings_processor.c:42-65 | the output holds the words reversed, one more space and the terminator; null and too long inputs leave it as it was |
| Buttons.OnlyReleasesCall | task4/buttons_module.c:54-79 | no action but a release of one of the three pins calls anything |
| Buttons.OnlyAttachedCalls | task4/buttons_module.c:24-39 | a handler that nobody attached is never called |
| Buttons.AttachedIff | task4/buttons_module.c:108-137 | a handler is attached if it has been and was not detached later |
| Buttons.OnePress | task4/buttons_module.c:50-82 | a press of n samples that ends calls the short handler for 1 to 999, the long one above 6000, and nothing else, if attached |
| Buttons.Independent | task4/buttons_module.c:52-53 | what a button calls depends on the samples of that button only |
| Buttons.OddSamplesIgnored | task4/buttons_module.c:54-57 | a sample that is neither 0 nor 1 changes nothing, wherever it stands |
| Buttons.ButtonsModule.FindById | task4/buttons_module.c:41-48 | the index of the descriptor of a pin |
| Buttons.ButtonsModule.ProcessPinEvent | task4/buttons_module.c:50-82 | over any history, the calls made are those the history asks for |
| Buttons.ButtonsModule.ProcessButtonsModule | task4/buttons_module.c:90-100 | three samples, one of each pin, in that order |
| Buttons.ButtonsModule.AttachShortClickListener | task4/buttons_module.c:108-130 | the handler counts from the next release on |
| Buttons.ButtonsModule.AttachLongClickListener | task4/buttons_module.c:132-137 | the same for the control button's long handler |

## Left out

- Store.RemoveUser: requires that the users of that name wait for nothing, because the code frees the user and leaves its reminders in the queue with a dangling owner.
- ListDel: poisons both pointers with null, where the code has two different invalid addresses.
- FillRectangle: requires that all writes are inside the buffer (`FillInBounds`); `FillIsExactIff` and `FillSlips` say when they are.
- PutChar: requires a printable character whose cell is on the screen; a font is any table of 95 glyphs up to 31 columns wide, and the bitmaps of the fonts are not part of this model.
- PutString: requires room for one character beside the start column, and that nothing overruns; `OverrunsIff` says when that is.
- UpdateScreen: takes the machine to be little-endian.
- InitDisplayInternal: is proved for every table that can be read to the end; the bytes of the table that ships are not part of this model.
- EncodeStream: gives each line a longer buffer than the program allocates, because writing beyond an allocated block has no defined result; `SecondPassOverruns` says what is written there.
- Count: takes characters as unsigned, where the signedness of `char` is up to the compiler; counts that the encoder writes are digits either way.
- StreamRoundTripIff: has the exact condition for texts whose lines the encoder reads in one piece, which is what its line loop is made for; for longer lines, whose pieces are encoded one by one and run into one another, only `EvenReadsRoundTrip` is stated. Text with NUL characters is outside both.
- The reminder times, press counts and run lengths are unbounded integers; overflow of `int` is not modelled.
- The callbacks of the reminder store are taken not to change it; the views, printers and the stubs `get_all_reminders` and `get_user_reminders` are not modelled.
- `cleanup_users` and `cleanup_reminders` are only meant as a final pair and are not modelled.
- In the worker protocol, allocations and thread starts succeed, and `complete` and `wait_for_completion` are single steps.
- The clocks: a timer tick and a sample of the pins are calls; SPI, GPIO and sleeping are entries in a log.
- Kernel plumbing (module entry points, character devices, `sysfs`, `procfs`), the user interface, the shell scripts and the small exercises.
- `task8/kernel_module/reminders_model.c`, the other copies of `linked_list.h` and the second `gc9a01.c` repeat the modelled code.
- `lcd_set_address_window`, `lcd_draw_pixel`, `to_upper_string` and `copy_string_to_output` would only add easy members.
