/**
 * The task collection of the to-do screen as values: the task record, the
 * seed list the screen loads, and the pure updaters and derivations the
 * screen's handlers apply to its state (toggle by id with `map`, delete by
 * id with `filter`, the search filter, the add-button rule and the message
 * shown for an empty list).
 */
module Tasks {
  import opened Text
  import opened Seqs

  /** A task as the screen stores it. Ids are numbers chosen by whoever
      creates the task; the screen assumes but never checks that they are
      distinct. */
  datatype Task = Task(id: int, title: string, description: string, completed: bool)

  /** The add-task form: what the user has typed so far. */
  datatype Draft = Draft(title: string, description: string)

  datatype Option<T> = None | Some(value: T)

  const EmptyDraft := Draft("", "")

  /** The ten tasks of the fixed list that loading installs. */
  const Breakfast := Task(1, "Have breakfast", "Eat a healthy breakfast", false)
  const Gym := Task(2, "Go to the gym", "Do some cardio and weight lifting", false)
  const Reading := Task(3, "Read a book", "Read a book for 30 minutes", false)
  const BlogPost := Task(4, "Write a blog post", "Write a blog post about React Native", false)
  const Lunch := Task(5, "Have lunch", "Eat a healthy lunch", false)
  const Nap := Task(6, "Take a nap", "Take a 30-minute nap", false)
  const Walk := Task(7, "Go for a walk", "Go for a 30-minute walk", false)
  const Dinner := Task(8, "Have dinner", "Eat a healthy dinner", false)
  const Movie := Task(9, "Watch a movie", "Watch a movie with your family", false)
  const Bed := Task(10, "Go to bed", "Go to bed at 10:00 PM", false)

  /** The fixed list that loading installs: ten open tasks with ids 1 to 10
      in order (so the ids are distinct). */
  function Seed(): (r: seq<Task>)
    ensures |r| == 10
    ensures forall i :: 0 <= i < |r| ==> r[i].id == i + 1 && !r[i].completed
  {
    [Breakfast, Gym, Reading, BlogPost, Lunch, Nap, Walk, Dinner, Movie, Bed]
  }

  // ---------------------------------------------------------------------
  // Toggle: every task is copied, the one with the given id with its
  // completion flag flipped.

  /** Flips `completed` on exactly the tasks whose id is `id`; every other
      field and every other task stays as it was, in the same order. */
  function ToggleCompleted(tasks: seq<Task>, id: int): (r: seq<Task>)
    ensures |r| == |tasks|
    ensures forall i :: 0 <= i < |tasks| ==>
      r[i].id == tasks[i].id && r[i].title == tasks[i].title
      && r[i].description == tasks[i].description
      && (r[i].completed <==> (tasks[i].completed != (tasks[i].id == id)))
  {
    if tasks == [] then []
    else
      var t := tasks[0];
      [if t.id == id then t.(completed := !t.completed) else t] + ToggleCompleted(tasks[1..], id)
  }

  /** Toggling the same id twice gives back the original list. */
  lemma {:induction false} ToggleTwice(tasks: seq<Task>, id: int)
    ensures ToggleCompleted(ToggleCompleted(tasks, id), id) == tasks
  {
    var once := ToggleCompleted(tasks, id);
    var twice := ToggleCompleted(once, id);
    forall i | 0 <= i < |tasks|
      ensures twice[i] == tasks[i]
    {
      assert once[i].id == tasks[i].id;
    }
  }

  // ---------------------------------------------------------------------
  // Delete: keep every task whose id differs from the given one.

  function OtherThan(id: int): Task -> bool {
    (t: Task) => t.id != id
  }

  /** The tasks whose id differs from `id`: no task with that id remains,
      and every other task does. */
  function WithoutId(tasks: seq<Task>, id: int): (r: seq<Task>)
    ensures |r| <= |tasks|
    ensures forall k :: 0 <= k < |r| ==> r[k].id != id
  {
    Filter(OtherThan(id), tasks)
  }

  /** Deleting keeps the other tasks in their original order: the result
      is the subsequence at exactly the positions whose id differs. */
  lemma DeleteKeepsOthersInOrder(tasks: seq<Task>, id: int)
    ensures exists idx :: SelectsExactly(OtherThan(id), tasks, WithoutId(tasks, id), idx)
  {
    assert WithoutId(tasks, id) == Filter(OtherThan(id), tasks);
    FilterSelectsExactly(OtherThan(id), tasks);
  }

  /** Deleting an id no task has changes nothing. */
  lemma DeleteAbsentIdIsNoOp(tasks: seq<Task>, id: int)
    requires forall i :: 0 <= i < |tasks| ==> tasks[i].id != id
    ensures WithoutId(tasks, id) == tasks
  {
    FilterKeepsAll(OtherThan(id), tasks);
  }

  // ---------------------------------------------------------------------
  // Search: the memoised `filteredTasks`

  /** The task's lower-cased title or description contains the lower-cased
      search text (not trimmed). */
  predicate Matches(t: Task, searchText: string)
    ensures searchText == "" ==> Matches(t, searchText)
  {
    Contains(Lower(t.title), Lower(searchText)) || Contains(Lower(t.description), Lower(searchText))
  }

  function MatchesSearch(searchText: string): Task -> bool {
    (t: Task) => Matches(t, searchText)
  }

  /** The list the screen shows: everything when the trimmed search text is
      empty, otherwise the tasks that match it. */
  function VisibleTasks(tasks: seq<Task>, searchText: string): (r: seq<Task>)
    ensures IsBlank(searchText) ==> r == tasks
    ensures !IsBlank(searchText) ==>
      (forall k :: 0 <= k < |r| ==> Matches(r[k], searchText))
  {
    if IsBlank(searchText) then tasks else Filter(MatchesSearch(searchText), tasks)
  }

  /** A task matches exactly when the folded search text occurs somewhere in
      its folded title or folded description. */
  lemma MatchesIff(t: Task, searchText: string)
    ensures Matches(t, searchText) <==>
      (exists i :: OccursAt(Lower(t.title), Lower(searchText), i))
      || (exists i :: OccursAt(Lower(t.description), Lower(searchText), i))
  {
    ContainsIff(Lower(t.title), Lower(searchText));
    ContainsIff(Lower(t.description), Lower(searchText));
  }

  /** With a non-blank search the visible list is the order-preserving
      subsequence at exactly the positions of matching tasks. */
  lemma VisibleKeepsMatchesInOrder(tasks: seq<Task>, searchText: string)
    requires !IsBlank(searchText)
    ensures exists idx :: SelectsExactly(MatchesSearch(searchText), tasks, VisibleTasks(tasks, searchText), idx)
  {
    assert VisibleTasks(tasks, searchText) == Filter(MatchesSearch(searchText), tasks);
    FilterSelectsExactly(MatchesSearch(searchText), tasks);
  }

  /** Searching ignores the case of the search text. */
  lemma VisibleIgnoresSearchCase(tasks: seq<Task>, searchText: string)
    ensures VisibleTasks(tasks, Lower(searchText)) == VisibleTasks(tasks, searchText)
  {
    BlankIgnoresCase(searchText);
    LowerIdempotent(searchText);
    FilterAgrees(MatchesSearch(Lower(searchText)), MatchesSearch(searchText), tasks);
  }

  /** Two search texts that differ only in the case of ASCII letters show
      the same tasks. */
  lemma SearchIgnoresCase(tasks: seq<Task>, a: string, b: string)
    requires EqualIgnoringCase(a, b)
    ensures VisibleTasks(tasks, a) == VisibleTasks(tasks, b)
  {
    LowerEqualIff(a, b);
    BlankIgnoresCase(a);
    BlankIgnoresCase(b);
    FilterAgrees(MatchesSearch(a), MatchesSearch(b), tasks);
  }

  // ---------------------------------------------------------------------
  // Adding

  /** The record the add handler appends: the supplied id, the title as
      typed (not trimmed), the draft description, not completed. */
  function NewTask(id: int, draft: Draft): (t: Task)
    ensures t.id == id && !t.completed
    ensures Draft(t.title, t.description) == draft
  {
    Task(id, draft.title, draft.description, false)
  }

  /** Adding a task under a fresh id and then deleting that id gives back
      the list from before the add. */
  lemma {:induction false} DeleteUndoesAdd(tasks: seq<Task>, id: int, draft: Draft)
    requires forall i :: 0 <= i < |tasks| ==> tasks[i].id != id
    ensures WithoutId(tasks + [NewTask(id, draft)], id) == tasks
  {
    var p := OtherThan(id);
    FilterConcat(p, tasks, [NewTask(id, draft)]);
    FilterKeepsAll(p, tasks);
    FilterDropsSingle(p, NewTask(id, draft));
  }

  /** The add button is disabled while loading or while the title is empty
      after trimming. */
  function AddButtonDisabled(isLoading: bool, title: string): (disabled: bool)
    ensures disabled <==> isLoading || forall i :: 0 <= i < |title| ==> IsWhitespace(title[i])
  {
    isLoading || IsBlank(title)
  }

  // ---------------------------------------------------------------------
  // Empty list

  /** The message for a search that matched nothing; it quotes the search
      text. */
  function NoMatchMessage(searchText: string): (m: string)
    ensures Contains(m, searchText)
  {
    Quote("No tasks found. There are no tasks with \"", searchText, "\"")
  }

  /** `prefix + s + suffix`, which contains `s`. */
  function Quote(prefix: string, s: string, suffix: string): (m: string)
    ensures Contains(m, s)
  {
    var m := prefix + s + suffix;
    assert m[|prefix|..|prefix| + |s|] == s;
    assert OccursAt(m, s, |prefix|);
    ContainsIff(m, s);
    m
  }

  const AddTaskHint := "No tasks found. Add a new task"

  /** The text shown when the list has nothing to show; `None` while
      loading, and nothing is shown either while some task is visible. */
  function EmptyListMessage(isLoading: bool, searchText: string, visible: seq<Task>): (m: Option<string>)
    ensures m.Some? <==> !isLoading && visible == []
    ensures m.Some? ==> (m.value == AddTaskHint <==> IsBlank(searchText))
  {
    if isLoading || visible != [] then None
    else if !IsBlank(searchText) then Some(NoMatchMessage(searchText))
    else Some(AddTaskHint)
  }

  /** The empty-list message is honest: it appears exactly when nothing is
      visible and loading is over; it quotes the search text when there is
      one (and then no task matches it), and otherwise the collection really
      is empty. */
  lemma EmptyMessageIsTruthful(tasks: seq<Task>, isLoading: bool, searchText: string)
    ensures var m := EmptyListMessage(isLoading, searchText, VisibleTasks(tasks, searchText));
      && (m.Some? <==> !isLoading && VisibleTasks(tasks, searchText) == [])
      && (m.Some? && IsBlank(searchText) ==> tasks == [] && m.value == AddTaskHint)
      && (m.Some? && !IsBlank(searchText) ==>
            Contains(m.value, searchText)
            && forall i :: 0 <= i < |tasks| ==> !Matches(tasks[i], searchText))
  {
    if !IsBlank(searchText) {
      FilterEmptyIff(MatchesSearch(searchText), tasks);
    }
  }

  // ---------------------------------------------------------------------
  // The seed list

  /** No "lu" in the folded text, so no "lunch" either. */
  lemma NoLunchIn(s: string)
    requires forall i :: 0 <= i < |s| - 1 ==> !(LowerChar(s[i]) == 'l' && LowerChar(s[i + 1]) == 'u')
    ensures !Contains(Lower(s), Lower("lunch"))
  {
    assert Lower("lunch") == "lunch";
    AbsentWithoutLeadingPair(Lower(s), "lunch");
  }

  /** A task whose title and description never hold "l" followed by "u"
      (in either case) does not match "lunch". */
  lemma MissesLunch(t: Task)
    requires forall i :: 0 <= i < |t.title| - 1 ==> !(LowerChar(t.title[i]) == 'l' && LowerChar(t.title[i + 1]) == 'u')
    requires forall i :: 0 <= i < |t.description| - 1 ==> !(LowerChar(t.description[i]) == 'l' && LowerChar(t.description[i + 1]) == 'u')
    ensures !Matches(t, "lunch")
  {
    NoLunchIn(t.title);
    NoLunchIn(t.description);
  }

  /** Searching the seed list for "lunch" shows exactly the "Have lunch"
      task. */
  lemma SeedSearchLunch()
    ensures VisibleTasks(Seed(), "lunch") == [Lunch]
    ensures Lunch.id == 5 && Lunch.title == "Have lunch"
  {
    LunchNotBlank();
    SeedFilterLunch();
  }

  lemma LunchNotBlank()
    ensures !IsBlank("lunch")
  {
    assert !IsWhitespace("lunch"[0]);
  }

  /** The search filter keeps only the fifth seed task. */
  lemma SeedFilterLunch()
    ensures Filter(MatchesSearch("lunch"), Seed()) == [Seed()[4]]
  {
    var p := MatchesSearch("lunch");
    LunchMatches();
    forall i | 0 <= i < |Seed()| && i != 4
      ensures !p(Seed()[i])
    {
      SeedMissesLunch(i);
    }
    FilterSingleMatch(p, Seed(), 4);
  }

  /** The search is case-blind on the seed list too: "LUNCH" also shows
      exactly the "Have lunch" task. */
  lemma SeedSearchUpperLunch()
    ensures VisibleTasks(Seed(), "LUNCH") == [Lunch]
  {
    SeedSearchLunch();
    UpperLunchFolds();
    SearchIgnoresCase(Seed(), "LUNCH", "lunch");
  }

  lemma UpperLunchFolds()
    ensures EqualIgnoringCase("LUNCH", "lunch")
  {
    forall i | 0 <= i < 5
      ensures "lunch"[i] as int == "LUNCH"[i] as int + 32
    {
    }
  }

  lemma LunchMatches()
    ensures Matches(Lunch, "lunch")
  {
    assert Lower("lunch") == "lunch";
    assert Lower(Lunch.title) == "have lunch";
    assert OccursAt("have lunch", "lunch", 5);
    ContainsIff("have lunch", "lunch");
  }

  /** Every seed task other than the fifth misses "lunch". */
  lemma SeedMissesLunch(i: int)
    requires 0 <= i < 10 && i != 4
    ensures !Matches(Seed()[i], "lunch")
  {
    if i == 0 {
      BreakfastMissesLunch();
    } else if i == 1 {
      GymMissesLunch();
    } else if i == 2 {
      ReadingMissesLunch();
    } else if i == 3 {
      BlogPostMissesLunch();
    } else if i == 5 {
      NapMissesLunch();
    } else if i == 6 {
      WalkMissesLunch();
    } else if i == 7 {
      DinnerMissesLunch();
    } else if i == 8 {
      MovieMissesLunch();
    } else {
      BedMissesLunch();
    }
  }

  lemma BreakfastMissesLunch()
    ensures !Matches(Breakfast, "lunch")
  {
    MissesLunch(Breakfast);
  }

  lemma GymMissesLunch()
    ensures !Matches(Gym, "lunch")
  {
    MissesLunch(Gym);
  }

  lemma ReadingMissesLunch()
    ensures !Matches(Reading, "lunch")
  {
    MissesLunch(Reading);
  }

  lemma BlogPostMissesLunch()
    ensures !Matches(BlogPost, "lunch")
  {
    MissesLunch(BlogPost);
  }

  lemma NapMissesLunch()
    ensures !Matches(Nap, "lunch")
  {
    MissesLunch(Nap);
  }

  lemma WalkMissesLunch()
    ensures !Matches(Walk, "lunch")
  {
    MissesLunch(Walk);
  }

  lemma DinnerMissesLunch()
    ensures !Matches(Dinner, "lunch")
  {
    MissesLunch(Dinner);
  }

  lemma MovieMissesLunch()
    ensures !Matches(Movie, "lunch")
  {
    MissesLunch(Movie);
  }

  lemma BedMissesLunch()
    ensures !Matches(Bed, "lunch")
  {
    MissesLunch(Bed);
  }

  /** Deleting the gym task (id 2) from the seed list leaves the other nine,
      in order. */
  lemma SeedDeleteGym()
    ensures Gym.id == 2 && Gym.title == "Go to the gym"
    ensures WithoutId(Seed(), 2) == [Breakfast, Reading, BlogPost, Lunch, Nap, Walk, Dinner, Movie, Bed]
  {
    SeedFilterGym();
    assert Seed()[..1] + Seed()[2..] == [Breakfast, Reading, BlogPost, Lunch, Nap, Walk, Dinner, Movie, Bed];
  }

  /** Only the second seed task has id 2. */
  lemma SeedFilterGym()
    ensures Filter(OtherThan(2), Seed()) == Seed()[..1] + Seed()[2..]
  {
    FilterSingleMiss(OtherThan(2), Seed(), 1);
  }
}
