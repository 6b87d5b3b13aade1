/**
 * Concrete command sequences whose outcomes follow from the handlers'
 * contracts. The identity function stands in for the hash: none of these
 * outcomes depends on what SHA-256 returns.
 */
module Scenarios {
  import opened Wrappers
  import opened Decimal
  import opened Addressing
  import opened Tasks
  import opened TaskBot

  /** The index texts used below, read as Python's `int` reads them. */
  lemma SmallIndexTexts()
    ensures ParseInt("0") == Some(0) && ParseInt("1") == Some(1) && ParseInt("4") == Some(4)
  {
    assert NatToString(0) == "0" && NatToString(1) == "1" && NatToString(4) == "4";
    ParseIntNatural(0);
    ParseIntNatural(1);
    ParseIntNatural(4);
  }

  /** add "buy milk" to an empty store: the task is number 1. */
  method AddToEmptyStore() {
    var store := new Store(s => s, 10, {GuildsRoot}, map[]);
    var path := FilePath(store.hash, 7, 42);
    var replies, outcome := store.Task(7, 42, "add", "buy milk");
    assert outcome == Returned && replies == [TaskAdded(1, "buy milk")];
    assert store.files[path] == [Record(Added, "buy milk")];
  }

  /** Then `task finished 1` marks it finished and keeps its description. */
  method FinishFirstTask() {
    var path := FilePath(s => s, 7, 42);
    var store := new Store(s => s, 10, {GuildsRoot, GuildDir(s => s, 7)}, map[path := [Record(Added, "buy milk")]]);
    SmallIndexTexts();
    var replies, outcome := store.Task(7, 42, "finished", "1");
    assert replies == [TaskFinished];
    assert store.files[path] == [Record(Finished, "buy milk")];
  }

  /** Then `view` shows the one line "1. ✅ buy milk". */
  method ViewFinishedTask() {
    var path := FilePath(s => s, 7, 42);
    var store := new Store(s => s, 10, {GuildsRoot, GuildDir(s => s, 7)}, map[path := [Record(Finished, "buy milk")]]);
    var reply := store.View(7, 42);
    assert NatToString(1) == "1";
    assert reply == TaskListing("1. \U{2705} buy milk\n");
  }

  /** With a capacity of 1, a second add warns first and still appends. */
  method CapacityIsAdvisory() {
    var store := new Store(s => s, 1, {GuildsRoot}, map[]);
    var path := FilePath(store.hash, 7, 42);
    var replies, outcome := store.Task(7, 42, "add", "one");
    assert replies == [TaskAdded(1, "one")];
    replies, outcome := store.Task(7, 42, "add", "two");
    assert replies == [CapacityWarning, TaskAdded(2, "two")];
    assert |store.files[path]| == 2;
  }

  /** Index "0" marks the last task. */
  method IndexZeroIsLast() {
    var path := FilePath(s => s, 7, 42);
    var tasks := [Record(Added, "a"), Record(Added, "b")];
    var store := new Store(s => s, 10, {GuildsRoot, GuildDir(s => s, 7)}, map[path := tasks]);
    SmallIndexTexts();
    assert PyIndex(|tasks|, 0 - 1) == Some(1);
    assert WithStatus(tasks, 1, Cancelled) == [Record(Added, "a"), Record(Cancelled, "b")];
    var replies, outcome := store.Task(7, 42, "cancel", "0");
    assert replies == [TaskCancelled("0")];
    assert store.files[path] == [Record(Added, "a"), Record(Cancelled, "b")];
  }

  /** Index "4" of a list of three raises `IndexError` and changes nothing. */
  method IndexPastEndRaises() {
    var path := FilePath(s => s, 7, 42);
    var tasks := [Record(Added, "a"), Record(Added, "b"), Record(Added, "c")];
    var store := new Store(s => s, 10, {GuildsRoot, GuildDir(s => s, 7)}, map[path := tasks]);
    SmallIndexTexts();
    assert PyIndex(|tasks|, 4 - 1) == None;
    var replies, outcome := store.Task(7, 42, "finished", "4");
    assert outcome == Raised(IndexError) && replies == [];
    assert store.files[path] == tasks;
  }

  /** A non-numeric index only gets a usage hint, but the empty file is still created. */
  method IndexNotANumber() {
    var path := FilePath(s => s, 7, 42);
    var store := new Store(s => s, 10, {GuildsRoot}, map[]);
    ParseIntNeedsDigit("abc");
    var replies, outcome := store.Task(7, 42, "finished", "abc");
    assert outcome == Returned && replies == [IndexUsage];
    assert store.files[path] == [];
  }

  /** Clearing a list of finished tasks deletes the file; `view` then reports no tasks. */
  method ClearFinishedDeletes() {
    var path := FilePath(s => s, 7, 42);
    var tasks := [Record(Finished, "a"), Record(Finished, "b")];
    var store := new Store(s => s, 10, {GuildsRoot, GuildDir(s => s, 7)}, map[path := tasks]);
    var replies := store.Clear(7, 42, "finished", Timeout);
    assert replies == [ClearedSelected];
    assert path !in store.files;
    var reply := store.View(7, 42);
    assert reply == NoRegisteredTasks;
  }

  /** `clear all` without an answer in time, and with an answer other than "Y", keeps the file. */
  method ClearAllNeedsExactYes() {
    var path := FilePath(s => s, 7, 42);
    var tasks := [Record(Added, "a")];
    var store := new Store(s => s, 10, {GuildsRoot, GuildDir(s => s, 7)}, map[path := tasks]);
    var replies := store.Clear(7, 42, "all", Timeout);
    assert replies == [ConfirmClearAll] && store.files[path] == tasks;
    replies := store.Clear(7, 42, "all", Message("y"));
    assert replies == [ConfirmClearAll, ClearAborted] && store.files[path] == tasks;
    replies := store.Clear(7, 42, "all", Message("Y"));
    assert replies == [ConfirmClearAll, ClearedAll] && path !in store.files;
  }
}
