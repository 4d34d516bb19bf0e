/** The task store and the two updaters the component hands to `setTasks`:
    each builds a new mapping from the previous one (a spread copy plus an
    append, or a spread copy plus a `filter`) and never changes the old one. */
module TaskStore {

  /** Tasks per day key, in the order they were added; duplicates are allowed. */
  type Store = map<string, seq<string>>

  /** `prev[day] || []`: the day's tasks, or none when the key is absent. */
  function Lookup(store: Store, day: string): seq<string> {
    if day in store then store[day] else []
  }

  /** `filter((t) => t !== task)`: the entries different from `task`, in their order. */
  function Without(s: seq<string>, task: string): (r: seq<string>)
    ensures task !in r
    ensures multiset(r) == multiset(s)[task := 0]
    ensures |r| <= |s|
  {
    if s == [] then []
    else
      assert s == [s[0]] + s[1..];
      (if s[0] == task then [] else [s[0]]) + Without(s[1..], task)
  }

  /** handleAddTask's updater: `task` goes at the end of the day's list,
      which is created when absent; every other key keeps its list. */
  function AddTask(store: Store, day: string, task: string): (r: Store)
    ensures r.Keys == store.Keys + {day}
    ensures day in store ==> r[day] == store[day] + [task]
    ensures day !in store ==> r[day] == [task]
    ensures |r[day]| == |Lookup(store, day)| + 1
    ensures forall k :: k in store && k != day ==> r[k] == store[k]
  {
    store[day := Lookup(store, day) + [task]]
  }

  /** handleRemoveTask's updater: every entry equal to `task` leaves the
      day's list, the others stay in their order, and the key is kept even
      when its list becomes empty. The source reads `updatedTasks[day]`
      without a guard, so the key must be present. */
  function RemoveTask(store: Store, day: string, task: string): (r: Store)
    requires day in store
    ensures r.Keys == store.Keys
    ensures r[day] == Without(store[day], task)
    ensures task !in r[day]
    ensures multiset(r[day]) == multiset(store[day])[task := 0]
    ensures forall k :: k in store && k != day ==> r[k] == store[k]
  {
    store[day := Without(store[day], task)]
  }

  /** Filtering keeps the order of the survivors: it distributes over concatenation. */
  lemma {:induction false} WithoutConcat(a: seq<string>, b: seq<string>, task: string)
    ensures Without(a + b, task) == Without(a, task) + Without(b, task)
  {
    if a != [] {
      assert (a + b)[0] == a[0];
      assert (a + b)[1..] == a[1..] + b;
      WithoutConcat(a[1..], b, task);
    } else {
      assert a + b == b;
    }
  }

  /** Removing a task that the list does not hold changes nothing. */
  lemma {:induction false} WithoutAbsent(s: seq<string>, task: string)
    requires task !in s
    ensures Without(s, task) == s
  {
    if s != [] {
      WithoutAbsent(s[1..], task);
    }
  }

  /** Removing the same task twice is the same as removing it once. */
  lemma RemoveTaskIdempotent(store: Store, day: string, task: string)
    requires day in store
    ensures RemoveTask(RemoveTask(store, day, task), day, task) == RemoveTask(store, day, task)
  {
    WithoutAbsent(RemoveTask(store, day, task)[day], task);
  }

  /** A remove of an absent task leaves the store as it was. */
  lemma RemoveAbsentTask(store: Store, day: string, task: string)
    requires day in store && task !in store[day]
    ensures RemoveTask(store, day, task) == store
  {
    WithoutAbsent(store[day], task);
  }

  /** Two adds to one day keep their order. */
  lemma AddTwiceKeepsOrder(store: Store, day: string, first: string, second: string)
    ensures AddTask(AddTask(store, day, first), day, second)[day]
            == Lookup(store, day) + [first, second]
  {
  }

  /** A task that appears twice on a day is removed both times, and the
      other entries survive in order. */
  lemma RemoveDuplicates(x: string, task: string)
    requires x != task
    ensures Without([task, x, task], task) == [x]
  {
    WithoutConcat([task], [x, task], task);
    WithoutConcat([x], [task], task);
  }

  /** Neither update removes a key: the store never shrinks from non-empty to empty. */
  lemma UpdatesKeepKeys(store: Store, day: string, task: string)
    ensures |AddTask(store, day, task)| >= 1
    ensures day in store ==> |RemoveTask(store, day, task)| == |store| >= 1
  {
    var added := AddTask(store, day, task);
    assert day in added;
  }
}
