/** The in-memory registry of running tasks, with cleanup running some time after a task is done. */
module TaskRegistry {
  import opened Prelude

  /** The item a task belongs to; None and the empty text are both "no item" to the cleanup. */
  type Item = Option<string>

  predicate NoItem(i: Item) { i.None? || i.value == "" }

  type Lists = map<Item, seq<string>>

  // ---------- What each call does to the two maps ----------

  /** The tasks listed for an item. */
  function Listed(lists: Lists, i: Item): seq<string> { if i in lists then lists[i] else [] }

  /** What a request for the active tasks of an item answers. */
  predicate Active(lists: Lists, i: Item) { Listed(lists, i) != [] }

  function Registered(lists: Lists, id: string, i: Item): Lists
  {
    if Listed(lists, i) != [] then lists[i := lists[i] + [id]] else lists[i := [id]]
  }

  /** list.remove: the first occurrence goes. */
  function RemoveFirst(s: seq<string>, x: string): seq<string>
  {
    if s == [] then [] else if s[0] == x then s[1..] else [s[0]] + RemoveFirst(s[1..], x)
  }

  function Unlisted(lists: Lists, id: string, i: Item): Lists
  {
    if NoItem(i) || id !in Listed(lists, i) then lists
    else
      var rest := RemoveFirst(lists[i], id);
      if rest == [] then lists - {i} else lists[i := rest]
  }

  class Registry {
    var tasks: set<string>
    var itemTasks: Lists

    constructor ()
      ensures tasks == {} && itemTasks == map[]
    {
      tasks, itemTasks := {}, map[];
    }

    /** id is the fresh uuid drawn by the call. */
    method CreateTask(id: string, item: Item)
      modifies this
      ensures tasks == old(tasks) + {id} && itemTasks == Registered(old(itemTasks), id, item)
    {
      tasks := tasks + {id};
      if item in itemTasks && itemTasks[item] != [] {
        itemTasks := itemTasks[item := itemTasks[item] + [id]];
      } else {
        itemTasks := itemTasks[item := [id]];
      }
    }

    method CleanupTask(id: string, item: Item)
      modifies this
      ensures tasks == old(tasks) - {id} && itemTasks == Unlisted(old(itemTasks), id, item)
    {
      tasks := tasks - {id};
      if !NoItem(item) && item in itemTasks && id in itemTasks[item] {
        itemTasks := itemTasks[item := RemoveFirst(itemTasks[item], id)];
        if itemTasks[item] == [] { itemTasks := itemTasks - {item}; }
      }
    }

    /** Up to the await: the id leaves the dictionary at once, its item list only at cleanup. */
    method StopTask(id: string) returns (found: bool)
      modifies this
      ensures found <==> id in old(tasks)
      ensures tasks == old(tasks) - {id} && itemTasks == old(itemTasks)
    {
      found := id in tasks;
      tasks := tasks - {id};
    }
  }

  // ---------- Interleavings ----------

  /** running: coroutines not yet finished; done: finished or cancelled, their cleanup still to come. */
  datatype World = World(tasks: set<string>, lists: Lists, running: map<string, Item>, done: map<string, Item>)

  datatype Event =
    | Create(id: string, item: Item)
    | Stop(id: string)
    | Finish(id: string)
    | Cleanup(id: string)

  const EMPTY := World({}, map[], map[], map[])

  /** A new uuid; only running coroutines finish, and only finished ones are cleaned up, once. */
  predicate Possible(w: World, e: Event)
  {
    match e
    case Create(id, _) => id !in w.running && id !in w.done && forall i | i in w.lists :: id !in w.lists[i]
    case Stop(_) => true
    case Finish(id) => id in w.running
    case Cleanup(id) => id in w.done
  }

  function Step(w: World, e: Event): World
  {
    match e
    case Create(id, i) => World(w.tasks + {id}, Registered(w.lists, id, i), w.running[id := i], w.done)
    case Stop(id) => w.(tasks := w.tasks - {id})
    case Finish(id) =>
      if id in w.running then w.(running := w.running - {id}, done := w.done[id := w.running[id]]) else w
    case Cleanup(id) =>
      if id in w.done then World(w.tasks - {id}, Unlisted(w.lists, id, w.done[id]), w.running, w.done - {id}) else w
  }

  function Run(tr: seq<Event>): World
  {
    if tr == [] then EMPTY else Step(Run(tr[..|tr| - 1]), tr[|tr| - 1])
  }

  predicate PossibleRun(tr: seq<Event>)
  {
    tr == [] || (PossibleRun(tr[..|tr| - 1]) && Possible(Run(tr[..|tr| - 1]), tr[|tr| - 1]))
  }

  // ---------- The invariant of every interleaving ----------

  /** Started under item i and not cleaned up yet. */
  predicate Pending(w: World, id: string, i: Item)
  {
    (id in w.running && w.running[id] == i) || (id in w.done && w.done[id] == i)
  }

  ghost predicate Inv(w: World)
  {
    && (w.running.Keys !! w.done.Keys)
    && (forall i | i in w.lists :: w.lists[i] != [] && Distinct(w.lists[i]))
    && (forall i, j, id | i in w.lists && j in w.lists && id in w.lists[i] && id in w.lists[j] :: i == j)
    && (forall id, i | Pending(w, id, i) :: i in w.lists && id in w.lists[i])
    && (forall i, id | i in w.lists && id in w.lists[i] :: NoItem(i) || Pending(w, id, i))
    && (forall id | id in w.tasks :: id in w.running || id in w.done)
  }

  lemma {:induction false} RemoveFirstMembers(s: seq<string>, x: string)
    requires Distinct(s)
    ensures Distinct(RemoveFirst(s, x))
    ensures forall y :: y in RemoveFirst(s, x) <==> y in s && y != x
  {
    if s != [] {
      assert s == [s[0]] + s[1..];
      assert Distinct(s[1..]);
      assert s[0] !in s[1..];
      RemoveFirstMembers(s[1..], x);
    }
  }

  /** Registering appends the new id to one list and touches no other. */
  lemma RegisteredLists(lists: Lists, id: string, i: Item)
    ensures var after := Registered(lists, id, i);
            && after.Keys == lists.Keys + {i}
            && after[i] == Listed(lists, i) + [id]
            && forall j | j in lists && j != i :: after[j] == lists[j]
  {
  }

  lemma AppendNewKeepsDistinct(s: seq<string>, x: string)
    requires Distinct(s) && x !in s
    ensures Distinct(s + [x])
  {
  }

  lemma CreateKeepsInv(w: World, id: string, i: Item)
    requires Inv(w) && Possible(w, Create(id, i))
    ensures Inv(Step(w, Create(id, i)))
  {
    var v := Step(w, Create(id, i));
    RegisteredLists(w.lists, id, i);
    AppendNewKeepsDistinct(Listed(w.lists, i), id);
    forall j, x ensures j in v.lists && x in v.lists[j]
                        <==> (j in w.lists && x in w.lists[j]) || (j == i && x == id)
    {
    }
    forall j, x ensures Pending(v, x, j) <==> Pending(w, x, j) || (j == i && x == id) { }
  }

  lemma CleanupKeepsInv(w: World, id: string)
    requires Inv(w) && id in w.done
    ensures Inv(Step(w, Cleanup(id)))
  {
    var v, i := Step(w, Cleanup(id)), w.done[id];
    assert Pending(w, id, i);
    RemoveFirstMembers(w.lists[i], id);
    forall j, x ensures j in v.lists && x in v.lists[j]
                        <==> j in w.lists && x in w.lists[j] && !(j == i && x == id && !NoItem(i))
    {
      var rest := RemoveFirst(w.lists[i], id);
      if j == i && rest == [] && !NoItem(i) { assert x !in rest; }
    }
    forall j, x | Pending(v, x, j) ensures j in v.lists && x in v.lists[j] { assert Pending(w, x, j); }
    forall j, x | j in v.lists && x in v.lists[j] ensures NoItem(j) || Pending(v, x, j) {
      assert NoItem(j) || Pending(w, x, j);
    }
  }

  lemma StepKeepsInv(w: World, e: Event)
    requires Inv(w) && Possible(w, e)
    ensures Inv(Step(w, e))
  {
    match e
    case Create(id, i) => CreateKeepsInv(w, id, i);
    case Cleanup(id) => CleanupKeepsInv(w, id);
    case Stop(_) =>
      forall id, i ensures Pending(Step(w, e), id, i) <==> Pending(w, id, i) { }
    case Finish(_) =>
      forall id, i ensures Pending(Step(w, e), id, i) <==> Pending(w, id, i) { }
  }

  /**
   What each event does to the item lists and the dictionary. A cleanup takes the id off the list of its item, and the
   list away when that was its last, but leaves the lists of no item and of the empty item alone.
   */
  lemma StepEffects(w: World, e: Event)
    requires Inv(w) && Possible(w, e)
    ensures var v := Step(w, e);
            match e
            case Create(id, i) =>
              && v.tasks == w.tasks + {id} && v.running == w.running[id := i] && v.done == w.done
              && forall j :: Listed(v.lists, j) == Listed(w.lists, j) + if j == i then [id] else []
            case Stop(id) =>
              v.tasks == w.tasks - {id} && v.lists == w.lists && v.running == w.running && v.done == w.done
            case Finish(id) =>
              && v.tasks == w.tasks && v.lists == w.lists
              && v.running == w.running - {id} && v.done == w.done[id := w.running[id]]
            case Cleanup(id) =>
              && v.tasks == w.tasks - {id} && v.running == w.running && v.done == w.done - {id}
              && (w.done[id] in {None, Some("")} ==> v.lists == w.lists)
              && (w.done[id] !in {None, Some("")} ==>
                    forall j, x :: x in Listed(v.lists, j)
                                   <==> x in Listed(w.lists, j) && !(j == w.done[id] && x == id))
  {
    if e.Cleanup? {
      assert Pending(w, e.id, w.done[e.id]);
      RemoveFirstMembers(w.lists[w.done[e.id]], e.id);
    }
  }

  /** In every interleaving no list is empty, no task is listed twice, and every task of an item is listed under it. */
  lemma {:induction false} EveryRunKeepsInv(tr: seq<Event>)
    requires PossibleRun(tr)
    ensures Inv(Run(tr))
  {
    if tr != [] {
      EveryRunKeepsInv(tr[..|tr| - 1]);
      StepKeepsInv(Run(tr[..|tr| - 1]), tr[|tr| - 1]);
    }
  }

  /**
   An item reads as active exactly while one of its tasks runs or waits for its cleanup; a stopped task that has not
   finished still counts.
   */
  lemma ActiveIffPending(tr: seq<Event>, i: Item)
    requires PossibleRun(tr) && !NoItem(i)
    ensures Active(Run(tr).lists, i) <==> exists id :: Pending(Run(tr), id, i)
  {
    var w := Run(tr);
    EveryRunKeepsInv(tr);
    if Active(w.lists, i) {
      assert w.lists[i][0] in w.lists[i];
      assert Pending(w, w.lists[i][0], i);
    }
    if id :| Pending(w, id, i) { assert id in w.lists[i]; }
  }

  /** A task that no stop has taken out of the dictionary is found active under its item. */
  lemma LiveTasksAreNeverMissed(tr: seq<Event>, id: string)
    requires PossibleRun(tr) && id in Run(tr).tasks
    ensures exists i :: Pending(Run(tr), id, i) && id in Listed(Run(tr).lists, i)
  {
    var w := Run(tr);
    EveryRunKeepsInv(tr);
    var i := if id in w.running then w.running[id] else w.done[id];
    assert Pending(w, id, i);
  }

  function ItemsUsed(tr: seq<Event>): set<Item>
  {
    if tr == [] then {} else
      ItemsUsed(tr[..|tr| - 1]) + if tr[|tr| - 1].Create? then {tr[|tr| - 1].item} else {}
  }

  /** Lists of no item are never emptied. */
  lemma {:induction false} NoItemListsStay(tr: seq<Event>, i: Item)
    requires PossibleRun(tr) && NoItem(i)
    ensures i in Run(tr).lists <==> i in ItemsUsed(tr)
  {
    if tr != [] {
      NoItemListsStay(tr[..|tr| - 1], i);
    }
  }

  /** When all tasks are done and cleaned up, nothing is left but the lists of tasks created without an item. */
  lemma DrainedRegistry(tr: seq<Event>)
    requires PossibleRun(tr) && Run(tr).running == map[] && Run(tr).done == map[]
    ensures Run(tr).tasks == {}
    ensures Run(tr).lists.Keys == set i | i in ItemsUsed(tr) && NoItem(i)
    ensures Run(tr).lists == map[] <==> forall i | i in ItemsUsed(tr) :: !NoItem(i)
  {
    var w := Run(tr);
    EveryRunKeepsInv(tr);
    forall i ensures i in w.lists <==> i in ItemsUsed(tr) && NoItem(i) {
      if i in w.lists {
        assert w.lists[i][0] in w.lists[i];
      }
      if NoItem(i) { NoItemListsStay(tr, i); }
    }
  }
}
