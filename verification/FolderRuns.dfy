/** Runs of inserts, deletes and moves: when the folder table stays a forest. */
module FolderRuns {
  import opened Prelude
  import opened FolderTree
  import opened FolderStore

  // ---------- Putting one row ----------

  /** Chains that do not pass through the written row are unchanged. */
  lemma {:induction false} UpAvoiding(t: Table, u: Id, x: Id, f: Folder, b: Id, k: nat)
    requires forall i: nat | i < k :: Up(t, u, b, i) != Some(x)
    ensures Up(t[x := f], u, b, k) == Up(t, u, b, k)
  {
    if k > 0 {
      UpAvoiding(t, u, x, f, b, k - 1);
      assert Up(t, u, b, k - 1) != Some(x);
    }
  }

  /** The row's new parent is neither the row itself nor one of its descendants, which it may have before it exists. */
  ghost predicate ParentIsOutside(t: Table, x: Id, f: Folder)
  {
    f.parent.Some? ==> f.parent.value != x && !Descends(t, f.user, x, f.parent.value)
  }

  lemma PutBelowItselfMakesCycle(t: Table, x: Id, f: Folder)
    requires Acyclic(t, f.user) && !ParentIsOutside(t, x, f)
    ensures !Acyclic(t[x := f], f.user)
  {
    var u, v, p := f.user, t[x := f], f.parent.value;
    var k: nat := if p == x then 0 else var k: nat :| k >= 1 && Up(t, u, p, k) == Some(x); k;
    forall i: nat | i < k ensures Up(t, u, p, i) != Some(x) {
      UpAdds(t, u, p, i, k - i);
    }
    UpAvoiding(t, u, x, f, p, k);
    UpFromParent(v, u, x, k);
    assert Up(v, u, x, k + 1) == Some(x);
  }

  lemma PutOutsideKeepsForest(t: Table, x: Id, f: Folder)
    requires Acyclic(t, f.user) && ParentIsOutside(t, x, f) && (x in t ==> t[x].user == f.user)
    ensures Acyclic(t[x := f], f.user)
  {
    var u, v, sub := f.user, t[x := f], Subtree(t, f.user, x);
    AcyclicIffRanked(t, u);
    var rank: Id -> nat :| RankedBy(t, u, rank);
    var lift := if f.parent.Some? then rank(f.parent.value) + 1 else 0;
    var lifted := (y: Id) => if y in sub then rank(y) + lift else rank(y);
    SubtreeIsClosed(t, u, x);
    forall q, c | Edge(v, u, q, c) ensures lifted(q) < lifted(c) {
      if c == x {
        assert f.parent == Some(q) && q !in sub;
      } else {
        assert Edge(t, u, q, c);
        assert q in sub ==> c in Kids(t, u, sub);
      }
    }
    RankedIsAcyclic(v, u, lifted);
  }

  /** Writing a row that is new or was the user's keeps the user's folders acyclic exactly under that condition. */
  lemma PutKeepsForestIff(t: Table, x: Id, f: Folder)
    requires Acyclic(t, f.user) && (x in t ==> t[x].user == f.user)
    ensures Acyclic(t[x := f], f.user) <==> ParentIsOutside(t, x, f)
  {
    if ParentIsOutside(t, x, f) { PutOutsideKeepsForest(t, x, f); } else { PutBelowItselfMakesCycle(t, x, f); }
  }

  lemma {:induction false} OthersUpUnchanged(t: Table, w: Id, x: Id, f: Folder, b: Id, k: nat)
    requires f.user != w && (x in t ==> t[x].user != w)
    ensures Up(t[x := f], w, b, k) == Up(t, w, b, k)
  {
    if k > 0 { OthersUpUnchanged(t, w, x, f, b, k - 1); }
  }

  lemma OthersStayAcyclic(t: Table, w: Id, x: Id, f: Folder)
    requires f.user != w && (x in t ==> t[x].user != w) && Acyclic(t, w)
    ensures Acyclic(t[x := f], w)
  {
    var v := t[x := f];
    forall y, k: nat | k >= 1 ensures Up(v, w, y, k) != Some(y) { OthersUpUnchanged(t, w, x, f, y, k); }
  }

  /** Exactly the moves that stay out of the folder's own subtree keep the table acyclic. */
  lemma MoveKeepsForestIff(t: Table, u: Id, id: Id, p: Id)
    requires Acyclic(t, u) && id in t && t[id].user == u
    ensures Acyclic(Moved(t, id, Some(p)), u) <==> p != id && !Descends(t, u, id, p)
  {
    PutKeepsForestIff(t, id, t[id].(parent := Some(p)));
  }

  // ---------- The checked move ----------

  /** The check of the move request is exact when the capped search was not cut short. */
  lemma CheckedMoveKeepsForest(t: Table, u: Id, id: Id, target: Option<Id>)
    requires Acyclic(t, u) && id in t && t[id].user == u && MayMove(t, u, id, target)
    requires Below(t, u, id, MAX_DEPTH + 1) <= Below(t, u, id, MAX_DEPTH)
    ensures Acyclic(Moved(t, id, target), u)
  {
    LevelsCompleteIff(t, u, id, MAX_DEPTH);
    if target.Some? { assert !Descends(t, u, id, target.value); }
    PutKeepsForestIff(t, id, t[id].(parent := target));
  }

  /** In general a checked move keeps the forest unless the target hides more than 100 levels down. */
  lemma CheckedMoveIff(t: Table, u: Id, id: Id, p: Id)
    requires Acyclic(t, u) && id in t && t[id].user == u && MayMove(t, u, id, Some(p))
    ensures Acyclic(Moved(t, id, Some(p)), u) <==> forall k: nat | k > 100 :: Up(t, u, p, k) != Some(id)
  {
    MoveKeepsForestIff(t, u, id, p);
    if Descends(t, u, id, p) {
      var k: nat :| k >= 1 && Up(t, u, p, k) == Some(id);
      assert k > MAX_DEPTH && Up(t, u, p, k) == Some(id);
    } else {
      forall k: nat | k > MAX_DEPTH ensures Up(t, u, p, k) != Some(id) { }
    }
  }

  function Link(i: Id): Folder { Folder(if i == 0 then None else Some(i - 1), 0, "") }

  /** One chain of 102 folders, each the parent of the next. */
  function LongChain(): Table
  {
    map i | 0 <= i < 102 :: Link(i)
  }

  lemma {:induction false} LongChainUp(b: Id, k: nat)
    requires 0 <= b < 102
    ensures Up(LongChain(), 0, b, k) == if k <= b then Some(b - k) else None
  {
    if k > 0 { LongChainUp(b, k - 1); }
  }

  /** The cap matters: the request may move the top of a 102-folder chain under its last folder. */
  lemma DeepMovePassesTheCheck()
    ensures var t := LongChain();
            Acyclic(t, 0) && MayMove(t, 0, 0, Some(101)) && !Acyclic(Moved(t, 0, Some(101)), 0)
  {
    var t := LongChain();
    var rank: Id -> nat := (x: Id) => if x < 0 then 0 else x;
    assert RankedBy(t, 0, rank);
    RankedIsAcyclic(t, 0, rank);
    forall k: nat | 1 <= k <= MAX_DEPTH ensures Up(t, 0, 101, k) != Some(0) { LongChainUp(101, k); }
    LongChainUp(101, 101);
    MoveKeepsForestIff(t, 0, 0, 101);
    assert Descends(t, 0, 0, 101);
  }

  /** The capped search and the recursive walk list the same folders exactly when level 101 brings nothing new. */
  lemma SearchAgreesWithWalk(t: Table, u: Id, id: Id, folders: seq<Id>)
    requires Listing(t, u, id, folders)
    ensures Members(folders) == Below(t, u, id, MAX_DEPTH)
            <==> Below(t, u, id, MAX_DEPTH + 1) <= Below(t, u, id, MAX_DEPTH)
    ensures Shallow(t, u, id, MAX_DEPTH + 1) ==> Members(folders) == Below(t, u, id, MAX_DEPTH)
  {
    LevelsCompleteIff(t, u, id, MAX_DEPTH);
  }

  // ---------- Whole runs ----------

  datatype Event =
    | Insert(newId: Id, user: Id, form: FolderForm, parent: Option<Id>, valid: bool)
    | Delete(id: Id, user: Id)
    | Move(id: Id, user: Id, target: Option<Id>, nameTaken: bool)

  ghost predicate MoveHappens(t: Table, e: Event)
    requires e.Move?
  {
    e.id in t && t[e.id].user == e.user && MayMove(t, e.user, e.id, e.target) && !e.nameTaken
  }

  /**
   One request, as the methods promise it. A delete removes some rows: the whole subtree, or fewer when its recursion
   overflows. The repair of a dangling parent by the listing request is a move to the root.
   */
  ghost predicate Next(t: Table, e: Event, v: Table)
  {
    match e
    case Insert(newId, user, form, parent, valid) =>
      v == if valid then Inserted(t, newId, user, form, parent) else t
    case Delete(_, user) => NoNewOrphans(t, v, user) && CyclesStay(t, v, user) && OthersKept(t, v, user)
    case Move(id, _, target, _) => v == if MoveHappens(t, e) then Moved(t, id, target) else t
  }

  ghost predicate IsRun(ts: seq<Table>, es: seq<Event>)
  {
    |ts| == |es| + 1 && forall i | 0 <= i < |es| :: Next(ts[i], es[i], ts[i + 1])
  }

  /** No user has a folder below itself. */
  ghost predicate Forest(t: Table) { forall u :: Acyclic(t, u) }

  /**
   What must hold before the request: a folder created under an id of the form's own choosing does not get itself or a
   row already waiting below that id as parent; a folder moved by the request has no target more than 100 levels below.
   */
  ghost predicate Safe(t: Table, e: Event)
  {
    match e
    case Insert(newId, user, form, parent, valid) =>
      var x := Or(form.id, newId);
      valid && x !in t ==> ParentIsOutside(t, x, Folder(parent, Or(form.owner, user), form.name))
    case Delete(_, _) => true
    case Move(id, user, target, _) =>
      MoveHappens(t, e) && target.Some? ==> forall k: nat | k > MAX_DEPTH :: Up(t, user, target.value, k) != Some(id)
  }

  lemma RemovalKeepsForest(t: Table, u: Id, v: Table)
    requires Acyclic(t, u) && v.Keys <= t.Keys && forall c | c in v :: v[c] == t[c]
    ensures Acyclic(v, u)
  {
    AcyclicIffRanked(t, u);
    var rank: Id -> nat :| RankedBy(t, u, rank);
    forall q, c | Edge(v, u, q, c) ensures rank(q) < rank(c) { assert Edge(t, u, q, c); }
    RankedIsAcyclic(v, u, rank);
  }

  lemma PutForestIff(t: Table, x: Id, f: Folder)
    requires Forest(t) && (x in t ==> t[x].user == f.user)
    ensures Forest(t[x := f]) <==> ParentIsOutside(t, x, f)
  {
    assert Acyclic(t, f.user);
    PutKeepsForestIff(t, x, f);
    if ParentIsOutside(t, x, f) {
      var v := t[x := f];
      forall w ensures Acyclic(v, w) {
        assert Acyclic(t, w);
        if w != f.user { OthersStayAcyclic(t, w, x, f); }
      }
    }
  }

  /** A request keeps the table a forest exactly when it is safe. */
  lemma StepKeepsForestIff(t: Table, e: Event, v: Table)
    requires Forest(t) && Next(t, e, v)
    ensures Forest(v) <==> Safe(t, e)
  {
    match e
    case Insert(newId, user, form, parent, valid) =>
      var x := Or(form.id, newId);
      if valid && x !in t { PutForestIff(t, x, Folder(parent, Or(form.owner, user), form.name)); }
    case Delete(_, _) =>
      forall u ensures Acyclic(v, u) {
        assert Acyclic(t, u);
        RemovalKeepsForest(t, u, v);
      }
    case Move(id, user, target, _) =>
      if MoveHappens(t, e) {
        PutForestIff(t, id, t[id].(parent := target));
        assert Acyclic(t, user);
        if target.Some? { CheckedMoveIff(t, user, id, target.value); MoveKeepsForestIff(t, user, id, target.value); }
      }
  }

  /** From a forest, all tables of a run are forests exactly when all its requests are safe. */
  lemma {:induction false} RunKeepsForestIff(ts: seq<Table>, es: seq<Event>)
    requires IsRun(ts, es) && Forest(ts[0])
    ensures (forall n | 0 <= n < |ts| :: Forest(ts[n])) <==> forall n | 0 <= n < |es| :: Safe(ts[n], es[n])
  {
    forall n | 0 <= n < |es| && Forest(ts[n]) ensures Forest(ts[n + 1]) <==> Safe(ts[n], es[n]) {
      StepKeepsForestIff(ts[n], es[n], ts[n + 1]);
    }
    if forall n | 0 <= n < |ts| :: Forest(ts[n]) {
      forall n | 0 <= n < |es| ensures Safe(ts[n], es[n]) { assert Forest(ts[n]) && Forest(ts[n + 1]); }
    }
    if forall n | 0 <= n < |es| :: Safe(ts[n], es[n]) {
      for n := 0 to |es|
        invariant forall i | 0 <= i <= n :: Forest(ts[i])
      {
        assert Safe(ts[n], es[n]);
      }
    }
  }

  /** A fresh uuid: not yet mentioned anywhere in the table or in the request. */
  predicate Unused(t: Table, newId: Id, parent: Option<Id>)
  {
    newId !in t && parent != Some(newId) && forall c | c in t :: t[c].parent != Some(newId)
  }

  /** No id in the form, and no folder of more than 100 levels moved under another. */
  ghost predicate Ordinary(t: Table, e: Event)
  {
    match e
    case Insert(newId, _, form, parent, _) => form.id.None? && Unused(t, newId, parent)
    case Delete(_, _) => true
    case Move(id, user, target, _) =>
      target.Some? ==> Below(t, user, id, MAX_DEPTH + 1) <= Below(t, user, id, MAX_DEPTH)
  }

  lemma OrdinaryIsSafe(t: Table, e: Event)
    requires Forest(t) && Ordinary(t, e)
    ensures Safe(t, e)
  {
    match e
    case Insert(newId, user, form, parent, _) =>
      var u := Or(form.owner, user);
      if parent.Some? && Descends(t, u, newId, parent.value) {
        DescendsThroughChild(t, u, newId, parent.value);
        assert false;
      }
    case Delete(_, _) =>
    case Move(id, user, target, _) =>
      if MoveHappens(t, e) && target.Some? {
        assert Acyclic(t, user);
        CheckedMoveKeepsForest(t, user, id, target);
        CheckedMoveIff(t, user, id, target.value);
      }
  }

  /** Every table of every ordinary run is a forest, so no walk below a folder goes deeper than the table. */
  lemma {:induction false} RunsKeepForest(ts: seq<Table>, es: seq<Event>, n: nat)
    requires IsRun(ts, es) && ts[0] == map[] && n < |ts|
    requires forall i | 0 <= i < |es| :: Ordinary(ts[i], es[i])
    ensures Forest(ts[n])
    ensures forall u, a, limit: nat | limit > |ts[n]| :: Shallow(ts[n], u, a, limit)
  {
    if n == 0 {
      forall u, x: Id, k: nat | k >= 1 ensures Up(ts[0], u, x, k) != Some(x) { UpFromParent(ts[0], u, x, k - 1); }
    } else {
      RunsKeepForest(ts, es, n - 1);
      OrdinaryIsSafe(ts[n - 1], es[n - 1]);
      StepKeepsForestIff(ts[n - 1], es[n - 1], ts[n]);
    }
    forall u, a, limit: nat | limit > |ts[n]| ensures Shallow(ts[n], u, a, limit) {
      assert Acyclic(ts[n], u);
      AcyclicIsShallow(ts[n], u, a, limit);
    }
  }

  // ---------- Inserts that close a cycle ----------

  /** A form that brings its own id and names it as the parent makes a folder that is its own parent. */
  lemma SelfParentInsert(t: Table, newId: Id, u: Id, name: string, x: Id, limit: nat)
    requires x !in t
    ensures var v := Inserted(t, newId, u, FolderForm(name, Some(x), None), Some(x));
            x in v && OnCycle(v, u, x) && !Shallow(v, u, x, limit)
  {
    var v := Inserted(t, newId, u, FolderForm(name, Some(x), None), Some(x));
    assert Up(v, u, x, 1) == Some(x) by { UpFromParent(v, u, x, 0); }
    CycleIsNotShallow(v, u, x, limit);
  }

  /** So do two folders that name each other, the first before the second is there. */
  lemma MutualParentInserts(t: Table, newId: Id, u: Id, name: string, a: Id, b: Id)
    requires a !in t && b !in t && a != b
    ensures var s := Inserted(t, newId, u, FolderForm(name, Some(a), None), Some(b));
            var v := Inserted(s, newId, u, FolderForm(name, Some(b), None), Some(a));
            a in v && b in v && OnCycle(v, u, a) && OnCycle(v, u, b)
  {
    var s := Inserted(t, newId, u, FolderForm(name, Some(a), None), Some(b));
    var v := Inserted(s, newId, u, FolderForm(name, Some(b), None), Some(a));
    UpFromParent(v, u, a, 0);
    UpFromParent(v, u, b, 0);
    UpFromParent(v, u, a, 1);
    UpFromParent(v, u, b, 1);
    assert Up(v, u, a, 2) == Some(a) && Up(v, u, b, 2) == Some(b);
  }

  lemma {:induction false} CycleOfRowsStays(t: Table, v: Table, u: Id, x: Id, k: nat)
    requires OnCycle(t, u, x) && forall y | y in t && t[y].user == u :: y in v && v[y] == t[y]
    ensures Up(t, u, x, k).Some? && Up(v, u, x, k) == Up(t, u, x, k)
    ensures var y := Up(t, u, x, k).value; y in t && t[y].user == u
  {
    var c: nat :| c >= 1 && Up(t, u, x, c) == Some(x);
    var m := CycleRepeats(t, u, x, c, k + 1);
    UpAdds(t, u, x, k, m - k);
    UpFromParent(t, u, Up(t, u, x, k).value, m - k - 1);
    if k > 0 { CycleOfRowsStays(t, v, u, x, k - 1); }
  }

  /** No insert and no delete takes a folder off its cycle; only a move can. */
  lemma OnlyAMoveBreaksACycle(t: Table, e: Event, v: Table, u: Id, x: Id)
    requires OnCycle(t, u, x) && Next(t, e, v) && !e.Move?
    ensures OnCycle(v, u, x)
  {
    var c: nat :| c >= 1 && Up(t, u, x, c) == Some(x);
    if e.Delete? && e.user == u { CyclesLeftAreCycles(t, v, u, x); } else { CycleOfRowsStays(t, v, u, x, c); }
  }
}
