/** The folder table and its traversals, deletions and moves. */
module FolderStore {
  import opened Prelude
  import opened FolderTree

  // ---------- Removing whole subtrees ----------

  ghost function Subtree(t: Table, u: Id, c: Id): set<Id> { {c} + Descendants(t, u, c) }

  predicate Closed(t: Table, u: Id, g: set<Id>) { Kids(t, u, g) <= g }

  /** Removing a set closed under children leaves every surviving chain as it was. */
  lemma {:induction false} UpWithout(t: Table, u: Id, g: set<Id>, b: Id, k: nat)
    requires Closed(t, u, g)
    ensures k > 0 ==> Up(t - g, u, b, k) == if b in g then None else Up(t, u, b, k)
    decreases k
  {
    if k > 0 {
      UpFromParent(t - g, u, b, k - 1);
      UpFromParent(t, u, b, k - 1);
      if b !in g && b in t && t[b].user == u && t[b].parent.Some? {
        assert t[b].parent.value in g ==> b in Kids(t, u, g);
        UpWithout(t, u, g, t[b].parent.value, k - 1);
      }
    }
  }

  lemma DescendantsWithout(t: Table, u: Id, g: set<Id>, a: Id)
    requires Closed(t, u, g)
    ensures Descendants(t - g, u, a) == Descendants(t, u, a) - g
  {
    forall b ensures b in Descendants(t - g, u, a) <==> b in Descendants(t, u, a) - g {
      if b in Descendants(t - g, u, a) {
        var k: nat :| k >= 1 && Up(t - g, u, b, k) == Some(a);
        UpWithout(t, u, g, b, k);
      }
      if b in Descendants(t, u, a) - g {
        var k: nat :| k >= 1 && Up(t, u, b, k) == Some(a);
        UpWithout(t, u, g, b, k);
      }
    }
  }

  /** The subtrees of the first j listed folders. */
  ghost function Gone(t: Table, u: Id, cs: seq<Id>, j: nat): set<Id>
    requires j <= |cs|
  {
    if j == 0 then {} else Gone(t, u, cs, j - 1) + Subtree(t, u, cs[j - 1])
  }

  lemma {:induction false} GoneMembers(t: Table, u: Id, cs: seq<Id>, j: nat, b: Id)
    requires j <= |cs|
    ensures b in Gone(t, u, cs, j) <==> exists i :: 0 <= i < j && b in Subtree(t, u, cs[i])
  {
    if j > 0 { GoneMembers(t, u, cs, j - 1, b); }
  }

  /** cs lists the children of p, each once. */
  predicate ListsChildren(t: Table, u: Id, p: Id, cs: seq<Id>)
  {
    Members(cs) == Children(t, u, p) && Distinct(cs)
  }

  lemma GoneIsClosed(t: Table, u: Id, cs: seq<Id>, j: nat)
    requires j <= |cs|
    ensures Closed(t, u, Gone(t, u, cs, j))
  {
    forall b | b in Kids(t, u, Gone(t, u, cs, j)) ensures b in Gone(t, u, cs, j) {
      var q := t[b].parent.value;
      GoneMembers(t, u, cs, j, q);
      var i :| 0 <= i < j && q in Subtree(t, u, cs[i]);
      UpFromParent(t, u, b, 0);
      assert Descends(t, u, q, b) by { assert Up(t, u, b, 1) == Some(q); }
      if q != cs[i] { DescendsIsTransitive(t, u, cs[i], q, b); }
      GoneMembers(t, u, cs, j, b);
    }
  }

  lemma AllGone(t: Table, u: Id, p: Id, cs: seq<Id>)
    requires ListsChildren(t, u, p, cs)
    ensures Gone(t, u, cs, |cs|) == Descendants(t, u, p)
  {
    forall b ensures b in Gone(t, u, cs, |cs|) <==> b in Descendants(t, u, p) {
      GoneMembers(t, u, cs, |cs|, b);
      DescendantsThroughChildren(t, u, p, b);
      if c :| c in Children(t, u, p) && (b == c || b in Descendants(t, u, c)) {
        assert c in Members(cs);
        var i :| 0 <= i < |cs| && cs[i] == c;
        assert b in Subtree(t, u, cs[i]);
      }
      if i :| 0 <= i < |cs| && b in Subtree(t, u, cs[i]) { assert cs[i] in Members(cs); }
    }
  }

  ghost predicate ShallowUpTo(t: Table, u: Id, cs: seq<Id>, j: nat, n: nat)
    requires j <= |cs|
  {
    forall i | 0 <= i < j :: Shallow(t, u, cs[i], n)
  }

  lemma GoneWithinDescendants(t: Table, u: Id, p: Id, cs: seq<Id>, j: nat)
    requires ListsChildren(t, u, p, cs) && j <= |cs|
    ensures Gone(t, u, cs, j) <= Descendants(t, u, p)
  {
    forall b | b in Gone(t, u, cs, j) ensures b in Descendants(t, u, p) {
      GoneMembers(t, u, cs, j, b);
      var i :| 0 <= i < j && b in Subtree(t, u, cs[i]);
      assert cs[i] in Members(cs);
      DescendantsThroughChildren(t, u, p, b);
    }
  }

  /** The next child is still there, and as deep as before, once its shallow siblings are gone. */
  lemma NextChildUntouched(t: Table, u: Id, p: Id, cs: seq<Id>, j: nat, n: nat)
    requires ListsChildren(t, u, p, cs) && j < |cs| && ShallowUpTo(t, u, cs, j, n)
    ensures cs[j] !in Gone(t, u, cs, j) && cs[j] in t
    ensures Shallow(t - Gone(t, u, cs, j), u, cs[j], n) <==> Shallow(t, u, cs[j], n)
    ensures Shallow(t, u, cs[j], n) ==> Subtree(t, u, cs[j]) !! Gone(t, u, cs, j) && !Descends(t, u, cs[j], cs[j])
  {
    var c, g := cs[j], Gone(t, u, cs, j);
    assert c in Members(cs);
    GoneIsClosed(t, u, cs, j);
    forall i | 0 <= i < j ensures !Descends(t, u, cs[i], cs[i]) && Edge(t, u, p, cs[i]) && cs[i] != c {
      assert cs[i] in Members(cs);
      if Descends(t, u, cs[i], cs[i]) { CycleIsNotShallow(t, u, cs[i], n); }
    }
    if c in g {
      GoneMembers(t, u, cs, j, c);
      var i :| 0 <= i < j && c in Subtree(t, u, cs[i]);
      var k: nat :| k >= 1 && Up(t, u, c, k) == Some(cs[i]);
      assert Up(t, u, c, 0) == Some(c);
      SharedDescendant(t, u, p, c, cs[i], c, 0, k);
    }
    if Descends(t, u, c, c) {
      CycleIsNotShallow(t, u, c, n);
      DescendantsWithout(t, u, g, c);
      assert c in Descendants(t - g, u, c);
      CycleIsNotShallow(t - g, u, c, n);
    } else {
      forall b | b in Subtree(t, u, c) ensures b !in g {
        GoneMembers(t, u, cs, j, b);
        if i :| 0 <= i < j && b in Subtree(t, u, cs[i]) { SubtreesAreDisjoint(t, u, p, c, cs[i], b); }
      }
      ShallowWithout(t, u, g, c, n);
    }
  }

  lemma ShallowWithout(t: Table, u: Id, g: set<Id>, c: Id, n: nat)
    requires Closed(t, u, g) && Subtree(t, u, c) !! g
    ensures Shallow(t - g, u, c, n) <==> Shallow(t, u, c, n)
  {
    if n > 0 {
      forall b ensures Up(t - g, u, b, n) == Some(c) <==> Up(t, u, b, n) == Some(c) {
        UpWithout(t, u, g, b, n);
        if Up(t, u, b, n) == Some(c) {
          assert Descends(t, u, c, b);
          DescendsThroughChild(t, u, c, b);
        }
      }
    } else {
      assert Up(t, u, c, 0) == Some(c) && Up(t - g, u, c, 0) == Some(c);
    }
  }

  // ---------- Building the post-order list ----------

  ghost predicate PartListing(t: Table, u: Id, cs: seq<Id>, j: nat, list: seq<Id>)
    requires j <= |cs|
  {
    Members(list) == Gone(t, u, cs, j) && Distinct(list) && AfterDescendants(t, u, list)
  }

  lemma ListingExtends(t: Table, u: Id, cs: seq<Id>, j: nat, list: seq<Id>, sub: seq<Id>)
    requires j < |cs| && PartListing(t, u, cs, j, list) && Listing(t, u, cs[j], sub)
    requires Subtree(t, u, cs[j]) !! Gone(t, u, cs, j) && !Descends(t, u, cs[j], cs[j])
    ensures PartListing(t, u, cs, j + 1, list + sub + [cs[j]])
  {
    var both := list + sub;
    assert Members(both) == Members(list) + Members(sub);
    DistinctConcat(list, sub);
    AfterDescendantsConcat(t, u, list, sub);
    MembersAppend(both, cs[j]);
    assert cs[j] !in Members(both);
    assert AfterDescendants(t, u, both + [cs[j]]) by {
      forall i | 0 <= i < |both| + 1 ensures Descendants(t, u, (both + [cs[j]])[i]) <= Members((both + [cs[j]])[..i]) {
        assert (both + [cs[j]])[..i] == both[..i];
        if i == |both| { assert both[..i] == both; }
      }
    }
  }

  lemma DistinctConcat(a: seq<Id>, b: seq<Id>)
    requires Distinct(a) && Distinct(b) && Members(a) !! Members(b)
    ensures Distinct(a + b)
  {
    forall i, k | 0 <= i < k < |a + b| ensures (a + b)[i] != (a + b)[k] {
      if i < |a| <= k {
        assert a[i] in Members(a) && b[k - |a|] in Members(b);
      }
    }
  }

  lemma AfterDescendantsConcat(t: Table, u: Id, a: seq<Id>, b: seq<Id>)
    requires AfterDescendants(t, u, a) && AfterDescendants(t, u, b)
    ensures AfterDescendants(t, u, a + b)
  {
    forall i | 0 <= i < |a + b| ensures Descendants(t, u, (a + b)[i]) <= Members((a + b)[..i]) {
      if i < |a| {
        assert (a + b)[..i] == a[..i];
      } else {
        assert (a + b)[..i] == a + b[..i - |a|];
      }
    }
  }

  lemma ListingWithout(t: Table, u: Id, g: set<Id>, c: Id, sub: seq<Id>)
    requires Closed(t, u, g) && Subtree(t, u, c) !! g && Listing(t - g, u, c, sub)
    ensures Listing(t, u, c, sub) && Descendants(t - g, u, c) == Descendants(t, u, c)
  {
    DescendantsWithout(t, u, g, c);
    forall i | 0 <= i < |sub| ensures Descendants(t, u, sub[i]) <= Members(sub[..i]) {
      DescendantsWithout(t, u, g, sub[i]);
      assert sub[i] in Members(sub);
      forall b | b in Descendants(t, u, sub[i]) ensures b !in g {
        DescendsIsTransitive(t, u, c, sub[i], b);
        assert b in Subtree(t, u, c);
      }
    }
  }

  /** From t to s rows were only removed, and no folder of the user is left whose parent was removed. */
  predicate NoNewOrphans(t: Table, s: Table, u: Id)
  {
    var removed := t.Keys - s.Keys;
    s.Keys <= t.Keys && s == t - removed && Kids(t, u, removed) !! s.Keys
  }

  lemma ClosedLeavesNoOrphans(t: Table, u: Id, g: set<Id>)
    requires Closed(t, u, g)
    ensures NoNewOrphans(t, t - g, u)
  {
  }

  lemma OrphanFreeTransitive(t: Table, s: Table, r: Table, u: Id)
    requires NoNewOrphans(t, s, u) && NoNewOrphans(s, r, u)
    ensures NoNewOrphans(t, r, u)
  {
  }

  lemma GoneLeavesNoOrphans(t: Table, u: Id, cs: seq<Id>, j: nat)
    requires j <= |cs|
    ensures NoNewOrphans(t, t - Gone(t, u, cs, j), u)
  {
    GoneIsClosed(t, u, cs, j);
    ClosedLeavesNoOrphans(t, u, Gone(t, u, cs, j));
  }

  /** The next child's subtree has no cycle and shares nothing with those already gone. */
  ghost predicate Separate(t: Table, u: Id, cs: seq<Id>, j: nat)
    requires j < |cs|
  {
    Subtree(t, u, cs[j]) !! Gone(t, u, cs, j) && !Descends(t, u, cs[j], cs[j])
  }

  /** What the deletion of the next child starts from. */
  lemma BeforeChild(t: Table, left: Table, u: Id, p: Id, cs: seq<Id>, j: nat, n: nat)
    requires ListsChildren(t, u, p, cs) && j < |cs| && ShallowUpTo(t, u, cs, j, n)
    requires left == t - Gone(t, u, cs, j)
    ensures Edge(t, u, p, cs[j]) && cs[j] in left
    ensures NoNewOrphans(t, left, u) && t.Keys - left.Keys <= Descendants(t, u, p)
    ensures Shallow(left, u, cs[j], n) <==> Shallow(t, u, cs[j], n)
    ensures Shallow(t, u, cs[j], n) ==> Separate(t, u, cs, j)
    ensures Descendants(left, u, cs[j]) <= Descendants(t, u, p)
  {
    assert cs[j] in Members(cs);
    GoneLeavesNoOrphans(t, u, cs, j);
    GoneIsClosed(t, u, cs, j);
    NextChildUntouched(t, u, p, cs, j, n);
    DescendantsWithout(t, u, Gone(t, u, cs, j), cs[j]);
    GoneWithinDescendants(t, u, p, cs, j);
    GoneWithinDescendants(t, u, p, cs, j + 1);
  }

  /** What its successful deletion leaves. */
  lemma AfterChild(t: Table, left: Table, u: Id, p: Id, cs: seq<Id>, j: nat, list: seq<Id>, sub: seq<Id>, n: nat)
    requires j < |cs|
    ensures && ListsChildren(t, u, p, cs) && ShallowUpTo(t, u, cs, j, n) && PartListing(t, u, cs, j, list)
            && left == t - Gone(t, u, cs, j)
            && Shallow(left, u, cs[j], n) && Listing(left, u, cs[j], sub)
            ==> && PartListing(t, u, cs, j + 1, list + sub + [cs[j]])
                && ShallowUpTo(t, u, cs, j + 1, n)
                && left - Descendants(left, u, cs[j]) - {cs[j]} == t - Gone(t, u, cs, j + 1)
                && NoNewOrphans(t, t - Gone(t, u, cs, j + 1), u)
  {
    if && ListsChildren(t, u, p, cs) && ShallowUpTo(t, u, cs, j, n) && PartListing(t, u, cs, j, list)
       && left == t - Gone(t, u, cs, j)
       && Shallow(left, u, cs[j], n) && Listing(left, u, cs[j], sub)
    {
      BeforeChild(t, left, u, p, cs, j, n);
      GoneIsClosed(t, u, cs, j);
      ListingWithout(t, u, Gone(t, u, cs, j), cs[j], sub);
      ListingExtends(t, u, cs, j, list, sub);
      GoneLeavesNoOrphans(t, u, cs, j + 1);
      RemoveTwice(t, Gone(t, u, cs, j), Descendants(t, u, cs[j]), cs[j]);
    }
  }

  lemma RemoveTwice(t: Table, g: set<Id>, d: set<Id>, c: Id)
    ensures t - g - d - {c} == t - (g + ({c} + d))
    ensures t - d - {c} == t - ({c} + d)
  {
  }

  lemma AllDeleted(t: Table, u: Id, p: Id, cs: seq<Id>, list: seq<Id>, n: nat)
    requires ListsChildren(t, u, p, cs) && PartListing(t, u, cs, |cs|, list) && ShallowUpTo(t, u, cs, |cs|, n)
    ensures Shallow(t, u, p, n + 1) && Listing(t, u, p, list)
    ensures Gone(t, u, cs, |cs|) == Descendants(t, u, p)
    ensures NoNewOrphans(t, t - Descendants(t, u, p), u)
  {
    AllGone(t, u, p, cs);
    GoneLeavesNoOrphans(t, u, cs, |cs|);
    forall c | Edge(t, u, p, c) ensures Shallow(t, u, c, n) {
      assert c in Children(t, u, p);
      assert c in Members(cs);
    }
    ShallowThroughChildren(t, u, p, n);
  }

  lemma WalkedOneMore(t: Table, u: Id, p: Id, cs: seq<Id>, j: nat, n: nat, list: seq<Id>, sub: seq<Id>)
    requires ListsChildren(t, u, p, cs) && j < |cs| && ShallowUpTo(t, u, cs, j, n) && PartListing(t, u, cs, j, list)
    requires Shallow(t, u, cs[j], n) && Listing(t, u, cs[j], sub)
    ensures ShallowUpTo(t, u, cs, j + 1, n) && PartListing(t, u, cs, j + 1, list + sub + [cs[j]])
  {
    NextChildUntouched(t, u, p, cs, j, n);
    ListingExtends(t, u, cs, j, list, sub);
  }

  lemma DeepChild(t: Table, u: Id, p: Id, cs: seq<Id>, j: nat, n: nat)
    requires j < |cs| && ListsChildren(t, u, p, cs) && !Shallow(t, u, cs[j], n)
    ensures !Shallow(t, u, p, n + 1)
  {
    assert cs[j] in Members(cs);
    ShallowThroughChildren(t, u, p, n);
  }

  lemma NothingIsShallowAtZero(t: Table, u: Id, a: Id)
    ensures !Shallow(t, u, a, 0)
  {
    assert Up(t, u, a, 0) == Some(a);
  }

  lemma MembersAppend(s: seq<Id>, x: Id)
    ensures Members(s + [x]) == Members(s) + {x}
  {
  }

  lemma MembersOneMore(s: seq<Id>, i: nat)
    requires i < |s|
    ensures Members(s[..i + 1]) == Members(s[..i]) + {s[i]}
  {
    assert s[..i + 1] == s[..i] + [s[i]];
  }

  /** One more visited folder adds its children to those of the folders visited before. */
  lemma KidsOfOneMore(t: Table, u: Id, visit: seq<Id>, i: nat, cs: seq<Id>)
    requires i < |visit| && ListsChildren(t, u, visit[i], cs)
    ensures Kids(t, u, Members(visit[..i + 1])) == Kids(t, u, Members(visit[..i])) + Members(cs)
  {
    MembersOneMore(visit, i);
  }

  const MAX_DEPTH: nat := 100

  /** A create request; id and owner are fields it need not have. */
  datatype FolderForm = FolderForm(name: string, id: Option<Id>, owner: Option<Id>)

  function Or(x: Option<Id>, y: Id): Id { if x.Some? then x.value else y }

  /** The form's own id and owner replace the generated id and the caller; a used id is refused by the database. */
  function Inserted(t: Table, newId: Id, u: Id, form: FolderForm, parent: Option<Id>): Table
  {
    var id := Or(form.id, newId);
    if id in t then t else t[id := Folder(parent, Or(form.owner, u), form.name)]
  }

  datatype InsertResult = Created(id: Id, folder: Folder) | Refused | Invalid

  datatype MoveResult = MoveOk | NotFound | IntoItself | IntoDescendant | NameTaken

  function Moved(t: Table, id: Id, parent: Option<Id>): Table
    requires id in t
  {
    t[id := t[id].(parent := parent)]
  }

  /** What the move request checks about the new parent. */
  ghost predicate MayMove(t: Table, u: Id, id: Id, target: Option<Id>)
  {
    target.Some? ==>
      && target.value in t && t[target.value].user == u
      && target.value != id && target.value !in Below(t, u, id, MAX_DEPTH)
  }

  class FolderTable {
    var rows: Table
    /** The table after each commit, oldest first. */
    ghost var commits: seq<Table>

    constructor ()
      ensures rows == map[] && commits == []
    {
      rows, commits := map[], [];
    }

    /** Rows with the given parent and user, in whatever order the database returns them. */
    method QueryChildren(p: Id, u: Id) returns (cs: seq<Id>)
      ensures ListsChildren(rows, u, p, cs)
    {
      var rest := Children(rows, u, p);
      cs := [];
      while rest != {}
        invariant Members(cs) == Children(rows, u, p) - rest && rest <= Children(rows, u, p)
        invariant Distinct(cs)
        decreases rest
      {
        var c :| c in rest;
        rest := rest - {c};
        MembersAppend(cs, c);
        assert c !in Members(cs);
        cs := cs + [c];
      }
    }

    /**
     newId is the uuid drawn by the call; valid: the form's fields have the types of the folder model. The parent is
     not looked up.
     */
    method InsertNewFolder(newId: Id, u: Id, form: FolderForm, parent: Option<Id>, valid: bool)
        returns (r: InsertResult)
      modifies this
      ensures r.Invalid? <==> !valid
      ensures r.Refused? <==> valid && Or(form.id, newId) in old(rows)
      ensures r.Created? ==> r == Created(Or(form.id, newId), Folder(parent, Or(form.owner, u), form.name))
      ensures rows == if valid then Inserted(old(rows), newId, u, form, parent) else old(rows)
      ensures commits == if r.Created? then old(commits) + [rows] else old(commits)
    {
      if !valid { return Invalid; }
      var id := if form.id.Some? then form.id.value else newId;
      var folder := Folder(parent, if form.owner.Some? then form.owner.value else u, form.name);
      if id in rows { return Refused; }
      rows := rows[id := folder];
      commits := commits + [rows];
      r := Created(id, folder);
    }

    /** Repoints a folder of the user; the new parent is not looked at. */
    method UpdateParentId(id: Id, u: Id, parent: Option<Id>) returns (found: bool)
      modifies this
      ensures found <==> id in old(rows) && old(rows)[id].user == u
      ensures found ==> rows == Moved(old(rows), id, parent) && commits == old(commits) + [rows]
      ensures !found ==> rows == old(rows) && commits == old(commits)
    {
      if id !in rows || rows[id].user != u { return false; }
      rows := Moved(rows, id, parent);
      commits := commits + [rows];
      found := true;
    }

    /** The move request: the checks of the route, then the update. nameTaken: a sibling there has the same name. */
    method MoveFolder(id: Id, u: Id, target: Option<Id>, nameTaken: bool) returns (r: MoveResult)
      modifies this
      ensures r == MoveOk
              <==> id in old(rows) && old(rows)[id].user == u && MayMove(old(rows), u, id, target) && !nameTaken
      ensures r == NotFound
              <==> !(id in old(rows) && old(rows)[id].user == u)
                   || (target.Some? && !(target.value in old(rows) && old(rows)[target.value].user == u))
      ensures r != NotFound ==>
                && (r == IntoItself <==> target == Some(id))
                && (r == IntoDescendant
                    <==> target.Some? && target.value != id && target.value in Below(old(rows), u, id, 100))
                && (r == NameTaken ==> nameTaken)
      ensures rows == if r == MoveOk then Moved(old(rows), id, target) else old(rows)
    {
      if id !in rows || rows[id].user != u { return NotFound; }
      if target.Some? {
        if target.value !in rows || rows[target.value].user != u { return NotFound; }
        if target.value == id { return IntoItself; }
        var descendants := GetDescendantIds(id, u);
        if target.value in descendants { return IntoDescendant; }
      }
      if nameTaken { return NameTaken; }
      var found := UpdateParentId(id, u, target);
      r := MoveOk;
    }

    /** Breadth-first search capped at 100 levels; the start folder itself is found again if it is on a cycle. */
    method GetDescendantIds(folderId: Id, u: Id) returns (descendants: set<Id>)
      ensures descendants == Below(rows, u, folderId, 100)
    {
      descendants := {};
      var toVisit := [folderId];
      var depth := 0;
      BelowNext(rows, u, folderId, 0);
      while toVisit != [] && depth < MAX_DEPTH
        invariant 0 <= depth <= MAX_DEPTH
        invariant descendants == Below(rows, u, folderId, depth)
        invariant Below(rows, u, folderId, depth + 1) == descendants + Kids(rows, u, Members(toVisit))
        decreases MAX_DEPTH - depth
      {
        var nextVisit := [];
        ghost var level := descendants;
        for i := 0 to |toVisit|
          invariant descendants == level + Kids(rows, u, Members(toVisit[..i]))
          invariant level <= descendants && Members(nextVisit) == descendants - level
        {
          var children := QueryChildren(toVisit[i], u);
          ghost var sofar := descendants;
          for j := 0 to |children|
            invariant descendants == sofar + Members(children[..j])
            invariant level <= descendants && Members(nextVisit) == descendants - level
          {
            if children[j] !in descendants {
              MembersAppend(nextVisit, children[j]);
              descendants := descendants + {children[j]};
              nextVisit := nextVisit + [children[j]];
            }
            MembersOneMore(children, j);
          }
          assert children[..|children|] == children;
          KidsOfOneMore(rows, u, toVisit, i, children);
        }
        assert toVisit[..|toVisit|] == toVisit;
        NextLevel(rows, u, folderId, depth, level, descendants, Members(nextVisit));
        toVisit := nextVisit;
        depth := depth + 1;
      }
      if toVisit == [] {
        BelowSettles(rows, u, folderId, depth, MAX_DEPTH);
      }
    }

    /** The recursive walk below p; false once the interpreter's recursion limit is exceeded. */
    method WalkChildren(p: Id, u: Id, limit: nat) returns (ok: bool, folders: seq<Id>)
      ensures ok <==> Shallow(rows, u, p, limit)
      ensures ok ==> Listing(rows, u, p, folders)
      decreases limit
    {
      folders := [];
      NothingIsShallowAtZero(rows, u, p);
      if limit == 0 { return false, folders; }
      var children := QueryChildren(p, u);
      for j := 0 to |children|
        invariant PartListing(rows, u, children, j, folders)
        invariant ShallowUpTo(rows, u, children, j, limit - 1)
      {
        var child := children[j];
        assert child in Children(rows, u, p);
        var sub;
        ok, sub := WalkChildren(child, u, limit - 1);
        if !ok {
          DeepChild(rows, u, p, children, j, limit - 1);
          return;
        }
        WalkedOneMore(rows, u, p, children, j, limit - 1, folders, sub);
        folders := folders + sub + [child];
      }
      AllDeleted(rows, u, p, children, folders, limit - 1);
      ok := true;
    }

    /** None when the folder is missing or the walk overflows; otherwise every descendant, children before parents. */
    method GetChildrenFolders(id: Id, u: Id, limit: nat) returns (r: Option<seq<Id>>)
      ensures r.Some? <==> id in rows && rows[id].user == u && Shallow(rows, u, id, limit)
      ensures r.Some? ==> Listing(rows, u, id, r.value)
    {
      if id !in rows || rows[id].user != u { return None; }
      var ok, folders := WalkChildren(id, u, limit);
      r := if ok then Some(folders) else None;
    }

    /** Deletes below p, children first; stops where the recursion overflows. */
    method DeleteChildren(p: Id, u: Id, limit: nat) returns (ok: bool, ids: seq<Id>)
      modifies this
      ensures CommitsKeepParents(old(rows), old(commits), commits, u)
      ensures NoNewOrphans(old(rows), rows, u)
      ensures ok <==> Shallow(old(rows), u, p, limit)
      ensures ok ==> Listing(old(rows), u, p, ids) && rows == old(rows) - Descendants(old(rows), u, p)
      ensures !ok ==> old(rows).Keys - rows.Keys <= Descendants(old(rows), u, p)
      ensures CyclesStay(old(rows), rows, u)
      decreases limit, 0
    {
      ids := [];
      if limit == 0 {
        NothingIsShallowAtZero(rows, u, p);
        NothingRemovedCyclesStay(rows, u);
        return false, ids;
      }
      ghost var t := rows;
      var children := QueryChildren(p, u);
      for j := 0 to |children|
        invariant rows == t - Gone(t, u, children, j)
        invariant PartListing(t, u, children, j, ids)
        invariant ShallowUpTo(t, u, children, j, limit - 1)
        invariant CommitsKeepParents(t, old(commits), commits, u)
      {
        ghost var logged := commits;
        ok, ids := DeleteNextChild(t, p, u, children, j, limit - 1, ids);
        CommitsJoin(t, old(commits), logged, commits, u);
        if !ok {
          DeepChild(t, u, p, children, j, limit - 1);
          return;
        }
      }
      AllDeleted(t, u, p, children, ids, limit - 1);
      ShallowSubtreeCyclesStay(t, u, p, limit, Descendants(t, u, p));
      ok := true;
    }

    /** One round of the loop: the child's own children, then its id on the list, then its row, then a commit. */
    method DeleteNextChild(ghost t: Table, ghost p: Id, u: Id, children: seq<Id>, j: nat, limit: nat, ids: seq<Id>)
        returns (ok: bool, ids': seq<Id>)
      requires j < |children| && ListsChildren(t, u, p, children) && ShallowUpTo(t, u, children, j, limit)
      requires rows == t - Gone(t, u, children, j) && PartListing(t, u, children, j, ids)
      modifies this
      ensures CommitsKeepParents(t, old(commits), commits, u)
      ensures ok <==> Shallow(t, u, children[j], limit)
      ensures ok ==> rows == t - Gone(t, u, children, j + 1) && PartListing(t, u, children, j + 1, ids')
      ensures !ok ==> NoNewOrphans(t, rows, u) && t.Keys - rows.Keys <= Descendants(t, u, p)
      ensures !ok ==> CyclesStay(t, rows, u)
      decreases limit, 1
    {
      ghost var left := rows;
      BeforeChild(t, left, u, p, children, j, limit);
      var sub;
      ok, sub := DeleteChildren(children[j], u, limit);
      CommitsFromLaterTable(t, left, old(commits), commits, u);
      ids' := ids + sub + [children[j]];
      if ok {
        AfterChild(t, left, u, p, children, j, ids, sub, limit);
        rows := rows - {children[j]};
        CommitOne(t, old(commits), commits, rows, u);
        commits := commits + [rows];
      } else {
        OrphanFreeTransitive(t, left, rows, u);
        GoneCyclesStay(t, u, children, j, limit);
        CyclesStayTransitive(t, left, rows, u);
      }
    }

    /**
     Deletes the folder and everything below it when the recursion fits; otherwise reports nothing deleted, with only
     descendants gone. A folder on a cycle is never removed, so neither is the folder itself when it is on one.
     */
    method DeleteFolder(id: Id, u: Id, limit: nat) returns (ids: seq<Id>)
      modifies this
      ensures CommitsKeepParents(old(rows), old(commits), commits, u) && NoNewOrphans(old(rows), rows, u)
      ensures id !in old(rows) || old(rows)[id].user != u ==> ids == [] && rows == old(rows)
      ensures id in old(rows) && old(rows)[id].user == u && Shallow(old(rows), u, id, limit) ==>
                && ids != [] && ids[0] == id && Listing(old(rows), u, id, ids[1..])
                && rows == old(rows) - Subtree(old(rows), u, id)
      ensures id in old(rows) && old(rows)[id].user == u && !Shallow(old(rows), u, id, limit) ==>
                ids == [] && old(rows).Keys - rows.Keys <= Descendants(old(rows), u, id)
      ensures CyclesStay(old(rows), rows, u) && OthersKept(old(rows), rows, u)
    {
      ghost var t := rows;
      if id !in rows || rows[id].user != u {
        NothingRemovedCyclesStay(t, u);
        return [];
      }
      DescendantsAreOwn(t, u, id);
      var ok, below := DeleteChildren(id, u, limit);
      if !ok { return []; }
      SubtreeLeavesNoOrphans(t, u, id);
      RemoveTwice(t, {}, Descendants(t, u, id), id);
      ShallowSubtreeCyclesStay(t, u, id, limit, Subtree(t, u, id));
      rows := rows - {id};
      CommitOne(t, old(commits), commits, rows, u);
      commits := commits + [rows];
      ids := [id] + below;
      assert ids[1..] == below;
    }
  }

  /** Every removed row was the user's. */
  predicate OthersKept(t: Table, s: Table, u: Id) { forall x | x in t && x !in s :: t[x].user == u }

  lemma DescendantsAreOwn(t: Table, u: Id, a: Id)
    ensures forall b | b in Descendants(t, u, a) :: t[b].user == u
  {
    forall b | b in Descendants(t, u, a) ensures t[b].user == u {
      var k: nat :| k >= 1 && Up(t, u, b, k) == Some(a);
      UpFromParent(t, u, b, k - 1);
    }
  }

  ghost predicate OnCycle(t: Table, u: Id, x: Id) { Descends(t, u, x, x) }

  /** No folder on a cycle was removed. */
  ghost predicate CyclesStay(t: Table, s: Table, u: Id) { forall x | OnCycle(t, u, x) :: x in s }

  lemma OnCycleIsRow(t: Table, u: Id, x: Id)
    requires OnCycle(t, u, x)
    ensures x in t
  {
    DescendsThroughChild(t, u, x, x);
  }

  /** Below a folder where the recursion fits there is no cycle. */
  lemma ShallowHasNoCycle(t: Table, u: Id, a: Id, n: nat, x: Id)
    requires Shallow(t, u, a, n) && x in Subtree(t, u, a)
    ensures !OnCycle(t, u, x)
  {
    if OnCycle(t, u, x) {
      var k: nat :| Up(t, u, x, k) == Some(a) by { if x == a { assert Up(t, u, x, 0) == Some(a); } }
      var c: nat :| c >= 1 && Up(t, u, x, c) == Some(x);
      var m := CycleRepeats(t, u, x, c, n);
      UpAdds(t, u, x, m, k);
      ShallowBoundsChains(t, u, a, n, x, m + k);
      assert false;
    }
  }

  lemma ShallowSubtreeCyclesStay(t: Table, u: Id, a: Id, n: nat, g: set<Id>)
    requires Shallow(t, u, a, n) && g <= Subtree(t, u, a)
    ensures CyclesStay(t, t - g, u)
  {
    forall x | OnCycle(t, u, x) ensures x in t - g {
      OnCycleIsRow(t, u, x);
      if x in g { ShallowHasNoCycle(t, u, a, n, x); }
    }
  }

  lemma GoneCyclesStay(t: Table, u: Id, cs: seq<Id>, j: nat, n: nat)
    requires j <= |cs| && ShallowUpTo(t, u, cs, j, n)
    ensures CyclesStay(t, t - Gone(t, u, cs, j), u)
  {
    forall x | OnCycle(t, u, x) ensures x in t - Gone(t, u, cs, j) {
      OnCycleIsRow(t, u, x);
      GoneMembers(t, u, cs, j, x);
      if i :| 0 <= i < j && x in Subtree(t, u, cs[i]) { ShallowHasNoCycle(t, u, cs[i], n, x); }
    }
  }

  lemma NothingRemovedCyclesStay(t: Table, u: Id)
    ensures CyclesStay(t, t, u)
  {
    forall x | OnCycle(t, u, x) ensures x in t { OnCycleIsRow(t, u, x); }
  }

  lemma CyclesLeftAreCycles(t: Table, s: Table, u: Id, x: Id)
    requires NoNewOrphans(t, s, u) && CyclesStay(t, s, u) && OnCycle(t, u, x)
    ensures OnCycle(s, u, x)
  {
    OnCycleIsRow(t, u, x);
    DescendantsWithout(t, u, t.Keys - s.Keys, x);
    assert x in Descendants(t, u, x) - (t.Keys - s.Keys);
  }

  lemma CyclesStayTransitive(t: Table, s: Table, r: Table, u: Id)
    requires NoNewOrphans(t, s, u) && CyclesStay(t, s, u) && CyclesStay(s, r, u)
    ensures CyclesStay(t, r, u)
  {
    forall x | OnCycle(t, u, x) ensures x in r { CyclesLeftAreCycles(t, s, u, x); }
  }

  ghost predicate CommitsKeepParents(t: Table, before: seq<Table>, after: seq<Table>, u: Id)
  {
    before <= after && forall i | |before| <= i < |after| :: NoNewOrphans(t, after[i], u)
  }

  lemma CommitsJoin(t: Table, before: seq<Table>, logged: seq<Table>, after: seq<Table>, u: Id)
    requires CommitsKeepParents(t, before, logged, u) && CommitsKeepParents(t, logged, after, u)
    ensures CommitsKeepParents(t, before, after, u)
  {
  }

  lemma CommitsFromLaterTable(t: Table, s: Table, before: seq<Table>, after: seq<Table>, u: Id)
    requires NoNewOrphans(t, s, u) && CommitsKeepParents(s, before, after, u)
    ensures CommitsKeepParents(t, before, after, u)
  {
  }

  lemma CommitOne(t: Table, before: seq<Table>, after: seq<Table>, s: Table, u: Id)
    requires CommitsKeepParents(t, before, after, u) && NoNewOrphans(t, s, u)
    ensures CommitsKeepParents(t, before, after + [s], u)
  {
  }

  lemma SubtreeIsClosed(t: Table, u: Id, c: Id)
    ensures Closed(t, u, Subtree(t, u, c))
  {
    GoneIsClosed(t, u, [c], 1);
    assert Gone(t, u, [c], 1) == Subtree(t, u, c);
  }

  lemma SubtreeLeavesNoOrphans(t: Table, u: Id, c: Id)
    ensures NoNewOrphans(t, t - Descendants(t, u, c) - {c}, u)
  {
    SubtreeIsClosed(t, u, c);
    ClosedLeavesNoOrphans(t, u, Subtree(t, u, c));
    RemoveTwice(t, {}, Descendants(t, u, c), c);
  }

  lemma NextLevel(t: Table, u: Id, a: Id, d: nat, level: set<Id>, found: set<Id>, frontier: set<Id>)
    requires level == Below(t, u, a, d) && found == Below(t, u, a, d + 1) && frontier == found - level
    ensures Below(t, u, a, d + 2) == found + Kids(t, u, frontier)
  {
    BelowNext(t, u, a, d);
    BelowNext(t, u, a, d + 1);
    assert {a} + found == ({a} + level) + frontier;
    assert Kids(t, u, {a} + found) == Kids(t, u, {a} + level) + Kids(t, u, frontier);
  }
}
