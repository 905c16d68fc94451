/** The folder table as a forest of parent links: ancestors, descendants, cycles and ranks. */
module FolderTree {
  import opened Prelude

  /** Ids are uuid texts and are only ever compared for equality. */
  type Id = int

  datatype Folder = Folder(parent: Option<Id>, user: Id, name: string)

  type Table = map<Id, Folder>

  predicate Edge(t: Table, u: Id, p: Id, c: Id)
  {
    c in t && t[c].user == u && t[c].parent == Some(p)
  }

  function Children(t: Table, u: Id, p: Id): set<Id> { set c | c in t && Edge(t, u, p, c) }

  /** The folder reached from b by following n parent links through rows of user u. */
  function Up(t: Table, u: Id, b: Id, n: nat): Option<Id>
  {
    if n == 0 then Some(b) else
      match Up(t, u, b, n - 1)
      case None => None
      case Some(x) => if x in t && t[x].user == u then t[x].parent else None
  }

  ghost predicate Descends(t: Table, u: Id, a: Id, b: Id)
  {
    exists k: nat :: k >= 1 && Up(t, u, b, k) == Some(a)
  }

  ghost function Descendants(t: Table, u: Id, a: Id): set<Id> { set b | b in t && Descends(t, u, a, b) }

  /** The folders reachable from a by 1 to n child edges. */
  ghost function Below(t: Table, u: Id, a: Id, n: nat): set<Id>
  {
    set b | b in t && exists k: nat :: 1 <= k <= n && Up(t, u, b, k) == Some(a)
  }

  /** No downward path from a has n edges. */
  ghost predicate Shallow(t: Table, u: Id, a: Id, n: nat)
  {
    forall b :: Up(t, u, b, n) != Some(a)
  }

  ghost predicate Acyclic(t: Table, u: Id)
  {
    forall x, k: nat | k >= 1 :: Up(t, u, x, k) != Some(x)
  }

  // ---------- Chains of parent links ----------

  lemma {:induction false} UpAdds(t: Table, u: Id, b: Id, i: nat, j: nat)
    ensures Up(t, u, b, i + j) == match Up(t, u, b, i) case None => None case Some(x) => Up(t, u, x, j)
  {
    if j > 0 { UpAdds(t, u, b, i, j - 1); }
  }

  /** A chain of k + 1 edges starts at a row of the user and goes on from its parent. */
  lemma UpFromParent(t: Table, u: Id, b: Id, k: nat)
    ensures Up(t, u, b, k + 1)
            == if b in t && t[b].user == u && t[b].parent.Some? then Up(t, u, t[b].parent.value, k) else None
  {
    UpAdds(t, u, b, 1, k);
    assert Up(t, u, b, 1) == if b in t && t[b].user == u then t[b].parent else None;
  }

  lemma DescendsIsTransitive(t: Table, u: Id, a: Id, b: Id, c: Id)
    requires Descends(t, u, a, b) && Descends(t, u, b, c)
    ensures Descends(t, u, a, c)
  {
    var i: nat :| i >= 1 && Up(t, u, b, i) == Some(a);
    var j: nat :| j >= 1 && Up(t, u, c, j) == Some(b);
    UpAdds(t, u, c, j, i);
  }

  /** A descendant of p lies at or below exactly the children of p on its chain. */
  lemma DescendsThroughChild(t: Table, u: Id, p: Id, b: Id)
    ensures Descends(t, u, p, b) <==> exists c :: Edge(t, u, p, c) && (b == c || Descends(t, u, c, b))
    ensures Descends(t, u, p, b) ==> b in t
  {
    if Descends(t, u, p, b) {
      var k: nat :| k >= 1 && Up(t, u, b, k) == Some(p);
      UpFromParent(t, u, b, k - 1);
      var c := Up(t, u, b, k - 1).value;
      assert Edge(t, u, p, c);
      if k == 1 { assert b == c; } else { assert Descends(t, u, c, b); }
    }
    if c :| Edge(t, u, p, c) && (b == c || Descends(t, u, c, b)) {
      assert Up(t, u, c, 1) == Some(p) by { UpFromParent(t, u, c, 0); }
      if b != c { DescendsIsTransitive(t, u, p, c, b); }
    }
  }

  lemma DescendantsThroughChildren(t: Table, u: Id, p: Id, b: Id)
    ensures b in Descendants(t, u, p)
            <==> exists c :: c in Children(t, u, p) && (b == c || b in Descendants(t, u, c))
  {
    DescendsThroughChild(t, u, p, b);
    if c :| Edge(t, u, p, c) && (b == c || Descends(t, u, c, b)) {
      DescendsThroughChild(t, u, c, b);
      assert c in Children(t, u, p);
    }
  }

  lemma ShallowThroughChildren(t: Table, u: Id, p: Id, n: nat)
    ensures Shallow(t, u, p, n + 1) <==> forall c | Edge(t, u, p, c) :: Shallow(t, u, c, n)
  {
    if c :| Edge(t, u, p, c) && !Shallow(t, u, c, n) {
      var b :| Up(t, u, b, n) == Some(c);
      assert Up(t, u, b, n + 1) == Some(p);
    }
    if !Shallow(t, u, p, n + 1) {
      var b :| Up(t, u, b, n + 1) == Some(p);
      assert Edge(t, u, p, Up(t, u, b, n).value);
    }
  }

  /** Shallowness bounds longer chains too, so the descendants are all within the bound. */
  lemma ShallowBoundsChains(t: Table, u: Id, a: Id, n: nat, b: Id, k: nat)
    requires Shallow(t, u, a, n) && Up(t, u, b, k) == Some(a)
    ensures k < n
  {
    if k >= n { UpAdds(t, u, b, k - n, n); }
  }

  lemma {:induction false} CycleRepeats(t: Table, u: Id, x: Id, k: nat, n: nat) returns (m: nat)
    requires k >= 1 && Up(t, u, x, k) == Some(x)
    ensures m >= n && Up(t, u, x, m) == Some(x)
  {
    if n == 0 { return 0; }
    m := CycleRepeats(t, u, x, k, n - 1);
    UpAdds(t, u, x, m, k);
    m := m + k;
  }

  /** Below a folder on a cycle there are paths of every length. */
  lemma CycleIsNotShallow(t: Table, u: Id, x: Id, n: nat)
    requires Descends(t, u, x, x)
    ensures !Shallow(t, u, x, n)
  {
    var k: nat :| k >= 1 && Up(t, u, x, k) == Some(x);
    var m := CycleRepeats(t, u, x, k, n);
    UpAdds(t, u, x, m - n, n);
  }

  /** If two children of one folder share a descendant, one of them is on a cycle and lies above the other. */
  lemma SharedDescendant(t: Table, u: Id, p: Id, c: Id, d: Id, b: Id, i: nat, j: nat)
    requires Edge(t, u, p, c) && Edge(t, u, p, d) && c != d
    requires Up(t, u, b, i) == Some(c) && Up(t, u, b, j) == Some(d) && i <= j
    ensures Descends(t, u, d, d)
  {
    UpAdds(t, u, b, i, j - i);
    assert Up(t, u, c, j - i) == Some(d) && i != j;
    UpFromParent(t, u, c, j - i - 1);
    UpFromParent(t, u, d, j - i - 1);
  }

  lemma SubtreesAreDisjoint(t: Table, u: Id, p: Id, c: Id, d: Id, b: Id)
    requires Edge(t, u, p, c) && Edge(t, u, p, d) && c != d
    requires !Descends(t, u, c, c) && !Descends(t, u, d, d)
    requires b == c || Descends(t, u, c, b)
    ensures b != d && !Descends(t, u, d, b)
  {
    var i: nat :| Up(t, u, b, i) == Some(c) by {
      if b == c { assert Up(t, u, b, 0) == Some(c); }
    }
    if b == d || Descends(t, u, d, b) {
      var j: nat :| Up(t, u, b, j) == Some(d) by {
        if b == d { assert Up(t, u, b, 0) == Some(d); }
      }
      if i <= j { SharedDescendant(t, u, p, c, d, b, i, j); } else { SharedDescendant(t, u, p, d, c, b, j, i); }
    }
  }

  // ---------- The listing a post-order walk promises ----------

  /** Every listed folder comes after all of its descendants. */
  ghost predicate AfterDescendants(t: Table, u: Id, list: seq<Id>)
  {
    forall i | 0 <= i < |list| :: Descendants(t, u, list[i]) <= Members(list[..i])
  }

  /** Every descendant once, each after all of its own descendants. */
  ghost predicate Listing(t: Table, u: Id, p: Id, list: seq<Id>)
  {
    Members(list) == Descendants(t, u, p) && Distinct(list) && AfterDescendants(t, u, list)
  }

  // ---------- Levels ----------

  function Kids(t: Table, u: Id, s: set<Id>): set<Id>
  {
    set c | c in t && t[c].user == u && t[c].parent.Some? && t[c].parent.value in s
  }

  lemma BelowNext(t: Table, u: Id, a: Id, n: nat)
    ensures Below(t, u, a, 0) == {}
    ensures Below(t, u, a, n) <= Below(t, u, a, n + 1)
    ensures Below(t, u, a, n + 1) == Kids(t, u, {a} + Below(t, u, a, n))
  {
    forall b ensures b in Below(t, u, a, n + 1) <==> b in Kids(t, u, {a} + Below(t, u, a, n)) {
      if b in Below(t, u, a, n + 1) {
        var k: nat :| 1 <= k <= n + 1 && Up(t, u, b, k) == Some(a);
        UpFromParent(t, u, b, k - 1);
        var p := t[b].parent.value;
        if k > 1 {
          UpFromParent(t, u, p, k - 2);
          assert p in Below(t, u, a, n);
        }
      }
      if b in Kids(t, u, {a} + Below(t, u, a, n)) {
        var p := t[b].parent.value;
        if p == a {
          UpFromParent(t, u, b, 0);
          assert Up(t, u, b, 1) == Some(a);
        } else {
          var k: nat :| 1 <= k <= n && Up(t, u, p, k) == Some(a);
          UpFromParent(t, u, b, k);
        }
      }
    }
  }

  lemma {:induction false} BelowSettles(t: Table, u: Id, a: Id, n: nat, m: nat)
    requires n <= m && Below(t, u, a, n + 1) == Below(t, u, a, n)
    ensures Below(t, u, a, m) == Below(t, u, a, n)
    decreases m
  {
    if n < m {
      BelowSettles(t, u, a, n, m - 1);
      BelowNext(t, u, a, m - 1);
      BelowNext(t, u, a, n);
    }
  }

  /** The first n levels are all the descendants exactly when level n + 1 brings nothing new. */
  lemma LevelsCompleteIff(t: Table, u: Id, a: Id, n: nat)
    ensures Below(t, u, a, n) == Descendants(t, u, a) <==> Below(t, u, a, n + 1) <= Below(t, u, a, n)
    ensures Shallow(t, u, a, n + 1) ==> Below(t, u, a, n) == Descendants(t, u, a)
  {
    BelowNext(t, u, a, n);
    if Shallow(t, u, a, n + 1) {
      forall b | b in Descendants(t, u, a) ensures b in Below(t, u, a, n) {
        var k: nat :| k >= 1 && Up(t, u, b, k) == Some(a);
        ShallowBoundsChains(t, u, a, n + 1, b, k);
      }
    }
    if Below(t, u, a, n + 1) <= Below(t, u, a, n) {
      forall b | b in Descendants(t, u, a) ensures b in Below(t, u, a, n) {
        var k: nat :| k >= 1 && Up(t, u, b, k) == Some(a);
        assert b in Below(t, u, a, n + k);
        BelowSettles(t, u, a, n, n + k);
      }
    }
  }

  // ---------- Ranks ----------

  ghost predicate RankedBy(t: Table, u: Id, rank: Id -> nat)
  {
    forall p, c | Edge(t, u, p, c) :: rank(p) < rank(c)
  }

  lemma {:induction false} RankFallsUpward(t: Table, u: Id, rank: Id -> nat, b: Id, k: nat)
    requires RankedBy(t, u, rank) && Up(t, u, b, k).Some?
    ensures rank(Up(t, u, b, k).value) + k <= rank(b)
  {
    if k > 0 {
      RankFallsUpward(t, u, rank, b, k - 1);
      assert Edge(t, u, Up(t, u, b, k).value, Up(t, u, b, k - 1).value);
    }
  }

  lemma RankedIsAcyclic(t: Table, u: Id, rank: Id -> nat)
    requires RankedBy(t, u, rank)
    ensures Acyclic(t, u)
  {
    forall x, k: nat | k >= 1 ensures Up(t, u, x, k) != Some(x) {
      if Up(t, u, x, k) == Some(x) { RankFallsUpward(t, u, rank, x, k); }
    }
  }

  /** The first n folders on the chain above b. */
  function Chain(t: Table, u: Id, b: Id, n: nat): set<Id>
    requires n == 0 || Up(t, u, b, n - 1).Some?
  {
    if n == 0 then {} else Chain(t, u, b, n - 1) + {Up(t, u, b, n - 1).value}
  }

  lemma {:induction false} ChainMembers(t: Table, u: Id, b: Id, n: nat, x: Id)
    requires n == 0 || Up(t, u, b, n - 1).Some?
    requires x in Chain(t, u, b, n)
    ensures exists i: nat :: i < n && Up(t, u, b, i) == Some(x)
  {
    if x in Chain(t, u, b, n - 1) { ChainMembers(t, u, b, n - 1, x); }
  }

  /** Without cycles a chain of parent links is no longer than the table. */
  lemma {:induction false} ChainFitsTable(t: Table, u: Id, b: Id, n: nat)
    requires Acyclic(t, u) && Up(t, u, b, n).Some?
    ensures Chain(t, u, b, n) <= t.Keys && |Chain(t, u, b, n)| == n <= |t|
  {
    if n > 0 {
      ChainFitsTable(t, u, b, n - 1);
      var x := Up(t, u, b, n - 1).value;
      if x in Chain(t, u, b, n - 1) {
        ChainMembers(t, u, b, n - 1, x);
        var i: nat :| i < n - 1 && Up(t, u, b, i) == Some(x);
        UpAdds(t, u, b, i, n - 1 - i);
        assert false;
      }
    }
    SubsetSize(Chain(t, u, b, n), t.Keys);
    assert |t.Keys| == |t|;
  }

  /** On an acyclic table every recursion deeper than the table has rows is out of reach. */
  lemma AcyclicIsShallow(t: Table, u: Id, a: Id, n: nat)
    requires Acyclic(t, u) && n > |t|
    ensures Shallow(t, u, a, n)
  {
    forall b ensures Up(t, u, b, n) != Some(a) {
      if Up(t, u, b, n) == Some(a) { ChainFitsTable(t, u, b, n); }
    }
  }

  /** How many parent links lead up from b, counting no further than fuel. */
  function Height(t: Table, u: Id, b: Id, fuel: nat): nat
    decreases fuel
  {
    if fuel == 0 || b !in t || t[b].user != u || t[b].parent.None? then 0
    else 1 + Height(t, u, t[b].parent.value, fuel - 1)
  }

  lemma {:induction false} HeightIsChainLength(t: Table, u: Id, b: Id, fuel: nat)
    ensures Height(t, u, b, fuel) <= fuel
    ensures Up(t, u, b, Height(t, u, b, fuel)).Some?
    ensures Height(t, u, b, fuel) < fuel ==> Height(t, u, b, fuel + 1) == Height(t, u, b, fuel)
    decreases fuel
  {
    if fuel > 0 && b in t && t[b].user == u && t[b].parent.Some? {
      HeightIsChainLength(t, u, t[b].parent.value, fuel - 1);
      UpFromParent(t, u, b, Height(t, u, t[b].parent.value, fuel - 1));
    }
  }

  /** No cycle exactly when some rank grows along every edge. */
  lemma AcyclicIffRanked(t: Table, u: Id)
    ensures Acyclic(t, u) <==> exists rank: Id -> nat :: RankedBy(t, u, rank)
  {
    if Acyclic(t, u) {
      var n := |t| + 1;
      var rank := (x: Id) => Height(t, u, x, n);
      forall p, c | Edge(t, u, p, c) ensures rank(p) < rank(c) {
        HeightIsChainLength(t, u, p, n);
        HeightIsChainLength(t, u, c, n + 1);
        ChainFitsTable(t, u, p, Height(t, u, p, n));
        ChainFitsTable(t, u, c, Height(t, u, c, n + 1));
        HeightIsChainLength(t, u, c, n);
        assert Height(t, u, c, n + 1) == 1 + Height(t, u, p, n);
      }
      assert RankedBy(t, u, rank);
    }
    if rank: Id -> nat :| RankedBy(t, u, rank) { RankedIsAcyclic(t, u, rank); }
  }
}
