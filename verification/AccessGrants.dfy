/** Access grants: the legacy per-resource dictionaries, the relational rows, and the queries over them. */
module AccessGrants {
  import opened Prelude

  // ---------- Entities ----------

  datatype Principal = Principal(kind: string, id: string, permission: string)

  /** One row; its uuid and timestamp decide nothing. */
  datatype Grant = Grant(resourceType: string, resourceId: string, who: Principal)

  datatype Lists = Lists(groupIds: seq<string>, userIds: seq<string>)

  /** A legacy access_control dictionary; missing parts and {} are empty lists. */
  datatype Acl = Acl(read: Lists, write: Lists)
  {
    function For(permission: string): Lists
    {
      if permission == "read" then read else if permission == "write" then write else Lists([], [])
    }
  }

  const ANYONE := Principal("user", "*", "read")

  // ---------- Dictionary to grants ----------

  function Principals(kind: string, ids: seq<string>, permission: string): (r: seq<Principal>)
    ensures |r| == |ids| && forall i | 0 <= i < |ids| :: r[i] == Principal(kind, ids[i], permission)
  {
    seq(|ids|, i requires 0 <= i < |ids| => Principal(kind, ids[i], permission))
  }

  function ListPrincipals(l: Lists, permission: string): seq<Principal>
  {
    Principals("group", l.groupIds, permission) + Principals("user", l.userIds, permission)
  }

  /** None is public read, except for files, which are then private. */
  function ToGrants(resourceType: string, ac: Option<Acl>): seq<Principal>
  {
    match ac
    case None => if resourceType != "file" then [ANYONE] else []
    case Some(acl) => ListPrincipals(acl.read, "read") + ListPrincipals(acl.write, "write")
  }

  method AppendLists(before: seq<Principal>, l: Lists, permission: string) returns (grants: seq<Principal>)
    ensures grants == before + ListPrincipals(l, permission)
  {
    grants := before;
    for i := 0 to |l.groupIds|
      invariant grants == before + Principals("group", l.groupIds[..i], permission)
    {
      assert Principals("group", l.groupIds[..i + 1], permission)
          == Principals("group", l.groupIds[..i], permission) + [Principal("group", l.groupIds[i], permission)];
      grants := grants + [Principal("group", l.groupIds[i], permission)];
    }
    ghost var withGroups := grants;
    for i := 0 to |l.userIds|
      invariant grants == withGroups + Principals("user", l.userIds[..i], permission)
    {
      assert Principals("user", l.userIds[..i + 1], permission)
          == Principals("user", l.userIds[..i], permission) + [Principal("user", l.userIds[i], permission)];
      grants := grants + [Principal("user", l.userIds[i], permission)];
    }
    assert l.groupIds[..|l.groupIds|] == l.groupIds && l.userIds[..|l.userIds|] == l.userIds;
  }

  method AccessControlToGrants(resourceType: string, ac: Option<Acl>) returns (grants: seq<Principal>)
    ensures grants == ToGrants(resourceType, ac)
  {
    grants := [];
    if ac.None? {
      if resourceType != "file" { grants := grants + [ANYONE]; }
      return;
    }
    grants := AppendLists(grants, ac.value.read, "read");
    grants := AppendLists(grants, ac.value.write, "write");
  }

  // ---------- Grants to dictionary ----------

  /** The listed ids of one kind and permission, first occurrences only; the public read grant is not listed. */
  function Collect(grants: seq<Principal>, kind: string, permission: string): seq<string>
  {
    if grants == [] then [] else
      var before, g := Collect(grants[..|grants| - 1], kind, permission), grants[|grants| - 1];
      if g != ANYONE && g.kind == kind && g.permission == permission && g.id !in before then before + [g.id] else before
  }

  function CollectLists(grants: seq<Principal>, permission: string): Lists
  {
    Lists(Collect(grants, "group", permission), Collect(grants, "user", permission))
  }

  function FromGrants(grants: seq<Principal>): Option<Acl>
  {
    if ANYONE in grants then None else Some(Acl(CollectLists(grants, "read"), CollectLists(grants, "write")))
  }

  method GrantsToAccessControl(grants: seq<Principal>) returns (ac: Option<Acl>)
    ensures ac == FromGrants(grants)
  {
    var rg, ru, wg, wu := [], [], [], [];
    var isPublic := false;
    for i := 0 to |grants|
      invariant isPublic <==> ANYONE in grants[..i]
      invariant Lists(rg, ru) == CollectLists(grants[..i], "read")
      invariant Lists(wg, wu) == CollectLists(grants[..i], "write")
    {
      var g := grants[i];
      assert grants[..i + 1][..i] == grants[..i] && grants[..i + 1] == grants[..i] + [g];
      if g == ANYONE {
        isPublic := true;
      } else if g.permission == "read" {
        if g.kind == "group" { if g.id !in rg { rg := rg + [g.id]; } }
        else if g.kind == "user" { if g.id !in ru { ru := ru + [g.id]; } }
      } else if g.permission == "write" {
        if g.kind == "group" { if g.id !in wg { wg := wg + [g.id]; } }
        else if g.kind == "user" { if g.id !in wu { wu := wu + [g.id]; } }
      }
    }
    assert grants[..|grants|] == grants;
    ac := if isPublic then None else Some(Acl(Lists(rg, ru), Lists(wg, wu)));
  }

  // ---------- Direct grant payloads ----------

  /** One entry of a request; a part that is missing or not a text is None. */
  datatype Raw = Raw(kind: Option<string>, id: Option<string>, permission: Option<string>)

  predicate IsValid(r: Raw)
  {
    && (r.kind == Some("user") || r.kind == Some("group"))
    && (r.permission == Some("read") || r.permission == Some("write"))
    && r.id.Some? && r.id.value != ""
  }

  function AsPrincipal(r: Raw): Principal
    requires IsValid(r)
  {
    Principal(r.kind.value, r.id.value, r.permission.value)
  }

  /** The valid entries, each once, in order of first appearance. */
  function Normalized(raws: seq<Raw>): seq<Principal>
  {
    if raws == [] then [] else
      var before, r := Normalized(raws[..|raws| - 1]), raws[|raws| - 1];
      if IsValid(r) && AsPrincipal(r) !in before then before + [AsPrincipal(r)] else before
  }

  method NormalizeAccessGrants(raws: seq<Raw>) returns (grants: seq<Principal>)
    ensures grants == Normalized(raws)
  {
    grants := [];
    for i := 0 to |raws|
      invariant grants == Normalized(raws[..i])
    {
      assert raws[..i + 1][..i] == raws[..i];
      if IsValid(raws[i]) && AsPrincipal(raws[i]) !in grants { grants := grants + [AsPrincipal(raws[i])]; }
    }
    assert raws[..|raws|] == raws;
  }

  /** An entry counts when its parts are texts, its kind and permission are known and its id is not empty. */
  lemma {:induction false} NormalizedMembers(raws: seq<Raw>, p: Principal)
    ensures Distinct(Normalized(raws))
    ensures p in Normalized(raws)
            <==> && Raw(Some(p.kind), Some(p.id), Some(p.permission)) in raws && p.id != ""
                 && (p.kind == "user" || p.kind == "group") && (p.permission == "read" || p.permission == "write")
  {
    if raws != [] {
      NormalizedMembers(raws[..|raws| - 1], p);
      assert raws == raws[..|raws| - 1] + [raws[|raws| - 1]];
    }
  }

  function AsRaw(p: Principal): Raw { Raw(Some(p.kind), Some(p.id), Some(p.permission)) }

  /** Of two normalized grants the first was in the request before any entry of the second. */
  lemma {:induction false} NormalizedInOrder(raws: seq<Raw>, i: nat, j: nat)
    requires i < j < |Normalized(raws)|
    ensures exists m | 0 <= m < |raws| ::
              raws[m] == AsRaw(Normalized(raws)[i]) && AsRaw(Normalized(raws)[j]) !in raws[..m + 1]
  {
    var before, ps := raws[..|raws| - 1], Normalized(raws);
    var earlier := Normalized(before);
    if j < |earlier| {
      NormalizedInOrder(before, i, j);
      var m :| 0 <= m < |before| && before[m] == AsRaw(earlier[i]) && AsRaw(earlier[j]) !in before[..m + 1];
      assert raws[m] == AsRaw(ps[i]) && raws[..m + 1] == before[..m + 1];
    } else {
      NormalizedMembers(before, ps[i]);
      NormalizedMembers(before, ps[j]);
      NormalizedMembers(raws, ps[j]);
      assert earlier[i] in earlier && ps[j] in ps;
      var m :| 0 <= m < |before| && before[m] == AsRaw(ps[i]);
      assert raws[m] == AsRaw(ps[i]);
      assert forall x | x in raws[..m + 1] :: x in before;
    }
  }

  // ---------- The question every query answers ----------

  predicate Matches(p: Principal, userId: string, groups: set<string>)
  {
    (p.kind == "user" && (p.id == "*" || p.id == userId)) || (p.kind == "group" && p.id in groups)
  }

  predicate HasAccess(t: seq<Grant>, userId: string, resourceType: string, resourceId: string, permission: string,
                      groups: set<string>)
  {
    exists g | g in t ::
      g.resourceType == resourceType && g.resourceId == resourceId && g.who.permission == permission
      && Matches(g.who, userId, groups)
  }

  /** What a legacy dictionary allows; "*" among the users stands for everyone. */
  predicate LegacyAllows(resourceType: string, ac: Option<Acl>, userId: string, groups: set<string>, permission: string)
  {
    match ac
    case None => resourceType != "file" && permission == "read"
    case Some(acl) =>
      var l := acl.For(permission);
      userId in l.userIds || "*" in l.userIds || exists g | g in l.groupIds :: g in groups
  }

  predicate Allows(ps: seq<Principal>, userId: string, groups: set<string>, permission: string)
  {
    exists p | p in ps :: p.permission == permission && Matches(p, userId, groups)
  }

  /** The grants made from a dictionary allow what the dictionary allows. */
  lemma GrantsAllowWhatTheDictAllows(resourceType: string, ac: Option<Acl>, userId: string, groups: set<string>,
                                     permission: string)
    ensures Allows(ToGrants(resourceType, ac), userId, groups, permission)
            <==> LegacyAllows(resourceType, ac, userId, groups, permission)
  {
  }

  // ---------- The table ----------

  predicate SameResource(g: Grant, resourceType: string, resourceId: string)
  {
    g.resourceType == resourceType && g.resourceId == resourceId
  }

  function Without(t: seq<Grant>, resourceType: string, resourceId: string): seq<Grant>
  {
    if t == [] then [] else
      (if SameResource(t[0], resourceType, resourceId) then [] else [t[0]]) + Without(t[1..], resourceType, resourceId)
  }

  function OnResource(ps: seq<Principal>, resourceType: string, resourceId: string): (r: seq<Grant>)
    ensures |r| == |ps| && forall i | 0 <= i < |r| :: r[i] == Grant(resourceType, resourceId, ps[i])
  {
    seq(|ps|, i requires 0 <= i < |ps| => Grant(resourceType, resourceId, ps[i]))
  }

  function Replaced(t: seq<Grant>, resourceType: string, resourceId: string, ps: seq<Principal>): seq<Grant>
  {
    Without(t, resourceType, resourceId) + OnResource(ps, resourceType, resourceId)
  }

  lemma {:induction false} WithoutMembers(t: seq<Grant>, resourceType: string, resourceId: string)
    ensures forall g :: g in Without(t, resourceType, resourceId)
                        <==> g in t && !SameResource(g, resourceType, resourceId)
    ensures Distinct(t) ==> Distinct(Without(t, resourceType, resourceId))
  {
    if t != [] {
      WithoutMembers(t[1..], resourceType, resourceId);
      assert t == [t[0]] + t[1..];
      if Distinct(t) {
        assert Distinct(t[1..]);
        assert t[0] !in t[1..];
      }
    }
  }

  /** After a replacement the resource allows what the new grants allow; every other resource is as before. */
  lemma ReplacedAccess(t: seq<Grant>, rt: string, rid: string, ps: seq<Principal>,
                       userId: string, groups: set<string>, permission: string, ort: string, orid: string)
    ensures HasAccess(Replaced(t, rt, rid, ps), userId, rt, rid, permission, groups)
            <==> Allows(ps, userId, groups, permission)
    ensures ort != rt || orid != rid ==>
              (HasAccess(Replaced(t, rt, rid, ps), userId, ort, orid, permission, groups)
               <==> HasAccess(t, userId, ort, orid, permission, groups))
    ensures Distinct(t) && Distinct(ps) ==> Distinct(Replaced(t, rt, rid, ps))
  {
    var left, mine := Without(t, rt, rid), OnResource(ps, rt, rid);
    WithoutMembers(t, rt, rid);
    forall g ensures g in mine <==> SameResource(g, rt, rid) && g.who in ps {
      if SameResource(g, rt, rid) && g.who in ps {
        var i :| 0 <= i < |ps| && ps[i] == g.who;
        assert mine[i] == g;
      }
    }
    if Allows(ps, userId, groups, permission) {
      var p :| p in ps && p.permission == permission && Matches(p, userId, groups);
      assert Grant(rt, rid, p) in mine;
    }
    if Distinct(t) && Distinct(ps) {
      forall i, j | 0 <= i < j < |left + mine| ensures (left + mine)[i] != (left + mine)[j] {
        if i < |left| <= j { assert left[i] in left && mine[j - |left|] in mine; }
      }
    }
  }

  /** No id twice in one list of the dictionary. */
  predicate NoRepeats(ac: Option<Acl>)
  {
    ac.Some? ==>
      && Distinct(ac.value.read.groupIds) && Distinct(ac.value.read.userIds)
      && Distinct(ac.value.write.groupIds) && Distinct(ac.value.write.userIds)
  }

  lemma PrincipalsDistinctIff(kind: string, ids: seq<string>, permission: string)
    ensures Distinct(Principals(kind, ids, permission)) <==> Distinct(ids)
  {
  }

  lemma ConcatDistinctIff<T>(a: seq<T>, b: seq<T>)
    requires forall i, j | 0 <= i < |a| && 0 <= j < |b| :: a[i] != b[j]
    ensures Distinct(a + b) <==> Distinct(a) && Distinct(b)
  {
    var s := a + b;
    if Distinct(s) {
      forall i, j | 0 <= i < j < |a| ensures a[i] != a[j] { assert s[i] != s[j]; }
      forall i, j | 0 <= i < j < |b| ensures b[i] != b[j] { assert s[|a| + i] != s[|a| + j]; }
    }
  }

  /** The grants of a dictionary repeat one exactly when one of its four lists repeats an id. */
  lemma DictGrantsDistinctIff(rt: string, ac: Option<Acl>)
    ensures Distinct(ToGrants(rt, ac)) <==> NoRepeats(ac)
  {
    if ac.Some? {
      var r, w := ac.value.read, ac.value.write;
      PrincipalsDistinctIff("group", r.groupIds, "read");
      PrincipalsDistinctIff("user", r.userIds, "read");
      PrincipalsDistinctIff("group", w.groupIds, "write");
      PrincipalsDistinctIff("user", w.userIds, "write");
      ConcatDistinctIff(Principals("group", r.groupIds, "read"), Principals("user", r.userIds, "read"));
      ConcatDistinctIff(Principals("group", w.groupIds, "write"), Principals("user", w.userIds, "write"));
      ConcatDistinctIff(ListPrincipals(r, "read"), ListPrincipals(w, "write"));
    }
  }

  class AccessGrantsTable {
    var rows: seq<Grant>

    constructor ()
      ensures rows == []
    {
      rows := [];
    }

    /** False when a repeated id violates the unique constraint; the transaction is then rolled back. */
    method SetAccessControl(rt: string, rid: string, ac: Option<Acl>) returns (ok: bool)
      requires Distinct(rows)
      modifies this
      ensures Distinct(rows)
      ensures ok <==> NoRepeats(ac)
      ensures rows == if ok then Replaced(old(rows), rt, rid, ToGrants(rt, ac)) else old(rows)
    {
      var ps := AccessControlToGrants(rt, ac);
      DictGrantsDistinctIff(rt, ac);
      if !Distinct(ps) { return false; }
      ReplacedAccess(rows, rt, rid, ps, "", {}, "", "", "");
      rows := Without(rows, rt, rid) + OnResource(ps, rt, rid);
      ok := true;
    }

    method SetAccessGrants(rt: string, rid: string, raws: seq<Raw>)
      requires Distinct(rows)
      modifies this
      ensures Distinct(rows) && rows == Replaced(old(rows), rt, rid, Normalized(raws))
    {
      var ps := NormalizeAccessGrants(raws);
      NormalizedMembers(raws, ANYONE);
      ReplacedAccess(rows, rt, rid, ps, "", {}, "", "", "");
      rows := Without(rows, rt, rid) + OnResource(ps, rt, rid);
    }
  }

  /** Storing a dictionary makes the table answer, for every user, group set and permission, as the dictionary does. */
  lemma StoredDictMeansTheDict(t: seq<Grant>, rt: string, rid: string, ac: Option<Acl>,
                               userId: string, groups: set<string>, permission: string)
    ensures HasAccess(Replaced(t, rt, rid, ToGrants(rt, ac)), userId, rt, rid, permission, groups)
            <==> LegacyAllows(rt, ac, userId, groups, permission)
  {
    ReplacedAccess(t, rt, rid, ToGrants(rt, ac), userId, groups, permission, rt, rid);
    GrantsAllowWhatTheDictAllows(rt, ac, userId, groups, permission);
  }

  /** The entry names this user, everyone, or one of these groups. */
  predicate Addresses(r: Raw, userId: string, groups: set<string>)
  {
    && r.id.Some? && r.id.value != ""
    && ((r.kind == Some("user") && (r.id.value == "*" || r.id.value == userId))
        || (r.kind == Some("group") && r.id.value in groups))
  }

  /** Storing a grant list makes the table answer as its entries say: read or write, and addressed to the user. */
  lemma StoredGrantsMeanTheirValidEntries(t: seq<Grant>, rt: string, rid: string, raws: seq<Raw>,
                                          userId: string, groups: set<string>, permission: string)
    ensures HasAccess(Replaced(t, rt, rid, Normalized(raws)), userId, rt, rid, permission, groups)
            <==> && (permission == "read" || permission == "write")
                 && exists r | r in raws :: r.permission == Some(permission) && Addresses(r, userId, groups)
  {
    ReplacedAccess(t, rt, rid, Normalized(raws), userId, groups, permission, rt, rid);
    forall p: Principal
      ensures p in Normalized(raws)
              <==> && Raw(Some(p.kind), Some(p.id), Some(p.permission)) in raws && p.id != ""
                   && (p.kind == "user" || p.kind == "group") && (p.permission == "read" || p.permission == "write")
    {
      NormalizedMembers(raws, p);
    }
    if permission == "read" || permission == "write" {
      forall r | r in raws && r.permission == Some(permission) && Addresses(r, userId, groups)
        ensures Allows(Normalized(raws), userId, groups, permission)
      {
        var p := Principal(r.kind.value, r.id.value, permission);
        assert Raw(Some(p.kind), Some(p.id), Some(p.permission)) == r;
        assert p in Normalized(raws);
      }
    }
    if Allows(Normalized(raws), userId, groups, permission) {
      var p :| p in Normalized(raws) && p.permission == permission && Matches(p, userId, groups);
      assert Addresses(Raw(Some(p.kind), Some(p.id), Some(p.permission)), userId, groups);
    }
  }

  // ---------- Round trip through the grant form ----------

  lemma {:induction false} CollectMembers(grants: seq<Principal>, kind: string, permission: string, id: string)
    ensures id in Collect(grants, kind, permission)
            <==> Principal(kind, id, permission) in grants && Principal(kind, id, permission) != ANYONE
  {
    if grants != [] {
      CollectMembers(grants[..|grants| - 1], kind, permission, id);
      assert grants == grants[..|grants| - 1] + [grants[|grants| - 1]];
    }
  }

  /** Of two listed ids the first was granted before any grant of the second. */
  lemma {:induction false} CollectInOrder(grants: seq<Principal>, kind: string, permission: string, i: nat, j: nat)
    requires i < j < |Collect(grants, kind, permission)|
    ensures var ids := Collect(grants, kind, permission);
            exists m | 0 <= m < |grants| ::
              grants[m] == Principal(kind, ids[i], permission)
              && Principal(kind, ids[j], permission) !in grants[..m + 1]
  {
    var before, ids := grants[..|grants| - 1], Collect(grants, kind, permission);
    var earlier := Collect(before, kind, permission);
    if j < |earlier| {
      CollectInOrder(before, kind, permission, i, j);
      var m :| 0 <= m < |before| && before[m] == Principal(kind, earlier[i], permission)
               && Principal(kind, earlier[j], permission) !in before[..m + 1];
      assert grants[m] == before[m] && grants[..m + 1] == before[..m + 1];
    } else {
      CollectMembers(before, kind, permission, ids[i]);
      CollectMembers(before, kind, permission, ids[j]);
      CollectMembers(grants, kind, permission, ids[j]);
      assert earlier[i] in earlier && ids[j] in ids;
      var m :| 0 <= m < |before| && before[m] == Principal(kind, ids[i], permission);
      assert grants[m] == before[m];
      assert forall x | x in grants[..m + 1] :: x in before;
    }
  }

  /** A dictionary made from grants without the public one allows what the grants allow. */
  lemma DictFromGrantsAllows(rt: string, grants: seq<Principal>, userId: string, groups: set<string>,
                             permission: string)
    requires ANYONE !in grants && (permission == "read" || permission == "write")
    ensures LegacyAllows(rt, FromGrants(grants), userId, groups, permission)
            <==> Allows(grants, userId, groups, permission)
  {
    var l := CollectLists(grants, permission);
    forall id ensures (id in l.groupIds <==> Principal("group", id, permission) in grants)
                      && (id in l.userIds <==> Principal("user", id, permission) in grants)
    {
      CollectMembers(grants, "group", permission, id);
      CollectMembers(grants, "user", permission, id);
    }
    if Allows(grants, userId, groups, permission) {
      var p :| p in grants && p.permission == permission && Matches(p, userId, groups);
      assert p == Principal(p.kind, p.id, permission);
    }
  }

  predicate SameMeaningFor(rt: string, a: Option<Acl>, b: Option<Acl>, userId: string, groups: set<string>,
                           permission: string)
  {
    LegacyAllows(rt, a, userId, groups, permission) <==> LegacyAllows(rt, b, userId, groups, permission)
  }

  ghost predicate SameMeaning(rt: string, a: Option<Acl>, b: Option<Acl>)
  {
    forall userId, groups, permission :: SameMeaningFor(rt, a, b, userId, groups, permission)
  }

  /** Public read spelled as a "*" entry, next to something None cannot say: write entries, or a file. */
  predicate PublicWithMore(rt: string, ac: Option<Acl>)
  {
    ac.Some? && "*" in ac.value.read.userIds && (rt == "file" || ac.value.write != Lists([], []))
  }

  lemma AnyoneIffStarReader(rt: string, ac: Option<Acl>)
    ensures ANYONE in ToGrants(rt, ac) <==> if ac.Some? then "*" in ac.value.read.userIds else rt != "file"
  {
  }

  /** Converting to grants and back keeps the meaning exactly when public read does not coexist with more. */
  lemma RoundTripKeepsMeaningIff(rt: string, ac: Option<Acl>)
    ensures SameMeaning(rt, FromGrants(ToGrants(rt, ac)), ac) <==> !PublicWithMore(rt, ac)
  {
    var grants := ToGrants(rt, ac);
    var back := FromGrants(grants);
    AnyoneIffStarReader(rt, ac);
    if PublicWithMore(rt, ac) {
      assert back == None;
      if rt == "file" {
        assert !SameMeaningFor(rt, back, ac, "", {}, "read");
      } else {
        var w := ac.value.write;
        if w.userIds != [] {
          assert w.userIds[0] in w.userIds;
          assert !SameMeaningFor(rt, back, ac, w.userIds[0], {}, "write");
        } else {
          assert w.groupIds != [] && w.groupIds[0] in w.groupIds;
          assert w.groupIds[0] in {w.groupIds[0]};
          assert !SameMeaningFor(rt, back, ac, "", {w.groupIds[0]}, "write");
        }
      }
    } else {
      forall userId, groups, permission ensures SameMeaningFor(rt, back, ac, userId, groups, permission) {
        if ANYONE !in grants {
          if permission == "read" || permission == "write" {
            DictFromGrantsAllows(rt, grants, userId, groups, permission);
            GrantsAllowWhatTheDictAllows(rt, ac, userId, groups, permission);
          }
        }
      }
    }
  }

  /** Everyone may read and user u may write: u can no longer write after the round trip. */
  lemma RoundTripLosesTheWriter(rt: string, u: string)
    ensures var ac := Some(Acl(Lists([], ["*"]), Lists([], [u])));
            && LegacyAllows(rt, ac, u, {}, "write")
            && !LegacyAllows(rt, FromGrants(ToGrants(rt, ac)), u, {}, "write")
  {
    var ac := Some(Acl(Lists([], ["*"]), Lists([], [u])));
    assert "*" in ac.value.read.userIds;
    AnyoneIffStarReader(rt, ac);
  }

  // ---------- The other queries ----------

  /** One query for many resources. */
  function AccessibleIds(t: seq<Grant>, userId: string, resourceType: string, ids: seq<string>, permission: string,
                         groups: set<string>): set<string>
  {
    if ids == [] then {} else
      set g | g in t && g.resourceType == resourceType && g.resourceId in ids && g.who.permission == permission
              && Matches(g.who, userId, groups) :: g.resourceId
  }

  /** The batch query is the filter of its input by the single query. */
  lemma BatchIsFilter(t: seq<Grant>, userId: string, resourceType: string, ids: seq<string>, permission: string,
                      groups: set<string>)
    ensures AccessibleIds(t, userId, resourceType, ids, permission, groups)
            == set id | id in ids && HasAccess(t, userId, resourceType, id, permission, groups)
  {
  }

  datatype Doc = Doc(id: string, userId: string)

  /** The row filter of a listing: no filter at all without a user and groups. */
  predicate FilterKeeps(t: seq<Grant>, d: Doc, userId: Option<string>, groupIds: seq<string>, resourceType: string,
                        permission: string)
  {
    var hasUser := userId.Some? && userId.value != "";
    if !hasUser && groupIds == [] then true else
      (exists g | g in t ::
         g.resourceType == resourceType && g.resourceId == d.id && g.who.permission == permission
         && ((g.who.kind == "user" && g.who.id == "*")
             || (hasUser && g.who.kind == "user" && g.who.id == userId.value)
             || (groupIds != [] && g.who.kind == "group" && g.who.id in groupIds)))
      || (hasUser && d.userId == userId.value)
  }

  /**
   For a user the filter keeps what they own or have access to; for groups alone, what anyone in them has; for neither,
   everything.
   */
  lemma FilterIsOwnershipOrAccess(t: seq<Grant>, d: Doc, userId: Option<string>, groupIds: seq<string>,
                                  resourceType: string, permission: string)
    ensures userId.Some? && userId.value != "" ==>
              (FilterKeeps(t, d, userId, groupIds, resourceType, permission)
               <==> d.userId == userId.value
                    || HasAccess(t, userId.value, resourceType, d.id, permission, Members(groupIds)))
    ensures (userId.None? || userId.value == "") && groupIds != [] ==>
              (FilterKeeps(t, d, userId, groupIds, resourceType, permission)
               <==> HasAccess(t, "*", resourceType, d.id, permission, Members(groupIds)))
    ensures (userId.None? || userId.value == "") && groupIds == [] ==>
              FilterKeeps(t, d, userId, groupIds, resourceType, permission)
  {
  }

  datatype Member = Member(groupId: string, userId: string)

  /** The groups of a user, joined with the group table. */
  function GroupsOf(groups: set<string>, members: set<Member>, userId: string): set<string>
  {
    set m | m in members && m.userId == userId && m.groupId in groups :: m.groupId
  }

  /** The users found from the grants of one resource; roles by user id. */
  function UsersWithAccess(t: seq<Grant>, users: map<string, string>, members: set<Member>, resourceType: string,
                           resourceId: string, permission: string): set<string>
  {
    if Grant(resourceType, resourceId, Principal("user", "*", permission)) in t
    then set u | u in users && users[u] != "pending"
    else set u | u in users
                 && exists g | g in t ::
                      g.resourceType == resourceType && g.resourceId == resourceId && g.who.permission == permission
                      && ((g.who.kind == "user" && g.who.id == u)
                          || (g.who.kind == "group" && Member(g.who.id, u) in members))
  }

  function UsersHavingAccess(t: seq<Grant>, users: map<string, string>, groups: set<string>, members: set<Member>,
                             resourceType: string, resourceId: string, permission: string): set<string>
  {
    set u | u in users && HasAccess(t, u, resourceType, resourceId, permission, GroupsOf(groups, members, u))
  }

  /** The user is a member of a group that was granted access and no longer exists. */
  predicate ReachedByLostGroup(t: seq<Grant>, groups: set<string>, members: set<Member>, resourceType: string,
                               resourceId: string, permission: string, u: string)
  {
    exists m | m in members ::
      m.userId == u && m.groupId !in groups
      && Grant(resourceType, resourceId, Principal("group", m.groupId, permission)) in t
  }

  /**
   Without a public grant the inverse query misses nobody, and is exact if and only if everyone it reaches through a
   lost group has access anyway; with one it is exact unless some user is pending.
   */
  lemma InverseQueryAgrees(t: seq<Grant>, users: map<string, string>, groups: set<string>, members: set<Member>,
                           resourceType: string, resourceId: string, permission: string)
    ensures var found := UsersWithAccess(t, users, members, resourceType, resourceId, permission);
            var having := UsersHavingAccess(t, users, groups, members, resourceType, resourceId, permission);
            if Grant(resourceType, resourceId, Principal("user", "*", permission)) in t
            then having == users.Keys && (found == having <==> forall u | u in users :: users[u] != "pending")
            else
              && having <= found
              && (found == having
                  <==> forall u | u in users && ReachedByLostGroup(t, groups, members, resourceType, resourceId,
                                                                   permission, u) ::
                         HasAccess(t, u, resourceType, resourceId, permission, GroupsOf(groups, members, u)))
  {
  }

  /** A member of a group that was granted access and then deleted is found without having access. */
  lemma LostGroupMemberIsFound(resourceType: string, resourceId: string, permission: string, u: string, g: string)
    ensures var t, members := [Grant(resourceType, resourceId, Principal("group", g, permission))], {Member(g, u)};
            && u in UsersWithAccess(t, map[u := "user"], members, resourceType, resourceId, permission)
            && u !in UsersHavingAccess(t, map[u := "user"], {}, members, resourceType, resourceId, permission)
  {
    var members := {Member(g, u)};
    assert Member(g, u) in members;
    assert GroupsOf({}, members, u) == {};
  }

  /** A pending user has access through a public grant and is not found. */
  lemma PendingUserIsMissed(resourceType: string, resourceId: string, permission: string, u: string)
    ensures var t := [Grant(resourceType, resourceId, Principal("user", "*", permission))];
            && u !in UsersWithAccess(t, map[u := "pending"], {}, resourceType, resourceId, permission)
            && u in UsersHavingAccess(t, map[u := "pending"], {}, {}, resourceType, resourceId, permission)
  {
    var t := [Grant(resourceType, resourceId, Principal("user", "*", permission))];
    assert t[0] in t;
  }

  // ---------- Memberships ----------

  class Groups {
    /** Group names by id; names need not be unique. */
    var groups: map<string, string>
    var members: set<Member>

    constructor (groups: map<string, string>, members: set<Member>)
      ensures this.groups == groups && this.members == members
    {
      this.groups, this.members := groups, members;
    }

    /** Afterwards the user is in exactly the groups with the given names; nobody else's membership moves. */
    method SyncGroupsByGroupNames(userId: string, names: set<string>)
      modifies this
      ensures groups == old(groups)
      ensures GroupsOf(groups.Keys, members, userId) == set g | g in groups && groups[g] in names
      ensures forall m: Member | m.userId != userId || m.groupId !in groups :: m in members <==> m in old(members)
      ensures (forall m | m in old(members) :: m.groupId in groups) ==> forall m | m in members :: m.groupId in groups
    {
      var target := set g | g in groups && groups[g] in names;
      var existing := GroupsOf(groups.Keys, members, userId);
      var add, remove := target - existing, existing - target;
      if remove != {} {
        members := set m | m in members && !(m.userId == userId && m.groupId in remove);
      }
      members := members + set g | g in add :: Member(g, userId);
      forall g ensures g in GroupsOf(groups.Keys, members, userId) <==> g in target {
        GroupsOfMember(groups.Keys, old(members), userId, g);
        GroupsOfMember(groups.Keys, members, userId, g);
        assert Member(g, userId) in members <==> (Member(g, userId) in old(members) && g !in remove) || g in add;
      }
    }
  }

  lemma GroupsOfMember(groups: set<string>, members: set<Member>, userId: string, g: string)
    ensures g in GroupsOf(groups, members, userId) <==> g in groups && Member(g, userId) in members
  {
  }
}
