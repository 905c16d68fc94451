/** The nested configuration document, its dotted paths, and the registry of persistent settings. */
module ConfigStore {
  import opened Prelude
  import opened Json

  // ---------- Walking the document ----------

  datatype Found = Present(v: Json) | Missing | WrongType

  predicate Substring(a: string, b: string)
  {
    a <= b || (b != [] && Substring(a, b[1..]))
  }

  /** `key in cur` and then `cur[key]`: a text or list may contain the key but cannot be indexed by it. */
  function Lookup(cur: Json, key: string): Found
  {
    match cur
    case Dict(m) => if key in m then Present(m[key]) else Missing
    case Text(s) => if Substring(key, s) then WrongType else Missing
    case List(items) => if Text(key) in items then WrongType else Missing
    case _ => WrongType
  }

  /** None (here Null) for a missing key; an error where the walk hits a value that has no keys. */
  function GetValue(cur: Json, path: Path): Result<Json, Found>
  {
    if path == [] then Ok(cur)
    else match Lookup(cur, path[0])
      case Present(v) => GetValue(v, path[1..])
      case Missing => Ok(Null)
      case WrongType => Err(WrongType)
  }

  /** What is there is what is read. */
  lemma {:induction false} GetIsAt(cur: Json, path: Path)
    ensures At(cur, path).Some? ==> GetValue(cur, path) == Ok(At(cur, path).value)
  {
    if path != [] && cur.Dict? && path[0] in cur.m { GetIsAt(cur.m[path[0]], path[1..]); }
  }

  /**
   What is not there: n keys of the path are, and lead to value v, which has no next key. A dictionary, text or list
   without it reads as null; a text or list that contains it, and any other value, raises.
   */
  lemma {:induction false} GetBeyond(cur: Json, path: Path, n: nat)
    requires n < |path| && At(cur, path[..n]).Some? && At(cur, path[..n + 1]).None?
    ensures var v, key := At(cur, path[..n]).value, path[n];
            GetValue(cur, path)
            == match v
               case Dict(_) => Ok(Null)
               case Text(s) => (if Substring(key, s) then Err(WrongType) else Ok(Null))
               case List(items) => (if Text(key) in items then Err(WrongType) else Ok(Null))
               case _ => Err(WrongType)
  {
    if n == 0 {
      assert path[..0] == [] && path[..1][0] == path[0] && path[..1][1..] == [];
    } else {
      assert path[..n][0] == path[0] == path[..n + 1][0];
      assert path[..n][1..] == path[1..][..n - 1] && path[..n + 1][1..] == path[1..][..n];
      GetBeyond(cur.m[path[0]], path[1..], n - 1);
    }
  }

  lemma {:induction false} SubstringIff(a: string, b: string)
    ensures Substring(a, b) <==> exists before: string, after: string :: b == before + a + after
  {
    if a <= b {
      assert b == "" + a + b[|a|..];
    } else if b != [] {
      SubstringIff(a, b[1..]);
      if before: string, after: string :| b[1..] == before + a + after {
        assert b == ([b[0]] + before) + a + after;
      }
      if before: string, after: string :| b == before + a + after {
        assert before == "" ==> a <= b;
        if before != "" { assert b[1..] == before[1..] + a + after; }
      }
    } else {
      forall before: string, after: string ensures |b| != |before + a + after| { }
    }
  }

  /** The assignment at the end of a path, creating the dictionaries on the way. */
  function SetValue(cur: Json, path: Path, v: Json): Result<Json, Found>
    requires path != []
    decreases path
  {
    if !cur.Dict? then Err(WrongType)
    else if |path| == 1 then Ok(Dict(cur.m[path[0] := v]))
    else
      var inner := if path[0] in cur.m then cur.m[path[0]] else Dict(map[]);
      match SetValue(inner, path[1..], v)
      case Ok(j) => Ok(Dict(cur.m[path[0] := j]))
      case Err(e) => Err(e)
  }

  // ---------- One save ----------

  lemma {:induction false} GetAfterSet(cur: Json, path: Path, v: Json)
    requires path != [] && SetValue(cur, path, v).Ok?
    ensures GetValue(SetValue(cur, path, v).value, path) == Ok(v)
    decreases path
  {
    if |path| > 1 {
      var inner := if path[0] in cur.m then cur.m[path[0]] else Dict(map[]);
      GetAfterSet(inner, path[1..], v);
    } else {
      assert path[1..] == [];
    }
  }

  /** Neither path leads into the other. */
  predicate Apart(p: Path, q: Path) { !(p <= q) && !(q <= p) }

  /** A path that shares no subtree with the saved one reads as before, including its errors. */
  lemma {:induction false} GetElsewhere(cur: Json, path: Path, v: Json, q: Path)
    requires path != [] && SetValue(cur, path, v).Ok? && Apart(path, q)
    ensures GetValue(SetValue(cur, path, v).value, q) == GetValue(cur, q)
    decreases path
  {
    assert q != [];
    if q[0] == path[0] {
      assert path == [path[0]] + path[1..] && q == [q[0]] + q[1..];
      assert |path| > 1 && Apart(path[1..], q[1..]);
      var inner := if path[0] in cur.m then cur.m[path[0]] else Dict(map[]);
      GetElsewhere(inner, path[1..], v, q[1..]);
      assert q[1..] != [];
    }
  }

  /** No proper prefix of the path holds something other than a dictionary. */
  predicate CanSave(cur: Json, path: Path)
  {
    forall i | 0 <= i < |path| && At(cur, path[..i]).Some? :: DictAt(cur, path[..i])
  }

  /** A save succeeds exactly then. */
  lemma {:induction false} SetSucceedsIff(cur: Json, path: Path, v: Json)
    requires path != []
    ensures SetValue(cur, path, v).Ok? <==> CanSave(cur, path)
    decreases path
  {
    assert path[..0] == [];
    if !cur.Dict? {
      assert At(cur, path[..0]).Some? && !DictAt(cur, path[..0]);
    } else if |path| > 1 {
      var rest := path[1..];
      var inner := if path[0] in cur.m then cur.m[path[0]] else Dict(map[]);
      SetSucceedsIff(inner, rest, v);
      forall i | 0 < i < |path|
        ensures (At(cur, path[..i]).Some? ==> DictAt(cur, path[..i]))
                <==> (At(inner, rest[..i - 1]).Some? ==> DictAt(inner, rest[..i - 1]))
      {
        assert path[..i][1..] == rest[..i - 1] && path[..i][0] == path[0];
        if path[0] !in cur.m && i > 1 { assert rest[..i - 1] != []; }
      }
      if !SetValue(cur, path, v).Ok? {
        var i :| 0 <= i < |rest| && At(inner, rest[..i]).Some? && !DictAt(inner, rest[..i]);
        assert At(cur, path[..i + 1]).Some? && !DictAt(cur, path[..i + 1]);
      } else {
        forall i | 0 <= i < |path| && At(cur, path[..i]).Some? ensures DictAt(cur, path[..i]) {
          if i > 0 { assert 0 <= i - 1 < |rest|; }
        }
      }
    } else {
      forall i | 0 <= i < |path| && At(cur, path[..i]).Some? ensures DictAt(cur, path[..i]) { assert i == 0; }
    }
  }

  // ---------- Any sequence of saves ----------

  datatype Save = Save(path: Path, value: Json)

  function Saved(data: Json, s: Save): Json
    requires s.path != []
  {
    match SetValue(data, s.path, s.value) case Ok(j) => j case Err(_) => data
  }

  function AllSaved(data: Json, saves: seq<Save>): Json
    requires forall s | s in saves :: s.path != []
  {
    if saves == [] then data else Saved(AllSaved(data, saves[..|saves| - 1]), saves[|saves| - 1])
  }

  /** The value of the latest save at q that did not fail. */
  function LastSaved(data: Json, saves: seq<Save>, q: Path): Option<Json>
    requires forall s | s in saves :: s.path != []
  {
    if saves == [] then None else
      var before, s := saves[..|saves| - 1], saves[|saves| - 1];
      if s.path == q && SetValue(AllSaved(data, before), q, s.value).Ok? then Some(s.value)
      else LastSaved(data, before, q)
  }

  /**
   With paths that never lead into one another, each path reads as its last saved value, and a path nobody saved
   reads as at the start.
   */
  lemma {:induction false} EachPathKeepsItsLastSave(data: Json, saves: seq<Save>, q: Path)
    requires forall s | s in saves :: s.path != [] && (s.path == q || Apart(s.path, q))
    ensures GetValue(AllSaved(data, saves), q)
            == match LastSaved(data, saves, q) case Some(v) => Ok(v) case None => GetValue(data, q)
  {
    if saves != [] {
      var before, s := saves[..|saves| - 1], saves[|saves| - 1];
      EachPathKeepsItsLastSave(data, before, q);
      var d := AllSaved(data, before);
      if SetValue(d, s.path, s.value).Ok? {
        if s.path == q { GetAfterSet(d, q, s.value); } else { GetElsewhere(d, s.path, s.value, q); }
      }
    }
  }

  /** A save apart from q, or at q itself, never makes a save at q fail that could be done before. */
  lemma {:induction false} SavableStays(cur: Json, path: Path, v: Json, q: Path, x: Json)
    requires path != [] && q != [] && (path == q || Apart(path, q))
    requires SetValue(cur, path, v).Ok? && SetValue(cur, q, x).Ok?
    ensures SetValue(SetValue(cur, path, v).value, q, x).Ok?
    decreases path
  {
    if q[0] == path[0] && |path| > 1 {
      assert path == [path[0]] + path[1..] && q == [q[0]] + q[1..];
      assert |q| > 1;
      var inner := if path[0] in cur.m then cur.m[path[0]] else Dict(map[]);
      SavableStays(inner, path[1..], v, q[1..], x);
    } else if q[0] == path[0] {
      assert path == [path[0]] && q == [q[0]] + q[1..];
      assert path == q;
    }
  }

  /** On paths that never lead into one another, what could be saved at the start can be saved after any saves. */
  lemma {:induction false} NoSaveEverFails(data: Json, saves: seq<Save>, q: Path, x: Json)
    requires q != [] && CanSave(data, q)
    requires forall s | s in saves :: s.path != [] && (s.path == q || Apart(s.path, q))
    ensures SetValue(AllSaved(data, saves), q, x).Ok?
  {
    if saves == [] {
      SetSucceedsIff(data, q, x);
    } else {
      var before, s := saves[..|saves| - 1], saves[|saves| - 1];
      NoSaveEverFails(data, before, q, x);
      if SetValue(AllSaved(data, before), s.path, s.value).Ok? {
        SavableStays(AllSaved(data, before), s.path, s.value, q, x);
      }
    }
  }

  /** The value of the latest save at q, whatever became of it. */
  function LatestAt(saves: seq<Save>, q: Path): Option<Json>
  {
    if saves == [] then None
    else if saves[|saves| - 1].path == q then Some(saves[|saves| - 1].value)
    else LatestAt(saves[..|saves| - 1], q)
  }

  /** So a path that can be saved at the start reads, after any saves, as the latest of those at it. */
  lemma {:induction false} SavablePathKeepsItsLatest(data: Json, saves: seq<Save>, q: Path)
    requires q != [] && CanSave(data, q)
    requires forall s | s in saves :: s.path != [] && (s.path == q || Apart(s.path, q))
    ensures GetValue(AllSaved(data, saves), q)
            == match LatestAt(saves, q) case Some(v) => Ok(v) case None => GetValue(data, q)
  {
    EachPathKeepsItsLastSave(data, saves, q);
    NothingSkipped(data, saves, q);
  }

  lemma {:induction false} NothingSkipped(data: Json, saves: seq<Save>, q: Path)
    requires q != [] && CanSave(data, q)
    requires forall s | s in saves :: s.path != [] && (s.path == q || Apart(s.path, q))
    ensures LastSaved(data, saves, q) == LatestAt(saves, q)
  {
    if saves != [] {
      var before, s := saves[..|saves| - 1], saves[|saves| - 1];
      NothingSkipped(data, before, q);
      NoSaveEverFails(data, before, q, s.value);
    }
  }

  // ---------- The objects ----------

  /** The document has a value at the path, and it is not null. */
  predicate HasValue(data: Json, path: Path) { At(data, path).Some? && At(data, path).value != Null }

  /** A walk that does not raise gives that value, or null when there is none. */
  lemma ReadsAsAt(data: Json, path: Path)
    requires path != []
    ensures HasValue(data, path) ==> GetValue(data, path) == Ok(At(data, path).value)
    ensures GetValue(data, path).Ok? ==>
              GetValue(data, path).value == if HasValue(data, path) then At(data, path).value else Null
  {
    GetIsAt(data, path);
    if At(data, path).None? {
      var n := Deepest(data, path);
      GetBeyond(data, path, n);
    }
  }

  lemma {:induction false} Deepest(data: Json, path: Path) returns (n: nat)
    requires At(data, path).None?
    ensures n < |path| && At(data, path[..n]).Some? && At(data, path[..n + 1]).None?
  {
    if !data.Dict? || path[0] !in data.m {
      assert path[..0] == [] && path[..1][0] == path[0];
      n := 0;
    } else {
      var m := Deepest(data.m[path[0]], path[1..]);
      assert path[..m + 1][0] == path[0] == path[..m + 2][0];
      assert path[..m + 1][1..] == path[1..][..m] && path[..m + 2][1..] == path[1..][..m + 1];
      n := m + 1;
    }
  }

  class PersistentConfig {
    const path: Path
    var value: Json
    var configValue: Json

    /** The stored value when there is one and it may be used, the environment value otherwise. */
    constructor (path: Path, envValue: Json, stored: Json, mayLoad: bool)
      requires path != []
      ensures this.path == path && configValue == stored
      ensures value == if stored != Null && mayLoad then stored else envValue
    {
      this.path := path;
      configValue := stored;
      value := if stored != Null && mayLoad then stored else envValue;
    }
  }

  class ConfigStore {
    var data: Json
    /** What the configuration row of the database holds. */
    var stored: Json
    var registry: seq<PersistentConfig>

    ghost predicate Valid()
      reads this
    {
      (forall i, j | 0 <= i < j < |registry| :: registry[i] != registry[j])
      && forall p | p in registry :: p.path != []
    }

    constructor (initial: Json)
      ensures Valid() && data == stored == initial && registry == []
    {
      data, stored, registry := initial, initial, [];
    }

    method Register(path: Path, envValue: Json, mayLoad: bool) returns (r: Option<PersistentConfig>)
      requires Valid() && path != []
      modifies this
      ensures Valid() && data == old(data) && stored == old(stored)
      ensures r.Some? <==> GetValue(data, path).Ok?
      ensures r.None? ==> registry == old(registry)
      ensures r.Some? ==>
                && registry == old(registry) + [r.value] && fresh(r.value) && r.value.path == path
                && r.value.value == if HasValue(data, path) && mayLoad then At(data, path).value else envValue
    {
      ReadsAsAt(data, path);
      match GetValue(data, path) {
        case Err(_) => r := None;
        case Ok(v) =>
          var p := new PersistentConfig(path, envValue, v, mayLoad);
          registry := registry + [p];
          r := Some(p);
      }
    }

    /** Writes the item's value into the document in place and stores the document; false when the walk raises. */
    method SaveItem(p: PersistentConfig) returns (ok: bool)
      requires Valid() && p in registry
      modifies this, p
      ensures Valid() && registry == old(registry) && p.value == old(p.value)
      ensures ok <==> SetValue(old(data), p.path, p.value).Ok?
      ensures data == Saved(old(data), Save(p.path, p.value))
      ensures ok ==> stored == data && p.configValue == p.value
      ensures !ok ==> stored == old(stored) && p.configValue == old(p.configValue)
    {
      match SetValue(data, p.path, p.value) {
        case Err(_) => ok := false;
        case Ok(j) =>
          data := j;
          stored := data;
          p.configValue := p.value;
          ok := true;
      }
    }

    /**
     Replaces the document and refreshes the registered items in order: each takes the value that the new document has
     at its path, if it has one that is not null. The first path that cannot be walked stops the refresh.
     */
    method SaveConfig(config: map<string, Json>) returns (ok: bool)
      requires Valid()
      modifies this, registry
      ensures Valid() && registry == old(registry) && data == stored == Dict(config)
      ensures ok <==> forall p | p in registry :: GetValue(data, p.path).Ok?
      ensures exists n :: && 0 <= n <= |registry|
                          && (ok <==> n == |registry|)
                          && (n < |registry| ==> GetValue(data, registry[n].path).Err?)
                          && (forall i | 0 <= i < n ::
                                && GetValue(data, registry[i].path).Ok?
                                && registry[i].value == if HasValue(Dict(config), registry[i].path)
                                                        then At(Dict(config), registry[i].path).value
                                                        else old(registry[i].value))
                          && (forall i | n <= i < |registry| :: registry[i].value == old(registry[i].value))
    {
      stored := Dict(config);
      data := Dict(config);
      ok := true;
      ghost var items := registry;
      for n := 0 to |registry|
        invariant ok && Valid() && registry == items && data == stored == Dict(config)
        invariant forall i | 0 <= i < n ::
                    && GetValue(data, registry[i].path).Ok?
                    && registry[i].value == if HasValue(data, registry[i].path) then At(data, registry[i].path).value
                                            else old(registry[i].value)
        invariant forall i | n <= i < |registry| :: registry[i].value == old(registry[i].value)
      {
        ReadsAsAt(data, registry[n].path);
        match GetValue(data, registry[n].path) {
          case Err(_) =>
            ok := false;
            assert registry[n] in registry;
            return;
          case Ok(v) =>
            if v != Null { registry[n].value := v; }
        }
      }
    }
  }
}
