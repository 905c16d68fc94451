/** Settings held as objects by several application instances, some of which share their values through one Redis. */
module AppConfigSync {
  import opened Prelude
  import opened Json

  /** What a Redis key holds: a value that decodes, or a text that does not. */
  datatype Raw = Encoded(v: Json) | Garbled

  class Redis {
    var store: map<string, Raw>

    constructor ()
      ensures store == map[]
    {
      store := map[];
    }
  }

  /** One persistent setting. Instances hold references to it, so two of them may hold the same one. */
  class Setting {
    var value: Json

    constructor (value: Json)
      ensures this.value == value
    {
      this.value := value;
    }
  }

  class AppConfig {
    const redis: Redis
    /** This instance has a Redis and persistent configuration is on. */
    const shared: bool
    var state: map<string, Setting>

    constructor (redis: Redis, shared: bool)
      ensures this.redis == redis && this.shared == shared && state == map[]
    {
      this.redis, this.shared, state := redis, shared, map[];
    }

    method Register(key: string, item: Setting)
      modifies this
      ensures state == old(state)[key := item]
    {
      state := state[key := item];
    }

    /** saved: whether writing the configuration document raised nothing. False when the key is unknown or it raised. */
    method Set(key: string, value: Json, saved: bool) returns (ok: bool)
      modifies redis, if key in state then {state[key]} else {}
      ensures ok <==> key in state && saved
      ensures key in state ==> state[key].value == value
      ensures redis.store == Published(old(redis.store), shared && ok, key, value)
    {
      if key !in state { return false; }
      state[key].value := value;
      if !saved { return false; }
      if shared { redis.store := redis.store[key := Encoded(value)]; }
      ok := true;
    }

    /** None stands for the attribute error of an unknown key. */
    method Get(key: string) returns (r: Option<Json>)
      modifies if key in state then {state[key]} else {}
      ensures r == if key in state then Some(Seen(old(state[key].value), redis.store, shared, key)) else None
      ensures r.Some? ==> state[key].value == r.value
    {
      if key !in state { return None; }
      if shared && key in redis.store {
        match redis.store[key] {
          case Encoded(v) => if state[key].value != v { state[key].value := v; }
          case Garbled =>
        }
      }
      r := Some(state[key].value);
    }
  }

  function Published(store: map<string, Raw>, publish: bool, key: string, value: Json): map<string, Raw>
  {
    if publish then store[key := Encoded(value)] else store
  }

  function Decoded(store: map<string, Raw>, key: string): Option<Json>
  {
    if key in store && store[key].Encoded? then Some(store[key].v) else None
  }

  /** What a reader of a setting gets: the Redis value if it has one, else the setting's own. */
  function Seen(own: Json, store: map<string, Raw>, shared: bool, key: string): Json
  {
    if shared && Decoded(store, key).Some? then Decoded(store, key).value else own
  }

  // ---------- Many instances over many settings ----------

  type Instance = nat

  type Item = nat

  /** The value of each setting object, and which object each instance has under which name. */
  datatype World = World(values: map<Item, Json>, bound: map<Instance, map<string, Item>>, store: map<string, Raw>)

  /** Assign: an object is made with its value, or refreshed after the whole configuration was replaced. */
  datatype Event =
    | Assign(o: Item, value: Json)
    | Register(i: Instance, key: string, o: Item)
    | Set(i: Instance, key: string, value: Json, saved: bool)
    | Get(i: Instance, key: string)

  function ValueOf(w: World, o: Item): Json { if o in w.values then w.values[o] else Null }

  function NamesOf(w: World, i: Instance): map<string, Item> { if i in w.bound then w.bound[i] else map[] }

  function BoundTo(w: World, i: Instance, key: string): Option<Item>
  {
    if key in NamesOf(w, i) then Some(NamesOf(w, i)[key]) else None
  }

  /** shared: the instances that have the Redis. */
  function Step(w: World, e: Event, shared: set<Instance>): World
  {
    match e
    case Assign(o, value) => w.(values := w.values[o := value])
    case Register(i, key, o) => w.(bound := w.bound[i := NamesOf(w, i)[key := o]])
    case Set(i, key, value, saved) =>
      (match BoundTo(w, i, key)
       case None => w
       case Some(o) =>
         World(w.values[o := value], w.bound, Published(w.store, i in shared && saved, key, value)))
    case Get(i, key) =>
      match BoundTo(w, i, key)
      case None => w
      case Some(o) => w.(values := w.values[o := Seen(ValueOf(w, o), w.store, i in shared, key)])
  }

  /** A name is bound to the object last registered under it, and no other name is rebound. */
  lemma RegisterBinds(w: World, i: Instance, key: string, o: Item, shared: set<Instance>, j: Instance, other: string)
    ensures var v := Step(w, Register(i, key, o), shared);
            && BoundTo(v, j, other) == (if j == i && other == key then Some(o) else BoundTo(w, j, other))
            && v.values == w.values && v.store == w.store
  {
  }

  function Run(w: World, tr: seq<Event>, shared: set<Instance>): World
  {
    if tr == [] then w else Step(Run(w, tr[..|tr| - 1], shared), tr[|tr| - 1], shared)
  }

  function ReadAt(w: World, i: Instance, key: string, shared: set<Instance>): Option<Json>
  {
    match BoundTo(w, i, key)
    case None => None
    case Some(o) => Some(Seen(ValueOf(w, o), w.store, i in shared, key))
  }

  /** The value of the latest set of the key that an instance with Redis completed; at first, what Redis holds. */
  function LatestShared(w: World, tr: seq<Event>, key: string, shared: set<Instance>): Option<Json>
  {
    if tr == [] then Decoded(w.store, key) else
      var before, e := tr[..|tr| - 1], tr[|tr| - 1];
      if e.Set? && e.key == key && e.saved && e.i in shared && BoundTo(Run(w, before, shared), e.i, key).Some?
      then Some(e.value)
      else LatestShared(w, before, key, shared)
  }

  /**
   The value that last went into object o: assigned, set by any instance that has it, completed or not, or brought from
   Redis by a read of an instance that has it.
   */
  function LatestIn(w: World, tr: seq<Event>, o: Item, shared: set<Instance>): Json
  {
    if tr == [] then ValueOf(w, o) else
      var before, e := tr[..|tr| - 1], tr[|tr| - 1];
      var earlier := LatestIn(w, before, o, shared);
      match e
      case Assign(x, value) => if x == o then value else earlier
      case Register(_, _, _) => earlier
      case Set(i, key, value, _) => if BoundTo(Run(w, before, shared), i, key) == Some(o) then value else earlier
      case Get(i, key) =>
        var brought := LatestShared(w, before, key, shared);
        if BoundTo(Run(w, before, shared), i, key) == Some(o) && i in shared && brought.Some? then brought.value
        else earlier
  }

  lemma {:induction false} StoreHoldsLatest(w: World, tr: seq<Event>, key: string, shared: set<Instance>)
    ensures Decoded(Run(w, tr, shared).store, key) == LatestShared(w, tr, key, shared)
  {
    if tr != [] { StoreHoldsLatest(w, tr[..|tr| - 1], key, shared); }
  }

  lemma {:induction false} ItemHoldsLatest(w: World, tr: seq<Event>, o: Item, shared: set<Instance>)
    ensures ValueOf(Run(w, tr, shared), o) == LatestIn(w, tr, o, shared)
  {
    if tr != [] {
      var before, e := tr[..|tr| - 1], tr[|tr| - 1];
      ItemHoldsLatest(w, before, o, shared);
      if e.Get? { StoreHoldsLatest(w, before, e.key, shared); }
    }
  }

  /**
   An instance with Redis reads the latest value that any of those completed; while there is none, and without Redis, an
   instance reads what last went into its object through any instance that has it.
   */
  lemma ReadsAreCoherent(w: World, tr: seq<Event>, i: Instance, key: string, shared: set<Instance>)
    ensures var latest := LatestShared(w, tr, key, shared);
            ReadAt(Run(w, tr, shared), i, key, shared)
            == match BoundTo(Run(w, tr, shared), i, key)
               case None => None
               case Some(o) => if i in shared && latest.Some? then latest else Some(LatestIn(w, tr, o, shared))
  {
    StoreHoldsLatest(w, tr, key, shared);
    match BoundTo(Run(w, tr, shared), i, key)
    case None =>
    case Some(o) => ItemHoldsLatest(w, tr, o, shared);
  }

  /** The read brings a new value from Redis into object o. */
  predicate Brings(w: World, tr: seq<Event>, i: Instance, key: string, o: Item, shared: set<Instance>)
  {
    var latest := LatestShared(w, tr, key, shared);
    BoundTo(Run(w, tr, shared), i, key) == Some(o) && i in shared && latest.Some?
    && latest.value != LatestIn(w, tr, o, shared)
  }

  /**
   A read leaves its object with the value returned. It changes another read exactly when it brings a new value into
   the object of that other reader, who does not get a value from Redis itself. So it changes no read of the same
   setting by an instance with Redis, and no read at all of another object.
   */
  lemma {:induction false} ReadingDisturbsIff(w: World, tr: seq<Event>, i: Instance, key: string, j: Instance,
                                              other: string, shared: set<Instance>)
    ensures var v, after := Run(w, tr, shared), Run(w, tr + [Get(i, key)], shared);
            && (forall o :: BoundTo(v, i, key) == Some(o) ==>
                  Some(ValueOf(after, o)) == ReadAt(v, i, key, shared))
            && (ReadAt(after, j, other, shared) != ReadAt(v, j, other, shared)
                <==> && BoundTo(v, j, other).Some? && Brings(w, tr, i, key, BoundTo(v, j, other).value, shared)
                     && !(j in shared && LatestShared(w, tr, other, shared).Some?))
  {
    var v := Run(w, tr, shared);
    assert (tr + [Get(i, key)])[..|tr|] == tr;
    StoreHoldsLatest(w, tr, key, shared);
    StoreHoldsLatest(w, tr, other, shared);
    if BoundTo(v, j, other).Some? { ItemHoldsLatest(w, tr, BoundTo(v, j, other).value, shared); }
  }

  // ---------- Two instances over one object ----------

  /** Object 0, made with value a, bound to instances 0 and 1 under one name. */
  function Twins(key: string, a: Json): World
  {
    World(map[0 := a], map[0 := map[key := 0], 1 := map[key := 0]], map[])
  }

  /** Without any Redis one instance reads what the other set. */
  lemma UnsharedTwinsSeeEachOther(key: string, a: Json, b: Json)
    ensures ReadAt(Run(Twins(key, a), [Set(0, key, b, true)], {}), 1, key, {}) == Some(b)
  {
    var tr := [Set(0, key, b, true)];
    assert tr[..0] == [];
    assert Run(Twins(key, a), tr[..0], {}) == Twins(key, a);
  }

  /** A value from elsewhere is in Redis: instance 1, which has none, reads it only after instance 0 did. */
  lemma ReadingDisturbsTheTwin(key: string, a: Json, b: Json)
    ensures var w := Twins(key, a).(store := map[key := Encoded(b)]);
            && ReadAt(w, 1, key, {0}) == Some(a)
            && ReadAt(Run(w, [Get(0, key)], {0}), 1, key, {0}) == Some(b)
  {
    var w := Twins(key, a).(store := map[key := Encoded(b)]);
    var tr := [Get(0, key)];
    assert tr[..0] == [];
    assert Run(w, tr[..0], {0}) == w;
  }
}
