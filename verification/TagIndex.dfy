/** Tags of chats and the garbage-collected table of tag rows. */
module TagIndex {
  import opened Prelude

  // ---------- Tag ids ----------

  function Underscored(name: string): (r: string)
    ensures |r| == |name| && forall i | 0 <= i < |name| :: r[i] == if name[i] == ' ' then '_' else name[i]
  {
    seq(|name|, i requires 0 <= i < |name| => if name[i] == ' ' then '_' else name[i])
  }

  function TagId(name: string): string { Lower(Underscored(name)) }

  /** Character by character: a space becomes an underscore, a capital A to Z its small letter, the rest stays. */
  lemma TagIdCharacters(name: string, i: nat)
    requires i < |name|
    ensures |TagId(name)| == |name|
    ensures TagId(name)[i] == if name[i] == ' ' then '_'
                              else if 'A' <= name[i] <= 'Z' then (name[i] as int - 'A' as int + 'a' as int) as char
                              else name[i]
  {
  }

  /** An id is its own id, so counting by id and counting by name agree. */
  lemma TagIdIsStable(name: string)
    ensures TagId(TagId(name)) == TagId(name)
  {
  }

  // ---------- Tables ----------

  /** The tag list of a chat; its order and repetitions decide nothing. */
  datatype Chat = Chat(userId: string, archived: bool, tags: set<string>)

  datatype TagKey = TagKey(id: string, userId: string)

  /** Names by primary key. */
  type Tags = map<TagKey, string>

  datatype World = World(chats: map<string, Chat>, tags: Tags)

  /** The non-archived chats of the user with the tag. */
  function Tagged(chats: map<string, Chat>, userId: string, id: string): set<string>
  {
    set c | c in chats && Counted(chats[c], userId) && id in chats[c].tags
  }

  /** Whether the chat's tags are among those counted for the user. */
  predicate Counted(chat: Chat, userId: string) { chat.userId == userId && !chat.archived }

  /** The tags of the user's non-archived chats. */
  function LiveTags(chats: map<string, Chat>, userId: string): set<string>
  {
    set c, id | c in chats && Counted(chats[c], userId) && id in chats[c].tags :: id
  }

  function RowIds(tags: Tags, userId: string): set<string> { set k | k in tags && k.userId == userId :: k.id }

  // ---------- ensure_tags_exist ----------

  /** The names whose tag has no row yet. */
  function NewNames(tags: Tags, names: seq<string>, userId: string): seq<string>
  {
    if names == [] then [] else
      var rest := NewNames(tags, names[..|names| - 1], userId);
      if TagKey(TagId(names[|names| - 1]), userId) in tags then rest else rest + [names[|names| - 1]]
  }

  predicate DistinctIds(names: seq<string>)
  {
    forall i, j | 0 <= i < j < |names| :: TagId(names[i]) != TagId(names[j])
  }

  function IdsOf(names: seq<string>): set<string> { set n | n in names :: TagId(n) }

  function Added(tags: Tags, names: seq<string>, userId: string): Tags
  {
    if names == [] then tags else
      Added(tags, names[..|names| - 1], userId)[TagKey(TagId(names[|names| - 1]), userId) := names[|names| - 1]]
  }

  lemma {:induction false} AddedRows(tags: Tags, names: seq<string>, userId: string, k: TagKey)
    ensures k in Added(tags, names, userId) <==> k in tags || (k.userId == userId && k.id in IdsOf(names))
  {
    if names != [] {
      AddedRows(tags, names[..|names| - 1], userId, k);
      assert names == names[..|names| - 1] + [names[|names| - 1]];
    }
  }

  lemma {:induction false} NewNamesMembers(tags: Tags, names: seq<string>, userId: string)
    ensures forall n :: n in NewNames(tags, names, userId) <==> n in names && TagKey(TagId(n), userId) !in tags
  {
    if names != [] {
      NewNamesMembers(tags, names[..|names| - 1], userId);
      assert names == names[..|names| - 1] + [names[|names| - 1]];
    }
  }

  /** All new rows in one commit, or none when two of them have one id. */
  function Ensured(tags: Tags, names: seq<string>, userId: string): Tags
  {
    var news := NewNames(tags, names, userId);
    if DistinctIds(news) then Added(tags, news, userId) else tags
  }

  lemma EnsuredRows(tags: Tags, names: seq<string>, userId: string, k: TagKey)
    requires DistinctIds(NewNames(tags, names, userId))
    ensures k in Ensured(tags, names, userId) <==> k in tags || (k.userId == userId && k.id in IdsOf(names))
  {
    var news := NewNames(tags, names, userId);
    AddedRows(tags, news, userId, k);
    NewNamesMembers(tags, names, userId);
    if k.userId == userId && k.id in IdsOf(names) && k !in tags {
      var n :| n in names && TagId(n) == k.id;
      assert n in news;
    }
  }

  lemma {:induction false} AddedNames(tags: Tags, names: seq<string>, userId: string, k: TagKey)
    requires k in Added(tags, names, userId)
    ensures if k.userId == userId && k.id in IdsOf(names) then TagId(Added(tags, names, userId)[k]) == k.id
            else k in tags && Added(tags, names, userId)[k] == tags[k]
  {
    AddedRows(tags, names, userId, k);
    if names != [] {
      var before, last := names[..|names| - 1], names[|names| - 1];
      assert names == before + [last];
      assert IdsOf(names) == IdsOf(before) + {TagId(last)};
      if TagKey(TagId(last), userId) != k { AddedNames(tags, before, userId, k); }
    }
  }

  /** An existing row keeps its name; a new one gets a name that normalizes to its id. */
  lemma EnsuredKeepsNames(tags: Tags, names: seq<string>, userId: string, k: TagKey)
    requires k in Ensured(tags, names, userId)
    ensures if k in tags then Ensured(tags, names, userId)[k] == tags[k]
            else TagId(Ensured(tags, names, userId)[k]) == k.id
  {
    var news := NewNames(tags, names, userId);
    if DistinctIds(news) {
      NewNamesMembers(tags, names, userId);
      AddedNames(tags, news, userId, k);
      assert forall n | n in news :: TagKey(TagId(n), userId) !in tags;
    }
  }

  // ---------- delete_orphan_tags_for_user ----------

  /** The count goes by the normalized id, the delete by the id as given. */
  predicate IsOrphan(chats: map<string, Chat>, userId: string, id: string, threshold: nat)
  {
    |Tagged(chats, userId, TagId(id))| <= threshold
  }

  function OrphansDeleted(w: World, ids: set<string>, userId: string, threshold: nat): Tags
  {
    map k | k in w.tags && !(k.userId == userId && k.id in ids && IsOrphan(w.chats, userId, k.id, threshold)) ::
      w.tags[k]
  }

  // ---------- What each operation does ----------

  function WithTags(chats: map<string, Chat>, c: string, tags: set<string>): map<string, Chat>
    requires c in chats
  {
    chats[c := chats[c].(tags := tags)]
  }

  /** Names that normalize to "none" are dropped. */
  function Kept(names: seq<string>): seq<string>
  {
    if names == [] then [] else
      Kept(names[..|names| - 1]) + if TagId(names[|names| - 1]) == "none" then [] else [names[|names| - 1]]
  }

  /** The chat is written first; a failing row insert then ends the call. */
  function TagsUpdated(w: World, c: string, names: seq<string>, userId: string): World
  {
    if c !in w.chats then w else
      var news := Kept(names);
      var w1 := World(WithTags(w.chats, c, IdsOf(news)), Ensured(w.tags, news, userId));
      if !DistinctIds(NewNames(w.tags, news, userId)) then w1
      else w1.(tags := OrphansDeleted(w1, w.chats[c].tags - IdsOf(news), userId, 0))
  }

  /** The row comes first, whether or not the chat exists. */
  function TagAdded(w: World, c: string, userId: string, name: string): World
  {
    World(if c in w.chats then WithTags(w.chats, c, w.chats[c].tags + {TagId(name)}) else w.chats,
          Ensured(w.tags, [name], userId))
  }

  function TagRemoved(w: World, c: string, userId: string, name: string): World
  {
    if c !in w.chats then w else
      var w1 := w.(chats := WithTags(w.chats, c, w.chats[c].tags - {TagId(name)}));
      if |Tagged(w1.chats, userId, TagId(name))| == 0 then w1.(tags := w1.tags - {TagKey(TagId(name), userId)}) else w1
  }

  /** Tag ids in some order, used as names when a chat comes back from the archive. */
  function ArchiveToggled(w: World, c: string, userId: string, order: seq<string>): World
  {
    if c !in w.chats then w else
      var chat := w.chats[c].(archived := !w.chats[c].archived);
      var w1 := w.(chats := w.chats[c := chat]);
      if chat.archived then w1.(tags := OrphansDeleted(w1, chat.tags, userId, 0))
      else w1.(tags := Ensured(w1.tags, order, userId))
  }

  /** Orphans are looked for while the chat still exists, so one reference is allowed. */
  function ChatDeleted(w: World, c: string, userId: string): World
  {
    if c !in w.chats then w else
      World(w.chats - {c}, OrphansDeleted(w, w.chats[c].tags, userId, 1))
  }

  class TagStore {
    var chats: map<string, Chat>
    var tags: Tags

    constructor (w: World)
      ensures Now() == w
    {
      chats, tags := w.chats, w.tags;
    }

    function Now(): World
      reads this
    {
      World(chats, tags)
    }

    method EnsureTagsExist(names: seq<string>, userId: string) returns (ok: bool)
      modifies this`tags
      ensures ok <==> DistinctIds(NewNames(old(tags), names, userId))
      ensures tags == Ensured(old(tags), names, userId)
    {
      var news := NewNames(tags, names, userId);
      ok := DistinctIds(news);
      if ok { tags := Added(tags, news, userId); }
    }

    method DeleteOrphanTagsForUser(ids: set<string>, userId: string, threshold: nat)
      modifies this`tags
      ensures tags == OrphansDeleted(old(Now()), ids, userId, threshold)
    {
      var rest, orphans := ids, {};
      while rest != {}
        invariant rest <= ids
        invariant orphans == set id | id in ids - rest && IsOrphan(chats, userId, id, threshold)
        decreases rest
      {
        var id :| id in rest;
        rest := rest - {id};
        if |Tagged(chats, userId, TagId(id))| <= threshold { orphans := orphans + {id}; }
      }
      tags := map k | k in tags && !(k.userId == userId && k.id in orphans) :: tags[k];
    }

    /** False when the insert of the new rows raised. */
    method UpdateChatTags(c: string, names: seq<string>, userId: string) returns (ok: bool)
      modifies this
      ensures Now() == TagsUpdated(old(Now()), c, names, userId)
      ensures ok <==> c !in old(chats) || DistinctIds(NewNames(old(tags), Kept(names), userId))
    {
      if c !in chats { return true; }
      var oldTags, news := chats[c].tags, [];
      for i := 0 to |names|
        invariant news == Kept(names[..i])
      {
        assert names[..i + 1][..i] == names[..i];
        if TagId(names[i]) != "none" { news := news + [names[i]]; }
      }
      assert names[..|names|] == names;
      chats := WithTags(chats, c, IdsOf(news));
      ok := EnsureTagsExist(news, userId);
      if !ok { return; }
      var removed := oldTags - IdsOf(news);
      if removed != {} {
        DeleteOrphanTagsForUser(removed, userId, 0);
      } else {
        assert tags == OrphansDeleted(Now(), removed, userId, 0);
      }
    }

    method AddChatTag(c: string, userId: string, name: string)
      modifies this
      ensures Now() == TagAdded(old(Now()), c, userId, name)
      ensures c in old(chats) ==> TagsBecame(old(chats), chats, c, old(chats)[c].tags + {TagId(name)})
      ensures TagKey(TagId(name), userId) in tags
    {
      AddedTag(Now(), c, userId, name);
      OneNameIsDistinct(tags, name, userId);
      var ok := EnsureTagsExist([name], userId);
      if c in chats {
        if TagId(name) !in chats[c].tags {
          chats := WithTags(chats, c, chats[c].tags + {TagId(name)});
        } else {
          assert chats[c].tags + {TagId(name)} == chats[c].tags;
          assert WithTags(chats, c, chats[c].tags + {TagId(name)}) == chats;
        }
      }
    }

    /** Takes one tag off a chat and its row away when no live chat has it any more. */
    method DeleteChatTag(c: string, userId: string, name: string)
      modifies this
      ensures Now() == TagRemoved(old(Now()), c, userId, name)
      ensures c in old(chats) ==> TagsBecame(old(chats), chats, c, old(chats)[c].tags - {TagId(name)})
      ensures c in old(chats) && Normal(old(chats)) && Consistent(old(Now()), userId) ==>
                (TagKey(TagId(name), userId) in tags <==> OtherCountedHas(old(chats), c, userId, TagId(name)))
      ensures forall k | k != TagKey(TagId(name), userId) ::
                (k in tags <==> k in old(tags)) && (k in tags ==> tags[k] == old(tags)[k])
    {
      RemovedTag(Now(), c, userId, name);
      if c in chats && Normal(chats) && Consistent(Now(), userId) { RemovedRowIff(Now(), c, userId, name); }
      if c !in chats { return; }
      chats := WithTags(chats, c, chats[c].tags - {TagId(name)});
      if |Tagged(chats, userId, TagId(name))| == 0 { tags := tags - {TagKey(TagId(name), userId)}; }
    }

    /** order lists the chat's tags as stored. */
    method ToggleArchive(c: string, userId: string, order: seq<string>)
      modifies this
      ensures Now() == ArchiveToggled(old(Now()), c, userId, order)
      ensures c in old(chats) ==>
                && chats.Keys == old(chats).Keys && (forall x | x in chats && x != c :: chats[x] == old(chats)[x])
                && chats[c] == Chat(old(chats)[c].userId, !old(chats)[c].archived, old(chats)[c].tags)
    {
      if c !in chats { return; }
      chats := chats[c := chats[c].(archived := !chats[c].archived)];
      if chats[c].archived {
        DeleteOrphanTagsForUser(chats[c].tags, userId, 0);
      } else {
        var ok := EnsureTagsExist(order, userId);
      }
    }

    method DeleteChat(c: string, userId: string)
      modifies this
      ensures Now() == ChatDeleted(old(Now()), c, userId)
      ensures chats.Keys == old(chats).Keys - {c} && forall x | x in chats :: chats[x] == old(chats)[x]
    {
      if c !in chats { return; }
      DeleteOrphanTagsForUser(chats[c].tags, userId, 1);
      chats := chats - {c};
    }
  }

  // ---------- What each operation leaves ----------

  /** Chat c has exactly these tags, its owner and flag as before, and every other chat is as before. */
  predicate TagsBecame(before: map<string, Chat>, after: map<string, Chat>, c: string, tags: set<string>)
    requires c in before
  {
    && after.Keys == before.Keys && (forall x | x in before && x != c :: after[x] == before[x])
    && after[c] == Chat(before[c].userId, before[c].archived, tags)
  }

  lemma {:induction false} KeptMembers(names: seq<string>, n: string)
    ensures n in Kept(names) <==> n in names && TagId(n) != "none"
  {
    if names != [] {
      KeptMembers(names[..|names| - 1], n);
      assert names == names[..|names| - 1] + [names[|names| - 1]];
    }
  }

  /** The chat gets the ids of the names other than "none", also when the insert of the rows raises. */
  lemma UpdatedChat(w: World, c: string, names: seq<string>, userId: string)
    ensures var v := TagsUpdated(w, c, names, userId);
            if c in w.chats
            then && TagsBecame(w.chats, v.chats, c, set n | n in names && TagId(n) != "none" :: TagId(n))
                 && (!DistinctIds(NewNames(w.tags, Kept(names), userId)) ==> v.tags == w.tags)
            else v == w
  {
    forall n ensures n in Kept(names) <==> n in names && TagId(n) != "none" { KeptMembers(names, n); }
    assert IdsOf(Kept(names)) == set n | n in names && TagId(n) != "none" :: TagId(n);
  }

  /** The chat, if there is one, gets the tag; the caller has its row, and every other row is as before. */
  lemma AddedTag(w: World, c: string, userId: string, name: string)
    ensures var v := TagAdded(w, c, userId, name);
            && (if c in w.chats then TagsBecame(w.chats, v.chats, c, w.chats[c].tags + {TagId(name)})
                else v.chats == w.chats)
            && TagKey(TagId(name), userId) in v.tags
            && (forall k | k in w.tags :: k in v.tags && v.tags[k] == w.tags[k])
            && (forall k | k in v.tags && k !in w.tags :: k == TagKey(TagId(name), userId) && v.tags[k] == name)
  {
    var k := TagKey(TagId(name), userId);
    assert [name][..0] == [];
    assert NewNames(w.tags, [name], userId) == if k in w.tags then [] else [name];
    assert Added(w.tags, [name], userId) == w.tags[k := name];
    assert DistinctIds(NewNames(w.tags, [name], userId));
    assert TagAdded(w, c, userId, name).tags == if k in w.tags then w.tags else w.tags[k := name];
  }

  /** The chat loses the tag and nothing else, and every row but the caller's row of the tag is as before. */
  lemma RemovedTag(w: World, c: string, userId: string, name: string)
    ensures var v := TagRemoved(w, c, userId, name);
            && (if c in w.chats then TagsBecame(w.chats, v.chats, c, w.chats[c].tags - {TagId(name)}) else v == w)
            && forall k | k != TagKey(TagId(name), userId) ::
                 (k in v.tags <==> k in w.tags) && (k in v.tags ==> v.tags[k] == w.tags[k])
  {
  }

  predicate OtherCountedHas(chats: map<string, Chat>, c: string, userId: string, id: string)
  {
    exists d | d in chats :: d != c && Counted(chats[d], userId) && id in chats[d].tags
  }

  /** From equal rows and references, the caller keeps the row exactly when another of their live chats has the tag. */
  lemma RemovedRowIff(w: World, c: string, userId: string, name: string)
    requires c in w.chats && Normal(w.chats) && Consistent(w, userId)
    ensures TagKey(TagId(name), userId) in TagRemoved(w, c, userId, name).tags
            <==> OtherCountedHas(w.chats, c, userId, TagId(name))
  {
    var v, id := TagRemoved(w, c, userId, name), TagId(name);
    RemoveKeepsConsistent(w, c, userId, name);
    TaggedAfter(w.chats, c, w.chats[c].(tags := w.chats[c].tags - {id}), userId, id);
    assert Tagged(v.chats, userId, id) == Tagged(w.chats, userId, id) - {c};
    if OtherCountedHas(w.chats, c, userId, id) {
      var d :| d in w.chats && d != c && Counted(w.chats[d], userId) && id in w.chats[d].tags;
      assert d in Tagged(v.chats, userId, id);
    } else {
      assert Tagged(v.chats, userId, id) == {};
    }
  }

  lemma OneNameIsDistinct(tags: Tags, name: string, userId: string)
    ensures DistinctIds(NewNames(tags, [name], userId))
  {
  }

  // ---------- Rows are exactly the referenced tags ----------

  /** Every stored tag is a normalized id, and a user's rows are the tags of that user's non-archived chats. */
  ghost predicate Consistent(w: World, userId: string)
  {
    forall id :: TagKey(id, userId) in w.tags <==> Tagged(w.chats, userId, id) != {}
  }

  predicate Normal(chats: map<string, Chat>)
  {
    forall c, id | c in chats && id in chats[c].tags :: TagId(id) == id
  }

  lemma OrphansDeletedRows(w: World, ids: set<string>, userId: string, threshold: nat, id: string)
    requires TagId(id) == id
    ensures TagKey(id, userId) in OrphansDeleted(w, ids, userId, threshold)
            <==> TagKey(id, userId) in w.tags && !(id in ids && |Tagged(w.chats, userId, id)| <= threshold)
  {
  }

  lemma TaggedAfter(chats: map<string, Chat>, c: string, chat: Chat, userId: string, id: string)
    requires c in chats ==> chats[c].userId == chat.userId
    ensures Tagged(chats[c := chat], userId, id)
            == Tagged(chats, userId, id) - {c}
               + if chat.userId == userId && !chat.archived && id in chat.tags then {c} else {}
  {
  }

  lemma IdsAreNormal(names: seq<string>)
    ensures forall id | id in IdsOf(names) :: TagId(id) == id
  {
  }

  /** A consistent table holds normalized ids only. */
  lemma RowsAreNormal(w: World, userId: string, id: string)
    requires Normal(w.chats) && Consistent(w, userId) && TagId(id) != id
    ensures Tagged(w.chats, userId, id) == {} && TagKey(id, userId) !in w.tags
  {
  }

  lemma UpdateKeepsRow(w: World, c: string, names: seq<string>, userId: string, id: string)
    requires Normal(w.chats) && Consistent(w, userId) && c in w.chats
    requires !Counted(w.chats[c], userId) ==> NewNames(w.tags, Kept(names), userId) == []
    requires DistinctIds(NewNames(w.tags, Kept(names), userId))
    ensures var v := TagsUpdated(w, c, names, userId);
            TagKey(id, userId) in v.tags <==> Tagged(v.chats, userId, id) != {}
  {
    var news := Kept(names);
    var w1 := World(WithTags(w.chats, c, IdsOf(news)), Ensured(w.tags, news, userId));
    TaggedAfter(w.chats, c, w.chats[c].(tags := IdsOf(news)), userId, id);
    EnsuredRows(w.tags, news, userId, TagKey(id, userId));
    if TagId(id) == id {
      OrphansDeletedRows(w1, w.chats[c].tags - IdsOf(news), userId, 0, id);
    } else {
      IdsAreNormal(news);
      RowsAreNormal(w, userId, id);
    }
  }

  /**
   What must hold for retagging to keep rows and references equal: on a counted chat no new tag id is given twice; on
   one that is archived or another user's there is no new tag, or the insert raises.
   */
  predicate UpdateIsSafe(w: World, chat: Chat, names: seq<string>, userId: string)
  {
    var missing := NewNames(w.tags, Kept(names), userId);
    if Counted(chat, userId) then DistinctIds(missing) else missing == [] || !DistinctIds(missing)
  }

  lemma {:induction false} UpdateConsistentIff(w: World, c: string, names: seq<string>, userId: string)
    requires Normal(w.chats) && Consistent(w, userId) && c in w.chats
    ensures Consistent(TagsUpdated(w, c, names, userId), userId) <==> UpdateIsSafe(w, w.chats[c], names, userId)
  {
    var v, missing := TagsUpdated(w, c, names, userId), NewNames(w.tags, Kept(names), userId);
    if !DistinctIds(missing) {
      RaisingUpdateConsistentIff(w, c, names, userId);
    } else if !Counted(w.chats[c], userId) && missing != [] {
      UncountedUpdateLeavesRow(w, c, names, userId);
    } else {
      forall id ensures TagKey(id, userId) in v.tags <==> Tagged(v.chats, userId, id) != {} {
        UpdateKeepsRow(w, c, names, userId, id);
      }
    }
  }

  /** After the raise the chat has its new tags and the rows are the old ones. */
  lemma RaisingUpdateConsistentIff(w: World, c: string, names: seq<string>, userId: string)
    requires Normal(w.chats) && Consistent(w, userId) && c in w.chats
    requires !DistinctIds(NewNames(w.tags, Kept(names), userId))
    ensures Consistent(TagsUpdated(w, c, names, userId), userId) <==> !Counted(w.chats[c], userId)
  {
    var v, missing := TagsUpdated(w, c, names, userId), NewNames(w.tags, Kept(names), userId);
    var after := w.chats[c].(tags := IdsOf(Kept(names)));
    if !Counted(w.chats[c], userId) {
      forall id ensures TagKey(id, userId) in v.tags <==> Tagged(v.chats, userId, id) != {} {
        TaggedAfter(w.chats, c, after, userId, id);
        assert c !in Tagged(w.chats, userId, id);
      }
    } else {
      var i, j :| 0 <= i < j < |missing| && TagId(missing[i]) == TagId(missing[j]);
      var id := TagId(missing[i]);
      NewNamesMembers(w.tags, Kept(names), userId);
      assert missing[i] in missing;
      TaggedAfter(w.chats, c, after, userId, id);
      assert c in Tagged(v.chats, userId, id);
    }
  }

  /** A new tag of a chat that is not counted gets a row that no counted chat references. */
  lemma UncountedUpdateLeavesRow(w: World, c: string, names: seq<string>, userId: string)
    requires Normal(w.chats) && Consistent(w, userId) && c in w.chats
    requires !Counted(w.chats[c], userId) && NewNames(w.tags, Kept(names), userId) != []
    requires DistinctIds(NewNames(w.tags, Kept(names), userId))
    ensures !Consistent(TagsUpdated(w, c, names, userId), userId)
  {
    var v, news := TagsUpdated(w, c, names, userId), Kept(names);
    var w1 := World(WithTags(w.chats, c, IdsOf(news)), Ensured(w.tags, news, userId));
    var name := NewNames(w.tags, news, userId)[0];
    NewNamesMembers(w.tags, news, userId);
    assert name in NewNames(w.tags, news, userId);
    var id := TagId(name);
    TagIdIsStable(name);
    EnsuredRows(w.tags, news, userId, TagKey(id, userId));
    OrphansDeletedRows(w1, w.chats[c].tags - IdsOf(news), userId, 0, id);
    assert TagKey(id, userId) in v.tags;
    TaggedAfter(w.chats, c, w.chats[c].(tags := IdsOf(news)), userId, id);
    assert Tagged(v.chats, userId, id) == {};
  }

  /** Adding a tag keeps them equal exactly when the chat is there and counted, or the row already was. */
  lemma AddConsistentIff(w: World, c: string, userId: string, name: string)
    requires Normal(w.chats) && Consistent(w, userId)
    ensures Consistent(TagAdded(w, c, userId, name), userId)
            <==> TagKey(TagId(name), userId) in w.tags || (c in w.chats && Counted(w.chats[c], userId))
  {
    var v, mine := TagAdded(w, c, userId, name), TagId(name);
    OneNameIsDistinct(w.tags, name, userId);
    assert IdsOf([name]) == {mine};
    forall id ensures TagKey(id, userId) in v.tags <==> TagKey(id, userId) in w.tags || id == mine {
      EnsuredRows(w.tags, [name], userId, TagKey(id, userId));
    }
    forall id ensures Tagged(v.chats, userId, id)
                      == Tagged(w.chats, userId, id)
                         + if c in w.chats && Counted(w.chats[c], userId) && id == mine then {c} else {}
    {
      if c in w.chats { TaggedAfter(w.chats, c, w.chats[c].(tags := w.chats[c].tags + {mine}), userId, id); }
    }
    if Consistent(v, userId) {
      assert TagKey(mine, userId) in v.tags;
      assert Tagged(v.chats, userId, mine) != {};
    }
  }

  lemma RemoveKeepsConsistent(w: World, c: string, userId: string, name: string)
    requires Normal(w.chats) && Consistent(w, userId) && c in w.chats
    ensures Consistent(TagRemoved(w, c, userId, name), userId)
  {
  }

  /**
   What must hold for archiving or restoring: archiving is always safe; restoring an own chat when no lost row is asked
   for twice, another user's when no row is asked for at all, or the insert raises.
   */
  predicate ToggleIsSafe(w: World, chat: Chat, order: seq<string>, userId: string)
  {
    var missing := NewNames(w.tags, order, userId);
    chat.archived ==>
      if chat.userId == userId then DistinctIds(missing) else missing == [] || !DistinctIds(missing)
  }

  lemma ToggleKeepsRow(w: World, c: string, userId: string, order: seq<string>, id: string)
    requires Normal(w.chats) && Consistent(w, userId) && c in w.chats && IdsOf(order) == w.chats[c].tags
    requires ToggleIsSafe(w, w.chats[c], order, userId)
    ensures var v := ArchiveToggled(w, c, userId, order);
            TagKey(id, userId) in v.tags <==> Tagged(v.chats, userId, id) != {}
  {
    var chat, missing := w.chats[c].(archived := !w.chats[c].archived), NewNames(w.tags, order, userId);
    var w1 := w.(chats := w.chats[c := chat]);
    TaggedAfter(w.chats, c, chat, userId, id);
    if TagId(id) != id {
      RowsAreNormal(w, userId, id);
      IdsAreNormal(order);
    }
    if chat.archived {
      if TagId(id) == id { OrphansDeletedRows(w1, chat.tags, userId, 0, id); }
    } else if chat.userId == userId {
      EnsuredRows(w.tags, order, userId, TagKey(id, userId));
    } else {
      assert Ensured(w.tags, order, userId) == w.tags;
    }
  }

  lemma {:induction false} ToggleConsistentIff(w: World, c: string, userId: string, order: seq<string>)
    requires Normal(w.chats) && Consistent(w, userId) && c in w.chats && IdsOf(order) == w.chats[c].tags
    ensures Consistent(ArchiveToggled(w, c, userId, order), userId) <==> ToggleIsSafe(w, w.chats[c], order, userId)
  {
    var v, missing := ArchiveToggled(w, c, userId, order), NewNames(w.tags, order, userId);
    if ToggleIsSafe(w, w.chats[c], order, userId) {
      forall id ensures TagKey(id, userId) in v.tags <==> Tagged(v.chats, userId, id) != {} {
        ToggleKeepsRow(w, c, userId, order, id);
      }
    } else {
      UnsafeRestoreDiffers(w, c, userId, order);
    }
  }

  /** A repeated lost row of an own chat stays lost; a new row for another user's chat has no reference. */
  lemma UnsafeRestoreDiffers(w: World, c: string, userId: string, order: seq<string>)
    requires Normal(w.chats) && Consistent(w, userId) && c in w.chats && IdsOf(order) == w.chats[c].tags
    requires !ToggleIsSafe(w, w.chats[c], order, userId)
    ensures !Consistent(ArchiveToggled(w, c, userId, order), userId)
  {
    var v, missing := ArchiveToggled(w, c, userId, order), NewNames(w.tags, order, userId);
    NewNamesMembers(w.tags, order, userId);
    var name := if w.chats[c].userId == userId
                then var i, j :| 0 <= i < j < |missing| && TagId(missing[i]) == TagId(missing[j]); missing[i]
                else missing[0];
    assert name in missing;
    TaggedAfter(w.chats, c, w.chats[c].(archived := false), userId, TagId(name));
    if w.chats[c].userId == userId {
      assert TagId(name) in IdsOf(order);
      assert c in Tagged(v.chats, userId, TagId(name));
    } else {
      EnsuredRows(w.tags, order, userId, TagKey(TagId(name), userId));
      assert TagKey(TagId(name), userId) in v.tags;
    }
  }

  lemma TaggedAfterDelete(chats: map<string, Chat>, c: string, userId: string, id: string)
    ensures Tagged(chats - {c}, userId, id) == Tagged(chats, userId, id) - {c}
  {
  }

  lemma DeleteKeepsRowIff(w: World, c: string, userId: string, id: string)
    requires Normal(w.chats) && Consistent(w, userId) && c in w.chats
    ensures var v := ChatDeleted(w, c, userId);
            (TagKey(id, userId) in v.tags <==> Tagged(v.chats, userId, id) != {})
            <==> Counted(w.chats[c], userId) || !(id in w.chats[c].tags && |Tagged(w.chats, userId, id)| == 1)
  {
    var s := Tagged(w.chats, userId, id);
    TaggedAfterDelete(w.chats, c, userId, id);
    if TagId(id) != id {
      RowsAreNormal(w, userId, id);
    } else {
      OrphansDeletedRows(w, w.chats[c].tags, userId, 1, id);
      if c in s && |s| <= 1 { SubsetSize({c}, s); assert s == {c}; }
      if c in s && |s| > 1 { assert s - {c} != {} by { assert |s - {c}| == |s| - 1; } }
      if c !in s { assert s - {c} == s; assert s != {} ==> |s| >= 1; }
    }
  }

  /**
   Deleting a counted chat keeps them equal; deleting an archived one, or as an administrator another user's, does
   exactly when none of its tags is on exactly one counted chat, for that chat's row would go too.
   */
  lemma DeleteConsistentIff(w: World, c: string, userId: string)
    requires Normal(w.chats) && Consistent(w, userId) && c in w.chats
    ensures Consistent(ChatDeleted(w, c, userId), userId)
            <==> Counted(w.chats[c], userId) || forall id | id in w.chats[c].tags :: |Tagged(w.chats, userId, id)| != 1
  {
    forall id ensures var v := ChatDeleted(w, c, userId);
                      (TagKey(id, userId) in v.tags <==> Tagged(v.chats, userId, id) != {})
                      <==> Counted(w.chats[c], userId)
                           || !(id in w.chats[c].tags && |Tagged(w.chats, userId, id)| == 1)
    {
      DeleteKeepsRowIff(w, c, userId, id);
    }
  }

  // ---------- Whole runs of one user's requests ----------

  datatype Event =
    | Update(c: string, names: seq<string>)
    | Add(c: string, name: string)
    | Remove(c: string, name: string)
    | Toggle(c: string, order: seq<string>)
    | Delete(c: string)

  function Step(w: World, e: Event, userId: string): World
  {
    match e
    case Update(c, names) => TagsUpdated(w, c, names, userId)
    case Add(c, name) => TagAdded(w, c, userId, name)
    case Remove(c, name) => TagRemoved(w, c, userId, name)
    case Toggle(c, order) => ArchiveToggled(w, c, userId, order)
    case Delete(c) => ChatDeleted(w, c, userId)
  }

  /** A toggle lists the chat's own tags; whose chat it is, the functions behind the requests do not ask. */
  predicate IsRequest(w: World, e: Event)
  {
    e.Toggle? && e.c in w.chats ==> IdsOf(e.order) == w.chats[e.c].tags
  }

  /** What must hold before the request for the caller's rows and references to stay equal. */
  predicate Safe(w: World, e: Event, userId: string)
  {
    if e.c !in w.chats then (e.Add? ==> TagKey(TagId(e.name), userId) in w.tags)
    else match e
      case Update(c, names) => UpdateIsSafe(w, w.chats[c], names, userId)
      case Add(c, name) => TagKey(TagId(name), userId) in w.tags || Counted(w.chats[c], userId)
      case Remove(_, _) => true
      case Toggle(c, order) => ToggleIsSafe(w, w.chats[c], order, userId)
      case Delete(c) =>
        Counted(w.chats[c], userId) || forall id | id in w.chats[c].tags :: |Tagged(w.chats, userId, id)| != 1
  }

  /** No request of any kind makes rows and references differ except where its own guard says so. */
  lemma StepConsistentIff(w: World, e: Event, userId: string)
    requires Normal(w.chats) && Consistent(w, userId) && IsRequest(w, e)
    ensures Consistent(Step(w, e, userId), userId) <==> Safe(w, e, userId)
  {
    if e.Add? {
      AddConsistentIff(w, e.c, userId, e.name);
    } else if e.c in w.chats {
      match e
      case Update(c, names) => UpdateConsistentIff(w, c, names, userId);
      case Remove(c, name) => RemoveKeepsConsistent(w, c, userId, name);
      case Toggle(c, order) => ToggleConsistentIff(w, c, userId, order);
      case Delete(c) => DeleteConsistentIff(w, c, userId);
    }
  }

  /** A row that stays keeps its name and a new one gets a name of its id; rows come and go for the caller only. */
  lemma StepKeepsNames(w: World, e: Event, userId: string, k: TagKey)
    ensures var v := Step(w, e, userId);
            && (k in v.tags && k in w.tags ==> v.tags[k] == w.tags[k])
            && (k in v.tags && k !in w.tags ==> TagId(v.tags[k]) == k.id)
            && ((k in v.tags) != (k in w.tags) ==> k.userId == userId)
  {
    if e.Update? { RowKept(w.tags, Kept(e.names), userId, k); }
    if e.Add? { RowKept(w.tags, [e.name], userId, k); }
    if e.Toggle? { RowKept(w.tags, e.order, userId, k); }
  }

  lemma RowKept(tags: Tags, names: seq<string>, userId: string, k: TagKey)
    ensures k in tags ==> k in Ensured(tags, names, userId)
    ensures k in Ensured(tags, names, userId) ==>
              if k in tags then Ensured(tags, names, userId)[k] == tags[k]
              else TagId(Ensured(tags, names, userId)[k]) == k.id && k.userId == userId
  {
    if DistinctIds(NewNames(tags, names, userId)) { EnsuredRows(tags, names, userId, k); }
    if k in Ensured(tags, names, userId) { EnsuredKeepsNames(tags, names, userId, k); }
  }

  /** A step rewrites one chat at most, to tags that are normalized or were there. */
  lemma StepKeepsNormal(w: World, e: Event, userId: string)
    requires Normal(w.chats)
    ensures Normal(Step(w, e, userId).chats)
  {
    forall c, id | c in Step(w, e, userId).chats && id in Step(w, e, userId).chats[c].tags ensures TagId(id) == id {
      StepKeepsNormalTag(w, e, userId, c, id);
    }
  }

  lemma StepKeepsNormalTag(w: World, e: Event, userId: string, c: string, id: string)
    requires Normal(w.chats) && c in Step(w, e, userId).chats && id in Step(w, e, userId).chats[c].tags
    ensures TagId(id) == id
  {
    if c !in w.chats || id !in w.chats[c].tags {
      if e.Update? { IdsAreNormal(Kept(e.names)); } else { TagIdIsStable(e.name); }
    }
  }

  /**
   A request never touches another user's rows. So that user's rows and references stay equal exactly when the request
   leaves the set of their live tags as it was, and in particular when the chat is not theirs.
   */
  lemma {:induction false} OthersConsistentIff(w: World, e: Event, userId: string, other: string)
    requires Consistent(w, other) && other != userId
    ensures Consistent(Step(w, e, userId), other)
            <==> LiveTags(Step(w, e, userId).chats, other) == LiveTags(w.chats, other)
    ensures (e.c in w.chats ==> w.chats[e.c].userId != other) ==> Consistent(Step(w, e, userId), other)
  {
    var v := Step(w, e, userId);
    forall id ensures TagKey(id, other) in v.tags <==> TagKey(id, other) in w.tags {
      if e.Update? { OtherRowsKept(w.tags, Kept(e.names), userId, TagKey(id, other)); }
      if e.Add? { OtherRowsKept(w.tags, [e.name], userId, TagKey(id, other)); }
      if e.Toggle? { OtherRowsKept(w.tags, e.order, userId, TagKey(id, other)); }
    }
    forall id ensures (id in LiveTags(v.chats, other) <==> Tagged(v.chats, other, id) != {})
                      && (id in LiveTags(w.chats, other) <==> Tagged(w.chats, other, id) != {})
    {
      LiveTagsMember(v.chats, other, id);
      LiveTagsMember(w.chats, other, id);
    }
    if e.c in w.chats ==> w.chats[e.c].userId != other {
      forall id ensures Tagged(v.chats, other, id) == Tagged(w.chats, other, id) {
        OtherReferencesKept(w, e, userId, other, id);
      }
    }
  }

  lemma LiveTagsMember(chats: map<string, Chat>, userId: string, id: string)
    ensures id in LiveTags(chats, userId) <==> Tagged(chats, userId, id) != {}
  {
    if c :| c in Tagged(chats, userId, id) { assert id in LiveTags(chats, userId); }
    if id in LiveTags(chats, userId) {
      var c :| c in chats && Counted(chats[c], userId) && id in chats[c].tags;
      assert c in Tagged(chats, userId, id);
    }
  }

  lemma OtherReferencesKept(w: World, e: Event, userId: string, other: string, id: string)
    requires e.c in w.chats ==> w.chats[e.c].userId != other
    ensures Tagged(Step(w, e, userId).chats, other, id) == Tagged(w.chats, other, id)
  {
  }

  lemma OtherRowsKept(tags: Tags, names: seq<string>, userId: string, k: TagKey)
    requires k.userId != userId
    ensures k in Ensured(tags, names, userId) <==> k in tags
  {
    if DistinctIds(NewNames(tags, names, userId)) { EnsuredRows(tags, names, userId, k); }
  }

  function Run(w: World, tr: seq<Event>, userId: string): World
  {
    if tr == [] then w else Step(Run(w, tr[..|tr| - 1], userId), tr[|tr| - 1], userId)
  }

  predicate SafeRun(w: World, tr: seq<Event>, userId: string)
  {
    tr == [] || (var before, e := tr[..|tr| - 1], tr[|tr| - 1];
                 && SafeRun(w, before, userId)
                 && IsRequest(Run(w, before, userId), e) && Safe(Run(w, before, userId), e, userId))
  }

  /** Over every safe run no referenced tag loses its row and no row outlives its last reference. */
  lemma {:induction false} SafeRunsStayConsistent(w: World, tr: seq<Event>, userId: string)
    requires Normal(w.chats) && Consistent(w, userId) && SafeRun(w, tr, userId)
    ensures var v := Run(w, tr, userId);
            && Normal(v.chats) && Consistent(v, userId)
            && RowIds(v.tags, userId) == LiveTags(v.chats, userId)
  {
    var v := Run(w, tr, userId);
    if tr != [] {
      var before, e := tr[..|tr| - 1], tr[|tr| - 1];
      SafeRunsStayConsistent(w, before, userId);
      StepConsistentIff(Run(w, before, userId), e, userId);
      StepKeepsNormal(Run(w, before, userId), e, userId);
    }
    RowsAreReferences(v, userId);
  }

  lemma RowsAreReferences(v: World, userId: string)
    requires Consistent(v, userId)
    ensures RowIds(v.tags, userId) == LiveTags(v.chats, userId)
  {
    forall id ensures id in RowIds(v.tags, userId) <==> id in LiveTags(v.chats, userId) {
      LiveTagsMember(v.chats, userId, id);
      if id in RowIds(v.tags, userId) { assert TagKey(id, userId) in v.tags; }
      if TagKey(id, userId) in v.tags { assert TagKey(id, userId).id in RowIds(v.tags, userId); }
    }
  }

  // ---------- Requests that make rows and references differ ----------

  /** A user with one chat "c", with these tags, and rows for none of them. */
  function OneChat(userId: string, archived: bool, tags: set<string>): World
  {
    World(map["c" := Chat(userId, archived, tags)], map[])
  }

  lemma TwoNames(userId: string, a: string, b: string)
    ensures NewNames(map[], [a], userId) == [a] && NewNames(map[], [a, b], userId) == [a, b]
    ensures TagId(a) != "none" ==> Kept([a]) == [a]
    ensures TagId(a) != "none" && TagId(b) != "none" ==> Kept([a, b]) == [a, b]
  {
    assert [a, b][..1] == [a] && [a][..0] == [];
  }

  /** Two names of one new tag: the chat has it and it has no row. */
  lemma RetaggingWithTwinNames(userId: string, a: string, b: string)
    requires TagId(a) == TagId(b) != "none"
    ensures Consistent(OneChat(userId, false, {}), userId)
    ensures !Consistent(TagsUpdated(OneChat(userId, false, {}), "c", [a, b], userId), userId)
  {
    TwoNames(userId, a, b);
    assert TagId([a, b][0]) == TagId([a, b][1]);
    UpdateConsistentIff(OneChat(userId, false, {}), "c", [a, b], userId);
  }

  /** "A" and "a", for example. */
  lemma RetaggingWithCapital(userId: string)
    ensures !Consistent(TagsUpdated(OneChat(userId, false, {}), "c", ["A", "a"], userId), userId)
  {
    assert TagId("A")[0] == 'a' && TagId("a")[0] == 'a';
    assert TagId("A") == TagId("a") != "none";
    RetaggingWithTwinNames(userId, "A", "a");
  }

  /** A new tag for an archived chat: a row without a reference. */
  lemma RetaggingAnArchivedChat(userId: string, a: string)
    requires TagId(a) != "none"
    ensures Consistent(OneChat(userId, true, {}), userId)
    ensures !Consistent(TagsUpdated(OneChat(userId, true, {}), "c", [a], userId), userId)
  {
    TwoNames(userId, a, a);
    UpdateConsistentIff(OneChat(userId, true, {}), "c", [a], userId);
  }

  /** A tag for a chat that does not exist: a row without a reference. */
  lemma TaggingAMissingChat(userId: string, a: string)
    ensures Consistent(World(map[], map[]), userId)
    ensures !Consistent(TagAdded(World(map[], map[]), "c", userId, a), userId)
  {
    AddConsistentIff(World(map[], map[]), "c", userId, a);
  }

  /** A restored chat whose stored list repeats a tag: the chat has it and it has no row. */
  lemma RestoringATwinTag(userId: string, id: string)
    requires TagId(id) == id
    ensures Consistent(OneChat(userId, true, {id}), userId)
    ensures !Consistent(ArchiveToggled(OneChat(userId, true, {id}), "c", userId, [id, id]), userId)
  {
    TwoNames(userId, id, id);
    assert IdsOf([id, id]) == {id} by { assert id in [id, id]; }
    assert TagId([id, id][0]) == TagId([id, id][1]);
    ToggleConsistentIff(OneChat(userId, true, {id}), "c", userId, [id, id]);
  }

  /** An archived chat and a live one share a tag. */
  function SharedTag(userId: string, id: string): World
  {
    World(map["c" := Chat(userId, true, {id}), "d" := Chat(userId, false, {id})], map[TagKey(id, userId) := id])
  }

  /** Deleting the archived chat takes the row the live one still needs. */
  lemma DeletingAnArchivedChat(userId: string, id: string)
    requires TagId(id) == id
    ensures Consistent(SharedTag(userId, id), userId)
    ensures !Consistent(ChatDeleted(SharedTag(userId, id), "c", userId), userId)
  {
    var w := SharedTag(userId, id);
    assert Tagged(w.chats, userId, id) == {"d"};
    forall x ensures TagKey(x, userId) in w.tags <==> Tagged(w.chats, userId, x) != {} {
      if x != id { assert Tagged(w.chats, userId, x) == {}; }
    }
    DeleteConsistentIff(w, "c", userId);
  }

  /** A tag for another user's chat: a row of the caller without a reference, a reference of the owner without a row. */
  lemma TaggingAForeignChat(owner: string, userId: string, a: string)
    requires owner != userId
    ensures Consistent(OneChat(owner, false, {}), userId) && Consistent(OneChat(owner, false, {}), owner)
    ensures var v := TagAdded(OneChat(owner, false, {}), "c", userId, a);
            !Consistent(v, userId) && !Consistent(v, owner)
  {
    var w, e := OneChat(owner, false, {}), Add("c", a);
    var v := Step(w, e, userId);
    AddConsistentIff(w, "c", userId, a);
    OthersConsistentIff(w, e, userId, owner);
    LiveTagsMember(v.chats, owner, TagId(a));
    LiveTagsMember(w.chats, owner, TagId(a));
    assert "c" in Tagged(v.chats, owner, TagId(a));
    assert Tagged(w.chats, owner, TagId(a)) == {};
  }
}
