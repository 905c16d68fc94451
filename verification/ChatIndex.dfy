/** Chat messages live in each chat's JSON blob and, dual-written, in one row each of an index table. */
module ChatIndex {
  import opened Prelude
  import opened Json

  // ---------- Cleaning for the database ----------

  function CleanText(s: string): string
  {
    if s == [] then [] else (if s[0] == '\0' then [] else [s[0]]) + CleanText(s[1..])
  }

  /** Removes null characters from every text inside; keys are left alone. */
  function Clean(j: Json): Json
  {
    match j
    case Text(s) => Text(CleanText(s))
    case List(items) => List(seq(|items|, i requires 0 <= i < |items| => Clean(items[i])))
    case Dict(m) => Dict(map k | k in m :: Clean(m[k]))
    case _ => j
  }

  predicate NullFree(j: Json)
  {
    match j
    case Text(s) => forall i | 0 <= i < |s| :: s[i] != '\0'
    case List(items) => forall i | 0 <= i < |items| :: NullFree(items[i])
    case Dict(m) => forall k | k in m :: NullFree(m[k])
    case _ => true
  }

  lemma {:induction false} CleanTextFixes(s: string)
    ensures CleanText(s) == s <==> forall i | 0 <= i < |s| :: s[i] != '\0'
    ensures |CleanText(s)| <= |s|
    ensures forall i | 0 <= i < |CleanText(s)| :: CleanText(s)[i] != '\0'
  {
    if s != [] {
      CleanTextFixes(s[1..]);
      assert s == [s[0]] + s[1..];
      if s[0] != '\0' && CleanText(s) == s { assert CleanText(s)[1..] == s[1..]; }
    }
  }

  /** Cleaning removes all null characters and changes nothing else. */
  lemma {:induction false} CleanFixesNullFree(j: Json)
    ensures NullFree(Clean(j)) && (Clean(j) == j <==> NullFree(j))
  {
    match j
    case Text(s) => CleanTextFixes(s);
    case List(items) =>
      var c := Clean(j).items;
      forall i | 0 <= i < |items| ensures NullFree(c[i]) && (c[i] == items[i] <==> NullFree(items[i])) {
        CleanFixesNullFree(items[i]);
      }
      if NullFree(j) { assert c == items; }
    case Dict(m) =>
      var c := Clean(j).m;
      forall k | k in m ensures NullFree(c[k]) && (c[k] == m[k] <==> NullFree(m[k])) { CleanFixesNullFree(m[k]); }
      if NullFree(j) { assert c == m; }
    case _ =>
  }

  lemma CleanIdempotent(j: Json)
    ensures Clean(Clean(j)) == Clean(j)
  {
    CleanFixesNullFree(j);
    CleanFixesNullFree(Clean(j));
  }

  // ---------- Messages and rows ----------

  type Message = map<string, Json>

  function Get(d: Message, key: string, default: Json): Json { if key in d then d[key] else default }

  predicate Truthy(j: Json)
  {
    match j
    case Null => false
    case Bool(b) => b
    case Num(n) => n != 0
    case Text(s) => s != ""
    case List(items) => items != []
    case Dict(m) => m != map[]
  }

  function Either(d: Message, key: string, other: string): Json
  {
    if Truthy(Get(d, key, Null)) then d[key] else Get(d, other, Null)
  }

  function Parent(d: Message): Json { Either(d, "parent_id", "parentId") }

  /** Reading the usage raises when usage is falsy and info is truthy but no dictionary. */
  predicate Unreadable(d: Message)
  {
    var info := Get(d, "info", Null);
    !Truthy(Get(d, "usage", Null)) && Truthy(info) && !info.Dict?
  }

  /** Direct usage first, then usage inside info. */
  function Usage(d: Message): Json
    requires !Unreadable(d)
  {
    var u, info := Get(d, "usage", Null), Get(d, "info", Null);
    if Truthy(u) then u else if Truthy(info) then Get(info.m, "usage", Null) else Null
  }

  datatype Row = Row(chatId: string, userId: string, role: Json, parentId: Json, content: Json, output: Json,
                     modelId: Json, files: Json, sources: Json, embeds: Json, done: Json, statusHistory: Json,
                     error: Json, usage: Json, createdAt: int, updatedAt: int)

  /** The message as an insert stores it: a null done is left to the default of its column, which is True. */
  function Defaulted(d: Message): Message
  {
    if "done" in d && d["done"] == Null then d["done" := Bool(true)] else d
  }

  function NewRow(chatId: string, userId: string, d: Message, now: int): Row
    requires !Unreadable(d)
  {
    Row(chatId, userId, Get(d, "role", Text("user")), Parent(d), Get(d, "content", Null), Get(d, "output", Null),
        Either(d, "model_id", "model"), Get(d, "files", Null), Get(d, "sources", Null), Get(d, "embeds", Null),
        Get(Defaulted(d), "done", Bool(true)), Either(d, "status_history", "statusHistory"), Get(d, "error", Null),
        Usage(d),
        if "timestamp" in d && d["timestamp"].Num? then d["timestamp"].n else now, now)
  }

  /** Only the keys present in the data are written; parentId alone does not move the parent. */
  function UpdatedRow(r: Row, d: Message, now: int): Row
    requires !Unreadable(d)
  {
    r.(role := Get(d, "role", r.role),
       parentId := if "parent_id" in d then Parent(d) else r.parentId,
       content := Get(d, "content", r.content),
       output := Get(d, "output", r.output),
       modelId := if "model_id" in d || "model" in d then Either(d, "model_id", "model") else r.modelId,
       files := Get(d, "files", r.files),
       sources := Get(d, "sources", r.sources),
       embeds := Get(d, "embeds", r.embeds),
       done := Get(d, "done", r.done),
       statusHistory := if "status_history" in d || "statusHistory" in d
                        then Either(d, "status_history", "statusHistory") else r.statusHistory,
       error := Get(d, "error", r.error),
       usage := if Truthy(Usage(d)) then Usage(d) else r.usage,
       updatedAt := now)
  }

  // ---------- Suppression of blank duplicates ----------

  predicate IsSpace(c: char) { c == ' ' || '\t' <= c <= '\r' || '\U{1c}' <= c <= '\U{1f}' }

  predicate IsBlank(content: Json)
  {
    match content
    case Null => true
    case Text(s) => forall i | 0 <= i < |s| :: IsSpace(s[i])
    case List(items) => items == []
    case _ => false
  }

  predicate IsEmptyFinalAssistant(d: Message)
  {
    && Get(d, "role", Null) == Text("assistant")
    && Get(d, "done", Bool(true)) == Bool(true)
    && IsBlank(Get(d, "content", Null))
    && !Truthy(Get(d, "output", Null))
  }

  type Rows = map<string, Row>

  /** nullsVisible: whether a stored None counts as present in the column, which depends on the driver. */
  function Siblings(rows: Rows, chatId: string, parent: Json, nullsVisible: bool): set<string>
  {
    set id | id in rows && rows[id].chatId == chatId && rows[id].parentId == parent
             && rows[id].role == Text("assistant") && (nullsVisible || rows[id].content != Null)
  }

  predicate IsLatest(rows: Rows, ids: set<string>, x: string)
    requires ids <= rows.Keys
  {
    x in ids && forall id | id in ids :: rows[id].createdAt <= rows[x].createdAt
  }

  /** What the sibling query may return: one with the latest created_at, or nothing when there is none. */
  predicate SiblingFound(rows: Rows, chatId: string, parent: Json, nullsVisible: bool, s: Option<string>)
  {
    var ids := Siblings(rows, chatId, parent, nullsVisible);
    if s.None? then ids == {} else IsLatest(rows, ids, s.value)
  }

  predicate Suppresses(rows: Rows, d: Message, sibling: Option<string>)
  {
    && IsEmptyFinalAssistant(d) && Truthy(Parent(d))
    && sibling.Some? && sibling.value in rows && !IsBlank(rows[sibling.value].content)
  }

  function CompositeId(chatId: string, messageId: string): string { chatId + "-" + messageId }

  /** What became of one index write: stored, dropped as a blank duplicate, or ended by the exception. */
  datatype Outcome = Written | Suppressed | Failed

  function OutcomeOf(rows: Rows, id: string, d: Message, sibling: Option<string>): Outcome
  {
    if id !in rows && Suppresses(rows, d, sibling) then Suppressed
    else if Unreadable(d) then Failed
    else Written
  }

  function Upserted(rows: Rows, chatId: string, messageId: string, userId: string, d: Message, sibling: Option<string>,
                    now: int): Rows
  {
    var id := CompositeId(chatId, messageId);
    if OutcomeOf(rows, id, d, sibling) != Written then rows
    else rows[id := if id in rows then UpdatedRow(rows[id], d, now) else NewRow(chatId, userId, d, now)]
  }

  // ---------- The blob ----------

  datatype Chat = Chat(userId: string, messages: map<string, Message>, currentId: Option<string>)

  function CleanMessage(d: Message): Message { map k | k in d :: Clean(d[k]) }

  function CleanMessages(ms: map<string, Message>): map<string, Message> { map k | k in ms :: CleanMessage(ms[k]) }

  /** The chat as it is loaded: cleaned first. */
  function Loaded(c: Chat): Chat
  {
    Chat(c.userId, CleanMessages(c.messages),
         match c.currentId case None => None case Some(id) => Some(CleanText(id)))
  }

  /** The stored message with the incoming keys on top; a text content is cleaned on the way in. */
  function Merged(c: Chat, messageId: string, message: Message): Message
  {
    var m := if "content" in message && message["content"].Text?
             then message["content" := Text(CleanText(message["content"].s))] else message;
    if messageId in c.messages then c.messages[messageId] + m else m
  }

  function WithMessage(c: Chat, messageId: string, d: Message): Chat
  {
    Chat(c.userId, CleanMessages(c.messages[messageId := d]), Some(CleanText(messageId)))
  }

  class ChatStore {
    var chats: map<string, Chat>
    var rows: Rows
    const nullsVisible: bool

    constructor (chats: map<string, Chat>, nullsVisible: bool)
      ensures this.chats == chats && this.nullsVisible == nullsVisible && rows == map[]
    {
      this.chats, this.nullsVisible, rows := chats, nullsVisible, map[];
    }

    /** The index write; a raise leaves the table as it was. */
    method UpsertRow(messageId: string, chatId: string, userId: string, d: Message, now: int)
        returns (raised: bool, sibling: Option<string>)
      modifies this`rows
      ensures rows == Upserted(old(rows), chatId, messageId, userId, d, sibling, now)
      ensures SiblingFound(old(rows), chatId, Parent(d), nullsVisible, sibling)
      ensures raised <==> OutcomeOf(old(rows), CompositeId(chatId, messageId), d, sibling) == Failed
    {
      var id := CompositeId(chatId, messageId);
      var ids := Siblings(rows, chatId, Parent(d), nullsVisible);
      raised, sibling := false, None;
      if ids != {} {
        LatestExists(rows, ids);
        var s :| s in ids && IsLatest(rows, ids, s);
        sibling := Some(s);
      }
      if id in rows {
        if Unreadable(d) { return true, sibling; }
        rows := rows[id := UpdatedRow(rows[id], d, now)];
      } else if !Suppresses(rows, d, sibling) {
        if Unreadable(d) { return true, sibling; }
        rows := rows[id := NewRow(chatId, userId, d, now)];
      }
    }

    /** The blob merge with its dual write, whose raise is swallowed; false when the chat does not exist. */
    method UpsertMessage(chatId: string, messageId: string, message: Message, now: int)
        returns (ok: bool, ghost sibling: Option<string>)
      modifies this
      ensures ok <==> chatId in old(chats)
      ensures !ok ==> chats == old(chats) && rows == old(rows)
      ensures ok ==>
                var chat := Loaded(old(chats)[chatId]);
                var d := Merged(chat, messageId, message);
                && chats == old(chats)[chatId := WithMessage(chat, messageId, d)]
                && rows == Upserted(old(rows), chatId, messageId, chat.userId, d, sibling, now)
                && SiblingFound(old(rows), chatId, Parent(d), nullsVisible, sibling)
    {
      sibling := None;
      if chatId !in chats { return false, None; }
      var chat := Loaded(chats[chatId]);
      var d := Merged(chat, messageId, message);
      var raised;
      raised, sibling := UpsertRow(messageId, chatId, chat.userId, d, now);
      chats := chats[chatId := WithMessage(chat, messageId, d)];
      ok := true;
    }
  }

  lemma {:induction false} LatestExists(rows: Rows, ids: set<string>)
    requires ids <= rows.Keys && ids != {}
    ensures exists x :: x in ids && IsLatest(rows, ids, x)
    decreases ids
  {
    var x :| x in ids;
    if ids == {x} {
      assert IsLatest(rows, ids, x);
    } else {
      LatestExists(rows, ids - {x});
      var y :| y in ids - {x} && IsLatest(rows, ids - {x}, y);
      assert IsLatest(rows, ids, if rows[y].createdAt <= rows[x].createdAt then x else y);
    }
  }

  // ---------- Rows on the keys of a message ----------

  /** Falsy are None, False, zero and the empty text, list and dictionary, and nothing else. */
  lemma TruthyIff(j: Json)
    ensures Truthy(j) <==> j !in {Null, Bool(false), Num(0), Text(""), List([]), Dict(map[])}
  {
  }

  /** Blank are None, the empty list, and texts of nothing but spaces and control separators. */
  lemma BlankIff(j: Json)
    ensures IsBlank(j)
            <==> j in {Null, List([])}
                 || (j.Text? && forall c | c in j.s ::
                       c in {' ', '\t', '\n', '\U{b}', '\U{c}', '\r', '\U{1c}', '\U{1d}', '\U{1e}', '\U{1f}'})
  {
    if j.Text? {
      forall i | 0 <= i < |j.s| ensures j.s[i] in j.s { }
      forall c: char
        ensures IsSpace(c) <==> c in {' ', '\t', '\n', '\U{b}', '\U{c}', '\r', '\U{1c}', '\U{1d}', '\U{1e}', '\U{1f}'}
      {
        SpaceIff(c);
      }
    }
  }

  lemma SpaceIff(c: char)
    ensures IsSpace(c) <==> c in {' ', '\t', '\n', '\U{b}', '\U{c}', '\r', '\U{1c}', '\U{1d}', '\U{1e}', '\U{1f}'}
  {
    var n := c as int;
    assert IsSpace(c) <==> n == 32 || 9 <= n <= 13 || 28 <= n <= 31;
  }

  /** v is the value under the first key when that is truthy, else under the other key, else None. */
  predicate FirstTruthy(d: Message, key: string, other: string, v: Json)
  {
    if key in d && Truthy(d[key]) then v == d[key]
    else if other in d then v == d[other]
    else v == Null
  }

  /** A new row: parent, model and status history under either spelling, usage direct or inside info, and the times. */
  lemma InsertedColumns(chatId: string, userId: string, d: Message, now: int)
    requires !Unreadable(d)
    ensures var r := NewRow(chatId, userId, d, now);
            && r.chatId == chatId && r.userId == userId && r.updatedAt == now
            && FirstTruthy(d, "parent_id", "parentId", r.parentId)
            && FirstTruthy(d, "model_id", "model", r.modelId)
            && FirstTruthy(d, "status_history", "statusHistory", r.statusHistory)
            && ("usage" in d && Truthy(d["usage"]) ==> r.usage == d["usage"])
            && (!("usage" in d && Truthy(d["usage"])) ==>
                  r.usage == if "info" in d && d["info"].Dict? && "usage" in d["info"].m then d["info"].m["usage"]
                             else Null)
            && ("timestamp" !in d ==> r.createdAt == now)
            && ("timestamp" in d && d["timestamp"].Num? ==> r.createdAt == d["timestamp"].n)
  {
    if "info" in d && d["info"].Dict? && "usage" in d["info"].m { assert d["info"].m != map[]; }
  }

  /** An updated row: those columns move when their keys are there, the parent only with parent_id. */
  lemma UpdatedColumns(r: Row, d: Message, now: int)
    requires !Unreadable(d)
    ensures var v := UpdatedRow(r, d, now);
            && v.chatId == r.chatId && v.userId == r.userId && v.createdAt == r.createdAt && v.updatedAt == now
            && (if "parent_id" in d then FirstTruthy(d, "parent_id", "parentId", v.parentId)
                else v.parentId == r.parentId)
            && (if "model_id" in d || "model" in d then FirstTruthy(d, "model_id", "model", v.modelId)
                else v.modelId == r.modelId)
            && (if "status_history" in d || "statusHistory" in d
                then FirstTruthy(d, "status_history", "statusHistory", v.statusHistory)
                else v.statusHistory == r.statusHistory)
            && ("usage" in d && Truthy(d["usage"]) ==> v.usage == d["usage"])
            && (!("usage" in d && Truthy(d["usage"])) ==>
                  v.usage == if "info" in d && d["info"].Dict? && "usage" in d["info"].m
                                && Truthy(d["info"].m["usage"]) then d["info"].m["usage"]
                             else r.usage)
  {
    if "info" in d && d["info"].Dict? && "usage" in d["info"].m { assert d["info"].m != map[]; }
  }

  // ---------- Runs of upserts ----------

  datatype World = World(chats: map<string, Chat>, rows: Rows)

  datatype Event = Upsert(chatId: string, messageId: string, message: Message, sibling: Option<string>, now: int)

  /** The merged message an event hands to the index. */
  function Incoming(w: World, e: Event): Message
    requires e.chatId in w.chats
  {
    Merged(Loaded(w.chats[e.chatId]), e.messageId, e.message)
  }

  function StepOutcome(w: World, e: Event): Outcome
    requires e.chatId in w.chats
  {
    OutcomeOf(w.rows, CompositeId(e.chatId, e.messageId), Incoming(w, e), e.sibling)
  }

  function Step(w: World, e: Event): World
  {
    if e.chatId !in w.chats then w else
      var chat, d := Loaded(w.chats[e.chatId]), Incoming(w, e);
      World(w.chats[e.chatId := WithMessage(chat, e.messageId, d)],
            Upserted(w.rows, e.chatId, e.messageId, chat.userId, d, e.sibling, e.now))
  }

  function Run(w: World, tr: seq<Event>): World
  {
    if tr == [] then w else Step(Run(w, tr[..|tr| - 1]), tr[|tr| - 1])
  }

  /** Each event's sibling is one that the query of its own call may return, as UpsertMessage promises. */
  predicate PossibleStep(w: World, e: Event, nullsVisible: bool)
  {
    e.chatId in w.chats ==> SiblingFound(w.rows, e.chatId, Parent(Incoming(w, e)), nullsVisible, e.sibling)
  }

  predicate Possible(w: World, tr: seq<Event>, nullsVisible: bool)
  {
    tr == [] || (Possible(w, tr[..|tr| - 1], nullsVisible)
                 && PossibleStep(Run(w, tr[..|tr| - 1]), tr[|tr| - 1], nullsVisible))
  }

  // ---------- Agreement of a row with a message ----------

  /** The indexed fields stored under one key of the message. */
  datatype Field = Role | Content | Output | Files | Sources | Embeds | Failure | Done

  function Key(f: Field): string
  {
    match f
    case Role => "role"
    case Content => "content"
    case Output => "output"
    case Files => "files"
    case Sources => "sources"
    case Embeds => "embeds"
    case Failure => "error"
    case Done => "done"
  }

  function Default(f: Field): Json { if f.Role? then Text("user") else if f.Done? then Bool(true) else Null }

  function Column(r: Row, f: Field): Json
  {
    match f
    case Role => r.role
    case Content => r.content
    case Output => r.output
    case Files => r.files
    case Sources => r.sources
    case Embeds => r.embeds
    case Failure => r.error
    case Done => r.done
  }

  function Shown(d: Message, f: Field): Json { Get(d, Key(f), Default(f)) }

  /** Row and message agree on all eight fields, up to the null characters only the row may still have. */
  ghost predicate Agrees(r: Row, d: Message) { forall f: Field :: Clean(Column(r, f)) == Shown(d, f) }

  ghost predicate SameFields(d: Message, d': Message) { forall f: Field :: Shown(d, f) == Shown(d', f) }

  /** A field without null characters agrees to the letter. */
  lemma NullFreeFieldsAgreeExactly(r: Row, d: Message)
    requires Agrees(r, d)
    ensures forall f: Field :: NullFree(Column(r, f)) <==> Column(r, f) == Shown(d, f)
  {
    forall f: Field ensures NullFree(Column(r, f)) <==> Column(r, f) == Shown(d, f) {
      CleanFixesNullFree(Column(r, f));
    }
  }

  lemma ShownCleaned(d: Message, f: Field)
    ensures Shown(CleanMessage(d), f) == Clean(Shown(d, f))
  {
  }

  /** Cleaning a message again leaves the agreement as it was. */
  lemma AgreementSurvivesCleaning(r: Row, d: Message)
    requires Agrees(r, d)
    ensures Agrees(r, CleanMessage(d))
  {
    forall f: Field ensures Clean(Column(r, f)) == Shown(CleanMessage(d), f) {
      CleanIdempotent(Column(r, f));
      ShownCleaned(d, f);
    }
  }

  /** The row made from a message agrees with it as an insert stores it, cleaned. */
  lemma NewRowAgrees(chatId: string, userId: string, d: Message, now: int)
    requires !Unreadable(d)
    ensures Agrees(NewRow(chatId, userId, d, now), CleanMessage(Defaulted(d)))
  {
    forall f: Field
      ensures Clean(Column(NewRow(chatId, userId, d, now), f)) == Shown(CleanMessage(Defaulted(d)), f)
    {
      ShownCleaned(Defaulted(d), f);
      assert Column(NewRow(chatId, userId, d, now), f) == Shown(Defaulted(d), f);
    }
  }

  /** So does one updated with it, when the message written before had no key that this one lacks. */
  lemma UpdatedRowAgrees(r: Row, written: Message, d: Message, now: int)
    requires Agrees(r, CleanMessage(written)) && written.Keys <= d.Keys && !Unreadable(d)
    ensures Agrees(UpdatedRow(r, d, now), CleanMessage(d))
  {
    forall f: Field ensures Clean(Column(UpdatedRow(r, d, now), f)) == Shown(CleanMessage(d), f) {
      assert Column(UpdatedRow(r, d, now), f) == Get(d, Key(f), Column(r, f));
      assert Clean(Column(r, f)) == Shown(CleanMessage(written), f);
    }
  }

  // ---------- Composite ids ----------

  /** Chat id d is chat id c continued by a dash and more, and that more begins message id m. */
  predicate Continues(c: string, m: string, d: string, n: string)
  {
    c + "-" <= d && m == d[|c| + 1..] + "-" + n
  }

  lemma ContinuedIdsCollide(c: string, m: string, d: string, n: string)
    requires Continues(c, m, d, n)
    ensures CompositeId(c, m) == CompositeId(d, n)
  {
  }

  lemma CollidingIdsContinue(c: string, m: string, d: string, n: string)
    requires CompositeId(c, m) == CompositeId(d, n) && |c| < |d|
    ensures Continues(c, m, d, n)
  {
    var a, b := CompositeId(c, m), CompositeId(d, n);
    assert c + "-" == a[..|c| + 1] == b[..|c| + 1] == d[..|c| + 1];
    assert m == a[|c| + 1..] == b[|c| + 1..] == d[|c| + 1..] + "-" + n;
  }

  /** Two composite ids coincide exactly when one chat id continues, dash included, into the other message id. */
  lemma CompositeIdsCollideIff(c: string, m: string, d: string, n: string)
    ensures CompositeId(c, m) == CompositeId(d, n)
            <==> (c == d && m == n) || Continues(c, m, d, n) || Continues(d, n, c, m)
  {
    if Continues(c, m, d, n) { ContinuedIdsCollide(c, m, d, n); }
    if Continues(d, n, c, m) { ContinuedIdsCollide(d, n, c, m); }
    var a, b := CompositeId(c, m), CompositeId(d, n);
    if a == b {
      if |c| < |d| { CollidingIdsContinue(c, m, d, n); }
      if |d| < |c| { CollidingIdsContinue(d, n, c, m); }
      if |c| == |d| {
        assert a[..|c|] == c && b[..|d|] == d && a[|c| + 1..] == m && b[|d| + 1..] == n;
      }
    }
  }

  /** With chat ids of one length, rows of different chats never share an id. */
  lemma CompositeIdsAreInjective(c: string, m: string, d: string, n: string)
    requires |c| == |d| && CompositeId(c, m) == CompositeId(d, n)
    ensures c == d && m == n
  {
    CompositeIdsCollideIff(c, m, d, n);
  }

  /** Chat ids of different lengths can share a row. */
  lemma CollidingIds()
    ensures CompositeId("a", "b-c") == CompositeId("a-b", "c")
  {
    ContinuedIdsCollide("a", "b-c", "a-b", "c");
  }

  // ---------- Where a run may start ----------

  predicate Owned(w: World, id: string, m: string)
    requires id in w.rows
  {
    var c := w.rows[id].chatId;
    c in w.chats && m in w.chats[c].messages && id == CompositeId(c, m)
  }

  /** Every row belongs to a message of its chat. */
  ghost predicate RowsOwned(w: World) { forall id | id in w.rows :: exists m :: Owned(w, id, m) }

  /** Chat ids are uuid texts of one length. */
  predicate OneLength(w: World, idLength: nat) { forall c | c in w.chats :: |c| == idLength }

  /** Rows and blobs agree and every message has its row. No messages at all will do. */
  ghost predicate IsStart(w: World, idLength: nat)
  {
    && OneLength(w, idLength) && RowsOwned(w)
    && forall c, m | c in w.chats && m in w.chats[c].messages ::
         CompositeId(c, m) in w.rows && Agrees(w.rows[CompositeId(c, m)], w.chats[c].messages[m])
  }

  lemma StepKeepsRowOwned(w: World, e: Event, id: string)
    requires id in Step(w, e).rows
    requires id in w.rows ==> exists m :: Owned(w, id, m)
    ensures exists m :: Owned(Step(w, e), id, m)
  {
    if id in w.rows {
      var m :| Owned(w, id, m);
      assert Owned(Step(w, e), id, m);
    } else {
      assert Owned(Step(w, e), id, e.messageId);
    }
  }

  lemma {:induction false} RunKeepsRowsOwned(w: World, tr: seq<Event>)
    requires RowsOwned(w)
    ensures RowsOwned(Run(w, tr))
  {
    if tr != [] {
      var v, e := Run(w, tr[..|tr| - 1]), tr[|tr| - 1];
      RunKeepsRowsOwned(w, tr[..|tr| - 1]);
      forall id | id in Step(v, e).rows ensures exists m :: Owned(Step(v, e), id, m) {
        StepKeepsRowOwned(v, e, id);
      }
    }
  }

  lemma {:induction false} RunKeepsChats(w: World, tr: seq<Event>)
    ensures Run(w, tr).chats.Keys == w.chats.Keys
  {
    if tr != [] { RunKeepsChats(w, tr[..|tr| - 1]); }
  }

  /** An indexed id of chat c belongs to that message of that chat. */
  lemma RowHasMessage(w: World, idLength: nat, c: string, m: string)
    requires OneLength(w, idLength) && RowsOwned(w) && c in w.chats && CompositeId(c, m) in w.rows
    ensures m in w.chats[c].messages && w.rows[CompositeId(c, m)].chatId == c
  {
    var n :| Owned(w, CompositeId(c, m), n);
    CompositeIdsAreInjective(c, m, w.rows[CompositeId(c, m)].chatId, n);
  }

  // ---------- The latest upsert of a message ----------

  predicate Upserts(w: World, e: Event, c: string, m: string)
  {
    e.chatId == c && e.messageId == m && c in w.chats
  }

  /** The last event of the run that upserts message m of chat c, with the state it met. */
  function Latest(w: World, tr: seq<Event>, c: string, m: string): (r: Option<(World, Event)>)
    ensures r.Some? ==> Upserts(r.value.0, r.value.1, c, m)
  {
    if tr == [] then None else
      var before, e := Run(w, tr[..|tr| - 1]), tr[|tr| - 1];
      if Upserts(before, e, c, m) then Some((before, e)) else Latest(w, tr[..|tr| - 1], c, m)
  }

  /** The state right after that event, or the start when there is none. */
  function AfterLatest(w: World, tr: seq<Event>, c: string, m: string): World
  {
    match Latest(w, tr, c, m)
    case None => w
    case Some((before, e)) => Step(before, e)
  }

  /** The two states hold the same row and the same message, up to one more cleaning of the latter. */
  ghost predicate SameAt(v: World, w: World, c: string, m: string)
    requires c in v.chats && c in w.chats
  {
    var id, after, before := CompositeId(c, m), v.chats[c].messages, w.chats[c].messages;
    && (id in v.rows <==> id in w.rows) && (id in v.rows ==> v.rows[id] == w.rows[id])
    && (m in after <==> m in before)
    && (m in after ==> after[m] == before[m] || after[m] == CleanMessage(before[m]))
  }

  lemma CleanMessageIdempotent(d: Message)
    ensures CleanMessage(CleanMessage(d)) == CleanMessage(d)
  {
    forall k | k in d ensures CleanMessage(CleanMessage(d))[k] == CleanMessage(d)[k] { CleanIdempotent(d[k]); }
  }

  /** An upsert of another message leaves this one alone. */
  lemma StepElsewhere(w: World, e: Event, c: string, m: string)
    requires c in w.chats && !Upserts(w, e, c, m)
    requires e.chatId in w.chats ==> |e.chatId| == |c|
    ensures c in Step(w, e).chats && SameAt(Step(w, e), w, c, m)
  {
    if e.chatId in w.chats && CompositeId(e.chatId, e.messageId) == CompositeId(c, m) {
      CompositeIdsAreInjective(e.chatId, e.messageId, c, m);
    }
    if e.chatId == c && m in w.chats[c].messages { CleanMessageIdempotent(w.chats[c].messages[m]); }
  }

  /** After the latest upsert of a message nothing happens to it. */
  lemma {:induction false} NothingSinceLatest(w: World, tr: seq<Event>, idLength: nat, c: string, m: string)
    requires OneLength(w, idLength) && c in w.chats
    ensures c in Run(w, tr).chats && c in AfterLatest(w, tr, c, m).chats
    ensures SameAt(Run(w, tr), AfterLatest(w, tr, c, m), c, m)
  {
    if tr != [] {
      var init, e := tr[..|tr| - 1], tr[|tr| - 1];
      var v := Run(w, init);
      RunKeepsChats(w, init);
      if !Upserts(v, e, c, m) {
        NothingSinceLatest(w, init, idLength, c, m);
        StepElsewhere(v, e, c, m);
        var u := AfterLatest(w, tr, c, m);
        if m in u.chats[c].messages { CleanMessageIdempotent(u.chats[c].messages[m]); }
      }
    }
  }

  lemma {:induction false} LatestIsPossible(w: World, tr: seq<Event>, nullsVisible: bool, c: string, m: string)
    requires Possible(w, tr, nullsVisible) && Latest(w, tr, c, m).Some?
    ensures var (before, e) := Latest(w, tr, c, m).value; PossibleStep(before, e, nullsVisible)
  {
    if !Upserts(Run(w, tr[..|tr| - 1]), tr[|tr| - 1], c, m) {
      LatestIsPossible(w, tr[..|tr| - 1], nullsVisible, c, m);
    }
  }

  // ---------- When a message has no row ----------

  predicate Answers(r: Row, chatId: string, parent: Json)
  {
    r.chatId == chatId && r.parentId == parent && r.role == Text("assistant") && !IsBlank(r.content)
  }

  /** A blank final assistant message whose turn's latest assistant row s has content. */
  predicate DuplicatesAnAnswer(rows: Rows, chatId: string, d: Message, nullsVisible: bool, s: Option<string>)
  {
    && IsEmptyFinalAssistant(d) && Truthy(Parent(d))
    && s.Some? && IsLatest(rows, Siblings(rows, chatId, Parent(d), nullsVisible), s.value)
    && Answers(rows[s.value], chatId, Parent(d))
  }

  /** The index write that leaves its message without a row. */
  predicate Drops(w: World, e: Event, nullsVisible: bool)
    requires e.chatId in w.chats
  {
    && CompositeId(e.chatId, e.messageId) !in w.rows
    && (Unreadable(Incoming(w, e)) || DuplicatesAnAnswer(w.rows, e.chatId, Incoming(w, e), nullsVisible, e.sibling))
  }

  predicate LatestDropped(w: World, tr: seq<Event>, nullsVisible: bool, c: string, m: string)
  {
    var latest := Latest(w, tr, c, m);
    latest.Some? && Drops(latest.value.0, latest.value.1, nullsVisible)
  }

  lemma StepDropsIff(w: World, e: Event, nullsVisible: bool)
    requires e.chatId in w.chats && PossibleStep(w, e, nullsVisible)
    ensures CompositeId(e.chatId, e.messageId) !in Step(w, e).rows <==> Drops(w, e, nullsVisible)
    ensures e.messageId in Step(w, e).chats[e.chatId].messages
  {
  }

  /**
   A message has no row exactly when its latest upsert found none and either was a blank final answer to a turn whose
   latest assistant row has content, or had an info the code cannot read.
   */
  lemma {:induction false} RowMissingIff(w: World, tr: seq<Event>, idLength: nat, nullsVisible: bool, c: string,
                                         m: string)
    requires IsStart(w, idLength) && Possible(w, tr, nullsVisible)
    requires c in Run(w, tr).chats && m in Run(w, tr).chats[c].messages
    ensures CompositeId(c, m) !in Run(w, tr).rows <==> LatestDropped(w, tr, nullsVisible, c, m)
  {
    RunKeepsChats(w, tr);
    NothingSinceLatest(w, tr, idLength, c, m);
    var latest := Latest(w, tr, c, m);
    if latest.Some? {
      LatestIsPossible(w, tr, nullsVisible, c, m);
      StepDropsIff(latest.value.0, latest.value.1, nullsVisible);
    }
  }

  /**
   Suppression never hides an answer: a message dropped as a duplicate is blank, and its turn has an assistant row with
   content; among all assistant rows of the turn the one found is the latest.
   */
  lemma SuppressionKeepsTheAnswer(w: World, e: Event, nullsVisible: bool)
    requires e.chatId in w.chats && PossibleStep(w, e, nullsVisible) && StepOutcome(w, e) == Suppressed
    ensures var d := Incoming(w, e);
            && IsBlank(Get(d, "content", Null)) && Parent(d) != Null
            && exists id :: && id in Step(w, e).rows && Answers(Step(w, e).rows[id], e.chatId, Parent(d))
                            && forall x | x in w.rows && Answers(w.rows[x], e.chatId, Parent(d)) ::
                                 w.rows[x].createdAt <= Step(w, e).rows[id].createdAt
  {
    var parent, id := Parent(Incoming(w, e)), e.sibling.value;
    assert Step(w, e).rows == w.rows;
    assert Answers(w.rows[id], e.chatId, parent);
    forall x | x in w.rows && Answers(w.rows[x], e.chatId, parent)
      ensures w.rows[x].createdAt <= w.rows[id].createdAt
    {
      assert x in Siblings(w.rows, e.chatId, parent, nullsVisible);
    }
  }

  /** A message of another role, not done, with content or output, or without a parent is never suppressed. */
  lemma OnlyBlankFinalAnswersAreSuppressed(w: World, e: Event)
    requires e.chatId in w.chats && StepOutcome(w, e) == Suppressed
    ensures var d := Incoming(w, e);
            && "role" in d && d["role"] == Text("assistant")
            && ("done" in d ==> d["done"] == Bool(true))
            && ("content" in d ==> IsBlank(d["content"]))
            && ("output" in d ==> !Truthy(d["output"]))
            && (("parent_id" in d && Truthy(d["parent_id"])) || ("parentId" in d && Truthy(d["parentId"])))
  {
  }

  /** The latest assistant row of the turn, whatever its content, later than every other one of it. */
  predicate IsTheLatestAnswer(rows: Rows, chatId: string, parent: Json, s: string)
  {
    && s in rows && rows[s].chatId == chatId && rows[s].parentId == parent && rows[s].role == Text("assistant")
    && forall x | x in rows && x != s && rows[x].chatId == chatId && rows[x].parentId == parent
                  && rows[x].role == Text("assistant") :: rows[x].createdAt < rows[s].createdAt
  }

  /** A new blank final assistant message under p gets no row when the latest assistant row under p has content. */
  lemma BlankDuplicateGetsNoRow(w: World, e: Event, nullsVisible: bool, s: string, p: string)
    requires e.chatId in w.chats && e.messageId !in w.chats[e.chatId].messages && PossibleStep(w, e, nullsVisible)
    requires CompositeId(e.chatId, e.messageId) !in w.rows
    requires IsTheLatestAnswer(w.rows, e.chatId, Text(p), s) && !IsBlank(w.rows[s].content)
    requires var m := e.message;
             && "role" in m && m["role"] == Text("assistant") && ("done" in m ==> m["done"] == Bool(true))
             && ("content" in m ==> IsBlank(m["content"])) && ("output" in m ==> !Truthy(m["output"]))
             && p != "" && ((("parent_id" in m) && m["parent_id"] == Text(p))
                            || ("parent_id" !in m && "parentId" in m && m["parentId"] == Text(p)))
    ensures StepOutcome(w, e) == Suppressed && Step(w, e).rows == w.rows
  {
    var d := Incoming(w, e);
    IncomingNew(w, e);
    assert Parent(d) == Text(p);
    assert s in Siblings(w.rows, e.chatId, Text(p), nullsVisible);
    assert e.sibling == Some(s);
  }

  lemma IncomingNew(w: World, e: Event)
    requires e.chatId in w.chats && e.messageId !in w.chats[e.chatId].messages
    ensures var d, m := Incoming(w, e), e.message;
            && d.Keys == m.Keys && (forall k | k in m && k != "content" :: d[k] == m[k])
            && ("content" in m && IsBlank(m["content"]) ==> IsBlank(d["content"]))
  {
    var m := e.message;
    if "content" in m && m["content"].Text? && IsBlank(m["content"]) { BlankStaysBlank(m["content"].s); }
  }

  lemma {:induction false} BlankStaysBlank(s: string)
    requires IsBlank(Text(s))
    ensures IsBlank(Text(CleanText(s)))
  {
    if s != [] {
      assert IsBlank(Text(s[1..]));
      BlankStaysBlank(s[1..]);
    }
  }

  // ---------- The blob after an upsert ----------

  /** The message holds the incoming keys over the stored ones, all cleaned. */
  lemma BlobAfterUpsert(w: World, e: Event, k: string)
    requires e.chatId in w.chats
    ensures var stored, v := w.chats[e.chatId].messages, Step(w, e).chats[e.chatId].messages;
            && e.messageId in v
            && (k in e.message ==> k in v[e.messageId] && v[e.messageId][k] == Clean(e.message[k]))
            && (k !in e.message ==>
                  if e.messageId in stored && k in stored[e.messageId]
                  then k in v[e.messageId] && v[e.messageId][k] == Clean(stored[e.messageId][k])
                  else k !in v[e.messageId])
  {
    var c := w.chats[e.chatId];
    if k in e.message { CleanIdempotent(e.message[k]); }
    if e.messageId in c.messages && k in c.messages[e.messageId] { CleanIdempotent(c.messages[e.messageId][k]); }
  }

  /** The message is the chat's current one; the chat's other messages are cleaned and other chats untouched. */
  lemma ChatAfterUpsert(w: World, e: Event, m: string)
    requires e.chatId in w.chats
    ensures var c, v := w.chats[e.chatId], Step(w, e).chats[e.chatId];
            && v.userId == c.userId && v.currentId == Some(CleanText(e.messageId))
            && v.messages.Keys == c.messages.Keys + {e.messageId}
            && (m in c.messages && m != e.messageId ==> v.messages[m] == CleanMessage(c.messages[m]))
    ensures forall x | x in w.chats && x != e.chatId :: Step(w, e).chats[x] == w.chats[x]
  {
    var c := w.chats[e.chatId];
    if m in c.messages { CleanMessageIdempotent(c.messages[m]); }
  }

  /** The index is given the incoming keys, a text content cleaned, over the stored ones, all cleaned. */
  lemma IncomingOnKeys(w: World, e: Event, k: string)
    requires e.chatId in w.chats
    ensures var messages, d := w.chats[e.chatId].messages, Incoming(w, e);
            if k in e.message then
              k in d && d[k] == if k == "content" && e.message[k].Text? then Text(CleanText(e.message[k].s))
                                else e.message[k]
            else if e.messageId in messages && k in messages[e.messageId] then
              k in d && d[k] == Clean(messages[e.messageId][k])
            else k !in d
  {
  }

  /** A write stamps its own row, a new one with the chat's owner, and touches no other row. */
  lemma WriteStampsItsRow(w: World, e: Event)
    requires e.chatId in w.chats && StepOutcome(w, e) == Written
    ensures var v, id := Step(w, e), CompositeId(e.chatId, e.messageId);
            && v.rows.Keys == w.rows.Keys + {id} && v.rows[id].updatedAt == e.now
            && (id !in w.rows ==>
                  && v.rows[id].chatId == e.chatId && v.rows[id].userId == w.chats[e.chatId].userId
                  && ("timestamp" !in Incoming(w, e) ==> v.rows[id].createdAt == e.now))
            && (id in w.rows ==>
                  && v.rows[id].chatId == w.rows[id].chatId && v.rows[id].userId == w.rows[id].userId
                  && v.rows[id].createdAt == w.rows[id].createdAt)
            && forall x | x in w.rows && x != id :: v.rows[x] == w.rows[x]
  {
  }

  /** So after a write of a text content row and blob have the same content, to the letter and without nulls. */
  lemma TextContentAgreesExactly(w: World, e: Event)
    requires e.chatId in w.chats && StepOutcome(w, e) == Written
    requires "content" in e.message && e.message["content"].Text?
    ensures var v, id := Step(w, e), CompositeId(e.chatId, e.messageId);
            && id in v.rows && v.rows[id].content == Text(CleanText(e.message["content"].s))
            && NullFree(v.rows[id].content)
            && e.messageId in v.chats[e.chatId].messages
            && "content" in v.chats[e.chatId].messages[e.messageId]
            && v.chats[e.chatId].messages[e.messageId]["content"] == v.rows[id].content
  {
    IncomingOnKeys(w, e, "content");
    BlobAfterUpsert(w, e, "content");
    CleanFixesNullFree(e.message["content"]);
  }

  /** Cleaning works character by character and keeps everything but the null characters, in order. */
  lemma {:induction false} CleanTextConcat(a: string, b: string)
    ensures CleanText(a + b) == CleanText(a) + CleanText(b)
  {
    if a == [] {
      assert a + b == b;
    } else {
      var head, rest := (if a[0] == '\0' then [] else [a[0]]), CleanText(a[1..]);
      assert (a + b)[0] == a[0] && (a + b)[1..] == a[1..] + b;
      CleanTextConcat(a[1..], b);
      assert CleanText(a + b) == head + (rest + CleanText(b));
      assert CleanText(a) == head + rest;
      assert head + (rest + CleanText(b)) == (head + rest) + CleanText(b);
    }
  }

  lemma CleanTextOne(c: char)
    ensures CleanText([c]) == if c == '\0' then [] else [c]
  {
    assert [c][1..] == [];
  }

  /** The message last upserted in the chat. */
  function LastUpserted(tr: seq<Event>, c: string): Option<string>
  {
    if tr == [] then None
    else if tr[|tr| - 1].chatId == c then Some(tr[|tr| - 1].messageId)
    else LastUpserted(tr[..|tr| - 1], c)
  }

  /** Over every run the current message of a chat is the one last upserted in it. */
  lemma {:induction false} CurrentIsLastUpserted(w: World, tr: seq<Event>, c: string)
    requires c in w.chats
    ensures c in Run(w, tr).chats
    ensures match LastUpserted(tr, c)
            case None => Run(w, tr).chats[c] == w.chats[c]
            case Some(m) => Run(w, tr).chats[c].currentId == Some(CleanText(m))
  {
    if tr != [] { CurrentIsLastUpserted(w, tr[..|tr| - 1], c); }
  }

  // ---------- What a row holds ----------

  function AtStart(w: World, c: string, m: string): Option<Message>
  {
    if c in w.chats && m in w.chats[c].messages then Some(w.chats[c].messages[m]) else None
  }

  predicate Writes(w: World, e: Event, c: string, m: string)
  {
    Upserts(w, e, c, m) && StepOutcome(w, e) == Written
  }

  /** The message as a write takes it in. */
  function TakenIn(w: World, e: Event): Message
    requires e.chatId in w.chats
  {
    if CompositeId(e.chatId, e.messageId) in w.rows then Incoming(w, e) else Defaulted(Incoming(w, e))
  }

  /** The message as the index last took it in. */
  function LastWritten(w: World, tr: seq<Event>, c: string, m: string): Option<Message>
  {
    if tr == [] then AtStart(w, c, m) else
      var before, e := Run(w, tr[..|tr| - 1]), tr[|tr| - 1];
      if Writes(before, e, c, m) then Some(TakenIn(before, e)) else LastWritten(w, tr[..|tr| - 1], c, m)
  }

  /** The message as the index first took it in. */
  function FirstWritten(w: World, tr: seq<Event>, c: string, m: string): Option<Message>
  {
    if tr == [] then AtStart(w, c, m) else
      var before, e := Run(w, tr[..|tr| - 1]), tr[|tr| - 1];
      var first := FirstWritten(w, tr[..|tr| - 1], c, m);
      if first.None? && Writes(before, e, c, m) then Some(TakenIn(before, e)) else first
  }

  /** There is a row exactly when something was written, and it agrees with that, whose keys the blob still has. */
  ghost predicate Follows(w: World, c: string, m: string, written: Option<Message>)
    requires c in w.chats
  {
    var id, messages := CompositeId(c, m), w.chats[c].messages;
    && (id in w.rows <==> written.Some?)
    && (id in w.rows ==> && m in messages && written.value.Keys <= messages[m].Keys
                         && w.rows[id].chatId == c && Agrees(w.rows[id], CleanMessage(written.value)))
  }

  lemma OwnStepFollows(w: World, e: Event, written: Option<Message>)
    requires e.chatId in w.chats && Follows(w, e.chatId, e.messageId, written)
    ensures Follows(Step(w, e), e.chatId, e.messageId,
                    if StepOutcome(w, e) == Written then Some(TakenIn(w, e)) else written)
  {
    var id, d := CompositeId(e.chatId, e.messageId), Incoming(w, e);
    if StepOutcome(w, e) == Written {
      if id in w.rows {
        UpdatedRowAgrees(w.rows[id], written.value, d, e.now);
      } else {
        NewRowAgrees(e.chatId, w.chats[e.chatId].userId, d, e.now);
      }
    }
  }

  lemma {:induction false} RowFollowsLastWrite(w: World, tr: seq<Event>, idLength: nat, c: string, m: string)
    requires IsStart(w, idLength) && c in w.chats
    ensures c in Run(w, tr).chats && Follows(Run(w, tr), c, m, LastWritten(w, tr, c, m))
  {
    if tr == [] {
      if CompositeId(c, m) in w.rows {
        RowHasMessage(w, idLength, c, m);
        AgreementSurvivesCleaning(w.rows[CompositeId(c, m)], w.chats[c].messages[m]);
      }
    } else {
      var init, e := tr[..|tr| - 1], tr[|tr| - 1];
      var v := Run(w, init);
      RowFollowsLastWrite(w, init, idLength, c, m);
      if Upserts(v, e, c, m) {
        OwnStepFollows(v, e, LastWritten(w, init, c, m));
      } else {
        RunKeepsChats(w, init);
        StepElsewhere(v, e, c, m);
      }
    }
  }

  predicate LatestFailed(w: World, tr: seq<Event>, c: string, m: string)
  {
    var latest := Latest(w, tr, c, m);
    latest.Some? && StepOutcome(latest.value.0, latest.value.1) == Failed
  }

  lemma {:induction false} LatestIsLastWritten(w: World, tr: seq<Event>, c: string, m: string)
    ensures match Latest(w, tr, c, m)
            case None => LastWritten(w, tr, c, m) == AtStart(w, c, m)
            case Some((before, e)) => StepOutcome(before, e) == Written ==>
                                        LastWritten(w, tr, c, m) == Some(TakenIn(before, e))
  {
    if tr != [] && !Upserts(Run(w, tr[..|tr| - 1]), tr[|tr| - 1], c, m) {
      LatestIsLastWritten(w, tr[..|tr| - 1], c, m);
    }
  }

  /** The latest upsert made the row, from a message with a null done: the row has True. */
  predicate LatestFilledDone(w: World, tr: seq<Event>, c: string, m: string)
  {
    var latest := Latest(w, tr, c, m);
    latest.Some? &&
    var (before, e) := latest.value;
    CompositeId(c, m) !in before.rows && Get(Incoming(before, e), "done", Bool(true)) == Null
  }

  lemma FilledDoneDisagrees(r: Row, d: Message, blob: Message)
    requires Get(d, "done", Bool(true)) == Null && Agrees(r, CleanMessage(Defaulted(d)))
    requires blob == CleanMessage(d) || blob == CleanMessage(CleanMessage(d))
    ensures !Agrees(r, blob)
  {
    assert Shown(CleanMessage(Defaulted(d)), Done) == Bool(true);
    assert Shown(blob, Done) == Null;
    assert Clean(Column(r, Done)) == Bool(true);
  }

  /** Unless the latest upsert failed, the row there is agrees with the blob, except in a null done filled in. */
  lemma {:induction false} AgreesIffNotFilled(w: World, tr: seq<Event>, idLength: nat, c: string, m: string)
    requires IsStart(w, idLength) && c in w.chats && !LatestFailed(w, tr, c, m)
    ensures var v := Run(w, tr);
            && c in v.chats && (CompositeId(c, m) in v.rows ==>
              && m in v.chats[c].messages
              && (Agrees(v.rows[CompositeId(c, m)], v.chats[c].messages[m]) <==> !LatestFilledDone(w, tr, c, m)))
  {
    var v, u := Run(w, tr), AfterLatest(w, tr, c, m);
    RowFollowsLastWrite(w, tr, idLength, c, m);
    NothingSinceLatest(w, tr, idLength, c, m);
    LatestIsLastWritten(w, tr, c, m);
    if CompositeId(c, m) in v.rows {
      var r := v.rows[CompositeId(c, m)];
      if LatestFilledDone(w, tr, c, m) {
        var (before, e) := Latest(w, tr, c, m).value;
        FilledDoneDisagrees(r, Incoming(before, e), v.chats[c].messages[m]);
      } else {
        assert Agrees(r, u.chats[c].messages[m]);
        AgreementSurvivesCleaning(r, u.chats[c].messages[m]);
      }
    }
  }

  /**
   After any possible run every row belongs to a message of its chat, a message has a row exactly when its latest upsert
   was not dropped, and the row agrees with the blob exactly when the blob still reads as the message last written;
   unless the latest upsert failed, that is exactly when it did not fill in a null done.
   */
  lemma {:induction false} IndexMirrorsBlob(w: World, tr: seq<Event>, idLength: nat, nullsVisible: bool, c: string,
                                            m: string)
    requires IsStart(w, idLength) && Possible(w, tr, nullsVisible) && c in w.chats
    ensures var v, id := Run(w, tr), CompositeId(c, m);
            && RowsOwned(v) && c in v.chats
            && (id in v.rows <==> m in v.chats[c].messages && !LatestDropped(w, tr, nullsVisible, c, m))
            && (id in v.rows ==>
                  var r, d, last := v.rows[id], v.chats[c].messages[m], LastWritten(w, tr, c, m);
                  && r.chatId == c && last.Some?
                  && (Agrees(r, d) <==> SameFields(CleanMessage(last.value), d))
                  && (!LatestFailed(w, tr, c, m) ==> (Agrees(r, d) <==> !LatestFilledDone(w, tr, c, m))))
  {
    var v := Run(w, tr);
    RunKeepsRowsOwned(w, tr);
    RowFollowsLastWrite(w, tr, idLength, c, m);
    if m in v.chats[c].messages { RowMissingIff(w, tr, idLength, nullsVisible, c, m); }
    if !LatestFailed(w, tr, c, m) { AgreesIffNotFilled(w, tr, idLength, c, m); }
  }

  // ---------- Where the parent of a row comes from ----------

  ghost predicate ParentFrom(w: World, c: string, m: string, first: Option<Message>, last: Option<Message>)
  {
    var id := CompositeId(c, m);
    id in w.rows ==>
      first.Some? && last.Some? &&
      w.rows[id].parentId == Parent(if "parent_id" in last.value then last.value else first.value)
  }

  lemma {:induction false} ParentComesFrom(w: World, tr: seq<Event>, idLength: nat, c: string, m: string)
    requires IsStart(w, idLength) && c in w.chats
    requires ParentFrom(w, c, m, AtStart(w, c, m), AtStart(w, c, m))
    ensures ParentFrom(Run(w, tr), c, m, FirstWritten(w, tr, c, m), LastWritten(w, tr, c, m))
  {
    if tr != [] {
      var init, e := tr[..|tr| - 1], tr[|tr| - 1];
      var v := Run(w, init);
      ParentComesFrom(w, init, idLength, c, m);
      RowFollowsLastWrite(w, init, idLength, c, m);
      NothingFirstWithoutLast(w, init, c, m);
      if Upserts(v, e, c, m) {
        OwnStepParent(v, e, FirstWritten(w, init, c, m), LastWritten(w, init, c, m));
      } else {
        RunKeepsChats(w, init);
        StepElsewhere(v, e, c, m);
      }
    }
  }

  lemma {:induction false} NothingFirstWithoutLast(w: World, tr: seq<Event>, c: string, m: string)
    ensures FirstWritten(w, tr, c, m).Some? <==> LastWritten(w, tr, c, m).Some?
  {
    if tr != [] { NothingFirstWithoutLast(w, tr[..|tr| - 1], c, m); }
  }

  lemma OwnStepParent(w: World, e: Event, first: Option<Message>, last: Option<Message>)
    requires e.chatId in w.chats && Follows(w, e.chatId, e.messageId, last)
    requires ParentFrom(w, e.chatId, e.messageId, first, last) && (first.Some? <==> last.Some?)
    ensures var d := Some(TakenIn(w, e));
            if StepOutcome(w, e) == Written
            then ParentFrom(Step(w, e), e.chatId, e.messageId, if first.None? then d else first, d)
            else ParentFrom(Step(w, e), e.chatId, e.messageId, first, last)
  {
    DefaultedParent(Incoming(w, e));
  }

  lemma DefaultedParent(d: Message)
    ensures Parent(Defaulted(d)) == Parent(d) && ("parent_id" in Defaulted(d) <==> "parent_id" in d)
  {
  }

  /**
   Over every run a row's parent is that of the message last written when this one spells it parent_id, and otherwise
   stays that of the message first written; so it lags exactly when only parentId is used and its value has moved.
   */
  lemma {:induction false} ParentFollowsIff(w: World, tr: seq<Event>, idLength: nat, c: string, m: string)
    requires IsStart(w, idLength) && c in w.chats && CompositeId(c, m) in Run(w, tr).rows
    requires ParentFrom(w, c, m, AtStart(w, c, m), AtStart(w, c, m))
    ensures var r := Run(w, tr).rows[CompositeId(c, m)];
            var first, last := FirstWritten(w, tr, c, m), LastWritten(w, tr, c, m);
            && first.Some? && last.Some?
            && r.parentId == Parent(if "parent_id" in last.value then last.value else first.value)
            && (r.parentId == Parent(last.value)
                <==> "parent_id" in last.value || Parent(first.value) == Parent(last.value))
  {
    ParentComesFrom(w, tr, idLength, c, m);
  }

  // ---------- Inputs at which row and blob part ----------

  /** An update fails exactly when no usage is given and info is a text, list, number or Boolean that is not falsy. */
  lemma UpdateFailsIff(w: World, e: Event)
    requires e.chatId in w.chats && CompositeId(e.chatId, e.messageId) in w.rows
    ensures var d := Incoming(w, e);
            StepOutcome(w, e) == Failed
            <==> && ("usage" in d ==> !Truthy(d["usage"])) && "info" in d
                 && d["info"] !in {Null, Bool(false), Num(0), Text(""), List([])} && !d["info"].Dict?
  {
  }

  /** An info that cannot be read goes on blocking the index until an upsert brings a usage or another info. */
  lemma UnreadableBlocksTheIndex(w: World, e: Event)
    requires e.chatId in w.chats && e.messageId in w.chats[e.chatId].messages
    requires Unreadable(CleanMessage(w.chats[e.chatId].messages[e.messageId]))
    requires "usage" !in e.message && "info" !in e.message
    ensures Unreadable(Incoming(w, e)) && Step(w, e).rows == w.rows
  {
  }

  /** A message without null characters and without a role. */
  predicate Plain(d: Message)
  {
    "role" !in d && forall k | k in d :: NullFree(d[k])
  }

  lemma PlainIsClean(d: Message)
    requires Plain(d)
    ensures CleanMessage(d) == d
  {
    forall k | k in d ensures Clean(d[k]) == d[k] { CleanFixesNullFree(d[k]); }
  }

  /** One that has been indexed and agrees with its row. */
  predicate PlainStored(d: Message)
  {
    Plain(d) && !Unreadable(d) && Get(d, "done", Bool(true)) != Null
  }

  /** Chat "c" with at most the one message "m", indexed when it is there. */
  function Small(userId: string, stored: Option<Message>): World
    requires stored.Some? ==> PlainStored(stored.value)
  {
    match stored
    case None => World(map["c" := Chat(userId, map[], None)], map[])
    case Some(d) => World(map["c" := Chat(userId, map["m" := d], None)],
                          map[CompositeId("c", "m") := NewRow("c", userId, d, 0)])
  }

  function Put(message: Message): Event { Upsert("c", "m", message, None, 1) }

  /** The message upserting this one leaves in the blob. */
  function Over(stored: Option<Message>, message: Message): Message
  {
    if stored.None? then message else stored.value + message
  }

  predicate PlainInput(stored: Option<Message>, message: Message)
  {
    Plain(message) && (stored.Some? ==> PlainStored(stored.value))
  }

  /** A run may start there, and this may be its first event, however the driver stores a None. */
  ghost predicate IsFirstStep(w: World, e: Event)
  {
    IsStart(w, 1) && forall nullsVisible :: PossibleStep(w, e, nullsVisible)
  }

  lemma LoadedSmall(userId: string, stored: Option<Message>)
    requires stored.Some? ==> PlainStored(stored.value)
    ensures Loaded(Small(userId, stored).chats["c"]) == Small(userId, stored).chats["c"]
  {
    if stored.Some? { PlainIsClean(stored.value); }
  }

  lemma MergedPlain(c: Chat, messageId: string, message: Message)
    requires Plain(message)
    ensures Merged(c, messageId, message)
            == if messageId in c.messages then c.messages[messageId] + message else message
  {
    if "content" in message {
      CleanFixesNullFree(message["content"]);
      assert message["content" := message["content"]] == message;
    }
  }

  lemma IncomingSmall(userId: string, stored: Option<Message>, message: Message)
    requires PlainInput(stored, message)
    ensures Incoming(Small(userId, stored), Put(message)) == Over(stored, message)
  {
    LoadedSmall(userId, stored);
    MergedPlain(Small(userId, stored).chats["c"], "m", message);
  }

  lemma SmallIsStart(userId: string, stored: Option<Message>)
    requires stored.Some? ==> PlainStored(stored.value)
    ensures IsStart(Small(userId, stored), 1)
  {
    if stored.Some? {
      PlainIsClean(stored.value);
      NewRowAgrees("c", userId, stored.value, 0);
      assert Owned(Small(userId, stored), CompositeId("c", "m"), "m");
    }
  }

  lemma SmallIsFirstStep(userId: string, stored: Option<Message>, message: Message)
    requires PlainInput(stored, message)
    ensures IsFirstStep(Small(userId, stored), Put(message))
  {
    SmallIsStart(userId, stored);
    var w, e := Small(userId, stored), Put(message);
    forall nullsVisible ensures PossibleStep(w, e, nullsVisible) {
      assert Siblings(w.rows, "c", Parent(Incoming(w, e)), nullsVisible) == {};
    }
  }

  lemma OneMessage(d: Message, c: Chat)
    requires Plain(d) && c.messages.Keys <= {"m"}
    ensures WithMessage(c, "m", d).messages == map["m" := d]
  {
    PlainIsClean(d);
    assert c.messages["m" := d] == map["m" := d];
    assert CleanMessages(map["m" := d]) == map["m" := d];
  }

  /** The message goes over the stored one in the blob, and to the index. */
  lemma SmallStep(userId: string, stored: Option<Message>, message: Message)
    requires PlainInput(stored, message)
    ensures var w, d := Small(userId, stored), Over(stored, message);
            && Step(w, Put(message)).chats["c"].messages == map["m" := d]
            && Step(w, Put(message)).rows == Upserted(w.rows, "c", "m", userId, d, None, 1)
  {
    LoadedSmall(userId, stored);
    IncomingSmall(userId, stored, message);
    OneMessage(Over(stored, message), Small(userId, stored).chats["c"]);
  }

  /** A text where the info dictionary belongs. */
  function Odd(text: string, info: string): Message { map["content" := Text(text), "info" := Text(info)] }

  function Saying(text: string): Message { map["content" := Text(text)] }

  lemma OddIsUnreadable(text: string, before: string, info: string)
    requires NullFree(Text(text)) && NullFree(Text(before)) && NullFree(Text(info)) && info != ""
    ensures Unreadable(Odd(text, info)) && PlainInput(None, Odd(text, info))
    ensures PlainInput(Some(Saying(before)), Odd(text, info))
    ensures Over(Some(Saying(before)), Odd(text, info)) == Odd(text, info)
  {
  }

  /** A message whose info is a text, "x" say, reaches the blob and gets no row. */
  lemma UnreadableInfoLosesTheRow(userId: string, text: string, info: string)
    requires NullFree(Text(text)) && NullFree(Text(info)) && info != ""
    ensures IsFirstStep(Small(userId, None), Put(Odd(text, info)))
    ensures var v := Step(Small(userId, None), Put(Odd(text, info)));
            v.rows == map[] && v.chats["c"].messages == map["m" := Odd(text, info)]
  {
    OddIsUnreadable(text, text, info);
    SmallIsFirstStep(userId, None, Odd(text, info));
    SmallStep(userId, None, Odd(text, info));
  }

  /** One that has a row leaves it behind: the row still shows the text of before. */
  lemma UnreadableInfoFreezesTheRow(userId: string, before: string, text: string, info: string)
    requires NullFree(Text(text)) && NullFree(Text(before)) && NullFree(Text(info)) && info != "" && text != before
    ensures IsFirstStep(Small(userId, Some(Saying(before))), Put(Odd(text, info)))
    ensures var w := Small(userId, Some(Saying(before)));
            var v := Step(w, Put(Odd(text, info)));
            && v.rows == w.rows && v.chats["c"].messages == map["m" := Odd(text, info)]
            && !Agrees(w.rows[CompositeId("c", "m")], Odd(text, info))
  {
    OddIsUnreadable(text, before, info);
    SmallIsFirstStep(userId, Some(Saying(before)), Odd(text, info));
    SmallStep(userId, Some(Saying(before)), Odd(text, info));
    OtherContentDisagrees(userId, Saying(before), Odd(text, info));
  }

  lemma OtherContentDisagrees(userId: string, stored: Message, d: Message)
    requires PlainStored(stored) && Shown(d, Content) != Shown(stored, Content)
    ensures !Agrees(Small(userId, Some(stored)).rows[CompositeId("c", "m")], d)
  {
    PlainIsClean(stored);
    NewRowAgrees("c", userId, stored, 0);
    assert Clean(Column(NewRow("c", userId, stored, 0), Content)) == Shown(stored, Content);
  }

  function Unsettled(text: string): Message { map["content" := Text(text), "done" := Null] }

  /** A new message with a null done is done in its row. */
  lemma NullDoneIsFilled(userId: string, text: string)
    requires NullFree(Text(text))
    ensures IsFirstStep(Small(userId, None), Put(Unsettled(text)))
    ensures var v, id := Step(Small(userId, None), Put(Unsettled(text))), CompositeId("c", "m");
            && v.chats["c"].messages == map["m" := Unsettled(text)]
            && id in v.rows && v.rows[id].done == Bool(true) && !Agrees(v.rows[id], Unsettled(text))
  {
    UnsettledIsPlain(text);
    SmallIsFirstStep(userId, None, Unsettled(text));
    SmallStep(userId, None, Unsettled(text));
    FilledRow(userId, Unsettled(text));
  }

  lemma UnsettledIsPlain(text: string)
    requires NullFree(Text(text))
    ensures PlainInput(None, Unsettled(text)) && Over(None, Unsettled(text)) == Unsettled(text)
    ensures !Unreadable(Unsettled(text)) && Get(Unsettled(text), "done", Bool(true)) == Null
  {
  }

  lemma FilledRow(userId: string, d: Message)
    requires Plain(d) && !Unreadable(d) && Get(d, "done", Bool(true)) == Null
    ensures var id, rows := CompositeId("c", "m"), Upserted(map[], "c", "m", userId, d, None, 1);
            id in rows && rows[id].done == Bool(true) && !Agrees(rows[id], d)
  {
    NewRowAgrees("c", userId, d, 1);
    PlainIsClean(d);
    FilledDoneDisagrees(NewRow("c", userId, d, 1), d, d);
  }

  function Under(parent: string): Message { map["parentId" := Text(parent)] }

  lemma UnderIsPlain(p: string, q: string)
    requires NullFree(Text(p)) && NullFree(Text(q))
    ensures PlainInput(Some(Under(p)), Under(q)) && Over(Some(Under(p)), Under(q)) == Under(q)
  {
  }

  lemma UpdatedKeepsParent(rows: Rows, userId: string, d: Message)
    requires CompositeId("c", "m") in rows && "parent_id" !in d
    ensures var id, rows' := CompositeId("c", "m"), Upserted(rows, "c", "m", userId, d, None, 1);
            id in rows' && rows'[id].parentId == rows[id].parentId
  {
  }

  /** An upsert that spells it parentId leaves the row under the old parent p, whatever the new one is. */
  lemma ParentMayBeStale(userId: string, p: string, q: string)
    requires NullFree(Text(p)) && NullFree(Text(q))
    ensures IsFirstStep(Small(userId, Some(Under(p))), Put(Under(q)))
    ensures var v, id := Step(Small(userId, Some(Under(p))), Put(Under(q))), CompositeId("c", "m");
            && id in v.rows && v.rows[id].parentId == Parent(Under(p)) && v.chats["c"].messages == map["m" := Under(q)]
  {
    UnderIsPlain(p, q);
    SmallIsFirstStep(userId, Some(Under(p)), Under(q));
    SmallStep(userId, Some(Under(p)), Under(q));
    UpdatedKeepsParent(Small(userId, Some(Under(p))).rows, userId, Under(q));
  }
}
