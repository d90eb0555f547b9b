/**
  Chat messages stored one row each (models/chat_messages.py): partial updates, backfilling, and
  rebuilding the navigable message map with its child lists.
 */
module ChatMessages {
  import opened Prelude

  type Id = string
  type Payload = map<string, Json>

  // ---------- Columns and the payload keys that set them ----------

  datatype Column =
    | Role | ParentId | Content | Output | ModelId | Files | Sources | Embeds | Meta | Done
    | StatusHistory | Error | ContextSummary

  /** A second key is the camel-case spelling; it counts when the first is absent or falsy. */
  function KeysOf(c: Column): (string, Option<string>) {
    match c
    case Role => ("role", None)
    case ParentId => ("parent_id", Some("parentId"))
    case Content => ("content", None)
    case Output => ("output", None)
    case ModelId => ("model_id", Some("model"))
    case Files => ("files", None)
    case Sources => ("sources", None)
    case Embeds => ("embeds", None)
    case Meta => ("meta", None)
    case Done => ("done", None)
    case StatusHistory => ("status_history", Some("statusHistory"))
    case Error => ("error", None)
    case ContextSummary => ("context_summary", Some("contextSummary"))
  }

  predicate Truthy(v: Json) {
    match v
    case JNull => false
    case JBool(b) => b
    case JNumber(mantissa, _) => mantissa != 0
    case JString(s) => s != []
    case JList(items) => items != []
    case JObject(fields) => fields != map[]
  }

  /** Python's `data.get(key)`. */
  function Lookup(data: Payload, key: string): Json {
    if key in data then data[key] else JNull
  }

  predicate Carries(data: Payload, c: Column) {
    var (key, other) := KeysOf(c);
    key in data || (other.Some? && other.value in data)
  }

  function ValueOf(data: Payload, c: Column): Json {
    var (key, other) := KeysOf(c);
    if other.None? || Truthy(Lookup(data, key)) then Lookup(data, key) else Lookup(data, other.value)
  }

  function Default(c: Column): Json {
    match c
    case Role => JString("user")
    case Done => JBool(true)
    case _ => JNull
  }

  /** The value of the last payload that carried the column. */
  function Latest(payloads: seq<Payload>, c: Column): Json {
    if payloads == [] then Default(c)
    else
      var last := payloads[|payloads| - 1];
      if Carries(last, c) then ValueOf(last, c) else Latest(payloads[..|payloads| - 1], c)
  }

  type Values = map<Column, Json>

  const COLUMNS: seq<Column> := [
    Role, ParentId, Content, Output, ModelId, Files, Sources, Embeds, Meta, Done, StatusHistory, Error, ContextSummary]

  const DEFAULTS: Values := map[
    Role := JString("user"), ParentId := JNull, Content := JNull, Output := JNull, ModelId := JNull, Files := JNull,
    Sources := JNull, Embeds := JNull, Meta := JNull, Done := JBool(true), StatusHistory := JNull, Error := JNull,
    ContextSummary := JNull]

  /** Every column has a value. */
  ghost predicate Full(values: Values) {
    forall c: Column :: c in values
  }

  /** The columns that the payload carries overwritten, the others kept. */
  ghost function ApplyTo(values: Values, data: Payload): Values {
    map c | c in values :: if Carries(data, c) then ValueOf(data, c) else values[c]
  }

  /** A row after its payloads, the first of which created it. */
  ghost function History(payloads: seq<Payload>): Values {
    if payloads == [] then DEFAULTS else ApplyTo(History(payloads[..|payloads| - 1]), payloads[|payloads| - 1])
  }

  lemma EveryColumn(c: Column)
    ensures c in COLUMNS && c in DEFAULTS && DEFAULTS[c] == Default(c)
  {
    match c
    case Role => assert COLUMNS[0] == Role;
    case ParentId => assert COLUMNS[1] == ParentId;
    case Content => assert COLUMNS[2] == Content;
    case Output => assert COLUMNS[3] == Output;
    case ModelId => assert COLUMNS[4] == ModelId;
    case Files => assert COLUMNS[5] == Files;
    case Sources => assert COLUMNS[6] == Sources;
    case Embeds => assert COLUMNS[7] == Embeds;
    case Meta => assert COLUMNS[8] == Meta;
    case Done => assert COLUMNS[9] == Done;
    case StatusHistory => assert COLUMNS[10] == StatusHistory;
    case Error => assert COLUMNS[11] == Error;
    case ContextSummary => assert COLUMNS[12] == ContextSummary;
  }

  /** Each column of a row holds the value of the last payload that carried it. */
  lemma {:induction false} HistoryIsLatest(payloads: seq<Payload>, c: Column)
    ensures c in History(payloads) && History(payloads)[c] == Latest(payloads, c)
    decreases |payloads|
  {
    EveryColumn(c);
    if payloads != [] {
      var rest := payloads[..|payloads| - 1];
      HistoryIsLatest(rest, c);
    }
  }

  // ---------- Which payload key sets which column ----------

  predicate Falsy(v: Json) {
    v in {JNull, JBool(false), JString(""), JList([]), JObject(map[])} || (v.JNumber? && v.mantissa == 0)
  }

  lemma LatestNone(c: Column)
    ensures Latest([], Role) == JString("user") && Latest([], Done) == JBool(true)
    ensures c != Role && c != Done ==> Latest([], c) == JNull
  {
  }

  /** A column with one key holds what the last payload with that key said. */
  lemma LatestPlain(payloads: seq<Payload>, data: Payload, c: Column, key: string)
    requires (c, key) in [
      (Role, "role"), (Content, "content"), (Output, "output"), (Files, "files"), (Sources, "sources"),
      (Embeds, "embeds"), (Meta, "meta"), (Done, "done"), (Error, "error")]
    ensures Latest(payloads + [data], c) == if key in data then data[key] else Latest(payloads, c)
  {
    LatestStep(payloads, data, c);
  }

  /** One with two spellings prefers the first, unless that is falsy; a falsy one alone clears it. */
  lemma LatestEither(payloads: seq<Payload>, data: Payload, c: Column, snake: string, camel: string)
    requires (c, snake, camel) in [
      (ParentId, "parent_id", "parentId"), (ModelId, "model_id", "model"),
      (StatusHistory, "status_history", "statusHistory"), (ContextSummary, "context_summary", "contextSummary")]
    ensures Latest(payloads + [data], c) ==
            if snake in data && !Falsy(data[snake]) then data[snake]
            else if camel in data then data[camel]
            else if snake in data then JNull
            else Latest(payloads, c)
  {
    LatestStep(payloads, data, c);
    if snake in data {
      assert Truthy(data[snake]) <==> !Falsy(data[snake]);
    }
  }

  lemma LatestStep(payloads: seq<Payload>, data: Payload, c: Column)
    ensures Latest(payloads + [data], c) == if Carries(data, c) then ValueOf(data, c) else Latest(payloads, c)
  {
    assert (payloads + [data])[..|payloads|] == payloads;
  }

  lemma HistoryIsFull(payloads: seq<Payload>)
    ensures Full(History(payloads))
  {
    forall c: Column
      ensures c in History(payloads)
    {
      HistoryIsLatest(payloads, c);
    }
  }

  lemma HistoryStep(payloads: seq<Payload>, data: Payload)
    ensures History(payloads + [data]) == ApplyTo(History(payloads), data)
  {
    assert (payloads + [data])[..|payloads|] == payloads;
  }

  // ---------- Usage ----------

  /** `get_usage`, None for an absent or empty one, `normalize_usage` and `merge_usage`. */
  datatype UsageRules = UsageRules(
    extract: Payload -> Option<Json>, normalize: Option<Json> -> Json, merge: (Json, Json) -> Json)

  /** A usage that the row has already is not merged a second time. */
  function UsageAfter(rules: UsageRules, current: Option<Json>, data: Payload): Option<Json> {
    var usage := rules.extract(data);
    if usage.None? then current
    else
      var existing := rules.normalize(current);
      Some(if usage.value == existing then usage.value else rules.merge(existing, usage.value))
  }

  /** The usage of a row after its payloads, the first of which created it. */
  ghost function UsageHistory(rules: UsageRules, payloads: seq<Payload>): Option<Json> {
    if payloads == [] then None
    else if |payloads| == 1 then rules.extract(payloads[0])
    else UsageAfter(rules, UsageHistory(rules, payloads[..|payloads| - 1]), payloads[|payloads| - 1])
  }

  /** Payloads without usage, or repeating the one that the row has in normal form, change nothing. */
  lemma {:induction false} RepeatsCountOnce(rules: UsageRules, payloads: seq<Payload>, more: seq<Payload>)
    requires payloads != []
    requires var usage := UsageHistory(rules, payloads);
             forall k :: 0 <= k < |more| ==>
               rules.extract(more[k]).None? || (rules.extract(more[k]) == usage && rules.normalize(usage) == usage.value)
    ensures UsageHistory(rules, payloads + more) == UsageHistory(rules, payloads)
    decreases |more|
  {
    if more == [] {
      assert payloads + more == payloads;
    } else {
      var n := |more| - 1;
      RepeatsCountOnce(rules, payloads, more[..n]);
      assert (payloads + more)[..|payloads| + n] == payloads + more[..n];
    }
  }

  /** The usage that further payloads leave: the first one's as it is, a new one merged in, the same one not twice. */
  lemma UsageNext(rules: UsageRules, payloads: seq<Payload>, data: Payload)
    ensures UsageHistory(rules, [data]) == rules.extract(data)
    ensures var before, usage := UsageHistory(rules, payloads), rules.extract(data);
            payloads != [] ==>
              UsageHistory(rules, payloads + [data]) ==
              if usage.None? then before
              else if usage.value == rules.normalize(before) then usage
              else Some(rules.merge(rules.normalize(before), usage.value))
  {
    UsageStep(rules, payloads, data);
  }

  lemma UsageStep(rules: UsageRules, payloads: seq<Payload>, data: Payload)
    ensures UsageHistory(rules, payloads + [data]) ==
            if payloads == [] then rules.extract(data) else UsageAfter(rules, UsageHistory(rules, payloads), data)
  {
    assert (payloads + [data])[..|payloads|] == payloads;
  }

  // ---------- Rows ----------

  datatype Row = Row(chatId: Id, values: Values, usage: Option<Json>, createdAt: Json)

  /** `timestamp or now`. */
  function CreatedAt(data: Payload, now: int): Json {
    if Truthy(Lookup(data, "timestamp")) then Lookup(data, "timestamp") else JNumber(now, 0)
  }

  lemma CreatedAtMeans(data: Payload, now: int)
    ensures CreatedAt(data, now) ==
            if "timestamp" in data && !Falsy(data["timestamp"]) then data["timestamp"] else JNumber(now, 0)
  {
    if "timestamp" in data {
      assert Truthy(data["timestamp"]) <==> !Falsy(data["timestamp"]);
    }
  }

  /** A row belongs to the chat its id names and is the result of its payloads. */
  ghost predicate RowOk(rules: UsageRules, id: Id, row: Row, payloads: seq<Payload>) {
    row.chatId + "-" <= id && payloads != [] &&
    row.values == History(payloads) && row.usage == UsageHistory(rules, payloads)
  }

  /** One more payload applied to a row. */
  lemma RowStep(rules: UsageRules, id: Id, row: Row, payloads: seq<Payload>, data: Payload)
    requires RowOk(rules, id, row, payloads)
    ensures Full(row.values)
    ensures RowOk(rules, id, row.(values := ApplyTo(row.values, data), usage := UsageAfter(rules, row.usage, data)),
                  payloads + [data])
  {
    HistoryIsFull(payloads);
    HistoryStep(payloads, data);
    UsageStep(rules, payloads, data);
  }

  // ---------- Composite ids ----------

  function Composite(chatId: Id, messageId: Id): Id {
    chatId + "-" + messageId
  }

  predicate Collide(a: Id, b: Id) {
    a + "-" <= b + "-" || b + "-" <= a + "-"
  }

  lemma PrefixGivesMessage(a: Id, b: Id) returns (m: Id, m': Id)
    requires a + "-" <= b + "-"
    ensures Composite(a, m) == Composite(b, m')
  {
    m, m' := (b + "-")[|a| + 1..], "";
    assert b + "-" == (a + "-") + m;
  }

  /** Two chats can share a composite id exactly when one chat id begins with the other and a dash. */
  lemma CollideExactly(a: Id, b: Id)
    ensures Collide(a, b) <==> exists m, m' :: Composite(a, m) == Composite(b, m')
  {
    if a + "-" <= b + "-" {
      var m, m' := PrefixGivesMessage(a, b);
    } else if b + "-" <= a + "-" {
      var m, m' := PrefixGivesMessage(b, a);
      assert Composite(a, m') == Composite(b, m);
    }
    forall m, m' | Composite(a, m) == Composite(b, m')
      ensures Collide(a, b)
    {
      var id := Composite(a, m);
      assert id[..|a| + 1] == a + "-" && id[..|b| + 1] == b + "-";
      if |a| <= |b| {
        assert (b + "-")[..|a| + 1] == id[..|a| + 1];
      } else {
        assert (a + "-")[..|b| + 1] == id[..|b| + 1];
      }
    }
  }

  /** Chat ids of one length never collide. */
  lemma EqualLengthsDoNotCollide(a: Id, b: Id)
    requires |a| == |b| && a != b
    ensures !Collide(a, b)
  {
    assert (a + "-")[..|a|] == a && (b + "-")[..|b|] == b;
  }

  lemma CompositeInjective(a: Id, m: Id, b: Id, m': Id)
    requires Composite(a, m) == Composite(b, m') && (a == b || !Collide(a, b))
    ensures a == b && m == m'
  {
    CollideExactly(a, b);
    assert Composite(a, m)[|a| + 1..] == m && Composite(b, m')[|b| + 1..] == m';
  }

  lemma CompositeTail(chatId: Id, messageId: Id)
    ensures chatId + "-" <= Composite(chatId, messageId) && Composite(chatId, messageId)[|chatId| + 1..] == messageId
  {
  }

  /** The row of a message of the chat; under a colliding id it may be another chat's. */
  predicate Owned(rows: map<Id, Row>, chatId: Id, messageId: Id) {
    Composite(chatId, messageId) in rows && rows[Composite(chatId, messageId)].chatId == chatId
  }

  /** Every row under a composite id is the chat's own exactly when no row of a colliding chat is. */
  lemma OwnRowsExactly(rules: UsageRules, rows: map<Id, Row>, log: map<Id, seq<Payload>>, chatId: Id)
    requires rows.Keys == log.Keys && forall id :: id in rows ==> RowOk(rules, id, rows[id], log[id])
    ensures (forall m :: Composite(chatId, m) in rows ==> Owned(rows, chatId, m)) <==>
            forall id :: id in rows && rows[id].chatId != chatId ==> !(chatId + "-" <= id)
    ensures (forall id :: id in rows && rows[id].chatId != chatId ==> !Collide(rows[id].chatId, chatId)) ==>
              forall m :: Composite(chatId, m) in rows ==> Owned(rows, chatId, m)
  {
    forall m | Composite(chatId, m) in rows
      ensures chatId + "-" <= Composite(chatId, m)
    {
      CompositeTail(chatId, m);
    }
    forall id | id in rows && chatId + "-" <= id
      ensures Composite(chatId, id[|chatId| + 1..]) == id
      ensures Collide(rows[id].chatId, chatId)
    {
      var own := rows[id].chatId;
      assert id == Composite(chatId, id[|chatId| + 1..]);
      assert RowOk(rules, id, rows[id], log[id]);
      assert id == Composite(own, id[|own| + 1..]);
      CollideExactly(own, chatId);
    }
  }

  /** Nothing that was there changed, and the messages in `done` that were missing are there. */
  ghost predicate Filled(chatId: Id, messages: map<Id, Payload>, done: set<Id>, rows: map<Id, Row>,
                         log: map<Id, seq<Payload>>, rows': map<Id, Row>, log': map<Id, seq<Payload>>, now: int)
    requires done <= messages.Keys
  {
    (forall k :: k in rows ==> k in rows' && rows'[k] == rows[k]) &&
    (forall k :: k in log ==> k in log' && log'[k] == log[k]) &&
    (forall m :: m in done && Composite(chatId, m) !in rows ==>
       Composite(chatId, m) in rows' && rows'[Composite(chatId, m)].chatId == chatId &&
       rows'[Composite(chatId, m)].createdAt == CreatedAt(messages[m], now) &&
       Composite(chatId, m) in log' && log'[Composite(chatId, m)] == [messages[m]]) &&
    forall k :: k in rows' && k !in rows ==> chatId + "-" <= k && k[|chatId| + 1..] in done
  }

  lemma FillStep(chatId: Id, messages: map<Id, Payload>, done: set<Id>, rows: map<Id, Row>, log: map<Id, seq<Payload>>,
                 rows': map<Id, Row>, log': map<Id, seq<Payload>>, rows'': map<Id, Row>, log'': map<Id, seq<Payload>>, now: int, m: Id)
    requires done <= messages.Keys && m in messages && m !in done && rows.Keys == log.Keys && rows'.Keys == log'.Keys
    requires Filled(chatId, messages, done, rows, log, rows', log', now)
    requires var id := Composite(chatId, m);
             if id in rows' then rows'' == rows' && log'' == log'
             else id in rows'' && rows'' == rows'[id := rows''[id]] && rows''[id].chatId == chatId &&
                  rows''[id].createdAt == CreatedAt(messages[m], now) && log'' == log'[id := [messages[m]]]
    ensures Filled(chatId, messages, done + {m}, rows, log, rows'', log'', now)
  {
    var id := Composite(chatId, m);
    CompositeTail(chatId, m);
    assert id in rows' ==> id in rows;
    forall x | x in done
      ensures Composite(chatId, x) != id
    {
      CompositeTail(chatId, x);
    }
  }

  // ---------- Rebuilt messages ----------

  /** A message of the rebuilt map: its non-null values, with a content always there, and its children. */
  datatype Message = Message(values: Values, usage: Option<Json>, timestamp: Json, children: Option<seq<Id>>)

  function ToMessage(row: Row): Message {
    Message(Visible(row.values), row.usage, row.createdAt, None)
  }

  function Visible(values: Values): Values {
    var shown := map c | c in values && values[c] != JNull :: values[c];
    if Content in shown then shown else shown[Content := JString("")]
  }

  /** The columns shown hold the last payload's values; a null one is left out, but a null content is "". */
  ghost predicate ShowsLatest(shown: Values, payloads: seq<Payload>) {
    forall c: Column ::
      (c in shown <==> c == Content || Latest(payloads, c) != JNull) &&
      (c in shown ==> shown[c] == if Latest(payloads, c) == JNull then JString("") else Latest(payloads, c))
  }

  lemma VisibleIsLatest(payloads: seq<Payload>)
    ensures ShowsLatest(Visible(History(payloads)), payloads)
  {
    forall c: Column
      ensures c in History(payloads) && History(payloads)[c] == Latest(payloads, c)
    {
      HistoryIsLatest(payloads, c);
    }
  }

  lemma ParentIsLatest(payloads: seq<Payload>, p: Id)
    ensures Names(Visible(History(payloads)), p) <==> p != "" && Latest(payloads, ParentId) == JString(p)
  {
    HistoryIsLatest(payloads, ParentId);
  }

  function ParentOf(values: Values): Option<Id> {
    if ParentId in values && values[ParentId].JString? && values[ParentId].s != [] then Some(values[ParentId].s) else None
  }

  function ChildList(m: Message): seq<Id> {
    if m.children.Some? then m.children.value else []
  }

  /** What the first loop has built from some of a chat's rows. */
  ghost predicate Loaded(chatId: Id, rows: map<Id, Row>, ids: seq<Id>, messages: map<Id, Message>, order: seq<Id>) {
    (forall m :: m in messages <==> Composite(chatId, m) in ids) &&
    (forall m :: m in order <==> m in messages) &&
    forall m :: m in messages ==>
      Composite(chatId, m) in rows && messages[m] == ToMessage(rows[Composite(chatId, m)])
  }

  lemma LoadStep(chatId: Id, rows: map<Id, Row>, ids: seq<Id>, messages: map<Id, Message>, order: seq<Id>, id: Id)
    requires Loaded(chatId, rows, ids, messages, order)
    requires id in rows && chatId + "-" <= id
    ensures var m := id[|chatId| + 1..];
            Loaded(chatId, rows, ids + [id], messages[m := ToMessage(rows[id])], order + [m])
  {
    var messageId := id[|chatId| + 1..];
    assert id == Composite(chatId, messageId);
    forall m | Composite(chatId, m) == id
      ensures m == messageId
    {
      CompositeTail(chatId, m);
    }
  }

  /** The parent column names p, and p is not empty. */
  ghost predicate Names(values: Values, p: Id) {
    p != "" && ParentId in values && values[ParentId] == JString(p)
  }

  /** What an inverse says of one message. */
  ghost predicate InverseAt(messages: map<Id, Message>, linked: set<Id>, p: Id)
    requires p in messages
  {
    var children := ChildList(messages[p]);
    Distinct(children) &&
    forall m :: m in children <==> m in linked && m in messages && Names(messages[m].values, p)
  }

  /** Child lists are the inverse of the parent links among `linked`, each child once. */
  ghost predicate Inverse(messages: map<Id, Message>, linked: set<Id>) {
    forall p :: p in messages ==> InverseAt(messages, linked, p)
  }

  /** One round of the linking loop. */
  function Link(messages: map<Id, Message>, id: Id): map<Id, Message>
    requires id in messages
  {
    var parent := ParentOf(messages[id].values);
    if parent.Some? && parent.value in messages then
      var p := messages[parent.value];
      var children := ChildList(p);
      messages[parent.value := p.(children := Some(if id in children then children else children + [id]))]
    else messages
  }

  lemma LinkFrame(messages: map<Id, Message>, id: Id)
    requires id in messages
    ensures Link(messages, id).Keys == messages.Keys
    ensures forall m :: m in messages ==>
              Link(messages, id)[m] == messages[m].(children := Link(messages, id)[m].children)
    ensures forall m :: m in messages && ParentOf(messages[id].values) != Some(m) ==> Link(messages, id)[m] == messages[m]
  {
  }

  lemma LinkKeepsInverse(messages: map<Id, Message>, linked: set<Id>, id: Id)
    requires id in messages && Inverse(messages, linked)
    ensures Inverse(Link(messages, id), linked + {id})
    ensures Link(messages, id).Keys == messages.Keys
    ensures forall m :: m in messages ==>
              Link(messages, id)[m] == messages[m].(children := Link(messages, id)[m].children)
  {
    LinkFrame(messages, id);
    forall p | p in messages
      ensures InverseAt(Link(messages, id), linked + {id}, p)
    {
      assert InverseAt(messages, linked, p);
      if ParentOf(messages[id].values) == Some(p) {
        var children := ChildList(messages[p]);
        assert ChildList(Link(messages, id)[p]) == if id in children then children else children + [id];
      }
    }
  }

  /** The linking loop has dealt with `linked` and changed nothing but child lists. */
  ghost predicate LinkedUpTo(loaded: map<Id, Message>, messages: map<Id, Message>, linked: set<Id>) {
    SameValues(loaded, messages) && Inverse(messages, linked)
  }

  ghost predicate SameValues(loaded: map<Id, Message>, messages: map<Id, Message>) {
    messages.Keys == loaded.Keys &&
    forall m :: m in messages ==> messages[m] == loaded[m].(children := messages[m].children)
  }

  lemma LinkStep(loaded: map<Id, Message>, messages: map<Id, Message>, linked: seq<Id>, id: Id)
    requires LinkedUpTo(loaded, messages, (set m | m in linked)) && id in messages
    ensures LinkedUpTo(loaded, Link(messages, id), set m | m in linked + [id])
  {
    LinkKeepsInverse(messages, (set m | m in linked), id);
    assert (set m | m in linked + [id]) == (set m | m in linked) + {id};
  }

  lemma NothingLinked(messages: map<Id, Message>)
    requires forall m :: m in messages ==> messages[m].children == None
    ensures LinkedUpTo(messages, messages, {})
  {
    forall p | p in messages
      ensures InverseAt(messages, {}, p)
    {
    }
  }

  /** The third loop: a message without a child list gets an empty one. */
  function Sealed(messages: map<Id, Message>): map<Id, Message> {
    map m | m in messages :: messages[m].(children := Some(ChildList(messages[m])))
  }

  lemma SealedKeepsInverse(loaded: map<Id, Message>, messages: map<Id, Message>)
    requires LinkedUpTo(loaded, messages, messages.Keys)
    ensures LinkedUpTo(loaded, Sealed(messages), messages.Keys)
    ensures forall m :: m in messages ==> Sealed(messages)[m].children.Some?
  {
    forall p | p in messages
      ensures InverseAt(Sealed(messages), messages.Keys, p)
    {
      assert InverseAt(messages, messages.Keys, p);
    }
  }

  class Table {
    const rules: UsageRules
    var rows: map<Id, Row>
    ghost var log: map<Id, seq<Payload>>   // the payloads applied to each row

    ghost predicate Valid()
      reads this
    {
      rows.Keys == log.Keys && forall id :: id in rows ==> RowOk(rules, id, rows[id], log[id])
    }

    constructor (rules: UsageRules)
      ensures Valid() && this.rules == rules && rows == map[] && log == map[]
    {
      this.rules := rules;
      rows, log := map[], map[];
    }

    /** Overwrite only what the payload carries. */
    static method ApplyColumns(values: Values, data: Payload) returns (r: Values)
      requires Full(values)
      ensures r == ApplyTo(values, data)
    {
      r := values;
      for n := 0 to |COLUMNS|
        invariant r.Keys == values.Keys
        invariant forall c :: c in values ==>
          r[c] == if c in COLUMNS[..n] && Carries(data, c) then ValueOf(data, c) else values[c]
      {
        var c := COLUMNS[n];
        assert COLUMNS[..n + 1] == COLUMNS[..n] + [c];
        if Carries(data, c) {
          r := r[c := ValueOf(data, c)];
        }
      }
      assert COLUMNS[..|COLUMNS|] == COLUMNS;
      forall c: Column
        ensures c in COLUMNS
      {
        EveryColumn(c);
      }
    }

    /** `_apply_message_data`. */
    method Apply(row: Row, data: Payload) returns (r: Row)
      requires Full(row.values)
      ensures r == row.(values := ApplyTo(row.values, data), usage := UsageAfter(rules, row.usage, data))
    {
      var values := ApplyColumns(row.values, data);
      r := row.(values := values);
      var usage := rules.extract(data);
      if usage.Some? {
        var existing := rules.normalize(row.usage);
        r := r.(usage := Some(if usage.value == existing then usage.value else rules.merge(existing, usage.value)));
      }
    }

    /** `_build_message`: what the payload lacks gets its default. */
    method Build(chatId: Id, messageId: Id, data: Payload, now: int) returns (row: Row)
      ensures row.chatId == chatId && row.createdAt == CreatedAt(data, now)
      ensures RowOk(rules, Composite(chatId, messageId), row, [data])
    {
      HistoryIsFull([]);
      var values := ApplyColumns(DEFAULTS, data);
      HistoryStep([], data);
      row := Row(chatId, values, rules.extract(data), CreatedAt(data, now));
    }

    /** Write one row and record what was applied to it. */
    method Put(id: Id, row: Row, ghost payloads: seq<Payload>)
      requires Valid() && RowOk(rules, id, row, payloads)
      modifies this
      ensures Valid() && rows == old(rows)[id := row] && log == old(log)[id := payloads]
    {
      rows := rows[id := row];
      log := log[id := payloads];
    }

    method UpsertMessage(chatId: Id, messageId: Id, data: Payload, now: int)
      requires Valid()
      modifies this
      ensures Valid()
      ensures var id := Composite(chatId, messageId);
              log == old(log)[id := (if id in old(log) then old(log)[id] else []) + [data]] &&
              rows.Keys == old(rows).Keys + {id} &&
              rows[id].chatId == (if id in old(rows) then old(rows)[id].chatId else chatId) &&
              rows[id].createdAt == (if id in old(rows) then old(rows)[id].createdAt else CreatedAt(data, now)) &&
              forall k :: k in old(rows) && k != id ==> rows[k] == old(rows)[k]
    {
      var id := Composite(chatId, messageId);
      ghost var payloads := if id in log then log[id] else [];
      var row: Row;
      if id in rows {
        RowStep(rules, id, rows[id], payloads, data);
        row := Apply(rows[id], data);
      } else {
        row := Build(chatId, messageId, data, now);
        assert payloads + [data] == [data];
      }
      Put(id, row, payloads + [data]);
    }

    method BackfillOne(chatId: Id, messageId: Id, data: Payload, now: int)
      requires Valid()
      modifies this
      ensures Valid()
      ensures var id := Composite(chatId, messageId);
              if id in old(rows) then rows == old(rows) && log == old(log)
              else id in rows && rows == old(rows)[id := rows[id]] && rows[id].chatId == chatId &&
                   rows[id].createdAt == CreatedAt(data, now) && log == old(log)[id := [data]]
    {
      var id := Composite(chatId, messageId);
      if id !in rows {
        var row := Build(chatId, messageId, data, now);
        Put(id, row, [data]);
      }
    }

    /** `upsert_messages`: rows that exist win over the payload. */
    method Backfill(chatId: Id, messages: map<Id, Payload>, now: int)
      requires Valid()
      modifies this
      ensures Valid()
      ensures Filled(chatId, messages, messages.Keys, old(rows), old(log), rows, log, now)
    {
      var rest := messages.Keys;
      while rest != {}
        invariant Valid() && rest <= messages.Keys
        invariant Filled(chatId, messages, messages.Keys - rest, old(rows), old(log), rows, log, now)
        decreases rest
      {
        var m :| m in rest;
        ghost var rowsNow, logNow := rows, log;
        ghost var filled := messages.Keys - rest;
        BackfillOne(chatId, m, messages[m], now);
        FillStep(chatId, messages, filled, old(rows), old(log), rowsNow, logNow, rows, log, now, m);
        rest := rest - {m};
        assert messages.Keys - rest == filled + {m};
      }
      assert messages.Keys - {} == messages.Keys;
    }

    /** The ids of a chat's rows, in the order the database returns them. */
    method RowsOf(chatId: Id) returns (ids: seq<Id>)
      ensures Distinct(ids) && forall id :: id in ids <==> id in rows && rows[id].chatId == chatId
    {
      ids := [];
      var rest := rows.Keys;
      while rest != {}
        invariant rest <= rows.Keys && Distinct(ids)
        invariant forall id :: id in ids <==> id in rows && id !in rest && rows[id].chatId == chatId
        decreases rest
      {
        var id :| id in rest;
        if rows[id].chatId == chatId {
          ids := ids + [id];
        }
        rest := rest - {id};
      }
    }

    /** The first loop: messages under their original ids, without child lists. */
    method LoadMessages(chatId: Id, ids: seq<Id>) returns (messages: map<Id, Message>, order: seq<Id>)
      requires Valid()
      requires forall id :: id in ids <==> id in rows && rows[id].chatId == chatId
      ensures forall m :: m in messages <==> Owned(rows, chatId, m)
      ensures forall m :: m in order <==> m in messages
      ensures forall m :: m in messages ==>
                Composite(chatId, m) in log &&
                messages[m] == Message(Visible(History(log[Composite(chatId, m)])),
                                       UsageHistory(rules, log[Composite(chatId, m)]),
                                       rows[Composite(chatId, m)].createdAt, None)
    {
      var prefix := chatId + "-";
      messages, order := map[], [];
      for k := 0 to |ids|
        invariant Loaded(chatId, rows, ids[..k], messages, order)
      {
        var id := ids[k];
        assert id in ids;
        assert ids[..k + 1] == ids[..k] + [id];
        var messageId := if prefix <= id then id[|prefix|..] else id;
        LoadStep(chatId, rows, ids[..k], messages, order, id);
        messages := messages[messageId := ToMessage(rows[id])];
        order := order + [messageId];
      }
      assert ids[..|ids|] == ids;
    }

    /** The second loop: append every message to its parent's list, when the parent is there. */
    static method LinkMessages(loaded: map<Id, Message>, order: seq<Id>) returns (messages: map<Id, Message>)
      requires forall m :: m in order <==> m in loaded
      requires forall m :: m in loaded ==> loaded[m].children == None
      ensures LinkedUpTo(loaded, messages, loaded.Keys)
    {
      messages := loaded;
      NothingLinked(loaded);
      assert (set m | m in order[..0]) == {};
      for k := 0 to |order|
        invariant LinkedUpTo(loaded, messages, set m | m in order[..k])
      {
        assert order[k] in order;
        assert order[..k + 1] == order[..k] + [order[k]];
        LinkStep(loaded, messages, order[..k], order[k]);
        messages := Link(messages, order[k]);
      }
      assert order[..|order|] == order;
      assert (set m | m in order) == loaded.Keys;
    }

    /** `get_messages_map_by_chat_id`. */
    method MessagesMap(chatId: Id) returns (r: Option<map<Id, Message>>)
      requires Valid()
      ensures r.None? <==> forall id :: id in rows ==> rows[id].chatId != chatId
      // keyed by the original message ids
      ensures r.Some? ==> forall m :: m in r.value <==> Owned(rows, chatId, m)
      // every field from the last payload that carried it, nulls left out, and a content always there
      ensures r.Some? ==> forall m :: m in r.value ==>
                Composite(chatId, m) in log && ShowsLatest(r.value[m].values, log[Composite(chatId, m)]) &&
                r.value[m].usage == UsageHistory(rules, log[Composite(chatId, m)]) &&
                r.value[m].timestamp == rows[Composite(chatId, m)].createdAt && r.value[m].children.Some?
      // m is a child of p exactly when both are there and m's last parent id is p; no child comes twice
      ensures r.Some? ==> forall p, m :: p in r.value ==>
                Composite(chatId, p) in log && Distinct(r.value[p].children.value) &&
                (m in r.value[p].children.value <==>
                 p != "" && m in r.value && Composite(chatId, m) in log &&
                 Latest(log[Composite(chatId, m)], ParentId) == JString(p))
    {
      var ids := RowsOf(chatId);
      if ids == [] {
        return None;
      }
      assert ids[0] in ids;
      var loaded, order := LoadMessages(chatId, ids);
      var messages := LinkMessages(loaded, order);
      SealedKeepsInverse(loaded, messages);
      var result := Sealed(messages);
      forall m | m in result
        ensures ShowsLatest(result[m].values, log[Composite(chatId, m)])
      {
        VisibleIsLatest(log[Composite(chatId, m)]);
      }
      forall p, m | p in result
        ensures Distinct(result[p].children.value)
        ensures m in result[p].children.value <==>
                p != "" && m in result && Latest(log[Composite(chatId, m)], ParentId) == JString(p)
      {
        assert InverseAt(result, messages.Keys, p);
        if m in result {
          ParentIsLatest(log[Composite(chatId, m)], p);
        }
      }
      r := Some(result);
    }
  }
}
