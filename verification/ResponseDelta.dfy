/**
  Streaming delta events (utils/response.py) and the decoding of a response log (tasks.py), which
  joins adjacent deltas that have the same key before it applies them.
 */
module ResponseDelta {
  import opened Prelude

  type Output = seq<Json>

  /** A log event; an index that the event does not carry is None, an absent item id is JNull. */
  datatype Event = Event(
    eventType: string,
    itemId: Json,
    outputIndex: Option<int>,
    contentIndex: Option<int>,
    summaryIndex: Option<int>,
    delta: string)

  // ---------- Event types ----------

  const PREFIX := "response."
  const SUFFIX := ".delta"

  predicate EndsWith(s: string, suffix: string) {
    |suffix| <= |s| && s[|s| - |suffix|..] == suffix
  }

  predicate IsResponseDelta(eventType: string) {
    PREFIX <= eventType && EndsWith(eventType, SUFFIX)
  }

  function UntilDot(s: string): Option<string> {
    if s == [] then None
    else if s[0] == '.' then Some([])
    else
      var rest := UntilDot(s[1..]);
      if rest.None? then None else Some([s[0]] + rest.value)
  }

  /** The second of at least three dot-separated parts. */
  function DeltaKind(eventType: string): Option<string> {
    if IsResponseDelta(eventType) then UntilDot(eventType[|PREFIX|..]) else None
  }

  // ---------- Applying one delta ----------

  /** `deep_merge` of the stored value, an absent or null one counting as "", with a text delta. */
  function MergeText(current: Option<Json>, delta: string): Json {
    if current.Some? && current.value.JString? then JString(current.value.s + delta) else JString(delta)
  }

  function Field(o: map<string, Json>, key: string): Option<Json> {
    if key in o then Some(o[key]) else None
  }

  /** Python's `list(...)` of a field, an absent one counting as []. */
  function ListOf(field: Option<Json>): Result<seq<Json>> {
    match field
    case None => Ok([])
    case Some(JList(items)) => Ok(items)
    case Some(JString(s)) => Ok(seq(|s|, k requires 0 <= k < |s| => JString([s[k]])))
    case Some(_) => Err
  }

  function Pad(items: seq<Json>, length: int, filler: Json): (r: seq<Json>)
    ensures |r| == if length <= |items| then |items| else length
    ensures items <= r
    decreases length - |items|
  {
    if length <= |items| then items else Pad(items + [filler], length, filler)
  }

  function TextPart(partType: string): Json {
    JObject(map["type" := JString(partType), "text" := JString("")])
  }

  /** Merge `delta` into field `key` of part `index`, padding the list first; a negative index counts from the end. */
  function UpdatePart(parts: seq<Json>, index: int, filler: Json, key: string, delta: string): Result<seq<Json>> {
    var padded := Pad(parts, index + 1, filler);
    var at := if index < 0 then |padded| + index else index;
    if at < 0 || !padded[at].JObject? then Err
    else
      var part := padded[at].fields;
      Ok(padded[at := JObject(part[key := MergeText(Field(part, key), delta)])])
  }

  function UpdatePartField(item: map<string, Json>, listKey: string, index: Option<int>, filler: Json, key: string,
                           delta: string): Result<map<string, Json>> {
    var parts :- ListOf(Field(item, listKey));
    var parts' :- UpdatePart(parts, if index.Some? then index.value else 0, filler, key, delta);
    Ok(item[listKey := JList(parts')])
  }

  function TextKey(kind: string): string {
    if kind == "text" || kind == "output_text" then "text" else kind
  }

  predicate ReasoningKind(kind: string) {
    kind == "reasoning_text" || kind == "reasoning_summary_text"
  }

  function ItemType(item: map<string, Json>): Json {
    if "type" in item then item["type"] else JString("")
  }

  function UpdateItem(e: Event, kind: string, item: map<string, Json>): Result<map<string, Json>> {
    var itemType := ItemType(item);
    if kind == "function_call_arguments" then
      if itemType != JString("function_call") then Ok(item)
      else
        var arguments := if "arguments" in item then item["arguments"] else JString("");
        if arguments.JString? then Ok(item["arguments" := JString(arguments.s + e.delta)]) else Err
    else if itemType == JString("message") then
      if ReasoningKind(kind) then Ok(item)
      else UpdatePartField(item, "content", e.contentIndex, TextPart("text"), TextKey(kind), e.delta)
    else if itemType == JString("reasoning") then
      if kind == "reasoning_summary_text" then
        UpdatePartField(item, "summary", e.summaryIndex, TextPart("summary_text"), "text", e.delta)
      else if kind == "reasoning_text" then
        UpdatePartField(item, "content", e.contentIndex, TextPart("text"), "text", e.delta)
      else Ok(item)
    else
      Ok(item[TextKey(kind) := MergeText(Field(item, TextKey(kind)), e.delta)])
  }

  const PLACEHOLDER: map<string, Json> := map[
    "type" := JString("message"), "status" := JString("in_progress"), "role" := JString("assistant"), "content" := JList([])]

  function NewItemType(kind: string): string {
    if "reasoning" <= kind then "reasoning"
    else if kind == "function_call_arguments" then "function_call"
    else "message"
  }

  function OutputIndex(e: Event, out: Output): int {
    if e.outputIndex.Some? then e.outputIndex.value else if out == [] then 0 else |out| - 1
  }

  /** A delta may address an item that no event has added yet. */
  function Extend(e: Event, kind: string, out: Output): (r: Output)
    ensures |r| == if OutputIndex(e, out) < |out| then |out| else OutputIndex(e, out) + 1
  {
    var index := OutputIndex(e, out);
    if index < |out| then out
    else
      var item := PLACEHOLDER["id" := e.itemId]["type" := JString(NewItemType(kind))];
      Pad(out, index, JObject(PLACEHOLDER)) + [JObject(item)]
  }

  /** The branch of the event handler for types that end in ".delta"; Err stands for its exceptions. */
  function Handle(e: Event, out: Output): Result<Output> {
    var kind := DeltaKind(e.eventType);
    if kind.None? then Ok(out)
    else
      var index := OutputIndex(e, out);
      var extended := Extend(e, kind.value, out);
      if index < 0 then Ok(extended)
      else if !extended[index].JObject? then Err
      else
        var item :- UpdateItem(e, kind.value, extended[index].fields);
        Ok(extended[index := JObject(item)])
  }

  // ---------- Applying two texts in turn is applying their concatenation ----------

  function WithText(e: Event, text: string): Event {
    e.(delta := text)
  }

  /** A delta of kind "type" can change the type of the item it addresses, and with it the branch. */
  predicate Appends(e: Event) {
    DeltaKind(e.eventType) == Some("type") ==> e.outputIndex.Some? && e.outputIndex.value < 0
  }

  function Then(r: Result<Output>, e: Event): Result<Output> {
    if r.Err? then Err else Handle(e, r.value)
  }

  lemma UpdatePartAppends(parts: seq<Json>, index: int, filler: Json, key: string, x: string, y: string)
    ensures var first := UpdatePart(parts, index, filler, key, x);
            UpdatePart(parts, index, filler, key, x + y) ==
            if first.Err? then Err else UpdatePart(first.value, index, filler, key, y)
  {
    var padded := Pad(parts, index + 1, filler);
    var at := if index < 0 then |padded| + index else index;
    if at >= 0 && padded[at].JObject? {
      var part := padded[at].fields;
      var current := Field(part, key);
      assert MergeText(Some(MergeText(current, x)), y) == MergeText(current, x + y) by {
        if current.Some? && current.value.JString? {
          assert (current.value.s + x) + y == current.value.s + (x + y);
        }
      }
      var part1 := part[key := MergeText(current, x)];
      assert part1[key := MergeText(current, x + y)] == part[key := MergeText(current, x + y)];
      var padded1 := padded[at := JObject(part1)];
      assert padded1[at := JObject(part[key := MergeText(current, x + y)])] ==
             padded[at := JObject(part[key := MergeText(current, x + y)])];
    }
  }

  lemma UpdatePartFieldAppends(item: map<string, Json>, listKey: string, index: Option<int>, filler: Json, key: string,
                               x: string, y: string)
    ensures var first := UpdatePartField(item, listKey, index, filler, key, x);
            UpdatePartField(item, listKey, index, filler, key, x + y) ==
            if first.Err? then Err else UpdatePartField(first.value, listKey, index, filler, key, y)
  {
    var parts := ListOf(Field(item, listKey));
    if parts.Ok? {
      var at := if index.Some? then index.value else 0;
      UpdatePartAppends(parts.value, at, filler, key, x, y);
      var first := UpdatePart(parts.value, at, filler, key, x);
      if first.Ok? {
        var item1 := item[listKey := JList(first.value)];
        assert ListOf(Field(item1, listKey)) == Ok(first.value);
        assert forall second :: item1[listKey := JList(second)] == item[listKey := JList(second)];
      }
    }
  }

  lemma UpdateItemAppends(e: Event, kind: string, item: map<string, Json>, x: string, y: string)
    requires kind != "type"
    ensures var first := UpdateItem(WithText(e, x), kind, item);
            UpdateItem(WithText(e, x + y), kind, item) ==
            if first.Err? then Err else UpdateItem(WithText(e, y), kind, first.value)
  {
    var itemType := ItemType(item);
    if kind == "function_call_arguments" {
      var arguments := if "arguments" in item then item["arguments"] else JString("");
      if itemType == JString("function_call") && arguments.JString? {
        assert (arguments.s + x) + y == arguments.s + (x + y);
        var item1 := item["arguments" := JString(arguments.s + x)];
        assert item1["arguments" := JString(arguments.s + (x + y))] == item["arguments" := JString(arguments.s + (x + y))];
      }
    } else if itemType == JString("message") {
      UpdatePartFieldAppends(item, "content", e.contentIndex, TextPart("text"), TextKey(kind), x, y);
    } else if itemType == JString("reasoning") {
      UpdatePartFieldAppends(item, "summary", e.summaryIndex, TextPart("summary_text"), "text", x, y);
      UpdatePartFieldAppends(item, "content", e.contentIndex, TextPart("text"), "text", x, y);
    } else {
      var key := TextKey(kind);
      var current := Field(item, key);
      if current.Some? && current.value.JString? {
        assert (current.value.s + x) + y == current.value.s + (x + y);
      }
      var item1 := item[key := MergeText(current, x)];
      assert MergeText(Some(MergeText(current, x)), y) == MergeText(current, x + y);
      assert item1[key := MergeText(current, x + y)] == item[key := MergeText(current, x + y)];
    }
  }

  lemma HandleAppends(e: Event, x: string, y: string, out: Output)
    requires Appends(e)
    ensures Handle(WithText(e, x + y), out) == Then(Handle(WithText(e, x), out), WithText(e, y))
  {
    var kind := DeltaKind(e.eventType);
    if kind.Some? {
      var index := OutputIndex(e, out);
      var extended := Extend(e, kind.value, out);
      if index >= 0 && extended[index].JObject? {
        UpdateItemAppends(e, kind.value, extended[index].fields, x, y);
        var first := UpdateItem(WithText(e, x), kind.value, extended[index].fields);
        if first.Ok? {
          var out1 := extended[index := JObject(first.value)];
          assert Handle(WithText(e, x), out) == Ok(out1);
          assert OutputIndex(e, out1) == index;
          var second := UpdateItem(WithText(e, y), kind.value, first.value);
          if second.Ok? {
            assert out1[index := JObject(second.value)] == extended[index := JObject(second.value)];
          }
        }
      }
    }
  }

  /** For every other event shape there are texts that the two ways of applying them tell apart. */
  lemma TypeDeltaDoesNotAppend(e: Event) returns (out: Output, x: string, y: string)
    requires !Appends(e)
    ensures Handle(WithText(e, x + y), out) != Then(Handle(WithText(e, x), out), WithText(e, y))
  {
    var index := if e.outputIndex.Some? then e.outputIndex.value else 0;
    var blank: map<string, Json> := map["id" := JString("item")];
    out := Pad([], index + 1, JObject(blank));
    PadAt([], index + 1, JObject(blank), index);
    x, y := "message", "s";
    var ex, ey, exy := WithText(e, x), WithText(e, y), WithText(e, x + y);
    var item1 := blank["type" := JString("message")];
    var out1 := out[index := JObject(item1)];
    assert UpdateItem(ex, "type", blank) == Ok(item1);
    assert Handle(ex, out) == Ok(out1);
    assert x + y == "messages";
    assert Handle(exy, out) == Ok(out[index := JObject(blank["type" := JString("messages")])]);
    var second := Handle(ey, out1);
    if second.Ok? {
      assert second.value[index].fields["type"] == JString("message");
      assert Handle(exy, out).value[index].fields["type"] == JString("messages");
    }
  }

  lemma {:induction false} PadAt(items: seq<Json>, length: int, filler: Json, k: int)
    requires |items| <= k < length
    ensures Pad(items, length, filler)[k] == filler
    decreases length - |items|
  {
    if |items| < k {
      PadAt(items + [filler], length, filler, k);
    } else {
      assert items + [filler] <= Pad(items + [filler], length, filler);
    }
  }

  /** Joining texts is sound for an event shape exactly when it is not a "type" delta for an item. */
  lemma AppendsExactly(e: Event)
    ensures Appends(e) <==>
            forall x, y, out ::
              Handle(WithText(e, x + y), out) == Then(Handle(WithText(e, x), out), WithText(e, y))
  {
    if Appends(e) {
      forall x, y, out
        ensures Handle(WithText(e, x + y), out) == Then(Handle(WithText(e, x), out), WithText(e, y))
      {
        HandleAppends(e, x, y, out);
      }
    } else {
      var out, x, y := TypeDeltaDoesNotAppend(e);
    }
  }

  // ---------- Earlier rounds in front of the output ----------

  /** `get_response_data_with_full_output_index`: an index counts from the end of the earlier rounds. */
  function Shifted(e: Event, prior: Output): Event {
    if e.outputIndex.Some? then e.(outputIndex := Some(e.outputIndex.value + |prior|)) else e
  }

  function Prepended(prior: Output, r: Result<Output>): Result<Output> {
    if r.Err? then Err else Ok(prior + r.value)
  }

  /** The shifted delta on the whole output is the delta on this round's. */
  predicate ShiftSound(e: Event, prior: Output, out: Output) {
    Handle(Shifted(e, prior), prior + out) == Prepended(prior, Handle(e, out))
  }

  /** The delta names an item of this round, or this round has one already. */
  predicate StaysInRound(e: Event, out: Output) {
    DeltaKind(e.eventType).Some? ==> if e.outputIndex.Some? then e.outputIndex.value >= 0 else out != []
  }

  lemma {:induction false} PadPrepended(prior: Output, out: Output, length: int, filler: Json)
    ensures Pad(prior + out, |prior| + length, filler) == prior + Pad(out, length, filler)
    decreases length - |out|
  {
    if |out| < length {
      assert (prior + out) + [filler] == prior + (out + [filler]);
      PadPrepended(prior, out + [filler], length, filler);
    }
  }

  lemma ExtendPrepended(e: Event, kind: string, prior: Output, out: Output)
    requires if e.outputIndex.Some? then e.outputIndex.value >= 0 else out != []
    ensures OutputIndex(Shifted(e, prior), prior + out) == |prior| + OutputIndex(e, out)
    ensures Extend(Shifted(e, prior), kind, prior + out) == prior + Extend(e, kind, out)
  {
    var index := OutputIndex(e, out);
    if index >= |out| {
      PadPrepended(prior, out, index, JObject(PLACEHOLDER));
    }
  }

  lemma ShiftStays(e: Event, prior: Output, out: Output)
    requires StaysInRound(e, out)
    ensures ShiftSound(e, prior, out)
  {
    var kind := DeltaKind(e.eventType);
    if kind.Some? {
      ExtendPrepended(e, kind.value, prior, out);
      var index := OutputIndex(e, out);
      var extended := Extend(e, kind.value, out);
      assert (prior + extended)[|prior| + index] == extended[index];
      if extended[index].JObject? {
        var item := UpdateItem(e, kind.value, extended[index].fields);
        assert UpdateItem(Shifted(e, prior), kind.value, extended[index].fields) == item;
        if item.Ok? {
          assert (prior + extended)[|prior| + index := JObject(item.value)] ==
                 prior + extended[index := JObject(item.value)];
        }
      }
    }
  }

  /** Items as rounds hold them: objects that are not empty. */
  predicate ProperItems(out: Output) {
    forall k :: 0 <= k < |out| ==> out[k].JObject? && out[k].fields != map[]
  }

  /** An item that a delta of this kind, whatever its text, changes. */
  function Touched(kind: string): map<string, Json> {
    if kind == "type" then map["id" := JString("item")] else map["type" := JString("function_call")]
  }

  lemma TouchedChanges(e: Event, kind: string)
    ensures Touched(kind) != map[]
    ensures UpdateItem(e, kind, Touched(kind)).Ok? && UpdateItem(e, kind, Touched(kind)).value != Touched(kind)
  {
    assert "id" in Touched(kind) || "type" in Touched(kind);
    var key := if kind == "function_call_arguments" then "arguments" else TextKey(kind);
    assert key !in Touched(kind) && key in UpdateItem(e, kind, Touched(kind)).value;
  }

  /** Otherwise some earlier rounds make the shifted delta write into them. */
  lemma ShiftLeaves(e: Event, out: Output) returns (prior: Output)
    requires !StaysInRound(e, out)
    ensures ProperItems(prior) && !ShiftSound(e, prior, out)
  {
    var kind := DeltaKind(e.eventType).value;
    var item := Touched(kind);
    var n := if e.outputIndex.Some? then -e.outputIndex.value else 1;
    prior := seq(n, k requires 0 <= k < n => JObject(item));
    var all := prior + out;
    TouchedChanges(Shifted(e, prior), kind);
    assert OutputIndex(Shifted(e, prior), all) == 0 && all[0] == JObject(item);
    var changed := all[0 := JObject(UpdateItem(Shifted(e, prior), kind, item).value)];
    assert Handle(Shifted(e, prior), all) == Ok(changed);
    if e.outputIndex.Some? {
      assert Handle(e, out) == Ok(out);
      assert changed[0] != all[0];
    } else {
      assert Handle(e, out).Ok? ==> |Handle(e, out).value| == 1;
    }
  }

  /** The log may hold shifted deltas for every earlier output exactly when the delta stays in its round. */
  lemma ShiftExactly(e: Event, out: Output)
    ensures StaysInRound(e, out) <==> forall prior :: ProperItems(prior) ==> ShiftSound(e, prior, out)
  {
    if StaysInRound(e, out) {
      forall prior | ProperItems(prior)
        ensures ShiftSound(e, prior, out)
      {
        ShiftStays(e, prior, out);
      }
    } else {
      var prior := ShiftLeaves(e, out);
    }
  }

  // ---------- Decoding a log ----------

  /** The deltas applied one at a time. */
  function Sequential(deltas: seq<Event>, out: Output): Result<Output> {
    if deltas == [] then Ok(out)
    else
      var next :- Handle(deltas[0], out);
      Sequential(deltas[1..], next)
  }

  lemma {:induction false} SequentialSplit(a: seq<Event>, b: seq<Event>, out: Output)
    ensures var first := Sequential(a, out);
            Sequential(a + b, out) == if first.Err? then Err else Sequential(b, first.value)
  {
    if a == [] {
      assert a + b == b;
    } else {
      assert (a + b)[1..] == a[1..] + b;
      var next := Handle(a[0], out);
      if next.Ok? {
        SequentialSplit(a[1..], b, next.value);
      }
    }
  }

  datatype Key = NoKey | Key(eventType: string, itemId: Json, outputIndex: Option<int>, contentIndex: Option<int>,
                             summaryIndex: Option<int>)

  /** `get_response_delta_key`. */
  function DeltaKey(e: Event): Key {
    if IsResponseDelta(e.eventType) then
      Key(e.eventType, e.itemId, e.outputIndex, e.contentIndex, e.summaryIndex)
    else NoKey
  }

  /** How many deltas from the front on share the first one's key. */
  function GroupLength(deltas: seq<Event>): (n: nat)
    requires deltas != []
    ensures 1 <= n <= |deltas|
    ensures forall k :: 0 <= k < n ==> DeltaKey(deltas[k]) == DeltaKey(deltas[0])
    ensures n < |deltas| ==> DeltaKey(deltas[n]) != DeltaKey(deltas[0])
  {
    GroupEnd(deltas, 1)
  }

  function GroupEnd(deltas: seq<Event>, j: nat): (n: nat)
    requires 1 <= j <= |deltas|
    requires forall k :: 0 <= k < j ==> DeltaKey(deltas[k]) == DeltaKey(deltas[0])
    ensures j <= n <= |deltas|
    ensures forall k :: 0 <= k < n ==> DeltaKey(deltas[k]) == DeltaKey(deltas[0])
    ensures n < |deltas| ==> DeltaKey(deltas[n]) != DeltaKey(deltas[0])
    decreases |deltas| - j
  {
    if j < |deltas| && DeltaKey(deltas[j]) == DeltaKey(deltas[0]) then GroupEnd(deltas, j + 1) else j
  }

  /** `''.join` over the deltas' texts. */
  function Texts(deltas: seq<Event>): string {
    if deltas == [] then [] else Texts(deltas[..|deltas| - 1]) + deltas[|deltas| - 1].delta
  }

  /** Groups of equal keys applied once each, with their texts joined. */
  function Grouped(deltas: seq<Event>, out: Output): Result<Output>
    decreases |deltas|
  {
    if deltas == [] then Ok(out)
    else
      var n := GroupLength(deltas);
      var next :- Handle(WithText(deltas[0], Texts(deltas[..n])), out);
      Grouped(deltas[n..], next)
  }

  /** A group applied once does what its deltas do one at a time. */
  lemma {:induction false} GroupAppends(group: seq<Event>, out: Output)
    requires group != [] && Appends(group[0])
    requires forall k :: 0 <= k < |group| ==> DeltaKey(group[k]) == DeltaKey(group[0])
    ensures Handle(WithText(group[0], Texts(group)), out) == Sequential(group, out)
    decreases |group|
  {
    var n := |group| - 1;
    var first, last := group[0], group[n];
    var rest := group[..n];
    assert group == rest + [last];
    SequentialSplit(rest, [last], out);
    SequentialOne(last);
    assert WithText(last, last.delta) == last;
    if n == 0 {
      assert Texts(rest) == [];
      assert Texts(group) == [] + last.delta == last.delta;
    } else {
      GroupAppends(rest, out);
      HandleAppends(first, Texts(rest), last.delta, out);
      if DeltaKey(first).Key? {
        assert WithText(first, last.delta) == last;
      }
    }
  }

  lemma SequentialOne(e: Event)
    ensures forall out :: Sequential([e], out) == Handle(e, out)
  {
    assert [e][1..] == [];
  }

  /** Joining adjacent deltas before applying them changes nothing when their shapes append. */
  lemma {:induction false} GroupedIsSequential(deltas: seq<Event>, out: Output)
    requires forall k :: 0 <= k < |deltas| ==> Appends(deltas[k])
    ensures Grouped(deltas, out) == Sequential(deltas, out)
    decreases |deltas|
  {
    if deltas != [] {
      var n := GroupLength(deltas);
      assert deltas == deltas[..n] + deltas[n..];
      SequentialSplit(deltas[..n], deltas[n..], out);
      GroupAppends(deltas[..n], out);
      var next := Sequential(deltas[..n], out);
      if next.Ok? {
        GroupedIsSequential(deltas[n..], next.value);
      }
    }
  }

  lemma GroupedStep(deltas: seq<Event>, n: nat, text: string, out: Output)
    requires deltas != [] && n == GroupLength(deltas) && text == Texts(deltas[..n])
    ensures var next := Handle(WithText(deltas[0], text), out);
            Grouped(deltas, out) == if next.Err? then Err else Grouped(deltas[n..], next.value)
  {
  }

  lemma GroupLengthIs(deltas: seq<Event>, n: nat)
    requires 1 <= n <= |deltas|
    requires forall k :: 0 <= k < n ==> DeltaKey(deltas[k]) == DeltaKey(deltas[0])
    requires n < |deltas| ==> DeltaKey(deltas[n]) != DeltaKey(deltas[0])
    ensures GroupLength(deltas) == n
  {
  }

  /** The next group of adjacent equal keys, and its texts joined. */
  method NextGroup(deltas: seq<Event>) returns (n: nat, text: string)
    requires deltas != []
    ensures n == GroupLength(deltas) && text == Texts(deltas[..n])
  {
    text := deltas[0].delta;
    n := 1;
    assert deltas[..1][..0] == [] && deltas[..1][0] == deltas[0];
    while n < |deltas| && DeltaKey(deltas[n]) == DeltaKey(deltas[0])
      invariant 1 <= n <= |deltas|
      invariant forall k :: 0 <= k < n ==> DeltaKey(deltas[k]) == DeltaKey(deltas[0])
      invariant text == Texts(deltas[..n])
    {
      assert deltas[..n + 1][..n] == deltas[..n];
      text := text + deltas[n].delta;
      n := n + 1;
    }
    GroupLengthIs(deltas, n);
  }

  /** `load_response_stream` after the lines are decoded: one application per group of equal keys. */
  method LoadDeltas(snapshot: Output, deltas: seq<Event>) returns (r: Result<Output>)
    ensures r == Grouped(deltas, snapshot)
    ensures (forall k :: 0 <= k < |deltas| ==> Appends(deltas[k])) ==> r == Sequential(deltas, snapshot)
  {
    if forall k :: 0 <= k < |deltas| ==> Appends(deltas[k]) {
      GroupedIsSequential(deltas, snapshot);
    }
    var output, rest := snapshot, deltas;
    while rest != []
      invariant Grouped(deltas, snapshot) == Grouped(rest, output)
      decreases |rest|
    {
      var n, text := NextGroup(rest);
      GroupedStep(rest, n, text, output);
      var next := Handle(WithText(rest[0], text), output);
      if next.Err? {
        return Err;
      }
      output, rest := next.value, rest[n..];
    }
    r := Ok(output);
  }
}
