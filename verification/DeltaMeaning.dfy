/**
  What a streaming delta event (utils/response.py) writes, event type by event type, said on the
  event's name and the item's JSON alone.
 */
module DeltaMeaning {
  import opened Prelude
  import opened ResponseDelta

  // ---------- The kind named by an event type ----------

  lemma {:induction false} UntilDotIs(kind: string, rest: string)
    requires '.' !in kind
    ensures UntilDot(kind + "." + rest) == Some(kind)
  {
    var s := kind + "." + rest;
    if kind != [] {
      assert s[1..] == kind[1..] + "." + rest;
      UntilDotIs(kind[1..], rest);
      assert [kind[0]] + kind[1..] == kind;
    }
  }

  lemma DeltaKindIs(kind: string)
    requires '.' !in kind
    ensures DeltaKind("response." + kind + ".delta") == Some(kind)
  {
    var s := "response." + kind + ".delta";
    assert s[..|PREFIX|] == PREFIX && s[|s| - |SUFFIX|..] == SUFFIX;
    assert s[|PREFIX|..] == kind + "." + "delta";
    UntilDotIs(kind, "delta");
  }

  /** Event types of another form change nothing. */
  lemma OtherEventsChangeNothing(e: Event, out: Output)
    requires !("response." <= e.eventType) || |e.eventType| < 6 || e.eventType[|e.eventType| - 6..] != ".delta" ||
             e.eventType == "response.delta"
    ensures Handle(e, out) == Ok(out)
  {
    if e.eventType == "response.delta" {
      assert e.eventType[|PREFIX|..] == "delta";
      assert UntilDot("delta") == None by {
        NoDot("delta");
      }
    }
  }

  lemma {:induction false} NoDot(s: string)
    requires '.' !in s
    ensures UntilDot(s) == None
  {
    if s != [] {
      NoDot(s[1..]);
    }
  }

  // ---------- Where an event points ----------

  /** The item at i: the index that the event names, or the last item. */
  predicate At(e: Event, out: Output, i: int) {
    0 <= i < |out| && i == if e.outputIndex.Some? then e.outputIndex.value else |out| - 1
  }

  predicate IsItem(out: Output, i: int, item: map<string, Json>, itemType: Json)
    requires 0 <= i < |out|
  {
    out[i] == JObject(item) && itemType == if "type" in item then item["type"] else JString("")
  }

  /** A part of an item: its list as stored (an absent one is empty) and filled up, its place, and what becomes of it. */
  datatype Spot = Spot(
    item: map<string, Json>, parts: seq<Json>, padded: seq<Json>, at: int, part: map<string, Json>, part': map<string, Json>)

  /** A text in place of the list is taken as the list of its characters. */
  function Characters(s: string): seq<Json> {
    seq(|s|, k requires 0 <= k < |s| => JString([s[k]]))
  }

  /** The part at `index` of the list under a key, 0 when the event names none, gets the text in field `key`. */
  predicate Written(spot: Spot, listKey: string, index: Option<int>, partType: string, key: string, delta: string) {
    var c := if index.Some? then index.value else 0;
    var filler := JObject(map["type" := JString(partType), "text" := JString("")]);
    (if listKey !in spot.item then spot.parts == []
     else spot.item[listKey] == JList(spot.parts) ||
          (spot.item[listKey].JString? && spot.parts == Characters(spot.item[listKey].s))) &&
    spot.parts <= spot.padded && (|spot.padded| == if c < |spot.parts| then |spot.parts| else c + 1) &&
    (forall k :: |spot.parts| <= k < |spot.padded| ==> spot.padded[k] == filler) &&
    spot.at == (if c < 0 then |spot.parts| + c else c) && 0 <= spot.at < |spot.padded| &&
    spot.padded[spot.at] == JObject(spot.part) && TextAdded(spot.part, spot.part', key, delta)
  }

  /** Every other key, part and item stays. */
  function After(out: Output, i: int, spot: Spot, listKey: string): Output
    requires 0 <= i < |out| && 0 <= spot.at < |spot.padded|
  {
    out[i := JObject(spot.item[listKey := JList(spot.padded[spot.at := JObject(spot.part')])])]
  }

  /** A field with a text added; an absent one, or one that is no text, counts as empty. */
  predicate TextAdded(before: map<string, Json>, after: map<string, Json>, key: string, delta: string) {
    after == before[key := JString((if key in before && before[key].JString? then before[key].s else "") + delta)]
  }

  lemma TextAddedIs(before: map<string, Json>, after: map<string, Json>, key: string, delta: string)
    requires TextAdded(before, after, key, delta)
    ensures after == before[key := MergeText(Field(before, key), delta)]
  {
    assert "" + delta == delta;
  }

  /** What the event does to the item it points to. */
  lemma AtItem(e: Event, kind: string, out: Output, i: int, item: map<string, Json>)
    requires DeltaKind(e.eventType) == Some(kind) && At(e, out, i) && out[i] == JObject(item)
    ensures var r := UpdateItem(e, kind, item);
            Handle(e, out) == if r.Err? then Err else Ok(out[i := JObject(r.value)])
  {
  }

  lemma {:induction false} PadIs(parts: seq<Json>, length: int, filler: Json, padded: seq<Json>)
    requires parts <= padded && |padded| == (if length <= |parts| then |parts| else length)
    requires forall k :: |parts| <= k < |padded| ==> padded[k] == filler
    ensures Pad(parts, length, filler) == padded
    decreases length - |parts|
  {
    if length <= |parts| {
      assert parts == padded;
    } else {
      assert padded[|parts|] == filler;
      assert parts + [filler] == padded[..|parts| + 1];
      PadIs(parts + [filler], length, filler, padded);
    }
  }

  lemma PartIs(spot: Spot, index: Option<int>, listKey: string, partType: string, key: string, delta: string)
    requires Written(spot, listKey, index, partType, key, delta)
    ensures UpdatePart(spot.parts, if index.Some? then index.value else 0, TextPart(partType), key, delta) ==
            Ok(spot.padded[spot.at := JObject(spot.part')])
  {
    var c := if index.Some? then index.value else 0;
    PadIs(spot.parts, c + 1, TextPart(partType), spot.padded);
    TextAddedIs(spot.part, spot.part', key, delta);
  }

  lemma PartWritten(e: Event, kind: string, out: Output, i: int, spot: Spot, listKey: string, index: Option<int>,
                    partType: string, key: string)
    requires DeltaKind(e.eventType) == Some(kind) && At(e, out, i) && out[i] == JObject(spot.item)
    requires UpdateItem(e, kind, spot.item) == UpdatePartField(spot.item, listKey, index, TextPart(partType), key, e.delta)
    requires Written(spot, listKey, index, partType, key, e.delta)
    ensures Handle(e, out) == Ok(After(out, i, spot, listKey))
  {
    AtItem(e, kind, out, i, spot.item);
    assert ListOf(Field(spot.item, listKey)) == Ok(spot.parts);
    PartIs(spot, index, listKey, partType, key, e.delta);
  }

  // ---------- Texts of messages and of reasoning ----------

  /** Text goes to the "text" of a part of the message's content. */
  lemma MessageText(e: Event, kind: string, out: Output, i: int, spot: Spot)
    requires kind == "output_text" || kind == "text"
    requires e.eventType == "response." + kind + ".delta"
    requires At(e, out, i) && IsItem(out, i, spot.item, JString("message"))
    requires Written(spot, "content", e.contentIndex, "text", "text", e.delta)
    ensures Handle(e, out) == Ok(After(out, i, spot, "content"))
  {
    DeltaKindIs(kind);
    PartWritten(e, kind, out, i, spot, "content", e.contentIndex, "text", "text");
  }

  /** A text for a part that is no object, or for one before the first, is an error. */
  lemma NoPart(e: Event, kind: string, out: Output, i: int, item: map<string, Json>, parts: seq<Json>, c: int)
    requires kind == "output_text" || kind == "text"
    requires e.eventType == "response." + kind + ".delta"
    requires At(e, out, i) && IsItem(out, i, item, JString("message"))
    requires "content" in item && item["content"] == JList(parts) && e.contentIndex == Some(c) && c < |parts|
    requires var at := if c < 0 then |parts| + c else c; at < 0 || !parts[at].JObject?
    ensures Handle(e, out) == Err
  {
    DeltaKindIs(kind);
    AtItem(e, kind, out, i, item);
  }

  /** So is one for a content that is neither a list nor a text. */
  lemma NoList(e: Event, kind: string, out: Output, i: int, item: map<string, Json>)
    requires kind == "output_text" || kind == "text"
    requires e.eventType == "response." + kind + ".delta"
    requires At(e, out, i) && IsItem(out, i, item, JString("message"))
    requires "content" in item && !item["content"].JList? && !item["content"].JString?
    ensures Handle(e, out) == Err
  {
    DeltaKindIs(kind);
    AtItem(e, kind, out, i, item);
  }

  /** Any other kind, a refusal for one, goes to the part's field of that name. */
  lemma MessageOther(e: Event, kind: string, out: Output, i: int, spot: Spot)
    requires '.' !in kind && e.eventType == "response." + kind + ".delta"
    requires kind !in ["text", "output_text", "reasoning_text", "reasoning_summary_text", "function_call_arguments"]
    requires At(e, out, i) && IsItem(out, i, spot.item, JString("message"))
    requires Written(spot, "content", e.contentIndex, "text", kind, e.delta)
    ensures Handle(e, out) == Ok(After(out, i, spot, "content"))
  {
    DeltaKindIs(kind);
    PartWritten(e, kind, out, i, spot, "content", e.contentIndex, "text", kind);
  }

  lemma ReasoningText(e: Event, out: Output, i: int, spot: Spot)
    requires e.eventType == "response." + "reasoning_text" + ".delta"
    requires At(e, out, i) && IsItem(out, i, spot.item, JString("reasoning"))
    requires Written(spot, "content", e.contentIndex, "text", "text", e.delta)
    ensures Handle(e, out) == Ok(After(out, i, spot, "content"))
  {
    DeltaKindIs("reasoning_text");
    PartWritten(e, "reasoning_text", out, i, spot, "content", e.contentIndex, "text", "text");
  }

  lemma ReasoningSummary(e: Event, out: Output, i: int, spot: Spot)
    requires e.eventType == "response." + "reasoning_summary_text" + ".delta"
    requires At(e, out, i) && IsItem(out, i, spot.item, JString("reasoning"))
    requires Written(spot, "summary", e.summaryIndex, "summary_text", "text", e.delta)
    ensures Handle(e, out) == Ok(After(out, i, spot, "summary"))
  {
    DeltaKindIs("reasoning_summary_text");
    PartWritten(e, "reasoning_summary_text", out, i, spot, "summary", e.summaryIndex, "summary_text", "text");
  }

  // ---------- Arguments, other items, and what is skipped ----------

  lemma Arguments(e: Event, out: Output, i: int, item: map<string, Json>, item': map<string, Json>)
    requires e.eventType == "response." + "function_call_arguments" + ".delta"
    requires At(e, out, i) && IsItem(out, i, item, JString("function_call"))
    ensures ("arguments" in item ==> item["arguments"].JString?) && TextAdded(item, item', "arguments", e.delta) ==>
              Handle(e, out) == Ok(out[i := JObject(item')])
    ensures "arguments" in item && !item["arguments"].JString? ==> Handle(e, out) == Err
  {
    DeltaKindIs("function_call_arguments");
    AtItem(e, "function_call_arguments", out, i, item);
    assert "" + e.delta == e.delta;
  }

  /** An item that is neither a message nor reasoning takes the text in a field of its own. */
  lemma OtherItem(e: Event, kind: string, out: Output, i: int, item: map<string, Json>, itemType: Json,
                  item': map<string, Json>)
    requires '.' !in kind && e.eventType == "response." + kind + ".delta" && kind != "function_call_arguments"
    requires At(e, out, i) && IsItem(out, i, item, itemType)
    requires itemType != JString("message") && itemType != JString("reasoning")
    requires TextAdded(item, item', if kind == "text" || kind == "output_text" then "text" else kind, e.delta)
    ensures Handle(e, out) == Ok(out[i := JObject(item')])
  {
    DeltaKindIs(kind);
    AtItem(e, kind, out, i, item);
    TextAddedIs(item, item', TextKey(kind), e.delta);
  }

  /** Pairs of kind and item type that do not go together leave the output as it was. */
  lemma Skipped(e: Event, kind: string, out: Output, i: int, item: map<string, Json>, itemType: Json)
    requires '.' !in kind && e.eventType == "response." + kind + ".delta"
    requires At(e, out, i) && IsItem(out, i, item, itemType)
    requires
      (kind == "function_call_arguments" && itemType != JString("function_call")) ||
      (itemType == JString("message") && kind in ["reasoning_text", "reasoning_summary_text"]) ||
      (itemType == JString("reasoning") && kind !in ["reasoning_text", "reasoning_summary_text"])
    ensures Handle(e, out) == Ok(out)
  {
    DeltaKindIs(kind);
    AtItem(e, kind, out, i, item);
    assert out[i := JObject(item)] == out;
  }

  /** A negative index changes nothing; an item that is no object is an error. */
  lemma NoItem(e: Event, kind: string, out: Output)
    requires '.' !in kind && e.eventType == "response." + kind + ".delta"
    ensures e.outputIndex.Some? && e.outputIndex.value < 0 ==> Handle(e, out) == Ok(out)
    ensures forall i :: At(e, out, i) && !out[i].JObject? ==> Handle(e, out) == Err
  {
    DeltaKindIs(kind);
  }

  // ---------- Items that no event has added yet ----------

  ghost predicate BlankMessage(j: Json) {
    j == JObject(map["type" := JString("message"), "status" := JString("in_progress"), "role" := JString("assistant"),
                     "content" := JList([])])
  }

  /** The output is filled up with blank messages, and the new item has the event's id and the kind's type. */
  lemma NewItem(e: Event, kind: string, out: Output, i: int, extended: Output)
    requires '.' !in kind && e.eventType == "response." + kind + ".delta"
    requires i >= |out| && if e.outputIndex.Some? then e.outputIndex.value == i else out == [] && i == 0
    requires |extended| == i + 1 && out <= extended && forall k :: |out| <= k < i ==> BlankMessage(extended[k])
    requires extended[i] == JObject(map[
      "type" := JString(if "reasoning" <= kind then "reasoning"
                        else if kind == "function_call_arguments" then "function_call" else "message"),
      "status" := JString("in_progress"), "role" := JString("assistant"), "content" := JList([]), "id" := e.itemId])
    ensures Handle(e, out) == Handle(e, extended)
  {
    DeltaKindIs(kind);
    PadIs(out, i, JObject(PLACEHOLDER), extended[..i]);
    assert extended[i].fields == PLACEHOLDER["id" := e.itemId]["type" := JString(NewItemType(kind))];
    assert Extend(e, kind, out) == extended;
  }

  // ---------- A streamed answer ----------

  /** The deltas of one text part, one after the other, leave the part with all of the text in order. */
  lemma StreamedText(deltas: seq<Event>, out: Output, i: int, spot: Spot)
    requires deltas != [] && deltas[0].eventType == "response." + "output_text" + ".delta"
    requires forall k :: 0 <= k < |deltas| ==> deltas[k] == WithText(deltas[0], deltas[k].delta)
    requires At(deltas[0], out, i) && IsItem(out, i, spot.item, JString("message"))
    requires Written(spot, "content", deltas[0].contentIndex, "text", "text", Texts(deltas))
    ensures Sequential(deltas, out) == Ok(After(out, i, spot, "content"))
  {
    DeltaKindIs("output_text");
    forall k | 0 <= k < |deltas|
      ensures DeltaKey(deltas[k]) == DeltaKey(deltas[0])
    {
      assert deltas[k] == WithText(deltas[0], deltas[k].delta);
    }
    GroupAppends(deltas, out);
    MessageText(WithText(deltas[0], Texts(deltas)), "output_text", out, i, spot);
  }

  /** The first words of an answer. */
  lemma FirstWords(e: Event)
    requires e.eventType == "response.output_text.delta" && e.outputIndex == Some(0) && e.contentIndex == Some(0)
    requires e.delta == "Hi"
    ensures var blank := JObject(map["type" := JString("text"), "text" := JString("")]);
            var said := JObject(map["type" := JString("text"), "text" := JString("Hi")]);
            Handle(e, [JObject(map["type" := JString("message"), "content" := JList([blank])])]) ==
            Ok([JObject(map["type" := JString("message"), "content" := JList([said])])])
  {
    assert "response.output_text.delta" == "response." + "output_text" + ".delta";
    var spot := FirstSpot();
    MessageText(e, "output_text", [JObject(spot.item)], 0, spot);
  }

  lemma FirstSpot() returns (spot: Spot)
    ensures spot.item == MessageMap(TextMap("")) && Written(spot, "content", Some(0), "text", "text", "Hi")
    ensures After([JObject(spot.item)], 0, spot, "content") == [JObject(MessageMap(TextMap("Hi")))]
  {
    var blank, said := TextMap(""), TextMap("Hi");
    var item, item' := MessageMap(blank), MessageMap(said);
    assert "" + "Hi" == "Hi" && said == blank["text" := JString("Hi")];
    spot := Spot(item, [JObject(blank)], [JObject(blank)], 0, blank, said);
    assert spot.padded[0 := JObject(said)] == [JObject(said)];
    assert item["content" := JList([JObject(said)])] == item';
    assert [JObject(item)][0 := JObject(item')] == [JObject(item')];
  }

  function TextMap(text: string): map<string, Json> {
    map["type" := JString("text"), "text" := JString(text)]
  }

  function MessageMap(part: map<string, Json>): map<string, Json> {
    map["type" := JString("message"), "content" := JList([JObject(part)])]
  }
}
