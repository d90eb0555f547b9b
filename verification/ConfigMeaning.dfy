/**
  What the notions of the configuration repair (models/config.py) say of concrete rows and values.
 */
module ConfigMeaning {
  import opened Prelude
  import opened ConfigTable
  import Keys = ConfigKeys

  // ---------- Rows of a dictionary ----------

  lemma UnderKey(name: string, tail: string)
    ensures Under(name, name + "." + tail) && (name + "." + tail)[|name| + 1..] == tail
  {
    assert (name + "." + tail)[..|name| + 1] == name + ".";
  }

  lemma Fragment(d: nat, name: string, tail: string)
    requires d < COUNT && (name == DICT_KEYS[d] || name == ALIASES[d])
    ensures FragmentOf(Prefixes(d), name + "." + tail) == Some(tail)
  {
    var key := name + "." + tail;
    UnderKey(name, tail);
    assert Prefixes(d)[1..] == [ALIASES[d]];
    if name != DICT_KEYS[d] {
      assert key[0] == ALIASES[d][0] != DICT_KEYS[d][0];
    }
  }

  /** Of a connection dictionary: the connection's key, dots and all, then the path inside its object. */
  lemma ConnectionRow(d: nat, name: string, key: string, path: Path)
    requires (d == 0 && name in ["openai.api_configs", "OPENAI_API_CONFIGS"]) ||
             (d == 1 && name in ["ollama.api_configs", "OLLAMA_API_CONFIGS"])
    requires key != [] && path != [] && Keys.DotFree(path) && Keys.Recoverable(Keys.API_CONFIG_FIELDS, key, path)
    ensures RowPath(d, name + "." + Keys.Flatten(key, path)) == Some([key] + path)
  {
    Fragment(d, name, Keys.Flatten(key, path));
    Keys.ApiConfigRoundTrip(key, path);
  }

  /** Of any other dictionary, under its name or its old one: the path, dot by dot. */
  lemma PlainRow(d: nat, name: string, path: Path)
    requires 2 <= d < COUNT && NameOf(d, name) && path != [] && Keys.DotFree(path)
    ensures RowPath(d, name + "." + Keys.Join(path)) == Some(path)
  {
    assert name == DICT_KEYS[d] || name == ALIASES[d];
    Fragment(d, name, Keys.Join(path));
    Keys.SplitJoin(path);
  }

  predicate NameOf(d: nat, name: string) {
    match d
    case 2 => name == "rag.mineru_params" || name == "MINERU_PARAMS"
    case 3 => name == "rag.docling_params" || name == "DOCLING_PARAMS"
    case 4 => name == "web.search.linkup_search_params" || name == "LINKUP_SEARCH_PARAMS"
    case 5 => name == "image_generation.automatic1111.api_params" || name == "AUTOMATIC1111_PARAMS"
    case 6 => name == "image_generation.openai.params" || name == "IMAGES_OPENAI_API_PARAMS"
    case 7 => name == "audio.tts.openai.params" || name == "AUDIO_TTS_OPENAI_PARAMS"
    case 8 => name == "audio.realtime.input_params" || name == "AUDIO_REALTIME_INPUT_PARAMS"
    case 9 => name == "models.default_metadata" || name == "DEFAULT_MODEL_METADATA"
    case 10 => name == "models.default_params" || name == "DEFAULT_MODEL_PARAMS"
    case 11 => name == "task.model.params" || name == "TASK_MODEL_PARAMS"
    case 12 => name == "ui.default_interface_settings" || name == "DEFAULT_INTERFACE_SETTINGS"
    case 13 => name == "user.permissions" || name == "USER_PERMISSIONS"
    case _ => false
  }

  /** A row is folded unless it is for a connection whose entry in the dictionary is no object. */
  lemma FoldedExactly(rows: Rows, d: nat, key: string)
    requires d < COUNT
    ensures Orphan(rows, d, key) <==>
            key in rows && RowPath(d, key).Some? &&
            !(d < 2 && DICT_KEYS[d] in rows && rows[DICT_KEYS[d]].JObject? &&
              RowPath(d, key).value[0] in rows[DICT_KEYS[d]].fields &&
              !rows[DICT_KEYS[d]].fields[RowPath(d, key).value[0]].JObject?)
  {
  }

  // ---------- The text of a model list ----------

  /** Blank texts are dropped, the others kept in order. */
  lemma {:induction false} NonBlankNext(texts: seq<string>, text: string)
    ensures NonBlank(texts + [text]) == NonBlank(texts) + if text == "" then [] else [text]
  {
    if texts == [] {
      assert [text][1..] == [];
    } else {
      assert (texts + [text])[1..] == texts[1..] + [text];
      NonBlankNext(texts[1..], text);
    }
  }

  lemma {:induction false} NonBlankMembers(texts: seq<string>)
    ensures forall t :: t in NonBlank(texts) <==> t in texts && t != ""
  {
    if texts != [] {
      NonBlankMembers(texts[1..]);
      assert texts == [texts[0]] + texts[1..];
    }
  }

  lemma {:induction false} SplitComma(texts: seq<string>)
    requires texts != [] && forall t :: t in texts ==> ',' !in t
    ensures Split(JoinComma(texts), ',') == texts
  {
    assert texts[0] in texts;
    if |texts| == 1 {
      SplitSegment(texts[0], "", ',');
    } else {
      SplitComma(texts[1..]);
      SplitSegment(texts[0], JoinComma(texts[1..]), ',');
    }
  }

  /** The text of a model list splits at its commas into the items' texts that are not blank. */
  lemma ModelListText(itemText: Json -> string, items: seq<Json>)
    requires forall item :: item in items ==> ',' !in itemText(item)
    ensures var kept := NonBlank(seq(|items|, k requires 0 <= k < |items| => itemText(items[k])));
            if kept == [] then JoinModels(itemText, items) == ""
            else Split(JoinModels(itemText, items), ',') == kept
  {
    var texts := seq(|items|, k requires 0 <= k < |items| => itemText(items[k]));
    NonBlankMembers(texts);
    forall t | t in NonBlank(texts)
      ensures ',' !in t
    {
      var k :| 0 <= k < |texts| && texts[k] == t;
      assert items[k] in items;
    }
    if NonBlank(texts) != [] {
      SplitComma(NonBlank(texts));
    }
  }
}
