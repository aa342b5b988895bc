/**
  The prompts trees of the repository's test suite, walked by the model:
  one version directory `chat/v1` holding `claude.3.5.json` and
  `claude.3.5.md`, and the same tree with a second version directory `v2`.
 */
module RecordCases {
  import opened Wrappers
  import opened Json
  import opened Paths
  import opened Records

  /** The metadata of a fixture file, once parsed, with its parameters object. */
  function Meta(parameters: map<string, Json>): Json
  {
    JObject(map["feature" := JString("chat"), "model" := JString("claude.3.5"), "parameters" := JObject(parameters)])
  }

  /** The parameters of the fixture's `v1` metadata. */
  const V1Parameters: map<string, Json> := map["temperature" := JNumber("0.7"), "max_tokens" := JNumber("1000")]

  /** The parameters of the `v2` metadata the second walk test adds. */
  const V2Parameters: map<string, Json> := map["temperature" := JNumber("0.5")]

  /** A version directory holding one metadata file and its prompt text. */
  function PairDir(name: string, jsonText: string, prompt: string): VersionDir
  {
    VersionDir(name, [File("claude.3.5.json", jsonText), File("claude.3.5.md", prompt)])
  }

  /** The names in the fixture: the metadata file is visited, the prompt text skipped. */
  lemma FixtureNames()
    ensures Stem("claude.3.5.json") == "claude.3.5" && !IsMarkdown("claude.3.5.json")
    ensures IsMarkdown("claude.3.5.md")
    ensures Stem("v1") == "v1" && Stem("v2") == "v2"
  {
    NameWithExtension("claude.3.5", "json");
    NameWithExtension("claude.3.5", "md");
    assert "claude.3.5" + "." + "json" == "claude.3.5.json";
    assert "claude.3.5" + "." + "md" == "claude.3.5.md";
    NameWithoutDot("v1");
    NameWithoutDot("v2");
  }

  /** `get_item` on a fixture directory reads both files and builds the record from them. */
  lemma PairDirItem(name: string, jsonText: string, prompt: string, codec: Codec)
    requires codec.load(jsonText).Some?
    ensures Item(PairDir(name, jsonText, prompt), "claude.3.5", codec)
            == BuildRecord(codec.load(jsonText).value, prompt, Stem(name), codec)
  {
    var v := PairDir(name, jsonText, prompt);
    assert "claude.3.5" + ".json" == "claude.3.5.json";
    assert "claude.3.5" + ".md" == "claude.3.5.md";
    assert Lookup(v.files, "claude.3.5.json") == Some(jsonText);
    assert Lookup(v.files, "claude.3.5.md") == Some(prompt) by {
      assert v.files[1..] == [File("claude.3.5.md", prompt)];
    }
  }

  /** The record the fixture metadata yields in version directory `v`. */
  lemma FixtureRecord(parameters: map<string, Json>, prompt: string, stem: string, codec: Codec)
    ensures var r := BuildRecord(Meta(parameters), prompt, stem, codec);
      && r.Ok?
      && r.value["id"] == JString(MakeId("chat", "claude.3.5", stem))
      && r.value["feature"] == JString("chat")
      && r.value["model"] == JString("claude.3.5")
      && r.value["prompts"] == JString(prompt)
      && r.value["parameters"] == JString(codec.dumps(JObject(parameters)))
  {
    assert Format(JString("chat"), codec) == "chat";
  }

  /**
    `get_item` on the fixture: the identifier, the kept keys, the prompt, and
    parameters serialised as text that loads back to temperature 0.7 and
    1000 tokens, given a codec whose `load` reads back what its `dumps` wrote.
   */
  lemma GetItemCase(jsonText: string, codec: Codec)
    requires codec.load(jsonText) == Some(Meta(V1Parameters))
    requires codec.load(codec.dumps(JObject(V1Parameters))) == Some(JObject(V1Parameters))
    ensures var item := Item(PairDir("v1", jsonText, "You are a helpful assistant."), "claude.3.5", codec);
      && item.Ok?
      && item.value["id"] == JString("chat--claude-3-5--v1")
      && item.value["feature"] == JString("chat")
      && item.value["model"] == JString("claude.3.5")
      && item.value["prompts"] == JString("You are a helpful assistant.")
      && item.value["parameters"].JString?
      && var params := codec.load(item.value["parameters"].s);
         && params.Some? && params.value.JObject?
         && "temperature" in params.value.fields && params.value.fields["temperature"] == JNumber("0.7")
         && "max_tokens" in params.value.fields && params.value.fields["max_tokens"] == JNumber("1000")
  {
    FixtureNames();
    PairDirItem("v1", jsonText, "You are a helpful assistant.", codec);
    FixtureRecord(V1Parameters, "You are a helpful assistant.", "v1", codec);
    ExampleId();
    var item := Item(PairDir("v1", jsonText, "You are a helpful assistant."), "claude.3.5", codec);
    ParametersLoadBack(item.value, V1Parameters, codec);
    V1ParametersFields();
  }

  /** Serialised parameters that the codec reads back give the parameters object again. */
  lemma ParametersLoadBack(r: Record, parameters: map<string, Json>, codec: Codec)
    requires "parameters" in r && r["parameters"] == JString(codec.dumps(JObject(parameters)))
    requires codec.load(codec.dumps(JObject(parameters))) == Some(JObject(parameters))
    ensures r["parameters"].JString? && codec.load(r["parameters"].s) == Some(JObject(parameters))
  {
  }

  /** The two parameters of the fixture's `v1` metadata. */
  lemma V1ParametersFields()
    ensures "temperature" in V1Parameters && V1Parameters["temperature"] == JNumber("0.7")
    ensures "max_tokens" in V1Parameters && V1Parameters["max_tokens"] == JNumber("1000")
  {
  }

  /** A fixture directory contributes one entry, its metadata file. */
  lemma FileEntriesCase(name: string, jsonText: string, prompt: string)
    ensures var v := PairDir(name, jsonText, prompt);
      FileEntries(v, v.files) == [Entry(v, "claude.3.5.json")]
  {
    FixtureNames();
    var v := PairDir(name, jsonText, prompt);
    var files := v.files;
    assert files[..1][..0] == [];
    assert FileEntries(v, files[..1]) == [Entry(v, "claude.3.5.json")];
    assert files[..|files| - 1] == files[..1];
  }

  /** The walk over the fixture yields exactly one record, with the fixture's identifier. */
  lemma CollectCase(jsonText: string, codec: Codec)
    requires codec.load(jsonText) == Some(Meta(V1Parameters))
    requires codec.load(codec.dumps(JObject(V1Parameters))) == Some(JObject(V1Parameters))
    ensures var records := Collect([FeatureDir("chat", [PairDir("v1", jsonText, "You are a helpful assistant.")])], codec);
      && records.Ok? && |records.value| == 1
      && records.value[0]["id"] == JString("chat--claude-3-5--v1")
      && records.value[0]["feature"] == JString("chat")
  {
    var v1 := PairDir("v1", jsonText, "You are a helpful assistant.");
    var e1 := Entry(v1, "claude.3.5.json");
    FixtureNames();
    GetItemCase(jsonText, codec);
    FileEntriesCase("v1", jsonText, "You are a helpful assistant.");
    assert VersionEntries([v1]) == [e1] by {
      assert [v1][..0] == [];
    }
    assert TreeEntries([FeatureDir("chat", [v1])]) == [e1] by {
      assert [FeatureDir("chat", [v1])][..0] == [];
    }
    ItemsOfOk([e1], Builder(codec));
  }

  /** The record of the metadata file of one fixture directory. */
  lemma FixtureDirItem(name: string, jsonText: string, prompt: string, parameters: map<string, Json>, codec: Codec)
    requires codec.load(jsonText) == Some(Meta(parameters))
    ensures var r := Builder(codec)(Entry(PairDir(name, jsonText, prompt), "claude.3.5.json"));
      r.Ok? && r.value["id"] == JString("chat--claude-3-5--" + Stem(name))
  {
    FixtureNames();
    PairDirItem(name, jsonText, prompt, codec);
    FixtureRecord(parameters, prompt, Stem(name), codec);
    ExampleIdPrefix(Stem(name));
  }

  /**
    With two version directories, the walk yields two records, one per
    version directory, in order, each identified by its directory's stem.
   */
  lemma CollectTwoVersions(name1: string, text1: string, prompt1: string, parameters1: map<string, Json>,
                           name2: string, text2: string, prompt2: string, parameters2: map<string, Json>, codec: Codec)
    requires codec.load(text1) == Some(Meta(parameters1)) && codec.load(text2) == Some(Meta(parameters2))
    ensures var records := Collect([FeatureDir("chat", [PairDir(name1, text1, prompt1), PairDir(name2, text2, prompt2)])], codec);
      && records.Ok? && |records.value| == 2
      && records.value[0]["id"] == JString("chat--claude-3-5--" + Stem(name1))
      && records.value[1]["id"] == JString("chat--claude-3-5--" + Stem(name2))
  {
    var v1 := PairDir(name1, text1, prompt1);
    var v2 := PairDir(name2, text2, prompt2);
    FileEntriesCase(name1, text1, prompt1);
    FileEntriesCase(name2, text2, prompt2);
    TwoVersionEntries(v1, v2);
    FixtureDirItem(name1, text1, prompt1, parameters1, codec);
    FixtureDirItem(name2, text2, prompt2, parameters2, codec);
    ItemsOfTwo(Entry(v1, "claude.3.5.json"), Entry(v2, "claude.3.5.json"), Builder(codec));
  }

  /** A feature directory with two version directories, each holding one metadata file, has two entries. */
  lemma TwoVersionEntries(v1: VersionDir, v2: VersionDir)
    requires FileEntries(v1, v1.files) == [Entry(v1, "claude.3.5.json")]
    requires FileEntries(v2, v2.files) == [Entry(v2, "claude.3.5.json")]
    ensures TreeEntries([FeatureDir("chat", [v1, v2])]) == [Entry(v1, "claude.3.5.json"), Entry(v2, "claude.3.5.json")]
  {
    assert VersionEntries([v1]) == [Entry(v1, "claude.3.5.json")] by {
      assert [v1][..0] == [];
    }
    assert [v1, v2][..1] == [v1];
    assert [FeatureDir("chat", [v1, v2])][..0] == [];
  }

  /** Two entries whose records can be built yield those two records. */
  lemma ItemsOfTwo(e1: Entry, e2: Entry, build: Entry -> Result<Record, ItemError>)
    requires build(e1).Ok? && build(e2).Ok?
    ensures ItemsOf([e1, e2], build) == Ok([build(e1).value, build(e2).value])
  {
    var none: seq<Entry> := [];
    ItemsOfStep(none, e1, build);
    assert none + [e1] == [e1];
    var r1, r2 := build(e1).value, build(e2).value;
    var empty: seq<Record> := [];
    assert empty + [r1] == [r1];
    ItemsOfStep([e1], e2, build);
    assert [e1] + [e2] == [e1, e2];
    assert [r1] + [r2] == [r1, r2];
  }

  /**
    The repository's second walk test: the fixture's `v1` directory and a
    `v2` directory with its own metadata and prompt give two records, with
    the identifiers `chat--claude-3-5--v1` and `chat--claude-3-5--v2`.
   */
  lemma CollectTwoVersionsCase(text1: string, text2: string, codec: Codec)
    requires codec.load(text1) == Some(Meta(V1Parameters)) && codec.load(text2) == Some(Meta(V2Parameters))
    ensures var records := Collect([FeatureDir("chat", [PairDir("v1", text1, "You are a helpful assistant."),
                                                        PairDir("v2", text2, "Updated prompt")])], codec);
      && records.Ok? && |records.value| == 2
      && records.value[0]["id"] == JString("chat--claude-3-5--v1")
      && records.value[1]["id"] == JString("chat--claude-3-5--v2")
  {
    CollectTwoVersions("v1", text1, "You are a helpful assistant.", V1Parameters,
                       "v2", text2, "Updated prompt", V2Parameters, codec);
    FixtureNames();
    assert "chat--claude-3-5--" + "v1" == "chat--claude-3-5--v1" && "chat--claude-3-5--" + "v2" == "chat--claude-3-5--v2";
  }

}
