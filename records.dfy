/**
  Building prompt records from the prompts tree: one metadata/prompt file
  pair becomes one flat record (script.py, `get_item`), and the walk over
  feature and version directories collects one record per metadata file
  (`collect_prompts_and_params`).
 */
module Records {
  import opened Wrappers
  import opened Json
  import opened Paths

  /** A record as a flat key-value mapping, the shape the store exchanges. */
  type Fields = map<string, Json>

  /** Every record that reaches the store carries its identifier under "id". */
  type Record = r: Fields | "id" in r witness map["id" := JNull]

  /**
    The prompts tree: feature directories hold version directories, which
    hold files. A file's `content` is the text `open(..., "r").read()`
    returns: already decoded, with universal newlines applied.
   */
  datatype File = File(name: string, content: string)
  datatype VersionDir = VersionDir(name: string, files: seq<File>)
  datatype FeatureDir = FeatureDir(name: string, versions: seq<VersionDir>)

  /** Why building one record fails: the exception `get_item` lets escape. */
  datatype ItemError =
    | MissingFile(name: string)   // `open` of a file that is not in the directory
    | InvalidJson(name: string)   // `json.load` rejects the metadata text
    | NotAnObject                 // the metadata is not a JSON object, so no key can be set
    | MissingKey(key: string)     // `data[key]` of an absent key
    | ModelNotText                // `.replace` on a model value that is not a string

  // ---------------------------------------------------------------------------
  // The record identifier

  /** The model name with every '.' replaced by '-'. */
  function ReplaceDots(model: string): (r: string)
    ensures |r| == |model|
    ensures forall i :: 0 <= i < |model| ==> r[i] == (if model[i] == '.' then '-' else model[i])
    ensures '.' !in r
  {
    if model == [] then []
    else [if model[0] == '.' then '-' else model[0]] + ReplaceDots(model[1..])
  }

  /** The identifier of the record for one feature, model and version directory stem. */
  function MakeId(feature: string, model: string, versionStem: string): (id: string)
    ensures |id| == |feature| + |model| + |versionStem| + 4
    ensures id[..|feature|] == feature && id[|id| - |versionStem|..] == versionStem
  {
    feature + "--" + ReplaceDots(model) + "--" + versionStem
  }

  /** The exact layout of an identifier, position by position. */
  lemma IdFormat(feature: string, model: string, versionStem: string)
    ensures var id := MakeId(feature, model, versionStem);
      && |id| == |feature| + |model| + |versionStem| + 4
      && id[..|feature|] == feature
      && id[|feature|] == '-' && id[|feature| + 1] == '-'
      && (forall i :: 0 <= i < |model| ==>
            id[|feature| + 2 + i] == (if model[i] == '.' then '-' else model[i]))
      && id[|feature| + 2 + |model|] == '-' && id[|feature| + 3 + |model|] == '-'
      && id[|feature| + |model| + 4..] == versionStem
  {
    var id := MakeId(feature, model, versionStem);
    assert id == feature + "--" + ReplaceDots(model) + "--" + versionStem;
    forall i | 0 <= i < |model|
      ensures id[|feature| + 2 + i] == (if model[i] == '.' then '-' else model[i])
    {
      assert id[|feature| + 2 + i] == ReplaceDots(model)[i];
    }
  }

  /** With the feature and the model fixed, the identifier tells version stems apart. */
  lemma IdDeterminesVersion(feature: string, model: string, v1: string, v2: string)
    requires MakeId(feature, model, v1) == MakeId(feature, model, v2)
    ensures v1 == v2
  {
    var prefix := feature + "--" + ReplaceDots(model) + "--";
    assert MakeId(feature, model, v1) == prefix + v1;
    assert MakeId(feature, model, v2) == prefix + v2;
    assert v1 == (prefix + v1)[|prefix|..];
    assert v2 == (prefix + v2)[|prefix|..];
  }

  /** Replacing dots a second time changes nothing. */
  lemma ReplaceDotsIdempotent(model: string)
    ensures ReplaceDots(ReplaceDots(model)) == ReplaceDots(model)
  {
    var once := ReplaceDots(model);
    var twice := ReplaceDots(once);
    assert forall i :: 0 <= i < |once| ==> twice[i] == once[i];
  }

  /**
    Identifiers are not injective: a model name containing a dot and the same
    name with its dots already replaced give the same identifier.
   */
  lemma IdNotInjectiveInModel(feature: string, model: string, versionStem: string)
    requires '.' in model
    ensures ReplaceDots(model) != model
    ensures MakeId(feature, model, versionStem) == MakeId(feature, ReplaceDots(model), versionStem)
  {
    var i :| 0 <= i < |model| && model[i] == '.';
    assert ReplaceDots(model)[i] == '-';
    ReplaceDotsIdempotent(model);
  }

  /**
    Nor across version directories: the stem drops the last suffix, so the
    directories `v1.0` and `v1.1` both contribute `v1`.
   */
  lemma VersionStemsCollide()
    ensures Stem("v1.0") == Stem("v1.1") == "v1"
  {
    NameWithExtension("v1", "0");
    NameWithExtension("v1", "1");
    assert "v1" + "." + "0" == "v1.0";
    assert "v1" + "." + "1" == "v1.1";
  }

  /** Dots are replaced piecewise: the replacement distributes over concatenation. */
  lemma {:induction false} ReplaceDotsAppend(a: string, b: string)
    ensures ReplaceDots(a + b) == ReplaceDots(a) + ReplaceDots(b)
  {
    if a == [] {
      assert a + b == b;
    } else {
      assert (a + b)[1..] == a[1..] + b;
      ReplaceDotsAppend(a[1..], b);
    }
  }

  /** A name without dots is its own replacement. */
  lemma ReplaceDotsNoDot(s: string)
    requires '.' !in s
    ensures ReplaceDots(s) == s
  {
    assert forall i :: 0 <= i < |s| ==> ReplaceDots(s)[i] == s[i];
  }

  /**
    Nor across the feature/model boundary: a feature name that contains the
    separator `--` gives the identifier of a shorter feature whose model
    name starts with the rest.
   */
  lemma SeparatorCollides(feature: string, m1: string, m2: string, versionStem: string)
    requires '.' !in m1
    ensures feature + "--" + m1 != feature
    ensures MakeId(feature + "--" + m1, m2, versionStem) == MakeId(feature, m1 + "--" + m2, versionStem)
  {
    var sep := "--";
    var tail := ReplaceDots(m2);
    assert ReplaceDots(m1 + sep + m2) == m1 + sep + tail by {
      ReplaceDotsNoDot(m1);
      ReplaceDotsNoDot(sep);
      ReplaceDotsAppend(m1, sep);
      ReplaceDotsAppend(m1 + sep, m2);
    }
    assert |feature + sep + m1| > |feature|;
    assert feature + sep + m1 + sep + tail + sep + versionStem == feature + sep + (m1 + sep + tail) + sep + versionStem;
  }

  /** A model name spelled `claude.3.5`, character by character, is spelled `claude-3-5` once its dots are replaced. */
  lemma ExampleModelChars(model: string)
    requires |model| == 10
    requires model[0] == 'c' && model[1] == 'l' && model[2] == 'a' && model[3] == 'u' && model[4] == 'd'
    requires model[5] == 'e' && model[6] == '.' && model[7] == '3' && model[8] == '.' && model[9] == '5'
    ensures ReplaceDots(model) == "claude-3-5"
  {
    var r := ReplaceDots(model);
    assert r[0] == 'c' && r[1] == 'l' && r[2] == 'a' && r[3] == 'u' && r[4] == 'd';
    assert r[5] == 'e' && r[6] == '-' && r[7] == '3' && r[8] == '-' && r[9] == '5';
  }

  /** The model name of the repository's tests, with its dots replaced. */
  lemma ExampleModel()
    ensures ReplaceDots("claude.3.5") == "claude-3-5"
  {
    ExampleModelChars("claude.3.5");
  }

  /** The identifiers of the repository's test model in feature `chat`. */
  lemma ExampleIdPrefix(versionStem: string)
    ensures MakeId("chat", "claude.3.5", versionStem) == "chat--claude-3-5--" + versionStem
  {
    ExampleModel();
    ExamplePrefix();
  }

  /**
    The separators and the test model name, joined. Kept apart: evaluating
    this concatenation of literals inside `ExampleIdPrefix` exhausts its
    resources.
   */
  lemma ExamplePrefix()
    ensures "chat" + "--" + "claude-3-5" + "--" == "chat--claude-3-5--"
  {
  }

  /** The identifier of the record the repository's tests build. */
  lemma ExampleId()
    ensures MakeId("chat", "claude.3.5", "v1") == "chat--claude-3-5--v1"
  {
    ExampleIdPrefix("v1");
    assert "chat--claude-3-5--" + "v1" == "chat--claude-3-5--v1";
  }

  // ---------------------------------------------------------------------------
  // One record from one metadata/prompt pair

  /** The content of the file with that name in a directory, if there is one. */
  function Lookup(files: seq<File>, name: string): (r: Option<string>)
    ensures r.None? <==> forall f :: f in files ==> f.name != name
    ensures r.Some? ==> File(name, r.value) in files
  {
    if files == [] then None
    else if files[0].name == name then Some(files[0].content)
    else Lookup(files[1..], name)
  }

  /** No two files of a directory share a name, as on any file system. */
  predicate UniqueNames(files: seq<File>)
  {
    forall i, j :: 0 <= i < j < |files| ==> files[i].name != files[j].name
  }

  /** In a directory, the lookup finds the content of the file with that name. */
  lemma {:induction false} LookupUnique(files: seq<File>, name: string, content: string)
    requires UniqueNames(files) && File(name, content) in files
    ensures Lookup(files, name) == Some(content)
  {
    if files[0].name != name {
      assert File(name, content) in files[1..];
      assert UniqueNames(files[1..]) by {
        forall i, j | 0 <= i < j < |files[1..]| ensures files[1..][i].name != files[1..][j].name {
          assert files[1..][i] == files[i + 1] && files[1..][j] == files[j + 1];
        }
      }
      LookupUnique(files[1..], name, content);
    }
  }

  /**
    The record built from parsed metadata and the prompt text: the prompt is
    stored under "prompts", the identifier under "id", the parameters are
    replaced by their serialised text, and everything else is kept.
   */
  function BuildRecord(meta: Json, prompt: string, versionStem: string, codec: Codec): (r: Result<Record, ItemError>)
    ensures !meta.JObject? ==> r == Err(NotAnObject)
    ensures meta.JObject? && "feature" !in meta.fields ==> r == Err(MissingKey("feature"))
    ensures meta.JObject? && "feature" in meta.fields && "model" !in meta.fields ==> r == Err(MissingKey("model"))
    ensures meta.JObject? && "feature" in meta.fields && "model" in meta.fields && !meta.fields["model"].JString?
            ==> r == Err(ModelNotText)
    ensures r.Ok? <==>
              meta.JObject? && "feature" in meta.fields && "model" in meta.fields
              && meta.fields["model"].JString? && "parameters" in meta.fields
    ensures r.Ok? ==>
              var data := meta.fields;
              && r.value.Keys == data.Keys + {"prompts", "id"}
              && r.value["prompts"] == JString(prompt)
              && r.value["id"] == JString(MakeId(Format(data["feature"], codec), data["model"].s, versionStem))
              && r.value["parameters"] == JString(codec.dumps(data["parameters"]))
              && forall k :: k in data && k !in {"prompts", "id", "parameters"} ==> r.value[k] == data[k]
  {
    if !meta.JObject? then Err(NotAnObject)
    else
      var data := meta.fields;
      if "feature" !in data then Err(MissingKey("feature"))
      else if "model" !in data then Err(MissingKey("model"))
      else if !data["model"].JString? then Err(ModelNotText)
      else if "parameters" !in data then Err(MissingKey("parameters"))
      else
        var id := MakeId(Format(data["feature"], codec), data["model"].s, versionStem);
        Ok(Assemble(data, prompt, id, codec.dumps(data["parameters"])))
  }

  /** The metadata with the prompt, the identifier and the serialised parameters written over it. */
  function Assemble(data: map<string, Json>, prompt: string, id: string, parameters: string): (r: Record)
    ensures r.Keys == data.Keys + {"prompts", "id", "parameters"}
    ensures r["prompts"] == JString(prompt) && r["id"] == JString(id) && r["parameters"] == JString(parameters)
    ensures forall k :: k in data && k !in {"prompts", "id", "parameters"} ==> r[k] == data[k]
  {
    data + map["prompts" := JString(prompt), "id" := JString(id), "parameters" := JString(parameters)]
  }

  /** Writing the three keys one at a time, as `get_item` does, gives the assembled record. */
  lemma AssembleInOrder(data: map<string, Json>, prompt: string, id: string, parameters: string)
    ensures data["prompts" := JString(prompt)]["id" := JString(id)]["parameters" := JString(parameters)]
            == Assemble(data, prompt, id, parameters)
  {
  }

  /**
    The outcome of `get_item` for a version directory and a model name: read
    `<model>.json`, parse it, read `<model>.md`, then build the record with the
    directory's stem as the version.
   */
  function Item(versionDir: VersionDir, modelName: string, codec: Codec): Result<Record, ItemError>
  {
    var jsonName := modelName + ".json";
    var mdName := modelName + ".md";
    match Lookup(versionDir.files, jsonName)
    case None => Err(MissingFile(jsonName))
    case Some(jsonText) =>
      match codec.load(jsonText)
      case None => Err(InvalidJson(jsonName))
      case Some(meta) =>
        match Lookup(versionDir.files, mdName)
        case None => Err(MissingFile(mdName))
        case Some(prompt) => BuildRecord(meta, prompt, Stem(versionDir.name), codec)
  }

  /** The errors `get_item` raises before any record is built: the metadata file or the prompt text is missing, or the metadata is not JSON. */
  lemma ItemFileErrors(versionDir: VersionDir, modelName: string, codec: Codec)
    ensures (forall f :: f in versionDir.files ==> f.name != modelName + ".json") ==>
              Item(versionDir, modelName, codec) == Err(MissingFile(modelName + ".json"))
    ensures forall text :: UniqueNames(versionDir.files) && File(modelName + ".json", text) in versionDir.files
                             && codec.load(text).None? ==>
              (Item(versionDir, modelName, codec).Err? && Item(versionDir, modelName, codec).error.InvalidJson?)
    ensures (forall f :: f in versionDir.files ==> f.name != modelName + ".md") ==> Item(versionDir, modelName, codec).Err?
  {
    forall text | UniqueNames(versionDir.files) && File(modelName + ".json", text) in versionDir.files
      ensures Lookup(versionDir.files, modelName + ".json") == Some(text)
    {
      LookupUnique(versionDir.files, modelName + ".json", text);
    }
  }

  /**
    A record `get_item` builds holds the content of the prompt text file, keeps
    every key of the metadata file, and its identifier ends with the stem of
    the version directory.
   */
  lemma ItemRecord(versionDir: VersionDir, modelName: string, codec: Codec)
    requires Item(versionDir, modelName, codec).Ok?
    ensures var r := Item(versionDir, modelName, codec).value;
      && r["prompts"].JString? && File(modelName + ".md", r["prompts"].s) in versionDir.files
      && (exists text :: File(modelName + ".json", text) in versionDir.files && codec.load(text).Some?
            && codec.load(text).value.JObject? && r.Keys == codec.load(text).value.fields.Keys + {"prompts", "id"})
      && r["id"].JString?
      && (exists feature, model :: r["id"].s == MakeId(feature, model, Stem(versionDir.name)))
  {
    var jsonText := Lookup(versionDir.files, modelName + ".json").value;
    var meta := codec.load(jsonText).value;
    assert File(modelName + ".json", jsonText) in versionDir.files;
    var r := Item(versionDir, modelName, codec).value;
    assert r["id"].s == MakeId(Format(meta.fields["feature"], codec), meta.fields["model"].s, Stem(versionDir.name));
  }

  /** The identifier of a record `get_item` builds, from the record's own feature and model and the directory's stem. */
  lemma ItemId(versionDir: VersionDir, modelName: string, codec: Codec)
    requires Item(versionDir, modelName, codec).Ok?
    ensures var r := Item(versionDir, modelName, codec).value;
      && "feature" in r && "model" in r && r["model"].JString?
      && r["id"] == JString(MakeId(Format(r["feature"], codec), r["model"].s, Stem(versionDir.name)))
  {
    var jsonText := Lookup(versionDir.files, modelName + ".json").value;
    var meta := codec.load(jsonText).value;
    var r := Item(versionDir, modelName, codec).value;
    assert r["feature"] == meta.fields["feature"] && r["model"] == meta.fields["model"];
  }

  /**
    Within one feature and one model, records from version directories with
    different stems have different identifiers.
   */
  lemma DistinctStemsDistinctIds(v1: VersionDir, v2: VersionDir, modelName: string, codec: Codec)
    requires Item(v1, modelName, codec).Ok? && Item(v2, modelName, codec).Ok?
    requires Item(v1, modelName, codec).value["feature"] == Item(v2, modelName, codec).value["feature"]
    requires Item(v1, modelName, codec).value["model"] == Item(v2, modelName, codec).value["model"]
    requires Stem(v1.name) != Stem(v2.name)
    ensures Item(v1, modelName, codec).value["id"] != Item(v2, modelName, codec).value["id"]
  {
    var r1 := Item(v1, modelName, codec).value;
    var r2 := Item(v2, modelName, codec).value;
    ItemId(v1, modelName, codec);
    ItemId(v2, modelName, codec);
    var feature := Format(r1["feature"], codec);
    var model := r1["model"].s;
    if r1["id"] == r2["id"] {
      IdDeterminesVersion(feature, model, Stem(v1.name), Stem(v2.name));
    }
  }

  /** `get_item`: reads the pair and fills the record one key at a time. */
  method GetItem(versionDir: VersionDir, modelName: string, codec: Codec) returns (r: Result<Record, ItemError>)
    ensures r == Item(versionDir, modelName, codec)
  {
    var jsonName := modelName + ".json";
    var jsonText := Lookup(versionDir.files, jsonName);
    if jsonText.None? {
      return Err(MissingFile(jsonName));
    }
    var loaded := codec.load(jsonText.value);
    if loaded.None? {
      return Err(InvalidJson(jsonName));
    }
    var mdName := modelName + ".md";
    var prompt := Lookup(versionDir.files, mdName);
    if prompt.None? {
      return Err(MissingFile(mdName));
    }
    if !loaded.value.JObject? {
      return Err(NotAnObject);
    }
    ghost var meta := loaded.value.fields;
    var data := loaded.value.fields;
    data := data["prompts" := JString(prompt.value)];
    assert forall k :: k != "prompts" ==> (k in data <==> k in meta);
    if "feature" !in data {
      return Err(MissingKey("feature"));
    }
    if "model" !in data {
      return Err(MissingKey("model"));
    }
    if !data["model"].JString? {
      return Err(ModelNotText);
    }
    var id := MakeId(Format(data["feature"], codec), data["model"].s, Stem(versionDir.name));
    data := data["id" := JString(id)];
    if "parameters" !in data {
      return Err(MissingKey("parameters"));
    }
    assert data["parameters"] == meta["parameters"] && data["feature"] == meta["feature"] && data["model"] == meta["model"];
    var parameters := codec.dumps(data["parameters"]);
    data := data["parameters" := JString(parameters)];
    AssembleInOrder(meta, prompt.value, id, parameters);
    return Ok(data);
  }

  // ---------------------------------------------------------------------------
  // The walk over the prompts tree

  /** A file the walk turns into a record: its version directory and its name. */
  datatype Entry = Entry(versionDir: VersionDir, name: string)

  /** The files of a version directory the walk visits, in order, without the prompt texts. */
  function FileEntries(versionDir: VersionDir, files: seq<File>): seq<Entry>
    decreases |files|
  {
    if files == [] then []
    else
      var name := files[|files| - 1].name;
      FileEntries(versionDir, files[..|files| - 1]) + (if IsMarkdown(name) then [] else [Entry(versionDir, name)])
  }

  /** The files the walk visits in some version directories, directory after directory. */
  function VersionEntries(versions: seq<VersionDir>): seq<Entry>
    decreases |versions|
  {
    if versions == [] then []
    else
      var last := versions[|versions| - 1];
      VersionEntries(versions[..|versions| - 1]) + FileEntries(last, last.files)
  }

  /** The files the walk visits in some feature directories, directory after directory. */
  function TreeEntries(tree: seq<FeatureDir>): seq<Entry>
    decreases |tree|
  {
    if tree == [] then []
    else TreeEntries(tree[..|tree| - 1]) + VersionEntries(tree[|tree| - 1].versions)
  }

  /** Builds the record of an entry: the one its directory and its stem name. */
  function Builder(codec: Codec): Entry -> Result<Record, ItemError>
  {
    (e: Entry) => Item(e.versionDir, Stem(e.name), codec)
  }

  /** The records of some entries, in order; the first entry whose record cannot be built ends the walk. */
  function ItemsOf(entries: seq<Entry>, build: Entry -> Result<Record, ItemError>): (r: Result<seq<Record>, ItemError>)
    ensures r.Ok? ==> |r.value| == |entries|
    decreases |entries|
  {
    if entries == [] then Ok([])
    else
      match ItemsOf(entries[..|entries| - 1], build)
      case Err(e) => Err(e)
      case Ok(items) =>
        match build(entries[|entries| - 1])
        case Err(e) => Err(e)
        case Ok(r) => Ok(items + [r])
  }

  /** The outcome of `collect_prompts_and_params` on a prompts tree. */
  function Collect(tree: seq<FeatureDir>, codec: Codec): (r: Result<seq<Record>, ItemError>)
    ensures r.Ok? ==> |r.value| == |TreeEntries(tree)|
  {
    ItemsOf(TreeEntries(tree), Builder(codec))
  }

  /** A walk over the first files of a directory visits a prefix of what the walk over all of them visits. */
  lemma {:induction false} FileEntriesPrefix(versionDir: VersionDir, files: seq<File>, k: nat)
    requires k <= |files|
    ensures FileEntries(versionDir, files[..k]) <= FileEntries(versionDir, files)
    decreases |files| - k
  {
    if k == |files| {
      assert files[..k] == files;
    } else {
      FileEntriesPrefix(versionDir, files, k + 1);
      assert files[..k + 1][..k] == files[..k];
    }
  }

  /** A walk over the first version directories visits a prefix of what the walk over all of them visits. */
  lemma {:induction false} VersionEntriesPrefix(versions: seq<VersionDir>, k: nat)
    requires k <= |versions|
    ensures VersionEntries(versions[..k]) <= VersionEntries(versions)
    decreases |versions| - k
  {
    if k == |versions| {
      assert versions[..k] == versions;
    } else {
      VersionEntriesPrefix(versions, k + 1);
      assert versions[..k + 1][..k] == versions[..k];
    }
  }

  /** A walk over the first feature directories visits a prefix of what the walk over all of them visits. */
  lemma {:induction false} TreeEntriesPrefix(tree: seq<FeatureDir>, k: nat)
    requires k <= |tree|
    ensures TreeEntries(tree[..k]) <= TreeEntries(tree)
    decreases |tree| - k
  {
    if k == |tree| {
      assert tree[..k] == tree;
    } else {
      TreeEntriesPrefix(tree, k + 1);
      assert tree[..k + 1][..k] == tree[..k];
    }
  }

  /**
    Concatenation of entry sequences is associative. Kept apart: the same
    equality asserted inside `VisitVersion` exhausts its resources.
   */
  lemma AppendAssociative(a: seq<Entry>, b: seq<Entry>, c: seq<Entry>)
    ensures a + (b + c) == (a + b) + c
  {
  }

  /** A prefix stays a prefix behind a common start. */
  lemma PrefixAfter(a: seq<Entry>, b: seq<Entry>, c: seq<Entry>)
    requires b <= c
    ensures a + b <= a + c
  {
    assert (a + c)[..|a + b|] == a + c[..|b|];
  }

  /** Once the records of a prefix of the entries cannot be built, the walk over all of them fails the same way. */
  lemma {:induction false} ItemsOfKeepsFailure(entries: seq<Entry>, prefix: seq<Entry>, build: Entry -> Result<Record, ItemError>)
    requires prefix <= entries && ItemsOf(prefix, build).Err?
    ensures ItemsOf(entries, build) == ItemsOf(prefix, build)
    decreases |entries|
  {
    if |entries| > |prefix| {
      assert entries[..|entries| - 1][..|prefix|] == prefix;
      ItemsOfKeepsFailure(entries[..|entries| - 1], prefix, build);
    } else {
      assert entries == prefix;
    }
  }

  /** One more entry extends the records by that entry's record. */
  lemma ItemsOfStep(entries: seq<Entry>, e: Entry, build: Entry -> Result<Record, ItemError>)
    ensures ItemsOf(entries + [e], build) ==
              match ItemsOf(entries, build)
              case Err(err) => Err(err)
              case Ok(items) =>
                match build(e)
                case Err(err) => Err(err)
                case Ok(r) => Ok(items + [r])
  {
    assert (entries + [e])[..|entries|] == entries;
  }

  /** Visiting a prompt text adds no record. */
  lemma VisitMarkdown(versionDir: VersionDir, done: seq<Entry>, k: nat, build: Entry -> Result<Record, ItemError>, items: seq<Record>)
    requires k < |versionDir.files| && IsMarkdown(versionDir.files[k].name)
    requires ItemsOf(done + FileEntries(versionDir, versionDir.files[..k]), build) == Ok(items)
    ensures ItemsOf(done + FileEntries(versionDir, versionDir.files[..k + 1]), build) == Ok(items)
  {
    assert versionDir.files[..k + 1][..k] == versionDir.files[..k];
    assert FileEntries(versionDir, versionDir.files[..k + 1]) == FileEntries(versionDir, versionDir.files[..k]) + [];
    assert done + FileEntries(versionDir, versionDir.files[..k + 1]) == done + FileEntries(versionDir, versionDir.files[..k]);
  }

  /** Visiting any other file adds the record its stem names, or fails as building that record fails. */
  lemma VisitItem(versionDir: VersionDir, done: seq<Entry>, k: nat, build: Entry -> Result<Record, ItemError>, items: seq<Record>)
    requires k < |versionDir.files| && !IsMarkdown(versionDir.files[k].name)
    requires ItemsOf(done + FileEntries(versionDir, versionDir.files[..k]), build) == Ok(items)
    ensures var item := build(Entry(versionDir, versionDir.files[k].name));
      && (item.Ok? ==> ItemsOf(done + FileEntries(versionDir, versionDir.files[..k + 1]), build) == Ok(items + [item.value]))
      && (item.Err? ==> ItemsOf(done + FileEntries(versionDir, versionDir.files), build) == Err(item.error))
  {
    var files := versionDir.files;
    var visited := done + FileEntries(versionDir, files[..k]);
    var e := Entry(versionDir, files[k].name);
    assert files[..k + 1][..k] == files[..k];
    assert FileEntries(versionDir, files[..k + 1]) == FileEntries(versionDir, files[..k]) + [e];
    assert done + FileEntries(versionDir, files[..k + 1]) == visited + [e];
    ItemsOfStep(visited, e, build);
    if build(e).Err? {
      FileEntriesPrefix(versionDir, files, k + 1);
      PrefixAfter(done, FileEntries(versionDir, files[..k + 1]), FileEntries(versionDir, files));
      ItemsOfKeepsFailure(done + FileEntries(versionDir, files), visited + [e], build);
    }
  }

  /**
    The innermost loop of `collect_prompts_and_params`: over the files of one
    version directory, skipping prompt texts and appending one record per
    other file to `items`, the records of the entries `done` visited before;
    an item that cannot be built ends the walk.
   */
  method AppendVersionItems(versionDir: VersionDir, codec: Codec, items: seq<Record>, ghost done: seq<Entry>)
    returns (r: Result<seq<Record>, ItemError>)
    requires ItemsOf(done, Builder(codec)) == Ok(items)
    ensures r == ItemsOf(done + FileEntries(versionDir, versionDir.files), Builder(codec))
  {
    var acc := items;
    assert done + FileEntries(versionDir, versionDir.files[..0]) == done;
    for k := 0 to |versionDir.files|
      invariant ItemsOf(done + FileEntries(versionDir, versionDir.files[..k]), Builder(codec)) == Ok(acc)
    {
      var name := versionDir.files[k].name;
      if IsMarkdown(name) {
        VisitMarkdown(versionDir, done, k, Builder(codec), acc);
        continue;
      }
      VisitItem(versionDir, done, k, Builder(codec), acc);
      var item := GetItem(versionDir, Stem(name), codec);
      assert item == Builder(codec)(Entry(versionDir, name));
      if item.Err? {
        return Err(item.error);
      }
      acc := acc + [item.value];
    }
    assert versionDir.files[..|versionDir.files|] == versionDir.files;
    return Ok(acc);
  }

  /** The walk over one more version directory visits its files after the others. */
  lemma VersionEntriesStep(versions: seq<VersionDir>, j: nat)
    requires j < |versions|
    ensures VersionEntries(versions[..j + 1]) == VersionEntries(versions[..j]) + FileEntries(versions[j], versions[j].files)
  {
    assert versions[..j + 1][..j] == versions[..j];
  }

  /** Visiting one more version directory adds its records, or fails as they fail. */
  lemma VisitVersion(versions: seq<VersionDir>, done: seq<Entry>, j: nat, build: Entry -> Result<Record, ItemError>, items: seq<Record>)
    requires j < |versions|
    requires ItemsOf(done + VersionEntries(versions[..j]), build) == Ok(items)
    ensures var visited := done + VersionEntries(versions[..j]);
      var result := ItemsOf(visited + FileEntries(versions[j], versions[j].files), build);
      && (result.Ok? ==> ItemsOf(done + VersionEntries(versions[..j + 1]), build) == result)
      && (result.Err? ==> ItemsOf(done + VersionEntries(versions), build) == result)
  {
    var visited := done + VersionEntries(versions[..j]);
    var next := visited + FileEntries(versions[j], versions[j].files);
    VersionEntriesStep(versions, j);
    AppendAssociative(done, VersionEntries(versions[..j]), FileEntries(versions[j], versions[j].files));
    if ItemsOf(next, build).Err? {
      VersionEntriesPrefix(versions, j + 1);
      PrefixAfter(done, VersionEntries(versions[..j + 1]), VersionEntries(versions));
      ItemsOfKeepsFailure(done + VersionEntries(versions), next, build);
    }
  }

  /**
    The middle loop of `collect_prompts_and_params`: over the version
    directories of one feature directory, each handled by `AppendVersionItems`.
   */
  method AppendFeatureItems(featureDir: FeatureDir, codec: Codec, items: seq<Record>, ghost done: seq<Entry>)
    returns (r: Result<seq<Record>, ItemError>)
    requires ItemsOf(done, Builder(codec)) == Ok(items)
    ensures r == ItemsOf(done + VersionEntries(featureDir.versions), Builder(codec))
  {
    var acc := items;
    assert done + VersionEntries(featureDir.versions[..0]) == done;
    for j := 0 to |featureDir.versions|
      invariant ItemsOf(done + VersionEntries(featureDir.versions[..j]), Builder(codec)) == Ok(acc)
    {
      VisitVersion(featureDir.versions, done, j, Builder(codec), acc);
      var appended := AppendVersionItems(featureDir.versions[j], codec, acc, done + VersionEntries(featureDir.versions[..j]));
      if appended.Err? {
        return Err(appended.error);
      }
      acc := appended.value;
    }
    assert featureDir.versions[..|featureDir.versions|] == featureDir.versions;
    return Ok(acc);
  }

  /** Visiting one more feature directory adds its records, or fails as they fail. */
  lemma VisitFeature(tree: seq<FeatureDir>, i: nat, build: Entry -> Result<Record, ItemError>, items: seq<Record>)
    requires i < |tree|
    requires ItemsOf(TreeEntries(tree[..i]), build) == Ok(items)
    ensures var result := ItemsOf(TreeEntries(tree[..i]) + VersionEntries(tree[i].versions), build);
      && (result.Ok? ==> ItemsOf(TreeEntries(tree[..i + 1]), build) == result)
      && (result.Err? ==> ItemsOf(TreeEntries(tree), build) == result)
  {
    var visited := TreeEntries(tree[..i]);
    assert tree[..i + 1][..i] == tree[..i];
    assert TreeEntries(tree[..i + 1]) == visited + VersionEntries(tree[i].versions);
    if ItemsOf(visited + VersionEntries(tree[i].versions), build).Err? {
      TreeEntriesPrefix(tree, i + 1);
      ItemsOfKeepsFailure(TreeEntries(tree), visited + VersionEntries(tree[i].versions), build);
    }
  }

  /**
    `collect_prompts_and_params`: the outer loop, over the feature
    directories, each handled by `AppendFeatureItems`.
   */
  method CollectPromptsAndParams(tree: seq<FeatureDir>, codec: Codec) returns (r: Result<seq<Record>, ItemError>)
    ensures r == Collect(tree, codec)
  {
    var items: seq<Record> := [];
    assert TreeEntries(tree[..0]) == [];
    for i := 0 to |tree|
      invariant ItemsOf(TreeEntries(tree[..i]), Builder(codec)) == Ok(items)
    {
      VisitFeature(tree, i, Builder(codec), items);
      var appended := AppendFeatureItems(tree[i], codec, items, TreeEntries(tree[..i]));
      if appended.Err? {
        return Err(appended.error);
      }
      items := appended.value;
    }
    assert tree[..|tree|] == tree;
    return Ok(items);
  }

  // ---------------------------------------------------------------------------
  // What the walk produces

  /** The walk succeeds exactly when every visited entry yields a record, and then yields one record per entry, in order. */
  lemma {:induction false} ItemsOfOk(entries: seq<Entry>, build: Entry -> Result<Record, ItemError>)
    ensures ItemsOf(entries, build).Ok? <==> forall k :: 0 <= k < |entries| ==> build(entries[k]).Ok?
    ensures ItemsOf(entries, build).Ok? ==>
              var items := ItemsOf(entries, build).value;
              && |items| == |entries|
              && forall k :: 0 <= k < |entries| ==> items[k] == build(entries[k]).value
    decreases |entries|
  {
    if entries != [] {
      var init := entries[..|entries| - 1];
      ItemsOfOk(init, build);
      assert forall k :: 0 <= k < |init| ==> init[k] == entries[k];
    }
  }

  /** A failed walk reports the error of the first entry whose record cannot be built. */
  lemma {:induction false} ItemsOfErr(entries: seq<Entry>, build: Entry -> Result<Record, ItemError>)
    requires ItemsOf(entries, build).Err?
    ensures exists k :: 0 <= k < |entries| && build(entries[k]) == Err(ItemsOf(entries, build).error)
              && forall j :: 0 <= j < k ==> build(entries[j]).Ok?
    decreases |entries|
  {
    var init := entries[..|entries| - 1];
    var last := |entries| - 1;
    if ItemsOf(init, build).Err? {
      ItemsOfErr(init, build);
      var k :| 0 <= k < |init| && build(init[k]) == Err(ItemsOf(init, build).error)
                && forall j :: 0 <= j < k ==> build(init[j]).Ok?;
      assert init[k] == entries[k];
      assert forall j :: 0 <= j < k ==> init[j] == entries[j];
    } else {
      ItemsOfOk(init, build);
      assert forall j :: 0 <= j < last ==> init[j] == entries[j];
      assert build(entries[last]) == Err(ItemsOf(entries, build).error);
    }
  }

  /** A version directory's entries are exactly its files that are not prompt texts. */
  lemma {:induction false} FileEntriesMembers(versionDir: VersionDir, files: seq<File>, e: Entry)
    ensures e in FileEntries(versionDir, files) <==>
              e.versionDir == versionDir && !IsMarkdown(e.name) && exists f :: f in files && f.name == e.name
    decreases |files|
  {
    if files != [] {
      var init := files[..|files| - 1];
      var last := files[|files| - 1];
      FileEntriesMembers(versionDir, init, e);
      assert files == init + [last];
      assert forall f :: f in files <==> f in init || f == last;
    }
  }

  /** A file the walk turns into a record: not a prompt text, in a version directory of a feature directory of the tree. */
  predicate InTree(tree: seq<FeatureDir>, versionDir: VersionDir, name: string)
  {
    && !IsMarkdown(name)
    && (exists featureDir :: featureDir in tree && versionDir in featureDir.versions)
    && exists f :: f in versionDir.files && f.name == name
  }

  /** The entries of some version directories are the entries of each. */
  lemma {:induction false} VersionEntriesMembers(versions: seq<VersionDir>, e: Entry)
    ensures e in VersionEntries(versions) <==> e.versionDir in versions && e in FileEntries(e.versionDir, e.versionDir.files)
    decreases |versions|
  {
    if versions != [] {
      var init := versions[..|versions| - 1];
      var last := versions[|versions| - 1];
      VersionEntriesMembers(init, e);
      assert VersionEntries(versions) == VersionEntries(init) + FileEntries(last, last.files);
      assert e.versionDir in versions <==> e.versionDir in init || e.versionDir == last by {
        assert versions == init + [last];
      }
      if e.versionDir != last {
        FileEntriesMembers(last, last.files, e);
      }
    }
  }

  /** The walk visits exactly the files of the tree that are not prompt texts. */
  lemma {:induction false} TreeEntriesMembers(tree: seq<FeatureDir>, e: Entry)
    ensures e in TreeEntries(tree) <==> InTree(tree, e.versionDir, e.name)
    decreases |tree|
  {
    if tree == [] {
    } else {
      var init := tree[..|tree| - 1];
      var last := tree[|tree| - 1];
      TreeEntriesMembers(init, e);
      VersionEntriesMembers(last.versions, e);
      FileEntriesMembers(e.versionDir, e.versionDir.files, e);
      assert TreeEntries(tree) == TreeEntries(init) + VersionEntries(last.versions);
      assert forall fd :: fd in tree <==> fd in init || fd == last by {
        assert tree == init + [last];
      }
    }
  }

  /** The walk succeeds exactly when every file it visits yields a record. */
  lemma CollectSucceeds(tree: seq<FeatureDir>, codec: Codec)
    ensures Collect(tree, codec).Ok? <==>
              forall versionDir, name :: InTree(tree, versionDir, name) ==> Item(versionDir, Stem(name), codec).Ok?
  {
    var entries := TreeEntries(tree);
    ItemsOfOk(entries, Builder(codec));
    if Collect(tree, codec).Ok? {
      forall versionDir, name | InTree(tree, versionDir, name)
        ensures Item(versionDir, Stem(name), codec).Ok?
      {
        TreeEntriesMembers(tree, Entry(versionDir, name));
        var k :| 0 <= k < |entries| && entries[k] == Entry(versionDir, name);
        assert Builder(codec)(entries[k]).Ok?;
      }
    } else {
      var k :| 0 <= k < |entries| && !Builder(codec)(entries[k]).Ok?;
      TreeEntriesMembers(tree, entries[k]);
    }
  }

  /**
    A successful walk yields one record per visited file, in visiting order:
    every file of the tree that is not a prompt text contributes its record,
    and every record comes from such a file.
   */
  lemma CollectRecords(tree: seq<FeatureDir>, codec: Codec)
    requires Collect(tree, codec).Ok?
    ensures var records := Collect(tree, codec).value;
      && |records| == |TreeEntries(tree)|
      && (forall versionDir, name :: InTree(tree, versionDir, name) ==>
            Item(versionDir, Stem(name), codec).Ok? && Item(versionDir, Stem(name), codec).value in records)
      && (forall record :: record in records ==>
            exists versionDir, name :: InTree(tree, versionDir, name) && Item(versionDir, Stem(name), codec) == Ok(record))
  {
    var entries := TreeEntries(tree);
    var records := Collect(tree, codec).value;
    ItemsOfOk(entries, Builder(codec));
    forall versionDir, name | InTree(tree, versionDir, name)
      ensures Item(versionDir, Stem(name), codec).Ok? && Item(versionDir, Stem(name), codec).value in records
    {
      TreeEntriesMembers(tree, Entry(versionDir, name));
      var k :| 0 <= k < |entries| && entries[k] == Entry(versionDir, name);
      assert records[k] == Builder(codec)(entries[k]).value;
    }
    forall record | record in records
      ensures exists versionDir, name :: InTree(tree, versionDir, name) && Item(versionDir, Stem(name), codec) == Ok(record)
    {
      var k :| 0 <= k < |records| && records[k] == record;
      TreeEntriesMembers(tree, entries[k]);
      assert Builder(codec)(entries[k]) == Ok(record);
      assert InTree(tree, entries[k].versionDir, entries[k].name);
    }
  }

  /** A failed walk reports the error of a visited file whose record cannot be built. */
  lemma CollectFails(tree: seq<FeatureDir>, codec: Codec)
    requires Collect(tree, codec).Err?
    ensures exists versionDir, name :: InTree(tree, versionDir, name)
              && Item(versionDir, Stem(name), codec) == Err(Collect(tree, codec).error)
  {
    var entries := TreeEntries(tree);
    ItemsOfErr(entries, Builder(codec));
    var k :| 0 <= k < |entries| && Builder(codec)(entries[k]) == Err(Collect(tree, codec).error)
              && forall j :: 0 <= j < k ==> Builder(codec)(entries[j]).Ok?;
    TreeEntriesMembers(tree, entries[k]);
    assert InTree(tree, entries[k].versionDir, entries[k].name);
  }
}
