/**
 * The store engine that keeps its document in an envelope
 * `{isStoreFile: true, type: 'v1', version: 1, data}`. A store resolves its path
 * from its options, loads before every operation and, for `write`, persists
 * the envelope afterwards.
 */
module Storeosaurus {
  import opened Wrappers
  import opened Json
  import opened Disk
  import opened Engine

  /** `StoreOptions`; `encrypt` is declared but no operation reads it. */
  datatype StoreOptions = StoreOptions(
    name: Option<string>,
    default: Option<JVal>,
    filePath: Option<string>,
    encrypt: Option<string>)

  /** `open()` without arguments. */
  const NoOptions := StoreOptions(None, None, None, None)

  /** A store: its options and its working copy, where `None` is `undefined`. */
  datatype Store = Store(options: StoreOptions, data: Option<JVal>)

  /** What `read` and `write` can throw. */
  datatype StoreError =
    | InvalidFileFormat   // the parsed file is not an envelope
    | SyntaxError         // `JSON.parse` failed
    | TypeError           // the parsed file is `null`, so `document.isStoreFile` throws
    | ReadFailure         // `Deno.readTextFile` failed other than with NotFound

  const DefaultPath := "store.json"
  const PathSuffix := ".store.json"

  /** `Store.open`: keeps the options and starts from the empty object; the disk is not touched. */
  function Open(options: StoreOptions): (s: Store)
    ensures s.options == options
    ensures s.data == Some(EmptyObject)
  {
    Store(options, Some(EmptyObject))
  }

  /** An optional string that JavaScript treats as true: present and non-empty. */
  predicate Given(s: Option<string>)
    ensures Given(s) <==> s.Some? && Truthy(JStr(s.value))
  {
    s.Some? && s.value != ""
  }

  predicate IsUpper(c: char)
  {
    'A' <= c <= 'Z'
  }

  /** `toLowerCase`, on ASCII letters only. */
  function LowerCase(s: string): (r: string)
    ensures |r| == |s|
    ensures forall i :: 0 <= i < |s| ==> !IsUpper(r[i])
    ensures forall i :: 0 <= i < |s| && !IsUpper(s[i]) ==> r[i] == s[i]
    ensures forall i :: 0 <= i < |s| && IsUpper(s[i]) ==> r[i] as int == s[i] as int + 32
  {
    seq(|s|, i requires 0 <= i < |s| => if IsUpper(s[i]) then (s[i] as int + 32) as char else s[i])
  }

  /** `storeFilePath`: an explicit path, else the lower-cased name with the suffix, else `store.json`. */
  function StoreFilePath(o: StoreOptions): (p: string)
    ensures !Given(o.name) && !Given(o.filePath) ==> p == DefaultPath
    ensures Given(o.filePath) ==> p == o.filePath.value
    ensures Given(o.name) && !Given(o.filePath) ==> p == LowerCase(o.name.value) + PathSuffix
    ensures p != ""
  {
    if !Given(o.name) && !Given(o.filePath) then DefaultPath
    else if Given(o.filePath) then o.filePath.value
    else LowerCase(o.name.value) + PathSuffix
  }

  /** The file names the tests expect. */
  lemma StoreFileNames()
    ensures StoreFilePath(NoOptions) == "store.json"
    ensures StoreFilePath(NoOptions.(name := Some("counter"))) == "counter.store.json"
    ensures StoreFilePath(NoOptions.(filePath := Some("custom-file.any.store.json"))) == "custom-file.any.store.json"
    ensures StoreFilePath(NoOptions.(name := Some("books"), filePath := Some("custom-book-file.store.json")))
            == "custom-book-file.store.json"
    ensures StoreFilePath(NoOptions.(name := Some("Counter"))) == "counter.store.json"
  {
    assert LowerCase("counter") == "counter";
    assert LowerCase("Counter") == "counter";
  }

  /** `options.default || {}`: the value adopted when the file does not exist. */
  function DefaultData(o: StoreOptions): (v: JVal)
    ensures Truthy(v)
    ensures o.default.Some? && Truthy(o.default.value) ==> v == o.default.value
    ensures o.default.None? || !Truthy(o.default.value) ==> v == EmptyObject
  {
    if o.default.Some? && Truthy(o.default.value) then o.default.value else EmptyObject
  }

  /** The envelope `writeToDisk` serializes; an `undefined` working copy leaves out `data`. */
  function Envelope(d: Option<JVal>): (e: JVal)
    ensures IsEnvelope(e)
    ensures Payload(e) == d
    ensures e.JObj? && "version" in e.fields && e.fields["version"] == JNum(1)
    ensures e.fields["isStoreFile"] == JBool(true)
    ensures e.fields.Keys == {"isStoreFile", "type", "version"} + (if d.Some? then {"data"} else {})
  {
    var header := map["isStoreFile" := JBool(true), "type" := JStr("v1"), "version" := JNum(1)];
    JObj(if d.Some? then header["data" := d.value] else header)
  }

  /** A parsed file that the load accepts: an object with a truthy `isStoreFile` and `type` equal to `'v1'`. */
  predicate IsEnvelope(doc: JVal)
    ensures IsEnvelope(doc) <==> Get(doc, "isStoreFile").IsTruthy() && Get(doc, "type") == Defined(JStr("v1"))
  {
    && doc.JObj?
    && "isStoreFile" in doc.fields && Truthy(doc.fields["isStoreFile"])
    && "type" in doc.fields && doc.fields["type"] == JStr("v1")
  }

  /** `document.data`. */
  function Payload(doc: JVal): (d: Option<JVal>)
    ensures d.Some? <==> doc.JObj? && "data" in doc.fields
    ensures d.Some? ==> d.value == doc.fields["data"]
  {
    match Get(doc, "data")
    case Defined(v) => Some(v)
    case _ => None
  }

  /** The check on a parsed file: `document.isStoreFile && document.type === 'v1'`. */
  function Adopt(s: Store, doc: JVal): (r: Result<Store, StoreError>)
    ensures r.Success? <==> IsEnvelope(doc)
    ensures r.Success? ==> r.value == s.(data := Payload(doc))
    ensures r.Failure? ==> r.error == (if doc == JNull then TypeError else InvalidFileFormat)
  {
    var marker := Get(doc, "isStoreFile");
    if marker.NullDereference? then Failure(TypeError)
    else if marker.IsTruthy() && Get(doc, "type") == Defined(JStr("v1")) then Success(s.(data := Payload(doc)))
    else Failure(InvalidFileFormat)
  }

  /** `loadJsonFromDisk`. */
  function Load(s: Store, fs: FileSystem): (r: Result<Store, StoreError>)
    ensures r.Success? ==> r.value.options == s.options
    ensures var p := StoreFilePath(s.options);
      p !in fs ==> r == Success(s.(data := Some(DefaultData(s.options))))
    ensures var p := StoreFilePath(s.options);
      p in fs && fs[p] == File(Blank) ==> r == Success(s)
    ensures var p := StoreFilePath(s.options);
      p in fs && fs[p].File? && fs[p].text.Json? ==>
        var doc := fs[p].text.value;
        && (r.Success? <==> IsEnvelope(doc))
        && (r.Success? ==> r.value.data == Payload(doc))
        && (r.Failure? ==> r.error == (if doc == JNull then TypeError else InvalidFileFormat))
    ensures var p := StoreFilePath(s.options);
      p in fs && fs[p] == File(Malformed) ==> r == Failure(SyntaxError)
    ensures var p := StoreFilePath(s.options);
      p in fs && fs[p] == Unreadable ==> r == Failure(ReadFailure)
  {
    match ReadTextFile(fs, StoreFilePath(s.options))
    case NotFound => Success(s.(data := Some(DefaultData(s.options))))
    case ReadError => Failure(ReadFailure)
    case Contents(text) =>
      if text == Blank then Success(s)
      else match Parse(text)
        case None => Failure(SyntaxError)
        case Some(doc) => Adopt(s, doc)
  }

  /** `writeToDisk`: the envelope of the working copy, at the store's path. */
  function WriteToDisk(s: Store, fs: FileSystem): (fs': FileSystem)
    ensures fs' == fs[StoreFilePath(s.options) := File(Json(Envelope(s.data)))]
    ensures Load(s, fs') == Success(s)
  {
    WriteTextFile(fs, StoreFilePath(s.options), Stringify(Envelope(s.data)))
  }

  /** The working copy after a callback; `undefined` cannot be changed by it. */
  function Apply(effect: JVal -> JVal, d: Option<JVal>): (r: Option<JVal>)
    ensures r.None? <==> d.None?
    ensures d.Some? ==> r.value == InPlace(effect, d.value)
  {
    match d
    case None => None
    case Some(v) => Some(InPlace(effect, v))
  }

  /** `read`: load, then run the callback on the working copy; the file system stays as it is. */
  function Read(s: Store, fs: FileSystem, effect: JVal -> JVal): (r: Step<Store, StoreError>)
    ensures r.fs == fs
    ensures r.error.Some? <==> Load(s, fs).Failure?
    ensures r.error.Some? ==> r.store == s && r.error.value == Load(s, fs).error
    ensures r.error.None? ==> r.store.options == s.options
    ensures r.error.None? ==> r.store.data == Apply(effect, Load(s, fs).value.data)
  {
    match Load(s, fs)
    case Failure(e) => Step(s, fs, Some(e))
    case Success(loaded) => Step(loaded.(data := Apply(effect, loaded.data)), fs, None)
  }

  /**
   * `write`: load, run the callback, then persist the envelope. Only the entry
   * at the store's path changes, and a load from the result adopts the data.
   */
  function Write(s: Store, fs: FileSystem, effect: JVal -> JVal): (r: Step<Store, StoreError>)
    ensures r.error.Some? <==> Load(s, fs).Failure?
    ensures r.error.Some? ==> r.store == s && r.fs == fs && r.error.value == Load(s, fs).error
    ensures r.error.None? ==> r.store.options == s.options
    ensures r.error.None? ==> r.store.data == Apply(effect, Load(s, fs).value.data)
    ensures r.error.None? ==>
      var p := StoreFilePath(s.options);
      && ReadTextFile(r.fs, p) == Contents(Json(Envelope(r.store.data)))
      && r.fs.Keys == fs.Keys + {p}
      && r.fs - {p} == fs - {p}
  {
    match Load(s, fs)
    case Failure(e) => Step(s, fs, Some(e))
    case Success(loaded) =>
      var updated := loaded.(data := Apply(effect, loaded.data));
      Step(updated, WriteToDisk(updated, fs), None)
  }
}
