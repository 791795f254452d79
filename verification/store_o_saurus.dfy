/**
 * The earlier store engine: the file holds the raw JSON document with no
 * envelope, the path is the store name with a suffix, a missing file keeps the
 * working copy, and `assure` fills in missing top-level keys.
 */
module StoreOSaurus {
  import opened Wrappers
  import opened Json
  import opened Disk
  import opened Engine

  /** A store: its name and its working copy. */
  datatype Store = Store(name: string, data: JVal)

  /** What `read`, `write` and `assure` can throw. */
  datatype StoreError =
    | SyntaxError   // `JSON.parse` failed
    | TypeError     // `assure` assigned a member of a working copy that is not an object
    | ReadFailure   // `Deno.readTextFile` failed other than with NotFound

  const DefaultName := "default"
  const PathSuffix := ".store.json"

  /** `Store.open(storeName = 'default')`: the disk is not touched. */
  function Open(storeName: Option<string>): (s: Store)
    ensures storeName.Some? ==> s.name == storeName.value
    ensures storeName.None? ==> s.name == DefaultName
    ensures s.data == EmptyObject
  {
    Store(if storeName.Some? then storeName.value else DefaultName, EmptyObject)
  }

  /** `fileName`: the name as given, with the suffix. */
  function FileName(s: Store): (p: string)
    ensures |p| == |s.name| + |PathSuffix|
    ensures p[..|s.name|] == s.name && p[|s.name|..] == PathSuffix
  {
    s.name + PathSuffix
  }

  /** File names keep the case of the name, and an unnamed store uses `default`. */
  lemma FileNames()
    ensures FileName(Open(None)) == "default.store.json"
    ensures FileName(Open(Some("Counter"))) == "Counter.store.json"
  {
  }

  /** `loadJsonFromDisk`: adopt the parsed file; a missing or empty file keeps the working copy. */
  function Load(s: Store, fs: FileSystem): (r: Result<Store, StoreError>)
    ensures r.Success? ==> r.value.name == s.name
    ensures FileName(s) !in fs ==> r == Success(s)
    ensures FileName(s) in fs && fs[FileName(s)] == File(Blank) ==> r == Success(s)
    ensures FileName(s) in fs && fs[FileName(s)].File? && fs[FileName(s)].text.Json? ==>
      r == Success(s.(data := fs[FileName(s)].text.value))
    ensures FileName(s) in fs && fs[FileName(s)] == File(Malformed) ==> r == Failure(SyntaxError)
    ensures FileName(s) in fs && fs[FileName(s)] == Unreadable ==> r == Failure(ReadFailure)
  {
    match ReadTextFile(fs, FileName(s))
    case NotFound => Success(s)
    case ReadError => Failure(ReadFailure)
    case Contents(text) =>
      if text == Blank then Success(s)
      else match Parse(text)
        case None => Failure(SyntaxError)
        case Some(v) => Success(s.(data := v))
  }

  /** `markDataDirty`: the raw working copy, at the store's path. */
  function MarkDataDirty(s: Store, fs: FileSystem): (fs': FileSystem)
    ensures fs' == fs[FileName(s) := File(Json(s.data))]
    ensures forall data :: Load(Store(s.name, data), fs') == Success(s)
  {
    WriteTextFile(fs, FileName(s), Stringify(s.data))
  }

  /** `read`: load, then run the callback on the working copy; the file system stays as it is. */
  function Read(s: Store, fs: FileSystem, effect: JVal -> JVal): (r: Step<Store, StoreError>)
    ensures r.fs == fs
    ensures r.error.Some? <==> Load(s, fs).Failure?
    ensures r.error.Some? ==> r.store == s && r.error.value == Load(s, fs).error
    ensures r.error.None? ==> r.store == Store(s.name, InPlace(effect, Load(s, fs).value.data))
  {
    match Load(s, fs)
    case Failure(e) => Step(s, fs, Some(e))
    case Success(loaded) => Step(loaded.(data := InPlace(effect, loaded.data)), fs, None)
  }

  /** `write`: load, run the callback, then persist the raw working copy. Only the store's path changes. */
  function Write(s: Store, fs: FileSystem, effect: JVal -> JVal): (r: Step<Store, StoreError>)
    ensures r.error.Some? <==> Load(s, fs).Failure?
    ensures r.error.Some? ==> r.store == s && r.fs == fs && r.error.value == Load(s, fs).error
    ensures r.error.None? ==> r.store == Store(s.name, InPlace(effect, Load(s, fs).value.data))
    ensures r.error.None? ==>
      && ReadTextFile(r.fs, FileName(s)) == Contents(Json(r.store.data))
      && r.fs.Keys == fs.Keys + {FileName(s)}
      && r.fs - {FileName(s)} == fs - {FileName(s)}
  {
    match Load(s, fs)
    case Failure(e) => Step(s, fs, Some(e))
    case Success(loaded) =>
      var updated := loaded.(data := InPlace(effect, loaded.data));
      Step(updated, MarkDataDirty(updated, fs), None)
  }

  /**
   * The key-wise merge of `assure`: a key of `d` is copied only where the
   * working copy has none; keys already present keep their values.
   */
  function FillMissing(current: map<string, JVal>, d: map<string, JVal>): (r: map<string, JVal>)
    ensures r.Keys == current.Keys + d.Keys
    ensures forall k :: k in current ==> r[k] == current[k]
    ensures forall k :: k in d && k !in current ==> r[k] == d[k]
  {
    d + current
  }

  /** The `forEach` over the keys of `d`, assigning each key whose current value is undefined. */
  method AssureKeys(current: map<string, JVal>, d: map<string, JVal>) returns (r: map<string, JVal>)
    ensures r == FillMissing(current, d)
  {
    r := current;
    var todo := d.Keys;
    while todo != {}
      invariant todo <= d.Keys
      invariant r.Keys == current.Keys + (d.Keys - todo)
      invariant forall k :: k in current ==> r[k] == current[k]
      invariant forall k :: k in d.Keys - todo && k !in current ==> r[k] == d[k]
      decreases todo
    {
      var key :| key in todo;
      if key !in r {
        r := r[key := d[key]];
      }
      todo := todo - {key};
    }
    var expected := FillMissing(current, d);
    assert r.Keys == expected.Keys;
    assert forall k :: k in r ==> r[k] == expected[k];
  }

  /** Filling twice with the same keys is filling once. */
  lemma FillMissingIdempotent(current: map<string, JVal>, d: map<string, JVal>)
    ensures FillMissing(FillMissing(current, d), d) == FillMissing(current, d)
  {
  }

  /**
   * The loop of `assure` on the working copy. Nothing happens without keys;
   * otherwise the working copy must be an object, as assigning a member of
   * `null` or of a primitive throws a TypeError in a module.
   */
  function Merge(data: JVal, d: map<string, JVal>): (r: Result<JVal, StoreError>)
    ensures d == map[] ==> r == Success(data)
    ensures d != map[] && !data.JObj? ==> r == Failure(TypeError)
    ensures data.JObj? ==> r.Success? && r.value.JObj?
    ensures r.Success? && data.JObj? ==> r.value.fields == FillMissing(data.fields, d)
  {
    if d == map[] then Success(data)
    else match data
      case JObj(m) => Success(JObj(FillMissing(m, d)))
      case _ => Failure(TypeError)
  }

  /** `assure`: load, fill in missing keys, then persist the raw working copy. */
  function Assure(s: Store, fs: FileSystem, d: map<string, JVal>): (r: Step<Store, StoreError>)
    ensures r.error.None? <==> Load(s, fs).Success? && Merge(Load(s, fs).value.data, d).Success?
    ensures Load(s, fs).Failure? ==> r == Step(s, fs, Some(Load(s, fs).error))
    ensures Load(s, fs).Success? && Merge(Load(s, fs).value.data, d).Failure? ==>
      r == Step(Load(s, fs).value, fs, Some(TypeError))
    ensures r.error.None? ==>
      && r.store.name == s.name
      && r.store.data == Merge(Load(s, fs).value.data, d).value
      && ReadTextFile(r.fs, FileName(s)) == Contents(Json(r.store.data))
      && r.fs - {FileName(s)} == fs - {FileName(s)}
    ensures r.error.None? && d != map[] ==> r.store.data.JObj? && d.Keys <= r.store.data.fields.Keys
  {
    match Load(s, fs)
    case Failure(e) => Step(s, fs, Some(e))
    case Success(loaded) =>
      match Merge(loaded.data, d)
      case Failure(e) => Step(loaded, fs, Some(e))
      case Success(merged) =>
        var updated := loaded.(data := merged);
        Step(updated, MarkDataDirty(updated, fs), None)
  }

  /** A second `assure` with the same keys changes neither the store nor the file. */
  lemma AssureIdempotent(s: Store, fs: FileSystem, d: map<string, JVal>)
    ensures var once := Assure(s, fs, d);
      once.error.None? ==> Assure(once.store, once.fs, d) == once
  {
    var once := Assure(s, fs, d);
    if once.error.None? {
      var loaded := Load(once.store, once.fs);
      assert loaded == Success(once.store);
      var merged := Merge(once.store.data, d);
      if d != map[] {
        FillMissingIdempotent(Load(s, fs).value.data.fields, d);
      }
      assert merged == Success(once.store.data);
      assert MarkDataDirty(once.store, once.fs) == once.fs;
    }
  }
}
