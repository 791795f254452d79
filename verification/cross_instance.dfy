/**
 * Several stores on one file system, run one operation after another: what one
 * instance persists, the next load of any instance with the same path adopts.
 */
module CrossInstance {
  import opened Wrappers
  import opened Json
  import opened Disk
  import opened Engine
  import V1 = Storeosaurus
  import Legacy = StoreOSaurus

  /** The callback of a `read` that only looks. */
  function Look(v: JVal): JVal
  {
    v
  }

  lemma LookChangesNothing(d: Option<JVal>)
    ensures V1.Apply(Look, d) == d
    ensures d.Some? ==> InPlace(Look, d.value) == d.value
  {
  }

  /** After a write, a load by any store with the same path adopts the written data. */
  lemma WriteThenLoad(a: V1.Store, b: V1.Store, fs: FileSystem, effect: JVal -> JVal)
    requires V1.StoreFilePath(a.options) == V1.StoreFilePath(b.options)
    ensures var w := V1.Write(a, fs, effect);
      w.error.None? ==> V1.Load(b, w.fs) == Success(b.(data := w.store.data))
  {
  }

  /**
   * Two instances on one file: the second sees the first one's write and adds
   * to it, and the first then sees both changes.
   */
  lemma SequentialConsistency(a: V1.Store, b: V1.Store, fs: FileSystem, f: JVal -> JVal, g: JVal -> JVal)
    requires V1.StoreFilePath(a.options) == V1.StoreFilePath(b.options)
    ensures var wa := V1.Write(a, fs, f);
      wa.error.None? ==>
        var wb := V1.Write(b, wa.fs, g);
        && wb.error.None?
        && wb.store.data == V1.Apply(g, wa.store.data)
        && V1.Read(wa.store, wb.fs, Look).store.data == wb.store.data
  {
    var wa := V1.Write(a, fs, f);
    if wa.error.None? {
      WriteThenLoad(a, b, fs, f);
      var wb := V1.Write(b, wa.fs, g);
      WriteThenLoad(b, wa.store, wa.fs, g);
      LookChangesNothing(wb.store.data);
    }
  }

  /** Opening a store whose file does not exist and reading yields `default`, or `{}`. */
  lemma OpenOnMissingFile(o: V1.StoreOptions, fs: FileSystem)
    requires V1.StoreFilePath(o) !in fs
    ensures var r := V1.Read(V1.Open(o), fs, Look);
      && r.error.None?
      && r.store.data == Some(V1.DefaultData(o))
      && (o.default.Some? && Truthy(o.default.value) ==> r.store.data == o.default)
      && (o == V1.NoOptions ==> r.store.data == Some(EmptyObject))
  {
    LookChangesNothing(Some(V1.DefaultData(o)));
  }

  /** The legacy store: after a write, a load by any store with the same name adopts the raw data. */
  lemma LegacyWriteThenLoad(a: Legacy.Store, b: Legacy.Store, fs: FileSystem, effect: JVal -> JVal)
    requires a.name == b.name
    ensures var w := Legacy.Write(a, fs, effect);
      w.error.None? ==> Legacy.Load(b, w.fs) == Success(b.(data := w.store.data))
  {
  }

  /** The legacy store: a missing file leaves whatever the working copy holds. */
  lemma LegacyMissingFileKeepsData(s: Legacy.Store, fs: FileSystem, effect: JVal -> JVal)
    requires Legacy.FileName(s) !in fs
    ensures Legacy.Read(s, fs, effect).store.data == InPlace(effect, s.data)
  {
  }

  // The counter scenario: two stores sharing `store.json`, with default `{count: 0}`,
  // take turns at random to increment and to read.

  function Count(n: int): JVal
  {
    JObj(map["count" := JNum(n)])
  }

  /** `data => data.count++` as an in-place effect. */
  function Increment(v: JVal): JVal
  {
    if v.JObj? && "count" in v.fields && v.fields["count"].JNum?
    then JObj(v.fields["count" := JNum(v.fields["count"].n + 1)])
    else v
  }

  const CounterOptions := V1.NoOptions.(default := Some(Count(0)))

  datatype Pair = Pair(first: V1.Store, second: V1.Store, fs: FileSystem)

  /** One iteration: one store increments, then one store reads. */
  function Round(p: Pair, writeFirst: bool, readFirst: bool): Pair
  {
    var w := V1.Write(if writeFirst then p.first else p.second, p.fs, Increment);
    var q := if writeFirst then p.(first := w.store, fs := w.fs) else p.(second := w.store, fs := w.fs);
    var r := V1.Read(if readFirst then q.first else q.second, q.fs, Look);
    if readFirst then q.(first := r.store) else q.(second := r.store)
  }

  /** The iterations in order; each pick says which store writes and which reads. */
  function Rounds(p: Pair, picks: seq<(bool, bool)>): Pair
    decreases |picks|
  {
    if |picks| == 0 then p
    else Round(Rounds(p, picks[..|picks| - 1]), picks[|picks| - 1].0, picks[|picks| - 1].1)
  }

  /** After `n` increments the file holds `{count: n}`, or is still absent when `n` is zero. */
  predicate Holds(p: Pair, n: nat)
  {
    && p.first.options == CounterOptions
    && p.second.options == CounterOptions
    && (if n == 0 then V1.DefaultPath !in p.fs
        else V1.DefaultPath in p.fs && p.fs[V1.DefaultPath] == File(Json(V1.Envelope(Some(Count(n))))))
  }

  lemma LoadSeesCount(s: V1.Store, p: Pair, n: nat)
    requires Holds(p, n) && s.options == CounterOptions
    ensures V1.Load(s, p.fs) == Success(s.(data := Some(Count(n))))
  {
    assert V1.StoreFilePath(CounterOptions) == V1.DefaultPath;
  }

  /** One iteration raises the count by one, and the reading store observes it. */
  lemma RoundAdvances(p: Pair, n: nat, writeFirst: bool, readFirst: bool)
    requires Holds(p, n)
    ensures Holds(Round(p, writeFirst, readFirst), n + 1)
    ensures var q := Round(p, writeFirst, readFirst);
      (if readFirst then q.first else q.second).data == Some(Count(n + 1))
  {
    var writer := if writeFirst then p.first else p.second;
    LoadSeesCount(writer, p, n);
    assert InPlace(Increment, Count(n)) == Count(n + 1);
    var w := V1.Write(writer, p.fs, Increment);
    assert w.store.data == Some(Count(n + 1));
    var q := if writeFirst then p.(first := w.store, fs := w.fs) else p.(second := w.store, fs := w.fs);
    assert Holds(q, n + 1);
    var reader := if readFirst then q.first else q.second;
    LoadSeesCount(reader, q, n + 1);
    LookChangesNothing(Some(Count(n + 1)));
  }

  /** Every interleaving of `n` increments leaves `{count: n}` on disk, as both stores then read. */
  lemma {:induction false} CounterCounts(a: V1.Store, b: V1.Store, fs: FileSystem, picks: seq<(bool, bool)>)
    requires a.options == CounterOptions && b.options == CounterOptions
    requires V1.DefaultPath !in fs
    ensures Holds(Rounds(Pair(a, b, fs), picks), |picks|)
    ensures var p := Rounds(Pair(a, b, fs), picks);
      && V1.Read(p.first, p.fs, Look).store.data == Some(Count(|picks|))
      && V1.Read(p.second, p.fs, Look).store.data == Some(Count(|picks|))
    decreases |picks|
  {
    var start := Pair(a, b, fs);
    if |picks| > 0 {
      var last := picks[|picks| - 1];
      CounterCounts(a, b, fs, picks[..|picks| - 1]);
      RoundAdvances(Rounds(start, picks[..|picks| - 1]), |picks| - 1, last.0, last.1);
    }
    var p := Rounds(start, picks);
    LoadSeesCount(p.first, p, |picks|);
    LoadSeesCount(p.second, p, |picks|);
    LookChangesNothing(Some(Count(|picks|)));
  }
}
