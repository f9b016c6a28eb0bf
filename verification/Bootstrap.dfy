/** The bootstrap of an MVCC database loads every sequence descriptor and then syncs AUTOINCREMENT. */
module Bootstrap {
  import opened Outcome
  import opened Sequences
  import opened SequenceLoader
  import opened AutoincrementSync

  /** What the sync sees of a load: its descriptors and watermarks, and the tables it has read. */
  ghost predicate Follows(env: Env, pending: seq<Entry>, l: Loaded, ds: Descriptors, st: Store) {
    && Distinct(pending) && LoadAll(env, pending, l).Ok?
    && ds == LoadAll(env, pending, l).value.sequences
    && st.watermarks == LoadAll(env, pending, l).value.watermarks
    && forall e | e in pending && Normalize(e.name) in st.tables :: st.tables[Normalize(e.name)] == TableOf(env, e)
  }

  /** A table whose descriptor was loaded has a row. */
  lemma LoadedTableHasRow(env: Env, pending: seq<Entry>, l: Loaded, ds: Descriptors, st: Store, e: Entry)
    requires Follows(env, pending, l, ds, st) && e in pending && IsNew(e, l) && Normalize(e.name) in st.tables
    ensures var key := Normalize(e.name);
            && key in ds && DescriptorOf(env, e) == Ok(ds[key])
            && WatermarkRows(st.tables[key], ds[key].inc) != []
            && WatermarkRows(st.tables[key], 1) != []
  {
    LoadFailsExactly(env, pending, l);
    LoadedSequences(env, pending, l, Normalize(e.name));
    hide LoadAll, Normalize;
  }

  /** So the sync after the load lowers no next id: the one case in which it would cannot arise. */
  lemma NextNeverDecreases(env: Env, pending: seq<Entry>, l: Loaded, ds: Descriptors, st: Store, e: Entry,
                           used: seq<Used>)
    requires Follows(env, pending, l, ds, st) && e in pending && IsNew(e, l)
    requires Normalize(e.name) in st.tables && Normalize(e.name) in ds && Standard(ds[Normalize(e.name)])
    requires Ascending(ds, used) && SyncAll(ds, used, st).Ok?
    ensures var key := Normalize(e.name);
            && key in SyncAll(ds, used, st).value.tables
            && var before, after := Next(ds, st, key), Next(ds, SyncAll(ds, used, st).value, key);
               after.None? || (before.Some? && before.value <= after.value)
  {
    hide SyncAll, Next, Normalize;
    LoadedTableHasRow(env, pending, l, ds, st, e);
    NextDecreasesExactly(ds, used, st, Normalize(e.name));
  }

  /** And every watermark in memory agrees with its table, after the load and still after the sync. */
  lemma WatermarksAgreeAfterSync(env: Env, pending: seq<Entry>, l: Loaded, ds: Descriptors, st: Store, used: seq<Used>)
    requires Follows(env, pending, l, ds, st) && env.hasMvStore && l.sequences == map[]
    requires SyncAll(ds, used, st).Ok? && forall u | u in used && Key(u) in ds :: Standard(ds[Key(u)])
    ensures WatermarksAgree(ds, st) && WatermarksAgree(ds, SyncAll(ds, used, st).value)
  {
    hide SyncAll, Key, Normalize, FirstUnsafe;
    forall k | k in ds && k in st.tables && WatermarkRows(st.tables[k], ds[k].inc) != []
      ensures k in st.watermarks && st.watermarks[k] == FirstUnsafe(ds[k], WatermarkRows(st.tables[k], ds[k].inc)[0])
    {
      LoadedSequences(env, pending, l, k);
      var e :| e in pending && Normalize(e.name) == k;
      LoadedTableHasRow(env, pending, l, ds, st, e);
      LoadedWatermarks(env, pending, l, k);
    }
    SyncKeepsWatermarks(ds, used, st);
  }
}
