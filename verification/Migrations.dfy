/**
 Schema migration: files in name order, each applied and then recorded, by runs
 that may stop between any two statements and be started again.

 A schema is any type, and what a file does to it any function of the two.
 */
module Migrations {
  datatype File = File(name: string, isDir: bool, body: string)

  datatype Migration = Migration(version: string, name: string, sql: string, checksum: string)

  // ---------- loading ----------

  predicate Below(a: string, b: string) {
    if b == "" then false
    else if a == "" then true
    else if a[0] != b[0] then a[0] < b[0]
    else Below(a[1..], b[1..])
  }

  lemma {:induction false} BelowTotal(a: string, b: string)
    ensures Below(a, b) || Below(b, a) || a == b
    ensures !(Below(a, b) && Below(b, a))
    ensures !Below(a, a)
  {
    if a != "" && b != "" {
      BelowTotal(a[1..], b[1..]);
      BelowTotal(a[1..], a[1..]);
      assert a == [a[0]] + a[1..] && b == [b[0]] + b[1..];
    } else if a != "" {
      BelowTotal(a[1..], a[1..]);
    }
  }

  lemma {:induction false} BelowTransitive(a: string, b: string, c: string)
    requires Below(a, b) && Below(b, c)
    ensures Below(a, c)
  {
    if a != "" && b != "" && c != "" && a[0] == b[0] == c[0] {
      BelowTransitive(a[1..], b[1..], c[1..]);
    }
  }

  /** The names agree on their first k characters, where a ends or goes on with the smaller character. */
  predicate SplitsAt(a: string, b: string, k: nat) {
    && k <= |a| && k <= |b| && a[..k] == b[..k]
    && if k < |a| then k < |b| && a[k] < b[k] else k < |b|
  }

  /** Go's order of strings, by characters. */
  ghost predicate InNameOrder(a: string, b: string) {
    exists k: nat :: SplitsAt(a, b, k)
  }

  lemma {:induction false} BelowExactly(a: string, b: string)
    ensures Below(a, b) <==> InNameOrder(a, b)
  {
    if a == "" || b == "" || a[0] != b[0] {
      assert Below(a, b) ==> SplitsAt(a, b, 0);
    } else {
      BelowExactly(a[1..], b[1..]);
      assert a == [a[0]] + a[1..] && b == [b[0]] + b[1..];
      if Below(a, b) {
        var k: nat :| SplitsAt(a[1..], b[1..], k);
        assert a[..k + 1] == [a[0]] + a[1..][..k] && b[..k + 1] == [b[0]] + b[1..][..k];
        assert SplitsAt(a, b, k + 1);
      }
      if k: nat :| SplitsAt(a, b, k) {
        assert a[..k][0] == a[0];
        assert a[1..][..k - 1] == a[..k][1..] && b[1..][..k - 1] == b[..k][1..];
        assert SplitsAt(a[1..], b[1..], k - 1);
      }
    }
  }

  predicate HasSuffix(s: string, suffix: string) {
    |s| >= |suffix| && s[|s| - |suffix|..] == suffix
  }

  /** The position of the first underscore, or |s|. */
  function Underscore(s: string): (i: nat)
    ensures i <= |s| && (i < |s| ==> s[i] == '_')
    ensures forall j :: 0 <= j < i ==> s[j] != '_'
  {
    if s == "" || s[0] == '_' then 0 else 1 + Underscore(s[1..])
  }

  function VersionOf(filename: string): string {
    var i := Underscore(filename);
    if 0 < i < |filename| then filename[..i]
    else if HasSuffix(filename, ".sql") then filename[..|filename| - 4]
    else filename
  }

  function Insert(m: Migration, ms: seq<Migration>): seq<Migration> {
    if ms == [] || Below(m.name, ms[0].name) then [m] + ms else [ms[0]] + Insert(m, ms[1..])
  }

  /** The .sql files of a listing, ordered by name. `sum` is the checksum. */
  function LoadMigrations(sum: string -> string, files: seq<File>): seq<Migration> {
    if files == [] then []
    else
      var f, rest := files[0], LoadMigrations(sum, files[1..]);
      if f.isDir || !HasSuffix(f.name, ".sql") then rest
      else Insert(Migration(VersionOf(f.name), f.name, f.body, sum(f.body)), rest)
  }

  predicate Ordered(ms: seq<Migration>) {
    forall i, j :: 0 <= i < j < |ms| ==> Below(ms[i].name, ms[j].name)
  }

  predicate DistinctNames(files: seq<File>) {
    forall i, j :: 0 <= i < j < |files| ==> files[i].name != files[j].name
  }

  lemma {:induction false} InsertOrdered(m: Migration, ms: seq<Migration>)
    requires Ordered(ms) && forall x :: x in ms ==> x.name != m.name
    ensures Ordered(Insert(m, ms))
    ensures forall x :: x in Insert(m, ms) <==> x == m || x in ms
  {
    if ms != [] {
      BelowTotal(m.name, ms[0].name);
      if Below(m.name, ms[0].name) {
        forall j | 0 < j < |ms| ensures Below(m.name, ms[j].name) {
          BelowTransitive(m.name, ms[0].name, ms[j].name);
        }
      } else {
        InsertOrdered(m, ms[1..]);
        var tail := Insert(m, ms[1..]);
        assert Insert(m, ms) == [ms[0]] + tail;
        assert ms == [ms[0]] + ms[1..];
        forall j | 0 <= j < |tail| ensures Below(ms[0].name, tail[j].name) {
          assert tail[j] in tail;
        }
      }
    }
  }

  /** A version is what stands before the first underscore, or before .sql where nothing does. */
  predicate VersionIs(name: string, version: string) {
    if '_' in name && name[0] != '_' then version + "_" <= name && '_' !in version else name == version + ".sql"
  }

  lemma VersionIsExactly(name: string, version: string)
    requires HasSuffix(name, ".sql")
    ensures VersionIs(name, version) <==> version == VersionOf(name)
  {
    var i := Underscore(name);
    assert i < |name| <==> '_' in name;
    if version + "_" <= name && '_' !in version {
      assert (version + "_")[|version|] == '_' == name[|version|];
      assert forall j :: 0 <= j < |version| ==> name[j] == (version + "_")[j] == version[j];
      assert |version| == i && (version + "_")[..i] == version == name[..i];
    }
    if 0 < i < |name| {
      assert name[..i] + "_" <= name;
      assert forall c :: c in name[..i] ==> c != '_';
    } else {
      assert name == name[..|name| - 4] + ".sql";
      assert name == version + ".sql" ==> name[..|name| - 4] == version;
    }
  }

  /** The migration a file becomes. */
  predicate Becomes(sum: string -> string, f: File, m: Migration) {
    && !f.isDir && |f.name| >= 4 && f.name[|f.name| - 4..] == ".sql"
    && m.name == f.name && VersionIs(f.name, m.version) && m.sql == f.body && m.checksum == sum(f.body)
  }

  /** The same, as the loader computes it. */
  predicate Loads(sum: string -> string, f: File, m: Migration) {
    !f.isDir && HasSuffix(f.name, ".sql") && m == Migration(VersionOf(f.name), f.name, f.body, sum(f.body))
  }

  lemma BecomesExactly(sum: string -> string, f: File, m: Migration)
    ensures Becomes(sum, f, m) <==> Loads(sum, f, m)
  {
    if HasSuffix(f.name, ".sql") {
      VersionIsExactly(f.name, m.version);
    }
  }

  lemma {:induction false} LoadedFrom(sum: string -> string, files: seq<File>)
    requires DistinctNames(files)
    ensures Ordered(LoadMigrations(sum, files))
    ensures forall m :: m in LoadMigrations(sum, files) <==> exists f :: f in files && Becomes(sum, f, m)
  {
    if files != [] {
      var f, rest := files[0], LoadMigrations(sum, files[1..]);
      LoadedFrom(sum, files[1..]);
      forall m ensures Becomes(sum, f, m) <==> Loads(sum, f, m) {
        BecomesExactly(sum, f, m);
      }
      assert forall g :: g in files <==> g == f || g in files[1..];
      if !f.isDir && HasSuffix(f.name, ".sql") {
        var m := Migration(VersionOf(f.name), f.name, f.body, sum(f.body));
        forall x | x in rest ensures x.name != m.name {
          var g :| g in files[1..] && Becomes(sum, g, x);
        }
        InsertOrdered(m, rest);
        assert Becomes(sum, f, m);
      }
    }
  }

  /**
   The migrations are the .sql files of the listing, each with its own text, in the
   order of their names.
   */
  lemma LoadedExactly(sum: string -> string, files: seq<File>)
    requires DistinctNames(files)
    ensures Ordered(LoadMigrations(sum, files))
    ensures forall i, j :: 0 <= i < j < |LoadMigrations(sum, files)| ==>
              InNameOrder(LoadMigrations(sum, files)[i].name, LoadMigrations(sum, files)[j].name)
    ensures forall m :: m in LoadMigrations(sum, files) <==> exists f :: f in files && Becomes(sum, f, m)
  {
    LoadedFrom(sum, files);
    var ms := LoadMigrations(sum, files);
    forall i, j | 0 <= i < j < |ms| ensures InNameOrder(ms[i].name, ms[j].name) {
      BelowExactly(ms[i].name, ms[j].name);
    }
  }

  /** Strictly ordered lists of the same migrations are one list. */
  lemma {:induction false} OrderedUnique(a: seq<Migration>, b: seq<Migration>)
    requires Ordered(a) && Ordered(b) && forall m :: m in a <==> m in b
    ensures a == b
  {
    assert b != [] ==> b[0] in b;
    if a != [] {
      assert a[0] in b;
      var j :| 0 <= j < |b| && b[j] == a[0];
      assert b[0] in a;
      var i :| 0 <= i < |a| && a[i] == b[0];
      BelowTotal(a[0].name, b[0].name);
      assert i == 0 && j == 0;
      forall m ensures m in a[1..] <==> m in b[1..] {
        BelowTotal(a[0].name, a[0].name);
        assert m in a <==> m == a[0] || m in a[1..];
        assert m in b <==> m == b[0] || m in b[1..];
      }
      OrderedUnique(a[1..], b[1..]);
      assert a == [a[0]] + a[1..] && b == [b[0]] + b[1..];
    }
  }

  /** The order is the names', whatever order the directory was listed in. */
  lemma ListingOrderIrrelevant(sum: string -> string, files: seq<File>, again: seq<File>)
    requires DistinctNames(files) && DistinctNames(again)
    requires forall f :: f in files <==> f in again
    ensures LoadMigrations(sum, files) == LoadMigrations(sum, again)
  {
    LoadedExactly(sum, files);
    LoadedExactly(sum, again);
    forall m ensures m in LoadMigrations(sum, files) <==> m in LoadMigrations(sum, again) {
      if m in LoadMigrations(sum, files) {
        var f :| f in files && Becomes(sum, f, m);
        assert f in again;
      }
      if m in LoadMigrations(sum, again) {
        var f :| f in again && Becomes(sum, f, m);
        assert f in files;
      }
    }
    OrderedUnique(LoadMigrations(sum, files), LoadMigrations(sum, again));
  }

  // ---------- running ----------

  /** The database: its schema, the recorded versions with their checksums, and every file that landed. */
  datatype Db<S> = Db(schema: S, recorded: map<string, string>, landed: seq<Migration>)

  function Land<S>(does: (S, string) -> S, db: Db<S>, m: Migration): Db<S> {
    Db(does(db.schema, m.sql), db.recorded, db.landed + [m])
  }

  function Record<S>(db: Db<S>, m: Migration): Db<S> {
    db.(recorded := db.recorded[m.version := m.checksum])
  }

  /** What is left to apply: the versions not recorded when the run began. */
  function Pending(ms: seq<Migration>, recorded: map<string, string>): seq<Migration> {
    if ms == [] then []
    else if ms[0].version in recorded then Pending(ms[1..], recorded)
    else [ms[0]] + Pending(ms[1..], recorded)
  }

  /** A run over its pending files that stops after `steps` statements, two to a file. */
  function RunPending<S>(does: (S, string) -> S, db: Db<S>, ps: seq<Migration>, steps: nat): Db<S>
    decreases |ps|
  {
    if ps == [] || steps == 0 then db
    else if steps == 1 then Land(does, db, ps[0])
    else RunPending(does, Record(Land(does, db, ps[0]), ps[0]), ps[1..], steps - 2)
  }

  function Attempt<S>(does: (S, string) -> S, db: Db<S>, ms: seq<Migration>, steps: nat): Db<S> {
    RunPending(does, db, Pending(ms, db.recorded), steps)
  }

  /** Runs that stopped, one after another: the advisory lock keeps them apart. */
  function Attempts<S>(does: (S, string) -> S, db: Db<S>, ms: seq<Migration>, stops: seq<nat>): Db<S>
    decreases |stops|
  {
    if stops == [] then db
    else Attempt(does, Attempts(does, db, ms, stops[..|stops| - 1]), ms, stops[|stops| - 1])
  }

  /** A run nothing stopped. */
  function Complete<S>(does: (S, string) -> S, db: Db<S>, ms: seq<Migration>): Db<S> {
    Attempt(does, db, ms, 2 * |ms|)
  }

  /** The recorded versions whose file has changed since, in order. */
  function Drifted(ms: seq<Migration>, recorded: map<string, string>): seq<string> {
    if ms == [] then []
    else
      var m, rest := ms[|ms| - 1], Drifted(ms[..|ms| - 1], recorded);
      if m.version in recorded && recorded[m.version] != m.checksum then rest + [m.name] else rest
  }

  function Names(ms: seq<Migration>): seq<string> {
    if ms == [] then [] else Names(ms[..|ms| - 1]) + [ms[|ms| - 1].name]
  }

  lemma {:induction false} PendingSplit(a: seq<Migration>, b: seq<Migration>, recorded: map<string, string>)
    ensures Pending(a + b, recorded) == Pending(a, recorded) + Pending(b, recorded)
  {
    if a == [] {
      assert a + b == b;
    } else {
      PendingSplit(a[1..], b, recorded);
      assert (a + b)[0] == a[0] && (a + b)[1..] == a[1..] + b;
      var front, back := Pending(a[1..], recorded), Pending(b, recorded);
      assert [a[0]] + (front + back) == ([a[0]] + front) + back;
    }
  }

  lemma {:induction false} RunSplit<S>(does: (S, string) -> S, db: Db<S>, a: seq<Migration>, b: seq<Migration>, more: nat)
    ensures RunPending(does, db, a + b, 2 * |a| + more)
            == RunPending(does, RunPending(does, db, a, 2 * |a|), b, more)
    decreases |a|
  {
    if a == [] {
      assert a + b == b;
    } else {
      RunSplit(does, Record(Land(does, db, a[0]), a[0]), a[1..], b, more);
      assert (a + b)[1..] == a[1..] + b;
    }
  }

  /** What file i adds to the lists kept over the first i. */
  lemma OneFile(ms: seq<Migration>, i: nat, recorded: map<string, string>)
    requires i < |ms|
    ensures var m := ms[i];
            var p, q := Pending(ms[..i], recorded), Pending(ms[..i + 1], recorded);
            && q == (if m.version in recorded then p else p + [m])
            && Names(q) == (if m.version in recorded then Names(p) else Names(p) + [m.name])
            && Drifted(ms[..i + 1], recorded)
               == if m.version in recorded && recorded[m.version] != m.checksum then Drifted(ms[..i], recorded) + [m.name]
                  else Drifted(ms[..i], recorded)
  {
    var m := ms[i];
    var p := Pending(ms[..i], recorded);
    assert ms[..i + 1] == ms[..i] + [m] && ms[..i + 1][..i] == ms[..i];
    PendingSplit(ms[..i], [m], recorded);
    assert [m][1..] == [] && (p + [m])[..|p|] == p && p + [] == p;
  }

  lemma PendingAround(ms: seq<Migration>, i: nat, recorded: map<string, string>) returns (rest: seq<Migration>)
    requires i < |ms| && ms[i].version !in recorded
    ensures Pending(ms, recorded) == Pending(ms[..i], recorded) + ([ms[i]] + rest)
  {
    assert ms == ms[..i] + ms[i..] && ms[i..][0] == ms[i];
    PendingSplit(ms[..i], ms[i..], recorded);
    rest := Pending(ms[i..][1..], recorded);
  }

  /** A run stopped inside file m has done what came before it, and perhaps landed m. */
  lemma StoppedAt<S>(does: (S, string) -> S, db: Db<S>, ps: seq<Migration>, p: seq<Migration>, m: Migration,
                     rest: seq<Migration>)
    requires ps == p + ([m] + rest)
    ensures var mid := RunPending(does, db, p, 2 * |p|);
            && RunPending(does, db, ps, 2 * |p|) == mid
            && RunPending(does, db, ps, 2 * |p| + 1) == Land(does, mid, m)
            && RunPending(does, db, p + [m], 2 * |p| + 2) == Record(Land(does, mid, m), m)
  {
    RunSplit(does, db, p, [m] + rest, 0);
    RunSplit(does, db, p, [m] + rest, 1);
    RunSplit(does, db, p, [m], 2);
  }

  /** A run about to apply file i, having applied the pending files before it. */
  lemma StoppedInFile<S>(does: (S, string) -> S, db: Db<S>, ms: seq<Migration>, i: nat, p: seq<Migration>)
    requires i < |ms| && ms[i].version !in db.recorded && p == Pending(ms[..i], db.recorded)
    ensures var mid := RunPending(does, db, p, 2 * |p|);
            && Attempt(does, db, ms, 2 * |p|) == mid
            && Attempt(does, db, ms, 2 * |p| + 1) == Land(does, mid, ms[i])
            && RunPending(does, db, p + [ms[i]], 2 * |p| + 2) == Record(Land(does, mid, ms[i]), ms[i])
            && |p| < |Pending(ms, db.recorded)|
  {
    var rest := PendingAround(ms, i, db.recorded);
    StoppedAt(does, db, Pending(ms, db.recorded), p, ms[i], rest);
  }

  /** Where a run of `steps` statements stands before file i, with `left` of them to go. */
  ghost predicate Reached<S>(does: (S, string) -> S, start: Db<S>, ms: seq<Migration>, i: nat, steps: nat, left: nat,
                             db: Db<S>, applied: seq<string>, drifted: seq<string>)
    requires i <= |ms|
  {
    var p := Pending(ms[..i], start.recorded);
    && steps == left + 2 * |p| && db == RunPending(does, start, p, 2 * |p|)
    && applied == Names(p) && drifted == Drifted(ms[..i], start.recorded)
  }

  lemma ReachedSkip<S>(does: (S, string) -> S, start: Db<S>, ms: seq<Migration>, i: nat, steps: nat, left: nat,
                       db: Db<S>, applied: seq<string>, drifted: seq<string>)
    requires i < |ms| && Reached(does, start, ms, i, steps, left, db, applied, drifted)
    requires ms[i].version in start.recorded
    ensures var changed := start.recorded[ms[i].version] != ms[i].checksum;
            Reached(does, start, ms, i + 1, steps, left, db, applied,
                    if changed then drifted + [ms[i].name] else drifted)
  {
    OneFile(ms, i, start.recorded);
  }

  lemma ReachedApply<S>(does: (S, string) -> S, start: Db<S>, ms: seq<Migration>, i: nat, steps: nat, left: nat,
                        db: Db<S>, applied: seq<string>, drifted: seq<string>)
    requires i < |ms| && Reached(does, start, ms, i, steps, left, db, applied, drifted)
    requires ms[i].version !in start.recorded && left >= 2
    ensures Reached(does, start, ms, i + 1, steps, left - 2, Record(Land(does, db, ms[i]), ms[i]),
                    applied + [ms[i].name], drifted)
  {
    OneFile(ms, i, start.recorded);
    StoppedInFile(does, start, ms, i, Pending(ms[..i], start.recorded));
  }

  lemma ReachedStop<S>(does: (S, string) -> S, start: Db<S>, ms: seq<Migration>, i: nat, steps: nat, left: nat,
                       db: Db<S>, applied: seq<string>, drifted: seq<string>)
    requires i < |ms| && Reached(does, start, ms, i, steps, left, db, applied, drifted)
    requires ms[i].version !in start.recorded && left < 2
    ensures (if left == 0 then db else Land(does, db, ms[i])) == Attempt(does, start, ms, steps)
    ensures steps < 2 * |Pending(ms, start.recorded)|
  {
    StoppedInFile(does, start, ms, i, Pending(ms[..i], start.recorded));
  }

  lemma ReachedEnd<S>(does: (S, string) -> S, start: Db<S>, ms: seq<Migration>, steps: nat, left: nat,
                      db: Db<S>, applied: seq<string>, drifted: seq<string>)
    requires Reached(does, start, ms, |ms|, steps, left, db, applied, drifted)
    ensures db == Attempt(does, start, ms, steps) && 2 * |Pending(ms, start.recorded)| <= steps
    ensures applied == Names(Pending(ms, start.recorded)) && drifted == Drifted(ms, start.recorded)
  {
    assert ms[..|ms|] == ms;
    var ps := Pending(ms, start.recorded);
    RunSplit(does, start, ps, [], left);
    assert ps + [] == ps;
  }

  class Database<S(0)> {
    var schema: S
    var recorded: map<string, string>
    ghost var landed: seq<Migration>

    ghost function View(): Db<S>
      reads this
    {
      Db(schema, recorded, landed)
    }

    constructor (initial: S)
      ensures View() == Db(initial, map[], [])
    {
      schema, recorded, landed := initial, map[], [];
    }

    /**
     One run, allowed `steps` statements before it is stopped; a statement that
     fails stops it there. The recorded versions are read once, at the start.
     */
    method Migrate(does: (S, string) -> S, ms: seq<Migration>, steps: nat)
      returns (done: bool, applied: seq<string>, drifted: seq<string>)
      modifies this
      ensures View() == Attempt(does, old(View()), ms, steps)
      ensures done <==> 2 * |Pending(ms, old(recorded))| <= steps
      ensures done ==> applied == Names(Pending(ms, old(recorded))) && drifted == Drifted(ms, old(recorded))
    {
      var before := recorded;
      ghost var start := View();
      var left: nat := steps;
      applied, drifted := [], [];
      var i := 0;
      while i < |ms|
        invariant 0 <= i <= |ms| && Reached(does, start, ms, i, steps, left, View(), applied, drifted)
      {
        var m := ms[i];
        ghost var here := View();
        if m.version in before {
          ReachedSkip(does, start, ms, i, steps, left, here, applied, drifted);
          if before[m.version] != m.checksum {
            drifted := drifted + [m.name];
          }
        } else {
          if left < 2 {
            ReachedStop(does, start, ms, i, steps, left, here, applied, drifted);
          } else {
            ReachedApply(does, start, ms, i, steps, left, here, applied, drifted);
          }
          if left == 0 {
            return false, applied, drifted;
          }
          schema, landed := does(schema, m.sql), landed + [m];
          if left == 1 {
            return false, applied, drifted;
          }
          recorded := recorded[m.version := m.checksum];
          left := left - 2;
          applied := applied + [m.name];
        }
        i := i + 1;
      }
      ReachedEnd(does, start, ms, steps, left, View(), applied, drifted);
      return true, applied, drifted;
    }
  }

  // ---------- crash and restart ----------

  predicate DistinctVersions(ms: seq<Migration>) {
    forall i, j :: 0 <= i < j < |ms| ==> ms[i].version != ms[j].version
  }

  ghost predicate Idempotent<S(!new)>(does: (S, string) -> S, ms: seq<Migration>) {
    forall m, s :: m in ms ==> does(does(s, m.sql), m.sql) == does(s, m.sql)
  }

  /** The schema after applying files once each, in order. */
  function ApplyAll<S>(does: (S, string) -> S, s: S, ps: seq<Migration>): S {
    if ps == [] then s else does(ApplyAll(does, s, ps[..|ps| - 1]), ps[|ps| - 1].sql)
  }

  function RecordAll(r: map<string, string>, ps: seq<Migration>): map<string, string> {
    if ps == [] then r else RecordAll(r, ps[..|ps| - 1])[ps[|ps| - 1].version := ps[|ps| - 1].checksum]
  }

  /** i pending files recorded, and the next one perhaps landed and not yet recorded. */
  ghost predicate At<S>(does: (S, string) -> S, from: Db<S>, ps: seq<Migration>, db: Db<S>, i: nat) {
    && i <= |ps|
    && db.recorded == RecordAll(from.recorded, ps[..i])
    && (db.schema == ApplyAll(does, from.schema, ps[..i])
        || (i < |ps| && db.schema == ApplyAll(does, from.schema, ps[..i + 1])))
    && (forall k :: 0 <= k < i ==> ps[k] in db.landed)
  }

  lemma {:induction false} RecordAllKeys(r: map<string, string>, ps: seq<Migration>)
    ensures forall v :: v in RecordAll(r, ps) <==> v in r || exists k :: 0 <= k < |ps| && ps[k].version == v
  {
    if ps != [] {
      RecordAllKeys(r, ps[..|ps| - 1]);
    }
  }

  lemma {:induction false} PendingMembers(ms: seq<Migration>, r: map<string, string>)
    ensures |Pending(ms, r)| <= |ms|
    ensures forall m :: m in Pending(ms, r) <==> m in ms && m.version !in r
  {
    if ms != [] {
      PendingMembers(ms[1..], r);
      assert forall m :: m in ms <==> m == ms[0] || m in ms[1..];
    }
  }

  lemma {:induction false} PendingAll(ps: seq<Migration>, r: map<string, string>)
    requires forall m :: m in ps ==> m.version !in r
    ensures Pending(ps, r) == ps
  {
    if ps != [] {
      assert ps[0] in ps;
      PendingAll(ps[1..], r);
    }
  }

  lemma {:induction false} PendingNone(ps: seq<Migration>, r: map<string, string>)
    requires forall m :: m in ps ==> m.version in r
    ensures Pending(ps, r) == []
  {
    if ps != [] {
      assert ps[0] in ps;
      PendingNone(ps[1..], r);
    }
  }

  /** What was recorded first matters no more once more is recorded. */
  lemma {:induction false} PendingPending(ms: seq<Migration>, r: map<string, string>, more: map<string, string>)
    requires r.Keys <= more.Keys
    ensures Pending(Pending(ms, r), more) == Pending(ms, more)
  {
    if ms != [] {
      PendingPending(ms[1..], r, more);
      if ms[0].version !in r {
        assert ([ms[0]] + Pending(ms[1..], r))[1..] == Pending(ms[1..], r);
      }
    }
  }

  lemma PendingTail(ps: seq<Migration>, more: map<string, string>, i: nat)
    requires i <= |ps|
    requires forall m :: m in ps[..i] ==> m.version in more
    requires forall m :: m in ps[i..] ==> m.version !in more
    ensures Pending(ps, more) == ps[i..]
  {
    assert ps == ps[..i] + ps[i..];
    PendingSplit(ps[..i], ps[i..], more);
    PendingNone(ps[..i], more);
    PendingAll(ps[i..], more);
  }

  /** With distinct versions, recording the first i of the files records no other. */
  lemma RecordsNoOther(r: map<string, string>, ps: seq<Migration>, i: nat)
    requires DistinctVersions(ps) && i <= |ps| && forall m :: m in ps ==> m.version !in r
    ensures r.Keys <= RecordAll(r, ps[..i]).Keys
    ensures forall m :: m in ps[..i] ==> m.version in RecordAll(r, ps[..i])
    ensures forall m :: m in ps[i..] ==> m.version !in RecordAll(r, ps[..i])
  {
    RecordAllKeys(r, ps[..i]);
    forall m | m in ps[i..] ensures m.version !in RecordAll(r, ps[..i]) {
      var k :| i <= k < |ps| && ps[k] == m;
    }
  }

  /** Recording the first i pending files takes those off the list, and no others while versions are distinct. */
  lemma PendingAfter(ms: seq<Migration>, r: map<string, string>, i: nat)
    requires DistinctVersions(Pending(ms, r)) && i <= |Pending(ms, r)|
    ensures Pending(ms, RecordAll(r, Pending(ms, r)[..i])) == Pending(ms, r)[i..]
  {
    PendingMembers(ms, r);
    RecordsNoOther(r, Pending(ms, r), i);
    PendingPending(ms, r, RecordAll(r, Pending(ms, r)[..i]));
    PendingTail(Pending(ms, r), RecordAll(r, Pending(ms, r)[..i]), i);
  }

  /** A run from such a point, however far it gets, ends at such a point, no earlier. */
  lemma {:induction false} RunKeepsAt<S(!new)>(does: (S, string) -> S, from: Db<S>, ps: seq<Migration>, db: Db<S>,
                                         i: nat, steps: nat) returns (j: nat)
    requires Idempotent(does, ps) && At(does, from, ps, db, i)
    ensures i <= j && At(does, from, ps, RunPending(does, db, ps[i..], steps), j)
    ensures steps >= 2 * (|ps| - i) ==> j == |ps|
    decreases |ps| - i
  {
    if i == |ps| || steps == 0 {
      return i;
    }
    var m := ps[i];
    assert ps[i..][0] == m && ps[i..][1..] == ps[i + 1..];
    assert ps[..i + 1][..i] == ps[..i];
    assert ApplyAll(does, from.schema, ps[..i + 1]) == does(ApplyAll(does, from.schema, ps[..i]), m.sql);
    var landed := Land(does, db, m);
    assert landed.schema == ApplyAll(does, from.schema, ps[..i + 1]);
    if steps == 1 {
      return i;
    }
    var next := Record(landed, m);
    assert At(does, from, ps, next, i + 1);
    j := RunKeepsAt(does, from, ps, next, i + 1, steps - 2);
  }

  lemma {:induction false} AttemptsAt<S(!new)>(does: (S, string) -> S, db: Db<S>, ms: seq<Migration>, stops: seq<nat>)
    returns (j: nat)
    requires DistinctVersions(Pending(ms, db.recorded)) && Idempotent(does, ms)
    ensures At(does, db, Pending(ms, db.recorded), Attempts(does, db, ms, stops), j)
  {
    var ps := Pending(ms, db.recorded);
    PendingMembers(ms, db.recorded);
    if stops == [] {
      return 0;
    }
    var i := AttemptsAt(does, db, ms, stops[..|stops| - 1]);
    var mid := Attempts(does, db, ms, stops[..|stops| - 1]);
    PendingAfter(ms, db.recorded, i);
    j := RunKeepsAt(does, db, ps, mid, i, stops[|stops| - 1]);
  }

  lemma CompletedAt<S(!new)>(does: (S, string) -> S, db: Db<S>, ms: seq<Migration>, stops: seq<nat>)
    requires DistinctVersions(Pending(ms, db.recorded)) && Idempotent(does, ms)
    ensures var ps := Pending(ms, db.recorded);
            At(does, db, ps, Complete(does, Attempts(does, db, ms, stops), ms), |ps|)
  {
    var ps := Pending(ms, db.recorded);
    PendingMembers(ms, db.recorded);
    var i := AttemptsAt(does, db, ms, stops);
    PendingAfter(ms, db.recorded, i);
    var j := RunKeepsAt(does, db, ps, Attempts(does, db, ms, stops), i, 2 * |ms|);
  }

  /**
   Any number of runs stopped at any statement, then one that completes, leave
   the schema and the record that applying the pending files once each, in name
   order, would have left.
   */
  lemma CrashRestart<S(!new)>(does: (S, string) -> S, db: Db<S>, ms: seq<Migration>, stops: seq<nat>)
    requires DistinctVersions(Pending(ms, db.recorded)) && Idempotent(does, ms)
    ensures var end := Complete(does, Attempts(does, db, ms, stops), ms);
            var ps := Pending(ms, db.recorded);
            && end.schema == ApplyAll(does, db.schema, ps)
            && end.recorded == RecordAll(db.recorded, ps)
  {
    CompletedAt(does, db, ms, stops);
    assert Pending(ms, db.recorded)[..|Pending(ms, db.recorded)|] == Pending(ms, db.recorded);
  }

  /** Recorded implies applied, at every point a run can be stopped. */
  lemma RecordedWasApplied<S(!new)>(does: (S, string) -> S, db: Db<S>, ms: seq<Migration>, stops: seq<nat>, v: string)
    requires DistinctVersions(Pending(ms, db.recorded)) && Idempotent(does, ms)
    requires v in Attempts(does, db, ms, stops).recorded
    ensures v in db.recorded || exists m :: m in Attempts(does, db, ms, stops).landed && m.version == v
  {
    var ps := Pending(ms, db.recorded);
    var j := AttemptsAt(does, db, ms, stops);
    RecordAllKeys(db.recorded, ps[..j]);
    if v !in db.recorded {
      var k :| 0 <= k < j && ps[..j][k].version == v;
      assert ps[k] in Attempts(does, db, ms, stops).landed;
    }
  }

  // ---------- exactly when every file lands ----------

  predicate AllLanded<S>(db: Db<S>, ps: seq<Migration>) {
    forall k :: 0 <= k < |ps| ==> ps[k] in db.landed
  }

  /** Stopped after n whole files, a run has applied, recorded and landed those. */
  lemma {:induction false} RunFirst<S>(does: (S, string) -> S, db: Db<S>, ps: seq<Migration>, n: nat)
    requires n <= |ps|
    ensures var end := RunPending(does, db, ps, 2 * n);
            && end.schema == ApplyAll(does, db.schema, ps[..n])
            && end.recorded == RecordAll(db.recorded, ps[..n]) && end.landed == db.landed + ps[..n]
  {
    if n > 0 {
      var m := ps[n - 1];
      RunFirst(does, db, ps, n - 1);
      assert ps == ps[..n - 1] + ps[n - 1..] && ps[n - 1..][0] == m;
      RunSplit(does, db, ps[..n - 1], ps[n - 1..], 0);
      RunSplit(does, db, ps[..n - 1], ps[n - 1..], 2);
      assert ps[..n][..n - 1] == ps[..n - 1] && ps[..n] == ps[..n - 1] + [m];
    }
  }

  lemma RecordsFirst<S>(does: (S, string) -> S, db: Db<S>, ps: seq<Migration>, i: nat)
    requires i < |ps|
    ensures var mid := RunPending(does, db, ps, 2 * (i + 1));
            ps[i].version in mid.recorded && mid.landed == db.landed + ps[..i + 1]
  {
    RunFirst(does, db, ps, i + 1);
    RecordAllKeys(db.recorded, ps[..i + 1]);
    assert ps[..i + 1][i] == ps[i];
  }

  lemma {:induction false} LandsNothingElse<S>(does: (S, string) -> S, db: Db<S>, ps: seq<Migration>, steps: nat)
    ensures forall m :: m in RunPending(does, db, ps, steps).landed ==> m in db.landed || m in ps
    decreases |ps|
  {
    if ps != [] && steps > 1 {
      LandsNothingElse(does, Record(Land(does, db, ps[0]), ps[0]), ps[1..], steps - 2);
    }
  }

  /** Files of different names are different files. */
  lemma {:induction false} PendingNoRepeats(ms: seq<Migration>, r: map<string, string>)
    requires Ordered(ms)
    ensures forall i, j :: 0 <= i < j < |Pending(ms, r)| ==> Pending(ms, r)[i] != Pending(ms, r)[j]
  {
    if ms != [] {
      PendingNoRepeats(ms[1..], r);
      PendingMembers(ms[1..], r);
      assert ms[0] !in ms[1..] by {
        BelowTotal(ms[0].name, ms[0].name);
      }
      assert ms[0].version !in r ==> Pending(ms, r)[1..] == Pending(ms[1..], r);
    }
  }

  lemma OneStop<S>(does: (S, string) -> S, db: Db<S>, ms: seq<Migration>, n: nat)
    ensures Attempts(does, db, ms, [n]) == Attempt(does, db, ms, n)
  {
    assert [n][..0] == [] && Attempts(does, db, ms, []) == db;
  }

  /** A run stopped after the first of two files with one version leaves the second for good. */
  lemma SecondNeverLands<S(!new)>(does: (S, string) -> S, db: Db<S>, ms: seq<Migration>, i: nat, j: nat)
    requires Ordered(ms) && db.landed == []
    requires i < j < |Pending(ms, db.recorded)|
    requires Pending(ms, db.recorded)[i].version == Pending(ms, db.recorded)[j].version
    ensures Pending(ms, db.recorded)[j] !in Complete(does, Attempts(does, db, ms, [2 * (i + 1)]), ms).landed
  {
    OneStop(does, db, ms, 2 * (i + 1));
    var mid := RunPending(does, db, Pending(ms, db.recorded), 2 * (i + 1));
    RecordsFirst(does, db, Pending(ms, db.recorded), i);
    PendingNoRepeats(ms, db.recorded);
    PendingMembers(ms, mid.recorded);
    LandsNothingElse(does, mid, Pending(ms, mid.recorded), 2 * |ms|);
  }

  /**
   Exactly when: from a fresh history, every pending file has landed once a run
   completes, wherever earlier ones were stopped, if and only if no two of the
   pending files share a version.
   */
  lemma EverythingLandsExactly<S(!new)>(does: (S, string) -> S, db: Db<S>, ms: seq<Migration>)
    requires Ordered(ms) && Idempotent(does, ms) && db.landed == []
    ensures (forall stops :: AllLanded(Complete(does, Attempts(does, db, ms, stops), ms), Pending(ms, db.recorded)))
            <==> DistinctVersions(Pending(ms, db.recorded))
  {
    var ps := Pending(ms, db.recorded);
    if DistinctVersions(ps) {
      forall stops ensures AllLanded(Complete(does, Attempts(does, db, ms, stops), ms), ps) {
        CompletedAt(does, db, ms, stops);
      }
    } else {
      var i, j :| 0 <= i < j < |ps| && ps[i].version == ps[j].version;
      SecondNeverLands(does, db, ms, i, j);
      assert !AllLanded(Complete(does, Attempts(does, db, ms, [2 * (i + 1)]), ms), ps);
    }
  }

  /** Allowed more statements than it needs, a run does all of its files once. */
  lemma RunsAll<S>(does: (S, string) -> S, db: Db<S>, ps: seq<Migration>, steps: nat)
    requires steps >= 2 * |ps|
    ensures RunPending(does, db, ps, steps).schema == ApplyAll(does, db.schema, ps)
  {
    RunFirst(does, db, ps, |ps|);
    RunSplit(does, db, ps, [], steps - 2 * |ps|);
    assert ps + [] == ps && ps[..|ps|] == ps;
  }

  lemma {:induction false} AppliesFirst<S>(does: (S, string) -> S, s: S, m: Migration, ps: seq<Migration>)
    ensures ApplyAll(does, s, [m] + ps) == ApplyAll(does, does(s, m.sql), ps)
  {
    if ps == [] {
      assert ([m] + ps)[..0] == [];
    } else {
      AppliesFirst(does, s, m, ps[..|ps| - 1]);
      assert ([m] + ps)[..|ps|] == [m] + ps[..|ps| - 1];
    }
  }

  lemma LandedUnrecorded<S>(does: (S, string) -> S, db: Db<S>, ps: seq<Migration>, i: nat)
    requires i < |ps|
    ensures var mid := RunPending(does, db, ps, 2 * i + 1);
            mid.schema == ApplyAll(does, db.schema, ps[..i + 1]) && mid.recorded == RecordAll(db.recorded, ps[..i])
  {
    RunFirst(does, db, ps, i);
    assert ps == ps[..i] + ([ps[i]] + ps[i + 1..]);
    StoppedAt(does, db, ps, ps[..i], ps[i], ps[i + 1..]);
    assert ps[..i + 1][..i] == ps[..i];
  }

  lemma RestApplied<S>(does: (S, string) -> S, mid: Db<S>, ps: seq<Migration>, i: nat, steps: nat)
    requires i < |ps| && steps >= 2 * |ps[i..]|
    ensures RunPending(does, mid, ps[i..], steps).schema == ApplyAll(does, does(mid.schema, ps[i].sql), ps[i + 1..])
  {
    RunsAll(does, mid, ps[i..], steps);
    AppliesFirst(does, mid.schema, ps[i], ps[i + 1..]);
    assert ps[i..] == [ps[i]] + ps[i + 1..];
  }

  /**
   What being idempotent is for: of a run stopped with file i landed and not yet
   recorded, and the run that completes it, the one effect beside applying each
   pending file once is that file i is applied twice.
   */
  lemma LandsTwice<S(!new)>(does: (S, string) -> S, db: Db<S>, ms: seq<Migration>, i: nat)
    requires DistinctVersions(Pending(ms, db.recorded)) && i < |Pending(ms, db.recorded)|
    ensures var ps := Pending(ms, db.recorded);
            Complete(does, Attempts(does, db, ms, [2 * i + 1]), ms).schema
            == ApplyAll(does, does(ApplyAll(does, db.schema, ps[..i + 1]), ps[i].sql), ps[i + 1..])
  {
    var ps := Pending(ms, db.recorded);
    PendingMembers(ms, db.recorded);
    OneStop(does, db, ms, 2 * i + 1);
    LandedUnrecorded(does, db, ps, i);
    PendingAfter(ms, db.recorded, i);
    RestApplied(does, RunPending(does, db, ps, 2 * i + 1), ps, i, 2 * |ms|);
  }
}
