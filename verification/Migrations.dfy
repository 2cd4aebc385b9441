/** The PostgreSQL migration runner. Any statement may fail, with or without taking effect, or
    be the last thing the process does; COMMIT in particular may take effect and still be
    reported as failed. */
module Migrations {
  import opened Common

  /** The database: what is committed, and what the open transaction would add. */
  datatype Db = Db(
    tracking: bool,
    recorded: seq<string>,
    executed: seq<string>,
    pendingNames: seq<string>,
    pendingSql: seq<string>)

  const EMPTY := Db(false, [], [], [], [])

  datatype Sql =
    | CreateTracking | SelectNames
    | Begin | RunMigration(name: string) | Record(name: string) | Commit | Rollback

  /** The answer the runner gets, and whether the statement took effect. */
  datatype Fate = Fate(effective: bool, answer: Answer)

  datatype Answer = Ok | Error | Died

  ghost predicate Possible(f: Fate) {
    f.answer == Ok ==> f.effective
  }

  function Effect(db: Db, sql: Sql): Db {
    match sql
    case CreateTracking => db.(tracking := true)
    case SelectNames => db
    case Begin => db.(pendingNames := [], pendingSql := [])
    case RunMigration(name) => db.(pendingSql := db.pendingSql + [name])
    case Record(name) =>
      if name in db.recorded || name in db.pendingNames then db
      else db.(pendingNames := db.pendingNames + [name])
    case Commit =>
      db.(recorded := db.recorded + db.pendingNames, executed := db.executed + db.pendingSql,
          pendingNames := [], pendingSql := [])
    case Rollback => db.(pendingNames := [], pendingSql := [])
  }

  datatype Outcome = Finished | Threw | Killed

  /** The migrations a run has still to do, in order. */
  ghost function Todo(names: seq<string>, recorded: seq<string>): seq<string> {
    if names == [] then [] else
      var n := |names| - 1;
      Todo(names[..n], recorded) + (if names[n] in recorded then [] else [names[n]])
  }

  /** What a run may leave behind: it has done the first j of its migrations, and all of them if it finished. */
  ghost predicate Advanced(names: seq<string>, before: Db, after: Db, outcome: Outcome, j: nat) {
    var todo := Todo(names, before.recorded);
    && j <= |todo|
    && after.recorded == before.recorded + todo[..j]
    && after.executed == before.executed + todo[..j]
    && (outcome == Finished ==> j == |todo|)
  }

  ghost predicate RunLeaves(names: seq<string>, before: Db, after: Db, outcome: Outcome) {
    (exists j: nat :: Advanced(names, before, after, outcome, j)) && after.pendingNames == [] && after.pendingSql == []
  }

  /** A pool and its connection; `fate` decides about each statement, numbered in order. */
  class Client {
    const fate: nat -> Fate
    var db: Db
    var count: nat

    constructor (db: Db, fate: nat -> Fate)
      ensures this.db == db && this.fate == fate && count == 0
    {
      this.db := db;
      this.fate := fate;
      count := 0;
    }

    method Query(sql: Sql) returns (answer: Answer)
      modifies this
      ensures answer == fate(old(count)).answer && count == old(count) + 1
      ensures db == if fate(old(count)).effective then Effect(old(db), sql) else old(db)
    {
      var f := fate(count);
      count := count + 1;
      if f.effective {
        db := Effect(db, sql);
      }
      answer := f.answer;
    }

    /** The connection closes, or breaks: what was not committed is gone. */
    method Close()
      modifies this`db
      ensures db == Effect(old(db), Rollback)
    {
      db := Effect(db, Rollback);
    }

    /** One migration in its transaction: afterwards either both its SQL and its name are
        committed, or neither is; after success both are. */
    method Apply(name: string) returns (answer: Answer)
      requires forall n :: Possible(fate(n))
      requires name !in db.recorded
      modifies this
      ensures old(count) < count && (answer == Died <==> fate(count - 1).answer == Died)
      ensures answer == Error && fate(count - 1).effective ==> db.pendingNames == [] && db.pendingSql == []
      ensures Applied(old(db), db, name) || SameCommitted(old(db), db)
      ensures answer == Ok ==> Applied(old(db), db, name) && db.pendingNames == [] && db.pendingSql == []
      ensures db.tracking == old(db.tracking)
    {
      answer := Transaction(name);
      if answer == Error {
        var rolledBack := Query(Rollback);
        if rolledBack == Died {
          return Died;
        }
      }
    }

    method Transaction(name: string) returns (answer: Answer)
      requires forall n :: Possible(fate(n))
      requires name !in db.recorded
      modifies this
      ensures old(count) < count && answer == fate(count - 1).answer
      ensures Applied(old(db), db, name) || SameCommitted(old(db), db)
      ensures Applied(old(db), db, name) ==> db.pendingNames == [] && db.pendingSql == []
      ensures answer == Ok ==> Applied(old(db), db, name)
      ensures db.tracking == old(db.tracking)
    {
      assert Possible(fate(count));
      answer := Query(Begin);
      if answer != Ok {
        return;
      }
      assert Possible(fate(count));
      answer := Query(RunMigration(name));
      if answer != Ok {
        return;
      }
      assert Possible(fate(count));
      answer := Query(Record(name));
      if answer != Ok {
        return;
      }
      assert Possible(fate(count));
      answer := Query(Commit);
    }

    /** Tracking table, names already recorded, then every migration not among them. */
    method RunPostgresMigrations(names: seq<string>, present: set<string>) returns (outcome: Outcome)
      requires forall n :: Possible(fate(n))
      requires Distinct(names)
      modifies this
      ensures RunLeaves(names, old(db), db, outcome)
      ensures outcome == Finished ==> db.tracking
      ensures old(count) < count && (outcome == Killed <==> fate(count - 1).answer == Died)
    {
      outcome := RunOpen(names, present);
      ghost var j: nat :| Advanced(names, old(db), db, outcome, j);
      Close();
      assert Advanced(names, old(db), db, outcome, j);
    }

    method RunOpen(names: seq<string>, present: set<string>) returns (outcome: Outcome)
      requires forall n :: Possible(fate(n))
      requires Distinct(names)
      modifies this
      ensures exists j: nat :: Advanced(names, old(db), db, outcome, j)
      ensures outcome == Finished ==> db.tracking
      ensures old(count) < count && (outcome == Killed <==> fate(count - 1).answer == Died)
    {
      assert Possible(fate(count));
      var answer := Query(CreateTracking);
      if answer == Ok {
        assert Possible(fate(count));
        answer := Query(SelectNames);
      }
      if answer == Ok {
        ghost var ready := db;
        outcome := ApplyMissing(names, present);
        ghost var j: nat :| Advanced(names, ready, db, outcome, j);
        assert Advanced(names, old(db), db, outcome, j);
      } else {
        outcome := if answer == Error then Threw else Killed;
        assert Advanced(names, old(db), db, outcome, 0);
      }
    }

    method ApplyMissing(names: seq<string>, present: set<string>) returns (outcome: Outcome)
      requires forall n :: Possible(fate(n))
      requires Distinct(names)
      modifies this
      ensures exists j: nat :: Advanced(names, old(db), db, outcome, j)
      ensures db.tracking == old(db.tracking)
      ensures old(count) <= count
      ensures if count == old(count) then outcome != Killed else outcome == Killed <==> fate(count - 1).answer == Died
    {
      var applied := set name | name in db.recorded;
      for i := 0 to |names|
        invariant Done(names, old(db), db, i) && db.tracking == old(db.tracking)
        invariant old(count) == count || (old(count) < count && fate(count - 1).answer != Died)
      {
        if names[i] in applied {
          StepOver(names, old(db), db, i);
          continue;
        }
        if names[i] !in present {
          StoppedAt(names, old(db), db, i, Threw);
          return Threw;
        }
        NotYetRecorded(names, old(db), db, i);
        ghost var before := db;
        var answer := Apply(names[i]);
        AfterOne(names, old(db), before, db, i);
        if answer != Ok {
          outcome := if answer == Error then Threw else Killed;
          StoppedAt(names, old(db), db, if Done(names, old(db), db, i) then i else i + 1, outcome);
          return;
        }
      }
      assert names[..|names|] == names;
      outcome := Finished;
      StoppedAt(names, old(db), db, |names|, outcome);
    }
  }

  /** The first i names have been dealt with. */
  ghost predicate Done(names: seq<string>, before: Db, db: Db, i: nat)
    requires i <= |names|
  {
    && db.recorded == before.recorded + Todo(names[..i], before.recorded)
    && db.executed == before.executed + Todo(names[..i], before.recorded)
  }

  lemma StepOver(names: seq<string>, before: Db, db: Db, i: nat)
    requires i < |names| && names[i] in before.recorded && Done(names, before, db, i)
    ensures Done(names, before, db, i + 1)
  {
    assert names[..i + 1][..i] == names[..i];
    assert Todo(names[..i + 1], before.recorded) == Todo(names[..i], before.recorded);
  }

  lemma NotYetRecorded(names: seq<string>, before: Db, db: Db, i: nat)
    requires i < |names| && Distinct(names) && names[i] !in before.recorded && Done(names, before, db, i)
    ensures names[i] !in db.recorded
  {
    TodoIsListed(names[..i], before.recorded, names[i]);
  }

  lemma AfterOne(names: seq<string>, start: Db, before: Db, after: Db, i: nat)
    requires i < |names| && names[i] !in start.recorded && Done(names, start, before, i)
    ensures SameCommitted(before, after) ==> Done(names, start, after, i)
    ensures Applied(before, after, names[i]) ==> Done(names, start, after, i + 1)
  {
    assert names[..i + 1][..i] == names[..i];
    var todo := Todo(names[..i], start.recorded);
    assert start.recorded + (todo + [names[i]]) == start.recorded + todo + [names[i]];
    assert start.executed + (todo + [names[i]]) == start.executed + todo + [names[i]];
  }

  lemma StoppedAt(names: seq<string>, before: Db, db: Db, i: nat, outcome: Outcome)
    requires i <= |names| && Done(names, before, db, i)
    requires outcome == Finished ==> i == |names|
    ensures Advanced(names, before, db, outcome, |Todo(names[..i], before.recorded)|)
  {
    TodoSoFar(names, before.recorded, i);
    assert i == |names| ==> names[..i] == names;
  }

  /** The migration's SQL and its name have been committed together. */
  ghost predicate Applied(before: Db, after: Db, name: string) {
    after.recorded == before.recorded + [name] && after.executed == before.executed + [name]
  }

  ghost predicate SameCommitted(before: Db, after: Db) {
    after.recorded == before.recorded && after.executed == before.executed
  }

  lemma {:induction false} TodoIsListed(names: seq<string>, recorded: seq<string>, name: string)
    ensures name in Todo(names, recorded) <==> name in names && name !in recorded
  {
    if names != [] {
      var n := |names| - 1;
      TodoIsListed(names[..n], recorded, name);
      assert names == names[..n] + [names[n]];
    }
  }

  lemma {:induction false} TodoIsDistinct(names: seq<string>, recorded: seq<string>)
    requires Distinct(names)
    ensures Distinct(Todo(names, recorded))
  {
    if names != [] {
      var n := |names| - 1;
      TodoIsDistinct(names[..n], recorded);
      TodoIsListed(names[..n], recorded, names[n]);
    }
  }

  /** The work done after i names is the beginning of the whole work. */
  lemma {:induction false} TodoSoFar(names: seq<string>, recorded: seq<string>, i: nat)
    requires i <= |names|
    ensures Todo(names[..i], recorded) <= Todo(names, recorded)
    decreases |names|
  {
    if i < |names| {
      var n := |names| - 1;
      TodoSoFar(names[..n], recorded, i);
      assert names[..n][..i] == names[..i];
    } else {
      assert names[..i] == names;
    }
  }

  // Any number of runs, one after the other.

  /** A run, how many migrations it committed, and what it left. */
  datatype MigrationRun = MigrationRun(names: seq<string>, done: nat, after: Db, outcome: Outcome)

  ghost function Before(runs: seq<MigrationRun>, i: nat): Db
    requires i <= |runs|
  {
    if i == 0 then EMPTY else runs[i - 1].after
  }

  ghost predicate RunAt(runs: seq<MigrationRun>, i: nat)
    requires i < |runs|
  {
    Distinct(runs[i].names) && Advanced(runs[i].names, Before(runs, i), runs[i].after, runs[i].outcome, runs[i].done)
  }

  /** Each run starts from what the one before left; each has its own list of migrations. */
  ghost predicate History(runs: seq<MigrationRun>) {
    forall i :: 0 <= i < |runs| ==> RunAt(runs, i)
  }

  lemma NewNamesOnly(names: seq<string>, recorded: seq<string>, j: nat)
    requires Distinct(names) && Distinct(recorded) && j <= |Todo(names, recorded)|
    ensures Distinct(recorded + Todo(names, recorded)[..j])
  {
    var todo := Todo(names, recorded);
    TodoIsDistinct(names, recorded);
    forall k | 0 <= k < j
      ensures todo[k] !in recorded
    {
      TodoIsListed(names, recorded, todo[k]);
    }
  }

  /** However the runs ended, no migration's SQL was committed twice, and it was committed
      exactly if its name is recorded. */
  lemma {:induction false} EachMigrationCommitsOnce(runs: seq<MigrationRun>, i: nat)
    requires History(runs) && i <= |runs|
    ensures Before(runs, i).executed == Before(runs, i).recorded
    ensures Distinct(Before(runs, i).executed)
    decreases i
  {
    if i > 0 {
      EachMigrationCommitsOnce(runs, i - 1);
      assert RunAt(runs, i - 1);
      NewNamesOnly(runs[i - 1].names, Before(runs, i - 1).recorded, runs[i - 1].done);
    }
  }

  lemma {:induction false} RecordedIsKept(runs: seq<MigrationRun>, i: nat, k: nat)
    requires History(runs) && i <= k <= |runs|
    ensures Before(runs, i).recorded <= Before(runs, k).recorded
    decreases k
  {
    if i < k {
      RecordedIsKept(runs, i, k - 1);
      assert RunAt(runs, k - 1);
    }
  }

  /** Once a run has finished, every one of its migrations is committed and stays so. */
  lemma FinishedRunDidEverything(runs: seq<MigrationRun>, i: nat, k: nat, name: string)
    requires History(runs) && i < k <= |runs|
    requires runs[i].outcome == Finished && name in runs[i].names
    ensures name in Before(runs, k).recorded && name in Before(runs, k).executed
  {
    var before, run := Before(runs, i), runs[i];
    assert RunAt(runs, i);
    TodoIsListed(run.names, before.recorded, name);
    assert run.after.recorded == before.recorded + Todo(run.names, before.recorded);
    assert name in before.recorded + Todo(run.names, before.recorded);
    var at :| 0 <= at < |run.after.recorded| && run.after.recorded[at] == name;
    RecordedIsKept(runs, i + 1, k);
    assert Before(runs, k).recorded[at] == name;
    EachMigrationCommitsOnce(runs, k);
  }

  /** While new releases only append migrations, what is recorded is a prefix of the sorted
      list, so a crash never leaves a gap. */
  lemma {:induction false} RecordedIsAPrefix(runs: seq<MigrationRun>, i: nat)
    requires History(runs) && 0 < i <= |runs|
    requires forall k :: 0 < k < i ==> runs[k - 1].names <= runs[k].names
    ensures Before(runs, i).recorded <= runs[i - 1].names
    decreases i
  {
    var names, before := runs[i - 1].names, Before(runs, i - 1);
    if i > 1 {
      RecordedIsAPrefix(runs, i - 1);
      assert runs[i - 2].names <= names;
    }
    assert before.recorded <= names;
    assert RunAt(runs, i - 1);
    assert before.recorded == names[..|before.recorded|];
    TodoAfterPrefix(names, |before.recorded|);
    assert runs[i - 1].after.recorded == names[..|before.recorded| + runs[i - 1].done];
  }

  lemma {:induction false} TodoAfterPrefix(names: seq<string>, k: nat)
    requires Distinct(names) && k <= |names|
    ensures Todo(names, names[..k]) == names[k..]
  {
    if |names| == k {
      assert names[..k] == names;
      NothingTodo(names, names);
    } else {
      var n := |names| - 1;
      assert names[..n][..k] == names[..k];
      TodoAfterPrefix(names[..n], k);
      assert names[n] !in names[..k];
      assert names[k..] == names[..n][k..] + [names[n]];
    }
  }

  lemma {:induction false} NothingTodo(names: seq<string>, recorded: seq<string>)
    requires forall name :: name in names ==> name in recorded
    ensures Todo(names, recorded) == []
  {
    if names != [] {
      NothingTodo(names[..|names| - 1], recorded);
    }
  }

  // The names: migration files, sorted, without their suffix.

  const SUFFIX := ".sql"

  predicate NameChar(c: char) {
    'a' <= c <= 'z' || c == '_' || '0' <= c <= '9'
  }

  /** What MIGRATION_PATTERN accepts: three digits, an underscore, lower-case letters or
      underscores, and the suffix. */
  predicate IsMigrationFile(f: string) {
    && |f| > 8 && f[|f| - 4..] == SUFFIX
    && (forall i :: 0 <= i < 3 ==> '0' <= f[i] <= '9')
    && f[3] == '_'
    && forall i :: 4 <= i < |f| - 4 ==> f[i] == '_' || 'a' <= f[i] <= 'z'
  }

  function NameOf(f: string): string
    requires IsMigrationFile(f)
  {
    f[..|f| - 4]
  }

  /** The order of JavaScript's sort(). */
  predicate Less(a: string, b: string) {
    if b == "" then false
    else if a == "" then true
    else a[0] < b[0] || (a[0] == b[0] && Less(a[1..], b[1..]))
  }

  /** Sorting the file names sorts the migration names: the suffix's dot is below every
      character a name may have. */
  lemma {:induction false} SuffixKeepsOrder(a: string, b: string)
    requires forall i :: 0 <= i < |a| ==> NameChar(a[i])
    requires forall i :: 0 <= i < |b| ==> NameChar(b[i])
    ensures Less(a + SUFFIX, b + SUFFIX) <==> Less(a, b)
  {
    if a == "" || b == "" {
      assert a == "" ==> a + SUFFIX == SUFFIX;
      assert b == "" ==> b + SUFFIX == SUFFIX;
      if a == "" && b == "" {
        NotBelowItself(SUFFIX);
      }
    } else {
      assert (a + SUFFIX)[1..] == a[1..] + SUFFIX && (b + SUFFIX)[1..] == b[1..] + SUFFIX;
      SuffixKeepsOrder(a[1..], b[1..]);
    }
  }

  lemma {:induction false} NotBelowItself(a: string)
    ensures !Less(a, a)
  {
    if a != "" {
      NotBelowItself(a[1..]);
    }
  }

  ghost predicate Sorted(s: seq<string>) {
    forall i, j :: 0 <= i < j < |s| ==> Less(s[i], s[j])
  }

  function MigrationNames(files: seq<string>): (names: seq<string>)
    requires forall i :: 0 <= i < |files| ==> IsMigrationFile(files[i])
    ensures |names| == |files|
  {
    seq(|files|, i requires 0 <= i < |files| && IsMigrationFile(files[i]) => NameOf(files[i]))
  }

  /** Files sorted by name give migrations sorted by name, each once. */
  lemma MigrationNamesAreSorted(files: seq<string>)
    requires Sorted(files) && forall i :: 0 <= i < |files| ==> IsMigrationFile(files[i])
    ensures Sorted(MigrationNames(files)) && Distinct(MigrationNames(files))
  {
    var names := MigrationNames(files);
    forall i, j | 0 <= i < j < |names|
      ensures Less(names[i], names[j]) && names[i] != names[j]
    {
      assert files[i] == names[i] + SUFFIX && files[j] == names[j] + SUFFIX;
      SuffixKeepsOrder(names[i], names[j]);
      NotBelowItself(names[i]);
    }
  }

  lemma {:induction false} LessIsTotal(a: string, b: string)
    ensures a == b || Less(a, b) || Less(b, a)
  {
    if a != "" && b != "" {
      LessIsTotal(a[1..], b[1..]);
      assert a == [a[0]] + a[1..] && b == [b[0]] + b[1..];
    }
  }

  lemma {:induction false} LessIsAsymmetric(a: string, b: string)
    requires Less(a, b)
    ensures !Less(b, a)
  {
    if a != "" && a[0] == b[0] {
      LessIsAsymmetric(a[1..], b[1..]);
    }
  }

  lemma {:induction false} LessIsTransitive(a: string, b: string, c: string)
    requires Less(a, b) && Less(b, c)
    ensures Less(a, c)
  {
    if a != "" && a[0] == b[0] == c[0] {
      LessIsTransitive(a[1..], b[1..], c[1..]);
    }
  }

  function Filtered(dir: seq<string>): seq<string> {
    if dir == [] then []
    else (if IsMigrationFile(dir[0]) then [dir[0]] else []) + Filtered(dir[1..])
  }

  function Place(f: string, s: seq<string>): seq<string> {
    if s == [] || Less(f, s[0]) then [f] + s else [s[0]] + Place(f, s[1..])
  }

  /** What sort() gives; for distinct strings there is only one sorted list, whatever the algorithm. */
  function SortedFiles(files: seq<string>): seq<string> {
    if files == [] then [] else Place(files[0], SortedFiles(files[1..]))
  }

  lemma {:induction false} FilteredFiles(dir: seq<string>)
    ensures forall f :: f in Filtered(dir) <==> f in dir && IsMigrationFile(f)
    ensures Distinct(dir) ==> Distinct(Filtered(dir))
  {
    if dir != [] {
      FilteredFiles(dir[1..]);
      assert dir == [dir[0]] + dir[1..];
      if Distinct(dir) {
        assert forall i, j :: 0 <= i < j < |dir| - 1 ==> dir[1..][i] == dir[i + 1] && dir[1..][j] == dir[j + 1];
        assert dir[0] !in dir[1..];
      }
    }
  }

  lemma {:induction false} Placed(f: string, s: seq<string>)
    requires Sorted(s) && f !in s
    ensures Sorted(Place(f, s)) && forall g :: g in Place(f, s) <==> g == f || g in s
  {
    if s == [] {
    } else if Less(f, s[0]) {
      forall i | 0 <= i < |s|
        ensures Less(f, s[i])
      {
        if i > 0 {
          LessIsTransitive(f, s[0], s[i]);
        }
      }
    } else {
      assert s == [s[0]] + s[1..];
      Placed(f, s[1..]);
      LessIsTotal(f, s[0]);
      assert forall g :: g in s[1..] ==> Less(s[0], g);
    }
  }

  lemma {:induction false} SortingSorts(files: seq<string>)
    requires Distinct(files)
    ensures Sorted(SortedFiles(files)) && forall f :: f in SortedFiles(files) <==> f in files
  {
    if files != [] {
      assert forall i, j :: 0 <= i < j < |files| - 1 ==> files[1..][i] == files[i + 1] && files[1..][j] == files[j + 1];
      SortingSorts(files[1..]);
      assert files == [files[0]] + files[1..] && files[0] !in files[1..];
      Placed(files[0], SortedFiles(files[1..]));
    }
  }

  /** readdirSync(...).filter(...).sort().map(...) */
  function GetAllMigrationNames(dir: seq<string>): seq<string>
    requires Distinct(dir)
  {
    FilteredFiles(dir);
    SortingSorts(Filtered(dir));
    MigrationNames(SortedFiles(Filtered(dir)))
  }

  /** Three digits, an underscore, and lower-case letters and underscores, one at least. */
  ghost predicate IsMigrationName(name: string) {
    && |name| >= 5 && name[3] == '_'
    && (forall i :: 0 <= i < 3 ==> 48 <= name[i] as int <= 57)
    && (forall i :: 4 <= i < |name| ==> name[i] == '_' || 97 <= name[i] as int <= 122)
  }

  lemma FileOfName(name: string)
    ensures IsMigrationFile(name + SUFFIX) <==> IsMigrationName(name)
  {
    var f := name + SUFFIX;
    assert |f| == |name| + 4 && f[|f| - 4..] == SUFFIX;
    assert forall i :: 0 <= i < |name| ==> f[i] == name[i];
  }

  /** They agree on their first k characters, and then the first ends or has the smaller one. */
  ghost predicate DiffersAt(a: string, b: string, k: nat) {
    && k <= |a| && k < |b| && a[..k] == b[..k]
    && (k == |a| || a[k] < b[k])
  }

  lemma {:induction false} LessDiffers(a: string, b: string) returns (k: nat)
    requires Less(a, b)
    ensures DiffersAt(a, b, k)
  {
    if a == "" || a[0] < b[0] {
      k := 0;
    } else {
      k := LessDiffers(a[1..], b[1..]);
      k := k + 1;
      assert a[..k] == [a[0]] + a[1..][..k - 1] && b[..k] == [b[0]] + b[1..][..k - 1];
    }
  }

  ghost predicate Precedes(a: string, b: string) {
    exists k: nat :: DiffersAt(a, b, k)
  }

  /** Each name comes before the next ones in the order of their characters. */
  ghost predicate Ascending(names: seq<string>) {
    forall i, j :: 0 <= i < j < |names| ==> Precedes(names[i], names[j])
  }

  lemma SortedAscends(names: seq<string>)
    requires Sorted(names)
    ensures Ascending(names)
  {
    forall i, j | 0 <= i < j < |names|
      ensures Precedes(names[i], names[j])
    {
      var k := LessDiffers(names[i], names[j]);
    }
  }

  /** The names are those of the migration files, in ascending order, each once, however the directory lists them. */
  lemma AllMigrationNames(dir: seq<string>)
    requires Distinct(dir)
    ensures var names := GetAllMigrationNames(dir);
      && Sorted(names) && Ascending(names) && Distinct(names)
      && forall name :: name in names <==> name + ".sql" in dir && IsMigrationName(name)
  {
    FilteredFiles(dir);
    SortingSorts(Filtered(dir));
    var files := SortedFiles(Filtered(dir));
    var names := GetAllMigrationNames(dir);
    MigrationNamesAreSorted(files);
    SortedAscends(names);
    forall name
      ensures name in names <==> name + SUFFIX in dir && IsMigrationName(name)
    {
      FileOfName(name);
      if name in names {
        var i :| 0 <= i < |names| && names[i] == name;
        assert files[i] == name + SUFFIX;
      }
      if name + SUFFIX in files {
        var i :| 0 <= i < |files| && files[i] == name + SUFFIX;
        assert names[i] == name;
      }
    }
  }

  lemma HeadIsListed(s: seq<string>)
    ensures s != [] ==> s[0] in s
  {
  }

  lemma {:induction false} SortedListIsUnique(a: seq<string>, b: seq<string>)
    requires Sorted(a) && Sorted(b) && forall x :: x in a <==> x in b
    ensures a == b
  {
    HeadIsListed(b);
    if a != [] {
      assert a[0] in b && b != [] && b[0] in a;
      if a[0] != b[0] {
        LessIsAsymmetric(a[0], b[0]);
      }
      TailsAgree(a, b);
      SortedListIsUnique(a[1..], b[1..]);
      assert a == [a[0]] + a[1..] && b == [b[0]] + b[1..];
    }
  }

  lemma TailsAgree(a: seq<string>, b: seq<string>)
    requires a != [] && b != [] && a[0] == b[0]
    requires Sorted(a) && Sorted(b) && forall x :: x in a <==> x in b
    ensures forall x :: x in a[1..] <==> x in b[1..]
  {
    NotBelowItself(a[0]);
    forall x
      ensures x in a <==> x == a[0] || x in a[1..]
      ensures x in b <==> x == b[0] || x in b[1..]
    {
      assert a == [a[0]] + a[1..] && b == [b[0]] + b[1..];
    }
    assert forall i :: 0 < i < |a| ==> Less(a[0], a[i]);
    assert forall i :: 0 < i < |b| ==> Less(b[0], b[i]);
  }

  lemma DirectoryOrderDoesNotMatter(dir: seq<string>, again: seq<string>)
    requires Distinct(dir) && Distinct(again) && forall f :: f in dir <==> f in again
    ensures GetAllMigrationNames(dir) == GetAllMigrationNames(again)
  {
    AllMigrationNames(dir);
    AllMigrationNames(again);
    SortedListIsUnique(GetAllMigrationNames(dir), GetAllMigrationNames(again));
  }
}
