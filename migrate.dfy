/**
 * The migration runner: which `.sql` files of the migrations directory run,
 * in which order, which are recorded in the `migrations` table, and where a
 * failure stops the run. The directory listing, the names already in the
 * table and the outcome of each file are inputs.
 */
module Migrate {
  import Sorting

  /** `file.endsWith(".sql")` */
  predicate EndsWithSql(name: string)
  {
    |name| >= 4 && name[|name| - 4..] == ".sql"
  }

  /** `.filter((file) => file.endsWith(".sql"))` */
  function SqlFiles(names: seq<string>): (r: seq<string>)
    ensures forall f :: f in r <==> f in names && EndsWithSql(f)
    ensures |r| <= |names|
  {
    if names == [] then []
    else (if EndsWithSql(names[0]) then [names[0]] else []) + SqlFiles(names[1..])
  }

  /**
   * The order of `.sort()` without a comparator: lexicographic by character,
   * a proper prefix first.
   */
  predicate LexLe(a: string, b: string)
  {
    a == [] || (b != [] && (a[0] < b[0] || (a[0] == b[0] && LexLe(a[1..], b[1..]))))
  }

  lemma {:induction false} LexLeTotal(a: string, b: string)
    ensures LexLe(a, b) || LexLe(b, a)
  {
    if a != [] && b != [] && a[0] == b[0] {
      LexLeTotal(a[1..], b[1..]);
    }
  }

  lemma {:induction false} LexLeTransitive(a: string, b: string, c: string)
    requires LexLe(a, b) && LexLe(b, c)
    ensures LexLe(a, c)
  {
    if a != [] && b != [] && c != [] && a[0] == b[0] && b[0] == c[0] {
      LexLeTransitive(a[1..], b[1..], c[1..]);
    }
  }

  lemma {:induction false} LexLeAntisymmetric(a: string, b: string)
    requires LexLe(a, b) && LexLe(b, a)
    ensures a == b
  {
    if a != [] && b != [] {
      LexLeAntisymmetric(a[1..], b[1..]);
      assert a == [a[0]] + a[1..] && b == [b[0]] + b[1..];
    }
  }

  lemma LexLeIsTotalPreorder()
    ensures Sorting.IsTotalPreorder(LexLe)
  {
    forall a, b ensures LexLe(a, b) || LexLe(b, a) {
      LexLeTotal(a, b);
    }
    forall a, b, c | LexLe(a, b) && LexLe(b, c) ensures LexLe(a, c) {
      LexLeTransitive(a, b, c);
    }
  }

  /** `migrationFiles`: the `.sql` names of the directory, sorted. */
  function MigrationFiles(dirNames: seq<string>): (r: seq<string>)
    ensures Sorting.Sorted(r, LexLe)
    ensures forall f :: f in r <==> f in dirNames && EndsWithSql(f)
  {
    LexLeIsTotalPreorder();
    var files := SqlFiles(dirNames);
    Sorting.SortByMembers(files, LexLe);
    Sorting.SortBy(files, LexLe)
  }

  /** The files the loop passes to `runMigration` if none fails: those of `files` not yet applied, in order. */
  function Pending(files: seq<string>, applied: seq<string>): seq<string>
  {
    if files == [] then []
    else
      var last := files[|files| - 1];
      Pending(files[..|files| - 1], applied) + (if last in applied then [] else [last])
  }

  lemma {:induction false} PendingSpec(files: seq<string>, applied: seq<string>)
    ensures forall f :: f in Pending(files, applied) <==> f in files && f !in applied
  {
    if files != [] {
      PendingSpec(files[..|files| - 1], applied);
      assert files == files[..|files| - 1] + [files[|files| - 1]];
    }
  }

  /** Skipping applied files keeps the sorted order. */
  lemma {:induction false} PendingSorted(files: seq<string>, applied: seq<string>)
    requires Sorting.Sorted(files, LexLe)
    ensures Sorting.Sorted(Pending(files, applied), LexLe)
  {
    if files != [] {
      var init := files[..|files| - 1];
      var last := files[|files| - 1];
      assert Sorting.Sorted(init, LexLe);
      PendingSorted(init, applied);
      PendingSpec(init, applied);
      var p := Pending(init, applied);
      forall x | x in p ensures LexLe(x, last) {
        var k :| 0 <= k < |init| && init[k] == x;
      }
    }
  }

  /** How one `runMigration` goes: whether the connection, the `BEGIN`, the file's SQL or the `COMMIT` fails. */
  datatype MigrationRun = ConnectFails | BeginFails | SqlFails | CommitFails | Commits

  /** A query `runMigration` sends on its client: `BEGIN`, the file's SQL, `COMMIT`, `ROLLBACK`. */
  datatype Query = Begin | FileSql | Commit | Rollback

  /** `runMigration`'s answer, and the queries it sent, in order. */
  datatype MigrationOutcome = MigrationOutcome(success: bool, queries: seq<Query>)

  /**
   * The file's changes stay in the database exactly when the last query
   * sent is a `COMMIT`; a transaction is opened first and closed last.
   */
  ghost predicate Committed(queries: seq<Query>)
  {
    queries != [] && queries[|queries| - 1] == Commit
  }

  function RunMigration(run: MigrationRun): (r: MigrationOutcome)
    ensures r.success <==> Committed(r.queries)
    ensures r.queries == [] <==> run == ConnectFails
    ensures r.queries != [] ==> r.queries[0] == Begin && r.queries[|r.queries| - 1] in {Commit, Rollback}
    ensures Rollback in r.queries <==> r.queries != [] && !r.success
  {
    match run
    case ConnectFails => MigrationOutcome(false, [])
    case BeginFails => MigrationOutcome(false, [Begin, Rollback])
    case SqlFails => MigrationOutcome(false, [Begin, FileSql, Rollback])
    case CommitFails => MigrationOutcome(false, [Begin, FileSql, Commit, Rollback])
    case Commits => MigrationOutcome(true, [Begin, FileSql, Commit])
  }

  lemma RunMigrationSucceedsOnlyOnCommit(run: MigrationRun)
    ensures RunMigration(run).success <==> run == Commits
  {
  }

  datatype RunEnd = Completed | ExitedOnFailure(file: string)

  /**
   * `runMigrations` after the table exists: over the sorted `.sql` files,
   * skip the applied ones, run the others with the outcome `outcome` gives,
   * record each success, and exit at the first failure. `recorded` is what
   * the loop inserts into `migrations`.
   */
  method RunMigrations(dirNames: seq<string>, applied: seq<string>, outcome: string -> MigrationRun)
    returns (recorded: seq<string>, end: RunEnd)
    ensures recorded <= Pending(MigrationFiles(dirNames), applied)
    ensures forall f :: f in recorded ==> RunMigration(outcome(f)).success
    ensures end == Completed ==> recorded == Pending(MigrationFiles(dirNames), applied)
    ensures end.ExitedOnFailure? ==>
      && recorded + [end.file] <= Pending(MigrationFiles(dirNames), applied)
      && !RunMigration(outcome(end.file)).success
  {
    var migrationFiles := MigrationFiles(dirNames);
    recorded := [];
    var i := 0;
    while i < |migrationFiles|
      invariant 0 <= i <= |migrationFiles|
      invariant recorded == Pending(migrationFiles[..i], applied)
      invariant forall f :: f in recorded ==> RunMigration(outcome(f)).success
    {
      var file := migrationFiles[i];
      PendingStep(migrationFiles, i, applied);
      if file !in applied {
        var success := RunMigration(outcome(file)).success;
        if success {
          recorded := recorded + [file];
        } else {
          PendingPrefix(migrationFiles, i + 1, applied);
          return recorded, ExitedOnFailure(file);
        }
      }
      i := i + 1;
    }
    PendingPrefix(migrationFiles, i, applied);
    end := Completed;
  }

  /** One more file: it is pending after the earlier ones exactly when it was not applied. */
  lemma PendingStep(files: seq<string>, i: nat, applied: seq<string>)
    requires i < |files|
    ensures Pending(files[..i + 1], applied) == Pending(files[..i], applied) + (if files[i] in applied then [] else [files[i]])
  {
    assert files[..i + 1][..i] == files[..i];
  }

  lemma {:induction false} PendingPrefix(files: seq<string>, n: nat, applied: seq<string>)
    requires n <= |files|
    ensures Pending(files[..n], applied) <= Pending(files, applied)
    ensures n == |files| ==> Pending(files[..n], applied) == Pending(files, applied)
    decreases |files|
  {
    if n < |files| {
      var init := files[..|files| - 1];
      assert files[..n] == init[..n];
      PendingPrefix(init, n, applied);
    } else {
      assert files[..n] == files;
    }
  }

  /**
   * What the run leaves in the `migrations` table: the names that were there
   * plus the recorded ones, none run that was applied, and in the sorted order.
   */
  lemma RecordedFiles(dirNames: seq<string>, applied: seq<string>, recorded: seq<string>)
    requires recorded <= Pending(MigrationFiles(dirNames), applied)
    ensures forall f :: f in recorded ==> f !in applied && f in dirNames && EndsWithSql(f)
    ensures Sorting.Sorted(recorded, LexLe)
  {
    var files := MigrationFiles(dirNames);
    PendingSpec(files, applied);
    PendingSorted(files, applied);
    var p := Pending(files, applied);
    assert recorded == p[..|recorded|];
    forall f | f in recorded ensures f in p {
      var k :| 0 <= k < |recorded| && recorded[k] == f;
      assert p[k] == f;
    }
  }

  /**
   * A directory lists each name once, so no file is recorded twice in one run.
   */
  lemma RecordedFilesDistinct(dirNames: seq<string>, applied: seq<string>, recorded: seq<string>)
    requires Sorting.NoDuplicates(dirNames)
    requires recorded <= Pending(MigrationFiles(dirNames), applied)
    ensures Sorting.NoDuplicates(recorded)
  {
    var files := MigrationFiles(dirNames);
    SqlFilesDistinct(dirNames);
    LexLeIsTotalPreorder();
    Sorting.PermutationNoDuplicates(SqlFiles(dirNames), files);
    PendingDistinct(files, applied);
    var p := Pending(files, applied);
    forall i, j | 0 <= i < j < |recorded| ensures recorded[i] != recorded[j] {
      assert recorded[i] == p[i] && recorded[j] == p[j];
    }
  }

  lemma {:induction false} SqlFilesDistinct(names: seq<string>)
    requires Sorting.NoDuplicates(names)
    ensures Sorting.NoDuplicates(SqlFiles(names))
  {
    if names != [] {
      var tail := names[1..];
      assert Sorting.NoDuplicates(tail) by {
        forall i, j | 0 <= i < j < |tail| ensures tail[i] != tail[j] {
          assert tail[i] == names[i + 1] && tail[j] == names[j + 1];
        }
      }
      SqlFilesDistinct(tail);
      assert names[0] !in tail by {
        forall k | 0 <= k < |tail| ensures tail[k] != names[0] {
          assert tail[k] == names[k + 1];
        }
      }
    }
  }

  lemma {:induction false} PendingDistinct(files: seq<string>, applied: seq<string>)
    requires Sorting.NoDuplicates(files)
    ensures Sorting.NoDuplicates(Pending(files, applied))
  {
    if files != [] {
      var init := files[..|files| - 1];
      var last := files[|files| - 1];
      assert Sorting.NoDuplicates(init);
      PendingDistinct(init, applied);
      PendingSpec(init, applied);
      assert last !in init by {
        forall k | 0 <= k < |init| ensures init[k] != last {
          assert init[k] == files[k];
        }
      }
    }
  }
}
