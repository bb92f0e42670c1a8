/**
 * The seeding service (src/BusinessLogic/BookStore.BusinessLogic/Services/SeedService.cs):
 * seeds an empty database from `<base directory>/Seed/seed-data.json` and
 * maps what the import throws to a failed result.
 *
 * The application's base directory and what the file holds are parameters.
 */
module SeedService {
  import opened Results
  import opened Entities
  import opened Persistence
  import opened SeedRepository

  const AlreadySeeded: string := "Database already seeded."
  const DatabaseSeeded: string := "Database seeded."

  /** `Path.Combine` on Unix: an empty part is dropped, a rooted second part wins, a `/` joins the rest. */
  function CombinePath(first: string, second: string): (r: string)
    ensures second != [] && second[0] != '/' ==> |second| <= |r| && r[|r| - |second|..] == second && first <= r
  {
    if second == [] then first
    else if first == [] || second[0] == '/' then second
    else if first[|first| - 1] == '/' then first + second
    else first + "/" + second
  }

  /** `Path.Combine(baseDir, "Seed", "seed-data.json")`. */
  function SeedPath(baseDir: string): string
  {
    CombinePath(CombinePath(baseDir, "Seed"), "seed-data.json")
  }

  /**
   * The seed file sits in the `Seed` folder directly under the base
   * directory, whether or not the directory name ends in a separator
   * (`AppContext.BaseDirectory` does).
   */
  lemma SeedPathUnderBase(baseDir: string)
    ensures baseDir != [] ==>
      SeedPath(baseDir) == baseDir + (if baseDir[|baseDir| - 1] == '/' then "" else "/") + "Seed/seed-data.json"
  {
    if baseDir != [] {
      var sep := if baseDir[|baseDir| - 1] == '/' then "" else "/";
      var folder := SeedFolder(baseDir, sep);
      assert folder[|folder| - 1] == 'd';
      JoinFileName(baseDir + sep, folder);
    }
  }

  lemma SeedFolder(baseDir: string, sep: string) returns (folder: string)
    requires baseDir != [] && sep == if baseDir[|baseDir| - 1] == '/' then "" else "/"
    ensures folder == CombinePath(baseDir, "Seed") == baseDir + sep + "Seed"
  {
    folder := CombinePath(baseDir, "Seed");
  }

  lemma JoinFileName(prefix: string, folder: string)
    requires folder == prefix + "Seed"
    ensures CombinePath(folder, "seed-data.json") == prefix + "Seed/seed-data.json"
  {
    assert folder[|folder| - 1] == 'd';
    assert "Seed" + "/" + "seed-data.json" == "Seed/seed-data.json";
    assert (prefix + "Seed") + "/" + "seed-data.json" == prefix + ("Seed" + "/" + "seed-data.json");
  }

  /**
   * The `try`/`catch` around the import: success when nothing is thrown,
   * the "not found" message naming the path for a missing file, and the
   * exception's own message for anything else.
   */
  function Report(thrown: Option<Exception>, jsonPath: string): (r: Result<string>)
    ensures r.Ok? <==> thrown.None?
    ensures r.Ok? ==> r.value == DatabaseSeeded
    ensures thrown.Some? && thrown.value.FileNotFound? ==> r.error == "Seed data file not found at path '" + jsonPath + "'."
    ensures thrown.Some? && !thrown.value.FileNotFound? ==> r.error == "Failed to seed database: " + MessageOf(thrown.value)
  {
    match thrown
    case None => Ok(DatabaseSeeded)
    case Some(FileNotFound(_, _)) => Fail("Seed data file not found at path '" + jsonPath + "'.")
    case Some(e) => Fail("Failed to seed database: " + MessageOf(e))
  }

  /**
   * `SeedAsync` as a whole, given the tables, the base directory, what the
   * seed file yields, the next key and the clock: the state afterwards and
   * the result.
   */
  function SeedOnce(t: Tables, baseDir: string, source: SeedSource, base: nat, now: Timestamp): (Tables, Result<string>)
  {
    if Populated(t) then (t, Ok(AlreadySeeded))
    else
      var (after, thrown) := SeedOutcome(t, SeedPath(baseDir), source, base, now);
      (after, Report(thrown, SeedPath(baseDir)))
  }

  /**
   * Seeding is done once: after a call that seeds at least one author,
   * store or book, every later call reports "already seeded" and changes
   * nothing, whatever the file then holds.
   */
  lemma SeedOnceIdempotent(t: Tables, baseDir: string, data: SeedData, base: nat, now: Timestamp,
                           baseDir': string, source': SeedSource, base': nat, now': Timestamp)
    requires KeysBelow(t, base)
    requires SeedOnce(t, baseDir, Parsed(Some(data)), base, now).1.Ok?
    requires |data.authors| + |data.stores| + |data.books| > 0
    ensures var after := SeedOnce(t, baseDir, Parsed(Some(data)), base, now).0;
      SeedOnce(after, baseDir', source', base', now') == (after, Ok(AlreadySeeded))
  {
    SeededIsPopulated(t, baseDir, data, base, now);
    PopulatedIsSkipped(SeedOnce(t, baseDir, Parsed(Some(data)), base, now).0, baseDir', source', base', now');
  }

  lemma SeededIsPopulated(t: Tables, baseDir: string, data: SeedData, base: nat, now: Timestamp)
    requires KeysBelow(t, base)
    requires SeedOnce(t, baseDir, Parsed(Some(data)), base, now).1.Ok?
    requires |data.authors| + |data.stores| + |data.books| > 0
    ensures Populated(SeedOnce(t, baseDir, Parsed(Some(data)), base, now).0)
  {
    if !Populated(t) {
      var outcome := Seeding(t, data, base, now);
      assert SeedOnce(t, baseDir, Parsed(Some(data)), base, now).1 == Report(outcome.1, SeedPath(baseDir));
      assert SeedingError(t, data, base).None?;
      SeedingPopulates(t, data, base, now);
      assert SeedOnce(t, baseDir, Parsed(Some(data)), base, now).0 == SeededTables(t, data, base, now);
    }
  }

  lemma PopulatedIsSkipped(t: Tables, baseDir: string, source: SeedSource, base: nat, now: Timestamp)
    requires Populated(t)
    ensures SeedOnce(t, baseDir, source, base, now) == (t, Ok(AlreadySeeded))
  { }

  /** A failed call leaves the database as it was. */
  lemma SeedOnceFailureChangesNothing(t: Tables, baseDir: string, source: SeedSource, base: nat, now: Timestamp)
    requires SeedOnce(t, baseDir, source, base, now).1.Fail?
    ensures SeedOnce(t, baseDir, source, base, now).0 == t
  {
    if !Populated(t) && source.Parsed? && source.data.Some? {
      assert SeedingError(t, source.data.value, base).Some?;
    }
  }

  class SeedService {
    const repository: SeedRepository

    constructor(repository: SeedRepository)
      ensures this.repository == repository
    {
      this.repository := repository;
    }

    /**
     * `SeedAsync`: reports "already seeded" without touching the file when
     * some author, store or book exists; otherwise imports the file at
     * `<baseDir>/Seed/seed-data.json`, once, and reports the outcome.
     */
    method Seed(baseDir: string, source: SeedSource, now: Timestamp) returns (r: Result<string>)
      requires repository.Valid()
      modifies repository.db`tables, repository.db`nextId
      ensures repository.Valid()
      ensures Populated(old(repository.db.tables)) ==>
        r == Ok(AlreadySeeded) && repository.db.tables == old(repository.db.tables)
      ensures (repository.db.tables, r) == SeedOnce(old(repository.db.tables), baseDir, source, old(repository.db.nextId), now)
    {
      var seeded := repository.IsSeeded();
      if seeded {
        return Ok(AlreadySeeded);
      }
      var jsonPath := SeedPath(baseDir);
      var thrown := repository.SeedFromFile(jsonPath, source, now);
      r := Report(thrown, jsonPath);
    }
  }
}
