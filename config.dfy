/**
 * The update client's local configuration (package `cmd/client/utils`):
 * the default server, the cache directory and the list of repository URLs,
 * kept in `$HOME/.update-service/config.json`.
 *
 * The file system is not modelled; what the client sees of it is a `Disk`
 * value: the `HOME` variable, the state of the config file, whether the
 * cache directory exists, and the errors that creating the directory or
 * writing the file would report. Operations that touch the disk take a
 * `Disk`; `Init`, `Save`, `Add` and `Remove` also return the disk as they
 * leave it, and `Load` only reads it.
 */
module ClientUtils {
  import opened Wrappers

  /**
   * The errors of the package. The three `ErrorsUC*` sentinels and
   * `ErrorsUCRepoInvalid` are compared by identity, so each is a
   * constructor of its own; every other error is a `Failure` with its text.
   */
  datatype ClientError =
    | EmptyURL       // ErrorsUCEmptyURL: "empty repository url"
    | RepoExist      // ErrorsUCRepoExist: "repository is already exist"
    | RepoNotExist   // ErrorsUCRepoNotExist: "repository is not exist"
    | RepoInvalid    // ErrorsUCRepoInvalid
    | Failure(message: string)

  const CannotGetHome: string := "Cannot get home directory"

  /** `filepath.Join(home, ".update-service", "cache")`. */
  function CachePath(home: string): string
  {
    home + "/.update-service/cache"
  }

  /** The fields of `UpdateClientConfig`, as `save` writes them and `Load` reads them. */
  datatype Record = Record(defaultServer: string, cacheDir: string, repos: seq<string>)

  /** The config file: absent, present but unreadable or not valid JSON, or holding a record. */
  datatype ConfigFile =
    | Absent(readError: string)
    | Corrupt(readError: string)
    | Stored(record: Record)

  /** What the client sees of its environment. */
  datatype Disk = Disk(
    home: string,
    file: ConfigFile,
    cacheDirExists: bool,
    mkdirError: Option<string>,
    writeError: Option<string>)

  /** The record `Load` ends with: the stored one, its empty `CacheDir` replaced by the default. */
  function LoadedRecord(stored: Record, home: string): (r: Record)
    ensures r.defaultServer == stored.defaultServer && r.repos == stored.repos
    ensures stored.cacheDir != "" ==> r.cacheDir == stored.cacheDir
    ensures stored.cacheDir == "" ==> r.cacheDir == CachePath(home)
  {
    if stored.cacheDir == "" then stored.(cacheDir := CachePath(home)) else stored
  }

  /** Loading is idempotent: a loaded record loads to itself, because its `CacheDir` is never empty afterwards. */
  lemma LoadedRecordIdempotent(stored: Record, home: string)
    ensures LoadedRecord(LoadedRecord(stored, home), home) == LoadedRecord(stored, home)
    ensures home != "" ==> LoadedRecord(stored, home).cacheDir != ""
  {
  }

  /** No URL occurs twice. */
  predicate NoDuplicates(s: seq<string>)
  {
    forall i, j :: 0 <= i < j < |s| ==> s[i] != s[j]
  }

  /** The list with the first occurrence of `x` spliced out; the list itself when `x` does not occur. */
  function RemoveFirst(s: seq<string>, x: string): seq<string>
  {
    if |s| == 0 then []
    else if s[0] == x then s[1..]
    else [s[0]] + RemoveFirst(s[1..], x)
  }

  /** Removing at the first occurrence `i` keeps everything before and after it, in order. */
  lemma {:induction false} RemoveFirstAt(s: seq<string>, x: string, i: nat)
    requires i < |s| && s[i] == x
    requires forall j :: 0 <= j < i ==> s[j] != x
    ensures RemoveFirst(s, x) == s[..i] + s[i + 1..]
    decreases i
  {
    if i > 0 {
      RemoveFirstAt(s[1..], x, i - 1);
      assert s[1..][..i - 1] == s[1..i];
      assert s[1..][i..] == s[i + 1..];
      assert s[..i] == [s[0]] + s[1..i];
    }
  }

  /** Removing drops exactly one copy of `x` when there is one, and nothing otherwise. */
  lemma {:induction false} RemoveFirstCounts(s: seq<string>, x: string)
    ensures x in s ==> |RemoveFirst(s, x)| == |s| - 1 && multiset(RemoveFirst(s, x)) == multiset(s) - multiset{x}
    ensures x !in s ==> RemoveFirst(s, x) == s
    decreases |s|
  {
    if |s| > 0 {
      assert s == [s[0]] + s[1..];
      if s[0] != x {
        RemoveFirstCounts(s[1..], x);
      }
    }
  }

  /** Removing never brings in anything new. */
  lemma {:induction false} RemoveFirstWithin(s: seq<string>, x: string)
    ensures forall y :: y in RemoveFirst(s, x) ==> y in s
    decreases |s|
  {
    if |s| > 0 && s[0] != x {
      RemoveFirstWithin(s[1..], x);
    }
  }

  lemma ConsNoDuplicates(head: string, tail: seq<string>)
    requires NoDuplicates(tail) && head !in tail
    ensures NoDuplicates([head] + tail)
  {
    var t := [head] + tail;
    forall i, j | 0 <= i < j < |t|
      ensures t[i] != t[j]
    {
      assert t[j] == tail[j - 1];
      if i > 0 {
        assert t[i] == tail[i - 1];
      }
    }
  }

  /** Removing from a list without duplicates removes `x` entirely and keeps it free of duplicates. */
  lemma {:induction false} RemoveFirstNoDuplicates(s: seq<string>, x: string)
    requires NoDuplicates(s)
    ensures NoDuplicates(RemoveFirst(s, x))
    ensures x !in RemoveFirst(s, x)
    decreases |s|
  {
    if |s| > 0 {
      var tail := s[1..];
      assert forall j :: 0 <= j < |tail| ==> tail[j] == s[j + 1];
      assert NoDuplicates(tail);
      if s[0] != x {
        RemoveFirstNoDuplicates(tail, x);
        RemoveFirstWithin(tail, x);
        ConsNoDuplicates(s[0], RemoveFirst(tail, x));
      }
    }
  }

  /** Appending a URL that is not yet present keeps the list free of duplicates. */
  lemma AppendNoDuplicates(s: seq<string>, x: string)
    requires NoDuplicates(s) && x !in s
    ensures NoDuplicates(s + [x])
  {
    var t := s + [x];
    forall i, j | 0 <= i < j < |t|
      ensures t[i] != t[j]
    {
      if j == |s| {
        assert t[i] == s[i];
      }
    }
  }

  /** `UpdateClientConfig`, whose methods update its fields in place. */
  class UpdateClientConfig {
    var defaultServer: string
    var cacheDir: string
    var repos: seq<string>

    /** The zero value `&UpdateClientConfig{}`. */
    constructor ()
      ensures defaultServer == "" && cacheDir == "" && repos == []
    {
      defaultServer, cacheDir, repos := "", "", [];
    }

    function Snapshot(): Record
      reads this
    {
      Record(defaultServer, cacheDir, repos)
    }

    /** `exist`: is there a config file under `$HOME/.update-service`? */
    static function Exists(disk: Disk): bool
    {
      !disk.file.Absent?
    }

    /** `save`: write the fields to the config file. */
    method Save(disk: Disk) returns (err: Option<ClientError>, after: Disk)
      ensures disk.writeError.Some? ==> err == Some(Failure(disk.writeError.value)) && after == disk
      ensures disk.writeError.None? ==> err == None && after == disk.(file := Stored(Snapshot()))
    {
      if disk.writeError.Some? {
        return Some(Failure(disk.writeError.value)), disk;
      }
      return None, disk.(file := Stored(Snapshot()));
    }

    /**
     * `Init`: create the cache directory if it is missing, point `CacheDir`
     * at it, and write the config file when there is none yet.
     */
    method Init(disk: Disk) returns (err: Option<ClientError>, after: Disk)
      modifies this
      ensures disk.home == "" ==> err == Some(Failure(CannotGetHome)) && after == disk
      ensures disk.home != "" && !disk.cacheDirExists && disk.mkdirError.Some? ==>
        err == Some(Failure(disk.mkdirError.value)) && after == disk
      ensures disk.home == "" || (!disk.cacheDirExists && disk.mkdirError.Some?) ==>
        Snapshot() == old(Snapshot())
      ensures disk.home != "" && (disk.cacheDirExists || disk.mkdirError.None?) ==>
        && Snapshot() == old(Snapshot()).(cacheDir := CachePath(disk.home))
        && (Exists(disk) ==> err == None && after == disk.(cacheDirExists := true))
        && (!Exists(disk) && disk.writeError.Some? ==>
              err == Some(Failure(disk.writeError.value)) && after == disk.(cacheDirExists := true))
        && (!Exists(disk) && disk.writeError.None? ==>
              err == None && after == disk.(cacheDirExists := true, file := Stored(Snapshot())))
    {
      if disk.home == "" {
        return Some(Failure(CannotGetHome)), disk;
      }
      var cacheURL := CachePath(disk.home);
      after := disk;
      if !disk.cacheDirExists {
        if disk.mkdirError.Some? {
          return Some(Failure(disk.mkdirError.value)), disk;
        }
        after := after.(cacheDirExists := true);
      }
      cacheDir := cacheURL;
      if !Exists(disk) {
        err, after := Save(after);
        return;
      }
      return None, after;
    }

    /** `Load`: read the config file into the fields and default an empty `CacheDir`. */
    method Load(disk: Disk) returns (err: Option<ClientError>)
      modifies this
      ensures disk.home == "" ==> err == Some(Failure(CannotGetHome)) && Snapshot() == old(Snapshot())
      ensures disk.home != "" && !disk.file.Stored? ==>
        err == Some(Failure(disk.file.readError)) && Snapshot() == old(Snapshot())
      ensures disk.home != "" && disk.file.Stored? ==>
        err == None && Snapshot() == LoadedRecord(disk.file.record, disk.home)
    {
      if disk.home == "" {
        return Some(Failure(CannotGetHome));
      }
      match disk.file {
        case Absent(e) => return Some(Failure(e));
        case Corrupt(e) => return Some(Failure(e));
        case Stored(record) =>
          defaultServer, cacheDir, repos := record.defaultServer, record.cacheDir, record.repos;
      }
      if cacheDir == "" {
        cacheDir := CachePath(disk.home);
      }
      return None;
    }

    /**
     * `Add`: refuse an empty URL; otherwise initialise (no config file yet)
     * or load, refuse a URL already listed, append the new one at the end
     * and save.
     */
    method Add(url: string, disk: Disk) returns (err: Option<ClientError>, after: Disk)
      modifies this
      ensures url == "" ==> err == Some(EmptyURL) && Snapshot() == old(Snapshot()) && after == disk
      ensures err.None? ==> url != "" && |repos| > 0 && repos[|repos| - 1] == url
      ensures err.None? ==> after.file == Stored(Snapshot())
      ensures url != "" && disk.home == "" ==>
        err == Some(Failure(CannotGetHome)) && Snapshot() == old(Snapshot()) && after == disk
      ensures url != "" && disk.home != "" && disk.file.Corrupt? ==>
        err == Some(Failure(disk.file.readError)) && Snapshot() == old(Snapshot()) && after == disk
      ensures url != "" && disk.home != "" && disk.file.Stored? ==>
        var base := disk.file.record.repos;
        var loaded := LoadedRecord(disk.file.record, disk.home);
        && (url in base ==> err == Some(RepoExist) && Snapshot() == loaded && after == disk)
        && (url !in base ==> Snapshot() == loaded.(repos := base + [url]))
        && (url !in base && disk.writeError.None? ==> err == None && after == disk.(file := Stored(Snapshot())))
        && (url !in base && disk.writeError.Some? ==> err == Some(Failure(disk.writeError.value)) && after == disk)
        && (url !in base ==> NoDuplicates(base) ==> NoDuplicates(repos))
      ensures url != "" && disk.home != "" && disk.file.Absent? && !disk.cacheDirExists && disk.mkdirError.Some? ==>
        err == Some(Failure(disk.mkdirError.value)) && Snapshot() == old(Snapshot()) && after == disk
      ensures url != "" && disk.home != "" && disk.file.Absent? && (disk.cacheDirExists || disk.mkdirError.None?) ==>
        var initial := old(Snapshot()).(cacheDir := CachePath(disk.home));
        && (disk.writeError.Some? ==>
              err == Some(Failure(disk.writeError.value)) && Snapshot() == initial && after == disk.(cacheDirExists := true))
        && (disk.writeError.None? && url in old(repos) ==>
              err == Some(RepoExist) && Snapshot() == initial && after == disk.(cacheDirExists := true, file := Stored(initial)))
        && (disk.writeError.None? && url !in old(repos) ==>
              err == None && Snapshot() == initial.(repos := old(repos) + [url])
              && after == disk.(cacheDirExists := true, file := Stored(Snapshot())))
    {
      if url == "" {
        return Some(EmptyURL), disk;
      }
      after := disk;
      if !Exists(disk) {
        err, after := Init(disk);
      } else {
        err := Load(disk);
      }
      if err.Some? {
        return;
      }
      ghost var base := repos;
      var i := 0;
      while i < |repos|
        invariant 0 <= i <= |repos|
        invariant forall j :: 0 <= j < i ==> repos[j] != url
      {
        if repos[i] == url {
          return Some(RepoExist), after;
        }
        i := i + 1;
      }
      if NoDuplicates(base) {
        AppendNoDuplicates(base, url);
      }
      repos := repos + [url];
      err, after := Save(after);
    }

    /**
     * `Remove`: refuse an empty URL, report a missing config file as a
     * missing repository, load, splice out the first occurrence of the URL
     * and save; a URL that is not listed is an error and nothing is saved.
     */
    method Remove(url: string, disk: Disk) returns (err: Option<ClientError>, after: Disk)
      modifies this
      ensures err.None? ==> after == disk.(file := Stored(Snapshot()))
      ensures err.Some? ==> after == disk
      ensures url == "" ==> err == Some(EmptyURL) && Snapshot() == old(Snapshot())
      ensures url != "" && disk.file.Absent? ==> err == Some(RepoNotExist) && Snapshot() == old(Snapshot())
      ensures url != "" && !disk.file.Absent? && disk.home == "" ==>
        err == Some(Failure(CannotGetHome)) && Snapshot() == old(Snapshot())
      ensures url != "" && disk.home != "" && disk.file.Corrupt? ==>
        err == Some(Failure(disk.file.readError)) && Snapshot() == old(Snapshot())
      ensures url != "" && disk.home != "" && disk.file.Stored? ==>
        var base := disk.file.record.repos;
        var loaded := LoadedRecord(disk.file.record, disk.home);
        && (url !in base ==> err == Some(RepoNotExist) && Snapshot() == loaded)
        && (url in base ==> Snapshot() == loaded.(repos := RemoveFirst(base, url)) && |repos| == |base| - 1)
        && (url in base && disk.writeError.None? ==> err == None)
        && (url in base && disk.writeError.Some? ==> err == Some(Failure(disk.writeError.value)))
    {
      if url == "" {
        return Some(EmptyURL), disk;
      }
      if !Exists(disk) {
        return Some(RepoNotExist), disk;
      }
      err := Load(disk);
      if err.Some? {
        return err, disk;
      }
      ghost var base := repos;
      var found := false;
      var i := 0;
      while i < |repos|
        invariant 0 <= i <= |repos|
        invariant repos == base
        invariant forall j :: 0 <= j < i ==> repos[j] != url
      {
        if repos[i] == url {
          RemoveFirstAt(repos, url, i);
          found := true;
          repos := repos[..i] + repos[i + 1..];
          break;
        }
        i := i + 1;
      }
      RemoveFirstCounts(base, url);
      if !found {
        return Some(RepoNotExist), disk;
      }
      err, after := Save(disk);
    }
  }
}
