/**
 `cleanup_old_backups`, which exists in the same form in `scripts/smart_update.py`
 and `scripts/split_and_update.py`: every backup of a target file older than a
 number of days is deleted, and deletions that fail are skipped. The file system
 is a map from path to the file's age in whole seconds (the current time minus
 its modification time), and the files whose deletion would fail are a set.
 */
module Backups {
  import opened Text

  /** Path to age in seconds. An age can be negative when a file's modification
      time lies in the future. */
  type Ages = map<string, int>

  const SecondsPerDay: int := 86400

  /** Whether `p` matches the glob `target + ".backup.*"`: the star matches any
      run of characters other than a path separator. */
  predicate IsBackupOf(target: string, p: string) {
    var prefix := target + ".backup.";
    StartsWith(p, prefix) && '/' !in p[|prefix|..]
  }

  /** `(now - mtime) / 86400 > days`, stated over whole seconds: a quotient by a
      positive number exceeds `days` exactly when the dividend exceeds
      `days * 86400`. */
  predicate Expired(age: int, days: int) {
    age > days * SecondsPerDay
  }

  /** Whether the sweep removes `p`, a file `age` seconds old: a backup of
      `target` older than `days` days whose deletion does not fail. */
  predicate Swept(target: string, days: int, p: string, age: int, failing: set<string>) {
    IsBackupOf(target, p) && Expired(age, days) && p !in failing
  }

  /** The files the glob lists. */
  function Matched(target: string, files: Ages): (r: set<string>)
    ensures forall p | p in r :: p in files && IsBackupOf(target, p)
    ensures forall p | p in files && IsBackupOf(target, p) :: p in r
  {
    set p | p in files && IsBackupOf(target, p)
  }

  /** Deletes, one glob match at a time in any order, every backup of `target`
      older than `days` days, skipping those in `failing`. Returns what is left
      and how many files went. */
  method CleanupOldBackups(target: string, days: int, files: Ages, failing: set<string>)
    returns (kept: Ages, deleted: nat)
    ensures kept.Keys <= files.Keys
    ensures forall p | p in kept :: kept[p] == files[p]
    ensures forall p | p in files ::
              p !in kept <==> Swept(target, days, p, files[p], failing)
    ensures deleted == |files.Keys - kept.Keys|
  {
    var todo := Matched(target, files);
    kept := files;
    deleted := 0;
    while todo != {}
      invariant todo <= Matched(target, files)
      invariant kept.Keys <= files.Keys
      invariant forall p | p in kept :: kept[p] == files[p]
      invariant forall p | p in files ::
                  p !in kept <==> p in Matched(target, files) && p !in todo && Expired(files[p], days) && p !in failing
      invariant deleted == |files.Keys - kept.Keys|
      decreases |todo|
    {
      var p :| p in todo;
      if Expired(files[p], days) && p !in failing {
        assert files.Keys - (kept - {p}).Keys == (files.Keys - kept.Keys) + {p};
        kept := kept - {p};
        deleted := deleted + 1;
      }
      todo := todo - {p};
    }
  }

  /** The target itself is never one of its backups. */
  lemma {:induction false} TargetNotBackup(target: string)
    ensures !IsBackupOf(target, target)
  {
    assert |target| < |target + ".backup."|;
  }

  /** The name `rename` gives a file's backup is one of the file's backups
      exactly when the stamp holds no path separator. */
  lemma {:induction false} BackupNameMatches(target: string, stamp: string)
    ensures IsBackupOf(target, target + ".backup." + stamp) <==> '/' !in stamp
  {
    var prefix := target + ".backup.";
    assert (prefix + stamp)[|prefix|..] == stamp;
    assert StartsWith(prefix + stamp, prefix) by {
      assert (prefix + stamp)[..|prefix|] == prefix;
    }
  }

  /** Whole seconds against whole days: for a positive number of seconds per day,
      the real quotient `age / 86400` exceeds `days` exactly when `age` exceeds
      `days * 86400`. */
  lemma {:induction false} ExpiredIsAgeInDays(age: int, days: int)
    ensures Expired(age, days) <==> (age as real) / (SecondsPerDay as real) > days as real
  {
    var q := (age as real) / (SecondsPerDay as real);
    assert q * (SecondsPerDay as real) == age as real;
    if age > days * SecondsPerDay {
      assert (age as real) > (days as real) * (SecondsPerDay as real);
    } else {
      assert (age as real) <= (days as real) * (SecondsPerDay as real);
    }
  }
}
