/** The auto-update transaction of scripts/auto-update/update-manager.ts: backup, pull, rewrite,
    restart, verify, commit, and rollback on any failure. External commands succeed or fail as an
    Outcomes value says; every theorem is for all such values. */
module UpdateManager {
  import opened Wrappers
  import opened ComposeFile
  import opened Text

  const BACKUP_COUNT := 3

  /** A release time in milliseconds; None is the NaN of an unreadable date, which JSON writes as
      null and which compares like 0 once it is read back. */
  datatype Version = Version(tags: Tags, timestamp: Option<int>)

  /** version.json: absent, not parsable, or holding what saveVersion wrote. */
  datatype VersionFile = Missing | Unreadable | Recorded(version: Version)

  /** A backup directory with the files it holds and its modification time. */
  datatype Backup = Backup(compose: Option<string>, version: Option<VersionFile>, modified: nat)

  /** Everything on the host the update touches; running is the compose text the services were last
      brought up with, None when bringing them up failed part of the way. */
  datatype State = State(compose: string, version: VersionFile, backups: map<string, Backup>, running: Option<string>)

  /** A copy whose failure is ignored (`cp ... || true`). */
  datatype SoftCopy = Copied | Ignored | Threw

  /** Restarting: `docker-compose up` throws, `docker-compose ps` throws, or it prints its table. */
  datatype Restart = UpFailed | PsFailed | Listed(stdout: string)

  datatype Outcomes = Outcomes(
    mkdir: bool, backupCompose: bool, backupVersion: SoftCopy,
    pullReth: bool, pullNode: bool,
    readCompose: bool, writeCompose: bool,
    restart: Restart, verified: bool, saveVersion: bool,
    listing: Option<seq<string>>, removals: nat,
    restoreCompose: bool, restoreVersion: SoftCopy, restartAgain: Restart)

  // ---------- what the outcomes amount to ----------

  predicate Healthy(r: Restart) {
    r.Listed? && !Includes(r.stdout, "unhealthy") && !Includes(r.stdout, "Exit")
  }

  predicate BackedUp(o: Outcomes) {
    o.mkdir && o.backupCompose && o.backupVersion != Threw
  }

  predicate Rewritten(o: Outcomes) {
    BackedUp(o) && o.pullReth && o.pullNode && o.readCompose && o.writeCompose
  }

  predicate Committed(o: Outcomes) {
    Rewritten(o) && Healthy(o.restart) && o.verified && o.saveVersion
  }

  /** The printed table says "unhealthy" or "Exit" somewhere. */
  ghost predicate ShowsTrouble(stdout: string) {
    Contains(stdout, "unhealthy") || Contains(stdout, "Exit")
  }

  lemma HealthyMeaning(r: Restart)
    ensures Healthy(r) <==> r.Listed? && !ShowsTrouble(r.stdout)
  {
    if r.Listed? {
      IncludesMeaning(r.stdout, "unhealthy");
      IncludesMeaning(r.stdout, "Exit");
    }
  }

  // ---------- the backup directory ----------

  function WithDirectory(backups: map<string, Backup>, dir: string, now: nat): map<string, Backup> {
    if dir in backups then backups else backups[dir := Backup(None, None, now)]
  }

  /** Creating a file in a directory touches the directory; overwriting one does not. */
  function PutCompose(b: Backup, text: string, now: nat): Backup {
    Backup(Some(text), b.version, if b.compose.None? then now else b.modified)
  }

  function PutVersion(b: Backup, file: VersionFile, now: nat): Backup {
    Backup(b.compose, Some(file), if b.version.None? then now else b.modified)
  }

  function BackupsAfterBackup(s: State, dir: string, now: nat, o: Outcomes): map<string, Backup> {
    if !o.mkdir then s.backups else
      var b1 := WithDirectory(s.backups, dir, now);
      if !o.backupCompose then b1 else
        var b2 := b1[dir := PutCompose(b1[dir], s.compose, now)];
        if o.backupVersion == Copied && s.version != Missing
        then b2[dir := PutVersion(b2[dir], s.version, now)] else b2
  }

  /** The other directories stay; this one holds the compose file, and the version file if it was
      copied, and is as new as the last file that came into it. */
  lemma BackupHolds(s: State, dir: string, now: nat, o: Outcomes)
    ensures !o.mkdir ==> BackupsAfterBackup(s, dir, now, o) == s.backups
    ensures o.mkdir ==>
            var b := BackupsAfterBackup(s, dir, now, o);
            var before := if dir in s.backups then s.backups[dir] else Backup(None, None, now);
            var versionToo := o.backupCompose && o.backupVersion == Copied && s.version != Missing;
            && (forall name :: name in b <==> name == dir || name in s.backups)
            && (forall name :: name in s.backups && name != dir ==> b[name] == s.backups[name])
            && b[dir].compose == (if o.backupCompose then Some(s.compose) else before.compose)
            && b[dir].version == (if versionToo then Some(s.version) else before.version)
            && (b[dir].modified == now || b[dir].modified == before.modified)
            && (b[dir].modified != before.modified ==>
                  (b[dir].compose.Some? && before.compose.None?) || (b[dir].version.Some? && before.version.None?))
            && ((b[dir].compose.Some? && before.compose.None?) || (b[dir].version.Some? && before.version.None?) ==>
                  b[dir].modified == now)
  {
  }

  /** The version file a rollback will find in the backup: the one just copied, or one that an
      earlier use of the same directory left behind. */
  function VersionInBackup(s: State, dir: string, o: Outcomes): Option<VersionFile> {
    if o.backupVersion == Copied && s.version != Missing then Some(s.version)
    else if dir in s.backups then s.backups[dir].version
    else None
  }

  // ---------- the clean-up ----------

  predicate NotOlder(backups: map<string, Backup>, a: string, b: string) {
    a in backups && b in backups && backups[a].modified >= backups[b].modified
  }

  /** `ls -1t`: every backup once, newest first. */
  ghost predicate NewestFirst(listing: seq<string>, backups: map<string, Backup>) {
    && (forall i, j :: 0 <= i < j < |listing| ==> listing[i] != listing[j])
    && (forall name :: name in listing <==> name in backups)
    && (forall i, j :: 0 <= i < j < |listing| ==> NotOlder(backups, listing[i], listing[j]))
  }

  /** The directories after the third in the listing, up to the first removal that fails. */
  function Deleted(listing: seq<string>, removals: nat): seq<string> {
    if |listing| <= BACKUP_COUNT then []
    else listing[BACKUP_COUNT..if removals < |listing| - BACKUP_COUNT then BACKUP_COUNT + removals else |listing|]
  }

  function Removed(listing: Option<seq<string>>, removals: nat): set<string> {
    match listing case None => {} case Some(names) => set name | name in Deleted(names, removals)
  }

  /** The clean-up removes the entries after the third, as many as removals go through. */
  lemma RemovedExactly(listing: seq<string>, removals: nat, name: string)
    ensures Removed(None, removals) == {}
    ensures name in Removed(Some(listing), removals)
       <==> exists i :: 3 <= i < |listing| && i < 3 + removals && listing[i] == name
  {
    if i :| 3 <= i < |listing| && i < 3 + removals && listing[i] == name {
      assert Deleted(listing, removals)[i - 3] == name;
    }
    if name in Removed(Some(listing), removals) {
      var j :| 0 <= j < |Deleted(listing, removals)| && Deleted(listing, removals)[j] == name;
      assert listing[3 + j] == name;
    }
  }

  /** The three newest backups stay, and whatever is removed is at most as new as each of them;
      when no removal fails nothing else is left. */
  lemma CleanKeepsNewest(listing: seq<string>, removals: nat, backups: map<string, Backup>, name: string)
    requires NewestFirst(listing, backups) && name in backups
    ensures var kept := backups - Removed(Some(listing), removals);
            && (name !in kept ==> forall i :: 0 <= i < BACKUP_COUNT ==>
                  i < |listing| && listing[i] in kept && NotOlder(backups, listing[i], name))
            && ((exists i :: 0 <= i < BACKUP_COUNT && i < |listing| && listing[i] == name) ==> name in kept)
            && (removals + BACKUP_COUNT >= |listing| && name in kept ==>
                  exists i :: 0 <= i < BACKUP_COUNT && i < |listing| && listing[i] == name)
  {
  }

  // ---------- what one update does ----------

  function VersionAfterThrow(s: State, dir: string, o: Outcomes): VersionFile {
    if BackedUp(o) && o.restoreCompose && o.restoreVersion == Copied
    then match VersionInBackup(s, dir, o) case Some(file) => file case None => s.version
    else s.version
  }

  function RunningAfter(compose: string, r: Restart): Option<string> {
    if r == UpFailed then None else Some(compose)
  }

  function RunningAfterThrow(s: State, latest: Version, o: Outcomes): Option<string> {
    if BackedUp(o) && o.restoreCompose && o.restoreVersion != Threw then RunningAfter(s.compose, o.restartAgain)
    else if Rewritten(o) then RunningAfter(UpdateDockerCompose(s.compose, latest.tags), o.restart)
    else s.running
  }

  /** The contract of performUpdate; ok is a normal return, the alternative a throw. */
  ghost predicate UpdateStep(pre: State, post: State, latest: Version, dir: string, now: nat, o: Outcomes, ok: bool) {
    && ok == Committed(o)
    && (ok ==>
          && post.compose == UpdateDockerCompose(pre.compose, latest.tags)
          && post.version == Recorded(latest)
          && post.running == Some(post.compose)
          && post.backups == BackupsAfterBackup(pre, dir, now, o) - Removed(o.listing, o.removals))
    && (!ok ==>
          && post.backups == BackupsAfterBackup(pre, dir, now, o)
          && post.version == VersionAfterThrow(pre, dir, o)
          && post.compose == (if Rewritten(o) && !o.restoreCompose
                              then UpdateDockerCompose(pre.compose, latest.tags) else pre.compose)
          && post.running == RunningAfterThrow(pre, latest, o))
  }

  class Host {
    var compose: string
    var version: VersionFile
    var backups: map<string, Backup>
    var running: Option<string>

    ghost function Abs(): State
      reads this
    {
      State(compose, version, backups, running)
    }

    constructor (compose: string, version: VersionFile, running: Option<string>)
      ensures Abs() == State(compose, version, map[], running)
    {
      this.compose, this.version, this.backups, this.running := compose, version, map[], running;
    }

    method BackupCurrentState(dir: string, now: nat, o: Outcomes) returns (ok: bool)
      modifies this`backups
      ensures ok == BackedUp(o)
      ensures backups == BackupsAfterBackup(old(Abs()), dir, now, o)
    {
      if !o.mkdir { return false; }
      backups := WithDirectory(backups, dir, now);
      if !o.backupCompose { return false; }
      backups := backups[dir := PutCompose(backups[dir], compose, now)];
      if o.backupVersion == Copied && version != Missing {
        backups := backups[dir := PutVersion(backups[dir], version, now)];
      }
      ok := o.backupVersion != Threw;
    }

    method RewriteCompose(tags: Tags, o: Outcomes) returns (ok: bool)
      modifies this`compose
      ensures ok == (o.readCompose && o.writeCompose)
      ensures compose == if ok then UpdateDockerCompose(old(compose), tags) else old(compose)
    {
      if !o.readCompose { return false; }
      var text := ReplaceTag(compose, RETH_IMAGE, tags.reth);
      text := ReplaceTag(text, NODE_IMAGE, tags.opNode);
      if !o.writeCompose { return false; }
      compose := text;
      ok := true;
    }

    method RestartServices(r: Restart) returns (ok: bool)
      modifies this`running
      ensures ok == Healthy(r)
      ensures ok <==> r.Listed? && !ShowsTrouble(r.stdout)
      ensures running == if r.UpFailed? then None else Some(compose)
    {
      HealthyMeaning(r);
      if r.UpFailed? {
        running := None;
        return false;
      }
      running := Some(compose);
      if r.PsFailed? { return false; }
      ok := !(Includes(r.stdout, "unhealthy") || Includes(r.stdout, "Exit"));
    }

    method CleanOldBackups(listing: Option<seq<string>>, removals: nat)
      modifies this`backups
      ensures backups == old(backups) - Removed(listing, removals)
    {
      if listing.None? { return; }
      var names := listing.value;
      if |names| > BACKUP_COUNT {
        var toDelete := names[BACKUP_COUNT..];
        var k := 0;
        while k < |toDelete| && k < removals
          invariant k <= |toDelete| && k <= removals
          invariant backups == old(backups) - set name | name in toDelete[..k]
        {
          backups := backups - {toDelete[k]};
          assert toDelete[..k + 1] == toDelete[..k] + [toDelete[k]];
          k := k + 1;
        }
        assert toDelete[..k] == Deleted(names, removals);
      }
    }

    method Rollback(dir: string, o: Outcomes) returns (ok: bool)
      requires dir in backups && backups[dir].compose.Some?
      modifies this`compose, this`version, this`running
      ensures ok <==> (&& o.restoreCompose && o.restoreVersion != Threw
                       && o.restartAgain.Listed? && !ShowsTrouble(o.restartAgain.stdout))
      ensures compose == if o.restoreCompose then backups[dir].compose.value else old(compose)
      ensures version == if o.restoreCompose && o.restoreVersion == Copied && backups[dir].version.Some?
                         then backups[dir].version.value else old(version)
      ensures running == if o.restoreCompose && o.restoreVersion != Threw
                         then if o.restartAgain.UpFailed? then None else Some(compose)
                         else old(running)
    {
      if !o.restoreCompose { return false; }
      compose := backups[dir].compose.value;
      if o.restoreVersion == Copied && backups[dir].version.Some? {
        version := backups[dir].version.value;
      }
      if o.restoreVersion == Threw { return false; }
      ok := RestartServices(o.restartAgain);
    }

    method PullAndRewrite(tags: Tags, o: Outcomes) returns (ok: bool)
      modifies this`compose
      ensures ok == (o.pullReth && o.pullNode && o.readCompose && o.writeCompose)
      ensures compose == if ok then UpdateDockerCompose(old(compose), tags) else old(compose)
    {
      if !o.pullReth { return false; }
      if !o.pullNode { return false; }
      ok := RewriteCompose(tags, o);
    }

    /** The try block: false stands for an exception after the backup. */
    method Forward(latest: Version, o: Outcomes) returns (ok: bool)
      requires BackedUp(o)
      modifies this
      ensures ok == Committed(o)
      ensures compose == if Rewritten(o) then UpdateDockerCompose(old(compose), latest.tags) else old(compose)
      ensures version == if ok then Recorded(latest) else old(version)
      ensures backups == if ok then old(backups) - Removed(o.listing, o.removals) else old(backups)
      ensures running == if Rewritten(o) then RunningAfter(compose, o.restart) else old(running)
    {
      ok := PullAndRewrite(latest.tags, o);
      if !ok { return; }
      ok := RestartServices(o.restart);
      if !ok { return; }
      if !o.verified { return false; }
      if !o.saveVersion { return false; }
      version := Recorded(latest);
      CleanOldBackups(o.listing, o.removals);
    }

    method PerformUpdate(latest: Version, dir: string, now: nat, o: Outcomes) returns (ok: bool)
      modifies this
      ensures UpdateStep(old(Abs()), Abs(), latest, dir, now, o, ok)
    {
      var backedUp := BackupCurrentState(dir, now, o);
      if !backedUp { return false; }
      ok := Forward(latest, o);
      if !ok {
        var rolledBack := Rollback(dir, o);
      }
    }

    method CheckForUpdates(c: Check)
      modifies this
      ensures CheckStep(old(Abs()), Abs(), c)
    {
      var current := match version case Recorded(v) => Some(v) case _ => None;
      if c.release.None? { return; }
      var latest := Version(RELEASE_TAGS, c.release.value);
      if IsNewerVersion(current, latest) && c.autoUpdate {
        var ok := PerformUpdate(latest, c.dir, c.now, c.o);
      }
    }
  }

  /** An update commits exactly when every command goes through, the table printed after the restart
      shows no trouble, and the node answers. */
  lemma CommitsExactly(pre: State, post: State, latest: Version, dir: string, now: nat, o: Outcomes, ok: bool)
    requires UpdateStep(pre, post, latest, dir, now, o, ok)
    ensures ok <==> (&& o.mkdir && o.backupCompose && o.backupVersion != Threw && o.pullReth && o.pullNode
                     && o.readCompose && o.writeCompose && o.restart.Listed? && !ShowsTrouble(o.restart.stdout)
                     && o.verified && o.saveVersion)
  {
    HealthyMeaning(o.restart);
  }

  /** What the services run with after a throw: the old file if the rollback got as far as starting
      them, else the new one if the update did, and nothing certain if starting them failed. */
  lemma RunningWhenThrown(pre: State, post: State, latest: Version, dir: string, now: nat, o: Outcomes)
    requires UpdateStep(pre, post, latest, dir, now, o, false)
    ensures var backedUp := o.mkdir && o.backupCompose && o.backupVersion != Threw;
            var started := backedUp && o.pullReth && o.pullNode && o.readCompose && o.writeCompose;
            if backedUp && o.restoreCompose && o.restoreVersion != Threw
            then post.running == if o.restartAgain.UpFailed? then None else Some(pre.compose)
            else if !started then post.running == pre.running
            else if o.restart.UpFailed? then post.running == None
            else post.running == Some(UpdateDockerCompose(pre.compose, latest.tags))
  {
  }

  /** All or nothing: a normal return commits; a throw leaves the compose file as it was unless the
      restoring copy itself failed, and version.json as it was unless this backup directory had
      already been in use with another version file and the copy into it did not happen. */
  lemma AllOrNothing(pre: State, post: State, latest: Version, dir: string, now: nat, o: Outcomes, ok: bool)
    requires UpdateStep(pre, post, latest, dir, now, o, ok)
    ensures ok ==> post.compose == UpdateDockerCompose(pre.compose, latest.tags) && post.version == Recorded(latest)
    ensures !ok ==> (post.compose == pre.compose <==>
              !Rewritten(o) || o.restoreCompose || UpdateDockerCompose(pre.compose, latest.tags) == pre.compose)
    ensures !ok && !BackedUp(o) ==> post == pre.(backups := post.backups)
    ensures !ok ==> (post.version != pre.version <==>
              && BackedUp(o) && o.restoreCompose && o.restoreVersion == Copied
              && dir in pre.backups && pre.backups[dir].version.Some? && pre.backups[dir].version.value != pre.version
              && (o.backupVersion != Copied || pre.version == Missing))
    ensures !ok && post.version != pre.version ==> post.version == pre.backups[dir].version.value
    ensures !ok && dir !in pre.backups ==> post.version == pre.version
  {
  }

  // ---------- runs of checks ----------

  const RELEASE_TAGS := Tags("v1.0.3", "v1.7.6")

  /** One check: the release answer (None: the fetch threw), the configuration and the outcomes. */
  datatype Check = Check(release: Option<Option<int>>, autoUpdate: bool, dir: string, now: nat, o: Outcomes)

  function Stored(timestamp: Option<int>): int {
    match timestamp case Some(t) => t case None => 0
  }

  /** NaN is greater than nothing; a stored null compares like 0. */
  predicate IsNewerVersion(current: Option<Version>, latest: Version) {
    match current
    case None => true
    case Some(v) => latest.timestamp.Some? && latest.timestamp.value > Stored(v.timestamp)
  }

  function CurrentVersion(s: State): Option<Version> {
    match s.version case Recorded(v) => Some(v) case _ => None
  }

  predicate Attempts(s: State, c: Check) {
    c.autoUpdate && c.release.Some? && IsNewerVersion(CurrentVersion(s), Version(RELEASE_TAGS, c.release.value))
  }

  /** A check updates exactly when it may, knows a release, and has either no readable version or one
      older than a readable release date, an unreadable recorded date counting as zero. */
  lemma AttemptsExactly(s: State, c: Check)
    ensures Attempts(s, c) <==>
            && c.autoUpdate && c.release.Some?
            && match s.version
               case Missing => true
               case Unreadable => true
               case Recorded(v) =>
                 && c.release.value.Some?
                 && c.release.value.value > if v.timestamp.Some? then v.timestamp.value else 0
  {
  }

  ghost predicate CheckStep(pre: State, post: State, c: Check) {
    if Attempts(pre, c)
    then UpdateStep(pre, post, Version(RELEASE_TAGS, c.release.value), c.dir, c.now, c.o, Committed(c.o))
    else post == pre
  }

  /** A run of checks that do not overlap, each with a backup directory of its own. */
  ghost predicate IsRun(states: seq<State>, checks: seq<Check>) {
    && |states| == |checks| + 1
    && forall i :: 0 <= i < |checks| ==>
           CheckStep(states[i], states[i + 1], checks[i]) && checks[i].dir !in states[i].backups
  }

  /** Time recorded in version.json, if any. */
  function RecordedTime(s: State): Option<int> {
    match s.version case Recorded(v) => Some(Stored(v.timestamp)) case _ => None
  }

  predicate Succeeds(s: State, c: Check) {
    Attempts(s, c) && Committed(c.o)
  }

  lemma CheckKeepsTime(pre: State, post: State, c: Check)
    requires CheckStep(pre, post, c) && c.dir !in pre.backups
    ensures post.version != pre.version ==> c.o.verified && Succeeds(pre, c)
    ensures Succeeds(pre, c) ==> post.version == Recorded(Version(Tags("v1.0.3", "v1.7.6"), c.release.value))
    ensures RecordedTime(pre).Some? ==> RecordedTime(post).Some? && RecordedTime(post).value >= RecordedTime(pre).value
    ensures RecordedTime(pre).Some? && Succeeds(pre, c) ==> RecordedTime(post).value > RecordedTime(pre).value
  {
  }

  /** Over any run the recorded time never decreases. */
  lemma {:induction false} RecordedTimeNeverFalls(states: seq<State>, checks: seq<Check>, i: nat, j: nat)
    requires IsRun(states, checks) && i <= j < |states|
    requires RecordedTime(states[i]).Some?
    ensures RecordedTime(states[j]).Some?
    ensures RecordedTime(states[j]).value >= RecordedTime(states[i]).value
    decreases j - i
  {
    if i < j {
      RecordedTimeNeverFalls(states, checks, i, j - 1);
      CheckKeepsTime(states[j - 1], states[j - 1 + 1], checks[j - 1]);
    }
  }

  /** It strictly increases across every success that starts from a recorded version. */
  lemma RecordedTimeGrows(states: seq<State>, checks: seq<Check>, i: nat, k: nat, j: nat)
    requires IsRun(states, checks) && i <= k < j < |states|
    requires RecordedTime(states[i]).Some? && Succeeds(states[k], checks[k])
    ensures RecordedTime(states[i]).Some? && RecordedTime(states[j]).Some?
    ensures RecordedTime(states[j]).value > RecordedTime(states[i]).value
  {
    RecordedTimeNeverFalls(states, checks, i, k);
    CheckKeepsTime(states[k], states[k + 1], checks[k]);
    RecordedTimeNeverFalls(states, checks, k + 1, j);
  }

  /** version.json changes only in a check that verified its update and succeeded. */
  lemma {:induction false} VersionChangesOnlyOnSuccess(states: seq<State>, checks: seq<Check>, i: nat, j: nat)
    requires IsRun(states, checks) && i <= j < |states|
    requires forall k :: i <= k < j ==> !(Succeeds(states[k], checks[k]) && checks[k].o.verified)
    ensures states[j].version == states[i].version
    decreases j - i
  {
    if i < j {
      VersionChangesOnlyOnSuccess(states, checks, i, j - 1);
      CheckKeepsTime(states[j - 1], states[j - 1 + 1], checks[j - 1]);
    }
  }

  /** However many checks ran and failed, the compose file is the original one or the original with
      both tags rewritten once. */
  lemma {:induction false} ComposeNeverDrifts(states: seq<State>, checks: seq<Check>, j: nat)
    requires IsRun(states, checks) && j < |states|
    ensures states[j].compose in {states[0].compose, UpdateDockerCompose(states[0].compose, RELEASE_TAGS)}
  {
    if j > 0 {
      ComposeNeverDrifts(states, checks, j - 1);
      assert CheckStep(states[j - 1], states[j - 1 + 1], checks[j - 1]);
      assert ValidTags(RELEASE_TAGS);
      LastUpdateWins(states[0].compose, RELEASE_TAGS, RELEASE_TAGS);
    }
  }

  // ---------- backups over runs ----------

  /** The first three entries of a listing, or all of a shorter one. */
  function Newest(listing: seq<string>): seq<string> {
    if |listing| < 3 then listing else listing[..3]
  }

  /** The clean-up of a committed update, when `ls -1t` lists the backups newest first: the three
      newest stay as they were, one that goes is at most as new as each of them, and nothing else is
      left unless a removal fails. */
  lemma CommitKeepsNewest(pre: State, post: State, latest: Version, dir: string, now: nat, o: Outcomes, name: string)
    requires UpdateStep(pre, post, latest, dir, now, o, true) && Committed(o) && o.listing.Some?
    requires NewestFirst(o.listing.value, BackupsAfterBackup(pre, dir, now, o))
    requires name in BackupsAfterBackup(pre, dir, now, o)
    ensures var before := BackupsAfterBackup(pre, dir, now, o);
            && (name in post.backups ==> post.backups[name] == before[name])
            && (name in Newest(o.listing.value) ==> name in post.backups)
            && (name !in post.backups ==> ThreeNotOlder(post.backups, before[name]))
            && (name in post.backups && o.removals + 3 >= |o.listing.value| ==> name in Newest(o.listing.value))
  {
    var listing, before := o.listing.value, BackupsAfterBackup(pre, dir, now, o);
    CleanKeepsNewest(listing, o.removals, before, name);
    if name !in post.backups {
      assert forall i :: 0 <= i < BACKUP_COUNT ==> NotOlder(before, listing[i], name);
      assert ThreeNewest(post.backups, before[name], listing[0], listing[1], listing[2]);
    }
  }

  /** Three different backups that are all at least as new as b. */
  ghost predicate ThreeNewest(backups: map<string, Backup>, b: Backup, x: string, y: string, z: string) {
    && x != y && y != z && x != z && x in backups && y in backups && z in backups
    && backups[x].modified >= b.modified && backups[y].modified >= b.modified && backups[z].modified >= b.modified
  }

  ghost predicate ThreeNotOlder(backups: map<string, Backup>, b: Backup) {
    exists x, y, z :: ThreeNewest(backups, b, x, y, z)
  }

  /** Every listing used for cleaning up is newest first. */
  ghost predicate ListedNewestFirst(states: seq<State>, checks: seq<Check>)
    requires |states| == |checks| + 1
  {
    forall i :: 0 <= i < |checks| && Succeeds(states[i], checks[i]) && checks[i].o.listing.Some? ==>
      NewestFirst(checks[i].o.listing.value, BackupsAfterBackup(states[i], checks[i].dir, checks[i].now, checks[i].o))
  }

  /** In one check a backup made earlier stays as it is, or goes while three at least as new stay. */
  lemma CheckKeepsBackup(pre: State, post: State, c: Check, name: string)
    requires CheckStep(pre, post, c) && c.dir !in pre.backups && name in pre.backups
    requires Succeeds(pre, c) && c.o.listing.Some? ==>
               NewestFirst(c.o.listing.value, BackupsAfterBackup(pre, c.dir, c.now, c.o))
    ensures name in post.backups ==> post.backups[name] == pre.backups[name]
    ensures name !in post.backups ==> Succeeds(pre, c) && ThreeNotOlder(post.backups, pre.backups[name])
  {
    if Succeeds(pre, c) && c.o.listing.Some? {
      CommitKeepsNewest(pre, post, Version(RELEASE_TAGS, c.release.value), c.dir, c.now, c.o, name);
    }
  }

  /** Check k succeeded and left three backups at least as new as b. */
  ghost predicate OutlivedAt(states: seq<State>, checks: seq<Check>, k: nat, b: Backup)
    requires |states| == |checks| + 1
  {
    k < |checks| && Succeeds(states[k], checks[k]) && ThreeNotOlder(states[k + 1].backups, b)
  }

  ghost predicate OutlivedBetween(states: seq<State>, checks: seq<Check>, i: nat, j: nat, b: Backup)
    requires |states| == |checks| + 1
  {
    exists k: nat :: i <= k < j && OutlivedAt(states, checks, k, b)
  }

  lemma StepKeepsBackup(states: seq<State>, checks: seq<Check>, k: nat, name: string)
    requires IsRun(states, checks) && ListedNewestFirst(states, checks) && k < |checks| && name in states[k].backups
    ensures name in states[k + 1].backups ==> states[k + 1].backups[name] == states[k].backups[name]
    ensures name !in states[k + 1].backups ==> OutlivedAt(states, checks, k, states[k].backups[name])
  {
    CheckKeepsBackup(states[k], states[k + 1], checks[k], name);
  }

  /** Over any run a backup never changes, and it is removed only by a check that succeeded and left
      three backups at least as new. */
  lemma {:induction false} BackupsGoOnlyWhenOld(states: seq<State>, checks: seq<Check>, i: nat, j: nat, name: string)
    requires IsRun(states, checks) && ListedNewestFirst(states, checks) && i <= j < |states|
    requires name in states[i].backups
    ensures || (name in states[j].backups && states[j].backups[name] == states[i].backups[name])
            || OutlivedBetween(states, checks, i, j, states[i].backups[name])
    decreases j - i
  {
    if i < j {
      BackupsGoOnlyWhenOld(states, checks, i, j - 1, name);
      var b := states[i].backups[name];
      if OutlivedBetween(states, checks, i, j - 1, b) {
        var k: nat :| i <= k < j - 1 && OutlivedAt(states, checks, k, b);
        assert i <= k < j;
      } else {
        StepKeepsBackup(states, checks, j - 1, name);
      }
    }
  }

  /** Each check that updates makes its backup later than every backup there is. */
  ghost predicate ClockRuns(states: seq<State>, checks: seq<Check>)
    requires |states| == |checks| + 1
  {
    forall i, name :: 0 <= i < |checks| && name in states[i].backups ==>
      states[i].backups[name].modified < checks[i].now
  }

  /** The backup a check has just made is the newest, so its own clean-up spares it. */
  lemma OwnBackupSurvives(pre: State, post: State, c: Check)
    requires CheckStep(pre, post, c) && c.dir !in pre.backups && Succeeds(pre, c)
    requires forall name :: name in pre.backups ==> pre.backups[name].modified < c.now
    requires c.o.listing.Some? ==> NewestFirst(c.o.listing.value, BackupsAfterBackup(pre, c.dir, c.now, c.o))
    ensures c.dir in post.backups && Restores(post.backups[c.dir], pre, c.o)
  {
    var before := BackupsAfterBackup(pre, c.dir, c.now, c.o);
    assert c.dir in before && before[c.dir].modified == c.now;
    if c.o.listing.Some? {
      var listing := c.o.listing.value;
      assert c.dir in listing;
      assert forall i :: 0 < i < |listing| ==> NotOlder(before, listing[0], listing[i]);
      assert listing[0] == c.dir;
      CommitKeepsNewest(pre, post, Version(RELEASE_TAGS, c.release.value), c.dir, c.now, c.o, c.dir);
    }
  }

  /** The backup holds the compose file of the state, and its version file if that was copied. */
  ghost predicate Restores(b: Backup, s: State, o: Outcomes) {
    && b.compose == Some(s.compose)
    && b.version == if o.backupVersion == Copied && s.version != Missing then Some(s.version) else None
  }

  /** Whatever fails afterwards, until the next success the backup of the state before the last
      successful update is there and would bring that state back. */
  lemma {:induction false} LastUpdateCanBeUndone(states: seq<State>, checks: seq<Check>, k: nat, j: nat)
    requires IsRun(states, checks) && ListedNewestFirst(states, checks) && ClockRuns(states, checks)
    requires k < j < |states| && Succeeds(states[k], checks[k])
    requires forall i :: k < i < j ==> !Succeeds(states[i], checks[i])
    ensures checks[k].dir in states[j].backups
    ensures Restores(states[j].backups[checks[k].dir], states[k], checks[k].o)
    decreases j
  {
    if j == k + 1 {
      assert CheckStep(states[k], states[k + 1], checks[k]);
      OwnBackupSurvives(states[k], states[k + 1], checks[k]);
    } else {
      LastUpdateCanBeUndone(states, checks, k, j - 1);
      StepKeepsBackup(states, checks, j - 1, checks[k].dir);
    }
  }
}
