/**
 The store as a cache of a directory of auth files: a scan reloads the files whose modification time
 has grown, forgets the tokens of files that do not parse, and prunes the tokens of missing files.
 */
module TokenDirectory {
  import opened Prelude
  import opened TokenPool
  import opened TokenStore

  /** What parsing an auth file gives. */
  datatype Parsed = Parsed(
    accessToken: string, userID: string, accountID: string, email: string,
    refreshToken: string, lastRefresh: Option<nat>)

  /** A directory entry; without a modification time its stat failed. */
  datatype Entry = Entry(name: string, isDir: bool, modTime: Option<nat>, parsed: Option<Parsed>)

  predicate IsJson(name: string)
  {
    |name| >= 5 && name[|name| - 5..] == ".json"
  }

  function FileAt(dir: string, name: string): Option<Path>
  {
    Some(Path(dir, name))
  }

  predicate IsAuthFile(e: Entry)
  {
    !e.isDir && IsJson(e.name)
  }

  predicate ShouldReload(p: Pool, path: Path, modTime: nat)
  {
    Some(path) !in p.fileMod || modTime > p.fileMod[Some(path)]
  }

  predicate NeedsLoad(p: Pool, dir: string, e: Entry)
  {
    IsAuthFile(e) && e.modTime.Some? && ShouldReload(p, Path(dir, e.name), e.modTime.value)
  }

  function TokenOf(dir: string, name: string, f: Parsed): Token
  {
    Token(name, Some(Path(dir, name)), f.accessToken, f.userID, f.accountID, f.email, "",
          f.refreshToken, f.lastRefresh, false, None, UNKNOWN_WINDOW, UNKNOWN_WINDOW, None)
  }

  function Load(p: Pool, dir: string, e: Entry): Pool
  {
    if !NeedsLoad(p, dir, e) then p
    else if e.parsed.Some? then Upsert(p, TokenOf(dir, e.name, e.parsed.value), e.modTime.value)
    else Forget(p, dir, e.name, e.modTime.value)
  }

  /** A file that does not parse: its token goes, its time stays. */
  function Forget(p: Pool, dir: string, name: string, modTime: nat): Pool
  {
    var q := RemoveToken(p, name);
    q.(fileMod := q.fileMod[Some(Path(dir, name)) := modTime])
  }

  function LoadAll(p: Pool, dir: string, entries: seq<Entry>): Pool
  {
    if entries == [] then p
    else Load(LoadAll(p, dir, entries[..|entries| - 1]), dir, entries[|entries| - 1])
  }

  function Existing(dir: string, entries: seq<Entry>): set<Path>
  {
    set e | e in entries && IsAuthFile(e) :: Path(dir, e.name)
  }

  function Scanned(p: Pool, dir: string, entries: seq<Entry>): Pool
  {
    PruneMissingTokens(LoadAll(p, dir, entries), dir, Existing(dir, entries))
  }

  predicate DistinctNames(entries: seq<Entry>)
  {
    forall i, j :: 0 <= i < j < |entries| ==> entries[i].name != entries[j].name
  }

  /** The store's one directory: each token's path is its ID there. */
  ghost predicate InDirectory(p: Pool, dir: string)
  {
    forall id :: id in p.tokens ==> p.tokens[id].id == id && p.tokens[id].path == Some(Path(dir, id))
  }

  /** The store has the token exactly when the file parses, with its credentials. */
  predicate Reflects(p: Pool, name: string, parsed: Option<Parsed>)
  {
    && (name in p.tokens <==> parsed.Some?)
    && (name in p.tokens ==>
          && p.tokens[name].accessToken == parsed.value.accessToken
          && p.tokens[name].refreshToken == parsed.value.refreshToken)
  }

  // ---------------------------------------------------------------- one entry never touches another

  /** The same token and the same remembered time for a file. */
  predicate AgreeAt(p: Pool, q: Pool, dir: string, name: string)
  {
    && (name in p.tokens <==> name in q.tokens)
    && (name in p.tokens ==> p.tokens[name] == q.tokens[name])
    && (FileAt(dir, name) in p.fileMod <==> FileAt(dir, name) in q.fileMod)
    && (FileAt(dir, name) in p.fileMod ==> p.fileMod[FileAt(dir, name)] == q.fileMod[FileAt(dir, name)])
  }

  lemma LoadIsLocal(p: Pool, dir: string, e: Entry, name: string)
    requires InDirectory(p, dir) && name != e.name
    ensures InDirectory(Load(p, dir, e), dir)
    ensures AgreeAt(p, Load(p, dir, e), dir, name)
  {
  }

  lemma {:induction false} LoadAllIsLocal(p: Pool, dir: string, entries: seq<Entry>, name: string)
    requires InDirectory(p, dir) && forall e <- entries :: e.name != name
    ensures InDirectory(LoadAll(p, dir, entries), dir)
    ensures AgreeAt(p, LoadAll(p, dir, entries), dir, name)
  {
    if entries != [] {
      var n := |entries| - 1;
      LoadAllIsLocal(p, dir, entries[..n], name);
      LoadIsLocal(LoadAll(p, dir, entries[..n]), dir, entries[n], name);
    }
  }

  // ---------------------------------------------------------------- the scan

  /** One turn of the directory loop for an auth file. */
  method LoadFile(store: Store, dir: string, entry: Entry) returns (added: bool, updated: bool)
    requires store.Valid() && IsAuthFile(entry)
    modifies store
    ensures store.Valid() && store.Abs() == Load(old(store.Abs()), dir, entry)
    ensures added || updated <==> entry.parsed.Some? && NeedsLoad(old(store.Abs()), dir, entry)
  {
    var path := Path(dir, entry.name);
    if entry.modTime == None || !store.ShouldReload(path, entry.modTime.value) {
      return false, false;
    }
    if entry.parsed == None {
      var _ := store.RemoveToken(entry.name);
      store.NoteFileMod(path, entry.modTime.value);
      return false, false;
    }
    added, updated := store.UpsertToken(TokenOf(dir, entry.name, entry.parsed.value), entry.modTime.value);
  }

  /** The directory loop. An unreadable directory changes nothing. */
  method LoadTokensFromDirChanged(store: Store, dir: string, listing: Option<seq<Entry>>) returns (r: Option<bool>)
    requires store.Valid()
    modifies store
    ensures store.Valid()
    ensures r.Some? <==> listing.Some?
    ensures listing == None ==> store.Abs() == old(store.Abs())
    ensures listing.Some? ==> store.Abs() == Scanned(old(store.Abs()), dir, listing.value)
    ensures listing.Some? ==> (r.value <==> Loads(old(store.Abs()), dir, listing.value))
  {
    if listing == None {
      return None;
    }
    var entries := listing.value;
    var existing: set<Path> := {};
    var added, updated := 0, 0;
    ghost var p := store.Abs();
    for i := 0 to |entries|
      invariant store.Valid() && store.Abs() == LoadAll(p, dir, entries[..i])
      invariant existing == Existing(dir, entries[..i])
      invariant added >= 0 && updated >= 0
      invariant added + updated > 0 <==> Loads(p, dir, entries[..i])
    {
      var entry := entries[i];
      OneMoreEntry(p, dir, entries, i);
      if entry.isDir || !IsJson(entry.name) {
        continue;
      }
      existing := existing + {Path(dir, entry.name)};
      var add, update := LoadFile(store, dir, entry);
      if add {
        added := added + 1;
      } else if update {
        updated := updated + 1;
      }
    }
    assert entries[..|entries|] == entries;
    var _ := store.PruneMissingTokens(dir, existing);
    r := Some(added > 0 || updated > 0);
  }

  /** Some file was read anew and parsed. */
  predicate Loads(p: Pool, dir: string, entries: seq<Entry>)
  {
    entries != [] &&
    var n := |entries| - 1;
    || Loads(p, dir, entries[..n])
    || (entries[n].parsed.Some? && NeedsLoad(LoadAll(p, dir, entries[..n]), dir, entries[n]))
  }

  lemma OneMoreEntry(p: Pool, dir: string, entries: seq<Entry>, i: nat)
    requires i < |entries|
    ensures LoadAll(p, dir, entries[..i + 1]) == Load(LoadAll(p, dir, entries[..i]), dir, entries[i])
    ensures Loads(p, dir, entries[..i + 1]) <==>
              || Loads(p, dir, entries[..i])
              || (entries[i].parsed.Some? && NeedsLoad(LoadAll(p, dir, entries[..i]), dir, entries[i]))
    ensures Existing(dir, entries[..i + 1]) ==
              Existing(dir, entries[..i]) + if IsAuthFile(entries[i]) then {Path(dir, entries[i].name)} else {}
  {
    var more := entries[..i + 1];
    assert more[..|more| - 1] == entries[..i] && more[|more| - 1] == entries[i];
    assert more == entries[..i] + [entries[i]];
  }

  /** The scan reports a change exactly when some file whose time has grown parses. */
  lemma {:induction false} ChangedMeansReloaded(p: Pool, dir: string, entries: seq<Entry>)
    requires InDirectory(p, dir) && DistinctNames(entries)
    ensures Loads(p, dir, entries) <==> exists e :: e in entries && e.parsed.Some? && NeedsLoad(p, dir, e)
  {
    if entries != [] {
      var n := |entries| - 1;
      var last := entries[n];
      assert entries == entries[..n] + [last];
      ChangedMeansReloaded(p, dir, entries[..n]);
      LoadAllIsLocal(p, dir, entries[..n], last.name);
      if Loads(p, dir, entries) && !Loads(p, dir, entries[..n]) {
        assert last in entries;
      }
    }
  }

  // ---------------------------------------------------------------- what one scan achieves

  lemma LoadIsExact(p: Pool, dir: string, e: Entry)
    requires InDirectory(p, dir) && IsAuthFile(e) && e.modTime.Some?
    ensures Reflects(Load(p, dir, e), e.name, e.parsed) <==> NeedsLoad(p, dir, e) || Reflects(p, e.name, e.parsed)
  {
  }

  lemma UpsertAt(p: Pool, dir: string, token: Token, modTime: nat)
    requires token.path == Some(Path(dir, token.id))
    ensures var q := Upsert(p, token, modTime);
            && token.id in q.tokens && FileAt(dir, token.id) in q.fileMod && q.fileMod[FileAt(dir, token.id)] == modTime
            && q.tokens[token.id] == if token.id in p.tokens then Overwrite(p.tokens[token.id], token) else token
  {
  }

  lemma ForgetAt(p: Pool, dir: string, name: string, modTime: nat)
    ensures var q := Forget(p, dir, name, modTime);
            name !in q.tokens && FileAt(dir, name) in q.fileMod && q.fileMod[FileAt(dir, name)] == modTime
  {
  }

  lemma LoadDependsOn(p: Pool, q: Pool, dir: string, e: Entry)
    requires AgreeAt(p, q, dir, e.name)
    ensures AgreeAt(Load(q, dir, e), Load(p, dir, e), dir, e.name)
  {
    if NeedsLoad(p, dir, e) {
      if e.parsed.Some? {
        UpsertAt(p, dir, TokenOf(dir, e.name, e.parsed.value), e.modTime.value);
        UpsertAt(q, dir, TokenOf(dir, e.name, e.parsed.value), e.modTime.value);
      } else {
        ForgetAt(p, dir, e.name, e.modTime.value);
        ForgetAt(q, dir, e.name, e.modTime.value);
      }
    }
  }

  lemma LoadStaysInDirectory(p: Pool, dir: string, e: Entry)
    requires InDirectory(p, dir)
    ensures InDirectory(Load(p, dir, e), dir)
  {
  }

  /** What loading leaves for one entry depends on that entry alone. */
  lemma {:induction false} LoadAllAt(p: Pool, dir: string, entries: seq<Entry>, e: Entry)
    requires InDirectory(p, dir) && DistinctNames(entries) && e in entries
    ensures InDirectory(LoadAll(p, dir, entries), dir)
    ensures AgreeAt(LoadAll(p, dir, entries), Load(p, dir, e), dir, e.name)
  {
    var n := |entries| - 1;
    var last := entries[n];
    assert entries == entries[..n] + [last];
    if e == last {
      LoadAllIsLocal(p, dir, entries[..n], e.name);
      LoadDependsOn(p, LoadAll(p, dir, entries[..n]), dir, e);
      LoadStaysInDirectory(LoadAll(p, dir, entries[..n]), dir, e);
    } else {
      LoadAllAt(p, dir, entries[..n], e);
      LoadIsLocal(LoadAll(p, dir, entries[..n]), dir, last, e.name);
    }
  }

  /** Pruning keeps the tokens of listed files, and every remembered time but those of pruned tokens. */
  lemma PruneAt(p: Pool, dir: string, existing: set<Path>, name: string)
    requires InDirectory(p, dir)
    ensures var q, path := PruneMissingTokens(p, dir, existing), Path(dir, name);
            && InDirectory(q, dir)
            && (name in q.tokens <==> name in p.tokens && path in existing)
            && (name in q.tokens ==> q.tokens[name] == p.tokens[name])
            && (Some(path) in q.fileMod <==> Some(path) in p.fileMod && (name !in p.tokens || path in existing))
            && (Some(path) in q.fileMod ==> q.fileMod[Some(path)] == p.fileMod[Some(path)])
  {
    if name in p.tokens && Path(dir, name) !in existing {
      assert name in Missing(p, dir, existing);
    }
  }

  /**
   A scan leaves the store in agreement with a file exactly when the file's time has grown since the
   store last looked, or the store agreed with it before.
   */
  lemma ScanIsExact(p: Pool, dir: string, entries: seq<Entry>, e: Entry)
    requires InDirectory(p, dir) && DistinctNames(entries)
    requires e in entries && IsAuthFile(e) && e.modTime.Some?
    ensures Reflects(Scanned(p, dir, entries), e.name, e.parsed) <==>
              NeedsLoad(p, dir, e) || Reflects(p, e.name, e.parsed)
  {
    LoadAllAt(p, dir, entries, e);
    LoadIsExact(p, dir, e);
    PruneAt(LoadAll(p, dir, entries), dir, Existing(dir, entries), e.name);
  }

  lemma JsonNames(name: string)
    ensures IsJson(name) <==> exists stem: string :: name == stem + ".json"
  {
    if IsJson(name) {
      assert name == name[..|name| - 5] + ".json";
    }
    forall stem: string | name == stem + ".json"
      ensures IsJson(name)
    {
      assert name[|name| - 5..] == ".json";
    }
  }

  /** A token as it stands in a freshly parsed file of that name. */
  predicate IsTokenOf(t: Token, dir: string, name: string, f: Parsed)
  {
    && t.id == name && t.path == Some(Path(dir, name)) && t.accessToken == f.accessToken
    && t.userID == f.userID && t.accountID == f.accountID && t.email == f.email && t.planType == ""
    && t.refreshToken == f.refreshToken && t.lastRefresh == f.lastRefresh
    && !t.invalid && t.cooldownUntil == None && !t.fiveHour.known && !t.weekly.known && t.lastSync == None
  }

  /** The time of the file is known to the store, and the file has not become younger. */
  predicate Seen(p: Pool, dir: string, name: string, modTime: nat)
  {
    Some(Path(dir, name)) in p.fileMod && modTime <= p.fileMod[Some(Path(dir, name))]
  }

  lemma LoadTouches(p: Pool, dir: string, e: Entry)
    requires InDirectory(p, dir) && IsAuthFile(e)
    ensures var q, was := Load(p, dir, e), FileAt(dir, e.name);
            if e.modTime == None || Seen(p, dir, e.name, e.modTime.value) then q == p
            else
              && was in q.fileMod && q.fileMod[was] == e.modTime.value
              && (e.name in q.tokens <==> e.parsed.Some?)
              && (e.parsed.Some? && e.name !in p.tokens ==> IsTokenOf(q.tokens[e.name], dir, e.name, e.parsed.value))
              && (e.parsed.Some? && e.name in p.tokens ==>
                    Reloaded(p.tokens[e.name], TokenOf(dir, e.name, e.parsed.value), q.tokens[e.name]))
  {
    if e.parsed.Some? && e.name in p.tokens {
      OverwriteReloads(p.tokens[e.name], TokenOf(dir, e.name, e.parsed.value));
    }
  }

  /**
   What a scan does for one listed auth file, by its name and its times: a file whose time the store has seen, or
   that cannot be examined, is left alone with its token; any other is read, and its token is the one in it, with
   the marks gone and the quota windows kept, or gone if it does not parse.
   */
  lemma ScanTouches(p: Pool, dir: string, entries: seq<Entry>, e: Entry)
    requires InDirectory(p, dir) && DistinctNames(entries) && e in entries
    requires !e.isDir && exists stem: string :: e.name == stem + ".json"
    ensures var q, was := Scanned(p, dir, entries), FileAt(dir, e.name);
            if e.modTime == None || Seen(p, dir, e.name, e.modTime.value) then AgreeAt(p, q, dir, e.name)
            else
              && was in q.fileMod && q.fileMod[was] == e.modTime.value
              && (e.name in q.tokens <==> e.parsed.Some?)
              && (e.parsed.Some? && e.name !in p.tokens ==> IsTokenOf(q.tokens[e.name], dir, e.name, e.parsed.value))
              && (e.parsed.Some? && e.name in p.tokens ==>
                    Reloaded(p.tokens[e.name], TokenOf(dir, e.name, e.parsed.value), q.tokens[e.name]))
  {
    JsonNames(e.name);
    LoadTouches(p, dir, e);
    LoadAllAt(p, dir, entries, e);
    PruneAt(LoadAll(p, dir, entries), dir, Existing(dir, entries), e.name);
    assert Path(dir, e.name) in Existing(dir, entries);
  }

  /** A name that is no listed file ending in .json has no token after a scan. */
  lemma ScanIgnores(p: Pool, dir: string, entries: seq<Entry>, id: string)
    requires InDirectory(p, dir) && DistinctNames(entries)
    requires forall e <- entries :: e.name == id ==> e.isDir || !exists stem: string :: id == stem + ".json"
    ensures id !in Scanned(p, dir, entries).tokens
  {
    JsonNames(id);
    if id in Scanned(p, dir, entries).tokens {
      ScanPrunes(p, dir, entries, id);
    }
  }

  /** After a scan no token is left without an auth file. */
  lemma ScanPrunes(p: Pool, dir: string, entries: seq<Entry>, id: string)
    requires InDirectory(p, dir) && DistinctNames(entries) && id in Scanned(p, dir, entries).tokens
    ensures exists e :: e in entries && IsAuthFile(e) && e.name == id
  {
    StaysInDirectory(p, dir, entries);
    PruneAt(LoadAll(p, dir, entries), dir, Existing(dir, entries), id);
    assert Path(dir, id) in Existing(dir, entries);
  }

  lemma {:induction false} StaysInDirectory(p: Pool, dir: string, entries: seq<Entry>)
    requires InDirectory(p, dir)
    ensures InDirectory(LoadAll(p, dir, entries), dir) && InDirectory(Scanned(p, dir, entries), dir)
  {
    if entries != [] {
      StaysInDirectory(p, dir, entries[..|entries| - 1]);
    }
  }

  /**
   Why times must grow: a file that does not parse is remembered even after it is gone, so a good file
   that appears under its name is loaded exactly when its time is later.
   */
  lemma BadFileIsRemembered(p: Pool, dir: string, bad: Entry, first: seq<Entry>, second: seq<Entry>,
                            good: Entry, third: seq<Entry>)
    requires InDirectory(p, dir) && DistinctNames(first) && DistinctNames(second) && DistinctNames(third)
    requires bad in first && NeedsLoad(p, dir, bad) && bad.parsed == None
    requires forall e <- second :: e.name != bad.name
    requires good in third && IsAuthFile(good) && good.name == bad.name && good.parsed.Some? && good.modTime.Some?
    ensures var after := Scanned(Scanned(Scanned(p, dir, first), dir, second), dir, third);
            && (Reflects(after, good.name, good.parsed) <==> good.modTime.value > bad.modTime.value)
            && (good.name in after.tokens <==> good.modTime.value > bad.modTime.value)
  {
    var name := bad.name;
    var q := Scanned(p, dir, first);
    LoadAllAt(p, dir, first, bad);
    PruneAt(LoadAll(p, dir, first), dir, Existing(dir, first), name);
    var r := Scanned(q, dir, second);
    StaysInDirectory(p, dir, first);
    LoadAllIsLocal(q, dir, second, name);
    PruneAt(LoadAll(q, dir, second), dir, Existing(dir, second), name);
    assert name !in r.tokens && r.fileMod[FileAt(dir, name)] == bad.modTime.value;
    StaysInDirectory(q, dir, second);
    ScanIsExact(r, dir, third, good);
    LoadAllAt(r, dir, third, good);
    PruneAt(LoadAll(r, dir, third), dir, Existing(dir, third), name);
  }

  /**
   Why no one else may write during a refresh: credentials stored after a scan has read another file
   hide that file until its time grows again.
   */
  lemma LateRefreshHidesFile(p: Pool, dir: string, entries: seq<Entry>, e: Entry,
                             access: string, refresh: string, now: nat)
    requires InDirectory(p, dir) && DistinctNames(entries) && e in entries && IsAuthFile(e) && e.modTime.Some?
    requires e.parsed.Some? && Reflects(p, e.name, e.parsed) && !NeedsLoad(p, dir, e)
    ensures Reflects(Scanned(UpdateCredentials(p, e.name, access, refresh, now), dir, entries), e.name, e.parsed) <==>
              access == e.parsed.value.accessToken && refresh == e.parsed.value.refreshToken
  {
    ScanIsExact(UpdateCredentials(p, e.name, access, refresh, now), dir, entries, e);
  }

  // ---------------------------------------------------------------- every history of the directory

  datatype File = File(isDir: bool, modTime: nat, parsed: Option<Parsed>)

  /** The store, the directory, the latest time each name ever had, and refreshes between file and store. */
  datatype World = World(
    pool: Pool, files: map<string, File>, latest: map<string, nat>, refreshing: map<string, Parsed>)

  datatype Event =
    | FileWritten(name: string, file: File)
    | FileDeleted(name: string)
    | DirectoryScanned(entries: seq<Entry>)
    | RefreshWrote(name: string, modTime: nat, parsed: Parsed)
    | RefreshStored(name: string, now: nat)
    | StoreStep(step: TokenPool.Event)

  /** The entries are the files, in any order; any stat may fail. */
  ghost predicate Lists(entries: seq<Entry>, files: map<string, File>)
  {
    && DistinctNames(entries)
    && (forall e <- entries ::
          && e.name in files && e.isDir == files[e.name].isDir && e.parsed == files[e.name].parsed
          && (e.modTime.Some? ==> e.modTime.value == files[e.name].modTime))
    && (forall name :: name in files ==> exists e :: e in entries && e.name == name)
  }

  /** Steps that leave credentials and remembered times alone, and the removal of a token. */
  predicate KeepsCredentials(step: TokenPool.Event)
  {
    !step.Upserted? && !step.CredentialsSet? && !step.Pruned?
  }

  predicate Later(w: World, name: string, modTime: nat)
  {
    name in w.latest ==> modTime > w.latest[name]
  }

  /** What can happen when each change at a path gets a later time, and no one else writes during a refresh. */
  ghost predicate Orderly(w: World, e: Event)
  {
    match e
    case FileWritten(name, file) => Later(w, name, file.modTime) && name !in w.refreshing
    case FileDeleted(name) => true
    case DirectoryScanned(entries) => Lists(entries, w.files)
    case RefreshWrote(name, modTime, _) =>
      Later(w, name, modTime) && name !in w.refreshing && name in w.files && !w.files[name].isDir
    case RefreshStored(name, _) => name in w.refreshing
    case StoreStep(step) => KeepsCredentials(step)
  }

  function Write(w: World, name: string, file: File): World
  {
    w.(files := w.files[name := file], latest := w.latest[name := file.modTime])
  }

  function Happens(w: World, dir: string, e: Event): World
  {
    match e
    case FileWritten(name, file) => Write(w, name, file)
    case FileDeleted(name) => w.(files := w.files - {name})
    case DirectoryScanned(entries) => w.(pool := Scanned(w.pool, dir, entries))
    case RefreshWrote(name, modTime, parsed) =>
      Write(w, name, File(false, modTime, Some(parsed))).(refreshing := w.refreshing[name := parsed])
    case RefreshStored(name, now) =>
      if name in w.refreshing then
        var parsed := w.refreshing[name];
        w.(pool := UpdateCredentials(w.pool, name, parsed.accessToken, parsed.refreshToken, now),
           refreshing := w.refreshing - {name})
      else w
    case StoreStep(step) => w.(pool := Effect(w.pool, step))
  }

  ghost predicate History(w: World, dir: string, events: seq<Event>)
    decreases events
  {
    events == [] || (Orderly(w, events[0]) && History(Happens(w, dir, events[0]), dir, events[1..]))
  }

  function After(w: World, dir: string, events: seq<Event>): World
    decreases events
  {
    if events == [] then w else After(Happens(w, dir, events[0]), dir, events[1..])
  }

  /** The store knows a file's present content, or a scan will read the file. */
  predicate UpToDate(w: World, dir: string, name: string)
    requires name in w.files
  {
    var f, path := w.files[name], FileAt(dir, name);
    f.isDir || path !in w.pool.fileMod || w.pool.fileMod[path] < f.modTime || Reflects(w.pool, name, f.parsed)
  }

  predicate NameInv(w: World, dir: string, name: string)
  {
    && (name in w.files ==>
          && name in w.latest && w.files[name].modTime <= w.latest[name] && UpToDate(w, dir, name)
          && (name in w.refreshing ==> !w.files[name].isDir && w.files[name].parsed == Some(w.refreshing[name])))
    && (FileAt(dir, name) in w.pool.fileMod ==> name in w.latest && w.pool.fileMod[FileAt(dir, name)] <= w.latest[name])
  }

  ghost predicate Inv(w: World, dir: string)
  {
    InDirectory(w.pool, dir) && forall name :: NameInv(w, dir, name)
  }

  lemma StepKeepsInv(w: World, dir: string, e: Event)
    requires Inv(w, dir) && Orderly(w, e)
    ensures Inv(Happens(w, dir, e), dir)
  {
    match e {
      case FileWritten(name, file) => WriteKeepsInv(w, dir, name, file);
      case FileDeleted(name) => DeleteKeepsInv(w, dir, name);
      case DirectoryScanned(entries) => ScanKeepsInv(w, dir, entries);
      case RefreshWrote(name, modTime, parsed) =>
        var file := File(false, modTime, Some(parsed));
        WriteKeepsInv(w, dir, name, file);
        RefreshBegins(Write(w, name, file), dir, name, parsed);
      case RefreshStored(name, now) => RefreshKeepsInv(w, dir, name, now);
      case StoreStep(step) => StoreStepKeepsInv(w, dir, step);
    }
  }

  lemma WriteKeepsInv(w: World, dir: string, name: string, file: File)
    requires Inv(w, dir) && Later(w, name, file.modTime) && name !in w.refreshing
    ensures Inv(Write(w, name, file), dir)
  {
    forall other
      ensures NameInv(Write(w, name, file), dir, other)
    {
      assert NameInv(w, dir, other);
    }
  }

  lemma RefreshBegins(w: World, dir: string, name: string, parsed: Parsed)
    requires Inv(w, dir) && name in w.files && !w.files[name].isDir && w.files[name].parsed == Some(parsed)
    ensures Inv(w.(refreshing := w.refreshing[name := parsed]), dir)
  {
    var v := w.(refreshing := w.refreshing[name := parsed]);
    forall other
      ensures NameInv(v, dir, other)
    {
      assert NameInv(w, dir, other);
    }
  }

  lemma DeleteKeepsInv(w: World, dir: string, name: string)
    requires Inv(w, dir)
    ensures Inv(w.(files := w.files - {name}), dir)
  {
    forall other
      ensures NameInv(w.(files := w.files - {name}), dir, other)
    {
      assert NameInv(w, dir, other);
    }
  }

  lemma RefreshKeepsInv(w: World, dir: string, name: string, now: nat)
    requires Inv(w, dir) && name in w.refreshing
    ensures Inv(Happens(w, dir, RefreshStored(name, now)), dir)
  {
    forall other
      ensures NameInv(Happens(w, dir, RefreshStored(name, now)), dir, other)
    {
      assert NameInv(w, dir, other);
    }
  }

  lemma StoreStepAt(p: Pool, dir: string, step: TokenPool.Event, name: string, parsed: Option<Parsed>)
    requires InDirectory(p, dir) && KeepsCredentials(step)
    ensures InDirectory(Effect(p, step), dir)
    ensures FileAt(dir, name) in Effect(p, step).fileMod ==>
              && FileAt(dir, name) in p.fileMod
              && Effect(p, step).fileMod[FileAt(dir, name)] == p.fileMod[FileAt(dir, name)]
              && (Reflects(p, name, parsed) ==> Reflects(Effect(p, step), name, parsed) || step == Removed(name))
    ensures step == Removed(name) && name in p.tokens ==> FileAt(dir, name) !in Effect(p, step).fileMod
    ensures step == Removed(name) && name !in p.tokens ==> Effect(p, step) == p
  {
  }

  lemma StoreStepKeepsInv(w: World, dir: string, step: TokenPool.Event)
    requires Inv(w, dir) && KeepsCredentials(step)
    ensures Inv(w.(pool := Effect(w.pool, step)), dir)
  {
    forall name
      ensures NameInv(w.(pool := Effect(w.pool, step)), dir, name)
    {
      assert NameInv(w, dir, name);
      StoreStepAt(w.pool, dir, step, name, if name in w.files then w.files[name].parsed else None);
    }
    StoreStepAt(w.pool, dir, step, "", None);
  }

  lemma ScanKeepsInv(w: World, dir: string, entries: seq<Entry>)
    requires Inv(w, dir) && Lists(entries, w.files)
    ensures Inv(Happens(w, dir, DirectoryScanned(entries)), dir)
  {
    StaysInDirectory(w.pool, dir, entries);
    forall name
      ensures NameInv(Happens(w, dir, DirectoryScanned(entries)), dir, name)
    {
      assert NameInv(w, dir, name);
      if name in w.files {
        var e :| e in entries && e.name == name;
        ListedNameInv(w, dir, entries, e);
      } else {
        LoadAllIsLocal(w.pool, dir, entries, name);
        PruneAt(LoadAll(w.pool, dir, entries), dir, Existing(dir, entries), name);
      }
    }
  }

  lemma ListedNameInv(w: World, dir: string, entries: seq<Entry>, e: Entry)
    requires Inv(w, dir) && Lists(entries, w.files) && e in entries
    ensures NameInv(Happens(w, dir, DirectoryScanned(entries)), dir, e.name)
  {
    assert NameInv(w, dir, e.name);
    LoadAllAt(w.pool, dir, entries, e);
    PruneAt(LoadAll(w.pool, dir, entries), dir, Existing(dir, entries), e.name);
    if IsAuthFile(e) && e.modTime.Some? {
      ScanIsExact(w.pool, dir, entries, e);
    }
  }

  lemma {:induction false} HistoryKeepsInv(w: World, dir: string, events: seq<Event>)
    requires Inv(w, dir) && History(w, dir, events)
    ensures Inv(After(w, dir, events), dir)
    decreases events
  {
    if events != [] {
      StepKeepsInv(w, dir, events[0]);
      HistoryKeepsInv(Happens(w, dir, events[0]), dir, events[1..]);
    }
  }

  /** An empty store beside any directory. */
  ghost predicate InitialWorld(w: World)
  {
    && w.pool == EMPTY_POOL && w.refreshing == map[]
    && forall name :: name in w.files ==> name in w.latest && w.files[name].modTime <= w.latest[name]
  }

  /**
   Whatever happened before, after a scan every auth file that could be examined has its token in the
   store exactly when it parses, with the file's credentials; and no other token is in the store.
   */
  lemma StoreMirrorsDirectory(w: World, dir: string, events: seq<Event>, entries: seq<Entry>)
    requires InitialWorld(w) && History(w, dir, events) && Lists(entries, After(w, dir, events).files)
    ensures var v := Happens(After(w, dir, events), dir, DirectoryScanned(entries));
            && (forall e <- entries :: IsAuthFile(e) && e.modTime.Some? ==>
                  Reflects(v.pool, e.name, v.files[e.name].parsed))
            && (forall id :: id in v.pool.tokens ==> id in v.files && !v.files[id].isDir && IsJson(id))
  {
    assert Inv(w, dir);
    HistoryKeepsInv(w, dir, events);
    var u := After(w, dir, events);
    var v := Happens(u, dir, DirectoryScanned(entries));
    forall e | e in entries && IsAuthFile(e) && e.modTime.Some?
      ensures Reflects(v.pool, e.name, v.files[e.name].parsed)
    {
      assert NameInv(u, dir, e.name);
      ScanIsExact(u.pool, dir, entries, e);
    }
    forall id | id in v.pool.tokens
      ensures id in v.files && !v.files[id].isDir && IsJson(id)
    {
      ScanPrunes(u.pool, dir, entries, id);
    }
  }
}
