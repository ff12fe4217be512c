/**
 * The user and channel directories: the service lists `{id, name}` entries and
 * the tool folds them into an id -> name map, later entries overwriting earlier
 * ones with the same id.
 */
module Directory {
  import opened Wrappers

  /** One `{id, name}` entry of a `users.list` or `channels.list` response. */
  datatype DirEntry = DirEntry(id: string, name: string)

  type Dir = map<string, string>

  /** What a missing id reads as: the JavaScript lookup gives `undefined`, which prints as this string. */
  const Missing: string := "undefined"

  /** The name carried by the LAST entry with this id, if any: the reference the map is checked against. */
  function LastName(entries: seq<DirEntry>, id: string): Option<string>
  {
    if entries == [] then None
    else if entries[|entries| - 1].id == id then Some(entries[|entries| - 1].name)
    else LastName(entries[..|entries| - 1], id)
  }

  /** The ids that occur in the entry list. */
  function Ids(entries: seq<DirEntry>): set<string>
  {
    set k | 0 <= k < |entries| :: entries[k].id
  }

  /** The directory the entries describe: every listed id, with the name of its last entry. */
  function DirectoryOf(entries: seq<DirEntry>): Dir
  {
    map id | id in Ids(entries) :: match LastName(entries, id) case Some(name) => name case None => Missing
  }

  /** The raw lookup `dir[id]`: the name, or nothing (`undefined`) for a missing id. */
  function Get(dir: Dir, id: string): Option<string>
  {
    if id in dir then Some(dir[id]) else None
  }

  /** The lookup as interpolated into a template string: a missing id renders as `Missing`. */
  function Lookup(dir: Dir, id: string): string
  {
    match Get(dir, id)
    case Some(n) => n
    case None => Missing
  }

  /**
   * The `.then` handler of getUsers/getChannels: start from an empty object and
   * assign `res[entry.id] = entry.name` for every entry, in list order.
   */
  method BuildDirectory(entries: seq<DirEntry>) returns (res: Dir)
    ensures res.Keys == Ids(entries)
    ensures forall id :: id in res <==> LastName(entries, id).Some?
    ensures forall id :: id in res ==> res[id] == LastName(entries, id).value
    ensures res == DirectoryOf(entries)
  {
    res := map[];
    var i := 0;
    while i < |entries|
      invariant 0 <= i <= |entries|
      invariant res.Keys == Ids(entries[..i])
      invariant forall id :: id in res <==> LastName(entries[..i], id).Some?
      invariant forall id :: id in res ==> res[id] == LastName(entries[..i], id).value
    {
      assert entries[..i + 1][..i] == entries[..i];
      IdsSnoc(entries[..i], entries[i]);
      assert entries[..i] + [entries[i]] == entries[..i + 1];
      res := res[entries[i].id := entries[i].name];
      i := i + 1;
    }
    assert entries[..i] == entries;
  }

  lemma IdsSnoc(entries: seq<DirEntry>, e: DirEntry)
    ensures Ids(entries + [e]) == Ids(entries) + {e.id}
  {
    var s := entries + [e];
    forall x | x in Ids(s) ensures x in Ids(entries) + {e.id} {
      var k :| 0 <= k < |s| && s[k].id == x;
      if k < |entries| { assert entries[k] == s[k]; }
    }
    forall x | x in Ids(entries) + {e.id} ensures x in Ids(s) {
      if x == e.id { assert s[|entries|].id == x; }
      else { var k :| 0 <= k < |entries| && entries[k].id == x; assert s[k].id == x; }
    }
  }

  /** If entry k carries the id and no later entry does, the map holds entry k's name. */
  lemma {:induction false} LastEntryWins(entries: seq<DirEntry>, id: string, k: nat)
    requires k < |entries| && entries[k].id == id
    requires forall j | k < j < |entries| :: entries[j].id != id
    ensures LastName(entries, id) == Some(entries[k].name)
    decreases |entries|
  {
    if k < |entries| - 1 {
      var init := entries[..|entries| - 1];
      assert init[k] == entries[k];
      LastEntryWins(init, id, k);
    }
  }

  /** An id is absent from the map exactly when no entry carries it. */
  lemma {:induction false} AbsentIffNoEntry(entries: seq<DirEntry>, id: string)
    ensures LastName(entries, id).None? <==> forall j | 0 <= j < |entries| :: entries[j].id != id
    decreases |entries|
  {
    if entries != [] {
      var init := entries[..|entries| - 1];
      AbsentIffNoEntry(init, id);
      assert forall j | 0 <= j < |init| :: init[j] == entries[j];
    }
  }

  /** Looking an id up in a built directory gives the name of its last entry, or nothing when no entry carries it. */
  lemma BuiltLookups(entries: seq<DirEntry>, id: string)
    ensures Get(DirectoryOf(entries), id) == LastName(entries, id)
    ensures Lookup(DirectoryOf(entries), id) == match LastName(entries, id) case Some(n) => n case None => Missing
  {
    AbsentIffNoEntry(entries, id);
    if id in Ids(entries) {
      var k :| 0 <= k < |entries| && entries[k].id == id;
    }
  }
}
