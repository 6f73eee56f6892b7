/**
  The download progress store: file name to bytes already written locally,
  kept in memory and flushed whole to a JSON file on every change.
 */
module Progress {

  /** What the progress file on disk holds. */
  datatype Disk =
    | Missing                          // no file yet
    | NotJson                          // text that JSON parsing rejects
    | Saved(entries: map<string, nat>) // the last map written

  /** The in-memory map and the file behind it. */
  datatype Store = Store(entries: map<string, nat>, disk: Disk)

  /** Every write dumps the whole in-memory map. */
  predicate Synced(s: Store) {
    s.disk == Saved(s.entries)
  }

  /** `load_progress`: a missing file, or one JSON parsing rejects, gives the empty map. */
  function Load(disk: Disk): (s: Store)
    ensures s.disk == disk
    ensures disk.Saved? ==> Synced(s)
    ensures !disk.Saved? ==> s.entries == map[]
  {
    match disk
    case Saved(m) => Store(m, disk)
    case _ => Store(map[], disk)
  }

  /**
    `get_progress`: the stored offset, or 0 without an entry. The map is read from
    memory; while it is synced that is what the file on disk records.
   */
  function Get(s: Store, name: string): (offset: nat)
    ensures offset > 0 ==> name in s.entries
    ensures Synced(s) ==> offset == (if name in s.disk.entries then s.disk.entries[name] else 0)
  {
    if name in s.entries then s.entries[name] else 0
  }

  /** `save_progress`: upsert, then flush the whole map. */
  function Save(s: Store, name: string, offset: nat): (t: Store)
    ensures Synced(t)
    ensures t.entries.Keys == s.entries.Keys + {name}
  {
    var m := s.entries[name := offset];
    Store(m, Saved(m))
  }

  /** `remove_progress`: delete and flush; an absent name writes nothing. */
  function Remove(s: Store, name: string): (t: Store)
    ensures name !in t.entries
    ensures t.entries.Keys == s.entries.Keys - {name}
    ensures name !in s.entries ==> t == s
    ensures name in s.entries ==> Synced(t)
  {
    if name in s.entries then
      var m := s.entries - {name};
      Store(m, Saved(m))
    else s
  }

  /** After a save the name reads back the saved offset and every other name reads as before. */
  lemma SaveThenGet(s: Store, name: string, offset: nat)
    ensures Get(Save(s, name, offset), name) == offset
    ensures forall other :: other != name ==> Get(Save(s, name, offset), other) == Get(s, other)
  {
  }

  /** After a removal the name reads 0 and every other name reads as before. */
  lemma RemoveThenGet(s: Store, name: string)
    ensures Get(Remove(s, name), name) == 0
    ensures forall other :: other != name ==> Get(Remove(s, name), other) == Get(s, other)
  {
  }

  /** What a save flushes is what a restart loads back. */
  lemma SaveSurvivesRestart(s: Store, name: string, offset: nat)
    ensures Load(Save(s, name, offset).disk) == Save(s, name, offset)
    ensures Get(Load(Save(s, name, offset).disk), name) == offset
  {
  }
}
