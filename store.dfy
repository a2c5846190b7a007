/**
  The seen-set store: the file of already-notified app ids, read at the start
  of a run and rewritten at its end. The file system is abstracted to the
  three states the loader distinguishes.
 */
module Store {

  /** What the loader finds on disk. `Stored` carries the decoded JSON list. */
  datatype Persisted =
    | Missing                   // the file does not exist
    | Corrupt                   // the file exists but is not valid JSON
    | Stored(ids: seq<string>)  // the file holds a JSON list of ids

  /** The set of ids a run starts from. A missing or corrupt file falls back
      to the empty set instead of failing; a stored list yields exactly its
      elements, duplicates collapsed. */
  function Load(file: Persisted): (seen: set<string>)
    ensures file.Missing? || file.Corrupt? ==> seen == {}
    ensures file.Stored? ==> forall id :: id in seen <==> id in file.ids
  {
    match file
    case Missing => {}
    case Corrupt => {}
    case Stored(ids) => set id | id in ids
  }

  predicate Distinct(ids: seq<string>)
  {
    forall i, j :: 0 <= i < j < |ids| ==> ids[i] != ids[j]
  }

  /** Writes the set as a list, in whatever order the set yields its
      elements. Reading the file back gives the same set, and the list
      holds each id once. */
  method Save(seen: set<string>) returns (file: Persisted)
    ensures file.Stored? && Distinct(file.ids)
    ensures Load(file) == seen
  {
    var rest := seen;
    var ids: seq<string> := [];
    while rest != {}
      invariant rest <= seen
      invariant forall id :: id in ids <==> id in seen && id !in rest
      invariant Distinct(ids)
      decreases rest
    {
      var id :| id in rest;
      ids := ids + [id];
      rest := rest - {id};
    }
    file := Stored(ids);
  }

}
