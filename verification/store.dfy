/**
 The mutations of the stored record list: `addFile`, `performEdit` and
 `performDelete`, each taking the loaded list and returning the list to save.
 */
module Store {
  import opened Results
  import opened Seqs
  import opened Records
  import opened Text

  /** `addFile` refuses with "Title and Location required!". */
  datatype AddError = TitleOrLocationMissing

  /** Why `performEdit` stopped without saving. */
  datatype EditError =
    | NotFound        // no record carries the id
    | Cancelled       // a prompt was dismissed
    | EmptyTitle      // "Title cannot be empty!"
    | EmptyLocation   // "Location cannot be empty!"

  /** What a successful add or edit leaves behind: trimmed fields and a non-empty title and location. */
  ghost predicate Validated(r: Record)
  {
    && r.title != [] && r.storage != []
    && Trim(r.title) == r.title && Trim(r.storage) == r.storage && Trim(r.info) == r.info
  }

  /**
   `addFile`: trims the three inputs; refuses when the title or location trims to
   nothing, otherwise appends one new record stamped with `newId` and `now`
   (`Date.now()` and the current time in the script).
   */
  function Add(store: seq<Record>, title: string, storage: string, info: string, newId: int, now: Timestamp)
    : (r: Result<seq<Record>, AddError>)
    ensures r.Err? <==> Trim(title) == [] || Trim(storage) == []
    ensures r.Ok? ==> |r.value| == |store| + 1 && r.value[..|store|] == store
    ensures r.Ok? ==>
      var added := r.value[|store|];
      && added.id == newId && added.created == now && added.updated == None
      && IsTrimOf(added.title, title) && IsTrimOf(added.storage, storage) && IsTrimOf(added.info, info)
      && Validated(added)
  {
    var t, s, i := Trim(title), Trim(storage), Trim(info);
    if t == [] || s == [] then
      Err(TitleOrLocationMissing)
    else
      TrimIdempotent(title);
      TrimIdempotent(storage);
      TrimIdempotent(info);
      Ok(store + [Record(newId, t, s, i, now, None)])
  }

  /** `Array.prototype.findIndex` on the id: the first position carrying `id`, if any. */
  function FindIndex(store: seq<Record>, id: int): (r: Option<nat>)
    ensures r.None? <==> id !in Ids(store)
    ensures r.Some? ==>
      && r.value < |store| && store[r.value].id == id
      && forall j :: 0 <= j < r.value ==> store[j].id != id
  {
    if |store| == 0 then None
    else if store[0].id == id then Some(0)
    else
      assert Ids(store) == {store[0].id} + Ids(store[1..]) by {
        assert store == [store[0]] + store[1..];
        IdsAppend([store[0]], store[1..]);
      }
      match FindIndex(store[1..], id)
      case None => None
      case Some(i) => Some(i + 1)
  }

  /**
   `performEdit`: finds the first record carrying `id`, then reads the new title,
   location and information from three prompts (`None` is a dismissed prompt).
   It stops at the first dismissed prompt or empty trimmed title or location;
   otherwise it replaces that one record's three text fields by their trimmed
   values and stamps `updated` with `now`.
   */
  function Edit(store: seq<Record>, id: int, title: Option<string>, storage: Option<string>, info: Option<string>,
                now: Timestamp): (r: Result<seq<Record>, EditError>)
    ensures r == Err(NotFound) <==> id !in Ids(store)
    ensures id in Ids(store) ==>
      && (title.None? ==> r == Err(Cancelled))
      && (title.Some? && Trim(title.value) == [] ==> r == Err(EmptyTitle))
      && (title.Some? && Trim(title.value) != [] && storage.None? ==> r == Err(Cancelled))
      && (title.Some? && Trim(title.value) != [] && storage.Some? && Trim(storage.value) == [] ==> r == Err(EmptyLocation))
      && (title.Some? && Trim(title.value) != [] && storage.Some? && Trim(storage.value) != [] && info.None? ==> r == Err(Cancelled))
    ensures r.Ok? <==>
      && id in Ids(store)
      && title.Some? && Trim(title.value) != []
      && storage.Some? && Trim(storage.value) != []
      && info.Some?
    ensures r.Ok? ==>
      && FindIndex(store, id).Some?
      && var i := FindIndex(store, id).value;
      && |r.value| == |store|
      && (forall j :: 0 <= j < |store| && j != i ==> r.value[j] == store[j])
      && r.value[i].id == id && r.value[i].created == store[i].created
      && r.value[i].title == Trim(title.value)
      && r.value[i].storage == Trim(storage.value)
      && r.value[i].info == Trim(info.value)
      && r.value[i].updated == Some(now)
      && Validated(r.value[i])
  {
    match FindIndex(store, id)
    case None => Err(NotFound)
    case Some(i) =>
      if title.None? then Err(Cancelled)
      else if Trim(title.value) == [] then Err(EmptyTitle)
      else if storage.None? then Err(Cancelled)
      else if Trim(storage.value) == [] then Err(EmptyLocation)
      else if info.None? then Err(Cancelled)
      else
        TrimIdempotent(title.value);
        TrimIdempotent(storage.value);
        TrimIdempotent(info.value);
        var file := store[i];
        Ok(store[i := file.(title := Trim(title.value), storage := Trim(storage.value),
                            info := Trim(info.value), updated := Some(now))])
  }

  /** The test `f.id !== id`. */
  function Other(id: int): (p: Record -> bool)
    ensures forall f :: p(f) <==> f.id != id
  {
    (f: Record) => f.id != id
  }

  /** `performDelete`: keeps every record whose id differs from `id`, in order. */
  function Delete(store: seq<Record>, id: int): (r: seq<Record>)
    ensures IsSubsequence(r, store)
    ensures forall x :: x in r <==> x in store && x.id != id
    ensures |r| == |store| - |Members(store, IdOf, id)|
    ensures Ids(r) == Ids(store) - {id}
    ensures id !in Ids(store) ==> r == store
  {
    var r := Filter(store, Other(id));
    FilterComplementLength(store, Other(id), HasKey(IdOf, id));
    assert id !in Ids(store) ==> r == store by {
      if id !in Ids(store) {
        FilterKeepsAll(store, Other(id));
      }
    }
    r
  }

  /** Deleting the same id twice is the same as deleting it once. */
  lemma {:induction false} DeleteIdempotent(store: seq<Record>, id: int)
    ensures Delete(Delete(store, id), id) == Delete(store, id)
  {
  }

  /** Deleting a freshly added record undoes the add. */
  lemma {:induction false} DeleteUndoesAdd(store: seq<Record>, title: string, storage: string, info: string, newId: int, now: Timestamp)
    requires newId !in Ids(store)
    requires Add(store, title, storage, info, newId, now).Ok?
    ensures Delete(Add(store, title, storage, info, newId, now).value, newId) == store
  {
    var after := Add(store, title, storage, info, newId, now).value;
    assert after == store + [after[|store|]];
    FilterAppend(store, [after[|store|]], Other(newId));
    FilterKeepsAll(store, Other(newId));
  }

  /** Adding under an id not yet in use keeps ids unique. */
  lemma {:induction false} AddKeepsIdsUnique(store: seq<Record>, title: string, storage: string, info: string, newId: int, now: Timestamp)
    requires UniqueIds(store) && newId !in Ids(store)
    requires Add(store, title, storage, info, newId, now).Ok?
    ensures UniqueIds(Add(store, title, storage, info, newId, now).value)
  {
    var after := Add(store, title, storage, info, newId, now).value;
    forall i, j | 0 <= i < j < |after| ensures IdOf(after[i]) != IdOf(after[j]) {
      if j == |store| {
        assert after[i] == store[i];
      } else {
        assert after[i] == store[i] && after[j] == store[j];
      }
    }
  }

  /** An edit changes no id and no creation time, so ids stay unique and the id set is unchanged. */
  lemma {:induction false} EditKeepsIdentity(store: seq<Record>, id: int, title: Option<string>, storage: Option<string>,
                          info: Option<string>, now: Timestamp)
    requires Edit(store, id, title, storage, info, now).Ok?
    ensures var after := Edit(store, id, title, storage, info, now).value;
      && (forall j :: 0 <= j < |store| ==> after[j].id == store[j].id && after[j].created == store[j].created)
      && Ids(after) == Ids(store)
      && (UniqueIds(store) ==> UniqueIds(after))
  {
    var after := Edit(store, id, title, storage, info, now).value;
    var i := FindIndex(store, id).value;
    assert |after| == |store|;
    forall j | 0 <= j < |store| ensures after[j].id == store[j].id && after[j].created == store[j].created {
      if j != i {
        assert after[j] == store[j];
      }
    }
    SameIdsPointwise(after, store);
  }

  /** Every stored record passed validation. */
  ghost predicate AllValidated(store: seq<Record>)
  {
    forall k :: 0 <= k < |store| ==> Validated(store[k])
  }

  /** A successful add keeps every stored record validated. */
  lemma {:induction false} AddKeepsValidated(store: seq<Record>, title: string, storage: string, info: string, newId: int, now: Timestamp)
    requires AllValidated(store)
    requires Add(store, title, storage, info, newId, now).Ok?
    ensures AllValidated(Add(store, title, storage, info, newId, now).value)
  {
    var after := Add(store, title, storage, info, newId, now).value;
    assert |after| == |store| + 1 && after[..|store|] == store;
    assert Validated(after[|store|]);
    forall k | 0 <= k < |store| ensures Validated(after[k]) {
      assert after[k] == after[..|store|][k];
    }
  }

  /** A successful edit keeps every stored record validated. */
  lemma {:induction false} EditKeepsValidated(store: seq<Record>, id: int, title: Option<string>, storage: Option<string>,
                           info: Option<string>, now: Timestamp)
    requires AllValidated(store)
    requires Edit(store, id, title, storage, info, now).Ok?
    ensures AllValidated(Edit(store, id, title, storage, info, now).value)
  {
    var after := Edit(store, id, title, storage, info, now).value;
    var i := FindIndex(store, id).value;
    forall k | 0 <= k < |after| ensures Validated(after[k]) {
      if k != i {
        assert after[k] == store[k];
      }
    }
  }

  /** Deleting keeps every stored record validated. */
  lemma {:induction false} DeleteKeepsValidated(store: seq<Record>, id: int)
    requires AllValidated(store)
    ensures AllValidated(Delete(store, id))
  {
    var after := Delete(store, id);
    forall k | 0 <= k < |after| ensures Validated(after[k]) {
      assert after[k] in store;
    }
  }
}
