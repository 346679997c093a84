/** The blob cache of `ImageStorage`: a map from image id to file contents
    that remembers insertion order and holds at most 50 entries. Storing into
    a full cache first evicts the oldest entry; `cleanup` empties it. The
    object URLs it hands out are not modelled. */
module Cache {
  import opened Wrappers
  import Collections

  const MaxCacheSize := 50

  datatype Entry<B> = Entry(id: string, blob: B)

  function EntryId<B>(e: Entry<B>): string { e.id }

  /** The cache in insertion order (a JavaScript `Map`). */
  type Cache<B> = seq<Entry<B>>

  /** A `Map` never holds a key twice, and this one stays within its cap. */
  predicate Valid<B>(c: Cache<B>) {
    Collections.UniqueIds(c, EntryId) && |c| <= MaxCacheSize
  }

  /** `cache.get(id)`. */
  function Lookup<B>(c: Cache<B>, id: string): (r: Option<B>)
    ensures r.None? <==> forall i :: 0 <= i < |c| ==> c[i].id != id
  {
    match Collections.FindById(c, id, EntryId)
    case None => None
    case Some(e) => Some(e.blob)
  }

  /** `cache.set(id, blob)`: overwrite in place when present, else append. */
  function Set<B>(c: Cache<B>, id: string, blob: B): (r: Cache<B>)
    ensures Collections.CountId(c, id, EntryId) > 0 ==> |r| == |c|
    ensures Collections.CountId(c, id, EntryId) == 0 ==> |r| == |c| + 1
    ensures forall i :: 0 <= i < |c| && c[i].id != id ==> r[i] == c[i]
  {
    if Collections.CountId(c, id, EntryId) > 0
    then Collections.UpdateById(c, id, EntryId, (e: Entry<B>) => Entry(id, blob))
    else c + [Entry(id, blob)]
  }

  /** The entries left once a full cache has dropped its oldest one. */
  function Evict<B>(c: Cache<B>): (r: Cache<B>)
    ensures |c| < MaxCacheSize ==> r == c
    ensures |c| >= MaxCacheSize ==>
              |r| == |c| - 1 && (forall i :: 0 <= i < |r| ==> r[i] == c[i + 1])
  {
    if |c| >= MaxCacheSize then c[1..] else c
  }

  /** `storeImage(id, file)`: when the cache is full, the oldest entry goes
      first, whatever its id; then the blob is set. On a valid cache the
      result is valid and finds the stored blob under its id; every other
      id finds what it found before, except that on a full cache the oldest
      entry becomes unreachable. */
  function StoreImage<B>(c: Cache<B>, id: string, blob: B): (r: Cache<B>)
    ensures Valid(c) ==> Valid(r) && Lookup(r, id) == Some(blob)
    ensures Valid(c) && |c| < MaxCacheSize ==>
              forall k :: k != id ==> Lookup(r, k) == Lookup(c, k)
    ensures Valid(c) && |c| == MaxCacheSize && c[0].id != id ==>
              Lookup(r, c[0].id).None?
    ensures Valid(c) && |c| == MaxCacheSize ==>
              forall k :: k != id && k != c[0].id ==> Lookup(r, k) == Lookup(c, k)
  {
    var kept := Evict(c);
    if Valid(c) then
      EvictKeepsValid(c);
      SetFinds(kept, id, blob);
      if |c| == MaxCacheSize then
        EvictKeepsOthers(c);
        if c[0].id != id then
          EvictForgetsOldest(c);
          SetKeepsOthers(kept, id, blob, c[0].id);
          Set(kept, id, blob)
        else Set(kept, id, blob)
      else Set(kept, id, blob)
    else Set(kept, id, blob)
  }

  /** Setting changes no id already stored and stores `id` somewhere. */
  lemma SetIds<B>(c: Cache<B>, id: string, blob: B)
    ensures var r := Set(c, id, blob);
            && (forall i :: 0 <= i < |c| ==> r[i].id == c[i].id)
            && (forall i :: |c| <= i < |r| ==> r[i].id == id)
            && exists j :: 0 <= j < |r| && r[j] == Entry(id, blob)
  {
    var r := Set(c, id, blob);
    if Collections.CountId(c, id, EntryId) > 0 {
      var j :| 0 <= j < |c| && c[j].id == id;
      assert r[j] == Entry(id, blob);
    } else {
      assert r[|c|] == Entry(id, blob);
    }
  }

  /** Setting keeps keys unique and makes the new blob the one found. */
  lemma SetFinds<B>(c: Cache<B>, id: string, blob: B)
    requires Collections.UniqueIds(c, EntryId)
    ensures Collections.UniqueIds(Set(c, id, blob), EntryId)
    ensures Lookup(Set(c, id, blob), id) == Some(blob)
    ensures forall k :: k != id ==> Lookup(Set(c, id, blob), k) == Lookup(c, k)
  {
    var r := Set(c, id, blob);
    SetIds(c, id, blob);
    var j :| 0 <= j < |r| && r[j] == Entry(id, blob);
    Collections.FindUnique(r, j, EntryId);
    forall k | k != id
      ensures Lookup(r, k) == Lookup(c, k)
    {
      SetKeepsOthers(c, id, blob, k);
    }
  }

  lemma SetKeepsOthers<B>(c: Cache<B>, id: string, blob: B, k: string)
    requires Collections.UniqueIds(c, EntryId) && Collections.UniqueIds(Set(c, id, blob), EntryId)
    requires k != id
    ensures Lookup(Set(c, id, blob), k) == Lookup(c, k)
  {
    var r := Set(c, id, blob);
    SetIds(c, id, blob);
    if i :| 0 <= i < |c| && c[i].id == k {
      Collections.FindUnique(c, i, EntryId);
      Collections.FindUnique(r, i, EntryId);
    }
  }

  /** Eviction keeps a valid cache valid, with room for one more entry. */
  lemma EvictKeepsValid<B>(c: Cache<B>)
    requires Valid(c)
    ensures Collections.UniqueIds(Evict(c), EntryId) && |Evict(c)| < MaxCacheSize
  {
    var kept := Evict(c);
    forall i, j | 0 <= i < j < |kept|
      ensures kept[i].id != kept[j].id
    {
      if |c| >= MaxCacheSize {
        assert kept[i] == c[i + 1] && kept[j] == c[j + 1];
      }
    }
  }

  /** On a full cache with unique ids, the oldest id is gone after eviction. */
  lemma EvictForgetsOldest<B>(c: Cache<B>)
    requires Valid(c) && |c| == MaxCacheSize
    ensures Lookup(Evict(c), c[0].id).None?
  {
    var kept := Evict(c);
    forall i | 0 <= i < |kept|
      ensures kept[i].id != c[0].id
    {
      assert kept[i] == c[i + 1];
    }
  }

  /** Eviction from a full cache keeps what every id but the oldest finds. */
  lemma EvictKeepsOthers<B>(c: Cache<B>)
    requires Valid(c) && |c| == MaxCacheSize
    ensures forall k :: k != c[0].id ==> Lookup(Evict(c), k) == Lookup(c, k)
  {
    var kept := Evict(c);
    EvictKeepsValid(c);
    forall k | k != c[0].id
      ensures Lookup(kept, k) == Lookup(c, k)
    {
      if i :| 0 <= i < |c| && c[i].id == k {
        assert i > 0 && kept[i - 1] == c[i];
        Collections.FindUnique(c, i, EntryId);
        Collections.FindUnique(kept, i - 1, EntryId);
      } else {
        forall j | 0 <= j < |kept|
          ensures kept[j].id != k
        {
          assert kept[j] == c[j + 1];
        }
      }
    }
  }

  /** `cleanup()`: the cache is emptied. */
  function Cleanup<B>(c: Cache<B>): (r: Cache<B>)
    ensures Valid(r)
    ensures forall id :: Lookup(r, id).None?
  {
    []
  }
}
