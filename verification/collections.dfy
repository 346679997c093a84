/** The id-keyed list operations the stores share: `list.map(e => e.id === id ?
    f(e) : e)`, `list.filter(e => e.id !== id)` and `list.find(e => e.id === id)`.
    Element types pass their id projection as `idOf`. */
module Collections {
  import opened Wrappers

  /** Number of elements carrying `id`. */
  function CountId<E>(items: seq<E>, id: string, idOf: E -> string): (n: nat)
    ensures n <= |items|
    ensures n == 0 <==> forall i :: 0 <= i < |items| ==> idOf(items[i]) != id
  {
    if |items| == 0 then 0
    else CountId(items[..|items| - 1], id, idOf) + (if idOf(items[|items| - 1]) == id then 1 else 0)
  }

  /** `items.map(e => idOf(e) === id ? f(e) : e)`. */
  function UpdateById<E>(items: seq<E>, id: string, idOf: E -> string, f: E -> E): (r: seq<E>)
    ensures |r| == |items|
    ensures forall i :: 0 <= i < |items| && idOf(items[i]) != id ==> r[i] == items[i]
    ensures forall i :: 0 <= i < |items| && idOf(items[i]) == id ==> r[i] == f(items[i])
  {
    if |items| == 0 then []
    else
      UpdateById(items[..|items| - 1], id, idOf, f)
      + [if idOf(items[|items| - 1]) == id then f(items[|items| - 1]) else items[|items| - 1]]
  }

  /** `items.filter(e => idOf(e) !== id)`. */
  function RemoveById<E>(items: seq<E>, id: string, idOf: E -> string): (r: seq<E>)
    ensures |r| + CountId(items, id, idOf) == |items|
    ensures forall i :: 0 <= i < |r| ==> idOf(r[i]) != id
    ensures forall k :: 0 <= k < |r| ==> r[k] in items
    ensures forall i :: 0 <= i < |items| && idOf(items[i]) != id ==> items[i] in r
  {
    if |items| == 0 then []
    else
      RemoveById(items[..|items| - 1], id, idOf)
      + (if idOf(items[|items| - 1]) == id then [] else [items[|items| - 1]])
  }

  /** `e` sits at a position before which no element carries `id`. */
  ghost predicate FirstMatch<E>(items: seq<E>, id: string, idOf: E -> string, e: E) {
    exists i :: 0 <= i < |items| && items[i] == e && forall j :: 0 <= j < i ==> idOf(items[j]) != id
  }

  /** `items.find(e => idOf(e) === id)`: the first element carrying `id`. */
  function FindById<E>(items: seq<E>, id: string, idOf: E -> string): (r: Option<E>)
    ensures r.None? <==> CountId(items, id, idOf) == 0
    ensures r.Some? ==> r.value in items && idOf(r.value) == id
    ensures r.Some? ==> FirstMatch(items, id, idOf, r.value)
  {
    if |items| == 0 then None
    else if idOf(items[0]) == id then Some(items[0])
    else
      CountIdFirst(items, id, idOf);
      FindById(items[1..], id, idOf)
  }

  /** Counting from the front agrees with counting from the back. */
  lemma {:induction false} CountIdFirst<E>(items: seq<E>, id: string, idOf: E -> string)
    requires |items| > 0
    ensures CountId(items, id, idOf)
         == (if idOf(items[0]) == id then 1 else 0) + CountId(items[1..], id, idOf)
    decreases |items|
  {
    if |items| > 1 {
      var last := |items| - 1;
      assert items[..last][1..] == items[1..][..last - 1];
      CountIdFirst(items[..last], id, idOf);
    }
  }

  /** Finding after an update finds the updated first match. */
  lemma {:induction false} FindAfterUpdate<E>(items: seq<E>, id: string, idOf: E -> string, f: E -> E)
    requires forall e :: idOf(f(e)) == idOf(e)
    ensures FindById(UpdateById(items, id, idOf, f), id, idOf)
         == (match FindById(items, id, idOf) case None => None case Some(e) => Some(f(e)))
    decreases |items|
  {
    if |items| > 0 {
      var u := UpdateById(items, id, idOf, f);
      UpdateByIdTail(items, id, idOf, f);
      if idOf(items[0]) == id {
        assert u[0] == f(items[0]) && idOf(u[0]) == id;
      } else {
        assert u[0] == items[0];
        FindAfterUpdate(items[1..], id, idOf, f);
      }
    }
  }

  /** Updating commutes with dropping the first element. */
  lemma UpdateByIdTail<E>(items: seq<E>, id: string, idOf: E -> string, f: E -> E)
    requires |items| > 0
    ensures UpdateById(items, id, idOf, f)[1..] == UpdateById(items[1..], id, idOf, f)
  {
    var u, t := UpdateById(items, id, idOf, f)[1..], UpdateById(items[1..], id, idOf, f);
    forall i | 0 <= i < |t|
      ensures u[i] == t[i]
    {
      assert items[1..][i] == items[i + 1];
    }
  }

  /** Appending elements does not change what an earlier match finds. */
  lemma {:induction false} FindInPrefix<E>(items: seq<E>, more: seq<E>, id: string, idOf: E -> string)
    requires FindById(items, id, idOf).Some?
    ensures FindById(items + more, id, idOf) == FindById(items, id, idOf)
    decreases |items|
  {
    if idOf(items[0]) != id {
      assert (items + more)[1..] == items[1..] + more;
      FindInPrefix(items[1..], more, id, idOf);
    }
  }

  /** On a list without a match, finding looks into what was appended. */
  lemma {:induction false} FindPastPrefix<E>(items: seq<E>, more: seq<E>, id: string, idOf: E -> string)
    requires FindById(items, id, idOf).None?
    ensures FindById(items + more, id, idOf) == FindById(more, id, idOf)
    decreases |items|
  {
    if |items| == 0 {
      assert items + more == more;
    } else {
      assert (items + more)[1..] == items[1..] + more;
      FindPastPrefix(items[1..], more, id, idOf);
    }
  }

  /** No two elements carry the same id. */
  predicate UniqueIds<E>(items: seq<E>, idOf: E -> string) {
    forall i, j :: 0 <= i < j < |items| ==> idOf(items[i]) != idOf(items[j])
  }

  /** With unique ids, finding an element's id finds that element. */
  lemma FindUnique<E>(items: seq<E>, i: nat, idOf: E -> string)
    requires UniqueIds(items, idOf) && i < |items|
    ensures FindById(items, idOf(items[i]), idOf) == Some(items[i])
  {
    var id := idOf(items[i]);
    assert CountId(items, id, idOf) != 0;
    var t := FindById(items, id, idOf).value;
    var k :| 0 <= k < |items| && items[k] == t;
    assert k == i;
  }

  /** Updating an id no element carries changes nothing. */
  lemma UpdateUnknownId<E>(items: seq<E>, id: string, idOf: E -> string, f: E -> E)
    requires CountId(items, id, idOf) == 0
    ensures UpdateById(items, id, idOf, f) == items
  {
  }

  /** An update with an idempotent, id-preserving merge is idempotent. */
  lemma UpdateTwice<E>(items: seq<E>, id: string, idOf: E -> string, f: E -> E)
    requires forall e :: idOf(f(e)) == idOf(e) && f(f(e)) == f(e)
    ensures UpdateById(UpdateById(items, id, idOf, f), id, idOf, f) == UpdateById(items, id, idOf, f)
  {
  }

  /** Removal distributes over concatenation, so the survivors keep their
      relative order. */
  lemma {:induction false} RemoveConcat<E>(a: seq<E>, b: seq<E>, id: string, idOf: E -> string)
    ensures RemoveById(a + b, id, idOf) == RemoveById(a, id, idOf) + RemoveById(b, id, idOf)
    decreases |b|
  {
    if |b| == 0 {
      assert a + b == a;
    } else {
      var last := |b| - 1;
      assert (a + b)[..|a + b| - 1] == a + b[..last];
      assert (a + b)[|a + b| - 1] == b[last];
      RemoveConcat(a, b[..last], id, idOf);
    }
  }

  /** Two updates of the same id compose when the first keeps the id. */
  lemma UpdateCompose<E>(items: seq<E>, id: string, idOf: E -> string, f: E -> E, g: E -> E)
    requires forall e :: idOf(f(e)) == idOf(e)
    ensures UpdateById(UpdateById(items, id, idOf, f), id, idOf, g)
         == UpdateById(items, id, idOf, e => g(f(e)))
  {
  }

  /** Removing an id no element carries changes nothing. */
  lemma {:induction false} RemoveUnknownId<E>(items: seq<E>, id: string, idOf: E -> string)
    requires CountId(items, id, idOf) == 0
    ensures RemoveById(items, id, idOf) == items
    decreases |items|
  {
    if |items| > 0 {
      var last := |items| - 1;
      assert idOf(items[last]) != id;
      RemoveUnknownId(items[..last], id, idOf);
      assert items[..last] + [items[last]] == items;
    }
  }

  /** Removing after an id-preserving update equals removing outright: the
      update touched only the elements the removal drops. */
  lemma {:induction false} RemoveAfterUpdate<E>(items: seq<E>, id: string, idOf: E -> string, f: E -> E)
    requires forall e :: idOf(f(e)) == idOf(e)
    ensures RemoveById(UpdateById(items, id, idOf, f), id, idOf) == RemoveById(items, id, idOf)
    decreases |items|
  {
    if |items| > 0 {
      var last := |items| - 1;
      var u := UpdateById(items, id, idOf, f);
      assert u[..last] == UpdateById(items[..last], id, idOf, f);
      RemoveAfterUpdate(items[..last], id, idOf, f);
    }
  }
}
