/** Sidechain events by height (CSidechainEvents and its map), and their transpose by sidechain. */
module EventIndex {
  import opened Outcomes
  import opened SidechainTypes

  type ScId = Hash

  datatype Events = Events(ceasing: set<ScId>, maturing: set<ScId>) {
    predicate IsNull() {
      ceasing == {} && maturing == {}
    }
  }

  const NO_EVENTS := Events({}, {})

  type Index = map<int, Events>

  function At(ev: Index, h: int): Events {
    if h in ev then ev[h] else NO_EVENTS
  }

  /** Stores the events of a height; an empty record is erased. */
  function Store(ev: Index, h: int, e: Events): Index {
    if e.IsNull() then ev - {h} else ev[h := e]
  }

  function AddMaturing(ev: Index, h: int, id: ScId): Index {
    Store(ev, h, At(ev, h).(maturing := At(ev, h).maturing + {id}))
  }

  function DropMaturing(ev: Index, h: int, id: ScId): Index {
    Store(ev, h, At(ev, h).(maturing := At(ev, h).maturing - {id}))
  }

  function AddCeasing(ev: Index, h: int, id: ScId): Index {
    Store(ev, h, At(ev, h).(ceasing := At(ev, h).ceasing + {id}))
  }

  function DropCeasing(ev: Index, h: int, id: ScId): Index {
    Store(ev, h, At(ev, h).(ceasing := At(ev, h).ceasing - {id}))
  }

  /** No height carries an empty record. */
  ghost predicate Normal(ev: Index) {
    forall h :: h in ev ==> !ev[h].IsNull()
  }

  /** The heights at which a sidechain is listed as maturing. */
  ghost function Maturing(ev: Index, id: ScId): set<int> {
    set h | h in ev && id in ev[h].maturing
  }

  /** The heights at which a sidechain is listed as ceasing. */
  ghost function Ceasing(ev: Index, id: ScId): set<int> {
    set h | h in ev && id in ev[h].ceasing
  }

  lemma StoreTransposed(ev: Index, h: int, e: Events, id: ScId)
    ensures Maturing(Store(ev, h, e), id) == Maturing(ev, id) - {h} + (if id in e.maturing then {h} else {})
    ensures Ceasing(Store(ev, h, e), id) == Ceasing(ev, id) - {h} + (if id in e.ceasing then {h} else {})
    ensures Normal(ev) ==> Normal(Store(ev, h, e))
  {
  }

  lemma AtTransposed(ev: Index, h: int, id: ScId)
    ensures id in At(ev, h).maturing <==> h in Maturing(ev, id)
    ensures id in At(ev, h).ceasing <==> h in Ceasing(ev, id)
  {
  }

  /** The four updates move one listing of one sidechain. */
  lemma UpdateTransposed(ev: Index, h: int, id: ScId, other: ScId)
    ensures Maturing(AddMaturing(ev, h, id), other) == Maturing(ev, other) + (if other == id then {h} else {})
    ensures Ceasing(AddMaturing(ev, h, id), other) == Ceasing(ev, other)
    ensures Maturing(DropMaturing(ev, h, id), other) == Maturing(ev, other) - (if other == id then {h} else {})
    ensures Ceasing(DropMaturing(ev, h, id), other) == Ceasing(ev, other)
    ensures Ceasing(AddCeasing(ev, h, id), other) == Ceasing(ev, other) + (if other == id then {h} else {})
    ensures Maturing(AddCeasing(ev, h, id), other) == Maturing(ev, other)
    ensures Ceasing(DropCeasing(ev, h, id), other) == Ceasing(ev, other) - (if other == id then {h} else {})
    ensures Maturing(DropCeasing(ev, h, id), other) == Maturing(ev, other)
  {
    AtTransposed(ev, h, other);
    var e := At(ev, h);
    StoreTransposed(ev, h, e.(maturing := e.maturing + {id}), other);
    StoreTransposed(ev, h, e.(maturing := e.maturing - {id}), other);
    StoreTransposed(ev, h, e.(ceasing := e.ceasing + {id}), other);
    StoreTransposed(ev, h, e.(ceasing := e.ceasing - {id}), other);
  }

  /** Nothing changes for sidechains other than `id`, and normal form is kept. */
  ghost predicate SameButFor(ev: Index, ev': Index, id: ScId) {
    && (forall other :: other != id ==>
      Maturing(ev', other) == Maturing(ev, other) && Ceasing(ev', other) == Ceasing(ev, other))
    && (Normal(ev) ==> Normal(ev'))
  }

  lemma UpdateSameButFor(ev: Index, h: int, id: ScId)
    ensures SameButFor(ev, AddMaturing(ev, h, id), id) && SameButFor(ev, DropMaturing(ev, h, id), id)
    ensures SameButFor(ev, AddCeasing(ev, h, id), id) && SameButFor(ev, DropCeasing(ev, h, id), id)
  {
    forall other | other != id
      ensures Maturing(AddMaturing(ev, h, id), other) == Maturing(ev, other)
      ensures Ceasing(AddMaturing(ev, h, id), other) == Ceasing(ev, other)
      ensures Maturing(DropMaturing(ev, h, id), other) == Maturing(ev, other)
      ensures Ceasing(DropMaturing(ev, h, id), other) == Ceasing(ev, other)
      ensures Maturing(AddCeasing(ev, h, id), other) == Maturing(ev, other)
      ensures Ceasing(AddCeasing(ev, h, id), other) == Ceasing(ev, other)
      ensures Maturing(DropCeasing(ev, h, id), other) == Maturing(ev, other)
      ensures Ceasing(DropCeasing(ev, h, id), other) == Ceasing(ev, other)
    {
      UpdateTransposed(ev, h, id, other);
    }
  }

  /** A height at which nobody is listed carries no record. */
  lemma UnlistedHeight(ev: Index, h: int)
    requires Normal(ev)
    requires forall id :: h !in Maturing(ev, id) && h !in Ceasing(ev, id)
    ensures h !in ev
  {
    if h in ev {
      AtTransposed(ev, h, Pick(ev[h].ceasing + ev[h].maturing));
    }
  }

  /** A normal index is determined by what it says about each sidechain. */
  lemma TransposeDetermines(a: Index, b: Index)
    requires Normal(a) && Normal(b)
    requires forall id :: Maturing(a, id) == Maturing(b, id) && Ceasing(a, id) == Ceasing(b, id)
    ensures a == b
  {
    forall h, id
      ensures id in At(a, h).maturing <==> id in At(b, h).maturing
      ensures id in At(a, h).ceasing <==> id in At(b, h).ceasing
    {
      AtTransposed(a, h, id);
      AtTransposed(b, h, id);
    }
    forall h
      ensures At(a, h) == At(b, h)
    {
      assert At(a, h).maturing == At(b, h).maturing;
      assert At(a, h).ceasing == At(b, h).ceasing;
    }
    forall h
      ensures h in a.Keys <==> h in b.Keys
    {
      assert At(a, h) == At(b, h);
    }
    assert a.Keys == b.Keys;
    forall h | h in a
      ensures a[h] == b[h]
    {
      assert At(a, h) == At(b, h);
    }
  }
}
