/** The child records the scheduler keeps and the pure rebuild that
    flips one availability key of the children with a given id. */
module Children {

  import opened Options

  /** Ids come from the wall clock (milliseconds), so they are numbers. */
  type Id = int

  /** Availability is a sparse object from `"<day>-<time>"` keys to
      `true`; a key that is absent means "not available". */
  type Availability = map<string, bool>

  datatype Child = Child(id: Id, name: string, availability: Availability)

  /** The key a (day, time) cell is stored under. */
  function SlotKey(day: string, time: string): string {
    day + "-" + time
  }

  /** JavaScript truthiness of `availability[key]`: absent reads as
      `undefined`, which is falsy. */
  predicate IsMarked(availability: Availability, key: string) {
    key in availability && availability[key]
  }

  /** No key is ever stored with `false`. */
  ghost predicate TrueOnly(availability: Availability) {
    forall key :: key in availability ==> availability[key]
  }

  ghost predicate AllTrueOnly(children: seq<Child>) {
    forall i :: 0 <= i < |children| ==> TrueOnly(children[i].availability)
  }

  /** `availability` and `availability'` agree on every key but `key`. */
  ghost predicate AgreeExcept(availability: Availability, availability': Availability, key: string) {
    forall k :: k != key ==> (k in availability <==> k in availability')
                             && (k in availability ==> availability[k] == availability'[k])
  }

  /** A copy of the availability object with `key` deleted when it was
      truthy and set to `true` otherwise. */
  function ToggleKey(availability: Availability, key: string): (r: Availability)
    ensures IsMarked(r, key) == !IsMarked(availability, key)
    ensures IsMarked(r, key) <==> key in r
    ensures AgreeExcept(availability, r, key)
    ensures TrueOnly(availability) ==> TrueOnly(r)
  {
    if IsMarked(availability, key) then availability - {key} else availability[key := true]
  }

  /** On a true-only object, toggling one key twice gives the object back. */
  lemma ToggleKeyTwice(availability: Availability, key: string)
    requires TrueOnly(availability)
    ensures ToggleKey(ToggleKey(availability, key), key) == availability
  {
    var once := ToggleKey(availability, key);
    var twice := ToggleKey(once, key);
    assert twice.Keys == availability.Keys;
  }

  /** One record of the rebuild: a child with id `id` gets a fresh
      availability object with `key` flipped; any other child is kept. */
  function ToggleChild(c: Child, id: Id, key: string): Child {
    if c.id == id then c.(availability := ToggleKey(c.availability, key)) else c
  }

  /** The rebuild of the children list, record by record in order. */
  function ToggleChildren(children: seq<Child>, id: Id, key: string): (r: seq<Child>)
    ensures |r| == |children|
    ensures forall i :: 0 <= i < |children| ==>
              r[i].id == children[i].id && r[i].name == children[i].name
    ensures forall i :: 0 <= i < |children| && children[i].id != id ==> r[i] == children[i]
    ensures forall i :: 0 <= i < |children| && children[i].id == id ==>
              IsMarked(r[i].availability, key) == !IsMarked(children[i].availability, key)
              && (key in r[i].availability <==> IsMarked(r[i].availability, key))
              && AgreeExcept(children[i].availability, r[i].availability, key)
    ensures AllTrueOnly(children) ==> AllTrueOnly(r)
  {
    seq(|children|, i requires 0 <= i < |children| => ToggleChild(children[i], id, key))
  }

  /** Toggling the same key for the same id twice restores the whole list. */
  lemma ToggleChildrenTwice(children: seq<Child>, id: Id, key: string)
    requires AllTrueOnly(children)
    ensures ToggleChildren(ToggleChildren(children, id, key), id, key) == children
  {
    var twice := ToggleChildren(ToggleChildren(children, id, key), id, key);
    forall i | 0 <= i < |children| ensures twice[i] == children[i] {
      if children[i].id == id {
        ToggleKeyTwice(children[i].availability, key);
      }
    }
  }

  /** No record carries `id`. */
  predicate IdUnused(children: seq<Child>, id: Id) {
    forall i :: 0 <= i < |children| ==> children[i].id != id
  }

  /** `children.find(c => c.id === id)`: the first record with that id. */
  function FindById(children: seq<Child>, id: Id): (r: Option<Child>)
    ensures r.Some? <==> exists i :: 0 <= i < |children| && children[i].id == id
    ensures r.Some? ==> r.value in children && r.value.id == id
    ensures r.Some? ==> exists i :: 0 <= i < |children| && children[i] == r.value
                                    && forall j :: 0 <= j < i ==> children[j].id != id
  {
    if children == [] then None
    else if children[0].id == id then Some(children[0])
    else
      var r := FindById(children[1..], id);
      assert r.Some? ==> exists i :: 0 <= i < |children[1..]| && children[1..][i] == r.value
                                    && forall j :: 0 <= j < i ==> children[1..][j].id != id;
      r
  }

  /** Adding a record at the end does not change which record an existing
      id finds. */
  lemma {:induction false} FindByIdAppend(children: seq<Child>, c: Child, id: Id)
    requires FindById(children, id).Some?
    ensures FindById(children + [c], id) == FindById(children, id)
  {
    if children[0].id != id {
      assert (children + [c])[1..] == children[1..] + [c];
      FindByIdAppend(children[1..], c, id);
    }
  }

  /** After appending a true-only record, its id finds some record and no
      availability object holds a `false`. */
  lemma AppendAvailable(children: seq<Child>, c: Child)
    requires AllTrueOnly(children) && TrueOnly(c.availability)
    ensures AllTrueOnly(children + [c])
    ensures FindById(children + [c], c.id).Some?
  {
    var all := children + [c];
    assert all[|children|] == c;
    forall i | 0 <= i < |all| ensures TrueOnly(all[i].availability) {
      if i < |children| {
        assert all[i] == children[i];
      }
    }
  }

  /** A record appended under an id no earlier record has is the one that
      id finds. */
  lemma {:induction false} FindByIdFresh(children: seq<Child>, c: Child)
    requires IdUnused(children, c.id)
    ensures FindById(children + [c], c.id) == Some(c)
  {
    if children != [] {
      assert (children + [c])[1..] == children[1..] + [c];
      assert children[0].id != c.id;
      assert IdUnused(children[1..], c.id) by {
        forall i | 0 <= i < |children[1..]| ensures children[1..][i].id != c.id {
          assert children[1..][i] == children[i + 1];
        }
      }
      FindByIdFresh(children[1..], c);
    }
  }
}
