/** The state of the scheduling screen: the list of children and the child
    currently selected for editing, with the operations that change them. */
module Scheduler {

  import opened Options
  import opened Text
  import opened Children
  import opened Aggregation

  class App {
    /** The children in the order they were added. */
    var children: seq<Child>
    /** The selected child: a copy of a record of `children`, or none. */
    var current: Option<Child>

    /** The selection always names a record of the list, and no availability
        object holds a `false`. */
    ghost predicate Valid()
      reads this
    {
      && AllTrueOnly(children)
      && (current.Some? ==> current.value in children)
    }

    /** The screen starts with no children and no selection. */
    constructor ()
      ensures Valid()
      ensures children == [] && current == None
    {
      children := [];
      current := None;
    }

    /** The effect that runs after every change of `children`: while a child
        is selected and the list is not empty, the selection is replaced by
        the first record carrying the same id, when there is one. */
    method SyncCurrent()
      modifies this`current
      ensures if old(current).Some? && children != [] && FindById(children, old(current).value.id).Some?
              then current == FindById(children, old(current).value.id)
              else current == old(current)
    {
      if |children| > 0 && current.Some? {
        var updated := FindById(children, current.value.id);
        if updated.Some? {
          current := updated;
        }
      }
    }

    /** `addChild`: a name that trims to nothing is ignored; otherwise a record
        with the trimmed name, the clock reading `now` as id and no
        availability is appended and selected. */
    method AddChild(childName: string, now: Id)
      requires Valid()
      modifies this
      ensures Valid()
      ensures Trim(childName) == [] ==> children == old(children) && current == old(current)
      ensures Trim(childName) != [] ==>
                && children == old(children) + [Child(now, Trim(childName), map[])]
                && current == FindById(children, now)
      ensures Trim(childName) != [] && IdUnused(old(children), now) ==>
                current == Some(Child(now, Trim(childName), map[]))
    {
      var name := Trim(childName);
      if name != [] {
        var newChild := Child(now, name, map[]);
        ghost var before := children;
        AppendAvailable(children, newChild);
        children := children + [newChild];
        current := Some(newChild);
        SyncCurrent();
        assert current == FindById(children, now);
        assert current.Some? && current.value in children;
        if IdUnused(before, now) {
          FindByIdFresh(before, newChild);
        }
      }
    }

    /** `toggleSlot`: without a selection nothing happens; otherwise every
        record carrying the selected id has the cell's key flipped, and the
        selection is re-read from the new list. */
    method ToggleSlot(day: string, time: string)
      requires Valid()
      modifies this
      ensures Valid()
      ensures old(current).None? ==> children == old(children) && current == old(current)
      ensures old(current).Some? ==>
                && children == ToggleChildren(old(children), old(current).value.id, SlotKey(day, time))
                && current == FindById(children, old(current).value.id)
    {
      if current.None? {
        return;
      }
      var id := current.value.id;
      children := ToggleChildren(children, id, SlotKey(day, time));
      assert exists i :: 0 <= i < |old(children)| && old(children)[i] == old(current).value;
      assert FindById(children, id).Some?;
      SyncCurrent();
    }

    /** `switchChild`: selects the given record. The screen only offers the
        records of the list, and exactly those keep the selection valid. */
    method SwitchChild(child: Child)
      requires Valid()
      modifies this`current
      ensures current == Some(child)
      ensures Valid() <==> child in children
    {
      current := Some(child);
    }

    /** `isCurrentChildAvailable`: false without a selection; otherwise whether
        the selected child has the cell marked, which is whether it is among
        the children available in that cell. */
    function IsCurrentChildAvailable(day: string, time: string): (r: bool)
      reads this
      requires Valid()
      ensures current.None? ==> !r
      ensures r <==> current.Some? && current.value in AvailableChildren(children, day, time)
    {
      current.Some? && IsMarked(current.value.availability, SlotKey(day, time))
    }
  }

  /** Toggling the same cell twice in a row gives back the children list,
      and no other state than the selection's copy is touched. */
  method ToggleSlotTwiceRestores(app: App, day: string, time: string)
    requires app.Valid()
    modifies app
    ensures app.Valid()
    ensures app.children == old(app.children)
    ensures old(app.current).Some? ==> app.current == FindById(app.children, old(app.current).value.id)
    ensures old(app.current).None? ==> app.current == None
  {
    if app.current.None? {
      app.ToggleSlot(day, time);
      app.ToggleSlot(day, time);
    } else {
      ghost var id := app.current.value.id;
      app.ToggleSlot(day, time);
      app.ToggleSlot(day, time);
      ToggleChildrenTwice(old(app.children), id, SlotKey(day, time));
    }
  }
}
