/**
 * The configured GIF sources (`GifItem`) and the operations the view model
 * performs on its ordered list of them: find the first item with an id,
 * flip its enabled flag, and remove every item with an id.
 */
module GifItems {
  import opened Wrappers

  /** The item identity; a UUID in the application, only compared for equality here. */
  datatype Uuid = Uuid(value: nat)

  /** Where the GIF comes from. */
  datatype PathType = Url | File

  /** One configured GIF source. `id` is fixed at creation; the other fields are record fields. */
  datatype GifItem = GifItem(id: Uuid, path: string, isEnabled: bool, pathType: PathType)

  /** Some item of the list carries `id`. */
  predicate Contains(items: seq<GifItem>, id: Uuid) {
    exists j :: 0 <= j < |items| && items[j].id == id
  }

  /** No two items of the list share an id (what fresh UUIDs give the application). */
  predicate DistinctIds(items: seq<GifItem>) {
    forall i, j :: 0 <= i < j < |items| ==> items[i].id != items[j].id
  }

  /** The ids of the enabled items. */
  function EnabledIds(items: seq<GifItem>): set<Uuid> {
    set x | x in items && x.isEnabled :: x.id
  }

  /** Extending the list by one item adds its id to the enabled ids exactly when it is enabled. */
  lemma EnabledIdsAppend(items: seq<GifItem>, x: GifItem)
    ensures EnabledIds(items + [x]) == EnabledIds(items) + (if x.isEnabled then {x.id} else {})
  {
    assert forall y :: y in items + [x] <==> y in items || y == x;
  }

  // ---------------------------------------------------------------------------
  // firstIndex(where: { $0.id == id })

  /** The position of the first item with `id`, if there is one. */
  function FirstIndexOf(items: seq<GifItem>, id: Uuid): (r: Option<nat>)
    ensures r.Some? ==> r.value < |items| && items[r.value].id == id
    ensures r.Some? ==> forall j :: 0 <= j < r.value ==> items[j].id != id
    ensures r.None? <==> !Contains(items, id)
  {
    if items == [] then None
    else if items[0].id == id then Some(0)
    else match FirstIndexOf(items[1..], id)
         case None => None
         case Some(k) => Some(k + 1)
  }

  /** The linear search that `Array.firstIndex(where:)` performs. */
  method FindFirstIndex(items: seq<GifItem>, id: Uuid) returns (r: Option<nat>)
    ensures r == FirstIndexOf(items, id)
  {
    var i := 0;
    while i < |items|
      invariant 0 <= i <= |items|
      invariant forall j :: 0 <= j < i ==> items[j].id != id
    {
      if items[i].id == id {
        return Some(i);
      }
      i := i + 1;
    }
    return None;
  }

  /** Two lists with the same ids position by position have the same first index for every id. */
  lemma FirstIndexOfSameIds(a: seq<GifItem>, b: seq<GifItem>, id: Uuid)
    requires |a| == |b|
    requires forall j :: 0 <= j < |a| ==> a[j].id == b[j].id
    ensures FirstIndexOf(a, id) == FirstIndexOf(b, id)
  {
    assert Contains(a, id) <==> Contains(b, id);
  }

  // ---------------------------------------------------------------------------
  // toggleItem

  /** The list after `items[index].isEnabled.toggle()` on the first item with `id`, if any. */
  function Toggled(items: seq<GifItem>, id: Uuid): (r: seq<GifItem>)
    ensures |r| == |items|
    ensures forall j :: 0 <= j < |items| ==>
      r[j].id == items[j].id && r[j].path == items[j].path && r[j].pathType == items[j].pathType
    ensures forall j :: 0 <= j < |items| ==>
      (r[j].isEnabled != items[j].isEnabled <==> FirstIndexOf(items, id) == Some(j))
    ensures !Contains(items, id) ==> r == items
  {
    match FirstIndexOf(items, id)
    case None => items
    case Some(k) => items[k := items[k].(isEnabled := !items[k].isEnabled)]
  }

  /** Toggling the same id twice restores the list. */
  lemma ToggledTwice(items: seq<GifItem>, id: Uuid)
    ensures Toggled(Toggled(items, id), id) == items
  {
    var once := Toggled(items, id);
    FirstIndexOfSameIds(items, once, id);
    var twice := Toggled(once, id);
    assert forall j :: 0 <= j < |items| ==> twice[j] == items[j];
  }

  /** Toggling never changes the ids, so it keeps them distinct. */
  lemma ToggledKeepsDistinct(items: seq<GifItem>, id: Uuid)
    requires DistinctIds(items)
    ensures DistinctIds(Toggled(items, id))
  {
  }

  /** With distinct ids, toggling an id present in the list flips exactly whether that id is enabled. */
  lemma ToggledEnabledIds(items: seq<GifItem>, id: Uuid)
    requires DistinctIds(items) && Contains(items, id)
    ensures id in EnabledIds(Toggled(items, id)) <==> id !in EnabledIds(items)
    ensures EnabledIds(Toggled(items, id)) - {id} == EnabledIds(items) - {id}
  {
    var r := Toggled(items, id);
    var k := FirstIndexOf(items, id).value;
    forall x | x in items && x.id == id
      ensures x == items[k]
    {
      var j :| 0 <= j < |items| && items[j] == x;
      assert j == k;
    }
    forall x | x in r && x.id == id
      ensures x == r[k]
    {
      var j :| 0 <= j < |r| && r[j] == x;
      assert j == k;
    }
    assert items[k] in items;
    assert r[k] in r;
    forall u | u != id
      ensures u in EnabledIds(r) <==> u in EnabledIds(items)
    {
      if u in EnabledIds(r) {
        var x :| x in r && x.isEnabled && x.id == u;
        var j :| 0 <= j < |r| && r[j] == x;
        assert items[j] == x;
      }
      if u in EnabledIds(items) {
        var x :| x in items && x.isEnabled && x.id == u;
        var j :| 0 <= j < |items| && items[j] == x;
        assert r[j] == x;
      }
    }
  }

  // ---------------------------------------------------------------------------
  // removeItem: items.removeAll { $0.id == id }

  /** The list with every item carrying `id` left out, the others in their order. */
  function Without(items: seq<GifItem>, id: Uuid): (r: seq<GifItem>)
    ensures forall x :: x in r <==> x in items && x.id != id
    ensures |r| <= |items|
  {
    if items == [] then []
    else if items[0].id == id then Without(items[1..], id)
    else [items[0]] + Without(items[1..], id)
  }

  /** The filtering loop that `Array.removeAll(where:)` performs. */
  method RemoveAll(items: seq<GifItem>, id: Uuid) returns (kept: seq<GifItem>)
    ensures kept == Without(items, id)
  {
    kept := [];
    var i := |items|;
    while i > 0
      invariant 0 <= i <= |items|
      invariant kept == Without(items[i..], id)
    {
      i := i - 1;
      assert items[i..][1..] == items[i + 1..];
      if items[i].id != id {
        kept := [items[i]] + kept;
      }
    }
    assert items[0..] == items;
  }

  /** Removal distributes over concatenation: each part keeps its own order. */
  lemma {:induction false} WithoutConcat(a: seq<GifItem>, b: seq<GifItem>, id: Uuid)
    ensures Without(a + b, id) == Without(a, id) + Without(b, id)
  {
    if a == [] {
      assert a + b == b;
    } else {
      assert (a + b)[0] == a[0];
      assert (a + b)[1..] == a[1..] + b;
      WithoutConcat(a[1..], b, id);
      var rest := Without(a[1..], id) + Without(b, id);
      if a[0].id == id {
        assert Without(a + b, id) == rest;
      } else {
        assert Without(a + b, id) == [a[0]] + rest;
        assert [a[0]] + rest == ([a[0]] + Without(a[1..], id)) + Without(b, id);
      }
    }
  }

  /** Two kept items appear in the result in the order they had in the list. */
  lemma WithoutKeepsOrder(items: seq<GifItem>, id: Uuid, i: nat, j: nat)
    requires i < j < |items|
    requires items[i].id != id && items[j].id != id
    ensures var r := Without(items, id);
      exists i', j' :: 0 <= i' < j' < |r| && r[i'] == items[i] && r[j'] == items[j]
  {
    var front, back := items[..j], items[j..];
    assert items == front + back;
    WithoutConcat(front, back, id);
    var wf, wb := Without(front, id), Without(back, id);
    assert back[1..] == items[j + 1..];
    assert wb == [items[j]] + Without(items[j + 1..], id);
    assert items[i] == front[i];
    assert items[i] in wf;
    var i' :| 0 <= i' < |wf| && wf[i'] == items[i];
    var r := Without(items, id);
    assert r == wf + wb;
    assert r[i'] == items[i] && r[|wf|] == items[j];
  }

  /** Removal is a no-op exactly when no item carries the id. */
  lemma {:induction false} WithoutNoOp(items: seq<GifItem>, id: Uuid)
    ensures Without(items, id) == items <==> !Contains(items, id)
  {
    if items == [] {
    } else {
      WithoutNoOp(items[1..], id);
      if Without(items, id) == items {
        assert forall j :: 0 <= j < |items| ==> items[j] in Without(items, id);
      }
      if !Contains(items, id) {
        assert items[0].id != id;
        assert !Contains(items[1..], id) by {
          forall j | 0 <= j < |items| - 1 ensures items[1..][j].id != id {
            assert items[1..][j] == items[j + 1];
          }
        }
        assert [items[0]] + items[1..] == items;
      }
    }
  }

  /** Removing the same id twice is the same as removing it once. */
  lemma WithoutIdempotent(items: seq<GifItem>, id: Uuid)
    ensures Without(Without(items, id), id) == Without(items, id)
  {
    WithoutNoOp(Without(items, id), id);
  }

  /** With distinct ids, removing a present id shortens the list by exactly one. */
  lemma {:induction false} WithoutRemovesOne(items: seq<GifItem>, id: Uuid)
    requires DistinctIds(items) && Contains(items, id)
    ensures |Without(items, id)| == |items| - 1
  {
    if items[0].id == id {
      WithoutNoOp(items[1..], id);
      assert !Contains(items[1..], id) by {
        forall j | 0 <= j < |items| - 1 ensures items[1..][j].id != id {
          assert items[1..][j] == items[j + 1];
        }
      }
    } else {
      var j :| 0 <= j < |items| && items[j].id == id;
      assert items[1..][j - 1].id == id;
      WithoutRemovesOne(items[1..], id);
    }
  }

  /** Removal keeps the ids distinct. */
  lemma {:induction false} WithoutKeepsDistinct(items: seq<GifItem>, id: Uuid)
    requires DistinctIds(items)
    ensures DistinctIds(Without(items, id))
  {
    if items != [] {
      assert DistinctIds(items[1..]) by {
        forall i, j | 0 <= i < j < |items| - 1 ensures items[1..][i].id != items[1..][j].id {
          assert items[1..][i] == items[i + 1] && items[1..][j] == items[j + 1];
        }
      }
      WithoutKeepsDistinct(items[1..], id);
      var rest := Without(items[1..], id);
      forall x | x in rest ensures x.id != items[0].id {
        var j :| 0 <= j < |items| - 1 && items[1..][j] == x;
        assert items[j + 1] == x;
      }
    }
  }

  // ---------------------------------------------------------------------------
  // addItem

  /** Appending an item whose id is not yet in the list keeps the ids distinct. */
  lemma AppendFreshKeepsDistinct(items: seq<GifItem>, item: GifItem)
    requires DistinctIds(items) && !Contains(items, item.id)
    ensures DistinctIds(items + [item])
  {
    var r := items + [item];
    forall i, j | 0 <= i < j < |r| ensures r[i].id != r[j].id {
      if j == |items| {
        assert r[i] == items[i];
      } else {
        assert r[i] == items[i] && r[j] == items[j];
      }
    }
  }
}
