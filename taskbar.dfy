/**
 * The taskbar of js/simple.js as an ordered sequence of buttons. A button is found
 * by its data-window attribute the way querySelector finds it: the first match.
 */
module Taskbar {
  import opened Wrappers

  /** One taskbar button: the window id in its data-window attribute and whether it has the "active" class. */
  datatype Entry = Entry(id: string, active: bool)

  predicate Has(tb: seq<Entry>, id: string)
  {
    exists i :: 0 <= i < |tb| && tb[i].id == id
  }

  /** The buttons' window ids, in taskbar order. */
  function Ids(tb: seq<Entry>): (r: seq<string>)
    ensures |r| == |tb| && forall i :: 0 <= i < |tb| ==> r[i] == tb[i].id
  {
    seq(|tb|, i requires 0 <= i < |tb| => tb[i].id)
  }

  /** No two buttons carry the same window id. */
  predicate NoDuplicates(tb: seq<Entry>)
  {
    forall i, j :: 0 <= i < j < |tb| ==> tb[i].id != tb[j].id
  }

  /** At most one button is highlighted. */
  predicate AtMostOneActive(tb: seq<Entry>)
  {
    forall i, j :: 0 <= i < |tb| && 0 <= j < |tb| && tb[i].active && tb[j].active ==> i == j
  }

  /** querySelector(`[data-window='id']`): the position of the first button for `id`, if any. */
  function FirstIndex(tb: seq<Entry>, id: string): (r: Option<nat>)
    ensures r.None? <==> !Has(tb, id)
    ensures r.Some? ==> r.value < |tb| && tb[r.value].id == id
                        && forall j :: 0 <= j < r.value ==> tb[j].id != id
    decreases |tb|
  {
    if tb == [] then None
    else if tb[0].id == id then Some(0)
    else match FirstIndex(tb[1..], id)
      case None => None
      case Some(k) => Some(k + 1)
  }

  /** The forEach of focusWindow: every button loses the "active" class. */
  function Cleared(tb: seq<Entry>): (r: seq<Entry>)
    ensures Ids(r) == Ids(tb)
    ensures forall i :: 0 <= i < |r| ==> !r[i].active
  {
    seq(|tb|, i requires 0 <= i < |tb| => tb[i].(active := false))
  }

  /** The taskbar part of focusWindow: if `id` has a button, clear all and highlight that one. */
  function Highlight(tb: seq<Entry>, id: string): (r: seq<Entry>)
    ensures Ids(r) == Ids(tb)
    ensures !Has(tb, id) ==> r == tb
    ensures Has(tb, id) ==> r[FirstIndex(tb, id).value] == Entry(id, true)
  {
    match FirstIndex(tb, id)
    case None => tb
    case Some(k) => Cleared(tb)[k := Entry(id, true)]
  }

  /** The taskbar part of minimize: the button of `id`, if any, loses the "active" class. */
  function Deactivate(tb: seq<Entry>, id: string): (r: seq<Entry>)
    ensures Ids(r) == Ids(tb)
    ensures forall i :: 0 <= i < |tb| && !tb[i].active ==> !r[i].active
  {
    match FirstIndex(tb, id)
    case None => tb
    case Some(k) => tb[k := tb[k].(active := false)]
  }

  /** addToTaskbar: nothing if a button for `id` exists, else one new inactive button at the end. */
  function Add(tb: seq<Entry>, id: string): (r: seq<Entry>)
    ensures Has(r, id)
    ensures tb <= r && |r| <= |tb| + 1
  {
    if Has(tb, id) then tb
    else
      var r := tb + [Entry(id, false)];
      assert r[|tb|].id == id;
      r
  }

  /** removeFromTaskbar: the first button for `id`, if any, is removed. */
  function Remove(tb: seq<Entry>, id: string): (r: seq<Entry>)
    ensures |r| == if Has(tb, id) then |tb| - 1 else |tb|
    ensures forall e :: e in r ==> e in tb
  {
    match FirstIndex(tb, id)
    case None => tb
    case Some(k) => tb[..k] + tb[k + 1..]
  }

  /** The buttons of `tb` other than those of `id`, in their order: the reference for removal. */
  function Without(tb: seq<Entry>, id: string): (r: seq<Entry>)
    ensures !Has(r, id)
    ensures |r| <= |tb|
    decreases |tb|
  {
    if tb == [] then []
    else if tb[0].id == id then Without(tb[1..], id)
    else [tb[0]] + Without(tb[1..], id)
  }

  /**
   * Highlighting keeps the buttons and their order; when `id` has a button it is then
   * the only active one, and when it has none every flag is as it was.
   */
  lemma HighlightMarksOnly(tb: seq<Entry>, id: string)
    requires NoDuplicates(tb)
    ensures Ids(Highlight(tb, id)) == Ids(tb)
    ensures Has(tb, id) || AtMostOneActive(tb) ==> AtMostOneActive(Highlight(tb, id))
    ensures Has(tb, id) ==>
      forall i :: 0 <= i < |tb| ==> (Highlight(tb, id)[i].active <==> tb[i].id == id)
    ensures !Has(tb, id) ==> Highlight(tb, id) == tb
  {
    var r := Highlight(tb, id);
    match FirstIndex(tb, id)
    case None =>
    case Some(k) =>
      forall i | 0 <= i < |tb| ensures Ids(r)[i] == Ids(tb)[i] && (r[i].active <==> tb[i].id == id) {
        if i != k { assert r[i] == Cleared(tb)[i]; }
      }
  }

  /** Adding never duplicates, is idempotent, and appends one inactive button for a new id. */
  lemma AddProperties(tb: seq<Entry>, id: string)
    ensures NoDuplicates(tb) ==> NoDuplicates(Add(tb, id))
    ensures AtMostOneActive(tb) ==> AtMostOneActive(Add(tb, id))
    ensures Has(Add(tb, id), id)
    ensures Add(Add(tb, id), id) == Add(tb, id)
    ensures Has(tb, id) ==> Add(tb, id) == tb
    ensures !Has(tb, id) ==> Add(tb, id) == tb + [Entry(id, false)]
    ensures forall x :: Has(Add(tb, id), x) <==> Has(tb, x) || x == id
  {
    var r := Add(tb, id);
    if !Has(tb, id) {
      assert r[|tb|].id == id;
      forall x | Has(r, x) ensures Has(tb, x) || x == id {
        var i :| 0 <= i < |r| && r[i].id == x;
        if i < |tb| { assert tb[i].id == x; }
      }
      forall x | Has(tb, x) ensures Has(r, x) {
        var i :| 0 <= i < |tb| && tb[i].id == x;
        assert r[i].id == x;
      }
    }
  }

  /** Position i of the taskbar without button k holds button i, or i + 1 from k on. */
  function Skip(k: nat, i: nat): nat { if i < k then i else i + 1 }

  lemma RemoveAtIndex(tb: seq<Entry>, k: nat)
    requires k < |tb|
    ensures |tb[..k] + tb[k + 1..]| == |tb| - 1
    ensures forall i :: 0 <= i < |tb| - 1 ==> (tb[..k] + tb[k + 1..])[i] == tb[Skip(k, i)]
  {
  }

  /** Removing keeps exactly the buttons of other windows (with no duplicates). */
  lemma RemoveMembers(tb: seq<Entry>, id: string)
    requires NoDuplicates(tb)
    ensures forall e :: e in Remove(tb, id) <==> e in tb && e.id != id
  {
    match FirstIndex(tb, id)
    case None =>
    case Some(k) =>
      RemoveAtIndex(tb, k);
      var r := tb[..k] + tb[k + 1..];
      forall e ensures e in r <==> e in tb && e.id != id {
        if e in r {
          var j :| 0 <= j < |r| && r[j] == e;
          assert r[j] == tb[Skip(k, j)];
        }
        if e in tb && e.id != id {
          var i :| 0 <= i < |tb| && tb[i] == e;
          if i < k { assert r[i] == e; } else { assert r[i - 1] == e; }
        }
      }
  }

  /** Whether a window has a button after removing: it had one and it is not the removed window. */
  lemma RemoveHas(tb: seq<Entry>, id: string, x: string)
    requires NoDuplicates(tb)
    ensures Has(Remove(tb, id), x) <==> Has(tb, x) && x != id
  {
    RemoveMembers(tb, id);
    var r := Remove(tb, id);
    if Has(r, x) {
      var i :| 0 <= i < |r| && r[i].id == x;
      assert r[i] in r;
    }
    if Has(tb, x) && x != id {
      var i :| 0 <= i < |tb| && tb[i].id == x;
      assert tb[i] in tb;
    }
  }

  /** Removing one button keeps the other buttons distinct and at most one of them active. */
  lemma RemoveAtKeepsInvariants(tb: seq<Entry>, k: nat)
    requires k < |tb|
    ensures NoDuplicates(tb) ==> NoDuplicates(tb[..k] + tb[k + 1..])
    ensures AtMostOneActive(tb) ==> AtMostOneActive(tb[..k] + tb[k + 1..])
  {
    var r := tb[..k] + tb[k + 1..];
    RemoveAtIndex(tb, k);
    if NoDuplicates(tb) {
      forall i, j | 0 <= i < j < |r| ensures r[i].id != r[j].id {
        assert r[i] == tb[Skip(k, i)] && r[j] == tb[Skip(k, j)];
      }
    }
    if AtMostOneActive(tb) {
      forall i, j | 0 <= i < |r| && 0 <= j < |r| && r[i].active && r[j].active ensures i == j {
        assert r[i] == tb[Skip(k, i)] && r[j] == tb[Skip(k, j)];
      }
    }
  }

  /** Filtering distributes over concatenation. */
  lemma {:induction false} WithoutConcat(a: seq<Entry>, b: seq<Entry>, id: string)
    ensures Without(a + b, id) == Without(a, id) + Without(b, id)
    decreases |a|
  {
    if a == [] {
      assert a + b == b;
    } else {
      assert (a + b)[0] == a[0] && (a + b)[1..] == a[1..] + b;
      WithoutConcat(a[1..], b, id);
    }
  }

  /** Filtering out an id that has no button changes nothing. */
  lemma {:induction false} WithoutAbsent(tb: seq<Entry>, id: string)
    requires !Has(tb, id)
    ensures Without(tb, id) == tb
    decreases |tb|
  {
    if tb != [] {
      assert tb[0].id != id;
      assert !Has(tb[1..], id) by {
        forall i | 0 <= i < |tb[1..]| ensures tb[1..][i].id != id { assert tb[1..][i] == tb[i + 1]; }
      }
      WithoutAbsent(tb[1..], id);
      assert tb == [tb[0]] + tb[1..];
    }
  }

  /** A slice whose every button belongs to another window has no button for `id`. */
  lemma SliceLacks(tb: seq<Entry>, id: string, lo: nat, hi: nat)
    requires lo <= hi <= |tb|
    requires forall i :: lo <= i < hi ==> tb[i].id != id
    ensures !Has(tb[lo..hi], id)
  {
    forall i | 0 <= i < hi - lo ensures tb[lo..hi][i].id != id { assert tb[lo..hi][i] == tb[lo + i]; }
  }

  /** Filtering a single button keeps it unless it belongs to `id`. */
  lemma WithoutSingle(e: Entry, id: string)
    ensures Without([e], id) == if e.id == id then [] else [e]
  {
    assert [e][1..] == [];
  }

  /** With no duplicates, removing the first button of `id` is filtering out every button of `id`. */
  lemma RemoveIsWithout(tb: seq<Entry>, id: string)
    requires NoDuplicates(tb)
    ensures Remove(tb, id) == Without(tb, id)
  {
    var f := FirstIndex(tb, id);
    if f.None? {
      WithoutAbsent(tb, id);
    } else {
      var k := f.value;
      RemoveSplit(tb, id, k);
    }
  }

  /** Filtering a taskbar whose only button for `id` is at k drops exactly position k. */
  lemma RemoveSplit(tb: seq<Entry>, id: string, k: nat)
    requires NoDuplicates(tb) && k < |tb| && tb[k].id == id
    ensures Without(tb, id) == tb[..k] + tb[k + 1..]
  {
    var pre, post := tb[..k], tb[k + 1..];
    assert !Has(pre, id) by {
      SliceLacks(tb, id, 0, k);
      assert pre == tb[0..k];
    }
    assert !Has(post, id) by {
      SliceLacks(tb, id, k + 1, |tb|);
      assert post == tb[k + 1..|tb|];
    }
    calc {
      Without(tb, id);
      == { assert tb == (pre + [tb[k]]) + post; }
      Without((pre + [tb[k]]) + post, id);
      == { WithoutConcat(pre + [tb[k]], post, id); }
      Without(pre + [tb[k]], id) + Without(post, id);
      == { WithoutConcat(pre, [tb[k]], id); WithoutSingle(tb[k], id); }
      Without(pre, id) + Without(post, id);
      == { WithoutAbsent(pre, id); WithoutAbsent(post, id); }
      pre + post;
    }
  }

  /** Removal splices out one position, so the other buttons keep their order. */
  lemma RemoveKeepsOrder(tb: seq<Entry>, id: string)
    requires NoDuplicates(tb)
    ensures Has(tb, id) ==>
      exists k :: 0 <= k < |tb| && tb[k].id == id && Remove(tb, id) == tb[..k] + tb[k + 1..]
    ensures Remove(tb, id) == Without(tb, id)
  {
    RemoveIsWithout(tb, id);
    var f := FirstIndex(tb, id);
    if f.Some? {
      var k := f.value;
      assert tb[k].id == id && Remove(tb, id) == tb[..k] + tb[k + 1..];
    }
  }

  /**
   * Removing takes away exactly the button of `id` (with no duplicates, no button for
   * it is left), keeps every other button, and does nothing when there is none.
   */
  lemma RemoveProperties(tb: seq<Entry>, id: string)
    requires NoDuplicates(tb)
    ensures NoDuplicates(Remove(tb, id))
    ensures AtMostOneActive(tb) ==> AtMostOneActive(Remove(tb, id))
    ensures forall x :: Has(Remove(tb, id), x) <==> Has(tb, x) && x != id
    ensures forall e :: e in Remove(tb, id) <==> e in tb && e.id != id
    ensures !Has(tb, id) ==> Remove(tb, id) == tb
    ensures |Remove(tb, id)| == if Has(tb, id) then |tb| - 1 else |tb|
    ensures Remove(Remove(tb, id), id) == Remove(tb, id)
    ensures Has(tb, id) ==>
      exists k :: 0 <= k < |tb| && tb[k].id == id && Remove(tb, id) == tb[..k] + tb[k + 1..]
    ensures Remove(tb, id) == Without(tb, id)
  {
    RemoveKeepsOrder(tb, id);
    RemoveMembers(tb, id);
    RemoveKeeps(tb, id);
    RemoveTwice(tb, id);
    forall x ensures Has(Remove(tb, id), x) <==> Has(tb, x) && x != id {
      RemoveHas(tb, id, x);
    }
  }

  /** Removing keeps the buttons distinct and at most one of them active. */
  lemma RemoveKeeps(tb: seq<Entry>, id: string)
    requires NoDuplicates(tb)
    ensures NoDuplicates(Remove(tb, id))
    ensures AtMostOneActive(tb) ==> AtMostOneActive(Remove(tb, id))
  {
    var f := FirstIndex(tb, id);
    if f.Some? {
      RemoveAtKeepsInvariants(tb, f.value);
    }
  }

  /** A second removal finds no button left and changes nothing. */
  lemma RemoveTwice(tb: seq<Entry>, id: string)
    requires NoDuplicates(tb)
    ensures Remove(Remove(tb, id), id) == Remove(tb, id)
  {
    RemoveHas(tb, id, id);
    assert FirstIndex(Remove(tb, id), id).None?;
  }

  /**
   * Deactivating keeps the buttons and their order and clears only the flag of `id`'s
   * button.
   */
  lemma DeactivateProperties(tb: seq<Entry>, id: string)
    requires NoDuplicates(tb)
    ensures Ids(Deactivate(tb, id)) == Ids(tb)
    ensures forall i :: 0 <= i < |tb| ==>
      Deactivate(tb, id)[i].active == (tb[i].active && tb[i].id != id)
    ensures AtMostOneActive(tb) ==> AtMostOneActive(Deactivate(tb, id))
  {
  }

  /** Buttons with the same ids in the same order keep the ids distinct. */
  lemma SameIdsNoDuplicates(a: seq<Entry>, b: seq<Entry>)
    requires Ids(a) == Ids(b) && NoDuplicates(a)
    ensures NoDuplicates(b)
  {
    forall i, j | 0 <= i < j < |b| ensures b[i].id != b[j].id {
      assert Ids(a)[i] == a[i].id && Ids(a)[j] == a[j].id;
    }
  }

  /** Buttons with the same ids have a button for the same windows. */
  lemma SameIdsHas(a: seq<Entry>, b: seq<Entry>, x: string)
    requires Ids(a) == Ids(b)
    ensures Has(a, x) <==> Has(b, x)
  {
    if Has(a, x) {
      var i :| 0 <= i < |a| && a[i].id == x;
      assert Ids(b)[i] == x;
    }
    if Has(b, x) {
      var i :| 0 <= i < |b| && b[i].id == x;
      assert Ids(a)[i] == x;
    }
  }
}
